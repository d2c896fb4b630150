/** How the client's guards and reactions meet the server's replies: what a signed-out or
    non-admin dashboard sees, and why requests the client lets through never hit the server's 400s. */
module EndToEnd {
  import opened Common
  import opened Tables
  import Strings
  import opened Db
  import Auth
  import Renderer
  import opened Routes
  import Client

  /** The card the client builds from a row of `GET /cards`. */
  function ToCard(row: Row<CardData>): (c: Client.Card)
    ensures c.id == row.id && c.name == row.data.name && c.category == row.data.category
    ensures c.imagePath == row.data.imagePath
  {
    Client.Card(row.id, row.data.name, row.data.imagePath, row.data.category)
  }

  /** The Authorization header the client sends. */
  function BearerHeader(token: string): Option<string> {
    Some(Auth.Bearer + token)
  }

  /** A token Google rejects, on a request the admin dashboard sends through `authFetch`, ends on
      the login screen. (The selection and personalize screens do not sign out on a 401.) */
  lemma RejectedTokenSignsOut(s: Store, cfg: Auth.Config, w: World, token: string, req: Request,
                              st: Client.AppState)
    requires Client.ScreenOf(st) == Client.AdminDashboard
    requires ' ' !in token
    requires !Auth.Bypass(cfg, BearerHeader(token))
    requires w.verify(token, Auth.Audience(cfg)) == Auth.Invalid
    ensures Handle(s, cfg, w, BearerHeader(token), req).status == 401
    ensures Client.ScreenOf(Client.AfterReply(st, Handle(s, cfg, w, BearerHeader(token), req).status)) == Client.Login
  {
    Auth.BearerTokenRoundTrip(token);
  }

  /** A signed-in user who is not on the allow-list gets the dashboard's access-denied message
      from every admin route, and the store is untouched. */
  lemma NonAdminDashboardDenied(s: Store, cfg: Auth.Config, w: World, token: string, req: Request,
                                email: string)
    requires ' ' !in token && AdminOnly(req)
    requires !Auth.Bypass(cfg, BearerHeader(token))
    requires w.verify(token, Auth.Audience(cfg)) == Auth.Verified(Some(email))
    requires email != "" && email !in Auth.AllowList(cfg)
    ensures var r := Handle(s, cfg, w, BearerHeader(token), req);
            && r.store == s
            && Client.AuthFetch(r.status) == Client.AccessDenied(Client.DeniedMessage)
  {
    Auth.BearerTokenRoundTrip(token);
  }

  /** A generate request the client sends, for a card it was shown, never gets the server's 400:
      the card's key is at least 1 and the name is not blank. */
  lemma ClientGenerateAccepted(s: Store, cfg: Auth.Config, w: World, header: Option<string>,
                               i: nat, name: string, greeting: string)
    requires Tables.Valid(s.cards) && i < |s.cards.rows|
    requires Client.GenerateAction(ToCard(s.cards.rows[i]), name, greeting).Some?
    requires Auth.Authenticate(cfg, header, w.verify).Identity?
    ensures var b := Client.GenerateAction(ToCard(s.cards.rows[i]), name, greeting).value;
            Handle(s, cfg, w, header, Routes.Generate(Some(b.cardId), Some(b.userName), Some(b.greeting))).status != 400
  {
    var b := Client.GenerateAction(ToCard(s.cards.rows[i]), name, greeting).value;
    var req := Routes.Generate(Some(b.cardId), Some(b.userName), Some(b.greeting));
    var who := Auth.Authenticate(cfg, header, w.verify);
    assert Handle(s, cfg, w, header, req) == Serve(s, who.isAdmin, w, req);
    assert !Strings.AllSpace(name) && Strings.AllSpace("");
    assert TruthyNumber(Some(b.cardId)) && TruthyText(Some(b.userName));
  }

  /** With no greeting chosen the client sends "", which the renderer treats as no greeting:
      the card carries the name alone. */
  lemma NoGreetingMeansNameOnly(card: CardData, name: string)
    ensures Renderer.Content(card, name, Some("")) == Renderer.NameOnly(name)
  {
  }

  /** A greeting the client sends is never turned away as missing text. */
  lemma ClientGreetingAccepted(s: Store, input: string)
    requires Client.AddGreetingAction(input).Some?
    ensures AddGreetingHandler(s, Some(Client.AddGreetingAction(input).value)).status != 400
  {
  }
}
