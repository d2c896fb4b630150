/** The API router of `server/src/routes.ts` as a state machine: each request, with its
    Authorization header, takes the store to a reply (status and JSON body) and a new store.
    The outside world enters as `World`: Google's token check, the clock and the image library. */
module Routes {
  import opened Common
  import opened Tables
  import Seqs
  import Strings
  import opened Db
  import Renderer
  import Popularity
  import Ordering
  import Auth

  /** A numeric multipart field: the text sent, and what `Number()` reads from it. */
  datatype FormNumber = FormNumber(text: string, number: int)

  /** The multipart fields of an upload (`None` = field not sent). */
  datatype CardForm = CardForm(
    name: Option<string>,
    category: Option<string>,
    x: Option<FormNumber>,
    y: Option<FormNumber>,
    size: Option<FormNumber>,
    color: Option<string>)

  /** The uploaded image file as multer stored it. */
  datatype Upload = Upload(originalName: string)

  /** The JSON body of `PUT /cards/:id` (`None` = key absent). */
  datatype CardPatch = CardPatch(
    name: Option<string>,
    category: Option<string>,
    x: Option<int>,
    y: Option<int>,
    size: Option<int>,
    color: Option<string>,
    active: Option<int>)

  datatype Request =
    | ListCards(adminQuery: Option<string>)                                         // GET /cards
    | Generate(cardId: Option<int>, userName: Option<string>, greeting: Option<string>) // POST /generate
    | ListGreetings                                                                  // GET /greetings
    | GetStats                                                                       // GET /stats
    | AddGreeting(text: Option<string>)                                              // POST /greetings
    | RemoveGreeting(gid: int)                                                       // DELETE /greetings/:id
    | AddCard(form: CardForm, file: Option<Upload>)                                  // POST /cards
    | RemoveCard(id: int)                                                            // DELETE /cards/:id
    | EditCard(id: int, patch: CardPatch)                                            // PUT /cards/:id

  /** One entry of `popularCards`: a card name and its `use_count`. */
  datatype Popular = Popular(name: string, useCount: nat)

  /** The JSON reply bodies. */
  datatype Body =
    | Error(message: string)
    | Cards(cards: seq<Row<CardData>>)
    | Url(url: string)
    | Greetings(greetings: seq<Row<string>>)
    | Stats(totalGenerated: nat, popularCards: seq<Popular>)
    | GreetingCreated(id: nat, text: string)
    | CardCreated(id: nat)
    | Success

  datatype Response = Response(status: int, body: Body, store: Store)

  /** What a request reads from outside the store. */
  datatype World = World(
    verify: (string, string) -> Auth.Verdict,
    now: nat,
    imaging: Renderer.Imaging)

  const MissingFields := "Missing cardId or userName"
  const GenerateFailed := "Failed to generate card"
  const TextRequired := "Text required"
  const NoImage := "No image uploaded"

  /** Upload defaults, applied when a field is missing or empty (they differ from the schema's). */
  const UploadX := 500
  const UploadY := 500
  const UploadSize := 50
  const UploadColor := "#000000"

  /** The routes behind `requireAdmin`. */
  predicate AdminOnly(req: Request) {
    !(req.ListCards? || req.Generate? || req.ListGreetings?)
  }

  /** The routes that only read the store. */
  predicate ReadOnly(req: Request) {
    req.ListCards? || req.ListGreetings? || req.GetStats?
  }

  // ---------------------------------------------------------------- GET /cards

  /** Whether the caller sees inactive cards too: admins, and anyone asking with `?admin=true`. */
  predicate SeesAll(isAdmin: bool, adminQuery: Option<string>) {
    isAdmin || adminQuery == Some("true")
  }

  /** The card listing: every card when `SeesAll`, else exactly the cards with `is_active = 1`;
      either way in table order. */
  function CardListing(s: Store, isAdmin: bool, adminQuery: Option<string>): (cards: seq<Row<CardData>>)
    ensures forall c :: c in cards <==> c in s.cards.rows && (SeesAll(isAdmin, adminQuery) || c.data.active == 1)
    ensures SeesAll(isAdmin, adminQuery) ==> cards == s.cards.rows
    ensures Tables.Valid(s.cards) ==> Seqs.Pairwise(cards, (a: Row<CardData>, b: Row<CardData>) => a.id < b.id)
  {
    if SeesAll(isAdmin, adminQuery) then s.cards.rows
    else
      var active := (c: Row<CardData>) => c.data.active == 1;
      assert Tables.Valid(s.cards) ==> Seqs.Pairwise(Seqs.Filter(s.cards.rows, active),
                                                      (a: Row<CardData>, b: Row<CardData>) => a.id < b.id) by {
        if Tables.Valid(s.cards) {
          Seqs.FilterKeepsPairwise(s.cards.rows, active, (a: Row<CardData>, b: Row<CardData>) => a.id < b.id);
        }
      }
      Seqs.Filter(s.cards.rows, active)
  }

  // ---------------------------------------------------------------- POST /generate

  /** The URL under which the rendered card is served. */
  function GeneratedUrl(filename: string): string {
    "/generated/" + filename
  }

  /** `POST /generate`: 400 unless both `cardId` and `userName` are truthy; 500 when rendering
      fails; otherwise the URL of the new file, with one usage row logged. */
  function GenerateHandler(s: Store, cardId: Option<int>, userName: Option<string>, greeting: Option<string>,
                           w: World): (r: Response)
    ensures r.status == 400 <==> !TruthyNumber(cardId) || !TruthyText(userName)
    ensures r.status == 400 ==> r.body == Error(MissingFields)
    ensures r.status == 500 ==> r.body == Error(GenerateFailed)
    ensures r.status != 200 ==> r.store == s
    ensures r.status == 200 <==>
              && TruthyNumber(cardId) && TruthyText(userName)
              && Renderer.GenerateSignedCard(s, cardId.value, userName.value, greeting, w.now, w.imaging).Ok?
    ensures r.status == 200 ==>
              && r.body == Url(GeneratedUrl(Renderer.Filename(cardId.value, w.now)))
              && r.store == RecordUsage(s, cardId.value, userName.value).store
    ensures r.status == 200 || r.status == 400 || r.status == 500
  {
    if !TruthyNumber(cardId) || !TruthyText(userName) then Response(400, Error(MissingFields), s)
    else
      match Renderer.GenerateSignedCard(s, cardId.value, userName.value, greeting, w.now, w.imaging)
      case Err(_) => Response(500, Error(GenerateFailed), s)
      case Ok(out) => Response(200, Url(GeneratedUrl(out.filename)), out.store)
  }

  // ---------------------------------------------------------------- GET /stats

  function Project(gs: seq<Popularity.Group>): (ps: seq<Popular>)
    ensures |ps| == |gs|
    ensures forall i :: 0 <= i < |gs| ==> ps[i] == Popular(gs[i].name, gs[i].count)
  {
    seq(|gs|, i requires 0 <= i < |gs| => Popular(gs[i].name, gs[i].count))
  }

  /** `GET /stats`: the number of usage rows, and the five most used cards still present; since a
      row of a deleted card drops out of the join, the listed uses never exceed the total. */
  function StatsOf(s: Store): (b: Body)
    ensures b.Stats? && b.totalGenerated == |s.usage.rows|
    ensures exists gs :: && Popularity.TopFive(s, gs) && b.popularCards == Project(gs)
                         && Popularity.TotalCount(gs) <= b.totalGenerated
    ensures |b.popularCards| <= Popularity.Limit
    ensures forall i, j :: 0 <= i < j < |b.popularCards| ==> b.popularCards[i].useCount >= b.popularCards[j].useCount
  {
    var gs := Popularity.PopularCards(s);
    Stats(|s.usage.rows|, Project(gs))
  }

  // ---------------------------------------------------------------- greetings

  /** `POST /greetings`: 400 on a falsy text, 500 with the constraint's message on a duplicate,
      otherwise the new greeting's key and text. */
  function AddGreetingHandler(s: Store, text: Option<string>): (r: Response)
    ensures !TruthyText(text) ==> r == Response(400, Error(TextRequired), s)
    ensures TruthyText(text) && text.value in Column(s.greetings) ==> r == Response(500, Error(TextUnique), s)
    ensures TruthyText(text) && text.value !in Column(s.greetings) ==>
              && r.status == 200
              && r.body == GreetingCreated(s.greetings.lastId + 1, text.value)
              && r.store.greetings.rows == s.greetings.rows + [Row(s.greetings.lastId + 1, text.value)]
              && r.store.greetings.lastId == s.greetings.lastId + 1
              && r.store.cards == s.cards && r.store.usage == s.usage
  {
    if !TruthyText(text) then Response(400, Error(TextRequired), s)
    else
      match InsertGreeting(s, text.value)
      case Err(e) => Response(500, Error(e), s)
      case Ok(written) => Response(200, GreetingCreated(written.id, text.value), written.store)
  }

  // ---------------------------------------------------------------- POST /cards

  /** `Number(field || default)`: the field's reading when it is non-empty, else the default. */
  function NumberOr(field: Option<FormNumber>, default: int): (n: int)
    ensures field.Some? && field.value.text != "" ==> n == field.value.number
    ensures field.None? || field.value.text == "" ==> n == default
  {
    if field.Some? && field.value.text != "" then field.value.number else default
  }

  /** Where multer stored the upload: the timestamp, a dash, and the original file name. */
  function UploadPath(now: nat, file: Upload): string {
    "uploads/cards/" + Strings.NatToDecimal(now) + "-" + file.originalName
  }

  /** The row values the upload inserts; the font is left to the schema default. */
  function UploadRow(form: CardForm, imagePath: string): (c: CardInsert)
    ensures c.name == form.name && c.category == form.category && c.imagePath == imagePath
    ensures c.x == Some(NumberOr(form.x, UploadX)) && c.y == Some(NumberOr(form.y, UploadY))
    ensures c.size == Some(NumberOr(form.size, UploadSize))
    ensures c.color == Some(if TruthyText(form.color) then form.color.value else UploadColor)
    ensures c.font == None && c.active == Some(1)
  {
    CardInsert(form.name, imagePath, form.category,
               Some(NumberOr(form.x, UploadX)), Some(NumberOr(form.y, UploadY)), None,
               Some(if TruthyText(form.color) then form.color.value else UploadColor),
               Some(NumberOr(form.size, UploadSize)), Some(1))
  }

  /** `POST /cards`: 400 without a file; 500 with the NOT NULL message when the name or category
      field is missing; otherwise exactly one active card is appended. */
  function AddCardHandler(s: Store, form: CardForm, file: Option<Upload>, now: nat): (r: Response)
    ensures file.None? ==> r == Response(400, Error(NoImage), s)
    ensures file.Some? && form.name.None? ==> r == Response(500, Error(NameNotNull), s)
    ensures file.Some? && form.name.Some? && form.category.None? ==> r == Response(500, Error(CategoryNotNull), s)
    ensures file.Some? && form.name.Some? && form.category.Some? ==>
              && r.status == 200
              && r.body == CardCreated(s.cards.lastId + 1)
              && r.store.usage == s.usage && r.store.greetings == s.greetings
              && r.store.cards.lastId == s.cards.lastId + 1
              && r.store.cards.rows == s.cards.rows + [Row(s.cards.lastId + 1, CardData(
                   form.name.value, UploadPath(now, file.value), form.category.value,
                   NumberOr(form.x, UploadX), NumberOr(form.y, UploadY), DefaultFont,
                   if TruthyText(form.color) then form.color.value else UploadColor,
                   NumberOr(form.size, UploadSize), 1))]
  {
    if file.None? then Response(400, Error(NoImage), s)
    else
      match InsertCard(s, UploadRow(form, UploadPath(now, file.value)))
      case Err(e) => Response(500, Error(e), s)
      case Ok(written) => Response(200, CardCreated(written.id), written.store)
  }

  // ---------------------------------------------------------------- PUT /cards/:id

  /** Whether the patch sets any column: text fields count when truthy, numbers when present. */
  predicate SetsAnything(p: CardPatch) {
    || TruthyText(p.name) || TruthyText(p.category) || TruthyText(p.color)
    || p.x.Some? || p.y.Some? || p.size.Some? || p.active.Some?
  }

  /** The row after the patch: name, category and color replaced only by truthy values, the
      numeric columns by any value present; the key and image are never touched. */
  function ApplyPatch(p: CardPatch, d: CardData): (e: CardData)
    ensures e.imagePath == d.imagePath && e.font == d.font
    ensures e.name == (if TruthyText(p.name) then p.name.value else d.name)
    ensures e.category == (if TruthyText(p.category) then p.category.value else d.category)
    ensures e.color == (if TruthyText(p.color) then p.color.value else d.color)
    ensures e.x == p.x.GetOr(d.x) && e.y == p.y.GetOr(d.y) && e.size == p.size.GetOr(d.size)
    ensures e.active == p.active.GetOr(d.active)
  {
    d.(name := if TruthyText(p.name) then p.name.value else d.name,
       category := if TruthyText(p.category) then p.category.value else d.category,
       x := p.x.GetOr(d.x),
       y := p.y.GetOr(d.y),
       size := p.size.GetOr(d.size),
       color := if TruthyText(p.color) then p.color.value else d.color,
       active := p.active.GetOr(d.active))
  }

  /** `PUT /cards/:id`: runs the UPDATE only when the patch sets something; always succeeds. */
  function EditCardHandler(s: Store, id: int, p: CardPatch): (r: Response)
    ensures r.status == 200 && r.body == Success
    ensures !SetsAnything(p) ==> r.store == s
    ensures r.store.usage == s.usage && r.store.greetings == s.greetings
    ensures r.store.cards.lastId == s.cards.lastId && |r.store.cards.rows| == |s.cards.rows|
    ensures forall i :: 0 <= i < |s.cards.rows| ==> r.store.cards.rows[i].id == s.cards.rows[i].id
    ensures forall i :: 0 <= i < |s.cards.rows| && s.cards.rows[i].id != id ==>
              r.store.cards.rows[i] == s.cards.rows[i]
    ensures forall i :: 0 <= i < |s.cards.rows| && s.cards.rows[i].id == id ==>
              r.store.cards.rows[i].data == ApplyPatch(p, s.cards.rows[i].data)
  {
    if SetsAnything(p) then Response(200, Success, UpdateCard(s, id, (d: CardData) => ApplyPatch(p, d)))
    else Response(200, Success, s)
  }

  // ---------------------------------------------------------------- the router

  /** Every usage row was logged by a `POST /generate` that passed its 400 check. */
  ghost predicate UsageFromRequests(s: Store) {
    forall i :: 0 <= i < |s.usage.rows| ==> s.usage.rows[i].data.cardId != 0 && s.usage.rows[i].data.userName != ""
  }

  /** No key counter went down. */
  ghost predicate CountersKept(s: Store, t: Store) {
    && s.cards.lastId <= t.cards.lastId
    && s.usage.lastId <= t.usage.lastId
    && s.greetings.lastId <= t.greetings.lastId
  }

  /** A usage row is only ever written by a generate whose card id and user name are truthy. */
  lemma GenerateKeepsProvenance(s: Store, cardId: Option<int>, userName: Option<string>,
                                greeting: Option<string>, w: World)
    ensures UsageFromRequests(s) ==> UsageFromRequests(GenerateHandler(s, cardId, userName, greeting, w).store)
  {
    var r := GenerateHandler(s, cardId, userName, greeting, w);
    if r.status == 200 && UsageFromRequests(s) {
      var u := r.store.usage.rows;
      assert u == s.usage.rows + [u[|u| - 1]];
      assert u[|u| - 1].data == UsageData(cardId.value, userName.value);
    }
  }

  /** The handler behind the middlewares, for a caller let through with role `isAdmin`: a reply
      other than 200 leaves the store alone, the listing routes never write, and the schema's
      constraints, the usage log's provenance and the key counters are kept. */
  function Serve(s: Store, isAdmin: bool, w: World, req: Request): (r: Response)
    ensures r.status != 200 ==> r.store == s
    ensures ReadOnly(req) ==> r.store == s
    ensures Consistent(s) ==> Consistent(r.store)
    ensures UsageFromRequests(s) ==> UsageFromRequests(r.store)
    ensures CountersKept(s, r.store)
    ensures r.status == 200 || r.status == 400 || r.status == 500
  {
    if AdminOnly(req) then ServeAdmin(s, w, req) else ServePublic(s, isAdmin, w, req)
  }

  /** The routes open to every signed-in caller. */
  function ServePublic(s: Store, isAdmin: bool, w: World, req: Request): (r: Response)
    requires !AdminOnly(req)
    ensures r.status != 200 ==> r.store == s
    ensures ReadOnly(req) ==> r.store == s
    ensures Consistent(s) ==> Consistent(r.store)
    ensures UsageFromRequests(s) ==> UsageFromRequests(r.store)
    ensures CountersKept(s, r.store)
    ensures r.status == 200 || r.status == 400 || r.status == 500
  {
    match req
    case ListCards(q) => Response(200, Cards(CardListing(s, isAdmin, q)), s)
    case Generate(cardId, userName, greeting) =>
      GenerateKeepsProvenance(s, cardId, userName, greeting, w);
      GenerateHandler(s, cardId, userName, greeting, w)
    case ListGreetings => Response(200, Greetings(Ordering.SortByText(s.greetings.rows)), s)
  }

  /** The routes behind `requireAdmin`. */
  function ServeAdmin(s: Store, w: World, req: Request): (r: Response)
    requires AdminOnly(req)
    ensures r.status != 200 ==> r.store == s
    ensures ReadOnly(req) ==> r.store == s
    ensures Consistent(s) ==> Consistent(r.store)
    ensures UsageFromRequests(s) ==> UsageFromRequests(r.store)
    ensures CountersKept(s, r.store)
    ensures r.status == 200 || r.status == 400 || r.status == 500
  {
    match req
    case GetStats => Response(200, StatsOf(s), s)
    case AddGreeting(text) => AddGreetingHandler(s, text)
    case RemoveGreeting(id) => Response(200, Success, DeleteGreeting(s, id))
    case AddCard(form, file) => AddCardHandler(s, form, file, w.now)
    case RemoveCard(id) => Response(200, Success, DeleteCard(s, id))
    case EditCard(id, p) => EditCardHandler(s, id, p)
  }

  /** The whole request: `requireAuth`, then `requireAdmin` on the admin routes, then the handler. */
  function Handle(s: Store, cfg: Auth.Config, w: World, header: Option<string>, req: Request): (r: Response)
    ensures var who := Auth.Authenticate(cfg, header, w.verify);
            && (who.Denied? ==> r == Response(401, Error(who.error), s))
            && (who.Identity? && AdminOnly(req) && !who.isAdmin ==> r == Response(403, Error(Auth.AdminsOnly), s))
            && (who.Identity? && (who.isAdmin || !AdminOnly(req)) ==> r == Serve(s, who.isAdmin, w, req))
    ensures r.status != 200 ==> r.store == s
    ensures ReadOnly(req) ==> r.store == s
    ensures Consistent(s) ==> Consistent(r.store)
    ensures UsageFromRequests(s) ==> UsageFromRequests(r.store)
    ensures CountersKept(s, r.store)
  {
    var who := Auth.Authenticate(cfg, header, w.verify);
    var gate := if AdminOnly(req) then Auth.RequireAdmin(who) else who;
    match gate
    case Denied(status, error) => Response(status, Error(error), s)
    case Identity(isAdmin, _) => Serve(s, isAdmin, w, req)
  }
}
