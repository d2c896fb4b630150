/** Properties of the router that relate several requests: repeated deletes and updates, keys that
    are not reused, the greeting listing's order, and what the card listing reveals. */
module Guarantees {
  import opened Common
  import opened Tables
  import opened Db
  import Renderer
  import Ordering
  import Auth
  import opened Routes

  /** `DELETE /cards/:id` from a caller past the admin gate always replies 200 `{success: true}` with
      the card gone, and an absent id changes nothing; deleting a second time changes nothing more
      and still replies the same. */
  lemma RemoveCardIdempotent(s: Store, cfg: Auth.Config, w: World, header: Option<string>, id: int)
    ensures var once := Handle(s, cfg, w, header, RemoveCard(id));
            Auth.RequireAdmin(Auth.Authenticate(cfg, header, w.verify)).Identity? ==>
              && once == Response(200, Success, DeleteCard(s, id))
              && !HasId(once.store.cards, id)
              && (!HasId(s.cards, id) ==> once.store == s)
    ensures var once := Handle(s, cfg, w, header, RemoveCard(id));
            var twice := Handle(once.store, cfg, w, header, RemoveCard(id));
            twice.status == once.status && twice.store == once.store
  {
    var once := Handle(s, cfg, w, header, RemoveCard(id));
    if once.status == 200 {
      assert !HasId(once.store.cards, id);
    }
  }

  /** `DELETE /greetings/:id` from a caller past the admin gate always replies 200 `{success: true}`
      with the greeting gone, and an absent id changes nothing; deleting a second time changes
      nothing more and still replies the same. */
  lemma RemoveGreetingIdempotent(s: Store, cfg: Auth.Config, w: World, header: Option<string>, id: int)
    ensures var once := Handle(s, cfg, w, header, RemoveGreeting(id));
            Auth.RequireAdmin(Auth.Authenticate(cfg, header, w.verify)).Identity? ==>
              && once == Response(200, Success, DeleteGreeting(s, id))
              && !HasId(once.store.greetings, id)
              && (!HasId(s.greetings, id) ==> once.store == s)
    ensures var once := Handle(s, cfg, w, header, RemoveGreeting(id));
            var twice := Handle(once.store, cfg, w, header, RemoveGreeting(id));
            twice.status == once.status && twice.store == once.store
  {
    var once := Handle(s, cfg, w, header, RemoveGreeting(id));
    if once.status == 200 {
      assert !HasId(once.store.greetings, id);
    }
  }

  /** A patch applied twice to a row gives what applying it once gives. */
  lemma PatchIdempotent(p: CardPatch)
    ensures forall d :: ApplyPatch(p, ApplyPatch(p, d)) == ApplyPatch(p, d)
  {
  }

  /** Repeating a `PUT /cards/:id` changes nothing more. */
  lemma EditCardIdempotent(s: Store, id: int, p: CardPatch)
    ensures EditCardHandler(EditCardHandler(s, id, p).store, id, p) == EditCardHandler(s, id, p)
  {
    if SetsAnything(p) {
      PatchIdempotent(p);
      UpdateIdempotent(s.cards, id, (d: CardData) => ApplyPatch(p, d));
    }
  }

  /** Skipping the UPDATE when the patch sets nothing is unobservable: the reply's store is always
      the store updated by the patch. */
  lemma EditCardIsUpdate(s: Store, id: int, p: CardPatch)
    ensures EditCardHandler(s, id, p).store == UpdateCard(s, id, (d: CardData) => ApplyPatch(p, d))
  {
    if !SetsAnything(p) {
      UpdateIdentity(s.cards, id, (d: CardData) => ApplyPatch(p, d));
    }
  }

  /** A present key is at most the counter. */
  lemma KeyAtMostCounter<T>(t: Table<T>, id: int)
    requires Tables.Valid(t) && HasId(t, id)
    ensures id <= t.lastId
  {
    var i :| 0 <= i < |t.rows| && t.rows[i].id == id;
  }

  /** A deleted card's key is never handed out again: the next upload gets a larger one. */
  lemma CardIdNotReused(s: Store, id: int, form: CardForm, file: Option<Upload>, now: nat)
    requires Consistent(s) && HasId(s.cards, id)
    ensures var r := AddCardHandler(DeleteCard(s, id), form, file, now);
            r.body.CardCreated? ==> r.body.id > id
  {
    KeyAtMostCounter(s.cards, id);
  }

  /** A deleted greeting's key is never handed out again: the next greeting gets a larger one. */
  lemma GreetingIdNotReused(s: Store, id: int, text: Option<string>)
    requires Consistent(s) && HasId(s.greetings, id)
    ensures var r := AddGreetingHandler(DeleteGreeting(s, id), text);
            r.body.GreetingCreated? ==> r.body.id > id
  {
    KeyAtMostCounter(s.greetings, id);
  }

  /** Posting the same greeting twice: the first is stored, the second fails with the UNIQUE
      message and changes nothing. */
  lemma DuplicateGreetingRejected(s: Store, text: string)
    requires text != "" && text !in Column(s.greetings)
    ensures var first := AddGreetingHandler(s, Some(text));
            var second := AddGreetingHandler(first.store, Some(text));
            && first.status == 200
            && second == Response(500, Error(TextUnique), first.store)
  {
    var first := AddGreetingHandler(s, Some(text));
    assert Column(first.store.greetings)[|s.greetings.rows|] == text;
  }

  /** With unique texts the greeting listing is fully determined: it is the one sorted arrangement
      of the greeting rows, whatever sorting produced it. */
  lemma GreetingListingDetermined(s: Store, xs: seq<Row<string>>)
    requires Consistent(s)
    requires multiset(xs) == multiset(s.greetings.rows) && Ordering.SortedByText(xs)
    ensures Ordering.SortByText(s.greetings.rows) == xs
  {
    var sorted := Ordering.SortByText(s.greetings.rows);
    assert Ordering.DistinctText(s.greetings.rows);
    Ordering.DistinctTextPermuted(s.greetings.rows, sorted);
    Ordering.SortedUnique(sorted, xs);
  }

  /** Any signed-in caller, admin or not, who asks `GET /cards?admin=true` is shown every card,
      inactive ones included. */
  lemma AdminQueryRevealsInactive(s: Store, cfg: Auth.Config, w: World, header: Option<string>)
    requires Auth.Authenticate(cfg, header, w.verify).Identity?
    ensures Handle(s, cfg, w, header, ListCards(Some("true"))) == Response(200, Cards(s.cards.rows), s)
  {
  }

  /** A signed-in non-admin without the query flag sees exactly the active cards. */
  lemma UsersSeeActiveCards(s: Store, cfg: Auth.Config, w: World, header: Option<string>, q: Option<string>)
    requires var who := Auth.Authenticate(cfg, header, w.verify); who.Identity? && !who.isAdmin
    requires q != Some("true")
    ensures var r := Handle(s, cfg, w, header, ListCards(q));
            && r.status == 200 && r.body.Cards?
            && forall c :: c in r.body.cards <==> c in s.cards.rows && c.data.active == 1
  {
  }

  /** A successful generate is counted once in the statistics. */
  lemma GenerateCountedOnce(s: Store, cfg: Auth.Config, w: World, header: Option<string>,
                            cardId: Option<int>, userName: Option<string>, greeting: Option<string>)
    ensures var r := Handle(s, cfg, w, header, Routes.Generate(cardId, userName, greeting));
            r.status == 200 ==> StatsOf(r.store).totalGenerated == StatsOf(s).totalGenerated + 1
  {
  }

  /** Different cards, or different moments, give different URLs. */
  lemma GeneratedUrlsDiffer(a: int, t: nat, b: int, u: nat)
    requires (a, t) != (b, u)
    ensures GeneratedUrl(Renderer.Filename(a, t)) != GeneratedUrl(Renderer.Filename(b, u))
  {
    if GeneratedUrl(Renderer.Filename(a, t)) == GeneratedUrl(Renderer.Filename(b, u)) {
      var p := "/generated/";
      assert Renderer.Filename(a, t) == GeneratedUrl(Renderer.Filename(a, t))[|p|..];
      Renderer.FilenameInjective(a, t, b, u);
    }
  }
}
