/** The persistent store of `server/src/db.ts`: the `cards`, `usage_log` and `greetings`
    tables with their column defaults, NOT NULL and UNIQUE constraints and AUTOINCREMENT
    keys, and `initDb`, which creates missing tables and seeds the default greetings
    into an empty `greetings` table. */
module Db {
  import opened Common
  import opened Tables
  import Seqs
  import Ordering

  /** A row of `cards`. */
  datatype CardData = CardData(
    name: string,
    imagePath: string,
    category: string,
    x: int,
    y: int,
    font: string,
    color: string,
    size: int,
    active: int)

  /** The values an `INSERT INTO cards` supplies. `None` for a column with a DEFAULT leaves it to
      the default; for `name` and `category`, which have none, it binds NULL. */
  datatype CardInsert = CardInsert(
    name: Option<string>,
    imagePath: string,
    category: Option<string>,
    x: Option<int>,
    y: Option<int>,
    font: Option<string>,
    color: Option<string>,
    size: Option<int>,
    active: Option<int>)

  const DefaultX := 100
  const DefaultY := 100
  const DefaultFont := "Arial"
  const DefaultColor := "#000000"
  const DefaultSize := 50
  const DefaultActive := 1

  /** A row of `usage_log` (its `created_at` is not modelled). */
  datatype UsageData = UsageData(cardId: int, userName: string)

  datatype Store = Store(cards: Table<CardData>, usage: Table<UsageData>, greetings: Table<string>)

  /** A store together with the key of the row just inserted (`lastInsertRowid`). */
  datatype Written = Written(store: Store, id: nat)

  const NameNotNull := "NOT NULL constraint failed: cards.name"
  const CategoryNotNull := "NOT NULL constraint failed: cards.category"
  const TextUnique := "UNIQUE constraint failed: greetings.text"

  /** No two greetings share a text (the UNIQUE constraint). */
  ghost predicate UniqueTexts(t: Table<string>) {
    Ordering.DistinctText(t.rows)
  }

  /** The constraints the schema keeps: AUTOINCREMENT keys in every table, unique greeting texts. */
  ghost predicate Consistent(s: Store) {
    && Tables.Valid(s.cards)
    && Tables.Valid(s.usage)
    && Tables.Valid(s.greetings)
    && UniqueTexts(s.greetings)
  }

  // ---------------------------------------------------------------- cards

  /** The row an INSERT stores: supplied values where given, the schema's defaults elsewhere. */
  function WithDefaults(c: CardInsert): (d: CardData)
    requires c.name.Some? && c.category.Some?
    ensures d.name == c.name.value && d.imagePath == c.imagePath && d.category == c.category.value
    ensures d.x == (if c.x.Some? then c.x.value else 100)
    ensures d.y == (if c.y.Some? then c.y.value else 100)
    ensures d.font == (if c.font.Some? then c.font.value else "Arial")
    ensures d.color == (if c.color.Some? then c.color.value else "#000000")
    ensures d.size == (if c.size.Some? then c.size.value else 50)
    ensures d.active == (if c.active.Some? then c.active.value else 1)
  {
    CardData(
      c.name.value, c.imagePath, c.category.value,
      c.x.GetOr(DefaultX), c.y.GetOr(DefaultY), c.font.GetOr(DefaultFont),
      c.color.GetOr(DefaultColor), c.size.GetOr(DefaultSize), c.active.GetOr(DefaultActive))
  }

  /** `INSERT INTO cards`: fails on a NULL name or category (checked in column order), otherwise
      appends exactly one card under a fresh key and touches no other table. */
  function InsertCard(s: Store, c: CardInsert): (r: Result<Written, string>)
    ensures r.Err? <==> c.name.None? || c.category.None?
    ensures r.Err? ==> r.error == (if c.name.None? then NameNotNull else CategoryNotNull)
    ensures r.Ok? ==> && r.value.store.cards.rows == s.cards.rows + [Row(r.value.id, WithDefaults(c))]
                      && r.value.store.cards.lastId == r.value.id == s.cards.lastId + 1
                      && r.value.store.usage == s.usage && r.value.store.greetings == s.greetings
    ensures r.Ok? && Consistent(s) ==> Consistent(r.value.store) && !HasId(s.cards, r.value.id)
  {
    if c.name.None? then Err(NameNotNull)
    else if c.category.None? then Err(CategoryNotNull)
    else
      var ins := Insert(s.cards, WithDefaults(c));
      Ok(Written(s.(cards := ins.table), ins.id))
  }

  /** `SELECT * FROM cards WHERE id = ?`, whatever the card's `is_active`. */
  function FindCard(s: Store, id: int): (r: Option<CardData>)
    ensures r.Some? <==> HasId(s.cards, id)
    ensures r.Some? ==> exists i :: 0 <= i < |s.cards.rows| && s.cards.rows[i] == Row(id, r.value)
  {
    Find(s.cards, id)
  }

  /** `DELETE FROM cards WHERE id = ?`: the usage log is not touched, so its rows may now dangle. */
  function DeleteCard(s: Store, id: int): (r: Store)
    ensures r.usage == s.usage && r.greetings == s.greetings && r.cards.lastId == s.cards.lastId
    ensures forall x :: x in r.cards.rows <==> x in s.cards.rows && x.id != id
    ensures !HasId(s.cards, id) ==> r == s
    ensures Consistent(s) ==> Consistent(r)
  {
    s.(cards := Delete(s.cards, id))
  }

  /** `UPDATE cards SET ... WHERE id = ?` with the row rewrite `f`. */
  function UpdateCard(s: Store, id: int, f: CardData -> CardData): (r: Store)
    ensures r.usage == s.usage && r.greetings == s.greetings
    ensures r.cards.lastId == s.cards.lastId && |r.cards.rows| == |s.cards.rows|
    ensures forall i :: 0 <= i < |s.cards.rows| ==> r.cards.rows[i].id == s.cards.rows[i].id
    ensures forall i :: 0 <= i < |s.cards.rows| && s.cards.rows[i].id != id ==> r.cards.rows[i] == s.cards.rows[i]
    ensures forall i :: 0 <= i < |s.cards.rows| && s.cards.rows[i].id == id ==>
              r.cards.rows[i].data == f(s.cards.rows[i].data)
    ensures Consistent(s) ==> Consistent(r)
  {
    s.(cards := Update(s.cards, id, f))
  }

  // ---------------------------------------------------------------- greetings and usage

  /** `INSERT INTO greetings (text)`: fails, changing nothing, when the text is already present;
      otherwise appends exactly one greeting under a fresh key. */
  function InsertGreeting(s: Store, text: string): (r: Result<Written, string>)
    ensures r.Err? <==> text in Column(s.greetings)
    ensures r.Err? ==> r.error == TextUnique
    ensures r.Ok? ==> && r.value.store.greetings.rows == s.greetings.rows + [Row(r.value.id, text)]
                      && r.value.store.greetings.lastId == r.value.id == s.greetings.lastId + 1
                      && r.value.store.cards == s.cards && r.value.store.usage == s.usage
    ensures r.Ok? && Consistent(s) ==> Consistent(r.value.store)
  {
    if text in Column(s.greetings) then Err(TextUnique)
    else
      var ins := Insert(s.greetings, text);
      assert forall i :: 0 <= i < |s.greetings.rows| ==> s.greetings.rows[i].data != text by {
        forall i | 0 <= i < |s.greetings.rows|
          ensures s.greetings.rows[i].data != text
        {
          assert Column(s.greetings)[i] == s.greetings.rows[i].data;
        }
      }
      Ok(Written(s.(greetings := ins.table), ins.id))
  }

  /** `DELETE FROM greetings WHERE id = ?`. */
  function DeleteGreeting(s: Store, id: int): (r: Store)
    ensures r.cards == s.cards && r.usage == s.usage && r.greetings.lastId == s.greetings.lastId
    ensures forall x :: x in r.greetings.rows <==> x in s.greetings.rows && x.id != id
    ensures !HasId(s.greetings, id) ==> r == s
    ensures Consistent(s) ==> Consistent(r)
  {
    var t := Delete(s.greetings, id);
    assert Consistent(s) ==> UniqueTexts(t) by {
      if Consistent(s) {
        Seqs.FilterKeepsPairwise(s.greetings.rows, (x: Row<string>) => x.id != id,
                                 (x: Row<string>, y: Row<string>) => x.data != y.data);
      }
    }
    s.(greetings := t)
  }

  /** `INSERT INTO usage_log (card_id, user_name)`: appends exactly one usage row. */
  function RecordUsage(s: Store, cardId: int, userName: string): (r: Written)
    ensures r.store.usage.rows == s.usage.rows + [Row(r.id, UsageData(cardId, userName))]
    ensures r.store.usage.lastId == r.id == s.usage.lastId + 1
    ensures r.store.cards == s.cards && r.store.greetings == s.greetings
    ensures Consistent(s) ==> Consistent(r.store)
  {
    var ins := Insert(s.usage, UsageData(cardId, userName));
    Written(s.(usage := ins.table), ins.id)
  }

  // ---------------------------------------------------------------- initDb

  /** What exists when `initDb` runs: each table is present, with its rows and key counter, or absent. */
  datatype Disk = Disk(
    cards: Option<Table<CardData>>,
    usage: Option<Table<UsageData>>,
    greetings: Option<Table<string>>)

  /** The tables of a running store, as the next `initDb` finds them. */
  function AsDisk(s: Store): (d: Disk)
    ensures d.cards.Some? && d.usage.Some? && d.greetings.Some?
  {
    Disk(Some(s.cards), Some(s.usage), Some(s.greetings))
  }

  /** The greetings seeded into an empty table, in insertion order. */
  const DefaultGreetings: seq<string> := [
    "Happy Holidays",
    "Season's Greetings",
    "Best Wishes",
    "Sincerely",
    "Warmest Regards",
    "From the desk of"
  ]

  /** No text occurs twice. */
  ghost predicate DistinctTexts(texts: seq<string>) {
    Seqs.Pairwise(texts, (a: string, b: string) => a != b)
  }

  /** The tables present on disk satisfy the schema's constraints. */
  ghost predicate ValidDisk(d: Disk) {
    && (d.cards.Some? ==> Tables.Valid(d.cards.value))
    && (d.usage.Some? ==> Tables.Valid(d.usage.value))
    && (d.greetings.Some? ==> Tables.Valid(d.greetings.value) && UniqueTexts(d.greetings.value))
  }

  /** The three `CREATE TABLE IF NOT EXISTS` statements: an existing table is kept as it is,
      a missing one is created empty. */
  function CreateTables(d: Disk): (s: Store)
    ensures d.cards.Some? ==> s.cards == d.cards.value
    ensures d.usage.Some? ==> s.usage == d.usage.value
    ensures d.greetings.Some? ==> s.greetings == d.greetings.value
    ensures d.cards.None? ==> s.cards == Empty()
    ensures d.usage.None? ==> s.usage == Empty()
    ensures d.greetings.None? ==> s.greetings == Empty()
    ensures ValidDisk(d) ==> Consistent(s)
  {
    Store(d.cards.GetOr(Empty()), d.usage.GetOr(Empty()), d.greetings.GetOr(Empty()))
  }

  /** The seed loop: insert each text in turn, stopping at the first failure. */
  function SeedGreetings(s: Store, texts: seq<string>): Result<Store, string>
    decreases |texts|
  {
    if |texts| == 0 then Ok(s)
    else
      match InsertGreeting(s, texts[0])
      case Err(e) => Err(e)
      case Ok(w) => SeedGreetings(w.store, texts[1..])
  }

  /** `r` is `s` with `texts` appended to `greetings`, in order, under consecutive fresh keys. */
  ghost predicate Seeded(s: Store, r: Store, texts: seq<string>) {
    && r.cards == s.cards && r.usage == s.usage
    && r.greetings.lastId == s.greetings.lastId + |texts|
    && |r.greetings.rows| == |s.greetings.rows| + |texts|
    && r.greetings.rows[..|s.greetings.rows|] == s.greetings.rows
    && forall k :: 0 <= k < |texts| ==>
         r.greetings.rows[|s.greetings.rows| + k] == Row(s.greetings.lastId + 1 + k, texts[k])
  }

  /** Seeding distinct texts that are not yet present never hits the UNIQUE constraint. */
  lemma {:induction false} SeedDistinctSucceeds(s: Store, texts: seq<string>)
    requires DistinctTexts(texts)
    requires forall k :: 0 <= k < |texts| ==> texts[k] !in Column(s.greetings)
    ensures SeedGreetings(s, texts).Ok?
    ensures Seeded(s, SeedGreetings(s, texts).value, texts)
    ensures Consistent(s) ==> Consistent(SeedGreetings(s, texts).value)
    decreases |texts|
  {
    if |texts| > 0 {
      var ins := InsertGreeting(s, texts[0]);
      assert ins.Ok?;
      var w := ins.value.store;
      var rest := texts[1..];
      assert Column(w.greetings) == Column(s.greetings) + [texts[0]];
      forall k | 0 <= k < |rest|
        ensures rest[k] !in Column(w.greetings)
      {
        assert rest[k] == texts[k + 1] != texts[0];
      }
      SeedDistinctSucceeds(w, rest);
      assert SeedGreetings(s, texts) == SeedGreetings(w, rest);
      assert Seeded(s, w, [texts[0]]);
      SeededThen(s, w, SeedGreetings(w, rest).value, [texts[0]], rest);
      assert [texts[0]] + rest == texts;
    }
  }

  /** Seeding `a` and then `b` is seeding `a + b`. */
  lemma SeededThen(s: Store, w: Store, r: Store, a: seq<string>, b: seq<string>)
    requires Seeded(s, w, a) && Seeded(w, r, b)
    ensures Seeded(s, r, a + b)
  {
    var n := |s.greetings.rows|;
    assert r.greetings.rows[..n] == r.greetings.rows[..n + |a|][..n];
    forall k | 0 <= k < |a + b|
      ensures r.greetings.rows[n + k] == Row(s.greetings.lastId + 1 + k, (a + b)[k])
    {
      if k < |a| {
        assert r.greetings.rows[n + k] == r.greetings.rows[..n + |a|][n + k] == w.greetings.rows[n + k];
        assert w.greetings.rows[n + k] == Row(s.greetings.lastId + 1 + k, a[k]);
      } else {
        assert r.greetings.rows[(n + |a|) + (k - |a|)] == Row(w.greetings.lastId + 1 + (k - |a|), b[k - |a|]);
      }
    }
  }

  /** `initDb`: create the missing tables, then seed the default greetings when `greetings` is
      empty. It never fails: the defaults are distinct and go into an empty table. */
  function InitDb(d: Disk): (r: Result<Store, string>)
    ensures r.Ok?
    ensures d.cards.Some? ==> r.value.cards == d.cards.value
    ensures d.usage.Some? ==> r.value.usage == d.usage.value
    ensures d.cards.None? ==> r.value.cards == Empty()
    ensures d.usage.None? ==> r.value.usage == Empty()
    ensures |r.value.greetings.rows| > 0
    ensures ValidDisk(d) ==> Consistent(r.value)
  {
    var s := CreateTables(d);
    if |s.greetings.rows| == 0 then
      SeedDistinctSucceeds(s, DefaultGreetings);
      SeedGreetings(s, DefaultGreetings)
    else
      Ok(s)
  }

  /** Seeding happens exactly when `greetings` is empty (or missing): a non-empty table is left as it
      is; an empty one receives the six defaults, in order, under keys after every key it ever issued. */
  lemma InitDbSeedsIffEmpty(d: Disk)
    ensures var g := d.greetings.GetOr(Empty());
            var r := InitDb(d).value.greetings;
            && (|g.rows| > 0 <==> r == g)
            && (|g.rows| == 0 ==>
                  && Column(r) == DefaultGreetings
                  && r.lastId == g.lastId + 6
                  && forall k :: 0 <= k < |r.rows| ==> r.rows[k].id == g.lastId + 1 + k)
  {
    var s := CreateTables(d);
    if |s.greetings.rows| == 0 {
      DefaultsDistinct();
      SeedDistinctSucceeds(s, DefaultGreetings);
      SeededIntoEmpty(s, InitDb(d).value, DefaultGreetings);
    }
  }

  /** The six default greetings are pairwise different, so seeding them cannot hit UNIQUE. */
  lemma DefaultsDistinct()
    ensures DistinctTexts(DefaultGreetings)
  {
  }

  /** Seeding an empty table leaves exactly the seeded texts, keyed from just after the counter. */
  lemma SeededIntoEmpty(s: Store, r: Store, texts: seq<string>)
    requires Seeded(s, r, texts) && |s.greetings.rows| == 0
    ensures Column(r.greetings) == texts
    ensures forall k :: 0 <= k < |r.greetings.rows| ==> r.greetings.rows[k].id == s.greetings.lastId + 1 + k
  {
    forall k | 0 <= k < |texts|
      ensures Column(r.greetings)[k] == texts[k]
      ensures r.greetings.rows[k].id == s.greetings.lastId + 1 + k
    {
      assert r.greetings.rows[0 + k] == Row(s.greetings.lastId + 1 + k, texts[k]);
    }
  }

  /** Running `initDb` again on what it produced changes nothing. */
  lemma InitDbIdempotent(d: Disk)
    ensures InitDb(AsDisk(InitDb(d).value)) == InitDb(d)
  {
  }

  /** On a running store, `initDb` leaves every table unchanged exactly when some greeting exists. */
  lemma InitDbOnRunningStore(s: Store)
    ensures InitDb(AsDisk(s)) == Ok(s) <==> |s.greetings.rows| > 0
  {
  }

  /** Deleting greetings by each key of a list, in turn (the `DELETE /greetings/:id` route applied repeatedly). */
  function DeleteGreetings(s: Store, ids: seq<int>): (r: Store)
    ensures r.cards == s.cards && r.usage == s.usage && r.greetings.lastId == s.greetings.lastId
    ensures forall x :: x in r.greetings.rows <==> x in s.greetings.rows && x.id !in ids
    ensures Consistent(s) ==> Consistent(r)
    decreases |ids|
  {
    if |ids| == 0 then s else DeleteGreetings(DeleteGreeting(s, ids[0]), ids[1..])
  }

  /** Once every greeting has been deleted, the next `initDb` seeds the six defaults again, under
      keys never used before. */
  lemma ReseedAfterDeletingAll(s: Store, ids: seq<int>)
    requires forall i :: 0 <= i < |s.greetings.rows| ==> s.greetings.rows[i].id in ids
    ensures var r := InitDb(AsDisk(DeleteGreetings(s, ids))).value;
            && Column(r.greetings) == DefaultGreetings
            && r.cards == s.cards && r.usage == s.usage
            && forall k :: 0 <= k < |r.greetings.rows| ==> r.greetings.rows[k].id > s.greetings.lastId
  {
    var e := DeleteGreetings(s, ids);
    assert |e.greetings.rows| == 0 by {
      if |e.greetings.rows| > 0 {
        Seqs.ElementIn(e.greetings.rows, 0);
        assert false;
      }
    }
    InitDbSeedsIffEmpty(AsDisk(e));
  }
}
