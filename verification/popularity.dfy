/** The statistics query of `GET /stats` (`server/src/routes.ts`): the usage log joined with `cards`,
    grouped by card, ordered by use count descending, limited to five. SQL leaves the order of tied
    counts open; `TopFive` states what every admissible answer satisfies, and `PopularCards`
    computes one of them. */
module Popularity {
  import opened Tables
  import opened Db
  import Seqs

  /** One group of the query: a card still present, its name and how often it was used. */
  datatype Group = Group(cardId: int, name: string, count: nat)

  const Limit := 5

  /** How many usage rows refer to card `id`. */
  function Uses(usage: seq<Row<UsageData>>, id: int): nat
  {
    if |usage| == 0 then 0
    else (if usage[0].data.cardId == id then 1 else 0) + Uses(usage[1..], id)
  }

  /** How many usage rows refer to any card in `ids`. */
  function UsesIn(usage: seq<Row<UsageData>>, ids: set<int>): (n: nat)
    ensures n <= |usage|
  {
    if |usage| == 0 then 0
    else (if usage[0].data.cardId in ids then 1 else 0) + UsesIn(usage[1..], ids)
  }

  /** Counting over one more card adds exactly that card's uses. */
  lemma {:induction false} UsesInAdd(usage: seq<Row<UsageData>>, ids: set<int>, id: int)
    requires id !in ids
    ensures UsesIn(usage, ids + {id}) == UsesIn(usage, ids) + Uses(usage, id)
  {
    if |usage| > 0 {
      UsesInAdd(usage[1..], ids, id);
    }
  }

  /** No two groups are for the same card. */
  ghost predicate DistinctCards(gs: seq<Group>) {
    forall i, j :: 0 <= i < j < |gs| ==> gs[i].cardId != gs[j].cardId
  }

  /** `c` is no larger than the count of any group of `r`. */
  ghost predicate AtMostAll(c: nat, r: seq<Group>) {
    forall j :: 0 <= j < |r| ==> c <= r[j].count
  }

  /** Counts never increase along the sequence. */
  ghost predicate NonIncreasing(gs: seq<Group>) {
    forall i, j :: 0 <= i < j < |gs| ==> gs[i].count >= gs[j].count
  }

  /** A head with no smaller count than any group of a non-increasing tail keeps it non-increasing. */
  lemma ConsNonIncreasing(h: Group, tail: seq<Group>)
    requires NonIncreasing(tail) && forall j :: 0 <= j < |tail| ==> tail[j].count <= h.count
    ensures NonIncreasing([h] + tail)
  {
    var r := [h] + tail;
    forall i, j | 0 <= i < j < |r|
      ensures r[i].count >= r[j].count
    {
      assert r[j] == tail[j - 1];
      if i > 0 {
        assert r[i] == tail[i - 1];
      }
    }
  }

  /** A head for a card none of a tail's groups is for keeps the tail's cards distinct. */
  lemma ConsDistinct(h: Group, tail: seq<Group>)
    requires DistinctCards(tail) && forall j :: 0 <= j < |tail| ==> tail[j].cardId != h.cardId
    ensures DistinctCards([h] + tail)
  {
    var r := [h] + tail;
    forall i, j | 0 <= i < j < |r|
      ensures r[i].cardId != r[j].cardId
    {
      assert r[j] == tail[j - 1];
      if i > 0 {
        assert r[i] == tail[i - 1];
      }
    }
  }

  /** The group is for a card still present, under its current name, with its exact number of uses. */
  ghost predicate Counted(s: Store, g: Group) {
    && FindCard(s, g.cardId).Some?
    && g.name == FindCard(s, g.cardId).value.name
    && g.count == Uses(s.usage.rows, g.cardId)
  }

  /** Each group is counted faithfully and stands for at least one use. */
  ghost predicate Faithful(s: Store, gs: seq<Group>) {
    forall i :: 0 <= i < |gs| ==> Counted(s, gs[i]) && gs[i].count >= 1
  }

  function CardIds(gs: seq<Group>): set<int> {
    set g | g in gs :: g.cardId
  }

  /** What any answer of the query satisfies: at most five faithful groups, distinct cards, counts
      non-increasing, and every used card left out has no more uses than any listed one (and is left
      out only when five are listed). */
  ghost predicate TopFive(s: Store, gs: seq<Group>) {
    && |gs| <= Limit
    && Faithful(s, gs)
    && DistinctCards(gs)
    && NonIncreasing(gs)
    && forall u :: 0 <= u < |s.usage.rows| && Left(s, gs, s.usage.rows[u].data.cardId) ==>
                     |gs| == Limit && AtMostAll(Uses(s.usage.rows, s.usage.rows[u].data.cardId), gs)
  }

  /** Card `id` is still present but has no group in `gs`. */
  ghost predicate Left(s: Store, gs: seq<Group>, id: int) {
    FindCard(s, id).Some? && id !in CardIds(gs)
  }

  /** The sum of the listed counts. */
  function TotalCount(gs: seq<Group>): nat {
    if |gs| == 0 then 0 else gs[0].count + TotalCount(gs[1..])
  }

  /** Counting over no card gives nothing. */
  lemma {:induction false} UsesInNone(usage: seq<Row<UsageData>>)
    ensures UsesIn(usage, {}) == 0
  {
    if |usage| > 0 {
      UsesInNone(usage[1..]);
    }
  }

  /** Groups for distinct cards counted from `usage` never add up to more than its rows. */
  lemma {:induction false} TotalCountBounded(usage: seq<Row<UsageData>>, gs: seq<Group>)
    requires DistinctCards(gs)
    requires forall i :: 0 <= i < |gs| ==> gs[i].count == Uses(usage, gs[i].cardId)
    ensures TotalCount(gs) == UsesIn(usage, CardIds(gs)) <= |usage|
  {
    if |gs| == 0 {
      assert CardIds(gs) == {};
      UsesInNone(usage);
    } else {
      var rest := gs[1..];
      TotalCountBounded(usage, rest);
      assert gs[0].cardId !in CardIds(rest);
      assert CardIds(gs) == CardIds(rest) + {gs[0].cardId} by {
        assert forall g :: g in gs <==> g == gs[0] || g in rest;
      }
      UsesInAdd(usage, CardIds(rest), gs[0].cardId);
    }
  }

  // ---------------------------------------------------------------- computing one answer

  /** The groups of the join, one per distinct used card still present, in order of first use. */
  function GroupsFor(s: Store, ids: seq<int>): (gs: seq<Group>)
    ensures forall i :: 0 <= i < |gs| ==> gs[i].cardId in ids && Counted(s, gs[i])
  {
    if |ids| == 0 then []
    else
      var rest := GroupsFor(s, ids[1..]);
      match FindCard(s, ids[0])
      case None => rest
      case Some(card) => [Group(ids[0], card.name, Uses(s.usage.rows, ids[0]))] + rest
  }

  /** Every id whose card is present gets a group. */
  lemma {:induction false} GroupsForCovers(s: Store, ids: seq<int>)
    ensures forall i :: 0 <= i < |ids| && FindCard(s, ids[i]).Some? ==> ids[i] in CardIds(GroupsFor(s, ids))
  {
    if |ids| > 0 {
      var tail := ids[1..];
      GroupsForCovers(s, tail);
      var rest := GroupsFor(s, tail);
      assert forall i :: 1 <= i < |ids| ==> ids[i] == tail[i - 1];
      match FindCard(s, ids[0])
      case None =>
      case Some(card) =>
        CardIdsCons(Group(ids[0], card.name, Uses(s.usage.rows, ids[0])), rest);
    }
  }

  /** Distinct ids give groups for distinct cards. */
  lemma {:induction false} GroupsForDistinct(s: Store, ids: seq<int>)
    requires forall i, j :: 0 <= i < j < |ids| ==> ids[i] != ids[j]
    ensures DistinctCards(GroupsFor(s, ids))
  {
    if |ids| > 0 {
      var tail := ids[1..];
      assert forall i :: 0 <= i < |tail| ==> tail[i] == ids[i + 1];
      GroupsForDistinct(s, tail);
      var rest := GroupsFor(s, tail);
      match FindCard(s, ids[0])
      case None =>
      case Some(card) =>
        assert ids[0] !in tail;
        ConsDistinct(Group(ids[0], card.name, Uses(s.usage.rows, ids[0])), rest);
    }
  }

  /** The cards of a group list with one more group in front. */
  lemma CardIdsCons(g: Group, rest: seq<Group>)
    ensures CardIds([g] + rest) == {g.cardId} + CardIds(rest)
  {
    var gs := [g] + rest;
    assert forall x :: x in gs <==> x == g || x in rest;
  }

  /** The card id of every usage row, in log order. */
  function UsedIds(usage: seq<Row<UsageData>>): (ids: seq<int>)
    ensures |ids| == |usage| && forall i :: 0 <= i < |usage| ==> ids[i] == usage[i].data.cardId
  {
    seq(|usage|, i requires 0 <= i < |usage| => usage[i].data.cardId)
  }

  /** A card that appears in the log is used at least once. */
  lemma {:induction false} UsedAtLeastOnce(usage: seq<Row<UsageData>>, id: int)
    requires exists i :: 0 <= i < |usage| && usage[i].data.cardId == id
    ensures Uses(usage, id) >= 1
  {
    if usage[0].data.cardId != id {
      var i :| 0 <= i < |usage| && usage[i].data.cardId == id;
      assert usage[1..][i - 1].data.cardId == id;
      UsedAtLeastOnce(usage[1..], id);
    }
  }

  /** `... JOIN cards ... GROUP BY l.card_id`. */
  function Groups(s: Store): (gs: seq<Group>)
    ensures Faithful(s, gs) && DistinctCards(gs)
    ensures forall u :: 0 <= u < |s.usage.rows| && FindCard(s, s.usage.rows[u].data.cardId).Some? ==>
              s.usage.rows[u].data.cardId in CardIds(gs)
  {
    var used := UsedIds(s.usage.rows);
    var ids := Seqs.Distinct(used);
    var gs := GroupsFor(s, ids);
    GroupsForCovers(s, ids);
    GroupsForDistinct(s, ids);
    assert forall i :: 0 <= i < |gs| ==> Uses(s.usage.rows, gs[i].cardId) >= 1 by {
      forall i | 0 <= i < |gs|
        ensures Uses(s.usage.rows, gs[i].cardId) >= 1
      {
        var k :| 0 <= k < |used| && used[k] == gs[i].cardId;
        UsedAtLeastOnce(s.usage.rows, gs[i].cardId);
      }
    }
    forall u | 0 <= u < |s.usage.rows| && FindCard(s, s.usage.rows[u].data.cardId).Some?
      ensures s.usage.rows[u].data.cardId in CardIds(gs)
    {
      assert used[u] in ids;
    }
    gs
  }

  /** The position of a group with the largest count among positions `from` onwards (the first such). */
  function MaxFrom(gs: seq<Group>, from: nat): (m: nat)
    requires from < |gs|
    ensures from <= m < |gs|
    decreases |gs| - from
  {
    if from == |gs| - 1 then from
    else
      var m := MaxFrom(gs, from + 1);
      if gs[from].count >= gs[m].count then from else m
  }

  /** No group from position `from` onwards has a larger count than the one at `MaxFrom`. */
  lemma {:induction false} MaxFromIsMax(gs: seq<Group>, from: nat, i: nat)
    requires from <= i < |gs|
    ensures gs[i].count <= gs[MaxFrom(gs, from)].count
    decreases |gs| - from
  {
    if from < i {
      MaxFromIsMax(gs, from + 1, i);
    }
  }

  /** The position of a group with the largest count (the first such). */
  function MaxIndex(gs: seq<Group>): (m: nat)
    requires |gs| > 0
    ensures m < |gs|
  {
    MaxFrom(gs, 0)
  }

  /** No group has a larger count than the one at `MaxIndex`. */
  lemma MaxIndexIsMax(gs: seq<Group>, i: nat)
    requires i < |gs|
    ensures gs[i].count <= gs[MaxIndex(gs)].count
  {
    MaxFromIsMax(gs, 0, i);
  }

  /** The position in `gs` of position `t` of `RemoveAt(gs, m)`. */
  function Unshift(t: nat, m: nat): (i: nat)
    ensures i != m
  {
    if t < m then t else t + 1
  }

  /** The position in `RemoveAt(gs, m)` of position `i` of `gs`, for `i != m`. */
  function Shift(i: nat, m: nat): (t: nat)
    requires i != m
    ensures Unshift(t, m) == i
  {
    if i < m then i else i - 1
  }

  /** `gs` without the element at position `m`. */
  function RemoveAt(gs: seq<Group>, m: nat): (rest: seq<Group>)
    requires m < |gs|
    ensures |rest| == |gs| - 1
  {
    seq(|gs| - 1, t requires 0 <= t < |gs| - 1 => gs[Unshift(t, m)])
  }

  /** Position `t` of `RemoveAt(gs, m)` holds position `Unshift(t, m)` of `gs`. */
  lemma RemoveAtAt(gs: seq<Group>, m: nat, t: nat)
    requires m < |gs| && t < |gs| - 1
    ensures Unshift(t, m) < |gs| && RemoveAt(gs, m)[t] == gs[Unshift(t, m)]
  {
  }

  /** `ORDER BY use_count DESC LIMIT k`, by repeatedly taking a largest group. */
  function Top(gs: seq<Group>, k: nat): (r: seq<Group>)
    ensures |r| == if k < |gs| then k else |gs|
    decreases k
  {
    if k == 0 || |gs| == 0 then []
    else
      var m := MaxIndex(gs);
      [gs[m]] + Top(RemoveAt(gs, m), k - 1)
  }

  /** The first selected group is a largest one. */
  lemma TopHead(gs: seq<Group>, k: nat)
    requires 0 < |Top(gs, k)|
    ensures Top(gs, k)[0] == gs[MaxIndex(gs)]
  {
    assert Top(gs, k) == [gs[MaxIndex(gs)]] + Top(RemoveAt(gs, MaxIndex(gs)), k - 1);
  }

  /** Past the head, the selection continues with the selection from what is left. */
  lemma TopAt(gs: seq<Group>, k: nat, j: nat)
    requires 0 < j < |Top(gs, k)|
    ensures j - 1 < |Top(RemoveAt(gs, MaxIndex(gs)), k - 1)|
    ensures Top(gs, k)[j] == Top(RemoveAt(gs, MaxIndex(gs)), k - 1)[j - 1]
  {
    assert Top(gs, k) == [gs[MaxIndex(gs)]] + Top(RemoveAt(gs, MaxIndex(gs)), k - 1);
  }

  /** The position in `gs` of the group selected at position `j`. */
  lemma {:induction false} TopSource(gs: seq<Group>, k: nat, j: nat) returns (q: nat)
    requires j < |Top(gs, k)|
    ensures q < |gs| && Top(gs, k)[j] == gs[q]
    decreases k
  {
    var m := MaxIndex(gs);
    if j == 0 {
      TopHead(gs, k);
      q := m;
    } else {
      TopAt(gs, k, j);
      var t := TopSource(RemoveAt(gs, m), k - 1, j - 1);
      RemoveAtAt(gs, m, t);
      q := Unshift(t, m);
    }
  }

  /** Every selected group is one of the groups. */
  lemma TopSelectsFrom(gs: seq<Group>, k: nat)
    ensures forall j :: 0 <= j < |Top(gs, k)| ==> Top(gs, k)[j] in gs
  {
    forall j | 0 <= j < |Top(gs, k)|
      ensures Top(gs, k)[j] in gs
    {
      var q := TopSource(gs, k, j);
    }
  }

  /** No group left after removing the largest has a larger count. */
  lemma RestAtMostMax(gs: seq<Group>, t: nat)
    requires 0 < |gs| && t < |RemoveAt(gs, MaxIndex(gs))|
    ensures RemoveAt(gs, MaxIndex(gs))[t].count <= gs[MaxIndex(gs)].count
  {
    RemoveAtAt(gs, MaxIndex(gs), t);
    MaxIndexIsMax(gs, Unshift(t, MaxIndex(gs)));
  }

  /** The selected groups come out with non-increasing counts. */
  lemma {:induction false} TopSorted(gs: seq<Group>, k: nat)
    ensures NonIncreasing(Top(gs, k))
    decreases k
  {
    if 0 < k && 0 < |gs| {
      var m := MaxIndex(gs);
      var tail := Top(RemoveAt(gs, m), k - 1);
      TopSorted(RemoveAt(gs, m), k - 1);
      forall j | 0 <= j < |tail|
        ensures tail[j].count <= gs[m].count
      {
        var t := TopSource(RemoveAt(gs, m), k - 1, j);
        RestAtMostMax(gs, t);
      }
      ConsNonIncreasing(gs[m], tail);
    }
  }

  /** A group with a larger count than the group selected at position `j` is selected too. */
  lemma {:induction false} LargerIsTaken(gs: seq<Group>, k: nat, i: nat, j: nat)
    requires i < |gs| && j < |Top(gs, k)|
    ensures gs[i].count > Top(gs, k)[j].count ==> gs[i] in Top(gs, k)
    decreases k
  {
    var m := MaxIndex(gs);
    var rest := RemoveAt(gs, m);
    var tail := Top(rest, k - 1);
    assert Top(gs, k) == [gs[m]] + tail;
    if i == m {
      assert Top(gs, k)[0] == gs[i];
    } else if gs[i].count > Top(gs, k)[j].count {
      MaxIndexIsMax(gs, i);
      assert j != 0 by {
        assert Top(gs, k)[0] == gs[m];
      }
      RemoveAtAt(gs, m, Shift(i, m));
      TopAt(gs, k, j);
      LargerIsTaken(rest, k - 1, Shift(i, m), j - 1);
    }
  }

  /** A group left out has no larger count than any group selected. */
  lemma TopExcludesOnlySmaller(gs: seq<Group>, k: nat)
    ensures forall i :: 0 <= i < |gs| && gs[i] !in Top(gs, k) ==> AtMostAll(gs[i].count, Top(gs, k))
  {
    forall i, j | 0 <= i < |gs| && gs[i] !in Top(gs, k) && 0 <= j < |Top(gs, k)|
      ensures gs[i].count <= Top(gs, k)[j].count
    {
      LargerIsTaken(gs, k, i, j);
    }
  }

  /** When no more than `k` groups exist, any one of them is selected. */
  lemma {:induction false} TakenWhenFew(gs: seq<Group>, k: nat, i: nat)
    requires i < |gs| <= k
    ensures gs[i] in Top(gs, k)
    decreases k
  {
    var m := MaxIndex(gs);
    var rest := RemoveAt(gs, m);
    var tail := Top(rest, k - 1);
    var r := Top(gs, k);
    assert r == [gs[m]] + tail;
    if i != m {
      RemoveAtAt(gs, m, Shift(i, m));
      TakenWhenFew(rest, k - 1, Shift(i, m));
    } else {
      assert r[0] == gs[i];
    }
  }

  /** When no more than `k` groups exist, all of them are selected. */
  lemma TopTakesAllWhenFew(gs: seq<Group>, k: nat)
    ensures k >= |gs| ==> forall i :: 0 <= i < |gs| ==> gs[i] in Top(gs, k)
  {
    if k >= |gs| {
      forall i | 0 <= i < |gs|
        ensures gs[i] in Top(gs, k)
      {
        TakenWhenFew(gs, k, i);
      }
    }
  }

  /** Removing a group from groups for distinct cards leaves groups for distinct cards. */
  lemma RemoveAtDistinct(gs: seq<Group>, m: nat)
    requires m < |gs| && DistinctCards(gs)
    ensures DistinctCards(RemoveAt(gs, m))
  {
    var rest := RemoveAt(gs, m);
    forall i, j | 0 <= i < j < |rest|
      ensures rest[i].cardId != rest[j].cardId
    {
      RemoveAtAt(gs, m, i);
      RemoveAtAt(gs, m, j);
    }
  }

  /** After removing a group from groups for distinct cards, no group left is for its card. */
  lemma RemoveAtOtherCards(gs: seq<Group>, m: nat, t: nat)
    requires m < |gs| && DistinctCards(gs) && t < |RemoveAt(gs, m)|
    ensures RemoveAt(gs, m)[t].cardId != gs[m].cardId
  {
    RemoveAtAt(gs, m, t);
    var i := Unshift(t, m);
    if i < m {
      assert gs[i].cardId != gs[m].cardId;
    } else {
      assert gs[m].cardId != gs[i].cardId;
    }
  }

  /** Selecting from groups for distinct cards gives groups for distinct cards. */
  lemma {:induction false} TopDistinct(gs: seq<Group>, k: nat)
    requires DistinctCards(gs)
    ensures DistinctCards(Top(gs, k))
    decreases k
  {
    if 0 < k && 0 < |gs| {
      var m := MaxIndex(gs);
      var rest := RemoveAt(gs, m);
      var tail := Top(rest, k - 1);
      RemoveAtDistinct(gs, m);
      TopDistinct(rest, k - 1);
      forall j | 0 <= j < |tail|
        ensures tail[j].cardId != gs[m].cardId
      {
        var t := TopSource(rest, k - 1, j);
        RemoveAtOtherCards(gs, m, t);
      }
      ConsDistinct(gs[m], tail);
    }
  }

  /** Groups drawn from faithful groups are faithful. */
  lemma FaithfulSelection(s: Store, all: seq<Group>, top: seq<Group>)
    requires Faithful(s, all)
    requires forall j :: 0 <= j < |top| ==> top[j] in all
    ensures Faithful(s, top)
  {
    forall i | 0 <= i < |top|
      ensures Counted(s, top[i]) && top[i].count >= 1
    {
      var k :| 0 <= k < |all| && all[k] == top[i];
    }
  }

  /** A used, present card missing from the selection was left out for having no more uses. */
  lemma LeftOutOnlySmaller(s: Store, all: seq<Group>, top: seq<Group>)
    requires Faithful(s, all)
    requires forall u :: 0 <= u < |s.usage.rows| && FindCard(s, s.usage.rows[u].data.cardId).Some? ==>
               s.usage.rows[u].data.cardId in CardIds(all)
    requires forall i :: 0 <= i < |all| && all[i] !in top ==> AtMostAll(all[i].count, top)
    requires |all| <= Limit ==> forall i :: 0 <= i < |all| ==> all[i] in top
    requires |top| == if Limit < |all| then Limit else |all|
    ensures forall u :: 0 <= u < |s.usage.rows| && Left(s, top, s.usage.rows[u].data.cardId) ==>
              |top| == Limit && AtMostAll(Uses(s.usage.rows, s.usage.rows[u].data.cardId), top)
  {
    forall u | 0 <= u < |s.usage.rows| && Left(s, top, s.usage.rows[u].data.cardId)
      ensures |top| == Limit && AtMostAll(Uses(s.usage.rows, s.usage.rows[u].data.cardId), top)
    {
      var id := s.usage.rows[u].data.cardId;
      var g :| g in all && g.cardId == id;
      var i :| 0 <= i < |all| && all[i] == g;
      assert g !in top;
      assert Counted(s, all[i]);
    }
  }

  /** The `popularCards` answer this model returns. */
  function PopularCards(s: Store): (gs: seq<Group>)
    ensures TopFive(s, gs)
    ensures TotalCount(gs) <= |s.usage.rows|
  {
    var all := Groups(s);
    var top := Top(all, Limit);
    TopSorted(all, Limit);
    TopExcludesOnlySmaller(all, Limit);
    TopDistinct(all, Limit);
    TopTakesAllWhenFew(all, Limit);
    TopSelectsFrom(all, Limit);
    FaithfulSelection(s, all, top);
    LeftOutOnlySmaller(s, all, top);
    TotalCountBounded(s.usage.rows, top);
    top
  }
}
