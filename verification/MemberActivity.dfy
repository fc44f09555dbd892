/**
 * The member's activity feed: four sources, each cut to its newest rows, merged, sorted and cut again.
 * Timestamps are compared as canonical text, which orders them as instants (module Timestamps).
 */
module MemberActivity {
  import opened Prelude

  const PER_SOURCE_LIMIT := 50
  const RESPONSE_LIMIT := 100

  datatype Kind = ConfirmationItem | ContributionItem | EvolutionItem | PublishedItem

  /** The kinds' names in collation order: confirmation, contribution, signal_evolution, signal_published. */
  function KindRank(kind: Kind): nat {
    match kind
    case ConfirmationItem => 0
    case ContributionItem => 1
    case EvolutionItem => 2
    case PublishedItem => 3
  }

  datatype Row = Row(id: string, at: int)
  datatype Item = Item(kind: Kind, row: Row)

  /** Every row there is, newest first, by source. */
  datatype Sources = Sources(
    confirmations: seq<Row>,
    contributions: seq<Row>,
    authored: seq<Row>,
    participated: seq<Row>)

  ghost predicate NewestFirst(rows: seq<Row>) {
    forall i, j :: 0 <= i < j < |rows| ==> rows[i].at >= rows[j].at
  }

  ghost predicate SourcesOrdered(s: Sources) {
    NewestFirst(s.confirmations) && NewestFirst(s.contributions)
    && NewestFirst(s.authored) && NewestFirst(s.participated)
  }

  // ---- The feed -----------------------------------------------------------

  function Newest(rows: seq<Row>): seq<Row> {
    if |rows| <= PER_SOURCE_LIMIT then rows else rows[..PER_SOURCE_LIMIT]
  }

  function Items(kind: Kind, rows: seq<Row>): (r: seq<Item>)
    ensures |r| == |rows| && forall i :: 0 <= i < |r| ==> r[i] == Item(kind, rows[i])
  {
    seq(|rows|, i requires 0 <= i < |rows| => Item(kind, rows[i]))
  }

  function Merged(s: Sources): seq<Item> {
    Items(ConfirmationItem, Newest(s.confirmations)) + Items(ContributionItem, Newest(s.contributions))
    + Items(PublishedItem, Newest(s.authored)) + Items(EvolutionItem, Newest(s.participated))
  }

  /** Newer first, and by kind within one timestamp. */
  predicate Precedes(a: Item, b: Item) {
    a.row.at > b.row.at || (a.row.at == b.row.at && KindRank(a.kind) <= KindRank(b.kind))
  }

  function Feed(s: Sources): seq<Item> {
    var sorted := SortBy(Precedes, Merged(s));
    if |sorted| <= RESPONSE_LIMIT then sorted else sorted[..RESPONSE_LIMIT]
  }

  method GetMemberActivity(s: Sources) returns (feed: seq<Item>)
    ensures feed == Feed(s)
  {
    var items: seq<Item> := [];
    var rows := Newest(s.confirmations);
    for k := 0 to |rows|
      invariant items == Items(ConfirmationItem, rows[..k])
    {
      items := items + [Item(ConfirmationItem, rows[k])];
    }
    assert rows[..|rows|] == rows;
    ghost var first := items;
    rows := Newest(s.contributions);
    for k := 0 to |rows|
      invariant items == first + Items(ContributionItem, rows[..k])
    {
      items := items + [Item(ContributionItem, rows[k])];
    }
    assert rows[..|rows|] == rows;
    ghost var second := items;
    rows := Newest(s.authored);
    for k := 0 to |rows|
      invariant items == second + Items(PublishedItem, rows[..k])
    {
      items := items + [Item(PublishedItem, rows[k])];
    }
    assert rows[..|rows|] == rows;
    ghost var third := items;
    rows := Newest(s.participated);
    for k := 0 to |rows|
      invariant items == third + Items(EvolutionItem, rows[..k])
    {
      items := items + [Item(EvolutionItem, rows[k])];
    }
    assert rows[..|rows|] == rows;
    items := SortBy(Precedes, items);
    feed := if |items| <= RESPONSE_LIMIT then items else items[..RESPONSE_LIMIT];
  }

  /** `item` is one row of the source that its kind names. */
  predicate FromSource(s: Sources, item: Item) {
    match item.kind
    case ConfirmationItem => item.row in s.confirmations
    case ContributionItem => item.row in s.contributions
    case PublishedItem => item.row in s.authored
    case EvolutionItem => item.row in s.participated
  }

  lemma PrecedesIsTotal()
    ensures TotalPreorder(Precedes)
  {
  }

  lemma MergedFromSources(s: Sources, item: Item)
    requires item in Merged(s)
    ensures FromSource(s, item)
  {
  }

  /** The feed is sorted, bounded, and made of source rows only. */
  lemma FeedIsSorted(s: Sources)
    ensures Sorted(Precedes, Feed(s)) && |Feed(s)| <= RESPONSE_LIMIT
    ensures forall item <- Feed(s) :: FromSource(s, item)
  {
    PrecedesIsTotal();
    SortBySorted(Precedes, Merged(s));
    var sorted := SortBy(Precedes, Merged(s));
    hide SortBy, Merged, Precedes, FromSource;
    forall item <- Feed(s) ensures FromSource(s, item) {
      assert item in sorted && item in multiset(sorted);
      assert item in multiset(Merged(s));
      MergedFromSources(s, item);
    }
  }

  // ---- Greatest timestamps ------------------------------------------------

  predicate Geq(a: int, b: int) {
    a >= b
  }

  lemma GeqIsOrder()
    ensures TotalPreorder(Geq) && Antisymmetric(Geq)
  {
  }

  function Times(rows: seq<Row>): (r: seq<int>)
    ensures |r| == |rows| && forall i :: 0 <= i < |r| ==> r[i] == rows[i].at
  {
    seq(|rows|, i requires 0 <= i < |rows| => rows[i].at)
  }

  function ItemTimes(items: seq<Item>): (r: seq<int>)
    ensures |r| == |items| && forall i :: 0 <= i < |r| ==> r[i] == items[i].row.at
  {
    seq(|items|, i requires 0 <= i < |items| => items[i].row.at)
  }

  function Union(s: Sources): seq<int> {
    Times(s.confirmations) + Times(s.contributions) + Times(s.authored) + Times(s.participated)
  }

  /** The `n` greatest, in descending order. */
  function Greatest(times: seq<int>, n: nat): seq<int> {
    var sorted := SortBy(Geq, times);
    if |sorted| <= n then sorted else sorted[..n]
  }

  lemma GreatestOfPermutation(s: seq<int>, t: seq<int>, n: nat)
    requires multiset(s) == multiset(t)
    ensures Greatest(s, n) == Greatest(t, n)
  {
    GeqIsOrder();
    SortBySorted(Geq, s);
    SortBySorted(Geq, t);
    SortedUnique(Geq, SortBy(Geq, s), SortBy(Geq, t));
  }

  lemma AllEqual(y: int, s: seq<int>, n: nat)
    requires Sorted(Geq, s) && 0 < n <= |s| && s[n - 1] >= y >= s[0]
    ensures forall i :: 0 <= i < n ==> s[i] == y
  {
    forall i | 0 <= i < n ensures s[i] == y {
      assert i > 0 ==> Geq(s[0], s[i]);
      assert i < n - 1 ==> Geq(s[i], s[n - 1]);
    }
  }

  /** Inserting a value no greater than the first `n` leaves those values in place. */
  lemma {:induction false} InsertBelow(y: int, s: seq<int>, n: nat)
    requires Sorted(Geq, s) && n <= |s| && (n > 0 ==> s[n - 1] >= y)
    ensures Insert(Geq, y, s)[..n] == s[..n]
  {
    if n > 0 {
      if y >= s[0] {
        AllEqual(y, s, n);
        assert Insert(Geq, y, s) == [y] + s;
      } else {
        InsertBelow(y, s[1..], n - 1);
        PrefixUnderHead(s[0], Insert(Geq, y, s[1..]), s[1..], n);
        assert s == [s[0]] + s[1..];
      }
    }
  }

  lemma PrefixUnderHead(x: int, a: seq<int>, b: seq<int>, n: nat)
    requires 0 < n <= |b| + 1 && n <= |a| + 1 && a[..n - 1] == b[..n - 1]
    ensures ([x] + a)[..n] == ([x] + b)[..n]
  {
    assert ([x] + a)[..n] == [x] + a[..n - 1] && ([x] + b)[..n] == [x] + b[..n - 1];
  }

  lemma SubmultisetSize(a: multiset<int>, b: multiset<int>)
    requires a <= b
    ensures |a| <= |b|
  {
    assert b == a + (b - a);
  }

  /** If `n` of the elements are at least `y`, the `n`-th of the sorted listing is. */
  lemma RankedAbove(kept: seq<int>, s: seq<int>, y: int)
    requires kept != [] && multiset(kept) <= multiset(s) && Sorted(Geq, s)
    requires forall i :: 0 <= i < |kept| ==> kept[i] >= y
    ensures |kept| <= |s| && s[|kept| - 1] >= y
  {
    SubmultisetSize(multiset(kept), multiset(s));
    var n := |kept|;
    if s[n - 1] < y {
      var head, tail := s[..n - 1], s[n - 1..];
      assert s == head + tail;
      assert multiset(s) == multiset(head) + multiset(tail);
      forall x | x in multiset(kept) ensures multiset(kept)[x] <= multiset(head)[x] {
        assert x in kept;
        forall i | 0 <= i < |tail| ensures tail[i] != x {
          assert Geq(s[n - 1], s[n - 1 + i]) || i == 0;
        }
        assert x !in multiset(tail);
      }
      SubmultisetSize(multiset(kept), multiset(head));
    }
  }

  /** A row older than `n` others of its source cannot be among the `n` greatest. */
  lemma DropOne(kept: seq<int>, rest: seq<int>, y: int, n: nat)
    requires |kept| == n && multiset(kept) <= multiset(rest)
    requires forall i :: 0 <= i < n ==> kept[i] >= y
    ensures Greatest([y] + rest, n) == Greatest(rest, n)
  {
    GeqIsOrder();
    SortBySorted(Geq, rest);
    SortByCons(Geq, y, rest);
    var sorted := SortBy(Geq, rest);
    assert n <= |sorted| by { SubmultisetSize(multiset(kept), multiset(sorted)); }
    hide SortBy, Insert, Geq, Sorted, TotalPreorder, Antisymmetric;
    if n > 0 {
      RankedAbove(kept, sorted, y);
    }
    InsertBelow(y, sorted, n);
  }

  /** So all the rows a source was cut by can be dropped. */
  lemma {:induction false} DropMany(kept: seq<int>, dropped: seq<int>, rest: seq<int>, n: nat)
    requires |kept| == n && multiset(kept) <= multiset(rest)
    requires forall i, j :: 0 <= i < n && 0 <= j < |dropped| ==> kept[i] >= dropped[j]
    ensures Greatest(dropped + rest, n) == Greatest(rest, n)
  {
    hide Greatest;
    if dropped == [] {
      assert dropped + rest == rest;
    } else {
      DropMany(kept, dropped[1..], rest, n);
      assert multiset(dropped[1..] + rest) == multiset(dropped[1..]) + multiset(rest);
      DropOne(kept, dropped[1..] + rest, dropped[0], n);
      assert dropped + rest == [dropped[0]] + (dropped[1..] + rest);
    }
  }

  lemma CutSource(rows: seq<Row>, before: seq<int>, after: seq<int>)
    requires NewestFirst(rows)
    ensures Greatest(before + Times(rows) + after, PER_SOURCE_LIMIT)
         == Greatest(before + Times(Newest(rows)) + after, PER_SOURCE_LIMIT)
  {
    if |rows| > PER_SOURCE_LIMIT {
      var all := Times(rows);
      var kept, dropped := all[..PER_SOURCE_LIMIT], all[PER_SOURCE_LIMIT..];
      assert Times(Newest(rows)) == kept;
      assert all == kept + dropped;
      hide Greatest, Times, Newest;
      MoveToFront(before, kept, dropped, after);
      DropMany(kept, dropped, before + kept + after, PER_SOURCE_LIMIT);
      GreatestOfPermutation(before + all + after, dropped + (before + kept + after), PER_SOURCE_LIMIT);
    }
  }

  lemma MoveToFront(before: seq<int>, kept: seq<int>, dropped: seq<int>, after: seq<int>)
    ensures multiset(before + (kept + dropped) + after) == multiset(dropped + (before + kept + after))
    ensures multiset(kept) <= multiset(before + kept + after)
  {
    assert multiset(before + kept + after) == multiset(before) + multiset(kept) + multiset(after);
  }

  function FirstFifty(times: seq<int>): seq<int> {
    if |times| <= PER_SOURCE_LIMIT then times else times[..PER_SOURCE_LIMIT]
  }

  /** The first fifty entries carry exactly the fifty greatest timestamps of all rows, cut or not. */
  lemma FirstFiftyAreNewest(s: Sources)
    requires SourcesOrdered(s)
    ensures FirstFifty(ItemTimes(Feed(s))) == Greatest(Union(s), PER_SOURCE_LIMIT)
  {
    FeedTimes(s);
    MergedTimes(s);
    hide Greatest, Times, Newest, Feed, FirstFifty, NewestFirst;
    var a, b, c, d := Times(s.confirmations), Times(s.contributions), Times(s.authored), Times(s.participated);
    var a1, b1 := Times(Newest(s.confirmations)), Times(Newest(s.contributions));
    var c1 := Times(Newest(s.authored));
    assert Union(s) == [] + a + (b + c + d) && [] + a1 + (b + c + d) == a1 + b + (c + d);
    assert a1 + b1 + (c + d) == (a1 + b1) + c + d;
    assert (a1 + b1) + c1 + d == (a1 + b1 + c1) + d + [];
    CutSource(s.confirmations, [], b + c + d);
    CutSource(s.contributions, a1, c + d);
    CutSource(s.authored, a1 + b1, d);
    CutSource(s.participated, a1 + b1 + c1, []);
  }

  lemma MergedTimes(s: Sources)
    ensures ItemTimes(Merged(s)) == Times(Newest(s.confirmations)) + Times(Newest(s.contributions))
              + Times(Newest(s.authored)) + Times(Newest(s.participated)) + []
  {
    var a, b := Items(ConfirmationItem, Newest(s.confirmations)), Items(ContributionItem, Newest(s.contributions));
    var c, d := Items(PublishedItem, Newest(s.authored)), Items(EvolutionItem, Newest(s.participated));
    hide Newest;
    assert ItemTimes(a + b + c + d) == ItemTimes(a) + ItemTimes(b) + ItemTimes(c) + ItemTimes(d);
  }

  lemma ItemTimesCons(x: Item, s: seq<Item>)
    ensures ItemTimes([x] + s) == [x.row.at] + ItemTimes(s)
  {
  }

  lemma {:induction false} TimesOfInsert(x: Item, s: seq<Item>)
    ensures multiset(ItemTimes(Insert(Precedes, x, s))) == multiset(ItemTimes(s)) + multiset{x.row.at}
  {
    hide Precedes, ItemTimes;
    if s == [] || Precedes(x, s[0]) {
      assert Insert(Precedes, x, s) == [x] + s;
      ItemTimesCons(x, s);
    } else {
      TimesOfInsert(x, s[1..]);
      var rest := Insert(Precedes, x, s[1..]);
      assert Insert(Precedes, x, s) == [s[0]] + rest;
      assert s == [s[0]] + s[1..];
      hide Insert;
      ItemTimesCons(s[0], rest);
      ItemTimesCons(s[0], s[1..]);
    }
  }

  lemma {:induction false} TimesOfSort(s: seq<Item>)
    ensures multiset(ItemTimes(SortBy(Precedes, s))) == multiset(ItemTimes(s))
  {
    if s != [] {
      TimesOfSort(s[1..]);
      TimesOfInsert(s[0], SortBy(Precedes, s[1..]));
      SortByCons(Precedes, s[0], s[1..]);
      ItemTimesCons(s[0], s[1..]);
      assert s == [s[0]] + s[1..];
      hide SortBy, Insert, Precedes, ItemTimes;
    }
  }

  lemma SortedItemTimes(items: seq<Item>)
    requires Sorted(Precedes, items)
    ensures Sorted(Geq, ItemTimes(items))
  {
    forall i, j | 0 <= i < j < |items| ensures Geq(ItemTimes(items)[i], ItemTimes(items)[j]) {
      assert Precedes(items[i], items[j]);
    }
  }

  lemma FeedTimes(s: Sources)
    ensures FirstFifty(ItemTimes(Feed(s))) == Greatest(ItemTimes(Merged(s)), PER_SOURCE_LIMIT)
  {
    hide SortBy, Merged, Precedes;
    var sorted, times := SortBy(Precedes, Merged(s)), ItemTimes(Merged(s));
    PrecedesIsTotal();
    GeqIsOrder();
    SortBySorted(Precedes, Merged(s));
    SortedItemTimes(sorted);
    TimesOfSort(Merged(s));
    SortBySorted(Geq, times);
    SortedUnique(Geq, ItemTimes(sorted), SortBy(Geq, times));
  }

  // ---- The feed in full ---------------------------------------------------

  function Name(kind: Kind): string {
    match kind
    case ConfirmationItem => "con" + "firmation"
    case ContributionItem => "con" + "tribution"
    case EvolutionItem => "signal_" + "evolution"
    case PublishedItem => "signal_" + "published"
  }

  /** The kinds rank as their names do. */
  lemma NameOrder(a: Kind, b: Kind)
    ensures LexLeq(Name(a), Name(b)) <==> KindRank(a) <= KindRank(b)
  {
    LexReflexive(Name(a));
    LexAppend("con", "con", "firmation", "tribution");
    LexAppend("con", "con", "tribution", "firmation");
    LexAppend("signal_", "signal_", "evolution", "published");
    LexAppend("signal_", "signal_", "published", "evolution");
    assert Name(a)[0] != Name(b)[0] || Name(a)[..3] == Name(b)[..3];
  }

  /** The items of one kind and one timestamp, in their order. */
  function Within(kind: Kind, at: int, items: seq<Item>): seq<Item> {
    Filter((x: Item) => x.kind == kind && x.row.at == at, items)
  }

  function UpTo<T>(n: nat, s: seq<T>): seq<T> {
    if |s| <= n then s else s[..n]
  }

  /** The newest fifty of each source. */
  function Candidates(s: Sources): seq<Item> {
    Items(ConfirmationItem, UpTo(50, s.confirmations)) + Items(ContributionItem, UpTo(50, s.contributions))
    + Items(PublishedItem, UpTo(50, s.authored)) + Items(EvolutionItem, UpTo(50, s.participated))
  }

  /**
   * The feed and what it leaves out are the newest fifty of each source: listed newest first, within one timestamp by
   * the kinds' names, within one kind in the order of the source. It leaves out only what is beyond the first hundred.
   */
  lemma FeedExactly(s: Sources) returns (rest: seq<Item>)
    ensures var all := Feed(s) + rest;
      && multiset(all) == multiset(Candidates(s))
      && Feed(s) == UpTo(100, all)
      && (forall i, j :: 0 <= i < j < |all| ==>
            all[i].row.at >= all[j].row.at
            && (all[i].row.at == all[j].row.at ==> LexLeq(Name(all[i].kind), Name(all[j].kind))))
      && forall kind, at :: Within(kind, at, all) == Within(kind, at, Candidates(s))
  {
    var sorted := SortBy(Precedes, Merged(s));
    CandidatesMerged(s);
    hide Merged, Candidates;
    rest := sorted[|Feed(s)|..];
    assert Feed(s) + rest == sorted;
    PrecedesIsTotal();
    SortBySorted(Precedes, Merged(s));
    InOrder(sorted);
    hide SortBy, Precedes, Within, LexLeq, Name, Filter, Sorted;
    forall kind, at ensures Within(kind, at, sorted) == Within(kind, at, Candidates(s)) {
      StableWithin(kind, at, Merged(s));
    }
  }

  lemma CandidatesMerged(s: Sources)
    ensures Merged(s) == Candidates(s)
  {
  }

  lemma InOrder(items: seq<Item>)
    requires Sorted(Precedes, items)
    ensures forall i, j :: 0 <= i < j < |items| ==>
      && items[i].row.at >= items[j].row.at
      && (items[i].row.at == items[j].row.at ==> LexLeq(Name(items[i].kind), Name(items[j].kind)))
  {
    hide LexLeq, Name, KindRank;
    forall i, j | 0 <= i < j < |items|
      ensures items[i].row.at >= items[j].row.at
      ensures items[i].row.at == items[j].row.at ==> LexLeq(Name(items[i].kind), Name(items[j].kind))
    {
      assert Precedes(items[i], items[j]);
      NameOrder(items[i].kind, items[j].kind);
    }
  }

  lemma StableWithin(kind: Kind, at: int, items: seq<Item>)
    ensures Within(kind, at, SortBy(Precedes, items)) == Within(kind, at, items)
  {
    var keep := (x: Item) => x.kind == kind && x.row.at == at;
    PrecedesIsTotal();
    SortByFilters(Precedes, keep, items);
    var kept := Filter(keep, items);
    forall i, j | 0 <= i < j < |kept| ensures Precedes(kept[i], kept[j]) {
      assert kept[i] in kept && kept[j] in kept;
    }
    SortBySortedKeeps(Precedes, kept);
  }
}
