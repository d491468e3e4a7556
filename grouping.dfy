/**
 * What `makeSortedItems` computes, as functions: first-match classification
 * of the items into one group per matcher, the stable reorder of the groups
 * by their names' positions in `order`, and the removal of empty groups.
 * The lemmas at the end state what this arrangement promises.
 */
module Grouping {
  import opened Wrappers
  import opened SortKeys

  /** A configured matcher: a group name and a predicate on sort keys
      (a regular expression in practice; any predicate here). */
  datatype Matcher = Matcher(name: string, fn: string -> bool)

  /** The group built for the matcher at position `index`. */
  datatype Group = Group(name: string, index: nat, items: seq<Item>)

  // ---------------------------------------------------------------------
  // Classification

  /** The position of the first matcher that accepts `key`, if any. */
  function FirstMatch(matchers: seq<Matcher>, key: string): (r: Option<nat>)
    ensures r.Some? ==> r.value < |matchers| && matchers[r.value].fn(key)
    ensures r.Some? ==> forall j :: 0 <= j < r.value ==> !matchers[j].fn(key)
    ensures r.None? ==> forall j :: 0 <= j < |matchers| ==> !matchers[j].fn(key)
  {
    if matchers == [] then None
    else if matchers[0].fn(key) then Some(0)
    else
      match FirstMatch(matchers[1..], key)
      case None => None
      case Some(i) => Some(i + 1)
  }

  /** The matcher an item is classified under, if any. */
  function MatchOf(matchers: seq<Matcher>, item: Item): Option<nat> {
    FirstMatch(matchers, SortKey(item))
  }

  /** First match wins: an item belongs to matcher `k` exactly when `k`
      accepts its key and no earlier matcher does. */
  lemma MatchOfIsFirst(matchers: seq<Matcher>, item: Item, k: nat)
    ensures MatchOf(matchers, item) == Some(k) <==>
      k < |matchers| && matchers[k].fn(SortKey(item))
      && forall j :: 0 <= j < k ==> !matchers[j].fn(SortKey(item))
  {
    var r := MatchOf(matchers, item);
    if k < |matchers| && matchers[k].fn(SortKey(item))
      && forall j :: 0 <= j < k ==> !matchers[j].fn(SortKey(item))
    {
      assert r.Some?;
      assert !(r.value < k) && !(r.value > k);
    }
  }

  /** The items of matcher `k`'s group, in input order. */
  function GroupItems(items: seq<Item>, matchers: seq<Matcher>, k: nat): seq<Item> {
    if items == [] then []
    else
      var last := items[|items| - 1];
      GroupItems(items[..|items| - 1], matchers, k) + (if MatchOf(matchers, last) == Some(k) then [last] else [])
  }

  /** Group `k` holds each item exactly as often as the input does when the
      item is classified under `k`, and never otherwise. */
  lemma {:induction false} GroupItemsCount(items: seq<Item>, matchers: seq<Matcher>, k: nat, x: Item)
    ensures multiset(GroupItems(items, matchers, k))[x] ==
      if MatchOf(matchers, x) == Some(k) then multiset(items)[x] else 0
    decreases |items|
  {
    if items != [] {
      var init, last := items[..|items| - 1], items[|items| - 1];
      GroupItemsCount(init, matchers, k, x);
      assert items == init + [last];
    }
  }

  /** Pushing one more item extends exactly the group it is classified under. */
  lemma GroupItemsPush(items: seq<Item>, matchers: seq<Matcher>, item: Item, k: nat)
    ensures GroupItems(items + [item], matchers, k) ==
      GroupItems(items, matchers, k) + (if MatchOf(matchers, item) == Some(k) then [item] else [])
  {
    assert (items + [item])[..|items|] == items;
  }

  /** Handling `a` and then `b` fills each group with its items of `a`
      followed by its items of `b`: items enter a group in input order. */
  lemma {:induction false} GroupItemsAppend(a: seq<Item>, b: seq<Item>, matchers: seq<Matcher>, k: nat)
    ensures GroupItems(a + b, matchers, k) == GroupItems(a, matchers, k) + GroupItems(b, matchers, k)
    decreases |b|
  {
    if b == [] {
      assert a + b == a;
    } else {
      var init, last := b[..|b| - 1], b[|b| - 1];
      var e := if MatchOf(matchers, last) == Some(k) then [last] else [];
      assert a + b == (a + init) + [last];
      assert b == init + [last];
      calc {
        GroupItems(a + b, matchers, k);
        { GroupItemsPush(a + init, matchers, last, k); }
        GroupItems(a + init, matchers, k) + e;
        { GroupItemsAppend(a, init, matchers, k); }
        GroupItems(a, matchers, k) + GroupItems(init, matchers, k) + e;
        { GroupItemsPush(init, matchers, last, k); }
        GroupItems(a, matchers, k) + GroupItems(b, matchers, k);
      }
    }
  }

  /** One group per matcher, in matcher order, each holding its items. */
  function Classified(items: seq<Item>, matchers: seq<Matcher>): seq<Group> {
    seq(|matchers|, k requires 0 <= k < |matchers| => Group(matchers[k].name, k, GroupItems(items, matchers, k)))
  }

  /** An item classified under matcher `k` lands at the end of group `k`. */
  lemma ClassifiedPushMatched(items: seq<Item>, matchers: seq<Matcher>, item: Item, k: nat)
    requires MatchOf(matchers, item) == Some(k)
    ensures k < |matchers|
    ensures Classified(items + [item], matchers) ==
      Classified(items, matchers)[k := Classified(items, matchers)[k].(items := Classified(items, matchers)[k].items + [item])]
  {
    var before, after := Classified(items, matchers), Classified(items + [item], matchers);
    var pushed := before[k := before[k].(items := before[k].items + [item])];
    forall j | 0 <= j < |matchers| ensures after[j] == pushed[j] {
      GroupItemsPush(items, matchers, item, j);
    }
  }

  /** An item no matcher accepts lands in no group. */
  lemma ClassifiedPushUnmatched(items: seq<Item>, matchers: seq<Matcher>, item: Item)
    requires forall j :: 0 <= j < |matchers| ==> !matchers[j].fn(SortKey(item))
    ensures Classified(items + [item], matchers) == Classified(items, matchers)
  {
    assert MatchOf(matchers, item).None?;
    var before, after := Classified(items, matchers), Classified(items + [item], matchers);
    forall j | 0 <= j < |matchers| ensures after[j] == before[j] {
      GroupItemsPush(items, matchers, item, j);
    }
  }

  // ---------------------------------------------------------------------
  // Reordering by `order`

  /** `order.indexOf(name)`: the first position of `name`, or -1. */
  function IndexOf(order: seq<string>, name: string): (r: int)
    ensures -1 <= r < |order|
    ensures r == -1 <==> name !in order
    ensures r >= 0 ==> order[r] == name && name !in order[..r]
  {
    if order == [] then -1
    else if order[0] == name then 0
    else
      var i := IndexOf(order[1..], name);
      if i == -1 then -1
      else
        assert order[..i + 1] == [order[0]] + order[1..][..i];
        i + 1
  }

  /** The comparator's key, `order.indexOf(group.name)`: a group's rank. */
  function RankIn(order: seq<string>): Group -> int {
    (g: Group) => IndexOf(order, g.name)
  }

  /** Where a stable sort by rank puts `g` relative to `h`, when `g` came
      earlier in matcher order exactly if its index is lower. */
  predicate Before(rank: Group -> int, g: Group, h: Group) {
    rank(g) < rank(h) || (rank(g) == rank(h) && g.index < h.index)
  }

  /** Groups in ascending rank, ties in matcher order. */
  predicate Ordered(rank: Group -> int, gs: seq<Group>) {
    forall i, j :: 0 <= i < j < |gs| ==> Before(rank, gs[i], gs[j])
  }

  /** Groups in matcher order. */
  predicate IndexAscending(gs: seq<Group>) {
    forall i, j :: 0 <= i < j < |gs| ==> gs[i].index < gs[j].index
  }

  /** Puts `x` behind the last group of `s` whose rank is not greater
      than its own, moving it left past the groups that rank strictly
      higher: one pass of a stable insertion sort. */
  function InsertByRank(rank: Group -> int, s: seq<Group>, x: Group): (r: seq<Group>)
    ensures |r| == |s| + 1
  {
    if s == [] || rank(s[|s| - 1]) <= rank(x) then s + [x]
    else InsertByRank(rank, s[..|s| - 1], x) + [s[|s| - 1]]
  }

  /** The groups stably sorted by rank, inserted one after the other: the
      reference for `itemGroups.sort`. */
  function ByRank(rank: Group -> int, gs: seq<Group>): (r: seq<Group>)
    ensures |r| == |gs|
  {
    if gs == [] then []
    else InsertByRank(rank, ByRank(rank, gs[..|gs| - 1]), gs[|gs| - 1])
  }

  /** `filter(({items}) => items.length > 0)`. */
  function NonEmptyGroups(gs: seq<Group>): (r: seq<Group>)
    ensures |r| <= |gs|
    ensures forall g :: g in r <==> g in gs && g.items != []
  {
    if gs == [] then []
    else (if gs[0].items != [] then [gs[0]] else []) + NonEmptyGroups(gs[1..])
  }

  /** The groups `makeSortedItems` hands to the within-group sorter. */
  function Arranged(items: seq<Item>, matchers: seq<Matcher>, order: seq<string>): seq<Group> {
    NonEmptyGroups(ByRank(RankIn(order), Classified(items, matchers)))
  }

  /** All items of all groups, group after group. */
  function AllItems(gs: seq<Group>): seq<Item> {
    if gs == [] then [] else gs[0].items + AllItems(gs[1..])
  }

  // ---------------------------------------------------------------------
  // The reorder is a stable sort, and the only one

  /** Inserting adds exactly the inserted group. */
  lemma {:induction false} InsertByRankPermutes(rank: Group -> int, s: seq<Group>, x: Group)
    ensures multiset(InsertByRank(rank, s, x)) == multiset(s) + multiset{x}
    decreases |s|
  {
    if s != [] && rank(s[|s| - 1]) > rank(x) {
      InsertByRankPermutes(rank, s[..|s| - 1], x);
      assert s == s[..|s| - 1] + [s[|s| - 1]];
    }
  }

  /** Sorting is a permutation: the same groups, each as often. */
  lemma {:induction false} ByRankPermutes(rank: Group -> int, gs: seq<Group>)
    ensures multiset(ByRank(rank, gs)) == multiset(gs)
    decreases |gs|
  {
    if gs != [] {
      ByRankPermutes(rank, gs[..|gs| - 1]);
      InsertByRankPermutes(rank, ByRank(rank, gs[..|gs| - 1]), gs[|gs| - 1]);
      assert gs == gs[..|gs| - 1] + [gs[|gs| - 1]];
    }
  }

  /** Appending a group that every group of an ordered sequence precedes
      keeps it ordered. */
  lemma AppendOrdered(rank: Group -> int, s: seq<Group>, x: Group)
    requires Ordered(rank, s)
    requires forall p :: 0 <= p < |s| ==> Before(rank, s[p], x)
    ensures Ordered(rank, s + [x])
  {
    var r := s + [x];
    forall p, q | 0 <= p < q < |r| ensures Before(rank, r[p], r[q]) {
      assert r[p] == s[p];
      if q < |s| {
        assert r[q] == s[q];
      }
    }
  }

  /** Inserting a group that came after all others in matcher order into an
      ordered sequence keeps it ordered. */
  lemma {:induction false} InsertByRankOrdered(rank: Group -> int, s: seq<Group>, x: Group)
    requires Ordered(rank, s)
    requires forall p :: 0 <= p < |s| ==> s[p].index < x.index
    ensures Ordered(rank, InsertByRank(rank, s, x))
    decreases |s|
  {
    if s == [] || rank(s[|s| - 1]) <= rank(x) {
      forall p | 0 <= p < |s| ensures Before(rank, s[p], x) {
        if p < |s| - 1 {
          assert Before(rank, s[p], s[|s| - 1]);
        }
      }
      AppendOrdered(rank, s, x);
    } else {
      var init, last := s[..|s| - 1], s[|s| - 1];
      assert Ordered(rank, init) by {
        forall p, q | 0 <= p < q < |init| ensures Before(rank, init[p], init[q]) {
          assert init[p] == s[p] && init[q] == s[q];
        }
      }
      forall p | 0 <= p < |init| ensures init[p].index < x.index {
        assert init[p] == s[p];
      }
      InsertByRankOrdered(rank, init, x);
      var r := InsertByRank(rank, init, x);
      InsertByRankPermutes(rank, init, x);
      forall p | 0 <= p < |r| ensures Before(rank, r[p], last) {
        assert r[p] in multiset(r);
        if r[p] != x {
          assert r[p] in multiset(init);
          var q :| 0 <= q < |init| && init[q] == r[p];
          assert s[q] == r[p];
        }
      }
      AppendOrdered(rank, r, last);
    }
  }

  /** Sorting groups that start in matcher order yields groups in ascending
      rank with ties in matcher order. */
  lemma {:induction false} ByRankOrdered(rank: Group -> int, gs: seq<Group>)
    requires IndexAscending(gs)
    ensures Ordered(rank, ByRank(rank, gs))
    decreases |gs|
  {
    if gs != [] {
      var init, last := gs[..|gs| - 1], gs[|gs| - 1];
      assert IndexAscending(init) by {
        forall p, q | 0 <= p < q < |init| ensures init[p].index < init[q].index {
          assert init[p] == gs[p] && init[q] == gs[q];
        }
      }
      ByRankOrdered(rank, init);
      var s := ByRank(rank, init);
      ByRankPermutes(rank, init);
      forall p | 0 <= p < |s| ensures s[p].index < last.index {
        assert s[p] in multiset(init);
        var q :| 0 <= q < |init| && init[q] == s[p];
        assert gs[q] == s[p];
      }
      InsertByRankOrdered(rank, s, last);
    }
  }

  /** The head of an ordered arrangement comes before every other group in it. */
  lemma OrderedHeadFirst(rank: Group -> int, s: seq<Group>, g: Group)
    requires Ordered(rank, s) && g in s && g != s[0]
    ensures Before(rank, s[0], g)
  {
    var i :| 0 <= i < |s| && s[i] == g;
    assert i > 0;
  }

  /** Two ordered arrangements of the same groups start with the same group. */
  lemma OrderedSameHead(rank: Group -> int, s: seq<Group>, t: seq<Group>)
    requires Ordered(rank, s) && Ordered(rank, t)
    requires multiset(s) == multiset(t) && s != []
    ensures t != [] && s[0] == t[0]
  {
    assert s[0] in multiset(t);
    assert t[0] in multiset(s);
    if s[0] != t[0] {
      OrderedHeadFirst(rank, s, t[0]);
      OrderedHeadFirst(rank, t, s[0]);
      assert false;
    }
  }

  /** The tail of an ordered arrangement is ordered and holds the rest. */
  lemma OrderedTail(rank: Group -> int, s: seq<Group>)
    requires Ordered(rank, s) && s != []
    ensures Ordered(rank, s[1..])
    ensures multiset(s[1..]) == multiset(s) - multiset{s[0]}
  {
    assert s == [s[0]] + s[1..];
  }

  /** Two ordered arrangements of the same groups are the same sequence:
      `Before` leaves no freedom. */
  lemma {:induction false} OrderedUnique(rank: Group -> int, s: seq<Group>, t: seq<Group>)
    requires Ordered(rank, s) && Ordered(rank, t)
    requires multiset(s) == multiset(t)
    ensures s == t
  {
    if s != [] {
      OrderedSameHead(rank, s, t);
      OrderedTail(rank, s);
      OrderedTail(rank, t);
      OrderedUnique(rank, s[1..], t[1..]);
      assert s == [s[0]] + s[1..] && t == [t[0]] + t[1..];
    } else {
      assert |t| == |multiset(t)| == 0;
    }
  }

  /** `ByRank` is the stable sort: of the rearrangements of groups given in
      matcher order, it is the one and only that is ordered by rank with
      ties in matcher order. */
  lemma ByRankIsStableSort(rank: Group -> int, gs: seq<Group>, t: seq<Group>)
    requires IndexAscending(gs)
    ensures Ordered(rank, t) && multiset(t) == multiset(gs) <==> t == ByRank(rank, gs)
  {
    ByRankOrdered(rank, gs);
    ByRankPermutes(rank, gs);
    if Ordered(rank, t) && multiset(t) == multiset(gs) {
      OrderedUnique(rank, t, ByRank(rank, gs));
    }
  }

  /** Where each element of `s[..j] + [x] + s[j..]` comes from. */
  lemma InsertedAt(s: seq<Group>, x: Group, j: nat, p: nat)
    requires j <= |s| && p <= |s|
    ensures (s[..j] + [x] + s[j..])[p] == if p < j then s[p] else if p == j then x else s[p - 1]
  {
    var r := s[..j] + [x] + s[j..];
    if p > j {
      assert r[p] == s[j..][p - j - 1];
    }
  }

  /** Exchanging `x` with its left neighbour moves it one place left. */
  lemma InsertedSwap(s: seq<Group>, prefix: seq<Group>, x: Group, i: nat, j: nat)
    requires 0 < j <= i < |s| && |prefix| == i
    requires s[..i + 1] == prefix[..j] + [x] + prefix[j..]
    ensures s[j - 1] == prefix[j - 1] && s[j] == x
    ensures s[j - 1 := s[j]][j := s[j - 1]][..i + 1] == prefix[..j - 1] + [x] + prefix[j - 1..]
    ensures s[j - 1 := s[j]][j := s[j - 1]][i + 1..] == s[i + 1..]
  {
    InsertedAt(prefix, x, j, j - 1);
    InsertedAt(prefix, x, j, j);
    assert s[j - 1] == s[..i + 1][j - 1] && s[j] == s[..i + 1][j];
    var t := s[j - 1 := s[j]][j := s[j - 1]];
    forall p | 0 <= p <= i ensures t[p] == (prefix[..j - 1] + [x] + prefix[j - 1..])[p] {
      InsertedAt(prefix, x, j - 1, p);
      InsertedAt(prefix, x, j, p);
      assert s[p] == s[..i + 1][p];
    }
  }

  /** The insertion pass stops at `j` when every group of `s[j..]` ranks
      strictly above `x` and `s[j - 1]` does not: that is `InsertByRank`. */
  lemma {:induction false} InsertByRankAt(rank: Group -> int, s: seq<Group>, x: Group, j: nat)
    requires j <= |s|
    requires j > 0 ==> rank(s[j - 1]) <= rank(x)
    requires forall q :: j <= q < |s| ==> rank(x) < rank(s[q])
    ensures InsertByRank(rank, s, x) == s[..j] + [x] + s[j..]
    decreases |s|
  {
    if j == |s| {
      assert s[..j] + [x] + s[j..] == s + [x];
    } else {
      var init, last := s[..|s| - 1], s[|s| - 1];
      assert rank(x) < rank(last);
      forall q | j <= q < |init| ensures rank(x) < rank(init[q]) {
        assert init[q] == s[q];
      }
      if j > 0 {
        assert init[j - 1] == s[j - 1];
      }
      InsertByRankAt(rank, init, x, j);
      assert s[..j] == init[..j] && s[j..] == init[j..] + [last];
    }
  }

  /** Where the insertion pass stops, `x` has reached the place
      `InsertByRank` gives it. */
  lemma InsertedStop(rank: Group -> int, s: seq<Group>, prefix: seq<Group>, x: Group, i: nat, j: nat)
    requires j <= i < |s| && |prefix| == i
    requires s[..i + 1] == prefix[..j] + [x] + prefix[j..]
    requires j > 0 ==> rank(s[j - 1]) <= rank(s[j])
    requires forall q :: j <= q < i ==> rank(x) < rank(prefix[q])
    ensures s[..i + 1] == InsertByRank(rank, prefix, x)
  {
    if j > 0 {
      InsertedAt(prefix, x, j, j - 1);
      InsertedAt(prefix, x, j, j);
      assert s[j - 1] == s[..i + 1][j - 1] && s[j] == s[..i + 1][j];
    }
    InsertByRankAt(rank, prefix, x, j);
  }

  /** Dropping groups keeps the others in their order. */
  lemma {:induction false} NonEmptyGroupsOrdered(rank: Group -> int, gs: seq<Group>)
    requires Ordered(rank, gs)
    ensures Ordered(rank, NonEmptyGroups(gs))
  {
    if gs != [] {
      NonEmptyGroupsOrdered(rank, gs[1..]);
      forall h | h in NonEmptyGroups(gs[1..]) ensures Before(rank, gs[0], h) {
        assert h in gs[1..];
      }
    }
  }

  // ---------------------------------------------------------------------
  // Where the items go

  /** Appending a group appends its items. */
  lemma {:induction false} AllItemsAppend(s: seq<Group>, x: Group)
    ensures AllItems(s + [x]) == AllItems(s) + x.items
  {
    if s == [] {
      assert [x][1..] == [];
      assert AllItems([x]) == x.items + [];
    } else {
      assert (s + [x])[1..] == s[1..] + [x];
      AllItemsAppend(s[1..], x);
    }
  }

  lemma {:induction false} InsertByRankAllItems(rank: Group -> int, s: seq<Group>, x: Group)
    ensures multiset(AllItems(InsertByRank(rank, s, x))) == multiset(AllItems(s)) + multiset(x.items)
    decreases |s|
  {
    if s == [] || rank(s[|s| - 1]) <= rank(x) {
      AllItemsAppend(s, x);
    } else {
      var init, last := s[..|s| - 1], s[|s| - 1];
      InsertByRankAllItems(rank, init, x);
      AllItemsAppend(InsertByRank(rank, init, x), last);
      AllItemsAppend(init, last);
      assert s == init + [last];
    }
  }

  /** Reordering the groups neither loses nor duplicates an item. */
  lemma {:induction false} ByRankAllItems(rank: Group -> int, gs: seq<Group>)
    ensures multiset(AllItems(ByRank(rank, gs))) == multiset(AllItems(gs))
    decreases |gs|
  {
    if gs != [] {
      var init, last := gs[..|gs| - 1], gs[|gs| - 1];
      ByRankAllItems(rank, init);
      InsertByRankAllItems(rank, ByRank(rank, init), last);
      AllItemsAppend(init, last);
      assert gs == init + [last];
    }
  }

  /** Dropping empty groups drops no item. */
  lemma {:induction false} NonEmptyGroupsAllItems(gs: seq<Group>)
    ensures AllItems(NonEmptyGroups(gs)) == AllItems(gs)
  {
    if gs != [] {
      NonEmptyGroupsAllItems(gs[1..]);
      var r := NonEmptyGroups(gs);
      if gs[0].items != [] {
        assert r[0] == gs[0] && r[1..] == NonEmptyGroups(gs[1..]);
      } else {
        assert r == NonEmptyGroups(gs[1..]);
        assert AllItems(gs) == [] + AllItems(gs[1..]);
      }
    }
  }

  /** The group of matcher `k` holds each item as often as the input does if
      it is classified at `k`, and never otherwise. */
  lemma ClassifiedGroupCount(items: seq<Item>, matchers: seq<Matcher>, k: nat, x: Item)
    requires k < |matchers|
    ensures multiset(Classified(items, matchers)[k].items)[x] ==
      if MatchOf(matchers, x) == Some(k) then multiset(items)[x] else 0
  {
    assert Classified(items, matchers)[k].items == GroupItems(items, matchers, k);
    GroupItemsCount(items, matchers, k, x);
  }

  /** The item was classified under matcher `k` or a later one. */
  predicate ClassifiedFrom(m: Option<nat>, k: nat) {
    m.Some? && m.value >= k
  }

  lemma AllItemsCount(gs: seq<Group>, x: Item)
    requires gs != []
    ensures multiset(AllItems(gs))[x] == multiset(gs[0].items)[x] + multiset(AllItems(gs[1..]))[x]
  {
  }

  /** The groups of matchers `k` onward together hold each item as often as
      the input does if it is classified at `k` or later, and never
      otherwise. */
  lemma {:induction false} ClassifiedSuffixCount(items: seq<Item>, matchers: seq<Matcher>, k: nat, x: Item)
    requires k <= |matchers|
    decreases |matchers| - k
    ensures multiset(AllItems(Classified(items, matchers)[k..]))[x] ==
      if ClassifiedFrom(MatchOf(matchers, x), k) then multiset(items)[x] else 0
  {
    var c := Classified(items, matchers);
    if k < |matchers| {
      ClassifiedSuffixCount(items, matchers, k + 1, x);
      ClassifiedGroupCount(items, matchers, k, x);
      assert c[k..][0] == c[k] && c[k..][1..] == c[k + 1..];
      AllItemsCount(c[k..], x);
    } else {
      assert c[k..] == [];
    }
  }

  /** Reordering keeps the same groups. */
  lemma ByRankMembers(rank: Group -> int, gs: seq<Group>)
    ensures |ByRank(rank, gs)| == |gs|
    ensures forall g :: g in ByRank(rank, gs) <==> g in gs
  {
    var b := ByRank(rank, gs);
    ByRankPermutes(rank, gs);
    forall g ensures g in b <==> g in gs {
      assert g in b <==> g in multiset(b);
      assert g in gs <==> g in multiset(gs);
    }
  }

  // ---------------------------------------------------------------------
  // What the arrangement promises

  /** Each output group is the non-empty group of one matcher, named after
      it and holding exactly the items classified under it, in input order;
      no matcher contributes two groups; the groups come in ascending
      position of their names in `order`, ties in matcher order; and every
      matcher that received an item has its group in the output. */
  lemma ArrangedGroups(items: seq<Item>, matchers: seq<Matcher>, order: seq<string>)
    ensures |Arranged(items, matchers, order)| <= |matchers|
    ensures forall g :: g in Arranged(items, matchers, order) ==>
      g.index < |matchers| && g.name == matchers[g.index].name
      && g.items == GroupItems(items, matchers, g.index) && g.items != []
    ensures Ordered(RankIn(order), Arranged(items, matchers, order))
    ensures forall k :: 0 <= k < |matchers| && GroupItems(items, matchers, k) != [] ==>
      Group(matchers[k].name, k, GroupItems(items, matchers, k)) in Arranged(items, matchers, order)
  {
    var c := Classified(items, matchers);
    var b := ByRank(RankIn(order), c);
    ByRankMembers(RankIn(order), c);
    forall g | g in Arranged(items, matchers, order)
      ensures g.index < |matchers| && g.name == matchers[g.index].name
      ensures g.items == GroupItems(items, matchers, g.index) && g.items != []
    {
      assert g in c;
    }
    forall k | 0 <= k < |matchers| && GroupItems(items, matchers, k) != []
      ensures Group(matchers[k].name, k, GroupItems(items, matchers, k)) in Arranged(items, matchers, order)
    {
      assert c[k] in b;
    }
    ByRankOrdered(RankIn(order), c);
    NonEmptyGroupsOrdered(RankIn(order), b);
  }

  /** An item occurs in the output groups as often as in the input when some
      matcher accepts its key, and not at all when none does. */
  lemma ArrangedItemCount(items: seq<Item>, matchers: seq<Matcher>, order: seq<string>, x: Item)
    ensures multiset(AllItems(Arranged(items, matchers, order)))[x] ==
      if MatchOf(matchers, x).Some? then multiset(items)[x] else 0
  {
    var c := Classified(items, matchers);
    NonEmptyGroupsAllItems(ByRank(RankIn(order), c));
    ByRankAllItems(RankIn(order), c);
    ClassifiedSuffixCount(items, matchers, 0, x);
    assert c[0..] == c;
  }

  /** A matcher that accepts every key. */
  ghost predicate IsCatchAll(m: Matcher) {
    forall key :: m.fn(key)
  }

  /** With a catch-all matcher (one that accepts every key, like `^`), the
      output groups hold exactly the input items. */
  lemma CatchAllKeepsEveryItem(items: seq<Item>, matchers: seq<Matcher>, order: seq<string>)
    requires exists k :: 0 <= k < |matchers| && IsCatchAll(matchers[k])
    ensures multiset(AllItems(Arranged(items, matchers, order))) == multiset(items)
  {
    var k :| 0 <= k < |matchers| && IsCatchAll(matchers[k]);
    forall x ensures multiset(AllItems(Arranged(items, matchers, order)))[x] == multiset(items)[x] {
      ArrangedItemCount(items, matchers, order, x);
      assert MatchOf(matchers, x).Some? by {
        assert matchers[k].fn(SortKey(x));
      }
    }
  }

  /** A group whose name is missing from `order` has index -1 and so comes
      before every group whose name is listed. */
  lemma UnlistedGroupsFirst(order: seq<string>, gs: seq<Group>, i: nat, j: nat)
    requires Ordered(RankIn(order), gs)
    requires i < |gs| && j < |gs|
    requires gs[i].name in order && gs[j].name !in order
    ensures j < i
  {
  }
}
