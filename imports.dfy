/**
 * The import-sorting rule: `makeSortedItems`, which fills one group per
 * matcher, sorts the groups in place by `order` and keeps the non-empty
 * ones, and the rule object with its run-scoped set of parents.
 */
module Imports {
  import opened Wrappers
  import opened Syntax
  import opened SortKeys
  import opened Grouping

  // ---------------------------------------------------------------------
  // makeSortedItems

  /** Builds one empty group per matcher and pushes every item onto the
      group of the first matcher that accepts its key. */
  method ClassifyItems(items: seq<Item>, matchers: seq<Matcher>) returns (itemGroups: array<Group>)
    ensures fresh(itemGroups)
    ensures itemGroups[..] == Classified(items, matchers)
  {
    itemGroups := new Group[|matchers|](k requires 0 <= k < |matchers| => Group(matchers[k].name, k, []));
    assert itemGroups[..] == Classified([], matchers);
    for i := 0 to |items|
      invariant itemGroups[..] == Classified(items[..i], matchers)
    {
      assert items[..i + 1] == items[..i] + [items[i]];
      PushItem(itemGroups, items[..i], matchers, items[i]);
    }
    assert items[..|items|] == items;
  }

  /** The loop body of `makeSortedItems` for one item: derive its key, scan
      the groups in matcher order and push the item onto the first group
      whose matcher accepts the key. The groups still sit in matcher order
      here, so the group at `k` is checked with `matchers[k].fn`. */
  method PushItem(itemGroups: array<Group>, done: seq<Item>, matchers: seq<Matcher>, item: Item)
    requires itemGroups[..] == Classified(done, matchers)
    modifies itemGroups
    ensures itemGroups[..] == Classified(done + [item], matchers)
  {
    var source := SortKey(item);
    for k := 0 to itemGroups.Length
      invariant forall j :: 0 <= j < k ==> !matchers[j].fn(source)
      invariant itemGroups[..] == old(itemGroups[..])
    {
      var isMatch := matchers[k].fn(source);
      if isMatch {
        MatchOfIsFirst(matchers, item, k);
        ClassifiedPushMatched(done, matchers, item, k);
        itemGroups[k] := itemGroups[k].(items := itemGroups[k].items + [item]);
        return;
      }
    }
    ClassifiedPushUnmatched(done, matchers, item);
  }

  /** Exchanges two adjacent groups. */
  method SwapGroups(a: array<Group>, j: nat)
    requires 0 < j < a.Length
    modifies a
    ensures a[..] == old(a[..])[j - 1 := old(a[j])][j := old(a[j - 1])]
    ensures multiset(a[..]) == multiset(old(a[..]))
  {
    a[j - 1], a[j] := a[j], a[j - 1];
  }

  /** `itemGroups.sort((a, b) => rank(a) - rank(b))` with a stable sort:
      insertion sort moves a group left only past groups of strictly greater
      rank. `makeSortedItems` sorts by `RankIn(order)`. */
  method SortGroupsByRank(a: array<Group>, rank: Group -> int)
    modifies a
    ensures a[..] == ByRank(rank, old(a[..]))
  {
    ghost var input := a[..];
    for i := 0 to a.Length
      invariant a[..i] == ByRank(rank, input[..i])
      invariant a[i..] == input[i..]
    {
      assert a[i] == input[i..][0] == input[i];
      InsertGroup(a, i, rank);
      assert input[..i + 1][..i] == input[..i];
      assert ByRank(rank, input[..i + 1]) == InsertByRank(rank, ByRank(rank, input[..i]), input[i]);
      assert a[i + 1..] == input[i..][1..];
    }
    assert a[..] == a[..a.Length] && input == input[..a.Length];
  }

  /** One pass of the insertion sort: moves `a[i]` left past the groups of
      strictly greater rank. */
  method InsertGroup(a: array<Group>, i: nat, rank: Group -> int)
    requires i < a.Length
    modifies a
    ensures a[..i + 1] == InsertByRank(rank, old(a[..i]), old(a[i]))
    ensures a[i + 1..] == old(a[i + 1..])
  {
    ghost var prefix := a[..i];
    ghost var x := a[i];
    assert a[..i + 1] == prefix[..i] + [x] + prefix[i..];
    var j := i;
    while j > 0 && rank(a[j - 1]) > rank(a[j])
      invariant 0 <= j <= i
      invariant a[..i + 1] == prefix[..j] + [x] + prefix[j..]
      invariant a[i + 1..] == old(a[i + 1..])
      invariant forall q :: j <= q < i ==> rank(x) < rank(prefix[q])
    {
      InsertedSwap(a[..], prefix, x, i, j);
      SwapGroups(a, j);
      j := j - 1;
    }
    InsertedStop(rank, a[..], prefix, x, i, j);
  }

  /** `makeSortedItems(items, matchers, order)`: the non-empty groups in
      display order, each handed to the within-group sorter `sortItems`
      (part of the shared helpers, and a parameter here). */
  method MakeSortedItems(
    items: seq<Item>, matchers: seq<Matcher>, order: seq<string>,
    sortItems: seq<Item> -> seq<Item>)
    returns (sorted: seq<seq<Item>>)
    ensures |sorted| == |Arranged(items, matchers, order)| <= |matchers|
    ensures forall k :: 0 <= k < |sorted| ==> sorted[k] == sortItems(Arranged(items, matchers, order)[k].items)
  {
    var itemGroups := ClassifyItems(items, matchers);
    SortGroupsByRank(itemGroups, RankIn(order));
    var kept := NonEmptyGroups(itemGroups[..]);
    sorted := seq(|kept|, k requires 0 <= k < |kept| => sortItems(kept[k].items));
    ArrangedGroups(items, matchers, order);
  }

  // ---------------------------------------------------------------------
  // The rule object and its run-scoped set of parents

  /** A run of consecutive statements, as the chunk extractor yields it. */
  type Chunk = seq<Node>

  /** The chunk extractor of the shared helpers: the chunks of a parent's
      statements under a classifier. It is a parameter here. */
  type ChunkExtractor = (ParentRef, Node -> ChunkRole) -> seq<Chunk>

  predicate NoDuplicates(s: seq<ParentRef>) {
    forall i, j :: 0 <= i < j < |s| ==> s[i] != s[j]
  }

  /** `parents.add(p)` on a set that iterates in insertion order. */
  function Added(parents: seq<ParentRef>, p: ParentRef): (r: seq<ParentRef>)
    ensures NoDuplicates(parents) ==> NoDuplicates(r)
    ensures forall q :: q in r <==> q in parents || q == p
    ensures |parents| <= |r| <= |parents| + 1 && r[..|parents|] == parents
  {
    if p in parents then parents else parents + [p]
  }

  /** The parents collected from a run's import declarations, in visiting order. */
  function Collected(ps: seq<ParentRef>): seq<ParentRef> {
    if ps == [] then [] else Added(Collected(ps[..|ps| - 1]), ps[|ps| - 1])
  }

  /** Whatever parents a run visits, and however often, the set holds each
      of them exactly once. */
  lemma {:induction false} CollectedIsSet(ps: seq<ParentRef>)
    ensures NoDuplicates(Collected(ps))
    ensures forall q :: q in Collected(ps) <==> q in ps
  {
    if ps != [] {
      var init := ps[..|ps| - 1];
      CollectedIsSet(init);
      assert ps == init + [ps[|ps| - 1]];
    }
  }

  /** The chunks of every parent, parent after parent. */
  function ChunksOf(parents: seq<ParentRef>, extractChunks: ChunkExtractor): seq<Chunk> {
    if parents == [] then []
    else ChunksOf(parents[..|parents| - 1], extractChunks) + extractChunks(parents[|parents| - 1], ChunkRoleOf)
  }

  /** Every parent's chunks are handed over, right after those of the
      parents before it. */
  lemma {:induction false} ChunksOfCoversEachParent(parents: seq<ParentRef>, extractChunks: ChunkExtractor, i: nat)
    requires i < |parents|
    ensures ChunksOf(parents[..i], extractChunks) + extractChunks(parents[i], ChunkRoleOf) <= ChunksOf(parents, extractChunks)
  {
    var init := parents[..|parents| - 1];
    if i < |parents| - 1 {
      ChunksOfCoversEachParent(init, extractChunks, i);
      assert init[..i] == parents[..i] && init[i] == parents[i];
    } else {
      assert parents[..i] == init;
    }
  }

  /** The rule instance `create` returns for one program: its visitor
      callbacks share the set of parents seen so far. */
  class ImportsRule {
    var parents: seq<ParentRef>

    ghost predicate Valid()
      reads this
    {
      NoDuplicates(parents)
    }

    constructor ()
      ensures Valid() && parents == []
    {
      parents := [];
    }

    /** `ImportDeclaration`: remember the statement's parent. */
    method ImportDeclaration(node: Node)
      requires Valid()
      modifies this
      ensures Valid() && parents == Added(old(parents), node.parent)
    {
      if node.parent !in parents {
        parents := parents + [node.parent];
      }
    }

    /** `Program:exit`: hand every chunk of imports of every remembered
        parent, in order, to the chunk reporter, then forget the parents.
        `reported` lists the chunks in the order they are handed over. */
    method ProgramExit(extractChunks: ChunkExtractor) returns (reported: seq<Chunk>)
      requires Valid()
      modifies this
      ensures Valid() && parents == []
      ensures reported == ChunksOf(old(parents), extractChunks)
    {
      reported := [];
      for i := 0 to |parents|
        invariant parents == old(parents)
        invariant reported == ChunksOf(parents[..i], extractChunks)
      {
        var parent := parents[i];
        var chunks := extractChunks(parent, ChunkRoleOf);
        for c := 0 to |chunks|
          invariant reported == ChunksOf(parents[..i], extractChunks) + chunks[..c]
        {
          reported := reported + [chunks[c]];
        }
        assert parents[..i + 1][..i] == parents[..i];
        assert chunks[..|chunks|] == chunks;
      }
      assert parents[..|parents|] == parents;
      parents := [];
    }
  }
}
