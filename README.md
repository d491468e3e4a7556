# simple-import-sort: the import rule's grouping core in Dafny

This project models the import-sorting rule of eslint-plugin-simple-import-sort,
which lives in `src/imports.js`. The rule collects the parent of every import
declaration while the host walks the syntax tree. When the program ends, it
asks the shared chunk extractor for the runs of imports under each parent and
reports each run whose sorted form differs from the text.

The model covers the part of this that the rule itself decides:

- **`makeSortedItems`**. It computes a sort key for each import item: a NUL
  in front for a side-effect import, a NUL behind for an import whose kind is
  not `value`, and no NUL otherwise. It pushes each item onto the group of the
  first matcher that accepts the key. It sorts the groups in place by the
  position of their names in `order`, drops the empty ones, and hands each
  remaining group to the within-group sorter.
- **The small classifiers**: `isImport`, `isImportSpecifier`, `getSpecifiers`
  and `isSideEffectImport`.
- **The rule object**. Its `parents` set is filled on every
  `ImportDeclaration` and emptied at `Program:exit`.

Files:

| file | contents |
|---|---|
| `wrappers.dfy` | `Option` |
| `syntax.dfy` | the syntax-tree nodes the rule reads, and the classifiers |
| `sort_keys.dfy` | import items, the sort key, and why it is unambiguous |
| `grouping.dfy` | what `makeSortedItems` computes, as functions, and the lemmas about it: first-match classification, the stable reorder by rank, the filter, and where every item ends up |
| `imports.dfy` | the imperative side. `makeSortedItems` as a method over an `array` of groups, with the push loop and an in-place stable insertion sort, each proved equal to the functions of `grouping.dfy`. Also the rule object `ImportsRule` with its `parents` field. |

The matchers are arbitrary `string -> bool` predicates. In practice they are
regular expressions; the model does not depend on what they test.

The groups are sorted with `(a, b) => rank(a) - rank(b)`, where
`RankIn(order)` gives `order.indexOf(name)`. The sort is modelled as a
stable sort, since `Array.prototype.sort` is stable in ES2019 and later. A
group's `index` field is its matcher's position. The source has no such
field; it is the position the group holds before the sort, and the model
uses it to state stability ("ties stay in matcher order").

Two consequences of the code are worth stating outright:

- **Groups whose name is not in `order`.** Such a group gets `indexOf` = -1
  and so comes before every listed group (`UnlistedGroupsFirst`).
- **Items no matcher accepts.** Such an item is pushed nowhere and
  disappears from the result; only a catch-all matcher guarantees that
  nothing is lost (`ArrangedItemCount`, `CatchAllKeepsEveryItem`).

## Model

| member | source | states |
|---|---|---|
| Syntax.IsImport | src/imports.js:114-116 | defines a full import statement as a node whose type is `ImportDeclaration`; no contract of its own |
| Syntax.ChunkRoleOf | src/imports.js:50-51 | the classifier handed to the chunk extractor: `PartOfChunk` for an import, `NotPartOfChunk` otherwise; no contract of its own |
| Syntax.IsImportSpecifier | src/imports.js:120-122 | defines a named specifier as one whose type is `ImportSpecifier`; no contract of its own |
| Syntax.GetSpecifiers | src/imports.js:109-111 | a specifier is returned exactly when the import has it and it is an `ImportSpecifier` |
| Syntax.IsSideEffectImport | src/imports.js:127-133 | zero specifiers, an absent, empty or `value` import kind, and no `{` after `import`; its cases are stated by the two lemmas below |
| Syntax.ImportSpecifiersOf | src/imports.js:109-111 | the filter keeps at most the input's specifiers, and a specifier is in the result exactly when it is in the input and is an `ImportSpecifier` |
| Syntax.ImportSpecifiersOfCount | src/imports.js:109-111 | each `ImportSpecifier` is kept exactly as often as it occurs; default and namespace specifiers never survive |
| Syntax.ImportSpecifiersOfAppend | src/imports.js:109-111 | the filter distributes over concatenation, so the kept specifiers keep their written order |
| Syntax.ImportSpecifiersOfKeepsAll | src/imports.js:118-122 | the filter returns its input unchanged exactly when every specifier is an `ImportSpecifier` |
| Syntax.SideEffectImportCases | src/imports.js:124-133 | `import "setup"` is a side-effect import; `import {} from "setup"`, `import type {} from "setup"` and any import with a specifier are not |
| Syntax.SideEffectImportHasNoSpecifiers | src/imports.js:127-133 | a side-effect import has no specifiers for `getSpecifiers` to return |
| SortKeys.SortKey | src/imports.js:83-89 | its length is the specifier's, plus one for side-effect and non-value imports; `DecodeSortKey` gives its content |
| SortKeys.DecodeSortKey | src/imports.js:83-89 | for a non-empty specifier without NUL, the key gives back both the item's class (side-effect first, then non-value, then value) and the specifier |
| SortKeys.SortKeyInjective | src/imports.js:83-89 | for such specifiers, two items share a key exactly when they share class and specifier |
| SortKeys.EmptySpecifierKeysCollide | src/imports.js:85-88 | with the empty specifier, a side-effect import and a non-value import both get the key NUL |
| Grouping.FirstMatch | src/imports.js:91-97 | the result is the position of a matcher that accepts the key and no earlier matcher does; None exactly when no matcher accepts it |
| Grouping.MatchOf | src/imports.js:83-97 | the matcher an item lands under: the first match on its sort key; characterised by `MatchOfIsFirst` |
| Grouping.MatchOfIsFirst | src/imports.js:91-97 | an item belongs to matcher `k` exactly when `k` accepts its key and no earlier matcher does (first match wins) |
| Grouping.GroupItems | src/imports.js:82-98 | the items pushed onto matcher `k`'s group, in input order; its properties are `GroupItemsCount` and `GroupItemsAppend` |
| Grouping.GroupItemsCount | src/imports.js:82-98 | group `k` holds each item exactly as often as the input does when the item is classified under `k`, and never otherwise |
| Grouping.GroupItemsAppend | src/imports.js:82-98 | handling `a` and then `b` fills each group with its items from `a` followed by its items from `b`, so items enter each group in input order |
| Grouping.Classified | src/imports.js:78-98 | the groups after the push loop: one per matcher, in matcher order, named after it, holding `GroupItems`; the push lemmas below tie it to one loop step |
| Grouping.ClassifiedPushMatched | src/imports.js:91-97 | handling an item classified under `k` changes group `k` only, by appending the item |
| Grouping.ClassifiedPushUnmatched | src/imports.js:91-98 | handling an item that no matcher accepts changes no group |
| Grouping.RankIn | src/imports.js:101 | the comparator's key: a group's rank is `IndexOf(order, name)` |
| Grouping.InsertByRank | src/imports.js:101 | one insertion step of a stable sort; it adds exactly one group. Its properties are the lemmas below |
| Grouping.ByRank | src/imports.js:101 | the reference stable sort, keeping the number of groups; `ByRankIsStableSort` characterises it |
| Grouping.IndexOf | src/imports.js:101 | `order.indexOf(name)`: -1 exactly when the name is absent, otherwise the first position holding it |
| Grouping.NonEmptyGroups | src/imports.js:103-104 | keeps exactly the groups with at least one item, and never more groups than it was given |
| Grouping.InsertByRankPermutes | src/imports.js:101 | one insertion pass adds exactly the inserted group |
| Grouping.ByRankPermutes | src/imports.js:101 | the reorder is a permutation of the groups |
| Grouping.InsertByRankOrdered | src/imports.js:101 | inserting a group that came last in matcher order into an ordered sequence keeps it ordered |
| Grouping.ByRankOrdered | src/imports.js:101 | groups that start in matcher order come out in ascending rank, with ties in matcher order |
| Grouping.OrderedUnique | src/imports.js:101 | two sequences of the same groups that are both ordered by rank, ties by matcher position, are equal |
| Grouping.ByRankIsStableSort | src/imports.js:101 | a rearrangement of groups in matcher order is ordered and a permutation exactly when it is the reorder's result |
| Grouping.InsertByRankAt | src/imports.js:101 | the insertion pass that stops at the first group from the back not ranked above `x` gives `InsertByRank` |
| Grouping.InsertedStop | src/imports.js:101 | where the array pass stops, the prefix equals `InsertByRank` of the old prefix and the moved group |
| Grouping.NonEmptyGroupsOrdered | src/imports.js:103-104 | dropping empty groups keeps the others ordered |
| Grouping.AllItemsAppend | src/imports.js:103-105 | appending a group appends its items to the items of all groups |
| Grouping.InsertByRankAllItems | src/imports.js:101 | one insertion pass neither loses nor duplicates an item |
| Grouping.ByRankAllItems | src/imports.js:101 | the reorder neither loses nor duplicates an item |
| Grouping.NonEmptyGroupsAllItems | src/imports.js:103-104 | dropping empty groups drops no item |
| Grouping.ClassifiedGroupCount | src/imports.js:82-98 | group `k` holds each item as often as the input when classified at `k`, else never |
| Grouping.ClassifiedSuffixCount | src/imports.js:82-98 | the groups of matchers `k` onward hold each item as often as the input when it is classified at `k` or later, and never otherwise |
| Grouping.ByRankMembers | src/imports.js:101 | the reorder keeps the number of groups and which groups there are |
| Grouping.Arranged | src/imports.js:78-104 | the groups `makeSortedItems` hands to the within-group sorter: classified, stably sorted by rank, empty ones dropped; described by the three lemmas below |
| Grouping.ArrangedGroups | src/imports.js:78-104 | every output group belongs to one matcher, carries its name, holds exactly its classified items in input order, and is non-empty. There are at most as many groups as matchers. The groups are ordered by rank with ties in matcher order. Every matcher that received an item has its group in the output. |
| Grouping.ArrangedItemCount | src/imports.js:78-104 | an item appears in the output as often as in the input when some matcher accepts its key, and not at all when none does |
| Grouping.CatchAllKeepsEveryItem | src/imports.js:78-104 | with a matcher that accepts every key, the output holds exactly the input items as a multiset |
| Grouping.UnlistedGroupsFirst | src/imports.js:101 | in the ordered result, a group whose name is missing from `order` comes before every group whose name is listed |
| Imports.ClassifyItems | src/imports.js:78-99 | the fresh array holds, in matcher order, one group per matcher with exactly the items first-match classification gives it |
| Imports.PushItem | src/imports.js:82-98 | scanning the groups in order and pushing onto the first accepting one, then `break`, is the classification of the item |
| Imports.SwapGroups | src/imports.js:101 | exchanges two neighbouring groups and nothing else |
| Imports.InsertGroup | src/imports.js:101 | one pass of the in-place stable sort leaves `InsertByRank` of the old prefix and the moved group, and leaves the rest of the array alone |
| Imports.SortGroupsByRank | src/imports.js:101 | the in-place sort leaves the array holding the reference stable sort of its old contents |
| Imports.MakeSortedItems | src/imports.js:77-106 | the result has one entry per non-empty group of the arrangement, in its order, at most one per matcher, each being the within-group sorter's output on that group's items |
| Imports.Added | src/imports.js:45 | `parents.add(p)`: keeps the set free of duplicates, adds exactly `p`, and keeps earlier parents in insertion order |
| Imports.Collected | src/imports.js:44-46 | the set after a run of `ImportDeclaration` visits, as repeated `Added` |
| Imports.CollectedIsSet | src/imports.js:44-46 | however often parents are visited, the set holds each visited parent exactly once |
| Imports.ChunksOf | src/imports.js:49-55 | the chunks of every parent, parent after parent, as the extractor yields them |
| Imports.ChunksOfCoversEachParent | src/imports.js:49-55 | every collected parent's chunks are handed over, right after those of the parents before it |
| Imports.ImportsRule.constructor | src/imports.js:41 | a new rule instance starts with an empty set of parents |
| Imports.ImportsRule.ImportDeclaration | src/imports.js:44-46 | adds the node's parent to the set and keeps it duplicate-free |
| Imports.ImportsRule.ProgramExit | src/imports.js:48-57 | hands over the chunks of every collected parent in insertion order, then leaves the set empty for the next run |

## Left out

- The helpers of `src/shared.js` are not part of this model. They appear as parameters:
  - `extractChunks` is the `ChunkExtractor` parameter of `ProgramExit`;
  - `sortImportExportItems` is the `sortItems` parameter of `MakeSortedItems`;
  - `isPunctuator` on the token after `import` is the `braceAfterImport` flag of `IsSideEffectImport`.

  `getImportExportItems`, `printSortedItems` and `maybeReportSorting` are not modelled. No property of them is assumed.
- `maybeReportChunkSorting` (src/imports.js:62-75) builds items, renders and reports through those helpers. The model stops where it hands a chunk over: `ProgramExit` returns the chunks in the order they are handed over. Its reading of `items[0]` and `items[items.length - 1]` assumes a chunk yields at least one item; that is the extractor's business and is not modelled.
- The ESLint host: the `meta` block, `context.options` and `context.getSourceCode()` (src/imports.js:21-39, 63). The matchers and `order` are parameters. A missing options object, where the source would fail on `matchers.map`, is not modelled.
- `order` missing, or a value without an `indexOf` method, makes the comparator at src/imports.js:101 throw a TypeError once two groups are compared. A string `order` ranks names by substring position. Neither case is modelled: the model's `order` is always a sequence of names.
- The matchers are assumed total and free of side effects.
- Regular-expression semantics of the matchers, and the `defaultGroups` table (src/imports.js:5-19), which this file never reads.
- Item fields other than the module specifier, its kind and the side-effect flag are folded into one `code` string that the rule carries along unread.
- Node objects are identified by a number (`ParentRef`) rather than by reference. Only the node fields the rule reads are kept.
- `src/index.js` (plugin registration) is not part of this model.
- The sort is assumed stable, as `Array.prototype.sort` is required to be since ES2019. The comparator's result is used only through its sign.
