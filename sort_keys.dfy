/**
 * The import items the rule classifies, and the sort key it derives from
 * each: the module specifier with a NUL sentinel in front for a side-effect
 * import, or behind for any other import whose kind is not `value`.
 */
module SortKeys {
  /** `item.source`: the module specifier as written, and the import kind
      (`value`, `type`, `typeof`). */
  datatype ItemSource = ItemSource(originalSource: string, kind: string)

  /** An import item built by the shared item builder. `code` stands for
      everything else the builder records (text, comments, range), which
      this rule only carries along. */
  datatype Item = Item(source: ItemSource, isSideEffectImport: bool, code: string)

  /** The sentinel character matchers can test for (`\u0000`). */
  const Nul: char := '\0'

  /** Which sentinel, if any, the key of an item carries. */
  datatype KeyClass = SideEffect | NonValue | Value

  /** Side-effect-ness is decided before the import kind is looked at. */
  function ClassOf(item: Item): KeyClass {
    if item.isSideEffectImport then SideEffect
    else if item.source.kind != "value" then NonValue
    else Value
  }

  /** The string the matchers are applied to. */
  function SortKey(item: Item): (key: string)
    ensures |key| == |item.source.originalSource| + (if ClassOf(item) == Value then 0 else 1)
  {
    var s := item.source.originalSource;
    if item.isSideEffectImport then [Nul] + s
    else if item.source.kind != "value" then s + [Nul]
    else s
  }

  /** Reads the sentinel back off a key: a leading NUL marks a side-effect
      import, a trailing one a non-value import. */
  function DecodeKey(key: string): (KeyClass, string) {
    if |key| > 0 && key[0] == Nul then (SideEffect, key[1..])
    else if |key| > 0 && key[|key| - 1] == Nul then (NonValue, key[..|key| - 1])
    else (Value, key)
  }

  /** The encoding is unambiguous for every non-empty specifier that does
      not itself contain NUL: the key gives back both the class and the
      specifier. */
  lemma DecodeSortKey(item: Item)
    requires item.source.originalSource != []
    requires Nul !in item.source.originalSource
    ensures DecodeKey(SortKey(item)) == (ClassOf(item), item.source.originalSource)
  {
    var s := item.source.originalSource;
    match ClassOf(item)
    case SideEffect =>
      assert SortKey(item) == [Nul] + s;
      assert ([Nul] + s)[1..] == s;
    case NonValue =>
      assert SortKey(item) == s + [Nul];
      assert s[0] != Nul;
      assert (s + [Nul])[..|s|] == s;
    case Value =>
      assert s[0] != Nul && s[|s| - 1] != Nul;
  }

  /** Hence two such items get the same key exactly when they have the same
      class and the same specifier. */
  lemma SortKeyInjective(a: Item, b: Item)
    requires a.source.originalSource != [] && Nul !in a.source.originalSource
    requires b.source.originalSource != [] && Nul !in b.source.originalSource
    ensures SortKey(a) == SortKey(b) <==>
      ClassOf(a) == ClassOf(b) && a.source.originalSource == b.source.originalSource
  {
    DecodeSortKey(a);
    DecodeSortKey(b);
  }

  /** The one collision the non-empty requirement above rules out: a
      side-effect import and a type import of the empty specifier share the
      key "\0". */
  lemma EmptySpecifierKeysCollide(code1: string, code2: string, kind: string)
    requires kind != "value"
    ensures SortKey(Item(ItemSource("", "value"), true, code1)) == SortKey(Item(ItemSource("", kind), false, code2))
  {
  }
}
