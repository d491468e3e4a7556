/**
 * The syntax-tree nodes the import rule reads, and its small pure
 * classifiers: `isImport`, `isImportSpecifier`, `getSpecifiers` and
 * `isSideEffectImport` of src/imports.js.
 */
module Syntax {
  import opened Wrappers

  /** The node that contains a statement (an import's `parent`). The rule
      compares parents by object identity; here by this number. */
  type ParentRef = nat

  /** A specifier of an import: `ImportSpecifier`, `ImportDefaultSpecifier`
      or `ImportNamespaceSpecifier`, with the local name it binds. */
  datatype Specifier = Specifier(nodeType: string, local: string)

  /** A statement node as the host parser delivers it. Only the fields the
      rule reads are kept: `importKind` is absent on nodes that have none. */
  datatype Node = Node(
    nodeType: string,
    specifiers: seq<Specifier>,
    importKind: Option<string>,
    parent: ParentRef)

  /** How the chunk extractor is told which statements belong to a chunk. */
  datatype ChunkRole = PartOfChunk | NotPartOfChunk

  /** A full import statement. */
  predicate IsImport(node: Node) {
    node.nodeType == "ImportDeclaration"
  }

  /** The classifier handed to the chunk extractor: imports form chunks. */
  function ChunkRoleOf(node: Node): ChunkRole {
    if IsImport(node) then PartOfChunk else NotPartOfChunk
  }

  /** A named specifier (`a`, `b as c`, `type d` in `import def, {a, b as c, type d} from "A"`). */
  predicate IsImportSpecifier(s: Specifier) {
    s.nodeType == "ImportSpecifier"
  }

  /** The named specifiers among `specs`, in their original order; default
      and namespace specifiers are dropped. */
  function ImportSpecifiersOf(specs: seq<Specifier>): (r: seq<Specifier>)
    ensures |r| <= |specs|
    ensures forall s :: s in r <==> s in specs && IsImportSpecifier(s)
  {
    if specs == [] then []
    else
      assert specs == [specs[0]] + specs[1..];
      (if IsImportSpecifier(specs[0]) then [specs[0]] else []) + ImportSpecifiersOf(specs[1..])
  }

  /** A named specifier is kept as often as it is written; any other is
      dropped. */
  lemma {:induction false} ImportSpecifiersOfCount(specs: seq<Specifier>, s: Specifier)
    ensures multiset(ImportSpecifiersOf(specs))[s] == if IsImportSpecifier(s) then multiset(specs)[s] else 0
  {
    if specs != [] {
      ImportSpecifiersOfCount(specs[1..], s);
      assert specs == [specs[0]] + specs[1..];
    }
  }

  /** The specifiers the within-statement sort works on. */
  function GetSpecifiers(importNode: Node): (r: seq<Specifier>)
    ensures forall s :: s in r <==> s in importNode.specifiers && IsImportSpecifier(s)
  {
    ImportSpecifiersOf(importNode.specifiers)
  }

  /** Filtering distributes over concatenation, so the kept specifiers stay
      in the order they were written. */
  lemma {:induction false} ImportSpecifiersOfAppend(a: seq<Specifier>, b: seq<Specifier>)
    ensures ImportSpecifiersOf(a + b) == ImportSpecifiersOf(a) + ImportSpecifiersOf(b)
  {
    if a == [] {
      assert a + b == b;
    } else {
      assert (a + b)[1..] == a[1..] + b;
      ImportSpecifiersOfAppend(a[1..], b);
    }
  }

  /** Nothing is dropped exactly when every specifier is a named one. */
  lemma {:induction false} ImportSpecifiersOfKeepsAll(specs: seq<Specifier>)
    ensures ImportSpecifiersOf(specs) == specs <==> forall i :: 0 <= i < |specs| ==> IsImportSpecifier(specs[i])
  {
    if specs != [] {
      ImportSpecifiersOfKeepsAll(specs[1..]);
      if !IsImportSpecifier(specs[0]) {
        assert |ImportSpecifiersOf(specs)| < |specs|;
      }
    }
  }

  /** `!importKind || importKind === "value"`: an absent or empty import kind
      counts as a value import. */
  predicate IsValueImportKind(importKind: Option<string>) {
    importKind.None? || importKind.value == "" || importKind.value == "value"
  }

  /**
   * A side-effect import such as `import "setup"`: no specifiers, a value
   * import kind, and the token after `import` is not `{`. The token test
   * belongs to the host's token service; `braceAfterImport` is its answer.
   */
  predicate IsSideEffectImport(importNode: Node, braceAfterImport: bool) {
    |importNode.specifiers| == 0
    && IsValueImportKind(importNode.importKind)
    && !braceAfterImport
  }

  /** The three statements named in the source's comments: `import "setup"`
      is a side-effect import, `import {} from "setup"` and
      `import type {} from "setup"` are not, and neither is any import
      with a specifier. */
  lemma SideEffectImportCases(parent: ParentRef, s: Specifier, kind: Option<string>, brace: bool)
    ensures IsSideEffectImport(Node("ImportDeclaration", [], None, parent), false)
    ensures !IsSideEffectImport(Node("ImportDeclaration", [], None, parent), true)
    ensures !IsSideEffectImport(Node("ImportDeclaration", [], Some("type"), parent), brace)
    ensures !IsSideEffectImport(Node("ImportDeclaration", [s], kind, parent), brace)
  {
  }

  /** A side-effect import has no named specifiers to sort. */
  lemma SideEffectImportHasNoSpecifiers(importNode: Node, braceAfterImport: bool)
    requires IsSideEffectImport(importNode, braceAfterImport)
    ensures GetSpecifiers(importNode) == []
  {
  }
}
