/** The part of a parsed TypeScript source file that the import-path rule looks at:
    the direct children of the root node, and for an import declaration its child tokens.
    Parsing itself belongs to the TypeScript compiler and is not modelled; offsets and
    literal texts are taken as the parser reports them. */
module Syntax {
  import opened Optional

  /** A child token of an import declaration. For a string literal, `pos` is the parser's
      start offset (it includes leading trivia), `end` is one past the closing quote, and
      `text` is the literal as written in the file, quotes included (`getText()`). */
  datatype Segment = StringLiteral(pos: nat, end: nat, text: string) | OtherSegment

  /** A direct child of the source file's root node. */
  datatype Node = ImportDeclaration(children: seq<Segment>) | OtherStatement

  /** Index of the first string-literal segment at or after `from`. */
  function FirstStringLiteral(children: seq<Segment>, from: nat): (r: Option<nat>)
    decreases |children| - from
    ensures r.Some? ==> from <= r.value < |children| && children[r.value].StringLiteral?
    ensures r.Some? ==> forall j :: from <= j < r.value ==> !children[j].StringLiteral?
    ensures r.None? ==> forall j :: from <= j < |children| ==> !children[j].StringLiteral?
  {
    if |children| <= from then None
    else if children[from].StringLiteral? then Some(from)
    else FirstStringLiteral(children, from + 1)
  }

  /** The literal the rule inspects: for an import declaration, the first string-literal
      child (`getChildren().find(kind === StringLiteral)`); nothing for any other node. */
  function ImportLiteral(node: Node): (r: Option<Segment>)
    ensures r.Some? ==> node.ImportDeclaration? && r.value.StringLiteral? && r.value in node.children
    ensures r.Some? ==> exists i :: 0 <= i < |node.children| && r.value == node.children[i] &&
                          forall j :: 0 <= j < i ==> !node.children[j].StringLiteral?
    ensures node.ImportDeclaration? && (exists j :: 0 <= j < |node.children| && node.children[j].StringLiteral?)
            ==> r.Some?
  {
    match node
    case OtherStatement => None
    case ImportDeclaration(children) =>
      match FirstStringLiteral(children, 0)
      case None => None
      case Some(i) => Some(children[i])
  }
}
