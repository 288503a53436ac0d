/** `modify` and its callback `updatePaths`: visiting the direct children of the source
    file's root and planning one modification for each import declaration whose literal is
    relative and reaches into another module. */
module Planner {
  import opened Optional
  import opened Syntax
  import opened Classify
  import opened PublicApi
  import opened Patch

  /** The condition of `updatePaths` for one child of the root: an import declaration with
      a string literal that is not third-party and whose module is not the file's own. */
  predicate Qualifies(ws: Workspace, moduleOfFile: string, filePath: string, node: Node)
  {
    match ImportLiteral(node)
    case None => false
    case Some(literal) =>
      !IsThirdPartyLibImport(literal.text) && ImportsForeignModuleCode(ws, literal.text, moduleOfFile, filePath)
  }

  /** A child qualifies exactly when it is an import declaration whose first string literal
      begins with a single quote and a dot and resolves into a module other than the file's. */
  lemma QualifiesExactly(ws: Workspace, moduleOfFile: string, filePath: string, node: Node)
    ensures Qualifies(ws, moduleOfFile, filePath, node) <==>
              && node.ImportDeclaration? && ImportLiteral(node).Some?
              && var text := ImportLiteral(node).value.text;
                 && |text| >= 2 && text[0] == '\'' && text[1] == '.'
                 && GetModulePathFromImport(ws, text, filePath) != moduleOfFile
  {
  }

  /** The public name of the module an import literal reaches into. */
  function PublicName(ws: Workspace, filePath: string, literal: Segment): string
    requires literal.StringLiteral?
  {
    ConvertModulePathToPublicApiImport(GetModulePathFromImport(ws, literal.text, filePath))
  }

  /** The modification pushed for a qualifying literal: from just after the parser's `pos`
      to one past its `end`, replaced by the public name in single quotes and a `;`. */
  function EditFor(ws: Workspace, filePath: string, literal: Segment): (r: Modification)
    requires literal.StringLiteral?
    ensures r.startPosition == literal.pos + 1 && r.endPosition == literal.end + 1
  {
    Modification(literal.pos + 1, literal.end + 1, "'" + PublicName(ws, filePath, literal) + "';")
  }

  /** The content of an edit is the rewritten literal `'<public name>'` followed by the `;`
      that the range's extra character held. */
  lemma EditContentIsQuotedName(ws: Workspace, filePath: string, literal: Segment)
    requires literal.StringLiteral?
    ensures var c := EditFor(ws, filePath, literal).content;
            |c| > 0 && c[|c| - 1] == ';' && c[..|c| - 1] == "'" + PublicName(ws, filePath, literal) + "'"
  {
    var c := EditFor(ws, filePath, literal).content;
    assert c == ("'" + PublicName(ws, filePath, literal) + "'") + ";";
  }

  /** What visiting one child of the root adds to the list. */
  function NodeEdits(ws: Workspace, moduleOfFile: string, filePath: string, node: Node): seq<Modification>
  {
    if Qualifies(ws, moduleOfFile, filePath, node) then [EditFor(ws, filePath, ImportLiteral(node).value)] else []
  }

  /** The list `modify` has built after visiting the first `n` children. */
  function PlanEditsUpTo(ws: Workspace, moduleOfFile: string, filePath: string, nodes: seq<Node>, n: nat): seq<Modification>
    requires n <= |nodes|
  {
    if n == 0 then []
    else PlanEditsUpTo(ws, moduleOfFile, filePath, nodes, n - 1) + NodeEdits(ws, moduleOfFile, filePath, nodes[n - 1])
  }

  /** The list `modify` returns after visiting every child in order. */
  function PlanEdits(ws: Workspace, moduleOfFile: string, filePath: string, nodes: seq<Node>): seq<Modification>
  {
    PlanEditsUpTo(ws, moduleOfFile, filePath, nodes, |nodes|)
  }

  /** Positions, below `n`, of the qualifying children, in ascending order: the reference
      for which children get a modification and in which order. */
  function QualifyingPositions(ws: Workspace, moduleOfFile: string, filePath: string, nodes: seq<Node>, n: nat): (r: seq<nat>)
    requires n <= |nodes|
    ensures forall k :: 0 <= k < |r| ==> r[k] < n && Qualifies(ws, moduleOfFile, filePath, nodes[r[k]])
    ensures forall a, b :: 0 <= a < b < |r| ==> r[a] < r[b]
    ensures forall i :: 0 <= i < n && Qualifies(ws, moduleOfFile, filePath, nodes[i]) ==> i in r
  {
    if n == 0 then []
    else
      QualifyingPositions(ws, moduleOfFile, filePath, nodes, n - 1)
      + (if Qualifies(ws, moduleOfFile, filePath, nodes[n - 1]) then [n - 1] else [])
  }

  /** Edits come out in document order, exactly one per qualifying child and none for any
      other child: edit `k` belongs to the `k`-th qualifying child. */
  lemma {:induction false} PlanEditsInDocumentOrder(ws: Workspace, moduleOfFile: string, filePath: string, nodes: seq<Node>, n: nat)
    requires n <= |nodes|
    ensures var plan := PlanEditsUpTo(ws, moduleOfFile, filePath, nodes, n);
            var at := QualifyingPositions(ws, moduleOfFile, filePath, nodes, n);
            |plan| == |at| &&
            forall k :: 0 <= k < |plan| ==> plan[k] == EditFor(ws, filePath, ImportLiteral(nodes[at[k]]).value)
  {
    if n > 0 {
      PlanEditsInDocumentOrder(ws, moduleOfFile, filePath, nodes, n - 1);
      var plan := PlanEditsUpTo(ws, moduleOfFile, filePath, nodes, n);
      var at := QualifyingPositions(ws, moduleOfFile, filePath, nodes, n);
      var before := PlanEditsUpTo(ws, moduleOfFile, filePath, nodes, n - 1);
      var atBefore := QualifyingPositions(ws, moduleOfFile, filePath, nodes, n - 1);
      if Qualifies(ws, moduleOfFile, filePath, nodes[n - 1]) {
        assert plan == before + [EditFor(ws, filePath, ImportLiteral(nodes[n - 1]).value)];
        assert at == atBefore + [n - 1];
        forall k | 0 <= k < |plan|
          ensures plan[k] == EditFor(ws, filePath, ImportLiteral(nodes[at[k]]).value)
        {
          if k < |before| {
            assert plan[k] == before[k] && at[k] == atBefore[k];
          }
        }
      } else {
        assert plan == before && at == atBefore;
      }
    }
  }

  /** No modification at all exactly when no child qualifies. */
  lemma NoEditsIffNothingQualifies(ws: Workspace, moduleOfFile: string, filePath: string, nodes: seq<Node>)
    ensures PlanEdits(ws, moduleOfFile, filePath, nodes) == []
            <==> forall i :: 0 <= i < |nodes| ==> !Qualifies(ws, moduleOfFile, filePath, nodes[i])
  {
    PlanEditsInDocumentOrder(ws, moduleOfFile, filePath, nodes, |nodes|);
    var at := QualifyingPositions(ws, moduleOfFile, filePath, nodes, |nodes|);
    if at != [] {
      assert Qualifies(ws, moduleOfFile, filePath, nodes[at[0]]);
    }
  }

  /** Third-party literals (anything not starting with `'.`, double-quoted relative paths
      included) and relative literals resolving to the file's own module never produce a
      modification. */
  lemma LocalAndThirdPartyImportsUntouched(ws: Workspace, moduleOfFile: string, filePath: string, nodes: seq<Node>)
    requires forall i :: 0 <= i < |nodes| && ImportLiteral(nodes[i]).Some? ==>
               var text := ImportLiteral(nodes[i]).value.text;
               IsThirdPartyLibImport(text) || GetModulePathFromImport(ws, text, filePath) == moduleOfFile
    ensures PlanEdits(ws, moduleOfFile, filePath, nodes) == []
  {
    NoEditsIffNothingQualifies(ws, moduleOfFile, filePath, nodes);
  }

  /** Literal offsets as a parser reports them for consecutive statements: each literal's
      range lies inside the text with at least one character after it (the `;`), and the
      literals of different children do not overlap and come in document order. */
  predicate LiteralsInOrder(nodes: seq<Node>, size: nat)
  {
    && (forall i :: 0 <= i < |nodes| && ImportLiteral(nodes[i]).Some? ==>
          ImportLiteral(nodes[i]).value.pos <= ImportLiteral(nodes[i]).value.end < size)
    && (forall i, j :: 0 <= i < j < |nodes| && ImportLiteral(nodes[i]).Some? && ImportLiteral(nodes[j]).Some? ==>
          ImportLiteral(nodes[i]).value.end <= ImportLiteral(nodes[j]).value.pos)
  }

  /** For literals in document order the planned modifications are ascending, disjoint
      and inside the text: what `applyReplacements` needs to patch correctly. */
  lemma PlanEditsWellFormed(ws: Workspace, moduleOfFile: string, filePath: string, nodes: seq<Node>, size: nat)
    requires LiteralsInOrder(nodes, size)
    ensures WellFormed(PlanEdits(ws, moduleOfFile, filePath, nodes), size)
  {
    PlanEditsInDocumentOrder(ws, moduleOfFile, filePath, nodes, |nodes|);
    var plan := PlanEdits(ws, moduleOfFile, filePath, nodes);
    var at := QualifyingPositions(ws, moduleOfFile, filePath, nodes, |nodes|);
    forall a | 0 <= a < |plan| ensures plan[a].startPosition <= plan[a].endPosition <= size {
      assert ImportLiteral(nodes[at[a]]).Some?;
    }
    forall a, b | 0 <= a < b < |plan| ensures plan[a].endPosition <= plan[b].startPosition {
      assert at[a] < at[b];
      assert ImportLiteral(nodes[at[a]]).Some? && ImportLiteral(nodes[at[b]]).Some?;
    }
  }

  /** A child that does not qualify lies outside every planned range: each edit belongs
      to a qualifying child before it or after it, and their literals do not overlap. */
  lemma UnqualifiedLiteralOutsideEdits(ws: Workspace, moduleOfFile: string, filePath: string, nodes: seq<Node>,
                                       size: nat, i: nat)
    requires LiteralsInOrder(nodes, size)
    requires i < |nodes| && ImportLiteral(nodes[i]).Some?
    requires !Qualifies(ws, moduleOfFile, filePath, nodes[i])
    ensures OverlapsNone(PlanEdits(ws, moduleOfFile, filePath, nodes),
                         ImportLiteral(nodes[i]).value.pos + 1, ImportLiteral(nodes[i]).value.end + 1)
  {
    PlanEditsInDocumentOrder(ws, moduleOfFile, filePath, nodes, |nodes|);
    var plan := PlanEdits(ws, moduleOfFile, filePath, nodes);
    var at := QualifyingPositions(ws, moduleOfFile, filePath, nodes, |nodes|);
    var literal := ImportLiteral(nodes[i]).value;
    forall k | 0 <= k < |plan|
      ensures plan[k].endPosition <= literal.pos + 1 || literal.end + 1 <= plan[k].startPosition
    {
      assert at[k] != i;
      assert ImportLiteral(nodes[at[k]]).Some?;
    }
  }

  /** The text of an import that does not qualify is byte-identical after patching: the
      stretch `[pos + 1, end + 1)` that its own edit would have replaced comes through
      unchanged, moved by what the edits before it add. */
  lemma UnqualifiedImportKept(ws: Workspace, moduleOfFile: string, filePath: string, nodes: seq<Node>,
                              source: string, i: nat)
    requires LiteralsInOrder(nodes, |source|)
    requires i < |nodes| && ImportLiteral(nodes[i]).Some?
    requires !Qualifies(ws, moduleOfFile, filePath, nodes[i])
    ensures KeptIntact(source, PlanEdits(ws, moduleOfFile, filePath, nodes),
                       ImportLiteral(nodes[i]).value.pos + 1, ImportLiteral(nodes[i]).value.end + 1)
  {
    PlanEditsWellFormed(ws, moduleOfFile, filePath, nodes, |source|);
    UnqualifiedLiteralOutsideEdits(ws, moduleOfFile, filePath, nodes, |source|, i);
    UntouchedRangeSurvives(source, PlanEdits(ws, moduleOfFile, filePath, nodes),
                           ImportLiteral(nodes[i]).value.pos + 1, ImportLiteral(nodes[i]).value.end + 1);
  }

  /** `after` is what the parser reports for `before` once the file has been rewritten:
      a rewritten import now holds the literal `'name'`; every other child keeps its
      literal text (its offsets may have moved). */
  predicate RewrittenAs(ws: Workspace, moduleOfFile: string, filePath: string, before: Node, after: Node)
  {
    match ImportLiteral(before)
    case None => ImportLiteral(after).None?
    case Some(literal) =>
      ImportLiteral(after).Some? &&
      ImportLiteral(after).value.text ==
        if Qualifies(ws, moduleOfFile, filePath, before) then "'" + PublicName(ws, filePath, literal) + "'"
        else literal.text
  }

  /** Idempotence: when no public name starts with a dot, a second pass over the rewritten
      file plans no modification. */
  lemma SecondPassPlansNothing(ws: Workspace, moduleOfFile: string, filePath: string, before: seq<Node>, after: seq<Node>)
    requires |before| == |after|
    requires forall i :: 0 <= i < |before| ==> RewrittenAs(ws, moduleOfFile, filePath, before[i], after[i])
    requires forall i :: 0 <= i < |before| && Qualifies(ws, moduleOfFile, filePath, before[i]) ==>
               var name := PublicName(ws, filePath, ImportLiteral(before[i]).value);
               !(|name| > 0 && name[0] == '.')
    ensures PlanEdits(ws, moduleOfFile, filePath, after) == []
  {
    forall i | 0 <= i < |after| ensures !Qualifies(ws, moduleOfFile, filePath, after[i]) {
      if ImportLiteral(before[i]).Some? && Qualifies(ws, moduleOfFile, filePath, before[i]) {
        QuotedNameIsThirdParty(PublicName(ws, filePath, ImportLiteral(before[i]).value));
      }
    }
    NoEditsIffNothingQualifies(ws, moduleOfFile, filePath, after);
  }

  /** `modify`: looks up the file's module once, then visits the root's children in order,
      pushing a modification for each qualifying import declaration. */
  method Modify(ws: Workspace, filePath: string, sourceFile: seq<Node>) returns (modifications: seq<Modification>)
    ensures modifications == PlanEdits(ws, ModuleOfFile(ws, filePath), filePath, sourceFile)
  {
    modifications := [];
    var moduleOfFile := ws.findModule(ws.getFolderPath(filePath));
    for i := 0 to |sourceFile|
      invariant modifications == PlanEditsUpTo(ws, moduleOfFile, filePath, sourceFile, i)
    {
      var node := sourceFile[i];
      if node.ImportDeclaration? {
        var importNode := ImportLiteral(node);
        if importNode.Some?
           && !IsThirdPartyLibImport(importNode.value.text)
           && ImportsForeignModuleCode(ws, importNode.value.text, moduleOfFile, filePath)
        {
          var moduleFromImportPath := GetModulePathFromImport(ws, importNode.value.text, filePath);
          assert NodeEdits(ws, moduleOfFile, filePath, node) == [EditFor(ws, filePath, importNode.value)];
          modifications := modifications + [Modification(
            importNode.value.pos + 1,
            importNode.value.end + 1,
            "'" + ConvertModulePathToPublicApiImport(moduleFromImportPath) + "';")];
        } else {
          assert NodeEdits(ws, moduleOfFile, filePath, node) == [];
        }
      } else {
        assert NodeEdits(ws, moduleOfFile, filePath, node) == [];
      }
    }
  }
}
