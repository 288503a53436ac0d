/** `updateImportPaths`: plans the modifications for one file and, only when there is at
    least one, patches the text and overwrites the file. The file's text and its parsed
    top-level children are parameters (reading and parsing are not modelled); the returned
    option is the text passed to `tree.overwrite`, or `None` when nothing is written. */
module ImportRule {
  import opened Optional
  import opened Syntax
  import opened Classify
  import opened PublicApi
  import opened Patch
  import opened Planner

  method UpdateImportPaths(ws: Workspace, filePath: string, sourceCode: string, sourceFile: seq<Node>)
    returns (written: Option<string>)
    ensures written.None? <==>
              forall i :: 0 <= i < |sourceFile| ==> !Qualifies(ws, ModuleOfFile(ws, filePath), filePath, sourceFile[i])
    ensures written.Some? ==>
              written.value == ApplyInSequence(sourceCode, Reversed(PlanEdits(ws, ModuleOfFile(ws, filePath), filePath, sourceFile)))
    ensures written.Some? && LiteralsInOrder(sourceFile, |sourceCode|) ==>
              WellFormed(PlanEdits(ws, ModuleOfFile(ws, filePath), filePath, sourceFile), |sourceCode|) &&
              written.value == Patched(sourceCode, PlanEdits(ws, ModuleOfFile(ws, filePath), filePath, sourceFile))
  {
    var modifications := Modify(ws, filePath, sourceFile);
    NoEditsIffNothingQualifies(ws, ModuleOfFile(ws, filePath), filePath, sourceFile);
    if |modifications| == 0 {
      return None;
    }
    if LiteralsInOrder(sourceFile, |sourceCode|) {
      PlanEditsWellFormed(ws, ModuleOfFile(ws, filePath), filePath, sourceFile, |sourceCode|);
    }
    var buffer := new Modification[|modifications|](i requires 0 <= i < |modifications| => modifications[i]);
    assert buffer[..] == modifications;
    var modifiedSource := ApplyReplacements(sourceCode, buffer);
    written := Some(modifiedSource);
  }

  /** A scenario: `f.ts` imports `'../other/thing'`, a file of the module whose root is
      `<prefix>/projects/<name>/` (say `/ws/projects/lib-b/`, with prefix `/ws` and name
      `lib-b`), while `f.ts` itself lies in another module. */
  predicate ScenarioWorkspace(ws: Workspace, prefix: string, name: string)
  {
    && GetModulePathFromImport(ws, "'../other/thing'", "f.ts") == prefix + Marker + name + "/"
    && ModuleOfFile(ws, "f.ts") != prefix + Marker + name + "/"
    && NoLineTerminators(prefix) && NoLineTerminators(name)
    && (forall j :: 0 <= j < |prefix| ==> !MarkerAt(prefix + Marker, j))
    && (forall j :: 0 <= j < |name| ==> name[j] != '/')
  }

  const ScenarioText: string := "import {X} from '../other/thing';"

  /** The parser's view of the scenario: one import declaration whose literal starts with
      its leading space at 15 and ends after the closing quote at 32. */
  const ScenarioNodes: seq<Node> :=
    [ImportDeclaration([OtherSegment, OtherSegment, StringLiteral(15, 32, "'../other/thing'"), OtherSegment])]

  const ScenarioLiteralSegment: Segment := StringLiteral(15, 32, "'../other/thing'")

  /** The literal and the `;` after it become `'<name>';`. */
  lemma ScenarioCrossModuleImport(ws: Workspace, prefix: string, name: string)
    requires ScenarioWorkspace(ws, prefix, name)
    ensures PlanEdits(ws, ModuleOfFile(ws, "f.ts"), "f.ts", ScenarioNodes) == [Modification(16, 33, "'" + name + "';")]
  {
    ScenarioLiteral();
    ScenarioQualifies(ws, prefix, name);
    PublicNameOfModuleRoot(prefix, name);
    assert PublicName(ws, "f.ts", ScenarioLiteralSegment) == name;
    var m := ModuleOfFile(ws, "f.ts");
    assert PlanEdits(ws, m, "f.ts", ScenarioNodes)
        == PlanEditsUpTo(ws, m, "f.ts", ScenarioNodes, 0) + NodeEdits(ws, m, "f.ts", ScenarioNodes[0]);
    assert NodeEdits(ws, ModuleOfFile(ws, "f.ts"), "f.ts", ScenarioNodes[0]) == [Modification(16, 33, "'" + name + "';")];
  }

  lemma ScenarioLiteral()
    ensures ImportLiteral(ScenarioNodes[0]) == Some(ScenarioLiteralSegment)
  {
    assert FirstStringLiteral(ScenarioNodes[0].children, 0) == Some(2);
  }

  lemma ScenarioQualifies(ws: Workspace, prefix: string, name: string)
    requires ScenarioWorkspace(ws, prefix, name)
    requires ImportLiteral(ScenarioNodes[0]) == Some(ScenarioLiteralSegment)
    ensures Qualifies(ws, ModuleOfFile(ws, "f.ts"), "f.ts", ScenarioNodes[0])
  {
    assert !IsThirdPartyLibImport(ScenarioLiteralSegment.text) by {
      assert ScenarioLiteralSegment.text[..2] == RelativePrefix;
    }
  }

  /** With the name `lib-b`, the file's text becomes `import {X} from 'lib-b';`. */
  lemma ScenarioPatch()
    ensures Patched(ScenarioText, [Modification(16, 33, "'lib-b';")]) == "import {X} from 'lib-b';"
  {
    var ms := [Modification(16, 33, "'lib-b';")];
    assert ms[1..] == [];
    assert Patched(ScenarioText, ms) == ScenarioText[..16] + "'lib-b';" + ScenarioText[33..];
  }
}
