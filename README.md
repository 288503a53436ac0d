# Import-path rewrite rule

A model of the rule that rewrites deep relative imports between the libraries of an
Angular workspace into imports of each library's public name. The rule is in
`src/rules/update-import-paths.rule.ts`. For one TypeScript file it does the following:

- It visits the direct children of the parsed file.
- For each import declaration it takes the first string-literal child.
- It keeps the literals that are relative (they start with `'.`) and that resolve into a module other than the file's own.
- It plans one modification per kept literal. The modification replaces the offsets `[pos + 1, end + 1)` of the literal node with `'<public name>';`. The parser's `pos` includes the trivia before the literal, so with one space before the quote this is the literal and the character after it. The public name is cut out of the target module's path by the regular expression `/\/projects\/(.*)(\/)/`.
- It writes the file only when at least one modification was planned. The planned list is reversed in place, and each modification is spliced into the text with JavaScript `slice` semantics.

The modules follow the source:

- `Optional` holds the optional value used for lookups.
- `Syntax` holds the parser's view of a file.
- `Classify` holds `isThirdPartyLibImport`, `importsForeignModuleCode` and `getModulePathFromImport`.
- `PublicApi` holds `convertModulePathToPublicAPIImport` and the regular expression.
- `Patch` holds `Modification`, `applyReplacements` and its reference meaning, `Patched`.
- `Planner` holds `modify` and its callback `updatePaths`.
- `ImportRule` holds `updateImportPaths`.

`Patched` replaces every range of the original text by its content, measured on the original offsets. It is defined without any reordering. The proofs connect the source's right-to-left loop to `Patched`, and show that the left-to-right order would not give the same text.

## Model

| member | source | states |
|---|---|---|
| Syntax.FirstStringLiteral | src/rules/update-import-paths.rule.ts:32-34 | the index found is the first string-literal child at or after `from`; no index exactly when there is none |
| Syntax.ImportLiteral | src/rules/update-import-paths.rule.ts:30-34 | only an import declaration yields a literal; the result is its first string-literal child (no earlier child is a string literal); an import declaration with any string-literal child yields one |
| Classify.IsThirdPartyLibImport | src/rules/update-import-paths.rule.ts:55-57 | a literal is third-party exactly when it does not begin with a single quote followed by a dot; a literal shorter than two characters is third-party |
| Classify.DoubleQuotedIsThirdParty | src/rules/update-import-paths.rule.ts:55-57 | a double-quoted literal, relative or not, is always third-party |
| Classify.ModuleOfFile | src/rules/update-import-paths.rule.ts:27 | defined as `findModule` of the file's folder; its use in the decision is stated by `Planner.QualifiesExactly` |
| Classify.GetModulePathFromImport | src/rules/update-import-paths.rule.ts:69-71 | defined as `findModule` of the literal resolved against the file's path; its use is stated by `Planner.QualifiesExactly` |
| Classify.ImportsForeignModuleCode | src/rules/update-import-paths.rule.ts:59-67 | defined as the file's module differing from the imported file's module; its use is stated by `Planner.QualifiesExactly` |
| Classify.QuotedNameIsThirdParty | src/rules/update-import-paths.rule.ts:55-57 | the rewritten literal `'name'` is third-party exactly when `name` does not start with a dot |
| PublicApi.FindMarker | src/rules/update-import-paths.rule.ts:74-75 | the position found is the first occurrence of `/projects/` at or after `from`; none means no occurrence there |
| PublicApi.LineEnd | src/rules/update-import-paths.rule.ts:74 | the run that `.` can match ends at the first line terminator or at the end of the text |
| PublicApi.LastSlash | src/rules/update-import-paths.rule.ts:74 | the position found is the last `/` in the range, where greedy `.*` followed by `(\/)` stops; none means no `/` in the range |
| PublicApi.ExecFrom | src/rules/update-import-paths.rule.ts:74-75 | a match found at or after `from` is a `/projects/` at `i`, a run without line terminators, then a `/` at `k`; the capture is the text between them |
| PublicApi.ConvertModulePathToPublicApiImport | src/rules/update-import-paths.rule.ts:73-77 | the public name is `''` or the capture of some match: the text after a `/projects/` up to a later `/` on the same line |
| PublicApi.PublicNameBetweenFirstMarkerAndLastSlash | src/rules/update-import-paths.rule.ts:73-77 | on a path without line terminators, the public name is the text between the first `/projects/` and the last `/` after it |
| PublicApi.PublicNameEmptyWithoutMatch | src/rules/update-import-paths.rule.ts:76 | on a path without line terminators where no `/projects/` is followed by a `/`, the public name is `''` |
| PublicApi.PublicNameOfModuleRoot | src/rules/update-import-paths.rule.ts:73-77 | a module root `<prefix>/projects/<name>/` with no earlier `/projects/` has public name `<name>` |
| PublicApi.PublicNameBeforeFileName | src/rules/update-import-paths.rule.ts:73-77 | `/projects/<name>/<file>` on one line, with no `/` in the file name, gives `<name>` whatever `/`s the name holds |
| PublicApi.GreedyCapture | src/rules/update-import-paths.rule.ts:74 | `/projects/<outer>/<inner>/<file>` gives `<outer>/<inner>` when the file name has no `/`: the capture runs to the last `/`, not the first |
| PublicApi.LineTerminatorExample | src/rules/update-import-paths.rule.ts:74-75 | a `/projects/` whose line has no later `/` does not match, and a match on the next line is taken instead |
| Patch.Replace | src/rules/update-import-paths.rule.ts:81-84 | for an in-bounds range, the text before the start is kept, the content follows, then the text from the end; a range wholly past the end appends the content |
| Patch.Reversed | src/rules/update-import-paths.rule.ts:80 | the reversed list has the same length, and element `i` is element `n - 1 - i` of the input |
| Patch.Reverse | src/rules/update-import-paths.rule.ts:80 | `modifications.reverse()` leaves the array holding the reversal of its old contents |
| Patch.SpliceLength | src/rules/update-import-paths.rule.ts:81-84 | the patched text is as long as the original plus, for each modification, its content length minus the length of its range |
| Patch.SpliceKeepsUntouched | src/rules/update-import-paths.rule.ts:81-84 | every character in the gap before range `k` survives, shifted by what the first `k` modifications add |
| Patch.SpliceInsertsContent | src/rules/update-import-paths.rule.ts:81-84 | the content of modification `k` appears in the result at its start offset, shifted by what the first `k` modifications add |
| Patch.ReplaceBeforeSplice | src/rules/update-import-paths.rule.ts:80-85 | splicing a range into a text whose later ranges are already replaced gives the same text as replacing every range on original offsets |
| Patch.ReverseOrderPatches | src/rules/update-import-paths.rule.ts:79-87 | for ascending, disjoint, in-bounds ranges, applying the reversed list one modification after another gives `Patched` |
| Patch.LeftToRightDiffers | src/rules/update-import-paths.rule.ts:80 | without the reversal the result differs: on `abcd`, the list in order gives `XXYcd`, while `Patched` gives `XXbYd` |
| Patch.InOrderExample | src/rules/update-import-paths.rule.ts:80-85 | applying `[0, 1) -> XX` then `[2, 3) -> Y` to `abcd` one after another gives `XXYcd` |
| Patch.PatchedExample | src/rules/update-import-paths.rule.ts:80-85 | the same two well-formed ranges replaced on original offsets give `XXbYd` |
| Patch.UntouchedRangeSurvives | src/rules/update-import-paths.rule.ts:81-84 | a stretch of the original text that no range overlaps appears unchanged in the patched text, moved by what the ranges before it add |
| Patch.ApplyReplacements | src/rules/update-import-paths.rule.ts:79-87 | the array is left reversed; the result is the reversed list applied one modification after another, with slice clamping; for well-formed ranges it is `Patched` of the original list |
| Planner.Qualifies | src/rules/update-import-paths.rule.ts:30-40 | defined as the `updatePaths` test; stated outright by `Planner.QualifiesExactly` |
| Planner.QualifiesExactly | src/rules/update-import-paths.rule.ts:30-40 | a child qualifies exactly when it is an import declaration with a string-literal child whose text starts with `'.` and resolves into a module other than the file's |
| Planner.EditFor | src/rules/update-import-paths.rule.ts:42-44 | the modification runs from one past the literal's `pos` to one past its `end` |
| Planner.EditContentIsQuotedName | src/rules/update-import-paths.rule.ts:45 | the content is the public name in single quotes followed by `;` |
| Planner.QualifyingPositions | src/rules/update-import-paths.rule.ts:36-40 | the positions are ascending, each child at them qualifies, and every qualifying child below `n` is listed |
| Planner.PlanEditsInDocumentOrder | src/rules/update-import-paths.rule.ts:42-46 | modification `k` belongs to the `k`-th qualifying child in document order. It runs from just after the literal's `pos` to one past its `end`, and holds `'<public name>';`. There is one modification per qualifying child |
| Planner.NoEditsIffNothingQualifies | src/rules/update-import-paths.rule.ts:18-20 | the plan is empty exactly when no child qualifies |
| Planner.LocalAndThirdPartyImportsUntouched | src/rules/update-import-paths.rule.ts:36-40 | when every literal is third-party or resolves to the file's own module, nothing is planned |
| Planner.UnqualifiedLiteralOutsideEdits | src/rules/update-import-paths.rule.ts:36-46 | for literals in document order, the offsets `[pos + 1, end + 1)` of a child that does not qualify overlap no planned range |
| Planner.UnqualifiedImportKept | src/rules/update-import-paths.rule.ts:36-46 | in any file with literals in document order, each import that does not qualify is byte-identical after patching: its stretch `[pos + 1, end + 1)` appears unchanged, moved by what the earlier edits add |
| Planner.PlanEditsWellFormed | src/rules/update-import-paths.rule.ts:42-46 | when literals lie in document order with a character after each, the planned ranges are ascending, disjoint and inside the text |
| Planner.SecondPassPlansNothing | src/rules/update-import-paths.rule.ts:45 | idempotence: when no public name starts with a dot, a second pass over the rewritten file plans nothing |
| Planner.Modify | src/rules/update-import-paths.rule.ts:25-53 | the list built by visiting the root's children is the plan for the file's module |
| ImportRule.UpdateImportPaths | src/rules/update-import-paths.rule.ts:13-23 | nothing is written exactly when no child qualifies. Otherwise the text written is the reversed plan applied in sequence. For literals in document order, that text is `Patched` |
| ImportRule.ScenarioCrossModuleImport | src/rules/update-import-paths.rule.ts:36-46 | `import {X} from '../other/thing';` resolving into another module's root `<prefix>/projects/<name>/` plans the one modification `[16, 33) -> '<name>';` |
| ImportRule.ScenarioPatch | src/rules/update-import-paths.rule.ts:79-87 | that modification, with name `lib-b`, turns the line into `import {X} from 'lib-b';` |

## Left out

- Reading the file (`fs.readFileSync`) and parsing it (`ts.createSourceFile`) are not modelled. The text and the parsed top-level children are parameters. Literal offsets and `getText()` are taken as the parser reports them.
- `tree.overwrite` is not modelled as a side effect. `UpdateImportPaths` returns the text it would write, or `None` when nothing is written.
- `findModule`, `convertToAbsolutPath` and `getFolderPath` are not part of this model. They are uninterpreted functions of a `Workspace`, so "same module" means equal strings. What `findModule` throws when no module is found is not modelled.
- `node.forEachChild(updatePaths)` with its closure is modelled as a loop over the root's children in `Planner.Modify`. The callback's push onto the captured list is the loop's append.
- The regular expression is modelled for this one pattern only.
- Strings are sequences of Dafny characters. JavaScript strings are UTF-16 code units, so a character outside the Basic Multilingual Plane counts once here and twice in `slice` offsets and in the regular expression. Surrogate pairs are not distinguished.
- Leading trivia: the parser's `pos` includes the trivia before the literal, so `[pos + 1, end + 1)` covers the literal and the character after it only when exactly one trivia character precedes the quote. With none (`from'../x'`) the opening quote survives, and with more the edit starts inside the trivia. The model keeps the source's offsets as they are. Trivia widths are not modelled.
- JavaScript numbers are doubles. Offsets are modelled as natural numbers, since parser offsets are never negative or fractional.
- Patch.ApplyReplacements: the characterisation as `Patched` is stated only for ascending, disjoint, in-bounds ranges. For any other list, the result is stated only as the reversed list applied in sequence, with `slice` clamping.
- ImportRule.UpdateImportPaths: the link to `Patched` needs each literal to be followed by at least one character (the `;`). An edit whose end passes the text's end is covered only by the clamped in-sequence meaning.
- Planner.SecondPassPlansNothing: re-parsing the rewritten file is not modelled. The lemma assumes that the parser reports the rewritten literals as `'<name>'`, and every other child's literal unchanged.
