/** Deciding whether an import literal reaches into another module.
    The module lookup (`findModule` of the Angular schematics utilities, with the
    workspace tree fixed) and the path helpers (`convertToAbsolutPath`, `getFolderPath`)
    are not part of this model: they are uninterpreted functions carried by `Workspace`,
    so "same module" is plain equality of the strings they return. */
module Classify {

  /** The collaborators the rule calls on the workspace. */
  datatype Workspace = Workspace(
    findModule: string -> string,
    convertToAbsolutPath: (string, string) -> string,
    getFolderPath: string -> string)

  /** A literal that is not third-party starts with a single quote and a dot. */
  const RelativePrefix: string := "'."

  /** `isThirdPartyLibImport`: the literal's text does not start with `'.`. Only a
      single-quoted literal whose first character inside the quotes is a dot is relative;
      any literal of fewer than two characters counts as third-party. */
  function IsThirdPartyLibImport(literalText: string): (r: bool)
    ensures r <==> !(|literalText| >= 2 && literalText[0] == '\'' && literalText[1] == '.')
  {
    !(RelativePrefix <= literalText)
  }

  /** The module of the importing file: `findModule(tree, getFolderPath(filePath))`. */
  function ModuleOfFile(ws: Workspace, filePath: string): string
  {
    ws.findModule(ws.getFolderPath(filePath))
  }

  /** `getModulePathFromImport`: the module the imported file belongs to. */
  function GetModulePathFromImport(ws: Workspace, importLiteral: string, filePath: string): string
  {
    ws.findModule(ws.convertToAbsolutPath(filePath, importLiteral))
  }

  /** `importsForeignModuleCode`: the imported file's module differs from the file's own. */
  predicate ImportsForeignModuleCode(ws: Workspace, literalText: string, fileModulePath: string, filePath: string)
  {
    fileModulePath != GetModulePathFromImport(ws, literalText, filePath)
  }

  /** A double-quoted literal, relative or not, counts as third-party. */
  lemma DoubleQuotedIsThirdParty(literalText: string)
    requires |literalText| > 0 && literalText[0] == '"'
    ensures IsThirdPartyLibImport(literalText)
  {
  }

  /** A rewritten literal `'name'` is third-party exactly when `name` does not start
      with a dot. */
  lemma QuotedNameIsThirdParty(name: string)
    ensures IsThirdPartyLibImport("'" + name + "'") <==> !(|name| > 0 && name[0] == '.')
  {
    var t := "'" + name + "'";
    assert |t| >= 2 && t[0] == '\'';
    assert t[1] == if |name| > 0 then name[0] else '\'';
  }
}
