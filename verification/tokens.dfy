/** The lexical vocabulary the checked program is built from: types, names,
    and the grammar classes this model leaves abstract, together with the
    `Layout` that supplies their source text. */
module Tokens {

  /** A type as the checker sees it. The five literal types are the
      singletons the expression checker names; every other type (the
      declared primitive types, arrays, method return types) is `Named`.
      Java compares these singletons by identity; here that is value
      equality. */
  datatype Type =
    | IntLit
    | CharLit
    | Str
    | FloatLit
    | BoolLit
    | Named(spelling: string)

  /** Tokens whose classes are not part of this model: an operator or type
      lexeme, the part of a name after its identifier, an argument list, a
      Java `double`, a read list, the field declarations and the statement
      list of a block, an optional trailing lexeme and the else-part of an
      `if`. Only their rendering is used, and that comes from `Layout`. */
  type Lexeme(==, 00)
  type NameDetail(==, 00)
  type Args(==, 00)
  type Double(==, 00)
  type ReadList(==, 00)
  type FieldDecls(==, 00)
  type StmtList(==, 00)
  type OptionalLexeme(==, 00)
  type IfEnd(==, 00)

  /** A name token: the identifier the checker resolves, plus whatever else
      the token carries. */
  datatype Name = Name(id: string, detail: NameDetail)

  /** The rendering of everything outside the model, as functions of the
      indentation level. `tabs(n)` is the indentation of level `n` and
      `withTabs(n, s)` is `s` placed at level `n`; the indent unit is left
      open. `ifEndShown` says whether an else-part is present. */
  datatype Layout = Layout(
    tabs: int -> string,
    withTabs: (int, string) -> string,
    typeText: (Type, int) -> string,
    lexemeText: (Lexeme, int) -> string,
    nameText: (Name, int) -> string,
    argsText: (Args, int) -> string,
    doubleText: Double -> string,
    readListText: (ReadList, int) -> string,
    fieldDeclsText: (FieldDecls, int) -> string,
    stmtListText: (StmtList, int) -> string,
    optionalText: (OptionalLexeme, int) -> string,
    ifEndText: (IfEnd, int) -> string,
    ifEndShown: IfEnd -> bool)

  /** The single failure channel of the checker. */
  datatype CheckError =
    | Undeclared(id: string)
    | Redeclaration(id: string, scope: int)
    | Fault(message: string)
}
