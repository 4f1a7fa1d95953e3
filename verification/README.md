# Expression checker, parameter declarations and re-renderer

A Dafny model of the semantic-analysis core of a small compiler front end
for a teaching language. It covers three things:

- **Expression type checking.** An expression is a variable reference, a
  call with or without arguments, a literal, or a parenthesised, `~`,
  unary `-`, unary `+`, cast, binary or ternary node. Checking threads a
  scope depth, a variable table (identifier → scope depth → type) and a
  flat method table (name → return type). It yields a type, "no type"
  (Java's `null`), or a fail-fast error.
- **Parameter declaration.** Each regular parameter is entered into a
  per-identifier, scope-indexed field table. A second declaration of the
  same name at the very same scope is a redeclaration. A parameter list is
  declared head first, all at one scope, and the first error ends it.
- **Rendering.** Every node re-renders itself as source text from an
  indentation level. `if` and `read` statements also take a line prefix.

Files, one module each:

| file | module | contents |
|---|---|---|
| `results.dfy` | `Results` | `Option` (a nullable reference) and `Result` (a call that may throw) |
| `text.dfy` | `Text` | prefix/suffix tests, character, parenthesis and brace counting, joining, Java's decimal `int` text |
| `tokens.dfy` | `Tokens` | `Type`, `Name`, the abstract token types, the `Layout` of their rendering, `CheckError` |
| `symbol_table.dfy` | `SymbolTables` | the two table shapes and the closest-scope rule |
| `expr.dfy` | `Exprs` | `Expr`, `Check`, `Render` and their lemmas |
| `arg_decls.dfy` | `ArgDecls` | parameter declarations and lists: declaring, rendering, the array builder |
| `stmts.dfy` | `Statements` | block, `while`, `if` and `read` statements and their rendering |

Design points:

- The Java `Types` singletons are compared by identity. Here `Type` is a
  datatype compared by value. The five literal types are constructors.
  Every other type (declared primitive types, arrays, method return
  types) is `Named(spelling)`.
- Mutable `Map` arguments become a table passed in and returned.
- Builders and factories become datatype constructors. The one builder
  modelled explicitly is the array-parameter builder.
- Token classes outside the model are abstract types:
  - `Lexeme` (an operator or type lexeme)
  - `Args` and `ReadList`
  - `FieldDecls` and `StmtList` (the two halves of a block)
  - `OptionalLexeme` and `IfEnd`
  - `Double` (a Java `double`)
  - the rest of a `Name` after its identifier
  Their text comes from a `Layout` record of functions. That record also
  supplies `tabs` and `withTabs`, whose indent unit is left open.
- The source uses two shapes for the variable table:
  - The expression checker reads `Map<String, Map<Integer, Type>>`.
  - `RegularArgDecl` writes `Map<String, FieldInformation>`, a record from
    scope to type plus an array flag.
  Both shapes are kept. `TypeView` reads the second as the first, and
  `DeclaredParameterIsVisible` and `ShadowingExample` use it to connect
  declaration and lookup.
- `isScopeTooHigh` and `getClosestScopeType` are not part of this model.
  The model assumes these meanings for them:
  - `isScopeTooHigh` holds when no recorded scope is at or below the query;
  - `getClosestScopeType` gives the type at the greatest recorded scope at
    or below the query.
- Statement rendering has two signatures. `BodyStmt` and `WhileStmt` define
  only `asString(tabs)`; `IfStmt` and `ReadStmt` define only
  `asString(prefix, tabs)`. Both are kept as `RenderPlain` and
  `RenderPrefixed`. The form a class does not define comes from a `Forms`
  record and is not guessed.

## Model

| member | source | states |
|---|---|---|
| Exprs.Check | src/tokens/expr/Expr.java:19-245 | literals always check, to their fixed type; a reference succeeds exactly when its identifier has a scope at or below the query, and then has the type at the closest such scope, otherwise it is undeclared; both call forms succeed exactly when the name is in the method table and then have its type, whatever the arguments; parentheses are transparent; a failing operand of `~` or `-` is the result; `~` succeeds exactly on bool or int operands and gives bool; `-` succeeds exactly on int or float operands and keeps the type; a well-typed operand of the wrong type is a fault with the source's message; `+`, cast, binary and ternary give no type and never fail; no expression reports a redeclaration |
| Exprs.Render | src/tokens/expr/Expr.java:22-237 | a reference renders as its name; a call without arguments as `id()`, one with arguments as `id(`, the argument text and `)`; an integer literal as canonical decimal text (no leading zero, no `-0`, a `-` exactly for negatives) that reads back as its value; booleans as `true`/`false`; a parenthesised node as its inner text in one pair of parentheses; `~`, `-` and `+` prefix the operand's text; a cast as `(`, the type text, `) ` and the operand's text; a binary node as `(`, the left text, a space, the operator, a space, the right text and `)`; a ternary text starts with `(` and ends with `)` |
| Exprs.RenderImbalance | src/tokens/expr/Expr.java:145-237 | if every leaf text has balanced parentheses (names, call identifiers, argument lists, char, string and double spellings, cast type texts, operator lexemes), a rendering has exactly one more `)` than `(` per ternary node, so it is balanced exactly when there is no ternary |
| Text.IntTextRoundTrip | src/tokens/expr/Expr.java:75 | the decimal text of an integer literal reads back as the same integer |
| Text.CanonicalTextIsIntText | src/tokens/expr/Expr.java:75 | every canonical decimal text is the rendering of the integer it denotes, so integer rendering and reading are inverse bijections between integers and canonical texts |
| SymbolTables.ClosestScope | src/tokens/expr/Expr.java:28-31 | no scope is found exactly when every recorded scope lies above the query; a found scope is the greatest recorded scope at or below the query |
| SymbolTables.ClosestScopeType | src/tokens/expr/Expr.java:31 | the resolved type is the one recorded at the closest scope at or below the query |
| ArgDecls.DeclareRegular | src/tokens/methods/args/argdecls/RegularArgDecl.java:50-58 | fails exactly when the name already has an entry at this very scope, with a redeclaration carrying the name and scope, leaving the table as it was; otherwise records the type at this scope with the array flag off, keeps the name's entries at other scopes (shadowing is allowed) and leaves every other identifier alone |
| ArgDecls.DeclareList | src/tokens/methods/args/argdecls/ArgDeclList.java:49-55 | a failing head is the list's result, so the rest is never declared; a one-element list checks as its declaration |
| ArgDecls.DeclareListInOrder | src/tokens/methods/args/argdecls/ArgDeclList.java:50-53 | checking a list is declaring its parameters one after another, in list order, all at the same scope |
| ArgDecls.DeclareAllRegular | src/tokens/methods/args/argdecls/ArgDeclList.java:49-55 | regular parameters declare successfully exactly when their names are pairwise distinct and none is declared at the scope yet; a failure is a redeclaration, at that scope, of the first parameter that repeats an earlier one or a name already declared there, all parameters before it being distinct and fresh; a success holds exactly the old names plus the parameter names, adds the scope to exactly the parameters' scope sets, records each parameter there with its type and keeps every earlier entry |
| ArgDecls.RegularTableShape | src/tokens/methods/args/argdecls/ArgDeclList.java:50-53 | after a successful declaration of regular parameters the table's names are exactly the old names plus the parameter names, and each name's scopes are its old scopes plus the list's scope exactly when it is a parameter |
| ArgDecls.RegularFirstOffender | src/tokens/methods/args/argdecls/ArgDeclList.java:50-53 | a failed declaration of regular parameters reports a redeclaration, at the list's scope, of the first parameter that repeats an earlier one or a name already declared there; the parameters before it are distinct and fresh |
| ArgDecls.DuplicateIsRedeclaration | src/tokens/methods/args/argdecls/ArgDeclList.java:50-52 | two parameters with the same name in one list make the list fail with a redeclaration at the list's scope |
| ArgDecls.DeclaredParameterIsVisible | src/tokens/methods/args/argdecls/RegularArgDecl.java:57 | after a parameter is declared, a reference to it at its scope, or deeper with no closer declaration in between, checks to the declared type |
| ArgDecls.ShadowingExample | src/tokens/methods/args/argdecls/RegularArgDecl.java:51-57 | an undeclared name fails; `x` declared at 0 is seen at 0 and 2; declaring it again at 0 is a redeclaration; declaring it at 1 shadows it at 1 while 0 still sees the outer type |
| ArgDecls.RenderDecl | src/tokens/methods/args/argdecls/RegularArgDecl.java:46 | a regular parameter renders as the type text, a space and the name; an array parameter as the type text, a space, the name and `[]` |
| ArgDecls.ArrayExtendsRegular | src/ArrayArgDecl.java:35 | an array parameter renders as the regular parameter with the same type text and name, followed by `[]` |
| ArgDecls.RenderList | src/tokens/methods/args/argdecls/ArgDeclList.java:45 | a list starts with its head's text; a one-element list is exactly that text; otherwise `, ` and the rest's text follow |
| ArgDecls.RenderListIsJoin | src/tokens/methods/args/argdecls/ArgDeclList.java:44-46 | a list renders as its declarations' texts, in order, joined by `, ` |
| ArgDecls.BuildKeepsFields | src/ArrayArgDecl.java:2-31 | the builder, given a type and a name in either order, builds the array parameter holding exactly those |
| Statements.RenderBlock | src/BodyStmt.java:42-47 | starts with `{` and a line break; the field declarations (when present) come next, one level deeper and followed by a line break; then the statements one level deeper and a line break; it ends with the closing brace and optional lexeme at the block's own level |
| Statements.RenderWhile | src/WhileStmt.java:34-36 | starts with `while (`, the condition and `) `; everything after that is the body rendered at the same level |
| Statements.IfBody | src/tokens/stmts/IfStmt.java:48-51 | a block body follows after a space, rendered with an empty prefix at the same level; any other body follows on a new line, one level deeper, prefixed by that level's indentation |
| Statements.RenderIf | src/tokens/stmts/IfStmt.java:47-53 | starts with the prefix, `if (`, the condition and `)`, then the body; text follows the body exactly when the else-part is shown, and it is a line break and the else-part at the statement's level |
| Statements.RenderRead | src/tokens/stmts/ReadStmt.java:17-19 | starts with the prefix and `read(`, ends with `);`, and holds the read list's text between them |
| Statements.ReadImbalance | src/tokens/stmts/ReadStmt.java:18 | the parentheses a `read` adds pair up: its imbalance is that of its prefix plus that of its read list |
| Statements.WhileImbalance | src/WhileStmt.java:35 | with balanced leaves in the condition, a loop carries one extra `)` per ternary of its condition plus its body's imbalance, and nothing else |
| Statements.IfImbalance | src/tokens/stmts/IfStmt.java:48-51 | with balanced leaves in the condition, an `if` carries its prefix's imbalance, one extra `)` per ternary of its condition, its body's imbalance in either body form and, exactly when shown, its else-part's, and nothing else |
| Statements.BlockBalance | src/BodyStmt.java:42-47 | when placing text at a level adds no braces or parentheses, a block's `{` and `}` pair up: its brace and parenthesis imbalance are the sums of those of its field declarations, statements and trailing lexeme |
| Statements.ReadOf | src/tokens/stmts/ReadStmt.java:6-14 | the factory wraps the given read list unchanged |

## Left out

- Cast compatibility, binary numeric promotion, ternary typing and a unary
  `+` rule: the `+`, cast, binary and ternary checks return `null` without
  looking at their operands (Expr.java:200, 214, 228, 242), so the model
  has no such rules either.
- Argument checking on calls is not done in the source either.
- The type check of an array parameter: `ArrayArgDecl` defines no
  `typeCheck`. The list
  check takes it as the `ArrayRule` parameter, and the list lemmas about
  declaration outcomes are stated for regular parameters only.
- Statement type checking: it is not part of this model.
- `isScopeTooHigh`, `getClosestScopeType`, `FieldInformation`, `tabs` and
  `withTabs` are not part of this model. They are replaced by the meanings
  stated above or left to `Layout`.
- Java's formatting of a `double` (`floatingPoint + ""`) is left to
  `Layout.doubleText`.
- The rendering of lexemes, types, names, argument lists, read lists, field
  declarations, statement lists, optional lexemes and else-parts is left to
  `Layout`.
- The rendering form a statement class does not define is left to `Forms`.
- Other statement kinds (assignment, write, return, ...) are not part of
  this model.
- ArgDecls.DeclareList: when a later parameter fails, the Java table keeps
  the entries already added for earlier ones, because the map is mutated
  in place. The model returns only the error, since the failure ends the
  whole check.
- ArgDecls.DeclareRegular: the method table is not a parameter, because the
  declaration never touches it.
- ArgDecls.ArrayDeclBuilder: building with a field never set gives `None`.
  Java would build a declaration holding `null`.
- Scope depths and indentation levels are unbounded integers. Java's
  32-bit overflow of `tabs + 1` is not modelled. Integer literals are
  32-bit (`Int32`).
- Builders other than the array-parameter builder are plain constructors.
