/** Statements and their rendering. Blocks and `while` loops render from an
    indentation level alone; `if` and `read` also take a line prefix.
    `BodyStmt` and `WhileStmt` define only `asString(tabs)`, `IfStmt` and
    `ReadStmt` only `asString(prefix, tabs)`; the other form comes from
    `Forms`. */
module Statements {
  import opened Results
  import opened Text
  import opened Tokens
  import opened Exprs

  datatype Stmt =
    | Block(fieldDecls: Option<FieldDecls>, stmts: StmtList, optionalSemi: OptionalLexeme)  // BodyStmt
    | While(cond: Expr, body: Stmt)                                                       // WhileStmt
    | If(cond: Expr, body: Stmt, ifEnd: IfEnd)                                            // IfStmt
    | Read(readList: ReadList)                                                            // ReadStmt

  /** The rendering forms the statement classes do not define: `plain` is
      `asString(tabs)` of an `if` or `read`, `prefixed` is
      `asString(prefix, tabs)` of a block or `while`. */
  datatype Forms = Forms(plain: (Stmt, int) -> string, prefixed: (Stmt, string, int) -> string)

  /** The `read` factory: wraps the list unchanged. */
  function ReadOf(readList: ReadList): (s: Stmt)
    ensures s.Read? && s.readList == readList
  {
    Read(readList)
  }

  /** `asString(tabs)`. */
  function RenderPlain(s: Stmt, tabs: int, L: Layout, F: Forms): string
    decreases s, 1
  {
    match s
    case Block(fieldDecls, stmts, optionalSemi) => RenderBlock(fieldDecls, stmts, optionalSemi, tabs, L)
    case While(cond, body) => RenderWhile(cond, body, tabs, L, F)
    case _ => F.plain(s, tabs)
  }

  /** `asString(prefix, tabs)`. */
  function RenderPrefixed(s: Stmt, prefix: string, tabs: int, L: Layout, F: Forms): string
    decreases s, 1
  {
    match s
    case If(cond, body, ifEnd) => RenderIf(cond, body, ifEnd, prefix, tabs, L, F)
    case Read(readList) => RenderRead(readList, prefix, tabs, L)
    case _ => F.prefixed(s, prefix, tabs)
  }

  /** A block: an opening brace on its own line, the field declarations (if
      any) and then the statements one level deeper, each followed by a
      line break, and the closing brace with its optional trailing lexeme
      back at the block's own level. */
  function RenderBlock(fieldDecls: Option<FieldDecls>, stmts: StmtList, optionalSemi: OptionalLexeme,
                       tabs: int, L: Layout): (r: string)
    ensures
      var fields := if fieldDecls.None? then "" else L.fieldDeclsText(fieldDecls.value, tabs + 1) + "\n";
      var close := L.withTabs(tabs, "}" + L.optionalText(optionalSemi, tabs));
      && StartsWith(r, "{\n")
      && EndsWith(r, close)
      && 2 + |fields| <= |r| - |close|
      && r[2..2 + |fields|] == fields
      && r[2 + |fields|..|r| - |close|] == L.stmtListText(stmts, tabs + 1) + "\n"
  {
    "{\n"
    + (if fieldDecls.None? then "" else L.fieldDeclsText(fieldDecls.value, tabs + 1) + "\n")
    + L.stmtListText(stmts, tabs + 1) + "\n"
    + L.withTabs(tabs, "}" + L.optionalText(optionalSemi, tabs))
  }

  /** A loop: the condition in parentheses, then the body at the same level
      with nothing after it. */
  function RenderWhile(cond: Expr, body: Stmt, tabs: int, L: Layout, F: Forms): (r: string)
    ensures
      var head := "while (" + Render(cond, tabs, L) + ") ";
      StartsWith(r, head) && r[|head|..] == RenderPlain(body, tabs, L, F)
    decreases body, 2
  {
    "while (" + Render(cond, tabs, L) + ") " + RenderPlain(body, tabs, L, F)
  }

  /** What an `if` prints after its condition: a block body after a space,
      with no prefix and at the same level; any other body on a new line,
      one level deeper, prefixed by that level's indentation. */
  function IfBody(body: Stmt, tabs: int, L: Layout, F: Forms): (r: string)
    ensures |r| > 0
    ensures body.Block? ==> r[0] == ' ' && r[1..] == RenderPrefixed(body, "", tabs, L, F)
    ensures !body.Block? ==> r[0] == '\n' && r[1..] == RenderPrefixed(body, L.tabs(tabs + 1), tabs + 1, L, F)
    decreases body, 2
  {
    if body.Block? then " " + RenderPrefixed(body, "", tabs, L, F)
    else "\n" + RenderPrefixed(body, L.tabs(tabs + 1), tabs + 1, L, F)
  }

  /** A conditional: the prefix, the condition in parentheses, the body as
      `IfBody` lays it out, and the else-part on a new line at the
      statement's level exactly when it is shown. */
  function RenderIf(cond: Expr, body: Stmt, ifEnd: IfEnd, prefix: string, tabs: int, L: Layout, F: Forms): (r: string)
    ensures StartsWith(r, prefix + "if (" + Render(cond, tabs, L) + ")")
    ensures
      var lead := prefix + "if (" + Render(cond, tabs, L) + ")" + IfBody(body, tabs, L, F);
      && StartsWith(r, lead)
      && (|r| > |lead| <==> L.ifEndShown(ifEnd))
      && (L.ifEndShown(ifEnd) ==> r[|lead|..] == "\n" + L.withTabs(tabs, L.ifEndText(ifEnd, tabs)))
    decreases body, 3
  {
    prefix + "if (" + Render(cond, tabs, L) + ")" + IfBody(body, tabs, L, F)
    + (if L.ifEndShown(ifEnd) then "\n" + L.withTabs(tabs, L.ifEndText(ifEnd, tabs)) else "")
  }

  /** A read: the prefix, `read(`, the list text, and `);`. */
  function RenderRead(readList: ReadList, prefix: string, tabs: int, L: Layout): (r: string)
    ensures
      var head := prefix + "read(";
      && StartsWith(r, head)
      && EndsWith(r, ");")
      && |head| + 2 <= |r|
      && r[|head|..|r| - 2] == L.readListText(readList, tabs)
  {
    prefix + "read(" + L.readListText(readList, tabs) + ");"
  }

  /* ---------------------------------------------------------------- */
  /* Parenthesis and brace balance                                     */
  /* ---------------------------------------------------------------- */

  /** The imbalance of the punctuation the statement renderers emit. */
  lemma StmtPunctuation()
    ensures Imbalance("read(") == -1 && Imbalance(");") == 1
    ensures Imbalance("while (") == -1 && Imbalance("if (") == -1
    ensures Imbalance(")") == 1 && Imbalance(") ") == 1
    ensures Imbalance(" ") == 0 && Imbalance("\n") == 0 && Imbalance("{\n") == 0 && Imbalance("}") == 0
    ensures BraceImbalance("{\n") == -1 && BraceImbalance("}") == 1 && BraceImbalance("\n") == 0
  {
    Punctuation();
    OneChar('('); OneChar(';'); OneChar('\n'); OneChar('}');
    NoParens("read"); NoParens("while "); NoParens("if "); NoParens("{\n");
    ImbalanceConcat("read", "(");
    ImbalanceConcat(")", ";");
    ImbalanceConcat("while ", "(");
    ImbalanceConcat("if ", "(");
    assert "read(" == "read" + "(" && ");" == ")" + ";";
    assert "while (" == "while " + "(" && "if (" == "if " + "(";
    assert ['}'][..0] == [] && ['\n'][..0] == [];
    assert "{\n"[..1] == "{" && "{\n"[..0] == [];
  }

  /** A read statement is balanced exactly when its prefix and list text
      together are. */
  lemma ReadImbalance(readList: ReadList, prefix: string, tabs: int, L: Layout)
    ensures Imbalance(RenderRead(readList, prefix, tabs, L)) == Imbalance(prefix) + Imbalance(L.readListText(readList, tabs))
  {
    StmtPunctuation();
    var list := L.readListText(readList, tabs);
    ImbalanceConcat(prefix, "read(");
    Wrapped(prefix + "read(", list, ");");
  }

  /** A loop's text carries its condition's ternaries plus whatever its body
      carries: it is balanced when the condition holds no ternary and the
      body is balanced. */
  lemma WhileImbalance(cond: Expr, body: Stmt, tabs: int, L: Layout, F: Forms)
    requires BalancedLeaves(cond, tabs, L)
    ensures Imbalance(RenderWhile(cond, body, tabs, L, F)) == Ternaries(cond) + Imbalance(RenderPlain(body, tabs, L, F))
  {
    StmtPunctuation();
    RenderImbalance(cond, tabs, L);
    Wrapped("while (", Render(cond, tabs, L), ") ");
    ImbalanceConcat("while (" + Render(cond, tabs, L) + ") ", RenderPlain(body, tabs, L, F));
  }

  /** An `if` carries its prefix's, its condition's ternaries, its body's
      and, when shown, its else-part's imbalance, and nothing else. */
  lemma IfImbalance(cond: Expr, body: Stmt, ifEnd: IfEnd, prefix: string, tabs: int, L: Layout, F: Forms)
    requires BalancedLeaves(cond, tabs, L)
    ensures
      var bodyText := if body.Block? then RenderPrefixed(body, "", tabs, L, F)
                      else RenderPrefixed(body, L.tabs(tabs + 1), tabs + 1, L, F);
      var elsePart := if L.ifEndShown(ifEnd) then Imbalance(L.withTabs(tabs, L.ifEndText(ifEnd, tabs))) else 0;
      Imbalance(RenderIf(cond, body, ifEnd, prefix, tabs, L, F))
        == Imbalance(prefix) + Ternaries(cond) + Imbalance(bodyText) + elsePart
  {
    StmtPunctuation();
    RenderImbalance(cond, tabs, L);
    var c := Render(cond, tabs, L);
    var bodyText := if body.Block? then RenderPrefixed(body, "", tabs, L, F)
                    else RenderPrefixed(body, L.tabs(tabs + 1), tabs + 1, L, F);
    var sep := if body.Block? then " " else "\n";
    assert IfBody(body, tabs, L, F) == sep + bodyText;
    ImbalanceConcat(sep, bodyText);
    ImbalanceConcat(prefix, "if (");
    Wrapped(prefix + "if (", c, ")");
    ImbalanceConcat(prefix + "if (" + c + ")", IfBody(body, tabs, L, F));
    var e := if L.ifEndShown(ifEnd) then "\n" + L.withTabs(tabs, L.ifEndText(ifEnd, tabs)) else "";
    if L.ifEndShown(ifEnd) {
      ImbalanceConcat("\n", L.withTabs(tabs, L.ifEndText(ifEnd, tabs)));
    } else {
      assert Imbalance(e) == 0;
    }
    ImbalanceConcat(prefix + "if (" + c + ")" + IfBody(body, tabs, L, F), e);
  }

  /** Placing text at a level adds no braces or parentheses of its own. */
  ghost predicate PlainIndentation(L: Layout) {
    forall n, t :: BraceImbalance(L.withTabs(n, t)) == BraceImbalance(t) && Imbalance(L.withTabs(n, t)) == Imbalance(t)
  }

  /** The braces a block adds pair up: its brace and parenthesis balance are
      those of its field declarations, statements and trailing lexeme. */
  lemma BlockBalance(fieldDecls: Option<FieldDecls>, stmts: StmtList, optionalSemi: OptionalLexeme, tabs: int, L: Layout)
    requires PlainIndentation(L)
    ensures
      var fields := if fieldDecls.None? then "" else L.fieldDeclsText(fieldDecls.value, tabs + 1);
      var body := L.stmtListText(stmts, tabs + 1);
      var semi := L.optionalText(optionalSemi, tabs);
      var r := RenderBlock(fieldDecls, stmts, optionalSemi, tabs, L);
      && BraceImbalance(r) == BraceImbalance(fields) + BraceImbalance(body) + BraceImbalance(semi)
      && Imbalance(r) == Imbalance(fields) + Imbalance(body) + Imbalance(semi)
  {
    var fields := if fieldDecls.None? then "" else L.fieldDeclsText(fieldDecls.value, tabs + 1);
    var fieldPart := if fieldDecls.None? then "" else fields + "\n";
    var body := L.stmtListText(stmts, tabs + 1);
    var semi := L.optionalText(optionalSemi, tabs);
    var close := L.withTabs(tabs, "}" + semi);
    assert RenderBlock(fieldDecls, stmts, optionalSemi, tabs, L) == "{\n" + fieldPart + body + "\n" + close;
    assert BraceImbalance(close) == BraceImbalance("}" + semi) && Imbalance(close) == Imbalance("}" + semi);
    BlockBraces(fieldPart, fields, body, semi, close, fieldDecls.Some?);
    BlockParens(fieldPart, fields, body, semi, close, fieldDecls.Some?);
  }

  /** Brace count of a block's pieces. */
  lemma BlockBraces(fieldPart: string, fields: string, body: string, semi: string, close: string, hasFields: bool)
    requires fieldPart == if hasFields then fields + "\n" else ""
    requires !hasFields ==> fields == ""
    requires BraceImbalance(close) == BraceImbalance("}" + semi)
    ensures BraceImbalance("{\n" + fieldPart + body + "\n" + close)
         == BraceImbalance(fields) + BraceImbalance(body) + BraceImbalance(semi)
  {
    StmtPunctuation();
    if hasFields {
      BraceImbalanceConcat(fields, "\n");
    }
    BraceImbalanceConcat("}", semi);
    BraceImbalanceConcat("{\n", fieldPart);
    BraceImbalanceConcat("{\n" + fieldPart, body);
    BraceImbalanceConcat("{\n" + fieldPart + body, "\n");
    BraceImbalanceConcat("{\n" + fieldPart + body + "\n", close);
  }

  /** Parenthesis count of a block's pieces. */
  lemma BlockParens(fieldPart: string, fields: string, body: string, semi: string, close: string, hasFields: bool)
    requires fieldPart == if hasFields then fields + "\n" else ""
    requires !hasFields ==> fields == ""
    requires Imbalance(close) == Imbalance("}" + semi)
    ensures Imbalance("{\n" + fieldPart + body + "\n" + close)
         == Imbalance(fields) + Imbalance(body) + Imbalance(semi)
  {
    StmtPunctuation();
    if hasFields {
      ImbalanceConcat(fields, "\n");
    }
    ImbalanceConcat("}", semi);
    ImbalanceConcat("{\n", fieldPart);
    ImbalanceConcat("{\n" + fieldPart, body);
    ImbalanceConcat("{\n" + fieldPart + body, "\n");
    ImbalanceConcat("{\n" + fieldPart + body + "\n", close);
  }
}
