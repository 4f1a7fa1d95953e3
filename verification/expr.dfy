/** Expressions: the node kinds the parser builds, their type check against
    the two symbol tables, and their rendering back to source text. */
module Exprs {
  import opened Results
  import opened Text
  import opened Tokens
  import opened SymbolTables

  /** Java's 32-bit `int`, the payload of an integer literal. */
  newtype Int32 = x: int | -0x8000_0000 <= x < 0x8000_0000

  /** One constructor per factory of the expression interface. */
  datatype Expr =
    | Ref(name: Name)                                  // simple
    | CallNoArgs(id: string)                           // simpleInvocation
    | Call(id: string, args: Args)                     // invocation
    | IntConst(integer: Int32)                         // intlit
    | CharConst(character: string)                     // charlit
    | StrConst(text: string)                           // strlit
    | FloatConst(floatingPoint: Double)                // floatlit
    | BoolConst(truth: bool)                           // boollit
    | Paren(inner: Expr)                               // parenthesized
    | Not(operand: Expr)                               // not
    | Neg(operand: Expr)                               // minus
    | Pos(operand: Expr)                               // plus
    | Cast(target: Type, operand: Expr)                // casting
    | Binary(left: Expr, op: Lexeme, right: Expr)      // binaryOp
    | Ternary(cond: Expr, ifTrue: Expr, ifFalse: Expr) // ternary
  {
    predicate IsLiteral() {
      IntConst? || CharConst? || StrConst? || FloatConst? || BoolConst?
    }

    predicate IsInvocation() {
      CallNoArgs? || Call?
    }

    /** The node kinds whose check is not implemented: it yields no type
        and looks at nothing. */
    predicate IsUnchecked() {
      Pos? || Cast? || Binary? || Ternary?
    }
  }

  /** The fixed type of each literal kind. */
  function LiteralType(e: Expr): Type
    requires e.IsLiteral()
  {
    match e
    case IntConst(_) => IntLit
    case CharConst(_) => CharLit
    case StrConst(_) => Str
    case FloatConst(_) => FloatLit
    case BoolConst(_) => BoolLit
  }

  const NotFault := "Error: Not operation only applicable on bool (or coerced to bool)"
  const NegFault := "Error: Negative operation only applicable on int or float"

  /** A variable reference is visible when its identifier has a record with
      some scope at or below the reference's scope. */
  predicate Visible(id: string, scope: int, vars: VarTable) {
    id in vars && !ScopeTooHigh(scope, vars[id].Keys)
  }

  /** Type-checks `e` at depth `scope`. `Success(None)` is Java's `null`:
      "no type". Failures are fail-fast and propagate unchanged. */
  function Check(e: Expr, scope: int, vars: VarTable, methods: MethodTable): (r: Result<Option<Type>, CheckError>)
    // literals never fail and have their fixed type
    ensures e.IsLiteral() ==> r == Success(Some(LiteralType(e)))
    // references: visible exactly when resolvable, then the closest declaration's type
    ensures e.Ref? ==> (r.Success? <==> Visible(e.name.id, scope, vars))
    ensures e.Ref? && r.Success? ==>
      forall k :: IsClosest(k, scope, vars[e.name.id].Keys) ==> r.value == Some(vars[e.name.id][k])
    ensures e.Ref? && r.Failure? ==> r.error == Undeclared(e.name.id)
    // invocations: only the method table matters, never the arguments
    ensures e.IsInvocation() ==> (r.Success? <==> e.id in methods)
    ensures e.IsInvocation() && r.Success? ==> r.value == Some(methods[e.id])
    ensures e.IsInvocation() && r.Failure? ==> r.error == Undeclared(e.id)
    // parentheses are transparent
    ensures e.Paren? ==> r == Check(e.inner, scope, vars, methods)
    // `~` takes bool or int and yields bool
    ensures e.Not? ==>
      (r.Success? <==> Check(e.operand, scope, vars, methods) in {Success(Some(BoolLit)), Success(Some(IntLit))})
    ensures e.Not? && r.Success? ==> r.value == Some(BoolLit)
    // unary `-` takes int or float and keeps it
    ensures e.Neg? ==>
      (r.Success? <==> Check(e.operand, scope, vars, methods) in {Success(Some(IntLit)), Success(Some(FloatLit))})
    ensures e.Neg? && r.Success? ==> r == Check(e.operand, scope, vars, methods)
    // a failing operand's error is the result
    ensures (e.Not? || e.Neg?) && Check(e.operand, scope, vars, methods).Failure? ==>
      r == Check(e.operand, scope, vars, methods)
    // an operand that checks but has the wrong type is a fault
    ensures (e.Not? || e.Neg?) && Check(e.operand, scope, vars, methods).Success? && r.Failure? ==>
      r.error == Fault(if e.Not? then NotFault else NegFault)
    // the unimplemented kinds succeed with no type
    ensures e.IsUnchecked() ==> r == Success(None)
    // an expression never reports a redeclaration
    ensures r.Failure? ==> !r.error.Redeclaration?
  {
    match e
    case Ref(name) =>
      if name.id !in vars || ScopeTooHigh(scope, vars[name.id].Keys) then Failure(Undeclared(name.id))
      else Success(Some(ClosestScopeType(scope, vars[name.id])))
    case CallNoArgs(id) =>
      if id !in methods then Failure(Undeclared(id)) else Success(Some(methods[id]))
    case Call(id, _) =>
      if id !in methods then Failure(Undeclared(id)) else Success(Some(methods[id]))
    case IntConst(_) => Success(Some(IntLit))
    case CharConst(_) => Success(Some(CharLit))
    case StrConst(_) => Success(Some(Str))
    case FloatConst(_) => Success(Some(FloatLit))
    case BoolConst(_) => Success(Some(BoolLit))
    case Paren(inner) => Check(inner, scope, vars, methods)
    case Not(operand) =>
      var t :- Check(operand, scope, vars, methods);
      if t != Some(BoolLit) && t != Some(IntLit) then Failure(Fault(NotFault)) else Success(Some(BoolLit))
    case Neg(operand) =>
      var t :- Check(operand, scope, vars, methods);
      if t != Some(IntLit) && t != Some(FloatLit) then Failure(Fault(NegFault)) else Success(t)
    case Pos(_) => Success(None)
    case Cast(_, _) => Success(None)
    case Binary(_, _, _) => Success(None)
    case Ternary(_, _, _) => Success(None)
  }

  /** Renders `e` as source text at indentation level `tabs`. */
  function Render(e: Expr, tabs: int, L: Layout): (r: string)
    ensures e.Ref? ==> r == L.nameText(e.name, tabs)
    ensures e.IntConst? ==> IsCanonicalIntText(r) && IntValue(r) == e.integer as int
    ensures e.BoolConst? ==> r == (if e.truth then "true" else "false")
    ensures e.Paren? || e.IsInvocation() || e.Binary? || e.Ternary? ==> |r| >= 2 && r[|r| - 1] == ')'
    ensures e.Paren? || e.Cast? || e.Binary? || e.Ternary? ==> |r| > 0 && r[0] == '('
    ensures e.CallNoArgs? ==> r == e.id + "()"
    ensures e.Call? ==> r == e.id + "(" + L.argsText(e.args, tabs) + ")"
    ensures e.Paren? ==> r == "(" + Render(e.inner, tabs, L) + ")"
    ensures e.Cast? ==> r == "(" + L.typeText(e.target, tabs) + ") " + Render(e.operand, tabs, L)
    ensures e.Binary? ==>
      r == "(" + Render(e.left, tabs, L) + " " + L.lexemeText(e.op, tabs) + " " + Render(e.right, tabs, L) + ")"
    ensures e.Not? ==> r == "~" + Render(e.operand, tabs, L)
    ensures e.Neg? ==> r == "-" + Render(e.operand, tabs, L)
    ensures e.Pos? ==> r == "+" + Render(e.operand, tabs, L)
  {
    match e
    case Ref(name) => L.nameText(name, tabs)
    case CallNoArgs(id) => id + "()"
    case Call(id, args) => id + "(" + L.argsText(args, tabs) + ")"
    case IntConst(integer) =>
      IntTextRoundTrip(integer as int);
      IntText(integer as int)
    case CharConst(character) => character
    case StrConst(text) => text
    case FloatConst(floatingPoint) => L.doubleText(floatingPoint)
    case BoolConst(truth) => if truth then "true" else "false"
    case Paren(inner) => "(" + Render(inner, tabs, L) + ")"
    case Not(operand) => "~" + Render(operand, tabs, L)
    case Neg(operand) => "-" + Render(operand, tabs, L)
    case Pos(operand) => "+" + Render(operand, tabs, L)
    case Cast(target, operand) => "(" + L.typeText(target, tabs) + ") " + Render(operand, tabs, L)
    case Binary(left, op, right) =>
      "(" + Render(left, tabs, L) + " " + L.lexemeText(op, tabs) + " " + Render(right, tabs, L) + ")"
    case Ternary(cond, ifTrue, ifFalse) =>
      "(" + Render(cond, tabs, L) + ") ? " + Render(ifTrue, tabs, L) + " : " + Render(ifFalse, tabs, L) + ")"
  }

  /** Number of ternary nodes in `e`. */
  function Ternaries(e: Expr): nat {
    match e
    case Paren(inner) => Ternaries(inner)
    case Not(operand) => Ternaries(operand)
    case Neg(operand) => Ternaries(operand)
    case Pos(operand) => Ternaries(operand)
    case Cast(_, operand) => Ternaries(operand)
    case Binary(left, _, right) => Ternaries(left) + Ternaries(right)
    case Ternary(cond, ifTrue, ifFalse) => 1 + Ternaries(cond) + Ternaries(ifTrue) + Ternaries(ifFalse)
    case _ => 0
  }

  /** Every piece of text in `e` that does not come from a node's own
      punctuation (identifiers, literal spellings, lexemes, argument lists)
      has as many opening as closing parentheses. */
  ghost predicate BalancedLeaves(e: Expr, tabs: int, L: Layout) {
    match e
    case Ref(name) => Imbalance(L.nameText(name, tabs)) == 0
    case CallNoArgs(id) => Imbalance(id) == 0
    case Call(id, args) => Imbalance(id) == 0 && Imbalance(L.argsText(args, tabs)) == 0
    case IntConst(_) => true
    case CharConst(character) => Imbalance(character) == 0
    case StrConst(text) => Imbalance(text) == 0
    case FloatConst(floatingPoint) => Imbalance(L.doubleText(floatingPoint)) == 0
    case BoolConst(_) => true
    case Paren(inner) => BalancedLeaves(inner, tabs, L)
    case Not(operand) => BalancedLeaves(operand, tabs, L)
    case Neg(operand) => BalancedLeaves(operand, tabs, L)
    case Pos(operand) => BalancedLeaves(operand, tabs, L)
    case Cast(target, operand) => Imbalance(L.typeText(target, tabs)) == 0 && BalancedLeaves(operand, tabs, L)
    case Binary(left, op, right) =>
      && BalancedLeaves(left, tabs, L)
      && Imbalance(L.lexemeText(op, tabs)) == 0
      && BalancedLeaves(right, tabs, L)
    case Ternary(cond, ifTrue, ifFalse) =>
      BalancedLeaves(cond, tabs, L) && BalancedLeaves(ifTrue, tabs, L) && BalancedLeaves(ifFalse, tabs, L)
  }

  /** The imbalance of each piece of punctuation the renderer emits. */
  lemma Punctuation()
    ensures Imbalance("(") == -1 && Imbalance(")") == 1
    ensures Imbalance(" ") == 0 && Imbalance(" : ") == 0 && Imbalance(") ? ") == 1
    ensures Imbalance("~") == 0 && Imbalance("-") == 0 && Imbalance("+") == 0
    ensures Imbalance(") ") == 1 && Imbalance("()") == 0
    ensures Imbalance("true") == 0 && Imbalance("false") == 0
  {
    OneChar('('); OneChar(')'); OneChar(' '); OneChar('~'); OneChar('-'); OneChar('+');
    NoParens(" : "); NoParens(" ? "); NoParens("true"); NoParens("false");
    assert ") ? " == ")" + " ? ";
    ImbalanceConcat(")", " ? ");
    assert ") " == ")" + " ";
    ImbalanceConcat(")", " ");
    assert "()" == "(" + ")";
    ImbalanceConcat("(", ")");
  }

  lemma Wrapped(open: string, mid: string, close: string)
    ensures Imbalance(open + mid + close) == Imbalance(open) + Imbalance(mid) + Imbalance(close)
  {
    ImbalanceConcat(open, mid);
    ImbalanceConcat(open + mid, close);
  }

  lemma BinaryText(a: string, o: string, b: string)
    ensures Imbalance("(" + a + " " + o + " " + b + ")") == Imbalance(a) + Imbalance(o) + Imbalance(b)
  {
    Punctuation();
    Wrapped(a, " ", o);
    Wrapped(a + " " + o, " ", b);
    var mid := a + " " + o + " " + b;
    assert "(" + a + " " + o + " " + b + ")" == "(" + mid + ")";
    Wrapped("(", mid, ")");
  }

  lemma TernaryText(c: string, x: string, y: string)
    ensures Imbalance("(" + c + ") ? " + x + " : " + y + ")") == 1 + Imbalance(c) + Imbalance(x) + Imbalance(y)
  {
    Punctuation();
    Wrapped("(", c, ") ? ");
    Wrapped("(" + c + ") ? ", x, " : ");
    Wrapped("(" + c + ") ? " + x + " : ", y, ")");
  }

  /** Every node's punctuation is balanced except the ternary's, which
      closes one parenthesis more than it opens. So a rendering is balanced
      exactly when the expression holds no ternary. */
  lemma {:induction false} RenderImbalance(e: Expr, tabs: int, L: Layout)
    requires BalancedLeaves(e, tabs, L)
    ensures Imbalance(Render(e, tabs, L)) == Ternaries(e)
  {
    Punctuation();
    match e
    case Ref(_) =>
    case CallNoArgs(id) =>
      ImbalanceConcat(id, "()");
    case Call(id, args) =>
      Wrapped(id + "(", L.argsText(args, tabs), ")");
      ImbalanceConcat(id, "(");
    case IntConst(_) =>
    case CharConst(_) =>
    case StrConst(_) =>
    case FloatConst(_) =>
    case BoolConst(truth) =>
    case Paren(inner) =>
      RenderImbalance(inner, tabs, L);
      Wrapped("(", Render(inner, tabs, L), ")");
    case Not(operand) =>
      RenderImbalance(operand, tabs, L);
      ImbalanceConcat("~", Render(operand, tabs, L));
    case Neg(operand) =>
      RenderImbalance(operand, tabs, L);
      ImbalanceConcat("-", Render(operand, tabs, L));
    case Pos(operand) =>
      RenderImbalance(operand, tabs, L);
      ImbalanceConcat("+", Render(operand, tabs, L));
    case Cast(target, operand) =>
      RenderImbalance(operand, tabs, L);
      var ty, t := L.typeText(target, tabs), Render(operand, tabs, L);
      assert Render(e, tabs, L) == ("(" + ty + ") ") + t;
      Wrapped("(", ty, ") ");
      ImbalanceConcat("(" + ty + ") ", t);
    case Binary(left, op, right) =>
      RenderImbalance(left, tabs, L);
      RenderImbalance(right, tabs, L);
      BinaryText(Render(left, tabs, L), L.lexemeText(op, tabs), Render(right, tabs, L));
    case Ternary(cond, ifTrue, ifFalse) =>
      RenderImbalance(cond, tabs, L);
      RenderImbalance(ifTrue, tabs, L);
      RenderImbalance(ifFalse, tabs, L);
      TernaryText(Render(cond, tabs, L), Render(ifTrue, tabs, L), Render(ifFalse, tabs, L));
  }
}
