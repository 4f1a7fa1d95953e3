/** Method parameter declarations: a regular `T id` or an array `T id[]`,
    chained into a comma-separated list. Checking a list declares every
    parameter, left to right, at one scope depth. */
module ArgDecls {
  import opened Results
  import opened Text
  import opened Tokens
  import opened SymbolTables
  import opened Exprs

  datatype ArgDecl =
    | Regular(declared: Type, id: string)   // RegularArgDecl
    | Array(elemType: Lexeme, id: string)   // ArrayArgDecl

  /** A head declaration and an optional rest, as the parser chains them. */
  datatype ArgDeclList = ArgDeclList(head: ArgDecl, tail: Option<ArgDeclList>)

  /* ---------------------------------------------------------------- */
  /* Rendering                                                         */
  /* ---------------------------------------------------------------- */

  function RenderDecl(d: ArgDecl, tabs: int, L: Layout): (r: string)
    ensures d.Regular? ==>
      var t := L.typeText(d.declared, tabs);
      StartsWith(r, t + " ") && r[|t| + 1..] == d.id
    ensures d.Array? ==>
      && EndsWith(r, "[]")
      && r[..|r| - 2] == L.lexemeText(d.elemType, tabs) + " " + d.id
  {
    match d
    case Regular(declared, id) => L.typeText(declared, tabs) + " " + id
    case Array(elemType, id) => L.lexemeText(elemType, tabs) + " " + id + "[]"
  }

  /** An array parameter renders as the regular parameter with the same type
      text and identifier, followed by `[]`. */
  lemma ArrayExtendsRegular(elemType: Lexeme, declared: Type, id: string, tabs: int, L: Layout)
    requires L.lexemeText(elemType, tabs) == L.typeText(declared, tabs)
    ensures RenderDecl(Array(elemType, id), tabs, L) == RenderDecl(Regular(declared, id), tabs, L) + "[]"
  {
  }

  /** The declarations of `l`, in list order. */
  function Decls(l: ArgDeclList): (ds: seq<ArgDecl>)
    ensures |ds| > 0 && ds[0] == l.head
    ensures l.tail.None? <==> |ds| == 1
    decreases l
  {
    match l.tail
    case None => [l.head]
    case Some(rest) => [l.head] + Decls(rest)
  }

  function RenderList(l: ArgDeclList, tabs: int, L: Layout): (r: string)
    ensures StartsWith(r, RenderDecl(l.head, tabs, L))
    ensures l.tail.None? ==> r == RenderDecl(l.head, tabs, L)
    ensures l.tail.Some? ==>
      r[|RenderDecl(l.head, tabs, L)|..] == ", " + RenderList(l.tail.value, tabs, L)
    decreases l
  {
    RenderDecl(l.head, tabs, L) + (if l.tail.None? then "" else ", " + RenderList(l.tail.value, tabs, L))
  }

  function RenderAll(ds: seq<ArgDecl>, tabs: int, L: Layout): (rs: seq<string>)
    ensures |rs| == |ds|
    ensures forall i :: 0 <= i < |ds| ==> rs[i] == RenderDecl(ds[i], tabs, L)
  {
    if |ds| == 0 then [] else [RenderDecl(ds[0], tabs, L)] + RenderAll(ds[1..], tabs, L)
  }

  lemma RenderAllCons(l: ArgDeclList, rest: ArgDeclList, tabs: int, L: Layout)
    requires l.tail == Some(rest)
    ensures RenderAll(Decls(l), tabs, L) == [RenderDecl(l.head, tabs, L)] + RenderAll(Decls(rest), tabs, L)
  {
    assert Decls(l)[1..] == Decls(rest);
  }

  lemma JoinCons(sep: string, x: string, xs: seq<string>)
    requires |xs| > 0
    ensures Join(sep, [x] + xs) == x + sep + Join(sep, xs)
  {
    assert ([x] + xs)[1..] == xs;
  }

  /** A list renders as its declarations, in order, joined by ", ". */
  lemma {:induction false} RenderListIsJoin(l: ArgDeclList, tabs: int, L: Layout)
    ensures RenderList(l, tabs, L) == Join(", ", RenderAll(Decls(l), tabs, L))
    decreases l
  {
    match l.tail
    case None =>
    case Some(rest) =>
      RenderListIsJoin(rest, tabs, L);
      RenderAllCons(l, rest, tabs, L);
      JoinCons(", ", RenderDecl(l.head, tabs, L), RenderAll(Decls(rest), tabs, L));
  }

  /* ---------------------------------------------------------------- */
  /* Declaration                                                       */
  /* ---------------------------------------------------------------- */

  /** Declares a regular parameter: an identifier with no record first gets
      an empty one; a second declaration at the very same scope is an
      error; otherwise the entry is added with the array flag off. */
  function DeclareRegular(declared: Type, id: string, scope: int, fields: FieldTable): (r: Result<FieldTable, CheckError>)
    ensures r.Failure? <==> scope in Info(fields, id)
    ensures r.Failure? ==> r.error == Redeclaration(id, scope)
    ensures r.Success? ==> r.value.Keys == fields.Keys + {id}
    ensures r.Success? ==>
      && r.value[id].Keys == Info(fields, id).Keys + {scope}
      && r.value[id][scope] == FieldEntry(declared, false)
      && forall k :: k in Info(fields, id) ==> r.value[id][k] == fields[id][k]
    ensures r.Success? ==> forall x :: x in fields && x != id ==> r.value[x] == fields[x]
  {
    var info := Info(fields, id);
    if scope in info then Failure(Redeclaration(id, scope))
    else Success(fields[id := info[scope := FieldEntry(declared, false)]])
  }

  /** How an array parameter is declared. `ArrayArgDecl` defines no
      `typeCheck`, so the rule is a parameter of the list check. */
  type ArrayRule = (Lexeme, string, int, FieldTable) -> Result<FieldTable, CheckError>

  function DeclareArg(d: ArgDecl, scope: int, fields: FieldTable, arrayRule: ArrayRule): Result<FieldTable, CheckError> {
    match d
    case Regular(declared, id) => DeclareRegular(declared, id, scope, fields)
    case Array(elemType, id) => arrayRule(elemType, id, scope, fields)
  }

  /** Declares the head, then the rest, all at `scope`; the first failure
      ends the check. */
  function DeclareList(l: ArgDeclList, scope: int, fields: FieldTable, arrayRule: ArrayRule): (r: Result<FieldTable, CheckError>)
    ensures DeclareArg(l.head, scope, fields, arrayRule).Failure? ==> r == DeclareArg(l.head, scope, fields, arrayRule)
    ensures l.tail.None? ==> r == DeclareArg(l.head, scope, fields, arrayRule)
    decreases l
  {
    var afterHead :- DeclareArg(l.head, scope, fields, arrayRule);
    match l.tail
    case None => Success(afterHead)
    case Some(rest) => DeclareList(rest, scope, afterHead, arrayRule)
  }

  /** Reference: declares a sequence of parameters one after another. */
  function DeclareAll(ds: seq<ArgDecl>, scope: int, fields: FieldTable, arrayRule: ArrayRule): Result<FieldTable, CheckError> {
    if |ds| == 0 then Success(fields)
    else
      var next :- DeclareArg(ds[0], scope, fields, arrayRule);
      DeclareAll(ds[1..], scope, next, arrayRule)
  }

  /** The list check is the in-order declaration of its parameters. */
  lemma {:induction false} DeclareListInOrder(l: ArgDeclList, scope: int, fields: FieldTable, arrayRule: ArrayRule)
    ensures DeclareList(l, scope, fields, arrayRule) == DeclareAll(Decls(l), scope, fields, arrayRule)
    decreases l
  {
    var ds := Decls(l);
    var first := DeclareArg(l.head, scope, fields, arrayRule);
    if first.Success? {
      match l.tail
      case None =>
        assert ds[1..] == [];
      case Some(rest) =>
        assert ds[1..] == Decls(rest);
        DeclareListInOrder(rest, scope, first.value, arrayRule);
    }
  }

  predicate AllRegular(ds: seq<ArgDecl>) {
    forall i :: 0 <= i < |ds| ==> ds[i].Regular?
  }

  predicate DistinctIds(ds: seq<ArgDecl>) {
    forall i, j :: 0 <= i < j < |ds| ==> ds[i].id != ds[j].id
  }

  /** No parameter name is already declared at `scope`. */
  predicate FreshAt(ds: seq<ArgDecl>, scope: int, fields: FieldTable) {
    forall i :: 0 <= i < |ds| ==> scope !in Info(fields, ds[i].id)
  }

  /** The names a sequence of parameters declares. */
  function Ids(ds: seq<ArgDecl>): (r: set<string>)
    ensures forall x :: x in r <==> exists i :: 0 <= i < |ds| && ds[i].id == x
  {
    set i | 0 <= i < |ds| :: ds[i].id
  }

  /** The names of a nonempty sequence: its head's and its tail's. */
  lemma IdsCons(ds: seq<ArgDecl>)
    requires |ds| > 0
    ensures Ids(ds) == {ds[0].id} + Ids(ds[1..])
  {
    forall x | x in Ids(ds) ensures x == ds[0].id || x in Ids(ds[1..]) {
      var i :| 0 <= i < |ds| && ds[i].id == x;
      if i > 0 { assert ds[1..][i - 1] == ds[i]; }
    }
    forall x | x in Ids(ds[1..]) ensures x in Ids(ds) {
      var i :| 0 <= i < |ds[1..]| && ds[1..][i].id == x;
      assert ds[i + 1] == ds[1..][i];
    }
  }

  /** After a successful declaration of regular parameters, the table holds
      exactly the old names and the parameter names, and each name's scopes
      are its old scopes plus `scope` exactly when it is a parameter. */
  lemma {:induction false} RegularTableShape(ds: seq<ArgDecl>, scope: int, fields: FieldTable, arrayRule: ArrayRule)
    requires AllRegular(ds)
    ensures var r := DeclareAll(ds, scope, fields, arrayRule);
      r.Success? ==>
        && r.value.Keys == fields.Keys + Ids(ds)
        && forall x :: x in r.value ==>
             r.value[x].Keys == Info(fields, x).Keys + (if x in Ids(ds) then {scope} else {})
    decreases |ds|
  {
    if |ds| > 0 {
      var d := ds[0];
      var rest := ds[1..];
      var first := DeclareRegular(d.declared, d.id, scope, fields);
      assert DeclareArg(d, scope, fields, arrayRule) == first;
      if first.Success? {
        var t1 := first.value;
        assert AllRegular(rest);
        RegularTableShape(rest, scope, t1, arrayRule);
        var r := DeclareAll(ds, scope, fields, arrayRule);
        assert r == DeclareAll(rest, scope, t1, arrayRule);
        if r.Success? {
          IdsCons(ds);
          forall x | x in r.value
            ensures r.value[x].Keys == Info(fields, x).Keys + (if x in Ids(ds) then {scope} else {})
          {
            assert Info(t1, x).Keys == Info(fields, x).Keys + (if x == d.id then {scope} else {});
          }
        }
      }
    }
  }

  /** `ds[i]` is the first parameter that cannot be declared: those before
      it are distinct and fresh at `scope`, and it repeats an earlier one or
      a name already declared at `scope`. */
  predicate FirstOffender(ds: seq<ArgDecl>, i: int, scope: int, fields: FieldTable) {
    && 0 <= i < |ds|
    && DistinctIds(ds[..i])
    && FreshAt(ds[..i], scope, fields)
    && (scope in Info(fields, ds[i].id) || exists j :: 0 <= j < i && ds[j].id == ds[i].id)
  }

  /** A first offender after a successfully declared head is the first
      offender of the whole sequence, one place further on. */
  lemma OffenderAfterHead(d: ArgDecl, rest: seq<ArgDecl>, k: int, scope: int, fields: FieldTable)
    requires d.Regular? && DeclareRegular(d.declared, d.id, scope, fields).Success?
    requires FirstOffender(rest, k, scope, DeclareRegular(d.declared, d.id, scope, fields).value)
    ensures FirstOffender([d] + rest, k + 1, scope, fields)
  {
    var t1 := DeclareRegular(d.declared, d.id, scope, fields).value;
    var ds := [d] + rest;
    var i := k + 1;
    assert ds[i] == rest[k];
    assert ds[..i] == [d] + rest[..k];
    forall j | 0 <= j < k ensures rest[j].id != d.id && scope !in Info(fields, rest[j].id) {
      assert scope !in Info(t1, rest[..k][j].id);
    }
    assert DistinctIds(ds[..i]) by {
      forall a, b | 0 <= a < b < i ensures ds[..i][a].id != ds[..i][b].id {
        assert ds[..i][b] == rest[..k][b - 1];
        if a > 0 { assert ds[..i][a] == rest[..k][a - 1]; }
      }
    }
    assert FreshAt(ds[..i], scope, fields) by {
      forall a | 0 <= a < i ensures scope !in Info(fields, ds[..i][a].id) {
        if a > 0 { assert ds[..i][a] == rest[..k][a - 1]; }
      }
    }
    if scope in Info(t1, rest[k].id) {
      if rest[k].id == d.id {
        assert ds[0].id == ds[i].id;
      }
    } else {
      var j :| 0 <= j < k && rest[j].id == rest[k].id;
      assert ds[j + 1].id == ds[i].id;
    }
  }

  /** A failed declaration of regular parameters reports its first
      offender. */
  lemma {:induction false} RegularFirstOffender(ds: seq<ArgDecl>, scope: int, fields: FieldTable, arrayRule: ArrayRule)
    requires AllRegular(ds)
    ensures var r := DeclareAll(ds, scope, fields, arrayRule);
      r.Failure? ==>
        exists i :: FirstOffender(ds, i, scope, fields) && r.error == Redeclaration(ds[i].id, scope)
    decreases |ds|
  {
    if |ds| > 0 {
      var d := ds[0];
      var rest := ds[1..];
      var first := DeclareRegular(d.declared, d.id, scope, fields);
      assert DeclareArg(d, scope, fields, arrayRule) == first;
      var r := DeclareAll(ds, scope, fields, arrayRule);
      if first.Failure? {
        assert ds[..0] == [];
        assert FirstOffender(ds, 0, scope, fields);
      } else {
        assert AllRegular(rest);
        RegularFirstOffender(rest, scope, first.value, arrayRule);
        assert r == DeclareAll(rest, scope, first.value, arrayRule);
        if r.Failure? {
          var k :| FirstOffender(rest, k, scope, first.value) && r.error == Redeclaration(rest[k].id, scope);
          OffenderAfterHead(d, rest, k, scope, fields);
          assert ds == [d] + rest;
          assert ds[k + 1] == rest[k];
        }
      }
    }
  }

  /** Declaring regular parameters succeeds exactly when their names are
      pairwise distinct and fresh at `scope`; a failure names one of them. A
      success records each at `scope` and keeps every earlier entry. */
  lemma {:induction false} RegularSuccess(ds: seq<ArgDecl>, scope: int, fields: FieldTable, arrayRule: ArrayRule)
    requires AllRegular(ds)
    ensures var r := DeclareAll(ds, scope, fields, arrayRule);
      r.Success? <==> DistinctIds(ds) && FreshAt(ds, scope, fields)
    ensures var r := DeclareAll(ds, scope, fields, arrayRule);
      r.Failure? ==> exists i :: 0 <= i < |ds| && r.error == Redeclaration(ds[i].id, scope)
    ensures var r := DeclareAll(ds, scope, fields, arrayRule);
      r.Success? ==> forall i :: 0 <= i < |ds| ==>
        ds[i].id in r.value && scope in r.value[ds[i].id] && r.value[ds[i].id][scope] == FieldEntry(ds[i].declared, false)
    ensures var r := DeclareAll(ds, scope, fields, arrayRule);
      r.Success? ==> forall x, k :: x in fields && k in fields[x] ==>
        x in r.value && k in r.value[x] && r.value[x][k] == fields[x][k]
    decreases |ds|
  {
    if |ds| > 0 {
      var d := ds[0];
      var rest := ds[1..];
      var first := DeclareRegular(d.declared, d.id, scope, fields);
      assert DeclareArg(d, scope, fields, arrayRule) == first;
      if first.Failure? {
        assert !FreshAt(ds, scope, fields);
      } else {
        var t1 := first.value;
        RegularSuccess(rest, scope, t1, arrayRule);
        assert AllRegular(rest);
        // freshness of the rest in t1: fresh in fields and distinct from the head
        assert forall i :: 0 <= i < |rest| ==>
          (scope !in Info(t1, rest[i].id) <==> rest[i].id != d.id && scope !in Info(fields, rest[i].id));
        var r := DeclareAll(ds, scope, fields, arrayRule);
        assert r == DeclareAll(rest, scope, t1, arrayRule);
        if DistinctIds(ds) && FreshAt(ds, scope, fields) {
          assert DistinctIds(rest) && FreshAt(rest, scope, t1) by {
            forall i | 0 <= i < |rest|
              ensures rest[i].id != d.id
            {
              assert ds[0].id != ds[i + 1].id;
            }
            forall i | 0 <= i < |rest|
              ensures scope !in Info(fields, rest[i].id)
            {
              assert rest[i] == ds[i + 1];
            }
          }
        }
        if r.Success? {
          assert DistinctIds(ds) && FreshAt(ds, scope, fields) by {
            forall i, j | 0 <= i < j < |ds|
              ensures ds[i].id != ds[j].id
            {
              assert ds[j] == rest[j - 1];
              if i > 0 { assert ds[i] == rest[i - 1]; }
            }
            forall i | 0 <= i < |ds|
              ensures scope !in Info(fields, ds[i].id)
            {
              if i > 0 { assert ds[i] == rest[i - 1]; }
            }
          }
          forall i | 0 <= i < |ds|
            ensures ds[i].id in r.value && scope in r.value[ds[i].id]
            ensures r.value[ds[i].id][scope] == FieldEntry(ds[i].declared, false)
          {
            if i > 0 { assert ds[i] == rest[i - 1]; }
          }
        } else {
          var i :| 0 <= i < |rest| && r.error == Redeclaration(rest[i].id, scope);
          assert rest[i] == ds[i + 1];
        }
      }
    }
  }

  /** Declaring regular parameters succeeds exactly when their names are
      pairwise distinct and none is declared at `scope` yet. A failure is a
      redeclaration, at `scope`, of the first parameter that cannot be
      declared. A success records each parameter at `scope` with its type,
      adds no other name or scope, and keeps every earlier entry. */
  lemma DeclareAllRegular(ds: seq<ArgDecl>, scope: int, fields: FieldTable, arrayRule: ArrayRule)
    requires AllRegular(ds)
    ensures var r := DeclareAll(ds, scope, fields, arrayRule);
      r.Success? <==> DistinctIds(ds) && FreshAt(ds, scope, fields)
    ensures var r := DeclareAll(ds, scope, fields, arrayRule);
      r.Failure? ==>
        exists i :: FirstOffender(ds, i, scope, fields) && r.error == Redeclaration(ds[i].id, scope)
    ensures var r := DeclareAll(ds, scope, fields, arrayRule);
      r.Success? ==>
        && r.value.Keys == fields.Keys + Ids(ds)
        && forall x :: x in r.value ==>
             r.value[x].Keys == Info(fields, x).Keys + (if x in Ids(ds) then {scope} else {})
    ensures var r := DeclareAll(ds, scope, fields, arrayRule);
      r.Success? ==> forall i :: 0 <= i < |ds| ==>
        ds[i].id in r.value && scope in r.value[ds[i].id] && r.value[ds[i].id][scope] == FieldEntry(ds[i].declared, false)
    ensures var r := DeclareAll(ds, scope, fields, arrayRule);
      r.Success? ==> forall x, k :: x in fields && k in fields[x] ==>
        x in r.value && k in r.value[x] && r.value[x][k] == fields[x][k]
  {
    RegularSuccess(ds, scope, fields, arrayRule);
    RegularFirstOffender(ds, scope, fields, arrayRule);
    RegularTableShape(ds, scope, fields, arrayRule);
  }

  /** Two parameters with one name in a single list always make the list
      check fail with a redeclaration at the list's scope. */
  lemma DuplicateIsRedeclaration(l: ArgDeclList, i: nat, j: nat, scope: int, fields: FieldTable, arrayRule: ArrayRule)
    requires AllRegular(Decls(l))
    requires i < j < |Decls(l)| && Decls(l)[i].id == Decls(l)[j].id
    ensures DeclareList(l, scope, fields, arrayRule).Failure?
    ensures DeclareList(l, scope, fields, arrayRule).error.Redeclaration?
    ensures DeclareList(l, scope, fields, arrayRule).error.scope == scope
  {
    DeclareListInOrder(l, scope, fields, arrayRule);
    DeclareAllRegular(Decls(l), scope, fields, arrayRule);
  }

  /** After a parameter is declared, a reference to it at that scope, or at
      any deeper scope with no closer declaration of the same name in
      between, resolves to the declared type. */
  lemma DeclaredParameterIsVisible(declared: Type, id: string, detail: NameDetail, scope: int, query: int,
                                   fields: FieldTable, methods: MethodTable)
    requires DeclareRegular(declared, id, scope, fields).Success?
    requires scope <= query
    requires forall k :: k in Info(fields, id) ==> !(scope < k <= query)
    ensures Check(Ref(Name(id, detail)), query, TypeView(DeclareRegular(declared, id, scope, fields).value), methods)
         == Success(Some(declared))
  {
    var vars := TypeView(DeclareRegular(declared, id, scope, fields).value);
    assert IsClosest(scope, query, vars[id].Keys);
  }

  /** Declaring `x` at scope 0 makes it visible at 0 and 2; declaring it
      again at 0 is a redeclaration; declaring it at 1 shadows it from
      scope 1 on, while scope 0 still sees the outer declaration. */
  lemma ShadowingExample(detail: NameDetail, methods: MethodTable)
    ensures Check(Ref(Name("x", detail)), 0, TypeView(map[]), methods) == Failure(Undeclared("x"))
    ensures var outer := DeclareRegular(Named("int"), "x", 0, map[]);
      && outer.Success?
      && Check(Ref(Name("x", detail)), 0, TypeView(outer.value), methods) == Success(Some(Named("int")))
      && Check(Ref(Name("x", detail)), 2, TypeView(outer.value), methods) == Success(Some(Named("int")))
      && DeclareRegular(Named("float"), "x", 0, outer.value) == Failure(Redeclaration("x", 0))
      && var inner := DeclareRegular(Named("float"), "x", 1, outer.value);
      && inner.Success?
      && Check(Ref(Name("x", detail)), 1, TypeView(inner.value), methods) == Success(Some(Named("float")))
      && Check(Ref(Name("x", detail)), 0, TypeView(inner.value), methods) == Success(Some(Named("int")))
  {
    var outer := DeclareRegular(Named("int"), "x", 0, map[]);
    DeclaredParameterIsVisible(Named("int"), "x", detail, 0, 0, map[], methods);
    DeclaredParameterIsVisible(Named("int"), "x", detail, 0, 2, map[], methods);
    DeclaredParameterIsVisible(Named("float"), "x", detail, 1, 1, outer.value, methods);
    var inner := DeclareRegular(Named("float"), "x", 1, outer.value);
    var vars := TypeView(inner.value);
    assert vars["x"].Keys == {0, 1};
    assert IsClosest(0, 0, vars["x"].Keys);
  }

  /* ---------------------------------------------------------------- */
  /* Builder                                                           */
  /* ---------------------------------------------------------------- */

  /** The array-parameter builder: each setter replaces one field. */
  datatype ArrayDeclBuilder = ArrayDeclBuilder(elemType: Option<Lexeme>, id: Option<string>) {

    function WithType(t: Lexeme): (b: ArrayDeclBuilder)
      ensures b.elemType == Some(t) && b.id == id
    {
      this.(elemType := Some(t))
    }

    function WithId(i: string): (b: ArrayDeclBuilder)
      ensures b.id == Some(i) && b.elemType == elemType
    {
      this.(id := Some(i))
    }

    /** The declaration holding exactly the fields given. A field never set
        would be Java's `null`, which this model does not represent. */
    function Build(): (d: Option<ArgDecl>)
      ensures d.Some? <==> elemType.Some? && id.Some?
      ensures d.Some? ==> d.value.Array? && d.value.elemType == elemType.value && d.value.id == id.value
    {
      if elemType.Some? && id.Some? then Some(Array(elemType.value, id.value)) else None
    }
  }

  const NewArrayDeclBuilder := ArrayDeclBuilder(None, None)

  lemma BuildKeepsFields(t: Lexeme, i: string)
    ensures NewArrayDeclBuilder.WithType(t).WithId(i).Build() == Some(Array(t, i))
    ensures NewArrayDeclBuilder.WithId(i).WithType(t).Build() == Some(Array(t, i))
  {
  }
}
