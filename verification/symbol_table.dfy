/** The two symbol tables the checker threads through its calls, and the
    scope resolution rule used for variable references. */
module SymbolTables {
  import opened Results
  import opened Tokens

  /** The variable table as the expression checker reads it: for each
      identifier, the type declared at each scope depth. */
  type Scopes = map<int, Type>
  type VarTable = map<string, Scopes>

  /** The flat method table: method name to declared return type. */
  type MethodTable = map<string, Type>

  /** The variable table as the parameter declarations write it: for each
      identifier a record from scope depth to declared type and array flag. */
  datatype FieldEntry = FieldEntry(declared: Type, isArray: bool)
  type FieldInfo = map<int, FieldEntry>
  type FieldTable = map<string, FieldInfo>

  /** `k` is the greatest recorded scope not above `scope`. */
  ghost predicate IsClosest(k: int, scope: int, recorded: set<int>) {
    && k in recorded
    && k <= scope
    && forall j :: j in recorded && j <= scope ==> j <= k
  }

  /** Every recorded scope lies above the query, so nothing is visible. */
  predicate ScopeTooHigh(scope: int, recorded: set<int>) {
    forall k :: k in recorded ==> scope < k
  }

  lemma {:induction false} MaxExists(s: set<int>)
    requires s != {}
    ensures exists m :: m in s && forall j :: j in s ==> j <= m
  {
    if forall x :: x !in s {
      assert false;
    }
    var x :| x in s;
    var rest := s - {x};
    if rest == {} {
      forall j | j in s
        ensures j <= x
      {
        assert j == x || j in rest;
      }
    } else {
      MaxExists(rest);
      var m :| m in rest && forall j :: j in rest ==> j <= m;
      var top := if x > m then x else m;
      forall j | j in s
        ensures j <= top
      {
        assert j == x || j in rest;
      }
    }
  }

  /** The scope a reference at `scope` resolves to, if any. */
  function ClosestScope(scope: int, recorded: set<int>): (k: Option<int>)
    ensures k.None? <==> ScopeTooHigh(scope, recorded)
    ensures k.Some? ==> IsClosest(k.value, scope, recorded)
  {
    var below := set j | j in recorded && j <= scope;
    if below == {} then
      assert forall j :: j in recorded ==> j !in below;
      None
    else
      MaxExists(below);
      var m :| m in below && forall j :: j in below ==> j <= m;
      assert forall j :: j in recorded && j <= scope ==> j in below;
      Some(m)
  }

  lemma ClosestIsUnique(k: int, k': int, scope: int, recorded: set<int>)
    requires IsClosest(k, scope, recorded) && IsClosest(k', scope, recorded)
    ensures k == k'
  {
  }

  /** The type recorded at the closest scope not above `scope`; the caller
      has already ruled out a scope that is too high. */
  function ClosestScopeType(scope: int, scopes: Scopes): (t: Type)
    requires !ScopeTooHigh(scope, scopes.Keys)
    ensures forall k :: IsClosest(k, scope, scopes.Keys) ==> t == scopes[k]
  {
    var k := ClosestScope(scope, scopes.Keys);
    assert forall k' :: IsClosest(k', scope, scopes.Keys) ==> k' == k.value by {
      forall k' | IsClosest(k', scope, scopes.Keys) {
        ClosestIsUnique(k', k.value, scope, scopes.Keys);
      }
    }
    scopes[k.value]
  }

  /** The record of `id`, or the empty record when `id` has none yet. */
  function Info(fields: FieldTable, id: string): FieldInfo {
    if id in fields then fields[id] else map[]
  }

  /** The field table read as the expression checker's variable table:
      same identifiers, same scopes, array flags dropped. */
  function TypeView(fields: FieldTable): (vars: VarTable)
    ensures vars.Keys == fields.Keys
    ensures forall id :: id in fields ==> vars[id].Keys == fields[id].Keys
    ensures forall id, k :: id in fields && k in fields[id] ==> vars[id][k] == fields[id][k].declared
  {
    map id | id in fields :: map k | k in fields[id] :: fields[id][k].declared
  }
}
