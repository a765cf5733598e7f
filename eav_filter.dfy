/**
  The filter side of the engine: `scopeWhereEav`, `applyEavOperatorFilter` and the `scopeHas*`
  scopes. Every clause they add is a `whereHas('attributeValues', …)`: the owner matches when it
  has a row whose attribute id is among the clause's ids and whose value satisfies a predicate.
*/
module EavFilter {
  import opened Wrappers
  import opened EavTypes
  import opened EavRows
  import opened EavRegistry

  /** A PHP value inside an array condition: null, a scalar (numbers as their text) or a list of them. */
  datatype Elem = NullLeaf | Leaf(s: string) | Nested(items: seq<Option<string>>)

  /** The `value` of an `{operator, value}` condition once `isset` has passed: a scalar or a list. */
  datatype Operand = Word(s: string) | Items(items: seq<Option<string>>)

  /**
    A condition as passed to `scopeWhereEav`: PHP null, a scalar, or an array whose entries keep
    their insertion order (list keys written as their decimal text).
  */
  datatype Condition = NullCond | Plain(s: string) | Arr(entries: seq<(string, Elem)>)

  /**
    What `where('value', …)` binds: a text, NULL, or the `false` that `head()` gives for an array
    without a leaf, which PDO sends as the integer 0.
  */
  datatype Binding = TextBind(s: string) | NullBind | FalseBind

  datatype Comparison = Gt | Ge | Lt | Le

  /** What a clause asks of the `value` column of a row. */
  datatype ValuePred =
    | AnyValue                                 // only the attribute_id constraint
    | IsNull
    | NotNull
    | Eq(b: Binding)
    | Contains(s: string)
    | StartsWith(s: string)
    | EndsWith(s: string)
    | Compare(cmp: Comparison, b: Binding)
    | InList(items: seq<Option<string>>)
    | NotInList(items: seq<Option<string>>)
    | Between(lo: Option<string>, hi: Option<string>)
    | NotBetween(lo: Option<string>, hi: Option<string>)

  /** `whereHas('attributeValues', fn ($q) => $q->whereIn('attribute_id', attrs) + pred)`. */
  datatype Clause = HasRow(attrs: seq<nat>, pred: ValuePred)

  // ---------------------------------------------------------------------------------------------
  // Strings as the database compares them

  function LowerChar(c: char): (d: char)
    ensures 'A' <= c <= 'Z' ==> d as int == c as int + 32
    ensures !('A' <= c <= 'Z') ==> d == c
  {
    if 'A' <= c <= 'Z' then (c as int + 32) as char else c
  }

  /** `strtolower`: ASCII letters only. */
  function Lower(s: string): (r: string)
    ensures |r| == |s|
    ensures forall i :: 0 <= i < |s| ==> r[i] == LowerChar(s[i])
  {
    if s == [] then [] else [LowerChar(s[0])] + Lower(s[1..])
  }

  lemma {:induction false} LowerIdempotent(s: string)
    ensures Lower(Lower(s)) == Lower(s)
  {
    var l := Lower(s);
    assert forall i :: 0 <= i < |l| ==> LowerChar(l[i]) == l[i];
  }

  /** Lexicographic order by character code. */
  predicate LexLe(a: string, b: string)
  {
    a == [] || (b != [] && (a[0] < b[0] || (a[0] == b[0] && LexLe(a[1..], b[1..]))))
  }

  predicate LexLt(a: string, b: string) {
    !LexLe(b, a)
  }

  /** `p` occurs in `s` at position i. */
  predicate OccursAt(p: string, s: string, i: nat) {
    i + |p| <= |s| && s[i..i + |p|] == p
  }

  predicate IsSubstring(p: string, s: string) {
    exists i: nat | i <= |s| :: OccursAt(p, s, i)
  }

  /** How PHP interpolates a value into `"%$value%"`: an array becomes the word "Array". */
  function Interpolate(v: Operand): string {
    match v
    case Word(s) => s
    case Items(_) => "Array"
  }

  /** `value cmp s` on two non-null strings. */
  predicate CompareHolds(cmp: Comparison, value: string, s: string) {
    match cmp
    case Gt => LexLt(s, value)
    case Ge => LexLe(s, value)
    case Lt => LexLt(value, s)
    case Le => LexLe(value, s)
  }

  /**
    The text the `value` column compares a binding with: the integer 0 of `false` takes the
    column's TEXT affinity and compares as "0" (SQLite's rule); NULL compares with nothing.
  */
  function BindText(b: Binding): (r: Option<string>)
    ensures r.None? <==> b.NullBind?
    ensures b.FalseBind? ==> r == Some("0")
  {
    match b
    case TextBind(s) => Some(s)
    case NullBind => None
    case FalseBind => Some("0")
  }

  /**
    Whether a row's value satisfies a predicate under SQL's three-valued logic: NULL on either
    side of a comparison selects nothing, `NOT IN` a list holding NULL is never true, and
    `NOT BETWEEN lo AND hi` is `value < lo OR value > hi`.
  */
  predicate Sat(p: ValuePred, v: Option<string>) {
    match p
    case AnyValue => true
    case IsNull => v.None?
    case NotNull => v.Some?
    case Eq(b) => v.Some? && BindText(b) == v
    case Contains(s) => v.Some? && IsSubstring(s, v.value)
    case StartsWith(s) => v.Some? && |s| <= |v.value| && v.value[..|s|] == s
    case EndsWith(s) => v.Some? && |s| <= |v.value| && v.value[|v.value| - |s|..] == s
    case Compare(cmp, b) =>
      v.Some? && BindText(b).Some? && CompareHolds(cmp, v.value, BindText(b).value)
    case InList(xs) => v.Some? && v in xs
    case NotInList(xs) => xs == [] || (None !in xs && v.Some? && v !in xs)
    case Between(lo, hi) =>
      v.Some? && lo.Some? && hi.Some? && LexLe(lo.value, v.value) && LexLe(v.value, hi.value)
    case NotBetween(lo, hi) =>
      v.Some? && ((lo.Some? && LexLt(v.value, lo.value)) || (hi.Some? && LexLt(hi.value, v.value)))
  }

  // ---------------------------------------------------------------------------------------------
  // Translating conditions

  /** `$array[$key]`: the entry stored under `key`, if any. */
  function Lookup(entries: seq<(string, Elem)>, key: string): (r: Option<Elem>)
    ensures r.None? <==> forall i :: 0 <= i < |entries| ==> entries[i].0 != key
    ensures r.Some? ==> (key, r.value) in entries
  {
    if entries == [] then None
    else if entries[0].0 == key then Some(entries[0].1)
    else
      assert forall i :: 1 <= i < |entries| ==> entries[i] == entries[1..][i - 1];
      Lookup(entries[1..], key)
  }

  /** `isset` on one key: present and not null. */
  predicate IsSet(x: Option<Elem>) {
    x.Some? && !x.value.NullLeaf?
  }

  /** `is_array($condition) && isset($condition['operator'], $condition['value'])`. */
  predicate IsOperatorPair(c: Condition) {
    c.Arr? && IsSet(Lookup(c.entries, "operator")) && IsSet(Lookup(c.entries, "value"))
  }

  /**
    An operator pair whose operator is itself an array: `applyEavOperatorFilter` declares
    `string $operator`, so such a condition raises a TypeError instead of adding a clause.
  */
  predicate ArrayOperator(c: Condition) {
    IsOperatorPair(c) && Lookup(c.entries, "operator").value.Nested?
  }

  /** `$condition['operator']` of an operator pair. */
  function PairOperator(c: Condition): string
    requires IsOperatorPair(c) && !ArrayOperator(c)
  {
    Lookup(c.entries, "operator").value.s
  }

  /** `$condition['value']` of an operator pair. */
  function PairOperand(c: Condition): Operand
    requires IsOperatorPair(c)
  {
    var x := Lookup(c.entries, "value").value;
    if x.Nested? then Items(x.items) else Word(x.s)
  }

  /** The leaves one entry contributes to `Arr::flatten`, nulls included. */
  function ElemLeaves(x: Elem): seq<Option<string>> {
    match x
    case NullLeaf => [None]
    case Leaf(s) => [Some(s)]
    case Nested(xs) => xs
  }

  /** `Arr::flatten` of an array condition: the leaves of its entries, in key order. */
  function Flatten(entries: seq<(string, Elem)>): (r: seq<Option<string>>)
    ensures r == [] <==> forall i :: 0 <= i < |entries| ==> ElemLeaves(entries[i].1) == []
  {
    if entries == [] then []
    else
      assert forall i :: 1 <= i < |entries| ==> entries[i] == entries[1..][i - 1];
      ElemLeaves(entries[0].1) + Flatten(entries[1..])
  }

  /** `head()` of flattened leaves: `false` when there is none, else the first leaf, null included. */
  function FirstBinding(leaves: seq<Option<string>>): (b: Binding)
    ensures b.FalseBind? <==> leaves == []
    ensures b.NullBind? <==> leaves != [] && leaves[0].None?
    ensures b.TextBind? ==> leaves[0] == Some(b.s)
  {
    if leaves == [] then FalseBind
    else if leaves[0].None? then NullBind
    else TextBind(leaves[0].value)
  }

  /**
    `$q->where('value', $condition)`: null becomes `whereNull`, a scalar binds itself and an array
    binds the head of its flattened leaves.
  */
  function PlainPred(c: Condition): (p: ValuePred)
    ensures c.NullCond? ==> p == IsNull
    ensures c.Plain? ==> p == Eq(TextBind(c.s))
    ensures c.Arr? ==> p == Eq(FirstBinding(Flatten(c.entries)))
  {
    match c
    case NullCond => IsNull
    case Plain(s) => Eq(TextBind(s))
    case Arr(entries) => Eq(FirstBinding(Flatten(entries)))
  }

  /**
    The rows the plain branch selects: a null condition those whose value is NULL, a scalar those
    holding it, an array without a leaf those holding "0", and otherwise those holding the first
    flattened leaf, so none when that leaf is null.
  */
  lemma PlainMeaning(c: Condition, v: Option<string>)
    ensures c.NullCond? ==> (Sat(PlainPred(c), v) <==> v.None?)
    ensures c.Plain? ==> (Sat(PlainPred(c), v) <==> v == Some(c.s))
    ensures c.Arr? && Flatten(c.entries) == [] ==> (Sat(PlainPred(c), v) <==> v == Some("0"))
    ensures c.Arr? && Flatten(c.entries) != [] ==>
              (Sat(PlainPred(c), v) <==> v.Some? && v == Flatten(c.entries)[0])
  {
  }

  /** What `where('value', $op, $value)` binds for an operand: the scalar, or the head of the list. */
  function Bind(v: Operand): Binding {
    match v
    case Word(s) => TextBind(s)
    case Items(xs) => FirstBinding(xs)
  }

  /** The operators `applyEavOperatorFilter` knows, in lower case. */
  const KnownOperators: set<string> := {
    "like", "contains", "starts_with", "ends_with", ">", "gt", ">=", "gte", "<", "lt", "<=", "lte",
    "in", "not_in", "between", "not_between", "null", "is_null", "not_null", "is_not_null"}

  /** The value predicate of `applyEavOperatorFilter($query, $id, $operator, $value)`. */
  function OperatorPred(operator: string, value: Operand): (p: ValuePred)
    ensures var op := Lower(operator);
      && (op in {"like", "contains"} ==> p == Contains(Interpolate(value)))
      && (op == "starts_with" ==> p == StartsWith(Interpolate(value)))
      && (op == "ends_with" ==> p == EndsWith(Interpolate(value)))
      && (op in {">", "gt"} ==> p == Compare(Gt, Bind(value)))
      && (op in {">=", "gte"} ==> p == Compare(Ge, Bind(value)))
      && (op in {"<", "lt"} ==> p == Compare(Lt, Bind(value)))
      && (op in {"<=", "lte"} ==> p == Compare(Le, Bind(value)))
      && (op == "in" ==> p == if value.Items? then InList(value.items) else AnyValue)
      && (op == "not_in" ==> p == if value.Items? then NotInList(value.items) else AnyValue)
      && (op == "between" ==>
            p == if value.Items? && |value.items| == 2 then Between(value.items[0], value.items[1]) else AnyValue)
      && (op == "not_between" ==>
            p == if value.Items? && |value.items| == 2 then NotBetween(value.items[0], value.items[1]) else AnyValue)
      && (op in {"null", "is_null"} ==> p == IsNull)
      && (op in {"not_null", "is_not_null"} ==> p == NotNull)
      && (op !in KnownOperators ==> p == Eq(Bind(value)))
  {
    LoweredOperatorPred(Lower(operator), value)
  }

  /** The dispatch of `applyEavOperatorFilter` on the operator once it is lower-cased. */
  function LoweredOperatorPred(op: string, value: Operand): ValuePred {
    if op == "like" || op == "contains" then Contains(Interpolate(value))
    else if op == "starts_with" then StartsWith(Interpolate(value))
    else if op == "ends_with" then EndsWith(Interpolate(value))
    else if op == ">" || op == "gt" then Compare(Gt, Bind(value))
    else if op == ">=" || op == "gte" then Compare(Ge, Bind(value))
    else if op == "<" || op == "lt" then Compare(Lt, Bind(value))
    else if op == "<=" || op == "lte" then Compare(Le, Bind(value))
    else if op == "in" then (if value.Items? then InList(value.items) else AnyValue)
    else if op == "not_in" then (if value.Items? then NotInList(value.items) else AnyValue)
    else if op == "between" then
      (if value.Items? && |value.items| == 2 then Between(value.items[0], value.items[1]) else AnyValue)
    else if op == "not_between" then
      (if value.Items? && |value.items| == 2 then NotBetween(value.items[0], value.items[1]) else AnyValue)
    else if op == "null" || op == "is_null" then IsNull
    else if op == "not_null" || op == "is_not_null" then NotNull
    else Eq(Bind(value))
  }

  /** Operators match case-insensitively. */
  lemma OperatorIgnoresCase(operator: string, value: Operand)
    ensures OperatorPred(Lower(operator), value) == OperatorPred(operator, value)
  {
    LowerIdempotent(operator);
  }

  /**
    The clause `scopeWhereEav` adds for a known attribute: the operator branch only when both
    `operator` and `value` are set (`isset` is false for null), the plain branch otherwise.
  */
  function ConditionClause(id: nat, c: Condition): (cl: Clause)
    requires !ArrayOperator(c)
    ensures cl.attrs == [id]
    ensures IsOperatorPair(c) ==> cl.pred == OperatorPred(PairOperator(c), PairOperand(c))
    ensures !IsOperatorPair(c) ==> cl.pred == PlainPred(c)
  {
    if IsOperatorPair(c) then HasRow([id], OperatorPred(PairOperator(c), PairOperand(c)))
    else HasRow([id], PlainPred(c))
  }

  /** An array without a leaf binds `false`, sent as 0: it selects the rows whose value is "0". */
  lemma EmptyArrayMatchesZero(id: nat, v: Option<string>)
    ensures Sat(ConditionClause(id, Arr([])).pred, v) <==> v == Some("0")
  {
  }

  /** An array whose first flattened leaf is null binds NULL in the plain branch and selects no row. */
  lemma NullFirstLeafMatchesNothing(id: nat, c: Condition, v: Option<string>)
    requires c.Arr? && !IsOperatorPair(c)
    requires Flatten(c.entries) != [] && Flatten(c.entries)[0].None?
    ensures !Sat(ConditionClause(id, c).pred, v)
  {
  }

  /**
    With a null `value` the operator filter is skipped and key order decides the binding:
    `['operator' => op, 'value' => null]` compares with op, while `['value' => null,
    'operator' => op]` binds NULL and selects no row.
  */
  lemma KeyOrderDecidesBinding(id: nat, operator: string, v: Option<string>)
    ensures ConditionClause(id, Arr([("operator", Leaf(operator)), ("value", NullLeaf)])).pred == Eq(TextBind(operator))
    ensures !Sat(ConditionClause(id, Arr([("value", NullLeaf), ("operator", Leaf(operator))])).pred, v)
  {
  }

  /** A null operator skips the operator filter too; leading the array, it binds NULL and selects no row. */
  lemma NullOperatorMatchesNothing(id: nat, value: Elem, v: Option<string>)
    ensures !Sat(ConditionClause(id, Arr([("operator", NullLeaf), ("value", value)])).pred, v)
  {
  }

  /** A comparison operator with an empty list operand compares with the 0 that `head([])` binds. */
  lemma EmptyListComparesWithZero(operator: string, v: Option<string>)
    requires Lower(operator) in {">", "gt", ">=", "gte", "<", "lt", "<=", "lte"}
    ensures OperatorPred(operator, Items([])).Compare?
    ensures Sat(OperatorPred(operator, Items([])), v) <==>
              v.Some? && CompareHolds(OperatorPred(operator, Items([])).cmp, v.value, "0")
  {
  }

  /** The clause one named condition of `scopeWhereEav` adds: none when the name has no definition. */
  function ConditionClauses(defs: seq<AttributeDef>, c: (string, Condition)): (cls: seq<Clause>)
    requires FindByName(defs, c.0).Some? ==> !ArrayOperator(c.1)
    ensures FindByName(defs, c.0).None? ==> cls == []
    ensures FindByName(defs, c.0).Some? ==> cls == [ConditionClause(FindByName(defs, c.0).value.id, c.1)]
  {
    match FindByName(defs, c.0)
    case None => []
    case Some(d) => [ConditionClause(d.id, c.1)]
  }

  /** No condition on a defined name has an array operator. */
  predicate TypedConditions(defs: seq<AttributeDef>, conds: seq<(string, Condition)>) {
    forall c :: c in conds && FindByName(defs, c.0).Some? ==> !ArrayOperator(c.1)
  }

  /** The clauses `scopeWhereEav` adds, in order; names without a definition are skipped. */
  function WhereEavClauses(defs: seq<AttributeDef>, conds: seq<(string, Condition)>): (cls: seq<Clause>)
    requires TypedConditions(defs, conds)
    ensures |cls| <= |conds|
  {
    if conds == [] then []
    else ConditionClauses(defs, conds[0]) + WhereEavClauses(defs, conds[1..])
  }

  /** The clauses for one more condition come after those already added. */
  lemma {:induction false} WhereEavClausesSnoc(defs: seq<AttributeDef>, conds: seq<(string, Condition)>, c: (string, Condition))
    requires TypedConditions(defs, conds + [c])
    ensures WhereEavClauses(defs, conds + [c]) == WhereEavClauses(defs, conds) + ConditionClauses(defs, c)
  {
    if conds == [] {
      assert conds + [c] == [c] && [c][1..] == [];
    } else {
      var head, tail := ConditionClauses(defs, conds[0]), conds[1..];
      assert (conds + [c])[0] == conds[0] && (conds + [c])[1..] == tail + [c];
      assert forall x :: x in tail + [c] ==> x in conds + [c];
      calc {
        WhereEavClauses(defs, conds + [c]);
        head + WhereEavClauses(defs, tail + [c]);
        { WhereEavClausesSnoc(defs, tail, c); }
        head + (WhereEavClauses(defs, tail) + ConditionClauses(defs, c));
        (head + WhereEavClauses(defs, tail)) + ConditionClauses(defs, c);
        WhereEavClauses(defs, conds) + ConditionClauses(defs, c);
      }
    }
  }

  /** After a prefix `q` and the clauses of the first i conditions come those of condition i. */
  lemma WhereEavClausesStep(defs: seq<AttributeDef>, q: seq<Clause>, conds: seq<(string, Condition)>, i: nat)
    requires i < |conds| && TypedConditions(defs, conds)
    ensures q + WhereEavClauses(defs, conds[..i]) + ConditionClauses(defs, conds[i]) == q + WhereEavClauses(defs, conds[..i + 1])
  {
    WhereEavClausesSnoc(defs, conds[..i], conds[i]);
    assert conds[..i + 1] == conds[..i] + [conds[i]];
  }

  /** `scopeHasAnyEavAttribute`: one clause over all known ids, or nothing when none is known. */
  function HasAnyClauses(defs: seq<AttributeDef>, names: seq<string>): (cls: seq<Clause>)
    ensures IdsNamed(defs, names) == [] ==> cls == []
    ensures IdsNamed(defs, names) != [] ==> cls == [HasRow(IdsNamed(defs, names), AnyValue)]
  {
    var ids := IdsNamed(defs, names);
    if ids == [] then [] else [HasRow(ids, AnyValue)]
  }

  /** The clause one name of `scopeHasAllEavAttributes` adds: none when the name has no definition. */
  function HasClause(defs: seq<AttributeDef>, name: string): (cls: seq<Clause>)
    ensures FindByName(defs, name).None? ==> cls == []
    ensures FindByName(defs, name).Some? ==> cls == [HasRow([FindByName(defs, name).value.id], AnyValue)]
  {
    match FindByName(defs, name)
    case None => []
    case Some(d) => [HasRow([d.id], AnyValue)]
  }

  /** `scopeHasAllEavAttributes`: one clause per known name. */
  function HasAllClauses(defs: seq<AttributeDef>, names: seq<string>): (cls: seq<Clause>)
    ensures |cls| <= |names|
  {
    if names == [] then [] else HasClause(defs, names[0]) + HasAllClauses(defs, names[1..])
  }

  /** The clause of one more name follows those already added. */
  lemma {:induction false} HasAllClausesSnoc(defs: seq<AttributeDef>, names: seq<string>, n: string)
    ensures HasAllClauses(defs, names + [n]) == HasAllClauses(defs, names) + HasClause(defs, n)
  {
    if names == [] {
      assert names + [n] == [n];
      assert [n][1..] == [];
    } else {
      var head, tail := HasClause(defs, names[0]), names[1..];
      assert (names + [n])[0] == names[0] && (names + [n])[1..] == tail + [n];
      calc {
        HasAllClauses(defs, names + [n]);
        head + HasAllClauses(defs, tail + [n]);
        { HasAllClausesSnoc(defs, tail, n); }
        head + (HasAllClauses(defs, tail) + HasClause(defs, n));
        (head + HasAllClauses(defs, tail)) + HasClause(defs, n);
        HasAllClauses(defs, names) + HasClause(defs, n);
      }
    }
  }

  /** After a prefix `q` and the clauses of the first i names comes the clause of name i. */
  lemma HasAllClausesStep(defs: seq<AttributeDef>, q: seq<Clause>, names: seq<string>, i: nat)
    requires i < |names|
    ensures q + HasAllClauses(defs, names[..i]) + HasClause(defs, names[i]) == q + HasAllClauses(defs, names[..i + 1])
  {
    HasAllClausesSnoc(defs, names[..i], names[i]);
    assert names[..i + 1] == names[..i] + [names[i]];
  }

  // ---------------------------------------------------------------------------------------------
  // What a query means for an owner

  /** Owner (t, e) has a row that satisfies the clause. */
  predicate Holds(rows: seq<Row<string>>, t: string, e: nat, c: Clause) {
    exists i :: 0 <= i < |rows| && Owns(rows[i], t, e) && rows[i].attributeId in c.attrs && Sat(c.pred, rows[i].value)
  }

  /** Owner (t, e) is selected by every clause of the query. */
  predicate Matches(rows: seq<Row<string>>, t: string, e: nat, q: seq<Clause>) {
    forall k :: 0 <= k < |q| ==> Holds(rows, t, e, q[k])
  }

  lemma MatchesConcat(rows: seq<Row<string>>, t: string, e: nat, q1: seq<Clause>, q2: seq<Clause>)
    ensures Matches(rows, t, e, q1 + q2) <==> Matches(rows, t, e, q1) && Matches(rows, t, e, q2)
  {
    var q := q1 + q2;
    assert forall k :: 0 <= k < |q1| ==> q[k] == q1[k];
    assert forall k :: 0 <= k < |q2| ==> q[|q1| + k] == q2[k];
    if Matches(rows, t, e, q1) && Matches(rows, t, e, q2) {
      forall k | 0 <= k < |q| ensures Holds(rows, t, e, q[k]) {
        if k >= |q1| {
          assert q[k] == q2[k - |q1|];
        }
      }
    }
  }

  /** What one condition of `scopeWhereEav` asks of owner (t, e); unknown names ask nothing. */
  predicate ConditionHolds(defs: seq<AttributeDef>, rows: seq<Row<string>>, t: string, e: nat, c: (string, Condition))
    requires FindByName(defs, c.0).Some? ==> !ArrayOperator(c.1)
  {
    FindByName(defs, c.0).Some? ==> Holds(rows, t, e, ConditionClause(FindByName(defs, c.0).value.id, c.1))
  }

  /**
    `scopeWhereEav` selects exactly the owners that, for every condition whose name is a known
    attribute, have a row of that attribute satisfying the condition.
  */
  lemma {:induction false} WhereEavMeaning(defs: seq<AttributeDef>, conds: seq<(string, Condition)>,
                                           rows: seq<Row<string>>, t: string, e: nat)
    requires TypedConditions(defs, conds)
    ensures Matches(rows, t, e, WhereEavClauses(defs, conds)) <==>
            forall c :: c in conds ==> ConditionHolds(defs, rows, t, e, c)
  {
    if conds != [] {
      var rest := conds[1..];
      assert conds == [conds[0]] + rest;
      assert forall c :: c in rest ==> c in conds;
      WhereEavMeaning(defs, rest, rows, t, e);
      var head := ConditionClauses(defs, conds[0]);
      if FindByName(defs, conds[0].0).Some? {
        assert head[0] == ConditionClause(FindByName(defs, conds[0].0).value.id, conds[0].1);
      }
      MatchesConcat(rows, t, e, head, WhereEavClauses(defs, rest));
      assert Matches(rows, t, e, head) <==> ConditionHolds(defs, rows, t, e, conds[0]);
    }
  }

  /** Adding clauses for names that are all unknown leaves every owner's selection as it was. */
  lemma UnknownNamesFilterNothing(defs: seq<AttributeDef>, conds: seq<(string, Condition)>,
                                  rows: seq<Row<string>>, t: string, e: nat, q: seq<Clause>)
    requires forall k :: 0 <= k < |conds| ==> FindByName(defs, conds[k].0).None?
    ensures Matches(rows, t, e, q + WhereEavClauses(defs, conds)) == Matches(rows, t, e, q)
  {
    UnknownNamesAddNothing(defs, conds);
    assert q + WhereEavClauses(defs, conds) == q;
  }

  /** Conditions whose names are all undefined add no clause. */
  lemma {:induction false} UnknownNamesAddNothing(defs: seq<AttributeDef>, conds: seq<(string, Condition)>)
    requires forall k :: 0 <= k < |conds| ==> FindByName(defs, conds[k].0).None?
    ensures WhereEavClauses(defs, conds) == []
  {
    if conds != [] {
      assert forall k :: 0 <= k < |conds[1..]| ==> conds[1..][k] == conds[k + 1];
      UnknownNamesAddNothing(defs, conds[1..]);
      assert FindByName(defs, conds[0].0).None?;
    }
  }

  /**
    A `null`/`is_null` filter needs a row of that attribute whose value IS NULL: an owner with no
    row for the attribute does not match it.
  */
  lemma NullFilterNeedsNullRow(rows: seq<Row<string>>, t: string, e: nat, id: nat, operator: string, value: Operand)
    requires Lower(operator) in {"null", "is_null"}
    ensures Holds(rows, t, e, HasRow([id], OperatorPred(operator, value))) <==>
            exists i :: 0 <= i < |rows| && HasKey(rows[i], id, t, e) && rows[i].value.None?
  {
  }

  /** `scopeHasAnyEavAttribute` selects the owners with a row of at least one known attribute. */
  lemma HasAnyMeaning(defs: seq<AttributeDef>, names: seq<string>, rows: seq<Row<string>>, t: string, e: nat)
    requires IdsNamed(defs, names) != []
    ensures Matches(rows, t, e, HasAnyClauses(defs, names)) <==>
            exists i :: 0 <= i < |rows| && Owns(rows[i], t, e) &&
              exists d :: d in defs && d.name in names && d.id == rows[i].attributeId
  {
    var cls := HasAnyClauses(defs, names);
    assert cls[0] == HasRow(IdsNamed(defs, names), AnyValue);
    if Matches(rows, t, e, cls) {
      assert Holds(rows, t, e, cls[0]);
    }
  }

  /** What one name of `scopeHasAllEavAttributes` asks of owner (t, e); unknown names ask nothing. */
  predicate HasNamed(defs: seq<AttributeDef>, rows: seq<Row<string>>, t: string, e: nat, name: string) {
    FindByName(defs, name).Some? ==> exists i :: 0 <= i < |rows| && HasKey(rows[i], FindByName(defs, name).value.id, t, e)
  }

  /** The clause of one name selects the owners with a row of its attribute; an undefined name selects all. */
  lemma HasClauseMeaning(defs: seq<AttributeDef>, name: string, rows: seq<Row<string>>, t: string, e: nat)
    ensures Matches(rows, t, e, HasClause(defs, name)) <==> HasNamed(defs, rows, t, e, name)
  {
    var cls := HasClause(defs, name);
    if FindByName(defs, name).Some? {
      assert cls[0] == HasRow([FindByName(defs, name).value.id], AnyValue);
    }
  }

  /** `scopeHasAllEavAttributes` selects the owners with a row of every known attribute named. */
  lemma {:induction false} HasAllMeaning(defs: seq<AttributeDef>, names: seq<string>, rows: seq<Row<string>>, t: string, e: nat)
    ensures Matches(rows, t, e, HasAllClauses(defs, names)) <==>
            forall k :: 0 <= k < |names| ==> HasNamed(defs, rows, t, e, names[k])
  {
    if names != [] {
      HasAllMeaning(defs, names[1..], rows, t, e);
      var rest := HasAllClauses(defs, names[1..]);
      var head := HasClause(defs, names[0]);
      MatchesConcat(rows, t, e, head, rest);
      if FindByName(defs, names[0]).Some? {
        assert head[0] == HasRow([FindByName(defs, names[0]).value.id], AnyValue);
      }
      assert Matches(rows, t, e, head) <==> HasNamed(defs, rows, t, e, names[0]);
      assert forall k :: 1 <= k < |names| ==> names[k] == names[1..][k - 1];
      if forall k :: 0 <= k < |names[1..]| ==> HasNamed(defs, rows, t, e, names[1..][k]) {
        if HasNamed(defs, rows, t, e, names[0]) {
          forall k | 0 <= k < |names| ensures HasNamed(defs, rows, t, e, names[k]) {
            if k > 0 { assert names[k] == names[1..][k - 1]; }
          }
        }
      }
    }
  }

  /** The query under construction; the scopes append clauses to it. */
  class Query {
    var clauses: seq<Clause>

    constructor ()
      ensures clauses == []
    {
      clauses := [];
    }

    /** `$query->whereHas('attributeValues', …)`. */
    method WhereHas(c: Clause)
      modifies this
      ensures clauses == old(clauses) + [c]
    {
      clauses := clauses + [c];
    }
  }
}
