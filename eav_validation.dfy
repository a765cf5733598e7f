/**
  The `HasAttributeValueValidation` trait: the validation rules a form request applies to the
  dynamic attributes, one rule list per attribute definition.
*/
module EavValidation {
  import opened Wrappers
  import opened EavTypes

  /** A Laravel validation rule: a rule string such as `max:255`, or `Rule::in(options)`. */
  datatype Rule = Named(text: string) | In(values: seq<string>)

  /** `empty($attribute->options)`: null options and an empty list are both empty. */
  predicate NoOptions(options: Option<seq<string>>) {
    options.None? || options.value == []
  }

  /** The rules for one definition: optional by default, then the type's own rules. */
  function RulesFor(a: AttributeDef): seq<Rule> {
    [Named("nullable")] +
    match a.kind
    case Text => [Named("string"), Named("max:255")]
    case Number => [Named("numeric")]
    case Date => [Named("date"), Named("date_format:Y-m-d")]
    case Select => if NoOptions(a.options) then [] else [In(a.options.value)]
  }

  /** buildRuleForAttribute: start with `nullable`, then append by type. */
  method BuildRuleForAttribute(a: AttributeDef) returns (rules: seq<Rule>)
    ensures rules == RulesFor(a)
  {
    rules := [];
    rules := rules + [Named("nullable")];
    match a.kind {
      case Text =>
        rules := rules + [Named("string")];
        rules := rules + [Named("max:255")];
      case Number =>
        rules := rules + [Named("numeric")];
      case Date =>
        rules := rules + [Named("date")];
        rules := rules + [Named("date_format:Y-m-d")];
      case Select =>
        if !NoOptions(a.options) {
          rules := rules + [In(a.options.value)];
        }
    }
  }

  /** Every attribute is optional: its rule list starts with `nullable` and has no other `nullable`. */
  lemma RulesStartNullable(a: AttributeDef)
    ensures |RulesFor(a)| >= 1 && RulesFor(a)[0] == Named("nullable")
    ensures forall k :: 1 <= k < |RulesFor(a)| ==> RulesFor(a)[k] != Named("nullable")
  {
  }

  /** The rule list of each type, as the switch appends it. */
  lemma RulesByType(a: AttributeDef)
    ensures a.kind == Text ==> RulesFor(a) == [Named("nullable"), Named("string"), Named("max:255")]
    ensures a.kind == Number ==> RulesFor(a) == [Named("nullable"), Named("numeric")]
    ensures a.kind == Date ==> RulesFor(a) == [Named("nullable"), Named("date"), Named("date_format:Y-m-d")]
    ensures a.kind == Select && NoOptions(a.options) ==> RulesFor(a) == [Named("nullable")]
    ensures a.kind == Select && !NoOptions(a.options) ==> RulesFor(a) == [Named("nullable"), In(a.options.value)]
  {
  }

  /** Only a SELECT with options restricts the value to a list, and the list is exactly its options. */
  lemma InRuleIffOptions(a: AttributeDef)
    ensures (exists k :: 0 <= k < |RulesFor(a)| && RulesFor(a)[k].In?) <==> a.kind == Select && !NoOptions(a.options)
    ensures forall k :: 0 <= k < |RulesFor(a)| && RulesFor(a)[k].In? ==> RulesFor(a)[k].values == a.options.value
  {
    if a.kind == Select && !NoOptions(a.options) {
      assert RulesFor(a)[1].In?;
    }
  }

  /** getAttributeValueRules over `table`: each name bound to the rules of its last definition. */
  function RulesByName(table: seq<AttributeDef>): map<string, seq<Rule>>
    decreases |table|
  {
    if table == [] then map[]
    else RulesByName(table[..|table| - 1])[table[|table| - 1].name := RulesFor(table[|table| - 1])]
  }

  /** getAttributeValueRules: one entry per definition, keyed by name, in table order. */
  method GetAttributeValueRules(table: seq<AttributeDef>) returns (rules: map<string, seq<Rule>>)
    ensures rules == RulesByName(table)
  {
    rules := map[];
    var i := 0;
    while i < |table|
      invariant 0 <= i <= |table|
      invariant rules == RulesByName(table[..i])
    {
      var r := BuildRuleForAttribute(table[i]);
      assert table[..i + 1][..i] == table[..i];
      rules := rules[table[i].name := r];
      i := i + 1;
    }
    assert table[..i] == table;
  }

  /** The rule map has exactly the attribute names as keys. */
  lemma {:induction false} RulesByNameKeys(table: seq<AttributeDef>)
    ensures forall name :: name in RulesByName(table) <==> exists i :: 0 <= i < |table| && table[i].name == name
    decreases |table|
  {
    if table != [] {
      var init := table[..|table| - 1];
      RulesByNameKeys(init);
      assert forall i :: 0 <= i < |init| ==> init[i] == table[i];
    }
  }

  /** With unique names, each attribute's name is bound to that attribute's own rule list. */
  lemma {:induction false} RulesByNameOwn(table: seq<AttributeDef>, i: nat)
    requires WellFormedDefs(table) && i < |table|
    ensures table[i].name in RulesByName(table) && RulesByName(table)[table[i].name] == RulesFor(table[i])
    decreases |table|
  {
    var n := |table| - 1;
    if i < n {
      var init := table[..n];
      assert forall j :: 0 <= j < |init| ==> init[j] == table[j];
      assert WellFormedDefs(init);
      RulesByNameOwn(init, i);
      assert table[i].name != table[n].name;
    }
  }
}
