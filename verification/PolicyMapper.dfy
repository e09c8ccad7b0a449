/**
 Saving a policy as a database row and loading it again. The rules go through
 JSON text, which has no NaN and no infinities and forgets array identities.
 */
module PolicyMapper {
  import opened Options
  import opened Conditions

  datatype Json =
    | JNull
    | JBool(bit: bool)
    | JNumber(value: real)
    | JString(text: string)
    | JArray(items: seq<Json>)
    | JObject(members: map<string, Json>)

  function Member(j: Json, name: string): Option<Json> {
    if j.JObject? && name in j.members then Some(j.members[name]) else None
  }

  datatype PolicyRule = PolicyRule(effect: Effect, condition: Condition, description: Option<string>)

  datatype Policy = Policy(
    id: string,
    name: string,
    resourceType: string,
    actions: seq<string>,
    rules: seq<PolicyRule>,
    version: int,
    createdAt: int,
    status: string,
    dslSource: Option<string>)

  datatype Row = Row(
    id: string,
    version: int,
    name: string,
    resourceType: string,
    actions: Json,
    rules: Json,
    dslSource: Option<string>,
    status: string,
    createdAt: int)

  datatype Loaded = Ok(policy: Policy) | InvalidActions | RulesNotAnArray | InvalidRule(index: nat)

  // ---- Saving --------------------------------------------------------------

  function NameOf(operator: Operator): string {
    match operator
    case Eq => "eq"
    case Neq => "neq"
    case Lt => "lt"
    case Lte => "lte"
    case Gt => "gt"
    case Gte => "gte"
    case In => "in"
    case Contains => "contains"
  }

  /** `JSON.stringify` writes null for NaN and the infinities. */
  function ScalarToJson(s: Scalar): Json {
    match s
    case Str(text) => JString(text)
    case Bool(bit) => JBool(bit)
    case Number(Finite(value)) => JNumber(value)
    case Number(_) => JNull
  }

  function ItemsToJson(items: seq<Item>): (r: seq<Json>)
    ensures |r| == |items|
  {
    if items == [] then [] else [ScalarToJson(items[0])] + ItemsToJson(items[1..])
  }

  function LiteralToJson(l: Literal): Json {
    match l
    case One(scalar) => ScalarToJson(scalar)
    case Many(_, items) => JArray(ItemsToJson(items))
  }

  function ToJson(c: Condition): Json {
    match c
    case Always => JObject(map["kind" := JString("always")])
    case Comparison(attribute, operator, literal) =>
      JObject(map["kind" := JString("comparison"), "attribute" := JString(attribute),
                  "operator" := JString(NameOf(operator)), "value" := LiteralToJson(literal)])
    case And(operands) => JObject(map["kind" := JString("and"), "operands" := JArray(AllToJson(operands))])
    case Or(operands) => JObject(map["kind" := JString("or"), "operands" := JArray(AllToJson(operands))])
    case Not(operand) => JObject(map["kind" := JString("not"), "operand" := ToJson(operand)])
  }

  function AllToJson(cs: seq<Condition>): (r: seq<Json>)
    ensures |r| == |cs|
  {
    if cs == [] then [] else [ToJson(cs[0])] + AllToJson(cs[1..])
  }

  function RuleToJson(rule: PolicyRule): Json {
    var members := map[
      "effect" := JString(if rule.effect == PERMIT then "PERMIT" else "DENY"),
      "condition" := ToJson(rule.condition)];
    JObject(if rule.description == None then members
            else members["description" := JString(rule.description.value)])
  }

  function RulesToJson(rules: seq<PolicyRule>): (r: seq<Json>)
    ensures |r| == |rules| && forall i | 0 <= i < |rules| :: r[i] == RuleToJson(rules[i])
  {
    if rules == [] then [] else [RuleToJson(rules[0])] + RulesToJson(rules[1..])
  }

  function StringsToJson(strings: seq<string>): (r: seq<Json>)
    ensures |r| == |strings| && forall i | 0 <= i < |strings| :: r[i] == JString(strings[i])
  {
    if strings == [] then [] else [JString(strings[0])] + StringsToJson(strings[1..])
  }

  function ToRow(p: Policy): Row {
    Row(p.id, p.version, p.name, p.resourceType, JArray(StringsToJson(p.actions)),
        JArray(RulesToJson(p.rules)), p.dslSource, p.status, p.createdAt)
  }

  // ---- Loading -------------------------------------------------------------

  function OperatorNamed(name: string): Option<Operator> {
    if name == "eq" then Some(Eq)
    else if name == "neq" then Some(Neq)
    else if name == "lt" then Some(Lt)
    else if name == "lte" then Some(Lte)
    else if name == "gt" then Some(Gt)
    else if name == "gte" then Some(Gte)
    else if name == "in" then Some(In)
    else if name == "contains" then Some(Contains)
    else None
  }

  predicate IsItem(j: Json) { j.JString? || j.JNumber? }

  predicate IsLiteral(j: Json) {
    j.JString? || j.JNumber? || j.JBool? ||
    (j.JArray? && forall i | 0 <= i < |j.items| :: IsItem(j.items[i]))
  }

  predicate IsComparison(j: Json) {
    var attribute, operator, value := Member(j, "attribute"), Member(j, "operator"), Member(j, "value");
    && attribute.Some? && attribute.value.JString?
    && operator.Some? && operator.value.JString? && OperatorNamed(operator.value.text).Some?
    && value.Some? && IsLiteral(value.value)
  }

  predicate IsCondition(j: Json) {
    var kind := Member(j, "kind");
    if kind == Some(JString("always")) then true
    else if kind == Some(JString("comparison")) then IsComparison(j)
    else if kind == Some(JString("and")) || kind == Some(JString("or")) then
      var operands := Member(j, "operands");
      operands.Some? && operands.value.JArray? &&
      forall i | 0 <= i < |operands.value.items| :: IsCondition(operands.value.items[i])
    else if kind == Some(JString("not")) then
      Member(j, "operand").Some? && IsCondition(Member(j, "operand").value)
    else false
  }

  /** Which new array object the parser makes at a position of the tree. */
  type Allocator = seq<nat> -> nat

  function ReadItem(j: Json): Item
    requires IsItem(j)
  {
    if j.JString? then Str(j.text) else Number(Finite(j.value))
  }

  function ReadItems(js: seq<Json>): (r: seq<Item>)
    requires forall i | 0 <= i < |js| :: IsItem(js[i])
    ensures |r| == |js|
  {
    if js == [] then [] else [ReadItem(js[0])] + ReadItems(js[1..])
  }

  function ReadLiteral(j: Json, at: seq<nat>, identities: Allocator): Literal
    requires IsLiteral(j)
  {
    match j
    case JString(text) => One(Str(text))
    case JNumber(value) => One(Number(Finite(value)))
    case JBool(bit) => One(Bool(bit))
    case JArray(items) => Many(identities(at), ReadItems(items))
  }

  /** The condition a checked JSON value is. */
  function Read(j: Json, at: seq<nat>, identities: Allocator): Condition
    requires IsCondition(j)
    decreases j, 0
  {
    var kind := Member(j, "kind").value.text;
    if kind == "always" then Always
    else if kind == "comparison" then
      Comparison(Member(j, "attribute").value.text, OperatorNamed(Member(j, "operator").value.text).value,
                 ReadLiteral(Member(j, "value").value, at, identities))
    else if kind == "not" then Not(Read(Member(j, "operand").value, at + [0], identities))
    else
      var operands := ReadAll(Member(j, "operands").value.items, at, identities);
      if kind == "and" then And(operands) else Or(operands)
  }

  /** The last condition has the last position, so a shorter list reads as a prefix. */
  function ReadAll(js: seq<Json>, at: seq<nat>, identities: Allocator): (r: seq<Condition>)
    requires forall i | 0 <= i < |js| :: IsCondition(js[i])
    ensures |r| == |js|
    decreases js
  {
    if js == [] then []
    else
      var n := |js| - 1;
      ReadAll(js[..n], at, identities) + [Read(js[n], at + [n], identities)]
  }

  predicate IsRule(j: Json) {
    var effect, condition, description := Member(j, "effect"), Member(j, "condition"), Member(j, "description");
    && (effect == Some(JString("PERMIT")) || effect == Some(JString("DENY")))
    && condition.Some? && IsCondition(condition.value)
    && (description.Some? ==> description.value.JString?)
  }

  function ReadRule(j: Json, at: seq<nat>, identities: Allocator): PolicyRule
    requires IsRule(j)
  {
    PolicyRule(
      if Member(j, "effect").value.text == "PERMIT" then PERMIT else DENY,
      Read(Member(j, "condition").value, at, identities),
      if Member(j, "description").Some? then Some(Member(j, "description").value.text) else None)
  }

  /** How many rules from the front are valid. */
  function ValidRules(js: seq<Json>): (n: nat)
    ensures n <= |js| && (n < |js| ==> !IsRule(js[n])) && forall i | 0 <= i < n :: IsRule(js[i])
  {
    if js == [] || !IsRule(js[0]) then 0
    else
      var n := ValidRules(js[1..]);
      assert forall i | 0 < i < n + 1 :: js[i] == js[1..][i - 1];
      1 + n
  }

  function ReadRules(js: seq<Json>, identities: Allocator): (r: seq<PolicyRule>)
    requires forall i | 0 <= i < |js| :: IsRule(js[i])
    ensures |r| == |js| && forall i | 0 <= i < |js| :: r[i] == ReadRule(js[i], [i], identities)
    decreases js
  {
    if js == [] then []
    else
      var n := |js| - 1;
      ReadRules(js[..n], identities) + [ReadRule(js[n], [n], identities)]
  }

  function Strings(js: seq<Json>): (r: seq<string>)
    requires forall i | 0 <= i < |js| :: js[i].JString?
    ensures |r| == |js| && forall i | 0 <= i < |js| :: r[i] == js[i].text
  {
    if js == [] then [] else [js[0].text] + Strings(js[1..])
  }

  function ToDomain(row: Row, identities: Allocator): Loaded {
    if !row.actions.JArray? || exists i | 0 <= i < |row.actions.items| :: !row.actions.items[i].JString? then
      InvalidActions
    else if !row.rules.JArray? then RulesNotAnArray
    else
      var valid := ValidRules(row.rules.items);
      if valid < |row.rules.items| then InvalidRule(valid)
      else Ok(Policy(row.id, row.name, row.resourceType, Strings(row.actions.items),
                     ReadRules(row.rules.items, identities), row.version, row.createdAt, row.status, row.dslSource))
  }

  ghost predicate StringArray(j: Json) {
    j.JArray? && forall i | 0 <= i < |j.items| :: j.items[i].JString?
  }

  /** Why a row cannot be loaded: its actions, or its rules as a whole, or the first rule that is not one. */
  lemma LoadingFailsExactly(row: Row, identities: Allocator)
    ensures var loaded, rules := ToDomain(row, identities), row.rules;
      && (loaded == InvalidActions <==> !StringArray(row.actions))
      && (loaded == RulesNotAnArray <==> StringArray(row.actions) && !rules.JArray?)
      && (forall k: nat :: loaded == InvalidRule(k) <==>
            StringArray(row.actions) && rules.JArray? && k < |rules.items| && !IsRule(rules.items[k]) &&
            forall i | 0 <= i < k :: IsRule(rules.items[i]))
      && (loaded.Ok? <==>
          (StringArray(row.actions) && rules.JArray? && forall i | 0 <= i < |rules.items| :: IsRule(rules.items[i])))
  {
    hide IsRule;
    assert StringArray(row.actions) <==>
      row.actions.JArray? && !exists i | 0 <= i < |row.actions.items| :: !row.actions.items[i].JString?;
  }

  // ---- The stored form -------------------------------------------------------

  /** The names the stored form uses for the operators. */
  lemma OperatorsAreStoredAs()
    ensures NameOf(Eq) == "eq" && NameOf(Neq) == "neq" && NameOf(Lt) == "lt" && NameOf(Lte) == "lte"
    ensures NameOf(Gt) == "gt" && NameOf(Gte) == "gte" && NameOf(In) == "in" && NameOf(Contains) == "contains"
  {
  }

  /** Every column holds what it is named after. */
  lemma ColumnsHoldWhatTheyName(p: Policy)
    ensures var row := ToRow(p);
      && row.id == p.id && row.version == p.version && row.name == p.name && row.resourceType == p.resourceType
      && row.dslSource == p.dslSource && row.status == p.status && row.createdAt == p.createdAt
      && row.actions.JArray? && |row.actions.items| == |p.actions|
      && (forall i | 0 <= i < |p.actions| :: row.actions.items[i] == JString(p.actions[i]))
  {
  }

  // ---- Structural equality -------------------------------------------------

  predicate ItemsEqual(a: seq<Item>, b: seq<Item>) {
    |a| == |b| && forall i | 0 <= i < |a| :: Identical(a[i], b[i])
  }

  predicate LiteralsEqual(a: Literal, b: Literal) {
    match (a, b)
    case (Many(_, items), Many(_, other)) => ItemsEqual(items, other)
    case (One(s), One(t)) => Identical(s, t)
    case _ => false
  }

  predicate ConditionsEqual(a: Condition, b: Condition) {
    match (a, b)
    case (Always, Always) => true
    case (Comparison(_, _, _), Comparison(_, _, _)) =>
      a.attribute == b.attribute && a.operator == b.operator && LiteralsEqual(a.literal, b.literal)
    case (Not(c), Not(d)) => ConditionsEqual(c, d)
    case (And(cs), And(ds)) => |cs| == |ds| && forall i | 0 <= i < |cs| :: ConditionsEqual(cs[i], ds[i])
    case (Or(cs), Or(ds)) => |cs| == |ds| && forall i | 0 <= i < |cs| :: ConditionsEqual(cs[i], ds[i])
    case _ => false
  }

  lemma EqualLiteralsCompare(parse: DateParser, actual: Value, operator: Operator, a: Literal, b: Literal)
    requires LiteralsEqual(a, b)
    ensures Compare(parse, actual, operator, a) == Compare(parse, actual, operator, b)
  {
    if a.Many? {
      assert a.items == b.items;
    }
  }

  /** Conditions that are structurally equal mean the same on every request. */
  lemma {:induction false} EqualConditionsEvaluate(parse: DateParser, a: Condition, b: Condition, context: Context)
    requires ConditionsEqual(a, b)
    ensures Evaluate(parse, a, context) == Evaluate(parse, b, context)
  {
    hide Compare, LiteralsEqual, IndexOfDot;
    match a {
      case Always =>
      case Comparison(attribute, operator, literal) =>
        if context.Resolve(attribute).Some? {
          EqualLiteralsCompare(parse, context.Resolve(attribute).value, operator, literal, b.literal);
        }
      case Not(operand) => EqualConditionsEvaluate(parse, operand, b.operand, context);
      case And(operands) =>
        forall i | 0 <= i < |operands|
          ensures Evaluate(parse, operands[i], context) == Evaluate(parse, b.operands[i], context)
        {
          EqualConditionsEvaluate(parse, operands[i], b.operands[i], context);
        }
      case Or(operands) =>
        forall i | 0 <= i < |operands|
          ensures Evaluate(parse, operands[i], context) == Evaluate(parse, b.operands[i], context)
        {
          EqualConditionsEvaluate(parse, operands[i], b.operands[i], context);
        }
    }
  }

  // ---- Saving and loading --------------------------------------------------

  predicate FiniteScalar(s: Scalar) { s.Number? ==> s.num.Finite? }

  predicate FiniteLiteral(l: Literal) {
    match l
    case One(scalar) => FiniteScalar(scalar)
    case Many(_, items) => forall i | 0 <= i < |items| :: FiniteScalar(items[i])
  }

  /** Every numeric literal of the condition is a finite number. */
  predicate FiniteCondition(c: Condition) {
    match c
    case Always => true
    case Comparison(_, _, literal) => FiniteLiteral(literal)
    case And(operands) => forall i | 0 <= i < |operands| :: FiniteCondition(operands[i])
    case Or(operands) => forall i | 0 <= i < |operands| :: FiniteCondition(operands[i])
    case Not(operand) => FiniteCondition(operand)
  }

  lemma OperatorNames(operator: Operator)
    ensures OperatorNamed(NameOf(operator)) == Some(operator)
  {
  }

  lemma {:induction false} ItemsToJsonAt(items: seq<Item>, i: nat)
    requires i < |items|
    ensures ItemsToJson(items)[i] == ScalarToJson(items[i])
  {
    if i > 0 {
      ItemsToJsonAt(items[1..], i - 1);
    }
  }

  lemma {:induction false} AllToJsonAt(cs: seq<Condition>, i: nat)
    requires i < |cs|
    ensures AllToJson(cs)[i] == ToJson(cs[i])
  {
    hide ToJson;
    if i > 0 {
      AllToJsonAt(cs[1..], i - 1);
    }
  }

  lemma {:induction false} ReadItemsAt(js: seq<Json>, i: nat)
    requires i < |js| && forall k | 0 <= k < |js| :: IsItem(js[k])
    ensures ReadItems(js)[i] == ReadItem(js[i])
  {
    if i > 0 {
      ReadItemsAt(js[1..], i - 1);
    }
  }

  lemma {:induction false} ReadAllAt(js: seq<Json>, at: seq<nat>, identities: Allocator, i: nat)
    requires i < |js| && forall k | 0 <= k < |js| :: IsCondition(js[k])
    ensures ReadAll(js, at, identities)[i] == Read(js[i], at + [i], identities)
    decreases js
  {
    hide Read, IsCondition;
    if i < |js| - 1 {
      ReadAllAt(js[..|js| - 1], at, identities, i);
    }
  }

  lemma SavedLiteral(l: Literal)
    ensures IsLiteral(LiteralToJson(l)) <==> FiniteLiteral(l)
  {
    if l.Many? {
      forall i | 0 <= i < |l.items| ensures IsItem(ItemsToJson(l.items)[i]) <==> FiniteScalar(l.items[i]) {
        ItemsToJsonAt(l.items, i);
      }
    }
  }

  lemma ReloadedLiteral(l: Literal, at: seq<nat>, identities: Allocator)
    requires FiniteLiteral(l) && IsLiteral(LiteralToJson(l))
    ensures LiteralsEqual(l, ReadLiteral(LiteralToJson(l), at, identities))
  {
    if l.Many? {
      var js := ItemsToJson(l.items);
      forall i | 0 <= i < |l.items| ensures Identical(l.items[i], ReadItems(js)[i]) {
        ItemsToJsonAt(l.items, i);
        ReadItemsAt(js, i);
      }
    }
  }

  lemma {:induction false} KindsOf(c: Condition)
    ensures var kind, operands := Member(ToJson(c), "kind"), Member(ToJson(c), "operands");
      && (c.Always? ==> kind == Some(JString("always")))
      && (c.Comparison? ==> kind == Some(JString("comparison")))
      && (c.And? ==> kind == Some(JString("and")) && operands == Some(JArray(AllToJson(c.operands))))
      && (c.Or? ==> kind == Some(JString("or")) && operands == Some(JArray(AllToJson(c.operands))))
      && (c.Not? ==> kind == Some(JString("not")) && Member(ToJson(c), "operand") == Some(ToJson(c.operand)))
  {
    hide AllToJson, NameOf, LiteralToJson;
  }

  lemma {:induction false} ComparisonMembers(c: Condition)
    requires c.Comparison?
    ensures var j := ToJson(c);
      && Member(j, "attribute") == Some(JString(c.attribute))
      && Member(j, "operator") == Some(JString(NameOf(c.operator)))
      && Member(j, "value") == Some(LiteralToJson(c.literal))
  {
    hide NameOf, LiteralToJson;
  }

  /** A saved condition is accepted when it is loaded exactly when its numbers are finite. */
  lemma {:induction false} SavedCondition(c: Condition)
    ensures IsCondition(ToJson(c)) <==> FiniteCondition(c)
  {
    hide ToJson, NameOf, OperatorNamed, LiteralToJson, IsLiteral, FiniteLiteral;
    KindsOf(c);
    match c {
      case Always =>
      case Comparison(_, operator, literal) =>
        ComparisonMembers(c);
        OperatorNames(operator);
        SavedLiteral(literal);
      case Not(operand) => SavedCondition(operand);
      case And(operands) =>
        forall i | 0 <= i < |operands|
          ensures IsCondition(AllToJson(operands)[i]) <==> FiniteCondition(operands[i])
        {
          SavedCondition(operands[i]);
          AllToJsonAt(operands, i);
        }
      case Or(operands) =>
        forall i | 0 <= i < |operands|
          ensures IsCondition(AllToJson(operands)[i]) <==> FiniteCondition(operands[i])
        {
          SavedCondition(operands[i]);
          AllToJsonAt(operands, i);
        }
    }
  }

  /** Loading what was saved gives a structurally equal condition, whatever arrays are made for it. */
  lemma {:induction false} ReloadedCondition(c: Condition, at: seq<nat>, identities: Allocator)
    requires FiniteCondition(c) && IsCondition(ToJson(c))
    ensures ConditionsEqual(c, Read(ToJson(c), at, identities))
    decreases c
  {
    hide ToJson, NameOf, OperatorNamed, LiteralToJson, ReadLiteral, LiteralsEqual, IsLiteral, FiniteLiteral;
    KindsOf(c);
    match c {
      case Always =>
      case Comparison(_, operator, literal) =>
        ComparisonMembers(c);
        OperatorNames(operator);
        ReloadedLiteral(literal, at, identities);
      case Not(operand) => ReloadedCondition(operand, at + [0], identities);
      case And(operands) => ReloadedOperands(operands, at, identities);
      case Or(operands) => ReloadedOperands(operands, at, identities);
    }
  }

  lemma {:induction false} ReloadedOperands(cs: seq<Condition>, at: seq<nat>, identities: Allocator)
    requires forall i | 0 <= i < |cs| :: FiniteCondition(cs[i]) && IsCondition(AllToJson(cs)[i])
    ensures forall i | 0 <= i < |cs| :: ConditionsEqual(cs[i], ReadAll(AllToJson(cs), at, identities)[i])
    decreases cs
  {
    hide ToJson, IsCondition, FiniteCondition, ConditionsEqual, Read;
    forall i | 0 <= i < |cs| ensures ConditionsEqual(cs[i], ReadAll(AllToJson(cs), at, identities)[i]) {
      AllToJsonAt(cs, i);
      ReadAllAt(AllToJson(cs), at, identities, i);
      ReloadedCondition(cs[i], at + [i], identities);
    }
  }

  /** The reloaded rule has the same effect and description, and its condition means the same. */
  ghost predicate SameRule(a: PolicyRule, b: PolicyRule) {
    && a.effect == b.effect && a.description == b.description
    && ConditionsEqual(a.condition, b.condition)
    && forall parse: DateParser, context ::
         Evaluate(parse, a.condition, context) == Evaluate(parse, b.condition, context)
  }

  lemma SavedRule(rule: PolicyRule)
    ensures var j := RuleToJson(rule);
      && Member(j, "effect") == Some(JString(if rule.effect == PERMIT then "PERMIT" else "DENY"))
      && Member(j, "condition") == Some(ToJson(rule.condition))
      && Member(j, "description") ==
         (if rule.description == None then None else Some(JString(rule.description.value)))
  {
    hide ToJson;
  }

  lemma SavedRuleIsRule(rule: PolicyRule)
    ensures IsRule(RuleToJson(rule)) <==> FiniteCondition(rule.condition)
  {
    hide ToJson, IsCondition, FiniteCondition, RuleToJson;
    SavedRule(rule);
    SavedCondition(rule.condition);
  }

  lemma ReloadedRule(rule: PolicyRule, at: seq<nat>, identities: Allocator)
    requires FiniteCondition(rule.condition) && IsRule(RuleToJson(rule))
    ensures SameRule(rule, ReadRule(RuleToJson(rule), at, identities))
  {
    hide ToJson, IsCondition, FiniteCondition, RuleToJson, Read, Evaluate, ConditionsEqual;
    SavedRule(rule);
    ReloadedCondition(rule.condition, at, identities);
    var again := ReadRule(RuleToJson(rule), at, identities).condition;
    forall parse: DateParser, context
      ensures Evaluate(parse, rule.condition, context) == Evaluate(parse, again, context)
    {
      EqualConditionsEvaluate(parse, rule.condition, again, context);
    }
  }

  ghost predicate FinitePolicy(p: Policy) {
    forall i | 0 <= i < |p.rules| :: FiniteCondition(p.rules[i].condition)
  }

  /** The same policy, but for the array objects in its conditions. */
  ghost predicate SamePolicy(p: Policy, q: Policy) {
    && p.(rules := []) == q.(rules := [])
    && |p.rules| == |q.rules| && forall i | 0 <= i < |p.rules| :: SameRule(p.rules[i], q.rules[i])
  }

  ghost predicate FirstNotFinite(p: Policy, index: nat) {
    && index < |p.rules| && !FiniteCondition(p.rules[index].condition)
    && forall i | 0 <= i < index :: FiniteCondition(p.rules[i].condition)
  }

  /**
   Saving and reloading preserves a policy exactly when its numeric literals are
   finite. Otherwise loading fails at the first rule with one that is not.
   */
  lemma SavedPolicyReloads(p: Policy, identities: Allocator)
    ensures var loaded := ToDomain(ToRow(p), identities);
      && (loaded.Ok? <==> FinitePolicy(p))
      && (loaded.Ok? ==> SamePolicy(p, loaded.policy))
      && (!loaded.Ok? ==> loaded.InvalidRule? && FirstNotFinite(p, loaded.index))
  {
    hide IsRule, FiniteCondition, RuleToJson, ReadRule, SameRule;
    var js := RulesToJson(p.rules);
    forall i | 0 <= i < |js| ensures IsRule(js[i]) <==> FiniteCondition(p.rules[i].condition) {
      SavedRuleIsRule(p.rules[i]);
    }
    if FinitePolicy(p) {
      forall i | 0 <= i < |js| ensures SameRule(p.rules[i], ReadRules(js, identities)[i]) {
        ReloadedRule(p.rules[i], [i], identities);
      }
      assert Strings(StringsToJson(p.actions)) == p.actions;
    }
  }

  /** What was loaded once can be saved and loaded again. */
  lemma {:induction false} LoadedIsFinite(j: Json, at: seq<nat>, identities: Allocator)
    requires IsCondition(j)
    ensures FiniteCondition(Read(j, at, identities))
    decreases j
  {
    hide OperatorNamed;
    var kind := Member(j, "kind").value.text;
    if kind == "comparison" {
      var value := Member(j, "value").value;
      if value.JArray? {
        forall i | 0 <= i < |value.items| ensures FiniteScalar(ReadItems(value.items)[i]) {
          ReadItemsAt(value.items, i);
        }
      }
    } else if kind == "not" {
      LoadedIsFinite(Member(j, "operand").value, at + [0], identities);
    } else if kind == "and" || kind == "or" {
      var operands := Member(j, "operands").value.items;
      forall i | 0 <= i < |operands| ensures FiniteCondition(ReadAll(operands, at, identities)[i]) {
        ReadAllAt(operands, at, identities, i);
        LoadedIsFinite(operands[i], at + [i], identities);
      }
    }
  }

  lemma LoadedRuleIsFinite(j: Json, at: seq<nat>, identities: Allocator)
    requires IsRule(j)
    ensures FiniteCondition(ReadRule(j, at, identities).condition)
  {
    hide IsCondition, Read, FiniteCondition;
    LoadedIsFinite(Member(j, "condition").value, at, identities);
  }

  /** A policy that has been loaded from any row can be saved and loaded again unchanged. */
  lemma LoadedPolicyReloads(row: Row, identities: Allocator, again: Allocator)
    requires ToDomain(row, identities).Ok?
    ensures var p := ToDomain(row, identities).policy; var reloaded := ToDomain(ToRow(p), again);
      reloaded.Ok? && SamePolicy(p, reloaded.policy)
  {
    hide IsRule, ReadRule, FiniteCondition, SamePolicy, ToRow;
    var p := ToDomain(row, identities).policy;
    forall i | 0 <= i < |p.rules| ensures FiniteCondition(p.rules[i].condition) {
      LoadedRuleIsFinite(row.rules.items[i], [i], identities);
    }
    SavedPolicyReloads(p, again);
  }

  /** For instance, a policy whose one rule compares with Infinity cannot be loaded once it has been saved. */
  lemma InfinityIsLost(p: Policy, attribute: string, operator: Operator, identities: Allocator)
    requires |p.rules| == 1
    requires p.rules[0].condition == Comparison(attribute, operator, One(Number(PosInf)))
    ensures ToDomain(ToRow(p), identities) == InvalidRule(0)
  {
    hide ToDomain, ToRow;
    assert !FiniteCondition(p.rules[0].condition);
    SavedPolicyReloads(p, identities);
  }
}
