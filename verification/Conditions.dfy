/**
 The policy language: literals, attribute values, condition trees, what a
 condition means on a request, and the three ways of combining rules.
 */
module Conditions {
  import opened Options

  /** A JavaScript number. Doubles are reals here, with the three values that are not. */
  datatype Num = NaN | NegInf | Finite(value: real) | PosInf

  /** `===` on numbers: NaN is not even equal to itself. */
  predicate SameNum(a: Num, b: Num) { a == b && !a.NaN? }

  predicate NumLess(a: Num, b: Num) {
    match (a, b)
    case (Finite(x), Finite(y)) => x < y
    case (NegInf, Finite(_)) => true
    case (NegInf, PosInf) => true
    case (Finite(_), PosInf) => true
    case _ => false
  }

  datatype Scalar = Str(text: string) | Number(num: Num) | Bool(bit: bool)

  type Item = s: Scalar | !s.Bool? witness Str("")

  /** The right-hand side of a comparison. A list is a JavaScript array, which has an identity. */
  datatype Literal = One(scalar: Scalar) | Many(identity: nat, items: seq<Item>)

  datatype Value =
    | Plain(scalar: Scalar)
    | Date(time: Num)
    | Array(elements: seq<Value>)
    | Record(fields: map<string, Value>)

  datatype Operator = Eq | Neq | Lt | Lte | Gt | Gte | In | Contains

  datatype Condition =
    | Always
    | Comparison(attribute: string, operator: Operator, literal: Literal)
    | And(operands: seq<Condition>)
    | Or(operands: seq<Condition>)
    | Not(operand: Condition)

  // ---- Requests ------------------------------------------------------------

  /** The four bags of attributes of a request. */
  datatype Context = Context(
    subject: map<string, Value>,
    resource: map<string, Value>,
    action: map<string, Value>,
    environment: map<string, Value>)
  {
    function Bag(name: string): Option<map<string, Value>> {
      if name == "subject" then Some(subject)
      else if name == "resource" then Some(resource)
      else if name == "action" then Some(action)
      else if name == "environment" then Some(environment)
      else None
    }

    /** The value at `bag.key`, where everything behind the first dot is the key. */
    function Resolve(path: string): Option<Value> {
      var dot := IndexOfDot(path);
      if dot == |path| then None
      else
        match Bag(path[..dot])
        case None => None
        case Some(bag) => if path[dot + 1..] in bag then Some(bag[path[dot + 1..]]) else None
    }
  }

  /** Where the first dot is, or the length of a path without one. */
  function IndexOfDot(path: string): (i: nat)
    ensures i <= |path| && (i < |path| ==> path[i] == '.') && '.' !in path[..i]
  {
    if path == "" || path[0] == '.' then 0 else
      var i := IndexOfDot(path[1..]);
      assert path[..1 + i] == [path[0]] + path[1..][..i];
      1 + i
  }

  // ---- Meaning -------------------------------------------------------------

  /** `Date.parse`, in milliseconds. */
  type DateParser = string -> Num

  predicate Identical(a: Scalar, b: Scalar) { a == b && (a.Number? ==> !a.num.NaN?) }

  /** What `includes` compares with: `===`, except that NaN equals NaN. */
  predicate SameValueZero(a: Value, b: Scalar) { a == Plain(b) }

  predicate EqualTo(parse: DateParser, actual: Value, literal: Literal) {
    match literal
    case Many(_, _) => false
    case One(scalar) =>
      match actual
      case Plain(s) => Identical(s, scalar)
      case Date(time) => scalar.Str? && SameNum(time, parse(scalar.text))
      case Array(_) => false
      case Record(_) => false
  }

  function OrderOf(v: Value): Option<Num> {
    match v
    case Date(time) => Some(time)
    case Plain(Number(n)) => Some(n)
    case _ => None
  }

  predicate Ordered(operator: Operator, actual: Num, bound: Num)
    requires operator.Lt? || operator.Lte? || operator.Gt? || operator.Gte?
  {
    match operator
    case Lt => NumLess(actual, bound)
    case Lte => NumLess(actual, bound) || SameNum(actual, bound)
    case Gt => NumLess(bound, actual)
    case Gte => NumLess(bound, actual) || SameNum(actual, bound)
  }

  /** A comparison with a value that is there. */
  predicate Compare(parse: DateParser, actual: Value, operator: Operator, literal: Literal) {
    match operator
    case Eq => EqualTo(parse, actual, literal)
    case Neq => !EqualTo(parse, actual, literal)
    case In => literal.Many? && !actual.Array? && !actual.Date? &&
               exists i | 0 <= i < |literal.items| :: SameValueZero(actual, literal.items[i])
    case Contains => actual.Array? && literal.One? &&
                     exists i | 0 <= i < |actual.elements| :: SameValueZero(actual.elements[i], literal.scalar)
    case _ =>
      OrderOf(actual).Some? && literal.One? && literal.scalar.Number? &&
      Ordered(operator, OrderOf(actual).value, literal.scalar.num)
  }

  /** A comparison is false of a missing attribute, whatever its operator. */
  predicate Matches(parse: DateParser, attribute: string, operator: Operator, literal: Literal, context: Context) {
    var actual := context.Resolve(attribute);
    actual.Some? && Compare(parse, actual.value, operator, literal)
  }

  predicate Evaluate(parse: DateParser, c: Condition, context: Context) {
    match c
    case Always => true
    case Comparison(attribute, operator, literal) => Matches(parse, attribute, operator, literal, context)
    case And(operands) => forall i | 0 <= i < |operands| :: Evaluate(parse, operands[i], context)
    case Or(operands) => exists i | 0 <= i < |operands| :: Evaluate(parse, operands[i], context)
    case Not(operand) => !Evaluate(parse, operand, context)
  }

  /** The four ordering operators order numbers and instants, and none of them holds when NaN is involved. */
  lemma OrderingLaws(parse: DateParser, actual: Value, bound: Num)
    requires actual.Date? || (actual.Plain? && actual.scalar.Number?)
    ensures var literal, value := One(Number(bound)), if actual.Date? then actual.time else actual.scalar.num;
      var lt, gt := Compare(parse, actual, Lt, literal), Compare(parse, actual, Gt, literal);
      var lte, gte := Compare(parse, actual, Lte, literal), Compare(parse, actual, Gte, literal);
      if value.NaN? || bound.NaN? then !lt && !gt && !lte && !gte
      else (lte <==> !gt) && (gte <==> !lt) && !(lt && gt) && (lte && gte <==> value == bound) &&
           (value.Finite? && bound.Finite? ==> (lt <==> value.value < bound.value))
  {
  }

  /** Membership in a list is equality with one of its items, for every scalar but NaN. */
  lemma InIsSomeEquality(parse: DateParser, s: Scalar, list: Literal)
    requires list.Many? && Identical(s, s)
    ensures Compare(parse, Plain(s), In, list) <==>
      exists i | 0 <= i < |list.items| :: Compare(parse, Plain(s), Eq, One(list.items[i]))
  {
    if i :| 0 <= i < |list.items| && SameValueZero(Plain(s), list.items[i]) {
      assert Compare(parse, Plain(s), Eq, One(list.items[i]));
    }
    if i :| 0 <= i < |list.items| && Compare(parse, Plain(s), Eq, One(list.items[i])) {
      assert SameValueZero(Plain(s), list.items[i]);
    }
  }

  /** A list holds a scalar exactly when one of its elements that is a scalar equals it, for every scalar but NaN. */
  lemma ContainsIsSomeEquality(parse: DateParser, actual: Value, s: Scalar)
    requires actual.Array? && Identical(s, s)
    ensures Compare(parse, actual, Contains, One(s)) <==>
      exists i | 0 <= i < |actual.elements| ::
        actual.elements[i].Plain? && Compare(parse, actual.elements[i], Eq, One(s))
  {
    if i :| 0 <= i < |actual.elements| && SameValueZero(actual.elements[i], s) {
      assert Compare(parse, actual.elements[i], Eq, One(s));
    }
    if i :| 0 <= i < |actual.elements| && actual.elements[i].Plain? && Compare(parse, actual.elements[i], Eq, One(s)) {
      assert SameValueZero(actual.elements[i], s);
    }
  }

  /** NaN equals nothing, not even in a list of elements, and yet both list operators find it. */
  lemma ListsFindNaN(parse: DateParser, list: Literal, actual: Value)
    ensures var nan: Scalar := Number(NaN);
      && !Compare(parse, Plain(nan), Eq, One(nan))
      && (list.Many? ==>
          (Compare(parse, Plain(nan), In, list) <==> exists i | 0 <= i < |list.items| :: list.items[i] == nan))
      && (actual.Array? ==> (Compare(parse, actual, Contains, One(nan)) <==> Plain(nan) in actual.elements))
  {
  }

  /** Values of the wrong type match no comparison but `neq`, which is the opposite of `eq` on every value there is. */
  lemma MismatchIsFalse(parse: DateParser, actual: Value, operator: Operator, literal: Literal)
    ensures operator.Lt? || operator.Lte? || operator.Gt? || operator.Gte? ==>
      (Compare(parse, actual, operator, literal) ==>
       (actual.Date? || (actual.Plain? && actual.scalar.Number?)) && literal.One? && literal.scalar.Number?)
    ensures Compare(parse, actual, Eq, literal) ==>
      literal.One? && (actual.Plain? || (actual.Date? && literal.scalar.Str?))
    ensures Compare(parse, actual, In, literal) ==> literal.Many? && actual.Plain?
    ensures Compare(parse, actual, Contains, literal) ==> literal.One? && actual.Array?
    ensures Compare(parse, actual, Neq, literal) <==> !Compare(parse, actual, Eq, literal)
  {
  }

  /** The bag is what stands before the first dot of a path, and the key, dots and all, what stands behind it. */
  lemma ResolveReads(context: Context, key: string)
    ensures context.Resolve("subject." + key) == if key in context.subject then Some(context.subject[key]) else None
    ensures context.Resolve("resource." + key) == if key in context.resource then Some(context.resource[key]) else None
    ensures context.Resolve("action." + key) == if key in context.action then Some(context.action[key]) else None
    ensures context.Resolve("environment." + key) ==
      if key in context.environment then Some(context.environment[key]) else None
  {
    hide IndexOfDot;
    SplitsAtDot("subject", key);
    SplitsAtDot("resource", key);
    SplitsAtDot("action", key);
    SplitsAtDot("environment", key);
    assert "subject." == "subject" + "." && "resource." == "resource" + ".";
    assert "action." == "action" + "." && "environment." == "environment" + ".";
  }

  lemma SplitsAtDot(bag: string, key: string)
    requires '.' !in bag
    ensures var path := bag + "." + key;
      IndexOfDot(path) == |bag| && path[..|bag|] == bag && path[|bag| + 1..] == key
  {
    var path := bag + "." + key;
    var dot := IndexOfDot(path);
    assert path[|bag|] == '.' && path[..|bag|] == bag && path[|bag| + 1..] == key;
    assert forall k | 0 <= k < dot :: path[..dot][k] == path[k] && path[k] in path[..dot];
    assert forall k | 0 <= k < |bag| :: path[k] == bag[k] && bag[k] in bag;
  }

  function Negated(conditions: seq<Condition>): (r: seq<Condition>)
    ensures |r| == |conditions| && forall i | 0 <= i < |conditions| :: r[i] == Not(conditions[i])
  {
    seq(|conditions|, i requires 0 <= i < |conditions| => Not(conditions[i]))
  }

  /** Conditions obey the laws of logic: contradiction, excluded middle, and De Morgan over any number of operands. */
  lemma {:induction false} LogicLaws(parse: DateParser, c: Condition, cs: seq<Condition>, context: Context)
    ensures !Evaluate(parse, And([c, Not(c)]), context) && Evaluate(parse, Or([c, Not(c)]), context)
    ensures Evaluate(parse, Not(And(cs)), context) <==> Evaluate(parse, Or(Negated(cs)), context)
    ensures Evaluate(parse, Not(Or(cs)), context) <==> Evaluate(parse, And(Negated(cs)), context)
  {
    hide Matches;
    var both := [c, Not(c)];
    assert both[0] == c && both[1] == Not(c);
    assert Evaluate(parse, both[0], context) <==> !Evaluate(parse, both[1], context);
    assert forall i | 0 <= i < |cs| :: Evaluate(parse, Negated(cs)[i], context) <==> !Evaluate(parse, cs[i], context);
  }

  /** A missing attribute matches no comparison whatever. */
  lemma {:induction false} MissingNeverMatches(parse: DateParser, attribute: string, operator: Operator,
          literal: Literal, context: Context)
    requires context.Resolve(attribute).None?
    ensures !Evaluate(parse, Comparison(attribute, operator, literal), context)
  {
  }

  // ---- Combining rules -----------------------------------------------------

  datatype Outcome = PERMIT | DENY | NOT_APPLICABLE

  type Effect = e: Outcome | !e.NOT_APPLICABLE? witness PERMIT

  datatype Rule = Rule(id: string, effect: Effect, condition: Condition)

  function OutcomeOf(parse: DateParser, rule: Rule, context: Context): Outcome {
    if Evaluate(parse, rule.condition, context) then rule.effect else NOT_APPLICABLE
  }

  function Outcomes(parse: DateParser, rules: seq<Rule>, context: Context): (r: seq<Outcome>)
    ensures |r| == |rules|
    ensures forall i | 0 <= i < |rules| :: r[i] == OutcomeOf(parse, rules[i], context)
    decreases rules
  {
    if rules == [] then []
    else Outcomes(parse, rules[..|rules| - 1], context) + [OutcomeOf(parse, rules[|rules| - 1], context)]
  }

  function DenyOverrides(outcomes: seq<Outcome>): Outcome {
    if DENY in outcomes then DENY else if PERMIT in outcomes then PERMIT else NOT_APPLICABLE
  }

  function PermitOverrides(outcomes: seq<Outcome>): Outcome {
    if PERMIT in outcomes then PERMIT else if DENY in outcomes then DENY else NOT_APPLICABLE
  }

  function FirstApplicable(outcomes: seq<Outcome>): Outcome {
    if outcomes == [] then NOT_APPLICABLE
    else if outcomes[0] != NOT_APPLICABLE then outcomes[0]
    else FirstApplicable(outcomes[1..])
  }

  /** What `find` finds: the outcome behind a run of rules that do not apply. */
  lemma {:induction false} FirstApplicableIsFirst(outcomes: seq<Outcome>)
    ensures FirstApplicable(outcomes) == NOT_APPLICABLE ==>
      forall i | 0 <= i < |outcomes| :: outcomes[i] == NOT_APPLICABLE
    ensures FirstApplicable(outcomes) != NOT_APPLICABLE ==> FirstApplicable(outcomes) in outcomes
  {
    if outcomes != [] {
      FirstApplicableIsFirst(outcomes[1..]);
      assert outcomes == [outcomes[0]] + outcomes[1..];
    }
  }

  lemma {:induction false} FirstApplicableOfConcat(a: seq<Outcome>, b: seq<Outcome>)
    ensures FirstApplicable(a + b) ==
      if FirstApplicable(a) != NOT_APPLICABLE then FirstApplicable(a) else FirstApplicable(b)
  {
    if a == [] {
      assert a + b == b;
    } else {
      FirstApplicableOfConcat(a[1..], b);
      assert (a + b)[1..] == a[1..] + b;
    }
  }

  /** The three strategies agree exactly when rules of only one effect apply. */
  lemma {:induction false} StrategiesAgree(outcomes: seq<Outcome>)
    ensures !(PERMIT in outcomes && DENY in outcomes) <==>
      FirstApplicable(outcomes) == DenyOverrides(outcomes) == PermitOverrides(outcomes)
  {
    FirstApplicableIsFirst(outcomes);
  }

  /** Some rule of this effect has a condition that is true of the request. */
  ghost predicate Applies(parse: DateParser, rules: seq<Rule>, effect: Outcome, context: Context) {
    exists i | 0 <= i < |rules| :: rules[i].effect == effect && Evaluate(parse, rules[i].condition, context)
  }

  lemma {:induction false} AppliesExactly(parse: DateParser, rules: seq<Rule>, context: Context)
    ensures PERMIT in Outcomes(parse, rules, context) <==> Applies(parse, rules, PERMIT, context)
    ensures DENY in Outcomes(parse, rules, context) <==> Applies(parse, rules, DENY, context)
  {
    hide Evaluate, Outcomes;
    var outcomes := Outcomes(parse, rules, context);
    forall effect | effect == PERMIT || effect == DENY
      ensures effect in outcomes <==> Applies(parse, rules, effect, context)
    {
      if i :| 0 <= i < |outcomes| && outcomes[i] == effect {
        assert rules[i].effect == effect && Evaluate(parse, rules[i].condition, context);
      }
      if i :| 0 <= i < |rules| && rules[i].effect == effect && Evaluate(parse, rules[i].condition, context) {
        assert outcomes[i] == effect;
      }
    }
  }

  /** One applicable denial is never overridden by permits, however many. */
  lemma {:induction false} DenyOverridesExactly(parse: DateParser, rules: seq<Rule>, context: Context)
    ensures var decision := DenyOverrides(Outcomes(parse, rules, context));
      var permitted, denied := Applies(parse, rules, PERMIT, context), Applies(parse, rules, DENY, context);
      && (decision == DENY <==> denied)
      && (decision == PERMIT <==> permitted && !denied)
      && (decision == NOT_APPLICABLE <==> !permitted && !denied)
  {
    hide Outcomes, Applies;
    AppliesExactly(parse, rules, context);
  }

  /** And the other way round. */
  lemma {:induction false} PermitOverridesExactly(parse: DateParser, rules: seq<Rule>, context: Context)
    ensures var decision := PermitOverrides(Outcomes(parse, rules, context));
      var permitted, denied := Applies(parse, rules, PERMIT, context), Applies(parse, rules, DENY, context);
      && (decision == PERMIT <==> permitted)
      && (decision == DENY <==> denied && !permitted)
      && (decision == NOT_APPLICABLE <==> !permitted && !denied)
  {
    hide Outcomes, Applies;
    AppliesExactly(parse, rules, context);
  }

  /** The rule at `i` matches, and none before it does. */
  ghost predicate MatchesFirst(parse: DateParser, rules: seq<Rule>, i: nat, context: Context) {
    && i < |rules| && Evaluate(parse, rules[i].condition, context)
    && forall j | 0 <= j < i :: !Evaluate(parse, rules[j].condition, context)
  }

  /** The first rule that matches decides, and without one there is no decision. */
  lemma {:induction false} FirstApplicableExactly(parse: DateParser, rules: seq<Rule>, context: Context)
    ensures var decision := FirstApplicable(Outcomes(parse, rules, context));
      && (forall i: nat | MatchesFirst(parse, rules, i, context) :: decision == rules[i].effect)
      && (decision == NOT_APPLICABLE <==> forall i | 0 <= i < |rules| :: !Evaluate(parse, rules[i].condition, context))
  {
    hide Evaluate, Outcomes, FirstApplicable;
    var outcomes := Outcomes(parse, rules, context);
    FirstApplicableIsFirst(outcomes);
    forall i: nat | MatchesFirst(parse, rules, i, context) ensures FirstApplicable(outcomes) == rules[i].effect {
      FirstApplicableAt(outcomes, i);
    }
    if forall i | 0 <= i < |rules| :: !Evaluate(parse, rules[i].condition, context) {
      assert forall i | 0 <= i < |outcomes| :: outcomes[i] == NOT_APPLICABLE;
    } else {
      var i :| 0 <= i < |rules| && Evaluate(parse, rules[i].condition, context);
      assert outcomes[i] == rules[i].effect;
    }
  }

  lemma {:induction false} FirstApplicableAt(outcomes: seq<Outcome>, i: nat)
    requires i < |outcomes| && outcomes[i] != NOT_APPLICABLE
    requires forall j | 0 <= j < i :: outcomes[j] == NOT_APPLICABLE
    ensures FirstApplicable(outcomes) == outcomes[i]
  {
    if i > 0 {
      FirstApplicableAt(outcomes[1..], i - 1);
    }
  }

  /** Deny-overrides is the strictest of the three, and permit-overrides the most lenient. */
  lemma {:induction false} StrategiesAreOrdered(outcomes: seq<Outcome>)
    ensures DenyOverrides(outcomes) == PERMIT ==> FirstApplicable(outcomes) == PERMIT
    ensures FirstApplicable(outcomes) == PERMIT ==> PermitOverrides(outcomes) == PERMIT
    ensures PermitOverrides(outcomes) == DENY ==> FirstApplicable(outcomes) == DENY
    ensures FirstApplicable(outcomes) == DENY ==> DenyOverrides(outcomes) == DENY
  {
    FirstApplicableIsFirst(outcomes);
  }
}
