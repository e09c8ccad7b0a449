/**
 The static analyser of policy rules, and what its verdicts mean for requests.
 */
module PolicyLinter {
  import opened Options
  import opened Conditions

  /** One equality or inequality a rule requires. */
  datatype Constraint = Constraint(attribute: string, equals: bool, literal: Literal) {
    predicate Holds(parse: DateParser, context: Context) {
      Matches(parse, attribute, if equals then Eq else Neq, literal, context)
    }
  }

  predicate AllHold(parse: DateParser, cs: seq<Constraint>, context: Context) {
    forall i | 0 <= i < |cs| :: cs[i].Holds(parse, context)
  }

  // ---- Reading a condition as a conjunction --------------------------------

  /** The constraints of a conjunction of equalities and inequalities; None for any other condition. */
  function Extract(c: Condition): Option<seq<Constraint>> {
    match c
    case Comparison(attribute, Eq, literal) => Some([Constraint(attribute, true, literal)])
    case Comparison(attribute, Neq, literal) => Some([Constraint(attribute, false, literal)])
    case And(operands) => ExtractAll(operands)
    case _ => None
  }

  function ExtractAll(operands: seq<Condition>): Option<seq<Constraint>> {
    if operands == [] then Some([])
    else
      match Extract(operands[0])
      case None => None
      case Some(first) => Prepend(first, ExtractAll(operands[1..]))
  }

  function Prepend(first: seq<Constraint>, rest: Option<seq<Constraint>>): Option<seq<Constraint>> {
    match rest
    case None => None
    case Some(cs) => Some(first + cs)
  }

  lemma PrependTwice(a: seq<Constraint>, b: seq<Constraint>, rest: Option<seq<Constraint>>)
    ensures Prepend(a, Prepend(b, rest)) == Prepend(a + b, rest)
  {
    assert rest.Some? ==> a + (b + rest.value) == (a + b) + rest.value;
  }

  method ExtractConstraints(c: Condition) returns (r: Option<seq<Constraint>>)
    ensures r == Extract(c)
    decreases c
  {
    match c {
      case Comparison(attribute, operator, literal) =>
        if operator != Eq && operator != Neq {
          return None;
        }
        return Some([Constraint(attribute, operator == Eq, literal)]);
      case And(operands) =>
        var constraints := [];
        assert ExtractAll(operands).Some? ==> [] + ExtractAll(operands).value == ExtractAll(operands).value;
        for i := 0 to |operands|
          invariant Extract(c) == Prepend(constraints, ExtractAll(operands[i..]))
        {
          var child := ExtractConstraints(operands[i]);
          assert operands[i..][1..] == operands[i + 1..];
          if child == None {
            return None;
          }
          PrependTwice(constraints, child.value, ExtractAll(operands[i + 1..]));
          constraints := constraints + child.value;
        }
        assert constraints + [] == constraints;
        return Some(constraints);
      case _ =>
        return None;
    }
  }

  lemma AllHoldOfConcat(parse: DateParser, a: seq<Constraint>, b: seq<Constraint>, context: Context)
    ensures AllHold(parse, a + b, context) <==> AllHold(parse, a, context) && AllHold(parse, b, context)
  {
    assert forall i | 0 <= i < |a| :: (a + b)[i] == a[i];
    assert forall i | 0 <= i < |b| :: (a + b)[|a| + i] == b[i];
  }

  /** An analysed condition means exactly its constraints. */
  lemma {:induction false} ExtractIsExact(parse: DateParser, c: Condition, context: Context)
    requires Extract(c).Some?
    ensures Evaluate(parse, c, context) <==> AllHold(parse, Extract(c).value, context)
    decreases c, 0
  {
    if c.And? {
      ExtractAllIsExact(parse, c.operands, context);
    } else {
      assert Extract(c).value[0].Holds(parse, context) <==> Evaluate(parse, c, context);
    }
  }

  lemma {:induction false} ExtractAllIsExact(parse: DateParser, operands: seq<Condition>, context: Context)
    requires ExtractAll(operands).Some?
    ensures (forall i | 0 <= i < |operands| :: Evaluate(parse, operands[i], context)) <==>
      AllHold(parse, ExtractAll(operands).value, context)
    decreases operands
  {
    if operands != [] {
      var rest := operands[1..];
      ExtractIsExact(parse, operands[0], context);
      ExtractAllIsExact(parse, rest, context);
      AllHoldOfConcat(parse, Extract(operands[0]).value, ExtractAll(rest).value, context);
      assert forall i | 0 < i < |operands| :: operands[i] == rest[i - 1];
      assert forall i | 0 <= i < |rest| :: rest[i] == operands[i + 1];
    }
  }

  // ---- Comparing two conjunctions ------------------------------------------

  /** `===` on literals: arrays are compared by identity. */
  predicate SameLiteral(a: Literal, b: Literal) {
    match (a, b)
    case (One(s), One(t)) => Identical(s, t)
    case (Many(i, _), Many(j, _)) => i == j
    case _ => false
  }

  predicate SameConstraint(a: Constraint, b: Constraint) {
    a.attribute == b.attribute && a.equals == b.equals && SameLiteral(a.literal, b.literal)
  }

  predicate Includes(cs: seq<Constraint>, c: Constraint) {
    exists j | 0 <= j < |cs| :: SameConstraint(cs[j], c)
  }

  /** `broader` asks for nothing that `narrower` does not ask for too. */
  predicate Implies(broader: seq<Constraint>, narrower: seq<Constraint>) {
    forall i | 0 <= i < |broader| :: Includes(narrower, broader[i])
  }

  predicate Compatible(a: Constraint, b: Constraint) {
    if a.attribute != b.attribute then true
    else if a.equals && b.equals then SameLiteral(a.literal, b.literal)
    else if !a.equals && !b.equals then true
    else !SameLiteral(a.literal, b.literal)
  }

  ghost predicate Overlaps(a: seq<Constraint>, b: seq<Constraint>) {
    forall i, j | 0 <= i < |a| && 0 <= j < |b| :: Compatible(a[i], b[j])
  }

  method CheckOverlaps(a: seq<Constraint>, b: seq<Constraint>) returns (r: bool)
    ensures r <==> Overlaps(a, b)
  {
    for i := 0 to |a|
      invariant forall k, j | 0 <= k < i && 0 <= j < |b| :: Compatible(a[k], b[j])
    {
      var left := a[i];
      for j := 0 to |b|
        invariant forall k | 0 <= k < j :: Compatible(left, b[k])
      {
        var right := b[j];
        if left.attribute != right.attribute {
          continue;
        }
        if left.equals && right.equals {
          if !SameLiteral(left.literal, right.literal) {
            return false;
          }
        } else if !left.equals && !right.equals {
          continue;
        } else {
          var equality := if left.equals then left else right;
          var inequality := if left.equals then right else left;
          if SameLiteral(equality.literal, inequality.literal) {
            return false;
          }
        }
      }
    }
    return true;
  }

  lemma SameConstraintHolds(parse: DateParser, a: Constraint, b: Constraint, context: Context)
    requires SameConstraint(a, b) && a.Holds(parse, context)
    ensures b.Holds(parse, context)
  {
  }

  /** What a broader conjunction requires holds whenever the narrower one does, on every request. */
  lemma ImpliesIsSound(parse: DateParser, broader: seq<Constraint>, narrower: seq<Constraint>, context: Context)
    requires Implies(broader, narrower) && AllHold(parse, narrower, context)
    ensures AllHold(parse, broader, context)
  {
    forall i | 0 <= i < |broader| ensures broader[i].Holds(parse, context) {
      assert Includes(narrower, broader[i]);
      var j :| 0 <= j < |narrower| && SameConstraint(narrower[j], broader[i]);
      assert narrower[j].Holds(parse, context);
      SameConstraintHolds(parse, narrower[j], broader[i], context);
    }
  }

  // ---- Requests on which a conjunction holds -------------------------------

  ghost predicate DateFreeBag(bag: map<string, Value>) {
    forall k | k in bag :: !bag[k].Date?
  }

  /** No attribute of the request is a date. */
  ghost predicate DateFree(context: Context) {
    DateFreeBag(context.subject) && DateFreeBag(context.resource) &&
    DateFreeBag(context.action) && DateFreeBag(context.environment)
  }

  lemma DateFreeResolves(context: Context, path: string)
    requires DateFree(context)
    ensures context.Resolve(path).Some? ==> !context.Resolve(path).value.Date?
  {
  }

  predicate KnownBag(name: string) {
    name == "subject" || name == "resource" || name == "action" || name == "environment"
  }

  function BagOf(path: string): string { path[..IndexOfDot(path)] }

  function KeyOf(path: string): string {
    var dot := IndexOfDot(path);
    if dot == |path| then "" else path[dot + 1..]
  }

  /** `bag.key`, with one of the four bags. */
  predicate WellFormedPath(path: string) { IndexOfDot(path) < |path| && KnownBag(BagOf(path)) }

  /** A constraint some value can meet. */
  predicate Satisfiable(c: Constraint) {
    WellFormedPath(c.attribute) &&
    (c.equals ==> c.literal.One? && Identical(c.literal.scalar, c.literal.scalar))
  }

  ghost predicate AllSatisfiable(cs: seq<Constraint>) {
    forall i | 0 <= i < |cs| :: Satisfiable(cs[i])
  }

  /** The value that meets every constraint on a path: what it has to equal, or an empty array. */
  function ValueFor(cs: seq<Constraint>, path: string): Value {
    if cs == [] then Array([])
    else if cs[0].attribute == path && cs[0].equals && cs[0].literal.One? then Plain(cs[0].literal.scalar)
    else ValueFor(cs[1..], path)
  }

  /** A bag with a value of one's choice under every key that a constraint names in it. */
  function WitnessBag(cs: seq<Constraint>, bag: string, valueAt: string -> Value): map<string, Value> {
    var keys := set i | 0 <= i < |cs| && BagOf(cs[i].attribute) == bag :: KeyOf(cs[i].attribute);
    map key | key in keys :: valueAt(bag + "." + key)
  }

  function Witness(cs: seq<Constraint>, valueAt: string -> Value): Context {
    Context(WitnessBag(cs, "subject", valueAt), WitnessBag(cs, "resource", valueAt),
            WitnessBag(cs, "action", valueAt), WitnessBag(cs, "environment", valueAt))
  }

  function PlainValues(cs: seq<Constraint>): string -> Value { (path: string) => ValueFor(cs, path) }

  lemma {:induction false} ValueForMeets(cs: seq<Constraint>, path: string)
    ensures !ValueFor(cs, path).Date?
    ensures ValueFor(cs, path) == Array([]) ||
      exists i | 0 <= i < |cs| ::
        cs[i].attribute == path && cs[i].equals && cs[i].literal.One? &&
        ValueFor(cs, path) == Plain(cs[i].literal.scalar)
    ensures (exists i | 0 <= i < |cs| :: cs[i].attribute == path && cs[i].equals && cs[i].literal.One?) ==>
      ValueFor(cs, path).Plain?
  {
    if cs != [] {
      var rest := cs[1..];
      ValueForMeets(rest, path);
      assert forall i | 0 <= i < |rest| :: rest[i] == cs[i + 1];
      assert forall i | 0 < i < |cs| :: cs[i] == rest[i - 1];
    }
  }

  lemma WitnessBagDateFree(cs: seq<Constraint>, bag: string)
    ensures DateFreeBag(WitnessBag(cs, bag, PlainValues(cs)))
  {
    hide ValueFor;
    var values := WitnessBag(cs, bag, PlainValues(cs));
    forall key | key in values ensures !values[key].Date? {
      ValueForMeets(cs, bag + "." + key);
    }
  }

  lemma WitnessDateFree(cs: seq<Constraint>)
    ensures DateFree(Witness(cs, PlainValues(cs)))
  {
    hide WitnessBag;
    WitnessBagDateFree(cs, "subject");
    WitnessBagDateFree(cs, "resource");
    WitnessBagDateFree(cs, "action");
    WitnessBagDateFree(cs, "environment");
  }

  lemma WitnessResolves(cs: seq<Constraint>, valueAt: string -> Value, i: nat)
    requires i < |cs| && WellFormedPath(cs[i].attribute)
    ensures Witness(cs, valueAt).Resolve(cs[i].attribute) == Some(valueAt(cs[i].attribute))
  {
    hide IndexOfDot;
    var path := cs[i].attribute;
    var bag, key := BagOf(path), KeyOf(path);
    assert path == bag + "." + key;
    assert key in WitnessBag(cs, bag, valueAt);
    assert Witness(cs, valueAt).Bag(bag) == Some(WitnessBag(cs, bag, valueAt));
  }

  /** The constraints on a path are compatible, and each can be met by a value that is no date. */
  predicate MetByPlain(cs: seq<Constraint>, path: string) {
    forall i, j | 0 <= i < |cs| && 0 <= j < |cs| && cs[i].attribute == path && cs[j].attribute == path ::
      Compatible(cs[i], cs[j]) && Satisfiable(cs[i])
  }

  lemma {:induction false} PlainValueMeets(parse: DateParser, cs: seq<Constraint>, i: nat, context: Context)
    requires i < |cs| && MetByPlain(cs, cs[i].attribute)
    requires context.Resolve(cs[i].attribute) == Some(ValueFor(cs, cs[i].attribute))
    ensures cs[i].Holds(parse, context)
  {
    hide ValueFor, WellFormedPath;
    ValueForMeets(cs, cs[i].attribute);
    assert Satisfiable(cs[i]);
    if ValueFor(cs, cs[i].attribute).Plain? {
      var j :| 0 <= j < |cs| && cs[j].attribute == cs[i].attribute && cs[j].equals && cs[j].literal.One? &&
        ValueFor(cs, cs[i].attribute) == Plain(cs[j].literal.scalar);
      assert Compatible(cs[j], cs[i]) && Satisfiable(cs[j]);
    }
  }

  /** A self-consistent, satisfiable conjunction holds on a request that can be written down. */
  lemma WitnessSatisfies(parse: DateParser, cs: seq<Constraint>)
    requires Overlaps(cs, cs) && AllSatisfiable(cs)
    ensures DateFree(Witness(cs, PlainValues(cs))) && AllHold(parse, cs, Witness(cs, PlainValues(cs)))
  {
    hide ValueFor, Witness, DateFree, Compatible;
    WitnessDateFree(cs);
    forall i | 0 <= i < |cs| ensures cs[i].Holds(parse, Witness(cs, PlainValues(cs))) {
      assert Satisfiable(cs[i]);
      WitnessResolves(cs, PlainValues(cs), i);
      PlainValueMeets(parse, cs, i, Witness(cs, PlainValues(cs)));
    }
  }

  /** Constraints that hold together of a value that is no date are compatible. */
  lemma HoldTogether(parse: DateParser, a: Constraint, b: Constraint, context: Context)
    requires context.Resolve(a.attribute).Some? ==> !context.Resolve(a.attribute).value.Date?
    requires a.Holds(parse, context) && b.Holds(parse, context)
    ensures Compatible(a, b) && Satisfiable(a)
  {
  }

  lemma HoldingOverlaps(parse: DateParser, a: seq<Constraint>, b: seq<Constraint>, context: Context)
    requires DateFree(context) && AllHold(parse, a, context) && AllHold(parse, b, context)
    ensures Overlaps(a, b)
  {
    hide DateFree, Compatible;
    forall i, j | 0 <= i < |a| && 0 <= j < |b| ensures Compatible(a[i], b[j]) {
      assert a[i].Holds(parse, context) && b[j].Holds(parse, context);
      DateFreeResolves(context, a[i].attribute);
      HoldTogether(parse, a[i], b[j], context);
    }
  }

  /** Which conjunctions a request without dates can meet. */
  lemma SatisfiableExactly(parse: DateParser, cs: seq<Constraint>)
    ensures (exists context :: DateFree(context) && AllHold(parse, cs, context)) <==>
      Overlaps(cs, cs) && AllSatisfiable(cs)
  {
    hide DateFree, Witness, Compatible, Satisfiable;
    if Overlaps(cs, cs) && AllSatisfiable(cs) {
      WitnessSatisfies(parse, cs);
    }
    if context :| DateFree(context) && AllHold(parse, cs, context) {
      HoldingOverlaps(parse, cs, cs, context);
      forall i | 0 <= i < |cs| ensures Satisfiable(cs[i]) {
        assert cs[i].Holds(parse, context);
        DateFreeResolves(context, cs[i].attribute);
        HoldTogether(parse, cs[i], cs[i], context);
      }
    }
  }

  // ---- Linting a policy set ------------------------------------------------

  datatype FindingType = Conflict | Shadow

  datatype Finding = Finding(kind: FindingType, earlier: string, later: string)

  datatype LintResult = LintResult(findings: seq<Finding>, unanalyzedPairs: nat)

  /** What the linter says of one pair of rules. */
  predicate Analyzed(earlier: Rule, later: Rule) {
    Extract(earlier.condition).Some? && Extract(later.condition).Some?
  }

  ghost predicate Conflicts(earlier: Rule, later: Rule) {
    Analyzed(earlier, later) && earlier.effect != later.effect &&
    Overlaps(Extract(earlier.condition).value, Extract(later.condition).value)
  }

  predicate Shadows(earlier: Rule, later: Rule) {
    Analyzed(earlier, later) && Implies(Extract(earlier.condition).value, Extract(later.condition).value)
  }

  ghost function PairFindings(earlier: Rule, later: Rule): seq<Finding> {
    (if Conflicts(earlier, later) then [Finding(Conflict, earlier.id, later.id)] else []) +
    (if Shadows(earlier, later) then [Finding(Shadow, earlier.id, later.id)] else [])
  }

  /** The findings of one rule against the first `n` of the rules behind it. */
  ghost function RowFindings(earlier: Rule, later: seq<Rule>): LintResult {
    if later == [] then LintResult([], 0)
    else
      var before, last := RowFindings(earlier, later[..|later| - 1]), later[|later| - 1];
      LintResult(before.findings + PairFindings(earlier, last),
                 before.unanalyzedPairs + if Analyzed(earlier, last) then 0 else 1)
  }

  ghost function Join(a: LintResult, b: LintResult): LintResult {
    LintResult(a.findings + b.findings, a.unanalyzedPairs + b.unanalyzedPairs)
  }

  /** The findings of the first `n` rules against all rules behind each. */
  ghost function Findings(rules: seq<Rule>, n: nat): LintResult
    requires n <= |rules|
  {
    if n == 0 then LintResult([], 0)
    else Join(Findings(rules, n - 1), RowFindings(rules[n - 1], rules[n..]))
  }

  method LintPair(earlier: Rule, later: Rule, a: Option<seq<Constraint>>, b: Option<seq<Constraint>>,
          before: LintResult)
    returns (r: LintResult)
    requires a == Extract(earlier.condition) && b == Extract(later.condition)
    ensures r.findings == before.findings + PairFindings(earlier, later)
    ensures r.unanalyzedPairs == before.unanalyzedPairs + if Analyzed(earlier, later) then 0 else 1
  {
    r := before;
    if a == None || b == None {
      return r.(unanalyzedPairs := r.unanalyzedPairs + 1);
    }
    if earlier.effect != later.effect {
      var overlapping := CheckOverlaps(a.value, b.value);
      if overlapping {
        r := r.(findings := r.findings + [Finding(Conflict, earlier.id, later.id)]);
      }
    }
    if Implies(a.value, b.value) {
      r := r.(findings := r.findings + [Finding(Shadow, earlier.id, later.id)]);
    }
  }

  /** The inner loop: one rule against all behind it. */
  method LintRow(earlier: Rule, later: seq<Rule>, a: Option<seq<Constraint>>, bs: seq<Option<seq<Constraint>>>,
          before: LintResult) returns (r: LintResult)
    requires a == Extract(earlier.condition)
    requires |bs| == |later| && forall k | 0 <= k < |later| :: bs[k] == Extract(later[k].condition)
    ensures r == Join(before, RowFindings(earlier, later))
  {
    hide Extract, Analyzed, PairFindings;
    r := before;
    assert before.findings + [] == before.findings;
    for j := 0 to |later|
      invariant r == Join(before, RowFindings(earlier, later[..j]))
    {
      assert later[..j + 1][..j] == later[..j];
      r := LintPair(earlier, later[j], a, bs[j], r);
    }
    assert later[..|later|] == later;
  }

  method Lint(rules: seq<Rule>) returns (r: LintResult)
    ensures r == Findings(rules, |rules|)
  {
    hide Extract, RowFindings, Join;
    var analyzed := [];
    for i := 0 to |rules|
      invariant |analyzed| == i
      invariant forall k | 0 <= k < i :: analyzed[k] == Extract(rules[k].condition)
    {
      var constraints := ExtractConstraints(rules[i].condition);
      analyzed := analyzed + [constraints];
    }
    r := LintResult([], 0);
    for position := 0 to |rules|
      invariant r == Findings(rules, position)
    {
      r := LintRow(rules[position], rules[position + 1..], analyzed[position], analyzed[position + 1..], r);
    }
  }

  // ---- What the linter reports ---------------------------------------------

  lemma {:induction false} RowReports(earlier: Rule, later: seq<Rule>, f: Finding)
    ensures f in RowFindings(earlier, later).findings <==>
      exists j | 0 <= j < |later| :: f in PairFindings(earlier, later[j])
    ensures RowFindings(earlier, later).unanalyzedPairs == 0 <==>
      forall j | 0 <= j < |later| :: Analyzed(earlier, later[j])
  {
    hide PairFindings, Analyzed;
    if later != [] {
      var n := |later| - 1;
      RowReports(earlier, later[..n], f);
      assert forall j | 0 <= j < n :: later[..n][j] == later[j];
    }
  }

  /** The linter reports exactly the conflicts and shadows of the pairs it could analyse. */
  lemma {:induction false} ReportsExactly(rules: seq<Rule>, n: nat, f: Finding)
    requires n <= |rules|
    ensures f in Findings(rules, n).findings <==>
      exists i, j | 0 <= i < n && i < j < |rules| :: f in PairFindings(rules[i], rules[j])
    ensures Findings(rules, n).unanalyzedPairs == 0 <==>
      forall i, j | 0 <= i < n && i < j < |rules| :: Analyzed(rules[i], rules[j])
  {
    hide PairFindings, Analyzed, RowFindings;
    if n > 0 {
      ReportsExactly(rules, n - 1, f);
      RowReports(rules[n - 1], rules[n..], f);
      assert forall j | n <= j < |rules| :: rules[n..][j - n] == rules[j];
    }
  }

  ghost predicate AsksFor(cs: seq<Constraint>, c: Constraint) {
    exists l | 0 <= l < |cs| ::
      cs[l].attribute == c.attribute && cs[l].equals == c.equals && SameLiteral(cs[l].literal, c.literal)
  }

  /** Every constraint of `broader` is one of `narrower`: same attribute, same operator, same literal. */
  ghost predicate AsksNoMore(broader: seq<Constraint>, narrower: seq<Constraint>) {
    forall k | 0 <= k < |broader| :: AsksFor(narrower, broader[k])
  }

  /** What a reported pair is. A shadow is one whatever the effects of the two rules. */
  lemma {:induction false} ReportedPairsExactly(rules: seq<Rule>, kind: FindingType, a: string, b: string)
    ensures Finding(kind, a, b) in Findings(rules, |rules|).findings <==>
      exists i, j | 0 <= i < j < |rules| ::
        && rules[i].id == a && rules[j].id == b && Analyzed(rules[i], rules[j])
        && (if kind == Conflict then
              rules[i].effect != rules[j].effect &&
              Overlaps(Extract(rules[i].condition).value, Extract(rules[j].condition).value)
            else AsksNoMore(Extract(rules[i].condition).value, Extract(rules[j].condition).value))
  {
    hide Findings, Overlaps, Extract, AsksNoMore, PairFindings;
    ReportsExactly(rules, |rules|, Finding(kind, a, b));
    forall i, j | 0 <= i < j < |rules| {
      PairFindingsExactly(rules[i], rules[j], kind, a, b);
    }
  }

  lemma PairFindingsExactly(earlier: Rule, later: Rule, kind: FindingType, a: string, b: string)
    ensures Finding(kind, a, b) in PairFindings(earlier, later) <==>
      && earlier.id == a && later.id == b && Analyzed(earlier, later)
      && (if kind == Conflict then
            earlier.effect != later.effect &&
            Overlaps(Extract(earlier.condition).value, Extract(later.condition).value)
          else AsksNoMore(Extract(earlier.condition).value, Extract(later.condition).value))
  {
    hide Overlaps, Extract, Implies, AsksNoMore;
    if Analyzed(earlier, later) {
      ImpliesExactly(Extract(earlier.condition).value, Extract(later.condition).value);
    }
  }

  lemma ImpliesExactly(broader: seq<Constraint>, narrower: seq<Constraint>)
    ensures Implies(broader, narrower) <==> AsksNoMore(broader, narrower)
  {
    hide SameLiteral;
    if Implies(broader, narrower) {
      forall k | 0 <= k < |broader| ensures AsksFor(narrower, broader[k]) {
        assert Includes(narrower, broader[k]);
        var j :| 0 <= j < |narrower| && SameConstraint(narrower[j], broader[k]);
      }
    }
    if AsksNoMore(broader, narrower) {
      forall i | 0 <= i < |broader| ensures Includes(narrower, broader[i]) {
        assert AsksFor(narrower, broader[i]);
        var l :| 0 <= l < |narrower| && narrower[l].attribute == broader[i].attribute &&
          narrower[l].equals == broader[i].equals && SameLiteral(narrower[l].literal, broader[i].literal);
        assert SameConstraint(narrower[l], broader[i]);
      }
    }
  }

  /** Two list literals are the same only if they are one list; texts, numbers and truth values, if they are equal. */
  lemma LiteralsExactly(a: Literal, b: Literal)
    ensures SameLiteral(a, b) <==>
      if a.Many? then b.Many? && a.identity == b.identity
      else b.One? && a.scalar == b.scalar && a.scalar != Number(NaN)
  {
  }

  function Unanalyzed(earlier: Rule, later: seq<Rule>): set<int> {
    set j | 0 <= j < |later| && !Analyzed(earlier, later[j])
  }

  lemma {:induction false} RowCounts(earlier: Rule, later: seq<Rule>)
    ensures RowFindings(earlier, later).unanalyzedPairs == |Unanalyzed(earlier, later)|
  {
    hide Analyzed, PairFindings;
    if later != [] {
      var n := |later| - 1;
      RowCounts(earlier, later[..n]);
      assert Unanalyzed(earlier, later) ==
        Unanalyzed(earlier, later[..n]) + if Analyzed(earlier, later[n]) then {} else {n};
    }
  }

  /** Each rule adds, to the pairs left unanalysed, the number of rules behind it that it could not be compared with. */
  lemma {:induction false} UnanalyzedExactly(rules: seq<Rule>, n: nat)
    requires n < |rules|
    ensures Findings(rules, 0).unanalyzedPairs == 0
    ensures Findings(rules, n + 1).unanalyzedPairs == Findings(rules, n).unanalyzedPairs +
      |Unanalyzed(rules[n], rules[n + 1..])|
  {
    hide Analyzed, RowFindings, Unanalyzed;
    RowCounts(rules[n], rules[n + 1..]);
  }

  /** A condition the linter can read: equalities and inequalities, joined by `and` at any depth. */
  predicate Conjunctive(c: Condition) {
    match c
    case Comparison(_, operator, _) => operator == Eq || operator == Neq
    case And(operands) => forall i | 0 <= i < |operands| :: Conjunctive(operands[i])
    case _ => false
  }

  /** The linter analyses exactly those. */
  lemma {:induction false} AnalyzesExactly(c: Condition)
    ensures Extract(c).Some? <==> Conjunctive(c)
    decreases c, 0
  {
    if c.And? {
      AnalyzesAllExactly(c.operands);
    }
  }

  lemma {:induction false} AnalyzesAllExactly(operands: seq<Condition>)
    ensures ExtractAll(operands).Some? <==> forall i | 0 <= i < |operands| :: Conjunctive(operands[i])
    decreases operands
  {
    if operands != [] {
      AnalyzesExactly(operands[0]);
      AnalyzesAllExactly(operands[1..]);
      assert forall i | 0 < i < |operands| :: operands[i] == operands[1..][i - 1];
      assert forall i | 0 <= i < |operands| - 1 :: operands[1..][i] == operands[i + 1];
    }
  }

  /** No conflict reported, and no pair left unanalysed. */
  ghost predicate CleanLint(rules: seq<Rule>) {
    var r := Findings(rules, |rules|);
    r.unanalyzedPairs == 0 && forall f | f in r.findings :: f.kind != Conflict
  }

  lemma CleanLintExactly(rules: seq<Rule>)
    ensures CleanLint(rules) <==>
      forall i, j | 0 <= i < j < |rules| :: Analyzed(rules[i], rules[j]) && !Conflicts(rules[i], rules[j])
  {
    hide Findings, Analyzed, Conflicts;
    var r := Findings(rules, |rules|);
    ReportsExactly(rules, |rules|, Finding(Conflict, "", ""));
    forall i, j | 0 <= i < j < |rules| && Conflicts(rules[i], rules[j])
      ensures Finding(Conflict, rules[i].id, rules[j].id) in r.findings
    {
      ReportsExactly(rules, |rules|, Finding(Conflict, rules[i].id, rules[j].id));
    }
    forall f | f in r.findings && f.kind == Conflict
      ensures exists i, j | 0 <= i < j < |rules| :: Conflicts(rules[i], rules[j])
    {
      ReportsExactly(rules, |rules|, f);
    }
  }

  // ---- Conflicts -----------------------------------------------------------

  /** The rule can match some request, as far as its own constraints go. */
  ghost predicate SelfConsistent(rule: Rule) {
    var cs := Extract(rule.condition);
    cs.Some? ==> AllSatisfiable(cs.value) && Overlaps(cs.value, cs.value)
  }

  ghost predicate BothMatch(parse: DateParser, a: Rule, b: Rule, context: Context) {
    Evaluate(parse, a.condition, context) && Evaluate(parse, b.condition, context)
  }

  lemma OverlapsOfConcat(a: seq<Constraint>, b: seq<Constraint>)
    requires Overlaps(a, a) && Overlaps(b, b) && Overlaps(a, b)
    ensures Overlaps(a + b, a + b)
  {
    var all := a + b;
    forall i, j | 0 <= i < |all| && 0 <= j < |all| ensures Compatible(all[i], all[j]) {
      if i >= |a| && j < |a| {
        assert Compatible(a[j], b[i - |a|]);
      }
    }
  }

  /** Every reported conflict between self-consistent rules has a witness, a request both rules match. */
  lemma ConflictHasWitness(parse: DateParser, a: Rule, b: Rule) returns (context: Context)
    requires Conflicts(a, b) && SelfConsistent(a) && SelfConsistent(b)
    ensures DateFree(context) && BothMatch(parse, a, b, context)
  {
    hide Extract, Compatible, Satisfiable, Witness, DateFree;
    var cs, ds := Extract(a.condition).value, Extract(b.condition).value;
    OverlapsOfConcat(cs, ds);
    WitnessSatisfies(parse, cs + ds);
    context := Witness(cs + ds, PlainValues(cs + ds));
    AllHoldOfConcat(parse, cs, ds, context);
    ExtractIsExact(parse, a.condition, context);
    ExtractIsExact(parse, b.condition, context);
  }

  /** Two rules that match one request without dates are self-consistent and overlap. */
  lemma MatchingRulesOverlap(parse: DateParser, a: Rule, b: Rule, context: Context)
    requires Analyzed(a, b) && DateFree(context) && BothMatch(parse, a, b, context)
    ensures SelfConsistent(a) && SelfConsistent(b)
    ensures Overlaps(Extract(a.condition).value, Extract(b.condition).value)
  {
    hide Extract, DateFree, Overlaps, AllSatisfiable;
    var cs, ds := Extract(a.condition).value, Extract(b.condition).value;
    ExtractIsExact(parse, a.condition, context);
    ExtractIsExact(parse, b.condition, context);
    SatisfiableExactly(parse, cs);
    SatisfiableExactly(parse, ds);
    HoldingOverlaps(parse, cs, ds, context);
  }

  /** When a request without dates realises a reported conflict: exactly when each rule is consistent by itself. */
  lemma DatelessConflictIsRealExactly(parse: DateParser, a: Rule, b: Rule)
    requires Conflicts(a, b)
    ensures (exists context :: DateFree(context) && BothMatch(parse, a, b, context)) <==>
      SelfConsistent(a) && SelfConsistent(b)
  {
    hide Extract, DateFree, Overlaps, AllSatisfiable, BothMatch;
    if SelfConsistent(a) && SelfConsistent(b) {
      var context := ConflictHasWitness(parse, a, b);
    }
    if context :| DateFree(context) && BothMatch(parse, a, b, context) {
      MatchingRulesOverlap(parse, a, b, context);
    }
  }

  // ---- Order and strategy --------------------------------------------------

  ghost predicate StrategiesAgreeOn(parse: DateParser, rules: seq<Rule>, context: Context) {
    var outcomes := Outcomes(parse, rules, context);
    FirstApplicable(outcomes) == DenyOverrides(outcomes) == PermitOverrides(outcomes)
  }

  lemma OutcomesOppose(parse: DateParser, rules: seq<Rule>, context: Context) returns (i: nat, j: nat)
    requires PERMIT in Outcomes(parse, rules, context) && DENY in Outcomes(parse, rules, context)
    ensures i < j < |rules| && rules[i].effect != rules[j].effect && BothMatch(parse, rules[i], rules[j], context)
  {
    hide Evaluate, Outcomes;
    var outcomes := Outcomes(parse, rules, context);
    i :| 0 <= i < |outcomes| && outcomes[i] == PERMIT;
    j :| 0 <= j < |outcomes| && outcomes[j] == DENY;
    if j < i {
      i, j := j, i;
    }
  }

  lemma OpposedOutcomes(parse: DateParser, rules: seq<Rule>, context: Context)
    ensures !StrategiesAgreeOn(parse, rules, context) <==>
      exists i, j | 0 <= i < j < |rules| ::
        rules[i].effect != rules[j].effect && BothMatch(parse, rules[i], rules[j], context)
  {
    hide Evaluate, Outcomes;
    var outcomes := Outcomes(parse, rules, context);
    StrategiesAgree(outcomes);
    if PERMIT in outcomes && DENY in outcomes {
      var i, j := OutcomesOppose(parse, rules, context);
    }
    if exists i, j | 0 <= i < j < |rules| ::
      rules[i].effect != rules[j].effect && BothMatch(parse, rules[i], rules[j], context)
    {
      var i, j :| 0 <= i < j < |rules| && rules[i].effect != rules[j].effect &&
        BothMatch(parse, rules[i], rules[j], context);
      assert outcomes[i] == rules[i].effect && outcomes[j] == rules[j].effect;
    }
  }

  /** After a clean lint, neither rule order nor strategy matters on any request without dates. */
  lemma CleanLintAgrees(parse: DateParser, rules: seq<Rule>, context: Context)
    requires CleanLint(rules) && DateFree(context)
    ensures StrategiesAgreeOn(parse, rules, context)
  {
    hide CleanLint, Extract, Overlaps, DateFree, BothMatch, StrategiesAgreeOn;
    CleanLintExactly(rules);
    OpposedOutcomes(parse, rules, context);
    if !StrategiesAgreeOn(parse, rules, context) {
      var i, j :| 0 <= i < j < |rules| && rules[i].effect != rules[j].effect &&
        BothMatch(parse, rules[i], rules[j], context);
      assert Analyzed(rules[i], rules[j]) && !Conflicts(rules[i], rules[j]);
      MatchingRulesOverlap(parse, rules[i], rules[j], context);
    }
  }

  /** For rules the linter can analyse, each consistent by itself, its verdict is exact. */
  lemma LintDecidesAgreement(parse: DateParser, rules: seq<Rule>)
    requires forall i | 0 <= i < |rules| :: Extract(rules[i].condition).Some? && SelfConsistent(rules[i])
    ensures CleanLint(rules) <==> forall context | DateFree(context) :: StrategiesAgreeOn(parse, rules, context)
  {
    hide CleanLint, Extract, SelfConsistent, Overlaps, DateFree, BothMatch, StrategiesAgreeOn;
    if CleanLint(rules) {
      forall context | DateFree(context) ensures StrategiesAgreeOn(parse, rules, context) {
        CleanLintAgrees(parse, rules, context);
      }
    } else {
      CleanLintExactly(rules);
      var i, j :| 0 <= i < j < |rules| && !(Analyzed(rules[i], rules[j]) && !Conflicts(rules[i], rules[j]));
      var context := ConflictHasWitness(parse, rules[i], rules[j]);
      OpposedOutcomes(parse, rules, context);
    }
  }

  /** A rule that compares one attribute of the action with a text. */
  function AtRule(id: string, effect: Effect, text: string): Rule {
    Rule(id, effect, Comparison("action" + "." + "at", Eq, One(Str(text))))
  }

  function AtContext(time: Num): Context { Context(map[], map[], map["at" := Date(time)], map[]) }

  lemma ResolvesInBag(bag: string, key: string, context: Context)
    requires '.' !in bag && context.Bag(bag).Some? && key in context.Bag(bag).value
    ensures context.Resolve(bag + "." + key) == Some(context.Bag(bag).value[key])
  {
    hide IndexOfDot;
    SplitsAtDot(bag, key);
  }

  lemma DateMatches(parse: DateParser, id: string, effect: Effect, text: string, time: Num)
    requires SameNum(parse(text), time)
    ensures Evaluate(parse, AtRule(id, effect, text).condition, AtContext(time))
  {
    hide IndexOfDot;
    ResolvesInBag("action", "at", AtContext(time));
  }

  /** Dates defeat the linter: two spellings of one instant are different literals. */
  lemma DatesDefeatTheLint(parse: DateParser, a: string, b: string)
    requires a != b && SameNum(parse(a), parse(b))
    ensures exists rules, context :: CleanLint(rules) && !StrategiesAgreeOn(parse, rules, context)
  {
    hide Evaluate, CleanLint, StrategiesAgreeOn, AtContext;
    var rules := [AtRule("1", PERMIT, a), AtRule("2", DENY, b)];
    var context := AtContext(parse(a));
    DateMatches(parse, "1", PERMIT, a, parse(a));
    DateMatches(parse, "2", DENY, b, parse(a));
    var c, d := Extract(rules[0].condition).value, Extract(rules[1].condition).value;
    assert !Compatible(c[0], d[0]);
    CleanLintExactly(rules);
    assert BothMatch(parse, rules[0], rules[1], context);
    OpposedOutcomes(parse, rules, context);
  }

  // ---- Shadowed rules ------------------------------------------------------

  ghost predicate Shadowed(rules: seq<Rule>, j: nat)
    requires j < |rules|
  {
    exists i | 0 <= i < j :: Shadows(rules[i], rules[j])
  }

  /** The rules among the first `n` that no earlier rule shadows. */
  ghost function Unshadowed(rules: seq<Rule>, n: nat): seq<Rule>
    requires n <= |rules|
  {
    if n == 0 then []
    else Unshadowed(rules, n - 1) + if Shadowed(rules, n - 1) then [] else [rules[n - 1]]
  }

  lemma {:induction false} ShadowingRuleMatches(parse: DateParser, earlier: Rule, later: Rule, context: Context)
    requires Shadows(earlier, later) && Evaluate(parse, later.condition, context)
    ensures Evaluate(parse, earlier.condition, context)
  {
    hide Extract, Implies;
    ExtractIsExact(parse, earlier.condition, context);
    ExtractIsExact(parse, later.condition, context);
    ImpliesIsSound(parse, Extract(earlier.condition).value, Extract(later.condition).value, context);
  }

  lemma {:induction false} OutcomesOfAppend(parse: DateParser, rules: seq<Rule>, rule: Rule, context: Context)
    ensures Outcomes(parse, rules + [rule], context) ==
      Outcomes(parse, rules, context) + [OutcomeOf(parse, rule, context)]
  {
    hide OutcomeOf;
    assert (rules + [rule])[..|rules|] == rules;
  }

  /** A shadowed rule never decides: where it matches, an earlier rule has. */
  lemma {:induction false} UnshadowedDecide(parse: DateParser, rules: seq<Rule>, n: nat, context: Context)
    requires n <= |rules|
    ensures FirstApplicable(Outcomes(parse, Unshadowed(rules, n), context)) ==
      FirstApplicable(Outcomes(parse, rules[..n], context))
  {
    hide Outcomes, OutcomeOf, Shadowed, FirstApplicable;
    if n > 0 {
      UnshadowedDecide(parse, rules, n - 1, context);
      var kept, before, last := Unshadowed(rules, n - 1), rules[..n - 1], rules[n - 1];
      assert rules[..n] == before + [last];
      OutcomesOfAppend(parse, before, last, context);
      OutcomesOfAppend(parse, kept, last, context);
      FirstApplicableOfConcat(Outcomes(parse, before, context), [OutcomeOf(parse, last, context)]);
      FirstApplicableOfConcat(Outcomes(parse, kept, context), [OutcomeOf(parse, last, context)]);
      if Shadowed(rules, n - 1) {
        assert kept + [] == kept;
        if FirstApplicable(Outcomes(parse, before, context)) == NOT_APPLICABLE {
          ShadowedIsLate(parse, rules, n - 1, context);
        }
      }
    } else {
      assert rules[..0] == [];
    }
  }

  lemma {:induction false} ShadowedIsLate(parse: DateParser, rules: seq<Rule>, j: nat, context: Context)
    requires j < |rules| && Shadowed(rules, j)
    requires FirstApplicable(Outcomes(parse, rules[..j], context)) == NOT_APPLICABLE
    ensures FirstApplicable([OutcomeOf(parse, rules[j], context)]) == NOT_APPLICABLE
  {
    hide Evaluate, Shadows;
    var i :| 0 <= i < j && Shadows(rules[i], rules[j]);
    var outcomes := Outcomes(parse, rules[..j], context);
    FirstApplicableIsFirst(outcomes);
    assert outcomes[i] == OutcomeOf(parse, rules[i], context);
    if Evaluate(parse, rules[j].condition, context) {
      ShadowingRuleMatches(parse, rules[i], rules[j], context);
    }
  }

  /** Deleting every shadowed rule at once changes no decision, on any request whatever. */
  lemma {:induction false} ShadowedRulesAreDead(parse: DateParser, rules: seq<Rule>, context: Context)
    ensures FirstApplicable(Outcomes(parse, Unshadowed(rules, |rules|), context)) ==
      FirstApplicable(Outcomes(parse, rules, context))
  {
    hide FirstApplicable, Outcomes, Unshadowed;
    UnshadowedDecide(parse, rules, |rules|, context);
    assert rules[..|rules|] == rules;
  }

  ghost predicate DistinctIds(rules: seq<Rule>) {
    forall i, j | 0 <= i < j < |rules| :: rules[i].id != rules[j].id
  }

  /** Findings name rules by id, so ids must tell rules apart; then they name exactly the shadowed ones. */
  lemma {:induction false} ReportedShadowsExactly(rules: seq<Rule>, j: nat)
    requires DistinctIds(rules) && j < |rules|
    ensures (exists f | f in Findings(rules, |rules|).findings :: f.kind == Shadow && f.later == rules[j].id) <==>
      Shadowed(rules, j)
  {
    hide Findings, Shadowed, DistinctIds;
    if Shadowed(rules, j) {
      ShadowedIsReported(rules, j);
    }
    if f :| f in Findings(rules, |rules|).findings && f.kind == Shadow && f.later == rules[j].id {
      ReportedIsShadowed(rules, j, f);
    }
  }

  lemma {:induction false} ShadowedIsReported(rules: seq<Rule>, j: nat)
    requires j < |rules| && Shadowed(rules, j)
    ensures exists f | f in Findings(rules, |rules|).findings :: f.kind == Shadow && f.later == rules[j].id
  {
    hide Findings, Shadows, Conflicts;
    var i :| 0 <= i < j && Shadows(rules[i], rules[j]);
    var f := Finding(Shadow, rules[i].id, rules[j].id);
    assert f in PairFindings(rules[i], rules[j]);
    ReportsExactly(rules, |rules|, f);
  }

  lemma {:induction false} ReportedIsShadowed(rules: seq<Rule>, j: nat, f: Finding)
    requires DistinctIds(rules) && j < |rules|
    requires f in Findings(rules, |rules|).findings && f.kind == Shadow && f.later == rules[j].id
    ensures Shadowed(rules, j)
  {
    hide Findings, Shadows, Conflicts;
    ReportsExactly(rules, |rules|, f);
    var i, k :| 0 <= i < |rules| && i < k < |rules| && f in PairFindings(rules[i], rules[k]);
    assert rules[k].id == rules[j].id;
    assert k == j;
  }

  /** The rules left after deleting every one a shadow finding names. */
  ghost function WithoutReported(rules: seq<Rule>, n: nat): seq<Rule>
    requires n <= |rules|
  {
    if n == 0 then []
    else
      var findings := Findings(rules, |rules|).findings;
      var reported := exists f | f in findings :: f.kind == Shadow && f.later == rules[n - 1].id;
      WithoutReported(rules, n - 1) + if reported then [] else [rules[n - 1]]
  }

  lemma {:induction false} WithoutReportedIsUnshadowed(rules: seq<Rule>, n: nat)
    requires DistinctIds(rules) && n <= |rules|
    ensures WithoutReported(rules, n) == Unshadowed(rules, n)
  {
    hide Findings, Shadowed, DistinctIds;
    if n > 0 {
      WithoutReportedIsUnshadowed(rules, n - 1);
      ReportedShadowsExactly(rules, n - 1);
    }
  }

  /** Deleting at once all rules reported as shadowed leaves every first-applicable decision as it was. */
  lemma {:induction false} DeletingReportedShadows(parse: DateParser, rules: seq<Rule>, context: Context)
    requires DistinctIds(rules)
    ensures FirstApplicable(Outcomes(parse, WithoutReported(rules, |rules|), context)) ==
      FirstApplicable(Outcomes(parse, rules, context))
  {
    hide FirstApplicable, Outcomes, Unshadowed, WithoutReported;
    WithoutReportedIsUnshadowed(rules, |rules|);
    ShadowedRulesAreDead(parse, rules, context);
  }
}
