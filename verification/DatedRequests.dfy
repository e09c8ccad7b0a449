/**
 What the linter's verdicts mean for requests that may hold dates.

 A date is compared through the instant that a text parses to, so constraints
 with different texts can be met by one date, and the linter does not see it.
 */
module DatedRequests {
  import opened Options
  import opened Conditions
  import opened PolicyLinter

  /** The instant a literal stands for when it is compared with a date, or NaN. */
  function TimeOf(parse: DateParser, literal: Literal): Num {
    match literal
    case One(Str(text)) => parse(text)
    case _ => NaN
  }

  /** One date can meet both constraints, taken to be on one path. */
  predicate DateCompatible(parse: DateParser, a: Constraint, b: Constraint) {
    var same := SameNum(TimeOf(parse, a.literal), TimeOf(parse, b.literal));
    if a.equals && b.equals then same else if a.equals || b.equals then !same else true
  }

  predicate MetByDate(parse: DateParser, cs: seq<Constraint>, path: string) {
    forall i, j | 0 <= i < |cs| && 0 <= j < |cs| && cs[i].attribute == path && cs[j].attribute == path ::
      DateCompatible(parse, cs[i], cs[j])
  }

  /** Every path names a known bag, and its constraints can be met by one value, plain or a date. */
  predicate Meetable(parse: DateParser, cs: seq<Constraint>) {
    forall i | 0 <= i < |cs| ::
      WellFormedPath(cs[i].attribute) && (MetByPlain(cs, cs[i].attribute) || MetByDate(parse, cs, cs[i].attribute))
  }

  // ---- A request for every meetable conjunction ------------------------------

  /** The instant the first equality on a path asks for. */
  function FirstTime(parse: DateParser, cs: seq<Constraint>, path: string): Num {
    if cs == [] then NaN
    else if cs[0].attribute == path && cs[0].equals then TimeOf(parse, cs[0].literal)
    else FirstTime(parse, cs[1..], path)
  }

  function ChosenValues(parse: DateParser, cs: seq<Constraint>): string -> Value {
    (path: string) => if MetByPlain(cs, path) then ValueFor(cs, path) else Date(FirstTime(parse, cs, path))
  }

  lemma {:induction false} FirstTimeFrom(parse: DateParser, cs: seq<Constraint>, path: string, k: nat) returns (j: nat)
    requires k < |cs| && cs[k].attribute == path && cs[k].equals
    ensures j < |cs| && cs[j].attribute == path && cs[j].equals
    ensures FirstTime(parse, cs, path) == TimeOf(parse, cs[j].literal)
    decreases cs
  {
    if cs[0].attribute == path && cs[0].equals {
      j := 0;
    } else {
      j := FirstTimeFrom(parse, cs[1..], path, k - 1);
      j := j + 1;
    }
  }

  /** Only an equality can be in the way of a plain value. */
  lemma EqualityOnPath(cs: seq<Constraint>, path: string) returns (k: nat)
    requires WellFormedPath(path) && !MetByPlain(cs, path)
    ensures k < |cs| && cs[k].attribute == path && cs[k].equals
  {
    var i, j :| 0 <= i < |cs| && 0 <= j < |cs| && cs[i].attribute == path && cs[j].attribute == path &&
      !(Compatible(cs[i], cs[j]) && Satisfiable(cs[i]));
    k := if cs[i].equals then i else j;
  }

  lemma {:induction false} DateMeets(parse: DateParser, cs: seq<Constraint>, i: nat, context: Context)
    requires i < |cs| && WellFormedPath(cs[i].attribute)
    requires !MetByPlain(cs, cs[i].attribute) && MetByDate(parse, cs, cs[i].attribute)
    requires context.Resolve(cs[i].attribute) == Some(Date(FirstTime(parse, cs, cs[i].attribute)))
    ensures cs[i].Holds(parse, context)
  {
    hide MetByPlain, WellFormedPath, FirstTime;
    var k := EqualityOnPath(cs, cs[i].attribute);
    var j := FirstTimeFrom(parse, cs, cs[i].attribute, k);
    assert DateCompatible(parse, cs[j], cs[j]) && DateCompatible(parse, cs[j], cs[i]);
  }

  lemma MeetableHolds(parse: DateParser, cs: seq<Constraint>)
    requires Meetable(parse, cs)
    ensures AllHold(parse, cs, Witness(cs, ChosenValues(parse, cs)))
  {
    hide MetByPlain, MetByDate, WellFormedPath, Witness, ValueFor, FirstTime;
    var context := Witness(cs, ChosenValues(parse, cs));
    forall i | 0 <= i < |cs| ensures cs[i].Holds(parse, context) {
      WitnessResolves(cs, ChosenValues(parse, cs), i);
      if MetByPlain(cs, cs[i].attribute) {
        PlainValueMeets(parse, cs, i, context);
      } else {
        DateMeets(parse, cs, i, context);
      }
    }
  }

  // ---- And no other -----------------------------------------------------------

  lemma DateHoldsTogether(parse: DateParser, a: Constraint, b: Constraint, context: Context)
    requires a.attribute == b.attribute && a.Holds(parse, context) && b.Holds(parse, context)
    requires context.Resolve(a.attribute).value.Date?
    ensures DateCompatible(parse, a, b)
  {
  }

  lemma HoldingIsMeetable(parse: DateParser, cs: seq<Constraint>, context: Context)
    requires AllHold(parse, cs, context)
    ensures Meetable(parse, cs)
  {
    hide Compatible, Satisfiable, WellFormedPath, DateCompatible;
    forall k | 0 <= k < |cs|
      ensures WellFormedPath(cs[k].attribute)
      ensures MetByPlain(cs, cs[k].attribute) || MetByDate(parse, cs, cs[k].attribute)
    {
      var path := cs[k].attribute;
      assert cs[k].Holds(parse, context);
      HoldsOnKnownPath(parse, cs[k], context);
      forall i, j | 0 <= i < |cs| && 0 <= j < |cs| && cs[i].attribute == path && cs[j].attribute == path
        ensures context.Resolve(path).value.Date? ==> DateCompatible(parse, cs[i], cs[j])
        ensures !context.Resolve(path).value.Date? ==> Compatible(cs[i], cs[j]) && Satisfiable(cs[i])
      {
        assert cs[i].Holds(parse, context) && cs[j].Holds(parse, context);
        if context.Resolve(path).value.Date? {
          DateHoldsTogether(parse, cs[i], cs[j], context);
        } else {
          HoldTogether(parse, cs[i], cs[j], context);
        }
      }
    }
  }

  lemma HoldsOnKnownPath(parse: DateParser, c: Constraint, context: Context)
    requires c.Holds(parse, context)
    ensures WellFormedPath(c.attribute) && context.Resolve(c.attribute).Some?
  {
  }

  /** Which conjunctions any request at all can meet. */
  lemma MeetableExactly(parse: DateParser, cs: seq<Constraint>)
    ensures (exists context :: AllHold(parse, cs, context)) <==> Meetable(parse, cs)
  {
    hide Meetable, AllHold;
    if Meetable(parse, cs) {
      MeetableHolds(parse, cs);
    }
    if context :| AllHold(parse, cs, context) {
      HoldingIsMeetable(parse, cs, context);
    }
  }

  // ---- Rules ------------------------------------------------------------------

  /** The constraints of both rules together. */
  function Together(a: Rule, b: Rule): seq<Constraint>
    requires Analyzed(a, b)
  {
    Extract(a.condition).value + Extract(b.condition).value
  }

  lemma BothMatchExactly(parse: DateParser, a: Rule, b: Rule, context: Context)
    requires Analyzed(a, b)
    ensures BothMatch(parse, a, b, context) <==> AllHold(parse, Together(a, b), context)
  {
    hide Extract, AllHold, Evaluate;
    ExtractIsExact(parse, a.condition, context);
    ExtractIsExact(parse, b.condition, context);
    AllHoldOfConcat(parse, Extract(a.condition).value, Extract(b.condition).value, context);
  }

  lemma RulesMeetExactly(parse: DateParser, a: Rule, b: Rule)
    requires Analyzed(a, b)
    ensures (exists context :: BothMatch(parse, a, b, context)) <==> Meetable(parse, Together(a, b))
  {
    hide Meetable, AllHold, BothMatch, Together, Analyzed;
    MeetableExactly(parse, Together(a, b));
    if context :| BothMatch(parse, a, b, context) {
      BothMatchExactly(parse, a, b, context);
    }
    if context :| AllHold(parse, Together(a, b), context) {
      BothMatchExactly(parse, a, b, context);
    }
  }

  /**
   When a reported conflict is real: some request, with or without dates, matches
   both rules exactly when on each path one scalar, or one date, meets what the two
   rules together require.
   */
  lemma ConflictIsRealExactly(parse: DateParser, a: Rule, b: Rule)
    requires Conflicts(a, b)
    ensures (exists context :: BothMatch(parse, a, b, context)) <==> Meetable(parse, Together(a, b))
  {
    hide Meetable, BothMatch, Together, Overlaps, Extract;
    RulesMeetExactly(parse, a, b);
  }

  /** Rules of opposite effect that one request can match. */
  predicate Clash(parse: DateParser, a: Rule, b: Rule)
    requires Analyzed(a, b)
  {
    a.effect != b.effect && Meetable(parse, Together(a, b))
  }

  /** The strategies agree on every request exactly when no two opposed rules can be met together. */
  lemma AgreementExactly(parse: DateParser, rules: seq<Rule>)
    requires forall i | 0 <= i < |rules| :: Extract(rules[i].condition).Some?
    ensures (forall context :: StrategiesAgreeOn(parse, rules, context)) <==>
      forall i, j | 0 <= i < j < |rules| :: !Clash(parse, rules[i], rules[j])
  {
    hide Meetable, BothMatch, Together, Extract, StrategiesAgreeOn;
    if context :| !StrategiesAgreeOn(parse, rules, context) {
      OpposedOutcomes(parse, rules, context);
      var i, j :| 0 <= i < j < |rules| && rules[i].effect != rules[j].effect &&
        BothMatch(parse, rules[i], rules[j], context);
      RulesMeetExactly(parse, rules[i], rules[j]);
    }
    if i, j :| 0 <= i < j < |rules| && Clash(parse, rules[i], rules[j]) {
      RulesMeetExactly(parse, rules[i], rules[j]);
      var context :| BothMatch(parse, rules[i], rules[j], context);
      OpposedOutcomes(parse, rules, context);
    }
  }

  // ---- A conflict that may not be one --------------------------------------------

  const ROLE := "subject" + "." + "role"
  const KIND := "resource" + "." + "kind"

  /** A rule that asks one attribute to be two texts. */
  function TwoTexts(x: string, y: string): Rule {
    Rule("1", PERMIT, And([Comparison(ROLE, Eq, One(Str(x))), Comparison(ROLE, Eq, One(Str(y)))]))
  }

  function OtherRule(z: string): Rule { Rule("2", DENY, Comparison(KIND, Eq, One(Str(z)))) }

  /**
   The linter reports a conflict between a rule that asks an attribute to be two
   different texts and any opposite rule on another attribute. There is a request
   that matches both if the two texts spell one instant, and none otherwise; none
   without dates in any case.
   */
  lemma TwoTextsConflict(parse: DateParser, x: string, y: string, z: string)
    requires x != y
    ensures Conflicts(TwoTexts(x, y), OtherRule(z)) && !SelfConsistent(TwoTexts(x, y))
    ensures (exists context :: BothMatch(parse, TwoTexts(x, y), OtherRule(z), context)) <==> SameNum(parse(x), parse(y))
    ensures !exists context :: DateFree(context) && BothMatch(parse, TwoTexts(x, y), OtherRule(z), context)
  {
    hide BothMatch, SelfConsistent, Conflicts;
    TwoTextsReported(x, y, z);
    DatelessConflictIsRealExactly(parse, TwoTexts(x, y), OtherRule(z));
    if SameNum(parse(x), parse(y)) {
      TwoTextsMet(parse, x, y, z);
    }
    if context :| BothMatch(parse, TwoTexts(x, y), OtherRule(z), context) {
      TwoTextsMatch(parse, x, y, z, context);
    }
  }

  lemma TwoTextsExtracted(x: string, y: string)
    ensures Extract(TwoTexts(x, y).condition) ==
      Some([Constraint(ROLE, true, One(Str(x))), Constraint(ROLE, true, One(Str(y)))])
  {
    var c, d := Comparison(ROLE, Eq, One(Str(x))), Comparison(ROLE, Eq, One(Str(y)));
    var first, second := Constraint(ROLE, true, One(Str(x))), Constraint(ROLE, true, One(Str(y)));
    assert [second] + [] == [second];
    assert [d][1..] == [] && ExtractAll([]) == Some([]);
    assert Extract(d) == Some([second]) && ExtractAll([d]) == Some([second]);
    assert [c, d][1..] == [d] && [first] + [second] == [first, second];
    assert Extract(c) == Some([first]) && ExtractAll([c, d]) == Some([first, second]);
  }

  lemma TwoTextsReported(x: string, y: string, z: string)
    requires x != y
    ensures Conflicts(TwoTexts(x, y), OtherRule(z)) && !SelfConsistent(TwoTexts(x, y))
  {
    TwoTextsExtracted(x, y);
    assert ROLE[0] != KIND[0];
    var cs := Extract(TwoTexts(x, y).condition).value;
    assert !Compatible(cs[0], cs[1]);
  }

  lemma TwoTextsMatch(parse: DateParser, x: string, y: string, z: string, context: Context)
    requires x != y && BothMatch(parse, TwoTexts(x, y), OtherRule(z), context)
    ensures SameNum(parse(x), parse(y))
  {
    hide IndexOfDot;
    var operands := TwoTexts(x, y).condition.operands;
    assert Evaluate(parse, operands[0], context) && Evaluate(parse, operands[1], context);
  }

  lemma TwoTextsMet(parse: DateParser, x: string, y: string, z: string)
    requires SameNum(parse(x), parse(y))
    ensures exists context :: BothMatch(parse, TwoTexts(x, y), OtherRule(z), context)
  {
    hide IndexOfDot;
    var context := Context(map["role" := Date(parse(x))], map["kind" := Plain(Str(z))], map[], map[]);
    ResolvesInBag("subject", "role", context);
    ResolvesInBag("resource", "kind", context);
    assert Evaluate(parse, TwoTexts(x, y).condition, context);
    assert BothMatch(parse, TwoTexts(x, y), OtherRule(z), context);
  }
}
