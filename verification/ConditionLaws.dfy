/**
 * What a gate condition means, independently of the evaluator: three outcomes,
 * decided from the left, and the set of facts a reading must look at. The
 * evaluator computes exactly this within the limits, so two conditions with
 * the same meaning are interchangeable.
 */
module ConditionLaws {
  import opened Text
  import opened Wrappers
  import opened Conditions

  // ---------------------------------------------------------------------
  // Reference semantics
  // ---------------------------------------------------------------------

  datatype Truth = True | False | Error(code: Code)

  function Flip(t: Truth): Truth {
    match t
    case True => False
    case False => True
    case Error(_) => t
  }

  function ComparisonTruth(left: Expression, operator: Operator, right: Expression, facts: Facts): Truth {
    if left.Fact? && left.name !in facts then Error(FactMissing(left.name))
    else if right.Fact? && right.name !in facts then Error(FactMissing(right.name))
    else
      var l := if left.Fact? then facts[left.name] else left.value;
      var r := if right.Fact? then facts[right.name] else right.value;
      match Compared(l, operator, r)
      case None => Error(TypeMismatch(operator))
      case Some(b) => if b then True else False
  }

  function Meaning(c: Condition, facts: Facts): Truth
    decreases c, 1
  {
    match c
    case Exists(fact) => if fact in facts then True else False
    case Not(d) => Flip(Meaning(d, facts))
    case All(cs) => FirstOther(cs, facts, True)
    case Any(cs) => FirstOther(cs, facts, False)
    case Compare(left, operator, right) => ComparisonTruth(left, operator, right, facts)
  }

  // The leftmost outcome that differs from the neutral one, or the neutral one.
  function FirstOther(cs: seq<Condition>, facts: Facts, neutral: Truth): Truth
    decreases cs, 0
  {
    if cs == [] then neutral
    else if Meaning(cs[0], facts) != neutral then Meaning(cs[0], facts)
    else FirstOther(cs[1..], facts, neutral)
  }

  ghost function Named(e: Expression): set<string> {
    if e.Fact? then {e.name} else {}
  }

  // The facts that decide the outcome: nothing to the right of the deciding child.
  ghost function Reads(c: Condition, facts: Facts): set<string>
    decreases c, 1
  {
    match c
    case Exists(fact) => {fact}
    case Not(d) => Reads(d, facts)
    case All(cs) => ReadsUntil(cs, facts, True)
    case Any(cs) => ReadsUntil(cs, facts, False)
    case Compare(left, _, right) => Named(left) + Named(right)
  }

  ghost function ReadsUntil(cs: seq<Condition>, facts: Facts, neutral: Truth): set<string>
    decreases cs, 0
  {
    if cs == [] then {}
    else if Meaning(cs[0], facts) != neutral then Reads(cs[0], facts)
    else Reads(cs[0], facts) + ReadsUntil(cs[1..], facts, neutral)
  }

  function TruthOf(r: ConditionResult): Truth {
    match r
    case Success(value, _) => if value then True else False
    case Failure(code, _) => Error(code)
  }

  // A result that carries this outcome and lists these facts, sorted and once each.
  ghost predicate Reports(r: ConditionResult, truth: Truth, read: set<string>) {
    TruthOf(r) == truth && StrictlySorted(r.factsUsed) && Elems(r.factsUsed) == read
  }

  lemma ReportsUnique(a: ConditionResult, b: ConditionResult, truth: Truth, read: set<string>)
    requires Reports(a, truth, read) && Reports(b, truth, read)
    ensures a == b
  {
    StrictlySortedUnique(a.factsUsed, b.factsUsed);
  }

  // ---------------------------------------------------------------------
  // The evaluator computes the meaning while its budget lasts
  // ---------------------------------------------------------------------

  // The nodes that a reading visits: nothing to the right of the deciding child.
  ghost function Visits(c: Condition, facts: Facts): nat
    decreases c, 1
  {
    match c
    case Not(d) => 1 + Visits(d, facts)
    case All(cs) => 1 + VisitsUntil(cs, facts, True)
    case Any(cs) => 1 + VisitsUntil(cs, facts, False)
    case _ => 1
  }

  ghost function VisitsUntil(cs: seq<Condition>, facts: Facts, neutral: Truth): nat
    decreases cs, 0
  {
    if cs == [] then 0
    else if Meaning(cs[0], facts) != neutral then Visits(cs[0], facts)
    else Visits(cs[0], facts) + VisitsUntil(cs[1..], facts, neutral)
  }

  lemma {:induction false} VisitsWithinSize(c: Condition, facts: Facts)
    ensures Visits(c, facts) <= Size(c)
    decreases c, 1
  {
    match c {
      case Not(d) => VisitsWithinSize(d, facts);
      case All(cs) => VisitsUntilWithinSize(cs, facts, True);
      case Any(cs) => VisitsUntilWithinSize(cs, facts, False);
      case _ =>
    }
  }

  lemma {:induction false} VisitsUntilWithinSize(cs: seq<Condition>, facts: Facts, neutral: Truth)
    ensures VisitsUntil(cs, facts, neutral) <= SizeAll(cs)
    decreases cs, 0
  {
    if cs != [] {
      VisitsWithinSize(cs[0], facts);
      VisitsUntilWithinSize(cs[1..], facts, neutral);
    }
  }

  // The budget covers the visits, and the rest of it is left; or it runs out, and that is the answer.
  ghost predicate Computes(got: (ConditionResult, int), truth: Truth, read: set<string>, visits: nat, remaining: int) {
    if remaining >= visits then Reports(got.0, truth, read) && got.1 == remaining - visits
    else TruthOf(got.0) == Error(LimitExceeded)
  }

  lemma CompareReports(c: Condition, facts: Facts)
    requires c.Compare?
    ensures Reports(CompareResult(c, facts), Meaning(c, facts), Reads(c, facts))
  {
    ElemsConcat(Uses(c.left), Uses(c.right));
    assert Elems(Uses(c.left)) == Named(c.left);
    assert Elems(Uses(c.right)) == Named(c.right);
  }

  /** With a budget for the nodes it visits the evaluator reports the meaning and spends exactly that; with less it reports the limit. */
  lemma {:induction false} EvalComputes(c: Condition, facts: Facts, remaining: int)
    ensures Computes(Eval(c, facts, remaining), Meaning(c, facts), Reads(c, facts), Visits(c, facts), remaining)
    decreases c, 1
  {
    hide SortedUnique;
    if remaining > 0 {
      match c {
        case Exists(fact) =>
          assert Elems([fact]) == {fact};
        case Not(d) =>
          EvalComputes(d, facts, remaining - 1);
        case All(cs) =>
          EvalSomeComputes(cs, facts, remaining - 1, [], false);
        case Any(cs) =>
          EvalSomeComputes(cs, facts, remaining - 1, [], true);
        case Compare(_, _, _) =>
          CompareReports(c, facts);
      }
    }
  }

  function Neutral(stopAt: bool): Truth {
    if stopAt then False else True
  }

  lemma {:induction false} EvalSomeComputes(cs: seq<Condition>, facts: Facts, remaining: nat, used: seq<string>, stopAt: bool)
    ensures Computes(EvalSome(cs, facts, remaining, used, stopAt), FirstOther(cs, facts, Neutral(stopAt)),
                     Elems(used) + ReadsUntil(cs, facts, Neutral(stopAt)), VisitsUntil(cs, facts, Neutral(stopAt)), remaining)
    decreases cs, 0
  {
    hide SortedUnique;
    if cs != [] {
      EvalComputes(cs[0], facts, remaining);
      var first := Eval(cs[0], facts, remaining);
      ElemsConcat(used, first.0.factsUsed);
      MeaningHasNoLimitCode(cs[0], facts);
      if first.0.Success? && first.0.value != stopAt {
        EvalSomeComputes(cs[1..], facts, first.1, used + first.0.factsUsed, stopAt);
        assert Elems(used) + Reads(cs[0], facts) + ReadsUntil(cs[1..], facts, Neutral(stopAt))
            == Elems(used) + ReadsUntil(cs, facts, Neutral(stopAt));
      }
    } else {
      assert Elems(used) + {} == Elems(used);
    }
  }

  // A meaning is never one of the two limit codes.
  lemma {:induction false} MeaningHasNoLimitCode(c: Condition, facts: Facts)
    ensures Meaning(c, facts) != Error(LimitExceeded) && Meaning(c, facts) != Error(DepthExceeded)
    decreases c, 1
  {
    match c {
      case Not(d) => MeaningHasNoLimitCode(d, facts);
      case All(cs) => FirstOtherHasNoLimitCode(cs, facts, True);
      case Any(cs) => FirstOtherHasNoLimitCode(cs, facts, False);
      case _ =>
    }
  }

  lemma {:induction false} FirstOtherHasNoLimitCode(cs: seq<Condition>, facts: Facts, neutral: Truth)
    requires !neutral.Error?
    ensures FirstOther(cs, facts, neutral) != Error(LimitExceeded) && FirstOther(cs, facts, neutral) != Error(DepthExceeded)
    decreases cs, 0
  {
    if cs != [] {
      MeaningHasNoLimitCode(cs[0], facts);
      FirstOtherHasNoLimitCode(cs[1..], facts, neutral);
    }
  }

  /**
   * Evaluation of a condition: outside the limits it is refused with no fact read and
   * the code of the first node beyond one; within them it reports the left-to-right
   * meaning and exactly the facts that decided it, so the budget is never the reason.
   */
  lemma OutcomeMeaning(c: Condition, facts: Facts)
    ensures WithinLimits(c) ==> Reports(Outcome(c, facts), Meaning(c, facts), Reads(c, facts))
    ensures WithinLimits(c) <==> Outcome(c, facts) !in {Failure(LimitExceeded, []), Failure(DepthExceeded, [])}
    ensures !WithinLimits(c) ==>
      exists i :: FirstBeyond(Depths(c, 1), 0, i) && Outcome(c, facts) == Failure(if i == 128 then LimitExceeded else DepthExceeded, [])
  {
    hide Depths, FirstBeyond, Deepest;
    MeasureMeaning(c);
    if WithinLimits(c) {
      VisitsWithinSize(c, facts);
      EvalComputes(c, facts, MAX_CONDITION_NODES);
      MeaningHasNoLimitCode(c, facts);
    } else {
      FirstBeyondExists(c);
      var i :| FirstBeyond(Depths(c, 1), 0, i);
      MeasureStops(c, i);
    }
  }

  // ---------------------------------------------------------------------
  // Comparisons
  // ---------------------------------------------------------------------

  ghost predicate OccursIn(part: string, text: string) {
    exists before, after :: text == before + (part + after)
  }

  lemma {:induction false} IncludesMeaning(text: string, part: string)
    ensures IncludesText(text, part) <==> OccursIn(part, text)
  {
    if part <= text {
      assert text == [] + (part + text[|part|..]);
    } else if text != "" {
      IncludesMeaning(text[1..], part);
      if OccursIn(part, text[1..]) {
        var before, after :| text[1..] == before + (part + after);
        assert text == ([text[0]] + before) + (part + after);
      }
      if OccursIn(part, text) {
        var before, after :| text == before + (part + after);
        assert before != [];
        assert text[1..] == before[1..] + (part + after);
      }
    }
  }

  ghost predicate BothNumbers(a: FactValue, b: FactValue) {
    a.Number? && b.Number?
  }

  // The operator applies to a value on each side of these kinds.
  ghost predicate Applies(a: FactValue, op: Operator, b: FactValue) {
    match op
    case Eq => true
    case Neq => true
    case Contains => (a.StrList? || a.Str?) && b.Str?
    case In => a.Str? && b.StrList?
    case _ => BothNumbers(a, b)
  }

  ghost predicate ListHolds(items: seq<string>, text: string) {
    exists i :: 0 <= i < |items| && items[i] == text
  }

  /**
   * Every operator applies exactly to its own kinds of values. The order operators
   * compare two numbers; equality tells any two values apart; a list contains the
   * texts at its positions, a text its substrings, and `in` is `contains` of a list
   * with its sides exchanged.
   */
  lemma ComparisonLaws(a: FactValue, b: FactValue)
    ensures forall op :: Compared(a, op, b).Some? <==> Applies(a, op, b)
    ensures BothNumbers(a, b) ==>
      && Compared(a, Lt, b) == Some(a.n < b.n) && Compared(a, Lte, b) == Some(!(b.n < a.n))
      && Compared(a, Gt, b) == Some(b.n < a.n) && Compared(a, Gte, b) == Some(!(a.n < b.n))
    ensures Compared(a, Eq, b) == Some(true) <==> a == b
    ensures Compared(a, Neq, b) == Some(true) <==> a != b
    ensures a.StrList? && b.Str? ==> Compared(a, Contains, b) == Some(ListHolds(a.items, b.s))
    ensures a.Str? && b.StrList? ==> Compared(a, In, b) == Some(ListHolds(b.items, a.s))
    ensures a.Str? && b.Str? ==> Compared(a, Contains, b) == Some(OccursIn(b.s, a.s))
  {
    if a.Str? && b.Str? {
      IncludesMeaning(a.s, b.s);
    }
  }

  // ---------------------------------------------------------------------
  // Locality: only the reported facts matter
  // ---------------------------------------------------------------------

  ghost predicate AgreeOn(a: Facts, b: Facts, names: set<string>) {
    forall name :: name in names ==> (name in a <==> name in b) && (name in a ==> a[name] == b[name])
  }

  lemma {:induction false} MeaningIsLocal(c: Condition, a: Facts, b: Facts)
    requires AgreeOn(a, b, Reads(c, a))
    ensures Meaning(c, a) == Meaning(c, b) && Reads(c, a) == Reads(c, b)
    decreases c, 1
  {
    match c {
      case Not(d) => MeaningIsLocal(d, a, b);
      case All(cs) => FirstOtherIsLocal(cs, a, b, True);
      case Any(cs) => FirstOtherIsLocal(cs, a, b, False);
      case _ =>
    }
  }

  lemma {:induction false} FirstOtherIsLocal(cs: seq<Condition>, a: Facts, b: Facts, neutral: Truth)
    requires AgreeOn(a, b, ReadsUntil(cs, a, neutral))
    ensures FirstOther(cs, a, neutral) == FirstOther(cs, b, neutral)
    ensures ReadsUntil(cs, a, neutral) == ReadsUntil(cs, b, neutral)
    decreases cs, 0
  {
    if cs != [] {
      MeaningIsLocal(cs[0], a, b);
      if Meaning(cs[0], a) == neutral {
        FirstOtherIsLocal(cs[1..], a, b, neutral);
      }
    }
  }

  /** Any fact record that agrees on the facts a result lists gives that same result. */
  lemma OutcomeIsLocal(c: Condition, a: Facts, b: Facts)
    requires AgreeOn(a, b, Elems(Outcome(c, a).factsUsed))
    ensures Outcome(c, a) == Outcome(c, b)
  {
    MeasureMeaning(c);
    if WithinLimits(c) {
      OutcomeMeaning(c, a);
      OutcomeMeaning(c, b);
      MeaningIsLocal(c, a, b);
      ReportsUnique(Outcome(c, a), Outcome(c, b), Meaning(c, a), Reads(c, a));
    }
  }

  // ---------------------------------------------------------------------
  // Rewrites
  // ---------------------------------------------------------------------

  // Same outcome, same error, same facts, whatever the fact record holds.
  ghost predicate Same(c: Condition, d: Condition) {
    forall facts :: SameAt(c, d, facts)
  }

  ghost predicate SameAt(c: Condition, d: Condition, facts: Facts) {
    Meaning(c, facts) == Meaning(d, facts) && Reads(c, facts) == Reads(d, facts)
  }

  /** Conditions with the same meaning evaluate to equal results whenever both are within the limits. */
  lemma SameOutcome(c: Condition, d: Condition, facts: Facts)
    requires Same(c, d) && WithinLimits(c) && WithinLimits(d)
    ensures Outcome(c, facts) == Outcome(d, facts)
  {
    assert SameAt(c, d, facts);
    OutcomeMeaning(c, facts);
    OutcomeMeaning(d, facts);
    ReportsUnique(Outcome(c, facts), Outcome(d, facts), Meaning(c, facts), Reads(c, facts));
  }

  function Negated(cs: seq<Condition>): (r: seq<Condition>)
    ensures |r| == |cs| && forall i :: 0 <= i < |cs| ==> r[i] == Not(cs[i])
  {
    seq(|cs|, i requires 0 <= i < |cs| => Not(cs[i]))
  }

  lemma {:induction false} NegatedFirstOther(cs: seq<Condition>, facts: Facts, neutral: Truth)
    ensures FirstOther(Negated(cs), facts, Flip(neutral)) == Flip(FirstOther(cs, facts, neutral))
    ensures ReadsUntil(Negated(cs), facts, Flip(neutral)) == ReadsUntil(cs, facts, neutral)
  {
    if cs != [] {
      assert Negated(cs)[1..] == Negated(cs[1..]);
      NegatedFirstOther(cs[1..], facts, neutral);
    }
  }

  /** `not` moves through `all` and through `any` without changing value, error or facts read. */
  lemma NegationMovesInward(cs: seq<Condition>)
    ensures Same(Not(All(cs)), Any(Negated(cs)))
    ensures Same(Not(Any(cs)), All(Negated(cs)))
  {
    forall facts ensures SameAt(Not(All(cs)), Any(Negated(cs)), facts) && SameAt(Not(Any(cs)), All(Negated(cs)), facts) {
      NegatedFirstOther(cs, facts, True);
      NegatedFirstOther(cs, facts, False);
    }
  }

  lemma {:induction false} FirstOtherConcat(a: seq<Condition>, b: seq<Condition>, facts: Facts, neutral: Truth)
    ensures FirstOther(a + b, facts, neutral)
         == if FirstOther(a, facts, neutral) != neutral then FirstOther(a, facts, neutral) else FirstOther(b, facts, neutral)
    ensures ReadsUntil(a + b, facts, neutral)
         == ReadsUntil(a, facts, neutral) + if FirstOther(a, facts, neutral) != neutral then {} else ReadsUntil(b, facts, neutral)
  {
    if a == [] {
      assert a + b == b;
    } else {
      assert (a + b)[1..] == a[1..] + b && (a + b)[0] == a[0];
      FirstOtherConcat(a[1..], b, facts, neutral);
    }
  }

  lemma FlattenAt(a: seq<Condition>, nested: Condition, b: seq<Condition>, c: seq<Condition>, facts: Facts, neutral: Truth)
    requires Meaning(nested, facts) == FirstOther(b, facts, neutral) && Reads(nested, facts) == ReadsUntil(b, facts, neutral)
    ensures FirstOther(a + [nested] + c, facts, neutral) == FirstOther(a + b + c, facts, neutral)
    ensures ReadsUntil(a + [nested] + c, facts, neutral) == ReadsUntil(a + b + c, facts, neutral)
  {
    assert a + [nested] + c == a + ([nested] + c) && a + b + c == a + (b + c);
    assert ([nested] + c)[1..] == c;
    FirstOtherConcat(a, [nested] + c, facts, neutral);
    FirstOtherConcat(a, b + c, facts, neutral);
    FirstOtherConcat(b, c, facts, neutral);
  }

  /** A nested `all` inside `all`, or `any` inside `any`, may be spliced in place at any position. */
  lemma NestingFlattens(a: seq<Condition>, b: seq<Condition>, c: seq<Condition>)
    ensures Same(All(a + [All(b)] + c), All(a + b + c))
    ensures Same(Any(a + [Any(b)] + c), Any(a + b + c))
  {
    forall facts ensures SameAt(All(a + [All(b)] + c), All(a + b + c), facts) && SameAt(Any(a + [Any(b)] + c), Any(a + b + c), facts) {
      FlattenAt(a, All(b), b, c, facts, True);
      FlattenAt(a, Any(b), b, c, facts, False);
    }
  }

  lemma ReplaceAt(a: seq<Condition>, c: Condition, d: Condition, b: seq<Condition>, facts: Facts, neutral: Truth)
    requires SameAt(c, d, facts)
    ensures FirstOther(a + [c] + b, facts, neutral) == FirstOther(a + [d] + b, facts, neutral)
    ensures ReadsUntil(a + [c] + b, facts, neutral) == ReadsUntil(a + [d] + b, facts, neutral)
  {
    assert a + [c] + b == a + ([c] + b) && a + [d] + b == a + ([d] + b);
    assert ([c] + b)[1..] == b && ([d] + b)[1..] == b;
    FirstOtherConcat(a, [c] + b, facts, neutral);
    FirstOtherConcat(a, [d] + b, facts, neutral);
  }

  /** A rewrite is valid at any child position, so by repetition anywhere inside a condition. */
  lemma RewriteInContext(c: Condition, d: Condition, a: seq<Condition>, b: seq<Condition>)
    requires Same(c, d)
    ensures Same(Not(c), Not(d)) && Same(All(a + [c] + b), All(a + [d] + b)) && Same(Any(a + [c] + b), Any(a + [d] + b))
  {
    forall facts ensures SameAt(Not(c), Not(d), facts) && SameAt(All(a + [c] + b), All(a + [d] + b), facts)
                      && SameAt(Any(a + [c] + b), Any(a + [d] + b), facts) {
      assert SameAt(c, d, facts);
      ReplaceAt(a, c, d, b, facts, True);
      ReplaceAt(a, c, d, b, facts, False);
    }
  }
}
