/**
 * Gate conditions: the complexity measure, the short-circuiting evaluator with
 * its shared budget, and the semantics that the two together compute.
 */
module Conditions {
  import opened Wrappers
  import opened Text

  const MAX_CONDITION_NODES := 128
  const MAX_CONDITION_DEPTH := 32

  datatype FactValue = Bool(b: bool) | Number(n: real) | Str(s: string) | StrList(items: seq<string>)

  type Facts = map<string, FactValue>

  datatype Operator = Eq | Neq | Gt | Gte | Lt | Lte | Contains | In

  datatype Expression = Fact(name: string) | Literal(value: FactValue)

  datatype Condition =
    | All(conditions: seq<Condition>)
    | Any(conditions: seq<Condition>)
    | Not(condition: Condition)
    | Exists(fact: string)
    | Compare(left: Expression, operator: Operator, right: Expression)

  // The codes, with the fact or operator their message names.
  datatype Code = LimitExceeded | DepthExceeded | FactMissing(name: string) | TypeMismatch(operator: Operator)

  datatype ConditionResult =
    | Success(value: bool, factsUsed: seq<string>)
    | Failure(code: Code, factsUsed: seq<string>)

  // ---------------------------------------------------------------------
  // Complexity
  // ---------------------------------------------------------------------

  function Max(a: int, b: int): int {
    if a >= b then a else b
  }

  function Size(c: Condition): nat
    decreases c, 1
  {
    match c
    case All(cs) => 1 + SizeAll(cs)
    case Any(cs) => 1 + SizeAll(cs)
    case Not(d) => 1 + Size(d)
    case _ => 1
  }

  function SizeAll(cs: seq<Condition>): nat
    decreases cs, 0
  {
    if cs == [] then 0 else Size(cs[0]) + SizeAll(cs[1..])
  }

  function Depth(c: Condition): nat
    decreases c, 1
  {
    match c
    case All(cs) => 1 + DepthAll(cs)
    case Any(cs) => 1 + DepthAll(cs)
    case Not(d) => 1 + Depth(d)
    case _ => 1
  }

  function DepthAll(cs: seq<Condition>): nat
    decreases cs, 0
  {
    if cs == [] then 0 else Max(Depth(cs[0]), DepthAll(cs[1..]))
  }

  // The captured counters of the walk, and the first limit it ran into.
  datatype Meter = Meter(nodes: nat, maximumDepth: nat)
  datatype Walked = Walked(meter: Meter, stop: Option<Code>)

  function Walk(c: Condition, depth: nat, meter: Meter): Walked
    decreases c, 1
  {
    var next := Meter(meter.nodes + 1, Max(meter.maximumDepth, depth));
    if next.nodes > MAX_CONDITION_NODES then Walked(next, Some(LimitExceeded))
    else if depth > MAX_CONDITION_DEPTH then Walked(next, Some(DepthExceeded))
    else
      match c
      case Not(d) => Walk(d, depth + 1, next)
      case All(cs) => WalkAll(cs, depth + 1, next)
      case Any(cs) => WalkAll(cs, depth + 1, next)
      case _ => Walked(next, None)
  }

  function WalkAll(cs: seq<Condition>, depth: nat, meter: Meter): Walked
    decreases cs, 0
  {
    if cs == [] then Walked(meter, None)
    else
      var first := Walk(cs[0], depth, meter);
      if first.stop.Some? then first else WalkAll(cs[1..], depth, first.meter)
  }

  /** The measuring walk with its captured counters. */
  class Measurement {
    var nodes: nat
    var maximumDepth: nat

    constructor ()
      ensures nodes == 0 && maximumDepth == 0
    {
      nodes, maximumDepth := 0, 0;
    }

    method Visit(c: Condition, depth: nat) returns (stop: Option<Code>)
      modifies this
      ensures Walked(Meter(nodes, maximumDepth), stop) == Walk(c, depth, old(Meter(nodes, maximumDepth)))
      decreases c
    {
      nodes := nodes + 1;
      maximumDepth := Max(maximumDepth, depth);
      if nodes > MAX_CONDITION_NODES {
        return Some(LimitExceeded);
      }
      if depth > MAX_CONDITION_DEPTH {
        return Some(DepthExceeded);
      }
      match c {
        case Not(d) =>
          stop := Visit(d, depth + 1);
        case All(_) =>
          stop := VisitChildren(c, depth + 1);
        case Any(_) =>
          stop := VisitChildren(c, depth + 1);
        case _ =>
          stop := None;
      }
    }

    method VisitChildren(c: Condition, depth: nat) returns (stop: Option<Code>)
      requires c.All? || c.Any?
      modifies this
      ensures Walked(Meter(nodes, maximumDepth), stop) == WalkAll(c.conditions, depth, old(Meter(nodes, maximumDepth)))
      decreases c, 0
    {
      var cs := c.conditions;
      for i := 0 to |cs|
        invariant WalkAll(cs[i..], depth, Meter(nodes, maximumDepth)) == WalkAll(cs, depth, old(Meter(nodes, maximumDepth)))
      {
        assert cs[i..][0] == cs[i] && cs[i..][1..] == cs[i + 1..];
        stop := Visit(cs[i], depth);
        if stop.Some? {
          return;
        }
      }
      stop := None;
    }
  }

  datatype Complexity = Measured(nodes: nat, depth: nat) | TooComplex(code: Code, nodes: nat, depth: nat)

  function ComplexityOf(c: Condition): Complexity {
    var walked := Walk(c, 1, Meter(0, 0));
    match walked.stop
    case None => Measured(walked.meter.nodes, walked.meter.maximumDepth)
    case Some(code) => TooComplex(code, walked.meter.nodes, walked.meter.maximumDepth)
  }

  method MeasureCondition(c: Condition) returns (r: Complexity)
    ensures r == ComplexityOf(c)
  {
    var m := new Measurement();
    var stop := m.Visit(c, 1);
    match stop {
      case None => r := Measured(m.nodes, m.maximumDepth);
      case Some(code) => r := TooComplex(code, m.nodes, m.maximumDepth);
    }
  }

  ghost predicate Fits(size: nat, depth: int, meter: Meter) {
    meter.nodes + size <= MAX_CONDITION_NODES && depth <= MAX_CONDITION_DEPTH
  }

  // The walk of a part of this size and depth either counts it whole or stops at a limit.
  ghost predicate Counts(walked: Walked, meter: Meter, size: nat, deepest: int) {
    if Fits(size, deepest, meter) then
      walked.stop.None? && walked.meter.nodes == meter.nodes + size && walked.meter.maximumDepth == Max(meter.maximumDepth, deepest)
    else walked.stop.Some?
  }

  lemma {:induction false} WalkMeaning(c: Condition, depth: nat, meter: Meter)
    requires depth > 0 && meter.nodes <= MAX_CONDITION_NODES
    ensures Counts(Walk(c, depth, meter), meter, Size(c), depth + Depth(c) - 1)
    decreases c, 1
  {
    var next := Meter(meter.nodes + 1, Max(meter.maximumDepth, depth));
    SizePositive(c);
    DepthPositive(c);
    if next.nodes <= MAX_CONDITION_NODES && depth <= MAX_CONDITION_DEPTH {
      match c {
        case Not(d) =>
          DepthPositive(d);
          WalkMeaning(d, depth + 1, next);
        case All(cs) =>
          WalkAllMeaning(cs, depth + 1, next);
          assert Walk(c, depth, meter) == WalkAll(cs, depth + 1, next);
        case Any(cs) =>
          WalkAllMeaning(cs, depth + 1, next);
          assert Walk(c, depth, meter) == WalkAll(cs, depth + 1, next);
        case _ =>
      }
    }
  }

  lemma {:induction false} WalkAllMeaning(cs: seq<Condition>, depth: nat, meter: Meter)
    requires depth > 0 && meter.nodes <= MAX_CONDITION_NODES
    ensures cs == [] ==> WalkAll(cs, depth, meter) == Walked(meter, None)
    ensures cs != [] ==> DepthAll(cs) >= 1 && Counts(WalkAll(cs, depth, meter), meter, SizeAll(cs), depth + DepthAll(cs) - 1)
    decreases cs, 0
  {
    hide Walk, Size, Depth;
    if cs != [] {
      WalkMeaning(cs[0], depth, meter);
      DepthPositive(cs[0]);
      SizePositive(cs[0]);
      var first := Walk(cs[0], depth, meter);
      if first.stop.None? {
        WalkAllMeaning(cs[1..], depth, first.meter);
      }
    }
  }

  lemma SizePositive(c: Condition)
    ensures Size(c) >= 1
  {
  }

  lemma DepthPositive(c: Condition)
    ensures Depth(c) >= 1
  {
  }

  ghost predicate WithinLimits(c: Condition) {
    Size(c) <= MAX_CONDITION_NODES && Depth(c) <= MAX_CONDITION_DEPTH
  }

  /** The measure accepts exactly the conditions of at most 128 nodes and depth 32, and then reports both numbers. */
  lemma MeasureMeaning(c: Condition)
    ensures ComplexityOf(c).Measured? <==> WithinLimits(c)
    ensures WithinLimits(c) ==> ComplexityOf(c) == Measured(Size(c), Depth(c))
  {
    WalkMeaning(c, 1, Meter(0, 0));
    DepthPositive(c);
  }

  // The depths of the nodes, in the order the walk meets them.
  ghost function Depths(c: Condition, depth: nat): seq<nat>
    decreases c, 1
  {
    match c
    case All(cs) => [depth] + DepthsAll(cs, depth + 1)
    case Any(cs) => [depth] + DepthsAll(cs, depth + 1)
    case Not(d) => [depth] + Depths(d, depth + 1)
    case _ => [depth]
  }

  ghost function DepthsAll(cs: seq<Condition>, depth: nat): seq<nat>
    decreases cs, 0
  {
    if cs == [] then [] else Depths(cs[0], depth) + DepthsAll(cs[1..], depth)
  }

  // The walk over a flat list of depths.
  ghost function WalkOver(depths: seq<nat>, meter: Meter): Walked {
    if depths == [] then Walked(meter, None)
    else
      var next := Meter(meter.nodes + 1, Max(meter.maximumDepth, depths[0]));
      if next.nodes > MAX_CONDITION_NODES then Walked(next, Some(LimitExceeded))
      else if depths[0] > MAX_CONDITION_DEPTH then Walked(next, Some(DepthExceeded))
      else WalkOver(depths[1..], next)
  }

  lemma {:induction false} WalkOverConcat(a: seq<nat>, b: seq<nat>, meter: Meter)
    ensures WalkOver(a + b, meter) == if WalkOver(a, meter).stop.Some? then WalkOver(a, meter) else WalkOver(b, WalkOver(a, meter).meter)
  {
    if a == [] {
      assert a + b == b;
    } else {
      assert (a + b)[1..] == a[1..] + b;
      WalkOverConcat(a[1..], b, Meter(meter.nodes + 1, Max(meter.maximumDepth, a[0])));
    }
  }

  lemma {:induction false} WalkIsFlat(c: Condition, depth: nat, meter: Meter)
    ensures Walk(c, depth, meter) == WalkOver(Depths(c, depth), meter)
    decreases c, 1
  {
    var next := Meter(meter.nodes + 1, Max(meter.maximumDepth, depth));
    assert Depths(c, depth)[0] == depth;
    if next.nodes <= MAX_CONDITION_NODES && depth <= MAX_CONDITION_DEPTH {
      match c {
        case Not(d) => WalkIsFlat(d, depth + 1, next);
        case All(cs) => WalkAllIsFlat(cs, depth + 1, next);
        case Any(cs) => WalkAllIsFlat(cs, depth + 1, next);
        case _ =>
      }
    }
  }

  lemma {:induction false} WalkAllIsFlat(cs: seq<Condition>, depth: nat, meter: Meter)
    ensures WalkAll(cs, depth, meter) == WalkOver(DepthsAll(cs, depth), meter)
    decreases cs, 0
  {
    if cs != [] {
      WalkIsFlat(cs[0], depth, meter);
      WalkOverConcat(Depths(cs[0], depth), DepthsAll(cs[1..], depth), meter);
      WalkAllIsFlat(cs[1..], depth, Walk(cs[0], depth, meter).meter);
    }
  }

  ghost function Deepest(depths: seq<nat>): nat {
    if depths == [] then 0 else Max(depths[0], Deepest(depths[1..]))
  }

  // Node i of the walk that met some nodes before is the 129th or later, or lies below depth 32.
  ghost predicate Beyond(depths: seq<nat>, before: nat, i: nat)
    requires i < |depths|
  {
    before + i >= 128 || depths[i] > 32
  }

  ghost predicate FirstBeyond(depths: seq<nat>, before: nat, i: nat) {
    i < |depths| && Beyond(depths, before, i) && forall j :: 0 <= j < i ==> !Beyond(depths, before, j)
  }

  lemma BeyondTail(depths: seq<nat>, before: nat, rest: seq<nat>, after: nat)
    requires depths != [] && rest == depths[1..] && after == before + 1
    ensures forall j :: 0 <= j < |rest| ==> (Beyond(rest, after, j) <==> Beyond(depths, before, j + 1))
  {
  }

  lemma {:induction false} WalkOverStops(depths: seq<nat>, meter: Meter, i: nat)
    requires meter.nodes <= MAX_CONDITION_NODES && FirstBeyond(depths, meter.nodes, i)
    ensures WalkOver(depths, meter)
      == Walked(Meter(meter.nodes + i + 1, Max(meter.maximumDepth, Deepest(depths[..i + 1]))),
                Some(if meter.nodes + i >= MAX_CONDITION_NODES then LimitExceeded else DepthExceeded))
  {
    assert depths[..i + 1][0] == depths[0] && depths[..i + 1][1..] == depths[1..][..i];
    if i == 0 {
      assert Deepest(depths[..1]) == depths[0];
    } else {
      assert !Beyond(depths, meter.nodes, 0);
      BeyondTail(depths, meter.nodes, depths[1..], meter.nodes + 1);
      WalkOverStops(depths[1..], Meter(meter.nodes + 1, Max(meter.maximumDepth, depths[0])), i - 1);
    }
  }

  /**
   * A refused measure stops at the first node beyond a limit, counts the nodes up to it
   * and their depth, and blames the node limit exactly when it is the 129th.
   */
  lemma MeasureStops(c: Condition, i: nat)
    requires FirstBeyond(Depths(c, 1), 0, i)
    ensures ComplexityOf(c) == TooComplex(if i == 128 then LimitExceeded else DepthExceeded, i + 1, Deepest(Depths(c, 1)[..i + 1]))
  {
    hide Walk, WalkOver, Deepest, Depths;
    var depths := Depths(c, 1);
    WalkIsFlat(c, 1, Meter(0, 0));
    WalkOverStops(depths, Meter(0, 0), i);
    if |depths| > 128 {
      assert Beyond(depths, 0, 128);
    }
  }

  lemma {:induction false} WalkOverPasses(depths: seq<nat>, meter: Meter)
    requires forall j :: 0 <= j < |depths| ==> !Beyond(depths, meter.nodes, j)
    ensures WalkOver(depths, meter).stop.None?
  {
    if depths != [] {
      assert !Beyond(depths, meter.nodes, 0);
      BeyondTail(depths, meter.nodes, depths[1..], meter.nodes + 1);
      WalkOverPasses(depths[1..], Meter(meter.nodes + 1, Max(meter.maximumDepth, depths[0])));
    }
  }

  // A condition outside the limits has such a first node.
  lemma FirstBeyondExists(c: Condition)
    requires !WithinLimits(c)
    ensures exists i :: FirstBeyond(Depths(c, 1), 0, i)
  {
    hide Walk, WalkOver, Depths, WithinLimits;
    MeasureMeaning(c);
    WalkIsFlat(c, 1, Meter(0, 0));
    var depths := Depths(c, 1);
    if forall j :: 0 <= j < |depths| ==> !Beyond(depths, 0, j) {
      WalkOverPasses(depths, Meter(0, 0));
    } else {
      var j :| 0 <= j < |depths| && Beyond(depths, 0, j);
      LeastBeyond(depths, j);
    }
  }

  lemma {:induction false} LeastBeyond(depths: seq<nat>, j: nat)
    requires j < |depths| && Beyond(depths, 0, j)
    ensures exists i :: FirstBeyond(depths, 0, i)
  {
    if !FirstBeyond(depths, 0, j) {
      var k :| 0 <= k < j && Beyond(depths, 0, k);
      LeastBeyond(depths, k);
    }
  }

  // ---------------------------------------------------------------------
  // Comparison
  // ---------------------------------------------------------------------

  predicate IncludesText(text: string, part: string) {
    part <= text || (text != "" && IncludesText(text[1..], part))
  }

  // None where the operator does not apply to the two values.
  function Compared(left: FactValue, operator: Operator, right: FactValue): Option<bool> {
    match operator
    case Eq => Some(left == right)
    case Neq => Some(left != right)
    case Gt => if left.Number? && right.Number? then Some(left.n > right.n) else None
    case Gte => if left.Number? && right.Number? then Some(left.n >= right.n) else None
    case Lt => if left.Number? && right.Number? then Some(left.n < right.n) else None
    case Lte => if left.Number? && right.Number? then Some(left.n <= right.n) else None
    case Contains =>
      if left.StrList? && right.Str? then Some(right.s in left.items)
      else if left.Str? && right.Str? then Some(IncludesText(left.s, right.s))
      else None
    case In => if right.StrList? && left.Str? then Some(left.s in right.items) else None
  }

  function Uses(e: Expression): seq<string> {
    if e.Fact? then [e.name] else []
  }

  function Resolve(e: Expression, facts: Facts): Option<FactValue> {
    match e
    case Literal(value) => Some(value)
    case Fact(name) => if name in facts then Some(facts[name]) else None
  }

  function CompareResult(c: Condition, facts: Facts): ConditionResult
    requires c.Compare?
  {
    var used := SortedUnique(Uses(c.left) + Uses(c.right));
    match Resolve(c.left, facts)
    case None => Failure(FactMissing(c.left.name), used)
    case Some(left) =>
      match Resolve(c.right, facts)
      case None => Failure(FactMissing(c.right.name), used)
      case Some(right) =>
        match Compared(left, c.operator, right)
        case None => Failure(TypeMismatch(c.operator), used)
        case Some(value) => Success(value, used)
  }

  // ---------------------------------------------------------------------
  // The evaluator with its budget
  // ---------------------------------------------------------------------

  function WithFacts(r: ConditionResult, used: seq<string>): ConditionResult {
    match r
    case Success(value, _) => Success(value, used)
    case Failure(code, _) => Failure(code, used)
  }

  function Eval(c: Condition, facts: Facts, remaining: int): (ConditionResult, int)
    decreases c, 1
  {
    var left := remaining - 1;
    if left < 0 then (Failure(LimitExceeded, []), left)
    else
      match c
      case Exists(fact) => (Success(fact in facts, [fact]), left)
      case Not(d) =>
        var inner := Eval(d, facts, left);
        (if inner.0.Success? then Success(!inner.0.value, inner.0.factsUsed) else inner.0, inner.1)
      case All(cs) => EvalSome(cs, facts, left, [], false)
      case Any(cs) => EvalSome(cs, facts, left, [], true)
      case Compare(_, _, _) => (CompareResult(c, facts), left)
  }

  // The loop of `all` (stop at false) and of `any` (stop at true), facts read so far included.
  function EvalSome(cs: seq<Condition>, facts: Facts, remaining: int, used: seq<string>, stopAt: bool): (ConditionResult, int)
    decreases cs, 0
  {
    if cs == [] then (Success(!stopAt, SortedUnique(used)), remaining)
    else
      var first := Eval(cs[0], facts, remaining);
      var usedNow := used + first.0.factsUsed;
      if first.0.Failure? then (WithFacts(first.0, SortedUnique(usedNow)), first.1)
      else if first.0.value == stopAt then (Success(stopAt, SortedUnique(usedNow)), first.1)
      else EvalSome(cs[1..], facts, first.1, usedNow, stopAt)
  }

  class EvaluationBudget {
    var remaining: int

    constructor (remaining: int)
      ensures this.remaining == remaining
    {
      this.remaining := remaining;
    }
  }

  method Evaluate(c: Condition, facts: Facts, budget: EvaluationBudget) returns (r: ConditionResult)
    modifies budget
    ensures (r, budget.remaining) == Eval(c, facts, old(budget.remaining))
    decreases c, 1
  {
    budget.remaining := budget.remaining - 1;
    if budget.remaining < 0 {
      return Failure(LimitExceeded, []);
    }
    match c {
      case Exists(fact) =>
        r := Success(fact in facts, [fact]);
      case Not(d) =>
        r := Evaluate(d, facts, budget);
        if r.Success? {
          r := Success(!r.value, r.factsUsed);
        }
      case All(_) =>
        r := EvaluateChildren(c, facts, budget, false);
      case Any(_) =>
        r := EvaluateChildren(c, facts, budget, true);
      case Compare(_, _, _) =>
        r := CompareResult(c, facts);
    }
  }

  /** The child loop: push the facts each child read, return early on an error or a deciding value. */
  method EvaluateChildren(c: Condition, facts: Facts, budget: EvaluationBudget, stopAt: bool) returns (r: ConditionResult)
    requires c.All? || c.Any?
    modifies budget
    ensures (r, budget.remaining) == EvalSome(c.conditions, facts, old(budget.remaining), [], stopAt)
    decreases c, 0
  {
    var cs := c.conditions;
    var factsUsed: seq<string> := [];
    for i := 0 to |cs|
      invariant EvalSome(cs[i..], facts, budget.remaining, factsUsed, stopAt) == EvalSome(cs, facts, old(budget.remaining), [], stopAt)
    {
      assert cs[i..][0] == cs[i] && cs[i..][1..] == cs[i + 1..];
      var result := Evaluate(cs[i], facts, budget);
      factsUsed := factsUsed + result.factsUsed;
      if result.Failure? {
        return WithFacts(result, SortedUnique(factsUsed));
      }
      if result.value == stopAt {
        return Success(stopAt, SortedUnique(factsUsed));
      }
    }
    return Success(!stopAt, SortedUnique(factsUsed));
  }

  function Outcome(c: Condition, facts: Facts): ConditionResult {
    match ComplexityOf(c)
    case TooComplex(code, _, _) => Failure(code, [])
    case Measured(_, _) => Eval(c, facts, MAX_CONDITION_NODES).0
  }

  method EvaluateCondition(c: Condition, facts: Facts) returns (r: ConditionResult)
    ensures r == Outcome(c, facts)
  {
    var complexity := MeasureCondition(c);
    if complexity.TooComplex? {
      return Failure(complexity.code, []);
    }
    var budget := new EvaluationBudget(MAX_CONDITION_NODES);
    r := Evaluate(c, facts, budget);
  }
}
