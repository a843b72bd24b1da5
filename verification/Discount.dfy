/** The instant discount: which bracket an invoice reaches, and what it earns there. */
module Discount {
  import opened Basics

  datatype DiscountType = NoDiscount | Percentage | FixedAmount

  datatype RuleType = ByPercentage | ByAmount

  datatype Rule = Rule(threshold: int, kind: RuleType, rate: int, maxValue: Option<int>, isActive: bool)

  datatype Computation = Computation(
    appliedThreshold: Option<int>,
    kind: Option<RuleType>,
    rate: int,
    value: int,
    net: int,
    wasCapped: bool,
    uncapped: int
  )

  function Min(a: int, b: int): int {
    if a <= b then a else b
  }

  function Max(a: int, b: int): int {
    if a >= b then a else b
  }

  // ----- which rule applies

  /** Ordered by threshold; rules with the same threshold keep their order. */
  function InsertRule(sorted: seq<Rule>, rule: Rule): seq<Rule> {
    var n := |sorted|;
    if n == 0 || sorted[n - 1].threshold <= rule.threshold then sorted + [rule]
    else InsertRule(sorted[..n - 1], rule) + [sorted[n - 1]]
  }

  function SortedActive(rules: seq<Rule>): seq<Rule> {
    if rules == [] then []
    else
      var n := |rules| - 1;
      if rules[n].isActive then InsertRule(SortedActive(rules[..n]), rules[n]) else SortedActive(rules[..n])
  }

  /** The highest bracket the invoice reaches; the later in the list between equal thresholds. */
  function Applicable(rules: seq<Rule>, gross: int): Option<Rule> {
    if rules == [] then None
    else
      var n := |rules| - 1;
      var front := Applicable(rules[..n], gross);
      if rules[n].isActive && rules[n].threshold <= gross && (front.None? || front.value.threshold <= rules[n].threshold)
      then Some(rules[n]) else front
  }

  predicate IsSorted(rules: seq<Rule>) {
    forall i, j | 0 <= i < j < |rules| :: rules[i].threshold <= rules[j].threshold
  }

  lemma {:induction false} InsertKeepsSorted(sorted: seq<Rule>, rule: Rule)
    requires IsSorted(sorted)
    ensures IsSorted(InsertRule(sorted, rule))
    ensures forall r :: r in InsertRule(sorted, rule) <==> r == rule || r in sorted
  {
    var n := |sorted|;
    if n > 0 && sorted[n - 1].threshold > rule.threshold {
      var rest := InsertRule(sorted[..n - 1], rule);
      InsertKeepsSorted(sorted[..n - 1], rule);
      assert forall r :: r in sorted <==> r == sorted[n - 1] || r in sorted[..n - 1];
      forall i | 0 <= i < |rest|
        ensures rest[i].threshold <= sorted[n - 1].threshold
      {
        assert rest[i] in rest;
      }
    }
  }

  lemma {:induction false} SortedActiveIsSorted(rules: seq<Rule>)
    ensures IsSorted(SortedActive(rules))
    ensures forall r :: r in SortedActive(rules) <==> r in rules && r.isActive
  {
    if rules != [] {
      var n := |rules| - 1;
      SortedActiveIsSorted(rules[..n]);
      InsertKeepsSorted(SortedActive(rules[..n]), rules[n]);
      assert forall r :: r in rules <==> r == rules[n] || r in rules[..n];
    }
  }

  lemma {:induction false} ApplicableIs(rules: seq<Rule>, gross: int)
    ensures var r := Applicable(rules, gross);
            && (r.None? <==> forall rule | rule in rules :: !(rule.isActive && rule.threshold <= gross))
            && (r.Some? ==> r.value in rules && r.value.isActive && r.value.threshold <= gross)
            && (r.Some? ==> forall rule | rule in rules && rule.isActive && rule.threshold <= gross ::
                  rule.threshold <= r.value.threshold)
  {
    if rules != [] {
      var n := |rules| - 1;
      ApplicableIs(rules[..n], gross);
      assert forall r :: r in rules <==> r == rules[n] || r in rules[..n];
    }
  }

  /** The last rule of a sorted list that the invoice reaches. */
  function LastReached(sorted: seq<Rule>, gross: int): Option<Rule> {
    if sorted == [] then None
    else
      var n := |sorted| - 1;
      if sorted[n].threshold <= gross then Some(sorted[n]) else LastReached(sorted[..n], gross)
  }

  lemma {:induction false} LastReachedStops(sorted: seq<Rule>, gross: int, k: nat)
    requires IsSorted(sorted) && k <= |sorted|
    requires k < |sorted| ==> gross < sorted[k].threshold
    requires k > 0 ==> sorted[k - 1].threshold <= gross
    ensures LastReached(sorted, gross) == if k == 0 then None else Some(sorted[k - 1])
  {
    if k < |sorted| {
      LastReachedStops(sorted[..|sorted| - 1], gross, k);
    }
  }

  lemma {:induction false} LastReachedInsert(sorted: seq<Rule>, rule: Rule, gross: int)
    requires IsSorted(sorted)
    ensures var before := LastReached(sorted, gross);
            LastReached(InsertRule(sorted, rule), gross)
            == if rule.threshold <= gross && (before.None? || before.value.threshold <= rule.threshold) then Some(rule) else before
  {
    var n := |sorted|;
    if n > 0 && sorted[n - 1].threshold > rule.threshold {
      LastReachedInsert(sorted[..n - 1], rule, gross);
    } else {
      LastReachedBelow(sorted, gross);
    }
  }

  lemma {:induction false} LastReachedBelow(sorted: seq<Rule>, gross: int)
    requires IsSorted(sorted)
    ensures var r := LastReached(sorted, gross);
            r.Some? ==> sorted != [] && r.value.threshold <= sorted[|sorted| - 1].threshold
  {
    if sorted != [] {
      LastReachedBelow(sorted[..|sorted| - 1], gross);
    }
  }

  /** Sorting first changes nothing: the sorted list's last reached rule is the list's highest bracket. */
  lemma {:induction false} SortedFindsApplicable(rules: seq<Rule>, gross: int)
    ensures LastReached(SortedActive(rules), gross) == Applicable(rules, gross)
  {
    if rules != [] {
      var n := |rules| - 1;
      SortedFindsApplicable(rules[..n], gross);
      SortedActiveIsSorted(rules[..n]);
      LastReachedInsert(SortedActive(rules[..n]), rules[n], gross);
    }
  }

  // ----- the calculation

  /** What a rule gives before any cap. */
  function Uncapped(rule: Rule, gross: int): int {
    if rule.kind.ByPercentage? then gross * rule.rate / 100 else rule.rate
  }

  /** What a rule gives after its own cap, the absolute cap, and the clamp to the invoice. */
  function Value(rule: Rule, gross: int, absoluteMax: int): int {
    var byRule := if rule.maxValue.Some? then Min(Uncapped(rule, gross), rule.maxValue.value) else Uncapped(rule, gross);
    Max(Min(Min(byRule, absoluteMax), gross), 0)
  }

  /** A percentage is of the invoice, its fraction dropped; an amount is itself. */
  lemma UncappedIs(rule: Rule, gross: int)
    ensures rule.kind.ByPercentage? ==> 100 * Uncapped(rule, gross) <= gross * rule.rate < 100 * (Uncapped(rule, gross) + 1)
    ensures rule.kind.ByAmount? ==> Uncapped(rule, gross) == rule.rate
  {
  }

  function Nothing(gross: int): Computation {
    Computation(None, None, 0, 0, gross, false, 0)
  }

  function Apply(rule: Rule, gross: int, absoluteMax: int): Computation {
    var value := Value(rule, gross, absoluteMax);
    var uncapped := Uncapped(rule, gross);
    Computation(Some(rule.threshold), Some(rule.kind), rule.rate, value, gross - value, value < uncapped, uncapped)
  }

  /** The discount, by the highest bracket reached, whatever the order of the rules. */
  function DiscountFor(setting: DiscountType, rules: seq<Rule>, gross: int, absoluteMax: int): Computation {
    if setting.NoDiscount? || Applicable(rules, gross).None? then Nothing(gross)
    else Apply(Applicable(rules, gross).value, gross, absoluteMax)
  }

  method ComputeDiscount(setting: DiscountType, rules: seq<Rule>, gross: int, absoluteMax: int) returns (r: Computation)
    ensures r == DiscountFor(setting, rules, gross, absoluteMax)
  {
    if setting.NoDiscount? {
      return Nothing(gross);
    }
    var active := SortedActive(rules);
    SortedActiveIsSorted(rules);
    var applicable: Option<Rule> := None;
    var k := 0;
    while k < |active|
      invariant 0 <= k <= |active|
      invariant applicable == if k == 0 then None else Some(active[k - 1])
      invariant k > 0 ==> active[k - 1].threshold <= gross
    {
      if gross < active[k].threshold {
        break;
      }
      applicable := Some(active[k]);
      k := k + 1;
    }
    LastReachedStops(active, gross, k);
    SortedFindsApplicable(rules, gross);
    if applicable.None? {
      return Nothing(gross);
    }
    var rule := applicable.value;
    var uncapped := if rule.kind.ByPercentage? then gross * rule.rate / 100 else rule.rate;
    var value := uncapped;
    if rule.maxValue.Some? {
      value := Min(value, rule.maxValue.value);
    }
    value := Min(value, absoluteMax);
    value := Min(value, gross);
    value := Max(value, 0);
    r := Computation(Some(rule.threshold), Some(rule.kind), rule.rate, value, gross - value, value < uncapped, uncapped);
  }

  /** What is granted and what is paid make up the invoice; no cap is ever exceeded, and nothing is withheld without one. */
  lemma DiscountIsBounded(setting: DiscountType, rules: seq<Rule>, gross: nat, absoluteMax: nat)
    ensures var c := DiscountFor(setting, rules, gross, absoluteMax);
            var rule := Applicable(rules, gross);
            && c.value + c.net == gross && 0 <= c.value <= gross && c.value <= absoluteMax
            && (c.appliedThreshold.Some? ==> rule.Some? && c.appliedThreshold.value == rule.value.threshold <= gross)
            && (rule.Some? && rule.value.maxValue.Some? && rule.value.maxValue.value >= 0 ==> c.value <= rule.value.maxValue.value)
            && (c.uncapped >= 0 ==> c.value <= c.uncapped)
            && (c.wasCapped ==> c.value in {0, absoluteMax, gross} || Some(c.value) == rule.value.maxValue)
  {
  }

  /**
   * Without a rule nothing is taken off; with one, the most that the rule, its cap, the ceiling and
   * the invoice all allow: `v` is no more than that exactly if it is within each.
   */
  lemma ComputationIs(setting: DiscountType, rules: seq<Rule>, gross: int, absoluteMax: int, v: int)
    ensures var c, found := DiscountFor(setting, rules, gross, absoluteMax), Applicable(rules, gross);
            && (setting.NoDiscount? || found.None? ==> c == Computation(None, None, 0, 0, gross, false, 0))
            && (!setting.NoDiscount? && found.Some? ==>
                  var rule := found.value;
                  && c.appliedThreshold == Some(rule.threshold) && c.kind == Some(rule.kind) && c.rate == rule.rate
                  && c.uncapped == Uncapped(rule, gross) && c.value + c.net == gross && (c.wasCapped <==> c.value < c.uncapped)
                  && (v <= c.value
                      <==> v <= 0 || (v <= c.uncapped && v <= absoluteMax && v <= gross && (rule.maxValue.Some? ==> v <= rule.maxValue.value))))
  {
  }

  /** Where no two active rules share a threshold, the order they come in decides nothing. */
  lemma OrderDoesNotMatter(setting: DiscountType, a: seq<Rule>, b: seq<Rule>, gross: int, absoluteMax: int)
    requires forall r :: r in a <==> r in b
    requires forall r, s | r in a && s in a && r.isActive && s.isActive && r.threshold == s.threshold :: r == s
    ensures DiscountFor(setting, a, gross, absoluteMax) == DiscountFor(setting, b, gross, absoluteMax)
  {
    ApplicableIs(a, gross);
    ApplicableIs(b, gross);
  }

  // ----- what a manager may configure

  /** What every stored rule satisfies on its own. */
  predicate IsRule(rule: Rule) {
    rule.threshold > 0 && rule.rate > 0 && (rule.maxValue.Some? ==> rule.maxValue.value >= 0)
  }

  /**
   * The check a new ladder must pass: no repeated threshold, and a higher rate on each rung than on
   * the rung of the same type below it.
   */
  predicate IsAcceptedLadder(rules: seq<Rule>) {
    && rules != []
    && (forall r | r in rules :: IsRule(r) && r.isActive)
    && (forall i, j | 0 <= i < j < |rules| :: rules[i].threshold != rules[j].threshold)
    && var ordered := SortedActive(rules);
       forall i | 0 <= i < |ordered| - 1 ::
         ordered[i].kind == ordered[i + 1].kind ==> ordered[i].rate < ordered[i + 1].rate
  }

  datatype Settings = Settings(minRate: int, maxRate: int, absoluteMax: int)

  datatype Violation = RateOutOfRange(index: nat) | AmountAboveAbsolute(index: nat) | CapAboveAbsolute(index: nat)

  function ViolationsOf(rule: Rule, index: nat, settings: Settings): seq<Violation> {
    (if rule.kind.ByPercentage? && (rule.rate < settings.minRate || rule.rate > settings.maxRate)
     then [RateOutOfRange(index)] else [])
    + (if rule.kind.ByAmount? && rule.rate > settings.absoluteMax then [AmountAboveAbsolute(index)] else [])
    + (if rule.maxValue.Some? && rule.maxValue.value > settings.absoluteMax then [CapAboveAbsolute(index)] else [])
  }

  function Violations(rules: seq<Rule>, settings: Settings): seq<Violation> {
    if rules == [] then []
    else Violations(rules[..|rules| - 1], settings) + ViolationsOf(rules[|rules| - 1], |rules| - 1, settings)
  }

  method ValidateRulesAgainstSettings(rules: seq<Rule>, settings: Settings) returns (violations: seq<Violation>)
    ensures violations == Violations(rules, settings)
  {
    violations := [];
    for index := 0 to |rules|
      invariant violations == Violations(rules[..index], settings)
    {
      assert rules[..index + 1][..index] == rules[..index];
      var rule := rules[index];
      var found: seq<Violation> := [];
      if rule.kind.ByPercentage? {
        if rule.rate < settings.minRate || rule.rate > settings.maxRate {
          found := found + [RateOutOfRange(index)];
        }
      }
      if rule.kind.ByAmount? && rule.rate > settings.absoluteMax {
        found := found + [AmountAboveAbsolute(index)];
      }
      if rule.maxValue.Some? && rule.maxValue.value > settings.absoluteMax {
        found := found + [CapAboveAbsolute(index)];
      }
      violations := violations + found;
    }
    assert rules[..|rules|] == rules;
  }

  /** The number at fault: a percentage out of range, an amount above the ceiling, or a cap above it. */
  predicate IsAtFault(rules: seq<Rule>, settings: Settings, v: Violation) {
    && v.index < |rules|
    && var rule := rules[v.index];
       match v
       case RateOutOfRange(_) => rule.kind.ByPercentage? && !(settings.minRate <= rule.rate <= settings.maxRate)
       case AmountAboveAbsolute(_) => rule.kind.ByAmount? && settings.absoluteMax < rule.rate
       case CapAboveAbsolute(_) => rule.maxValue.Some? && settings.absoluteMax < rule.maxValue.value
  }

  /** Rule by rule, and within one rule the rate before the cap. */
  predicate IsReportedBefore(v: Violation, w: Violation) {
    v.index < w.index || (v.index == w.index && !v.CapAboveAbsolute? && w.CapAboveAbsolute?)
  }

  lemma FaultsOfOne(rules: seq<Rule>, n: nat, settings: Settings, v: Violation)
    requires n < |rules|
    ensures v in ViolationsOf(rules[n], n, settings) <==> v.index == n && IsAtFault(rules, settings, v)
  {
  }

  lemma FaultsOfOneInOrder(rule: Rule, n: nat, settings: Settings)
    ensures var vs := ViolationsOf(rule, n, settings);
            && (forall v | v in vs :: v.index == n)
            && (forall i, j | 0 <= i < j < |vs| :: IsReportedBefore(vs[i], vs[j]))
  {
  }

  /** Exactly the faults are reported. */
  lemma {:induction false} ViolationsAreTheFaults(rules: seq<Rule>, settings: Settings, v: Violation)
    ensures v in Violations(rules, settings) <==> IsAtFault(rules, settings, v)
  {
    if rules != [] {
      var n := |rules| - 1;
      ViolationsAreTheFaults(rules[..n], settings, v);
      FaultsOfOne(rules, n, settings, v);
    }
  }

  /** Each is reported once, and in order. */
  lemma {:induction false} ViolationsAreInOrder(rules: seq<Rule>, settings: Settings)
    ensures var vs := Violations(rules, settings);
            && (forall v | v in vs :: v.index < |rules|)
            && (forall i, j | 0 <= i < j < |vs| :: IsReportedBefore(vs[i], vs[j]))
  {
    if rules != [] {
      var n := |rules| - 1;
      ViolationsAreInOrder(rules[..n], settings);
      FaultsOfOneInOrder(rules[n], n, settings);
      var before, last := Violations(rules[..n], settings), ViolationsOf(rules[n], n, settings);
      forall i, j | 0 <= i < j < |before| + |last|
        ensures IsReportedBefore((before + last)[i], (before + last)[j])
      {
        if i < |before| <= j {
          assert before[i] in before && last[j - |before|] in last;
        }
      }
    }
  }

  /** The ceiling never quietly overrides a number that was configured: what it can bind is an uncapped percentage alone. */
  ghost predicate CeilingIsIdle(rule: Rule, absoluteMax: int) {
    forall gross: int, higher: int | absoluteMax <= higher :: Value(rule, gross, absoluteMax) == Value(rule, gross, higher)
  }

  /** Where a ladder draws no violation, every percentage is in range, and the ceiling leaves every stated amount alone. */
  lemma {:induction false} NoViolationsMeans(rules: seq<Rule>, settings: Settings)
    requires settings.absoluteMax >= 0
    ensures Violations(rules, settings) == []
       ==> forall r | r in rules ::
             && (r.kind.ByPercentage? ==> settings.minRate <= r.rate <= settings.maxRate)
             && (r.kind.ByAmount? || r.maxValue.Some? ==> CeilingIsIdle(r, settings.absoluteMax))
  {
    if rules != [] {
      var n := |rules| - 1;
      NoViolationsMeans(rules[..n], settings);
      assert forall r :: r in rules <==> r == rules[n] || r in rules[..n];
    }
  }

  // ----- a bigger invoice

  function DiscountAt(rules: seq<Rule>, gross: int, absoluteMax: int): int {
    if Applicable(rules, gross).None? then 0 else Value(Applicable(rules, gross).value, gross, absoluteMax)
  }

  /** A bigger invoice never earns a smaller discount. */
  ghost predicate IsFair(rules: seq<Rule>, absoluteMax: int) {
    forall g1: int, g2: int | g1 <= g2 :: DiscountAt(rules, g1, absoluteMax) <= DiscountAt(rules, g2, absoluteMax)
  }

  /** Crossing into each rung loses nothing: what the last unit below it earns, its own threshold earns too. */
  predicate LosesNothingAtThresholds(rules: seq<Rule>, absoluteMax: int) {
    var ordered := SortedActive(rules);
    forall i | 0 <= i < |ordered| - 1 ::
      Value(ordered[i], ordered[i + 1].threshold - 1, absoluteMax)
      <= Value(ordered[i + 1], ordered[i + 1].threshold, absoluteMax)
  }

  /** A cap no tighter than the one below it; an absent cap is the loosest. */
  predicate CapAtLeast(lower: Option<int>, upper: Option<int>) {
    upper.None? || (lower.Some? && lower.value <= upper.value)
  }

  /** The caps keep the order of what they cap. */
  lemma CapsKeepOrder(low: Rule, g1: int, high: Rule, g2: int, absoluteMax: int)
    requires Uncapped(low, g1) <= Uncapped(high, g2) && g1 <= g2
    requires CapAtLeast(low.maxValue, high.maxValue)
    ensures Value(low, g1, absoluteMax) <= Value(high, g2, absoluteMax)
  {
  }

  lemma RisesWithinARung(rule: Rule, g1: int, g2: int, absoluteMax: int)
    requires rule.rate > 0 && g1 <= g2
    ensures Value(rule, g1, absoluteMax) <= Value(rule, g2, absoluteMax)
  {
    assert g1 * rule.rate <= g2 * rule.rate;
    CapsKeepOrder(rule, g1, rule, g2, absoluteMax);
  }

  /** One type, a higher rate and no tighter cap. */
  predicate CanStep(low: Rule, high: Rule) {
    0 < low.rate < high.rate && low.kind == high.kind && 0 < high.threshold && CapAtLeast(low.maxValue, high.maxValue)
  }

  lemma StepLosesNothing(low: Rule, high: Rule, absoluteMax: int)
    requires CanStep(low, high)
    ensures Value(low, high.threshold - 1, absoluteMax) <= Value(high, high.threshold, absoluteMax)
  {
    var t := high.threshold;
    assert (t - 1) * low.rate <= t * low.rate <= t * high.rate;
    CapsKeepOrder(low, t - 1, high, t, absoluteMax);
  }

  predicate StrictlyOrdered(rules: seq<Rule>) {
    forall i, j | 0 <= i < j < |rules| :: rules[i].threshold < rules[j].threshold
  }

  lemma {:induction false} InsertStaysStrict(sorted: seq<Rule>, rule: Rule)
    requires StrictlyOrdered(sorted) && forall r | r in sorted :: r.threshold != rule.threshold
    ensures StrictlyOrdered(InsertRule(sorted, rule))
    ensures forall r :: r in InsertRule(sorted, rule) <==> r == rule || r in sorted
  {
    var n := |sorted|;
    if n > 0 {
      assert sorted[n - 1] in sorted;
      if sorted[n - 1].threshold > rule.threshold {
        var rest := InsertRule(sorted[..n - 1], rule);
        InsertStaysStrict(sorted[..n - 1], rule);
        assert forall r :: r in sorted <==> r == sorted[n - 1] || r in sorted[..n - 1];
        forall i | 0 <= i < |rest|
          ensures rest[i].threshold < sorted[n - 1].threshold
        {
          assert rest[i] in rest;
        }
      }
    }
  }

  lemma {:induction false} DistinctIsStrict(rules: seq<Rule>)
    requires forall i, j | 0 <= i < j < |rules| :: rules[i].threshold != rules[j].threshold
    ensures StrictlyOrdered(SortedActive(rules))
  {
    if rules != [] {
      var n := |rules| - 1;
      DistinctIsStrict(rules[..n]);
      SortedActiveIsSorted(rules[..n]);
      InsertStaysStrict(SortedActive(rules[..n]), rules[n]);
    }
  }

  /** `s` is the next rung above `r`. */
  predicate IsNextRung(rules: seq<Rule>, r: Rule, s: Rule) {
    r in rules && s in rules && r.threshold < s.threshold && forall q | q in rules :: q.threshold <= r.threshold || s.threshold <= q.threshold
  }

  lemma NextRungsAreNeighbours(rules: seq<Rule>, ordered: seq<Rule>)
    requires StrictlyOrdered(ordered) && forall r :: r in ordered <==> r in rules
    ensures forall i | 0 <= i < |ordered| - 1 :: IsNextRung(rules, ordered[i], ordered[i + 1])
    ensures forall r, s | IsNextRung(rules, r, s) :: exists i | 0 <= i < |ordered| - 1 :: ordered[i] == r && ordered[i + 1] == s
  {
    forall i | 0 <= i < |ordered| - 1
      ensures IsNextRung(rules, ordered[i], ordered[i + 1])
    {
      assert ordered[i] in ordered && ordered[i + 1] in ordered;
      forall q | q in rules
        ensures q.threshold <= ordered[i].threshold || ordered[i + 1].threshold <= q.threshold
      {
        var k :| 0 <= k < |ordered| && ordered[k] == q;
      }
    }
    forall r, s | IsNextRung(rules, r, s)
      ensures exists i | 0 <= i < |ordered| - 1 :: ordered[i] == r && ordered[i + 1] == s
    {
      assert r in ordered && s in ordered;
      var i :| 0 <= i < |ordered| && ordered[i] == r;
      var j :| 0 <= j < |ordered| && ordered[j] == s;
      assert ordered[i + 1] in ordered;
    }
  }

  /**
   * A ladder is accepted exactly if its thresholds differ and each next rung of the same type has a
   * higher rate, in whatever order it is given.
   */
  lemma AcceptedExactlyWhen(rules: seq<Rule>)
    ensures IsAcceptedLadder(rules)
       <==> && rules != []
            && (forall r | r in rules :: IsRule(r) && r.isActive)
            && (forall i, j | 0 <= i < j < |rules| :: rules[i].threshold != rules[j].threshold)
            && (forall r, s | IsNextRung(rules, r, s) && r.kind == s.kind :: r.rate < s.rate)
  {
    if (forall r | r in rules :: r.isActive) && forall i, j | 0 <= i < j < |rules| :: rules[i].threshold != rules[j].threshold {
      SortedActiveIsSorted(rules);
      DistinctIsStrict(rules);
      NextRungsAreNeighbours(rules, SortedActive(rules));
    }
  }

  /** How many rungs of an ordered ladder the invoice reaches. */
  lemma RungOf(ordered: seq<Rule>, gross: int) returns (k: nat)
    requires StrictlyOrdered(ordered)
    ensures k <= |ordered|
    ensures k > 0 ==> ordered[k - 1].threshold <= gross
    ensures k < |ordered| ==> gross < ordered[k].threshold
    ensures LastReached(ordered, gross) == if k == 0 then None else Some(ordered[k - 1])
  {
    k := 0;
    while k < |ordered| && ordered[k].threshold <= gross
      invariant k <= |ordered|
      invariant k > 0 ==> ordered[k - 1].threshold <= gross
    {
      k := k + 1;
    }
    LastReachedStops(ordered, gross, k);
  }

  lemma {:induction false} ClimbingLosesNothing(ordered: seq<Rule>, g1: int, k: nat, m: nat, absoluteMax: int)
    requires StrictlyOrdered(ordered) && forall r | r in ordered :: r.rate > 0
    requires forall i | 0 <= i < |ordered| - 1 ::
               Value(ordered[i], ordered[i + 1].threshold - 1, absoluteMax)
               <= Value(ordered[i + 1], ordered[i + 1].threshold, absoluteMax)
    requires 0 < k < m <= |ordered| && g1 < ordered[k].threshold
    ensures Value(ordered[k - 1], g1, absoluteMax) <= Value(ordered[m - 1], ordered[m - 1].threshold, absoluteMax)
    decreases m
  {
    assert ordered[k - 1] in ordered && ordered[m - 2] in ordered;
    if m == k + 1 {
      RisesWithinARung(ordered[k - 1], g1, ordered[k].threshold - 1, absoluteMax);
    } else {
      ClimbingLosesNothing(ordered, g1, k, m - 1, absoluteMax);
      RisesWithinARung(ordered[m - 2], ordered[m - 2].threshold, ordered[m - 1].threshold - 1, absoluteMax);
    }
  }

  /** A ladder is fair to every pair of invoices exactly when no threshold loses anything: one comparison a rung. */
  lemma FairExactlyWhen(rules: seq<Rule>, absoluteMax: int)
    requires forall r | r in rules :: IsRule(r)
    requires forall i, j | 0 <= i < j < |rules| :: rules[i].threshold != rules[j].threshold
    ensures IsFair(rules, absoluteMax) <==> LosesNothingAtThresholds(rules, absoluteMax)
  {
    var ordered := SortedActive(rules);
    SortedActiveIsSorted(rules);
    DistinctIsStrict(rules);
    if IsFair(rules, absoluteMax) {
      FairLosesNothing(rules, absoluteMax);
    }
    if LosesNothingAtThresholds(rules, absoluteMax) {
      forall g1: int, g2: int | g1 <= g2
        ensures DiscountAt(rules, g1, absoluteMax) <= DiscountAt(rules, g2, absoluteMax)
      {
        FairBetween(rules, g1, g2, absoluteMax);
      }
    }
  }

  lemma FairLosesNothing(rules: seq<Rule>, absoluteMax: int)
    requires StrictlyOrdered(SortedActive(rules)) && IsFair(rules, absoluteMax)
    ensures LosesNothingAtThresholds(rules, absoluteMax)
  {
    var ordered := SortedActive(rules);
    forall i | 0 <= i < |ordered| - 1
      ensures Value(ordered[i], ordered[i + 1].threshold - 1, absoluteMax)
           <= Value(ordered[i + 1], ordered[i + 1].threshold, absoluteMax)
    {
      var t := ordered[i + 1].threshold;
      DiscountOnRung(rules, t - 1, i + 1, absoluteMax);
      DiscountOnRung(rules, t, i + 2, absoluteMax);
      assert DiscountAt(rules, t - 1, absoluteMax) <= DiscountAt(rules, t, absoluteMax);
    }
  }

  lemma DiscountOnRung(rules: seq<Rule>, gross: int, k: nat, absoluteMax: int)
    requires StrictlyOrdered(SortedActive(rules)) && k <= |SortedActive(rules)|
    requires k > 0 ==> SortedActive(rules)[k - 1].threshold <= gross
    requires k < |SortedActive(rules)| ==> gross < SortedActive(rules)[k].threshold
    ensures DiscountAt(rules, gross, absoluteMax) == if k == 0 then 0 else Value(SortedActive(rules)[k - 1], gross, absoluteMax)
  {
    SortedFindsApplicable(rules, gross);
    LastReachedStops(SortedActive(rules), gross, k);
  }

  lemma FairBetween(rules: seq<Rule>, g1: int, g2: int, absoluteMax: int)
    requires forall r | r in rules :: IsRule(r)
    requires StrictlyOrdered(SortedActive(rules)) && LosesNothingAtThresholds(rules, absoluteMax) && g1 <= g2
    ensures DiscountAt(rules, g1, absoluteMax) <= DiscountAt(rules, g2, absoluteMax)
  {
    var ordered := SortedActive(rules);
    SortedActiveIsSorted(rules);
    var k := RungOf(ordered, g1);
    var m := RungOf(ordered, g2);
    DiscountOnRung(rules, g1, k, absoluteMax);
    DiscountOnRung(rules, g2, m, absoluteMax);
    if 0 < k {
      assert k <= m;
      ClimbBetween(ordered, g1, k, g2, m, absoluteMax);
    }
  }

  lemma ClimbBetween(ordered: seq<Rule>, g1: int, k: nat, g2: int, m: nat, absoluteMax: int)
    requires StrictlyOrdered(ordered) && forall r | r in ordered :: r.rate > 0
    requires forall i | 0 <= i < |ordered| - 1 ::
               Value(ordered[i], ordered[i + 1].threshold - 1, absoluteMax)
               <= Value(ordered[i + 1], ordered[i + 1].threshold, absoluteMax)
    requires 0 < k <= m <= |ordered| && g1 <= g2
    requires (k < |ordered| ==> g1 < ordered[k].threshold) && ordered[m - 1].threshold <= g2
    ensures Value(ordered[k - 1], g1, absoluteMax) <= Value(ordered[m - 1], g2, absoluteMax)
  {
    assert ordered[m - 1] in ordered;
    if k == m {
      RisesWithinARung(ordered[k - 1], g1, g2, absoluteMax);
    } else {
      ClimbingLosesNothing(ordered, g1, k, m, absoluteMax);
      RisesWithinARung(ordered[m - 1], ordered[m - 1].threshold, g2, absoluteMax);
    }
  }

  /** An accepted ladder of one type whose own caps never tighten on the way up is fair. */
  lemma OneTypeLadderIsFair(rules: seq<Rule>, absoluteMax: int)
    requires IsAcceptedLadder(rules)
    requires forall r, s | r in rules && s in rules :: r.kind == s.kind
    requires forall r, s | r in rules && s in rules && r.threshold < s.threshold :: CapAtLeast(r.maxValue, s.maxValue)
    ensures IsFair(rules, absoluteMax)
  {
    var ordered := SortedActive(rules);
    SortedActiveIsSorted(rules);
    DistinctIsStrict(rules);
    forall i | 0 <= i < |ordered| - 1
      ensures CanStep(ordered[i], ordered[i + 1])
    {
      assert ordered[i] in ordered && ordered[i + 1] in ordered;
    }
    StepsLoseNothing(rules, absoluteMax);
    FairExactlyWhen(rules, absoluteMax);
  }

  lemma StepsLoseNothing(rules: seq<Rule>, absoluteMax: int)
    requires forall i | 0 <= i < |SortedActive(rules)| - 1 :: CanStep(SortedActive(rules)[i], SortedActive(rules)[i + 1])
    ensures LosesNothingAtThresholds(rules, absoluteMax)
  {
    var ordered := SortedActive(rules);
    forall i | 0 <= i < |ordered| - 1
      ensures Value(ordered[i], ordered[i + 1].threshold - 1, absoluteMax)
           <= Value(ordered[i + 1], ordered[i + 1].threshold, absoluteMax)
    {
      StepLosesNothing(ordered[i], ordered[i + 1], absoluteMax);
    }
  }

  /** The accepted ladders alone are not enough: a tighter cap higher up passes every check and loses. */
  lemma TighterCapCanBeUnfair()
    ensures var rules := [Rule(1000, ByPercentage, 10, None, true), Rule(2000, ByPercentage, 20, Some(50), true)];
            IsAcceptedLadder(rules) && Violations(rules, Settings(1, 100, 5000)) == [] && !IsFair(rules, 5000)
  {
    var low, high := Rule(1000, ByPercentage, 10, None, true), Rule(2000, ByPercentage, 20, Some(50), true);
    TwoRungs(low, high, Settings(1, 100, 5000));
    FairExactlyWhen([low, high], 5000);
  }

  /** So does a change of type. */
  lemma ChangeOfTypeCanBeUnfair()
    ensures var rules := [Rule(1000, ByPercentage, 10, None, true), Rule(2000, ByAmount, 50, None, true)];
            IsAcceptedLadder(rules) && Violations(rules, Settings(1, 100, 5000)) == [] && !IsFair(rules, 5000)
  {
    var low, high := Rule(1000, ByPercentage, 10, None, true), Rule(2000, ByAmount, 50, None, true);
    TwoRungs(low, high, Settings(1, 100, 5000));
    FairExactlyWhen([low, high], 5000);
  }

  lemma TwoRungs(a: Rule, b: Rule, settings: Settings)
    requires a.isActive && b.isActive && a.threshold < b.threshold
    ensures SortedActive([a, b]) == [a, b]
    ensures Violations([a, b], settings) == ViolationsOf(a, 0, settings) + ViolationsOf(b, 1, settings)
  {
    assert [a, b][..1] == [a] && [a][..0] == [];
    assert SortedActive([a]) == [a];
    assert Violations([a], settings) == ViolationsOf(a, 0, settings);
  }
}
