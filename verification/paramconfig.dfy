/** The pure part of the batch parameter tester: the configuration
    dictionaries it builds from comma-separated value lists (a cartesian
    product in nested-loop order), the range repairs it applies to a
    configuration before running it, and the one-line summary it shows for
    a configuration. */
module ParamConfig {
  import opened SeqUtil
  import opened Text

  // ----- configuration dictionaries -----

  /** A parameter value as the tester's variables hand it over. */
  datatype Value = Int(i: int) | Float(r: real) | Bool(b: bool) | Str(s: string)

  /** One `key: value` pair of a configuration dictionary. */
  datatype Entry = Entry(key: string, value: Value)

  /** A configuration dictionary, in insertion order. */
  type Config = seq<Entry>

  function Keys(c: Config): (ks: seq<string>)
    ensures |ks| == |c| && forall i :: 0 <= i < |c| ==> ks[i] == c[i].key
  {
    seq(|c|, i requires 0 <= i < |c| => c[i].key)
  }

  /** No key occurs twice, as in a Python dictionary. */
  ghost predicate Unique(c: Config) {
    forall i, j :: 0 <= i < j < |c| ==> c[i].key != c[j].key
  }

  /** The position of `k` in `c`, or -1 when it is absent. */
  function IndexOf(c: Config, k: string): (i: int)
    ensures -1 <= i < |c|
    ensures 0 <= i ==> c[i].key == k
    ensures forall j :: 0 <= j < |c| && (i < 0 || j < i) ==> c[j].key != k
  {
    if c == [] then -1
    else if c[0].key == k then 0
    else
      var i := IndexOf(c[1..], k);
      if i < 0 then -1 else i + 1
  }

  /** Where `k` first occurs depends only on which positions hold `k`. */
  lemma IndexOfSameKeys(c: Config, d: Config, k: string)
    requires |c| <= |d|
    requires forall j :: 0 <= j < |c| ==> (c[j].key == k <==> d[j].key == k)
    requires forall j :: |c| <= j < |d| ==> d[j].key != k
    ensures IndexOf(d, k) == IndexOf(c, k)
  {
    var i, m := IndexOf(c, k), IndexOf(d, k);
    if i >= 0 {
      assert d[i].key == k;
    }
    if m >= 0 {
      assert m < |c|;
      assert c[m].key == k;
    }
  }

  /** `c.get(k)`: the value stored under `k`, if any. */
  function Lookup(c: Config, k: string): (r: Option<Value>)
    ensures r.Some? <==> k in Keys(c)
  {
    var i := IndexOf(c, k);
    assert i >= 0 ==> Keys(c)[i] == k;
    if i < 0 then None else Some(c[i].value)
  }

  /** In a dictionary without repeated keys, each entry is what its key
      looks up. */
  lemma LookupAt(c: Config, j: nat)
    requires Unique(c) && j < |c|
    ensures Lookup(c, c[j].key) == Some(c[j].value)
  {
  }

  /** `c[k] = v`: an existing key keeps its place, a new one goes last. */
  function Put(c: Config, k: string, v: Value): Config {
    var i := IndexOf(c, k);
    if i < 0 then c + [Entry(k, v)] else c[i := Entry(k, v)]
  }

  /** Storing under `k` is what a later lookup of `k` sees, no other key
      changes, and the key order is kept (a new key goes last). */
  lemma PutSpec(c: Config, k: string, v: Value)
    ensures Lookup(Put(c, k, v), k) == Some(v)
    ensures forall k' :: k' != k ==> Lookup(Put(c, k, v), k') == Lookup(c, k')
    ensures Keys(Put(c, k, v)) == if k in Keys(c) then Keys(c) else Keys(c) + [k]
    ensures Unique(c) ==> Unique(Put(c, k, v))
  {
    var i := IndexOf(c, k);
    var r := Put(c, k, v);
    forall k' | k' != k ensures IndexOf(r, k') == IndexOf(c, k') {
      IndexOfSameKeys(c, r, k');
    }
    if i < 0 {
      assert Keys(r) == Keys(c) + [k];
    } else {
      assert Keys(r) == Keys(c);
    }
  }

  /** The number a value compares as; text does not compare with numbers
      (Python raises `TypeError`), and a bool compares as 0 or 1. */
  function Num(v: Value): (x: Option<real>)
    ensures x.None? <==> v.Str?
  {
    match v
    case Int(i) => Some(i as real)
    case Float(r) => Some(r)
    case Bool(b) => Some(if b then 1.0 else 0.0)
    case Str(_) => None
  }

  /** `k` is present and holds text, so comparing it with a number raises. */
  predicate Texty(c: Config, k: string) {
    var v := Lookup(c, k);
    v.Some? && v.value.Str?
  }

  /** `k` is absent, or holds a number that `ok` accepts. */
  ghost predicate Holds(c: Config, k: string, ok: real -> bool) {
    var v := Lookup(c, k);
    v.None? || (Num(v.value).Some? && ok(Num(v.value).value))
  }

  /** Same keys in the same order, and the same values outside `ks`. */
  ghost predicate SameExcept(c: Config, d: Config, ks: seq<string>) {
    Keys(c) == Keys(d) && forall k :: k !in ks ==> Lookup(c, k) == Lookup(d, k)
  }

  // ----- range repairs -----

  /** The lower comparison of a repair: too low is `x < bound` or `x <= bound`. */
  datatype Low = Under(bound: real) | UpTo(bound: real)

  /** The upper comparison of a repair, if any: too high is `x > bound` or `x >= bound`. */
  datatype High = NoHigh | Over(bound: real) | From(bound: real)

  /** One check of the repair block: a present `key` whose number is too low
      becomes `lowFix`, one that is too high becomes `highFix`. */
  datatype Rule = Rule(key: string, low: Low, lowFix: Value, high: High, highFix: Value)

  predicate TooLow(l: Low, x: real) {
    match l
    case Under(b) => x < b
    case UpTo(b) => x <= b
  }

  predicate TooHigh(h: High, x: real) {
    match h
    case NoHigh => false
    case Over(b) => x > b
    case From(b) => x >= b
  }

  /** `c` passes the rule's comparisons without raising or being repaired. */
  predicate Within(c: Config, rule: Rule) {
    var v := Lookup(c, rule.key);
    v.None? || (Num(v.value).Some? && !TooLow(rule.low, Num(v.value).value) && !TooHigh(rule.high, Num(v.value).value))
  }

  /** The replacement values pass the rule themselves. */
  predicate Sound(rule: Rule) {
    var lo := Num(rule.lowFix);
    var hi := Num(rule.highFix);
    lo.Some? && !TooLow(rule.low, lo.value) && !TooHigh(rule.high, lo.value)
    && (rule.high.NoHigh? || (hi.Some? && !TooLow(rule.low, hi.value) && !TooHigh(rule.high, hi.value)))
  }

  /** One `if key in c and (c[key] <= lo or c[key] > hi): c[key] = max(..., min(...))`
      line of the repair block; None when the comparison raises. */
  function ApplyRule(c: Config, rule: Rule): (r: Option<Config>)
    ensures r.None? <==> Texty(c, rule.key)
    ensures r.Some? && Sound(rule) ==> Within(r.value, rule)
    ensures r.Some? ==> SameExcept(c, r.value, [rule.key])
    ensures Within(c, rule) ==> r == Some(c)
  {
    var v := Lookup(c, rule.key);
    if v.None? then Some(c)
    else
      var x := Num(v.value);
      if x.None? then None
      else if TooLow(rule.low, x.value) then PutSpec(c, rule.key, rule.lowFix); Some(Put(c, rule.key, rule.lowFix))
      else if TooHigh(rule.high, x.value) then PutSpec(c, rule.key, rule.highFix); Some(Put(c, rule.key, rule.highFix))
      else Some(c)
  }

  /** The checks in order; the first one that raises abandons the rest. */
  function ApplyRules(c: Config, rules: seq<Rule>): Option<Config>
    decreases |rules|
  {
    if rules == [] then Some(c)
    else
      var d := ApplyRule(c, rules[0]);
      if d.None? then None else ApplyRules(d.value, rules[1..])
  }

  function RuleKeys(rules: seq<Rule>): (ks: seq<string>)
    ensures |ks| == |rules| && forall i :: 0 <= i < |rules| ==> ks[i] == rules[i].key
  {
    seq(|rules|, i requires 0 <= i < |rules| => rules[i].key)
  }

  /** No two rules check the same key, and every rule repairs into range. */
  ghost predicate RuleSet(rules: seq<Rule>) {
    (forall i, j :: 0 <= i < j < |rules| ==> rules[i].key != rules[j].key)
    && (forall i :: 0 <= i < |rules| ==> Sound(rules[i]))
  }

  /** After the checks every checked key is in range, the key order is
      unchanged and unchecked keys keep their values. */
  lemma {:induction false} ApplyRulesSound(c: Config, rules: seq<Rule>)
    requires RuleSet(rules) && ApplyRules(c, rules).Some?
    ensures var f := ApplyRules(c, rules).value;
      (forall i :: 0 <= i < |rules| ==> Within(f, rules[i]))
      && Keys(f) == Keys(c)
      && forall k :: k !in RuleKeys(rules) ==> Lookup(f, k) == Lookup(c, k)
    decreases |rules|
  {
    if rules != [] {
      var d := ApplyRule(c, rules[0]).value;
      var rest := rules[1..];
      ApplyRulesSound(d, rest);
      var f := ApplyRules(d, rest).value;
      assert forall k :: k in RuleKeys(rest) ==> k in RuleKeys(rules) by {
        forall k | k in RuleKeys(rest) ensures k in RuleKeys(rules) {
          var i :| 0 <= i < |rest| && RuleKeys(rest)[i] == k;
          assert RuleKeys(rules)[i + 1] == k;
        }
      }
      assert RuleKeys(rules)[0] == rules[0].key;
      assert rules[0].key !in RuleKeys(rest) by {
        forall i | 0 <= i < |rest| ensures RuleKeys(rest)[i] != rules[0].key {
          assert rest[i] == rules[i + 1];
        }
      }
      assert Lookup(f, rules[0].key) == Lookup(d, rules[0].key);
      forall i | 0 <= i < |rules| ensures Within(f, rules[i]) {
        if i > 0 {
          assert rules[i] == rest[i - 1];
        }
      }
    }
  }

  /** Keys already in range are left alone: the checks change nothing. */
  lemma {:induction false} ApplyRulesStable(c: Config, rules: seq<Rule>)
    requires forall i :: 0 <= i < |rules| ==> Within(c, rules[i])
    ensures ApplyRules(c, rules) == Some(c)
    decreases |rules|
  {
    if rules != [] {
      assert Within(c, rules[0]);
      var rest := rules[1..];
      assert forall i :: 0 <= i < |rest| ==> Within(c, rest[i]) by {
        forall i | 0 <= i < |rest| ensures Within(c, rest[i]) {
          assert rest[i] == rules[i + 1];
        }
      }
      ApplyRulesStable(c, rest);
    }
  }

  lemma RuleSetTail(rules: seq<Rule>)
    requires RuleSet(rules) && rules != []
    ensures RuleSet(rules[1..])
  {
    var rest := rules[1..];
    forall i | 0 <= i < |rest| ensures rest[i] == rules[i + 1] { }
  }

  /** Repairing the first key leaves the others holding text or not as
      before. */
  lemma TextyKept(c: Config, rules: seq<Rule>)
    requires RuleSet(rules) && rules != [] && ApplyRule(c, rules[0]).Some?
    ensures forall i :: 1 <= i < |rules| ==> Texty(ApplyRule(c, rules[0]).value, rules[i].key) == Texty(c, rules[i].key)
  {
    var d := ApplyRule(c, rules[0]).value;
    forall i | 1 <= i < |rules| ensures Texty(d, rules[i].key) == Texty(c, rules[i].key) {
      assert rules[i].key != rules[0].key;
      Unchanged(c, d, [rules[0].key], rules[i].key);
    }
  }

  /** The checks raise exactly when a checked key holds text. */
  lemma {:induction false} ApplyRulesRaise(c: Config, rules: seq<Rule>)
    requires RuleSet(rules)
    ensures ApplyRules(c, rules).None? <==> exists i :: 0 <= i < |rules| && Texty(c, rules[i].key)
    decreases |rules|
  {
    if rules != [] {
      var d := ApplyRule(c, rules[0]);
      var rest := rules[1..];
      if d.None? {
        assert Texty(c, rules[0].key);
      } else {
        RuleSetTail(rules);
        ApplyRulesRaise(d.value, rest);
        TextyKept(c, rules);
        if ApplyRules(c, rules).None? {
          var i :| 0 <= i < |rest| && Texty(d.value, rest[i].key);
          assert rest[i] == rules[i + 1];
        } else {
          forall i | 0 <= i < |rules| ensures !Texty(c, rules[i].key) {
            if i > 0 {
              assert rest[i - 1] == rules[i];
            }
          }
        }
      }
    }
  }

  // ----- the ACO repairs -----

  const AntsRule := Rule("num_ants", UpTo(0.0), Int(1), Over(1000.0), Int(1000))
  const AlphaRule := Rule("alpha", Under(0.0), Int(0), NoHigh, Int(0))
  const BetaRule := Rule("beta", Under(0.0), Int(0), NoHigh, Int(0))
  const RhoRule := Rule("rho", UpTo(0.0), Float(0.001), From(1.0), Float(0.999))
  const QRule := Rule("q", UpTo(0.0), Int(1), NoHigh, Int(1))
  const IterationsRule := Rule("max_iterations", UpTo(0.0), Int(1), NoHigh, Int(1))
  const ElitistRule := Rule("elitist_ants", Under(0.0), Int(0), NoHigh, Int(0))

  /** The ACO checks, in the order the tester makes them. */
  const AcoRules: seq<Rule> := [AntsRule, AlphaRule, BetaRule, RhoRule, QRule, IterationsRule, ElitistRule]

  /** The parameters the ACO checks look at. */
  const AcoKeys: seq<string> := ["num_ants", "alpha", "beta", "rho", "q", "max_iterations", "elitist_ants"]

  predicate Positive(x: real) { 0.0 < x }
  predicate NonNegative(x: real) { 0.0 <= x }
  predicate AntCount(x: real) { 0.0 < x <= 1000.0 }
  predicate OpenFraction(x: real) { 0.0 < x < 1.0 }
  predicate ClosedFraction(x: real) { 0.0 <= x <= 1.0 }

  /** A rule's comparisons, read as a range. */
  lemma WithinMeans(c: Config, rule: Rule, ok: real -> bool)
    requires forall x :: ok(x) <==> !TooLow(rule.low, x) && !TooHigh(rule.high, x)
    ensures Within(c, rule) <==> Holds(c, rule.key, ok)
  {
  }

  /** The ranges the ACO solver is meant to receive: 1 to 1000 ants,
      non-negative exponents, an evaporation rate strictly between 0 and 1,
      positive deposit and iteration count, and no negative elitist count. */
  ghost predicate AcoInRange(c: Config) {
    Holds(c, "num_ants", AntCount)
    && Holds(c, "alpha", NonNegative)
    && Holds(c, "beta", NonNegative)
    && Holds(c, "rho", OpenFraction)
    && Holds(c, "q", Positive)
    && Holds(c, "max_iterations", Positive)
    && Holds(c, "elitist_ants", NonNegative)
  }

  lemma AcoRuleSet()
    ensures RuleSet(AcoRules) && RuleKeys(AcoRules) == AcoKeys
  {
  }

  /** Passing the ACO checks is being in the ACO ranges. */
  lemma AcoRulesMeanRanges(c: Config)
    ensures AcoInRange(c) <==> forall i :: 0 <= i < |AcoRules| ==> Within(c, AcoRules[i])
  {
    var rs := AcoRules;
    assert rs[0] == AntsRule && rs[1] == AlphaRule && rs[2] == BetaRule && rs[3] == RhoRule;
    assert rs[4] == QRule && rs[5] == IterationsRule && rs[6] == ElitistRule;
    WithinMeans(c, AntsRule, AntCount);
    WithinMeans(c, AlphaRule, NonNegative);
    WithinMeans(c, BetaRule, NonNegative);
    WithinMeans(c, RhoRule, OpenFraction);
    WithinMeans(c, QRule, Positive);
    WithinMeans(c, IterationsRule, Positive);
    WithinMeans(c, ElitistRule, NonNegative);
    if AcoInRange(c) {
      forall i | 0 <= i < |rs| ensures Within(c, rs[i]) {
        assert i == 0 || i == 1 || i == 2 || i == 3 || i == 4 || i == 5 || i == 6;
      }
    }
  }

  /** The ACO half of the repair block; None when a comparison raises,
      which is exactly when a checked parameter holds text. A repaired
      configuration is in range, keeps its key order and changes only the
      checked parameters; one already in range is not changed. */
  function FixAco(c: Config): (r: Option<Config>)
    ensures r.None? <==> exists k :: k in AcoKeys && Texty(c, k)
    ensures r.Some? ==> AcoInRange(r.value) && Keys(r.value) == Keys(c)
    ensures r.Some? ==> forall k :: k !in AcoKeys ==> Lookup(r.value, k) == Lookup(c, k)
    ensures AcoInRange(c) ==> r == Some(c)
  {
    AcoChecksSound(c);
    AcoChecksStable(c);
    AcoChecksRaise(c);
    ApplyRules(c, AcoRules)
  }

  lemma AcoChecksSound(c: Config)
    ensures var a := ApplyRules(c, AcoRules);
      a.Some? ==> AcoInRange(a.value) && Keys(a.value) == Keys(c)
                  && forall k :: k !in AcoKeys ==> Lookup(a.value, k) == Lookup(c, k)
  {
    var a := ApplyRules(c, AcoRules);
    if a.Some? {
      AcoRuleSet();
      ApplyRulesSound(c, AcoRules);
      AcoRulesMeanRanges(a.value);
    }
  }

  lemma AcoChecksStable(c: Config)
    ensures AcoInRange(c) ==> ApplyRules(c, AcoRules) == Some(c)
  {
    if AcoInRange(c) {
      AcoRulesMeanRanges(c);
      ApplyRulesStable(c, AcoRules);
    }
  }

  lemma AcoChecksRaise(c: Config)
    ensures ApplyRules(c, AcoRules).None? <==> exists k :: k in AcoKeys && Texty(c, k)
  {
    AcoRuleSet();
    ApplyRulesRaise(c, AcoRules);
    if exists k :: k in AcoKeys && Texty(c, k) {
      var k :| k in AcoKeys && Texty(c, k);
      var i :| 0 <= i < |AcoKeys| && AcoKeys[i] == k;
      assert AcoRules[i].key == k;
    }
  }

  // ----- the GA repairs -----

  const PopulationRule := Rule("population_size", UpTo(0.0), Int(10), NoHigh, Int(10))
  const MutationRateRule := Rule("mutation_rate", Under(0.0), Int(0), Over(1.0), Int(1))
  const CrossoverRateRule := Rule("crossover_rate", Under(0.0), Int(0), Over(1.0), Int(1))
  const ElitismRule := Rule("elitism", Under(0.0), Int(0), NoHigh, Int(0))
  const TournamentRule := Rule("tournament_size", UpTo(0.0), Int(2), NoHigh, Int(2))

  /** The GA range checks that come before the elitism cap, in order. */
  const GaRules: seq<Rule> := [PopulationRule, MutationRateRule, CrossoverRateRule, ElitismRule]

  /** The numeric parameters the GA checks compare. */
  const GaNumericKeys: seq<string> := ["population_size", "mutation_rate", "crossover_rate", "elitism", "tournament_size"]

  /** The parameters the GA checks may change. */
  const GaKeys: seq<string> := GaNumericKeys + ["selection_method", "crossover_method", "mutation_method"]

  /** `v - 1` for a number (a bool subtracts as 0 or 1 and gives an int). */
  function MinusOne(v: Value): (r: Value)
    requires !v.Str?
    ensures !r.Str? && Num(r).value == Num(v).value - 1.0
  {
    match v
    case Int(i) => Int(i - 1)
    case Float(x) => Float(x - 1.0)
    case Bool(b) => Int(if b then 0 else -1)
  }

  /** When both are present, elitism is a number below the population size. */
  predicate ElitismBelow(c: Config) {
    var e, p := Lookup(c, "elitism"), Lookup(c, "population_size");
    e.None? || p.None? || (Num(e.value).Some? && Num(p.value).Some? && Num(e.value).value < Num(p.value).value)
  }

  /** `if elitism >= population_size: elitism = max(0, min(elitism, population_size - 1))`;
      None when the comparison raises. When both values are text Python
      compares them as strings; the model treats that case as raising too.
      Inside `FixGa` it never arises: the range checks before the cap have
      already raised on a text elitism or population size. */
  function CapElitism(c: Config): (r: Option<Config>)
    ensures r.None? <==> (Lookup(c, "elitism").Some? && Lookup(c, "population_size").Some?
                          && (Texty(c, "elitism") || Texty(c, "population_size")))
    ensures r.Some? && Holds(c, "population_size", Positive) ==> ElitismBelow(r.value)
    ensures r.Some? && Holds(c, "elitism", NonNegative) ==> Holds(r.value, "elitism", NonNegative)
    ensures r.Some? ==> SameExcept(c, r.value, ["elitism"])
    ensures ElitismBelow(c) ==> r == Some(c)
  {
    var e, p := Lookup(c, "elitism"), Lookup(c, "population_size");
    if e.None? || p.None? then Some(c)
    else if e.value.Str? || p.value.Str? then None
    else if Num(e.value).value >= Num(p.value).value then
      var q := MinusOne(p.value);
      var capped := if Num(q).value > 0.0 then q else Int(0);
      PutSpec(c, "elitism", capped);
      Some(Put(c, "elitism", capped))
    else Some(c)
  }

  /** A whitelist check: a present `key` whose value is not one of the
      allowed names becomes `fallback`. */
  datatype Choice = Choice(key: string, allowed: seq<string>, fallback: string)

  const SelectionChoice := Choice("selection_method", ["tournament", "roulette", "rank"], "tournament")
  const CrossoverChoice := Choice("crossover_method", ["ordered", "partially_mapped", "cycle"], "ordered")
  const MutationChoice := Choice("mutation_method", ["swap", "insert", "inversion", "scramble"], "swap")

  /** `k` is absent or names one of `names`. */
  predicate OneOf(c: Config, k: string, names: seq<string>) {
    var v := Lookup(c, k);
    v.None? || (v.value.Str? && v.value.s in names)
  }

  /** `if key in c and c[key] not in allowed: c[key] = fallback` (membership
      never raises). */
  function Choose(c: Config, ch: Choice): (r: Config)
    ensures ch.fallback in ch.allowed ==> OneOf(r, ch.key, ch.allowed)
    ensures OneOf(c, ch.key, ch.allowed) ==> r == c
    ensures SameExcept(c, r, [ch.key])
  {
    if OneOf(c, ch.key, ch.allowed) then c
    else PutSpec(c, ch.key, Str(ch.fallback)); Put(c, ch.key, Str(ch.fallback))
  }

  /** Not the partially-mapped crossover together with scramble mutation. */
  predicate Compatible(c: Config) {
    !(Lookup(c, "crossover_method") == Some(Str("partially_mapped")) && Lookup(c, "mutation_method") == Some(Str("scramble")))
  }

  /** Scramble mutation is swapped for swap mutation under the
      partially-mapped crossover. */
  function Pairing(c: Config): (r: Config)
    ensures Compatible(r)
    ensures Compatible(c) ==> r == c
    ensures SameExcept(c, r, ["mutation_method"])
    ensures OneOf(c, "mutation_method", MutationChoice.allowed) ==> OneOf(r, "mutation_method", MutationChoice.allowed)
  {
    if Compatible(c) then c
    else PutSpec(c, "mutation_method", Str("swap")); Put(c, "mutation_method", Str("swap"))
  }

  /** The numeric GA checks: the range checks, the elitism cap and the
      tournament-size check; None when a comparison raises. */
  function GaNumbers(c: Config): Option<Config> {
    var a := ApplyRules(c, GaRules);
    if a.None? then None
    else
      var b := CapElitism(a.value);
      if b.None? then None else ApplyRule(b.value, TournamentRule)
  }

  /** The method whitelists, then the crossover/mutation pairing. */
  function Methods(d: Config): Config {
    Pairing(Choose(Choose(Choose(d, SelectionChoice), CrossoverChoice), MutationChoice))
  }

  /** The GA half of the repair block; None when a comparison raises,
      which is exactly when a compared parameter holds text. A repaired
      configuration is in range, keeps its key order and changes only the
      checked parameters; one already in range is not changed. */
  function FixGa(c: Config): (r: Option<Config>)
    ensures r.None? <==> exists k :: k in GaNumericKeys && Texty(c, k)
    ensures r.Some? ==> GaInRange(r.value) && SameExcept(c, r.value, GaKeys)
    ensures GaInRange(c) ==> r == Some(c)
  {
    var d := GaNumbers(c);
    GaNumbersRaise(c);
    GaNumbersStable(c);
    if d.None? then None
    else
      GaNumbersSound(c);
      MethodsSound(d.value);
      MethodKeysApart();
      NumbersAlike(d.value, Methods(d.value));
      Some(Methods(d.value))
  }

  /** The numeric ranges the GA solver is meant to receive. */
  ghost predicate GaNumbersInRange(c: Config) {
    Holds(c, "population_size", Positive)
    && Holds(c, "mutation_rate", ClosedFraction)
    && Holds(c, "crossover_rate", ClosedFraction)
    && Holds(c, "elitism", NonNegative)
    && ElitismBelow(c)
    && Holds(c, "tournament_size", Positive)
  }

  /** The method names the GA solver knows, in a combination it accepts. */
  predicate GaMethodsKnown(c: Config) {
    OneOf(c, "selection_method", ["tournament", "roulette", "rank"])
    && OneOf(c, "crossover_method", ["ordered", "partially_mapped", "cycle"])
    && OneOf(c, "mutation_method", ["swap", "insert", "inversion", "scramble"])
    && Compatible(c)
  }

  ghost predicate GaInRange(c: Config) {
    GaNumbersInRange(c) && GaMethodsKnown(c)
  }

  const MethodKeys: seq<string> := ["selection_method", "crossover_method", "mutation_method"]

  lemma Unchanged(c: Config, d: Config, ks: seq<string>, k: string)
    requires SameExcept(c, d, ks) && k !in ks
    ensures Lookup(c, k) == Lookup(d, k)
  {
  }

  lemma SameExceptTrans(a: Config, b: Config, c: Config, ks1: seq<string>, ks2: seq<string>, ks: seq<string>)
    requires SameExcept(a, b, ks1) && SameExcept(b, c, ks2)
    requires forall k :: k in ks1 ==> k in ks
    requires forall k :: k in ks2 ==> k in ks
    ensures SameExcept(a, c, ks)
  {
  }

  lemma GaRuleSet()
    ensures RuleSet(GaRules) && Sound(TournamentRule)
    ensures forall k :: k in RuleKeys(GaRules) ==> k in GaNumericKeys
  {
  }

  /** Passing the GA range checks is being in the GA ranges they test. */
  lemma GaRulesMeanRanges(c: Config)
    ensures (forall i :: 0 <= i < |GaRules| ==> Within(c, GaRules[i])) <==>
      (Holds(c, "population_size", Positive) && Holds(c, "mutation_rate", ClosedFraction)
       && Holds(c, "crossover_rate", ClosedFraction) && Holds(c, "elitism", NonNegative))
  {
    var rs := GaRules;
    assert rs[0] == PopulationRule && rs[1] == MutationRateRule && rs[2] == CrossoverRateRule && rs[3] == ElitismRule;
    WithinMeans(c, PopulationRule, Positive);
    WithinMeans(c, MutationRateRule, ClosedFraction);
    WithinMeans(c, CrossoverRateRule, ClosedFraction);
    WithinMeans(c, ElitismRule, NonNegative);
    if Within(c, rs[0]) && Within(c, rs[1]) && Within(c, rs[2]) && Within(c, rs[3]) {
      forall i | 0 <= i < |rs| ensures Within(c, rs[i]) {
        assert i == 0 || i == 1 || i == 2 || i == 3;
      }
    }
  }

  /** The range checks leave the GA numbers in range except for the
      elitism cap and the tournament size. */
  lemma GaRulesStage(c: Config)
    requires ApplyRules(c, GaRules).Some?
    ensures var a := ApplyRules(c, GaRules).value;
      Holds(a, "population_size", Positive) && Holds(a, "mutation_rate", ClosedFraction)
      && Holds(a, "crossover_rate", ClosedFraction) && Holds(a, "elitism", NonNegative)
      && SameExcept(c, a, GaNumericKeys)
      && Lookup(a, "tournament_size") == Lookup(c, "tournament_size")
  {
    GaRuleSet();
    var a := ApplyRules(c, GaRules).value;
    assert "tournament_size" !in RuleKeys(GaRules) by {
      assert RuleKeys(GaRules) == ["population_size", "mutation_rate", "crossover_rate", "elitism"];
    }
    ApplyRulesSound(c, GaRules);
    GaRulesMeanRanges(a);
  }

  /** The numeric GA checks put every GA number in range and change nothing
      else. */
  lemma GaNumbersSound(c: Config)
    requires GaNumbers(c).Some?
    ensures GaNumbersInRange(GaNumbers(c).value) && SameExcept(c, GaNumbers(c).value, GaNumericKeys)
  {
    GaRulesStage(c);
    var a := ApplyRules(c, GaRules).value;
    var b := CapElitism(a).value;
    var d := ApplyRule(b, TournamentRule).value;
    CapAndTournament(a, b, d);
    var ks := GaNumericKeys;
    assert ks[3] == "elitism" && ks[4] == "tournament_size";
    SameExceptTrans(c, a, d, ks, ["elitism", "tournament_size"], ks);
  }

  lemma TournamentMeans(c: Config)
    ensures Within(c, TournamentRule) <==> Holds(c, "tournament_size", Positive)
  {
    WithinMeans(c, TournamentRule, Positive);
  }

  /** The elitism cap and the tournament-size check finish the numeric
      repairs once the range checks have passed. */
  lemma CapAndTournament(a: Config, b: Config, d: Config)
    requires Holds(a, "population_size", Positive) && Holds(a, "mutation_rate", ClosedFraction)
    requires Holds(a, "crossover_rate", ClosedFraction) && Holds(a, "elitism", NonNegative)
    requires CapElitism(a) == Some(b) && ApplyRule(b, TournamentRule) == Some(d)
    ensures GaNumbersInRange(d) && SameExcept(a, d, ["elitism", "tournament_size"])
  {
    CapStage(a, b);
    TournamentStage(b, d);
    SameExceptTrans(a, b, d, ["elitism"], ["tournament_size"], ["elitism", "tournament_size"]);
  }

  lemma CapStage(a: Config, b: Config)
    requires Holds(a, "population_size", Positive) && Holds(a, "mutation_rate", ClosedFraction)
    requires Holds(a, "crossover_rate", ClosedFraction) && Holds(a, "elitism", NonNegative)
    requires CapElitism(a) == Some(b)
    ensures Holds(b, "population_size", Positive) && Holds(b, "mutation_rate", ClosedFraction)
    ensures Holds(b, "crossover_rate", ClosedFraction) && Holds(b, "elitism", NonNegative)
    ensures ElitismBelow(b)
  {
    var e := ["elitism"];
    assert "population_size" !in e && "mutation_rate" !in e && "crossover_rate" !in e;
    Unchanged(a, b, e, "population_size");
    Unchanged(a, b, e, "mutation_rate");
    Unchanged(a, b, e, "crossover_rate");
  }

  lemma TournamentStage(b: Config, d: Config)
    requires Holds(b, "population_size", Positive) && Holds(b, "mutation_rate", ClosedFraction)
    requires Holds(b, "crossover_rate", ClosedFraction) && Holds(b, "elitism", NonNegative)
    requires ElitismBelow(b) && ApplyRule(b, TournamentRule) == Some(d)
    ensures GaNumbersInRange(d)
  {
    var t := ["tournament_size"];
    assert "population_size" !in t && "mutation_rate" !in t && "crossover_rate" !in t && "elitism" !in t;
    Unchanged(b, d, t, "population_size");
    Unchanged(b, d, t, "mutation_rate");
    Unchanged(b, d, t, "crossover_rate");
    Unchanged(b, d, t, "elitism");
    TournamentMeans(d);
  }

  /** The method checks make every method name known and compatible and
      change nothing else. */
  lemma MethodsSound(d: Config)
    ensures GaMethodsKnown(Methods(d)) && SameExcept(d, Methods(d), MethodKeys)
  {
    var e1 := Choose(d, SelectionChoice);
    var e2 := Choose(e1, CrossoverChoice);
    var e3 := Choose(e2, MutationChoice);
    var sel, cross, mut := ["selection_method"], ["crossover_method"], ["mutation_method"];
    assert "selection_method" !in cross && "selection_method" !in mut && "crossover_method" !in mut;
    Unchanged(e1, e2, cross, "selection_method");
    Unchanged(e2, e3, mut, "selection_method");
    Unchanged(e2, e3, mut, "crossover_method");
    Unchanged(e3, Pairing(e3), mut, "selection_method");
    Unchanged(e3, Pairing(e3), mut, "crossover_method");
    var ks := MethodKeys;
    assert ks[0] == "selection_method" && ks[1] == "crossover_method" && ks[2] == "mutation_method";
    SameExceptTrans(d, e1, e2, ["selection_method"], ["crossover_method"], ks);
    SameExceptTrans(d, e2, e3, ks, ["mutation_method"], ks);
    SameExceptTrans(d, e3, Pairing(e3), ks, ["mutation_method"], ks);
  }

  /** The numeric facts depend only on the numeric parameters. */
  lemma NumbersAlike(c: Config, d: Config)
    requires forall k :: k in GaNumericKeys ==> Lookup(c, k) == Lookup(d, k)
    ensures GaNumbersInRange(c) <==> GaNumbersInRange(d)
  {
    var ks := GaNumericKeys;
    assert ks[0] == "population_size" && ks[1] == "mutation_rate" && ks[2] == "crossover_rate";
    assert ks[3] == "elitism" && ks[4] == "tournament_size";
  }

  lemma MethodKeysApart()
    ensures forall k :: k in GaNumericKeys ==> k !in MethodKeys
  {
  }

  /** The numeric checks leave in-range numbers as they are. */
  lemma GaNumbersStable(c: Config)
    ensures GaNumbersInRange(c) ==> GaNumbers(c) == Some(c)
  {
    if GaNumbersInRange(c) {
      GaRulesMeanRanges(c);
      ApplyRulesStable(c, GaRules);
      TournamentMeans(c);
    }
  }

  /** The numeric checks raise exactly when a compared parameter holds text. */
  lemma GaNumbersRaise(c: Config)
    ensures GaNumbers(c).None? <==> exists k :: k in GaNumericKeys && Texty(c, k)
  {
    var a := ApplyRules(c, GaRules);
    if a.Some? {
      RangeChecksPassed(c);
      GaRulesStage(c);
      var b := CapElitism(a.value).value;
      assert "tournament_size" !in ["elitism"];
      Unchanged(a.value, b, ["elitism"], "tournament_size");
      TournamentRaises(c, b);
      assert GaNumbers(c) == ApplyRule(b, TournamentRule);
    } else {
      RangeChecksRaised(c);
    }
  }

  /** When the range checks pass, none of their parameters holds text. */
  lemma RangeChecksPassed(c: Config)
    requires ApplyRules(c, GaRules).Some?
    ensures !Texty(c, "population_size") && !Texty(c, "mutation_rate")
    ensures !Texty(c, "crossover_rate") && !Texty(c, "elitism")
  {
    var rs := GaRules;
    assert rs[0].key == "population_size" && rs[1].key == "mutation_rate";
    assert rs[2].key == "crossover_rate" && rs[3].key == "elitism";
    GaRuleSet();
    ApplyRulesRaise(c, GaRules);
  }

  lemma RangeChecksRaised(c: Config)
    requires ApplyRules(c, GaRules).None?
    ensures exists k :: k in GaNumericKeys && Texty(c, k)
  {
    var rs := GaRules;
    GaRuleSet();
    ApplyRulesRaise(c, GaRules);
    var i :| 0 <= i < |rs| && Texty(c, rs[i].key);
    assert rs[i].key in GaNumericKeys;
  }

  /** Once the range checks pass, only the tournament size can raise. */
  lemma TournamentRaises(c: Config, b: Config)
    requires Lookup(b, "tournament_size") == Lookup(c, "tournament_size")
    requires !Texty(c, "population_size") && !Texty(c, "mutation_rate")
    requires !Texty(c, "crossover_rate") && !Texty(c, "elitism")
    ensures ApplyRule(b, TournamentRule).None? <==> exists k :: k in GaNumericKeys && Texty(c, k)
  {
    var ks := GaNumericKeys;
    assert ks == ["population_size", "mutation_rate", "crossover_rate", "elitism", "tournament_size"];
    assert Texty(b, "tournament_size") == Texty(c, "tournament_size");
    if exists k :: k in ks && Texty(c, k) {
      var k :| k in ks && Texty(c, k);
      assert k == "tournament_size";
    } else {
      assert !Texty(c, ks[4]);
    }
  }

  /** The whole repair step: the repaired copy, or the configuration
      unchanged when a comparison raised. */
  function FixConfig(aco: bool, c: Config): (r: Config)
    ensures aco && (exists k :: k in AcoKeys && Texty(c, k)) ==> r == c
    ensures aco && !(exists k :: k in AcoKeys && Texty(c, k)) ==>
      AcoInRange(r) && Keys(r) == Keys(c) && forall k :: k !in AcoKeys ==> Lookup(r, k) == Lookup(c, k)
    ensures !aco && (exists k :: k in GaNumericKeys && Texty(c, k)) ==> r == c
    ensures !aco && !(exists k :: k in GaNumericKeys && Texty(c, k)) ==> GaInRange(r) && SameExcept(c, r, GaKeys)
    ensures (if aco then AcoInRange(c) else GaInRange(c)) ==> r == c
  {
    var r := if aco then FixAco(c) else FixGa(c);
    if r.Some? then r.value else c
  }

  /** Repairing twice is repairing once. */
  lemma FixConfigIdempotent(aco: bool, c: Config)
    ensures FixConfig(aco, FixConfig(aco, c)) == FixConfig(aco, c)
  {
  }

  // ----- parameter grids -----

  /** One nested loop of a grid: the parameter it sets and the values it
      runs through. */
  datatype Axis = Axis(key: string, values: seq<Value>)

  /** One more, innermost, loop: each configuration of `cs` in turn, with
      `a.key` set to each of the axis values in turn. */
  function Expand(cs: seq<Config>, a: Axis): (r: seq<Config>)
    ensures |r| == |cs| * |a.values|
    decreases |cs|
  {
    if cs == [] then []
    else
      var init := Expand(cs[..|cs| - 1], a);
      assert |init| + |a.values| == |cs| * |a.values| by {
        assert (|cs| - 1) * |a.values| + |a.values| == |cs| * |a.values|;
      }
      init + seq(|a.values|, j requires 0 <= j < |a.values| => Put(cs[|cs| - 1], a.key, a.values[j]))
  }

  lemma BlockBound(i: nat, j: nat, n: nat, m: nat)
    requires i < n && j < m
    ensures i * m + j < n * m
  {
    assert (i + 1) * m <= n * m;
  }

  /** The inner loop varies fastest: entry `i * m + j` is the `i`-th
      configuration with the `j`-th value. */
  lemma {:induction false} ExpandAt(cs: seq<Config>, a: Axis, i: nat, j: nat)
    requires i < |cs| && j < |a.values|
    ensures i * |a.values| + j < |Expand(cs, a)|
    ensures Expand(cs, a)[i * |a.values| + j] == Put(cs[i], a.key, a.values[j])
    decreases |cs|
  {
    var m, n := |a.values|, |cs|;
    BlockBound(i, j, n, m);
    var init := Expand(cs[..n - 1], a);
    assert |init| == (n - 1) * m;
    if i < n - 1 {
      ExpandAt(cs[..n - 1], a, i, j);
      BlockBound(i, j, n - 1, m);
    } else {
      assert i * m + j == |init| + j;
    }
  }

  /** Exactly the configurations of `cs` with the axis set to one of its
      values come out. */
  lemma {:induction false} ExpandMember(cs: seq<Config>, a: Axis, x: Config)
    ensures x in Expand(cs, a) <==>
      exists i, j :: 0 <= i < |cs| && 0 <= j < |a.values| && x == Put(cs[i], a.key, a.values[j])
    decreases |cs|
  {
    if exists i, j :: 0 <= i < |cs| && 0 <= j < |a.values| && x == Put(cs[i], a.key, a.values[j]) {
      var i, j :| 0 <= i < |cs| && 0 <= j < |a.values| && x == Put(cs[i], a.key, a.values[j]);
      ExpandAt(cs, a, i, j);
    }
    if x in Expand(cs, a) {
      var n := |cs|;
      var init := Expand(cs[..n - 1], a);
      var last := seq(|a.values|, j requires 0 <= j < |a.values| => Put(cs[n - 1], a.key, a.values[j]));
      assert Expand(cs, a) == init + last;
      if x in init {
        ExpandMember(cs[..n - 1], a, x);
        var i, j :| 0 <= i < n - 1 && 0 <= j < |a.values| && x == Put(cs[..n - 1][i], a.key, a.values[j]);
        assert cs[..n - 1][i] == cs[i];
      } else {
        var j :| 0 <= j < |last| && last[j] == x;
        assert x == Put(cs[n - 1], a.key, a.values[j]);
      }
    }
  }

  /** The number of configurations a grid makes: the product of the axis
      lengths. */
  function Count(axes: seq<Axis>): nat
    decreases |axes|
  {
    if axes == [] then 1 else Count(axes[..|axes| - 1]) * |axes[|axes| - 1].values|
  }

  /** The nested loops over `axes`, outermost first, each innermost body
      copying `base` and setting every axis parameter. */
  function Grid(base: Config, axes: seq<Axis>): (r: seq<Config>)
    ensures |r| == Count(axes)
    decreases |axes|
  {
    if axes == [] then [base] else Expand(Grid(base, axes[..|axes| - 1]), axes[|axes| - 1])
  }

  /** `base` with the axis parameters set, in axis order, to `pick`. */
  function Assign(base: Config, axes: seq<Axis>, pick: seq<Value>): Config
    requires |pick| == |axes|
    decreases |axes|
  {
    if axes == [] then base
    else Put(Assign(base, axes[..|axes| - 1], pick[..|pick| - 1]), axes[|axes| - 1].key, pick[|pick| - 1])
  }

  /** One value from each axis. */
  ghost predicate Picks(axes: seq<Axis>, pick: seq<Value>) {
    |pick| == |axes| && forall i :: 0 <= i < |axes| ==> pick[i] in axes[i].values
  }

  /** A pick for the outer loops plus a value of the innermost one is a
      pick for all of them. */
  lemma PicksSnoc(axes: seq<Axis>, p: seq<Value>, v: Value)
    requires |axes| >= 1 && Picks(axes[..|axes| - 1], p) && v in axes[|axes| - 1].values
    ensures Picks(axes, p + [v])
  {
    var n := |axes|;
    var pick := p + [v];
    forall k | 0 <= k < n ensures pick[k] in axes[k].values {
      if k < n - 1 {
        assert axes[k] == axes[..n - 1][k];
      }
    }
  }

  lemma AssignSnoc(base: Config, axes: seq<Axis>, p: seq<Value>, v: Value)
    requires |axes| >= 1 && |p| == |axes| - 1
    ensures Assign(base, axes, p + [v]) == Put(Assign(base, axes[..|axes| - 1], p), axes[|axes| - 1].key, v)
  {
    assert (p + [v])[..|p|] == p;
  }

  /** Every configuration of a grid is the base with one value from each
      axis. */
  lemma {:induction false} GridSound(base: Config, axes: seq<Axis>, g: Config)
    requires g in Grid(base, axes)
    ensures exists pick :: Picks(axes, pick) && g == Assign(base, axes, pick)
    decreases |axes|
  {
    if axes == [] {
      assert Picks(axes, []) && Assign(base, axes, []) == base;
    } else {
      var n := |axes|;
      var outer, a := axes[..n - 1], axes[n - 1];
      var cs := Grid(base, outer);
      ExpandMember(cs, a, g);
      var i, j :| 0 <= i < |cs| && 0 <= j < |a.values| && g == Put(cs[i], a.key, a.values[j]);
      GridSound(base, outer, cs[i]);
      var p :| Picks(outer, p) && cs[i] == Assign(base, outer, p);
      PicksSnoc(axes, p, a.values[j]);
      AssignSnoc(base, axes, p, a.values[j]);
    }
  }

  lemma PicksInit(axes: seq<Axis>, pick: seq<Value>)
    requires |axes| >= 1 && Picks(axes, pick)
    ensures Picks(axes[..|axes| - 1], pick[..|pick| - 1]) && pick == pick[..|pick| - 1] + [pick[|pick| - 1]]
  {
    var n := |axes|;
    var outer, p := axes[..n - 1], pick[..n - 1];
    forall k | 0 <= k < n - 1 ensures p[k] in outer[k].values {
      assert outer[k] == axes[k] && p[k] == pick[k];
    }
  }

  /** Every choice of one value from each axis is in the grid. */
  lemma {:induction false} GridComplete(base: Config, axes: seq<Axis>, pick: seq<Value>)
    requires Picks(axes, pick)
    ensures Assign(base, axes, pick) in Grid(base, axes)
    decreases |axes|
  {
    if axes != [] {
      var n := |axes|;
      var outer, a := axes[..n - 1], axes[n - 1];
      var cs := Grid(base, outer);
      var p, v := pick[..n - 1], pick[n - 1];
      PicksInit(axes, pick);
      GridComplete(base, outer, p);
      var i :| 0 <= i < |cs| && cs[i] == Assign(base, outer, p);
      var j :| 0 <= j < |a.values| && a.values[j] == v;
      AssignSnoc(base, axes, p, v);
      ExpandMember(cs, a, Put(cs[i], a.key, a.values[j]));
    }
  }

  /** A grid holds exactly the base configuration with one value from each
      axis. */
  lemma GridMember(base: Config, axes: seq<Axis>, g: Config)
    ensures g in Grid(base, axes) <==> exists pick :: Picks(axes, pick) && g == Assign(base, axes, pick)
  {
    if g in Grid(base, axes) {
      GridSound(base, axes, g);
    }
    if exists pick :: Picks(axes, pick) && g == Assign(base, axes, pick) {
      var pick :| Picks(axes, pick) && g == Assign(base, axes, pick);
      GridComplete(base, axes, pick);
    }
  }

  /** The axis parameters are distinct. */
  ghost predicate AxisKeys(axes: seq<Axis>) {
    forall i, j :: 0 <= i < j < |axes| ==> axes[i].key != axes[j].key
  }

  lemma AxisKeysPrefix(axes: seq<Axis>, n: nat)
    requires AxisKeys(axes) && n <= |axes|
    ensures AxisKeys(axes[..n])
  {
    var outer := axes[..n];
    forall i, j | 0 <= i < j < n ensures outer[i].key != outer[j].key {
      assert outer[i] == axes[i] && outer[j] == axes[j];
    }
  }

  /** Each axis parameter holds the value picked for it. */
  lemma {:induction false} AssignLookup(base: Config, axes: seq<Axis>, pick: seq<Value>, i: nat)
    requires |pick| == |axes| && AxisKeys(axes) && i < |axes|
    ensures Lookup(Assign(base, axes, pick), axes[i].key) == Some(pick[i])
    decreases |axes|
  {
    var n := |axes|;
    var outer, p := axes[..n - 1], pick[..n - 1];
    var prev := Assign(base, outer, p);
    assert Assign(base, axes, pick) == Put(prev, axes[n - 1].key, pick[n - 1]);
    PutSpec(prev, axes[n - 1].key, pick[n - 1]);
    if i < n - 1 {
      AxisKeysPrefix(axes, n - 1);
      AssignLookup(base, outer, p, i);
      assert outer[i] == axes[i] && p[i] == pick[i];
      assert axes[n - 1].key != axes[i].key;
    }
  }

  /** A parameter no axis sets keeps its value from `base`. */
  lemma {:induction false} AssignKeeps(base: Config, axes: seq<Axis>, pick: seq<Value>, k: string)
    requires |pick| == |axes|
    requires forall i :: 0 <= i < |axes| ==> axes[i].key != k
    ensures Lookup(Assign(base, axes, pick), k) == Lookup(base, k)
    decreases |axes|
  {
    if axes != [] {
      var n := |axes|;
      var outer, p := axes[..n - 1], pick[..n - 1];
      assert forall i :: 0 <= i < n - 1 ==> outer[i] == axes[i];
      AssignKeeps(base, outer, p, k);
      var prev := Assign(base, outer, p);
      assert Assign(base, axes, pick) == Put(prev, axes[n - 1].key, pick[n - 1]);
      PutSpec(prev, axes[n - 1].key, pick[n - 1]);
    }
  }

  // ----- value lists -----

  /** `[float(x.strip()) for x in text.split(",")]`, with `float` given as a
      parameter: every piece must parse. */
  function ReadReals(parts: seq<string>, toReal: string -> Option<real>): (r: Option<seq<real>>)
    ensures r.Some? ==> |r.value| == |parts| && forall i :: 0 <= i < |parts| ==> toReal(Strip(parts[i])) == Some(r.value[i])
    ensures r.None? <==> exists i :: 0 <= i < |parts| && toReal(Strip(parts[i])).None?
  {
    var os := seq(|parts|, i requires 0 <= i < |parts| => toReal(Strip(parts[i])));
    assert forall i :: 0 <= i < |parts| ==> os[i] == toReal(Strip(parts[i]));
    AllSome(os)
  }

  /** Some stripped piece is not a float. */
  ghost predicate BadReal(parts: seq<string>, toReal: string -> Option<real>) {
    exists i :: 0 <= i < |parts| && toReal(Strip(parts[i])).None?
  }

  /** Some stripped piece is not an integer. */
  ghost predicate BadInt(parts: seq<string>) {
    exists i :: 0 <= i < |parts| && ParseInt(Strip(parts[i])).None?
  }

  /** `[int(x.strip()) for x in text.split(",")]`: every piece must parse. */
  function ReadInts(parts: seq<string>): (r: Option<seq<int>>)
    ensures r.Some? ==> |r.value| == |parts| && forall i :: 0 <= i < |parts| ==> ParseInt(Strip(parts[i])) == Some(r.value[i])
    ensures r.None? <==> exists i :: 0 <= i < |parts| && ParseInt(Strip(parts[i])).None?
  {
    var os := seq(|parts|, i requires 0 <= i < |parts| => ParseInt(Strip(parts[i])));
    assert forall i :: 0 <= i < |parts| ==> os[i] == ParseInt(Strip(parts[i]));
    AllSome(os)
  }

  /** What one piece of a true/false list says, if anything. */
  function BoolWord(w: string): Option<bool> {
    var t := Lower(Strip(w));
    if t == "true" then Some(true) else if t == "false" then Some(false) else None
  }

  /** The true/false list: pieces that say neither are skipped. */
  function ReadBools(parts: seq<string>): (r: seq<bool>)
    ensures |r| <= |parts|
  {
    Somes(seq(|parts|, i requires 0 <= i < |parts| => BoolWord(parts[i])))
  }

  /** `[x.strip() for x in text.split(",")]`. */
  function ReadNames(parts: seq<string>): (r: seq<string>)
    ensures |r| == |parts|
  {
    seq(|parts|, i requires 0 <= i < |parts| => Strip(parts[i]))
  }

  /** `str(b)` for a bool. */
  function ShowBool(b: bool): string {
    if b then "True" else "False"
  }

  /** A value list the way the entry fields show one: items separated by
      a comma and a space. */
  function ListText(items: seq<string>): string {
    Join(items, ", ")
  }

  /** Items that split cleanly: non-empty, no whitespace, no comma. */
  predicate Item(w: string) {
    Token(w) && ',' !in w
  }

  function Padded(ws: seq<string>): (ps: seq<string>)
    ensures |ps| == |ws| && forall i :: 0 <= i < |ws| ==> ps[i] == " " + ws[i]
  {
    seq(|ws|, i requires 0 <= i < |ws| => " " + ws[i])
  }

  lemma {:induction false} JoinPadded(ws: seq<string>)
    requires |ws| >= 1
    ensures Join(Padded(ws), ",") == " " + Join(ws, ", ")
    decreases |ws|
  {
    if |ws| > 1 {
      JoinPadded(ws[1..]);
      assert Padded(ws)[1..] == Padded(ws[1..]);
      assert Join(Padded(ws), ",") == (" " + ws[0]) + "," + Join(Padded(ws[1..]), ",");
    }
  }

  /** Splitting a value list at its commas gives back one piece per item,
      which strips to the item. */
  lemma ListPieces(items: seq<string>)
    requires |items| >= 1 && forall i :: 0 <= i < |items| ==> Item(items[i])
    ensures var ps := SplitOn(ListText(items), ',');
      |ps| == |items| && forall i :: 0 <= i < |ps| ==> Strip(ps[i]) == items[i]
  {
    var rest := Padded(items[1..]);
    var parts := [items[0]] + rest;
    if |items| > 1 {
      JoinPadded(items[1..]);
      assert Join(items, ", ") == Join(parts, ",");
    } else {
      assert parts == items;
    }
    forall i | 0 <= i < |parts| ensures ',' !in parts[i] {
      if i > 0 {
        assert parts[i] == " " + items[i];
      }
    }
    SplitJoin(parts, ',');
    forall i | 0 <= i < |parts| ensures Strip(parts[i]) == items[i] {
      if i == 0 {
        StripTrimmed(items[0]);
      } else {
        assert parts[i] == " " + items[i] + "";
        StripPadded(" ", items[i], "");
      }
    }
  }

  lemma ShowIntItem(n: int)
    ensures Item(ShowInt(n))
  {
    var s := ShowInt(n);
    if n < 0 {
      assert s == "-" + ShowNat(-n);
      assert forall i :: 1 <= i < |s| ==> IsDigit(s[i]);
    }
  }

  /** A list of whole numbers, written out, reads back as itself. */
  lemma ReadIntsList(ns: seq<int>)
    requires |ns| >= 1
    ensures ReadInts(SplitOn(ListText(seq(|ns|, i requires 0 <= i < |ns| => ShowInt(ns[i]))), ',')) == Some(ns)
  {
    var items := seq(|ns|, i requires 0 <= i < |ns| => ShowInt(ns[i]));
    forall i | 0 <= i < |ns| ensures Item(items[i]) {
      ShowIntItem(ns[i]);
    }
    ListPieces(items);
    var ps := SplitOn(ListText(items), ',');
    forall i | 0 <= i < |ps| ensures ParseInt(Strip(ps[i])) == Some(ns[i]) {
      ParseShowInt(ns[i]);
    }
    var r := ReadInts(ps);
    assert r.Some?;
    assert r.value == ns;
  }

  /** A list of reals, written out with a `show` that `toReal` inverts,
      reads back as itself. */
  lemma ReadRealsList(xs: seq<real>, show: real -> string, toReal: string -> Option<real>)
    requires |xs| >= 1
    requires forall i :: 0 <= i < |xs| ==> Item(show(xs[i])) && toReal(show(xs[i])) == Some(xs[i])
    ensures ReadReals(SplitOn(ListText(seq(|xs|, i requires 0 <= i < |xs| => show(xs[i]))), ','), toReal) == Some(xs)
  {
    var items := seq(|xs|, i requires 0 <= i < |xs| => show(xs[i]));
    ListPieces(items);
    var ps := SplitOn(ListText(items), ',');
    assert forall i :: 0 <= i < |ps| ==> toReal(Strip(ps[i])) == Some(xs[i]);
    var r := ReadReals(ps, toReal);
    assert r.Some?;
    assert r.value == xs;
  }

  lemma ReadBoolsAll(ps: seq<string>, bs: seq<bool>)
    requires |ps| == |bs| && forall i :: 0 <= i < |ps| ==> BoolWord(ps[i]) == Some(bs[i])
    ensures ReadBools(ps) == bs
  {
    SomesAll(seq(|ps|, i requires 0 <= i < |ps| => BoolWord(ps[i])), bs);
  }

  /** A piece that strips to `True` or `False` says so, in any case. */
  lemma ShowBoolWord(w: string, b: bool)
    requires Strip(w) == ShowBool(b)
    ensures BoolWord(w) == Some(b)
  {
    if b {
      assert Lower("True") == "true";
    } else {
      assert Lower("False") == "false";
      assert "false" != "true";
    }
  }

  lemma ShowBoolItem(b: bool)
    ensures Item(ShowBool(b))
  {
  }

  /** The empty field gives the empty true/false list. */
  lemma ReadBoolsEmpty()
    ensures ReadBools(SplitOn(ListText([]), ',')) == []
  {
    SplitWhole("", ',');
    assert Lower(Strip("")) == "";
  }

  /** A true/false list, written out with Python's `True`/`False`, reads
      back as itself (the empty list included). */
  lemma ReadBoolsList(bs: seq<bool>)
    ensures ReadBools(SplitOn(ListText(seq(|bs|, i requires 0 <= i < |bs| => ShowBool(bs[i]))), ',')) == bs
  {
    var items := seq(|bs|, i requires 0 <= i < |bs| => ShowBool(bs[i]));
    if bs == [] {
      assert items == [];
      ReadBoolsEmpty();
    } else {
      forall i | 0 <= i < |bs| ensures Item(items[i]) {
        ShowBoolItem(bs[i]);
      }
      ListPieces(items);
      var ps := SplitOn(ListText(items), ',');
      forall i | 0 <= i < |ps| ensures BoolWord(ps[i]) == Some(bs[i]) {
        ShowBoolWord(ps[i], bs[i]);
      }
      ReadBoolsAll(ps, bs);
    }
  }

  /** A list of names reads back as itself. */
  lemma ReadNamesList(ws: seq<string>)
    requires |ws| >= 1 && forall i :: 0 <= i < |ws| ==> Item(ws[i])
    ensures ReadNames(SplitOn(ListText(ws), ',')) == ws
  {
    ListPieces(ws);
  }

  // ----- the ACO and GA grids -----

  /** A dictionary with one more entry in front. */
  lemma LookupCons(e: Entry, rest: Config, k: string)
    ensures Lookup([e] + rest, k) == if e.key == k then Some(e.value) else Lookup(rest, k)
  {
    assert ([e] + rest)[1..] == rest;
  }

  /** The tester's current parameters, minus the number of runs. */
  function BaseConfig(vars: Config): Config {
    if vars == [] then []
    else if vars[0].key == "num_runs" then BaseConfig(vars[1..])
    else [vars[0]] + BaseConfig(vars[1..])
  }

  /** The base configuration has no `num_runs` and agrees with the
      parameters on every other key. */
  lemma {:induction false} BaseConfigLookup(vars: Config, k: string)
    ensures Lookup(BaseConfig(vars), k) == if k == "num_runs" then None else Lookup(vars, k)
  {
    if vars != [] {
      BaseConfigLookup(vars[1..], k);
      LookupCons(vars[0], vars[1..], k);
      assert [vars[0]] + vars[1..] == vars;
      if vars[0].key != "num_runs" {
        LookupCons(vars[0], BaseConfig(vars[1..]), k);
      }
    }
  }

  function Floats(xs: seq<real>): (vs: seq<Value>)
    ensures |vs| == |xs|
  {
    seq(|xs|, i requires 0 <= i < |xs| => Float(xs[i]))
  }

  function Ints(ns: seq<int>): (vs: seq<Value>)
    ensures |vs| == |ns|
  {
    seq(|ns|, i requires 0 <= i < |ns| => Int(ns[i]))
  }

  function Bools(bs: seq<bool>): (vs: seq<Value>)
    ensures |vs| == |bs|
  {
    seq(|bs|, i requires 0 <= i < |bs| => Bool(bs[i]))
  }

  function Strs(ws: seq<string>): (vs: seq<Value>)
    ensures |vs| == |ws|
  {
    seq(|ws|, i requires 0 <= i < |ws| => Str(ws[i]))
  }

  /** The ACO loops, outermost first. */
  function AcoAxes(alphas: seq<real>, betas: seq<real>, minMax: seq<bool>, local: seq<bool>, elitist: seq<int>): seq<Axis> {
    [Axis("alpha", Floats(alphas)), Axis("beta", Floats(betas)), Axis("min_max_aco", Bools(minMax)),
     Axis("local_search", Bools(local)), Axis("elitist_ants", Ints(elitist))]
  }

  /** The body of the ACO loops: a copy of the base with the five loop
      values stored in order. */
  function AcoBody(base: Config, a: real, b: real, m: bool, l: bool, e: int): Config {
    Put(Put(Put(Put(Put(base, "alpha", Float(a)), "beta", Float(b)), "min_max_aco", Bool(m)), "local_search", Bool(l)), "elitist_ants", Int(e))
  }

  /** The ACO `create_configs`: parse the five fields, then run the loops;
      None when a field does not parse (nothing is added then). */
  function AcoConfigs(base: Config, alphaText: string, betaText: string, minMaxText: string,
                      localText: string, elitistText: string, toReal: string -> Option<real>): (r: Option<seq<Config>>)
    ensures r.None? <==> BadReal(SplitOn(alphaText, ','), toReal) || BadReal(SplitOn(betaText, ','), toReal)
                         || BadInt(SplitOn(elitistText, ','))
    ensures r.Some? ==> |r.value| == |SplitOn(alphaText, ',')| * |SplitOn(betaText, ',')| * |ReadBools(SplitOn(minMaxText, ','))|
                                     * |ReadBools(SplitOn(localText, ','))| * |SplitOn(elitistText, ',')|
  {
    var alphas := ReadReals(SplitOn(alphaText, ','), toReal);
    var betas := ReadReals(SplitOn(betaText, ','), toReal);
    var minMax := ReadBools(SplitOn(minMaxText, ','));
    var local := ReadBools(SplitOn(localText, ','));
    var elitist := ReadInts(SplitOn(elitistText, ','));
    if alphas.None? || betas.None? || elitist.None? then None
    else
      AcoGridCount(base, alphas.value, betas.value, minMax, local, elitist.value);
      Some(Grid(base, AcoAxes(alphas.value, betas.value, minMax, local, elitist.value)))
  }

  /** The ACO grid has one configuration per combination of values. */
  lemma AcoGridCount(base: Config, alphas: seq<real>, betas: seq<real>, minMax: seq<bool>, local: seq<bool>, elitist: seq<int>)
    ensures |Grid(base, AcoAxes(alphas, betas, minMax, local, elitist))| == |alphas| * |betas| * |minMax| * |local| * |elitist|
  {
    var axes := AcoAxes(alphas, betas, minMax, local, elitist);
    assert axes[..1][..0] == [];
    assert Count(axes[..1]) == |alphas|;
    assert axes[..2][..1] == axes[..1];
    assert Count(axes[..2]) == |alphas| * |betas|;
    assert axes[..3][..2] == axes[..2];
    assert Count(axes[..3]) == |alphas| * |betas| * |minMax|;
    assert axes[..4][..3] == axes[..3];
    assert Count(axes[..4]) == |alphas| * |betas| * |minMax| * |local|;
    assert axes[..4] == axes[..|axes| - 1];
  }

  /** Assigning a pick along the ACO axes is the loop body. */
  lemma AcoAssign(base: Config, a: real, b: real, m: bool, l: bool, e: int,
                  alphas: seq<real>, betas: seq<real>, minMax: seq<bool>, local: seq<bool>, elitist: seq<int>)
    ensures Assign(base, AcoAxes(alphas, betas, minMax, local, elitist), [Float(a), Float(b), Bool(m), Bool(l), Int(e)])
         == AcoBody(base, a, b, m, l, e)
  {
    var axes := AcoAxes(alphas, betas, minMax, local, elitist);
    var pick := [Float(a), Float(b), Bool(m), Bool(l), Int(e)];
    assert axes[..1][..0] == [] && pick[..1][..0] == [];
    var c1 := Put(base, "alpha", Float(a));
    assert Assign(base, axes[..1], pick[..1]) == c1;
    assert axes[..2][..1] == axes[..1] && pick[..2][..1] == pick[..1];
    var c2 := Put(c1, "beta", Float(b));
    assert Assign(base, axes[..2], pick[..2]) == c2;
    assert axes[..3][..2] == axes[..2] && pick[..3][..2] == pick[..2];
    var c3 := Put(c2, "min_max_aco", Bool(m));
    assert Assign(base, axes[..3], pick[..3]) == c3;
    assert axes[..4][..3] == axes[..3] && pick[..4][..3] == pick[..3];
    var c4 := Put(c3, "local_search", Bool(l));
    assert Assign(base, axes[..4], pick[..4]) == c4;
    assert axes[..4] == axes[..|axes| - 1] && pick[..4] == pick[..|pick| - 1];
  }

  /** One value from each ACO list. */
  ghost predicate AcoPoint(base: Config, alphas: seq<real>, betas: seq<real>, minMax: seq<bool>, local: seq<bool>, elitist: seq<int>, g: Config) {
    exists a, b, m, l, e :: a in alphas && b in betas && m in minMax && l in local && e in elitist
      && g == AcoBody(base, a, b, m, l, e)
  }

  lemma FloatsMember(xs: seq<real>, v: Value)
    ensures v in Floats(xs) <==> v.Float? && v.r in xs
  {
    if v.Float? && v.r in xs {
      var i :| 0 <= i < |xs| && xs[i] == v.r;
      assert Floats(xs)[i] == v;
    }
  }

  lemma IntsMember(ns: seq<int>, v: Value)
    ensures v in Ints(ns) <==> v.Int? && v.i in ns
  {
    if v.Int? && v.i in ns {
      var i :| 0 <= i < |ns| && ns[i] == v.i;
      assert Ints(ns)[i] == v;
    }
  }

  lemma BoolsMember(bs: seq<bool>, v: Value)
    ensures v in Bools(bs) <==> v.Bool? && v.b in bs
  {
    if v.Bool? && v.b in bs {
      var i :| 0 <= i < |bs| && bs[i] == v.b;
      assert Bools(bs)[i] == v;
    }
  }

  lemma StrsMember(ws: seq<string>, v: Value)
    ensures v in Strs(ws) <==> v.Str? && v.s in ws
  {
    if v.Str? && v.s in ws {
      var i :| 0 <= i < |ws| && ws[i] == v.s;
      assert Strs(ws)[i] == v;
    }
  }

  lemma AcoGridSound(base: Config, alphas: seq<real>, betas: seq<real>, minMax: seq<bool>, local: seq<bool>, elitist: seq<int>, g: Config)
    requires g in Grid(base, AcoAxes(alphas, betas, minMax, local, elitist))
    ensures AcoPoint(base, alphas, betas, minMax, local, elitist, g)
  {
    var axes := AcoAxes(alphas, betas, minMax, local, elitist);
    GridSound(base, axes, g);
    var pick: seq<Value> :| Picks(axes, pick) && g == Assign(base, axes, pick);
    assert pick[0] in Floats(alphas) && pick[1] in Floats(betas) && pick[2] in Bools(minMax);
    assert pick[3] in Bools(local) && pick[4] in Ints(elitist);
    FloatsMember(alphas, pick[0]);
    FloatsMember(betas, pick[1]);
    BoolsMember(minMax, pick[2]);
    BoolsMember(local, pick[3]);
    IntsMember(elitist, pick[4]);
    var a, b, m, l, e := pick[0].r, pick[1].r, pick[2].b, pick[3].b, pick[4].i;
    assert pick == [Float(a), Float(b), Bool(m), Bool(l), Int(e)];
    AcoAssign(base, a, b, m, l, e, alphas, betas, minMax, local, elitist);
  }

  lemma AcoPicks(alphas: seq<real>, betas: seq<real>, minMax: seq<bool>, local: seq<bool>, elitist: seq<int>,
                  a: real, b: real, m: bool, l: bool, e: int)
    requires a in alphas && b in betas && m in minMax && l in local && e in elitist
    ensures Picks(AcoAxes(alphas, betas, minMax, local, elitist), [Float(a), Float(b), Bool(m), Bool(l), Int(e)])
  {
    var axes := AcoAxes(alphas, betas, minMax, local, elitist);
    var pick := [Float(a), Float(b), Bool(m), Bool(l), Int(e)];
    forall i | 0 <= i < 5 ensures pick[i] in axes[i].values {
      if i == 0 {
        FloatsMember(alphas, Float(a));
      } else if i == 1 {
        FloatsMember(betas, Float(b));
      } else if i == 2 {
        BoolsMember(minMax, Bool(m));
      } else if i == 3 {
        BoolsMember(local, Bool(l));
      } else {
        IntsMember(elitist, Int(e));
      }
    }
  }

  lemma AcoGridComplete(base: Config, alphas: seq<real>, betas: seq<real>, minMax: seq<bool>, local: seq<bool>, elitist: seq<int>,
                        a: real, b: real, m: bool, l: bool, e: int)
    requires a in alphas && b in betas && m in minMax && l in local && e in elitist
    ensures AcoBody(base, a, b, m, l, e) in Grid(base, AcoAxes(alphas, betas, minMax, local, elitist))
  {
    var axes := AcoAxes(alphas, betas, minMax, local, elitist);
    var pick := [Float(a), Float(b), Bool(m), Bool(l), Int(e)];
    AcoPicks(alphas, betas, minMax, local, elitist, a, b, m, l, e);
    GridComplete(base, axes, pick);
    AcoAssign(base, a, b, m, l, e, alphas, betas, minMax, local, elitist);
  }

  /** The ACO grid holds exactly the loop bodies for every combination of
      listed values. */
  lemma AcoGridMember(base: Config, alphas: seq<real>, betas: seq<real>, minMax: seq<bool>, local: seq<bool>, elitist: seq<int>, g: Config)
    ensures g in Grid(base, AcoAxes(alphas, betas, minMax, local, elitist)) <==>
      AcoPoint(base, alphas, betas, minMax, local, elitist, g)
  {
    if g in Grid(base, AcoAxes(alphas, betas, minMax, local, elitist)) {
      AcoGridSound(base, alphas, betas, minMax, local, elitist, g);
    }
    if AcoPoint(base, alphas, betas, minMax, local, elitist, g) {
      var a, b, m, l, e :| a in alphas && b in betas && m in minMax && l in local && e in elitist
        && g == AcoBody(base, a, b, m, l, e);
      AcoGridComplete(base, alphas, betas, minMax, local, elitist, a, b, m, l, e);
    }
  }

  /** Value lists written into the five fields give the grid over those
      values. */
  lemma AcoConfigsFromLists(base: Config, alphas: seq<real>, betas: seq<real>, minMax: seq<bool>, local: seq<bool>,
                            elitist: seq<int>, show: real -> string, toReal: string -> Option<real>)
    requires |alphas| >= 1 && |betas| >= 1 && |elitist| >= 1
    requires forall i :: 0 <= i < |alphas| ==> Item(show(alphas[i])) && toReal(show(alphas[i])) == Some(alphas[i])
    requires forall i :: 0 <= i < |betas| ==> Item(show(betas[i])) && toReal(show(betas[i])) == Some(betas[i])
    ensures AcoConfigs(base,
                       ListText(seq(|alphas|, i requires 0 <= i < |alphas| => show(alphas[i]))),
                       ListText(seq(|betas|, i requires 0 <= i < |betas| => show(betas[i]))),
                       ListText(seq(|minMax|, i requires 0 <= i < |minMax| => ShowBool(minMax[i]))),
                       ListText(seq(|local|, i requires 0 <= i < |local| => ShowBool(local[i]))),
                       ListText(seq(|elitist|, i requires 0 <= i < |elitist| => ShowInt(elitist[i]))),
                       toReal)
         == Some(Grid(base, AcoAxes(alphas, betas, minMax, local, elitist)))
  {
    ReadRealsList(alphas, show, toReal);
    ReadRealsList(betas, show, toReal);
    ReadBoolsList(minMax);
    ReadBoolsList(local);
    ReadIntsList(elitist);
  }

  /** The GA loops, outermost first. */
  function GaAxes(selections: seq<string>, crossovers: seq<string>, mutations: seq<string>, mutationRates: seq<real>,
                  crossoverRates: seq<real>, local: seq<bool>, elitism: seq<int>): seq<Axis> {
    [Axis("selection_method", Strs(selections)), Axis("crossover_method", Strs(crossovers)),
     Axis("mutation_method", Strs(mutations)), Axis("mutation_rate", Floats(mutationRates)),
     Axis("crossover_rate", Floats(crossoverRates)), Axis("local_search", Bools(local)), Axis("elitism", Ints(elitism))]
  }

  lemma GaAxisKeys(selections: seq<string>, crossovers: seq<string>, mutations: seq<string>, mutationRates: seq<real>,
                   crossoverRates: seq<real>, local: seq<bool>, elitism: seq<int>)
    ensures AxisKeys(GaAxes(selections, crossovers, mutations, mutationRates, crossoverRates, local, elitism))
    ensures forall i :: 0 <= i < 7 ==> GaAxes(selections, crossovers, mutations, mutationRates, crossoverRates, local, elitism)[i].key !in ["population_size", "tournament_size"]
  {
  }

  /** The selection of a loop body is not tournament selection. */
  predicate NotTournament(c: Config) {
    Lookup(c, "selection_method") != Some(Str("tournament"))
  }

  /** `config.get("population_size", 50)`. */
  function PopulationOr50(c: Config): (v: Value)
    ensures Lookup(c, "population_size").Some? ==> Lookup(c, "population_size") == Some(v)
    ensures Lookup(c, "population_size").None? ==> v == Int(50)
  {
    var p := Lookup(c, "population_size");
    if p.Some? then p.value else Int(50)
  }

  /** The loop body has stored a whole number as the elitism count. */
  predicate ElitismInt(c: Config) {
    var e := Lookup(c, "elitism");
    e.Some? && e.value.Int?
  }

  /** The end of the GA loop body: an unused tournament size of 3 unless
      the selection is tournament selection, then an elitism count at or
      above the population size (50 when absent) lowered to one below it.
      None when the population size is text and the comparison raises. */
  function Adjust(c: Config): (r: Option<Config>)
    requires ElitismInt(c)
    ensures r.None? <==> Texty(c, "population_size")
  {
    var t := if NotTournament(c) then Put(c, "tournament_size", Int(3)) else c;
    PutSpec(c, "tournament_size", Int(3));
    var ps := PopulationOr50(t);
    var e := Lookup(c, "elitism").value.i;
    if ps.Str? then None
    else if e as real >= Num(ps).value then Some(Put(t, "elitism", MinusOne(ps)))
    else Some(t)
  }

  /** The elitism count is a number below the population size (50 when
      absent). */
  predicate Below(c: Config) {
    var e, p := Lookup(c, "elitism"), Num(PopulationOr50(c));
    e.Some? && Num(e.value).Some? && p.Some? && Num(e.value).value < p.value
  }

  /** After the adjustment the elitism count is below the population size,
      unchanged when it already was, the tournament size is 3 unless the
      selection is tournament selection, and no other parameter changes. */
  lemma AdjustSpec(c: Config)
    requires ElitismInt(c) && !Texty(c, "population_size")
    ensures Below(Adjust(c).value)
    ensures Below(c) ==> Lookup(Adjust(c).value, "elitism") == Lookup(c, "elitism")
    ensures Lookup(Adjust(c).value, "tournament_size") == if NotTournament(c) then Some(Int(3)) else Lookup(c, "tournament_size")
    ensures forall k :: k != "tournament_size" && k != "elitism" ==> Lookup(Adjust(c).value, k) == Lookup(c, k)
  {
    var t := if NotTournament(c) then Put(c, "tournament_size", Int(3)) else c;
    PutSpec(c, "tournament_size", Int(3));
    var ps := PopulationOr50(t);
    assert ps == PopulationOr50(c);
    var e := Lookup(c, "elitism").value;
    assert Lookup(t, "elitism") == Some(e);
    if e.i as real >= Num(ps).value {
      var r := Put(t, "elitism", MinusOne(ps));
      assert Adjust(c) == Some(r);
      PutSpec(t, "elitism", MinusOne(ps));
      assert Lookup(r, "population_size") == Lookup(t, "population_size");
      assert PopulationOr50(r) == ps;
      assert !Below(c);
    } else {
      assert Adjust(c) == Some(t);
    }
  }

  /** The adjustment applied to each loop body; None when one raises (the
      first one raises then, and nothing is added). */
  function AdjustAll(cs: seq<Config>): (r: Option<seq<Config>>)
    requires forall i :: 0 <= i < |cs| ==> ElitismInt(cs[i])
    ensures r.None? <==> exists i :: 0 <= i < |cs| && Texty(cs[i], "population_size")
    ensures r.Some? ==> |r.value| == |cs| && forall i :: 0 <= i < |cs| ==> Adjust(cs[i]) == Some(r.value[i])
  {
    if exists i :: 0 <= i < |cs| && Texty(cs[i], "population_size") then None
    else Some(seq(|cs|, i requires 0 <= i < |cs| => Adjust(cs[i]).value))
  }

  /** Every configuration of the GA grid has a whole-number elitism count
      and the base's population size. */
  lemma GaGridCells(base: Config, selections: seq<string>, crossovers: seq<string>, mutations: seq<string>, mutationRates: seq<real>,
                    crossoverRates: seq<real>, local: seq<bool>, elitism: seq<int>, g: Config)
    requires g in Grid(base, GaAxes(selections, crossovers, mutations, mutationRates, crossoverRates, local, elitism))
    ensures ElitismInt(g)
    ensures Lookup(g, "population_size") == Lookup(base, "population_size")
  {
    var axes := GaAxes(selections, crossovers, mutations, mutationRates, crossoverRates, local, elitism);
    GridSound(base, axes, g);
    var pick: seq<Value> :| Picks(axes, pick) && g == Assign(base, axes, pick);
    GaAxisKeys(selections, crossovers, mutations, mutationRates, crossoverRates, local, elitism);
    AssignLookup(base, axes, pick, 6);
    assert pick[6] in Ints(elitism);
    IntsMember(elitism, pick[6]);
    AssignKeeps(base, axes, pick, "population_size");
  }

  lemma GaGridElitism(base: Config, axes: seq<Axis>, selections: seq<string>, crossovers: seq<string>, mutations: seq<string>,
                      mutationRates: seq<real>, crossoverRates: seq<real>, local: seq<bool>, elitism: seq<int>)
    requires axes == GaAxes(selections, crossovers, mutations, mutationRates, crossoverRates, local, elitism)
    ensures forall i :: 0 <= i < |Grid(base, axes)| ==> ElitismInt(Grid(base, axes)[i])
  {
    forall i | 0 <= i < |Grid(base, axes)| ensures ElitismInt(Grid(base, axes)[i]) {
      GaGridCells(base, selections, crossovers, mutations, mutationRates, crossoverRates, local, elitism, Grid(base, axes)[i]);
    }
  }

  /** The GA loops with the adjustment at the end of each body. */
  function GaGrid(base: Config, selections: seq<string>, crossovers: seq<string>, mutations: seq<string>,
                  mutationRates: seq<real>, crossoverRates: seq<real>, local: seq<bool>, elitism: seq<int>): Option<seq<Config>>
  {
    var axes := GaAxes(selections, crossovers, mutations, mutationRates, crossoverRates, local, elitism);
    GaGridElitism(base, axes, selections, crossovers, mutations, mutationRates, crossoverRates, local, elitism);
    AdjustAll(Grid(base, axes))
  }

  /** The GA `create_configs`: parse the seven fields, run the loops and
      adjust each body; None when a field does not parse or the comparison
      with the population size raises (nothing is added then). */
  function GaConfigs(base: Config, selectionText: string, crossoverText: string, mutationText: string,
                     mutationRateText: string, crossoverRateText: string, localText: string, elitismText: string,
                     toReal: string -> Option<real>): (r: Option<seq<Config>>)
    ensures var mr, cr, el := SplitOn(mutationRateText, ','), SplitOn(crossoverRateText, ','), SplitOn(elitismText, ',');
      var unreadable := BadReal(mr, toReal) || BadReal(cr, toReal) || BadInt(el);
      var size := |SplitOn(selectionText, ',')| * |SplitOn(crossoverText, ',')| * |SplitOn(mutationText, ',')|
                  * |mr| * |cr| * |ReadBools(SplitOn(localText, ','))| * |el|;
      (r.None? <==> unreadable || (size > 0 && Texty(base, "population_size")))
      && (r.Some? ==> |r.value| == size)
    ensures r.Some? ==> forall i :: 0 <= i < |r.value| ==> GaCellOk(base, r.value[i])
  {
    var mutationRates := ReadReals(SplitOn(mutationRateText, ','), toReal);
    var crossoverRates := ReadReals(SplitOn(crossoverRateText, ','), toReal);
    var elitism := ReadInts(SplitOn(elitismText, ','));
    if mutationRates.None? || crossoverRates.None? || elitism.None? then None
    else
      var selections, crossovers := ReadNames(SplitOn(selectionText, ',')), ReadNames(SplitOn(crossoverText, ','));
      var mutations, local := ReadNames(SplitOn(mutationText, ',')), ReadBools(SplitOn(localText, ','));
      GaGridRaise(base, selections, crossovers, mutations, mutationRates.value, crossoverRates.value, local, elitism.value);
      GaGridCount(base, selections, crossovers, mutations, mutationRates.value, crossoverRates.value, local, elitism.value);
      GaGridAdjusted(base, selections, crossovers, mutations, mutationRates.value, crossoverRates.value, local, elitism.value);
      GaGrid(base, selections, crossovers, mutations, mutationRates.value, crossoverRates.value, local, elitism.value)
  }

  lemma CountPrefix(axes: seq<Axis>, k: nat)
    requires k < |axes|
    ensures Count(axes[..k + 1]) == Count(axes[..k]) * |axes[k].values|
  {
    assert axes[..k + 1][..k] == axes[..k];
  }

  lemma AssignPrefix(base: Config, axes: seq<Axis>, pick: seq<Value>, k: nat)
    requires |pick| == |axes| && k < |axes|
    ensures Assign(base, axes[..k + 1], pick[..k + 1]) == Put(Assign(base, axes[..k], pick[..k]), axes[k].key, pick[k])
  {
    assert axes[..k + 1][..k] == axes[..k] && pick[..k + 1][..k] == pick[..k];
  }

  /** The GA grid has one loop body per combination of values. */
  lemma GaGridCount(base: Config, selections: seq<string>, crossovers: seq<string>, mutations: seq<string>,
                    mutationRates: seq<real>, crossoverRates: seq<real>, local: seq<bool>, elitism: seq<int>)
    ensures |Grid(base, GaAxes(selections, crossovers, mutations, mutationRates, crossoverRates, local, elitism))|
         == |selections| * |crossovers| * |mutations| * |mutationRates| * |crossoverRates| * |local| * |elitism|
  {
    var axes := GaAxes(selections, crossovers, mutations, mutationRates, crossoverRates, local, elitism);
    assert axes[..0] == [];
    CountPrefix(axes, 0);
    CountPrefix(axes, 1);
    CountPrefix(axes, 2);
    CountPrefix(axes, 3);
    CountPrefix(axes, 4);
    CountPrefix(axes, 5);
  }

  /** The GA loop body before the adjustment: a copy of the base with the
      seven loop values stored in order. */
  function GaBody(base: Config, s: string, c: string, m: string, mr: real, cr: real, l: bool, e: int): Config {
    Put(Put(Put(Put(Put(Put(Put(base, "selection_method", Str(s)), "crossover_method", Str(c)), "mutation_method", Str(m)),
      "mutation_rate", Float(mr)), "crossover_rate", Float(cr)), "local_search", Bool(l)), "elitism", Int(e))
  }

  lemma GaAssign(base: Config, s: string, c: string, m: string, mr: real, cr: real, l: bool, e: int, axes: seq<Axis>,
                 selections: seq<string>, crossovers: seq<string>, mutations: seq<string>,
                 mutationRates: seq<real>, crossoverRates: seq<real>, local: seq<bool>, elitism: seq<int>)
    requires axes == GaAxes(selections, crossovers, mutations, mutationRates, crossoverRates, local, elitism)
    ensures Assign(base, axes, [Str(s), Str(c), Str(m), Float(mr), Float(cr), Bool(l), Int(e)]) == GaBody(base, s, c, m, mr, cr, l, e)
  {
    var pick := [Str(s), Str(c), Str(m), Float(mr), Float(cr), Bool(l), Int(e)];
    AssignSeven(base, axes, pick);
  }

  /** Seven nested loops set their parameters in order. */
  lemma AssignSeven(base: Config, axes: seq<Axis>, pick: seq<Value>)
    requires |axes| == 7 && |pick| == 7
    ensures Assign(base, axes, pick)
         == Put(Put(Put(Put(Put(Put(Put(base, axes[0].key, pick[0]), axes[1].key, pick[1]), axes[2].key, pick[2]),
              axes[3].key, pick[3]), axes[4].key, pick[4]), axes[5].key, pick[5]), axes[6].key, pick[6])
  {
    var a1 := Put(base, axes[0].key, pick[0]);
    assert Assign(base, axes[..1], pick[..1]) == a1 by {
      assert axes[..0] == [] && pick[..0] == [];
      AssignPrefix(base, axes, pick, 0);
    }
    var a2 := Put(a1, axes[1].key, pick[1]);
    assert Assign(base, axes[..2], pick[..2]) == a2 by { AssignPrefix(base, axes, pick, 1); }
    var a3 := Put(a2, axes[2].key, pick[2]);
    assert Assign(base, axes[..3], pick[..3]) == a3 by { AssignPrefix(base, axes, pick, 2); }
    var a4 := Put(a3, axes[3].key, pick[3]);
    assert Assign(base, axes[..4], pick[..4]) == a4 by { AssignPrefix(base, axes, pick, 3); }
    var a5 := Put(a4, axes[4].key, pick[4]);
    assert Assign(base, axes[..5], pick[..5]) == a5 by { AssignPrefix(base, axes, pick, 4); }
    var a6 := Put(a5, axes[5].key, pick[5]);
    assert Assign(base, axes[..6], pick[..6]) == a6 by { AssignPrefix(base, axes, pick, 5); }
  }

  /** One value from each GA list. */
  ghost predicate GaPoint(base: Config, selections: seq<string>, crossovers: seq<string>, mutations: seq<string>,
                          mutationRates: seq<real>, crossoverRates: seq<real>, local: seq<bool>, elitism: seq<int>, g: Config) {
    exists s, c, m, mr, cr, l, e :: s in selections && c in crossovers && m in mutations && mr in mutationRates
      && cr in crossoverRates && l in local && e in elitism && g == GaBody(base, s, c, m, mr, cr, l, e)
  }

  lemma GaGridSound(base: Config, selections: seq<string>, crossovers: seq<string>, mutations: seq<string>,
                    mutationRates: seq<real>, crossoverRates: seq<real>, local: seq<bool>, elitism: seq<int>, g: Config)
    requires g in Grid(base, GaAxes(selections, crossovers, mutations, mutationRates, crossoverRates, local, elitism))
    ensures GaPoint(base, selections, crossovers, mutations, mutationRates, crossoverRates, local, elitism, g)
  {
    var axes := GaAxes(selections, crossovers, mutations, mutationRates, crossoverRates, local, elitism);
    GridSound(base, axes, g);
    var pick: seq<Value> :| Picks(axes, pick) && g == Assign(base, axes, pick);
    assert pick[0] in Strs(selections) && pick[1] in Strs(crossovers) && pick[2] in Strs(mutations);
    assert pick[3] in Floats(mutationRates) && pick[4] in Floats(crossoverRates);
    assert pick[5] in Bools(local) && pick[6] in Ints(elitism);
    StrsMember(selections, pick[0]);
    StrsMember(crossovers, pick[1]);
    StrsMember(mutations, pick[2]);
    FloatsMember(mutationRates, pick[3]);
    FloatsMember(crossoverRates, pick[4]);
    BoolsMember(local, pick[5]);
    IntsMember(elitism, pick[6]);
    var s, c, m, mr, cr, l, e := pick[0].s, pick[1].s, pick[2].s, pick[3].r, pick[4].r, pick[5].b, pick[6].i;
    assert pick == [Str(s), Str(c), Str(m), Float(mr), Float(cr), Bool(l), Int(e)];
    GaAssign(base, s, c, m, mr, cr, l, e, axes, selections, crossovers, mutations, mutationRates, crossoverRates, local, elitism);
  }

  lemma GaPicks(selections: seq<string>, crossovers: seq<string>, mutations: seq<string>,
                 mutationRates: seq<real>, crossoverRates: seq<real>, local: seq<bool>, elitism: seq<int>,
                 s: string, c: string, m: string, mr: real, cr: real, l: bool, e: int)
    requires s in selections && c in crossovers && m in mutations && mr in mutationRates
    requires cr in crossoverRates && l in local && e in elitism
    ensures Picks(GaAxes(selections, crossovers, mutations, mutationRates, crossoverRates, local, elitism),
                  [Str(s), Str(c), Str(m), Float(mr), Float(cr), Bool(l), Int(e)])
  {
    var axes := GaAxes(selections, crossovers, mutations, mutationRates, crossoverRates, local, elitism);
    var pick := [Str(s), Str(c), Str(m), Float(mr), Float(cr), Bool(l), Int(e)];
    forall i | 0 <= i < 7 ensures pick[i] in axes[i].values {
      if i == 0 {
        StrsMember(selections, Str(s));
      } else if i == 1 {
        StrsMember(crossovers, Str(c));
      } else if i == 2 {
        StrsMember(mutations, Str(m));
      } else if i == 3 {
        FloatsMember(mutationRates, Float(mr));
      } else if i == 4 {
        FloatsMember(crossoverRates, Float(cr));
      } else if i == 5 {
        BoolsMember(local, Bool(l));
      } else {
        IntsMember(elitism, Int(e));
      }
    }
  }

  lemma GaGridComplete(base: Config, selections: seq<string>, crossovers: seq<string>, mutations: seq<string>,
                       mutationRates: seq<real>, crossoverRates: seq<real>, local: seq<bool>, elitism: seq<int>,
                       s: string, c: string, m: string, mr: real, cr: real, l: bool, e: int)
    requires s in selections && c in crossovers && m in mutations && mr in mutationRates
    requires cr in crossoverRates && l in local && e in elitism
    ensures GaBody(base, s, c, m, mr, cr, l, e) in Grid(base, GaAxes(selections, crossovers, mutations, mutationRates, crossoverRates, local, elitism))
  {
    var axes := GaAxes(selections, crossovers, mutations, mutationRates, crossoverRates, local, elitism);
    var pick := [Str(s), Str(c), Str(m), Float(mr), Float(cr), Bool(l), Int(e)];
    GaPicks(selections, crossovers, mutations, mutationRates, crossoverRates, local, elitism, s, c, m, mr, cr, l, e);
    GridComplete(base, axes, pick);
    GaAssign(base, s, c, m, mr, cr, l, e, axes, selections, crossovers, mutations, mutationRates, crossoverRates, local, elitism);
  }

  /** The GA loops produce exactly the loop bodies for every combination of
      listed values. */
  lemma GaGridMember(base: Config, selections: seq<string>, crossovers: seq<string>, mutations: seq<string>,
                     mutationRates: seq<real>, crossoverRates: seq<real>, local: seq<bool>, elitism: seq<int>, g: Config)
    ensures g in Grid(base, GaAxes(selections, crossovers, mutations, mutationRates, crossoverRates, local, elitism)) <==>
      GaPoint(base, selections, crossovers, mutations, mutationRates, crossoverRates, local, elitism, g)
  {
    if g in Grid(base, GaAxes(selections, crossovers, mutations, mutationRates, crossoverRates, local, elitism)) {
      GaGridSound(base, selections, crossovers, mutations, mutationRates, crossoverRates, local, elitism, g);
    }
    if GaPoint(base, selections, crossovers, mutations, mutationRates, crossoverRates, local, elitism, g) {
      var s, c, m, mr, cr, l, e :| s in selections && c in crossovers && m in mutations && mr in mutationRates
        && cr in crossoverRates && l in local && e in elitism && g == GaBody(base, s, c, m, mr, cr, l, e);
      GaGridComplete(base, selections, crossovers, mutations, mutationRates, crossoverRates, local, elitism, s, c, m, mr, cr, l, e);
    }
  }

  /** The parameters the GA loops set, in loop order. */
  const GaLoopKeys: seq<string> := ["selection_method", "crossover_method", "mutation_method", "mutation_rate",
                                    "crossover_rate", "local_search", "elitism"]

  /** What every adjusted GA configuration satisfies: elitism below the
      population size, the tournament size 3 unless the selection is
      tournament selection (then the base's), and every parameter outside
      the loops and the tournament size as in the base. */
  ghost predicate GaCellOk(base: Config, r: Config) {
    && Below(r)
    && Lookup(r, "tournament_size") == (if NotTournament(r) then Some(Int(3)) else Lookup(base, "tournament_size"))
    && forall k :: k !in GaLoopKeys && k != "tournament_size" ==> Lookup(r, k) == Lookup(base, k)
  }

  lemma GaLoopKeysApart()
    ensures "tournament_size" !in GaLoopKeys && "population_size" !in GaLoopKeys
  {
  }

  /** The GA loops set exactly the loop keys, in order. */
  lemma GaAxesKeys(selections: seq<string>, crossovers: seq<string>, mutations: seq<string>,
                   mutationRates: seq<real>, crossoverRates: seq<real>, local: seq<bool>, elitism: seq<int>, i: nat)
    requires i < 7
    ensures GaAxes(selections, crossovers, mutations, mutationRates, crossoverRates, local, elitism)[i].key == GaLoopKeys[i]
  {
    if i == 0 {} else if i == 1 {} else if i == 2 {} else if i == 3 {} else if i == 4 {} else if i == 5 {} else {}
  }

  /** A parameter the GA loops do not set keeps its base value. */
  lemma GaKeeps(base: Config, selections: seq<string>, crossovers: seq<string>, mutations: seq<string>,
                mutationRates: seq<real>, crossoverRates: seq<real>, local: seq<bool>, elitism: seq<int>, pick: seq<Value>, k: string)
    requires |pick| == 7 && k !in GaLoopKeys
    ensures Lookup(Assign(base, GaAxes(selections, crossovers, mutations, mutationRates, crossoverRates, local, elitism), pick), k) == Lookup(base, k)
  {
    var axes := GaAxes(selections, crossovers, mutations, mutationRates, crossoverRates, local, elitism);
    forall i | 0 <= i < |axes| ensures axes[i].key != k {
      GaAxesKeys(selections, crossovers, mutations, mutationRates, crossoverRates, local, elitism, i);
      assert GaLoopKeys[i] in GaLoopKeys;
    }
    AssignKeeps(base, axes, pick, k);
  }

  /** A GA loop body, before the adjustment, differs from the base only in
      the loop keys. */
  lemma GaBodyKeeps(base: Config, selections: seq<string>, crossovers: seq<string>, mutations: seq<string>,
                    mutationRates: seq<real>, crossoverRates: seq<real>, local: seq<bool>, elitism: seq<int>, g: Config)
    requires g in Grid(base, GaAxes(selections, crossovers, mutations, mutationRates, crossoverRates, local, elitism))
    ensures forall k :: k !in GaLoopKeys ==> Lookup(g, k) == Lookup(base, k)
  {
    var axes := GaAxes(selections, crossovers, mutations, mutationRates, crossoverRates, local, elitism);
    GridSound(base, axes, g);
    var pick: seq<Value> :| Picks(axes, pick) && g == Assign(base, axes, pick);
    forall k | k !in GaLoopKeys ensures Lookup(g, k) == Lookup(base, k) {
      GaKeeps(base, selections, crossovers, mutations, mutationRates, crossoverRates, local, elitism, pick, k);
    }
  }

  lemma GaCell(base: Config, selections: seq<string>, crossovers: seq<string>, mutations: seq<string>,
               mutationRates: seq<real>, crossoverRates: seq<real>, local: seq<bool>, elitism: seq<int>, g: Config)
    requires g in Grid(base, GaAxes(selections, crossovers, mutations, mutationRates, crossoverRates, local, elitism))
    requires !Texty(base, "population_size")
    ensures ElitismInt(g) && Adjust(g).Some? && GaCellOk(base, Adjust(g).value)
  {
    GaLoopKeysApart();
    GaGridCells(base, selections, crossovers, mutations, mutationRates, crossoverRates, local, elitism, g);
    GaBodyKeeps(base, selections, crossovers, mutations, mutationRates, crossoverRates, local, elitism, g);
    AdjustSpec(g);
    var r := Adjust(g).value;
    assert Lookup(r, "selection_method") == Lookup(g, "selection_method");
    assert Lookup(g, "tournament_size") == Lookup(base, "tournament_size");
  }

  /** The GA configurations raise exactly when there is at least one loop
      body and the population size is text. */
  lemma GaGridRaise(base: Config, selections: seq<string>, crossovers: seq<string>, mutations: seq<string>,
                    mutationRates: seq<real>, crossoverRates: seq<real>, local: seq<bool>, elitism: seq<int>)
    ensures GaGrid(base, selections, crossovers, mutations, mutationRates, crossoverRates, local, elitism).None? <==>
      |selections| * |crossovers| * |mutations| * |mutationRates| * |crossoverRates| * |local| * |elitism| > 0
      && Texty(base, "population_size")
  {
    var axes := GaAxes(selections, crossovers, mutations, mutationRates, crossoverRates, local, elitism);
    var cs := Grid(base, axes);
    GaGridCount(base, selections, crossovers, mutations, mutationRates, crossoverRates, local, elitism);
    forall i | 0 <= i < |cs| ensures Texty(cs[i], "population_size") == Texty(base, "population_size") {
      GaGridCells(base, selections, crossovers, mutations, mutationRates, crossoverRates, local, elitism, cs[i]);
    }
    if |cs| > 0 && Texty(base, "population_size") {
      assert Texty(cs[0], "population_size");
    }
  }

  /** Every GA configuration keeps the elitism and tournament rules and
      the base's other parameters. */
  lemma GaGridAdjusted(base: Config, selections: seq<string>, crossovers: seq<string>, mutations: seq<string>,
                       mutationRates: seq<real>, crossoverRates: seq<real>, local: seq<bool>, elitism: seq<int>)
    ensures var r := GaGrid(base, selections, crossovers, mutations, mutationRates, crossoverRates, local, elitism);
      r.Some? ==> forall i :: 0 <= i < |r.value| ==> GaCellOk(base, r.value[i])
  {
    var axes := GaAxes(selections, crossovers, mutations, mutationRates, crossoverRates, local, elitism);
    var cs := Grid(base, axes);
    var r := GaGrid(base, selections, crossovers, mutations, mutationRates, crossoverRates, local, elitism);
    if r.Some? {
      forall i | 0 <= i < |r.value| ensures GaCellOk(base, r.value[i]) {
        GaGridCells(base, selections, crossovers, mutations, mutationRates, crossoverRates, local, elitism, cs[i]);
        GaCell(base, selections, crossovers, mutations, mutationRates, crossoverRates, local, elitism, cs[i]);
      }
    }
  }

  /** Entry `i` of the GA configurations is loop body `i`, adjusted. */
  lemma GaGridAt(base: Config, selections: seq<string>, crossovers: seq<string>, mutations: seq<string>,
                 mutationRates: seq<real>, crossoverRates: seq<real>, local: seq<bool>, elitism: seq<int>)
    requires GaGrid(base, selections, crossovers, mutations, mutationRates, crossoverRates, local, elitism).Some?
    ensures var cs := Grid(base, GaAxes(selections, crossovers, mutations, mutationRates, crossoverRates, local, elitism));
      var rs := GaGrid(base, selections, crossovers, mutations, mutationRates, crossoverRates, local, elitism).value;
      |rs| == |cs| && forall i :: 0 <= i < |cs| ==> ElitismInt(cs[i]) && Adjust(cs[i]) == Some(rs[i])
  {
    var axes := GaAxes(selections, crossovers, mutations, mutationRates, crossoverRates, local, elitism);
    GaGridElitism(base, axes, selections, crossovers, mutations, mutationRates, crossoverRates, local, elitism);
    assert GaGrid(base, selections, crossovers, mutations, mutationRates, crossoverRates, local, elitism) == AdjustAll(Grid(base, axes));
  }

  /** One value from each GA list, loop body adjusted. */
  ghost predicate GaAdjustedPoint(base: Config, selections: seq<string>, crossovers: seq<string>, mutations: seq<string>,
                                  mutationRates: seq<real>, crossoverRates: seq<real>, local: seq<bool>, elitism: seq<int>, x: Config) {
    exists g :: GaPoint(base, selections, crossovers, mutations, mutationRates, crossoverRates, local, elitism, g)
      && ElitismInt(g) && Adjust(g) == Some(x)
  }

  lemma GaGridAdjustedSound(base: Config, selections: seq<string>, crossovers: seq<string>, mutations: seq<string>,
                            mutationRates: seq<real>, crossoverRates: seq<real>, local: seq<bool>, elitism: seq<int>, x: Config)
    requires GaGrid(base, selections, crossovers, mutations, mutationRates, crossoverRates, local, elitism).Some?
    requires x in GaGrid(base, selections, crossovers, mutations, mutationRates, crossoverRates, local, elitism).value
    ensures GaAdjustedPoint(base, selections, crossovers, mutations, mutationRates, crossoverRates, local, elitism, x)
  {
    var cs := Grid(base, GaAxes(selections, crossovers, mutations, mutationRates, crossoverRates, local, elitism));
    var rs := GaGrid(base, selections, crossovers, mutations, mutationRates, crossoverRates, local, elitism).value;
    GaGridAt(base, selections, crossovers, mutations, mutationRates, crossoverRates, local, elitism);
    var i :| 0 <= i < |rs| && rs[i] == x;
    assert ElitismInt(cs[i]) && Adjust(cs[i]) == Some(x);
    GaGridMember(base, selections, crossovers, mutations, mutationRates, crossoverRates, local, elitism, cs[i]);
  }

  lemma GaGridAdjustedComplete(base: Config, selections: seq<string>, crossovers: seq<string>, mutations: seq<string>,
                               mutationRates: seq<real>, crossoverRates: seq<real>, local: seq<bool>, elitism: seq<int>, x: Config)
    requires GaGrid(base, selections, crossovers, mutations, mutationRates, crossoverRates, local, elitism).Some?
    requires GaAdjustedPoint(base, selections, crossovers, mutations, mutationRates, crossoverRates, local, elitism, x)
    ensures x in GaGrid(base, selections, crossovers, mutations, mutationRates, crossoverRates, local, elitism).value
  {
    var cs := Grid(base, GaAxes(selections, crossovers, mutations, mutationRates, crossoverRates, local, elitism));
    var rs := GaGrid(base, selections, crossovers, mutations, mutationRates, crossoverRates, local, elitism).value;
    var g :| GaPoint(base, selections, crossovers, mutations, mutationRates, crossoverRates, local, elitism, g)
      && ElitismInt(g) && Adjust(g) == Some(x);
    GaGridMember(base, selections, crossovers, mutations, mutationRates, crossoverRates, local, elitism, g);
    var i :| 0 <= i < |cs| && cs[i] == g;
    GaGridAt(base, selections, crossovers, mutations, mutationRates, crossoverRates, local, elitism);
    assert Adjust(cs[i]) == Some(rs[i]);
  }

  /** The GA configurations are exactly the adjusted loop bodies for every
      combination of listed values. */
  lemma GaGridMemberAdjusted(base: Config, selections: seq<string>, crossovers: seq<string>, mutations: seq<string>,
                             mutationRates: seq<real>, crossoverRates: seq<real>, local: seq<bool>, elitism: seq<int>, x: Config)
    requires GaGrid(base, selections, crossovers, mutations, mutationRates, crossoverRates, local, elitism).Some?
    ensures x in GaGrid(base, selections, crossovers, mutations, mutationRates, crossoverRates, local, elitism).value <==>
      GaAdjustedPoint(base, selections, crossovers, mutations, mutationRates, crossoverRates, local, elitism, x)
  {
    if x in GaGrid(base, selections, crossovers, mutations, mutationRates, crossoverRates, local, elitism).value {
      GaGridAdjustedSound(base, selections, crossovers, mutations, mutationRates, crossoverRates, local, elitism, x);
    }
    if GaAdjustedPoint(base, selections, crossovers, mutations, mutationRates, crossoverRates, local, elitism, x) {
      GaGridAdjustedComplete(base, selections, crossovers, mutations, mutationRates, crossoverRates, local, elitism, x);
    }
  }

  /** Value lists written into the seven fields give the adjusted GA grid
      over those values. */
  lemma GaConfigsFromLists(base: Config, selections: seq<string>, crossovers: seq<string>, mutations: seq<string>,
                           mutationRates: seq<real>, crossoverRates: seq<real>, local: seq<bool>, elitism: seq<int>,
                           show: real -> string, toReal: string -> Option<real>)
    requires |selections| >= 1 && forall i :: 0 <= i < |selections| ==> Item(selections[i])
    requires |crossovers| >= 1 && forall i :: 0 <= i < |crossovers| ==> Item(crossovers[i])
    requires |mutations| >= 1 && forall i :: 0 <= i < |mutations| ==> Item(mutations[i])
    requires |mutationRates| >= 1 && |crossoverRates| >= 1 && |elitism| >= 1
    requires forall i :: 0 <= i < |mutationRates| ==> Item(show(mutationRates[i])) && toReal(show(mutationRates[i])) == Some(mutationRates[i])
    requires forall i :: 0 <= i < |crossoverRates| ==> Item(show(crossoverRates[i])) && toReal(show(crossoverRates[i])) == Some(crossoverRates[i])
    ensures GaConfigs(base, ListText(selections), ListText(crossovers), ListText(mutations),
                      ListText(seq(|mutationRates|, i requires 0 <= i < |mutationRates| => show(mutationRates[i]))),
                      ListText(seq(|crossoverRates|, i requires 0 <= i < |crossoverRates| => show(crossoverRates[i]))),
                      ListText(seq(|local|, i requires 0 <= i < |local| => ShowBool(local[i]))),
                      ListText(seq(|elitism|, i requires 0 <= i < |elitism| => ShowInt(elitism[i]))),
                      toReal)
         == GaGrid(base, selections, crossovers, mutations, mutationRates, crossoverRates, local, elitism)
  {
    ReadNamesList(selections);
    ReadNamesList(crossovers);
    ReadNamesList(mutations);
    ReadRealsList(mutationRates, show, toReal);
    ReadRealsList(crossoverRates, show, toReal);
    ReadBoolsList(local);
    ReadIntsList(elitism);
  }

  /** Both test lists grow by the new configurations; when building them
      raised, the lists stay as they were. */
  function AddConfigs(existing: seq<Config>, made: Option<seq<Config>>): (r: seq<Config>)
    ensures made.None? ==> r == existing
    ensures made.Some? ==> |r| == |existing| + |made.value| && r[..|existing|] == existing && r[|existing|..] == made.value
  {
    if made.None? then existing else existing + made.value
  }

  // ----- the one-line summary of a configuration -----

  /** The parameters the summary shows: for ACO the five ACO loop keys,
      for GA the seven GA loop keys. */
  const AcoHighlights: seq<string> := ["alpha", "beta", "min_max_aco", "local_search", "elitist_ants"]
  const GaHighlights: seq<string> := GaLoopKeys

  function Highlights(aco: bool): seq<string> {
    if aco then AcoHighlights else GaHighlights
  }

  /** `f"{v}"`; how a float prints is a parameter. */
  function ShowValue(v: Value, showReal: real -> string): string {
    match v
    case Int(i) => ShowInt(i)
    case Float(r) => showReal(r)
    case Bool(b) => ShowBool(b)
    case Str(w) => w
  }

  /** The entries whose key is highlighted, in dictionary order. */
  function Highlighted(c: Config, hl: seq<string>): (r: Config)
    ensures |r| <= |c|
    decreases |c|
  {
    if c == [] then []
    else
      var init := Highlighted(c[..|c| - 1], hl);
      var last := c[|c| - 1];
      if last.key in hl then init + [last] else init
  }

  /** The summary shows exactly the entries with a highlighted key. */
  lemma {:induction false} HighlightedMember(c: Config, hl: seq<string>, e: Entry)
    ensures e in Highlighted(c, hl) <==> e in c && e.key in hl
    decreases |c|
  {
    if c != [] {
      var n := |c|;
      HighlightedMember(c[..n - 1], hl, e);
      assert c == c[..n - 1] + [c[n - 1]];
    }
  }

  /** `f"{k}={v}"` for one entry. */
  function ShowEntry(e: Entry, showReal: real -> string): (w: string)
    ensures |w| > |e.key| && w[|e.key|] == '='
  {
    e.key + "=" + ShowValue(e.value, showReal)
  }

  /** `format_config_string`: the highlighted entries as `key=value`,
      separated by a comma and a space, in dictionary order. The summary is
      empty exactly when the configuration has no highlighted parameter. */
  function FormatConfig(aco: bool, c: Config, showReal: real -> string): (r: string)
    ensures r == [] <==> forall j :: 0 <= j < |c| ==> c[j].key !in Highlights(aco)
  {
    var es := Highlighted(c, Highlights(aco));
    var items := seq(|es|, i requires 0 <= i < |es| => ShowEntry(es[i], showReal));
    SummaryEmpty(c, Highlights(aco), items, showReal);
    Join(items, ", ")
  }

  lemma {:induction false} JoinFirst(parts: seq<string>, sep: string)
    requires |parts| >= 1
    ensures |Join(parts, sep)| >= |parts[0]| && Join(parts, sep)[..|parts[0]|] == parts[0]
  {
  }

  lemma SummaryEmpty(c: Config, hl: seq<string>, items: seq<string>, showReal: real -> string)
    requires |items| == |Highlighted(c, hl)|
    requires forall i :: 0 <= i < |items| ==> items[i] == ShowEntry(Highlighted(c, hl)[i], showReal)
    ensures Join(items, ", ") == [] <==> forall j :: 0 <= j < |c| ==> c[j].key !in hl
  {
    var es := Highlighted(c, hl);
    if es != [] {
      JoinFirst(items, ", ");
      HighlightedMember(c, hl, es[0]);
    }
    if exists j :: 0 <= j < |c| && c[j].key in hl {
      var j :| 0 <= j < |c| && c[j].key in hl;
      HighlightedMember(c, hl, c[j]);
    }
  }

  /** Replacing one entry by another with the same, not highlighted, key
      leaves the highlighted entries alone. */
  lemma {:induction false} HighlightedUpdate(c: Config, hl: seq<string>, i: nat, e: Entry)
    requires i < |c| && c[i].key !in hl && e.key !in hl
    ensures Highlighted(c[i := e], hl) == Highlighted(c, hl)
    decreases |c|
  {
    var d := c[i := e];
    var n := |c|;
    var tail := if c[n - 1].key in hl then [c[n - 1]] else [];
    assert Highlighted(c, hl) == Highlighted(c[..n - 1], hl) + tail;
    if i < n - 1 {
      assert d[..n - 1] == c[..n - 1][i := e];
      HighlightedUpdate(c[..n - 1], hl, i, e);
      assert d[n - 1] == c[n - 1];
      assert Highlighted(d, hl) == Highlighted(d[..n - 1], hl) + tail;
    } else {
      assert d[..n - 1] == c[..n - 1];
      assert Highlighted(d, hl) == Highlighted(d[..n - 1], hl);
    }
  }

  /** Storing a parameter the summary does not show leaves the summary
      unchanged. */
  lemma FormatIgnores(aco: bool, c: Config, k: string, v: Value, showReal: real -> string)
    requires k !in Highlights(aco)
    ensures FormatConfig(aco, Put(c, k, v), showReal) == FormatConfig(aco, c, showReal)
  {
    var hl := Highlights(aco);
    var i := IndexOf(c, k);
    if i < 0 {
      var d := c + [Entry(k, v)];
      assert d[..|d| - 1] == c;
    } else {
      HighlightedUpdate(c, hl, i, Entry(k, v));
    }
  }
}
