/** The base set matcher of `application/morphology.py`: four inflection rule
    families read forwards, and their inversion into a set of bases. */
module Morphology {

  const MIN_STEM_LENGTH: nat := 3
  const INFLECTION_SUFFIXES: seq<string> := ["s", "es", "ed", "ing"]
  const TAIL_SUFFIXES: seq<string> := ["ed", "ing"]
  const Y_SUFFIXES: seq<string> := ["es", "ed"]

  predicate EndsWith(token: string, suffix: string) {
    |suffix| <= |token| && token[|token| - |suffix|..] == suffix
  }

  /** `token[:-n]` in the source's notation. */
  function Trim(token: string, n: nat): string
    requires n <= |token|
  {
    token[..|token| - n]
  }

  lemma TrimAppend(stem: string, suffix: string)
    ensures EndsWith(stem + suffix, suffix) && Trim(stem + suffix, |suffix|) == stem
  {
  }

  lemma TrimRestore(token: string, suffix: string)
    requires EndsWith(token, suffix)
    ensures token == Trim(token, |suffix|) + suffix
  {
  }

  // ----- The rules, each read forwards from the shorter token -----

  predicate PlainRule(shorter: string, longer: string, suffix: string) {
    longer == shorter + suffix
  }

  predicate FinalERule(shorter: string, longer: string, suffix: string) {
    EndsWith(shorter, "e") && longer == Trim(shorter, 1) + suffix
  }

  predicate DoublingRule(shorter: string, longer: string, suffix: string) {
    |shorter| > 0 && longer == shorter + shorter[|shorter| - 1..] + suffix
  }

  predicate FinalYRule(shorter: string, longer: string, suffix: string) {
    EndsWith(shorter, "y") && longer == Trim(shorter, 1) + "i" + suffix
  }

  predicate TailRules(shorter: string, longer: string, suffix: string) {
    FinalERule(shorter, longer, suffix) || DoublingRule(shorter, longer, suffix)
  }

  predicate Derives(shorter: string, longer: string) {
    || PlainRule(shorter, longer, "s") || PlainRule(shorter, longer, "es")
    || PlainRule(shorter, longer, "ed") || PlainRule(shorter, longer, "ing")
    || TailRules(shorter, longer, "ed") || TailRules(shorter, longer, "ing")
    || FinalYRule(shorter, longer, "es") || FinalYRule(shorter, longer, "ed")
  }

  /** The directional relation: the longer token derives from the shorter. */
  predicate StemMatch(a: string, b: string) {
    a == b ||
    var (shorter, longer) := if |a| < |b| then (a, b) else (b, a);
    |shorter| >= MIN_STEM_LENGTH && Derives(shorter, longer)
  }

  // ----- The inversion -----

  function Floored(candidate: string): set<string> {
    if |candidate| >= MIN_STEM_LENGTH then {candidate} else {}
  }

  function PlainBases(token: string, suffix: string): set<string> {
    if EndsWith(token, suffix) && |token| > |suffix| then Floored(Trim(token, |suffix|)) else {}
  }

  function TailBases(token: string, suffix: string): set<string> {
    if !EndsWith(token, suffix) || |token| <= |suffix| then {}
    else
      var trimmed := Trim(token, |suffix|);
      Floored(trimmed + "e")
      + if |trimmed| >= 2 && trimmed[|trimmed| - 1] == trimmed[|trimmed| - 2]
        then Floored(Trim(trimmed, 1)) else {}
  }

  function YBases(token: string, suffix: string): set<string> {
    if !EndsWith(token, suffix) || |token| <= |suffix| then {}
    else
      var trimmed := Trim(token, |suffix|);
      if EndsWith(trimmed, "i") then Floored(Trim(trimmed, 1) + "y") else {}
  }

  function BaseSet(token: string): set<string> {
    {token}
    + PlainBases(token, "s") + PlainBases(token, "es")
    + PlainBases(token, "ed") + PlainBases(token, "ing")
    + TailBases(token, "ed") + TailBases(token, "ing")
    + YBases(token, "es") + YBases(token, "ed")
  }

  predicate BaseSetsIntersect(a: string, b: string) {
    !(BaseSet(a) !! BaseSet(b))
  }

  /** What the three loops of `base_set` have added after `k` suffixes. */
  ghost function PlainUpTo(token: string, k: nat): set<string>
    requires k <= |INFLECTION_SUFFIXES|
  {
    if k == 0 then {} else PlainUpTo(token, k - 1) + PlainBases(token, INFLECTION_SUFFIXES[k - 1])
  }

  ghost function TailUpTo(token: string, k: nat): set<string>
    requires k <= |TAIL_SUFFIXES|
  {
    if k == 0 then {} else TailUpTo(token, k - 1) + TailBases(token, TAIL_SUFFIXES[k - 1])
  }

  ghost function YUpTo(token: string, k: nat): set<string>
    requires k <= |Y_SUFFIXES|
  {
    if k == 0 then {} else YUpTo(token, k - 1) + YBases(token, Y_SUFFIXES[k - 1])
  }

  /** `base_set` as the source runs it: one set grown through three loops. */
  method ComputeBaseSet(token: string) returns (bases: set<string>)
    ensures bases == BaseSet(token)
  {
    bases := AddInflections({token}, token);
    bases := AddTails(bases, token);
    bases := AddYs(bases, token);
    ThreeLoops(token);
  }

  method AddInflections(start: set<string>, token: string) returns (bases: set<string>)
    ensures bases == start + PlainUpTo(token, 4)
  {
    bases := start;
    for k := 0 to |INFLECTION_SUFFIXES|
      invariant bases == start + PlainUpTo(token, k)
    {
      bases := AddPlain(bases, token, INFLECTION_SUFFIXES[k]);
    }
  }

  method AddTails(start: set<string>, token: string) returns (bases: set<string>)
    ensures bases == start + TailUpTo(token, 2)
  {
    bases := start;
    for k := 0 to |TAIL_SUFFIXES|
      invariant bases == start + TailUpTo(token, k)
    {
      bases := AddTail(bases, token, TAIL_SUFFIXES[k]);
    }
  }

  method AddYs(start: set<string>, token: string) returns (bases: set<string>)
    ensures bases == start + YUpTo(token, 2)
  {
    bases := start;
    for k := 0 to |Y_SUFFIXES|
      invariant bases == start + YUpTo(token, k)
    {
      bases := AddY(bases, token, Y_SUFFIXES[k]);
    }
  }

  method AddPlain(bases: set<string>, token: string, suffix: string) returns (grown: set<string>)
    ensures grown == bases + PlainBases(token, suffix)
  {
    grown := bases;
    if EndsWith(token, suffix) && |token| > |suffix| {
      grown := grown + Floored(Trim(token, |suffix|));
    }
  }

  method AddTail(bases: set<string>, token: string, suffix: string) returns (grown: set<string>)
    ensures grown == bases + TailBases(token, suffix)
  {
    grown := bases;
    if EndsWith(token, suffix) && |token| > |suffix| {
      var trimmed := Trim(token, |suffix|);
      grown := grown + Floored(trimmed + "e");
      if |trimmed| >= 2 && trimmed[|trimmed| - 1] == trimmed[|trimmed| - 2] {
        grown := grown + Floored(Trim(trimmed, 1));
      }
    }
  }

  method AddY(bases: set<string>, token: string, suffix: string) returns (grown: set<string>)
    ensures grown == bases + YBases(token, suffix)
  {
    grown := bases;
    if EndsWith(token, suffix) && |token| > |suffix| {
      var trimmed := Trim(token, |suffix|);
      if EndsWith(trimmed, "i") {
        grown := grown + Floored(Trim(trimmed, 1) + "y");
      }
    }
  }

  lemma ThreeLoops(token: string)
    ensures {token} + PlainUpTo(token, 4) + TailUpTo(token, 2) + YUpTo(token, 2) == BaseSet(token)
  {
    UpToAll(token);
  }

  lemma UpToAll(token: string)
    ensures PlainUpTo(token, 4)
         == PlainBases(token, "s") + PlainBases(token, "es") + PlainBases(token, "ed") + PlainBases(token, "ing")
    ensures TailUpTo(token, 2) == TailBases(token, "ed") + TailBases(token, "ing")
    ensures YUpTo(token, 2) == YBases(token, "es") + YBases(token, "ed")
  {
    assert PlainUpTo(token, 1) == PlainBases(token, "s");
    assert PlainUpTo(token, 2) == PlainBases(token, "s") + PlainBases(token, "es");
    assert PlainUpTo(token, 3)
        == PlainBases(token, "s") + PlainBases(token, "es") + PlainBases(token, "ed");
    assert TailUpTo(token, 1) == TailBases(token, "ed");
    assert YUpTo(token, 1) == YBases(token, "es");
  }

  // ----- The inversion is exact -----

  lemma PlainExact(token: string, b: string, suffix: string)
    ensures b in PlainBases(token, suffix) <==> |b| >= MIN_STEM_LENGTH && PlainRule(b, token, suffix)
  {
    TrimAppend(b, suffix);
    if EndsWith(token, suffix) { TrimRestore(token, suffix); }
  }

  lemma TailExact(token: string, b: string, suffix: string)
    ensures b in TailBases(token, suffix) <==> |b| >= MIN_STEM_LENGTH && TailRules(b, token, suffix)
  {
    if |b| >= MIN_STEM_LENGTH && TailRules(b, token, suffix) {
      if FinalERule(b, token, suffix) {
        TrimAppend(Trim(b, 1), suffix);
        TrimRestore(b, "e");
      } else {
        var doubled := b + b[|b| - 1..];
        TrimAppend(doubled, suffix);
        TrimAppend(b, b[|b| - 1..]);
      }
    }
    if b in TailBases(token, suffix) {
      var trimmed := Trim(token, |suffix|);
      TrimRestore(token, suffix);
      if b == trimmed + "e" {
        TrimAppend(trimmed, "e");
      } else {
        assert trimmed == b + b[|b| - 1..];
      }
    }
  }

  lemma YExact(token: string, b: string, suffix: string)
    ensures b in YBases(token, suffix) <==> |b| >= MIN_STEM_LENGTH && FinalYRule(b, token, suffix)
  {
    if |b| >= MIN_STEM_LENGTH && FinalYRule(b, token, suffix) {
      TrimAppend(Trim(b, 1) + "i", suffix);
      TrimAppend(Trim(b, 1), "i");
      TrimRestore(b, "y");
    }
    if b in YBases(token, suffix) {
      var trimmed := Trim(token, |suffix|);
      TrimRestore(token, suffix);
      TrimRestore(trimmed, "i");
      TrimAppend(Trim(trimmed, 1), "y");
    }
  }

  /** `base_set(t)` is `t` and every base over the floor that a rule takes to `t`. */
  lemma BaseSetExact(token: string, b: string)
    ensures b in BaseSet(token) <==> b == token || (|b| >= MIN_STEM_LENGTH && Derives(b, token))
  {
    PlainExact(token, b, "s");
    PlainExact(token, b, "es");
    PlainExact(token, b, "ed");
    PlainExact(token, b, "ing");
    TailExact(token, b, "ed");
    TailExact(token, b, "ing");
    YExact(token, b, "es");
    YExact(token, b, "ed");
  }

  /** Every rule lengthens, so a base is never longer than its token. */
  lemma DerivesLengthens(shorter: string, longer: string)
    requires Derives(shorter, longer)
    ensures |shorter| < |longer|
  {
  }

  /** The directional match is membership in one of the two base sets. */
  lemma StemMatchIsMembership(a: string, b: string)
    ensures StemMatch(a, b) <==> a in BaseSet(b) || b in BaseSet(a)
  {
    BaseSetExact(a, b);
    BaseSetExact(b, a);
    if Derives(a, b) { DerivesLengthens(a, b); }
    if Derives(b, a) { DerivesLengthens(b, a); }
  }

  /** The symmetric match is exactly "some base the rules take to both sides";
      it contains the directional match and is symmetric. */
  lemma IntersectIsCommonBase(a: string, b: string)
    ensures BaseSetsIntersect(a, b) <==>
      exists base :: base in BaseSet(a) && base in BaseSet(b) && StemMatch(base, a) && StemMatch(base, b)
    ensures StemMatch(a, b) ==> BaseSetsIntersect(a, b)
    ensures BaseSetsIntersect(a, b) <==> BaseSetsIntersect(b, a)
  {
    StemMatchIsMembership(a, b);
    assert a in BaseSet(a) && b in BaseSet(b);
    if BaseSetsIntersect(a, b) {
      var base :| base in BaseSet(a) && base in BaseSet(b);
      StemMatchIsMembership(base, a);
      StemMatchIsMembership(base, b);
    }
  }

  /** `falls` and `falling` meet at `fall` though neither derives from the other. */
  lemma SiblingsMeetAtCommonBase()
    ensures BaseSetsIntersect("falls", "falling") && !StemMatch("falls", "falling")
  {
    BaseSetExact("falls", "fall");
    BaseSetExact("falling", "fall");
    assert PlainRule("fall", "falls", "s") && PlainRule("fall", "falling", "ing");
    assert "fall" in BaseSet("falls") && "fall" in BaseSet("falling");
  }

  /** Sharing a base is not transitive: `cared` has the bases `car` and `care`. */
  lemma MatchIsNotTransitive()
    ensures BaseSetsIntersect("car", "cared") && BaseSetsIntersect("cared", "care")
    ensures !BaseSetsIntersect("car", "care")
  {
    StemMatchIsMembership("car", "cared");
    StemMatchIsMembership("care", "cared");
    assert PlainRule("car", "cared", "ed") && FinalERule("care", "cared", "ed");
    IntersectIsCommonBase("car", "cared");
    IntersectIsCommonBase("cared", "care");
    OnlyItself("car");
    BaseSetExact("care", "car");
  }

  /** A token of floor length is its own only base. */
  lemma OnlyItself(token: string)
    requires |token| <= MIN_STEM_LENGTH
    ensures BaseSet(token) == {token}
  {
    forall b | b in BaseSet(token) ensures b == token {
      BaseSetExact(token, b);
      if b != token { DerivesLengthens(b, token); }
    }
  }
}
