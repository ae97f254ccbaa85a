/** The canonicalizing stemmer `morphology-v1`, the string rewriting system
    replicated in `docs/experiments/data/base-set-pair-comparison.py`, and its
    relation to the base set matcher. */
module CanonicalStem {
  import opened Morphology

  const ROUND_FLOOR: nat := 2
  const STRIP_SUFFIXES: seq<string> := ["ing", "ed", "es", "s"]

  predicate Strippable(token: string, suffix: string) {
    EndsWith(token, suffix) && |token| - |suffix| >= ROUND_FLOOR
  }

  /** Step 2: the first strippable suffix in the fixed order comes off. */
  function Strip(token: string): string {
    if Strippable(token, "ing") then Trim(token, 3)
    else if Strippable(token, "ed") then Trim(token, 2)
    else if Strippable(token, "es") then Trim(token, 2)
    else if Strippable(token, "s") then Trim(token, 1)
    else token
  }

  predicate Doubled(token: string) {
    |token| >= 2 && token[|token| - 1] == token[|token| - 2]
  }

  /** Steps 3 to 5: at most one tail rewrite. */
  function Tail(token: string): string {
    if Doubled(token) then
      if |token| - 1 >= ROUND_FLOOR then Trim(token, 1) else token
    else if EndsWith(token, "i") then Trim(token, 1) + "y"
    else if EndsWith(token, "e") && |token| - 1 >= ROUND_FLOOR then Trim(token, 1)
    else token
  }

  function OneRound(token: string): string {
    Tail(Strip(token))
  }

  /** The part of the measure that an `i` to `y` round lowers when the length stays. */
  function EndsInI(token: string): nat {
    if EndsWith(token, "i") then 1 else 0
  }

  lemma StripShortens(token: string)
    ensures Strip(token) == token || |Strip(token)| < |token|
  {
  }

  lemma TailLowersMeasure(token: string)
    ensures Tail(token) == token
         || |Tail(token)| < |token|
         || (|Tail(token)| == |token| && EndsInI(Tail(token)) < EndsInI(token))
  {
    if !Doubled(token) && EndsWith(token, "i") {
      assert Tail(token)[|token| - 1] == 'y';
    }
  }

  /** A round that changes its token lowers (length, ends in i). */
  lemma RoundLowersMeasure(token: string)
    ensures OneRound(token) == token
         || |OneRound(token)| < |token|
         || (|OneRound(token)| == |token| && EndsInI(OneRound(token)) < EndsInI(token))
  {
    StripShortens(token);
    TailLowersMeasure(Strip(token));
  }

  /** Rounds to the fixed point, without the entry floor. */
  function Normal(token: string): (stem: string)
    ensures OneRound(stem) == stem
    decreases |token|, EndsInI(token)
  {
    RoundLowersMeasure(token);
    if OneRound(token) == token then token else Normal(OneRound(token))
  }

  function Canonical(token: string): string {
    if |token| < MIN_STEM_LENGTH then token else Normal(token)
  }

  // ----- What the rules do -----

  /** A suffix comes off a stem of at least two characters. */
  lemma StripRules(stem: string)
    requires |stem| >= 2
    ensures Strip(stem + "ing") == stem && Strip(stem + "ed") == stem && Strip(stem + "es") == stem
    ensures stem[|stem| - 1] != 'e' ==> Strip(stem + "s") == stem
  {
    StripPlain(stem, "ing");
    StripPlain(stem, "ed");
    StripPlain(stem, "es");
    if stem[|stem| - 1] != 'e' { StripPlain(stem, "s"); }
  }

  /** Nothing else does. */
  lemma NothingToStrip(token: string)
    requires EndsWith(token, "ing") ==> |token| < 5
    requires EndsWith(token, "ed") || EndsWith(token, "es") ==> |token| < 4
    requires EndsWith(token, "s") ==> |token| < 3
    ensures Strip(token) == token
  {
  }

  /** A doubled final letter is undoubled, else a final `i` becomes `y`, else a
      final `e` goes, as long as two characters stay. */
  lemma TailRulesExactly(front: string, c: char)
    ensures Tail(front + [c, c]) == if front != "" then front + [c] else [c, c]
    ensures front == "" || front[|front| - 1] != c ==>
      Tail(front + [c]) == if c == 'i' then front + "y" else if c == 'e' && |front| >= 2 then front else front + [c]
  {
    var twice, once := front + [c, c], front + [c];
    assert twice[..|twice| - 1] == front + [c] && once[..|once| - 1] == front;
    assert front == "" ==> twice == [c, c];
    assert once[|once| - 1..] == [c];
  }

  ghost function Rounds(token: string, n: nat): string {
    if n == 0 then token else OneRound(Rounds(token, n - 1))
  }

  lemma {:induction false} RoundFirst(token: string, n: nat)
    ensures Rounds(OneRound(token), n) == Rounds(token, n + 1)
  {
    if n > 0 {
      RoundFirst(token, n - 1);
      RoundNext(OneRound(token), n - 1);
    }
    RoundNext(token, n);
  }

  lemma RoundNext(token: string, n: nat)
    ensures Rounds(token, 0) == token && Rounds(token, n + 1) == OneRound(Rounds(token, n))
  {
  }

  /** The rounds before the `n`-th each change the token, the `n`-th does not. */
  ghost predicate FirstFixed(token: string, n: nat) {
    && OneRound(Rounds(token, n)) == Rounds(token, n)
    && forall m :: 0 <= m < n ==> OneRound(Rounds(token, m)) != Rounds(token, m)
  }

  lemma LaterFixed(token: string, n: nat)
    requires FirstFixed(OneRound(token), n) && OneRound(token) != token
    ensures FirstFixed(token, n + 1)
  {
    RoundFirst(token, n);
    forall m | 0 <= m < n + 1 ensures OneRound(Rounds(token, m)) != Rounds(token, m) {
      if m > 0 { RoundFirst(token, m - 1); }
    }
  }

  lemma {:induction false} NormalIsFirstFixed(token: string) returns (n: nat)
    ensures Normal(token) == Rounds(token, n) && FirstFixed(token, n)
    decreases |token|, EndsInI(token)
  {
    n := 0;
    RoundLowersMeasure(token);
    if OneRound(token) != token {
      n := NormalIsFirstFixed(OneRound(token));
      LaterFixed(token, n);
      RoundFirst(token, n);
      n := n + 1;
    }
  }

  /** A token of at least three characters goes to the first fixed point of its
      rounds, a shorter one stays. */
  lemma StemIsFirstFixed(token: string)
    ensures |token| < 3 ==> Canonical(token) == token
    ensures |token| >= 3 ==> exists n: nat :: Canonical(token) == Rounds(token, n) && FirstFixed(token, n)
  {
    var n := NormalIsFirstFixed(token);
  }

  /** `_one_round` with its suffix loop and early exit. */
  method RunOneRound(token: string) returns (result: string)
    ensures result == OneRound(token)
  {
    result := token;
    StripsFromStart(token);
    for k := 0 to |STRIP_SUFFIXES|
      invariant result == token
      invariant StripsFrom(token, k) == Strip(token)
    {
      var suffix := STRIP_SUFFIXES[k];
      if Strippable(result, suffix) {
        result := Trim(result, |suffix|);
        break;
      }
    }
    result := RewriteTail(result);
  }

  /** What the suffix loop still does once the first `k` suffixes did not strip. */
  ghost function StripsFrom(token: string, k: nat): string
    requires k <= |STRIP_SUFFIXES|
    decreases |STRIP_SUFFIXES| - k
  {
    if k == |STRIP_SUFFIXES| then token
    else if Strippable(token, STRIP_SUFFIXES[k]) then Trim(token, |STRIP_SUFFIXES[k]|)
    else StripsFrom(token, k + 1)
  }

  lemma StripsFromStart(token: string)
    ensures StripsFrom(token, 0) == Strip(token)
  {
    assert StripsFrom(token, 3) == if Strippable(token, "s") then Trim(token, 1) else token;
    assert StripsFrom(token, 2) == if Strippable(token, "es") then Trim(token, 2) else StripsFrom(token, 3);
    assert StripsFrom(token, 1) == if Strippable(token, "ed") then Trim(token, 2) else StripsFrom(token, 2);
  }

  method RewriteTail(token: string) returns (result: string)
    ensures result == Tail(token)
  {
    result := token;
    if |result| >= 2 && result[|result| - 1] == result[|result| - 2] {
      if |result| - 1 >= ROUND_FLOOR {
        result := Trim(result, 1);
      }
    } else if EndsWith(result, "i") {
      result := Trim(result, 1) + "y";
    } else if EndsWith(result, "e") && |result| - 1 >= ROUND_FLOOR {
      result := Trim(result, 1);
    }
  }

  /** `canonical_stem`: no iteration cap, terminating under the measure. */
  method RunCanonical(token: string) returns (stem: string)
    ensures stem == Canonical(token)
  {
    if |token| < MIN_STEM_LENGTH {
      return token;
    }
    var current := token;
    while true
      invariant Normal(current) == Normal(token)
      decreases |current|, EndsInI(current)
    {
      var next := RunOneRound(current);
      if next == current {
        return current;
      }
      RoundLowersMeasure(current);
      current := next;
    }
  }

  /** Stemming a stem changes nothing. */
  lemma CanonicalIdempotent(token: string)
    ensures Canonical(Canonical(token)) == Canonical(token)
  {
  }

  // ----- A tail rewrite is absorbed by the rounds -----

  lemma NormalStep(token: string)
    ensures Normal(OneRound(token)) == Normal(token)
  {
  }

  /** The suffix tests, read off the last two characters. */
  lemma LastChars(token: string)
    requires |token| >= 2
    ensures EndsWith(token, "s") <==> token[|token| - 1] == 's'
    ensures EndsWith(token, "e") <==> token[|token| - 1] == 'e'
    ensures EndsWith(token, "i") <==> token[|token| - 1] == 'i'
    ensures EndsWith(token, "y") <==> token[|token| - 1] == 'y'
    ensures EndsWith(token, "es") <==> token[|token| - 1] == 's' && token[|token| - 2] == 'e'
    ensures EndsWith(token, "ed") <==> token[|token| - 1] == 'd' && token[|token| - 2] == 'e'
    ensures EndsWith(token, "iy") <==> token[|token| - 1] == 'y' && token[|token| - 2] == 'i'
    ensures EndsWith(token, "ing") ==> token[|token| - 1] == 'g' && token[|token| - 2] == 'n'
  {
    var last2 := token[|token| - 2..];
    assert last2 == [token[|token| - 2], token[|token| - 1]];
    assert token[|token| - 1..] == [token[|token| - 1]];
    if EndsWith(token, "ing") {
      assert token[|token| - 3..][1..] == last2;
    }
  }

  /** Where nothing strips, the round is the tail rewrite. */
  lemma StripNothing(token: string)
    requires |token| >= 2 && token[|token| - 1] !in ['g', 'd', 's']
    ensures Strip(token) == token
  {
    LastChars(token);
  }

  /** A doubled consonant other than `s` blocks every strip. */
  lemma StripDoubled(token: string)
    requires Doubled(token) && token[|token| - 1] != 's'
    ensures Strip(token) == token
  {
    LastChars(token);
  }

  lemma RoundDoubleS(token: string)
    requires Doubled(token) && |token| > 2 && token[|token| - 1] == 's'
    ensures OneRound(token) == Tail(Trim(token, 1))
    ensures Tail(Trim(token, 1)) == if Doubled(Trim(token, 1)) && |token| > 3 then Trim(Trim(token, 1), 1) else Trim(token, 1)
  {
    LastChars(token);
    LastChars(Trim(token, 1));
  }

  /** A run of final `s` collapses: dropping one of two leaves the normal form. */
  lemma {:induction false} DoubleSCollapses(token: string)
    requires Doubled(token) && |token| > 2 && token[|token| - 1] == 's'
    ensures Normal(Trim(token, 1)) == Normal(token)
    decreases |token|
  {
    RoundDoubleS(token);
    NormalStep(token);
    var shorter := Trim(token, 1);
    if Doubled(shorter) && |token| > 3 {
      DoubleSCollapses(shorter);
    }
  }

  /** Where the tail is rewritten nothing was stripped, but for a final `ss`. */
  lemma TailAlone(x: string)
    requires |x| >= 2 && Tail(x) != x && !(Doubled(x) && |x| > 2 && x[|x| - 1] == 's')
    ensures OneRound(x) == Tail(x)
  {
    LastChars(x);
    if Doubled(x) { StripDoubled(x); } else { StripNothing(x); }
  }

  lemma TailAbsorbed(x: string)
    requires |x| >= 2
    ensures Normal(Tail(x)) == Normal(x)
  {
    if Doubled(x) && |x| > 2 && x[|x| - 1] == 's' {
      DoubleSCollapses(x);
    } else if Tail(x) != x {
      TailAlone(x);
      NormalStep(x);
    }
  }

  // ----- One derivation step keeps the stem, with one exact exception -----

  /** The exception: a base in `iy` taken to its token by the `y` to `i` rule. */
  predicate IyException(base: string, token: string) {
    EndsWith(base, "iy") && (FinalYRule(base, token, "es") || FinalYRule(base, token, "ed"))
  }

  lemma StripPlain(base: string, suffix: string)
    requires |base| >= 2
    requires suffix == "ing" || suffix == "ed" || suffix == "es"
             || (suffix == "s" && base[|base| - 1] != 'e')
    ensures Strip(base + suffix) == base
  {
    TrimAppend(base, suffix);
    LastChars(base + suffix);
  }

  /** A base with a final `e` loses it in its first round. */
  lemma FinalERound(stem: string)
    requires |stem| >= 2
    ensures OneRound(stem + "e") == stem
  {
    LastChars(stem + "e");
    StripNothing(stem + "e");
    assert Trim(stem + "e", 1) == stem;
  }

  lemma FinalEDrops(stem: string)
    requires |stem| >= 2
    ensures Normal(stem + "e") == Normal(stem)
  {
    FinalERound(stem);
    NormalStep(stem + "e");
  }

  lemma PlainKeepsStem(base: string, token: string, suffix: string)
    requires |base| >= MIN_STEM_LENGTH
    requires suffix == "ing" || suffix == "ed" || suffix == "es" || suffix == "s"
    requires PlainRule(base, token, suffix)
    ensures Normal(token) == Normal(base)
  {
    LastChars(base);
    if suffix == "s" && EndsWith(base, "e") {
      var stem := Trim(base, 1);
      TrimRestore(base, "e");
      assert token == stem + "es";
      StripPlain(stem, "es");
      NormalStep(token);
      TailAbsorbed(stem);
      FinalEDrops(stem);
    } else {
      StripPlain(base, suffix);
      NormalStep(token);
      TailAbsorbed(base);
    }
  }

  lemma TailRulesKeepStem(base: string, token: string, suffix: string)
    requires |base| >= MIN_STEM_LENGTH
    requires suffix == "ing" || suffix == "ed"
    requires TailRules(base, token, suffix)
    ensures Normal(token) == Normal(base)
  {
    if FinalERule(base, token, suffix) {
      var stem := Trim(base, 1);
      TrimRestore(base, "e");
      StripPlain(stem, suffix);
      NormalStep(token);
      TailAbsorbed(stem);
      FinalEDrops(stem);
    } else {
      var doubled := base + base[|base| - 1..];
      StripPlain(doubled, suffix);
      TrimAppend(base, base[|base| - 1..]);
      assert Doubled(doubled);
      NormalStep(token);
    }
  }

  lemma YRuleKeepsStem(base: string, token: string, suffix: string)
    requires |base| >= MIN_STEM_LENGTH
    requires suffix == "es" || suffix == "ed"
    requires FinalYRule(base, token, suffix)
    ensures !EndsWith(base, "iy") ==> Normal(token) == Normal(base)
    ensures EndsWith(base, "iy") ==> Normal(token) == Normal(Trim(base, 1)) != Normal(base)
  {
    var stem := Trim(base, 1);
    TrimRestore(base, "y");
    StripPlain(stem + "i", suffix);
    NormalStep(token);
    LastChars(base);
    TailOfI(stem);
    if EndsWith(base, "iy") {
      YStays(base);
      NormalShortens(stem);
    }
  }

  /** Where an `i` is left: it doubles a preceding `i`, else becomes `y`. */
  lemma TailOfI(stem: string)
    requires |stem| >= 2
    ensures Tail(stem + "i") == if stem[|stem| - 1] == 'i' then stem else stem + "y"
  {
    LastChars(stem + "i");
    TrimAppend(stem, "i");
  }

  /** A token ending in `y`, not doubled, is already normal. */
  lemma YStays(token: string)
    requires |token| >= 2 && token[|token| - 1] == 'y' && !Doubled(token)
    ensures OneRound(token) == token
  {
    LastChars(token);
  }

  lemma {:induction false} NormalShortens(token: string)
    ensures |Normal(token)| <= |token|
    decreases |token|, EndsInI(token)
  {
    RoundLowersMeasure(token);
    if OneRound(token) != token { NormalShortens(OneRound(token)); }
  }

  /** The `y` to `i` derivation of an `iy` base is no other rule's derivation. */
  lemma StemOfDerivation(base: string, token: string)
    requires |base| >= MIN_STEM_LENGTH && Derives(base, token)
    ensures !IyException(base, token) ==> Normal(token) == Normal(base)
    ensures IyException(base, token) ==> Normal(token) == Normal(Trim(base, 1)) != Normal(base)
  {
    if FinalYRule(base, token, "es") {
      YRuleKeepsStem(base, token, "es");
    } else if FinalYRule(base, token, "ed") {
      YRuleKeepsStem(base, token, "ed");
    } else if TailRules(base, token, "ed") {
      TailRulesKeepStem(base, token, "ed");
    } else if TailRules(base, token, "ing") {
      TailRulesKeepStem(base, token, "ing");
    } else if PlainRule(base, token, "s") {
      PlainKeepsStem(base, token, "s");
    } else if PlainRule(base, token, "es") {
      PlainKeepsStem(base, token, "es");
    } else if PlainRule(base, token, "ed") {
      PlainKeepsStem(base, token, "ed");
    } else {
      PlainKeepsStem(base, token, "ing");
    }
  }

  /** Two tokens with a common base have equal stems exactly when the exception
      applies to both or to neither. */
  lemma SharedBaseStems(a: string, b: string, base: string)
    requires base in BaseSet(a) && base in BaseSet(b)
    ensures Canonical(a) == Canonical(b) <==> (IyException(base, a) <==> IyException(base, b))
  {
    BaseSetExact(a, base);
    BaseSetExact(b, base);
    if base != a { StemOfDerivation(base, a); DerivesLengthens(base, a); }
    if base != b { StemOfDerivation(base, b); DerivesLengthens(base, b); }
    if base == a && IyException(base, a) { DerivesLengthens(base, a); }
    if base == b && IyException(base, b) { DerivesLengthens(base, b); }
  }

  lemma TailShortensExactly(token: string)
    ensures (Tail(token) == token || |Tail(token)| < |token|) <==> !(EndsWith(token, "i") && !Doubled(token))
    ensures |Tail(token)| <= |token|
  {
    if EndsWith(token, "i") && !Doubled(token) {
      assert Tail(token)[|token| - 1] == 'y' != token[|token| - 1];
    }
  }

  lemma StripLeavesI(token: string)
    ensures Strip(token) != token ==> |Strip(token)| < |token| && !EndsWith(token, "i")
  {
    StripShortens(token);
    if |token| >= 2 && EndsWith(token, "i") {
      LastChars(token);
      StripNothing(token);
    }
  }

  /** The documented measure, exactly: a round shortens its token or changes
      nothing unless the token ends in an `i` that is not doubled, and then it
      keeps the length. */
  lemma RoundShortensExactly(token: string)
    ensures (OneRound(token) == token || |OneRound(token)| < |token|) <==> !(EndsWith(token, "i") && !Doubled(token))
  {
    StripLeavesI(token);
    TailShortensExactly(Strip(token));
  }

  /** So the length alone is no measure: `ski` takes a round to `sky`. */
  lemma LengthIsNotAMeasure()
    ensures OneRound("ski") == "sky" == Canonical("ski") && |"sky"| == |"ski"|
  {
    LastChars("ski");
    assert Trim("ski", 1) == "sk";
    StripNothing("ski");
    YStays("sky");
  }

  /** The claim of `morphology.py` as it holds: any shared base that does not
      end in `iy` forces equal stems. */
  lemma IntersectImpliesEqualStems(a: string, b: string, base: string)
    requires base in BaseSet(a) && base in BaseSet(b) && !EndsWith(base, "iy")
    ensures Canonical(a) == Canonical(b)
  {
    SharedBaseStems(a, b, base);
  }

  /** The claim unrestricted is false: `aiy` is a base of `aiies`. */
  lemma IyWitness()
    ensures BaseSetsIntersect("aiy", "aiies") && Canonical("aiy") != Canonical("aiies")
  {
    assert Trim("aiy", 1) == "ai";
    assert FinalYRule("aiy", "aiies", "es");
    BaseSetExact("aiies", "aiy");
    assert "aiy" in BaseSet("aiy") && "aiy" in BaseSet("aiies");
    SharedBaseStems("aiy", "aiies", "aiy");
    assert IyException("aiy", "aiies");
    if IyException("aiy", "aiy") { DerivesLengthens("aiy", "aiy"); }
  }

  /** The converse is false: `file` and `fill` reach one stem and share no base. */
  lemma EqualStemsWithoutBase()
    ensures Canonical("file") == Canonical("fill") && !BaseSetsIntersect("file", "fill")
  {
    FileAndFillMeet();
    NoSuffix("file");
    NoSuffix("fill");
  }

  lemma FileAndFillMeet()
    ensures Normal("file") == Normal("fill")
  {
    assert "file" == "fil" + "e";
    FinalEDrops("fil");
    assert Trim("fill", 1) == "fil";
    StripDoubled("fill");
    NormalStep("fill");
  }

  /** A token that ends like none of the suffixes is its own only base. */
  lemma NoSuffix(token: string)
    requires |token| >= 2 && token[|token| - 1] !in ['g', 'd', 's']
    ensures BaseSet(token) == {token}
  {
    LastChars(token);
  }
}
