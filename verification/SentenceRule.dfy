/** The documented sentence rule of `application/chunking.py`, and exactly when
    the code follows it. */
module SentenceRule {
  import opened Text
  import opened Chunking

  /** Where the sentence that a terminator at `end` closes stops. */
  function Behind(text: string, end: nat): (behind: nat)
    requires end < |text|
    ensures end < behind <= MatchEnd(text, end)
  {
    SkipClosing(text, end + 1)
  }

  /** The sentences when each ends behind its terminator and closing characters. */
  function DocumentedFrom(text: string, position: nat, from: nat): seq<string>
    requires position <= from <= |text|
    decreases |text| - from
  {
    var end := NextEnd(text, from);
    if end == |text| then Piece(text[position..])
    else
      var behind := Behind(text, end);
      Piece(text[position..behind]) + DocumentedFrom(text, behind, MatchEnd(text, end))
  }

  function Documented(text: string): seq<string> {
    DocumentedFrom(text, 0, 0)
  }

  /** From `position` on, whitespace stands between the terminators and their
      closing characters, and nothing else does. */
  predicate OnlyTerminators(text: string, position: nat, from: nat)
    requires position <= from <= |text|
    decreases |text| - from
  {
    var end := NextEnd(text, from);
    if end == |text| then Solid(text[position..]) == ""
    else Solid(text[position..end]) == "" && OnlyTerminators(text, Behind(text, end), MatchEnd(text, end))
  }

  /** A terminator with its closing characters starts and ends solid. */
  lemma MatchedSpan(text: string, end: nat)
    requires end < |text| && Terminator(text[end])
    ensures !IsSpace(text[end]) && !IsSpace(text[Behind(text, end) - 1])
  {
    ClosingSpan(text, end + 1);
  }

  lemma {:induction false} ClosingSpan(text: string, i: nat)
    requires 0 < i <= |text|
    ensures SkipClosing(text, i) == i || !IsSpace(text[SkipClosing(text, i) - 1])
    decreases |text| - i
  {
    if i < |text| && Closing(text[i]) { ClosingSpan(text, i + 1); }
  }

  lemma {:induction false} StripSpacesAfter(text: string, gap: string)
    requires Solid(gap) == ""
    ensures StripRight(IsSpace, text + gap) == StripRight(IsSpace, text)
  {
    SolidBlank(gap);
    if gap == "" {
      assert text + gap == text;
    } else {
      var shorter := gap[..|gap| - 1];
      SolidBlank(shorter);
      assert (text + gap)[..|text + gap| - 1] == text + shorter;
      StripSpacesAfter(text, shorter);
    }
  }

  lemma {:induction false} StripSpacesBefore(gap: string, text: string)
    requires Solid(gap) == ""
    ensures StripLeft(IsSpace, gap + text) == StripLeft(IsSpace, text)
  {
    SolidBlank(gap);
    if gap == "" {
      assert gap + text == text;
    } else {
      assert (gap + text)[1..] == gap[1..] + text;
      SolidBlank(gap[1..]);
      StripSpacesBefore(gap[1..], text);
    }
  }

  /** A span with only whitespace around it is the piece. */
  lemma PieceOfSpan(before: string, span: string, after: string)
    requires Solid(before) == "" && Solid(after) == ""
    requires span != "" && !IsSpace(span[0]) && !IsSpace(span[|span| - 1])
    ensures Piece(before + (span + after)) == [span]
  {
    StripSpacesBefore(before, span + after);
    StripSpacesAfter(span, after);
  }

  lemma PieceSize(text: string)
    ensures Piece(text) == [] <==> Solid(text) == ""
    ensures |Piece(text)| <= 1
  {
    PieceKeeps(text);
    if Solid(text) == "" {
      SolidBlank(text);
      StripSpacesBefore(text, "");
      assert text + "" == text;
    }
  }

  lemma SolidStart(text: string)
    requires text != "" && !IsSpace(text[0])
    ensures Solid(text) != ""
  {
  }

  /** Texts with different solid characters are different pieces. */
  lemma SamePieceSameSolid(a: string, b: string)
    requires Piece(a) == Piece(b)
    ensures Solid(a) == Solid(b)
  {
    PieceKeeps(a);
    PieceKeeps(b);
  }

  /** A gap before a span: blank exactly when it leaves no piece of its own. */
  lemma GapThenSpan(gap: string, span: string)
    requires span != "" && !IsSpace(span[0]) && !IsSpace(span[|span| - 1])
    ensures |Piece(gap + span)| == 1 && Piece(gap) != Piece(gap + span)
    ensures Solid(gap) == "" ==> Piece(gap + span) == [span] && Piece(gap) == []
    ensures Solid(gap) != "" ==> |Piece(gap)| == 1
  {
    SolidStart(span);
    SolidConcat(gap, span);
    PieceSize(gap);
    PieceSize(gap + span);
    if Piece(gap) == Piece(gap + span) { SamePieceSameSolid(gap, gap + span); }
    if Solid(gap) == "" {
      assert span + "" == span;
      PieceOfSpan(gap, span, "");
    }
  }

  /** A gap behind a span: blank exactly when it adds nothing to the piece. */
  lemma SpanThenGap(span: string, gap: string)
    requires span != "" && !IsSpace(span[0]) && !IsSpace(span[|span| - 1])
    ensures |Piece(span + gap)| == 1 && (Piece(span + gap) == [span] <==> Solid(gap) == "")
  {
    SolidStart(span);
    SolidConcat(span, gap);
    PieceSize(span + gap);
    PieceKeeps(span + gap);
    SolidAllOne(span);
    if Solid(gap) == "" {
      assert "" + (span + gap) == span + gap;
      PieceOfSpan("", span, gap);
    }
  }

  lemma LastPiece(span: string, gap: string)
    requires span != "" && !IsSpace(span[0]) && !IsSpace(span[|span| - 1])
    ensures Piece(span + gap) == [span] + Piece(gap) <==> Solid(gap) == ""
  {
    SpanThenGap(span, gap);
    PieceSize(gap);
    assert |[span] + Piece(gap)| == 1 + |Piece(gap)|;
  }

  /** Two lists that agree behind their heads exactly when `only` holds. */
  lemma HeadsDecide(code: seq<string>, codeRest: seq<string>, span: string, rule: seq<string>, ruleRest: seq<string>,
                    next: string, blank: bool, only: bool)
    requires |code| == 1
    requires blank ==> code == [span] && rule == [next]
    requires !blank ==> code != [span]
    requires codeRest == [next] + ruleRest <==> only
    ensures code + codeRest == [span] + (rule + ruleRest) <==> blank && only
  {
    var a, b := code + codeRest, [span] + (rule + ruleRest);
    assert a[0] == code[0] && b[0] == span;
    assert a[1..] == codeRest && b[1..] == rule + ruleRest;
    assert a == [a[0]] + a[1..] && b == [b[0]] + b[1..];
  }

  /** Behind a span the code's next piece still holds it, the rule's does not. */
  lemma {:induction false} RuleFromExactly(text: string, at: nat, position: nat, from: nat)
    requires at < position <= from <= |text|
    requires !IsSpace(text[at]) && !IsSpace(text[position - 1])
    ensures SentencesFrom(text, at, from) == [text[at..position]] + DocumentedFrom(text, position, from)
       <==> OnlyTerminators(text, position, from)
    decreases |text| - from
  {
    var end := NextEnd(text, from);
    if end == |text| {
      assert text[at..] == text[at..position] + text[position..];
      LastPiece(text[at..position], text[position..]);
    } else {
      RuleStep(text, at, position, end);
      var behind, next := Behind(text, end), MatchEnd(text, end);
      RuleFromExactly(text, end, behind, next);
      RuleContinues(text, at, position, from, end, behind, next);
    }
  }

  /** What holds behind a match decides what holds at the match. */
  lemma RuleContinues(text: string, at: nat, position: nat, from: nat, end: nat, behind: nat, next: nat)
    requires at < position <= from <= |text| && end == NextEnd(text, from) < |text|
    requires behind == Behind(text, end) && next == MatchEnd(text, end)
    requires |Piece(text[at..end])| == 1
    requires Solid(text[position..end]) == "" ==>
      Piece(text[at..end]) == [text[at..position]] && Piece(text[position..behind]) == [text[end..behind]]
    requires Solid(text[position..end]) != "" ==> Piece(text[at..end]) != [text[at..position]]
    requires SentencesFrom(text, end, next) == [text[end..behind]] + DocumentedFrom(text, behind, next)
        <==> OnlyTerminators(text, behind, next)
    ensures SentencesFrom(text, at, from) == [text[at..position]] + DocumentedFrom(text, position, from)
       <==> OnlyTerminators(text, position, from)
  {
    HeadsDecide(Piece(text[at..end]), SentencesFrom(text, end, next), text[at..position],
                Piece(text[position..behind]), DocumentedFrom(text, behind, next), text[end..behind],
                Solid(text[position..end]) == "", OnlyTerminators(text, behind, next));
    SentencesUnfold(text, at, from, end);
    DocumentUnfolds(text, position, from, end, behind);
    OnlyUnfolds(text, position, from, end, behind);
  }

  /** One match: equal first pieces mean a blank gap, and then the rule's next
      piece is the matched span. */
  lemma RuleStep(text: string, at: nat, position: nat, end: nat)
    requires at < position <= end < |text| && Terminator(text[end])
    requires !IsSpace(text[at]) && !IsSpace(text[position - 1])
    ensures |Piece(text[at..end])| == 1
    ensures !IsSpace(text[end]) && !IsSpace(text[Behind(text, end) - 1])
    ensures Solid(text[position..end]) == "" ==>
      && Piece(text[at..end]) == [text[at..position]]
      && Piece(text[position..Behind(text, end)]) == [text[end..Behind(text, end)]]
    ensures Solid(text[position..end]) != "" ==> Piece(text[at..end]) != [text[at..position]]
  {
    MatchedSpan(text, end);
    var span, gap, next := text[at..position], text[position..end], text[end..Behind(text, end)];
    assert text[at..end] == span + gap;
    assert text[position..Behind(text, end)] == gap + next;
    GapThenSpan(gap, next);
    SpanThenGap(span, gap);
  }

  lemma FirstStep(text: string, position: nat, end: nat)
    requires position <= end < |text| && Terminator(text[end])
    ensures !IsSpace(text[end]) && !IsSpace(text[Behind(text, end) - 1])
    ensures Solid(text[position..end]) == "" ==>
      && Piece(text[position..end]) == []
      && Piece(text[position..Behind(text, end)]) == [text[end..Behind(text, end)]]
    ensures Solid(text[position..end]) != "" ==>
      && |Piece(text[position..end])| == 1 && |Piece(text[position..Behind(text, end)])| == 1
      && Piece(text[position..end]) != Piece(text[position..Behind(text, end)])
  {
    MatchedSpan(text, end);
    var gap, next := text[position..end], text[end..Behind(text, end)];
    assert text[position..Behind(text, end)] == gap + next;
    GapThenSpan(gap, next);
  }

  lemma DocumentUnfolds(text: string, position: nat, from: nat, end: nat, behind: nat)
    requires position <= from <= |text| && end == NextEnd(text, from) < |text|
    requires behind == Behind(text, end)
    ensures DocumentedFrom(text, position, from) == Piece(text[position..behind]) + DocumentedFrom(text, behind, MatchEnd(text, end))
  {
  }

  lemma OnlyUnfolds(text: string, position: nat, from: nat, end: nat, behind: nat)
    requires position <= from <= |text| && end == NextEnd(text, from) < |text|
    requires behind == Behind(text, end)
    ensures OnlyTerminators(text, position, from) <==>
      Solid(text[position..end]) == "" && OnlyTerminators(text, behind, MatchEnd(text, end))
  {
  }

  lemma RuleStartsExactly(text: string, position: nat, from: nat, end: nat)
    requires position <= from <= |text| && end == NextEnd(text, from) < |text|
    ensures SentencesFrom(text, position, from) == DocumentedFrom(text, position, from) <==> OnlyTerminators(text, position, from)
  {
    FirstStep(text, position, end);
    var behind, next := Behind(text, end), MatchEnd(text, end);
    RuleFromExactly(text, end, behind, next);
    var codeRest, ruleRest := SentencesFrom(text, end, next), DocumentedFrom(text, behind, next);
    FirstDecides(Piece(text[position..end]), codeRest, Piece(text[position..behind]), ruleRest, text[end..behind],
                 Solid(text[position..end]) == "", OnlyTerminators(text, behind, next));
    SentencesUnfold(text, position, from, end);
    DocumentUnfolds(text, position, from, end, behind);
    OnlyUnfolds(text, position, from, end, behind);
  }

  /** The documented rule, exactly: the code follows it on texts without a match
      and on texts of nothing but terminators, and on no other. */
  lemma RuleHoldsExactly(text: string)
    ensures Sentences(text) == Documented(text) <==> NextEnd(text, 0) == |text| || OnlyTerminators(text, 0, 0)
  {
    if NextEnd(text, 0) < |text| { RuleStartsExactly(text, 0, 0, NextEnd(text, 0)); }
  }

  lemma FirstDecides(code: seq<string>, codeRest: seq<string>, rule: seq<string>, ruleRest: seq<string>,
                     next: string, blank: bool, only: bool)
    requires blank ==> code == [] && rule == [next]
    requires !blank ==> |code| == 1 && |rule| == 1 && code != rule
    requires codeRest == [next] + ruleRest <==> only
    ensures code + codeRest == rule + ruleRest <==> blank && only
  {
    if blank {
      assert code + codeRest == codeRest;
    } else {
      assert (code + codeRest)[0] == code[0] && (rule + ruleRest)[0] == rule[0];
    }
  }

  /** `A. B.` is cut before each terminator, against the documented rule that a
      sentence ends with its terminator. */
  lemma CutsFallBeforeTerminators()
    ensures Sentences("A. B.") == ["A", ". B", "."]
  {
    var text := "A. B.";
    assert SkipClosing(text, 2) == 2 && IsSpace(text[2]) && EndsAt(text, 1);
    assert SkipClosing(text, 5) == 5 && EndsAt(text, 4);
    assert NextEnd(text, 1) == 1 && NextEnd(text, 0) == 1;
    assert SkipSpaces(text, 3) == 3 && MatchEnd(text, 1) == 3;
    assert NextEnd(text, 4) == 4 && NextEnd(text, 3) == 4;
    assert SkipSpaces(text, 5) == 5 && MatchEnd(text, 4) == 5 && NextEnd(text, 5) == 5;
    assert text[0..1] == "A" && text[1..4] == ". B" && text[4..] == ".";
    NothingToStrip("A");
    NothingToStrip(". B");
    NothingToStrip(".");
  }

  lemma NothingToStrip(text: string)
    requires text != "" && !IsSpace(text[0]) && !IsSpace(text[|text| - 1])
    ensures Piece(text) == [text]
  {
  }
}
