/** Where `application/chunking.py` cuts paragraphs: at the runs of blank lines,
    all of them and nowhere else. */
module ParagraphRule {
  import opened Text
  import opened TextLaws
  import opened Chunking

  predicate IsPad(c: char) { c == ' ' || c == '\t' }
  predicate IsBlank(c: char) { IsPad(c) || c == '\n' }

  /** From `s` on, the line has a character other than a space or a tab. */
  ghost predicate TextFrom(text: string, s: nat) {
    exists m :: s <= m < |text| && !IsBlank(text[m]) && forall k :: s <= k < m ==> IsPad(text[k])
  }

  ghost predicate LineStart(text: string, s: nat) {
    s <= |text| && (s == 0 || text[s - 1] == '\n')
  }

  /** No line of the text is blank. */
  ghost predicate NoBlankLine(text: string) {
    forall s: nat :: LineStart(text, s) ==> TextFrom(text, s)
  }

  /** Between two newlines, and of nothing but spaces, tabs and newlines. */
  ghost predicate IsGap(gap: string) {
    && |gap| >= 2 && gap[0] == '\n' && gap[|gap| - 1] == '\n'
    && forall i :: 0 <= i < |gap| ==> IsBlank(gap[i])
  }

  ghost function Woven(parts: seq<string>, gaps: seq<string>): string
    requires |parts| == |gaps| + 1
    decreases |gaps|
  {
    if gaps == [] then parts[0] else parts[0] + (gaps[0] + Woven(parts[1..], gaps[1..]))
  }

  /** Paragraphs without a blank line, parted by gaps. */
  ghost predicate Fits(parts: seq<string>, gaps: seq<string>) {
    && |parts| == |gaps| + 1
    && (forall i :: 0 <= i < |parts| ==> NoBlankLine(parts[i]))
    && (forall i :: 0 <= i < |gaps| ==> IsGap(gaps[i]))
  }

  ghost predicate AreParagraphs(text: string, parts: seq<string>) {
    exists gaps :: Fits(parts, gaps) && text == Woven(parts, gaps)
  }

  // ----- The scans -----

  lemma Blanks(c: char)
    ensures LineBlank(c) <==> IsPad(c)
    ensures ParagraphBlank(c) <==> IsBlank(c)
  {
  }

  lemma {:induction false} SkipBlanksStops(text: string, i: nat)
    requires i <= |text|
    ensures var j := SkipBlanks(text, i); j < |text| ==> !IsPad(text[j])
    ensures forall k :: i <= k < SkipBlanks(text, i) ==> IsPad(text[k])
    decreases |text| - i
  {
    if i < |text| && LineBlank(text[i]) { SkipBlanksStops(text, i + 1); }
  }

  /** The scan past blanks ends on text exactly when the line has some. */
  lemma SkipBlanksFinds(text: string, s: nat)
    requires s <= |text|
    ensures var j := SkipBlanks(text, s); TextFrom(text, s) <==> j < |text| && text[j] != '\n'
  {
    var j := SkipBlanks(text, s);
    SkipBlanksStops(text, s);
    if TextFrom(text, s) {
      var m :| s <= m < |text| && !IsBlank(text[m]) && forall k :: s <= k < m ==> IsPad(text[k]);
      assert m == j;
    }
  }

  lemma TextFromWithin(before: string, text: string, behind: string, s: nat)
    requires TextFrom(text, s)
    ensures TextFrom(before + text + behind, |before| + s)
  {
    var m :| s <= m < |text| && !IsBlank(text[m]) && forall k :: s <= k < m ==> IsPad(text[k]);
    var all := before + text + behind;
    assert forall k :: 0 <= k < |text| ==> all[|before| + k] == text[k];
    var n := |before| + m;
    assert !IsBlank(all[n]) && forall k :: |before| + s <= k < n ==> all[k] == text[k - |before|];
  }

  lemma {:induction false} MoreBlankLinesEnds(text: string, i: nat)
    requires i <= |text|
    ensures var j := MoreBlankLines(text, i); j == i || text[j - 1] == '\n'
    ensures var k := SkipBlanks(text, MoreBlankLines(text, i)); !(k < |text| && text[k] == '\n')
    decreases |text| - i
  {
    var k := SkipBlanks(text, i);
    if k < |text| && text[k] == '\n' { MoreBlankLinesEnds(text, k + 1); }
  }

  /** Blank lines up to `end` and text behind it: the scan stops at `end`. */
  lemma {:induction false} MoreBlankLinesTo(text: string, i: nat, end: nat)
    requires i <= end <= |text| && TextFrom(text, end)
    requires forall k :: i <= k < end ==> IsBlank(text[k])
    requires i < end ==> text[end - 1] == '\n'
    ensures MoreBlankLines(text, i) == end
    decreases |text| - i
  {
    var k := SkipBlanks(text, i);
    SkipBlanksStops(text, i);
    SkipBlanksFinds(text, end);
    if i == end {
    } else {
      assert k < end by { assert text[end - 1] == '\n'; }
      MoreBlankLinesTo(text, k + 1, end);
    }
  }

  lemma NextRunStep(text: string, i: nat)
    requires i < |text| && BlankRun(text, i) == i
    ensures NextRun(text, i) == NextRun(text, i + 1)
  {
  }

  lemma NextRunHere(text: string, i: nat)
    requires i <= |text| && (i < |text| ==> BlankRun(text, i) > i)
    ensures NextRun(text, i) == i
  {
  }

  ghost predicate NoRun(text: string, i: nat, run: nat)
    requires run <= |text|
  {
    forall k :: i <= k < run ==> BlankRun(text, k) == k
  }

  lemma {:induction false} NextRunIs(text: string, i: nat, run: nat)
    requires i <= run <= |text| && (run < |text| ==> BlankRun(text, run) > run) && NoRun(text, i, run)
    ensures NextRun(text, i) == run
    decreases run - i
  {
    if i < run {
      NextRunStep(text, i);
      NextRunIs(text, i + 1, run);
    } else {
      NextRunHere(text, i);
    }
  }

  lemma {:induction false} BeforeRun(text: string, i: nat)
    requires i <= |text|
    ensures forall k :: i <= k < NextRun(text, i) ==> BlankRun(text, k) == k
    decreases |text| - i
  {
    if i < |text| && BlankRun(text, i) == i { BeforeRun(text, i + 1); }
  }

  // ----- Any such paragraphs are those of the splitter -----

  /** Inside a paragraph no run starts. */
  lemma NoRunInside(part: string, behind: string, k: nat)
    requires NoBlankLine(part) && k < |part|
    ensures BlankRun(part + behind, k) == k
  {
    var text := part + behind;
    if text[k] == '\n' {
      assert LineStart(part, k + 1);
      TextFromWithin("", part, behind, k + 1);
      assert "" + part + behind == text;
      SkipBlanksFinds(text, k + 1);
    }
  }

  /** Blanks between two newlines and text behind them are one run. */
  lemma RunBetween(text: string, start: nat, end: nat)
    requires start + 2 <= end <= |text| && text[start] == '\n' && text[end - 1] == '\n' && TextFrom(text, end)
    requires forall k :: start <= k < end ==> IsBlank(text[k])
    ensures BlankRun(text, start) == end
  {
    var k := SkipBlanks(text, start + 1);
    SkipBlanksStops(text, start + 1);
    assert !IsPad(text[end - 1]);
    assert k < end && text[k] == '\n';
    MoreBlankLinesTo(text, k + 1, end);
  }

  /** At a gap the run is the gap. */
  lemma RunIsGap(part: string, gap: string, rest: string)
    requires IsGap(gap) && TextFrom(rest, 0)
    ensures BlankRun(part + (gap + rest), |part|) == |part| + |gap|
  {
    var text, start, end := part + (gap + rest), |part|, |part| + |gap|;
    assert text == (part + gap) + rest + "";
    TextFromWithin(part + gap, rest, "", 0);
    assert forall k :: start <= k < end ==> text[k] == gap[k - start];
    RunBetween(text, start, end);
  }

  lemma FirstLineHasText(parts: seq<string>, gaps: seq<string>)
    requires Fits(parts, gaps)
    ensures TextFrom(Woven(parts, gaps), 0)
  {
    assert NoBlankLine(parts[0]) && LineStart(parts[0], 0);
    if gaps == [] {
    } else {
      var behind := gaps[0] + Woven(parts[1..], gaps[1..]);
      TextFromWithin("", parts[0], behind, 0);
      assert "" + parts[0] + behind == Woven(parts, gaps);
    }
  }

  lemma FitsBehind(parts: seq<string>, gaps: seq<string>)
    requires Fits(parts, gaps) && gaps != []
    ensures Fits(parts[1..], gaps[1..]) && NoBlankLine(parts[0]) && IsGap(gaps[0])
  {
    assert forall i :: 0 <= i < |parts[1..]| ==> parts[1..][i] == parts[i + 1];
    assert forall i :: 0 <= i < |gaps[1..]| ==> gaps[1..][i] == gaps[i + 1];
  }

  /** A text without a blank line is one part. */
  lemma OnePart(part: string)
    requires NoBlankLine(part)
    ensures SplitRuns(part) == [part]
  {
    forall k | 0 <= k < |part| ensures BlankRun(part, k) == k {
      assert part + "" == part;
      NoRunInside(part, "", k);
    }
    NextRunIs(part, 0, |part|);
  }

  lemma PartThenGap(part: string, gap: string, rest: string)
    requires NoBlankLine(part) && IsGap(gap) && TextFrom(rest, 0)
    ensures var text := part + (gap + rest); NextRun(text, 0) == |part| && BlankRun(text, |part|) == |part| + |gap|
  {
    var text := part + (gap + rest);
    RunIsGap(part, gap, rest);
    forall k | 0 <= k < |part| ensures BlankRun(text, k) == k { NoRunInside(part, gap + rest, k); }
    NextRunIs(text, 0, |part|);
  }

  lemma SplitRunsAt(text: string, i: nat, j: nat)
    requires i == NextRun(text, 0) < |text| && j == BlankRun(text, i)
    ensures SplitRuns(text) == [text[..i]] + SplitRuns(text[j..])
  {
  }

  lemma {:induction false} RunsAreParts(parts: seq<string>, gaps: seq<string>)
    requires Fits(parts, gaps)
    ensures SplitRuns(Woven(parts, gaps)) == parts
    decreases |gaps|
  {
    if gaps == [] {
      assert NoBlankLine(parts[0]);
      OnePart(parts[0]);
    } else {
      FitsBehind(parts, gaps);
      FirstLineHasText(parts[1..], gaps[1..]);
      RunsAreParts(parts[1..], gaps[1..]);
      PartBefore(parts[0], gaps[0], Woven(parts[1..], gaps[1..]), parts[1..]);
      WovenAt(parts, gaps);
      assert parts == [parts[0]] + parts[1..];
    }
  }

  lemma WovenAt(parts: seq<string>, gaps: seq<string>)
    requires |parts| == |gaps| + 1 && gaps != []
    ensures Woven(parts, gaps) == parts[0] + (gaps[0] + Woven(parts[1..], gaps[1..]))
  {
  }

  lemma PartBefore(part: string, gap: string, rest: string, parts: seq<string>)
    requires NoBlankLine(part) && IsGap(gap) && TextFrom(rest, 0) && SplitRuns(rest) == parts
    ensures SplitRuns(part + (gap + rest)) == [part] + parts
  {
    var text := part + (gap + rest);
    PartThenGap(part, gap, rest);
    SplitRunsAt(text, |part|, |part| + |gap|);
    assert text[..|part|] == part && text[|part| + |gap|..] == rest;
  }

  // ----- And those of the splitter are such -----

  /** Text at both ends. */
  ghost predicate Trimmed(text: string) {
    TextFrom(text, 0) && !IsBlank(text[|text| - 1])
  }

  /** Up to the first run no line is blank. */
  lemma LineHasText(text: string, s: nat)
    requires Trimmed(text) && s <= NextRun(text, 0) && LineStart(text, s)
    ensures TextFrom(text[..NextRun(text, 0)], s)
  {
    var i, m := NextRun(text, 0), SkipBlanks(text, s);
    BeforeRun(text, 0);
    SkipBlanksStops(text, s);
    SkipBlanksFinds(text, s);
    if s > 0 { assert BlankRun(text, s - 1) == s - 1; }
    assert !IsBlank(text[|text| - 1]);
    assert m < |text| && text[m] != '\n';
    assert m < i by {
      if i < |text| { assert BlankRun(text, i) > i && text[i] == '\n'; }
    }
    var p := text[..i];
    assert !IsBlank(p[m]) && forall k :: s <= k < m ==> IsPad(p[k]);
  }

  lemma FirstPart(text: string)
    requires Trimmed(text)
    ensures NoBlankLine(text[..NextRun(text, 0)])
  {
    var i := NextRun(text, 0);
    forall s: nat | LineStart(text[..i], s) ensures TextFrom(text[..i], s) { LineHasText(text, s); }
  }

  lemma FirstGap(text: string, i: nat, j: nat)
    requires i < |text| && j == BlankRun(text, i) > i
    ensures IsGap(text[i..j])
    ensures var k := SkipBlanks(text, j); !(k < |text| && text[k] == '\n')
  {
    var k := SkipBlanks(text, i + 1);
    MoreBlankLinesEnds(text, k + 1);
    forall n | i <= n < j ensures IsBlank(text[n]) { Blanks(text[n]); }
  }

  lemma RestTrimmed(text: string, j: nat)
    requires j <= |text| && text != "" && !IsBlank(text[|text| - 1]) && (j == 0 || IsBlank(text[j - 1]))
    requires var k := SkipBlanks(text, j); !(k < |text| && text[k] == '\n')
    ensures j < |text| && Trimmed(text[j..])
  {
    var n, rest := SkipBlanks(text, j), text[j..];
    SkipBlanksStops(text, j);
    assert j < |text| && n < |text| && !IsBlank(text[n]);
    assert !IsBlank(rest[n - j]) && forall l :: 0 <= l < n - j ==> rest[l] == text[j + l];
    assert rest[|rest| - 1] == text[|text| - 1];
  }

  lemma {:induction false} PartsAreRuns(text: string) returns (gaps: seq<string>)
    requires Trimmed(text)
    ensures Fits(SplitRuns(text), gaps) && text == Woven(SplitRuns(text), gaps)
    decreases |text|
  {
    var i := NextRun(text, 0);
    FirstPart(text);
    if i == |text| {
      assert text[..i] == text;
      gaps := [];
    } else {
      var j := BlankRun(text, i);
      RestOfRun(text, i, j);
      gaps := PartsAreRuns(text[j..]);
      SplitRunsAt(text, i, j);
      RunBefore(text, i, j, SplitRuns(text[j..]), gaps, SplitRuns(text));
      gaps := [text[i..j]] + gaps;
    }
  }

  lemma RestOfRun(text: string, i: nat, j: nat)
    requires Trimmed(text) && i < |text| && j == BlankRun(text, i) > i
    ensures j < |text| && Trimmed(text[j..])
  {
    FirstGap(text, i, j);
    assert text[i..j][|text[i..j]| - 1] == text[j - 1];
    RestTrimmed(text, j);
  }

  lemma RunBefore(text: string, i: nat, j: nat, parts: seq<string>, gaps: seq<string>, all: seq<string>)
    requires i < |text| && j == BlankRun(text, i) > i && NoBlankLine(text[..i])
    requires Fits(parts, gaps) && text[j..] == Woven(parts, gaps) && all == [text[..i]] + parts
    ensures Fits(all, [text[i..j]] + gaps) && text == Woven(all, [text[i..j]] + gaps)
  {
    FirstGap(text, i, j);
    FitsBefore(text[..i], text[i..j], parts, gaps);
    assert text == text[..i] + (text[i..j] + text[j..]);
  }

  lemma FitsBefore(part: string, gap: string, parts: seq<string>, gaps: seq<string>)
    requires NoBlankLine(part) && IsGap(gap) && Fits(parts, gaps)
    ensures Fits([part] + parts, [gap] + gaps)
    ensures Woven([part] + parts, [gap] + gaps) == part + (gap + Woven(parts, gaps))
  {
    var p, g := [part] + parts, [gap] + gaps;
    assert p[1..] == parts && g[1..] == gaps;
    assert forall i :: 0 < i < |p| ==> p[i] == parts[i - 1];
    assert forall i :: 0 < i < |g| ==> g[i] == gaps[i - 1];
  }

  // ----- The whole text -----

  lemma {:induction false} NoneBlank(parts: seq<string>)
    requires forall i :: 0 <= i < |parts| ==> NoBlankLine(parts[i])
    ensures KeepNonBlank(parts) == parts
  {
    if parts != [] {
      assert NoBlankLine(parts[0]) && LineStart(parts[0], 0);
      PartHasText(parts[0]);
      NoneBlank(parts[1..]);
      assert parts == [parts[0]] + parts[1..];
    }
  }

  lemma PartHasText(part: string)
    requires TextFrom(part, 0)
    ensures StripChars(ParagraphBlank, part) != ""
  {
    var m :| 0 <= m < |part| && !IsBlank(part[m]);
    Blanks(part[m]);
    StripsToNothing(ParagraphBlank, part);
    assert part[m] in part;
  }

  lemma StrippedIsTrimmed(text: string)
    ensures var core := StripChars(ParagraphBlank, text); core != "" ==> Trimmed(core)
  {
    var core := StripChars(ParagraphBlank, text);
    StripIsCore(ParagraphBlank, text);
    if core != "" {
      Blanks(core[0]);
      Blanks(core[|core| - 1]);
    }
  }

  /** The paragraphs of a text without its outer blanks are the one way to part
      it by gaps into texts without a blank line. */
  lemma ParagraphsExactly(text: string, parts: seq<string>)
    ensures var core := StripChars(ParagraphBlank, LineFeeds(text));
      if core == "" then Paragraphs(text) == [] else AreParagraphs(core, parts) <==> parts == Paragraphs(text)
  {
    var core := StripChars(ParagraphBlank, LineFeeds(text));
    if core != "" {
      StrippedIsTrimmed(LineFeeds(text));
      var gaps := PartsAreRuns(core);
      NoneBlank(SplitRuns(core));
      assert AreParagraphs(core, Paragraphs(text));
      if AreParagraphs(core, parts) {
        var other :| Fits(parts, other) && core == Woven(parts, other);
        RunsAreParts(parts, other);
      }
    }
  }
}
