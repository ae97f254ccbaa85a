/** Body provenance from source files to body units: what
    `infrastructure/jsmastery_adapter.py` names is what
    `application/chunking.py` finds, or the record fails. */
module Provenance {
  import opened Options
  import opened Text
  import opened Chunking
  import opened BodyUnits
  import opened Adapter

  // ----- Text behind every fenced heading line -----

  /** Reading back from the end, text stands before any heading line, if there
      is text at all. */
  predicate GoodEnd(lines: seq<string>) {
    if lines == [] then true
    else
      var last := lines[|lines| - 1];
      if Solid(last) != "" then !IsH2(last) else GoodEnd(lines[..|lines| - 1])
  }

  lemma {:induction false} GoodEndWithText(lines: seq<string>)
    requires GoodEnd(lines) && SolidAll(lines) != ""
    ensures EndsSolid(lines)
  {
    if lines != [] {
      var front, last := lines[..|lines| - 1], lines[|lines| - 1];
      assert lines == front + [last];
      SolidAllConcat(front, [last]);
      SolidAllOne(last);
      if Solid(last) == "" { GoodEndWithText(front); }
    }
  }

  lemma {:induction false} GoodEndConcat(a: seq<string>, b: seq<string>)
    requires GoodEnd(a) && GoodEnd(b)
    ensures GoodEnd(a + b)
  {
    if b == [] {
      assert a + b == a;
    } else {
      var front := b[..|b| - 1];
      assert (a + b)[..|a + b| - 1] == a + front;
      if Solid(b[|b| - 1]) == "" { GoodEndConcat(a, front); }
    }
  }

  lemma {:induction false} GoodEndTail(line: string, lines: seq<string>)
    requires GoodEnd([line] + lines)
    ensures GoodEnd(lines)
  {
    if lines != [] {
      var front := lines[..|lines| - 1];
      assert ([line] + lines)[..|lines|] == [line] + front;
      if Solid(lines[|lines| - 1]) == "" { GoodEndTail(line, front); }
    }
  }

  /** Enough: behind every heading line stands a line of text. */
  lemma {:induction false} GoodEndIf(lines: seq<string>)
    requires forall k :: 0 <= k < |lines| && IsH2(lines[k]) ==> TextBehind(lines, k)
    ensures GoodEnd(lines)
  {
    if lines != [] {
      var front, last := lines[..|lines| - 1], |lines| - 1;
      assert IsH2(lines[last]) ==> TextBehind(lines, last);
      if Solid(lines[last]) == "" {
        forall k | 0 <= k < |front| && IsH2(front[k]) ensures TextBehind(front, k) {
          assert IsH2(lines[k]);
          var l :| k < l < |lines| && Solid(lines[l]) != "" && !IsH2(lines[l]);
          assert front[l] == lines[l];
        }
        GoodEndIf(front);
      }
    }
  }

  ghost predicate TextBehind(lines: seq<string>, k: int) {
    exists l :: 0 <= l < |lines| && k < l && Solid(lines[l]) != "" && !IsH2(lines[l])
  }

  lemma {:induction false} GoodEndStripLeft(text: string)
    requires GoodEnd(Lines(text))
    ensures GoodEnd(Lines(StripLeft(Newline, text)))
  {
    if text != "" && text[0] == '\n' {
      GoodEndTail("", Lines(text[1..]));
      GoodEndStripLeft(text[1..]);
    }
  }

  lemma {:induction false} GoodEndStripRight(text: string)
    requires GoodEnd(Lines(text))
    ensures GoodEnd(Lines(StripRight(Newline, text)))
  {
    if text != "" && text[|text| - 1] == '\n' {
      var front := text[..|text| - 1];
      assert text == front + "\n" + "";
      LinesAppend(front, "");
      assert (Lines(front) + [""])[..|Lines(front)|] == Lines(front);
      GoodEndStripRight(front);
    }
  }

  lemma GoodEndBody(body: seq<string>)
    requires GoodEnd(body) && forall line :: line in body ==> '\n' !in line
    ensures GoodEnd(Lines(StripChars(Newline, Join("\n", body))))
  {
    if body != [] {
      LinesJoin(body);
    } else {
      assert GoodEnd([""]) by { assert [""][..0] == []; }
    }
    GoodEndStripLeft(Join("\n", body));
    GoodEndStripRight(StripLeft(Newline, Join("\n", body)));
  }

  lemma GoodEndAppend(a: string, b: string)
    requires GoodEnd(Lines(a)) && GoodEnd(Lines(b))
    ensures GoodEnd(Lines(a + "\n\n" + b))
  {
    assert a + "\n\n" + b == a + "\n" + ("" + "\n" + b);
    LinesAppend(a, "" + "\n" + b);
    LinesAppend("", b);
    assert GoodEnd([""]) by { assert [""][..0] == []; }
    GoodEndConcat([""], Lines(b));
    GoodEndConcat(Lines(a), [""] + Lines(b));
  }

  // ----- Blocks end well -----

  lemma {:induction false} SkipSpaceSolid(line: string)
    ensures Solid(SkipSpace(line)) == Solid(line)
  {
    if line != "" && IsSpace(line[0]) { SkipSpaceSolid(line[1..]); }
  }

  lemma MarkIsText(line: string)
    requires MarkOf(line).Some?
    ensures Solid(line) != "" && !IsH2(line)
  {
    SkipSpaceSolid(line);
    var rest := SkipSpace(line);
    assert rest != "" && (rest[0] == '`' || rest[0] == '~');
  }

  /** The line that closes the fence around a fenced line. */
  lemma ClosingLine(lines: seq<string>, k: nat) returns (close: nat)
    requires k in Fenced(lines)
    ensures k <= close < |lines| && Solid(lines[close]) != "" && !IsH2(lines[close])
    ensures forall l :: k <= l <= close ==> l in Fenced(lines)
  {
    var marks := Marks(lines);
    var f := FenceAround(marks, k);
    close := f.to;
    assert marks[close].Some? && marks[close] == MarkOf(lines[close]);
    MarkIsText(lines[close]);
    forall l | k <= l <= close ensures l in Fenced(lines) {
      CoverMembers(Fences(marks, 0), l);
    }
  }

  lemma FenceAround(marks: seq<Option<Mark>>, k: nat) returns (f: Fence)
    requires k in Cover(Fences(marks, 0))
    ensures f in Fences(marks, 0) && f.from <= k <= f.to < |marks| && marks[f.to].Some?
  {
    CoverMembers(Fences(marks, 0), k);
    FencesAreClosed(marks, 0);
    f :| f in Fences(marks, 0) && f.from <= k <= f.to;
    assert FenceHolds(marks, f, 0);
  }

  /** A heading line that does not split is fenced, and its fence closes before
      the next line that splits. */
  lemma FenceClosesInside(lines: seq<string>, start: nat, end: nat, k: nat)
    requires start <= k < end <= |lines| && IsH2(lines[k])
    requires forall l :: start <= l < end ==> !Splits(lines, Fenced(lines), l)
    requires end < |lines| ==> Splits(lines, Fenced(lines), end)
    ensures TextBehind(lines[start..end], k - start)
  {
    assert !Splits(lines, Fenced(lines), k);
    var close := ClosingLine(lines, k);
    assert end <= close ==> end in Fenced(lines);
    assert lines[start..end][close - start] == lines[close];
  }

  lemma SegmentEnds(lines: seq<string>, start: nat, end: nat)
    requires start <= end <= |lines|
    requires forall l :: start <= l < end ==> !Splits(lines, Fenced(lines), l)
    requires end < |lines| ==> Splits(lines, Fenced(lines), end)
    ensures GoodEnd(lines[start..end])
  {
    forall k | 0 <= k < |lines[start..end]| && IsH2(lines[start..end][k]) ensures TextBehind(lines[start..end], k) {
      FenceClosesInside(lines, start, end, start + k);
    }
    GoodEndIf(lines[start..end]);
  }

  ghost predicate BlockEnds(b: Block) {
    GoodEnd(Lines(b.body))
  }

  /** The lines of one block's body, up to the line that starts the next. */
  ghost predicate Segment(lines: seq<string>, fenced: set<nat>, start: nat, end: nat) {
    && start <= end <= |lines| && (forall l :: start <= l < end ==> !Splits(lines, fenced, l))
    && (end < |lines| ==> Splits(lines, fenced, end))
  }

  ghost predicate SegmentsEnd(lines: seq<string>, fenced: set<nat>) {
    forall start: nat, end: nat :: Segment(lines, fenced, start, end) ==> GoodEnd(lines[start..end])
  }

  lemma ClosedBlockEnds(lines: seq<string>, fenced: set<nat>, i: nat, current: Option<Head>, start: nat, body: seq<string>)
    requires Segment(lines, fenced, start, i) && SegmentsEnd(lines, fenced)
    requires forall line :: line in lines ==> '\n' !in line
    requires current.Some? ==> body == lines[start..i]
    ensures forall b :: b in CloseBlock(current, body) ==> BlockEnds(b)
  {
    assert forall line :: line in lines[start..i] ==> line in lines;
    GoodEndBody(lines[start..i]);
  }

  lemma {:induction false} BlocksEnd(lines: seq<string>, fenced: set<nat>, i: nat, current: Option<Head>, start: nat, body: seq<string>)
    requires start <= i <= |lines| && (forall line :: line in lines ==> '\n' !in line)
    requires SegmentsEnd(lines, fenced) && forall l :: start <= l < i ==> !Splits(lines, fenced, l)
    requires current.Some? ==> body == lines[start..i]
    ensures forall b :: b in BlocksFrom(lines, fenced, i, current, body) ==> BlockEnds(b)
    decreases |lines| - i
  {
    if i == |lines| {
      ClosedBlockEnds(lines, fenced, i, current, start, body);
    } else if Splits(lines, fenced, i) {
      ClosedBlockEnds(lines, fenced, i, current, start, body);
      BlocksEnd(lines, fenced, i + 1, Some(HeadOf(lines[i])), i + 1, []);
    } else {
      assert current.Some? ==> body + [lines[i]] == lines[start..i + 1];
      BlocksEnd(lines, fenced, i + 1, current, start, if current.Some? then body + [lines[i]] else body);
    }
  }

  ghost predicate SectionEnds(s: Section) {
    GoodEnd(Lines(s.text))
  }

  lemma {:induction false} SectionsEnd(blocks: seq<Block>)
    requires forall b :: b in blocks ==> BlockEnds(b)
    ensures forall s :: s in SectionsOf(blocks) ==> SectionEnds(s)
  {
    if blocks != [] {
      var front, last := blocks[..|blocks| - 1], blocks[|blocks| - 1];
      SectionsEnd(front);
      assert last in blocks && BlockEnds(last);
      var sections := SectionsOf(front);
      var i := Position(sections, last.head.heading);
      if last.head.level == 2 && i < |sections| {
        assert SectionEnds(sections[i]);
        GoodEndAppend(sections[i].text, last.body);
      }
    }
  }

  lemma FileSectionsEnd(text: string)
    ensures forall s :: s in SectionsOf(Blocks(text)) ==> SectionEnds(s)
  {
    var lines := Lines(text);
    LinesHaveNoBreak(text);
    forall start: nat, end: nat | Segment(lines, Fenced(lines), start, end) ensures GoodEnd(lines[start..end]) {
      SegmentEnds(lines, start, end);
    }
    BlocksEnd(lines, Fenced(lines), 0, None, 0, []);
    SectionsEnd(Blocks(text));
  }

  // ----- The retained sections of any two files -----

  predicate CleanLine(line: string) {
    '\r' !in line
  }

  /** What holds of every retained section, whatever its fences hold. */
  ghost predicate Sound(s: Section) {
    GoodSection(CleanLine, s) && EndsSolid(Lines(s.text))
  }

  lemma CleanSections(text: string)
    requires '\r' !in text
    ensures forall s :: s in SectionsOf(Blocks(text)) ==> GoodSection(CleanLine, s)
  {
    LinesHaveNoBreak(text);
    FileSections(CleanLine, text);
  }

  lemma SectionHasText(s: Section)
    requires SectionEnds(s) && !Blank(s.text)
    ensures EndsSolid(Lines(s.text))
  {
    BlankExactly(s.text);
    JoinLines(s.text);
    NewlinesAreSpaces();
    SolidJoin("\n", Lines(s.text));
    GoodEndWithText(Lines(s.text));
  }

  lemma PickedHasText(isStub: string -> bool, index: seq<Section>, rationale: seq<Section>, consumed: set<string>, headings: seq<string>)
    ensures forall s :: s in SectionsIn(Residue(isStub, index, rationale, consumed, headings)) ==> !Blank(s.text)
  {
    var r := Residue(isStub, index, rationale, consumed, headings);
    ResidueExactly(isStub, index, rationale, consumed, headings, "");
    forall s | s in SectionsIn(r) ensures !Blank(s.text) {
      var k :| 0 <= k < |r| && r[k].section == s;
      assert r[k] in r;
    }
  }

  lemma ResidueIsSound(isStub: string -> bool, index: string, rationale: string, consumed: set<string>)
    ensures forall s :: s in ResidueOf(isStub, index, rationale, consumed) ==> Sound(s)
  {
    var a, b := SectionsOf(Blocks(LineFeeds(index))), SectionsOf(Blocks(LineFeeds(rationale)));
    LineFeedsIdempotent(index);
    LineFeedsIdempotent(rationale);
    CleanSections(LineFeeds(index));
    CleanSections(LineFeeds(rationale));
    FileSectionsEnd(LineFeeds(index));
    FileSectionsEnd(LineFeeds(rationale));
    ResidueFromFiles(isStub, a, b, consumed, Headings(a) + Headings(b));
    PickedHasText(isStub, a, b, consumed, Headings(a) + Headings(b));
    forall s | s in ResidueOf(isStub, index, rationale, consumed) ensures Sound(s) {
      SectionHasText(s);
    }
  }

  // ----- With the remainder of the Consequences section -----

  /** The body of the record: the retained sections, then the remainder. */
  function ParsedBody(sections: seq<Section>, remainder: string): string {
    var body := Print(sections);
    if remainder == "" then body else if body != "" then body + "\n\n" + remainder else remainder
  }

  /** How many `body[i]` get a source: a remainder on its own gets one. */
  function SourceCount(sections: seq<Section>, remainder: string): nat {
    if sections == [] && remainder != "" then 1 else |sections|
  }

  /** What the adapter attributes: the sections with the remainder in the last. */
  function Attributed(sections: seq<Section>, remainder: string): seq<Section>
    requires sections != []
  {
    if remainder == "" then sections else WithResidue(sections, remainder)
  }

  /** The units those sources stand for. */
  function SourcedUnits(sections: seq<Section>, remainder: string): seq<Section> {
    if sections == [] then [Section("", StripChars(Newline, remainder))]
    else AllTrimmed(Attributed(sections, remainder))
  }

  lemma RemainderJoins(sections: seq<Section>, remainder: string)
    requires sections != [] && AllLines(QuietLine, remainder)
    requires forall s :: s in sections ==> GoodSection(QuietLine, s)
    ensures forall s :: s in WithResidue(sections, remainder) ==> GoodSection(QuietLine, s)
  {
    var last := sections[|sections| - 1];
    assert last in sections && GoodSection(QuietLine, last);
    AllowedConcat(QuietLine, last.text, remainder);
    forall s | s in WithResidue(sections, remainder) ensures GoodSection(QuietLine, s) {
      assert s in sections || s == Section(last.heading, last.text + "\n\n" + remainder);
    }
  }

  lemma QuietUnits(sections: seq<Section>)
    requires sections != [] && forall s :: s in sections ==> GoodSection(QuietLine, s)
    ensures Units(Print(sections)) == AllTrimmed(sections)
  {
    CleanPrint(QuietLine, sections);
    PrintSplitRoundTrip(sections);
  }

  /** Text without a heading line is one unit without a heading. */
  lemma PlainUnits(text: string)
    requires AllLines(QuietLine, text)
    ensures Units(text) == [Section("", StripChars(Newline, text))]
  {
    NoReturnInLines(text);
    NoCarriageReturns(text);
    JoinLines(text);
    assert Lines(text) + [] == Lines(text) && [] + Lines(text) == Lines(text);
    GatherLines(None, [], Lines(text), []);
  }

  /** The whole of the body: when no closed fence and no remainder line looks
      like an H2, the units are exactly what the sources name, with or without
      retained sections, and none lacks provenance. */
  lemma BodyUnitsAreSourced(isStub: string -> bool, index: string, rationale: string, consumed: set<string>, remainder: string)
    requires QuietFences(LineFeeds(index)) && QuietFences(LineFeeds(rationale)) && AllLines(QuietLine, remainder)
    ensures var sections := ResidueOf(isStub, index, rationale, consumed);
      var units := Units(ParsedBody(sections, remainder));
      units == SourcedUnits(sections, remainder) && MissingBody(units, SourceCount(sections, remainder)) == []
  {
    var sections := ResidueOf(isStub, index, rationale, consumed);
    ResidueIsQuiet(isStub, index, rationale, consumed);
    if sections == [] {
      PlainUnits(remainder);
      NothingMissing(remainder);
    } else {
      PrintNonEmpty(sections);
      var all := Attributed(sections, remainder);
      if remainder != "" {
        RemainderJoins(sections, remainder);
        ResidueJoinsLast(sections, remainder);
      }
      QuietUnits(all);
      EmptyMissing(Flags(AllTrimmed(all)), |sections|);
    }
  }

  /** A remainder with text behind its last heading line. */
  predicate EndsWell(remainder: string) {
    '\r' !in remainder && (remainder == "" || EndsSolid(Lines(remainder)))
  }

  lemma AttributedIsSound(sections: seq<Section>, remainder: string)
    requires sections != [] && EndsWell(remainder) && forall s :: s in sections ==> Sound(s)
    ensures Print(Attributed(sections, remainder)) == ParsedBody(sections, remainder)
    ensures '\r' !in ParsedBody(sections, remainder)
    ensures forall s :: s in Attributed(sections, remainder) ==> WellPrinted(s)
    ensures var all := Attributed(sections, remainder); EndsSolid(Lines(all[|all| - 1].text))
  {
    CleanPrint(CleanLine, sections);
    PrintNonEmpty(sections);
    var last := sections[|sections| - 1];
    assert Sound(last);
    if remainder != "" {
      ResidueJoinsLast(sections, remainder);
      RemainderEndsSolid(last.text, remainder);
      forall s | s in WithResidue(sections, remainder) ensures WellPrinted(s) {
        assert s in sections || s == Section(last.heading, last.text + "\n\n" + remainder);
      }
    }
  }

  lemma RemainderEndsSolid(text: string, remainder: string)
    requires EndsSolid(Lines(remainder))
    ensures EndsSolid(Lines(text + "\n\n" + remainder))
  {
    assert text + "\n\n" + remainder == (text + "\n") + "\n" + remainder;
    LinesAppend(text + "\n", remainder);
    EndsSolidBehind(Lines(text + "\n"), Lines(remainder));
  }

  /** For any two files and any remainder that ends well: the body passes the
      provenance check exactly when its units are the retained sections, the
      remainder in the last one, so a record whose fences hold heading lines
      fails and is never misattributed. Without a retained section it passes
      exactly when the remainder is one unit. */
  lemma FilesAreAttributed(isStub: string -> bool, index: string, rationale: string, consumed: set<string>, remainder: string)
    requires EndsWell(remainder)
    ensures var sections := ResidueOf(isStub, index, rationale, consumed);
      var units := Units(ParsedBody(sections, remainder));
      var passes := MissingBody(units, SourceCount(sections, remainder)) == [];
      passes <==> if sections == [] then |units| == 1 else units == SourcedUnits(sections, remainder)
  {
    var sections := ResidueOf(isStub, index, rationale, consumed);
    if sections == [] {
      RemainderAlone(remainder);
    } else {
      ResidueIsSound(isStub, index, rationale, consumed);
      SectionsAttributed(sections, remainder);
    }
  }

  lemma SectionsAttributed(sections: seq<Section>, remainder: string)
    requires sections != [] && EndsWell(remainder) && forall s :: s in sections ==> Sound(s)
    ensures var units := Units(ParsedBody(sections, remainder));
      MissingBody(units, |sections|) == [] <==> units == SourcedUnits(sections, remainder)
  {
    AttributedIsSound(sections, remainder);
    PassingIsAttributed(Attributed(sections, remainder));
  }

  lemma RemainderAlone(remainder: string)
    requires EndsWell(remainder)
    ensures MissingBody(Units(remainder), if remainder == "" then 0 else 1) == [] <==> |Units(remainder)| == 1
  {
    if remainder == "" {
      PlainUnits(remainder);
      NothingMissing(remainder);
    } else {
      var lines, units := Lines(remainder), Units(remainder);
      NoCarriageReturns(remainder);
      assert [] + lines == lines;
      LastUnitSolid(None, [], lines);
      if |units| == 1 { EmptyMissing(Flags(units), 1); } else { LastReported(units, 1); }
    }
  }

  lemma PrintNonEmpty(sections: seq<Section>)
    requires sections != []
    ensures Print(sections) != ""
  {
  }

  lemma NothingMissing(remainder: string)
    ensures MissingBody([Section("", StripChars(Newline, remainder))], if remainder != "" then 1 else 0) == []
  {
    var units := [Section("", StripChars(Newline, remainder))];
    if remainder == "" {
      assert !Chunkable(units[0]);
      assert Flags(units) == [false] && [false][..0] == [];
    } else {
      EmptyMissing(Flags(units), 1);
    }
  }
}
