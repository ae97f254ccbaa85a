/** The adapter prints body sections (`jsmastery_adapter.py`), the chunker
    splits them again (`chunking.py`), and `body[i]` provenance is written
    against the first count and read against the second. */
module BodyUnits {
  import opened Options
  import opened Text
  import opened Chunking

  /** (heading, text): a printed section, or a unit the splitter found. */
  datatype Section = Section(heading: string, text: string)

  // ----- Lines around a section -----

  lemma {:induction false} JoinAround(lines: seq<string>)
    requires lines != []
    ensures Join("\n", [""] + lines) == "\n" + Join("\n", lines)
    ensures Join("\n", lines + [""]) == Join("\n", lines) + "\n"
  {
    assert ([""] + lines)[1..] == lines;
    if |lines| == 1 {
      assert (lines + [""])[1..] == [""];
    } else {
      assert (lines + [""])[1..] == lines[1..] + [""];
      JoinAround(lines[1..]);
    }
  }

  // ----- The splitter -----

  /** The H2 pattern on one line: two hashes, then whitespace. */
  predicate IsH2(line: string) {
    |line| >= 3 && line[..2] == "##" && IsSpace(line[2])
  }

  function HeadingOf(line: string): string
    requires IsH2(line)
  {
    StripChars(IsSpace, line[2..])
  }

  predicate Newline(c: char) { c == '\n' }

  /** The unit closed by a heading or by the end: nothing before any content. */
  function CloseUnit(heading: Option<string>, lines: seq<string>): seq<Section> {
    if heading.None? && lines == [] then []
    else [Section(if heading.Some? then heading.value else "", StripChars(Newline, Join("\n", lines)))]
  }

  function UnitsFrom(heading: Option<string>, open: seq<string>, lines: seq<string>): seq<Section>
    decreases |lines|
  {
    if lines == [] then CloseUnit(heading, open)
    else if IsH2(lines[0]) then CloseUnit(heading, open) + UnitsFrom(Some(HeadingOf(lines[0])), [], lines[1..])
    else UnitsFrom(heading, open + [lines[0]], lines[1..])
  }

  function Units(body: string): seq<Section> {
    UnitsFrom(None, [], Lines(LineFeeds(body)))
  }

  /** `_split_body_units` with its line loop. */
  method SplitBodyUnits(body: string) returns (units: seq<Section>)
    ensures units == Units(body)
  {
    var lines := Lines(LineFeeds(body));
    units := [];
    var heading: Option<string> := None;
    var current := [];
    ghost var rest := lines;
    for i := 0 to |lines|
      invariant rest == lines[i..]
      invariant units + UnitsFrom(heading, current, rest) == Units(body)
    {
      var line := lines[i];
      UnitsStep(units, heading, current, rest);
      rest := rest[1..];
      if IsH2(line) {
        units := units + CloseUnit(heading, current);
        heading, current := Some(HeadingOf(line)), [];
      } else {
        current := current + [line];
      }
    }
    units := units + CloseUnit(heading, current);
  }

  lemma UnitsStep(units: seq<Section>, heading: Option<string>, open: seq<string>, rest: seq<string>)
    requires rest != []
    ensures units + UnitsFrom(heading, open, rest) ==
      if IsH2(rest[0]) then (units + CloseUnit(heading, open)) + UnitsFrom(Some(HeadingOf(rest[0])), [], rest[1..])
      else units + UnitsFrom(heading, open + [rest[0]], rest[1..])
  {
    if IsH2(rest[0]) {
      var more := UnitsFrom(Some(HeadingOf(rest[0])), [], rest[1..]);
      assert units + (CloseUnit(heading, open) + more) == (units + CloseUnit(heading, open)) + more;
    }
  }

  // ----- The printer -----

  function PrintSection(s: Section): string {
    "## " + s.heading + "\n\n" + s.text
  }

  /** `"\n\n".join(parts)` over the retained sections. */
  function Print(sections: seq<Section>): string {
    if sections == [] then ""
    else if |sections| == 1 then PrintSection(sections[0])
    else PrintSection(sections[0]) + "\n\n" + Print(sections[1..])
  }

  /** The lines of a printed section: heading, blank, text. */
  function SectionLines(s: Section): seq<string> {
    ["## " + s.heading, ""] + Lines(s.text)
  }

  lemma SectionPrintsLines(s: Section)
    requires '\n' !in s.heading
    ensures Lines(PrintSection(s)) == SectionLines(s)
  {
    var head := "## " + s.heading;
    assert PrintSection(s) == head + "\n" + ("" + "\n" + s.text);
    LinesAppend(head, "" + "\n" + s.text);
    LinesAppend("", s.text);
    OneLine(head);
  }

  lemma PrintLines(sections: seq<Section>)
    requires |sections| > 1 && '\n' !in sections[0].heading
    ensures Lines(Print(sections)) == SectionLines(sections[0]) + [""] + Lines(Print(sections[1..]))
  {
    var first, rest := PrintSection(sections[0]), Print(sections[1..]);
    assert Print(sections) == first + "\n" + ("" + "\n" + rest);
    LinesAppend(first, "" + "\n" + rest);
    LinesAppend("", rest);
    SectionPrintsLines(sections[0]);
  }

  // ----- Well formed sections -----

  /** What the adapter's own splitting guarantees: a one line stripped heading. */
  predicate WellPrinted(s: Section) {
    '\n' !in s.heading && StripChars(IsSpace, s.heading) == s.heading
  }

  /** The splitter strips the newlines around a unit's text. */
  function Trimmed(s: Section): Section {
    Section(s.heading, StripChars(Newline, s.text))
  }

  function AllTrimmed(sections: seq<Section>): (trimmed: seq<Section>)
    ensures |trimmed| == |sections|
  {
    seq(|sections|, i requires 0 <= i < |sections| => Trimmed(sections[i]))
  }

  predicate NoInnerH2(s: Section) {
    forall line :: line in Lines(s.text) ==> !IsH2(line)
  }

  lemma PrintedHeading(s: Section)
    requires WellPrinted(s)
    ensures IsH2("## " + s.heading) && HeadingOf("## " + s.heading) == s.heading && !IsH2("")
  {
    var line := "## " + s.heading;
    assert line[2..] == " " + s.heading;
    assert line[2..][1..] == s.heading;
    assert StripLeft(IsSpace, line[2..]) == StripLeft(IsSpace, s.heading);
  }

  /** Newlines around a text strip off again. */
  lemma {:induction false} StripNewlineAfter(text: string)
    ensures StripChars(Newline, text + "\n") == StripChars(Newline, text)
  {
    if text == "" {
      assert StripLeft(Newline, "\n") == StripLeft(Newline, "\n"[1..]);
    } else if text[0] == '\n' {
      assert (text + "\n")[1..] == text[1..] + "\n";
      StripNewlineAfter(text[1..]);
    } else {
      assert (text + "\n")[..|text|] == text;
    }
  }

  lemma StripAround(text: string)
    ensures StripChars(Newline, "\n" + text) == StripChars(Newline, text)
    ensures StripChars(Newline, "\n" + text + "\n") == StripChars(Newline, text)
  {
    assert ("\n" + text)[1..] == text;
    StripNewlineAfter("\n" + text);
  }

  /** Lines without a heading are gathered into the open unit. */
  lemma {:induction false} GatherLines(heading: Option<string>, open: seq<string>, lines: seq<string>, rest: seq<string>)
    requires forall line :: line in lines ==> !IsH2(line)
    ensures UnitsFrom(heading, open, lines + rest) == UnitsFrom(heading, open + lines, rest)
    decreases |lines|
  {
    if lines == [] {
      assert lines + rest == rest && open + lines == open;
    } else {
      assert (lines + rest)[1..] == lines[1..] + rest;
      GatherLines(heading, open + [lines[0]], lines[1..], rest);
      assert open + [lines[0]] + lines[1..] == open + lines;
    }
  }

  /** The unit closed behind a printed section is the section, trimmed. */
  lemma UnitOfSection(s: Section)
    ensures var text := [""] + Lines(s.text);
      CloseUnit(Some(s.heading), text) == [Trimmed(s)] && CloseUnit(Some(s.heading), text + [""]) == [Trimmed(s)]
  {
    JoinLines(s.text);
    JoinAround(Lines(s.text));
    JoinAround([""] + Lines(s.text));
    StripAround(s.text);
  }

  /** One printed section is consumed up to the lines behind it. */
  lemma ConsumeSection(heading: Option<string>, open: seq<string>, s: Section, tail: seq<string>, rest: seq<string>)
    requires WellPrinted(s) && NoInnerH2(s) && (tail == [] || tail == [""])
    ensures UnitsFrom(heading, open, SectionLines(s) + tail + rest)
         == CloseUnit(heading, open) + UnitsFrom(Some(s.heading), [""] + Lines(s.text) + tail, rest)
  {
    PrintedHeading(s);
    var lines := SectionLines(s) + tail + rest;
    var text := [""] + Lines(s.text) + tail;
    assert lines[0] == "## " + s.heading && lines[1..] == text + rest;
    GatherLines(Some(s.heading), [], text, rest);
    assert [] + text == text;
  }

  /** Splitting the printed sections gives the sections back, in order. */
  lemma {:induction false} SplitPrinted(heading: Option<string>, open: seq<string>, sections: seq<Section>)
    requires sections != []
    requires forall s :: s in sections ==> WellPrinted(s) && NoInnerH2(s)
    ensures UnitsFrom(heading, open, Lines(Print(sections))) == CloseUnit(heading, open) + AllTrimmed(sections)
    decreases |sections|
  {
    var s, rest := sections[0], sections[1..];
    assert s in sections;
    UnitOfSection(s);
    assert AllTrimmed(sections) == [Trimmed(s)] + AllTrimmed(rest);
    if rest == [] {
      SectionPrintsLines(s);
      ConsumeSection(heading, open, s, [], []);
      assert SectionLines(s) + [] + [] == Lines(Print(sections));
      assert [""] + Lines(s.text) + [] == [""] + Lines(s.text);
    } else {
      PrintLines(sections);
      ConsumeSection(heading, open, s, [""], Lines(Print(rest)));
      SplitPrinted(Some(s.heading), [""] + Lines(s.text) + [""], rest);
    }
  }

  lemma {:induction false} NoCarriageReturns(text: string)
    requires '\r' !in text
    ensures LineFeeds(text) == text
  {
    if text != "" { NoCarriageReturns(text[1..]); }
  }

  /** Printer and splitter agree: `body[i]` names the same section to both,
      whose text only loses surrounding newlines. */
  lemma PrintSplitRoundTrip(sections: seq<Section>)
    requires sections != [] && '\r' !in Print(sections)
    requires forall s :: s in sections ==> WellPrinted(s) && NoInnerH2(s)
    ensures Units(Print(sections)) == AllTrimmed(sections)
  {
    NoCarriageReturns(Print(sections));
    SplitPrinted(None, [], sections);
  }

  /** The last section with residue appended to its text. */
  function WithResidue(sections: seq<Section>, residue: string): seq<Section>
    requires sections != []
  {
    var last := sections[|sections| - 1];
    sections[..|sections| - 1] + [Section(last.heading, last.text + "\n\n" + residue)]
  }

  lemma ResidueInSection(s: Section, residue: string)
    ensures PrintSection(Section(s.heading, s.text + "\n\n" + residue)) == PrintSection(s) + "\n\n" + residue
  {
  }

  /** Residue appended behind the body is text of the last section, where the
      adapter folds its provenance. */
  lemma {:induction false} ResidueJoinsLast(sections: seq<Section>, residue: string)
    requires sections != []
    ensures Print(WithResidue(sections, residue)) == Print(sections) + "\n\n" + residue
  {
    var all := WithResidue(sections, residue);
    if |sections| == 1 {
      ResidueInSection(sections[0], residue);
    } else {
      var rest := sections[1..];
      ResidueJoinsLast(rest, residue);
      assert all[0] == sections[0] && all[1..] == WithResidue(rest, residue);
      var head, tail := PrintSection(sections[0]) + "\n\n", Print(rest);
      assert head + (tail + "\n\n" + residue) == head + tail + "\n\n" + residue;
    }
  }

  // ----- Provenance when bodies hold heading lines of their own -----

  function H2Count(lines: seq<string>): nat {
    if lines == [] then 0 else (if IsH2(lines[0]) then 1 else 0) + H2Count(lines[1..])
  }

  lemma {:induction false} H2CountConcat(a: seq<string>, b: seq<string>)
    ensures H2Count(a + b) == H2Count(a) + H2Count(b)
  {
    if a == [] {
      assert a + b == b;
    } else {
      assert (a + b)[1..] == a[1..] + b;
      H2CountConcat(a[1..], b);
    }
  }

  lemma {:induction false} UnitCount(heading: Option<string>, open: seq<string>, lines: seq<string>)
    requires heading.Some? || (open == [] && lines != [] && IsH2(lines[0]))
    ensures |UnitsFrom(heading, open, lines)| == (if heading.Some? then 1 else 0) + H2Count(lines)
    decreases |lines|
  {
    if lines != [] {
      if IsH2(lines[0]) {
        UnitCount(Some(HeadingOf(lines[0])), [], lines[1..]);
      } else {
        UnitCount(heading, open + [lines[0]], lines[1..]);
      }
    }
  }

  /** Heading lines inside the section bodies. */
  function InnerH2(sections: seq<Section>): nat {
    if sections == [] then 0 else H2Count(Lines(sections[0].text)) + InnerH2(sections[1..])
  }

  lemma {:induction false} PrintedH2Count(sections: seq<Section>)
    requires sections != [] && forall s :: s in sections ==> WellPrinted(s)
    ensures H2Count(Lines(Print(sections))) == |sections| + InnerH2(sections)
    ensures IsH2(Lines(Print(sections))[0])
    decreases |sections|
  {
    var s, rest := sections[0], sections[1..];
    assert s in sections;
    PrintedHeading(s);
    SectionCount(s);
    if rest == [] {
      SectionPrintsLines(s);
    } else {
      PrintLines(sections);
      assert forall r :: r in rest ==> r in sections;
      PrintedH2Count(rest);
      H2CountConcat(SectionLines(s) + [""], Lines(Print(rest)));
      H2CountConcat(SectionLines(s), [""]);
      assert [""][1..] == [];
    }
  }

  lemma SectionCount(s: Section)
    requires WellPrinted(s)
    ensures H2Count(SectionLines(s)) == 1 + H2Count(Lines(s.text))
  {
    PrintedHeading(s);
    var lines := SectionLines(s);
    assert lines[1..][1..] == Lines(s.text);
  }

  /** Each heading line inside a body makes one surplus unit. */
  lemma SurplusUnits(sections: seq<Section>)
    requires sections != [] && '\r' !in Print(sections)
    requires forall s :: s in sections ==> WellPrinted(s)
    ensures |Units(Print(sections))| == |sections| + InnerH2(sections)
  {
    NoCarriageReturns(Print(sections));
    PrintedH2Count(sections);
    UnitCount(None, [], Lines(Print(sections)));
  }

  /** `_body_unit_text`. */
  function UnitText(unit: Section): string {
    if unit.heading != "" then PrintSection(unit) else unit.text
  }

  predicate Chunkable(unit: Section) {
    StripChars(ParagraphBlank, UnitText(unit)) != ""
  }

  function Flags(units: seq<Section>): seq<bool> {
    seq(|units|, i requires 0 <= i < |units| => Chunkable(units[i]))
  }

  function Unsourced(flags: seq<bool>, n: nat): seq<nat> {
    if flags == [] then []
    else
      var last := |flags| - 1;
      Unsourced(flags[..last], n) + if flags[last] && last >= n then [last] else []
  }

  /** The `body[i]` paths without a source, when `body[0]` to `body[n - 1]` have one. */
  function MissingBody(units: seq<Section>, n: nat): seq<nat> {
    Unsourced(Flags(units), n)
  }

  /** The body part of `missing_provenance`. */
  method MissingBodyProvenance(body: string, sourced: set<nat>, ghost n: nat) returns (missing: seq<nat>)
    requires forall i: nat :: i in sourced <==> i < n
    ensures missing == MissingBody(Units(body), n)
  {
    var units := SplitBodyUnits(body);
    missing := ScanSources(Flags(units), sourced, n);
  }

  method ScanSources(chunkable: seq<bool>, sourced: set<nat>, ghost n: nat) returns (missing: seq<nat>)
    requires forall i: nat :: i in sourced <==> i < n
    ensures missing == Unsourced(chunkable, n)
  {
    missing := [];
    for i := 0 to |chunkable|
      invariant missing == Unsourced(chunkable[..i], n)
    {
      assert chunkable[..i + 1][..i] == chunkable[..i];
      if chunkable[i] && i !in sourced {
        missing := missing + [i];
      }
    }
    assert chunkable[..|chunkable|] == chunkable;
  }

  lemma {:induction false} MissingMembers(flags: seq<bool>, n: nat, i: nat)
    ensures i in Unsourced(flags, n) <==> n <= i < |flags| && flags[i]
  {
    if flags != [] { MissingMembers(flags[..|flags| - 1], n, i); }
  }

  lemma HeadedIsChunkable(unit: Section)
    requires unit.heading != ""
    ensures Chunkable(unit)
  {
    var text := UnitText(unit);
    assert text[0] == '#';
    StripRightKeepsHead(ParagraphBlank, text);
  }

  /** With nonempty headings, the units reported missing are exactly the surplus
      ones, one for each heading line inside a body. */
  lemma SurplusIsReported(sections: seq<Section>, i: nat)
    requires sections != [] && '\r' !in Print(sections)
    requires forall s :: s in sections ==> WellPrinted(s)
    requires forall u :: u in Units(Print(sections)) ==> u.heading != ""
    ensures i in MissingBody(Units(Print(sections)), |sections|)
       <==> |sections| <= i < |sections| + InnerH2(sections)
  {
    SurplusUnits(sections);
    var units := Units(Print(sections));
    MissingMembers(Flags(units), |sections|, i);
    if i < |units| {
      assert units[i] in units;
      HeadedIsChunkable(units[i]);
    }
  }

  lemma {:induction false} NoInnerMeansNone(sections: seq<Section>)
    ensures InnerH2(sections) == 0 <==> forall s :: s in sections ==> NoInnerH2(s)
  {
    if sections != [] {
      NoInnerMeansNone(sections[1..]);
      assert sections[0] in sections;
      CountZero(Lines(sections[0].text));
      assert forall s :: s in sections <==> s == sections[0] || s in sections[1..];
    }
  }

  lemma {:induction false} CountZero(lines: seq<string>)
    ensures H2Count(lines) == 0 <==> forall line :: line in lines ==> !IsH2(line)
  {
    if lines != [] {
      CountZero(lines[1..]);
      assert forall line :: line in lines <==> line == lines[0] || line in lines[1..];
    }
  }

  // ----- The last unit always has text -----

  /** Reading back from the end, text stands before any heading line. */
  predicate EndsSolid(lines: seq<string>) {
    if lines == [] then false
    else
      var last := lines[|lines| - 1];
      if Solid(last) != "" then !IsH2(last) else EndsSolid(lines[..|lines| - 1])
  }

  lemma H2IsSolid(line: string)
    requires IsH2(line)
    ensures Solid(line) != ""
  {
    assert line[0] == '#';
  }

  lemma {:induction false} EndsSolidBehind(lines: seq<string>, rest: seq<string>)
    requires EndsSolid(rest)
    ensures EndsSolid(lines + rest)
  {
    assert (lines + rest)[..|lines + rest| - 1] == lines + rest[..|rest| - 1];
    if Solid(rest[|rest| - 1]) == "" { EndsSolidBehind(lines, rest[..|rest| - 1]); }
  }

  lemma {:induction false} EndsSolidPastHeading(lines: seq<string>, heading: string, rest: seq<string>)
    requires IsH2(heading) && EndsSolid(lines + [heading] + rest)
    ensures EndsSolid(rest)
  {
    H2IsSolid(heading);
    var all := lines + [heading] + rest;
    assert all[|all| - 1] == if rest == [] then heading else rest[|rest| - 1];
    if rest != [] {
      assert all[..|all| - 1] == lines + [heading] + rest[..|rest| - 1];
      if Solid(rest[|rest| - 1]) == "" { EndsSolidPastHeading(lines, heading, rest[..|rest| - 1]); }
    }
  }

  lemma {:induction false} EndsSolidMeansText(lines: seq<string>)
    requires EndsSolid(lines)
    ensures SolidAll(lines) != ""
  {
    var front, last := lines[..|lines| - 1], lines[|lines| - 1];
    assert lines == front + [last];
    SolidAllConcat(front, [last]);
    SolidAllOne(last);
    if Solid(last) == "" { EndsSolidMeansText(front); }
  }

  lemma NewlinesAreSpaces()
    ensures forall c :: Newline(c) ==> IsSpace(c)
    ensures Solid("\n") == ""
  {
    SolidBlank("\n");
  }

  lemma ClosedUnitSolid(heading: Option<string>, open: seq<string>)
    requires EndsSolid(open)
    ensures |CloseUnit(heading, open)| == 1 && Solid(CloseUnit(heading, open)[0].text) != ""
  {
    EndsSolidMeansText(open);
    NewlinesAreSpaces();
    SolidJoin("\n", open);
    SolidStrip(Newline, Join("\n", open));
  }

  ghost predicate LastSolid(units: seq<Section>) {
    units != [] && Solid(units[|units| - 1].text) != ""
  }

  lemma LastSolidBehind(before: seq<Section>, units: seq<Section>)
    requires LastSolid(units)
    ensures LastSolid(before + units)
  {
    var all := before + units;
    assert all[|all| - 1] == units[|units| - 1];
  }

  lemma {:induction false} LastUnitSolid(heading: Option<string>, open: seq<string>, lines: seq<string>)
    requires EndsSolid(open + lines)
    ensures LastSolid(UnitsFrom(heading, open, lines))
    decreases |lines|
  {
    if lines == [] {
      assert open + lines == open;
      ClosedUnitSolid(heading, open);
    } else {
      var first, rest := lines[0], lines[1..];
      assert open + lines == open + [first] + rest;
      if IsH2(first) {
        EndsSolidPastHeading(open, first, rest);
        assert [] + rest == rest;
        LastUnitSolid(Some(HeadingOf(first)), [], rest);
        LastSolidBehind(CloseUnit(heading, open), UnitsFrom(Some(HeadingOf(first)), [], rest));
      } else {
        LastUnitSolid(heading, open + [first], rest);
      }
    }
  }

  lemma SolidIsChunkable(unit: Section)
    requires Solid(unit.text) != ""
    ensures Chunkable(unit)
  {
    if unit.heading != "" {
      HeadedIsChunkable(unit);
    } else {
      BlanksAreSpaces();
      SolidStrip(ParagraphBlank, unit.text);
    }
  }

  lemma {:induction false} PrintEndsSolid(sections: seq<Section>)
    requires sections != [] && (forall s :: s in sections ==> WellPrinted(s))
    requires EndsSolid(Lines(sections[|sections| - 1].text))
    ensures EndsSolid(Lines(Print(sections)))
    decreases |sections|
  {
    var s, rest := sections[0], sections[1..];
    assert s in sections;
    if rest == [] {
      SectionPrintsLines(s);
      EndsSolidBehind(["## " + s.heading, ""], Lines(s.text));
    } else {
      assert rest[|rest| - 1] == sections[|sections| - 1] && forall r :: r in rest ==> r in sections;
      PrintEndsSolid(rest);
      PrintLines(sections);
      EndsSolidBehind(SectionLines(s) + [""], Lines(Print(rest)));
    }
  }

  /** With a surplus unit the last one is reported. */
  lemma LastIsReported(sections: seq<Section>)
    requires sections != [] && '\r' !in Print(sections) && InnerH2(sections) > 0
    requires forall s :: s in sections ==> WellPrinted(s)
    requires EndsSolid(Lines(sections[|sections| - 1].text))
    ensures MissingBody(Units(Print(sections)), |sections|) != []
  {
    var lines := Lines(Print(sections));
    SurplusUnits(sections);
    NoCarriageReturns(Print(sections));
    PrintEndsSolid(sections);
    assert [] + lines == lines;
    LastUnitSolid(None, [], lines);
    LastReported(Units(Print(sections)), |sections|);
  }

  lemma LastReported(units: seq<Section>, n: nat)
    requires LastSolid(units) && n < |units|
    ensures MissingBody(units, n) != []
  {
    var last := |units| - 1;
    SolidIsChunkable(units[last]);
    MissingMembers(Flags(units), n, last);
    assert last in MissingBody(units, n);
  }

  /** A record whose body passes the provenance check has the printed sections
      as its units: it is never misattributed, it fails instead. */
  lemma PassingIsAttributed(sections: seq<Section>)
    requires sections != [] && '\r' !in Print(sections)
    requires forall s :: s in sections ==> WellPrinted(s)
    requires EndsSolid(Lines(sections[|sections| - 1].text))
    ensures MissingBody(Units(Print(sections)), |sections|) == [] <==> Units(Print(sections)) == AllTrimmed(sections)
  {
    SurplusUnits(sections);
    if InnerH2(sections) == 0 {
      NoInnerMeansNone(sections);
      PrintSplitRoundTrip(sections);
      EmptyMissing(Flags(Units(Print(sections))), |sections|);
    } else {
      LastIsReported(sections);
    }
  }

  lemma {:induction false} EmptyMissing(flags: seq<bool>, n: nat)
    requires |flags| <= n
    ensures Unsourced(flags, n) == []
  {
    if flags != [] { EmptyMissing(flags[..|flags| - 1], n); }
  }
}
