/** What the blocks and sections of a source file are, by their lines, and where
    the body takes each retained section from. */
module SectionLaws {
  import opened Options
  import opened Ordering
  import opened Text
  import opened TextLaws
  import opened BodyUnits
  import opened Adapter

  // ----- Fence marks -----

  /** From `i` on a run of three or more of one delimiter, and only whitespace before. */
  ghost predicate MarkedAt(line: string, m: Mark, i: nat) {
    && (m.delimiter == '`' || m.delimiter == '~') && m.run >= 3 && i + m.run <= |line|
    && (forall k :: 0 <= k < i ==> IsSpace(line[k]))
    && (forall k :: i <= k < i + m.run ==> line[k] == m.delimiter)
    && (i + m.run < |line| ==> line[i + m.run] != m.delimiter)
  }

  lemma {:induction false} SkipSpaceSplits(line: string) returns (i: nat)
    ensures i <= |line| && SkipSpace(line) == line[i..] && (forall k :: 0 <= k < i ==> IsSpace(line[k]))
    ensures i < |line| ==> !IsSpace(line[i])
  {
    i := 0;
    if line != "" && IsSpace(line[0]) {
      var j := SkipSpaceSplits(line[1..]);
      i := j + 1;
      assert forall k :: 0 < k < i ==> line[k] == line[1..][k - 1];
    }
  }

  lemma {:induction false} RunIsMaximal(line: string, c: char)
    ensures var n := Run(line, c);
      n <= |line| && (forall k :: 0 <= k < n ==> line[k] == c) && (n < |line| ==> line[n] != c)
  {
    if line != "" && line[0] == c {
      RunIsMaximal(line[1..], c);
      assert forall k :: 0 < k < Run(line, c) ==> line[k] == line[1..][k - 1];
    }
  }

  /** A line has a fence mark exactly when it is so marked. */
  lemma MarkExactly(line: string, m: Mark)
    ensures MarkOf(line) == Some(m) <==> exists i: nat :: MarkedAt(line, m, i)
  {
    var at := SkipSpaceSplits(line);
    var rest := line[at..];
    RunIsMaximal(rest, '`');
    RunIsMaximal(rest, '~');
    assert forall k :: 0 <= k < |rest| ==> rest[k] == line[at + k];
    if MarkOf(line) == Some(m) {
      forall k | at <= k < at + m.run ensures line[k] == m.delimiter { assert rest[k - at] == line[k]; }
      assert MarkedAt(line, m, at);
    }
    if i: nat :| MarkedAt(line, m, i) {
      assert line[i] == m.delimiter && i == at;
      RunIs(rest, m.delimiter, m.run);
    }
  }

  lemma RunIs(line: string, c: char, n: nat)
    requires n <= |line| && (forall k :: 0 <= k < n ==> line[k] == c) && (n < |line| ==> line[n] != c)
    ensures Run(line, c) == n
    ensures n > 0 ==> forall d :: d != c ==> Run(line, d) == 0
  {
    RunIsMaximal(line, c);
  }

  // ----- Heading lines -----

  /** One or two hashes, then whitespace, outside the fences. */
  ghost predicate IsHeading(lines: seq<string>, i: nat, level: nat) {
    && i < |lines| && i !in Fenced(lines) && 1 <= level <= 2 && level < |lines[i]|
    && (forall k :: 0 <= k < level ==> lines[i][k] == '#') && IsSpace(lines[i][level])
  }

  lemma SplitsExactly(lines: seq<string>, i: nat)
    requires i < |lines|
    ensures Splits(lines, Fenced(lines), i) <==> exists level :: IsHeading(lines, i, level)
    ensures forall level :: IsHeading(lines, i, level) ==> SplitLevel(lines[i]) == level
  {
    if Splits(lines, Fenced(lines), i) { assert IsHeading(lines, i, SplitLevel(lines[i])); }
  }

  // ----- Blocks -----

  /** Which lines are heading lines. */
  ghost function HeadLines(lines: seq<string>): seq<bool> {
    seq(|lines|, i requires 0 <= i < |lines| => Splits(lines, Fenced(lines), i))
  }

  ghost function EndOf(places: seq<nat>, k: nat, n: nat): nat
    requires k < |places|
  {
    if k + 1 < |places| then places[k + 1] else n
  }

  /** The block at heading line `place`, up to line `end`. */
  ghost function BlockAt(lines: seq<string>, place: nat, end: nat): Block
    requires place < end <= |lines|
  {
    var level := SplitLevel(lines[place]);
    Block(Head(level, StripChars(IsSpace, lines[place][level..])), StripChars(Newline, Join("\n", lines[place + 1..end])))
  }

  /** The places of all heads from `from` on, in order. */
  ghost predicate ArePlaces(heads: seq<bool>, from: nat, places: seq<nat>) {
    && (forall k :: 0 <= k < |places| ==> from <= places[k] < |heads| && heads[places[k]])
    && (forall k, l :: 0 <= k < l < |places| ==> places[k] < places[l])
    && (forall i :: from <= i < |heads| && heads[i] ==> i in places)
  }

  ghost function PlacesFrom(heads: seq<bool>, from: nat): seq<nat>
    requires from <= |heads|
    decreases |heads| - from
  {
    if from == |heads| then []
    else if heads[from] then [from] + PlacesFrom(heads, from + 1)
    else PlacesFrom(heads, from + 1)
  }

  lemma {:induction false} PlacesAre(heads: seq<bool>, from: nat)
    requires from <= |heads|
    ensures ArePlaces(heads, from, PlacesFrom(heads, from))
    decreases |heads| - from
  {
    if from < |heads| {
      PlacesAre(heads, from + 1);
      if heads[from] { PlaceBefore(heads, from, PlacesFrom(heads, from + 1)); }
    }
  }

  lemma PlaceBefore(heads: seq<bool>, from: nat, rest: seq<nat>)
    requires from < |heads| && heads[from] && ArePlaces(heads, from + 1, rest)
    ensures ArePlaces(heads, from, [from] + rest)
  {
    var all := [from] + rest;
    assert forall k :: 0 < k < |all| ==> all[k] == rest[k - 1];
    assert forall i :: i in all <==> i == from || i in rest;
  }

  /** The first head from `from` on, or the end. */
  ghost function NextPlace(heads: seq<bool>, from: nat): (i: nat)
    requires from <= |heads|
    ensures from <= i <= |heads|
    decreases |heads| - from
  {
    if from == |heads| || heads[from] then from else NextPlace(heads, from + 1)
  }

  ghost function BlocksAt(lines: seq<string>, heads: seq<bool>, from: nat): seq<Block>
    requires from <= |lines| == |heads|
    decreases |lines| - from
  {
    if from == |lines| then []
    else if heads[from] then [BlockAt(lines, from, NextPlace(heads, from + 1))] + BlocksAt(lines, heads, from + 1)
    else BlocksAt(lines, heads, from + 1)
  }

  /** The loop closes the open block at the next heading line. */
  lemma {:induction false} BlocksFromExactly(lines: seq<string>, heads: seq<bool>, i: nat, place: nat)
    requires heads == HeadLines(lines) && place < i <= |lines| && heads[place]
    ensures BlocksFrom(lines, Fenced(lines), i, Some(HeadOf(lines[place])), lines[place + 1..i])
         == [BlockAt(lines, place, NextPlace(heads, i))] + BlocksAt(lines, heads, i)
    decreases |lines| - i
  {
    if i < |lines| {
      if heads[i] {
        assert lines[i + 1..i + 1] == [];
        BlocksFromExactly(lines, heads, i + 1, i);
      } else {
        assert lines[place + 1..i] + [lines[i]] == lines[place + 1..i + 1];
        BlocksFromExactly(lines, heads, i + 1, place);
      }
    }
  }

  lemma FirstHead(lines: seq<string>, heads: seq<bool>, i: nat)
    requires heads == HeadLines(lines) && i < |lines| && heads[i]
    ensures BlocksFrom(lines, Fenced(lines), i, None, [])
         == BlocksFrom(lines, Fenced(lines), i + 1, Some(HeadOf(lines[i])), lines[i + 1..i + 1])
  {
    assert lines[i + 1..i + 1] == [];
  }

  lemma {:induction false} BlocksBeforeHeading(lines: seq<string>, heads: seq<bool>, i: nat)
    requires heads == HeadLines(lines) && i <= |lines|
    ensures BlocksFrom(lines, Fenced(lines), i, None, []) == BlocksAt(lines, heads, i)
    decreases |lines| - i
  {
    if i < |lines| {
      if heads[i] {
        FirstHead(lines, heads, i);
        BlocksFromExactly(lines, heads, i + 1, i);
        HeadStep(lines, heads, i);
      } else {
        BlocksBeforeHeading(lines, heads, i + 1);
        NoHeadStep(lines, heads, i);
      }
    }
  }

  ghost predicate StandsAt(lines: seq<string>, place: nat, end: nat, block: Block) {
    place < end <= |lines| && block == BlockAt(lines, place, end)
  }

  /** One block for each place, up to the next. */
  ghost predicate StandAt(lines: seq<string>, places: seq<nat>, blocks: seq<Block>) {
    |blocks| == |places| && forall k :: 0 <= k < |places| ==> StandsAt(lines, places[k], EndOf(places, k, |lines|), blocks[k])
  }

  lemma StandBefore(lines: seq<string>, place: nat, block: Block, places: seq<nat>, blocks: seq<Block>)
    requires StandAt(lines, places, blocks) && StandsAt(lines, place, if places == [] then |lines| else places[0], block)
    ensures StandAt(lines, [place] + places, [block] + blocks)
  {
    var p, b := [place] + places, [block] + blocks;
    forall k | 0 <= k < |p| ensures StandsAt(lines, p[k], EndOf(p, k, |lines|), b[k]) {
      if k > 0 {
        assert p[k] == places[k - 1] && b[k] == blocks[k - 1] && EndOf(p, k, |lines|) == EndOf(places, k - 1, |lines|);
      }
    }
  }

  lemma {:induction false} FirstPlace(heads: seq<bool>, from: nat)
    requires from <= |heads|
    ensures NextPlace(heads, from) == if PlacesFrom(heads, from) == [] then |heads| else PlacesFrom(heads, from)[0]
    decreases |heads| - from
  {
    if from < |heads| && !heads[from] { FirstPlace(heads, from + 1); }
  }

  lemma HeadStep(lines: seq<string>, heads: seq<bool>, from: nat)
    requires from < |lines| == |heads| && heads[from]
    ensures PlacesFrom(heads, from) == [from] + PlacesFrom(heads, from + 1)
    ensures BlocksAt(lines, heads, from) == [BlockAt(lines, from, NextPlace(heads, from + 1))] + BlocksAt(lines, heads, from + 1)
  {
  }

  lemma NoHeadStep(lines: seq<string>, heads: seq<bool>, from: nat)
    requires from < |lines| == |heads| && !heads[from]
    ensures PlacesFrom(heads, from) == PlacesFrom(heads, from + 1)
    ensures BlocksAt(lines, heads, from) == BlocksAt(lines, heads, from + 1)
  {
  }

  lemma HeadStands(lines: seq<string>, heads: seq<bool>, from: nat, places: seq<nat>, blocks: seq<Block>)
    requires from < |lines| == |heads| && StandAt(lines, places, blocks)
    requires NextPlace(heads, from + 1) == if places == [] then |lines| else places[0]
    ensures StandAt(lines, [from] + places, [BlockAt(lines, from, NextPlace(heads, from + 1))] + blocks)
  {
    StandBefore(lines, from, BlockAt(lines, from, NextPlace(heads, from + 1)), places, blocks);
  }

  lemma {:induction false} BlocksAtPlaces(lines: seq<string>, heads: seq<bool>, from: nat)
    requires from <= |lines| == |heads|
    ensures StandAt(lines, PlacesFrom(heads, from), BlocksAt(lines, heads, from))
    decreases |lines| - from
  {
    if from < |lines| {
      BlocksAtPlaces(lines, heads, from + 1);
      if heads[from] {
        FirstPlace(heads, from + 1);
        HeadStands(lines, heads, from, PlacesFrom(heads, from + 1), BlocksAt(lines, heads, from + 1));
        HeadStep(lines, heads, from);
      } else {
        NoHeadStep(lines, heads, from);
      }
    }
  }

  /** A file has one block for each heading line: its level, the text behind the
      hashes, and the lines up to the next heading line without outer newlines. */
  lemma BlocksExactly(text: string)
    ensures exists places :: ArePlaces(HeadLines(Lines(text)), 0, places) && StandAt(Lines(text), places, Blocks(text))
  {
    var lines, heads := Lines(text), HeadLines(Lines(text));
    BlocksBeforeHeading(lines, heads, 0);
    BlocksAtPlaces(lines, heads, 0);
    PlacesAre(heads, 0);
  }

  // ----- Sections -----

  /** The bodies under one heading, in order. */
  ghost function BodiesOf(blocks: seq<Block>, heading: string): seq<string> {
    if blocks == [] then []
    else
      var last := blocks[|blocks| - 1];
      BodiesOf(blocks[..|blocks| - 1], heading)
      + if last.head.level == 2 && last.head.heading == heading then [last.body] else []
  }

  ghost function HeadingsOf(blocks: seq<Block>): seq<string> {
    if blocks == [] then []
    else
      var last := blocks[|blocks| - 1];
      HeadingsOf(blocks[..|blocks| - 1]) + if last.head.level == 2 then [last.head.heading] else []
  }

  lemma {:induction false} JoinAppend(sep: string, parts: seq<string>, last: string)
    requires parts != []
    ensures Join(sep, parts + [last]) == Join(sep, parts) + sep + last
  {
    if |parts| == 1 {
      assert (parts + [last])[1..] == [last];
    } else {
      assert (parts + [last])[1..] == parts[1..] + [last];
      JoinAppend(sep, parts[1..], last);
    }
  }

  lemma {:induction false} BodiesWhenHeaded(blocks: seq<Block>, heading: string)
    ensures BodiesOf(blocks, heading) != [] <==> heading in HeadingsOf(blocks)
  {
    if blocks != [] {
      BodiesWhenHeaded(blocks[..|blocks| - 1], heading);
      assert forall h, hs: seq<string> :: heading in hs + [h] <==> heading in hs || heading == h;
    }
  }

  /** A section's text are all bodies under its heading, a blank line between. */
  lemma {:induction false} SectionTexts(blocks: seq<Block>, s: Section)
    ensures s in SectionsOf(blocks) <==>
      s.heading in HeadingsOf(blocks) && s.text == Join("\n\n", BodiesOf(blocks, s.heading))
    ensures DistinctHeadings(SectionsOf(blocks))
  {
    if blocks != [] {
      var front, last := blocks[..|blocks| - 1], blocks[|blocks| - 1];
      assert blocks == front + [last];
      SectionTexts(front, s);
      BodiesGrow(front, last, s.heading);
      if last.head.level == 2 {
        var heading, bodies := last.head.heading, BodiesOf(front, last.head.heading);
        var found := Section(heading, Join("\n\n", bodies));
        SectionTexts(front, found);
        HeadedPosition(front, heading);
        BodiesWhenHeaded(front, heading);
        PutExactly(SectionsOf(front), found, heading in HeadingsOf(front), last.body, s);
        JoinOneMore("\n\n", bodies, last.body);
        SectionsGrow(front, last);
      } else {
        SectionsGrow(front, last);
      }
    }
  }

  lemma SectionsGrow(front: seq<Block>, last: Block)
    ensures SectionsOf(front + [last])
         == if last.head.level == 2 then Put(SectionsOf(front), last.head.heading, last.body) else SectionsOf(front)
  {
    assert (front + [last])[..|front|] == front;
  }

  lemma JoinOneMore(sep: string, parts: seq<string>, last: string)
    ensures Join(sep, parts + [last]) == if parts == [] then last else Join(sep, parts) + sep + last
  {
    if parts != [] { JoinAppend(sep, parts, last); } else { assert parts + [last] == [last]; }
  }

  /** Headings of sections are headings of blocks. */
  lemma {:induction false} HeadedPosition(blocks: seq<Block>, heading: string)
    ensures Position(SectionsOf(blocks), heading) < |SectionsOf(blocks)| <==> heading in HeadingsOf(blocks)
  {
    if blocks != [] {
      var front, last := blocks[..|blocks| - 1], blocks[|blocks| - 1];
      HeadedPosition(front, heading);
      if last.head.level == 2 { PutPosition(SectionsOf(front), last.head.heading, last.body, heading); }
    }
  }

  lemma PutPosition(sections: seq<Section>, heading: string, body: string, other: string)
    ensures var put := Put(sections, heading, body);
      Position(put, other) < |put| <==> Position(sections, other) < |sections| || other == heading
  {
    var i, put := Position(sections, heading), Put(sections, heading, body);
    var j := Position(sections, other);
    assert forall k :: 0 <= k < |sections| ==> put[k].heading == sections[k].heading;
    if other == heading { assert put[i].heading == heading; }
    if j < |sections| { assert put[j].heading == other; }
  }

  lemma BodiesGrow(front: seq<Block>, last: Block, heading: string)
    ensures BodiesOf(front + [last], heading)
         == if last.head.level == 2 && last.head.heading == heading then BodiesOf(front, heading) + [last.body] else BodiesOf(front, heading)
    ensures heading in HeadingsOf(front + [last])
       <==> heading in HeadingsOf(front) || (last.head.level == 2 && heading == last.head.heading)
  {
    assert (front + [last])[..|front|] == front;
  }

  /** What putting a body does to one section. */
  lemma PutExactly(sections: seq<Section>, found: Section, there: bool, body: string, s: Section)
    requires DistinctHeadings(sections) && (there <==> found in sections)
    requires !there ==> Position(sections, found.heading) == |sections|
    ensures var put := Put(sections, found.heading, body);
      && DistinctHeadings(put)
      && (s.heading != found.heading ==> (s in put <==> s in sections))
      && (s.heading == found.heading ==> (s in put <==> s.text == if there then found.text + "\n\n" + body else body))
  {
    var i, put := Position(sections, found.heading), Put(sections, found.heading, body);
    if there {
      var k :| 0 <= k < |sections| && sections[k] == found;
      assert i == k;
    }
    assert |put| == |sections| + (if there then 0 else 1);
    assert forall k :: 0 <= k < |sections| && k != i ==> put[k] == sections[k] && put[k].heading != found.heading;
    assert put[i] == Section(found.heading, if there then found.text + "\n\n" + body else body);
    if s in put {
      var k :| 0 <= k < |put| && put[k] == s;
    }
    if s.heading != found.heading && s in sections {
      var k :| 0 <= k < |sections| && sections[k] == s;
      assert put[k] == s;
    }
  }

  // ----- Where a retained section comes from -----

  /** The file has this section, with text, and it is no stub. */
  ghost predicate Offers(isStub: string -> bool, sections: seq<Section>, s: Section) {
    s in sections && Solid(s.text) != "" && !isStub(s.text)
  }

  lemma UsableExactly(isStub: string -> bool, sections: seq<Section>, heading: string)
    requires DistinctHeadings(sections)
    ensures Usable(isStub, sections, heading) <==> exists s :: Offers(isStub, sections, s) && s.heading == heading
    ensures forall s :: Offers(isStub, sections, s) && s.heading == heading ==>
      Position(sections, heading) < |sections| && sections[Position(sections, heading)] == s
  {
    var i := Position(sections, heading);
    if i < |sections| { BlankExactly(sections[i].text); }
    forall s | Offers(isStub, sections, s) && s.heading == heading ensures i < |sections| && sections[i] == s {
      var k :| 0 <= k < |sections| && sections[k] == s;
      assert i <= k;
    }
    if Usable(isStub, sections, heading) { assert Offers(isStub, sections, sections[i]); }
  }

  /** `rationale.md` first, and `index.md` only when it has nothing to offer. */
  lemma PickedExactly(isStub: string -> bool, index: seq<Section>, rationale: seq<Section>, heading: string, x: Source)
    requires DistinctHeadings(index) && DistinctHeadings(rationale)
    ensures PickSource(isStub, index, rationale, heading) == Some(x) <==>
      && x.section.heading == heading
      && if x.fromRationale then Offers(isStub, rationale, x.section)
         else Offers(isStub, index, x.section) && forall s :: Offers(isStub, rationale, s) ==> s.heading != heading
  {
    UsableExactly(isStub, index, heading);
    UsableExactly(isStub, rationale, heading);
  }
}
