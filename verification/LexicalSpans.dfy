/** Which stretches of a text the tokenizer takes: the tokens are the maximal
    stretches without a separator, from their first letter or digit on. */
module LexicalSpans {
  import opened Lexical

  /** A letter or an ASCII digit. */
  ghost predicate WordChar(cl: Classes, c: char) {
    cl.letter(c) || '0' <= c <= '9'
  }

  /** A letter, a digit, or an apostrophe between two of them. */
  ghost predicate Kept(cl: Classes, text: string, i: nat)
    requires i < |text|
  {
    || WordChar(cl, text[i])
    || (!cl.mark(text[i]) && (text[i] == '\'' || text[i] == '\U{2019}')
        && 0 < i < |text| - 1 && WordChar(cl, text[i - 1]) && WordChar(cl, text[i + 1]))
  }

  /** Neither kept nor a combining mark. */
  ghost predicate Separates(cl: Classes, text: string, i: nat)
    requires i < |text|
  {
    !Kept(cl, text, i) && !cl.mark(text[i])
  }

  datatype Span = Span(start: nat, end: nat)

  /** A span starts on a kept character, holds no separator, and ends where the
      text does or at a separator. */
  ghost predicate IsSpan(cl: Classes, text: string, s: Span) {
    && s.start < s.end <= |text| && Kept(cl, text, s.start)
    && (forall i :: s.start <= i < s.end ==> !Separates(cl, text, i))
    && (s.end == |text| || Separates(cl, text, s.end))
  }

  ghost predicate InSome(spans: seq<Span>, i: nat) {
    exists k :: 0 <= k < |spans| && spans[k].start <= i < spans[k].end
  }

  ghost predicate Ordered(spans: seq<Span>) {
    forall k, l :: 0 <= k < l < |spans| ==> spans[k].end <= spans[l].start
  }

  ghost predicate AllSpans(cl: Classes, text: string, from: nat, spans: seq<Span>) {
    forall k :: 0 <= k < |spans| ==> IsSpan(cl, text, spans[k]) && from <= spans[k].start
  }

  ghost predicate HoldKept(cl: Classes, text: string, from: nat, spans: seq<Span>) {
    forall i :: from <= i < |text| && Kept(cl, text, i) ==> InSome(spans, i)
  }

  /** The spans from `from` on, in order, with every kept character inside one. */
  ghost predicate AreSpans(cl: Classes, text: string, from: nat, spans: seq<Span>) {
    AllSpans(cl, text, from, spans) && Ordered(spans) && HoldKept(cl, text, from, spans)
  }

  ghost predicate ReadFrom(text: string, spans: seq<Span>, tokens: seq<string>) {
    |tokens| == |spans| && forall k :: 0 <= k < |spans| ==>
      spans[k].start <= spans[k].end <= |text| && tokens[k] == text[spans[k].start..spans[k].end]
  }

  /** A token is open since `start`; without one, `start` is the scan position. */
  ghost predicate Open(cl: Classes, text: string, start: nat, i: nat, current: string) {
    && start <= i <= |text| && current == text[start..i]
    && (start < i ==> Kept(cl, text, start) && forall j :: start <= j < i ==> !Separates(cl, text, j))
  }

  lemma OpenNext(cl: Classes, text: string, start: nat, i: nat, current: string)
    requires Open(cl, text, start, i, current) && i < |text| && !Separates(cl, text, i)
    requires start == i ==> Kept(cl, text, i)
    ensures Open(cl, text, start, i + 1, current + [text[i]])
  {
    assert text[start..i + 1] == text[start..i] + [text[i]];
  }

  lemma {:induction false} ScanSpans(cl: Classes, text: string, start: nat, i: nat, current: string) returns (spans: seq<Span>)
    requires Open(cl, text, start, i, current)
    ensures AreSpans(cl, text, start, spans) && ReadFrom(text, spans, Scan(cl, text, i, current))
    decreases |text| - i
  {
    if i == |text| {
      spans := if start < i then [Span(start, i)] else [];
      assert start < i ==> spans[0] == Span(start, i);
      forall j | start <= j < |text| && Kept(cl, text, j) ensures InSome(spans, j) {
        assert spans[0].start <= j < spans[0].end;
      }
    } else if Kept(cl, text, i) || (cl.mark(text[i]) && start < i) {
      OpenNext(cl, text, start, i, current);
      spans := ScanSpans(cl, text, start, i + 1, current + [text[i]]);
    } else if cl.mark(text[i]) {
      spans := ScanSpans(cl, text, i + 1, i + 1, "");
      SkipOne(cl, text, i, spans);
    } else {
      spans := ScanSpans(cl, text, i + 1, i + 1, "");
      if start < i {
        CloseSpan(cl, text, start, i, current, spans, Scan(cl, text, i + 1, ""));
        spans := [Span(start, i)] + spans;
      } else {
        SkipOne(cl, text, i, spans);
        assert [] + Scan(cl, text, i + 1, "") == Scan(cl, text, i + 1, "");
      }
    }
  }

  lemma SkipOne(cl: Classes, text: string, i: nat, spans: seq<Span>)
    requires i < |text| && !Kept(cl, text, i) && AreSpans(cl, text, i + 1, spans)
    ensures AreSpans(cl, text, i, spans)
  {
  }

  lemma SpanBefore(first: Span, spans: seq<Span>, i: nat)
    ensures InSome([first] + spans, i) <==> first.start <= i < first.end || InSome(spans, i)
  {
    var all := [first] + spans;
    if InSome(spans, i) {
      var k :| 0 <= k < |spans| && spans[k].start <= i < spans[k].end;
      assert all[k + 1] == spans[k];
    }
    if first.start <= i < first.end { assert all[0] == first; }
    if InSome(all, i) {
      var k :| 0 <= k < |all| && all[k].start <= i < all[k].end;
      assert k > 0 ==> spans[k - 1] == all[k];
    }
  }

  lemma PrependSpan(cl: Classes, text: string, first: Span, spans: seq<Span>)
    requires IsSpan(cl, text, first) && AllSpans(cl, text, first.end, spans) && Ordered(spans)
    ensures AllSpans(cl, text, first.start, [first] + spans) && Ordered([first] + spans)
  {
    var all := [first] + spans;
    assert forall k :: 0 < k < |all| ==> all[k] == spans[k - 1];
  }

  lemma HoldsBefore(cl: Classes, text: string, start: nat, i: nat, spans: seq<Span>)
    requires start < i < |text| && !Kept(cl, text, i) && HoldKept(cl, text, i + 1, spans)
    ensures HoldKept(cl, text, start, [Span(start, i)] + spans)
  {
    forall j | start <= j < |text| && Kept(cl, text, j) ensures InSome([Span(start, i)] + spans, j) {
      SpanBefore(Span(start, i), spans, j);
    }
  }

  lemma ReadBefore(text: string, start: nat, i: nat, spans: seq<Span>, tokens: seq<string>)
    requires start < i <= |text| && ReadFrom(text, spans, tokens)
    ensures ReadFrom(text, [Span(start, i)] + spans, [text[start..i]] + tokens)
  {
    var all, read := [Span(start, i)] + spans, [text[start..i]] + tokens;
    assert forall k :: 0 < k < |all| ==> all[k] == spans[k - 1] && read[k] == tokens[k - 1];
  }

  lemma CloseSpan(cl: Classes, text: string, start: nat, i: nat, current: string, spans: seq<Span>, tokens: seq<string>)
    requires Open(cl, text, start, i, current) && start < i < |text| && Separates(cl, text, i)
    requires AreSpans(cl, text, i + 1, spans) && ReadFrom(text, spans, tokens)
    ensures AreSpans(cl, text, start, [Span(start, i)] + spans) && ReadFrom(text, [Span(start, i)] + spans, [current] + tokens)
  {
    assert AllSpans(cl, text, i, spans);
    PrependSpan(cl, text, Span(start, i), spans);
    HoldsBefore(cl, text, start, i, spans);
    ReadBefore(text, start, i, spans, tokens);
  }

  /** The scanned tokens are the texts of such spans, which hold every letter and
      digit of the text. */
  lemma TokensAreSpans(cl: Classes, text: string)
    ensures exists spans :: AreSpans(cl, text, 0, spans) && ReadFrom(text, spans, Scan(cl, text, 0, ""))
  {
    assert text[0..0] == "";
    var spans := ScanSpans(cl, text, 0, 0, "");
  }

  // ----- There is one such list of spans -----

  /** Two spans that share a place are the same. */
  lemma SpansMeet(cl: Classes, text: string, a: Span, b: Span, i: nat)
    requires IsSpan(cl, text, a) && IsSpan(cl, text, b) && a.start <= i < a.end && b.start <= i < b.end
    ensures a.end == b.end
  {
  }

  lemma FirstSpans(cl: Classes, text: string, from: nat, a: seq<Span>, b: seq<Span>)
    requires AreSpans(cl, text, from, a) && AreSpans(cl, text, from, b) && a != []
    ensures b != [] && a[0].start >= b[0].start
  {
    assert IsSpan(cl, text, a[0]) && InSome(b, a[0].start);
    var k :| 0 <= k < |b| && b[k].start <= a[0].start < b[k].end;
    assert k == 0 || b[0].end <= b[k].start;
    assert IsSpan(cl, text, b[0]);
  }

  lemma RestOfSpans(cl: Classes, text: string, from: nat, spans: seq<Span>)
    requires AreSpans(cl, text, from, spans) && spans != []
    ensures AreSpans(cl, text, spans[0].end, spans[1..])
  {
    RestInOrder(cl, text, from, spans);
    assert IsSpan(cl, text, spans[0]) && spans == [spans[0]] + spans[1..];
    forall i | spans[0].end <= i < |text| && Kept(cl, text, i) ensures InSome(spans[1..], i) {
      SpanBefore(spans[0], spans[1..], i);
    }
  }

  lemma RestInOrder(cl: Classes, text: string, from: nat, spans: seq<Span>)
    requires AllSpans(cl, text, from, spans) && Ordered(spans) && spans != []
    ensures AllSpans(cl, text, spans[0].end, spans[1..]) && Ordered(spans[1..])
  {
    assert forall k :: 0 <= k < |spans[1..]| ==> spans[1..][k] == spans[k + 1];
  }

  lemma {:induction false} SpansUnique(cl: Classes, text: string, from: nat, a: seq<Span>, b: seq<Span>)
    requires AreSpans(cl, text, from, a) && AreSpans(cl, text, from, b)
    ensures a == b
    decreases |a|
  {
    if a != [] {
      RestSame(cl, text, from, a, b);
      SpansUnique(cl, text, a[0].end, a[1..], b[1..]);
      SameHeadAndTail(a, b);
    } else if b != [] {
      FirstSame(cl, text, from, b, a);
    }
  }

  lemma SameHeadAndTail(a: seq<Span>, b: seq<Span>)
    requires a != [] && b != [] && a[0] == b[0] && a[1..] == b[1..]
    ensures a == b
  {
    assert a == [a[0]] + a[1..] && b == [b[0]] + b[1..];
  }

  lemma RestSame(cl: Classes, text: string, from: nat, a: seq<Span>, b: seq<Span>)
    requires AreSpans(cl, text, from, a) && AreSpans(cl, text, from, b) && a != []
    ensures b != [] && a[0] == b[0] && AreSpans(cl, text, a[0].end, a[1..]) && AreSpans(cl, text, a[0].end, b[1..])
  {
    FirstSame(cl, text, from, a, b);
    RestOfSpans(cl, text, from, a);
    RestOfSpans(cl, text, from, b);
  }

  lemma FirstSame(cl: Classes, text: string, from: nat, a: seq<Span>, b: seq<Span>)
    requires AreSpans(cl, text, from, a) && AreSpans(cl, text, from, b) && a != []
    ensures b != [] && a[0] == b[0]
  {
    FirstSpans(cl, text, from, a, b);
    FirstSpans(cl, text, from, b, a);
    assert IsSpan(cl, text, a[0]) && IsSpan(cl, text, b[0]);
    SpansMeet(cl, text, a[0], b[0], a[0].start);
  }

  // ----- Stopwords -----

  /** What is left are the other tokens, in order and with repeats. */
  ghost predicate AreOthers(stops: set<string>, tokens: seq<string>, left: seq<string>, places: seq<nat>) {
    && |places| == |left|
    && (forall j :: 0 <= j < |places| ==> places[j] < |tokens| && left[j] == tokens[places[j]])
    && (forall i, j :: 0 <= i < j < |places| ==> places[i] < places[j])
    && (forall i :: 0 <= i < |tokens| ==> (tokens[i] !in stops <==> i in places))
  }

  ghost function OtherPlaces(stops: set<string>, tokens: seq<string>): seq<nat> {
    if tokens == [] then []
    else OtherPlaces(stops, tokens[..|tokens| - 1]) + if tokens[|tokens| - 1] in stops then [] else [|tokens| - 1]
  }

  lemma {:induction false} StopsRemoved(stops: set<string>, tokens: seq<string>)
    ensures AreOthers(stops, tokens, WithoutStops(stops, tokens), OtherPlaces(stops, tokens))
  {
    if tokens != [] {
      var front, last := tokens[..|tokens| - 1], tokens[|tokens| - 1];
      StopsRemoved(stops, front);
      assert tokens == front + [last];
      if last in stops {
        StopNext(stops, front, WithoutStops(stops, front), OtherPlaces(stops, front), last);
      } else {
        OtherNext(stops, front, WithoutStops(stops, front), OtherPlaces(stops, front), last);
      }
    }
  }

  lemma StopNext(stops: set<string>, tokens: seq<string>, left: seq<string>, places: seq<nat>, last: string)
    requires AreOthers(stops, tokens, left, places) && last in stops
    ensures AreOthers(stops, tokens + [last], left + [], places + [])
  {
    assert left + [] == left && places + [] == places;
    assert forall i :: 0 <= i < |tokens| ==> (tokens + [last])[i] == tokens[i];
    assert forall p :: p in places ==> p < |tokens|;
  }

  lemma OtherNext(stops: set<string>, tokens: seq<string>, left: seq<string>, places: seq<nat>, last: string)
    requires AreOthers(stops, tokens, left, places) && last !in stops
    ensures AreOthers(stops, tokens + [last], left + [last], places + [|tokens|])
  {
    var all, next := tokens + [last], places + [|tokens|];
    assert forall i :: 0 <= i < |tokens| ==> all[i] == tokens[i];
    assert forall p :: p in next <==> p in places || p == |tokens|;
    assert forall p :: p in places ==> p < |tokens|;
  }
}
