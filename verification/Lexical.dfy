/** The lexical tokenizer of `application/lexical.py`. Letters and combining
    marks are given as predicates. */
module Lexical {
  import opened Text

  datatype Classes = Classes(letter: char -> bool, mark: char -> bool)

  predicate Digit(c: char) { '0' <= c <= '9' }
  predicate Apostrophe(c: char) { c == '\'' || c == '\U{2019}' }

  predicate Alnum(cl: Classes, c: char) { cl.letter(c) || Digit(c) }

  /** What any assignment of Unicode categories satisfies. */
  ghost predicate Categories(cl: Classes) {
    && (forall c :: cl.letter(c) ==> !cl.mark(c))
    && !Alnum(cl, ' ') && !cl.mark(' ')
    && (forall c :: Apostrophe(c) ==> !Alnum(cl, c) && !cl.mark(c))
  }

  /** The apostrophe at `i` stands between two letters or digits. */
  predicate Inner(cl: Classes, text: string, i: nat)
    requires i < |text|
  {
    i > 0 && Alnum(cl, text[i - 1]) && i + 1 < |text| && Alnum(cl, text[i + 1])
  }

  function Flush(current: string): seq<string> {
    if current == "" then [] else [current]
  }

  /** The scan from position `i` with an open token. */
  function Scan(cl: Classes, text: string, i: nat, current: string): seq<string>
    requires i <= |text|
    decreases |text| - i
  {
    if i == |text| then Flush(current)
    else
      var c := text[i];
      if Alnum(cl, c) then Scan(cl, text, i + 1, current + [c])
      else if cl.mark(c) then Scan(cl, text, i + 1, if current == "" then current else current + [c])
      else if Apostrophe(c) && Inner(cl, text, i) then Scan(cl, text, i + 1, current + [c])
      else Flush(current) + Scan(cl, text, i + 1, "")
  }

  function WithoutStops(stops: set<string>, tokens: seq<string>): seq<string> {
    if tokens == [] then []
    else
      WithoutStops(stops, tokens[..|tokens| - 1])
      + if tokens[|tokens| - 1] in stops then [] else [tokens[|tokens| - 1]]
  }

  /** `normalize` stands for NFC followed by lower casing. */
  function Tokens(cl: Classes, normalize: string -> string, stops: set<string>, text: string): seq<string> {
    WithoutStops(stops, Scan(cl, normalize(text), 0, ""))
  }

  /** `tokenize` with its scan loop and its two buffers. */
  method Tokenize(cl: Classes, normalize: string -> string, stops: set<string>, text: string) returns (result: seq<string>)
    ensures result == Tokens(cl, normalize, stops, text)
  {
    var lowered := normalize(text);
    var tokens, current := [], "";
    for i := 0 to |lowered|
      invariant tokens + Scan(cl, lowered, i, current) == Scan(cl, lowered, 0, "")
    {
      var c := lowered[i];
      ghost var open, done := current, tokens;
      if Alnum(cl, c) {
        current := current + [c];
        continue;
      }
      if cl.mark(c) {
        if current != "" {
          current := current + [c];
        }
        continue;
      }
      if Apostrophe(c) {
        if Inner(cl, lowered, i) {
          current := current + [c];
          continue;
        }
      }
      if current != "" {
        tokens := tokens + [current];
        current := "";
      }
      assert done + (Flush(open) + Scan(cl, lowered, i + 1, "")) == (done + Flush(open)) + Scan(cl, lowered, i + 1, "");
    }
    assert tokens + Flush(current) == Scan(cl, lowered, 0, "");
    if current != "" {
      tokens := tokens + [current];
    }
    assert tokens == Scan(cl, lowered, 0, "");
    result := WithoutStops(stops, tokens);
  }

  // ----- Shape of tokens -----

  /** Starts with a letter or digit; apostrophes only between letters or digits. */
  ghost predicate WellFormed(cl: Classes, w: string) {
    && w != "" && Alnum(cl, w[0])
    && forall k :: 0 <= k < |w| ==> Alnum(cl, w[k]) || cl.mark(w[k]) || (Apostrophe(w[k]) && Inner(cl, w, k))
  }

  /** Character `k` of an open token: an apostrophe at its end waits for the
      next character of the text. */
  ghost predicate OpenAt(cl: Classes, text: string, i: nat, w: string, k: nat)
    requires i <= |text| && k < |w|
  {
    || Alnum(cl, w[k]) || cl.mark(w[k])
    || (Apostrophe(w[k]) && k > 0 && Alnum(cl, w[k - 1])
        && if k + 1 < |w| then Alnum(cl, w[k + 1]) else i < |text| && Alnum(cl, text[i]))
  }

  /** The open token of a scan at position `i`. */
  ghost predicate OpenToken(cl: Classes, text: string, i: nat, w: string)
    requires i <= |text|
  {
    && (w != "" ==> Alnum(cl, w[0]))
    && (forall k :: 0 <= k < |w| ==> OpenAt(cl, text, i, w, k))
    && (i > 0 && Alnum(cl, text[i - 1]) ==> w != "" && w[|w| - 1] == text[i - 1])
  }

  lemma OpenGrows(cl: Classes, text: string, i: nat, w: string)
    requires Categories(cl) && i < |text| && OpenToken(cl, text, i, w)
    requires Alnum(cl, text[i]) || (cl.mark(text[i]) && w != "") || (Apostrophe(text[i]) && Inner(cl, text, i))
    ensures OpenToken(cl, text, i + 1, w + [text[i]])
  {
    var w', next := w + [text[i]], i + 1;
    forall k | 0 <= k < |w'| ensures OpenAt(cl, text, next, w', k) {
      if k < |w| {
        assert OpenAt(cl, text, i, w, k);
      }
    }
  }

  /** Every token of a scan is well formed. */
  lemma {:induction false} ScanWellFormed(cl: Classes, text: string, i: nat, w: string)
    requires Categories(cl) && i <= |text| && OpenToken(cl, text, i, w)
    ensures forall t :: t in Scan(cl, text, i, w) ==> WellFormed(cl, t)
    decreases |text| - i
  {
    if i == |text| {
      if w != "" { OpenClosed(cl, text, i, w); }
    } else if Alnum(cl, text[i]) || (cl.mark(text[i]) && w != "") || (!cl.mark(text[i]) && Apostrophe(text[i]) && Inner(cl, text, i)) {
      OpenGrows(cl, text, i, w);
      ScanWellFormed(cl, text, i + 1, w + [text[i]]);
    } else if cl.mark(text[i]) {
      ScanWellFormed(cl, text, i + 1, w);
    } else {
      if w != "" { OpenClosed(cl, text, i, w); }
      ScanWellFormed(cl, text, i + 1, "");
    }
  }

  /** Where no letter or digit follows, an open token is complete. */
  lemma OpenClosed(cl: Classes, text: string, i: nat, w: string)
    requires i <= |text| && OpenToken(cl, text, i, w) && w != ""
    requires i == |text| || !Alnum(cl, text[i])
    ensures WellFormed(cl, w)
  {
    forall k | 0 <= k < |w| ensures Alnum(cl, w[k]) || cl.mark(w[k]) || (Apostrophe(w[k]) && Inner(cl, w, k)) {
      assert OpenAt(cl, text, i, w, k);
    }
  }

  // ----- Re-scanning printed tokens -----

  /** A well formed word standing at `at` is read back letter by letter. */
  lemma {:induction false} ReadWord(cl: Classes, text: string, at: nat, w: string, k: nat)
    requires Categories(cl) && WellFormed(cl, w) && k <= |w| && at + |w| <= |text|
    requires text[at..at + |w|] == w
    ensures Scan(cl, text, at + k, w[..k]) == Scan(cl, text, at + |w|, w)
    decreases |w| - k
  {
    if k == |w| {
      assert w[..k] == w;
    } else {
      assert text[at + k] == w[k];
      assert w[..k] + [w[k]] == w[..k + 1];
      if Apostrophe(w[k]) {
        assert text[at + k - 1] == text[at..at + |w|][k - 1] && text[at + k + 1] == text[at..at + |w|][k + 1];
        assert Inner(cl, text, at + k);
      }
      ReadWord(cl, text, at, w, k + 1);
    }
  }

  lemma {:induction false} ReadWords(cl: Classes, text: string, at: nat, words: seq<string>)
    requires Categories(cl) && at <= |text| && text[at..] == Join(" ", words)
    requires forall w :: w in words ==> WellFormed(cl, w)
    ensures Scan(cl, text, at, "") == words
    decreases |words|
  {
    if words != [] {
      var w, rest := words[0], words[1..];
      assert w in words;
      assert forall v :: v in rest ==> v in words;
      var joined := Join(" ", words);
      assert joined[..|w|] == w;
      assert text[at..at + |w|] == text[at..][..|w|];
      ReadWord(cl, text, at, w, 0);
      assert w[..0] == "";
      if rest == [] {
        assert |text| == at + |w| && words == [w];
      } else {
        assert joined == w + " " + Join(" ", rest);
        assert text[at + |w|] == joined[|w|] == ' ';
        assert text[at + |w| + 1..] == joined[|w| + 1..] == Join(" ", rest);
        ReadWords(cl, text, at + |w| + 1, rest);
        assert [w] + rest == words;
      }
    }
  }

  /** Printing the scanned tokens with spaces and scanning again changes nothing. */
  lemma PrintScanRoundTrip(cl: Classes, text: string)
    requires Categories(cl)
    ensures Scan(cl, Join(" ", Scan(cl, text, 0, "")), 0, "") == Scan(cl, text, 0, "")
    ensures forall t :: t in Scan(cl, text, 0, "") ==> WellFormed(cl, t)
  {
    ScanWellFormed(cl, text, 0, "");
    var tokens := Scan(cl, text, 0, "");
    assert Join(" ", tokens)[0..] == Join(" ", tokens);
    ReadWords(cl, Join(" ", tokens), 0, tokens);
  }

  lemma {:induction false} StopsGone(stops: set<string>, tokens: seq<string>)
    ensures forall t :: t in WithoutStops(stops, tokens) <==> t in tokens && t !in stops
    ensures (forall t :: t in tokens ==> t !in stops) ==> WithoutStops(stops, tokens) == tokens
  {
    if tokens != [] {
      var front, last := tokens[..|tokens| - 1], tokens[|tokens| - 1];
      StopsGone(stops, front);
      assert tokens == front + [last];
    }
  }

  /** Tokenizing is idempotent where normalization has nothing left to do. */
  lemma TokenizeIdempotent(cl: Classes, normalize: string -> string, stops: set<string>, text: string)
    requires Categories(cl)
    requires var printed := Join(" ", Tokens(cl, normalize, stops, text)); normalize(printed) == printed
    ensures Tokens(cl, normalize, stops, Join(" ", Tokens(cl, normalize, stops, text))) == Tokens(cl, normalize, stops, text)
  {
    var scanned := Scan(cl, normalize(text), 0, "");
    var tokens := WithoutStops(stops, scanned);
    ScanWellFormed(cl, normalize(text), 0, "");
    StopsGone(stops, scanned);
    var printed := Join(" ", tokens);
    assert printed[0..] == printed;
    ReadWords(cl, printed, 0, tokens);
    StopsGone(stops, tokens);
  }
}
