/** Python's whitespace and the few `str` methods the models share. */
module Text {
  /** A token counter. */
  type Counter = string -> nat

  /** `str.isspace` for one character, which is also what `\s` matches. */
  predicate IsSpace(c: char) {
    || '\t' <= c <= '\r' || '\U{1C}' <= c <= ' ' || c == '\U{85}' || c == '\U{A0}'
    || c == '\U{1680}' || '\U{2000}' <= c <= '\U{200A}' || c == '\U{2028}' || c == '\U{2029}'
    || c == '\U{202F}' || c == '\U{205F}' || c == '\U{3000}'
  }

  /** Lines end in LF: `\r\n` and `\r` both become `\n`. */
  function LineFeeds(text: string): string {
    if text == "" then ""
    else if text[0] == '\r' then
      if |text| > 1 && text[1] == '\n' then "\n" + LineFeeds(text[2..]) else "\n" + LineFeeds(text[1..])
    else [text[0]] + LineFeeds(text[1..])
  }

  lemma {:induction false} LineFeedsKeeps(prefix: string, text: string)
    requires '\r' !in prefix
    ensures LineFeeds(prefix + text) == prefix + LineFeeds(text)
  {
    if prefix == "" {
      assert prefix + text == text;
    } else {
      assert (prefix + text)[1..] == prefix[1..] + text;
      LineFeedsKeeps(prefix[1..], text);
    }
  }

  lemma {:induction false} LineFeedsIdempotent(text: string)
    ensures '\r' !in LineFeeds(text) && LineFeeds(LineFeeds(text)) == LineFeeds(text)
    decreases |text|
  {
    if text != "" {
      var step := if text[0] == '\r' && |text| > 1 && text[1] == '\n' then 2 else 1;
      LineFeedsIdempotent(text[step..]);
      var head := if text[0] == '\r' then "\n" else [text[0]];
      assert LineFeeds(text) == head + LineFeeds(text[step..]);
      LineFeedsKeeps(head, LineFeeds(text[step..]));
    }
  }

  /** `sep.join(parts)`. */
  function Join(sep: string, parts: seq<string>): string {
    if |parts| == 0 then ""
    else if |parts| == 1 then parts[0]
    else parts[0] + sep + Join(sep, parts[1..])
  }

  /** The length of the leading run of characters that are not whitespace. */
  function WordLength(text: string): (n: nat)
    ensures n <= |text| && (forall i :: 0 <= i < n ==> !IsSpace(text[i]))
    ensures n < |text| ==> IsSpace(text[n])
  {
    if text == "" || IsSpace(text[0]) then 0 else 1 + WordLength(text[1..])
  }

  /** `text.split()`: the maximal runs of characters that are not whitespace. */
  function Words(text: string): (words: seq<string>)
    ensures forall w :: w in words ==> w != "" && forall c :: c in w ==> !IsSpace(c)
    decreases |text|
  {
    if text == "" then []
    else if IsSpace(text[0]) then Words(text[1..])
    else [text[..WordLength(text)]] + Words(text[WordLength(text)..])
  }

  /** `needle in haystack` for strings. */
  predicate Contains(haystack: string, needle: string) {
    exists i :: 0 <= i <= |haystack| && needle <= haystack[i..]
  }

  /** `text.strip(chars)` with the set given as a predicate. */
  function StripLeft(drop: char -> bool, text: string): string {
    if text != "" && drop(text[0]) then StripLeft(drop, text[1..]) else text
  }

  function StripRight(drop: char -> bool, text: string): string {
    if text != "" && drop(text[|text| - 1]) then StripRight(drop, text[..|text| - 1]) else text
  }

  function StripChars(drop: char -> bool, text: string): string {
    StripRight(drop, StripLeft(drop, text))
  }

  /** Nothing but whitespace: `not text.strip()`. */
  predicate Blank(text: string) {
    StripChars(IsSpace, text) == ""
  }

  /** The characters a whitespace rewrite must keep, in order. */
  function Solid(text: string): string {
    if text == "" then ""
    else (if IsSpace(text[0]) then "" else [text[0]]) + Solid(text[1..])
  }

  lemma {:induction false} SolidConcat(a: string, b: string)
    ensures Solid(a + b) == Solid(a) + Solid(b)
  {
    if a == "" {
      assert a + b == b;
    } else {
      assert (a + b)[1..] == a[1..] + b;
      SolidConcat(a[1..], b);
    }
  }

  /** Stripping whitespace characters loses no solid character. */
  lemma {:induction false} SolidStripLeft(drop: char -> bool, text: string)
    requires forall c :: drop(c) ==> IsSpace(c)
    ensures Solid(StripLeft(drop, text)) == Solid(text)
  {
    if text != "" && drop(text[0]) { SolidStripLeft(drop, text[1..]); }
  }

  lemma {:induction false} SolidStripRight(drop: char -> bool, text: string)
    requires forall c :: drop(c) ==> IsSpace(c)
    ensures Solid(StripRight(drop, text)) == Solid(text)
  {
    if text != "" && drop(text[|text| - 1]) {
      var head, last := text[..|text| - 1], text[|text| - 1..];
      assert text == head + last;
      SolidConcat(head, last);
      SolidStripRight(drop, head);
    }
  }

  lemma SolidStrip(drop: char -> bool, text: string)
    requires forall c :: drop(c) ==> IsSpace(c)
    ensures Solid(StripChars(drop, text)) == Solid(text)
  {
    SolidStripLeft(drop, text);
    SolidStripRight(drop, StripLeft(drop, text));
  }

  lemma {:induction false} SolidBlank(text: string)
    ensures Solid(text) == "" <==> forall c :: c in text ==> IsSpace(c)
  {
    if text != "" {
      SolidBlank(text[1..]);
      assert text == [text[0]] + text[1..];
    }
  }

  lemma {:induction false} BlankStrips(text: string)
    requires forall c :: c in text ==> IsSpace(c)
    ensures StripLeft(IsSpace, text) == ""
  {
    if text != "" {
      assert text[0] in text;
      BlankStrips(text[1..]);
    }
  }

  lemma BlankExactly(text: string)
    ensures Blank(text) <==> Solid(text) == ""
  {
    SolidStrip(IsSpace, text);
    SolidBlank(text);
    if Solid(text) == "" { BlankStrips(text); }
  }

  /** The concatenation of the solid characters of every part. */
  function SolidAll(parts: seq<string>): string {
    if parts == [] then "" else Solid(parts[0]) + SolidAll(parts[1..])
  }

  lemma {:induction false} SolidAllConcat(a: seq<string>, b: seq<string>)
    ensures SolidAll(a + b) == SolidAll(a) + SolidAll(b)
  {
    if a == [] {
      assert a + b == b;
    } else {
      assert (a + b)[1..] == a[1..] + b;
      SolidAllConcat(a[1..], b);
    }
  }

  lemma {:induction false} SolidJoin(sep: string, parts: seq<string>)
    requires Solid(sep) == ""
    ensures Solid(Join(sep, parts)) == SolidAll(parts)
  {
    if |parts| == 1 {
      assert parts[1..] == [];
    } else if |parts| > 1 {
      SolidConcat(parts[0] + sep, Join(sep, parts[1..]));
      SolidConcat(parts[0], sep);
      SolidJoin(sep, parts[1..]);
    }
  }

  lemma {:induction false} SolidLineFeeds(text: string)
    ensures Solid(LineFeeds(text)) == Solid(text)
    decreases |text|
  {
    if text != "" {
      var step := if text[0] == '\r' && |text| > 1 && text[1] == '\n' then 2 else 1;
      SolidLineFeeds(text[step..]);
      assert text == text[..step] + text[step..];
      SolidConcat(text[..step], text[step..]);
      var head := if text[0] == '\r' then "\n" else [text[0]];
      SolidConcat(head, LineFeeds(text[step..]));
      if step == 2 {
        assert text[..2] == "\r\n";
        assert text[..2][1..] == "\n" && "\n"[1..] == "";
      }
    }
  }

  // ----- Lines: `text.split("\n")` -----

  function Lines(text: string): (lines: seq<string>)
    ensures lines != []
  {
    if text == "" then [""]
    else if text[0] == '\n' then [""] + Lines(text[1..])
    else [[text[0]] + Lines(text[1..])[0]] + Lines(text[1..])[1..]
  }

  lemma {:induction false} LinesAppend(a: string, b: string)
    ensures Lines(a + "\n" + b) == Lines(a) + Lines(b)
  {
    var whole := a + "\n" + b;
    if a == "" {
      assert whole[1..] == b;
    } else {
      assert whole[1..] == a[1..] + "\n" + b;
      LinesAppend(a[1..], b);
    }
  }

  lemma {:induction false} JoinLines(text: string)
    ensures Join("\n", Lines(text)) == text
  {
    if text != "" {
      JoinLines(text[1..]);
      var rest := Lines(text[1..]);
      if text[0] == '\n' {
        assert ([""] + rest)[1..] == rest;
        assert "" + "\n" + Join("\n", rest) == text;
      } else if |rest| > 1 {
        assert [text[0]] + (rest[0] + "\n" + Join("\n", rest[1..])) == text;
      } else {
        assert rest[1..] == [];
      }
    }
  }

  lemma {:induction false} OneLine(text: string)
    requires '\n' !in text
    ensures Lines(text) == [text]
  {
    if text != "" {
      OneLine(text[1..]);
      assert [text[0]] + text[1..] == text;
    }
  }
}
