/** The overlap of `application/chunking.py`: each chunk after the first opens
    with the last sentences of the chunk before it. */
module Overlap {
  import opened Text
  import opened Chunking

  /** Fifteen percent of the chunk, and at least one token. */
  function Limit(tokens: nat): nat {
    if tokens * 15 / 100 < 1 then 1 else tokens * 15 / 100
  }

  function Tail(sentences: seq<string>, drop: nat): string
    requires drop <= |sentences|
  {
    Join(" ", sentences[drop..])
  }

  /** How many leading sentences the overlap drops: the fewest whose tail fits,
      or all of them when not even the last sentence fits. */
  function Drops(count: Counter, limit: nat, sentences: seq<string>, from: nat): (drop: nat)
    requires from <= |sentences|
    ensures from <= drop <= |sentences| && (drop < |sentences| ==> count(Tail(sentences, drop)) <= limit)
    ensures forall j :: from <= j < drop ==> count(Tail(sentences, j)) > limit
    decreases |sentences| - from
  {
    if from == |sentences| || count(Tail(sentences, from)) <= limit then from
    else Drops(count, limit, sentences, from + 1)
  }

  function OverlapOf(count: Counter, chunk: string): string {
    var sentences := Sentences(chunk);
    Tail(sentences, Drops(count, Limit(count(chunk)), sentences, 0))
  }

  /** `_overlap_text`, trying the longest tail first. */
  method OverlapText(count: Counter, chunk: string) returns (overlap: string)
    ensures overlap == OverlapOf(count, chunk)
  {
    var limit := Limit(count(chunk));
    var sentences := SplitSentences(chunk);
    var size := |sentences|;
    while size > 0
      invariant 0 <= size <= |sentences|
      invariant Drops(count, limit, sentences, |sentences| - size) == Drops(count, limit, sentences, 0)
    {
      var joined := Join(" ", sentences[|sentences| - size..]);
      if count(joined) <= limit {
        return joined;
      }
      size := size - 1;
    }
    return "";
  }

  /** An overlap stays within its bound and repeats the end of its chunk. */
  lemma OverlapIsTail(count: Counter, chunk: string)
    ensures OverlapOf(count, chunk) == "" || count(OverlapOf(count, chunk)) <= Limit(count(chunk))
    ensures exists head :: Solid(chunk) == head + Solid(OverlapOf(count, chunk))
  {
    SentencesKeep(chunk);
    TailIsTail(Sentences(chunk), Drops(count, Limit(count(chunk)), Sentences(chunk), 0));
  }

  lemma TailIsTail(sentences: seq<string>, drop: nat)
    requires drop <= |sentences|
    ensures exists head :: SolidAll(sentences) == head + Solid(Tail(sentences, drop))
  {
    SeparatorsAreBlank();
    SolidJoin(" ", sentences[drop..]);
    SolidAllConcat(sentences[..drop], sentences[drop..]);
    assert sentences == sentences[..drop] + sentences[drop..];
  }

  /** The bound is fifteen percent rounded down, but never less than one token. */
  lemma LimitExactly(tokens: nat)
    ensures Limit(tokens) >= 1
    ensures 15 * tokens >= 100 ==> 100 * Limit(tokens) <= 15 * tokens < 100 * (Limit(tokens) + 1)
    ensures 15 * tokens < 100 ==> Limit(tokens) == 1
  {
  }

  /** Of the sentence tails within the bound the overlap is the longest. */
  lemma OverlapIsLongest(count: Counter, chunk: string) returns (drop: nat)
    ensures drop <= |Sentences(chunk)| && OverlapOf(count, chunk) == Join(" ", Sentences(chunk)[drop..])
    ensures drop < |Sentences(chunk)| ==> count(OverlapOf(count, chunk)) <= Limit(count(chunk))
    ensures forall j :: 0 <= j < drop ==> count(Join(" ", Sentences(chunk)[j..])) > Limit(count(chunk))
  {
    var sentences := Sentences(chunk);
    drop := Drops(count, Limit(count(chunk)), sentences, 0);
    forall j | 0 <= j < drop ensures count(Join(" ", sentences[j..])) > Limit(count(chunk)) {
      assert count(Tail(sentences, j)) > Limit(count(chunk));
    }
  }

  // ----- Applying it -----

  function Opening(count: Counter, previous: string): string {
    if OverlapOf(count, previous) == "" then "" else OverlapOf(count, previous) + "\n\n"
  }

  function Openings(count: Counter): string -> string {
    (previous: string) => Opening(count, previous)
  }

  /** The chunks behind `previous`, each opening with the overlap of the packed
      chunk before it, never with that chunk's own overlap. */
  function LappedFrom(opening: string -> string, previous: string, rest: seq<string>): seq<string>
    decreases |rest|
  {
    if rest == [] then [] else [opening(previous) + rest[0]] + LappedFrom(opening, rest[0], rest[1..])
  }

  function Overlapped(opening: string -> string, packed: seq<string>): seq<string> {
    if packed == [] then [] else [packed[0]] + LappedFrom(opening, packed[0], packed[1..])
  }

  /** `_apply_overlap`. */
  method ApplyOverlap(count: Counter, packed: seq<string>) returns (result: seq<string>)
    ensures result == Overlapped(Openings(count), packed)
  {
    if packed == [] {
      return packed;
    }
    result := [packed[0]];
    ghost var opening, rest := Openings(count), packed[1..];
    for index := 1 to |packed|
      invariant rest == packed[index..]
      invariant result + LappedFrom(opening, packed[index - 1], rest) == Overlapped(opening, packed)
    {
      var next := OpenChunk(count, packed[index - 1], packed[index]);
      LappedNext(opening, result, packed[index - 1], rest);
      result := result + [next];
      rest := rest[1..];
    }
  }

  lemma LappedNext(opening: string -> string, result: seq<string>, previous: string, rest: seq<string>)
    requires rest != []
    ensures result + LappedFrom(opening, previous, rest)
         == result + [opening(previous) + rest[0]] + LappedFrom(opening, rest[0], rest[1..])
  {
  }

  method OpenChunk(count: Counter, previous: string, chunk: string) returns (lapped: string)
    ensures lapped == Openings(count)(previous) + chunk
  {
    var overlap := OverlapText(count, previous);
    lapped := if overlap != "" then overlap + "\n\n" + chunk else chunk;
  }

  lemma {:induction false} LappedFromAt(opening: string -> string, previous: string, rest: seq<string>, k: nat)
    requires k < |rest|
    ensures |LappedFrom(opening, previous, rest)| == |rest|
    ensures LappedFrom(opening, previous, rest)[k] == opening(if k == 0 then previous else rest[k - 1]) + rest[k]
    decreases |rest|
  {
    if |rest| > 1 { LappedFromAt(opening, rest[0], rest[1..], if k == 0 then 0 else k - 1); }
  }

  /** Each chunk but the first is the overlap of its packed predecessor, a blank
      line, and the packed chunk; or the packed chunk alone without an overlap. */
  lemma ChunkOpens(count: Counter, packed: seq<string>, k: nat)
    requires k < |packed|
    ensures var chunks := Overlapped(Openings(count), packed);
      && |chunks| == |packed|
      && chunks[k] == if k == 0 || OverlapOf(count, packed[k - 1]) == "" then packed[k]
                      else OverlapOf(count, packed[k - 1]) + "\n\n" + packed[k]
  {
    if k > 0 {
      LappedFromAt(Openings(count), packed[0], packed[1..], k - 1);
      assert "" + packed[k] == packed[k];
    } else if |packed| > 1 {
      LappedFromAt(Openings(count), packed[0], packed[1..], 0);
    }
  }

  /** The text behind an opening of known length. */
  function Behind(head: string, text: string): string {
    if |head| <= |text| then text[|head|..] else text
  }

  lemma BehindItsHead(head: string, text: string)
    ensures Behind(head, head + text) == text
  {
    assert (head + text)[|head|..] == text;
  }

  /** Undo the overlap, front to back. */
  function RecoveredFrom(opening: string -> string, previous: string, rest: seq<string>): seq<string>
    decreases |rest|
  {
    if rest == [] then []
    else
      var own := Behind(opening(previous), rest[0]);
      [own] + RecoveredFrom(opening, own, rest[1..])
  }

  function Recovered(opening: string -> string, result: seq<string>): seq<string> {
    if result == [] then [] else [result[0]] + RecoveredFrom(opening, result[0], result[1..])
  }

  lemma {:induction false} RecoversFrom(opening: string -> string, previous: string, rest: seq<string>)
    ensures RecoveredFrom(opening, previous, LappedFrom(opening, previous, rest)) == rest
    decreases |rest|
  {
    if rest != [] {
      BehindItsHead(opening(previous), rest[0]);
      RecoversFrom(opening, rest[0], rest[1..]);
    }
  }

  /** Nothing is lost: the overlapped chunks still determine the packed ones. */
  lemma RecoversPacked(opening: string -> string, packed: seq<string>)
    ensures Recovered(opening, Overlapped(opening, packed)) == packed
  {
    if packed != [] { RecoversFrom(opening, packed[0], packed[1..]); }
  }

  /** All the way from a unit's text: undoing the overlap of its chunks gives
      back every character that is not whitespace, once and in order. */
  lemma UnitChunksConserve(count: Counter, target: nat, text: string)
    ensures var chunks := Overlapped(Openings(count), PackParagraphs(count, target, Paragraphs(text)));
      SolidAll(Recovered(Openings(count), chunks)) == Solid(text)
  {
    RecoversPacked(Openings(count), PackParagraphs(count, target, Paragraphs(text)));
    ChunkingConserves(count, target, text);
  }
}
