/** Where `application/chunking.py` cuts sentences: at every terminator that ends
    one, and nowhere else. */
module SentenceCuts {
  import opened Text
  import opened Chunking

  /** A terminator, then closing characters, then whitespace or the end. */
  ghost predicate EndsSentence(text: string, i: nat) {
    && i < |text| && (text[i] == '.' || text[i] == '?' || text[i] == '!')
    && exists k :: i < k <= |text| && ClosedUpTo(text, i, k)
  }

  ghost predicate ClosedUpTo(text: string, i: nat, k: nat)
    requires k <= |text|
  {
    (forall j :: i < j < k ==> Closing(text[j])) && (k < |text| ==> IsSpace(text[k]))
  }

  lemma {:induction false} SkipClosingStops(text: string, i: nat)
    requires i <= |text|
    ensures var k := SkipClosing(text, i); (forall j :: i <= j < k ==> Closing(text[j])) && (k < |text| ==> !Closing(text[k]))
    decreases |text| - i
  {
    if i < |text| && Closing(text[i]) { SkipClosingStops(text, i + 1); }
  }

  lemma EndsAtExactly(text: string, i: nat)
    requires i < |text|
    ensures EndsAt(text, i) <==> EndsSentence(text, i)
  {
    var k := SkipClosing(text, i + 1);
    SkipClosingStops(text, i + 1);
    if EndsAt(text, i) { assert ClosedUpTo(text, i, k); }
    if EndsSentence(text, i) {
      var m :| i < m <= |text| && ClosedUpTo(text, i, m);
      assert m <= k;
      assert m == k;
    }
  }

  /** The places from `from` on where a sentence ends, in order. */
  ghost predicate AreCuts(text: string, from: nat, cuts: seq<nat>) {
    && (forall k :: 0 <= k < |cuts| ==> from <= cuts[k] && EndsSentence(text, cuts[k]))
    && (forall k, l :: 0 <= k < l < |cuts| ==> cuts[k] < cuts[l])
    && (forall i :: from <= i < |text| && EndsSentence(text, i) ==> i in cuts)
  }

  /** The stretches between the cuts, stripped, blank ones left out. */
  ghost function Between(text: string, start: nat, cuts: seq<nat>): seq<string>
    requires start <= |text| && (forall k :: 0 <= k < |cuts| ==> start <= cuts[k] <= |text|)
    requires forall k, l :: 0 <= k < l < |cuts| ==> cuts[k] < cuts[l]
    decreases |cuts|
  {
    if cuts == [] then Stretch(text[start..])
    else Stretch(text[start..cuts[0]]) + Between(text, cuts[0], cuts[1..])
  }

  ghost function Stretch(text: string): seq<string> {
    if Blank(text) then [] else [StripChars(IsSpace, text)]
  }

  lemma PieceIsStretch(text: string)
    ensures Piece(text) == Stretch(text)
  {
  }

  /** Behind a match no sentence ends before the next search. */
  lemma NoEndInside(text: string, i: nat, j: nat)
    requires i < |text| && i < j < MatchEnd(text, i)
    ensures !EndsSentence(text, j)
  {
    SkipClosingStops(text, i + 1);
    SkipSpacesAre(text, SkipClosing(text, i + 1));
  }

  lemma {:induction false} SkipSpacesAre(text: string, i: nat)
    requires i <= |text|
    ensures forall j :: i <= j < SkipSpaces(text, i) ==> IsSpace(text[j])
    decreases |text| - i
  {
    if i < |text| && IsSpace(text[i]) { SkipSpacesAre(text, i + 1); }
  }

  lemma {:induction false} NextEndIsFirst(text: string, from: nat)
    requires from <= |text|
    ensures NextEnd(text, from) < |text| ==> EndsSentence(text, NextEnd(text, from))
    ensures forall j :: from <= j < NextEnd(text, from) ==> !EndsSentence(text, j)
    decreases |text| - from
  {
    if from < |text| {
      EndsAtExactly(text, from);
      if !EndsAt(text, from) { NextEndIsFirst(text, from + 1); }
    }
  }

  lemma CutBefore(text: string, from: nat, end: nat, next: nat, cuts: seq<nat>)
    requires from <= end < next <= |text| && EndsSentence(text, end) && AreCuts(text, next, cuts)
    requires forall j :: from <= j < next && j != end ==> !EndsSentence(text, j)
    ensures AreCuts(text, from, [end] + cuts)
  {
    var all := [end] + cuts;
    assert forall k :: 0 < k < |all| ==> all[k] == cuts[k - 1];
    assert forall i :: i in all <==> i == end || i in cuts;
  }

  lemma {:induction false} CutsFrom(text: string, position: nat, from: nat) returns (cuts: seq<nat>)
    requires position <= from <= |text|
    ensures AreCuts(text, from, cuts) && SentencesFrom(text, position, from) == Between(text, position, cuts)
    decreases |text| - from
  {
    var end := NextEnd(text, from);
    NextEndIsFirst(text, from);
    if end == |text| {
      cuts := [];
      PieceIsStretch(text[position..]);
    } else {
      var next := MatchEnd(text, end);
      var rest := CutsFrom(text, end, next);
      forall j | from <= j < next && j != end ensures !EndsSentence(text, j) {
        if end < j { NoEndInside(text, end, j); }
      }
      CutBefore(text, from, end, next, rest);
      SentencesUnfold(text, position, from, end);
      PieceIsStretch(text[position..end]);
      BetweenUnfold(text, position, end, rest);
      cuts := [end] + rest;
    }
  }

  lemma BetweenUnfold(text: string, start: nat, end: nat, cuts: seq<nat>)
    requires start <= end <= |text| && (forall k :: 0 <= k < |cuts| ==> end < cuts[k] <= |text|)
    requires forall k, l :: 0 <= k < l < |cuts| ==> cuts[k] < cuts[l]
    ensures var all := [end] + cuts;
      && (forall k :: 0 <= k < |all| ==> start <= all[k] <= |text|) && (forall k, l :: 0 <= k < l < |all| ==> all[k] < all[l])
      && Between(text, start, all) == Stretch(text[start..end]) + Between(text, end, cuts)
  {
    var all := [end] + cuts;
    assert all[1..] == cuts;
  }

  /** The sentences are the stretches between all places where a sentence ends. */
  lemma SentencesExactly(text: string)
    ensures exists cuts :: AreCuts(text, 0, cuts) && Sentences(text) == Between(text, 0, cuts)
  {
    var cuts := CutsFrom(text, 0, 0);
  }
}
