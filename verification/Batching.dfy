/** The embedding batches of `application/ingest.py`. */
module Batching {
  import opened Text
  import opened Grouping

  const BATCH_CHUNK_CAP: nat := 64
  const BATCH_TOKEN_CAP: nat := 50_000

  datatype Vectors<V> = Vectors(value: seq<V>) | EmbeddingFailed

  function Tokens(count: Counter, batch: seq<string>): nat {
    if batch == [] then 0 else Tokens(count, batch[..|batch| - 1]) + count(batch[|batch| - 1])
  }

  /** Both caps hold. */
  predicate WithinCaps(count: Counter, batch: seq<string>) {
    |batch| <= BATCH_CHUNK_CAP && Tokens(count, batch) <= BATCH_TOKEN_CAP
  }

  function Caps(count: Counter): seq<string> -> bool {
    (batch: seq<string>) => WithinCaps(count, batch)
  }

  /** The batches the caps produce. */
  function Batches(count: Counter, inputs: seq<string>): seq<seq<string>> {
    Greedy(Caps(count), [], inputs)
  }

  lemma TokensAppend(count: Counter, batch: seq<string>, text: string)
    ensures Tokens(count, batch + [text]) == Tokens(count, batch) + count(text)
  {
    assert (batch + [text])[..|batch|] == batch;
  }

  lemma SliceOfFront(batch: seq<string>, i: nat, j: nat)
    requires i <= j < |batch|
    ensures batch[i..j] == batch[..|batch| - 1][i..j]
  {
    var a, b := batch[i..j], batch[..|batch| - 1][i..j];
    assert |a| == |b| && forall k :: 0 <= k < |a| ==> a[k] == b[k];
  }

  lemma {:induction false} TokensOfPart(count: Counter, batch: seq<string>, i: nat, j: nat)
    requires i <= j <= |batch|
    ensures Tokens(count, batch[i..j]) <= Tokens(count, batch)
    decreases |batch|
  {
    if i < j {
      var front := batch[..|batch| - 1];
      if j < |batch| {
        SliceOfFront(batch, i, j);
        TokensOfPart(count, front, i, j);
      } else {
        SliceOfFront(batch, i, j - 1);
        assert batch[i..j][..j - i - 1] == batch[i..j - 1];
        TokensOfPart(count, front, i, j - 1);
      }
    }
  }

  lemma CapsClosed(count: Counter)
    ensures Closed(Caps(count))
  {
    forall g: seq<string>, i, j | 0 <= i < j <= |g| && Caps(count)(g) ensures Caps(count)(g[i..j]) {
      TokensOfPart(count, g, i, j);
    }
  }

  /** What the embedder answered to a list of calls, in call order. */
  function Gathered<V>(embed: seq<string> -> Vectors<V>, calls: seq<seq<string>>): seq<V> {
    if calls == [] then []
    else
      var last := embed(calls[|calls| - 1]);
      Gathered(embed, calls[..|calls| - 1]) + if last.Vectors? then last.value else []
  }

  predicate AllAnswered<V>(embed: seq<string> -> Vectors<V>, calls: seq<seq<string>>) {
    forall batch :: batch in calls ==> embed(batch).Vectors?
  }

  /** `_embed_in_batches`: the batch and its running token count are flushed
      before an input that would break a cap. `calls` lists the embed calls. */
  method EmbedInBatches<V>(inputs: seq<string>, count: Counter, embed: seq<string> -> Vectors<V>)
    returns (result: Vectors<V>, calls: seq<seq<string>>)
    ensures result.Vectors? ==> calls == Batches(count, inputs) && result.value == Gathered(embed, calls)
    ensures result.Vectors? <==> AllAnswered(embed, Batches(count, inputs))
    ensures calls <= Batches(count, inputs)
  {
    var vectors, batch, batchTokens := [], [], 0;
    calls := [];
    ghost var all, rest := Batches(count, inputs), inputs;
    for i := 0 to |inputs|
      invariant rest == inputs[i..] && batchTokens == Tokens(count, batch)
      invariant calls + Greedy(Caps(count), batch, rest) == all
      invariant vectors == Gathered(embed, calls) && AllAnswered(embed, calls)
    {
      var text := inputs[i];
      var tokens := count(text);
      TokensAppend(count, batch, text);
      GreedyStep(count, batch, rest);
      rest := rest[1..];
      if batch != [] && (|batch| >= BATCH_CHUNK_CAP || batchTokens + tokens > BATCH_TOKEN_CAP) {
        var failed;
        failed, calls, vectors := Send(embed, calls, vectors, batch, Greedy(Caps(count), [text], rest), all);
        if failed {
          return EmbeddingFailed, calls;
        }
        batch, batchTokens := [], 0;
        TokensAppend(count, batch, text);
      }
      batch := batch + [text];
      batchTokens := batchTokens + tokens;
    }
    if batch != [] {
      var failed;
      failed, calls, vectors := Send(embed, calls, vectors, batch, [], all);
      if failed {
        return EmbeddingFailed, calls;
      }
    }
    result := Vectors(vectors);
  }

  /** The next input starts a batch exactly when it would break a cap. */
  lemma GreedyStep(count: Counter, batch: seq<string>, rest: seq<string>)
    requires rest != []
    ensures Greedy(Caps(count), batch, rest) ==
      if batch != [] && !WithinCaps(count, batch + [rest[0]])
      then [batch] + Greedy(Caps(count), [rest[0]], rest[1..])
      else Greedy(Caps(count), batch + [rest[0]], rest[1..])
  {
    assert batch == [] ==> batch + [rest[0]] == [rest[0]];
  }

  /** One embed call, with its place among all calls. */
  method Send<V>(embed: seq<string> -> Vectors<V>, calls: seq<seq<string>>, vectors: seq<V>, batch: seq<string>,
                 ghost rest: seq<seq<string>>, ghost all: seq<seq<string>>)
    returns (failed: bool, calls': seq<seq<string>>, vectors': seq<V>)
    requires calls + ([batch] + rest) == all
    requires vectors == Gathered(embed, calls) && AllAnswered(embed, calls)
    ensures calls' == calls + [batch] && calls' <= all && calls' + rest == all
    ensures failed <==> embed(batch).EmbeddingFailed?
    ensures failed ==> batch in all
    ensures !failed ==> vectors' == Gathered(embed, calls') && AllAnswered(embed, calls')
  {
    CallStep(embed, calls, batch, rest, all);
    var reply := embed(batch);
    calls', vectors', failed := calls + [batch], vectors, reply.EmbeddingFailed?;
    if !failed {
      vectors' := vectors + reply.value;
    }
  }

  lemma CallStep<V>(embed: seq<string> -> Vectors<V>, calls: seq<seq<string>>, batch: seq<string>,
                    rest: seq<seq<string>>, all: seq<seq<string>>)
    requires calls + ([batch] + rest) == all
    ensures (calls + [batch]) + rest == all && calls + [batch] <= all && batch in all
    ensures Gathered(embed, calls + [batch])
         == Gathered(embed, calls) + if embed(batch).Vectors? then embed(batch).value else []
  {
    assert (calls + [batch])[..|calls|] == calls;
    assert all[|calls|] == batch;
  }

  /** `_batch_count` keeps only two counters. */
  method BatchCount(inputs: seq<string>, count: Counter) returns (batches: nat)
    ensures batches == |Batches(count, inputs)|
  {
    batches := 0;
    var size, batchTokens := 0, 0;
    ghost var batch: seq<string> := [];
    for i := 0 to |inputs|
      invariant size == |batch| && batchTokens == Tokens(count, batch)
      invariant batches + |Greedy(Caps(count), batch, inputs[i..])| == |Batches(count, inputs)|
    {
      var text := inputs[i];
      var tokens := count(text);
      TokensAppend(count, batch, text);
      assert inputs[i..][1..] == inputs[i + 1..];
      if size > 0 && (size >= BATCH_CHUNK_CAP || batchTokens + tokens > BATCH_TOKEN_CAP) {
        batches := batches + 1;
        size, batchTokens, batch := 0, 0, [];
      }
      TokensAppend(count, batch, text);
      size, batchTokens, batch := size + 1, batchTokens + tokens, batch + [text];
    }
    if size > 0 {
      batches := batches + 1;
    }
  }

  /** Runs of the inputs, each one input or within both caps. */
  ghost predicate SplitsWithin(count: Counter, split: seq<seq<string>>, inputs: seq<string>) {
    && Flatten(split) == inputs
    && forall run :: run in split ==>
         |run| == 1 || (1 < |run| <= BATCH_CHUNK_CAP && Tokens(count, run) <= BATCH_TOKEN_CAP)
  }

  /** The batches carry the inputs once, in order, within both caps unless one
      input alone is over the token cap, and no such split is shorter. */
  lemma BatchesAreOptimal(count: Counter, inputs: seq<string>)
    ensures SplitsWithin(count, Batches(count, inputs), inputs)
    ensures forall split :: SplitsWithin(count, split, inputs) ==> |Batches(count, inputs)| <= |split|
  {
    GreedyGroups(Caps(count), [], inputs);
    assert [] + inputs == inputs;
    CapsClosed(count);
    forall split: seq<seq<string>> ensures SplitsWithin(count, split, inputs) <==> Groups(Caps(count), split, inputs) {}
    forall split | Groups(Caps(count), split, inputs) {
      GreedyMinimal(Caps(count), inputs, split);
    }
  }

  // ----- Batching is transparent -----

  function MapEmbed<V>(one: string -> V, inputs: seq<string>): seq<V> {
    seq(|inputs|, i requires 0 <= i < |inputs| => one(inputs[i]))
  }

  /** The embedder treats the texts of a batch one by one. */
  ghost predicate Pointwise<V(!new)>(embed: seq<string> -> Vectors<V>, one: string -> V) {
    forall batch :: embed(batch) == Vectors(MapEmbed(one, batch))
  }

  lemma {:induction false} GatheredPointwise<V(!new)>(embed: seq<string> -> Vectors<V>, one: string -> V, calls: seq<seq<string>>)
    requires Pointwise(embed, one)
    ensures Gathered(embed, calls) == MapEmbed(one, Flatten(calls))
  {
    if calls != [] {
      var front, last := calls[..|calls| - 1], calls[|calls| - 1];
      GatheredPointwise(embed, one, front);
      FlattenConcat(front, [last]);
      assert calls == front + [last];
      assert Flatten([last]) == last + Flatten([last][1..]) == last;
    }
  }

  /** For a pointwise embedder, batching equals embedding all inputs at once. */
  lemma BatchingIsTransparent<V(!new)>(count: Counter, inputs: seq<string>, embed: seq<string> -> Vectors<V>, one: string -> V)
    requires Pointwise(embed, one)
    ensures embed(inputs) == Vectors(Gathered(embed, Batches(count, inputs)))
  {
    GatheredPointwise(embed, one, Batches(count, inputs));
    BatchesAreOptimal(count, inputs);
  }
}
