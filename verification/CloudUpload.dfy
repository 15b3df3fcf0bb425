/**
 The resumable upload: the discovered intents are cut into chunks and reported one by one; when a
 report fails the whole operation is retried, from the chunk that failed. Whether a report succeeds,
 and how often the back-off lets the operation run again, is up to the environment.
 */
module CloudUpload {
  import opened Basics

  // ----- Chunks -----

  ghost function Chunks<T>(s: seq<T>, size: nat): seq<seq<T>>
    requires size > 0
  {
    if |s| <= size then if s == [] then [] else [s]
    else [s[..size]] + Chunks(s[size..], size)
  }

  ghost function Concat<T>(chunks: seq<seq<T>>): seq<T> {
    if chunks == [] then [] else chunks[0] + Concat(chunks[1..])
  }

  ghost function Min(a: int, b: int): int {
    if a <= b then a else b
  }

  /** The first `k` chunks hold the beginning of the input, in order; all of them hold all of it. */
  lemma {:induction false} ChunksArePrefixes<T>(s: seq<T>, size: nat, k: nat)
    requires size > 0 && k <= |Chunks(s, size)|
    ensures Concat(Chunks(s, size)[..k]) == s[..Min(k * size, |s|)]
    ensures k == |Chunks(s, size)| ==> Concat(Chunks(s, size)[..k]) == s
    decreases |s|
  {
    var chunks := Chunks(s, size);
    if k > 0 {
      if |s| <= size {
        assert chunks[..k] == [s] && [s][1..] == [];
        assert Concat([s]) == s;
      } else {
        ChunksArePrefixes(s[size..], size, k - 1);
        assert chunks[1..] == Chunks(s[size..], size);
        assert chunks[..k][1..] == chunks[1..][..k - 1];
        assert k * size == (k - 1) * size + size;
        assert s[..size] + s[size..][..Min((k - 1) * size, |s| - size)] == s[..Min(k * size, |s|)];
      }
    }
  }

  /** No chunk is empty or larger than the batch size; only the last one may be smaller. */
  lemma {:induction false} ChunkSizes<T>(s: seq<T>, size: nat)
    requires size > 0
    ensures forall k | 0 <= k < |Chunks(s, size)| :: 1 <= |Chunks(s, size)[k]| <= size
    ensures forall k | 0 <= k < |Chunks(s, size)| - 1 :: |Chunks(s, size)[k]| == size
    decreases |s|
  {
    if |s| > size {
      ChunkSizes(s[size..], size);
    }
  }

  /** Cut a list into chunks of the given size; a size that is not positive makes the original panic. */
  method Chunk<T>(collection: seq<T>, size: nat) returns (result: seq<seq<T>>)
    requires size > 0
    ensures result == Chunks(collection, size)
  {
    result := [];
    var rest := collection;
    while |rest| > 0
      invariant result + Chunks(rest, size) == Chunks(collection, size)
    {
      var n := if |rest| < size then |rest| else size;
      if |rest| <= size {
        assert rest[..n] == rest && rest[n..] == [];
      }
      assert Chunks(rest, size) == [rest[..n]] + Chunks(rest[n..], size);
      result, rest := result + [rest[..n]], rest[n..];
    }
  }

  // ----- Reports -----

  datatype Call<T> = Call(chunk: seq<T>, ok: bool)

  /** The chunks the cloud acknowledged, in order. */
  ghost function Acknowledged<T>(calls: seq<Call<T>>): seq<seq<T>> {
    if calls == [] then []
    else Acknowledged(Before(calls)) + if Last(calls).ok then [Last(calls).chunk] else []
  }

  /** An acknowledgement adds the chunk of its call, a failure adds nothing. */
  lemma {:induction false} AcknowledgedOfBoth<T>(calls: seq<Call<T>>, more: seq<Call<T>>)
    ensures Acknowledged(calls + more) == Acknowledged(calls) + Acknowledged(more)
    ensures Failures(calls + more) == Failures(calls) + Failures(more)
  {
    if more == [] {
      assert calls + more == calls;
    } else {
      assert Before(calls + more) == calls + Before(more);
      AcknowledgedOfBoth(calls, Before(more));
    }
  }

  lemma AcknowledgedOfOne<T>(c: Call<T>)
    ensures Acknowledged([c]) == if c.ok then [c.chunk] else []
    ensures Failures([c]) == if c.ok then 0 else 1
  {
    assert Before([c]) == [];
  }

  /** Every element of what was acknowledged was in a call that succeeded. */
  lemma {:induction false} AcknowledgedWasSent<T>(calls: seq<Call<T>>, x: T)
    ensures x in Concat(Acknowledged(calls)) <==> exists c :: c in calls && c.ok && x in c.chunk
  {
    if calls != [] {
      AcknowledgedWasSent(Before(calls), x);
      Rejoin(calls);
      ConcatOfBoth(Acknowledged(Before(calls)), if Last(calls).ok then [Last(calls).chunk] else []);
      assert Concat([Last(calls).chunk]) == Last(calls).chunk + Concat([Last(calls).chunk][1..]);
    }
  }

  lemma {:induction false} ConcatOfBoth<T>(s: seq<seq<T>>, t: seq<seq<T>>)
    ensures Concat(s + t) == Concat(s) + Concat(t)
  {
    if s == [] {
      assert s + t == t;
    } else {
      assert (s + t)[1..] == s[1..] + t;
      ConcatOfBoth(s[1..], t);
    }
  }

  ghost function Failures<T>(calls: seq<Call<T>>): nat {
    if calls == [] then 0 else Failures(Before(calls)) + if Last(calls).ok then 0 else 1
  }

  /** What was acknowledged so far is a prefix of the chunks, and every call was for the chunk that
      comes next. */
  ghost predicate InOrder<T>(calls: seq<Call<T>>, chunks: seq<seq<T>>) {
    && Acknowledged(calls) <= chunks
    && (calls != [] ==>
          && InOrder(Before(calls), chunks)
          && |Acknowledged(Before(calls))| < |chunks| && Last(calls).chunk == chunks[|Acknowledged(Before(calls))|])
  }

  lemma OneMoreOf<T>(sent: seq<T>, all: seq<T>)
    requires sent <= all && |sent| < |all|
    ensures sent + [all[|sent|]] <= all
  {
  }

  lemma NextCall<T>(calls: seq<Call<T>>, chunks: seq<seq<T>>, ok: bool)
    requires InOrder(calls, chunks) && |Acknowledged(calls)| < |chunks|
    ensures var k := |Acknowledged(calls)|;
            var now := calls + [Call(chunks[k], ok)];
            && InOrder(now, chunks)
            && |Acknowledged(now)| == (if ok then k + 1 else k)
            && Failures(now) == Failures(calls) + if ok then 0 else 1
  {
    var sent := Acknowledged(calls);
    assert Before(calls + [Call(chunks[|sent|], ok)]) == calls;
    OneMoreOf(sent, chunks);
    assert sent + [] == sent;
  }

  class CloudClient<T> {
    var calls: seq<Call<T>>

    constructor ()
      ensures calls == []
    {
      calls := [];
    }

    method ReportDiscoveredIntents(chunk: seq<T>) returns (ok: bool)
      modifies this
      ensures calls == old(calls) + [Call(chunk, ok)]
    {
      ok := *;
      calls := calls + [Call(chunk, ok)];
    }
  }

  /** One run of the operation: report from the current chunk on until one fails. The ghost
      parameters are the calls before this upload and the calls it has made. */
  method ReportRemaining<T>(client: CloudClient<T>, chunks: seq<seq<T>>, from: nat, ghost base: seq<Call<T>>,
                            ghost made: seq<Call<T>>)
    returns (ok: bool, currentChunk: nat, ghost calls: seq<Call<T>>)
    requires client.calls == base + made && InOrder(made, chunks) && from == |Acknowledged(made)|
    modifies client
    ensures client.calls == base + calls && InOrder(calls, chunks) && currentChunk == |Acknowledged(calls)|
    ensures ok == (currentChunk == |chunks|)
    ensures Failures(calls) == Failures(made) + if ok then 0 else 1
  {
    currentChunk, calls := from, made;
    while currentChunk < |chunks|
      invariant client.calls == base + calls && InOrder(calls, chunks)
      invariant currentChunk == |Acknowledged(calls)| <= |chunks| && Failures(calls) == Failures(made)
    {
      var reported := client.ReportDiscoveredIntents(chunks[currentChunk]);
      NextCall(calls, chunks, reported);
      calls := calls + [Call(chunks[currentChunk], reported)];
      if !reported {
        return false, currentChunk, calls;
      }
      currentChunk := currentChunk + 1;
    }
    return true, currentChunk, calls;
  }

  /** For every pattern of failures: the acknowledged chunks are an in-order prefix of the chunking,
      each once, so what the cloud has is a prefix of the intents; after a success it is all of
      them, after giving up it is not, and the operation has failed once more than it may be retried. */
  method NotifyIntents<T>(client: CloudClient<T>, discoveredIntents: seq<T>, uploadBatchSize: nat, retries: nat)
    returns (ok: bool, ghost calls: seq<Call<T>>)
    requires uploadBatchSize > 0
    modifies client
    ensures client.calls == old(client.calls) + calls
    ensures InOrder(calls, Chunks(discoveredIntents, uploadBatchSize))
    ensures Concat(Acknowledged(calls)) <= discoveredIntents
    ensures ok <==> Acknowledged(calls) == Chunks(discoveredIntents, uploadBatchSize)
    ensures ok <==> Concat(Acknowledged(calls)) == discoveredIntents
    ensures if ok then Failures(calls) <= retries else Failures(calls) == retries + 1
    ensures forall i | 0 <= i < |calls| :: 1 <= |calls[i].chunk| <= uploadBatchSize
    ensures ok ==> forall x | x in discoveredIntents :: exists c :: c in calls && c.ok && x in c.chunk
  {
    calls := [];
    if |discoveredIntents| == 0 {
      return true, calls;
    }
    var chunks := Chunk(discoveredIntents, uploadBatchSize);
    var currentChunk, attempts := 0, 0;
    ok := false;
    while !ok && attempts <= retries
      invariant client.calls == old(client.calls) + calls
      invariant InOrder(calls, chunks) && currentChunk == |Acknowledged(calls)|
      invariant attempts <= retries + 1 && Failures(calls) == if ok then attempts - 1 else attempts
      invariant ok == (currentChunk == |chunks|)
      decreases retries + 1 - attempts
    {
      ok, currentChunk, calls := ReportRemaining(client, chunks, currentChunk, old(client.calls), calls);
      attempts := attempts + 1;
    }
    Uploaded(calls, discoveredIntents, uploadBatchSize);
    CallsFit(calls, discoveredIntents, uploadBatchSize);
    forall x | ok && x in discoveredIntents ensures exists c :: c in calls && c.ok && x in c.chunk {
      AcknowledgedWasSent(calls, x);
    }
  }

  lemma Uploaded<T>(calls: seq<Call<T>>, s: seq<T>, size: nat)
    requires size > 0 && InOrder(calls, Chunks(s, size))
    ensures var chunks, sent := Chunks(s, size), Acknowledged(calls);
            && (sent == chunks <==> |sent| == |chunks|)
            && Concat(sent) <= s && (sent == chunks <==> Concat(sent) == s)
  {
    var chunks, k := Chunks(s, size), |Acknowledged(calls)|;
    assert Acknowledged(calls) == chunks[..k];
    ChunksArePrefixes(s, size, k);
    if k < |chunks| {
      SomethingLeft(s, size, k);
    }
  }

  lemma CallsFit<T>(calls: seq<Call<T>>, s: seq<T>, size: nat)
    requires size > 0 && InOrder(calls, Chunks(s, size))
    ensures forall i | 0 <= i < |calls| :: 1 <= |calls[i].chunk| <= size
  {
    ChunkSizes(s, size);
    CallsAreChunks(calls, Chunks(s, size));
  }

  lemma {:induction false} SomethingLeft<T>(s: seq<T>, size: nat, k: nat)
    requires size > 0 && k < |Chunks(s, size)|
    ensures k * size < |s|
    decreases |s|
  {
    if k > 0 {
      SomethingLeft(s[size..], size, k - 1);
      assert k * size == (k - 1) * size + size;
    }
  }

  lemma {:induction false} CallsAreChunks<T>(calls: seq<Call<T>>, chunks: seq<seq<T>>)
    requires InOrder(calls, chunks)
    ensures forall i | 0 <= i < |calls| :: calls[i].chunk in chunks
  {
    if calls != [] {
      CallsAreChunks(Before(calls), chunks);
      forall i | 0 <= i < |calls| ensures calls[i].chunk in chunks {
        if i < |calls| - 1 {
          assert calls[i] == Before(calls)[i];
        }
      }
    }
  }
}
