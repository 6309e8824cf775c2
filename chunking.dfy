/** Slicing decoded bytes into output chunks of a fixed maximum length, as
    `decompress_update` does: full chunks of exactly `n` bytes, then one
    trimmed non-empty final chunk. `ChunkedAs` states what a valid slicing
    is, `Split` is a reference slicing, and the two lemmas show that `Split`
    is one and that there is no other. */
module Chunking {
  import opened Errors

  /** The chunks concatenated in order. */
  function Flatten(chunks: seq<seq<byte>>): (r: seq<byte>)
  {
    if chunks == [] then [] else Flatten(chunks[..|chunks| - 1]) + chunks[|chunks| - 1]
  }

  lemma FlattenAppend(chunks: seq<seq<byte>>, c: seq<byte>)
    ensures Flatten(chunks + [c]) == Flatten(chunks) + c
  {
    assert (chunks + [c])[..|chunks|] == chunks;
  }

  lemma {:induction false} FlattenPrepend(c: seq<byte>, chunks: seq<seq<byte>>)
    ensures Flatten([c] + chunks) == c + Flatten(chunks)
    decreases |chunks|
  {
    if chunks == [] {
      assert [c] + chunks == [] + [c];
      FlattenAppend([], c);
    } else {
      var init, last := chunks[..|chunks| - 1], chunks[|chunks| - 1];
      assert chunks == init + [last];
      assert [c] + chunks == ([c] + init) + [last];
      FlattenAppend([c] + init, last);
      FlattenPrepend(c, init);
      FlattenAppend(init, last);
    }
  }

  /** `chunks` slices `w` into pieces of 1..n bytes, all but the last exactly n. */
  ghost predicate ChunkedAs(w: seq<byte>, n: nat, chunks: seq<seq<byte>>) {
    && Flatten(chunks) == w
    && (forall i :: 0 <= i < |chunks| ==> 1 <= |chunks[i]| <= n)
    && (forall i :: 0 <= i < |chunks| - 1 ==> |chunks[i]| == n)
  }

  /** Reference slicing: take n bytes at a time. */
  function Split(w: seq<byte>, n: nat): seq<seq<byte>>
    requires n > 0
    decreases |w|
  {
    if w == [] then []
    else if |w| <= n then [w]
    else [w[..n]] + Split(w[n..], n)
  }

  lemma {:induction false} SplitIsChunking(w: seq<byte>, n: nat)
    requires n > 0
    ensures ChunkedAs(w, n, Split(w, n))
    decreases |w|
  {
    if w == [] {
    } else if |w| <= n {
      FlattenAppend([], w);
      assert [] + [w] == [w];
    } else {
      var rest := Split(w[n..], n);
      SplitIsChunking(w[n..], n);
      FlattenPrepend(w[..n], rest);
      assert w[..n] + w[n..] == w;
      var s := [w[..n]] + rest;
      forall i | 0 <= i < |s| ensures 1 <= |s[i]| <= n {
        if i > 0 { assert s[i] == rest[i - 1]; }
      }
      forall i | 0 <= i < |s| - 1 ensures |s[i]| == n {
        if i > 0 { assert s[i] == rest[i - 1]; }
      }
    }
  }

  /** A chunking is determined by the bytes and the chunk length. */
  lemma {:induction false} ChunkingUnique(w: seq<byte>, n: nat, chunks: seq<seq<byte>>)
    requires n > 0
    requires ChunkedAs(w, n, chunks)
    ensures chunks == Split(w, n)
    decreases |w|
  {
    if chunks == [] {
    } else if |chunks| == 1 {
      FlattenAppend([], chunks[0]);
      assert chunks == [] + [chunks[0]];
      assert w == chunks[0];
    } else {
      var first, rest := chunks[0], chunks[1..];
      assert chunks == [first] + rest;
      FlattenPrepend(first, rest);
      assert |first| == n;
      assert |Flatten(rest)| >= 1 by {
        var init, last := rest[..|rest| - 1], rest[|rest| - 1];
        assert rest == init + [last];
        FlattenAppend(init, last);
        assert last == chunks[|chunks| - 1];
      }
      assert w[..n] == first && w[n..] == Flatten(rest);
      forall i | 0 <= i < |rest| ensures 1 <= |rest[i]| <= n {
        assert rest[i] == chunks[i + 1];
      }
      forall i | 0 <= i < |rest| - 1 ensures |rest[i]| == n {
        assert rest[i] == chunks[i + 1];
      }
      ChunkingUnique(w[n..], n, rest);
    }
  }
}
