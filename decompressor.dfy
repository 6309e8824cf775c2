/** The `Decompressor` class of the lz4framed package (__init__.py, lines
    147-210): it pulls compressed bytes from a file-like object and yields
    the decompressed chunks. Each read asks for the size hint the previous
    decompress_update returned. The first read asks for 15 bytes, enough
    for the largest header, and decodes them in 32-byte chunks. Once the
    header is known, the chunk size becomes the frame's block size. */
module Decompressors {
  import opened Errors
  import opened Lz4f
  import opened BlockSize
  import opened Chunking
  import opened Contexts
  import opened Streaming

  const FirstRead: nat := 15    // `input_hint` before the header is known
  const FirstChunk: nat := 32   // `chunk_size` before the block size is known

  /** What read(n) of an io.BytesIO holding `pending` returns. */
  function ReadOf(pending: seq<byte>, n: nat): seq<byte> {
    if n < |pending| then pending[..n] else pending
  }

  /** A readable file-like object over the bytes it has left. */
  class Source {
    var pending: seq<byte>
    ghost var requests: seq<nat>   // the sizes read() was asked for, in order

    constructor (data: seq<byte>)
      ensures pending == data && requests == []
    {
      pending := data;
      requests := [];
    }

    method Read(n: nat) returns (b: seq<byte>)
      modifies this
      ensures b == ReadOf(old(pending), n) && pending == old(pending)[|b|..]
      ensures |pending| == |old(pending)| - |b|
      ensures requests == old(requests) + [n]
    {
      b := ReadOf(pending, n);
      pending := pending[|b|..];
      requests := requests + [n];
    }
  }

  /** The `fp` argument: None, an object without `read`, one whose `read`
      is not callable, or a readable object. */
  datatype ReadArg = NoFp | NoReadAttribute | ReadNotCallable | ReadsFrom(source: Source)

  /** One decompress_update then `output.pop()`: the library's error (or
      the no-data error for an empty read), or the chunks and the size hint;
      and the context's new state. */
  ghost function UpdateStep<D(!new)>(dec: Decoder<D>, n: nat, d: D, input: seq<byte>)
    : (Result<(seq<seq<byte>>, nat)>, D)
    requires n > 0 && DecoderValid(dec)
  {
    if input == [] then (Err(NoDataError), d)
    else
      var calls := UpdateRun(dec, n, d, input);
      (match calls[|calls| - 1].result
       case StepFailed(code, _) => Err(Lz4FramedError(code))
       case Decoded(_, _, hint, _) => Ok((Split(Written(calls), n), hint)),
       FinalState(d, calls))
  }

  /** How an iteration ends: the chunks yielded, normal end or the exception
      raised, the context state, the bytes left in the source, the size of
      each read, and the hint of each successful decompress_update. */
  datatype Pull<D> = Pull(chunks: seq<seq<byte>>, outcome: Outcome, state: D, pending: seq<byte>,
                          requests: seq<nat>, hints: seq<nat>)

  /** `p` preceded by chunks `c`, reads `r` and hints `h`. */
  function Join<D>(c: seq<seq<byte>>, r: seq<nat>, h: seq<nat>, p: Pull<D>): Pull<D> {
    p.(chunks := c + p.chunks, requests := r + p.requests, hints := h + p.hints)
  }

  lemma JoinJoin<D>(c0: seq<seq<byte>>, r0: seq<nat>, h0: seq<nat>,
                    c1: seq<seq<byte>>, r1: seq<nat>, h1: seq<nat>, p: Pull<D>)
    ensures Join(c0, r0, h0, Join(c1, r1, h1, p)) == Join(c0 + c1, r0 + r1, h0 + h1, p)
  {
    assert c0 + (c1 + p.chunks) == (c0 + c1) + p.chunks;
    assert r0 + (r1 + p.requests) == (r0 + r1) + p.requests;
    assert h0 + (h1 + p.hints) == (h0 + h1) + p.hints;
  }

  /** Reference definition of `while input_hint > 0`: from state `d`, with
      `pending` left in the source, chunk size `n` and hint `hint`. */
  ghost function Loop<D(!new)>(dec: Decoder<D>, n: nat, d: D, pending: seq<byte>, hint: nat): Pull<D>
    requires n > 0 && DecoderValid(dec)
    decreases |pending|
  {
    if hint == 0 then Pull([], Pass, d, pending, [], [])
    else
      var input := ReadOf(pending, hint);
      var (res, d') := UpdateStep(dec, n, d, input);
      match res
      case Err(e) => Pull([], Fail(e), d', pending[|input|..], [hint], [])
      case Ok((chunks, h)) => Join(chunks, [hint], [h], Loop(dec, n, d', pending[|input|..], h))
  }

  /** Reference definition of the first round of an iteration from state
      `d` with `pending` in the source: read 15 bytes, decode them in
      32-byte chunks, then ask for the header. It yields the chunks, the
      hint and the chunk size the loop goes on with (or the exception),
      the context state, the bytes left and the frame info stored, if any. */
  ghost function Opening<D(!new)>(dec: Decoder<D>, d: D, pending: seq<byte>)
    : (Result<(seq<seq<byte>>, nat, nat)>, D, seq<byte>, Option<FrameInfoDict>)
    requires DecoderValid(dec)
  {
    var input := ReadOf(pending, FirstRead);
    var rest := pending[|input|..];
    var (res, d1) := UpdateStep(dec, FirstChunk, d, input);
    match res
    case Err(e) => (Err(e), d1, rest, None)
    case Ok((chunks, h)) =>
      var fi := dec.getFrameInfo(d1, []);
      match fi
      case InfoFailed(code, d2) =>
        if code != FrameHeaderIncomplete then (Err(Lz4FramedError(code)), d2, rest, None)
        else (Ok((chunks, h, FirstChunk)), d2, rest, None)
      case InfoOk(_, info, ihint, d2) =>
        var stored := Some(InfoDict(info, ihint));
        match GetBlockSize(info.blockSizeId)
        case Err(e) => (Err(e), d2, rest, stored)
        case Ok(size) => (Ok((chunks, h, size)), d2, rest, stored)
  }

  /** Reference definition of a whole iteration from state `d` with
      `pending` in the source: the first round, then the loop. The second
      component is the frame info stored, if any. */
  ghost function Pulled<D(!new)>(dec: Decoder<D>, d: D, pending: seq<byte>): (Pull<D>, Option<FrameInfoDict>)
    requires DecoderValid(dec)
  {
    var (res, d2, rest, stored) := Opening(dec, d, pending);
    match res
    case Err(e) => (Pull([], Fail(e), d2, rest, [FirstRead], []), stored)
    case Ok((chunks, h, n)) => (Join(chunks, [FirstRead], [h], Loop(dec, n, d2, rest, h)), stored)
  }

  /** One round of the loop: a successful decompress_update hands the rest
      of the iteration on to the loop resumed with the new hint. */
  lemma LoopStep<D(!new)>(dec: Decoder<D>, n: nat, d: D, pending: seq<byte>, hint: nat,
                          res: Result<(seq<seq<byte>>, nat)>, d': D)
    requires n > 0 && DecoderValid(dec) && hint > 0
    requires (res, d') == UpdateStep(dec, n, d, ReadOf(pending, hint))
    ensures var rest := pending[|ReadOf(pending, hint)|..];
            && (res.Ok? ==>
                  Loop(dec, n, d, pending, hint) == Join(res.value.0, [hint], [res.value.1], Loop(dec, n, d', rest, res.value.1)))
            && (res.Err? ==> Loop(dec, n, d, pending, hint) == Pull([], Fail(res.error), d', rest, [hint], []))
  {
  }

  /** Each read after the first asks for exactly the non-zero hint the
      decompress_update before it returned. */
  ghost predicate ReadsFollowHints(requests: seq<nat>, hints: seq<nat>) {
    && |requests| >= 1
    && |hints| <= |requests| <= |hints| + 1
    && (forall i :: 0 <= i < |requests| - 1 ==> requests[i + 1] == hints[i] && hints[i] > 0)
  }

  /** The loop reads as the hints say; it ends normally exactly after a
      zero hint and otherwise on the exception of its last read's call; and
      it raises the no-data error only once the source is drained. */
  lemma {:induction false} LoopFollowsHints<D(!new)>(dec: Decoder<D>, n: nat, d: D, pending: seq<byte>, hint: nat)
    requires n > 0 && DecoderValid(dec) && hint > 0
    ensures var s := Loop(dec, n, d, pending, hint);
            && s.requests[0] == hint && ReadsFollowHints(s.requests, s.hints)
            && (s.outcome == Pass <==> |s.hints| == |s.requests|)
            && (s.outcome == Pass ==> s.hints[|s.hints| - 1] == 0)
            && (s.outcome == Fail(NoDataError) ==> s.pending == [])
    decreases |pending|
  {
    var input := ReadOf(pending, hint);
    var (res, d') := UpdateStep(dec, n, d, input);
    LoopStep(dec, n, d, pending, hint, res, d');
    if res.Ok? && res.value.1 > 0 {
      var h := res.value.1;
      var more := Loop(dec, n, d', pending[|input|..], h);
      LoopFollowsHints(dec, n, d', pending[|input|..], h);
      var s := Join(res.value.0, [hint], [h], more);
      assert s.requests[1..] == more.requests;
    }
  }

  /** The loop fails only with the library's error or, once the source has
      run dry before the frame is complete, with the no-data error; a
      drained source with a non-zero hint raises the latter at once. */
  lemma {:induction false} LoopErrors<D(!new)>(dec: Decoder<D>, n: nat, d: D, pending: seq<byte>, hint: nat)
    requires n > 0 && DecoderValid(dec)
    ensures var s := Loop(dec, n, d, pending, hint);
            && (s.outcome.Fail? ==> s.outcome.error == NoDataError || s.outcome.error.Lz4FramedError?)
            && (pending == [] && hint > 0 ==> s.outcome == Fail(NoDataError) && s.chunks == [])
    decreases |pending|
  {
    if hint > 0 {
      var input := ReadOf(pending, hint);
      var (res, d') := UpdateStep(dec, n, d, input);
      LoopStep(dec, n, d, pending, hint, res, d');
      if res.Ok? {
        LoopErrors(dec, n, d', pending[|input|..], res.value.1);
      }
    }
  }

  /** Every chunk of `cs` has between 1 and n bytes. */
  ghost predicate ChunksWithin(cs: seq<seq<byte>>, n: nat) {
    forall i :: 0 <= i < |cs| ==> 1 <= |cs[i]| <= n
  }

  lemma ChunksWithinConcat(a: seq<seq<byte>>, b: seq<seq<byte>>, n: nat)
    requires ChunksWithin(a, n) && ChunksWithin(b, n)
    ensures ChunksWithin(a + b, n)
  {
    assert forall i :: 0 <= i < |a + b| ==> (a + b)[i] == if i < |a| then a[i] else b[i - |a|];
  }

  /** Every chunk the loop yields has between 1 and n bytes. */
  lemma {:induction false} LoopChunkSizes<D(!new)>(dec: Decoder<D>, n: nat, d: D, pending: seq<byte>, hint: nat)
    requires n > 0 && DecoderValid(dec)
    ensures ChunksWithin(Loop(dec, n, d, pending, hint).chunks, n)
    decreases |pending|
  {
    if hint > 0 {
      var input := ReadOf(pending, hint);
      var (res, d') := UpdateStep(dec, n, d, input);
      LoopStep(dec, n, d, pending, hint, res, d');
      if res.Ok? {
        SplitIsChunking(Written(UpdateRun(dec, n, d, input)), n);
        assert ChunksWithin(res.value.0, n);
        LoopChunkSizes(dec, n, d', pending[|input|..], res.value.1);
        ChunksWithinConcat(res.value.0, Loop(dec, n, d', pending[|input|..], res.value.1).chunks, n);
      }
    }
  }

  /** The chunk size of an iteration: the first round yields chunks of 1..32
      bytes, and the loop after it chunks of 1..n bytes, where n stays 32
      when the header was not complete yet (that error is swallowed, and no
      frame info is stored) and is otherwise the block size of the block-size
      id in the stored frame info. Nothing is yielded when the first round
      raises. */
  lemma IterationChunkSizes<D(!new)>(dec: Decoder<D>, d: D, pending: seq<byte>)
    requires DecoderValid(dec)
    ensures var (res, _, _, stored) := Opening(dec, d, pending);
            var s := Pulled(dec, d, pending).0;
            && (res.Err? ==> s.chunks == [])
            && (res.Ok? ==>
                  var (first, _, n) := res.value;
                  && ChunksWithin(first, FirstChunk)
                  && |first| <= |s.chunks| && s.chunks[..|first|] == first
                  && ChunksWithin(s.chunks[|first|..], n)
                  && (stored.None? ==> n == FirstChunk)
                  && (stored.Some? ==> GetBlockSize(stored.value.blockSizeId) == Ok(n)))
    ensures var (r1, d1) := UpdateStep(dec, FirstChunk, d, ReadOf(pending, FirstRead));
            var (res, _, _, stored) := Opening(dec, d, pending);
            r1.Ok? && dec.getFrameInfo(d1, []).InfoFailed? && dec.getFrameInfo(d1, []).code == FrameHeaderIncomplete ==>
              res.Ok? && res.value.2 == FirstChunk && stored == None
  {
    var input := ReadOf(pending, FirstRead);
    var (r1, d1) := UpdateStep(dec, FirstChunk, d, input);
    var (res, d2, rest, stored) := Opening(dec, d, pending);
    if res.Ok? {
      var (first, h, n) := res.value;
      SplitIsChunking(Written(UpdateRun(dec, FirstChunk, d, input)), FirstChunk);
      assert ChunksWithin(first, FirstChunk);
      LoopChunkSizes(dec, n, d2, rest, h);
      var s := Pulled(dec, d, pending).0;
      assert s.chunks == first + Loop(dec, n, d2, rest, h).chunks;
      assert s.chunks[|first|..] == Loop(dec, n, d2, rest, h).chunks;
    }
  }

  /** The same for a whole iteration: the first read asks for 15 bytes. */
  lemma IterationFollowsHints<D(!new)>(dec: Decoder<D>, d: D, pending: seq<byte>)
    requires DecoderValid(dec)
    ensures var s := Pulled(dec, d, pending).0;
            && s.requests[0] == FirstRead && ReadsFollowHints(s.requests, s.hints)
            && (s.outcome == Pass <==> |s.hints| == |s.requests|)
            && (s.outcome == Pass ==> s.hints[|s.hints| - 1] == 0)
            && (s.outcome == Fail(NoDataError) ==> s.pending == [])
  {
    var (res, d2, rest, stored) := Opening(dec, d, pending);
    if res.Ok? && res.value.1 > 0 {
      LoopFollowsHints(dec, res.value.2, d2, rest, res.value.1);
    }
  }

  /** A whole iteration fails only with the library's error, the no-data
      error, or the ValueError of an invalid block-size id in the header;
      an empty source raises the no-data error on the first read. */
  lemma IterationErrors<D(!new)>(dec: Decoder<D>, d: D, pending: seq<byte>)
    requires DecoderValid(dec)
    ensures var s := Pulled(dec, d, pending).0;
            && (s.outcome.Fail? ==>
                  || s.outcome.error == NoDataError || s.outcome.error.Lz4FramedError?
                  || (s.outcome.error.ValueError? && s.outcome.error.reason.IdInvalid?))
            && (pending == [] ==> s.outcome == Fail(NoDataError) && s.chunks == [])
  {
    var (res, d2, rest, stored) := Opening(dec, d, pending);
    if res.Ok? {
      LoopErrors(dec, res.value.2, d2, rest, res.value.1);
    }
  }

  class Decompressor<D(!new)> {
    const source: Source
    const ctx: DecompressionContext<D>
    var info: Option<FrameInfoDict>   // `self.__info`

    constructor (source: Source, ctx: DecompressionContext<D>)
      ensures this.source == source && this.ctx == ctx && info == None
    {
      this.source := source;
      this.ctx := ctx;
      info := None;
    }

    /** The `frame_info` property. */
    function FrameInfo(): Option<FrameInfoDict>
      reads this
    {
      info
    }

    /** `decompress_update(ctx, read(...), n)` followed by `output.pop()`. */
    method Feed(input: seq<byte>, n: CInt) returns (r: Result<(seq<seq<byte>>, nat)>)
      requires n > 0 && DecoderValid(ctx.dec)
      modifies ctx
      ensures (r, ctx.state) == UpdateStep(ctx.dec, n, old(ctx.state), input)
      ensures r.Ok? ==> input != []
    {
      ghost var calls := UpdateRun(ctx.dec, n, ctx.state, input);
      var cap: Capsule<(), D> := DecompressionCtx(ctx);
      var out := DecompressUpdate(cap, input, n);
      if out.Err? {
        return Err(out.error);
      }
      UpdateOutcomeChunks(calls, n);
      var items := out.value;
      var hint := items[|items| - 1].hint;
      var body := items[..|items| - 1];
      var chunks := seq(|body|, i requires 0 <= i < |body| => body[i].bytes);
      assert chunks == Split(Written(calls), n);
      return Ok((chunks, hint));
    }

    /** `__iter__`, run to its end: the chunks yielded and how it ended. */
    method Iterate() returns (chunks: seq<seq<byte>>, r: Outcome)
      requires DecoderValid(ctx.dec)
      modifies this, ctx, source
      ensures var (s, stored) := Pulled(ctx.dec, old(ctx.state), old(source.pending));
              && chunks == s.chunks && r == s.outcome
              && ctx.state == s.state && source.pending == s.pending
              && source.requests == old(source.requests) + s.requests
              && info == (if stored.Some? then stored else old(info))
    {
      ghost var opening := Opening(ctx.dec, ctx.state, source.pending);
      ghost var pulled := Pulled(ctx.dec, ctx.state, source.pending);
      var first := Start();
      assert first == opening.0 && ctx.state == opening.1 && source.pending == opening.2;
      if first.Err? {
        assert pulled == (Pull([], Fail(first.error), opening.1, opening.2, [FirstRead], []), opening.3);
        return [], Fail(first.error);
      }
      var c, hint, n := first.value.0, first.value.1, first.value.2;
      assert pulled == (Join(c, [FirstRead], [hint], Loop(ctx.dec, n, ctx.state, source.pending, hint)), opening.3);
      chunks, r := Drain(c, [FirstRead], [hint], old(source.requests), hint, n);
    }

    /** The first round: read 15 bytes, decode them in 32-byte chunks, then
        ask for the header; a header not complete yet is no error. */
    method Start() returns (r: Result<(seq<seq<byte>>, nat, nat)>)
      requires DecoderValid(ctx.dec)
      modifies this, ctx, source
      ensures var (res, d2, rest, stored) := Opening(ctx.dec, old(ctx.state), old(source.pending));
              && r == res && ctx.state == d2 && source.pending == rest
              && info == (if stored.Some? then stored else old(info))
      ensures r.Ok? ==> 0 < r.value.2 <= 4 * MB
      ensures source.requests == old(source.requests) + [FirstRead]
    {
      var input := source.Read(FirstRead);
      var first := Feed(input, FirstChunk);
      if first.Err? {
        return Err(first.error);
      }
      var cap: Capsule<(), D> := DecompressionCtx(ctx);
      var fi := GetFrameInfo(cap);
      var n := FirstChunk;
      if fi.Err? {
        if fi.error != Lz4FramedError(FrameHeaderIncomplete) {
          return Err(fi.error);
        }
      } else {
        info := Some(fi.value);
        var size := GetBlockSize(fi.value.blockSizeId);
        if size.Err? {
          return Err(size.error);
        }
        n := size.value;
      }
      return Ok((first.value.0, first.value.1, n));
    }

    /** `while input_hint > 0`: read what the hint asks for and decode it
        in chunks of `n` bytes. The chunks `c`, reads `r0` and hints `h0`
        are those of the iteration so far, and the reads before it `base`. */
    method Drain(c: seq<seq<byte>>, ghost r0: seq<nat>, ghost h0: seq<nat>, ghost base: seq<nat>, hint0: nat, n: CInt)
      returns (chunks: seq<seq<byte>>, r: Outcome)
      requires n > 0 && DecoderValid(ctx.dec) && source.requests == base + r0
      modifies ctx, source
      ensures var s := Join(c, r0, h0, Loop(ctx.dec, n, old(ctx.state), old(source.pending), hint0));
              && chunks == s.chunks && r == s.outcome
              && ctx.state == s.state && source.pending == s.pending
              && source.requests == base + s.requests
    {
      ghost var target := Join(c, r0, h0, Loop(ctx.dec, n, ctx.state, source.pending, hint0));
      var hint := hint0;
      chunks := c;
      ghost var reqs: seq<nat>, hints: seq<nat> := r0, h0;
      while hint > 0
        invariant Join(chunks, reqs, hints, Loop(ctx.dec, n, ctx.state, source.pending, hint)) == target
        invariant source.requests == base + reqs
        decreases |source.pending|
      {
        ghost var d0, p0 := ctx.state, source.pending;
        var input := source.Read(hint);
        var step := Feed(input, n);
        LoopStep(ctx.dec, n, d0, p0, hint, step, ctx.state);
        if step.Err? {
          assert reqs + [hint] == (reqs + [hint]) + [];
          return chunks, Fail(step.error);
        }
        assert |source.pending| < |p0|;
        JoinJoin(chunks, reqs, hints, step.value.0, [hint], [step.value.1],
                 Loop(ctx.dec, n, ctx.state, source.pending, step.value.1));
        chunks, reqs, hints := chunks + step.value.0, reqs + [hint], hints + [step.value.1];
        hint := step.value.1;
      }
      assert reqs + [] == reqs && chunks + [] == chunks;
      return chunks, Pass;
    }
  }

  /** `Decompressor(fp)`: the check of `fp`, then a fresh decompression
      context and no frame info yet. */
  method OpenDecompressor<D(!new)>(dec: Decoder<D>, init: D, fp: ReadArg) returns (r: Result<Decompressor<D>>)
    ensures fp == NoFp ==> r == Err(TypeError(FpMissing))
    ensures fp == NoReadAttribute ==> r == Err(AttributeError("read"))
    ensures fp == ReadNotCallable ==> r == Err(TypeError(FpReadNotCallable))
    ensures fp.ReadsFrom? ==>
              && r.Ok? && fresh(r.value) && fresh(r.value.ctx)
              && r.value.source == fp.source && r.value.info == None
              && r.value.ctx.dec == dec && r.value.ctx.state == init
  {
    if fp == NoFp {
      return Err(TypeError(FpMissing));
    } else if fp == NoReadAttribute {
      return Err(AttributeError("read"));
    } else if fp == ReadNotCallable {
      return Err(TypeError(FpReadNotCallable));
    }
    var dctx := new DecompressionContext(dec, init);
    var d := new Decompressor(fp.source, dctx);
    return Ok(d);
  }
}
