/** decompress_update (py-lz4framed.c, lines 880-991): feed one piece of a
    frame to a decompression context and return what it decodes, sliced into
    chunks of `chunk_len` bytes, followed by the library's size hint. */
module Streaming {
  import opened Errors
  import opened Lz4f
  import opened Arguments
  import opened Chunking
  import opened Contexts

  /** An element of the returned list: a bytes chunk, or the final size hint. */
  datatype Item = Chunk(bytes: seq<byte>) | SizeHint(hint: nat)

  function ChunkItems(chunks: seq<seq<byte>>): (r: seq<Item>)
    ensures |r| == |chunks|
    ensures forall i :: 0 <= i < |r| ==> r[i] == Chunk(chunks[i])
  {
    seq(|chunks|, i requires 0 <= i < |chunks| => Chunk(chunks[i]))
  }

  /** The space left in the current chunk once `w` bytes have been decoded
      into chunks of `n` bytes: a full chunk is replaced by a fresh one
      before the next call. */
  function Space(w: nat, n: nat): (r: nat)
    requires n > 0
    ensures 1 <= r <= n
    decreases w
  {
    if w < n then n - w else Space(w - n, n)
  }

  /** Reference definition: after k full chunks and u more bytes, the space
      left is the chunk length less those u bytes. */
  lemma {:induction false} SpaceAfterChunks(k: nat, u: nat, n: nat)
    requires 0 <= u < n
    ensures Space(k * n + u, n) == n - u
  {
    if k > 0 {
      SpaceAfterChunks(k - 1, u, n);
      assert k * n + u - n == (k - 1) * n + u;
    }
  }

  /** Writing k bytes into the space left either fills the chunk (and the
      next call gets a fresh one) or leaves that much less. */
  lemma {:induction false} SpaceAfterWrite(w: nat, n: nat, k: nat)
    requires n > 0 && k <= Space(w, n)
    ensures Space(w + k, n) == if k == Space(w, n) then n else Space(w, n) - k
    decreases w
  {
    if w >= n {
      SpaceAfterWrite(w - n, n, k);
      assert w + k - n == (w - n) + k;
    } else if w + k == n {
      assert Space(w + k, n) == Space(0, n);
    }
  }

  /** Each call of `calls` is offered what is left of the current chunk of
      `n` bytes, `w` having been decoded before the first. */
  ghost predicate CapsFollow<D>(calls: seq<Call<D>>, n: nat, w: seq<byte>)
    requires n > 0
    decreases |calls|
  {
    calls == [] ||
    (calls[0].cap == Space(|w|, n) && CapsFollow(calls[1..], n, w + OutOf(calls[0])))
  }

  /** The recursive definition says what it should: call i is offered the
      space left after `w` and what calls 0..i-1 wrote. */
  lemma {:induction false} CapsFollowAt<D>(calls: seq<Call<D>>, n: nat, w: seq<byte>, i: nat)
    requires n > 0 && CapsFollow(calls, n, w) && i < |calls|
    ensures calls[i].cap == Space(|w + Written(calls[..i])|, n)
    decreases |calls|
  {
    if i == 0 {
      assert w + Written(calls[..0]) == w;
    } else {
      var c := calls[0];
      CapsFollowAt(calls[1..], n, w + OutOf(c), i - 1);
      WrittenFirst(calls[..i]);
      assert calls[..i][0] == c && calls[..i][1..] == calls[1..][..i - 1];
      assert w + Written(calls[..i]) == (w + OutOf(c)) + Written(calls[1..][..i - 1]);
    }
  }

  /** `calls` is the run of LZ4F_decompress calls one decompress_update makes
      on input `src0` from state `d0`: each call gets what is left of the
      current chunk, every call but the last leaves the frame incomplete and
      input unconsumed, and the last one fails, completes the frame or
      consumes the rest of the input. */
  ghost predicate UpdateTrace<D>(dec: Decoder<D>, d0: D, src0: seq<byte>, n: nat, calls: seq<Call<D>>)
    requires n > 0
  {
    && Chained(dec, d0, src0, calls)
    && CapsFollow(calls, n, [])
    && StopsAtLast(calls)
  }

  /** What decompress_update returns after such a run: the library's error,
      or everything decoded sliced into n-byte chunks and the last hint. */
  function UpdateOutcome<D>(calls: seq<Call<D>>, n: nat): Result<seq<Item>>
    requires n > 0 && |calls| > 0
  {
    match calls[|calls| - 1].result
    case StepFailed(code, _) => Err(Lz4FramedError(code))
    case Decoded(_, _, hint, _) => Ok(ChunkItems(Split(Written(calls), n)) + [SizeHint(hint)])
  }

  /** Reference definition of the loop: the calls decompress_update makes
      from library state `d` with input `src` left, hint `hint`, and `w`
      already decoded into chunks of `n` bytes. */
  ghost function RunFrom<D(!new)>(dec: Decoder<D>, n: nat, d: D, src: seq<byte>, hint: nat, w: seq<byte>)
    : (r: seq<Call<D>>)
    requires n > 0 && DecoderValid(dec)
    ensures src != [] && hint != 0 <==> r != []
    decreases |src|, if hint == 0 then 0 else 1, dec.rank(d)
  {
    if src == [] || hint == 0 then []
    else
      var cap := Space(|w|, n);
      var res := dec.Step(d, src, cap);
      assert StepBounded(dec, d, src, cap);
      if res.StepFailed? then [Call(d, src, cap, res)]
      else [Call(d, src, cap, res)] + RunFrom(dec, n, res.next, src[res.read..], res.hint, w + res.out)
  }

  /** The calls of one decompress_update on `input`, from library state `d0`. */
  ghost function UpdateRun<D(!new)>(dec: Decoder<D>, n: nat, d0: D, input: seq<byte>): seq<Call<D>>
    requires n > 0 && DecoderValid(dec)
  {
    RunFrom(dec, n, d0, input, 1, [])
  }

  /** The reference loop, resumed with input and a non-zero hint, makes a
      chained run offering each call the rest of its chunk and stopping
      exactly when a call fails, completes the frame or consumes the input. */
  lemma {:induction false} RunFromTrace<D(!new)>(dec: Decoder<D>, n: nat, d: D, src: seq<byte>, hint: nat,
                                                 w: seq<byte>)
    requires n > 0 && DecoderValid(dec) && src != [] && hint != 0
    ensures var run := RunFrom(dec, n, d, src, hint, w);
            Chained(dec, d, src, run) && CapsFollow(run, n, w) && StopsAtLast(run)
    decreases |src|, dec.rank(d)
  {
    var cap := Space(|w|, n);
    var res := dec.Step(d, src, cap);
    var call := Call(d, src, cap, res);
    assert StepBounded(dec, d, src, cap);
    var run := RunFrom(dec, n, d, src, hint, w);
    if res.Decoded? {
      var more := RunFrom(dec, n, res.next, src[res.read..], res.hint, w + res.out);
      assert run == [call] + more && run[0] == call && run[1..] == more;
      if more != [] {
        RunFromTrace(dec, n, res.next, src[res.read..], res.hint, w + res.out);
      }
    }
  }

  /** The reference loop makes a run of the kind decompress_update makes. */
  lemma UpdateRunIsTrace<D(!new)>(dec: Decoder<D>, n: nat, d0: D, input: seq<byte>)
    requires n > 0 && DecoderValid(dec) && input != []
    ensures UpdateTrace(dec, d0, input, n, UpdateRun(dec, n, d0, input))
  {
    RunFromTrace(dec, n, d0, input, 1, []);
  }

  /** The full chunks `full` and the used part `cur` of the current chunk,
      which has `rem` bytes left, hold exactly the bytes `w` decoded so far. */
  ghost predicate ChunksHold(w: seq<byte>, n: nat, full: seq<seq<byte>>, cur: seq<byte>, rem: nat)
    requires n > 0
  {
    && rem <= n && |cur| == n - rem
    && Flatten(full) + cur == w
    && AllFull(full, n)
    && (if rem == 0 then n else rem) == Space(|w|, n)
  }

  /** A full current chunk goes to the list and a fresh one starts. */
  lemma ChunksRefill(w: seq<byte>, n: nat, full: seq<seq<byte>>, cur: seq<byte>)
    requires n > 0 && ChunksHold(w, n, full, cur, 0)
    ensures ChunksHold(w, n, full + [cur], [], n)
  {
    FlattenAppend(full, cur);
    AllFullAppend(full, n, cur);
  }

  /** Decoding `out` into the rest of the current chunk keeps the chunks in
      step with everything decoded. */
  lemma ChunksWrite(w: seq<byte>, n: nat, full: seq<seq<byte>>, cur: seq<byte>, rem: nat, out: seq<byte>)
    requires n > 0 && ChunksHold(w, n, full, cur, rem) && 0 < rem && |out| <= rem
    ensures ChunksHold(w + out, n, full, cur + out, rem - |out|)
  {
    SpaceAfterWrite(|w|, n, |out|);
    assert Flatten(full) + (cur + out) == w + out;
  }

  /** Chunks all of `n` bytes. */
  ghost predicate AllFull(chunks: seq<seq<byte>>, n: nat)
    decreases |chunks|
  {
    chunks == [] || (AllFull(chunks[..|chunks| - 1], n) && |chunks[|chunks| - 1]| == n)
  }

  lemma AllFullAppend(chunks: seq<seq<byte>>, n: nat, c: seq<byte>)
    requires AllFull(chunks, n) && |c| == n
    ensures AllFull(chunks + [c], n)
  {
    assert (chunks + [c])[..|chunks|] == chunks;
  }

  lemma {:induction false} AllFullAt(chunks: seq<seq<byte>>, n: nat, i: nat)
    requires AllFull(chunks, n) && i < |chunks|
    ensures |chunks[i]| == n
    decreases |chunks|
  {
    if i < |chunks| - 1 {
      AllFullAt(chunks[..|chunks| - 1], n, i);
    }
  }

  /** The full chunks and the used part of the current one, kept only if it
      holds data, are the n-byte slicing of everything decoded. */
  lemma FinalChunks(w: seq<byte>, n: nat, full: seq<seq<byte>>, current: seq<byte>, rem: nat)
    requires n > 0 && ChunksHold(w, n, full, current, rem)
    ensures (if |current| > 0 then full + [current] else full) == Split(w, n)
  {
    var chunks := if |current| > 0 then full + [current] else full;
    forall i | 0 <= i < |full| ensures |full[i]| == n {
      AllFullAt(full, n, i);
    }
    if |current| > 0 {
      FlattenAppend(full, current);
    } else {
      assert Flatten(full) == w;
    }
    assert ChunkedAs(w, n, chunks);
    ChunkingUnique(w, n, chunks);
  }

  /** decompress_update(ctx, b, chunk_len). After the checks, decode `input`
      through the context. */
  method DecompressUpdate<E, D(!new)>(ctx: Capsule<E, D>, input: seq<byte>, chunkLen: CInt)
    returns (r: Result<seq<Item>>)
    requires ctx.DecompressionCtx? ==> DecoderValid(ctx.dctx.dec)
    modifies ctx.Objects()
    ensures CheckDecompressUpdate(ctx.Kind(), |input|, chunkLen).Fail? ==>
              r == Err(CheckDecompressUpdate(ctx.Kind(), |input|, chunkLen).error) && unchanged(ctx.Objects())
    ensures CheckDecompressUpdate(ctx.Kind(), |input|, chunkLen).Pass? ==>
              var c := ctx.dctx;
              && chunkLen > 0
              && var calls := UpdateRun(c.dec, chunkLen, old(c.state), input);
              && UpdateTrace(c.dec, old(c.state), input, chunkLen, calls)
              && c.state == FinalState(old(c.state), calls)
              && r == UpdateOutcome(calls, chunkLen)
  {
    var check := CheckDecompressUpdate(ctx.Kind(), |input|, chunkLen);
    if check.Fail? {
      return Err(check.error);
    }
    UpdateRunIsTrace(ctx.dctx.dec, chunkLen, ctx.dctx.state, input);
    r := DecodeChunks(ctx.dctx, input, chunkLen);
  }

  /** How a decompress_update ends when, from library state `d`, with `w`
      decoded so far and hint `hint`, it makes the calls `rest`: the final
      library state, and the library's error or all that was decoded and
      the last hint. */
  function Ending<D>(d: D, w: seq<byte>, hint: nat, rest: seq<Call<D>>): (D, Result<(seq<byte>, nat)>) {
    if rest == [] then (d, Ok((w, hint)))
    else
      var last := rest[|rest| - 1].result;
      (last.next,
       match last
       case StepFailed(code, _) => Err(Lz4FramedError(code))
       case Decoded(_, _, h, _) => Ok((w + Written(rest), h)))
  }

  /** What the loop goes on to produce from state `d`, with input `src` left,
      hint `hint` and `w` decoded so far. */
  ghost function Resume<D(!new)>(dec: Decoder<D>, n: nat, d: D, src: seq<byte>, hint: nat, w: seq<byte>)
    : (D, Result<(seq<byte>, nat)>)
    requires n > 0 && DecoderValid(dec)
  {
    Ending(d, w, hint, RunFrom(dec, n, d, src, hint, w))
  }

  /** The list decompress_update returns for such an ending. */
  function Items(n: nat, e: Result<(seq<byte>, nat)>): Result<seq<Item>>
    requires n > 0
  {
    match e
    case Ok((w, hint)) => Ok(ChunkItems(Split(w, n)) + [SizeHint(hint)])
    case Err(error) => Err(error)
  }

  /** A successful first call hands the ending on to the calls after it. */
  lemma EndingPrepend<D>(d: D, w: seq<byte>, hint: nat, call: Call<D>, more: seq<Call<D>>)
    requires call.result.Decoded?
    ensures Ending(d, w, hint, [call] + more) == Ending(call.result.next, w + call.result.out, call.result.hint, more)
  {
    var rest := [call] + more;
    WrittenFirst(rest);
    assert rest[0] == call && rest[1..] == more;
    if more != [] {
      assert rest[|rest| - 1] == more[|more| - 1];
      assert w + Written(rest) == (w + call.result.out) + Written(more);
    } else {
      assert Written(rest) == call.result.out + [] == call.result.out;
      assert Ending(d, w, hint, rest) == (call.result.next, Ok((w + call.result.out, call.result.hint)));
    }
  }

  /** One successful call moves the loop on without changing where it ends. */
  lemma ResumeStep<D(!new)>(dec: Decoder<D>, n: nat, d: D, src: seq<byte>, hint: nat, w: seq<byte>)
    requires n > 0 && DecoderValid(dec) && src != [] && hint != 0
    requires dec.Step(d, src, Space(|w|, n)).Decoded?
    ensures var res := dec.Step(d, src, Space(|w|, n));
            && res.read <= |src| && |res.out| <= Space(|w|, n)
            && Resume(dec, n, d, src, hint, w) == Resume(dec, n, res.next, src[res.read..], res.hint, w + res.out)
  {
    var cap := Space(|w|, n);
    var res := dec.Step(d, src, cap);
    assert StepBounded(dec, d, src, cap);
    var call := Call(d, src, cap, res);
    var more := RunFrom(dec, n, res.next, src[res.read..], res.hint, w + res.out);
    assert RunFrom(dec, n, d, src, hint, w) == [call] + more;
    EndingPrepend(d, w, hint, call, more);
  }

  /** A failing call ends the loop with the library's error. */
  lemma ResumeFails<D(!new)>(dec: Decoder<D>, n: nat, d: D, src: seq<byte>, hint: nat, w: seq<byte>)
    requires n > 0 && DecoderValid(dec) && src != [] && hint != 0
    requires dec.Step(d, src, Space(|w|, n)).StepFailed?
    ensures var res := dec.Step(d, src, Space(|w|, n));
            Resume(dec, n, d, src, hint, w) == (res.next, Err(Lz4FramedError(res.code)))
  {
    assert StepBounded(dec, d, src, Space(|w|, n));
  }

  /** Resumed at the start, the loop ends as the whole run of calls says. */
  lemma ResumeFromStart<D(!new)>(dec: Decoder<D>, n: nat, d0: D, input: seq<byte>)
    requires n > 0 && DecoderValid(dec) && input != []
    ensures var calls := UpdateRun(dec, n, d0, input);
            var e := Resume(dec, n, d0, input, 1, []);
            e.0 == FinalState(d0, calls) && Items(n, e.1) == UpdateOutcome(calls, n)
  {
    var calls := UpdateRun(dec, n, d0, input);
    assert [] + Written(calls) == Written(calls);
  }

  /** The loop of decompress_update: decode `input` through a chunk buffer of
      `n` bytes, appending each full chunk to the list, until the frame is
      complete or the input is used up; then append the final partial chunk
      if it holds data, and the hint. */
  method DecodeChunks<D(!new)>(c: DecompressionContext<D>, input: seq<byte>, n: nat)
    returns (r: Result<seq<Item>>)
    requires DecoderValid(c.dec) && input != [] && n > 0
    modifies c
    ensures var calls := UpdateRun(c.dec, n, old(c.state), input);
            && c.state == FinalState(old(c.state), calls)
            && r == UpdateOutcome(calls, n)
  {
    ResumeFromStart(c.dec, n, c.state, input);
    ghost var target := Resume(c.dec, n, c.state, input, 1, []);
    var d := c.state;                  // the library's state, written back on exit
    var full: seq<seq<byte>> := [];   // the list of full chunks
    var chunk := new byte[n];
    var rem: nat := n;                 // chunk_remaining
    var src := input;                  // input left
    var hint: nat := 1;
    ghost var wr: seq<byte> := [];     // everything decoded so far
    ghost var cur: seq<byte> := [];    // the used part of the current chunk
    while src != [] && hint != 0
      invariant chunk.Length == n && fresh(chunk) && rem <= n && chunk[..n - rem] == cur
      invariant Resume(c.dec, n, d, src, hint, wr) == target
      invariant ChunksHold(wr, n, full, cur, rem)
      decreases |src|, if hint == 0 then 0 else 1, c.dec.rank(d)
    {
      var res;
      res, d, src, hint, full, chunk, rem, wr, cur := DecodeRound(c.dec, n, d, src, hint, full, chunk, rem, wr, cur);
      if res.StepFailed? {
        c.state := d;
        return Err(Lz4FramedError(res.code));
      }
    }
    assert target == (d, Ok((wr, hint)));
    c.state := d;
    var chunks := if rem < n then full + [chunk[..n - rem]] else full;
    FinalChunks(wr, n, full, cur, rem);
    r := Ok(ChunkItems(chunks) + [SizeHint(hint)]);
  }

  /** A full chunk goes to the list and a fresh buffer of `n` bytes replaces it. */
  method NextChunk(n: nat, full: seq<seq<byte>>, chunk: array<byte>, ghost wr: seq<byte>, ghost cur: seq<byte>)
    returns (full': seq<seq<byte>>, chunk': array<byte>)
    requires n > 0 && chunk.Length == n && chunk[..] == cur && ChunksHold(wr, n, full, cur, 0)
    ensures full' == full + [cur] && fresh(chunk') && chunk'.Length == n && ChunksHold(wr, n, full', [], n)
  {
    ChunksRefill(wr, n, full, cur);
    full' := full + [chunk[..]];
    chunk' := new byte[n];
  }

  /** One round of that loop: start a fresh chunk if the current one is
      full, then make one LZ4F_decompress call into the rest of it. A
      failing call ends the loop with the library's error; a successful one
      moves the loop on, decodes into the chunk and keeps where it ends. */
  method DecodeRound<D(!new)>(dec: Decoder<D>, n: nat, d: D, src: seq<byte>, hint: nat,
                              full: seq<seq<byte>>, chunk: array<byte>, rem: nat,
                              ghost wr: seq<byte>, ghost cur: seq<byte>)
    returns (res: StepResult<D>, d': D, src': seq<byte>, hint': nat,
             full': seq<seq<byte>>, chunk': array<byte>, rem': nat, ghost wr': seq<byte>, ghost cur': seq<byte>)
    requires n > 0 && DecoderValid(dec) && src != [] && hint != 0
    requires chunk.Length == n && rem <= n && chunk[..n - rem] == cur && ChunksHold(wr, n, full, cur, rem)
    modifies chunk
    ensures d' == res.next
    ensures res.StepFailed? ==> Resume(dec, n, d, src, hint, wr) == (d', Err(Lz4FramedError(res.code)))
    ensures res.Decoded? ==>
              && res.read <= |src| && src' == src[res.read..] && hint' == res.hint
              && Resume(dec, n, d', src', hint', wr') == Resume(dec, n, d, src, hint, wr)
              && chunk'.Length == n && rem' <= n && chunk'[..n - rem'] == cur' && ChunksHold(wr', n, full', cur', rem')
              && (|src'| < |src| || (|src'| == |src| && (hint' == 0 || dec.rank(d') < dec.rank(d))))
    ensures chunk' == chunk || fresh(chunk')
  {
    full', chunk', rem', cur' := full, chunk, rem, cur;
    if rem == 0 {
      full', chunk' := NextChunk(n, full, chunk, wr, cur);
      rem', cur' := n, [];
    }
    res := DecompressInto(dec, d, src, chunk', n - rem', cur');
    d', src', hint', wr' := res.next, src, hint, wr;
    if res.StepFailed? {
      ResumeFails(dec, n, d, src, hint, wr);
      return;
    }
    ResumeStep(dec, n, d, src, hint, wr);
    ChunksWrite(wr, n, full', cur', rem', res.out);
    wr' := wr + res.out;
    cur' := cur' + res.out;
    rem' := rem' - |res.out|;
    src' := src[res.read..];
    hint' := res.hint;
  }

  // ----- properties of the result -----

  /** A successful call returns chunks whose concatenation is everything the
      library decoded, all of `n` bytes but the last, none empty, and ends
      with the size hint of the last call. */
  lemma UpdateOutcomeChunks<D>(calls: seq<Call<D>>, n: nat)
    requires n > 0 && |calls| > 0
    requires UpdateOutcome(calls, n).Ok?
    ensures var items := UpdateOutcome(calls, n).value;
            && |items| >= 1
            && items[|items| - 1] == SizeHint(calls[|calls| - 1].result.hint)
            && ChunkedAs(Written(calls), n, Split(Written(calls), n))
            && items[..|items| - 1] == ChunkItems(Split(Written(calls), n))
  {
    SplitIsChunking(Written(calls), n);
    var items := UpdateOutcome(calls, n).value;
    assert items[..|items| - 1] == ChunkItems(Split(Written(calls), n));
  }

  /** A successful call stops only once the frame is complete (hint 0) or the
      whole input has been consumed. */
  lemma UpdateStopsAtFrameOrInputEnd<D>(dec: Decoder<D>, d0: D, src0: seq<byte>, n: nat, calls: seq<Call<D>>)
    requires n > 0
    requires UpdateTrace(dec, d0, src0, n, calls)
    requires UpdateOutcome(calls, n).Ok?
    ensures var last := calls[|calls| - 1];
            last.result.hint == 0 || last.result.read >= |last.src|
  {
    StopsAtLastAt(calls, |calls| - 1);
  }
}
