/** The one-shot entry points `compress` and `decompress` (py-lz4framed.c,
    lines 224-441): a whole frame made from, or decoded from, one bytes
    object, with a decompression context of its own. */
module OneShot {
  import opened Errors
  import opened Lz4f
  import opened Arguments
  import opened BlockSize

  // ----- compress -----

  /** The preferences compress hands to LZ4F_compressFrame: prefs_defaults
      with the caller's options and the input's length as content size. */
  function CompressPrefs(inputLen: nat, blockId: CInt, linked: bool, checksum: bool, level: CInt,
                         blockChecksum: bool): Prefs
  {
    DefaultPrefs.(contentSize := inputLen, linked := linked, blockSizeId := blockId,
                  blockChecksum := blockChecksum, contentChecksum := checksum, level := level)
  }

  /** compress(b, block_size_id, block_mode_linked, checksum, level,
      block_checksum): after the checks, one LZ4F_compressFrame call that
      declares the content size and never flushes early. */
  function Compress<E>(enc: Encoder<E>, input: seq<byte>, blockId: CInt, linked: bool, checksum: bool,
                       level: CInt, blockChecksum: bool): (r: Result<seq<byte>>)
    ensures var check := CheckCompress(|input|, blockId, level);
            check.Fail? ==> r == Err(check.error)
    ensures var p := CompressPrefs(|input|, blockId, linked, checksum, level, blockChecksum);
            && p.contentSize == |input| && !p.autoflush && p.blockSizeId == blockId && p.level == level
            && p.linked == linked && p.contentChecksum == checksum && p.blockChecksum == blockChecksum
            && (CheckCompress(|input|, blockId, level).Pass? ==>
                  match enc.compressFrame(input, p)
                  case FrameOk(bytes) => r == Ok(bytes)
                  case FrameFailed(code) => r == Err(Lz4FramedError(code)))
    ensures r.Ok? ==> |input| > 0 && IsValidId(blockId) && level <= CompressionMax
  {
    var check := CheckCompress(|input|, blockId, level);
    if check.Fail? then Err(check.error)
    else
      match enc.compressFrame(input, CompressPrefs(|input|, blockId, linked, checksum, level, blockChecksum))
      case FrameOk(bytes) => Ok(bytes)
      case FrameFailed(code) => Err(Lz4FramedError(code))
  }

  // ----- decompress: the specification -----

  /** The first output buffer: the declared content size when the header
      gives one, else the larger of buffer_size and the input left after
      the header. */
  function InitialLen(contentSize: nat, bufferSize: int, remaining: nat): (len: nat)
    requires bufferSize > 0
    ensures len >= 1
    ensures contentSize != 0 ==> len == contentSize
    ensures contentSize == 0 ==> len >= bufferSize && len >= remaining && (len == bufferSize || len == remaining)
  {
    if contentSize != 0 then contentSize
    else if bufferSize >= remaining then bufferSize
    else remaining
  }

  /** Reference definition of the loop of decompress: the LZ4F_decompress
      calls made from state `d` with input `src` left, `cap` bytes of the
      output buffer free and a buffer of `len` bytes in all. A call that
      fails, completes the frame or consumes the rest of the input is the
      last; otherwise the buffer grows by its own length, unless `stop` (a
      declared content size with warnings turned into errors) ends the loop. */
  ghost function GrowFrom<D(!new)>(dec: Decoder<D>, stop: bool, d: D, src: seq<byte>, cap: nat, len: nat)
    : (r: seq<Call<D>>)
    requires DecoderValid(dec) && cap > 0 && len > 0
    ensures r != []
    decreases |src|, dec.rank(d)
  {
    var res := dec.Step(d, src, cap);
    assert StepBounded(dec, d, src, cap);
    var call := Call(d, src, cap, res);
    if res.StepFailed? || res.hint == 0 || res.read == |src| || stop then [call]
    else [call] + GrowFrom(dec, stop, res.next, src[res.read..], cap - |res.out| + len, 2 * len)
  }

  /** What decompress returns once `c` was its last call and `decoded` all
      it decoded: the library's error; the decoded bytes, trimmed to their
      length, once the frame is complete; the warning turned into an error
      when input is left; or "frame incomplete" when the input ran out. */
  function CallOutcome<D>(c: Call<D>, decoded: seq<byte>): Result<seq<byte>> {
    match c.result
    case StepFailed(code, _) => Err(Lz4FramedError(code))
    case Decoded(read, _, hint, _) =>
      if hint == 0 then Ok(decoded)
      else if read < |c.src| then Err(RuntimeWarningRaised)
      else Err(ValueError(FrameIncomplete))
  }

  /** What decompress returns after the run of calls `calls`. */
  function DecompressOutcome<D>(calls: seq<Call<D>>): Result<seq<byte>>
    requires calls != []
  {
    CallOutcome(calls[|calls| - 1], Written(calls))
  }

  /** decompress(b, buffer_size) after the checks: read the header, size the
      buffer, and run the loop on the input after the header. */
  ghost function Decompressed<D(!new)>(dec: Decoder<D>, d0: D, input: seq<byte>, bufferSize: CInt,
                                       warningsAsErrors: bool): Result<seq<byte>>
    requires DecoderValid(dec) && bufferSize > 0
  {
    match dec.getFrameInfo(d0, input)
    case InfoFailed(code, _) => Err(Lz4FramedError(code))
    case InfoOk(read, info, _, next) =>
      assert InfoBounded(dec, d0, input);
      var len := InitialLen(info.contentSize, bufferSize, |input| - read);
      DecompressOutcome(GrowFrom(dec, info.contentSize != 0 && warningsAsErrors, next, input[read..], len, len))
  }

  /** Each call of `calls` is offered `cap` bytes, and the buffer of `len`
      bytes then doubles: the free space grows by the old length. */
  ghost predicate CapsGrow<D>(calls: seq<Call<D>>, cap: int, len: int)
    decreases |calls|
  {
    calls == [] || (calls[0].cap == cap && CapsGrow(calls[1..], cap - |OutOf(calls[0])| + len, 2 * len))
  }

  /** The loop of decompress makes a chained run whose calls are offered the
      free part of a doubling buffer, and which stops exactly when a call
      fails, completes the frame or consumes the input; when `stop` holds it
      makes one call only. */
  lemma {:induction false} GrowFromTrace<D(!new)>(dec: Decoder<D>, stop: bool, d: D, src: seq<byte>,
                                                  cap: nat, len: nat)
    requires DecoderValid(dec) && cap > 0 && len > 0
    ensures var run := GrowFrom(dec, stop, d, src, cap, len);
            && Chained(dec, d, src, run) && CapsGrow(run, cap, len)
            && (stop ==> |run| == 1)
            && (!stop ==> StopsAtLast(run))
    decreases |src|, dec.rank(d)
  {
    var res := dec.Step(d, src, cap);
    assert StepBounded(dec, d, src, cap);
    var call := Call(d, src, cap, res);
    var run := GrowFrom(dec, stop, d, src, cap, len);
    if !(res.StepFailed? || res.hint == 0 || res.read == |src| || stop) {
      var more := GrowFrom(dec, stop, res.next, src[res.read..], cap - |res.out| + len, 2 * len);
      assert run == [call] + more && run[0] == call && run[1..] == more;
      GrowFromTrace(dec, stop, res.next, src[res.read..], cap - |res.out| + len, 2 * len);
    }
  }

  /** The buffer's length after `i` doublings from `len`. */
  function Doubled(len: int, i: nat): int {
    if i == 0 then len else 2 * Doubled(len, i - 1)
  }

  /** Doubling i times is multiplying by 2^i. */
  lemma {:induction false} DoubledIsPow2(len: int, i: nat)
    ensures Doubled(len, i) == Pow2(i) * len
  {
    if i > 0 {
      DoubledIsPow2(len, i - 1);
      assert 2 * (Pow2(i - 1) * len) == (2 * Pow2(i - 1)) * len;
    }
  }

  lemma {:induction false} DoubledShift(len: int, i: nat)
    ensures Doubled(2 * len, i) == Doubled(len, i + 1)
  {
    if i > 0 {
      DoubledShift(len, i - 1);
    }
  }

  /** The buffer accounting of decompress: before call i the buffer has
      doubled i times, and its free part is its length less everything
      written so far (`w` before the run, then the run's earlier calls). */
  lemma {:induction false} BufferAccounting<D>(calls: seq<Call<D>>, cap: int, len: int, w: seq<byte>, i: nat)
    requires CapsGrow(calls, cap, len) && cap + |w| == len && i < |calls|
    ensures calls[i].cap + |w| + |Written(calls[..i])| == Doubled(len, i)
    decreases i
  {
    if i == 0 {
      assert calls[..0] == [];
    } else {
      var c := calls[0];
      BufferAccounting(calls[1..], cap - |OutOf(c)| + len, 2 * len, w + OutOf(c), i - 1);
      WrittenFirst(calls[..i]);
      assert calls[..i][0] == c && calls[..i][1..] == calls[1..][..i - 1];
      DoubledShift(len, i - 1);
    }
  }

  /** For the run of decompress itself, started with an empty buffer of
      `len` bytes: before call i the buffer holds 2^i * len bytes, of which
      those not yet written are offered to the call. */
  lemma BufferDoubles<D(!new)>(dec: Decoder<D>, stop: bool, d: D, src: seq<byte>, len: nat, i: nat)
    requires DecoderValid(dec) && len > 0
    requires i < |GrowFrom(dec, stop, d, src, len, len)|
    ensures var run := GrowFrom(dec, stop, d, src, len, len);
            run[i].cap + |Written(run[..i])| == Pow2(i) * len
  {
    var run := GrowFrom(dec, stop, d, src, len, len);
    GrowFromTrace(dec, stop, d, src, len, len);
    BufferAccounting(run, len, len, [], i);
    DoubledIsPow2(len, i);
  }

  /** decompress succeeds exactly when its last call completes the frame,
      and returns all the calls wrote; "frame incomplete" is raised exactly
      when that call consumed all input and the frame is not complete. */
  lemma DecompressEnds<D(!new)>(dec: Decoder<D>, stop: bool, d: D, src: seq<byte>, len: nat)
    requires DecoderValid(dec) && len > 0
    ensures var run := GrowFrom(dec, stop, d, src, len, len);
            var last := run[|run| - 1];
            && (DecompressOutcome(run).Ok? <==> last.result.Decoded? && last.result.hint == 0)
            && (DecompressOutcome(run).Ok? ==> DecompressOutcome(run).value == Written(run))
            && (DecompressOutcome(run) == Err(ValueError(FrameIncomplete)) <==>
                  last.result.Decoded? && last.result.hint != 0 && last.result.read >= |last.src|)
  {
    var run := GrowFrom(dec, stop, d, src, len, len);
    var last := run[|run| - 1];
    GrowFromTrace(dec, stop, d, src, len, len);
    assert Chained(dec, d, src, run);
    assert StepBounded(dec, last.before, last.src, last.cap) by {
      LastChainedBounded(dec, d, src, run);
    }
  }

  /** The last call of a chained run is a call of the decoder, and so
      consumes no more than it is offered. */
  lemma {:induction false} LastChainedBounded<D(!new)>(dec: Decoder<D>, d: D, src: seq<byte>, calls: seq<Call<D>>)
    requires DecoderValid(dec) && Chained(dec, d, src, calls) && calls != []
    ensures var last := calls[|calls| - 1];
            last.result == dec.Step(last.before, last.src, last.cap)
            && StepBounded(dec, last.before, last.src, last.cap)
    decreases |calls|
  {
    var last := calls[|calls| - 1];
    if |calls| > 1 {
      var c := calls[0];
      LastChainedBounded(dec, c.result.next, src[c.result.read..], calls[1..]);
      assert calls[1..][|calls| - 2] == last;
    }
    assert StepBounded(dec, last.before, last.src, last.cap);
  }

  /** With warnings left as warnings the loop never raises one: a call that
      leaves input and an incomplete frame always gets a larger buffer. */
  lemma NoWarningRaised<D(!new)>(dec: Decoder<D>, d: D, src: seq<byte>, len: nat)
    requires DecoderValid(dec) && len > 0
    ensures DecompressOutcome(GrowFrom(dec, false, d, src, len, len)) != Err(RuntimeWarningRaised)
  {
    var run := GrowFrom(dec, false, d, src, len, len);
    GrowFromTrace(dec, false, d, src, len, len);
    StopsAtLastAt(run, |run| - 1);
  }

  /** With a declared content size and warnings turned into errors, the
      buffer is never enlarged: a successful result is no longer than the
      declared size. */
  lemma KnownSizeBound<D(!new)>(dec: Decoder<D>, d0: D, input: seq<byte>, bufferSize: CInt)
    requires DecoderValid(dec) && bufferSize > 0
    requires dec.getFrameInfo(d0, input).InfoOk? && dec.getFrameInfo(d0, input).info.contentSize != 0
    requires Decompressed(dec, d0, input, bufferSize, true).Ok?
    ensures |Decompressed(dec, d0, input, bufferSize, true).value| <= dec.getFrameInfo(d0, input).info.contentSize
  {
    var fi := dec.getFrameInfo(d0, input);
    assert InfoBounded(dec, d0, input);
    var len := fi.info.contentSize;
    var src := input[fi.read..];
    var run := GrowFrom(dec, true, fi.next, src, len, len);
    GrowFromTrace(dec, true, fi.next, src, len, len);
    assert run == [run[0]] && run[0].cap == len;
    assert StepBounded(dec, fi.next, src, len);
    assert Written(run) == Written(run[..0]) + OutOf(run[0]) by {
      assert run[..0] == [];
    }
  }

  // ----- decompress: the loop -----

  /** What the loop of decompress goes on to return from state `d`, with
      input `src` left, `cap` bytes free in a buffer of `len` and `w`
      decoded so far. */
  ghost function GrowResume<D(!new)>(dec: Decoder<D>, stop: bool, d: D, src: seq<byte>, cap: nat, len: nat,
                                     w: seq<byte>): Result<seq<byte>>
    requires DecoderValid(dec) && cap > 0 && len > 0
  {
    var run := GrowFrom(dec, stop, d, src, cap, len);
    CallOutcome(run[|run| - 1], w + Written(run))
  }

  /** A call after which the loop goes round again moves it on without
      changing what it returns, and makes progress. */
  lemma GrowResumeStep<D(!new)>(dec: Decoder<D>, stop: bool, d: D, src: seq<byte>, cap: nat, len: nat,
                                w: seq<byte>)
    requires DecoderValid(dec) && cap > 0 && len > 0
    requires var res := dec.Step(d, src, cap);
             res.Decoded? && res.hint != 0 && res.read < |src| && !stop
    ensures var res := dec.Step(d, src, cap);
            && |res.out| <= cap
            && (res.read > 0 || dec.rank(res.next) < dec.rank(d))
            && GrowResume(dec, stop, d, src, cap, len, w)
               == GrowResume(dec, stop, res.next, src[res.read..], cap - |res.out| + len, 2 * len, w + res.out)
  {
    var res := dec.Step(d, src, cap);
    assert StepBounded(dec, d, src, cap);
    var call := Call(d, src, cap, res);
    var more := GrowFrom(dec, stop, res.next, src[res.read..], cap - |res.out| + len, 2 * len);
    var run := [call] + more;
    assert GrowFrom(dec, stop, d, src, cap, len) == run;
    WrittenFirst(run);
    assert run[0] == call && run[1..] == more;
    assert run[|run| - 1] == more[|more| - 1];
    assert w + Written(run) == (w + res.out) + Written(more);
  }

  /** A call after which the loop does not go round again decides what it
      returns. */
  lemma GrowResumeLast<D(!new)>(dec: Decoder<D>, stop: bool, d: D, src: seq<byte>, cap: nat, len: nat,
                                w: seq<byte>)
    requires DecoderValid(dec) && cap > 0 && len > 0
    requires var res := dec.Step(d, src, cap);
             !(res.Decoded? && res.hint != 0 && res.read < |src| && !stop)
    ensures var res := dec.Step(d, src, cap);
            GrowResume(dec, stop, d, src, cap, len, w) == CallOutcome(Call(d, src, cap, res), w + OutOf(Call(d, src, cap, res)))
  {
    var res := dec.Step(d, src, cap);
    assert StepBounded(dec, d, src, cap);
    var call := Call(d, src, cap, res);
    assert GrowFrom(dec, stop, d, src, cap, len) == [call];
    assert Written([call]) == Written([call][..0]) + OutOf(call) by {
      assert [call][..0] == [];
    }
    assert Written([call]) == OutOf(call);
    assert [call][|[call]| - 1] == call;
  }

  /** `_PyBytes_Resize` to a larger size: a new buffer of `len` bytes that
      starts with the first `pos` bytes of the old one. */
  method Enlarge(buf: array<byte>, pos: nat, len: nat) returns (bigger: array<byte>)
    requires pos <= buf.Length && pos <= len
    ensures fresh(bigger) && bigger.Length == len && bigger[..pos] == buf[..pos]
  {
    bigger := new byte[len];
    forall i | 0 <= i < pos {
      bigger[i] := buf[i];
    }
  }

  /** The end of the loop after call `c`, with the bytes decoded so far
      in `output`: the error raised, or the decoded bytes trimmed. */
  method Conclude<D>(c: Call<D>, output: array<byte>, pos: nat, ghost w: seq<byte>) returns (r: Result<seq<byte>>)
    requires pos == |w| && pos + |OutOf(c)| <= output.Length && output[..pos + |OutOf(c)|] == w + OutOf(c)
    ensures r == CallOutcome(c, w + OutOf(c))
  {
    match c.result
    case StepFailed(code, _) =>
      return Err(Lz4FramedError(code));
    case Decoded(read, out, hint, _) =>
      if hint == 0 {
        return Ok(output[..pos + |out|]);   // trimmed to the bytes written
      } else if read < |c.src| {
        return Err(RuntimeWarningRaised);   // "lz4frame contentSize mismatch"
      }
      return Err(ValueError(FrameIncomplete));
  }

  /** decompress(b, buffer_size). After the checks, LZ4F_getFrameInfo reads
      the header from the whole input, the buffer is sized from it, and the
      loop decodes the rest of the input. */
  method Decompress<D(!new)>(dec: Decoder<D>, d0: D, input: seq<byte>, bufferSize: CInt, warningsAsErrors: bool)
    returns (r: Result<seq<byte>>)
    requires DecoderValid(dec)
    ensures CheckDecompress(|input|, bufferSize).Fail? ==> r == Err(CheckDecompress(|input|, bufferSize).error)
    ensures CheckDecompress(|input|, bufferSize).Pass? ==>
              bufferSize > 0 && r == Decompressed(dec, d0, input, bufferSize, warningsAsErrors)
  {
    var check := CheckDecompress(|input|, bufferSize);
    if check.Fail? {
      return Err(check.error);
    }
    var fi := dec.getFrameInfo(d0, input);
    if fi.InfoFailed? {
      return Err(Lz4FramedError(fi.code));
    }
    assert InfoBounded(dec, d0, input);
    var src := input[fi.read..];
    var len := InitialLen(fi.info.contentSize, bufferSize, |src|);
    r := DecodeGrowing(dec, fi.info.contentSize != 0 && warningsAsErrors, fi.next, src, len);
  }

  /** The loop of decompress: decode into the free part of the buffer; stop
      on an error or once the frame is complete, returning the bytes written;
      double the buffer while input is left; raise "frame incomplete" once the
      input is used up. */
  method DecodeGrowing<D(!new)>(dec: Decoder<D>, stop: bool, d0: D, input: seq<byte>, len0: nat)
    returns (r: Result<seq<byte>>)
    requires DecoderValid(dec) && len0 > 0
    ensures r == DecompressOutcome(GrowFrom(dec, stop, d0, input, len0, len0))
  {
    ghost var target := GrowResume(dec, stop, d0, input, len0, len0, []);
    assert target == DecompressOutcome(GrowFrom(dec, stop, d0, input, len0, len0)) by {
      var run := GrowFrom(dec, stop, d0, input, len0, len0);
      assert [] + Written(run) == Written(run);
    }
    var output := new byte[len0];
    var len := len0;           // output_len
    var remaining := len0;     // output_remaining
    var pos: nat := 0;         // bytes written, output_len - output_remaining
    var d := d0;
    var src := input;
    ghost var w: seq<byte> := [];
    while true
      invariant fresh(output) && output.Length == len && pos == |w| && pos + remaining == len && remaining > 0
      invariant output[..pos] == w
      invariant GrowResume(dec, stop, d, src, remaining, len, w) == target
      decreases |src|, dec.rank(d)
    {
      var done;
      done, r, d, src, output, pos, remaining, len, w := GrowRound(dec, stop, d, src, output, pos, remaining, len, w);
      if done {
        return;
      }
    }
  }

  /** One round of the loop of decompress: either the loop's result, or
      the loop moved on (same result ahead, progress made) with the buffer
      doubled. */
  method GrowRound<D(!new)>(dec: Decoder<D>, stop: bool, d: D, src: seq<byte>, output: array<byte>,
                            pos: nat, remaining: nat, len: nat, ghost w: seq<byte>)
    returns (done: bool, r: Result<seq<byte>>, d': D, src': seq<byte>, output': array<byte>,
             pos': nat, remaining': nat, len': nat, ghost w': seq<byte>)
    requires DecoderValid(dec) && len > 0
    requires output.Length == len && pos == |w| && pos + remaining == len && remaining > 0 && output[..pos] == w
    modifies output
    ensures done ==> r == GrowResume(dec, stop, d, src, remaining, len, w)
    ensures !done ==>
              && fresh(output') && output'.Length == len' && len' > 0
              && pos' == |w'| && pos' + remaining' == len' && remaining' > 0 && output'[..pos'] == w'
              && GrowResume(dec, stop, d', src', remaining', len', w') == GrowResume(dec, stop, d, src, remaining, len, w)
              && (|src'| < |src| || (|src'| == |src| && dec.rank(d') < dec.rank(d)))
  {
    d', src', output', pos', remaining', len', w' := d, src, output, pos, remaining, len, w;
    var res := DecompressInto(dec, d, src, output, pos, w);
    if !(res.Decoded? && res.hint != 0 && res.read < |src| && !stop) {
      GrowResumeLast(dec, stop, d, src, remaining, len, w);
      r := Conclude(Call(d, src, remaining, res), output, pos, w);
      return true, r, d', src', output', pos', remaining', len', w';
    }
    GrowResumeStep(dec, stop, d, src, remaining, len, w);
    w' := w + res.out;
    pos' := pos + |res.out|;
    remaining' := remaining - |res.out| + len;
    len' := 2 * len;
    ghost var kept := output[..pos'];
    assert kept == w';
    output' := Enlarge(output, pos', len');
    assert output'[..pos'] == kept;
    d' := res.next;
    src' := src[res.read..];
    done, r := false, Ok([]);
  }
}
