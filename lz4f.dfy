/** The LZ4 frame library (lz4frame.c) as this layer sees it: every LZ4F_*
    call the extension module makes is an abstract step, given as a function
    field of `Encoder` or `Decoder`, and the promises this layer relies on
    are stated as predicates over those functions. Nothing here fixes the
    frame format itself. */
module Lz4f {
  import opened Errors

  /** The LZ4F_preferences_t fields the extension module sets. */
  datatype Prefs = Prefs(
    blockSizeId: CInt,
    linked: bool,           // LZ4F_blockLinked rather than LZ4F_blockIndependent
    contentChecksum: bool,
    blockChecksum: bool,
    level: CInt,
    autoflush: bool,
    contentSize: nat)       // 0 means "not declared"

  /** `prefs_defaults`: all fields zero, and LZ4F_blockLinked is the zero value. */
  const DefaultPrefs: Prefs := Prefs(0, true, false, false, 0, false, 0)

  /** LZ4F_frameInfo_t as far as the extension module reads it. */
  datatype FrameInfo = FrameInfo(blockSizeId: CInt, linked: bool, contentChecksum: bool, contentSize: nat)

  // ----- compression side -----

  /** Result of LZ4F_compressFrame (after LZ4F_compressFrameBound). */
  datatype Frame = FrameOk(bytes: seq<byte>) | FrameFailed(code: Lz4fErrorCode)

  /** Result of a call on a compression context: the bytes written and the
      context's new state, or an error code (the state may change anyway). */
  datatype EncodeResult<E> =
    | Encoded(bytes: seq<byte>, next: E)
    | EncodeFailed(code: Lz4fErrorCode, next: E)

  /** The compression entry points, over an abstract context state E. */
  datatype Encoder<!E> = Encoder(
    compressFrame: (seq<byte>, Prefs) -> Frame,       // LZ4F_compressFrame
    begin: (E, Prefs, nat) -> EncodeResult<E>,        // LZ4F_compressBegin into a buffer of the given size
    update: (E, Prefs, seq<byte>) -> EncodeResult<E>, // LZ4F_compressBound + LZ4F_compressUpdate
    end: (E, Prefs) -> EncodeResult<E>)               // LZ4F_compressBound(0) + LZ4F_compressEnd

  /** LZ4F_compressBegin writes no more than the buffer it is given. */
  predicate BeginFits<E>(enc: Encoder<E>, e: E, p: Prefs, cap: nat) {
    enc.begin(e, p, cap).Encoded? ==> |enc.begin(e, p, cap).bytes| <= cap
  }

  ghost predicate EncoderValid<E(!new)>(enc: Encoder<E>) {
    forall e, p, cap :: BeginFits(enc, e, p, cap)
  }

  // ----- decompression side -----

  /** Result of one LZ4F_decompress call: input bytes consumed, output bytes
      produced, the size hint (0 once the frame is complete) and the new
      state; or an error code. */
  datatype StepResult<D> =
    | Decoded(read: nat, out: seq<byte>, hint: nat, next: D)
    | StepFailed(code: Lz4fErrorCode, next: D)

  /** Result of LZ4F_getFrameInfo: header bytes consumed, the header fields,
      the size hint and the new state; or an error code (header incomplete
      when the header has not been parsed yet). */
  datatype InfoResult<D> =
    | InfoOk(read: nat, info: FrameInfo, hint: nat, next: D)
    | InfoFailed(code: Lz4fErrorCode, next: D)

  /** The decompression entry points over an abstract context state D, with
      `rank`, a measure of the output the context still holds back, used only
      to state the progress assumption below. */
  datatype Decoder<!D> = Decoder(
    getFrameInfo: (D, seq<byte>) -> InfoResult<D>,       // LZ4F_getFrameInfo
    decompress: (D, seq<byte>, nat) -> StepResult<D>,    // LZ4F_decompress(dst capacity)
    rank: D -> nat)
  {
    /** One LZ4F_decompress call on state d, input src and cap bytes of space. */
    function Step(d: D, src: seq<byte>, cap: nat): StepResult<D> {
      decompress(d, src, cap)
    }
  }

  /** The abstract-step contract of LZ4F_decompress: it consumes at most the
      bytes offered and writes at most the space offered, and a call offered
      input and space that consumes nothing while the frame is not complete
      releases some of what it holds back. The last clause is an assumption:
      the library is relied on to make progress, the extension module does
      not check it, and both decoding loops would spin without it. */
  predicate StepBounded<D>(dec: Decoder<D>, d: D, src: seq<byte>, cap: nat) {
    match dec.Step(d, src, cap)
    case Decoded(read, out, hint, next) =>
      && read <= |src|
      && |out| <= cap
      && (read == 0 && |src| > 0 && cap > 0 && hint != 0 ==> dec.rank(next) < dec.rank(d))
    case StepFailed(_, _) => true
  }

  /** LZ4F_getFrameInfo consumes at most the bytes offered. */
  predicate InfoBounded<D>(dec: Decoder<D>, d: D, src: seq<byte>) {
    dec.getFrameInfo(d, src).InfoOk? ==> dec.getFrameInfo(d, src).read <= |src|
  }

  ghost predicate DecoderValid<D(!new)>(dec: Decoder<D>) {
    && (forall d, src, cap :: StepBounded(dec, d, src, cap))
    && (forall d, src :: InfoBounded(dec, d, src))
  }

  /** One LZ4F_decompress call as it happened: state before, input and
      output space offered, and what it returned. */
  datatype Call<D> = Call(before: D, src: seq<byte>, cap: nat, result: StepResult<D>)

  /** `calls` is a run of LZ4F_decompress calls of `dec` starting in state
      `d` on input `src`, each one made on the state the previous one left
      and on the input it did not consume, after a successful call only. */
  ghost predicate Chained<D>(dec: Decoder<D>, d: D, src: seq<byte>, calls: seq<Call<D>>)
    decreases |calls|
  {
    calls == [] ||
    var c := calls[0];
    && c.before == d && c.src == src && c.result == dec.Step(d, src, c.cap)
    && (|calls| > 1 ==>
          && c.result.Decoded? && c.result.read <= |src|
          && Chained(dec, c.result.next, src[c.result.read..], calls[1..]))
  }

  /** The call succeeded, the frame is not complete and input is left: both
      decoding loops go round again after such a call. */
  predicate Continues<D>(c: Call<D>) {
    c.result.Decoded? && c.result.hint != 0 && c.result.read < |c.src|
  }

  /** Every call of `calls` but the last continues, and the last does not:
      the run stopped exactly at its last call. */
  predicate StopsAtLast<D>(calls: seq<Call<D>>)
    decreases |calls|
  {
    && calls != []
    && if |calls| == 1 then !Continues(calls[0]) else Continues(calls[0]) && StopsAtLast(calls[1..])
  }

  /** The recursive definition says what it should, call by call. */
  lemma {:induction false} StopsAtLastAt<D>(calls: seq<Call<D>>, i: nat)
    requires StopsAtLast(calls) && i < |calls|
    ensures Continues(calls[i]) <==> i < |calls| - 1
    decreases |calls|
  {
    if i > 0 {
      StopsAtLastAt(calls[1..], i - 1);
    }
  }

  /** Bytes written by a call. */
  function OutOf<D>(c: Call<D>): seq<byte> {
    if c.result.Decoded? then c.result.out else []
  }

  /** Everything a run of calls wrote, in order. */
  function Written<D>(calls: seq<Call<D>>): seq<byte> {
    if calls == [] then [] else Written(calls[..|calls| - 1]) + OutOf(calls[|calls| - 1])
  }

  lemma WrittenAppend<D>(calls: seq<Call<D>>, c: Call<D>)
    ensures Written(calls + [c]) == Written(calls) + OutOf(c)
  {
    assert (calls + [c])[..|calls|] == calls;
  }

  /** What a run writes is what its first call writes, then the rest. */
  lemma {:induction false} WrittenFirst<D>(calls: seq<Call<D>>)
    requires calls != []
    ensures Written(calls) == OutOf(calls[0]) + Written(calls[1..])
    decreases |calls|
  {
    var init, last := calls[..|calls| - 1], calls[|calls| - 1];
    if |calls| == 1 {
      assert calls[1..] == [];
    } else {
      WrittenFirst(init);
      assert init[0] == calls[0];
      assert calls[1..] == init[1..] + [last];
      WrittenAppend(init[1..], last);
    }
  }

  /** The context state after a run of calls that started in `d0`. */
  function FinalState<D>(d0: D, calls: seq<Call<D>>): D {
    if calls == [] then d0 else calls[|calls| - 1].result.next
  }

  /** One LZ4F_decompress call writing into `buf` after its first `pos`
      bytes (the ones in `used`), offered the rest of the buffer. */
  method DecompressInto<D(!new)>(dec: Decoder<D>, d: D, src: seq<byte>, buf: array<byte>, pos: nat,
                                  ghost used: seq<byte>)
    returns (res: StepResult<D>)
    requires DecoderValid(dec)
    requires pos == |used| && pos <= buf.Length && buf[..pos] == used
    modifies buf
    ensures res == dec.Step(d, src, buf.Length - pos)
    ensures StepBounded(dec, d, src, buf.Length - pos)
    ensures res.Decoded? ==> buf[..pos + |res.out|] == used + res.out
    ensures res.StepFailed? ==> buf[..pos] == used
  {
    res := dec.Step(d, src, buf.Length - pos);
    assert StepBounded(dec, d, src, buf.Length - pos);
    if res.Decoded? {
      var out := res.out;
      forall j | 0 <= j < |out| {
        buf[pos + j] := out[j];
      }
      assert buf[..pos + |out|] == used + out;
    }
  }
}
