/** Compression and decompression contexts (the PyCapsule objects made by
    create_compression_context and create_decompression_context) and the
    context-taking entry points compress_begin, compress_update,
    compress_end and get_frame_info (py-lz4framed.c, lines 115-132 and
    557-855). The frame library behind a context is the context's `enc` or
    `dec`; its state is the field `state`. */
module Contexts {
  import opened Errors
  import opened Lz4f
  import opened Arguments

  /** A call a compression context passed on to the frame library. */
  datatype Op = BeginCall | UpdateCall | EndCall

  /** `_lz4f_cctx_t`: the library's compression context and the preferences
      stored by compress_begin, which compress_update and compress_end reuse
      to size their output buffers. */
  class CompressionContext<E> {
    const enc: Encoder<E>
    var state: E
    var prefs: Prefs
    ghost var calls: seq<Op>   // library calls made through this context, in order

    constructor (enc: Encoder<E>, init: E)
      ensures this.enc == enc && state == init && prefs == DefaultPrefs && calls == []
    {
      this.enc := enc;
      state := init;
      prefs := DefaultPrefs;
      calls := [];
    }
  }

  /** `_lz4f_dctx_t`: the library's decompression context. */
  class DecompressionContext<D> {
    const dec: Decoder<D>
    var state: D

    constructor (dec: Decoder<D>, init: D)
      ensures this.dec == dec && state == init
    {
      this.dec := dec;
      state := init;
    }
  }

  /** The `ctx` argument of an entry point: a capsule of either kind, or any
      other Python object. */
  datatype Capsule<E, D> =
    | CompressionCtx(cctx: CompressionContext<E>)
    | DecompressionCtx(dctx: DecompressionContext<D>)
    | OtherObject
  {
    function Kind(): ObjectKind {
      match this
      case CompressionCtx(_) => CompressionCapsule
      case DecompressionCtx(_) => DecompressionCapsule
      case OtherObject => Arguments.OtherObject
    }

    /** The context object an entry point may change. */
    function Objects(): set<object> {
      match this
      case CompressionCtx(c) => {c}
      case DecompressionCtx(d) => {d}
      case OtherObject => {}
    }
  }

  /** The dict get_frame_info returns. */
  datatype FrameInfoDict = FrameInfoDict(
    inputHint: nat, length: nat, blockSizeId: CInt, blockModeLinked: bool, checksum: bool)

  /** A library error as the exception it raises. */
  function EncodeOutcome<E>(res: EncodeResult<E>): Result<seq<byte>> {
    match res
    case Encoded(bytes, _) => Ok(bytes)
    case EncodeFailed(code, _) => Err(Lz4FramedError(code))
  }

  /** compress_begin: after the checks, store the options in the context's
      preferences (the content size keeps its value) and write the header
      into a buffer of LZ4F_HEADER_SIZE_MAX bytes. */
  method CompressBegin<E(!new), D>(ctx: Capsule<E, D>, blockId: CInt, linked: bool, checksum: bool,
                                   autoflush: bool, level: CInt, blockChecksum: bool)
    returns (r: Result<seq<byte>>)
    requires ctx.CompressionCtx? ==> EncoderValid(ctx.cctx.enc)
    modifies ctx.Objects()
    ensures CheckCompressBegin(ctx.Kind(), blockId, level).Fail? ==>
              r == Err(CheckCompressBegin(ctx.Kind(), blockId, level).error) && unchanged(ctx.Objects())
    ensures CheckCompressBegin(ctx.Kind(), blockId, level).Pass? ==>
              var c := ctx.cctx;
              && c.prefs == old(c.prefs).(blockSizeId := blockId, linked := linked, contentChecksum := checksum,
                                          blockChecksum := blockChecksum, level := level, autoflush := autoflush)
              && c.calls == old(c.calls) + [BeginCall]
              && c.state == c.enc.begin(old(c.state), c.prefs, HeaderSizeMax).next
              && r == EncodeOutcome(c.enc.begin(old(c.state), c.prefs, HeaderSizeMax))
              && (r.Ok? ==> |r.value| <= HeaderSizeMax)
  {
    var check := CheckCompressBegin(ctx.Kind(), blockId, level);
    if check.Fail? {
      return Err(check.error);
    }
    var c := ctx.cctx;
    c.prefs := c.prefs.(blockSizeId := blockId, linked := linked, contentChecksum := checksum,
                        blockChecksum := blockChecksum, level := level, autoflush := autoflush);
    var res := c.enc.begin(c.state, c.prefs, HeaderSizeMax);
    assert BeginFits(c.enc, c.state, c.prefs, HeaderSizeMax);
    c.calls := c.calls + [BeginCall];
    c.state := res.next;
    r := EncodeOutcome(res);
  }

  /** compress_update: after the checks, compress `input` with the stored
      preferences. */
  method CompressUpdate<E, D>(ctx: Capsule<E, D>, input: seq<byte>) returns (r: Result<seq<byte>>)
    modifies ctx.Objects()
    ensures CheckCompressUpdate(ctx.Kind(), |input|).Fail? ==>
              r == Err(CheckCompressUpdate(ctx.Kind(), |input|).error) && unchanged(ctx.Objects())
    ensures CheckCompressUpdate(ctx.Kind(), |input|).Pass? ==>
              var c := ctx.cctx;
              && c.prefs == old(c.prefs)
              && c.calls == old(c.calls) + [UpdateCall]
              && c.state == c.enc.update(old(c.state), c.prefs, input).next
              && r == EncodeOutcome(c.enc.update(old(c.state), c.prefs, input))
  {
    var check := CheckCompressUpdate(ctx.Kind(), |input|);
    if check.Fail? {
      return Err(check.error);
    }
    var c := ctx.cctx;
    var res := c.enc.update(c.state, c.prefs, input);
    c.calls := c.calls + [UpdateCall];
    c.state := res.next;
    r := EncodeOutcome(res);
  }

  /** compress_end: after the check, flush and finish the frame. */
  method CompressEnd<E, D>(ctx: Capsule<E, D>) returns (r: Result<seq<byte>>)
    modifies ctx.Objects()
    ensures CheckCompressEnd(ctx.Kind()).Fail? ==>
              r == Err(ValueError(CtxInvalid)) && unchanged(ctx.Objects())
    ensures CheckCompressEnd(ctx.Kind()).Pass? ==>
              var c := ctx.cctx;
              && c.prefs == old(c.prefs)
              && c.calls == old(c.calls) + [EndCall]
              && c.state == c.enc.end(old(c.state), c.prefs).next
              && r == EncodeOutcome(c.enc.end(old(c.state), c.prefs))
  {
    var check := CheckCompressEnd(ctx.Kind());
    if check.Fail? {
      return Err(check.error);
    }
    var c := ctx.cctx;
    var res := c.enc.end(c.state, c.prefs);
    c.calls := c.calls + [EndCall];
    c.state := res.next;
    r := EncodeOutcome(res);
  }

  /** The dict built from what LZ4F_getFrameInfo reported; the block
      checksum flag is not part of it. */
  function InfoDict(info: FrameInfo, hint: nat): (d: FrameInfoDict)
    ensures d.length == info.contentSize && d.blockSizeId == info.blockSizeId && d.inputHint == hint
    ensures d.blockModeLinked == info.linked && d.checksum == info.contentChecksum
  {
    FrameInfoDict(hint, info.contentSize, info.blockSizeId, info.linked, info.contentChecksum)
  }

  /** get_frame_info: after the check, ask the library for the header it has
      parsed, offering it no new input. */
  method GetFrameInfo<E, D>(ctx: Capsule<E, D>) returns (r: Result<FrameInfoDict>)
    modifies ctx.Objects()
    ensures CheckGetFrameInfo(ctx.Kind()).Fail? ==>
              r == Err(ValueError(CtxInvalid)) && unchanged(ctx.Objects())
    ensures CheckGetFrameInfo(ctx.Kind()).Pass? ==>
              var c := ctx.dctx;
              && c.state == c.dec.getFrameInfo(old(c.state), []).next
              && match c.dec.getFrameInfo(old(c.state), [])
                 case InfoOk(_, info, hint, _) =>
                   && r.Ok? && r.value.inputHint == hint && r.value.length == info.contentSize
                   && r.value.blockSizeId == info.blockSizeId && r.value.blockModeLinked == info.linked
                   && r.value.checksum == info.contentChecksum
                 case InfoFailed(code, _) => r == Err(Lz4FramedError(code))
  {
    var check := CheckGetFrameInfo(ctx.Kind());
    if check.Fail? {
      return Err(check.error);
    }
    var c := ctx.dctx;
    var res := c.dec.getFrameInfo(c.state, []);
    c.state := res.next;
    match res
    case InfoOk(_, info, hint, _) => r := Ok(InfoDict(info, hint));
    case InfoFailed(code, _) => r := Err(Lz4FramedError(code));
  }
}
