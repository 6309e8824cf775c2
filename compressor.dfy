/** The `Compressor` class of the lz4framed package (__init__.py, lines
    53-144): a compression context driven through compress_begin,
    compress_update and compress_end that hands its output back or writes
    it to a file-like object. The header compress_begin produced is handed
    out once, together with the first update's output. */
module Compressors {
  import opened Errors
  import opened Lz4f
  import opened Arguments
  import opened Contexts

  /** A writable file-like object: the byte strings passed to its write(). */
  class Sink {
    var written: seq<seq<byte>>

    constructor ()
      ensures written == []
    {
      written := [];
    }

    method Write(b: seq<byte>)
      modifies this
      ensures written == old(written) + [b]
    {
      written := written + [b];
    }
  }

  /** The `fp` argument: none, an object without `write`, one whose `write`
      is not callable, or a writable object. */
  datatype WriteArg = NoFp | NoWriteAttribute | WriteNotCallable | WritesTo(sink: Sink)

  /** The method `self.update` is bound to: `update` itself until the first
      successful call, then `__updateNextWrite` or `__updateNextReturn`. */
  datatype UpdateMode = FirstUpdate | NextWrite | NextReturn

  class Compressor<E> {
    const ctx: CompressionContext<E>
    const sink: Sink?                 // `self.__write`'s object, null without fp
    var header: Option<seq<byte>>     // `self.__header`, None once handed out
    var mode: UpdateMode
    ghost const beginHeader: seq<byte> // what compress_begin returned
    ghost var early: seq<byte>         // library output handed out while the header was pending
    ghost var produced: seq<byte>      // library output since the header was handed out
    ghost var emitted: seq<byte>       // every byte handed out so far, returned or written

    /** The header is pending exactly until the first successful update and
        the update method is rebound after it according to the sink. What
        was handed out is what the library produced, with the header put in
        front of the first update's output: only an end() before any update
        hands out bytes ahead of the header (`early`). */
    ghost predicate Valid()
      reads this
    {
      && (mode == FirstUpdate <==> header.Some?)
      && (header.Some? ==> header.value == beginHeader)
      && (mode == NextWrite ==> sink != null)
      && (mode == NextReturn ==> sink == null)
      && (mode == FirstUpdate ==> produced == [] && emitted == early)
      && (mode != FirstUpdate ==> emitted == early + beginHeader + produced)
    }

    constructor (ctx: CompressionContext<E>, sink: Sink?, header: seq<byte>)
      ensures this.ctx == ctx && this.sink == sink && this.header == Some(header) && mode == FirstUpdate
      ensures beginHeader == header && early == [] && produced == [] && emitted == []
      ensures Valid()
    {
      this.ctx := ctx;
      this.sink := sink;
      this.header := Some(header);
      mode := FirstUpdate;
      beginHeader := header;
      early := [];
      produced := [];
      emitted := [];
    }

    /** `__enter__`: only usable with a file-like object. */
    method Enter() returns (r: Result<Compressor<E>>)
      ensures sink == null ==> r == Err(ValueError(ContextNeedsFp))
      ensures sink != null ==> r == Ok(this)
    {
      if sink == null {
        return Err(ValueError(ContextNeedsFp));
      }
      return Ok(this);
    }

    /** `update(b)` as currently bound: compress `b`; the first success
        hands out the header in front of the output and rebinds the method;
        output is written to the sink, or returned without one. */
    method Update(b: seq<byte>) returns (r: Result<Option<seq<byte>>>)
      requires Valid()
      modifies this, ctx, sink
      ensures Valid()
      ensures |b| == 0 ==>
                && r == Err(NoDataError) && unchanged(this, ctx)
                && (sink != null ==> unchanged(sink))
      ensures |b| > 0 ==>
                var res := ctx.enc.update(old(ctx.state), old(ctx.prefs), b);
                var lead := if old(mode) == FirstUpdate then beginHeader else [];
                && ctx.state == res.next && ctx.prefs == old(ctx.prefs)
                && ctx.calls == old(ctx.calls) + [UpdateCall]
                && match res
                   case EncodeFailed(code, _) =>
                     && r == Err(Lz4FramedError(code))
                     && mode == old(mode) && header == old(header) && early == old(early)
                     && produced == old(produced) && emitted == old(emitted)
                     && (sink != null ==> sink.written == old(sink.written))
                   case Encoded(out, _) =>
                     && header == None && early == old(early)
                     && produced == old(produced) + out
                     && emitted == old(emitted) + lead + out
                     && (sink != null ==>
                           && mode == NextWrite && r == Ok(None)
                           && sink.written == old(sink.written) + (if old(mode) == FirstUpdate then [beginHeader, out] else [out]))
                     && (sink == null ==>
                           && mode == NextReturn
                           && r == Ok(Some(if old(mode) == FirstUpdate then beginHeader + out else out)))
    {
      match mode
      case FirstUpdate => r := UpdateFirst(b);
      case NextWrite => r := UpdateNextWrite(b);
      case NextReturn => r := UpdateNextReturn(b);
    }

    /** `update`, before any success: the header goes in front of the
        output, then the method is rebound to the writing or the returning
        variant. */
    method UpdateFirst(b: seq<byte>) returns (r: Result<Option<seq<byte>>>)
      requires Valid() && mode == FirstUpdate
      modifies this, ctx, sink
      ensures Valid()
      ensures |b| == 0 ==>
                && r == Err(NoDataError) && unchanged(this, ctx)
                && (sink != null ==> unchanged(sink))
      ensures |b| > 0 ==>
                var res := ctx.enc.update(old(ctx.state), old(ctx.prefs), b);
                && ctx.state == res.next && ctx.prefs == old(ctx.prefs)
                && ctx.calls == old(ctx.calls) + [UpdateCall]
                && match res
                   case EncodeFailed(code, _) =>
                     && r == Err(Lz4FramedError(code)) && unchanged(this)
                     && (sink != null ==> sink.written == old(sink.written))
                   case Encoded(out, _) =>
                     && header == None && early == old(early) && produced == out
                     && emitted == old(emitted) + beginHeader + out
                     && (sink != null ==>
                           && mode == NextWrite && r == Ok(None)
                           && sink.written == old(sink.written) + [beginHeader, out])
                     && (sink == null ==> mode == NextReturn && r == Ok(Some(beginHeader + out)))
    {
      var cap: Capsule<E, ()> := CompressionCtx(ctx);
      var res := CompressUpdate(cap, b);
      if res.Err? {
        return Err(res.error);
      }
      var out := res.value;
      var h := header.value;
      header := None;
      produced := out;
      emitted := emitted + h + out;
      if sink != null {
        sink.Write(h);
        sink.Write(out);
        mode := NextWrite;
        return Ok(None);
      }
      mode := NextReturn;
      return Ok(Some(h + out));
    }

    /** `__updateNextWrite`: compress `b` and write the output to the sink. */
    method UpdateNextWrite(b: seq<byte>) returns (r: Result<Option<seq<byte>>>)
      requires Valid() && mode == NextWrite
      modifies this, ctx, sink
      ensures Valid() && mode == NextWrite && header == None && early == old(early)
      ensures |b| == 0 ==> r == Err(NoDataError) && unchanged(this, ctx, sink)
      ensures |b| > 0 ==>
                var res := ctx.enc.update(old(ctx.state), old(ctx.prefs), b);
                && ctx.state == res.next && ctx.prefs == old(ctx.prefs)
                && ctx.calls == old(ctx.calls) + [UpdateCall]
                && match res
                   case EncodeFailed(code, _) =>
                     && r == Err(Lz4FramedError(code)) && unchanged(this, sink)
                   case Encoded(out, _) =>
                     && r == Ok(None)
                     && produced == old(produced) + out && emitted == old(emitted) + out
                     && sink.written == old(sink.written) + [out]
    {
      var cap: Capsule<E, ()> := CompressionCtx(ctx);
      var res := CompressUpdate(cap, b);
      if res.Err? {
        return Err(res.error);
      }
      produced := produced + res.value;
      emitted := emitted + res.value;
      sink.Write(res.value);
      return Ok(None);
    }

    /** `__updateNextReturn`: compress `b` and return the output. */
    method UpdateNextReturn(b: seq<byte>) returns (r: Result<Option<seq<byte>>>)
      requires Valid() && mode == NextReturn
      modifies this, ctx
      ensures Valid() && mode == NextReturn && header == None && early == old(early)
      ensures |b| == 0 ==> r == Err(NoDataError) && unchanged(this, ctx)
      ensures |b| > 0 ==>
                var res := ctx.enc.update(old(ctx.state), old(ctx.prefs), b);
                && ctx.state == res.next && ctx.prefs == old(ctx.prefs)
                && ctx.calls == old(ctx.calls) + [UpdateCall]
                && match res
                   case EncodeFailed(code, _) => r == Err(Lz4FramedError(code)) && unchanged(this)
                   case Encoded(out, _) =>
                     && r == Ok(Some(out))
                     && produced == old(produced) + out && emitted == old(emitted) + out
    {
      var cap: Capsule<E, ()> := CompressionCtx(ctx);
      var res := CompressUpdate(cap, b);
      if res.Err? {
        return Err(res.error);
      }
      produced := produced + res.value;
      emitted := emitted + res.value;
      return Ok(Some(res.value));
    }

    /** `end()`: finish the frame; the trailer is written to the sink or
        returned. The header is not looked at. */
    method End() returns (r: Result<Option<seq<byte>>>)
      requires Valid()
      modifies this, ctx, sink
      ensures Valid()
      ensures var res := ctx.enc.end(old(ctx.state), old(ctx.prefs));
              && ctx.state == res.next && ctx.prefs == old(ctx.prefs)
              && ctx.calls == old(ctx.calls) + [EndCall]
              && mode == old(mode) && header == old(header)
              && match res
                 case EncodeFailed(code, _) =>
                   && r == Err(Lz4FramedError(code))
                   && early == old(early) && produced == old(produced) && emitted == old(emitted)
                   && (sink != null ==> sink.written == old(sink.written))
                 case Encoded(out, _) =>
                   && emitted == old(emitted) + out
                   && (mode == FirstUpdate ==> early == old(early) + out && produced == old(produced))
                   && (mode != FirstUpdate ==> early == old(early) && produced == old(produced) + out)
                   && (sink != null ==> r == Ok(None) && sink.written == old(sink.written) + [out])
                   && (sink == null ==> r == Ok(Some(out)))
    {
      var cap: Capsule<E, ()> := CompressionCtx(ctx);
      var res := CompressEnd(cap);
      if res.Err? {
        return Err(res.error);
      }
      var out := res.value;
      if mode == FirstUpdate {
        early := early + out;
      } else {
        produced := produced + out;
      }
      emitted := emitted + out;
      if sink != null {
        sink.Write(out);
        return Ok(None);
      }
      return Ok(Some(out));
    }

    /** `__exit__`: calls end() once, whether or not the block raised. */
    method Exit() returns (r: Outcome)
      requires Valid()
      modifies this, ctx, sink
      ensures Valid()
      ensures var res := ctx.enc.end(old(ctx.state), old(ctx.prefs));
              && ctx.state == res.next && ctx.prefs == old(ctx.prefs)
              && ctx.calls == old(ctx.calls) + [EndCall]
              && mode == old(mode) && header == old(header)
              && match res
                 case EncodeFailed(code, _) =>
                   && r == Fail(Lz4FramedError(code))
                   && early == old(early) && produced == old(produced) && emitted == old(emitted)
                   && (sink != null ==> sink.written == old(sink.written))
                 case Encoded(out, _) =>
                   && r == Pass
                   && emitted == old(emitted) + out
                   && (mode == FirstUpdate ==> early == old(early) + out && produced == old(produced))
                   && (mode != FirstUpdate ==> early == old(early) && produced == old(produced) + out)
                   && (sink != null ==> sink.written == old(sink.written) + [out])
    {
      var e := End();
      if e.Err? {
        return Fail(e.error);
      }
      return Pass;
    }
  }

  /** `Compressor(fp, block_size_id, ...)`: a fresh compression context, the
      check of `fp`, then compress_begin, whose header is kept. */
  method OpenCompressor<E(!new)>(enc: Encoder<E>, init: E, fp: WriteArg, blockId: CInt, linked: bool,
                                 checksum: bool, autoflush: bool, level: CInt, blockChecksum: bool)
    returns (r: Result<Compressor<E>>)
    requires EncoderValid(enc)
    ensures fp == NoWriteAttribute ==> r == Err(AttributeError("write"))
    ensures fp == WriteNotCallable ==> r == Err(TypeError(FpWriteNotCallable))
    ensures fp.NoFp? || fp.WritesTo? ==>
              var check := CheckCompressBegin(CompressionCapsule, blockId, level);
              var p := DefaultPrefs.(blockSizeId := blockId, linked := linked, contentChecksum := checksum,
                                     blockChecksum := blockChecksum, level := level, autoflush := autoflush);
              && (check.Fail? ==> r == Err(check.error))
              && (check.Pass? && enc.begin(init, p, HeaderSizeMax).EncodeFailed? ==>
                    r == Err(Lz4FramedError(enc.begin(init, p, HeaderSizeMax).code)))
              && (check.Pass? && enc.begin(init, p, HeaderSizeMax).Encoded? ==>
                    && r.Ok? && fresh(r.value) && fresh(r.value.ctx) && r.value.Valid()
                    && r.value.sink == (if fp.WritesTo? then fp.sink else null)
                    && r.value.mode == FirstUpdate && r.value.emitted == []
                    && r.value.early == [] && r.value.produced == []
                    && r.value.header == Some(enc.begin(init, p, HeaderSizeMax).bytes)
                    && |r.value.beginHeader| <= HeaderSizeMax
                    && r.value.ctx.enc == enc && r.value.ctx.prefs == p
                    && r.value.ctx.state == enc.begin(init, p, HeaderSizeMax).next
                    && r.value.ctx.calls == [BeginCall])
  {
    var cctx := new CompressionContext(enc, init);
    if fp == NoWriteAttribute {
      return Err(AttributeError("write"));
    } else if fp == WriteNotCallable {
      return Err(TypeError(FpWriteNotCallable));
    }
    var sink: Sink? := if fp.WritesTo? then fp.sink else null;
    var cap: Capsule<E, ()> := CompressionCtx(cctx);
    var h := CompressBegin(cap, blockId, linked, checksum, autoflush, level, blockChecksum);
    if h.Err? {
      return Err(h.error);
    }
    var c := new Compressor(cctx, sink, h.value);
    return Ok(c);
  }
}
