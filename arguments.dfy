/** The argument checks each entry point of the extension module performs
    before it touches a context or calls the frame library
    (py-lz4framed.c). Each check yields `Pass` or the exception raised. The
    checks of non-contiguous buffers and of argument types done by
    PyArg_Parse* are not modelled: inputs are byte sequences and integers. */
module Arguments {
  import opened Errors
  import opened BlockSize

  /** What a `ctx` argument is, as `PyCapsule_IsValid` tells them apart. */
  datatype ObjectKind = CompressionCapsule | DecompressionCapsule | OtherObject

  const CompressionMin: CInt := 0     // LZ4_COMPRESSION_MIN, the default level
  const CompressionMax: CInt := 16    // LZ4_COMPRESSION_MAX = LZ4HC_CLEVEL_MAX
  const HeaderSizeMax: nat := 15     // LZ4F_HEADER_SIZE_MAX, the header buffer of compress_begin
  const DefaultBufferSize: CInt := 1024
  const DefaultChunkLen: CInt := 65536

  /** compress(b, block_size_id, ..., level): empty data, then the block-size
      id, then the level (only bounded above). */
  function CheckCompress(inputLen: nat, blockId: CInt, level: CInt): (r: Outcome)
    ensures inputLen == 0 ==> r == Fail(NoDataError)
    ensures r == Pass <==> inputLen > 0 && IsValidId(blockId) && level <= CompressionMax
    ensures inputLen > 0 && !IsValidId(blockId) ==> r == Fail(ValueError(BlockSizeIdInvalid(blockId)))
    ensures inputLen > 0 && IsValidId(blockId) && level > CompressionMax ==> r == Fail(ValueError(LevelInvalid(level)))
  {
    if inputLen == 0 then Fail(NoDataError)
    else if !IsValidId(blockId) then Fail(ValueError(BlockSizeIdInvalid(blockId)))
    else if level > CompressionMax then Fail(ValueError(LevelInvalid(level)))
    else Pass
  }

  /** decompress(b, buffer_size): empty data, then a non-positive buffer size. */
  function CheckDecompress(inputLen: nat, bufferSize: CInt): (r: Outcome)
    ensures inputLen == 0 ==> r == Fail(NoDataError)
    ensures r == Pass <==> inputLen > 0 && bufferSize > 0
    ensures inputLen > 0 && bufferSize <= 0 ==> r == Fail(ValueError(BufferSizeInvalid(bufferSize)))
  {
    if inputLen == 0 then Fail(NoDataError)
    else if bufferSize <= 0 then Fail(ValueError(BufferSizeInvalid(bufferSize)))
    else Pass
  }

  /** compress_begin(ctx, block_size_id, ..., level): the context kind, then
      the block-size id, then the level (only bounded above). */
  function CheckCompressBegin(ctx: ObjectKind, blockId: CInt, level: CInt): (r: Outcome)
    ensures ctx != CompressionCapsule ==> r == Fail(ValueError(CtxInvalid))
    ensures r == Pass <==> ctx == CompressionCapsule && IsValidId(blockId) && level <= CompressionMax
    ensures ctx == CompressionCapsule && !IsValidId(blockId) ==> r == Fail(ValueError(BlockSizeIdInvalid(blockId)))
    ensures ctx == CompressionCapsule && IsValidId(blockId) && level > CompressionMax ==>
              r == Fail(ValueError(LevelInvalid(level)))
  {
    if ctx != CompressionCapsule then Fail(ValueError(CtxInvalid))
    else if !IsValidId(blockId) then Fail(ValueError(BlockSizeIdInvalid(blockId)))
    else if level > CompressionMax then Fail(ValueError(LevelInvalid(level)))
    else Pass
  }

  /** compress_update(ctx, b): the context kind, then empty data. */
  function CheckCompressUpdate(ctx: ObjectKind, inputLen: nat): (r: Outcome)
    ensures ctx != CompressionCapsule ==> r == Fail(ValueError(CtxInvalid))
    ensures ctx == CompressionCapsule && inputLen == 0 ==> r == Fail(NoDataError)
    ensures r == Pass <==> ctx == CompressionCapsule && inputLen > 0
  {
    if ctx != CompressionCapsule then Fail(ValueError(CtxInvalid))
    else if inputLen == 0 then Fail(NoDataError)
    else Pass
  }

  /** compress_end(ctx): the context kind only. */
  function CheckCompressEnd(ctx: ObjectKind): (r: Outcome)
    ensures r == Pass <==> ctx == CompressionCapsule
    ensures r.Fail? ==> r.error == ValueError(CtxInvalid)
  {
    if ctx != CompressionCapsule then Fail(ValueError(CtxInvalid)) else Pass
  }

  /** get_frame_info(ctx): the context kind only. */
  function CheckGetFrameInfo(ctx: ObjectKind): (r: Outcome)
    ensures r == Pass <==> ctx == DecompressionCapsule
    ensures r.Fail? ==> r.error == ValueError(CtxInvalid)
  {
    if ctx != DecompressionCapsule then Fail(ValueError(CtxInvalid)) else Pass
  }

  /** decompress_update(ctx, b, chunk_len): the context kind, then empty
      data, then a non-positive chunk length (the corrected guard, see
      `ChunkLenRejected`); a passing check leaves a usable chunk length. */
  function CheckDecompressUpdate(ctx: ObjectKind, inputLen: nat, chunkLen: CInt): (r: Outcome)
    ensures ctx != DecompressionCapsule ==> r == Fail(ValueError(CtxInvalid))
    ensures ctx == DecompressionCapsule && inputLen == 0 ==> r == Fail(NoDataError)
    ensures ctx == DecompressionCapsule && inputLen > 0 ==> (r == Pass <==> chunkLen >= 1)
    ensures r.Fail? && ctx == DecompressionCapsule && inputLen > 0 ==> r.error == ValueError(ChunkLenInvalid)
  {
    if ctx != DecompressionCapsule then Fail(ValueError(CtxInvalid))
    else if inputLen == 0 then Fail(NoDataError)
    else if ChunkLenRejected(chunkLen) then Fail(ValueError(ChunkLenInvalid))
    else Pass
  }

  /** The level is bounded only from above: every level up to the maximum,
      negative ones included, passes. */
  lemma NoLowerLevelBound(inputLen: nat, level: CInt)
    requires inputLen > 0 && level <= CompressionMax
    ensures CheckCompress(inputLen, Default, level) == Pass
    ensures CheckCompressBegin(CompressionCapsule, Default, level) == Pass
  {
  }

  /** The default arguments of compress (block_size_id LZ4F_default, level
      LZ4_COMPRESSION_MIN), compress_begin, decompress (buffer_size 1024)
      and decompress_update (chunk_len 65536) pass their checks for any
      non-empty input and a context of the right kind. */
  lemma DefaultArgumentsPass(inputLen: nat)
    requires inputLen > 0
    ensures CheckCompress(inputLen, Default, CompressionMin) == Pass
    ensures CheckCompressBegin(CompressionCapsule, Default, CompressionMin) == Pass
    ensures CheckDecompress(inputLen, DefaultBufferSize) == Pass
    ensures CheckDecompressUpdate(DecompressionCapsule, inputLen, DefaultChunkLen) == Pass
    ensures !ChunkLenRejectedAsWritten(DefaultChunkLen) && StoredChunkLen(DefaultChunkLen) == 65536
  {
  }

  /** Every entry point taking data reports zero-length data as the no-data
      signal once the context kind is right, whatever its other arguments. */
  lemma EmptyInputIsNoData(blockId: CInt, level: CInt, bufferSize: CInt, chunkLen: CInt)
    ensures CheckCompress(0, blockId, level) == Fail(NoDataError)
    ensures CheckDecompress(0, bufferSize) == Fail(NoDataError)
    ensures CheckCompressUpdate(CompressionCapsule, 0) == Fail(NoDataError)
    ensures CheckDecompressUpdate(DecompressionCapsule, 0, chunkLen) == Fail(NoDataError)
  {
  }

  /** The compression entry points reject a decompression context and the
      decompression entry points a compression context. */
  lemma WrongContextKindRejected(blockId: CInt, level: CInt, inputLen: nat, chunkLen: CInt)
    ensures CheckCompressBegin(DecompressionCapsule, blockId, level) == Fail(ValueError(CtxInvalid))
    ensures CheckCompressUpdate(DecompressionCapsule, inputLen) == Fail(ValueError(CtxInvalid))
    ensures CheckCompressEnd(DecompressionCapsule) == Fail(ValueError(CtxInvalid))
    ensures CheckGetFrameInfo(CompressionCapsule) == Fail(ValueError(CtxInvalid))
    ensures CheckDecompressUpdate(CompressionCapsule, inputLen, chunkLen) == Fail(ValueError(CtxInvalid))
  {
  }

  // ----- the chunk_len guard -----

  /** As written: `chunk_len` is a size_t initialised to 65536 and filled by
      PyArg_ParseTupleAndKeywords through the C-int format "i", which writes
      only its first four bytes. On a 64-bit little-endian platform the value
      the guard then sees is the argument modulo 2^32. */
  function StoredChunkLen(arg: CInt): (r: nat)
    ensures r < 0x1_0000_0000
    ensures arg >= 0 ==> r == arg
    ensures arg < 0 ==> r == arg + 0x1_0000_0000
  {
    arg % 0x1_0000_0000
  }

  /** As written: the guard `chunk_len <= 0` on that unsigned value. */
  predicate ChunkLenRejectedAsWritten(arg: CInt)
  {
    StoredChunkLen(arg) <= 0
  }

  /** As written, every negative chunk length passes the guard and is read
      as a chunk of more than two gigabytes; chunk_len=-1 asks for
      4294967295-byte chunks. */
  lemma AsWrittenGuardMissesNegatives(arg: CInt)
    requires arg < 0
    ensures !ChunkLenRejectedAsWritten(arg)
    ensures StoredChunkLen(arg) >= 0x8000_0000
    ensures StoredChunkLen(-1) == 0xFFFF_FFFF
  {
  }

  /** Corrected: the guard the message "chunk_len invalid" intends, on the
      argument as a signed int. */
  predicate ChunkLenRejected(arg: CInt) {
    arg <= 0
  }

  /** The corrected guard and the code as written disagree exactly on the
      negative lengths, and agree on every non-negative one. */
  lemma ChunkLenGuards(arg: CInt)
    ensures ChunkLenRejected(arg) != ChunkLenRejectedAsWritten(arg) <==> arg < 0
    ensures arg >= 0 ==> (ChunkLenRejected(arg) <==> ChunkLenRejectedAsWritten(arg))
  {
  }
}
