/** Python-level errors raised by the lz4framed extension module and its
    adapters, and the result types that carry them. */
module Errors {

  /** One byte of a Python bytes object. */
  newtype byte = x: int | 0 <= x < 256

  /** A C int, the target of the "i" format of PyArg_Parse*: a Python int
      outside this range raises OverflowError while the arguments are
      parsed, before any check of the extension module runs. */
  type CInt = x: int | -0x8000_0000 <= x < 0x8000_0000

  /** The LZ4F_ERROR_* codes the frame library reports; an Lz4FramedError
      carries one of them as its second argument. */
  datatype Lz4fErrorCode =
    | Generic
    | MaxBlockSizeInvalid
    | BlockModeInvalid
    | ContentChecksumFlagInvalid
    | CompressionLevelInvalid
    | HeaderVersionWrong
    | BlockChecksumInvalid
    | ReservedFlagSet
    | AllocationFailed
    | SrcSizeTooLarge
    | DstMaxSizeTooSmall
    | FrameHeaderIncomplete
    | FrameTypeUnknown
    | FrameSizeWrong
    | SrcPtrWrong
    | DecompressionFailed
    | HeaderChecksumInvalid
    | ContentChecksumInvalid
    | FrameDecodingAlreadyStarted

  /** Why a ValueError was raised (its message). */
  datatype ValueReason =
    | CtxInvalid                    // "ctx invalid": wrong kind of context object
    | BlockSizeIdInvalid(id: int)   // "block_size_id (%d) invalid"
    | LevelInvalid(level: int)      // "level (%d) invalid"
    | BufferSizeInvalid(size: int)  // "buffer_size (%d) invalid"
    | ChunkLenInvalid               // "chunk_len invalid"
    | IdInvalid(id: int)            // "id (%d) invalid" from get_block_size
    | FrameIncomplete               // "frame incomplete" from decompress
    | ContextNeedsFp                // Compressor used as context manager without fp

  /** Why a TypeError was raised by an adapter constructor. */
  datatype TypeReason = FpMissing | FpWriteNotCallable | FpReadNotCallable

  datatype Error =
    | NoDataError                          // Lz4FramedNoDataError: zero-length data
    | Lz4FramedError(code: Lz4fErrorCode)  // the frame library reported an error
    | ValueError(reason: ValueReason)
    | TypeError(kind: TypeReason)
    | AttributeError(attribute: string)    // fp has no such attribute
    | RuntimeWarningRaised                 // a RuntimeWarning turned into an exception

  /** The value of a call, or the exception it raises. */
  datatype Result<+T> = Ok(value: T) | Err(error: Error) {
    predicate IsFailure() { Err? }

    function PropagateFailure<U>(): Result<U>
      requires Err?
    {
      Err(error)
    }

    function Extract(): T
      requires Ok?
    {
      value
    }
  }

  /** A call that returns nothing of interest, or the exception it raises. */
  datatype Outcome = Pass | Fail(error: Error) {
    predicate IsFailure() { Fail? }

    function PropagateFailure(): Outcome
      requires Fail?
    {
      this
    }
  }

  datatype Option<+T> = None | Some(value: T)
}
