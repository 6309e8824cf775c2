# py-lz4framed: a verified model of the adapter layer

py-lz4framed is a Python binding to the LZ4 frame library. Almost all of the work happens in the bundled C library behind the `LZ4F_*` calls. This project models what the binding itself owns:

- the block-size table and `get_block_size`;
- the argument checks every entry point of the extension module makes before it touches a context;
- the context-taking entry points `compress_begin`, `compress_update`, `compress_end` and `get_frame_info`;
- the chunk-assembly loop of `decompress_update`;
- the buffer-growing loop of the one-shot `decompress`, and the one-shot `compress`;
- the Python classes `Compressor` and `Decompressor`.

Every `LZ4F_*` call is an abstract step. It is a function field of `Lz4f.Encoder` or `Lz4f.Decoder`, over an abstract library state. What the binding relies on is stated as the predicates `EncoderValid` and `DecoderValid`:

- `LZ4F_compressBegin` writes no more than its buffer.
- `LZ4F_decompress` consumes at most the input offered and writes at most the space offered.
- A call that consumes nothing while the frame is not complete releases some of the output it holds back. This is measured by `rank`.

That last clause is an assumption about the library. The binding does not check it, and both decoding loops would spin without it.

The two C loops are imperative methods over arrays:

- `Streaming.DecodeChunks` keeps a chunk buffer and a list of full chunks.
- `OneShot.DecodeGrowing` keeps an output buffer that it doubles.

Each loop is proved equal to a reference definition of the run of library calls it makes: `Streaming.UpdateRun` and `OneShot.GrowFrom`. The properties the code promises are lemmas about those runs. The Python classes are Dafny classes whose fields mirror the Python attributes:

- `Compressor.__header` is `header`.
- The rebinding of `self.update` is the field `mode`.
- `Decompressor.__info` is `info`.

File-like objects are the classes `Compressors.Sink` (`write`) and `Decompressors.Source` (`read`, with the semantics of `io.BytesIO`). `Decompressor.__iter__` is modelled as a run to its end: `Decompressors.Decompressor.Iterate` returns every chunk the generator yields, and how the iteration ended.

One behaviour of `Compressor` is worth knowing. Calling `end()` before any successful `update()` hands out the frame trailer without the header, and a later `update()` then hands out the header after that trailer. `Compressors.Compressor.Valid` captures this with the ghost field `early`: the bytes handed out are always `early + header + produced`, and `early` is non-empty only in that case. The `compress_end` documentation warns that ending a frame with no data written produces an invalid frame.

Where the documentation and the code disagree, the model follows the code:

- `__exit__` (lz4framed/__init__.py:109-110) calls `end()` whether or not the block raised, although the class documentation says the frame is finalised "unless an exception occurs".
- The compression level is bounded only from above (lz4framed/py-lz4framed.c:263-266, 615-618), although the package's tests expect `level=-1` to raise.

## Model

| member | source | states |
|---|---|---|
| BlockSize.IsValidId | lz4framed/py-lz4framed.c:138-149 | `_valid_lz4f_block_size_id`: the switch accepts the default id and the four size ids, and rejects every other value |
| BlockSize.SizeFromId | lz4framed/py-lz4framed.c:151-162 | `_lz4f_block_size_from_id`: 0 for an invalid id; the default id reads as the 64KB id; size ids 4..7 index the table of 64KB, 256KB, 1MB and 4MB |
| BlockSize.GetBlockSize | lz4framed/py-lz4framed.c:176-197 | succeeds exactly for a valid id; the value is the table size, at least 64KB; otherwise ValueError with the id |
| BlockSize.ValidIdsExactly | lz4framed/py-lz4framed.c:138-149 | the accepted ids are exactly the default id 0 and the size ids 4..7 |
| BlockSize.SizeFromIdSpec | lz4framed/py-lz4framed.c:151-162 | the size is non-zero exactly for valid ids; the default id has the 64KB id's size; size id i stands for 2^(8+2i) bytes |
| Arguments.CheckCompress | lz4framed/py-lz4framed.c:255-266 | passes exactly for non-empty input, a valid id and a level up to the maximum; otherwise no-data, then the block-size ValueError, then the level ValueError, in that order |
| Arguments.CheckDecompress | lz4framed/py-lz4framed.c:358-365 | passes exactly for non-empty input and a positive buffer_size; otherwise no-data before the buffer_size ValueError |
| Arguments.CheckCompressBegin | lz4framed/py-lz4framed.c:607-618 | passes exactly for a compression capsule, a valid id and a level up to the maximum; the error for each failed check, in source order |
| Arguments.CheckCompressUpdate | lz4framed/py-lz4framed.c:687-698 | passes exactly for a compression capsule and non-empty input; "ctx invalid" comes before no-data |
| Arguments.CheckCompressEnd | lz4framed/py-lz4framed.c:756-759 | passes exactly for a compression capsule, else ValueError "ctx invalid" |
| Arguments.CheckGetFrameInfo | lz4framed/py-lz4framed.c:817-820 | passes exactly for a decompression capsule, else ValueError "ctx invalid" |
| Arguments.CheckDecompressUpdate | lz4framed/py-lz4framed.c:909-924 | for a decompression capsule and non-empty input, passes exactly when chunk_len >= 1 (the corrected guard); otherwise "ctx invalid", no-data, or "chunk_len invalid", in source order |
| Arguments.NoLowerLevelBound | lz4framed/py-lz4framed.c:263-266 | every C-int level up to the maximum passes compress and compress_begin, negative levels down to -2^31 included |
| Arguments.DefaultArgumentsPass | lz4framed/py-lz4framed.c:235-266 | the default block_size_id and level of compress and compress_begin (lines 235-239, 590-595), buffer_size 1024 of decompress (line 341) and chunk_len 65536 of decompress_update (line 896) pass every check for non-empty input and the right context kind |
| Arguments.EmptyInputIsNoData | lz4framed/py-lz4framed.c:917-920 | compress, decompress, compress_update and decompress_update all report zero-length data as the no-data error, whatever their other C-int arguments, once the context is of the right kind |
| Arguments.WrongContextKindRejected | lz4framed/py-lz4framed.c:607-610 | compress_begin, compress_update and compress_end reject a decompression capsule; get_frame_info and decompress_update reject a compression capsule |
| Arguments.StoredChunkLen | lz4framed/py-lz4framed.c:896-906 | the value a C int argument leaves in the size_t chunk_len: the argument itself when non-negative, the argument plus 2^32 when negative |
| Arguments.AsWrittenGuardMissesNegatives | lz4framed/py-lz4framed.c:921-924 | as written, every negative chunk_len passes the guard and becomes a chunk length of at least 2^31; -1 becomes 4294967295 |
| Arguments.ChunkLenGuards | lz4framed/py-lz4framed.c:921-924 | the corrected guard and the code as written disagree exactly on the negative lengths and agree on every non-negative one |
| Contexts.CompressionContext.constructor | lz4framed/py-lz4framed.c:477-497 | a fresh context holds prefs_defaults, the initial library state and no library calls |
| Contexts.DecompressionContext.constructor | lz4framed/py-lz4framed.c:522-541 | a fresh context holds the initial library state |
| Contexts.CompressBegin | lz4framed/py-lz4framed.c:584-647 | a failed check changes nothing and raises its error; otherwise the options are stored in the context's preferences, content size kept, and one LZ4F_compressBegin call into a 15-byte buffer decides the result; a header is at most 15 bytes |
| Contexts.CompressUpdate | lz4framed/py-lz4framed.c:668-728 | a failed check changes nothing; otherwise one compress call with the stored preferences, which stay unchanged, and its output or its error code |
| Contexts.CompressEnd | lz4framed/py-lz4framed.c:748-781 | a failed check changes nothing; otherwise one end call with the stored preferences, and its output or its error code |
| Contexts.GetFrameInfo | lz4framed/py-lz4framed.c:807-855 | a failed check changes nothing; otherwise LZ4F_getFrameInfo is offered no input, and the library's error code is returned, or a dict whose input_hint, length, block_size_id, block_mode_linked and checksum are the hint, content size, block-size id, linked flag and content-checksum flag the library reported (lines 828-843) |
| Lz4f.DecompressInto | lz4framed/py-lz4framed.c:953-959 | one LZ4F_decompress call offered the rest of the buffer keeps the bytes before the write position and appends exactly what the call wrote |
| Chunking.SplitIsChunking | lz4framed/py-lz4framed.c:941-971 | the reference slicing concatenates back to the bytes, with every chunk of 1..n bytes and all but the last exactly n |
| Chunking.ChunkingUnique | lz4framed/py-lz4framed.c:941-971 | any slicing with those properties is the reference slicing |
| Streaming.SpaceAfterChunks | lz4framed/py-lz4framed.c:959-960 | after k full chunks and u more bytes, the current chunk has n - u bytes free |
| Streaming.SpaceAfterWrite | lz4framed/py-lz4framed.c:943-960 | a write either fills the chunk, and the next call gets a fresh chunk of n bytes, or leaves that much less space |
| Streaming.CapsFollowAt | lz4framed/py-lz4framed.c:952-960 | call i of a run is offered the space left in the current chunk after everything the earlier calls wrote |
| Streaming.RunFromTrace | lz4framed/py-lz4framed.c:941-963 | the reference loop makes a chained run that offers each call the rest of its chunk and stops exactly at the first call that fails, completes the frame or consumes the input |
| Streaming.UpdateRunIsTrace | lz4framed/py-lz4framed.c:941-963 | the run of one decompress_update, started with hint 1, is such a run |
| Streaming.ResumeStep | lz4framed/py-lz4framed.c:953-962 | one successful call moves the loop on without changing its final state or result |
| Streaming.ResumeFails | lz4framed/py-lz4framed.c:953-954 | a failing call ends the loop with the library's error code |
| Streaming.ResumeFromStart | lz4framed/py-lz4framed.c:928-941 | the loop started on the whole input ends in the run's final state with the run's result |
| Streaming.NextChunk | lz4framed/py-lz4framed.c:943-951 | a full chunk is appended to the list and a fresh chunk of n bytes replaces it, keeping the chunks in step with the decoded bytes |
| Streaming.DecodeRound | lz4framed/py-lz4framed.c:941-963 | one round keeps the chunk invariant and the loop's eventual result, and makes progress: less input, or the same input with a zero hint or a smaller rank |
| Streaming.RunFrom | lz4framed/py-lz4framed.c:941-963 | reference definition of the loop: each LZ4F_decompress call is offered the rest of the input and the free space of the current chunk, and the run goes on while the call succeeds, the hint is non-zero and input is left; it is empty exactly when no input is left or the hint is 0 |
| Streaming.UpdateRun | lz4framed/py-lz4framed.c:926-963 | the calls of one decompress_update: the reference loop started on the whole input with a fresh chunk and a non-zero hint |
| Streaming.DecodeChunks | lz4framed/py-lz4framed.c:928-974 | the loop leaves the context in the run's final state and returns the run's result: the library's error, or all decoded bytes sliced into n-byte chunks followed by the last hint |
| Streaming.FinalChunks | lz4framed/py-lz4framed.c:967-971 | the full chunks, plus the used part of the last chunk when it holds data, are the n-byte slicing of everything decoded |
| Streaming.DecompressUpdate | lz4framed/py-lz4framed.c:880-991 | a failed check changes nothing and raises its error; otherwise chunk_len is positive and the call makes the reference run, leaves its final state, and returns its outcome |
| Streaming.UpdateOutcomeChunks | lz4framed/py-lz4framed.c:967-974 | a successful result ends with the last call's hint, its other elements are chunks of 1..chunk_len bytes, all but the last exactly chunk_len, and together they are everything the library wrote, in order |
| Streaming.UpdateStopsAtFrameOrInputEnd | lz4framed/py-lz4framed.c:941 | a successful result's last call completed the frame or consumed the rest of the input |
| OneShot.Compress | lz4framed/py-lz4framed.c:224-296 | a failed check raises its error; otherwise LZ4F_compressFrame runs with prefs_defaults plus the options, the input length declared as content size and no autoflush, and its output or error code is returned; success implies non-empty input, a valid id and a level up to the maximum |
| OneShot.InitialLen | lz4framed/py-lz4framed.c:375-382 | the first buffer is the declared content size when there is one, else the larger of buffer_size and the input left after the header |
| OneShot.GrowFromTrace | lz4framed/py-lz4framed.c:388-426 | the loop makes a chained run whose calls are offered the free part of a doubling buffer and which stops exactly at the first call that fails, completes the frame or consumes the input; with a declared size and warnings as errors it makes one call |
| OneShot.BufferAccounting | lz4framed/py-lz4framed.c:402-419 | before call i the buffer has doubled i times, and the space it offers is its length less everything written so far |
| OneShot.BufferDoubles | lz4framed/py-lz4framed.c:414-419 | in decompress itself, call i is offered 2^i times the first length less what the earlier calls wrote |
| OneShot.DecompressEnds | lz4framed/py-lz4framed.c:398-426 | decompress succeeds exactly when its last call returns hint 0, and then returns all the calls wrote; "frame incomplete" is raised exactly when the last call used up the input with a non-zero hint |
| OneShot.NoWarningRaised | lz4framed/py-lz4framed.c:409-416 | with warnings left as warnings the loop never raises the content-size warning |
| OneShot.KnownSizeBound | lz4framed/py-lz4framed.c:375-412 | with a declared content size and warnings as errors, a successful result is no longer than the declared size |
| OneShot.GrowResumeStep | lz4framed/py-lz4framed.c:392-419 | a call after which the loop goes round again keeps the loop's eventual result, with the buffer doubled, and makes progress |
| OneShot.GrowResumeLast | lz4framed/py-lz4framed.c:398-425 | a call after which the loop stops decides the result |
| OneShot.Enlarge | lz4framed/py-lz4framed.c:417-419 | the resized buffer has the new length and keeps the bytes already written |
| OneShot.Conclude | lz4framed/py-lz4framed.c:398-426 | the result after the last call: its error, the written bytes trimmed, the warning raised as an error, or "frame incomplete" |
| OneShot.GrowRound | lz4framed/py-lz4framed.c:389-424 | one round either returns the loop's result or moves the loop on with a fresh, doubled buffer that keeps what was written, the same eventual result and progress made |
| OneShot.GrowFrom | lz4framed/py-lz4framed.c:389-426 | reference definition of the growth loop: a call that fails, completes the frame, consumes the rest of the input or meets a raised warning is the last; otherwise the free space grows by the buffer length and the length doubles; the run is never empty |
| OneShot.Decompressed | lz4framed/py-lz4framed.c:371-426 | what decompress returns after its checks: the library's error from LZ4F_getFrameInfo, or the outcome of the growth loop on the input after the header, with the buffer sized by InitialLen |
| OneShot.DecodeGrowing | lz4framed/py-lz4framed.c:384-426 | the imperative loop returns what the reference run determines |
| OneShot.Decompress | lz4framed/py-lz4framed.c:324-441 | a failed check raises its error; otherwise the header is read with LZ4F_getFrameInfo, the buffer is sized, and the result is that of the reference run on the rest of the input |
| Compressors.Compressor.constructor | lz4framed/__init__.py:100-102 | a new Compressor holds the header from compress_begin, pending, with the first-update method bound and nothing handed out |
| Compressors.OpenCompressor | lz4framed/__init__.py:92-102 | a fresh context is created; a missing `write` raises AttributeError and a non-callable one TypeError; then compress_begin's checks and library call decide; on success the header is kept pending, at most 15 bytes, and the context has made exactly one begin call |
| Compressors.Compressor.Enter | lz4framed/__init__.py:104-107 | without a sink, ValueError; with one, the compressor itself |
| Compressors.Compressor.Exit | lz4framed/__init__.py:109-110 | leaving the context makes exactly one end call and leaves header, mode and preferences as they were; a library error is raised with nothing written, otherwise the trailer is written to the file and counted as handed out after the header (or ahead of it when no update succeeded) |
| Compressors.Compressor.Update | lz4framed/__init__.py:112-135 | empty data changes nothing; while the header is pending, a success writes header then output to the sink, or returns header + output, and rebinds update; afterwards only the output; a library error leaves the compressor as it was; the state invariant holds throughout |
| Compressors.Compressor.UpdateFirst | lz4framed/__init__.py:116-128 | the first successful update hands out the header once, glued to that call's output, and rebinds update to the writing or the returning variant |
| Compressors.Compressor.UpdateNextWrite | lz4framed/__init__.py:131-132 | later updates with a sink write only their own output |
| Compressors.Compressor.UpdateNextReturn | lz4framed/__init__.py:134-135 | later updates without a sink return only their own output |
| Compressors.Compressor.End | lz4framed/__init__.py:137-144 | one end call; the trailer is written to the sink and nothing is returned, or it is returned without a sink; the pending header and the update binding are untouched |
| Decompressors.OpenDecompressor | lz4framed/__init__.py:162-176 | fp None raises TypeError, a missing `read` AttributeError and a non-callable one TypeError; otherwise a fresh context and no frame info |
| Decompressors.Decompressor.constructor | lz4framed/__init__.py:173-176 | a new Decompressor reads from the given source and holds no frame info |
| Decompressors.UpdateStep | lz4framed/__init__.py:201-202 | reference definition of decompress_update followed by `output.pop()`: the no-data error for an empty read, otherwise the library's error or the n-byte slicing of the reference run's output with the last hint |
| Decompressors.Opening | lz4framed/__init__.py:181-194 | reference definition of the first round: 15 bytes read and decoded in 32-byte chunks; then get_frame_info, whose header-incomplete error keeps the chunk size at 32 and whose other errors are raised; a known header is stored and its block size becomes the chunk size |
| Decompressors.Loop | lz4framed/__init__.py:200-204 | reference definition of `while input_hint > 0`: each round reads the hint's worth of bytes and decodes them; the chunks are yielded and the new hint goes on, or the error ends the loop |
| Decompressors.Pulled | lz4framed/__init__.py:178-204 | reference definition of a whole iteration: the first round, then, when it did not raise, its chunks followed by the loop from its hint and chunk size |
| Decompressors.Decompressor.Feed | lz4framed/__init__.py:201-202 | one decompress_update and pop: an empty read raises the no-data error; otherwise the library's error, or the n-byte slicing of what it decoded and the hint |
| Decompressors.Decompressor.Start | lz4framed/__init__.py:184-194 | the first read asks for 15 bytes, decoded in 32-byte chunks; header-incomplete is swallowed and any other error re-raised; a known header is stored as frame info and its block size becomes the chunk size, or its invalid id raises ValueError |
| Decompressors.Decompressor.Drain | lz4framed/__init__.py:200-204 | the `while input_hint > 0` loop ends as the reference loop says: the same chunks, outcome, context state, source and reads |
| Decompressors.Decompressor.Iterate | lz4framed/__init__.py:178-204 | a whole iteration yields the chunks and ends as the reference iteration says; frame_info becomes the dict get_frame_info returned once the header is known, and is otherwise unchanged |
| Decompressors.LoopFollowsHints | lz4framed/__init__.py:200-204 | each read after the first asks for exactly the previous non-zero hint; the loop ends normally exactly after a zero hint; the no-data error comes only once the source is drained |
| Decompressors.LoopErrors | lz4framed/__init__.py:200-204 | the loop fails only with a library error or the no-data error; a drained source with a non-zero hint raises the no-data error at once |
| Decompressors.LoopChunkSizes | lz4framed/__init__.py:200-204 | every chunk the loop yields has 1..n bytes |
| Decompressors.IterationFollowsHints | lz4framed/__init__.py:181-204 | over a whole iteration the first read asks for 15 bytes and each later one for the previous non-zero hint; normal end exactly after a zero hint; the no-data error only on a drained source |
| Decompressors.IterationChunkSizes | lz4framed/__init__.py:181-204 | nothing is yielded when the first round raises; otherwise the first round yields chunks of 1..32 bytes and the loop chunks of 1..n bytes, where n is 32 without stored frame info and the block size of the stored block_size_id otherwise; a header-incomplete error is swallowed, with the chunk size kept at 32 and nothing stored |
| Decompressors.IterationErrors | lz4framed/__init__.py:185-204 | an iteration fails only with a library error, the no-data error, or the ValueError of an invalid block-size id; an empty source raises the no-data error before yielding anything |

## Left out

- The frame format itself is not modelled: header layout, block encoding, checksums and xxHash all live in the LZ4 library, whose files are not part of this model. Every `LZ4F_*` call is an abstract step.
- The progress of `LZ4F_decompress` is an assumption (`rank` in `Lz4f.StepBounded`). Nothing in the binding guarantees it.
- The GIL release and the per-context locks (`ENTER_LZ4FRAMED`/`EXIT_LZ4FRAMED`, `threading.Lock`) are left out: they exist only for concurrency, and the model is sequential.
- CPython memory failures are not modelled: refcounting, `Py_buffer` handling, capsule destructors, and failures of `PyBytes_FromStringAndSize`, `_PyBytes_Resize`, `PyList_Append` or `PyDict_SetItemString`.
- Failures while creating a context are not modelled: `LZ4F_createCompressionContext`, `LZ4F_createDecompressionContext` and the lock allocation are assumed to succeed.
- `PyArg_Parse*` checks of argument types and counts are left out, as is the "input not contiguous" check: inputs are byte sequences and integers.
- Integer arguments parsed with the C-int format "i" (block_size_id, level, buffer_size, chunk_len) have the type `Errors.CInt`, the range -2^31 to 2^31-1. A Python int outside that range raises OverflowError inside `PyArg_Parse*` before any check runs; that error is not modelled. The flags block_mode_linked, checksum, autoflush and block_checksum are also read with "i". They are modelled as `bool`, their truth value, which is all the C code looks at (lz4framed/py-lz4framed.c:269-272, 625-630); their OverflowError is not modelled either.
- `LZ4F_compressBound` and `LZ4F_compressFrameBound` are folded into the update and frame steps. The binding only uses them to size its output buffers.
- The `stableDst` option that decompress sets for a known content size is left out. It only changes the library's internal buffering.
- The C `size_t` arithmetic of decompress is unbounded in the model, so a wrap-around of the doubled `output_len` is not modelled.
- The text of the "lz4frame contentSize mismatch" RuntimeWarning is not modelled. The warning is a flag: when warnings are errors the call raises `RuntimeWarningRaised`; otherwise the loop goes on.
- File-like objects are modelled with the semantics of `io.BytesIO`: `read(n)` returns the next `n` bytes, or all that is left. Short reads of other objects, and exceptions raised by `read` or `write`, are left out.
- OneShot.GrowRound: the fresh array stands for the buffer `_PyBytes_Resize` returns. Growing the same object in place is not modelled.
- Decompressors.Decompressor.Iterate: the generator is run to its end in one call. Its laziness is left out: a consumer that stops early, and iterating twice. The lock taken around the whole generator is left out too.
- Decompressors.Decompressor.FrameInfo: the `frame_info` property only reads the field. It has no contract of its own; what the field holds is stated by the constructor, `Start` and `Iterate`.
- IterationErrors: the tests' expectation that a truncated source raises the no-data error only after at least one chunk is yielded depends on what the library decodes. The lemma states only that the no-data error comes from a drained source.
- Module initialisation, the exported constants (apart from the block-size ids), `compat.py`, `__main__.py` and `setup.py` are left out.
- The values of the library's constants that this binding relies on are taken as fixed:
  - the block-size ids: default 0, 64KB to 4MB as 4 to 7;
  - `LZ4_COMPRESSION_MIN` = 0 and `LZ4_COMPRESSION_MAX` = 16;
  - `LZ4F_HEADER_SIZE_MAX` = 15.

  The headers that define them are not part of this model.

## Findings

| source | as written | input that shows it | evidently intended | confidence | as-written member | corrected member |
|---|---|---|---|---|---|---|
| lz4framed/py-lz4framed.c:896-924 | `chunk_len` is a `size_t` filled through the C-int format "i", so the guard `chunk_len <= 0` only rejects 0: on a 64-bit little-endian platform a negative argument is stored modulo 2^32 | `decompress_update(ctx, data, chunk_len=-1)` passes the guard and asks for 4294967295-byte chunks instead of raising ValueError "chunk_len invalid" | reject every non-positive chunk_len, as the message says | not executed | Arguments.AsWrittenGuardMissesNegatives | Arguments.CheckDecompressUpdate |
