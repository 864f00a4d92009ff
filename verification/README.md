# Nexus storage: a verified model

Nexus stores files as video. A byte stream is sealed in authenticated chunks, spread over
forward-error-correction blocks, cut into symbols with an `NX` marker, packed into frames, and drawn as
4x4 pixel blocks; the decoder undoes all of it from noisy pictures. Around that pipeline a daemon keeps
its database in step with a copy on a remote drive and keeps downloaded shards in a size-bounded cache.
This project models those parts of the repository in Dafny and proves what they promise.

## How the model is built

* Every object that the source updates in place is a class with the same fields
  (`StreamingContext`, `StreamingEncoder`, `StreamingDecoder`, `StreamingNexusWriter`, `CacheManager`,
  `SyncManager`, `Drive`, `LocalFiles`, `PushBreaker`), images are two-dimensional arrays, and the loops of the
  source are loops. Each method is proved equal to a step function on abstract states; the theorems are
  about those functions and about whole runs of them.
* `Bytes`, `BitPacking`, `Cutting`, `FrameNames` and `Sync` hold vocabulary. `CryptoStream`, `StreamEncoder` and
  `StreamDecoder` model `nexus-core/src/streaming.rs`; `Frame`, `FrameImages` and `FrameDirectory` model
  `encoder.rs`, `decoder.rs` and the drawing half of `streaming.rs`, and `DirectoryErrors` incomplete directories; `Pipeline` models `pipeline.go`; `Shards` the shard
  loops of `queue.go`; `ShardCache` and `EvictionOrder` model `cache.go`; `SyncPush`, `SyncPull`, `SyncRuns` and `CircuitBreaker`
  model `sync.go`.
  `StreamTheorems`, `FrameTheorems`, `DecoderTheorems`, `BlockIds`, `Delivery`, `Loss` and `VideoPadding`
  hold the main results about them.
* `WireFormat` and `PixelFormat` say what the bytes and pixels are that leave the program, one by one and without the
  functions that write or read them, so that a change made on both sides does not go unnoticed.
* A frame survives the channel if in every 4x4 block the five pixels that the decoder samples still add up to a sum of
  the block's symbol (`FrameSurvives`); this is exactly when it decodes (`FullFrameSurvives`). It is so if no pixel moves
  further than 17 grey levels (`PixelwiseSurvives`), and also with one large speck in every block (`SpecksHarmless`).
  "Within the margin" below means frames that survive.
* XChaCha20-Poly1305 (the AEAD interface of section 2.8 of RFC 8439) is a parameter: `ValidAead` asks for the round
  trip and a 16-byte tag, `IdealAead` for a cipher that opens only what was issued. RaptorQ is a parameter too
  (`ValidCode`: systematic as in section 5.3 of RFC 6330, a monotone set of decodable symbol ids, exact recovery).
  So are compression and one-shot encryption (`ValidCodec`), SQLite (`Sqlite`), and everything the outside world
  answers (`PushEnv`, `PullEnv`). They are predicates on function values, never assumed facts;
  `IdealAeadExists` and `ValidCodeExists` show that they can be met.
* Random nonce prefixes and salts, times, and the outcomes of file, network and database calls are arguments.

## What turned out differently from the obvious statement

* A piece of ciphertext that begins after the end of the final frame is refused with an error; one that merely
  runs past it is ignored. `StreamRoundTrip` gives the exact condition.
* `Write` reports an error whenever no chunk is completed, although it has accepted the data
  (an empty push is refused below the C interface); and when the frame handler fails.
* The 32-bit block id wraps at 2^32 blocks without harm, but six ids of the first pass are never forgotten: block
  number 2^33 - 6 is taken for an old one. The delivery theorems hold exactly up to there (`BlockIds`).
* Nonces stay distinct for fewer than 2^64 chunks; the first repetition is the final nonce at 2^64 (`NoncesDistinctIff`).
* A failed manifest read is treated like a first backup: pushes raise the remote rank if and only if the manifest was
  read (`OverwriteRaises`; `UnreadManifestIsOverwritten` has the failing inputs).
* A device with LSN 0 accepts a download whose hash differs from the manifest (`SafeExactlyWithLsn`).
* Of the snapshots that pass all checks of a pull, exactly the plaintext ones are installed (`InstallsExactlyPlaintext`).
* Rows of one second make the cache's eviction order ambiguous. For every limit the same number of rows goes if and
  only if tied rows have equal sizes (`EvictionLengthExact`; `TiesChangeEviction` is an instance), and the same rows go
  if and only if tied rows and all rows that are not older are empty (`EvictionUnique`).
* The repeats of a short video's last frame begin inside a symbol. They add nothing if the piece of that symbol holds no
  marker (`PaddedVideoDecodes`).
* A block the decoder has forgotten is put out again when its symbols come back (`ReplayedBlock`).
* The stored end of a suspension is cut to whole seconds, so the bound on failing pushes holds for whole seconds
  and, for other intervals, exactly when rounding up does not complete a quarter of an hour (`FailureRateExact`).
* Sorting frame names agrees with frame numbers exactly below one million data frames (`OrderedByName`).

## Model

| member | source | states |
|---|---|---|
| `CryptoStream.StreamingContext.NewEncrypt` | nexus-core/src/streaming.rs:45-60 | a fresh encrypting context: counter 0, empty buffer, not finalized, no nonce used |
| `CryptoStream.StreamingContext.NewDecrypt` | nexus-core/src/streaming.rs:62-73 | a fresh decrypting context for a received nonce prefix |
| `CryptoStream.StreamingContext.EncryptUpdate` | nexus-core/src/streaming.rs:80-101 | result and new state are those of the step function; wrong mode or finalized is an error that changes nothing and uses no nonce |
| `CryptoStream.StreamingContext.SealFullChunks` | nexus-core/src/streaming.rs:88-98 | the loop seals exactly the complete 128 KiB chunks, with 4-byte lengths and consecutive counters, logging each nonce |
| `CryptoStream.StreamingContext.FinalizeEncrypt` | nexus-core/src/streaming.rs:146-166 | one last flagged chunk; the context is finalized and no cipher call follows |
| `CryptoStream.StreamingContext.DecryptUpdate` | nexus-core/src/streaming.rs:104-143 | the drain loop releases and leaves what the frame parser says, including the counter and buffer after a rejected chunk |
| `CryptoStream.StreamingContext.FinalizeDecrypt` | nexus-core/src/streaming.rs:169-181 | succeeds on an already finished stream only for empty input, otherwise only if the final chunk was seen |
| `StreamTheorems.EncryptStepsMerge` | nexus-core/src/streaming.rs:80-101 | two updates give the bytes and the state of one update with the concatenation |
| `StreamTheorems.EncryptRunMerges` | nexus-core/src/streaming.rs:80-101 | the same for any number of updates |
| `StreamTheorems.EncryptionIgnoresSplits` | nexus-core/src/streaming.rs:80-166 | the whole ciphertext depends only on the concatenated updates and the finalize argument |
| `StreamTheorems.OpenInvertsSeal` | nexus-core/src/streaming.rs:104-166 | opening sealed messages releases all of them, finalizes, and ignores any bytes behind them |
| `StreamTheorems.OpenPrefix` | nexus-core/src/streaming.rs:104-143 | opening a proper prefix releases the complete messages in it and keeps the rest for later |
| `StreamTheorems.StreamRoundTrip` | nexus-core/src/streaming.rs:80-181 | ciphertext plus anything, in any pieces: the plaintext comes back and finalizing succeeds exactly when every piece starts before the end of the stream |
| `StreamTheorems.StreamOpens` | nexus-core/src/streaming.rs:169-181 | the same in one finalizing call, whatever follows the stream |
| `StreamTheorems.IdealAeadExists` | nexus-core/src/streaming.rs:92-93 | the assumption of an ideal cipher is satisfiable for every stream |
| `StreamTheorems.OpenReleasesInOrder` | nexus-core/src/streaming.rs:112-140 | for arbitrary buffers, what is released is the sender's next messages in order, finalizing exactly at the last |
| `StreamTheorems.RunReleasesInOrder` | nexus-core/src/streaming.rs:104-143 | the same over arbitrary runs of updates |
| `StreamTheorems.NoForgery` | nexus-core/src/streaming.rs:104-196 | for every byte stream in any pieces the output before the first error is a prefix of the plaintext, and error-free finalization means all of it |
| `StreamTheorems.IdealStreamOpens` | nexus-core/src/streaming.rs:169-181 | the round trip of one finalizing call under an ideal cipher |
| `StreamTheorems.ShortStreamRefused` | nexus-core/src/streaming.rs:169-181 | fewer bytes than the sender sealed never finalize, under this prefix or any other |
| `StreamTheorems.FinalChunkLimit` | nexus-core/src/streaming.rs:146-163 | a genuine stream decrypts if and only if the final chunk with its tag stays below 2^31 bytes |
| `StreamTheorems.NoncesDistinctIff` | nexus-core/src/streaming.rs:183-196 | all nonces of a finished run differ if and only if fewer than 2^64 chunks were sealed |
| `StreamTheorems.NonceInjective` | nexus-core/src/streaming.rs:183-196 | below 2^63 a nonce determines both the position and the final flag |
| `BitPacking.RepackRoundTrip` | nexus-core/src/encoder.rs:119-155 | for any symbol width, bytes cut into symbols and read back are the same bytes; zero symbols behind them add only zero bytes |
| `BitPacking.DigitsUnique` | nexus-core/src/decoder.rs:132-157 | the bytes read from a bit string are the only ones that spell its complete part |
| `Frame.GeometryExact` | nexus-core/src/encoder.rs:18-36 | blocks tile the picture and payload bits fill the blocks exactly in both modes |
| `Frame.SymbolSurvives` | nexus-core/src/decoder.rs:100-146 | a luminance within the margin of the level drawn for a symbol is read as that symbol |
| `Frame.SampleExact` | nexus-core/src/decoder.rs:114-169 | a block is read as a symbol if and only if its five points add up to a sum of that symbol: 180 s - 90 up to 180 s + 89 in High mode, above five times the threshold plus four in Base mode |
| `Frame.NoiseMarginExact` | nexus-core/src/decoder.rs:140-146 | in High mode every level survives every move of at most m if and only if m is at most 17 |
| `FrameTheorems.FrameRoundTrip` | nexus-core/src/decoder.rs:83-169 | a picture decodes to a payload and zero bytes for the unused blocks if and only if every block still shows its symbol, for any threshold and for full and partial payloads |
| `FrameTheorems.FullFrameSurvives` | nexus-core/src/streaming.rs:352-426 | a full raw frame, as it arrives, decodes to exactly the bytes drawn if and only if it survived |
| `FrameTheorems.PixelwiseSurvives` | nexus-core/src/decoder.rs:140-169 | a drawn frame survives if no pixel moved further than the margin of its mode |
| `FrameTheorems.SpecksHarmless` | nexus-core/src/decoder.rs:161-169 | a drawn frame survives if in every block at most one sampled pixel changed, by up to 85 in High mode and to anything in Base mode |
| `PixelFormat.DrawnPixel` | nexus-core/src/encoder.rs:99-169 | pixel (x, y) of a drawn frame has the brightness of bits k, or 3k to 3k+2, of the payload, least significant bit first, where k numbers the 4x4 blocks in reading order |
| `PixelFormat.DecodedBase` | nexus-core/src/decoder.rs:83-107 | for a picture of any size bit k decoded tells whether the points of block k add up to more than five times the threshold; the last byte is completed |
| `PixelFormat.DecodedHigh` | nexus-core/src/decoder.rs:114-159 | for a picture of any size bits 3k to 3k+2 decoded tell the range of the sum of block k's points; an incomplete last byte is dropped |
| `FrameImages.FillBlock` | nexus-core/src/encoder.rs:160-168 | changes the 16 pixels of one block and nothing else |
| `FrameImages.FillBaseFrame` | nexus-core/src/streaming.rs:373-389 | the bit loop leaves a picture that shows the payload's bits in reading order and black elsewhere |
| `FrameImages.DrawHighByte` | nexus-core/src/streaming.rs:391-416 | one byte enters the bit buffer, which never holds more than 10 bits, and symbols drawn plus bits kept are all bits taken |
| `FrameImages.FillHighFrame` | nexus-core/src/streaming.rs:391-416 | the picture shows the complete 3-bit symbols of the payload |
| `FrameImages.WriteHighFrame` | nexus-core/src/encoder.rs:119-158 | the same with the remaining bits flushed as one more symbol |
| `FrameImages.GenerateFrame` | nexus-core/src/streaming.rs:352-371 | the raw pixels of the frame that carries the buffer |
| `FrameImages.SampleBlock` | nexus-core/src/decoder.rs:161-169 | the sample read from the array is the floored fifth of the sum of the block's centre and its four neighbours |
| `FrameImages.BitsToBytes` | nexus-core/src/decoder.rs:171-180 | bits packed least significant first, a last partial byte completed with zeros |
| `FrameImages.AcceptSymbol` | nexus-core/src/decoder.rs:148-156 | a symbol enters the bit buffer, which never holds more than 10 bits, and bytes out plus bits kept are all bits read |
| `FrameImages.DecodeHighImage` | nexus-core/src/decoder.rs:114-159 | the loops decode any image to the bytes its symbols spell, dropping a partial last byte |
| `FrameImages.DecodeBaseImage` | nexus-core/src/decoder.rs:83-107 | the loops decode any image to the bytes its thresholded blocks spell |
| `FrameNames.OrderedByName` | nexus-core/src/decoder.rs:17-23 | the names of frames 0 to n are in lexicographic order if and only if n is below one million |
| `FrameNames.NameReads` | nexus-core/src/encoder.rs:72-72 | a name is frame_, the decimal number with at least six digits and no more than it takes, and .png |
| `FrameNames.ListingUnique` | nexus-core/src/decoder.rs:17-23 | sorting a directory's names has one possible result |
| `FrameDirectory.WriteCalibrationFrame` | nexus-core/src/encoder.rs:83-96 | the frame shows sixteen bands of levels 0, 17, ..., 255 |
| `FrameDirectory.ReadCalibrationThreshold` | nexus-core/src/decoder.rs:66-76 | one loop finds both extremes; the threshold is the sum of their halves |
| `FrameDirectory.CalibrationThreshold` | nexus-core/src/decoder.rs:66-76 | the frame as drawn gives threshold 127 in both modes |
| `FrameDirectory.CalibrationBands` | nexus-core/src/encoder.rs:83-96 | the pixels of the b-th sixteenth of every row have level 17 b |
| `FrameDirectory.ThresholdBetween` | nexus-core/src/decoder.rs:66-76 | the threshold is half a darkest plus half a brightest pixel, at most one below their mean |
| `FrameDirectory.PngExactly` | nexus-core/src/decoder.rs:17-22 | the files read are those whose names are a stem and .png |
| `FrameDirectory.EncodeToFrames` | nexus-core/src/encoder.rs:39-81 | returns the ceiling frame count and leaves the directory with the calibration frame and one frame per piece of length header plus payload |
| `FrameDirectory.DecodeDirectory` | nexus-core/src/decoder.rs:16-56 | the loop gives what the listing decodes to, with each error case |
| `FrameDirectory.ParseRaw` | nexus-core/src/decoder.rs:44-55 | missing header, short payload, and the abort when the length wraps around 64 bits |
| `FrameDirectory.DirectoryRoundTrip` | nexus-core/src/decoder.rs:16-76 | every payload of fewer than a million frames is decoded from its directory, with the threshold read from the received calibration frame, all pictures disturbed within the margin, and any pictures sorting behind; a file there that is no picture makes decoding fail |
| `FrameDirectory.EncodedDirectoryDecodes` | nexus-core/src/encoder.rs:39-81 | what was encoded into a directory whose other .png files sort behind the new frames is decoded to exactly the payload if all of them are pictures, and not at all otherwise |
| `FrameDirectory.ReusedDirectoryDecodes` | nexus-core/src/encoder.rs:39-81 | after encoding two payloads into one directory, of any lengths, the second is decoded |
| `DirectoryErrors.ParsesExactly` | nexus-core/src/decoder.rs:44-55 | bytes hold a payload if and only if they begin with its length and all of it |
| `DirectoryErrors.ParseErrors` | nexus-core/src/decoder.rs:44-55 | fewer than eight bytes have no length, fewer than the length says are corrupt, a length beyond 64 bits aborts, each exactly |
| `DirectoryErrors.UnreadableExactly` | nexus-core/src/decoder.rs:25-42 | no .png file, and any .png file that is no picture, are errors, each exactly |
| `DirectoryErrors.OnlyCalibration` | nexus-core/src/decoder.rs:46-48 | the calibration frame alone is refused for its missing length |
| `DirectoryErrors.FramesMissing` | nexus-core/src/decoder.rs:44-55 | with fewer frames than the payload takes, whichever are lost behind the first data frame and whatever the others show, the payload is refused as corrupt |
| `Fec.WrapUnwrap` | nexus-core/src/streaming.rs:323-330 | block id, symbol id and payload are read back from a wrapped symbol of 1,032 bytes |
| `WireFormat.NonceBytes` | nexus-core/src/streaming.rs:183-196 | a nonce is the prefix and eight bytes that read, most significant first, as the counter, with the top bit set for the final chunk |
| `WireFormat.HeaderBytes` | nexus-core/src/streaming.rs:95-96 | the four header bytes read, least significant first, as the length; the top bit of the last one marks the final chunk |
| `WireFormat.ChunkOnTheWire` | nexus-core/src/streaming.rs:80-101 | bytes 131,092 i to 131,092 (i+1) of every ciphertext are the header 10 00 02 00 and bytes 131,072 i to 131,072 (i+1) of the plaintext sealed under prefix and i |
| `WireFormat.FinalOnTheWire` | nexus-core/src/streaming.rs:146-166 | behind them come the flagged header and the rest of the plaintext, sealed under prefix and number with the top bit set |
| `WireFormat.OpenConserves` | nexus-core/src/streaming.rs:104-143 | for any bytes and any cipher the loop takes out complete frames in order and keeps the rest; the counter advances by the frames that opened, and a rejected one is taken out too |
| `WireFormat.FinalizeExactly` | nexus-core/src/streaming.rs:169-181 | each error of finalizing exactly in its case, and the state it leaves |
| `WireFormat.SymbolBytes` | nexus-core/src/streaming.rs:323-330 | marker, block id and symbol id least significant byte first, payload |
| `WireFormat.SymbolFields` | nexus-core/src/streaming.rs:495-498 | what is read from any 1,032 bytes taken for a symbol |
| `WireFormat.BlockOnTheWire` | nexus-core/src/streaming.rs:285-330 | a block becomes 206,400 bytes: 200 numbered symbols, the first 180 with its 1,024-byte pieces |
| `Fec.ValidCodeExists` | nexus-core/src/streaming.rs:299-321 | the assumption of a valid erasure code is satisfiable |
| `StreamEncoder.StreamingEncoder.PushData` | nexus-core/src/streaming.rs:239-257 | new state is the push step; the result is exactly the number of frames queued |
| `StreamEncoder.StreamingEncoder.EncodeFecBlock` | nexus-core/src/streaming.rs:285-297 | all 200 symbols of the block are packed under the current id, which then advances with wrap-around |
| `StreamEncoder.StreamingEncoder.PackSymbolToFrames` | nexus-core/src/streaming.rs:332-350 | the copy loop queues exactly the frames that become full and keeps the rest |
| `StreamEncoder.StreamingEncoder.PopFrame` | nexus-core/src/streaming.rs:260-262 | takes the oldest queued frame, or none, and changes nothing else |
| `StreamEncoder.StreamingEncoder.Finalize` | nexus-core/src/streaming.rs:265-283 | pads and flushes the partial block and then the partial frame |
| `StreamEncoder.PushMerges` | nexus-core/src/streaming.rs:239-257 | pushing a and then b leaves the state of pushing both at once |
| `StreamEncoder.FinalizeTwice` | nexus-core/src/streaming.rs:265-283 | a second finalize changes nothing |
| `StreamEncoder.QueueAppends` | nexus-core/src/streaming.rs:239-262 | frames popped earlier do not influence what is queued later |
| `Delivery.EncoderConserves` | nexus-core/src/streaming.rs:239-350 | queued frames plus partial frame carry exactly the symbols of the complete blocks, and complete blocks plus partial block are the data pushed |
| `StreamDecoder.FindMagic` | nexus-core/src/streaming.rs:535-537 | the first marker position, or none if there is no marker |
| `StreamDecoder.StreamingDecoder.ProcessRawBuffer` | nexus-core/src/streaming.rs:482-533 | the loop terminates and takes out exactly the scanned symbols, in order, into the block table |
| `StreamDecoder.StreamingDecoder.PushFrame` | nexus-core/src/streaming.rs:454-476 | a frame of the wrong size is refused unchanged, any other is decoded and processed |
| `StreamDecoder.StreamingDecoder.PopData` | nexus-core/src/streaming.rs:478-480 | hands out the output once |
| `StreamDecoder.StreamingDecoder.AcceptSymbol` | nexus-core/src/streaming.rs:500-531 | entry, decoding, output and eviction of one symbol |
| `StreamDecoder.ScanIncremental` | nexus-core/src/streaming.rs:482-498 | for arbitrary bytes, scanning a and then the leftover with b takes the symbols and leaves the buffer of one scan over both |
| `StreamDecoder.ScanAligned` | nexus-core/src/streaming.rs:482-498 | packed symbols are found whole even if they contain the marker, and zero padding adds none |
| `StreamDecoder.FeedMerges` | nexus-core/src/streaming.rs:454-533 | the decoder's state does not depend on how its bytes are split into frames |
| `StreamDecoder.OutputGrows` | nexus-core/src/streaming.rs:500-531 | whatever arrives, output is only appended to |
| `DecoderTheorems.PutOutOnce` | nexus-core/src/streaming.rs:500-530 | for loss, repeats and reordering in which no symbol of block a comes after a block beyond a+5 was decoded, the output is the true contents of distinct blocks, of exactly those whose arrived symbols are decodable |
| `DecoderTheorems.EvictionInvisible` | nexus-core/src/streaming.rs:500-530 | for such sequences the evicting decoder outputs what one that forgets nothing outputs |
| `DecoderTheorems.ReplayAddsNothing` | nexus-core/src/streaming.rs:500-530 | for such sequences, whole symbols of emitted blocks arriving again add nothing |
| `DecoderTheorems.LossyInOrder` | nexus-core/src/streaming.rs:500-530 | over symbol arrivals: dropping whole symbols leaves true blocks in increasing order, and the full input if and only if every block stays decodable |
| `Loss.BytesPutOutOnce` | nexus-core/src/streaming.rs:454-533 | the at-most-once result for the bytes fed to the decoder: genuine symbols with loss, repeats and reordering put out the contents of distinct blocks, exactly the decodable ones |
| `Loss.ReplayedBytes` | nexus-core/src/streaming.rs:454-533 | bytes of whole symbols of decodable blocks arriving again add nothing |
| `Loss.LossyBytes` | nexus-core/src/streaming.rs:482-533 | a byte stream of in-order genuine symbols with padding puts out the first n blocks whole if and only if the symbols of each are decodable, and otherwise misses at least one block |
| `Loss.LossyStream` | nexus-core/src/streaming.rs:482-533 | the same for any selection of the symbols an encoder makes of a list of blocks |
| `Loss.LossyMemory` | nexus-core/src/streaming.rs:519-529 | while such bytes are scanned, with every arriving block decodable, at most 11 blocks are tracked |
| `Loss.LossyDownload` | nexus-daemon/queue.go:1169-1189 | if the received frames carry the upload's symbols without some of them, the download recovers the plaintext if and only if the symbols kept of every block are decodable |
| `DecoderTheorems.AtMostElevenTracked` | nexus-core/src/streaming.rs:519-529 | at every moment of an in-order sequence in which every arriving block is decodable, at most 11 blocks are tracked |
| `BlockIds.BlockStep` | nexus-core/src/streaming.rs:500-530 | the symbols of a block put it out once if its id is not tracked, and change nothing if it is |
| `BlockIds.EveryBlockPutOut` | nexus-core/src/streaming.rs:519-529 | which ids are tracked after any number of blocks, before and after the 32-bit id wraps, and that every block up to 2^33 - 6 is put out |
| `BlockIds.WholeStreamDecodes` | nexus-core/src/streaming.rs:482-533 | the symbols of consecutive blocks put out exactly the blocks if and only if there are at most 2^33 - 6 of them |
| `BlockIds.ReplayedBlock` | nexus-core/src/streaming.rs:519-529 | a block of a complete stream that arrives again is put out a second time if and only if it is no longer among the newest six to ten |
| `Delivery.Delivered` | nexus-core/src/streaming.rs:239-537 | pushed data passes through blocks, symbols, frames and noisy pixels unchanged, followed only by its zero padding and what later frames add, if and only if it fills at most 2^33 - 6 blocks |
| `Pipeline.StreamingNexusWriter.constructor` | nexus-daemon/pipeline.go:20-44 | the nonce prefix is the first thing the encoder is given |
| `Pipeline.StreamingNexusWriter.Write` | nexus-daemon/pipeline.go:48-81 | the data is accepted in any case; success is reported exactly when a chunk was completed and no handler call failed, and then no frame is left waiting |
| `Pipeline.StreamingNexusWriter.HandleFrames` | nexus-daemon/pipeline.go:64-78 | ready frames are handled once, in order, until none is left or the handler fails; frames handled and frames waiting together stay the same |
| `Pipeline.StreamingNexusWriter.Close` | nexus-daemon/pipeline.go:85-133 | without a handler failure the frames handled are those of prefix and encrypted stream of everything written, whatever the writes were; with one, handled and dropped frames together are |
| `Pipeline.Download` | nexus-daemon/queue.go:1169-1189 | decodes all frames, takes 16 bytes as prefix, decrypts and finalizes, with each error case |
| `Pipeline.EndToEnd` | nexus-daemon/pipeline.go:33-129 | for every plaintext of at most 2^33 - 6 blocks, every code, mode, frames that survive and trailing frames, the download recovers exactly the plaintext |
| `Pipeline.DownloadNeedsAll` | nexus-daemon/queue.go:1169-1189 | with an ideal cipher an output that starts with the upload is recovered, and any shorter one is refused |
| `Pipeline.EndToEndExact` | nexus-daemon/pipeline.go:33-129 | with an ideal cipher and exactly the sent frames the plaintext is recovered if and only if the upload fills at most 2^33 - 6 blocks |
| `Pipeline.Send` | nexus-daemon/pipeline.go:20-133 | a run of writes in any pieces and a close produces the frames of the whole plaintext |
| `Pipeline.SendAndReceive` | nexus-daemon/queue.go:1177-1189 | writer, noisy channel and download composed give back the plaintext |
| `Cutting.PieceAt` | nexus-daemon/queue.go:569-579 | seeking to i times the size and reading at most the size gives piece i |
| `Cutting.PieceCount` | nexus-daemon/queue.go:509-512 | there are ceiling(length / size) pieces, one for nothing |
| `Cutting.PiecesConserve` | nexus-daemon/queue.go:569-579 | the pieces concatenate to the whole |
| `Shards.UnwrapsWrapped` | nexus-daemon/queue.go:609-621 | sealing, size header and any padding are undone exactly |
| `Shards.UploadShard` | nexus-daemon/queue.go:763-771 | the frames of a shard, the last repeated up to 90 |
| `Shards.PadsExactly` | nexus-daemon/queue.go:763-771 | all frames unchanged, then copies of the last one up to exactly 90 |
| `Shards.StripExactly` | nexus-daemon/queue.go:1253-1273 | a plausible size header leaves just that many bytes, any other data is used as it is |
| `Shards.LayersOpen` | nexus-daemon/queue.go:583-621 | behind the header the key of the file opens the outer layer, and the compressed shard, under the password if there is one, is inside |
| `Shards.UnwrapsExactly` | nexus-daemon/queue.go:1274-1300 | a shard is refused exactly if a layer does not open; data that cannot be decompressed is kept |
| `Shards.ShardDelivered` | nexus-daemon/queue.go:1250-1306 | a shard is recovered from its padded and disturbed video |
| `VideoPadding.ScanBehind` | nexus-core/src/streaming.rs:482-498 | bytes without a marker are skipped, and the symbols behind them are found whole |
| `VideoPadding.NewestTracked` | nexus-core/src/streaming.rs:519-529 | after any number of complete blocks, past the wrap of the id too, the newest one is tracked and decoded |
| `VideoPadding.LastFrameRepeated` | nexus-daemon/queue.go:763-771 | if the last frame begins with no marker before its first whole symbol, feeding it again any number of times leaves blocks and output as they are |
| `VideoPadding.PaddedVideoDecodes` | nexus-daemon/queue.go:763-771 | then the received video, its last frame repeated up to 90, decodes to exactly the padded data if and only if there are at most 2^33 - 6 blocks |
| `Shards.UploadFile` | nexus-daemon/queue.go:508-774 | the loop makes one video per shard, each carrying that shard |
| `Shards.DownloadFile` | nexus-daemon/queue.go:1042-1309 | for files with their own key the loop concatenates what each video decodes to, and fails if one does not |
| `Shards.FileRoundTrip` | nexus-daemon/queue.go:508-774 | for every file, shard size, mode and channel within the margin, upload and download give back the file |
| `ShardCache.CacheManager.constructor` | nexus-daemon/cache.go:25-35 | an empty cache, with the default bound for non-positive limits |
| `ShardCache.CacheManager.Get` | nexus-daemon/cache.go:38-54 | hit exactly if row and file exist; a hit hands out the bytes of the last put; a stale row is dropped |
| `ShardCache.CacheManager.Put` | nexus-daemon/cache.go:57-74 | afterwards the sizes fit the bound and what was evicted is an oldest-first prefix, no longer than needed along the order in which ties were answered |
| `ShardCache.CacheManager.EvictIfNeeded` | nexus-daemon/cache.go:101-113 | the running total always is the true sum; the loop removes from table and disk an oldest-first prefix and stops as soon as the rest fits |
| `EvictionOrder.EvictionLengthExact` | nexus-daemon/cache.go:101-113 | for every limit all evictions remove the same number of rows, whichever of several oldest rows the query answers, if and only if rows with equal time stamps have equal sizes |
| `EvictionOrder.EvictionUnique` | nexus-daemon/cache.go:101-113 | for every limit all evictions remove the same rows in the same order, if and only if rows with equal time stamps, and all rows not older than those, have no bytes |
| `EvictionOrder.TiesChangeEviction` | nexus-daemon/db.go:602-611 | an instance: rows of 10 and 101 bytes with one time stamp |
| `ShardCache.RunCache` | nexus-daemon/cache.go:38-98 | over every sequence of lookups, stores, removals and files lost, a lookup hits if and only if its row was saved and not evicted, removed or dropped and its file not lost; a hit yields what a plain map would; only stores evict, oldest rows first and no more than it takes |
| `ShardCache.CacheManager.Evict` | nexus-daemon/cache.go:82-98 | removes exactly the rows and files of the given shards |
| `ShardCache.CacheManager.OldestCacheEntry` | nexus-daemon/db.go:602-611 | a row with the least time stamp |
| `ShardCache.CacheManager.Stats` | nexus-daemon/db.go:613-616 | the sum of all sizes |
| `ShardCache.KeptAreNewer` | nexus-daemon/cache.go:101-113 | nothing kept was used less recently than something evicted |
| `ShardCache.EvictsExactly` | nexus-daemon/cache.go:101-113 | nothing is evicted exactly if the sizes are within the bound |
| `ShardCache.TotalWithout` | nexus-daemon/cache.go:111-111 | subtracting a removed entry's size keeps the total true, in whatever order rows are summed |
| `SyncPush.Decide` | nexus-daemon/sync.go:223-298 | the nested comparisons amount to: in sync for equal totals and hashes, else push or pull by the higher rank (total, then date), else conflict |
| `SyncPush.DecisionExactly` | nexus-daemon/sync.go:223-298 | in terms of counts, hashes and dates: push, pull, in sync and conflict each exactly in their case |
| `SyncPush.DatesRead` | nexus-daemon/sync.go:255-274 | a readable date counts as it is, any other as the epoch |
| `SyncPush.DecisionsAreDual` | nexus-daemon/sync.go:223-298 | of two devices looking at each other at most one may push, exactly when the other must pull; they agree on sync and conflict |
| `SyncPush.Drive.UploadDBFileToDrive` | nexus-daemon/sync.go:960-1058 | the manifest is written only after the database write succeeded |
| `SyncPush.Drive.RetryUpload` | nexus-daemon/sync.go:113-132 | at most three attempts, stopping at the first that succeeds |
| `SyncPush.ManifestFollowsDatabase` | nexus-daemon/sync.go:960-1058 | whatever fails and wherever the process dies, a new manifest on the drive implies the new database; reported success implies both |
| `SyncPush.SyncManager.PushDBToDrive` | nexus-daemon/sync.go:135-433 | what each push leaves on the drive and in the breaker and which result it reports; success means an upload that was read back unchanged, or a remote manifest with the same row total and logical hash |
| `SyncPush.PushedExactly` | nexus-daemon/sync.go:135-433 | success is reported if and only if the device is healthy, supersedes the manifest it read, an attempt succeeded, the file read back has the snapshot's checksum and the database's hash, and the status was saved |
| `SyncPush.RefusedExactly` | nexus-daemon/sync.go:177-298 | each refusal before the upload, being up to date, the required pull and the conflict are reported exactly in their cases |
| `SyncPush.PushLands` | nexus-daemon/sync.go:217-358 | a healthy device with a snapshot and an attempt that succeeds leaves its database and manifest exactly if they supersede the manifest it read or it read none, and otherwise the drive as it was |
| `SyncPush.ReadPushRaises` | nexus-daemon/sync.go:223-298 | a push that writes over the manifest it has read raises the rank strictly |
| `SyncPush.OverwriteRaises` | nexus-daemon/sync.go:217-298 | for a push that gets to write, writing over a manifest raises the rank for all devices and remotes if and only if the manifest was read |
| `SyncPush.UnreadManifestIsOverwritten` | nexus-daemon/sync.go:217-221 | after a failed manifest read any device with LSN not zero that gets to write replaces any remote, whatever its rank |
| `SyncRuns.RemoteOnlyRises` | nexus-daemon/sync.go:223-298 | over every run of pushes with successful manifest reads, pulls (installed, refused or rolled back) and edits by any number of devices the remote manifest never returns to an earlier one |
| `SyncRuns.OverwritesBounded` | nexus-daemon/sync.go:223-356 | without edits, and with pulls that may fail or roll back, devices holding f database files and backups overwrite the remote manifest at most f+1 times |
| `SyncPull.LocalFiles.PullDBFromDrive` | nexus-daemon/sync.go:436-603 | the local database, the backup and the reported result after every combination of download, checks and failures |
| `SyncPull.LocalFiles.DownloadAndVerify` | nexus-daemon/sync.go:500-555 | the first failing check in order, and which file waits to be moved into place |
| `SyncPull.LocalFiles.Replace` | nexus-daemon/sync.go:557-603 | replacement, reopening, and rollback from the backup |
| `SyncPull.OldOrVerified` | nexus-daemon/sync.go:436-603 | with a usable backup and LSN not zero the local database ends old or as an intact download with the manifest's hash |
| `SyncPull.SafeExactlyWithLsn` | nexus-daemon/sync.go:539-549 | that holds for all manifests and downloads if and only if the device's LSN is not zero |
| `SyncPull.ChecksPassExactly` | nexus-daemon/sync.go:500-555 | the checks pass exactly for a file that arrived, opens, is intact, has no shadow files, and has the manifest's hash or meets a device with LSN 0 |
| `SyncPull.SkippedExactly` | nexus-daemon/sync.go:478-485 | without force a pull is skipped if and only if the manifest's LSN is not above the local one; database and backup are then as before |
| `SyncPull.EmptyExactly` | nexus-daemon/sync.go:487-490 | a newer or forced manifest is refused as empty if and only if it counts neither files nor folders |
| `SyncPull.InstalledExactly` | nexus-daemon/sync.go:436-603 | a pull reports an installation if and only if the snapshot is newer by LSN or forced, counts files or folders, is plaintext, arrives, opens, is intact, has the manifest's hash or meets LSN 0, and can be moved and opened |
| `SyncPull.MismatchExactly` | nexus-daemon/sync.go:539-549 | a hash mismatch is reported if and only if the device's LSN is not zero and the hash differs; the local database stays |
| `SyncPull.RolledBackExactly` | nexus-daemon/sync.go:566-592 | a rollback is reported exactly if the snapshot in place did not open and the backup did; the local database is then the backup |
| `SyncPull.FailedReplacements` | nexus-daemon/sync.go:566-597 | which files the three other failures of a replacement leave |
| `SyncPull.InstallsExactlyPlaintext` | nexus-daemon/sync.go:506-603 | a wanted snapshot that passes all checks, on a device whose files can be moved and opened, is installed if and only if it is not encrypted; the local database is then the download, and the old one otherwise |
| `SyncPull.EncryptedNeverInstalls` | nexus-daemon/sync.go:506-563 | an encrypted snapshot leaves the local database unchanged in every environment; if it passed all checks, the replacement is what fails |
| `SyncPull.CrashThenPull` | nexus-daemon/sync.go:960-1058 | after an upload that stopped anywhere, a pull leaves the old database or the drive's database with the hash of the drive's manifest |
| `CircuitBreaker.PushBreaker.IsPushSuspended` | nexus-daemon/sync.go:680-697 | suspended exactly before the stored second; an expired suspension is cleared |
| `CircuitBreaker.PushBreaker.RecordPushFailure` | nexus-daemon/sync.go:699-722 | counts, and from the third failure on suspends for fifteen minutes from the whole second |
| `CircuitBreaker.PushBreaker.ResetPushFailures` | nexus-daemon/sync.go:724-732 | clears both entries |
| `CircuitBreaker.SuspendsExactly` | nexus-daemon/sync.go:680-722 | a failing push suspends the next ones exactly from the third in a row on, up to 900 seconds after the whole second |
| `CircuitBreaker.CounterIsTrailingFailures` | nexus-daemon/sync.go:140-161 | over every run the counter is the number of failures since the last success, refused pushes not counting |
| `CircuitBreaker.FailuresInWholeSeconds` | nexus-daemon/sync.go:680-722 | from a zero counter, T seconds without a success see at most 3 + T/900 failing pushes |
| `CircuitBreaker.FailureRateExact` | nexus-daemon/sync.go:713-718 | for an interval of any length the bound holds if and only if rounding it up to whole seconds completes no further fifteen minutes |

## Left out

- Pipeline.Download: the fallbacks for 12-byte prefixes, one-shot and unencrypted data, and the decompression that follows.
- Shards.UploadFile: manifest backups, tar archives, the batching of files, and key derivation; one file key and an optional password layer are parameters.
- Shards.DownloadFile: the lookup in the shard cache, the decoding of single pictures when the stream decoder returns nothing, and the branches for streamed files and for files without a key of their own.
- ShardCache.CacheManager.Get: a file whose status cannot be read for another reason than its absence, which the source takes for a hit.
- ShardCache.CacheManager.Evict: a file that cannot be removed; it would stay on disk without a row.
- ShardCache.CacheManager.EvictIfNeeded: likewise a file that cannot be removed.
- ShardCache.CacheManager.Put: a write that fails half way leaves a damaged file; here a failed write leaves the file as it was. `filepath.Join` is modelled as plain concatenation, so ids with path separators are not covered.
- SyncPush.SyncManager.PushDBToDrive: encrypted snapshots, and edits of the database between the decision and the snapshot (the manifest is taken from the same content that was compared).
- SyncPush.Drive.UploadDBFileToDrive: duplicate files on the drive and their clean-up.
- SyncPull.LocalFiles.PullDBFromDrive: write-ahead-log files beside the live database, the sync log rows a pull adds, and failures to remove temporary files.
- CircuitBreaker.PushBreaker.RecordPushFailure: failures to write the key-value store, and pulls or wipes that replace it.
- Loss.LossyDownload: uploads of at most 2^32 blocks, because "in order" is said of block ids; what the frames carry is given as the kept symbols.
- SyncRuns.OverwritesBounded: a backup copy that broke off half way and is restored counts as an edit, and opening a database is taken to change no rows.
- FrameDirectory.EncodeToFrames: file system errors; frames are written one after another instead of in parallel.
- FrameDirectory.DecodeDirectory: a directory that cannot be listed; frames are read one after another.
- Partial-symbol loss, where payload bytes may spell the marker and a false symbol is read: loss results are about whole symbols.
- Size errors of the encryption library and the counter overflow check of debug builds; the counter wraps as in release builds.
- RaptorQ, zstd, Argon2, AES-GCM and PNG internals, ffmpeg, YouTube and Drive requests, OAuth, HTTP, WebDAV and mounting.
- Task scheduling, password rotation, manifest restore and `MergeManifest`, trash and folder handling in `db.go`.
- The FFI layer, the command-line, desktop and mobile clients.
