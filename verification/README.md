# A verified model of parts of the GNOS kernel

GNOS is a small x86-64 kernel written in C. This project models the parts of it that carry real
invariants and proves what they promise: the gzip decoder, the cryptographic primitives, the EEVDF
scheduler, the tmpfs name space with the lexical path normaliser, the open-file table with pipes,
the mapping records, the TLB shootdown and signal delivery. `dafny verify dfyconfig.toml` checks all
of it.

Code that changes things in place is modelled by classes and methods with loops, each proved against
a function or predicate that says what it computes; what the design promises is then proved about
those functions, or about all runs of a small state machine.

| part | files |
|---|---|
| shared types and arithmetic | Prelude, Arith, Bits, Octets, Words |
| DEFLATE and gzip | BitStream, Huffman, HuffmanTable, Deflate, Inflate, DeflateEncoder, DeflateRoundTrip, DeflateWritten, RefusedStream, Gzip |
| CRC-32, AES-128, SHA-256 | Crc32, AesField, AesSbox, Aes, AesExample, Sha256, Sha256Example |
| EEVDF run queues and scheduling | Treap, TreapLinks, RunQueue, Scheduler |
| paths and tmpfs | Paths, PathNorm, NameTree, TmpfsPool, Tmpfs, TmpfsPaths |
| open files, descriptors, pipes | FileTable, PipeRing, Descriptors, Pipes |
| mapping records | MmapRecords, MmapSettled, MmapReflag, MmapInForce, Mmap |
| TLB shootdown | TlbShootdown |
| signals | SignalFrame, SignalRuns, Signals |

## Where code and promise differ

The model follows the code. In these places the promise does not hold of it as it stands; each line
names what shows it and the exact condition under which the promise holds.

- The decoder refuses a dynamic block without any distance code, which section 3.2.7 of RFC 1951
  allows (`RefusedStream.RefusedThoughValid`, `RefusedStream.RefusedByDecoder`); that is the only RFC-valid thing it refuses
  (`Deflate.StricterExactlyOnEmptyDistance`).
- The comment on the run queue (src/kernel/proc.c:2387-2393) calls a task eligible when it has consumed
  no more than its share. The test `vlag <= 0` accepts the tasks that have run at least as far as the
  clock, and those only (`RunQueues.EligibleHasRun`, `RunQueues.OwedWaits`).
- A task with time left in its slice should keep its deadline when it goes back on its queue
  (src/kernel/proc.c:2645-2647). Queueing it sets a new one, so it keeps the one it was dispatched with
  if and only if nothing was charged and the floor did not move it (`Scheduling.Scheduler.PutBack`).
- A tmpfs rename frees a replaced destination without looking at its open handles and mappings
  (`TmpfsPaths.HeldDestinationIsFreed`; `Tmpfs.Tmpfs.RenamePath` gives the exact condition).
- An entry called "." or ".." can be created or renamed to, and no walk reaches it then
  (`TmpfsPaths.CreateLaw`, `TmpfsPaths.RenameKeepsWalkable`). Calls that look the entry up in its
  directory still find it, so a second rename brings it back
  (`TmpfsPaths.DottedRenameHidesAndReturns`).
- The 32-bit shootdown epoch can wrap onto a stale acknowledgement
  (`TlbShootdown.WrappedEpochIsNotFresh`, `TlbShootdown.FreshIsExact`).
- A pipe end counts as a writer only while its flags are O_WRONLY and nothing else, and F_SETFL adds
  O_NONBLOCK to them. So a read can report the end of the file while a write end is open, and a pipe
  can stay in use with nothing open (`Pipes.EarlyEndOfFile`, `Pipes.LostPipe`). Taking or dropping a
  reference keeps right counts exactly when the file is not a write end with O_NONBLOCK set
  (`FileTable.RefCounts`, `FileTable.UnrefCounts`), and every call keeps them while no open write end
  has it set. A pipe with an open end is never given out again in any case
  (`FileTable.OpenEndIsInUse`).
- `mmap_update_flags` should leave the neighbours of its range alone. On a table without room to split
  it does not (`Mmap.FullTableSpills`, `MmapReflag.ReflagIsExact`). With room to split it can still
  change the protection the page-fault handler goes by outside the range, because the parts it splits
  off go behind newer records (`Mmap.NewerMappingLoses`); `MmapInForce.OutsideStays` and
  `MmapInForce.AmpleOutsideStays` say exactly when it does not.
- `munmap` takes from the oldest record that covers the address, while page faults go by the newest, so
  that a success can leave the span mapped (`Mmap.UnmappedYetCovered`); it does not if and only if no
  other record covers an address of it (`MmapInForce.UnmapClears`).
- `mmap_record` can change which of several overlapping records is the last one, and with it the
  protection the page-fault handler goes by (`Mmap.OldProtectionReturns`). From a table with nothing
  left to merge it does not if and only if it fills no gap or the records that the last one is then
  moved in front of agree with it (`MmapSettled.RecordKeepsInForce`). In any table the same condition
  holds of each merge (`MmapRecords.MergeKeepsInForce`).

## What is abstracted

- Times and virtual times are mathematical integers; process identifiers are distinct within a run
  queue. Output capacities of the decoder are below 2^32 - 1, from where the sum in its capacity test
  (src/lib/gzip.c:262) wraps; the number of frames that a member asks for wraps from a length of
  2^32 - 4095 on (src/lib/gzip.c:465).
- Shootdown steps are sequentially consistent. Each turn of a pipe loop runs with interrupts off and
  is one step; between steps anything else may happen.
- The clock, pending signals, path resolution of `open`, throttling by control groups, the bases of
  shared mappings and the availability of memory are parameters.
- User memory is the main user stack. User code between two kernel entries is arbitrary, except that
  it leaves the frames of running handlers alone and that a handler is interrupted with its stack
  pointer at most a red zone above its frame. `SignalRuns.NeverBlocked` and
  `SignalRuns.ReturnIsConfined` do without these two exceptions.
- Each tmpfs has its own pool and free stack. In the source up to eight mounts share them, so that a
  creation can also fail for want of slots that another mount uses.
- The close-on-exec bitmap is the set of its bits. Of the flags of an open file the model has the access
  mode of pipe ends and O_NONBLOCK. Names are sequences of characters without a
  terminating zero.

## Model

| member | source | states |
|---|---|---|
| `BitStreams.BitStream.ReadBits` | src/lib/gzip.c:65-78 | delivers the next bits least significant first and drops exactly them, or fails exactly when fewer are left, delivering nothing |
| `BitStreams.BitStream.AlignToByte` | src/lib/gzip.c:81-86 | drops exactly the bits up to the next byte boundary of the input |
| `HuffmanCodes.PrefixFree` | src/lib/gzip.c:89-119 | in every accepted length table no code is a prefix of another symbol's code |
| `HuffmanCodes.NextIsUnique` | src/lib/gzip.c:122-144 | at most one symbol can come next in any bit string |
| `HuffmanCodes.DecodeIs` | src/lib/gzip.c:122-144 | the symbol whose code is a prefix of the bits is what decoding them yields |
| `HuffmanCodes.DecodeEncode` | src/lib/gzip.c:89-144 | decoding the concatenated codes of any symbol sequence gives the sequence and the bits after it back |
| `HuffmanTables.HuffmanTable.CountLengths` | src/lib/gzip.c:94-100 | counts the symbols of each length, refusing lengths above 15 |
| `HuffmanTables.HuffmanTable.CheckSubscription` | src/lib/gzip.c:104-108 | succeeds exactly when no length has more codes than fit |
| `HuffmanTables.HuffmanTable.SymbolOffsets` | src/lib/gzip.c:110-112 | the first table position of each length is the number of shorter codes |
| `HuffmanTables.HuffmanTable.FillSymbols` | src/lib/gzip.c:113-117 | every used symbol stands at its position by length, then number |
| `HuffmanTables.HuffmanTable.Build` | src/lib/gzip.c:89-119 | succeeds exactly on the accepted length tables (at least one code, none too many) and then represents them |
| `HuffmanTables.MatchAt` | src/lib/gzip.c:134-138 | a value inside the codes of one length names the symbol at the computed table position |
| `HuffmanTables.NoMatchAt` | src/lib/gzip.c:134-141 | a value past the codes of one length rules out every symbol of that length |
| `HuffmanTables.DecodeSymbol` | src/lib/gzip.c:122-144 | returns the symbol whose canonical code comes next and consumes exactly that code; fails exactly when no code is a prefix of the bits left |
| `Deflate.FixedCodesAccepted` | src/lib/gzip.c:147-167 | the two fixed length tables are accepted |
| `Deflate.CopyIsSlice` | src/lib/gzip.c:309-313 | when the distance is at least the length, the byte-by-byte match equals one bulk copy |
| `Deflate.CopyIsPeriodic` | src/lib/gzip.c:314-318 | an overlapping match repeats the last bytes of the output with the distance as its period |
| `Deflate.StrictIsRfc` | src/lib/gzip.c:245-376 | whatever the decoder's rule gives a meaning has the same meaning under RFC 1951 |
| `Deflate.StricterExactlyOnEmptyDistance` | src/lib/gzip.c:101-102 | a stream with an RFC meaning is refused if and only if some dynamic block that its decoding meets has no distance code at all |
| `Deflate.EmptyDistanceCodeRefused` | src/lib/gzip.c:101-102 | such a code is legal under section 3.2.7 of RFC 1951 and refused here, by a concrete length table |
| `RefusedStream.RefusedThoughValid` | src/lib/gzip.c:101-102 | twelve bytes, one empty dynamic block with a complete code of the code lengths, that RFC 1951 decodes to nothing and that have no meaning for the decoder |
| `RefusedStream.RefusedByDecoder` | src/lib/gzip.c:344-376 | the decoder refuses them, whatever the buffer |
| `RefusedStream.BitsOfBytes` | src/lib/gzip.c:65-78 | a byte string is read as the bits of its little-endian number |
| `RefusedStream.FieldsOfNumber` | src/lib/gzip.c:191-198 | three-bit fields packed into a number are read back, with the number above them |
| `DeflateEncoder.FieldOf` | src/lib/gzip.c:65-78 | a number written least significant bit first is read back, with the bits after it |
| `DeflateEncoder.DecodeCode` | src/lib/gzip.c:122-144 | a code followed by any bits decodes to its symbol and those bits |
| `DeflateEncoder.SlotOf` | src/lib/gzip.c:45-62 | the closed form of a class of numbers: a number is the start of its class plus an offset that the extra bits of the class hold |
| `DeflateEncoder.LengthTable` | src/lib/gzip.c:45-52 | the base and extra bits of every length symbol are the closed form, and the last one stands for 258 |
| `DeflateEncoder.DistanceTable` | src/lib/gzip.c:54-62 | the base and extra bits of every distance symbol are the closed form |
| `DeflateEncoder.OrderTable` | src/lib/gzip.c:172-173 | the order in which the lengths of the code-length code are sent |
| `DeflateEncoder.RepeatedIsCopy` | src/lib/gzip.c:314-318 | appending one byte at a time is the match |
| `DeflateEncoder.ItemsRead` | src/lib/gzip.c:245-320 | literals and pairs of any length from 3 to 258 and distance from 1 to 32768, written with any codes that have the symbols, read back as the bytes they expand to |
| `DeflateRoundTrip.FixedLiteralIs` | src/lib/gzip.c:153-160 | the fixed code of every literal and length symbol, bit for bit as the table of section 3.2.6 of RFC 1951 gives it |
| `DeflateRoundTrip.FixedDistanceIs` | src/lib/gzip.c:161-162 | a fixed distance code is its number in five bits |
| `DeflateRoundTrip.RunsRead` | src/lib/gzip.c:199-236 | runs that repeat the last length 3 to 6 times, or zero 3 to 138 times, read back as the lengths they stand for |
| `DeflateRoundTrip.LengthCodeRead` | src/lib/gzip.c:191-198 | the lengths of the code-length code, sent in their order as far as any is not zero, read back |
| `DeflateRoundTrip.HeaderRead` | src/lib/gzip.c:169-242 | so does the header of a dynamic block |
| `DeflateRoundTrip.StoredRead` | src/lib/gzip.c:323-341 | stored bytes read back, whatever bits fill up the byte before them |
| `DeflateRoundTrip.BlockRead` | src/lib/gzip.c:352-371 | every block of the three kinds reads back as what it means |
| `DeflateRoundTrip.StreamRead` | src/lib/gzip.c:344-376 | the round trip: a stream of any such blocks decodes to the bytes that they mean one after the other, and what follows it is left |
| `DeflateRoundTrip.InflateEncoded` | src/lib/gzip.c:344-376 | the decoder turns such a stream into those bytes exactly when they fit |
| `DeflateWritten.NumberOf` | src/lib/gzip.c:45-62 | every symbol and value of its extra bits stand for exactly one number |
| `DeflateWritten.ItemsWritten` | src/lib/gzip.c:245-320 | whatever a compressed block decodes to, its bits are the codes of literals and pairs, and those expand to it |
| `DeflateWritten.HeaderWritten` | src/lib/gzip.c:169-242 | whatever dynamic header is accepted is one that the encoder writes |
| `DeflateWritten.StreamMeansExactly` | src/lib/gzip.c:344-376 | a bit string has a meaning if and only if it is a stream of well-formed blocks and the bits left over, and the meaning is what they say: the decoder accepts nothing else |
| `Inflate.BuildFixedTables` | src/lib/gzip.c:147-167 | builds the tables of the fixed codes |
| `Inflate.CopyMatch` | src/lib/gzip.c:309-318 | the output grows by exactly the one-byte LZ77 rule, whichever of the two ways of copying is taken |
| `Inflate.ReadCodeLengthCode` | src/lib/gzip.c:191-198 | reads the code-length code in its permuted order |
| `Inflate.ReadRun` | src/lib/gzip.c:211-229 | the three repeat instructions, with their bases and extra bits |
| `Inflate.ReadCodedLengths` | src/lib/gzip.c:199-236 | reads the run-length coded lengths, refusing a run past the end |
| `Inflate.BuildDynamicTables` | src/lib/gzip.c:169-242 | succeeds exactly when the bits are a dynamic header with usable codes, and builds their tables |
| `Inflate.InflateMatch` | src/lib/gzip.c:277-318 | one length-distance pair: its meaning, or failure when it is malformed, reaches before the output or past the capacity; what the symbols mean is `DeflateEncoder.LengthTable` and `DeflateEncoder.DistanceTable` |
| `Inflate.InflateCompressedBlock` | src/lib/gzip.c:245-320 | a whole block with literals written sixteen at a time: success exactly when the block has a meaning that fits, and then the output is that meaning; the bits left bound the number of turns |
| `Inflate.InflateStoredBlock` | src/lib/gzip.c:323-341 | a stored block: success exactly when its lengths agree and it fits |
| `Inflate.InflateBlock` | src/lib/gzip.c:352-371 | dispatch on the block type |
| `Inflate.InflateData` | src/lib/gzip.c:344-376 | success exactly when the stream has a meaning that fits the capacity; the output then is that meaning and nothing beyond the capacity is written; `DeflateWritten.StreamMeansExactly` says which streams have which |
| `Gzip.SkipZeroTerminatedField` | src/lib/gzip.c:396-404 | moves past the first zero byte, or fails exactly when there is none before the trailer |
| `Gzip.SkipExtraField` | src/lib/gzip.c:423-436 | moves past the extra field, or fails exactly when it reaches into the trailer |
| `Gzip.ParseHeader` | src/lib/gzip.c:407-459 | accepts exactly the well-formed headers and finds where the compressed data starts |
| `Gzip.Decompress` | src/lib/gzip.c:407-487 | returns the contents exactly when header, stream, length and checksum are right |
| `Gzip.HeaderRead` | src/lib/gzip.c:410-459 | every header with any combination of optional fields is parsed to its end |
| `Gzip.MemberMeansContents` | src/lib/gzip.c:407-487 | a member assembled from a header, a compressed stream, its checksum and its length decompresses to what the stream means |
| `Crc32.ShiftsXor` | src/crypto/crypto.c:137-146 | the bit-by-bit remainder step is linear over exclusive or |
| `Crc32.PolynomialIs` | src/crypto/crypto.c:137-146 | the constant is the polynomial of CRC-32 with its coefficients reflected |
| `Crc32.CheckValue` | src/crypto/crypto.c:148-157 | the checksum of the digits 1 to 9 is the check value CBF43926 |
| `Crc32.TableStep` | src/crypto/crypto.c:152-156 | one table look-up equals eight bit steps |
| `Crc32.BitwiseCrc` | src/lib/gzip.c:379-388 | computes the CRC-32 remainder bit by bit, branch-free |
| `Crc32.CrcTable.Init` | src/crypto/crypto.c:137-146 | fills the table with the remainders of the 256 bytes |
| `Crc32.CrcTable.Checksum` | src/crypto/crypto.c:148-157 | the table-driven checksum equals the same CRC-32 on every byte string, so it agrees with the bitwise one |
| `AesField.MultiplyXor` | src/crypto/crypto.c:179-190 | multiplication in GF(2^8) distributes over addition |
| `AesField.Gmul` | src/crypto/crypto.c:179-190 | the shift-and-add loop computes the product in GF(2^8) |
| `AesField.SboxInverse` | src/crypto/crypto.c:161-177 | the S-box and its inverse undo each other on all 256 bytes, in both directions |
| `AesSbox.SboxIsAffine` | src/crypto/crypto.c:161-177 | each of the 256 entries is the affine map of FIPS 197 applied to the inverse in GF(2^8), or to zero at zero |
| `Aes.MixInverse` | src/crypto/crypto.c:233-255 | the inverse column mix undoes the column mix on every column |
| `Aes.MixColumnsInverse` | src/crypto/crypto.c:233-255 | the same for whole blocks |
| `Aes.InvShiftRowsAfter` | src/crypto/crypto.c:296-300 | the inverse row shift undoes the row shift |
| `Aes.InvRoundsFollow` | src/crypto/crypto.c:257-315 | each inverse round undoes the matching round |
| `Aes.DecryptEncrypt` | src/crypto/crypto.c:257-315 | decrypting an encrypted block returns it, for every block and every 44 round-key words |
| `Aes.InvMixInverse` | src/crypto/crypto.c:233-255 | the column mix undoes the inverse column mix on every column |
| `Aes.RoundsFollow` | src/crypto/crypto.c:257-315 | each round undoes the matching inverse round |
| `Aes.EncryptDecrypt` | src/crypto/crypto.c:257-315 | encrypting a decrypted block returns it, for every block and every 44 round-key words |
| `Aes.AddRoundKeyInPlace` | src/crypto/crypto.c:211-219 | adds four round-key words to the state |
| `Aes.KeyBytes` | src/crypto/crypto.c:211-219 | a round-key word is used as the big-endian number of its four bytes |
| `AesExample.RowsAre` | src/crypto/crypto.c:266-271 | which byte of the state each byte comes from after the row shift |
| `AesExample.EncryptedExample` | src/crypto/crypto.c:257-284 | the block of appendix B of FIPS 197 under its round keys encrypts, round by round, to the block given there |
| `Aes.ShiftRowsInPlace` | src/crypto/crypto.c:266-271 | rotates row r of the state left by r |
| `Aes.InvShiftRowsInPlace` | src/crypto/crypto.c:296-300 | rotates row r of the state right by r |
| `Aes.MixColumnsInPlace` | src/crypto/crypto.c:233-243 | mixes every column |
| `Aes.InvMixColumnsInPlace` | src/crypto/crypto.c:245-255 | unmixes every column |
| `Aes.EncryptBlock` | src/crypto/crypto.c:257-284 | the in-place rounds compute the cipher |
| `Aes.InverseTable.Init` | src/crypto/crypto.c:226-231 | inverting the S-box in place yields the inverse S-box, whatever order the entries are written in |
| `Aes.InverseTable.DecryptBlock` | src/crypto/crypto.c:286-315 | the in-place rounds compute the inverse cipher |
| `Sha256.ZeroCountLeast` | src/crypto/crypto.c:107-110 | the padding uses the least number of zero bytes that leaves room for the length |
| `Sha256.PadFillsBlocks` | src/crypto/crypto.c:103-122 | a padded message is a whole number of blocks |
| `Sha256.PadEndsWithLength` | src/crypto/crypto.c:111-114 | the padding ends with the exact bit length of any message within the limit of FIPS 180-4 |
| `Sha256.BigEndianRoundTrip` | src/crypto/crypto.c:111-114 | the length bytes read back as the length |
| `Sha256.FoldConcat` | src/crypto/crypto.c:84-101 | folding the compression function over a concatenation is folding it over the parts in turn |
| `Sha256.ChChooses` | src/crypto/crypto.c:51-51 | the choice function takes each bit from its second or third argument as the first one says |
| `Sha256.MajAgrees` | src/crypto/crypto.c:54-54 | the majority function |
| `Sha256.RotrIs` | src/crypto/crypto.c:30-33 | a rotation is undone by the opposite one and moves bit 0 to bit 32 - n |
| `Sha256Example.DigestOfAbc` | src/crypto/crypto.c:75-130 | the digest of "abc", all 64 rounds of its one block, is that of FIPS 180-4 |
| `Sha256.Context.constructor` | src/crypto/crypto.c:75-82 | a fresh context holds the empty message |
| `Sha256.Context.ExpandSchedule` | src/crypto/crypto.c:36-46 | computes the 64 schedule words of a block |
| `Sha256.RunRounds` | src/crypto/crypto.c:47-64 | the 64 rounds on eight working variables |
| `Sha256.Context.CompressBlock` | src/crypto/crypto.c:35-73 | computes the compression function of FIPS 180-4, whose constants and round functions `Sha256Example.DigestOfAbc` pins down |
| `Sha256.Context.Update` | src/crypto/crypto.c:84-101 | after an update the context holds the message so far followed by the chunk |
| `Sha256.Context.FeedZeros` | src/crypto/crypto.c:107-110 | the padding loop ends after exactly the specified number of zero bytes |
| `Sha256.Context.Final` | src/crypto/crypto.c:103-122 | returns the digest of the message held |
| `Sha256.DigestOfChunks` | src/crypto/crypto.c:75-130 | for every way of cutting a message into chunks the digest is that of the whole message |
| `Treap.MergeInOrder` | src/kernel/proc.c:2401-2413 | merging keeps the order of both trees |
| `Treap.InsertInOrder` | src/kernel/proc.c:2415-2439 | insertion puts the task at its place in the order and moves nothing else |
| `Treap.DeleteInOrder` | src/kernel/proc.c:2441-2452 | deletion takes exactly that task out of the order |
| `Treap.LeftmostIsFirst` | src/kernel/proc.c:2454-2459 | the leftmost node is the first task of the order |
| `Treap.MergeHeap` | src/kernel/proc.c:2401-2413 | merging keeps the heap order |
| `Treap.InsertHeap` | src/kernel/proc.c:2415-2439 | insertion keeps the heap order |
| `Treap.DeleteHeap` | src/kernel/proc.c:2441-2452 | deletion keeps the heap order |
| `TreapLinks.TrMerge` | src/kernel/proc.c:2401-2413 | rewrites the links so that they form the merged tree and no other link changes |
| `TreapLinks.TrInsert` | src/kernel/proc.c:2415-2439 | rewrites the links so that they form the tree with the task inserted |
| `TreapLinks.TrDelete` | src/kernel/proc.c:2441-2452 | rewrites the links so that they form the tree without the task |
| `TreapLinks.TrLeftmost` | src/kernel/proc.c:2454-2459 | follows left links to the first task |
| `RunQueues.BestIsUnique` | src/kernel/proc.c:2512-2528 | the description of the best task leaves no choice |
| `RunQueues.EligibleHasRun` | src/kernel/proc.c:2470-2473 | a task counts as eligible if and only if it has run at least as far as the clock |
| `RunQueues.OwedWaits` | src/kernel/proc.c:2463-2479 | while such a task is queued no task that is behind the clock is picked |
| `RunQueues.ScanChoosesBest` | src/kernel/proc.c:2463-2479 | a linear scan in deadline order chooses the best task |
| `RunQueues.ScanSettled` | src/kernel/proc.c:2463-2479 | once both candidates are found, what is left of the scan cannot change an eligible choice |
| `RunQueues.TrPick` | src/kernel/proc.c:2463-2479 | the recursive walk, cut short, agrees with the linear scan |
| `RunQueues.RunQueue.RaiseFloor` | src/kernel/proc.c:2494-2496 | the placement floor rises to the leftmost task and never falls |
| `RunQueues.RunQueue.Enqueue` | src/kernel/proc.c:2481-2497 | places the task by its lag but not below the floor, gives it a deadline one slice later, and adds exactly it; the count is the size and the floor is below every task |
| `RunQueues.RunQueue.Remove` | src/kernel/proc.c:2499-2507 | takes exactly one task off and keeps every invariant |
| `RunQueues.RunQueue.PickBest` | src/kernel/proc.c:2512-2528 | removes and returns the eligible task least in (deadline, pid) or, with none eligible, the one with the smallest lag, earliest among equals; it is the only one gone and its lag is taken on this clock |
| `Scheduling.DefaultWeightIsRealTime` | src/kernel/proc.c:261-266 | at the default weight the virtual time charged is real time |
| `Scheduling.HeavierAgesSlower` | src/kernel/proc.c:261-266 | of two tasks that run equally long the heavier ages no faster |
| `Scheduling.ChargeIs` | src/kernel/proc.c:261-266 | the charge is the real time over the weight, rounded down |
| `Scheduling.Scheduler.Fullest` | src/kernel/proc.c:2666-2672 | finds a fullest other queue, or none exactly when all others are empty |
| `Scheduling.Scheduler.Steal` | src/kernel/proc.c:2665-2682 | takes the best task of a fullest other queue and keeps its lag on the new clock; no other task and no clock changes |
| `Scheduling.Scheduler.PickNext` | src/kernel/proc.c:2661-2682 | finds no task only when all queues are empty; otherwise takes the best of the own queue or, if that is empty, the best of a fullest other one with its lag kept |
| `Scheduling.Scheduler.Account` | src/kernel/proc.c:2633-2642 | charges virtual time by weight and advances the clock by real time; at the default weight running leaves the lag alone |
| `Scheduling.Scheduler.PutBack` | src/kernel/proc.c:2633-2656 | charges the outgoing task, then queues it at its charged virtual runtime but not below the floor; the deadline it was dispatched with is kept if and only if nothing was charged and the floor did not move it |
| `Scheduling.Scheduler.Schedule` | src/kernel/proc.c:2623-2723 | nothing is lost or duplicated: the queued tasks, with the outgoing one if it stays runnable, are the chosen one and those queued after; the outgoing one is charged and the clock advanced; the one chosen is the best of what is queued on this CPU once the outgoing one is back or, with nothing there, the best of a fullest other queue with its lag kept |
| `Paths.ComponentsConcat` | src/kernel/syscall.c:106-174 | splitting a path at a slash splits its components |
| `Paths.ComponentsPrint` | src/kernel/syscall.c:106-174 | a canonical path has exactly the components it was printed from |
| `PathNorm.SpliceInto` | src/kernel/syscall.c:111-133 | an absolute path stands by itself, a relative one follows its base; fails exactly when the buffer is too small |
| `PathNorm.PopComponent` | src/kernel/syscall.c:153-159 | takes the last component off the output, stopping at the root |
| `PathNorm.PushComponent` | src/kernel/syscall.c:161-169 | adds a component and its separator, or fails exactly when the buffer is too small |
| `PathNorm.PathNorm` | src/kernel/syscall.c:106-174 | equals folding the components onto a stack and printing it, failing exactly when an intermediate result does not fit |
| `PathNorm.NormIsCanonical` | src/kernel/syscall.c:106-174 | the result is canonical: ".." never leaves the root and no empty, "." or ".." component is left |
| `PathNorm.NormSteps` | src/kernel/syscall.c:136-170 | a last component goes one level down, "." stays, ".." goes one level up and from the root nowhere |
| `PathNorm.NormStarts` | src/kernel/syscall.c:111-133 | an absolute path ignores its base, an empty one is the base |
| `PathNorm.CanonicalStartsAtRoot` | src/kernel/syscall.c:106-174 | a canonical path starts with a slash and ends with one only if it is the root |
| `PathNorm.NormIdempotent` | src/kernel/syscall.c:106-174 | normalising twice is normalising once |
| `PathNorm.NormComposes` | src/kernel/syscall.c:106-204 | normalising a relative path against a normalised one is normalising the joined path |
| `PathNorm.AbsoluteFits` | src/kernel/syscall.c:106-174 | from an absolute base the only failure is a spliced path longer than the buffer |
| `NameTree.PathIsUnique` | src/fs/tmpfs.c:242-274 | to each node leads exactly one path of names |
| `NameTree.UnderIsPrefix` | src/fs/tmpfs.c:805-854 | being inside a directory is having its path as a prefix |
| `NameTree.RenameWellFormed` | src/fs/tmpfs.c:805-854 | a rename that is allowed leaves a tree: no cycle, distinct sibling names |
| `NameTree.RenameLookup` | src/fs/tmpfs.c:805-854 | what every path names after a rename, replacing or not |
| `NameTree.VisitFollowsFold` | src/fs/tmpfs.c:242-274 | a walk through "." and ".." ends where its folded path leads |
| `TmpfsPool.AddRepresents` | src/fs/tmpfs.c:573-696 | pushing a node on a child list keeps parent links and child lists in step with the tree |
| `TmpfsPool.DropRepresents` | src/fs/tmpfs.c:227-240 | so does cutting a childless node out |
| `TmpfsPool.MoveRepresents` | src/fs/tmpfs.c:847-853 | so does moving a node |
| `Tmpfs.Tmpfs.constructor` | src/fs/tmpfs.c:78-114 | a new file system is a root with no entries, no open handle, and a stack that holds every slot but the root once |
| `Tmpfs.Tmpfs.FindChild` | src/fs/tmpfs.c:219-225 | finds the entry of that name exactly when there is one |
| `Tmpfs.Tmpfs.Walk` | src/fs/tmpfs.c:242-274 | ends at the node the components lead to, or fails exactly when one is missing |
| `Tmpfs.Tmpfs.SplitParent` | src/fs/tmpfs.c:279-306 | finds the directory and the last component |
| `Tmpfs.Detach` | src/fs/tmpfs.c:227-240 | takes exactly one node out of a sibling list |
| `Tmpfs.MakeAllowed` | src/fs/tmpfs.c:573-619 | a creation is allowed if and only if the directory exists and is one, the name is not taken, and a slot and memory are free |
| `Tmpfs.Tmpfs.MakeNode` | src/fs/tmpfs.c:88-98 | adds one node from the free stack; every failure leaves the tree as it was |
| `Tmpfs.Tmpfs.Mkdir` | src/fs/tmpfs.c:573-595 | creates a directory, or fails with the right error and changes nothing |
| `Tmpfs.Tmpfs.CreateFile` | src/fs/tmpfs.c:597-619 | creates a file, or returns the right error |
| `Tmpfs.Tmpfs.MakeSymlink` | src/fs/tmpfs.c:666-696 | creates a symbolic link, or fails and changes nothing |
| `Tmpfs.Tmpfs.Unlink` | src/fs/tmpfs.c:621-644 | removes a non-directory, and succeeds exactly when the path names one; its slot is freed exactly when nothing holds it |
| `Tmpfs.Tmpfs.Rmdir` | src/fs/tmpfs.c:646-664 | removes an empty directory, and succeeds exactly when the path names one; fails with the right error and changes nothing |
| `Tmpfs.Tmpfs.IsAncestor` | src/fs/tmpfs.c:823-827 | walking up from the destination finds whether it lies inside the source |
| `Tmpfs.RenameAllowed` | src/fs/tmpfs.c:809-842 | a rename is allowed if and only if both paths have a last component, the source exists, the destination directory exists, is a directory and is not inside the source, and an existing destination is the source itself, or is a directory exactly if the source is and has no entries |
| `Tmpfs.ReplaceRefused` | src/fs/tmpfs.c:833-842 | which error each refused replacement gets |
| `Tmpfs.Tmpfs.CheckRename` | src/fs/tmpfs.c:809-842 | every refusal, in the order of the checks; a rename that passes replaces a directory by a directory or a non-directory by a non-directory |
| `Tmpfs.Tmpfs.RenamePath` | src/fs/tmpfs.c:805-854 | the tree stays a tree and failures change nothing; what is replaced is a childless directory if the source is a directory and none otherwise; it is freed, and reference counts stay right if and only if it has no open handle and no mapping |
| `Tmpfs.Tmpfs.Retain` | src/fs/tmpfs.c:489-500 | one more open handle |
| `Tmpfs.Tmpfs.Release` | src/fs/tmpfs.c:468-478 | the last handle frees a detached node that nothing maps |
| `Tmpfs.Tmpfs.AddMapper` | src/fs/tmpfs.c:192-196 | one more mapping |
| `Tmpfs.Tmpfs.PutMapper` | src/fs/tmpfs.c:198-205 | the last mapping frees a detached node that nothing has open |
| `TmpfsPaths.WalkAgreesWithNorm` | src/fs/tmpfs.c:242-274 | wherever the walk of a raw path reaches a node, the walk of its normal form reaches the same node |
| `TmpfsPaths.SplitComponents` | src/fs/tmpfs.c:279-306 | an absolute path splits into a parent and its last component |
| `TmpfsPaths.CreateLaw` | src/fs/tmpfs.c:573-619 | of the canonical paths, afterwards the new one leads to the new node and no other changes; none leads to an entry called "." or ".." |
| `TmpfsPaths.AddVisit` | src/fs/tmpfs.c:573-619 | a walk of any path, with dots or not, that reached a node before reaches the same node afterwards |
| `TmpfsPaths.CreatedIsEntry` | src/fs/tmpfs.c:597-619 | whatever it is called, the name-space calls find the new entry under its path |
| `TmpfsPaths.RemoveLaw` | src/fs/tmpfs.c:621-664 | of the canonical paths, afterwards that one names nothing and no other changes |
| `TmpfsPaths.RenameLaw` | src/fs/tmpfs.c:805-854 | of the canonical paths, dst/suffix names what src/suffix named, src/suffix names nothing, and no other changes |
| `TmpfsPaths.RenamePathLaw` | src/fs/tmpfs.c:805-854 | the same of the file system object after a successful rename |
| `TmpfsPaths.RenameKeepsWalkable` | src/fs/tmpfs.c:805-854 | after a rename some walk, of whatever path, reaches the node if and only if the last component of the destination is not "." or ".." |
| `TmpfsPaths.RenamedIsEntry` | src/fs/tmpfs.c:805-854 | whatever it is called, the name-space calls find the node under the destination path, if the way to its directory does not step up |
| `TmpfsPaths.DottedRenameHidesAndReturns` | src/fs/tmpfs.c:805-854 | with a single file "/a", renaming it to "/." succeeds and no walk reaches it; renaming "/." to "/b" then succeeds and a walk reaches it again |
| `TmpfsPaths.HeldDestinationIsFreed` | src/fs/tmpfs.c:833-845 | a run of calls after which the slot of an open file is free: two files are created, the second is opened, the first is renamed to it |
| `TlbShootdown.StepKeepsInv` | src/kernel/smp.c:52-103 | every step keeps the lock exclusive, the holder's epoch current and the active flag up while it waits |
| `TlbShootdown.OwedIsPaid` | src/kernel/smp.c:74-88 | a call that still owes a reload from a CPU cannot return before that CPU reloads |
| `TlbShootdown.RunBehind` | src/kernel/smp.c:62-65 | while the counter has not wrapped no acknowledgement runs ahead of it |
| `TlbShootdown.EveryReturnIsPaid` | src/kernel/smp.c:52-103 | over any interleaving from the start, when a shootdown returns normally every other CPU online at its publication has reloaded CR3 since, as long as fewer than 2^32 epochs were taken |
| `TlbShootdown.FreshIsExact` | src/kernel/smp.c:62-88 | just after a publication every normal return is preceded by the reloads if and only if no other online CPU has, or is about to store, the same epoch as its acknowledgement |
| `TlbShootdown.ReturnWithout` | src/kernel/smp.c:74-88 | with a stale acknowledgement in place the call can return without that CPU |
| `TlbShootdown.WrappedEpochIsNotFresh` | src/kernel/smp.c:62-65 | the 32-bit counter can wrap onto a stale acknowledgement: a reachable run of 2^32 shootdowns on two CPUs |
| `SignalFrame.Layout` | src/kernel/signal.c:184-190 | a frame that fits lies below its floating-point state, both below the red zone, and its base is 8 modulo 16 |
| `SignalFrame.CatchableOk` | src/kernel/syscall.c:4652-4652 | filtering a mask removes SIGKILL and SIGSTOP and nothing else from a mask without them |
| `SignalFrame.MaskOkMeans` | src/kernel/syscall.c:4556-4556 | a filtered mask is one that blocks neither SIGKILL nor SIGSTOP |
| `SignalFrame.RewindIs` | src/kernel/signal.c:138-176 | an interrupted call is issued again, two bytes back with its number in RAX and nothing else changed, exactly if it came through the system-call vector, reports EINTR, the handler asks for it, and it is none of the five that never restart |
| `SignalFrame.FilterIs` | src/kernel/signal.c:304-378 | of the floating-point state filtering clears the reserved half and the denormals bit of MXCSR and nothing else |
| `SignalFrame.FrameContinues` | src/kernel/signal.c:224-268 | what a frame saves, in the order of the ABI, is what it resumes |
| `SignalRuns.DeliveryPushes` | src/kernel/signal.c:178-302 | delivery leaves an intact frame on the stack |
| `SignalFrame.HandlerBlocks` | src/kernel/signal.c:277-283 | while a handler runs, of the signals that can be blocked exactly those are that were before, that it asks for, or that it handles |
| `SignalRuns.HandlerStarts` | src/kernel/signal.c:270-300 | a handler starts with its return address on top of the stack, its arguments at the siginfo and context inside its frame, RAX zero, the direction and trap flags clear and, if asked for, its action reset |
| `SignalRuns.HandlerSees` | src/kernel/signal.c:224-268 | the general registers and RIP that the context shows a handler are those of the interrupted process, rewound or not, each in its place |
| `SignalRuns.DeliverySpares` | src/kernel/signal.c:178-302 | delivery writes nothing else: not the red zone, not the stack above it, not what lies below the frame |
| `SignalRuns.ReturnResumes` | src/kernel/signal.c:304-378 | returning through an intact frame resumes its registers, mask and floating-point state |
| `SignalRuns.StepKeepsInv` | src/kernel/signal.c:178-378 | every step keeps live frames intact and apart and SIGKILL and SIGSTOP unblocked |
| `SignalRuns.ReachableIsSafe` | src/kernel/signal.c:178-378 | in every state a process reaches that leaves its live frames alone and returns through them in turn, SIGKILL and SIGSTOP are not blocked, live frames are intact, do not overlap each other or a red zone, and have bases 8 modulo 16 |
| `SignalRuns.NeverBlocked` | src/kernel/signal.c:178-378 | in every state any process reaches, with forged frames and jumps out of handlers, SIGKILL and SIGSTOP are not blocked |
| `SignalRuns.ReturnIsConfined` | src/kernel/signal.c:304-378 | a return through any frame contents leaves user selectors, permitted flags, user RIP and RSP, a filtered mask and a valid MXCSR |
| `SignalRuns.ReturnIsClean` | src/kernel/signal.c:304-378 | it leaves bits 9 and 19 of the mask and the reserved bits of MXCSR clear |
| `SignalRuns.HandlerReturns` | src/kernel/signal.c:163-378 | after any well-nested run of a handler a process with an interrupted call that restarts is back two bytes before it with its number in RAX and all other registers as at delivery; otherwise every general register, RIP, RSP and the permitted flags are as at delivery; the mask is the one in force then or the one before a sigsuspend |
| `Signals.Process.MaybeRestart` | src/kernel/signal.c:163-176 | goes two bytes back and puts the call number in RAX, changing no other register, exactly under the four conditions; otherwise changes nothing |
| `Signals.Process.Deliver` | src/kernel/signal.c:178-302 | delivers exactly when the frame fits; a refusal changes only the rewound registers |
| `Signals.Process.SigReturn` | src/kernel/signal.c:304-378 | resumes from the frame, or kills exactly when the frame or its targets are outside user memory |
| `Signals.Process.Sigprocmask` | src/kernel/syscall.c:4616-4654 | is the mask step of the signal machine: the three ways to change the mask, filtered; returns the mask before |
| `SignalRuns.MaskedBlocks` | src/kernel/syscall.c:4616-4654 | what each of the three ways does to each signal that can be blocked |
| `Signals.Process.Sigsuspend` | src/kernel/syscall.c:4688-4702 | is the suspend step of the signal machine; the mask a handler that ends the wait returns to is the one before the call, and SIGKILL and SIGSTOP stay unblocked |
| `SignalRuns.SuspendReturns` | src/kernel/syscall.c:4688-4702 | however long the wait, once the handler of the signal that ends it has returned the mask before the call is in force again |
| `FileTable.RefKeepsTables` | src/fs/vfs.c:2067-2081 | whatever the flags of the file, taking a reference keeps readers and writers together at least the references of the two ends, and a pipe in use exactly while it has any |
| `FileTable.UnrefKeepsTables` | src/fs/vfs.c:2083-2142 | so does dropping one, which releases the pipe only with its last end |
| `FileTable.RefCounts` | src/fs/vfs.c:2067-2081 | from counts that equal the references of the two ends, taking a reference leaves such counts if and only if the file is not a write end with O_NONBLOCK set |
| `FileTable.UnrefCounts` | src/fs/vfs.c:2083-2142 | the same of dropping one |
| `FileTable.StaysRight` | src/fs/vfs.c:2067-2142 | while no open write end has O_NONBLOCK set, right counts stay right |
| `FileTable.SetFlagOk` | src/fs/vfs.c:1835-1841 | F_SETFL moves no count; it leaves the way open to wrong ones exactly when it sets O_NONBLOCK on a write end |
| `FileTable.HoldOk` | src/kernel/syscall.c:499-523 | a descriptor that takes a reference keeps every count equal to the number of descriptors |
| `FileTable.LetGoOk` | src/kernel/syscall.c:760-770 | so does one that lets go |
| `FileTable.UncountedEndHasNoDescriptor` | src/fs/vfs.c:186-191 | if the counts are right, an end with no count left is named by no descriptor of any process |
| `FileTable.OpenEndIsInUse` | src/fs/vfs.c:1996-2001 | right counts or not, a pipe that some descriptor is onto is in use, so it is not given out again |
| `Descriptors.Kernel.constructor` | src/fs/vfs.c:258-263 | an empty table with no process is consistent, its counts are right and its rings empty |
| `Descriptors.Kernel.Spawn` | src/kernel/proc.c:342-386 | a process slot starts with no descriptor and no flag |
| `Descriptors.Kernel.FileRef` | src/fs/vfs.c:2067-2081 | what taking a reference does; a pipe end counts as a writer only if its flags are O_WRONLY and nothing else |
| `Descriptors.Kernel.FileUnref` | src/fs/vfs.c:2083-2142 | what dropping a reference does, with the same test |
| `Descriptors.Kernel.SlotAlloc` | src/fs/vfs.c:1679-1685 | the lowest free file slot, or the error exactly when there is none |
| `Descriptors.Kernel.FdAlloc` | src/kernel/syscall.c:215-227 | the lowest free descriptor, with its flag cleared |
| `Descriptors.Kernel.Open` | src/kernel/syscall.c:298-365 | fails exactly for the four reasons given; the counts stay right on success and on every rollback |
| `Descriptors.Kernel.Close` | src/kernel/syscall.c:760-770 | frees the descriptor, its flag and its reference; right pipe counts stay right if and only if it was not onto a write end with O_NONBLOCK set |
| `Descriptors.Kernel.CloseRange` | src/kernel/syscall.c:499-523 | closes, or flags, exactly the open descriptors in the range; only the lower 32 flag bits are checked |
| `Descriptors.Kernel.Dup` | src/kernel/syscall.c:773-784 | the lowest free descriptor becomes another name of the file; right pipe counts stay right if and only if that is not a write end with O_NONBLOCK set |
| `Descriptors.Kernel.DupOnto` | src/kernel/syscall.c:786-808 | the new descriptor lets go of its file and names the old one's, with its own flag |
| `Descriptors.Kernel.Dup3` | src/kernel/syscall.c:820-827 | refuses unknown flags and equal descriptors, otherwise renames as dup2 does with the flag asked for; a refusal changes nothing |
| `Descriptors.Kernel.FcntlDup` | src/kernel/syscall.c:694-711 | the lowest free descriptor from the argument on |
| `Descriptors.Kernel.SetCloexec` | src/kernel/syscall.c:717-724 | flags an open descriptor |
| `Descriptors.Kernel.SetNonblock` | src/kernel/syscall.c:735-753 | changes one flag of the file and no count |
| `Descriptors.Kernel.ClaimEnds` | src/fs/vfs.c:1993-2036 | an unused pipe and two free slots for its ends, or the right error exactly when there is none |
| `Descriptors.Kernel.VfsPipe` | src/fs/vfs.c:1993-2036 | the same, with the ring of the pipe emptied and every other ring left alone |
| `Descriptors.Kernel.GiveEnds` | src/kernel/syscall.c:1978-1994 | the two lowest free descriptors get the ends, or both ends are given up, with every count right |
| `Descriptors.Kernel.Pipe2` | src/kernel/syscall.c:1961-2000 | both descriptors onto the two ends of an emptied pipe, or neither, exactly when a pipe, two files and two descriptors are free, with every count right after either rollback |
| `Descriptors.Kernel.CopyDescriptors` | src/kernel/proc.c:1311-1317 | the child of a fork shares every file of its parent and its flags |
| `Descriptors.Kernel.ExecSweep` | src/kernel/proc.c:1719-1725 | closes exactly the flagged descriptors and clears all flags |
| `Descriptors.Kernel.Teardown` | src/kernel/proc.c:1820-1825 | closes every descriptor |
| `PipeRing.WindowGrows` | src/fs/vfs.c:243-247 | writing past the end of a ring that is not full adds to the end of its contents |
| `PipeRing.Ring.Reset` | src/fs/vfs.c:2017-2020 | a ring that is set up again is empty and has nothing on record |
| `PipeRing.Ring.Take` | src/fs/vfs.c:199-204 | hands out the oldest bytes in order; everything accepted is what was handed out followed by the contents |
| `PipeRing.Ring.Put` | src/fs/vfs.c:243-247 | accepts as many bytes as fit, in order, with the same invariant |
| `Pipes.Read` | src/fs/vfs.c:173-210 | one turn: hands out bytes exactly when there are any; end of file exactly when there are none and no writer is counted, and then everything accepted was handed out and, if the counts are right, no descriptor of any process is onto the write end; otherwise it is interrupted exactly when signalled and sleeps exactly when not |
| `Pipes.Write` | src/fs/vfs.c:212-254 | one turn: accepts bytes exactly when there is a reader and room; a broken pipe exactly when no reader is counted, and then, if the counts are right, no descriptor of any process is onto the read end; otherwise it is interrupted exactly when signalled and sleeps exactly when not |
| `Pipes.WriteCall.Turn` | src/fs/vfs.c:212-254 | over all turns of a call, whatever happens between them, the ring accepts a prefix of its data once and in order; the result is the length of that prefix, or the error if it is empty |
| `Pipes.EarlyEndOfFile` | src/fs/vfs.c:186-191 | a run of pipe, fcntl, dup and close after which a read reports the end of the file while the write end is open |
| `Pipes.LostPipe` | src/fs/vfs.c:2108-2126 | a run after which no descriptor is open and the pipe still counts a writer |
| `MmapRecords.MergeCover` | src/kernel/syscall.c:3758-3760 | merging neighbours keeps how often each address is covered with each protection |
| `MmapRecords.ScanCover` | src/kernel/syscall.c:3732-3763 | so does the whole coalescing scan |
| `MmapRecords.MergeInForce` | src/kernel/syscall.c:3758-3760 | what a merge does to the last record that covers an address |
| `MmapRecords.MergeKeepsInForce` | src/kernel/syscall.c:3758-3760 | a merge leaves the protection in force at every address alone if and only if the records that the last one is moved in front of agree with it |
| `MmapRecords.ScanKeepsAgreed` | src/kernel/syscall.c:3732-3763 | where all records covering an address agree, the scan does not change the protection in force |
| `MmapSettled.RecordApart` | src/kernel/syscall.c:3709-3765 | in a table with nothing left to merge, a record without neighbours is just added |
| `MmapSettled.RecordJoins` | src/kernel/syscall.c:3732-3763 | a record with a neighbour on one side only widens it, and no protection in force changes |
| `MmapSettled.RecordFills` | src/kernel/syscall.c:3732-3763 | a record that fills a gap joins both sides and moves the last record into the place left |
| `MmapSettled.RecordKeepsInForce` | src/kernel/syscall.c:3709-3765 | recording leaves nothing to merge; the new protection is in force in its range and every other unchanged if and only if the record fills no gap or the records that the last one is then moved in front of agree with it |
| `Mmap.OldProtectionReturns` | src/arch/x86/kernel/idt.c:326-335 | five page-sized calls of mmap_record after which the older of two protections of a range, which the last call does not touch, is in force again |
| `Mmap.AddressSpace.Record` | src/kernel/syscall.c:3709-3765 | raises the number of covering records by exactly the new range, however much is merged, or fails exactly when the table is full; the rescans end; on a table with nothing left to merge the protection in force is kept exactly as `MmapSettled.RecordKeepsInForce` says |
| `Mmap.AddressSpace.Find` | src/kernel/syscall.c:3767-3778 | the first covering record, or none |
| `Mmap.AddressSpace.Forget` | src/kernel/syscall.c:3780-3788 | takes exactly one record out and keeps the order |
| `MmapReflag.WantedIs` | src/kernel/syscall.c:4165-4171 | the intended change: inside the range every covering record has the new protection, outside nothing changes |
| `MmapReflag.ReflagIsExact` | src/kernel/syscall.c:4172-4205 | the number of records that cover each address with each protection changes exactly in the range if and only if no record whose protection changes lacks the room to be split |
| `Mmap.FullTableSpills` | src/kernel/syscall.c:4187-4205 | with the table filled by 512 calls of mmap_record, changing the middle page of a record changes another page too |
| `MmapReflag.AmpleRoom` | src/kernel/syscall.c:4172-4205 | two free records for each existing one are always room enough for that |
| `MmapInForce.ReflaggedInForce` | src/kernel/syscall.c:4172-4205 | which protection is in force at each address afterwards: that of the last part split off there or, without one, that of the last record |
| `MmapInForce.InsideChanges` | src/kernel/syscall.c:4172-4205 | whatever the room, the new protection is in force at every covered address of the range |
| `MmapInForce.OutsideStays` | src/kernel/syscall.c:4165-4205 | outside the range every protection in force stays if and only if at each address what is put last, a part split off or a record reflagged for lack of room, has the protection in force before |
| `MmapInForce.AmpleOutsideStays` | src/kernel/syscall.c:4165-4205 | with room to split, if and only if wherever a record that meets the range covers an address outside, the last such record has the protection in force |
| `MmapInForce.AgreedStays` | src/kernel/syscall.c:4165-4205 | so an address outside keeps its protection where all records covering it agree and none lacks the room to be split |
| `Mmap.NewerMappingLoses` | src/kernel/syscall.c:4165-4205 | with 510 records free and every number of covering records right, changing one page takes the protection in force from the next page, over which a newer mapping was laid |
| `Mmap.AddressSpace.UpdateFlags` | src/kernel/syscall.c:4172-4205 | the in-place splitting computes that change: the new protection is in force in the whole range, and outside exactly the two conditions above decide what stays |
| `Mmap.PagesAre` | src/kernel/syscall.c:4251-4251 | a length is rounded up to the least whole number of pages that holds it; the last 4095 lengths wrap to none |
| `Mmap.AddressSpace.Munmap` | src/kernel/syscall.c:4240-4294 | trims the first record that covers the address, and succeeds exactly when the span is that whole record or one end of an unshared one; the span ends up uncovered if and only if no other record covers an address of it; a failure changes nothing |
| `MmapInForce.UnmapClears` | src/kernel/syscall.c:4240-4294 | taking a span from a record leaves it uncovered if and only if no other record covers an address of it |
| `MmapInForce.FirstIsNotInForce` | src/kernel/syscall.c:3767-3778 | what munmap takes from the first record was in force only where no other record covers the address |
| `Mmap.UnmappedYetCovered` | src/kernel/syscall.c:4240-4294 | unmapping the page that a newer mapping was laid over succeeds and leaves its protection in force |

## Left out

- AES key expansion: the round trip is proved for all 44 round-key words, expanded or not.
- The alternate signal stack: a return accepts frames on the main stack only, so the model has none.
- sigaction's argument checks and the wait inside sigsuspend: they do not touch the state modelled.
- Signal frames written by user code itself: beyond `SignalRuns.ReturnIsConfined` and `SignalRuns.NeverBlocked` there is no claim about what they resume.
- MmapSettled.RecordKeepsInForce: is about tables with nothing left to merge, which recording itself leaves behind; a protection change or a removal can leave neighbours that the next recording merges, and then the exact condition is that of each merge.
- Context switching, floating-point save areas beyond their memory image, page tables and the address-space side of mmap and munmap.
- proc_eff_weight and the control-group accounting: the weight and the throttling verdict are parameters.
- CPU affinity and the `rq_cpu` field.
- tmpfs file contents, sizes, modes, directory listing and link reading: they do not change the name space.
- Sockets, terminals, anonymous files and descriptor passing over sockets: other holders of file references.
- Removing a shared mapping's owner entry on munmap, and `mremap`.
- SysV IPC, mutexes, ext2, epoll, inotify, eventfd, timerfd, namespaces, seccomp, drivers and bring-up.
- Tmpfs.Tmpfs.constructor: a single mount; the pool and free stack shared by several mounts are not modelled.
- The state of sockets and devices that F_SETFL sets besides the flags of the file.
- Scheduling.Scheduler.Schedule: stops at the choice of the next task; loading it, parking the idle context and the locks around it are not modelled.
- Descriptors.Kernel.Open: what kind of file the path names is not modelled beyond its not being a pipe end.
