# Verified models of AFLGo's data structures and algorithms

This project models the parts of AFLGo and of its LTL layer that carry invariants of their own, and proves
what those parts promise. Each module follows one component; stateful C code is modelled by classes and
methods over arrays, linked nodes and fields, and each method is tied to a specification about which the
lemmas speak.

| module | component |
|---|---|
| `Probing`, `KHash`, `KHashBits`, `KHashRuns` | the open-addressing hash table of `khash.h`: triangular probing, tombstones, the in-place kick-out rehash, `kroundup32` and the flag macros |
| `ForkServer` | the fork-server protocol between fuzzer, server, child and alarm timer, as atomic steps in any interleaving |
| `MessageList`, `FuzzSession` | the message list with its sentinel and node pool, and what `common_fuzz_stuff` does to M1, M2, M3 |
| `MessageFile` | saving a message list, computing its regions, and rebuilding it |
| `Regions`, `Extractors` | the request extractors for SMTP/FTP/Telnet, RTSP, TLS, DTLS 1.2 and DICOM |
| `Tmin` | afl-tmin's minimizer |
| `QueueCull`, `Bitmap` | winner table, reference-counted traces, greedy cover and queue counters |
| `Coverage`, `Words`, `CountClass` | virgin maps with word-wise novelty detection, and hit-count classes |
| `BitFlips`, `DetStages` | the byte-level deterministic stages with the effector map and `could_be_bitflip` |
| `Extras`, `UserTokens`, `AutoTokens`, `Builtins`, `Sorting` | the dictionary overwrite stages, and the loader and the automatic dictionary that put tokens in the order these need |
| `Dictionary` | libtokencap's printer and the dictionary reader |
| `FindPaths` | the path search over an automaton |
| `Bytes`, `Platform` | the byte type of the modules that compute with numbers; integer widths, map size and fatal outcomes |

Outcomes of code outside the model are parameters: the verdict of the target (a function of the bytes in
`Tmin`, one flag per byte for the effector map), whether an allocation succeeds (`KHash`), random choices
(`Extras`, `AutoTokens`), traces (`Coverage`, `QueueCull`), and file contents.

Where the code does something else than its comments or its purpose suggest, the model follows the code and
states exactly when, on the input alone:

- The line-based extractors lose the last byte of exactly those buffers in which it follows an odd number of
  CRLFs side by side, or an even number when these begin the buffer (`CrlfLastByteLost`); for RTSP it is every
  third (`CrlfCrlfLastByteLost`). "A", CR, LF, "B" is such a buffer (`LastByteLostOnce`).
- DICOM lengths wrap in 32 bits: the five largest are taken for packets of one to five bytes
  (`WrappedPackets`, `HugePacket`).
- Saving, converting and reading back a message list ends the fuzzer exactly when one of the saved messages is
  empty, as in `EmptyMessageFails`, or they are longer together than the largest block (`SaveAndReload`).
- A token file that contains an empty text token is refused as a whole; every other one reads back
  (`LoadReadsBack`, `EmptyTextFails`).
- Labels in a dictionary are letters, digits and underscores; a dash, which the comment in the source allows, makes
  the line malformed (`OddLabel`).
- With arithmetic switched off, the interesting values that arithmetic would have covered are not tried at
  all (`NumberTried`, `NoArithLoses`).
- `kh_put` returns another key's bucket, with the code for "present", exactly when all of 2^31 buckets are live
  and the key is absent (`Put`); `Overfill` is a run that comes to that. A full table of that size cannot grow,
  for the request wraps to four buckets and is ignored (`RoomAfterResize`); it goes on working until then.

One property has a sufficient condition only. In every case afl-tmin leaves no byte, and no larger block
of a length it tries, that can be deleted, but a byte or symbol may remain that could be replaced by '0', since a later pass that deletes nothing ends the run
before its own replacement stages. Every outcome has just been through both stages (`LastIsReplaced`), in which
each byte was tried in its turn (`CharsTried`), and it allows no more replacements if accepted data never becomes
replaceable at a place through replacements elsewhere (`Settled`). That is sufficient but not necessary, for
bytes or for symbols: there is a verdict that fails both conditions and whose every input is settled all the same
(`NotNecessary`). `NotSettled` is an input that is left replaceable: with a verdict that accepts exactly "aabb",
"aab0" and "0ab0", the input "aabb" ends as "aab0".

## Model

| member | source | states |
|---|---|---|
| Probing.ProbesDiffer | AFLGo/khash.h:232-241 | in a table of 2^k buckets two different steps below 2^k never probe the same bucket |
| Probing.ProbesCover | AFLGo/khash.h:278-281 | every bucket is probed at exactly one of the first 2^k steps, so a probe loop that needs an empty bucket finds it |
| Probing.ProbeAway | AFLGo/khash.h:237-240 | the sequence is not home again before step 2n - 1 |
| KHash.HashTable.constructor | AFLGo/khash.h:212-214 | a new table is valid and stores nothing |
| KHash.HashTable.HasEmptyBucket | AFLGo/khash.h:310-318 | a table below 2^31 buckets always keeps an empty one |
| KHash.SearchEnd | AFLGo/khash.h:232-241 | a search ends within the first lap at an empty bucket or at the key, or, without either, when the probe sequence first comes home after 2n - 1 steps |
| KHash.HashTable.Get | AFLGo/khash.h:230-243 | returns the number of buckets if and only if the key is absent, otherwise the live bucket with that key and its value |
| KHash.HashTable.FindSite | AFLGo/khash.h:319-334 | the probe ends at the key if it is present; an absent key goes to the last tombstone its probes pass before they end, and to the empty bucket that ends them exactly when they pass none; at another key's bucket only when every bucket is live |
| KHash.HashTable.Put | AFLGo/khash.h:307-348 | on every table: the map gains at most that key, never twice, and the bucket returned is the key's if and only if the key was present or fewer than 2^31 pairs were stored; the code is -1 exactly when making room takes memory that is refused, and otherwise says present, fresh bucket, reused tombstone; when no room had to be made an absent key gets code 2 and the last tombstone on its probe path if there is one there, and code 1 and the empty bucket if there is none; the occupied count follows |
| KHash.HashTable.Claim | AFLGo/khash.h:336-347 | the code 0/1/2 follows the old flags of the bucket, and the key ends up live there with the counts in step |
| KHash.HashTable.SetValue | AFLGo/khash.h:521 | storing a value through a bucket changes the value of that key and nothing else |
| KHash.HashTable.Delete | AFLGo/khash.h:349-355 | a live bucket becomes a tombstone and exactly its key is forgotten; anything else is left alone |
| KHash.HashTable.Clear | AFLGo/khash.h:223-229 | the map becomes empty and the arrays are kept |
| KHash.HashTable.Resize | AFLGo/khash.h:244-306 | the map is kept whether the table grows, shrinks or is rebuilt; a rebuilt table has no tombstones and as many occupied buckets as pairs; too small a request changes nothing; -1 exactly when one of the allocations it checks is needed and fails |
| KHash.Rehash | AFLGo/khash.h:268-295 | the in-place rehash over one pair of arrays and two flag arrays ends with every pair of the map on its new probe path behind occupied buckets only, no tombstone, occupied count equal to the number of pairs |
| KHash.MovePair | AFLGo/khash.h:271-292 | the kick-out loop terminates and leaves every key either seated under the new flags or waiting under the old ones |
| KHash.KickOut | AFLGo/khash.h:280-290 | one kick keeps the half-way state: no pair is lost or duplicated while both flag arrays describe the same buckets |
| KHash.FinishRehash | AFLGo/khash.h:299-303 | when no old bucket is live the new flags describe the whole map |
| KHash.HashTable.MakeRoom | AFLGo/khash.h:310-318 | a table at its bound clears its tombstones or doubles, after which one more bucket fits, and fails exactly when that takes memory that is refused; a full one of 2^31 buckets with few tombstones stays as it is |
| KHash.RoomAfterResize | AFLGo/khash.h:310-318 | the resize of a full table makes room if and only if tombstones are the majority or it has fewer than 2^31 buckets |
| KHash.UpperBoundIs | AFLGo/khash.h:303 | the bound of the model, an integer quotient, is 0.77 of the buckets, rounded |
| KHashRuns.RunAll | AFLGo/khash.h:223-355 | after a run of put, get, delete, clear and resize of any length, with memory to spare, the table is a fresh one that stores exactly what the same run leaves in a map, as long as that never exceeds 2^31 keys, and its size is that map's |
| KHashRuns.ShortRuns | AFLGo/khash.h:307-348 | a run of at most 2^31 operations never exceeds 2^31 keys |
| KHashRuns.Overfill | AFLGo/khash.h:319-347 | after a run that stores 2^31 keys, putting one more returns 0 and the bucket of another key |
| KHashBits.SmearIsLeastPowerOfTwo | AFLGo/khash.h:175-176 | `kroundup32` on a 32-bit register is the least power of two not below its argument, and 0 outside 1 to 2^31 |
| KHashBits.SmearIsRoundUp | AFLGo/khash.h:175-176 | on the number in the register `kroundup32` is the rounding that the table model uses |
| KHashBits.SetDeletedIsLocal | AFLGo/khash.h:165-171 | setting a deleted flag changes that bucket's flag and no other flag of the word |
| KHashBits.ClearEmptyIsLocal | AFLGo/khash.h:165-171 | clearing an empty flag changes that bucket's flag and no other flag of the word |
| KHashBits.ClearBothIsLocal | AFLGo/khash.h:165-171 | clearing both flags of a bucket changes no flag of another bucket |
| KHashBits.UnpackedSetDeleted | AFLGo/khash.h:165-171 | on an array of words, setting a deleted flag makes that bucket a tombstone in the flag sequence the table works with and leaves the rest |
| KHashBits.UnpackedClearEmpty | AFLGo/khash.h:165-171 | the same for clearing an empty flag |
| KHashBits.UnpackedClearBoth | AFLGo/khash.h:165-171 | the same for occupying a bucket |
| KHashBits.UnpackedFresh | AFLGo/khash.h:253-255 | words filled with 0xaa are the flags of an empty table |
| KHashBits.WordsSuffice | AFLGo/khash.h:173 | the words asked for hold the flags of every power-of-two number of buckets, exactly from 16 on |
| KHashBits.NewFlags | AFLGo/khash.h:253-255 | the flag array `kh_resize` allocates and fills is that of an empty table |
| ForkServer.EveryRun | AFLGo/llvm_mode/afl-llvm-rt.o.c:121-185 | the protocol invariant holds in every state of every interleaving of fuzzer, server, child and timer |
| ForkServer.Safety | AFLGo/afl-fuzz.c:2682-2749 | at most one child unreaped, requests and replies alternate, the k-th status belongs to the k-th pid, SIGCONT only reaches a live stopped child, SIGKILL only the right process, no failed wait |
| ForkServer.StatusIsFate | AFLGo/llvm_mode/afl-llvm-rt.o.c:171-182 | in every run the k-th status the fuzzer reads is how the k-th run of a target ended, on its own, by a stop or by the timer's SIGKILL, with the pid of that run; once the answer is read, `status` is the end of the latest run |
| ForkServer.KillIsReported | AFLGo/llvm_mode/afl-llvm-rt.o.c:128-139 | the `was_killed` word that reaches a server holding a stopped child says exactly whether that child is dead |
| ForkServer.Progress | AFLGo/llvm_mode/afl-llvm-rt.o.c:121-185 | in every reachable state the fuzzer, the server or the armed timer can move |
| ForkServer.RequestCompletes | AFLGo/afl-fuzz.c:2682-2749 | from a request on, fuzzer, server and timer take at most 13 steps before the fuzzer is idle, whatever the child does |
| MessageList.KList.PushNode | AFLGo/klist.h:104-109 | the old sentinel becomes the node handed out, a new sentinel from pool or heap follows it, no other node changes |
| MessageList.KList.Alloc | AFLGo/klist.h:54-58 | a node is taken from the pool when there is one and is fresh otherwise |
| MessageList.KList.Last | AFLGo/protocol.c:1277-1285 | the last message node, right before the sentinel |
| MessageList.KList.PushAll | AFLGo/afl-fuzz.c:5002-5024 | the new messages stand behind the old ones, and the pointer behind M2 still marks M3 or the sentinel when M3 is empty |
| MessageList.KList.Rewire | AFLGo/afl-fuzz.c:5031-5043 | three pointer updates turn M1, old M2, M3, new M2 into M1, new M2, M3 and leave the old M2 as a chain of its own, with M1 or M3 or both empty |
| MessageList.KList.FreeSegment | AFLGo/afl-fuzz.c:5045-5057 | exactly the nodes of the old M2 go to the pool, each once, and the counters follow |
| MessageList.KList.Splice | AFLGo/afl-fuzz.c:4999-5057 | the list becomes M1, the new messages, M3; the nodes of M1 and M3 are the same; listed and pooled nodes stay disjoint |
| FuzzSession.OpenSession | AFLGo/afl-fuzz.c:5556-5574 | the list holds the messages of the entry, with M2 between the two boundary pointers; it is fatal exactly when a region is empty or too long for a block |
| FuzzSession.Locate | AFLGo/afl-fuzz.c:5561-5574 | the boundary pointers are the node before M2, or null when M1 is empty, and the node after it, or the sentinel |
| FuzzSession.Session.FillBuffer | AFLGo/afl-fuzz.c:5576-5592 | the buffer to mutate is the messages of M2 end to end |
| FuzzSession.Session.CommonFuzz | AFLGo/afl-fuzz.c:4990-5058 | the list is M1, the messages of the latest buffer, M3; no region is fatal and changes nothing |
| FuzzSession.Session.Stage | AFLGo/afl-fuzz.c:4990-5058 | after any number of calls only the latest buffer stands between M1 and M3 |
| FuzzSession.CutFlatten | AFLGo/afl-fuzz.c:5002-5017 | messages cut along contiguous regions, put together again, are the bytes covered |
| FuzzSession.PartitionRebuilds | AFLGo/afl-fuzz.c:4992-5017 | a buffer cut by a partition is sent whole |
| MessageFile.SaveMessages | AFLGo/protocol.c:1288-1329 | the file is the first messages end to end, at most as many as the limit; fatal exactly when they exceed the largest block |
| MessageFile.ConvertToRegions | AFLGo/protocol.c:1331-1356 | consecutive regions of the messages' lengths in `int` arithmetic, fatal exactly when the first message is empty or the total exceeds 2^31 |
| MessageFile.ConstructMessages | AFLGo/protocol.c:1231-1257 | sequential reads of the regions' unsigned lengths, offsets ignored; fatal exactly when a region is empty or too long for a block |
| MessageFile.ReadBack | AFLGo/protocol.c:1240-1253 | with converted regions the sequential reads give back every message |
| MessageFile.RegionsAreContiguous | AFLGo/protocol.c:1339-1352 | converted regions cover the file from byte 0, one behind the other |
| MessageFile.SaveAndReload | AFLGo/protocol.c:1231-1356 | saving, converting and constructing rebuilds exactly the first min(limit, n) messages, and is fatal exactly when one of these is empty or they exceed the largest block together |
| MessageFile.EmptyMessageFails | AFLGo/protocol.c:1240-1248 | a list with an empty second message is saved and converted and cannot be read back |
| Extractors.ExtractTerminated | AFLGo/protocol.c:16-84 | contiguous non-empty regions, each but the last the shortest run closed by the terminator and longer than it; all bytes covered, except that the last byte is dropped exactly when a closed region ends before it |
| Extractors.TerminatorCutDetermined | AFLGo/protocol.c:440-578 | there is only one such list of regions for a buffer |
| Extractors.LastByteLost | AFLGo/protocol.c:40-84 | at most the last byte is lost, and it is if and only if scanning the buffer from its start closes a region right before it |
| Extractors.CrlfLastByteLost | AFLGo/protocol.c:16-84 | for CRLF: if and only if the byte follows an odd number of line ends side by side, an even number when these begin the buffer |
| Extractors.CrlfCrlfLastByteLost | AFLGo/protocol.c:440-508 | for CRLFCRLF: if and only if that number leaves 2 when divided by 3, or 0 when the line ends begin the buffer |
| Extractors.ClosedUnlessRecent | AFLGo/protocol.c:35-53 | a region can be closed at a terminator if and only if none was closed within its length before |
| Extractors.LastByteLostOnce | AFLGo/protocol.c:40-84 | a concrete buffer whose last byte is lost |
| Extractors.ExtractTls | AFLGo/protocol.c:216-308 | a partition of the buffer into whole records of 5 plus the length field, ending with the region that begins where no record has more bytes behind it |
| Extractors.TlsCutDetermined | AFLGo/protocol.c:216-308 | there is only one such partition |
| Extractors.ExtractDicom | AFLGo/protocol.c:311-366 | a partition into packets of the 32-bit packet length, with one last region where no packet fits |
| Extractors.WrappedEnd | AFLGo/protocol.c:335-355 | the overflow tests on wrapped 32-bit sums accept a packet exactly when it lies in the buffer |
| Extractors.WrappedPackets | AFLGo/protocol.c:328-338 | the wrapped test agrees with the announced length if and only if that length is at most 2^32 - 6 |
| Extractors.HugePacket | AFLGo/protocol.c:328-348 | a concrete header whose announced length wraps to a packet of one byte |
| Extractors.DicomCutDetermined | AFLGo/protocol.c:311-366 | there is only one such partition |
| Extractors.ExtractDtls12 | AFLGo/protocol.c:957-1008 | a partition cut at offset p exactly when p is past offset 3 and a DTLS 1.2 header begins there |
| Extractors.HeaderBytes | AFLGo/protocol.c:939-969 | well inside the buffer the headers are the bytes 20 to 24 followed by 254 and 253 |
| Tmin.Minimizer.Minimize | AFLGo/afl-tmin.c:416-637 | terminates; the result is accepted, is a subsequence of the original with some bytes '0', and loses its verdict when any block is deleted of any power-of-two length that stage 1 tries, single bytes included; the trace of its passes says where each began, what its deletions made of that and why it went on or stopped |
| Tmin.Minimizer.RunTarget | AFLGo/afl-tmin.c:344-350 | wherever the user may abort, the data written out has an accepted verdict and derives from the original |
| Tmin.Minimizer.DeleteSweep | AFLGo/afl-tmin.c:487-541 | passing over blocks that equal the rejected one before leaves the same data as trying every block; a sweep that changes nothing has had every block rejected, the skipped ones included |
| Tmin.SkippedBlockIsRedundant | AFLGo/afl-tmin.c:508-514 | deleting a block equal to its predecessor gives the candidate already tried for the predecessor |
| Tmin.Minimizer.DeleteBlocks | AFLGo/afl-tmin.c:481-545 | sweeps with block lengths from the least power of two not below a sixteenth of the data down to 1; an unchanged stage leaves data of which no block can be deleted whose length is 1 or a power of two below twice that sixteenth |
| Tmin.DeletionEnds | AFLGo/afl-tmin.c:481-548 | stage 1 never lengthens the data, and data it cannot shorten is unchanged and allows the deletion of no block of any length from the first down to 1 |
| Tmin.SweptRejects | AFLGo/afl-tmin.c:493-541 | a sweep that shortens nothing has had every block behind its start rejected |
| Tmin.Minimizer.NormalizeBlocks | AFLGo/afl-tmin.c:431-470 | each block in turn becomes '0's if that is accepted, the length kept |
| Tmin.Minimizer.MinimizeSymbols | AFLGo/afl-tmin.c:552-599 | each symbol in turn becomes '0' if that is accepted; each change lowers the number of bytes that are not '0'; if nothing changed no symbol can be replaced |
| Tmin.Minimizer.MinimizeChars | AFLGo/afl-tmin.c:601-633 | each byte that was not '0' has been tried with the bytes before it settled and those behind it untouched, and is '0' afterwards if and only if that was accepted; each change lowers the number of bytes that are not '0'; if nothing changed no single byte can be replaced |
| Tmin.LastIsReplaced | AFLGo/afl-tmin.c:550-635 | the outcome of every run is what both replacement stages make of accepted data |
| Tmin.Settled | AFLGo/afl-tmin.c:550-635 | the outcome allows no replacement of a byte (of a symbol) if no replacement of later bytes (of any bytes) makes one possible between accepted data |
| Tmin.LeftByte | AFLGo/afl-tmin.c:609-627 | a byte that stage 3 leaves was rejected in data that only differs from the outcome in later bytes |
| Tmin.NotSettled | AFLGo/afl-tmin.c:550-635 | a verdict and an input on which the outcome can be replaced further |
| Tmin.ZeroingShrinks | AFLGo/afl-tmin.c:570-635 | the second component of the termination measure: replacing bytes by '0' lowers the count unless nothing changes |
| Tmin.DerivedWithout | AFLGo/afl-tmin.c:519-531 | deleting a block keeps the data a subsequence of the original |
| Tmin.NotNecessary | AFLGo/afl-tmin.c:550-635 | a verdict that fails both conditions of `Settled` and settles each of its inputs, bytes and symbols |
| QueueCull.Culler.UpdateBitmapScore | AFLGo/afl-fuzz.c:1535-1576 | the entry takes exactly the slots of its trace that it wins; every reference count stays the number of slots held and every packed trace exists exactly while that is positive |
| QueueCull.Culler.ScoreAll | AFLGo/afl-fuzz.c:1524-1576 | over any sequence of scorings with fixed times and lengths, each byte that some scored trace sets is held by the entry with the least product of time and length in 64 bits among those that set it, the latest of those that tie, and any other byte by nobody |
| QueueCull.BestNext | AFLGo/afl-fuzz.c:1545-1566 | one more scoring keeps that so |
| QueueCull.Culler.MinimizeBits | AFLGo/afl-fuzz.c:1509-1520 | one bit per byte of the trace, set exactly for the non-zero ones |
| QueueCull.SlotsUpdate | AFLGo/afl-fuzz.c:1551-1570 | replacing the holder of a slot moves one reference from the old holder to the new |
| QueueCull.PickedCovers | AFLGo/afl-fuzz.c:1605-1627 | the greedy choice covers every byte that has a winner |
| QueueCull.PickedNeeded | AFLGo/afl-fuzz.c:1605-1627 | and takes no entry without need: each chosen one wins a byte that none chosen before it covers |
| QueueCull.Culler.CullQueue | AFLGo/afl-fuzz.c:1585-1636 | when scores changed, the favored entries are exactly the greedy choice, they cover every byte with a winner, the others are redundant, and both counters are the number of favored and of favored unfuzzed entries; otherwise nothing changes |
| QueueCull.Culler.TakeWinner | AFLGo/afl-fuzz.c:1606-1627 | taking a winner removes its trace from the uncovered bytes and counts it once |
| QueueCull.Culler.AddToQueue | AFLGo/afl-fuzz.c:997-1032 | a new entry holds no slot and counts as not fuzzed |
| QueueCull.Culler.AbandonEntry | AFLGo/afl-fuzz.c:7212-7216 | the counters stay exact through the end of `fuzz_one` |
| Coverage.Maps.HasNewBits | AFLGo/afl-fuzz.c:1152-1240 | the word-by-word scan returns the bytewise novelty and clears exactly the bits seen; the change flag is set exactly for new coverage of the main map |
| Coverage.RunTraces | AFLGo/afl-fuzz.c:1152-1240 | over any sequence of traces the main virgin map ends as the complement of all bits seen, and each result is the novelty of its trace over those before |
| Coverage.VirginIsUnseen | AFLGo/afl-fuzz.c:1152-1240 | over any run a virgin byte is 0xff minus all bits ever seen there |
| Coverage.NoveltyOfRun | AFLGo/afl-fuzz.c:1152-1240 | after any run the result is 2 exactly for a byte never set before and at least 1 exactly for a new bit |
| Coverage.RepeatIsStale | AFLGo/afl-fuzz.c:1152-1240 | a trace scores 0 right after it has been counted |
| CountClass.ClassifyCounts | AFLGo/afl-fuzz.c:1442-1465 | the pass through the 16-bit table over non-zero words equals the bytewise bucket map |
| CountClass.InitCountClass16 | AFLGo/afl-fuzz.c:1427-1437 | every table entry classifies both of its bytes |
| CountClass.ClassesAreBuckets | AFLGo/afl-fuzz.c:1410-1422 | each class is a single bit, zero only for no hits, and rises with the hit count exactly at 1, 2, 3, 4, 8, 16, 32 and 128 |
| BitFlips.FlippedDiffer | AFLGo/afl-fuzz.c:5683-5820 | flips of different runs of bits give different buffers |
| BitFlips.FlippedTwice | AFLGo/afl-fuzz.c:5711-5717 | flipping the same run again restores the buffer |
| BitFlips.CouldBeBitflip | AFLGo/afl-fuzz.c:5273-5298 | true exactly for 0 and for 1, 2 or 4 adjacent bits anywhere and 8, 16 or 32 on a byte boundary, on every 32-bit word |
| BitFlips.PatternsAreRuns | AFLGo/afl-fuzz.c:5273-5298 | the numbers it tests for are the runs of 1, 2, 4, 8, 16 or 32 one-bits, the wide ones on a byte boundary |
| BitFlips.ByteRuns | AFLGo/afl-fuzz.c:5273-5298 | on the difference of two bytes it is true exactly if one flip of 1, 2, 4 or 8 bits in the walking order makes that difference |
| DetStages.ApplyDiffers | AFLGo/afl-fuzz.c:6036-6072 | no flip and no byte write that the stages let through make the same buffer |
| DetStages.ApplyChanges | AFLGo/afl-fuzz.c:5703-5912 | none of them makes the input |
| DetStages.SkippedWrite | AFLGo/afl-fuzz.c:6050-6066 | a value skipped through `could_be_bitflip` is the byte itself or was made by a flip that is always tried |
| DetStages.Stages.WalkBits | AFLGo/afl-fuzz.c:5689-5844 | runs the flip of every run of 1, 2 or 4 bits once and restores the buffer |
| DetStages.Stages.WalkBytes | AFLGo/afl-fuzz.c:5846-5923 | inverts every byte once; afterwards every byte whose inversion changed the path is effective, and every byte in dumb mode or in a file below 128 bytes; otherwise exactly the bytes of the first block, the last block and the blocks with such a byte are, or all when these blocks are more than 90 percent |
| DetStages.EffectorMapIs | AFLGo/afl-fuzz.c:5868-5923 | the same of the map as a function of the bytes that changed the path |
| DetStages.Stages.WalkWords | AFLGo/afl-fuzz.c:5936-6011 | inverts every two or four bytes that have an effective one among them, once |
| DetStages.Stages.Arith8 | AFLGo/afl-fuzz.c:6019-6081 | for every effective byte, each value at most 35 away in eight bits that no flip makes is run once |
| DetStages.Stages.Interest8 | AFLGo/afl-fuzz.c:6287-6327 | for every effective byte, each interesting value that neither a flip nor arithmetic makes is run once |
| DetStages.Stages.Run | AFLGo/afl-fuzz.c:5689-6327 | over all these stages the buffers run are pairwise different, none is the input, and they are exactly the flips and effective byte changes in scope, where the effective bytes are as for `WalkBytes` |
| DetStages.RunsInScope | AFLGo/afl-fuzz.c:6036-6072 | every value in scope that was skipped had been run already or is the input |
| DetStages.NoArithLoses | AFLGo/afl-fuzz.c:6015-6311 | without arithmetic the value 16 is never tried in the place of 10, with arithmetic it is |
| Extras.Overwrite | AFLGo/afl-fuzz.c:6485-6525 | every buffer run is the input with exactly one eligible token at one position, every eligible token has had its buffer run unless it is the input, and the buffer is the input again at the end |
| Extras.TokensAt | AFLGo/afl-fuzz.c:6594-6625 | the same at one position, although nothing is restored between tokens, because they come in order of size |
| Extras.SpanIsBytes | AFLGo/afl-fuzz.c:5854-5857 | the block span consulted is effective exactly if some byte under the token is |
| UserTokens.LoadExtras | AFLGo/afl-fuzz.c:1992-2056 | every keyword of the file becomes a token, in the order of size the overwrite stage needs; a malformed line or no keyword at all is fatal |
| Builtins.FindBuiltin | AFLGo/afl-fuzz.c:2101-2123 | true exactly for the tokens of two or four bytes that are interesting integers in one byte order or the other; negative two-byte values in host order are missed |
| Builtins.NegativeMissed | AFLGo/afl-fuzz.c:2101-2112 | for instance -128, which is in the table; the callers pass three bytes at least (AFLGo/afl-fuzz.c:2249-2250, 5752-5753, 5760-5761), so they never get there |
| Builtins.Swapped32 | AFLGo/types.h:64-69 | swapping the table value is turning the bytes of the token around |
| AutoTokens.AutoDictionary.MaybeAddAuto | AFLGo/afl-fuzz.c:2086-2190 | runs of one byte, built-in integers and tokens like a user token are refused; a token already there is counted, a new one appended or put in place of one in the less used half; no two tokens stay alike |
| AutoTokens.AutoDictionary.InExtras | AFLGo/afl-fuzz.c:2125-2133 | the search that stops at the first longer token still decides whether any user token is alike |
| AutoTokens.TwoSorts | AFLGo/afl-fuzz.c:2178-2188 | the two sorts leave the 50 most used tokens in front, in order of size |
| AutoTokens.RankedSizes | AFLGo/afl-fuzz.c:2185-2188 | the tokens the overwrite stage uses have the order of size it needs |
| AutoTokens.EvictedIsUnused | AFLGo/afl-fuzz.c:2166-2174 | the token thrown out is used no more than any in the better half |
| Dictionary.Dump | AFLGo/libtokencap/libtokencap.so.c:99-134 | prints nothing for a length outside 3 to 32, and otherwise one quoted line with every byte or, for text, those before the first NUL; the buffer never overflows |
| Dictionary.ReadLine | AFLGo/afl-fuzz.c:1849-1965 | trimming, comments, labels, levels, quotes and escapes of one line, with its errors |
| Dictionary.UnescapeEscape | AFLGo/afl-fuzz.c:1914-1952 | unescaping undoes escaping for every byte string |
| Dictionary.UnescapeSpelled | AFLGo/afl-fuzz.c:1914-1952 | so does any other spelling: each byte as it is, behind a backslash if it is one or a quote, or in hexadecimal digits of either case |
| Dictionary.EscapePlain | AFLGo/libtokencap/libtokencap.so.c:109-126 | printable text without quotes and backslashes is printed as it is |
| Dictionary.ParseDictLine | AFLGo/afl-fuzz.c:1849-1965 | a printed line reads back as its token, and an empty one is refused |
| Dictionary.ParseLabelled | AFLGo/afl-fuzz.c:1874-1894 | behind any label of letters, digits and underscores the printed line reads back as well |
| Dictionary.ParseLevelled | AFLGo/afl-fuzz.c:1878-1886 | a level behind the label makes the reader pass the line over exactly when it is above the level asked for |
| Dictionary.OddLabel | AFLGo/afl-fuzz.c:1874-1893 | any other byte behind the label, a dash for one, makes the line malformed |
| Dictionary.LoadReadsBack | AFLGo/afl-fuzz.c:1849-1965 | reading the file of any sequence of captures gives the printed tokens in order, or fails exactly when one of them is empty |
| Dictionary.EmptyTextFails | AFLGo/libtokencap/libtokencap.so.c:105-110 | a captured empty string makes the reader give up |
| Dictionary.LoadExtrasFile | AFLGo/afl-fuzz.c:1837-1967 | line by line through `fgets`, the first malformed line is fatal |
| Dictionary.LoadedSizes | AFLGo/afl-fuzz.c:1895-1959 | every loaded token has between 1 and 128 bytes |
| FindPaths.Search.FindPaths | src/automata/automata.cc:406-452 | terminates, pops the start, restores the path and the marks with the start unmarked, and appends each exactly once precisely the paths to accepting states whose inner states are distinct, unmarked and not accepting |
| FindPaths.Search.Visit | src/automata/automata.cc:423-436 | one successor adds exactly the paths through it, each once, and leaves stacks and marks as they were |
| FindPaths.GetStateSet | src/automata/automata.cc:393-404 | exactly the destinations of the state's transitions other than the state itself, ascending, without repetition |
| FindPaths.ViaFree | src/automata/automata.cc:423-436 | the paths through an unmarked successor are the paths from it with the current state marked |
| FindPaths.ViaAccepting | src/automata/automata.cc:425-429 | through an accepting successor there is exactly one path |
| FindPaths.MarkOne | src/automata/automata.cc:412-434 | the measure of the recursion: marking a state leaves fewer unmarked ones |

## Left out

- Tmin.Settled: gives a sufficient condition on the verdict, which `NotNecessary` shows is not a necessary one; an exact one would have to name the data a run meets.
- KHash.HashTable.Resize: does not model failure of the two reallocations of a shrinking table, which the source does not check; it would return 0 with null arrays.
- DetStages.Stages.Run: a run abandoned half way executes a prefix of what is stated; stage counters, the 16- and 32-bit arithmetic and interest stages and `could_be_interest` are not modelled.
- Extras.Overwrite: the token insertion stage, whose last step copies one byte past the end, is not modelled.
- AutoTokens.AutoDictionary.MaybeAddAuto: `qsort` is known by its contract, hit counts do not wrap, and words are little-endian.
- Dictionary.Dump: the file is the printed bytes; `%s` is modelled as the bytes before the first NUL.
- Dictionary.ReadLine: `atoi` is exact for values that fit an `int`; character classes are those of the C locale.
- ForkServer.RequestCompletes: does not cover early returns of `run_target` when the user stops the fuzzer, and reuse of pids by the operating system.
- QueueCull.Culler.UpdateBitmapScore: an entry is assumed to have the same trace each time it is scored.
- QueueCull.Culler.ScoreAll: when the time or length of an entry changes between scorings, its slots are compared by the values it has then, and no statement is made about such a run.
- CountClass.ClassifyCounts: the 64-bit form; the 32-bit forms of this and of the novelty scan only differ in the word.
- MessageFile.SaveMessages: does not model replay mode, which writes each length first.
- MessageFile.ConvertToRegions: signed overflow, undefined in C, is taken to wrap, and the size of the region array itself is unlimited.
- UserTokens.LoadExtras: a dictionary in a single file; a directory of token files is not modelled.
- Extractors.ExtractTerminated: the growing scratch buffer is a sequence; one method stands for the three CRLF extractors and the CRLFCRLF one, which differ in the terminator alone.
- Extractors.ExtractDtls12: the comparison of the version may read one byte past the buffer; that byte is a parameter and the regions are a partition whatever it is.
- FindPaths.Search.FindPaths: the callers that mark states beforehand mark indices instead of states and fix the size at ten; here marks are a parameter.
- Packed flag words inside the table class, which works on the flag sequence that `KHashBits` shows they stand for; `kh_destroy`, and the quality of hash functions.
- Packed traces are values of an entry rather than blocks of their own, and the marker files of redundant entries are not written.
- The SSH and DNS extractors, and all response-code extractors: more cases of the same shape, and the DNS one can end a region past the buffer.
- `kl_shift`, `kl_destroy` and freeing of message data.
- Calibration, trimming, havoc and splicing, power schedules, distances, and random distributions.
- Sockets, shared memory, status screen, compiler wrappers, the LLVM pass, QEMU mode and the scripts.
- Spot and BDD calls: the automaton is an abstract graph; LTL selection and acceptance checks are not modelled.
