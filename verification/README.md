# Verified models of the engine's algorithmic cores

Dafny 4.11 models of seven independent parts of the engine, each proved against what the part is for. `dafny verify
dfyconfig.toml` checks all of it.

* **Wuff, the WAVE reader** (`WuffSource`, `WuffSlices`, `WuffConvert`, `WuffPlan`, `WuffReader`, `WuffRuns`,
  `WuffChunk`, `WuffOpen`). A handle pulls bytes from a file through a sliding buffer, converts samples and serves
  reads of any size. The file is a byte sequence behind a cursor; its callbacks answer short reads and fail as they
  like. The reference is the one-shot conversion of the data chunk, `WuffSlices.Stream`. In a script of seeks, format
  changes and reads every move lands where it should, and the reads behind it deliver the stretch that starts there.
* **The Box2D dynamic tree** (`Geometry`, `GrowableStack`, `DynamicTree`, `TreeQuery`). Query and RayCast walk a pool
  of nodes with an explicit stack. A tree is valid when every node passes the checks of ValidateStructure and
  ValidateMetrics. Floats are reals, and any multiple of the direction stands in for its normalised form.
* **Lifetimes in the L^ glue** (`ParkingLot`, `LotRuns`, `Wrappers`, `RefCounting`, `RefHolders`). The machine, its
  registry table, its weak cache and its collector are steps that may happen at any time.
* **Base64** (`Base64`), **StringMap** (`StringMap`), **types** (`TypeTree`), **half floats** (`Shifts`, `HalfFloat`),
  **matrices** over the reals (`Matrix`, `NormalMatrix`) and **DDS mip chains** (`MipChain`).

Where an operation updates state in the original it is a method on a class or array here, tied by its postcondition to a
function of the old state; the laws are lemmas about those functions. The laws of whole runs are about `After`, the
function that takes a state through a script, and the `Run` methods show that the operations follow it.

## Where the code departs from what one would expect

Each of these is stated as a lemma or a contract that says exactly when it happens.

* wuff_calculate_samples adds one for the sample a request starts inside and then overwrites the sum (lines 269 and
  272), so a read that starts inside a sample and reaches at least two samples further returns one sample less than
  would fit. No byte is lost; `WuffPlan.SettledLength`.
* The 24-to-8-bit converter shifts by two bytes where the value sits three bytes up, so it returns the middle byte:
  `WuffConvert.NarrowS24Exactly`, `WuffConvert.WidenNarrowS24Exactly`.
* wuff_search_chunk adds eight to the size field in 32 bits. A header with size 0xFFFFFFF8 is its own successor, and
  the search then never ends. Opening a file whose first chunk has that size, and is neither the format nor the data,
  hangs: `WuffChunk.TerminatesExactly`, `WuffChunk.SearchCanHang`.
* wuff_setup clears the buffer while the file cursor stands wherever the header search has left it, and refuses a
  cursor outside the data chunk (line 451): `WuffReader.Handle.Setup`. The search reads 80 bytes first, so a file whose
  header is the usual 44 bytes does not open if and only if its data ends before byte 80 and something follows it:
  `WuffOpen.Open`, `WuffOpen.ShortChunkRefused`.
* wuff_buffer_fill moves the buffer before it calls the read callback and leaves `offset` alone when the callback
  fails, so a failed refill can damage the window: `WuffReader.FailedRefillExactly`. A failed tell leaves the new
  position beside the old buffer: `WuffReader.Handle.SeekTo`. What reads deliver after a failure is unexplained up to
  the next seek or format change that succeeds, and explained again behind it: `WuffRuns.SeekThenReads`.
* A NaN whose payload has no bit among the ten a half keeps narrows to an infinity: `HalfFloat.NaNKeptExactly`.
* The comment beside Matrix4::setTransformation shows the skew matrix transposed; the code agrees with translate,
  rotate, scale, shear and translate: `Matrix.ClosedIsChain`, `Matrix.CommentIsTransposed`.
* b64_encode breaks a line after linelen / 4 groups, but its length formula counts a break for every linelen
  characters. For a line length that is no multiple of four it can count too few, and the text is cut at the computed
  length; padding may be lost for free, letters may not: `Base64.RoundTripExactly`, `Base64.CutShort`. For a line
  length below four it can count too many, and the terminator stands before the computed end: `Base64.FillsExactly`,
  `Base64.FillsShort`.
* The decoder of Base64 allocates three bytes for every four characters of text. That is enough exactly when its
  meaningful characters fill fewer groups of four than the text does, or leave at most one over:
  `Base64.DecodeFitsExactly`, `Base64.UnpaddedOverruns`.
* ParkingLot::sweep makes a slot free whether or not the table took its value out. After a refused write the value
  stays, and the next holder of the slot finds it there: `ParkingLot.SweepMeans`, `ParkingLot.RefusedSweepKeeps`,
  `LotRuns.FoundInSlot`.
* ParkingLot::detach drops the pending slots, and a release after it is ignored. Their numbers are never given out
  again, even by a lot attached anew, and whoever parked before that reads nil: `LotRuns.LostForGood`,
  `LotRuns.ReadsBack`.
* lh_object_dispose makes the cache forget whatever wrapper it has for the address. An object that got a second wrapper
  loses the entry of that one when the first is disposed of, and gets a third: `Wrappers.ThenCached`,
  `Wrappers.SecondWrapper`.
* parseImageSize multiplies in 64 bits; a picture too large for that is recorded with another size:
  `MipChain.WrappedSize`, `MipChain.SizeIsTrue`.

## Model

| member | source | states |
|---|---|---|
| WuffSlices.ConvertedSample | src/libraries/Wuff/wuff_convert.c:11-93 | sample k of the full conversion is the conversion of sample k of the data, wherever the stream was cut |
| WuffSlices.ConvertedSplit | src/libraries/Wuff/wuff_convert.c:11-93 | converting a stream in two parts and concatenating gives the conversion of the whole |
| WuffSlices.RoundTrip | src/libraries/Wuff/wuff_convert.c:11-93 | a sample-wise inverse is an inverse on arrays of any length |
| WuffSlices.Sliced | src/libraries/Wuff/wuff_convert.c:17-93 | the head, samples, tail slicing shared by the integer converters writes exactly bytes [offset, offset + head + samples * size + tail) of the full conversion, and nothing behind them |
| WuffSlices.AppendPart | src/libraries/Wuff/wuff_convert.c:17-93 | one partial copy of a converted sample continues the slice where it stopped |
| WuffSlices.CopyThrough | src/libraries/Wuff/wuff_convert.c:11-15 | the copy for equal formats is the same slice of the identity conversion |
| WuffSlices.ToUnsigned8 | src/libraries/Wuff/wuff_convert.c:151-162 | the loops into 8 bits, where a sample cannot be cut, write the same slice |
| WuffSlices.SliceOfStream | src/libraries/Wuff/wuff.c:141-172 | a slice of the buffered window is the matching stretch of the one-shot conversion of the data chunk |
| WuffConvert.Convert | src/libraries/Wuff/wuff_internal.c:43-210 | the installed converter writes the slice of the conversion for its pair of formats, for all pairs |
| WuffConvert.WidenNarrow | src/libraries/Wuff/wuff_convert.c:151-483 | 8-16-8, 8-32-8, 16-24-16, 16-32-16 and 24-32-24 return every sample unchanged |
| WuffConvert.WidenNarrowStream | src/libraries/Wuff/wuff_convert.c:151-483 | the same for whole arrays of any length |
| WuffConvert.NarrowS24Exactly | src/libraries/Wuff/wuff_convert.c:293-304 | 24 to 8 bits returns the middle byte, and agrees with the 32-bit route if and only if the two high bytes are equal |
| WuffConvert.WidenNarrowS24Exactly | src/libraries/Wuff/wuff_convert.c:293-304 | 8-24-8 returns silence for every sample, so it is the identity if and only if the sample is silence |
| WuffPlan.AskPastHead | src/libraries/Wuff/wuff_internal.c:256-277 | the head, whole samples and tail asked for add up to the request exactly |
| WuffPlan.SettleFits | src/libraries/Wuff/wuff.c:132-169 | with any number of samples available the settled plan is a proper slice, uses no more samples than there are, makes progress and fits the caller's size |
| WuffPlan.SettledLength | src/libraries/Wuff/wuff_internal.c:256-277 | exactly how many bytes a read yields when enough is buffered, in all phases |
| WuffPlan.ScarceLength | src/libraries/Wuff/wuff.c:141-169 | with too few samples buffered each is used to its last byte |
| WuffPlan.YieldIsLength | src/libraries/Wuff/wuff.c:118-169 | what a read answers is the length of its settled plan: all that was asked for, less one sample in the lost-sample case, when enough is buffered, and every buffered sample to its last byte when not |
| WuffPlan.CursorsInStep | src/libraries/Wuff/wuff.c:171-188 | released samples and emitted bytes agree, and a sample cut in two stays buffered |
| WuffReader.StreamLength | src/libraries/Wuff/wuff_internal.c:364-367 | the stream length is the number of whole blocks in the data chunk |
| WuffReader.Handle.constructor | src/libraries/Wuff/wuff_internal.c:415-438 | a fresh handle agrees with its parsed header, wherever the parsing has left the file cursor |
| WuffReader.Handle.Setup | src/libraries/Wuff/wuff_internal.c:10-29 | setup establishes the coupling of cursors and buffer at position 0; without a failing callback it succeeds if and only if the file cursor stands in the data chunk or at its end |
| WuffReader.Handle.Open | src/libraries/Wuff/wuff.c:8-35 | opening gives a valid handle in the format of the stream, under the same condition |
| WuffOpen.Open | src/libraries/Wuff/wuff_internal.c:10-29 | with the data at byte 44 and the header fetched in one read of 80 bytes, opening succeeds if and only if the data chunk reaches byte 80 or nothing follows it, and the handle then holds exactly the data |
| WuffOpen.ShortChunkRefused | src/libraries/Wuff/wuff_internal.c:440-459 | a data chunk of 20 bytes with 36 more behind it is refused |
| WuffOpen.HeaderOf | src/libraries/Wuff/wuff_internal.c:279-344 | such a file has its signatures, the format chunk and the data chunk where they are looked for |
| WuffReader.Handle.PositionInStream | src/libraries/Wuff/wuff.c:50-192 | in every coupled state the position is at most the stream length |
| WuffReader.Handle.PhaseIsRemainder | src/libraries/Wuff/wuff.c:136-138 | the block offset modulo the sample size is the number of bytes already emitted of the split sample |
| WuffReader.Handle.BufferClear | src/libraries/Wuff/wuff_internal.c:440-459 | clearing recomputes bytes_left from the cursor, refuses a cursor outside the data chunk, and changes nothing when it refuses or the tell callback fails |
| WuffReader.Handle.SeekTo | src/libraries/Wuff/wuff.c:50-72 | a seek lands on the clamped block and restores the coupling and the window; a failed seek callback changes nothing, a failed tell callback leaves the new position beside the old buffer |
| WuffReader.Handle.SetFormat | src/libraries/Wuff/wuff.c:99-116 | a format change restarts the block at the clamped position and leaves a valid handle, whatever state it finds; an unknown format changes nothing |
| WuffReader.Handle.BufferFill | src/libraries/Wuff/wuff_internal.c:461-491 | a refill slides the window and extends it with the next file bytes, and grows unless the source or chunk is at its end |
| WuffReader.Handle.SlideAndRead | src/libraries/Wuff/wuff_internal.c:470-484 | after memmove and read the buffer front is the window followed by the bytes read |
| WuffReader.FailedRefillExactly | src/libraries/Wuff/wuff_internal.c:470-484 | the slide before a failing read leaves every window intact if and only if it moves nothing or does not reach it |
| WuffReader.Handle.BufferRequest | src/libraries/Wuff/wuff_internal.c:512-540 | grants as many of the wanted samples as are buffered after at most one refill |
| WuffReader.Handle.BufferRelease | src/libraries/Wuff/wuff_internal.c:493-510 | releases whole samples, or answers its error and changes nothing when more are asked for than are held |
| WuffReader.Handle.Advance | src/libraries/Wuff/wuff.c:174-188 | position, block offset, buffer offset and source cursor move together; the release never takes its error |
| WuffReader.Handle.ConvertBuffered | src/libraries/Wuff/wuff.c:169 | the converter call writes the next stretch of the one-shot conversion |
| WuffReader.Handle.Deliver | src/libraries/Wuff/wuff.c:152-191 | the bytes written are the next ones of the one-shot conversion and the cursors follow |
| WuffReader.Handle.Read | src/libraries/Wuff/wuff.c:118-192 | each call writes at most the requested size and nothing behind it, in any state; from a valid one the bytes are the next of the one-shot conversion and as many as its granted samples yield, and an empty answer means no whole sample has arrived |
| WuffReader.Handle.Serve | src/libraries/Wuff/wuff.c:141-191 | a settled plan is delivered, and if it uses up every sample less than one is left |
| WuffReader.Handle.ScarceDrains | src/libraries/Wuff/wuff.c:141-191 | a read granted fewer samples than it wanted leaves less than one sample buffered |
| WuffReader.Handle.DrainedIsWhole | src/libraries/Wuff/wuff.c:118-192 | a drained handle has delivered the one-shot conversion to its end |
| WuffReader.CarryInto | src/libraries/Wuff/wuff.c:174-184 | carrying an overrun block offset into the position keeps the total |
| WuffRuns.PiecesJoin | src/libraries/Wuff/wuff.c:118-192 | from a known position delivered pieces concatenate to one stretch of the one-shot conversion, however the reads were cut |
| WuffRuns.ExplainsRest | src/libraries/Wuff/wuff.c:50-192 | the rest of an explained run is explained from where its front has led |
| WuffRuns.SeekThenReads | src/libraries/Wuff/wuff.c:50-192 | anywhere in a run, whatever has failed before, a seek that succeeds and the bytes delivered behind it are the stretch of the one-shot conversion that starts at the clamped position |
| WuffRuns.PlayOne | src/libraries/Wuff/wuff.c:50-192 | the event of one command is the one it calls for: the next bytes and how many, the clamped position, the start of the block in the new format, or a failure exactly when a callback failed |
| WuffRuns.PlaySeek | src/libraries/Wuff/wuff.c:50-72 | a seek that succeeds leaves the stream at the clamped position, also after failures |
| WuffRuns.PlayFormat | src/libraries/Wuff/wuff.c:99-116 | a format change leaves the stream at the start of the block it was in, in the new format, and of some block after a failure |
| WuffRuns.PlayRead | src/libraries/Wuff/wuff.c:118-192 | a read delivers the next bytes, as many as some number of buffered samples yields |
| WuffRuns.Play | src/libraries/Wuff/wuff.c:50-192 | every run of seeks, format changes and reads, with callbacks failing anywhere, is explained command by command by the data chunk alone, and the handle stands where the log says |
| WuffRuns.Drain | src/libraries/Wuff/wuff.c:118-192 | reading until nothing comes delivers all that was left of the one-shot conversion, unless the source answers short reads |
| WuffChunk.WalkMeaning | src/libraries/Wuff/wuff_internal.c:372-413 | found means the first wanted header with no stop before it; not found means the walk reached the stop or fewer than eight bytes |
| WuffChunk.DivergesMeaning | src/libraries/Wuff/wuff_internal.c:372-413 | the walk does not end if and only if it passes header after header for ever |
| WuffChunk.TerminatesExactly | src/libraries/Wuff/wuff_internal.c:372-413 | it does not end if and only if it passes a header of size 0xFFFFFFF8 |
| WuffChunk.SearchCanHang | src/libraries/Wuff/wuff_internal.c:305-316 | for every RIFF/WAVE file whose first chunk has that size and is neither format nor data, the search for the format chunk does not end |
| WuffChunk.HangingFile | src/libraries/Wuff/wuff_internal.c:305-316 | one such file of 36 bytes |
| WuffChunk.SearchChunk | src/libraries/Wuff/wuff_internal.c:372-413 | the loop with seeks and reads answers what the walk finds; short reads can only make it give up |
| WuffChunk.FetchHeader | src/libraries/Wuff/wuff_internal.h:52-61 | the header copy is the id and the little-endian size at the offset |
| GrowableStack.GrowableStack.Push | src/libraries/box2d/b2_growable_stack.h:53-69 | pushing appends, across reallocation |
| GrowableStack.GrowableStack.Pop | src/libraries/box2d/b2_growable_stack.h:71-76 | popping removes and returns the last element |
| Geometry.MeetsSegmentBox | src/libraries/box2d/b2_dynamic_tree.h:240-264 | a box holding a point of the segment overlaps the bounding box of every longer piece of the segment |
| Geometry.NotSeparated | src/libraries/box2d/b2_dynamic_tree.h:266-274 | nor does the separating-axis test part it from the segment, for any multiple of the normal |
| DynamicTree.SharedMeansNested | src/libraries/box2d/b2_dynamic_tree.h:33-58 | two subtrees that share a node are nested |
| DynamicTree.SiblingsDisjoint | src/libraries/box2d/b2_dynamic_tree.h:33-58 | the subtrees of two siblings share no node |
| DynamicTree.EveryNodeUnderRoot | src/libraries/box2d/b2_dynamic_tree.h:33-58 | every live node of a valid pool hangs under the root |
| DynamicTree.BoxesNest | src/libraries/box2d/b2_dynamic_tree.h:33-58 | every box contains the boxes of everything below it |
| DynamicTree.VisitExactly | src/libraries/box2d/b2_dynamic_tree.h:187-220 | pruning a monotone test at inner nodes loses no leaf |
| DynamicTree.VisitOnce | src/libraries/box2d/b2_dynamic_tree.h:187-220 | a traversal meets no leaf twice |
| DynamicTree.VisitFromRoot | src/libraries/box2d/b2_dynamic_tree.h:187-220 | from the root exactly the passing leaves are met, each once |
| DynamicTree.PushChildren | src/libraries/box2d/b2_dynamic_tree.h:213-217 | replacing a node by its children on the stack keeps what is pending and shrinks the measure |
| TreeQuery.FrontIsUnique | src/libraries/box2d/b2_dynamic_tree.h:205-213 | what a stopping callback lets through is determined by the full list |
| TreeQuery.QueryStep | src/libraries/box2d/b2_dynamic_tree.h:187-220 | one turn of the loop keeps the report a front of the full list |
| TreeQuery.Tree.Query | src/libraries/box2d/b2_dynamic_tree.h:187-220 | Query ends, reports the full list in order when the callback always continues, and nothing after its first false |
| TreeQuery.QueryReportsExactly | src/libraries/box2d/b2_dynamic_tree.h:187-220 | with an always-continue callback exactly the overlapping leaves are reported, each once |
| TreeQuery.SegmentPruningIsSound | src/libraries/box2d/b2_dynamic_tree.h:240-274 | neither test ever prunes a box that contains one the clipped segment meets |
| TreeQuery.RayStep | src/libraries/box2d/b2_dynamic_tree.h:251-305 | one turn of the loop keeps every met leaf either visited or pending, as the segment shrinks |
| TreeQuery.Tree.RayCast | src/libraries/box2d/b2_dynamic_tree.h:222-306 | for any callback: no leaf twice, and unless it answers zero every leaf the segment meets at its shortest is visited |
| TreeQuery.ClipIsMinimum | src/libraries/box2d/b2_dynamic_tree.h:276-298 | with a closest-hit callback the clip is the least of the visited hits and the start |
| TreeQuery.RayCastFindsClosest | src/libraries/box2d/b2_dynamic_tree.h:222-306 | the cast ends with the minimum hit fraction over all leaves and the initial one |
| ParkingLot.Lot.Attach | src/lh/lh.cpp:536-550 | an attach, first or later, leaves a fresh table, live slots stale and nothing else changed; without a table, or its registration, it changes nothing |
| ParkingLot.Lot.Detach | src/lh/lh.cpp:552-562 | after a detach there is no table to write to, nothing is pending, and what was is lost |
| ParkingLot.Lot.Sweep | src/lh/lh.cpp:617-631 | every released slot becomes free and loses its value unless the table refused that very write; the whole new state is AfterSweep |
| ParkingLot.SweepMeans | src/lh/lh.cpp:617-631 | what AfterSweep means: exactly the released slots whose write was accepted are nil, and no other slot is touched |
| ParkingLot.Lot.FreePending | src/lh/lh.cpp:622-630 | the loop hands every pending slot to the free list and leaves the table as the accepted writes make it |
| ParkingLot.SweptAt | src/lh/lh.cpp:622-630 | after those writes exactly the released slots whose write was not refused are nil, and the rest is as it was |
| ParkingLot.Lot.Park | src/lh/lh.cpp:581-601 | a parked value gets a slot no Parked has, and the slot holds it; the whole new state is AfterPark, the slot Parking |
| ParkingLot.ParkMeans | src/lh/lh.cpp:581-601 | what AfterPark means: a slot given out belongs to nobody, was nil unless a write to clear it was refused, and holds the value; a refused park writes nothing and leaks no slot |
| ParkingLot.ParkSound | src/lh/lh.cpp:581-601 | every slot number below next stays in exactly one of live, stale, lost, free and pending, and only live, pending and uncleared slots hold values |
| ParkingLot.Lot.Fill | src/lh/lh.cpp:586-601 | the part behind the sweep: the slot freed last or a new one holds the value, or goes back |
| ParkingLot.Lot.TakeSlot | src/lh/lh.cpp:586-593 | the slot freed last, or the next unused number |
| ParkingLot.Lot.ReleaseLater | src/lh/lh.cpp:610-615 | a release only queues the slot, so it is not reissued before a sweep; without a table it is lost |
| LotRuns.Run | src/lh/lh.cpp:525-652 | any run of constructions, destructions, sweeps, detaches and attaches: the lot, its table and every Parked are at each moment what After gives, and every Parked alive reads its own value or nil |
| LotRuns.Play | src/lh/lh.cpp:525-652 | one command makes of the lot, its table and every Parked what Then says |
| LotRuns.RunGood | src/lh/lh.cpp:525-652 | at every moment of any run slots are dealt out each to one, and every Parked alive owns its own |
| LotRuns.ReadsBack | src/lh/lh.cpp:603-608 | at every moment a Parked alive reads its own value if it got a slot of the table attached, and nil otherwise |
| LotRuns.IssuedClean | src/lh/lh.cpp:581-601 | at every moment of any run a slot given out belongs to nobody and is nil, unless a write to clear it was refused |
| LotRuns.SilentOnceDetached | src/lh/lh.cpp:552-562 | from any moment a lot is detached its table is left alone up to the next attach |
| LotRuns.LostForGood | src/lh/lh.cpp:552-562 | a slot pending at a detach, or released after it, is never given out again |
| ParkingLot.RefusedSweepKeeps | src/lh/lh.cpp:617-631 | a slot whose write is refused becomes free with its value still in it, and is the next one given out |
| LotRuns.FoundInSlot | src/lh/lh.cpp:617-631 | a run in which a slot is given out with an earlier value in it |
| Wrappers.HoldingClear | src/lh/lh.cpp:176-193 | disposing a wrapper takes away exactly its one reference |
| Wrappers.PointersAlive | src/lh/lh.cpp:869-880 | no wrapper with a pointer refers to a freed object |
| Wrappers.Machine.PushObject | src/lh/lh.cpp:847-867 | answers a reachable wrapper of the object asked for; the whole new state is AfterPush, the answer Pushed |
| Wrappers.PushMeans | src/lh/lh.cpp:847-867 | what they mean: the cached wrapper if there is one, else a new one with one reference; without an answer nothing changes |
| Wrappers.Machine.Dispose | src/lh/lh.cpp:176-193 | the wrapper has no object any more, and the object is freed if and only if nothing else holds it; the whole new state is AfterDispose |
| Wrappers.DisposeMeans | src/lh/lh.cpp:176-193 | a disposed wrapper has no object, and the object is freed if and only if nothing else holds it |
| Wrappers.Machine.Condemn | src/lh/lh.cpp:847-867 | the end of a marking removes the entries of unreachable wrappers, so the cache never answers one |
| Wrappers.Machine.CheckObject | src/lh/lh.cpp:869-880 | a binding gets the object exactly when the value is not released, the type fits and the wrapper is not disposed of, and then it is alive |
| Wrappers.Run | src/lh/lh.cpp:176-193 | any interleaving of pushes, checks, disposals, collections and outside references: the machine is at each moment what After gives and each answer the one Answer gives there |
| Wrappers.Play | src/lh/lh.cpp:176-193 | one command makes of the machine what Then says and answers what Answer says |
| Wrappers.RunSound | src/lh/lh.cpp:847-867 | at every moment count = outside references + wrappers holding, and a cached wrapper holds its object and is not given up |
| Wrappers.RunEvolves | src/lh/lh.cpp:176-193 | a wrapper keeps its object until it is disposed of and never has one again |
| Wrappers.AnswerLasts | src/lh/lh.cpp:847-867 | what a push has answered was a wrapper of the object asked for, and has been of no other since |
| Wrappers.CheckedAlive | src/lh/lh.cpp:869-880 | what a check hands a binding anywhere in a run is alive |
| Wrappers.ThenCached | src/lh/lh.cpp:183-192 | the cache keeps the wrapper of an object through a command if and only if that neither disposes of any wrapper of the object nor gives up the cached one |
| Wrappers.OneWrapper | src/lh/lh.cpp:847-867 | as long as it does, every push of the object answers that one wrapper |
| Wrappers.SecondWrapper | src/lh/lh.cpp:176-193 | an object with two wrappers: disposing of the uncached one makes the cache forget the other |
| RefCounting.DropCounted | src/common/Object.cpp:48-61 | one release keeps counts equal to holders, with a deleted table's references on their way out |
| RefCounting.SettleCounted | src/common/Object.cpp:48-61 | a whole cascade of releases keeps them equal; nothing is released twice |
| RefCounting.SettleConcat | src/common/Variant.cpp:111-119 | cascades compose |
| RefCounting.Diamond | src/common/Object.cpp:48-61 | two atomic releases commute |
| RefCounting.AnyFirst | src/common/Object.cpp:48-61 | any pending release may go first |
| RefCounting.AnyOrder | src/common/Object.cpp:48-61 | interleaved releases settle to the same heap in every order |
| RefCounting.RetainCounted | src/common/Object.cpp:48-51 | a retain adds exactly one holder |
| RefCounting.RetainCommutes | src/common/Object.cpp:48-61 | a retain from a held reference commutes with every cascade going on elsewhere |
| RefHolders.SettleNoRevival | src/common/Object.cpp:53-61 | a deleted object stays deleted |
| RefHolders.RetainThenRelease | src/common/Variant.cpp:121-141 | assigning a holder one that shares its object leaves every count as it was |
| RefHolders.World.AliveWhileHeld | src/common/Object.cpp:48-61 | an object lives exactly as long as something holds it |
| RefHolders.World.Release | src/common/Object.cpp:53-61 | the recursive release ends and leaves the settled heap |
| RefHolders.World.ReleaseAll | src/common/Variant.cpp:111-119 | the destructor of a table's elements ends and leaves the settled heap |
| RefHolders.World.New | src/common/Variant.cpp:49-90 | a new object starts with the one reference of its holder |
| RefHolders.World.Copy | src/common/Variant.cpp:92-102 | a copy retains once |
| RefHolders.World.Move | src/common/Variant.cpp:104-109 | a move changes no count and leaves the source empty |
| RefHolders.World.Destroy | src/common/Variant.cpp:111-119 | destroying a holder settles its reference |
| RefHolders.World.Assign | src/common/Variant.cpp:121-141 | assignment retains before it releases; self-assignment changes nothing |
| RefHolders.Run | src/common/Variant.cpp:49-141 | over any run, whose every moment is the one After gives, counts equal live holders, nested Variants included, and deleted objects stay deleted |
| RefHolders.Play | src/common/Variant.cpp:49-141 | one command makes of the heap and the holders what Then says |
| Base64.LetterIsTable | src/common/b64.cpp:30-31 | the closed form of the encoder's letters is its table |
| Base64.LookupIsTable | src/common/b64.cpp:33-34 | the closed form of the decoder's lookup is its range test, table and offset |
| Base64.LetterLookup | src/common/b64.cpp:30-34 | the two tables undo each other; padding and line breaks mean nothing |
| Base64.BlockBits | src/common/b64.cpp:39-45 | the shifts and masks of the two block functions are inverse |
| Base64.RegroupSextets | src/common/b64.cpp:114-119 | regrouping the sextets of any bytes gives the bytes |
| Base64.FilterQuads | src/common/b64.cpp:39-45 | the meaningful characters of the encoded groups are the sextets of the data |
| Base64.FilterLines | src/common/b64.cpp:141-163 | line breaks never affect what a text means |
| Base64.RoundTrip | src/common/b64.cpp:47-175 | decoding what was encoded gives the data back for every data and every line length that is zero, a multiple of four or below four |
| Base64.RoundTripExactly | src/common/b64.cpp:47-175 | for any line length it does if and only if the breaks in front of the last group are at most those the length formula counts plus the padding |
| Base64.CutShort | src/common/b64.cpp:47-175 | twelve bytes at line length seven are not decoded back |
| Base64.EncodedFits | src/common/b64.cpp:47-175 | what was encoded, even when cut short, never needs more room than the decoder allocates |
| Base64.FillsExactly | src/common/b64.cpp:55-112 | the text fills the computed length if and only if the formula counts at most one break more than stand before the last group |
| Base64.FillsShort | src/common/b64.cpp:55-112 | one byte at line length one: the terminator stands before the computed end |
| Base64.AlignedFills | src/common/b64.cpp:55-112 | which it does for every multiple of four |
| Base64.DecodeFitsExactly | src/common/b64.cpp:121-175 | the decoder's room is enough if and only if the meaningful characters fill fewer groups of four than the text does or leave at most one over |
| Base64.UnpaddedOverruns | src/common/b64.cpp:121-175 | two letters without padding: no room is allocated and one byte is written |
| Base64.LinesLength | src/common/b64.cpp:55-58 | a text broken after every full line is longer by one character for each |
| Base64.EncodedLines | src/common/b64.cpp:75-108 | a line break stands exactly after every full line of linelen / 4 groups, one at the least, and at the uncut end |
| Base64.TextStep | src/common/b64.cpp:75-108 | one turn of the loop appends a group, and a break exactly at the end of a line or of the text |
| Base64.QuadAt | src/common/b64.cpp:75-98 | block k of the input is encoded to group k of the text |
| Base64.EndLine | src/common/b64.cpp:101-107 | a break after a full line or the last block, if there is still room |
| Base64.PutBlock | src/common/b64.cpp:95-96 | a group is written as far as there is room |
| Base64.TextLength | src/common/b64.cpp:49-61 | the computed length is four characters a block and a break for every linelen characters, and zero only for no input |
| Base64.Encode | src/common/b64.cpp:47-112 | for every line length writes as much of the broken-up text as the computed length has room for, a terminator behind it, and answers null for no input |
| Base64.NextSextet | src/common/b64.cpp:145-153 | the inner loop finds the next meaningful character and never lets the terminator count |
| Base64.TakeSextets | src/common/b64.cpp:143-163 | up to four sextets; what an earlier turn left in the block stays where it is |
| Base64.RegroupBlock | src/common/b64.cpp:165-170 | stale cells of the block never reach the output |
| Base64.Decode | src/common/b64.cpp:121-175 | writes the bytes of the meaningful characters and reports how many |
| Base64.EncodeDecode | src/common/b64.cpp:47-175 | the two loops in sequence return every nonempty data, for every line length that is zero or a multiple of four |
| StringMap.ProbesDistinct | src/common/StringMap.h:116-118 | a stretch of SIZE probes tries no slot twice, even when the sum wraps at 2^32 |
| StringMap.FreeSlot | src/common/StringMap.h:111-128 | with fewer than SIZE entries one of the probes of any hash finds an empty slot |
| StringMap.AllOwned | src/common/StringMap.h:111-128 | if every probe of that stretch finds a taken slot, there are SIZE entries |
| StringMap.Inserted | src/common/StringMap.h:116-128 | an entry in the first empty slot keeps every older entry in reach |
| StringMap.FoundFirst | src/common/StringMap.h:72-91 | the first matching slot holds the oldest entry with the key |
| StringMap.NoneFound | src/common/StringMap.h:72-91 | an empty slot or the end of the probe means no entry has the key |
| StringMap.Inverse | src/common/StringMap.h:72-109 | with distinct keys and values the two lookups are inverse |
| StringMap.StringMap.constructor | src/common/StringMap.h:46-56 | builds the table of a list of entries |
| StringMap.StringMap.Streq | src/common/StringMap.h:58-70 | true if and only if the strings are equal |
| StringMap.StringMap.Hash | src/common/StringMap.h:143-152 | the hash loop in 32 bits |
| StringMap.StringMap.Find | src/common/StringMap.h:72-91 | answers the value of the first inserted add of the key, and nothing for keys never inserted |
| StringMap.StringMap.FindKey | src/common/StringMap.h:93-109 | answers the last key given for the value, within bounds |
| StringMap.StringMap.Add | src/common/StringMap.h:111-141 | the first SIZE adds always insert; answers whether it inserted a constant within bounds |
| StringMap.BothWays | src/common/StringMap.h:46-141 | a table of up to SIZE distinct pairs answers both questions with its pairs and nothing else |
| TypeTree.ChainOrder | src/common/types.h:46-61 | of two types on one parent chain one is above the other |
| TypeTree.Types.Init | src/common/types.cpp:39-58 | initialises the type and its missing ancestors, in any order of calls, and no id given out changes |
| TypeTree.Types.Enter | src/common/types.cpp:39-52 | the first half gives the type the next id and its own bit |
| TypeTree.Types.Inherit | src/common/types.cpp:53-58 | the second half adds the bits of the parent |
| TypeTree.Types.GetId | src/common/types.cpp:60-65 | an id is below MAX_TYPES and names one type |
| TypeTree.Types.BitsAreChain | src/common/types.h:53-61 | the bit of a type's id is set if and only if it is on the chain, also for a type not initialised |
| TypeTree.Types.Isa | src/common/types.h:46-61 | isa holds if and only if the other type is the type or on its parent chain |
| TypeTree.BestStep | src/lh/lh.cpp:51-65 | each candidate keeps the nearest of those seen, in whatever order they come |
| TypeTree.NearestIs | src/lh/lh.cpp:45-67 | the type every other match isa is the first registered one on the way up |
| TypeTree.NearestAfterAdd | src/lh/lh.cpp:45-79 | registering a type changes the answer for exactly the types that have it on their chain with nothing registered nearer |
| TypeTree.Registry.TagFor | src/lh/lh.cpp:45-67 | the unordered scan equals the walk up the parents to the first registered type |
| HalfFloat.NarrowFloors | src/common/floattypes.cpp:99-166 | for floats below 65536, denormals included, base plus shifted mantissa is the code whose value is at most the float's and whose successor's is above it |
| HalfFloat.CodesOrdered | src/common/floattypes.cpp:162-166 | codes of halves are ordered like their values |
| HalfFloat.BelowLimit | src/common/floattypes.cpp:101-140 | the tables treat a float as finite if and only if its magnitude is below 65536 |
| HalfFloat.Truncates | src/common/floattypes.cpp:162-166 | float32to16 returns the half of largest magnitude not exceeding the float's, with its sign |
| HalfFloat.Overflows | src/common/floattypes.cpp:126-139 | from 65536 up, and for infinities, it returns an infinity |
| HalfFloat.NaNKeptExactly | src/common/floattypes.cpp:133-166 | a NaN stays one if and only if its payload has a bit a half can keep |
| HalfFloat.NarrowMonotone | src/common/floattypes.cpp:162-166 | narrowing keeps the order of magnitudes |
| HalfFloat.NarrowUndoes | src/common/floattypes.cpp:157-166 | narrowing any float that stands for a half gives the half |
| HalfFloat.ConvertMantissa | src/common/floattypes.cpp:43-58 | the loop normalises a denormal half to the float of the same value |
| HalfFloat.WidenStands | src/common/floattypes.cpp:157-160 | mantissa plus exponent entry is the float with the half's sign and value, or its infinity or NaN |
| HalfFloat.Tables.Init | src/common/floattypes.cpp:60-141 | fills all five tables; a second call changes nothing |
| HalfFloat.Tables.FillMantissas | src/common/floattypes.cpp:68-76 | the mantissa table |
| HalfFloat.Tables.FillExponents | src/common/floattypes.cpp:78-96 | the exponent and offset tables |
| HalfFloat.Tables.FillNarrowing | src/common/floattypes.cpp:99-140 | the base and shift tables |
| HalfFloat.Tables.ToFloat32 | src/common/floattypes.cpp:157-160 | the table lookup yields a float that stands for the half |
| HalfFloat.Tables.ToFloat16 | src/common/floattypes.cpp:162-166 | the table lookup is the truncation the lemmas are about |
| HalfFloat.Tables.RoundTrip | src/common/floattypes.cpp:157-166 | every half, infinities and NaNs included, survives the way to float32 and back |
| Matrix.Composition | src/common/Matrix.cpp:106-129 | a product acts on vectors as one matrix after the other |
| Matrix.Associative | src/common/Matrix.cpp:106-129 | products associate |
| Matrix.SignedByRows | src/common/Matrix.cpp:318-442 | the determinant is the same by rows as by columns |
| Matrix.InverseBothSides | src/common/Matrix.cpp:318-442 | a matrix with nonzero determinant times its inverse, on either side, is the identity |
| Matrix.ClosedIsChain | src/common/Matrix.cpp:265-282 | the closed form equals identity, translate, rotate, scale, shear, translate back, for any cosine and sine |
| Matrix.CommentIsTransposed | src/common/Matrix.cpp:268-274 | an input that tells the code from its comment |
| Matrix.Matrix4.Multiply | src/common/Matrix.cpp:106-129 | the sixteen sums are the product |
| Matrix.Matrix4.TimesAssign | src/common/Matrix.cpp:172-177 | multiplies in place, also by itself |
| Matrix.Matrix4.SetTransformation | src/common/Matrix.cpp:265-282 | leaves the product of the six transformations |
| Matrix.Matrix4.TransformStepwise | src/common/Matrix.cpp:284-310 | the six calls leave the same matrix as setTransformation |
| Matrix.Matrix4.Inverse | src/common/Matrix.cpp:318-442 | returns a two-sided inverse |
| NormalMatrix.TransposedInverseColumns | src/common/Matrix.cpp:551-576 | the columns are cross products of the other columns over the determinant |
| NormalMatrix.KeepsAngles | src/common/Matrix.cpp:551-576 | normals mapped with it keep their dot product with vectors mapped by the matrix |
| MipChain.LevelIsShift | src/libraries/ddsparse/ddsparse.cpp:583-584 | level i is max(w >> i, 1) wide and max(h >> i, 1) high |
| MipChain.SmallerLevels | src/libraries/ddsparse/ddsparse.cpp:487-556 | no level takes more than the first |
| MipChain.SizeIsTrue | src/libraries/ddsparse/ddsparse.cpp:533-555 | the size in 64 bits is the true one if and only if that fits, which only rows of more than 32 bits a pixel can fail |
| MipChain.WrappedSize | src/libraries/ddsparse/ddsparse.cpp:544-555 | a picture whose recorded size is not its own |
| MipChain.Tiles | src/libraries/ddsparse/ddsparse.cpp:558-590 | if the size of the first level fits 64 bits, each level starts where the ones before it end, has its true size and lies within the data |
| MipChain.RefusalIsFinal | src/libraries/ddsparse/ddsparse.cpp:569-573 | the level refused could not have been part of any longer chain |
| MipChain.Parser.ParseTexData | src/libraries/ddsparse/ddsparse.cpp:558-590 | on success texData is the chain of all levels; on failure it is unchanged and a level did not fit |

## Left out

- WuffReader.Handle.Read: says nothing of what a failing read callback writes; it is taken to leave the buffer alone.
- WuffReader.Handle.BufferRequest: the product of samples and sample size is unbounded; it could wrap only for requests of 2^61 samples.
- WuffChunk.SearchChunk: asks for a walk that ends, which TerminatesExactly characterises, because the method would not return otherwise.
- WuffConvert.Convert: conversions from and to floating point are an arbitrary byte function of the sample; their rounding is not modelled.
- wuff_init_stream and wuff_check_bits: a handle starts from a parsed header; WuffOpen.Open takes the files whose data begins at byte 44.
- WuffReader.AllocateBuffer: allocation does not fail.
- TreeQuery.Tree.RayCast: over the reals, with an arbitrary multiple of the direction where the code normalises it; asserts on a zero direction are the precondition that the end points differ.
- Insertion, removal, balancing and the move buffer of the tree are not part of this model; validity of the pool is the precondition of both traversals.
- GrowableStack.GrowableStack.Push: capacities are unbounded where the code doubles an int32.
- ParkingLot.Lot.TakeSlot: the wrap of the 32-bit slot counter is not modelled.
- ParkingLot::lotOf and the map of lots behind it are left out.
- Wrappers.Machine.Condemn: the collector is any sequence of steps that condemn unreachable wrappers and later dispose of them; lhat itself is not part of this model.
- Wrappers.Machine.CheckObject: the outcome of the type test is a parameter; the test itself is modelled by TypeTree.
- RefHolders.World.Assign: the source of an assignment is a holder outside the destination's own table.
- RefHolders.World.New: a table's contents are fixed when it is made, as SharedTable vectors are filled before they are shared.
- Reference counts are unbounded, and each atomic operation is one step; memory order is not modelled.
- Base64.Encode: data whose encoded text would be too long for a size_t, where the length wraps around.
- Base64.EncodeDecode: for line lengths that are no multiple of four the characters between terminator and computed end are never written, so what a caller decodes by the computed length is not determined.
- Base64.Decode: text that would overrun the room allocated for it is outside the precondition, which is the exact one.
- StringMap.StringMap.Add: printing an out-of-bounds constant is left out; getNames is a filter of the reverse array.
- TypeTree.Types.Init: the name map is left out, and there are fewer than 128 types, as the bitset demands.
- TypeTree.Registry.TagFor: the hash table hands out each key, in any order; typeFor is a plain lookup.
- float11 and float10 conversions, and the pixel format tables, are lookups of one line each.
- Matrix.Matrix4.Inverse: over the reals; a zero determinant, where the code divides by zero, is the precondition.
- Matrix.Matrix4.Multiply: the SIMD variants are not modelled; cosine and sine are parameters, and rounding is left out.
- MipChain.Parser.ParseTexData: sides are positive ints, header parsing and the mapping from formats to layouts are left out, and a block-compressed side within three of the largest int is taken to round up without overflow.
