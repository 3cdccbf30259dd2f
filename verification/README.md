# UpKit firmware updates: a verified model

UpKit updates the firmware of small devices. This project models its core in Dafny and proves what
the parts promise each other.

- **Delta codec.** The firmware tool compresses (LZSS) and diffs (bsdiff, with its suffix sort); the
  device decodes and patches byte by byte, suspended wherever the network pauses. The halves undo
  each other for every pair of images and every way of splitting the bytes.
- **Slot store.** Slots lie on NOR flash, where erasing sets whole pages to 0xFF and programming only
  clears bits. Writing, copying, exchanging and invalidating slots act like plain byte arrays, and
  only erased bytes are programmed where that is meant.
- **Update machine.** One call takes any bytes. What it does is a function; the class refines it; the
  invariants hold over every run.
- **Bootloader.** It selects, verifies, exchanges and boots, over any sequence of boots.
- **Resumed transfers.** Requests that break off anywhere never lose or repeat a byte.

`Bytes` holds bits and numbers. The codec is `LzssFormat`, `LzssHost`, `LzssStream`, `PatchFormat`,
`PatchStream`, `Bsdiff`, `Bspatch`, `Counting` and the `Suffix*` modules, joined in `Delta`. The device
is `Flash`, `Manifest`, `Slots`, `Swap`, `Copy`, `Verifier`, `Pipeline` and `Stages`, joined with the codec
in `DeltaUpdate`; `NorCopy` holds what copying means on flash. The agents are `FsmSpec`, `FsmRuns`,
`Fsm`, `Download`, `BootSpec`, `Bootloader` and `Resume`; `UpdateBoot` joins update and boot.

Loops and objects of the source are methods and classes, each proved against a function on values;
the properties are lemmas about those functions.

What the proofs showed about the code:

- The device decoder leaves 17 ring bytes as an earlier run left them. That never matters for the
  encoder's output, and it matters for some other stream unless they are zero
  (`LzssStream.AgreesWithHostIffFresh`).
- An update whose manifest is completed by its last chunk is never verified (`FsmRuns.Delivery`).
- `diff_version` is zeroed after the manifest was checked, and the stored manifest is checked again
  (`FsmRuns.RebootsExactlyWhen`, `Resume.OnlyVersionZeroReboots`). With the server as it is, a device
  that runs any version but zero refuses the update it stored, and its bootloader then starts nothing
  if that update is the newest image (`UpdateBoot.ServedUpdateRefused`).
- A buffer longer than the image makes the digest cover more than the image
  (`Verifier.HashesImageIffBufferFits`).
- The documentation of `swap_slots` asks for a swap size that is a multiple of the buffer size. That
  is not enough: then every exchange works if and only if the buffer divides a page and a page
  divides the swap size (`Swap.DocumentedCondition`).
- The preference for bootable slots holds if and only if the first slot of the table is bootable
  (`Slots.PreferenceIffBootableFirst`).
- The match search of the diff does not always find a longest match: comparing only common lengths, it
  takes a suffix that ends early for equal. Otherwise it does (`Bsdiff.FoundIsLongest`).
- A negative length in a patch is refused by the tool and taken by the device
  (`PatchStream.NegativeLengthDiffers`).
- An update cut off before its first thousand bytes were written leaves an erased slot that looks
  newest and does not verify. The next boot then starts nothing, unless the running slot carries the
  highest version too and passes (`UpdateBoot.CutOffRefuses`).

## Model

| member | source | states |
|---|---|---|
| LzssHost.Compress | utils/firmware_tool/commands/pipeline.cpp:135-171 | for every text and either signedness of `char`: the code written decodes to the text, whatever the ring bytes a decoder does not initialise hold; it is the zero-padded bits of tokens of which each is the best one where it stands; and it has at most ceil(9n/8) bytes |
| LzssHost.FindMatch | utils/firmware_tool/commands/pipeline.cpp:146-155 | the match is the longest agreement among window positions whose byte equals the current `char`, the nearest of those; no match of two bytes gives length one |
| LzssHost.EncodeToken | utils/firmware_tool/commands/pipeline.cpp:146-158 | one token is added, the best one at the cursor: a match of the largest agreement of any window position whose byte equals the current `char`, from the nearest such position, if that is two bytes or more, and a literal otherwise; the tokens written still spell the text so far |
| LzssHost.BestTokenIsUnique | utils/firmware_tool/commands/pipeline.cpp:148-158 | at every position there is only one best token |
| LzssHost.GreedyIsUnique | utils/firmware_tool/commands/pipeline.cpp:145-171 | so the text determines the tokens written: two lists of best tokens over a whole text are equal |
| LzssHost.UnsignedIsLongest | utils/firmware_tool/commands/pipeline.cpp:149-155 | where `char` is unsigned no window position at all agrees further than the token reaches |
| LzssHost.Slide | utils/firmware_tool/commands/pipeline.cpp:159-169 | dropping the lower half of the buffer and reading on keeps the buffer a mirror of the text, N further on, so ring indices stay the same |
| LzssHost.EncodeRound | utils/firmware_tool/commands/pipeline.cpp:145-170 | every round keeps the encoder's cursor invariant and advances in the text |
| LzssHost.BitWriter.PutBit | utils/firmware_tool/commands/pipeline.cpp:58-72 | appends one bit to the bits written |
| LzssHost.BitWriter.Output1 | utils/firmware_tool/commands/pipeline.cpp:82-92 | appends the nine bits of a literal, also for a negative `char` |
| LzssHost.BitWriter.Output2 | utils/firmware_tool/commands/pipeline.cpp:94-109 | appends the fifteen bits of a match |
| LzssHost.BitWriter.Flush | utils/firmware_tool/commands/pipeline.cpp:74-80 | completes the last byte with fewer than eight zero bits |
| LzssHost.BitReader.GetBits | utils/firmware_tool/commands/pipeline.cpp:178-197 | the next n bits as a number, most significant first; -1 if the input ends before |
| LzssHost.Decompress | utils/firmware_tool/commands/pipeline.cpp:206-244 | for every byte string, the result is the reference decoding from a zeroed ring |
| LzssHost.ExpandSpells | utils/firmware_tool/commands/pipeline.cpp:145-171 | tokens that copy at distance at most N-F within the text expand to the text, for any decoder ring whose window agrees with the text: the encoder's window positions are the decoder's ring positions modulo N |
| LzssFormat.ParseTokens | utils/firmware_tool/commands/pipeline.cpp:82-109 | parsing the bits of a token stream returns the tokens, and the padding of the last byte adds none |
| LzssFormat.CopyReproduces | utils/firmware_tool/commands/pipeline.cpp:236-240 | copying from the ring, overlapping or not, reproduces the bytes the match stands for |
| LzssStream.ChunkingIrrelevant | src/core/pipeline/lzss.c:10-25 | every way of splitting a byte stream over calls leads to the same decoder state and output |
| LzssStream.EmitsDecoding | src/core/pipeline/lzss.c:29-59 | from the start of a token the resumable decoder emits the reference decoding of any bits, unfinished fields emitting nothing |
| LzssStream.StreamingDecodes | src/core/pipeline/lzss.c:29-64 | for every byte stream and every chunking the device decoder emits the reference decoding |
| LzssStream.AgreesWithHostIffFresh | src/core/pipeline/lzss.c:37-39 | device and tool decode every stream alike if and only if the ring bytes the device leaves as they were are zero, as on its first run |
| Stages.LzssStage.Feed | src/core/pipeline/lzss.c:29-64 | one call consumes the whole chunk, leaves the decoder state of the specification and feeds what it decodes to the patch applier |
| Stages.LzssStage.EndField | src/core/pipeline/lzss.c:41-58 | a complete field switches phase, or passes on a literal, or copies from the ring, updating ring and write position |
| Stages.LzssStage.constructor | src/core/pipeline/lzss.c:36-39 | a fresh start sets the first N-F ring bytes to spaces and keeps the others |
| SuffixBuckets.Qsufsort | utils/firmware_tool/commands/pipeline.cpp:324-360 | for every byte string the sort terminates, indexes both arrays in range, and leaves a permutation of 0..oldsize listing the suffixes in strictly increasing lexicographic order |
| SuffixSort.SplitGroup | utils/firmware_tool/commands/pipeline.cpp:263-322 | splitting a group by the keys h further on leaves a finer, still ordered grouping and touches nothing outside the group |
| SuffixSort.SplitSmall | utils/firmware_tool/commands/pipeline.cpp:267-284 | the selection for short groups delivers the same split |
| SuffixSort.Partition | utils/firmware_tool/commands/pipeline.cpp:286-314 | partitions a group into keys below, equal to and above the pivot, by exchanges only |
| SuffixRounds.Pass | utils/firmware_tool/commands/pipeline.cpp:343-356 | one pass doubles the number of symbols the groups are sorted by, joins runs of sorted positions, and ends the sort once that number exceeds the text |
| SuffixBuckets.BucketSort | utils/firmware_tool/commands/pipeline.cpp:329-340 | the bucket sort groups the suffixes by their first byte, in order, and marks groups of one |
| SuffixBuckets.Invert | utils/firmware_tool/commands/pipeline.cpp:359-359 | writing every position at its rank lists the suffixes in order |
| SuffixOrder.BeforeTotal | utils/firmware_tool/commands/pipeline.cpp:342-357 | any two different suffixes are ordered, so sorting by ever longer heads ends with single suffixes |
| SuffixOrder.BeforeStrict | utils/firmware_tool/commands/pipeline.cpp:342-357 | the suffix order is irreflexive and asymmetric |
| SuffixOrder.BeforeTransitive | utils/firmware_tool/commands/pipeline.cpp:342-357 | the suffix order is transitive |
| Bsdiff.MatchLength | utils/firmware_tool/commands/pipeline.cpp:362-370 | the length of the common prefix |
| Bsdiff.CommonPrefixAgrees | utils/firmware_tool/commands/pipeline.cpp:362-370 | that many bytes agree and the next ones, if any, differ |
| Bsdiff.Search | utils/firmware_tool/commands/pipeline.cpp:372-396 | settles on two neighbours of the table between the bounds, the lower one comparing below the image unless it is the lower bound, the upper one not unless it is the upper bound, and returns the one where the image agrees further |
| Bsdiff.FoundIsLongest | utils/firmware_tool/commands/pipeline.cpp:389-395 | in a suffix array, a search of the whole table finds a longest match of the image anywhere in the old one, unless some suffix of the old image ends inside its agreement with the image |
| Bsdiff.LongestIsMissed | utils/firmware_tool/commands/pipeline.cpp:389-391 | without that condition it need not: old image 1 2 1, looking for 1 2, every search settles on one byte |
| Bsdiff.Scan | utils/firmware_tool/commands/pipeline.cpp:474-489 | stops at the first position whose match is as long as the running offset predicts, or over eight bytes longer, or at the end; the prediction is the number of agreements at the running offset up to the end of the furthest match seen; every access is in range |
| Bsdiff.CountAgreements | utils/firmware_tool/commands/pipeline.cpp:479-482 | adds the agreements at the running offset up to the end of a match |
| Bsdiff.StopIsBetter | utils/firmware_tool/commands/pipeline.cpp:483-484 | where it stops for a match that is not predicted, the old image agrees there, on over eight bytes more than at the running offset |
| Bsdiff.ForwardLength | utils/firmware_tool/commands/pipeline.cpp:492-497 | the shortest forward extension with the largest surplus of equal over unequal bytes, within both images |
| Bsdiff.BackwardLength | utils/firmware_tool/commands/pipeline.cpp:499-506 | the same for the backward extension |
| Bsdiff.CutOverlap | utils/firmware_tool/commands/pipeline.cpp:508-517 | the shortest cut of the overlap at which the forward extension gains most |
| Bsdiff.ChooseLengths | utils/firmware_tool/commands/pipeline.cpp:492-521 | the best forward and backward extensions as they are if they are apart, cut in the best place of their overlap otherwise; never negative, in range, and apart |
| Bsdiff.PutOffset | utils/firmware_tool/commands/pipeline.cpp:398-414 | writes the sign-magnitude little-endian form of a number and nothing else |
| Bsdiff.EmitTriple | utils/firmware_tool/commands/pipeline.cpp:491-546 | writes the triple of the chosen lengths; what the patch rebuilds is then a longer prefix of the new image |
| Bsdiff.BsdiffBody | utils/firmware_tool/commands/pipeline.cpp:468-550 | for all images under 2^31 bytes and any index table with entries in range, the loop terminates and the body makes the batch patcher rebuild the new image, using the body up, in a form the device can follow; the body is exactly the triples at the stops of the scans, from the start to the end of the image, each with the chosen lengths |
| Bspatch.Apply | utils/firmware_tool/commands/pipeline.cpp:678-725 | the in-place patcher returns what the patch means: the image and the bytes left, or failure |
| Bspatch.PatchTriple | utils/firmware_tool/commands/pipeline.cpp:686-722 | one triple is accepted exactly when it is whole and fits, and then builds the next stretch of the image |
| PatchFormat.OffsetRoundTrip | utils/firmware_tool/commands/pipeline.cpp:398-414 | reading a written offset gives the number back, for every 63-bit magnitude |
| PatchFormat.DeviceReadsSmallOffsets | src/core/pipeline/bspatch.c:97-107 | the device's 32-bit reading of a control word agrees with the tool's on every number of magnitude below 2^31 |
| PatchFormat.HeaderGivesSize | utils/firmware_tool/commands/pipeline.cpp:634-640 | a patch file with the written header is applied as its body for that size |
| PatchFormat.BatchFills | utils/firmware_tool/commands/pipeline.cpp:686-722 | a good patch gives exactly the bytes asked for and takes a prefix of the body |
| PatchStream.RunBytesAppend | src/core/pipeline/bspatch.c:37-153 | a chunk boundary anywhere changes neither state, output nor bytes consumed |
| PatchStream.TripleRun | src/core/pipeline/bspatch.c:94-148 | the resumable applier turns one triple into the old bytes plus the diff, followed by the extra bytes, and moves both positions |
| PatchStream.RefinesBatch | src/core/pipeline/bspatch.c:92-149 | on every body the device can follow, the applier emits what the batch patcher builds, consumes what it needs, and finishes |
| PatchStream.StreamingRefinesBatch | src/core/pipeline/bspatch.c:52-152 | the same for whole patch files, whatever trails them |
| PatchStream.EveryChunking | src/core/pipeline/bspatch.c:52-152 | over every way of splitting the patch file over calls, the applier finishes with the batch result and has consumed exactly the bytes the batch patcher needs |
| PatchStream.FinishesExactly | src/core/pipeline/bspatch.c:92-152 | after any number of bytes the applier has not failed, and it is finished if and only if the last needed byte was among them |
| PatchStream.FinishesIff | src/core/pipeline/bspatch.c:92-149 | on every body, complete or not, whose control words both patchers read alike, the applier finishes if and only if the batch patcher accepts the body and every old byte asked for exists |
| PatchStream.NegativeLengthDiffers | src/core/pipeline/bspatch.c:109-128 | a negative length is where they part: the tool refuses it, the applier finishes with more bytes than announced |
| PatchStream.HeaderTakenIff | src/core/pipeline/bspatch.c:66-90 | a header is taken if and only if its sixteen magic bytes are right and the size is not negative |
| PatchStream.StoppedStays | src/core/pipeline/bspatch.c:52-54 | later calls of a finished applier consume and emit nothing |
| Stages.PatchStage.Feed | src/core/pipeline/bspatch.c:37-153 | one call leaves the applier state of the specification, passes on exactly its output, returns the bytes consumed or a negative number, and leaves the old object alone |
| Stages.PatchStage.TakeByte | src/core/pipeline/bspatch.c:67-143 | one byte does what the specification says in every phase, the error returns included |
| Pipeline.BufferStage.Feed | src/core/pipeline/buffer.c:11-32 | every byte is kept in order, whatever lengths it comes in; what was passed on is whole buffers of 1000, and after any byte at least one waits |
| Pipeline.BufferStage.Clear | src/core/pipeline/buffer.c:34-38 | everything fed is then in the slot |
| Pipeline.Writer.Write | src/core/pipeline/writer.c:6-11 | the bytes are stored behind those written before, on clean flash, and nothing else changes |
| Delta.Diff | utils/firmware_tool/commands/pipeline.cpp:599-648 | for any two images under 2^31 bytes, a patch file that the tool applies to give the new image and the device can follow |
| Delta.DeltaRoundTrip | src/core/pipeline/lzss.c:29-64 | for every chunking and any ring leftovers, the device decoder emits the patch and the applier turns it into the new image, finishing on its last byte |
| DeltaUpdate.Receive | src/core/network/fsm.c:189-236 | the pipeline lzss, bspatch, buffer, writer, fed any chunks of the code and cleared, leaves the new image in the slot and blank flash behind it; the applier is finished, nothing outside the slot changes, and only erased bytes are programmed |
| DeltaUpdate.Update | utils/firmware_tool/commands/pipeline.cpp:116-176 | the whole way: diff, compress, any split by the network, decode, patch, write; for all images under 2^31 bytes the slot holds the new image |
| Flash.Device.Program | include/libpull/memory/flash_interface.h:18-37 | programming can only clear bits |
| Flash.Device.Erase | include/libpull/memory/flash_interface.h:18-37 | erasing a page sets its bytes to 0xFF |
| Flash.AndLaws | src/core/memory/memory_flash.c:56-58 | an erased byte takes any value, programming zero gives zero, zero stays zero |
| Flash.AndBitwise | src/core/memory/memory_flash.c:56-58 | programming combines bytes bit by bit: one exactly where both are |
| Flash.Open | src/core/memory/memory_flash.c:14-36 | opening for a full rewrite erases exactly the object's pages; other modes change nothing |
| Flash.Read | src/core/memory/memory_flash.c:38-45 | the bytes of the object at an offset |
| Flash.Write | src/core/memory/memory_flash.c:47-60 | a sequential rewrite erases the page it starts; then the bytes are programmed; and whether every byte programmed was erased since it was last programmed |
| NorCopy.CopyRunCopies | src/core/memory/memory_objects.c:72-88 | a copy in steps that cross no page boundary, to a page-aligned offset of an object opened for a sequential rewrite: the data, blank to the end of the last page, nothing else changed, only erased bytes programmed |
| NorCopy.CopiesIffNoCrossing | src/core/memory/memory_flash.c:47-60 | a sequential rewrite in given steps copies for all contents and objects if and only if no step crosses a page boundary |
| NorCopy.BuffersCross | src/core/memory/memory_objects.c:72-88 | steps of whole buffers cross no boundary if and only if the buffer divides a page or all fits one page |
| NorCopy.PagesStartCopies | src/core/memory/memory_flash.c:47-60 | if every page below k starts with a step, a sequential rewrite copies the first k bytes, whatever the other steps do |
| Swap.SwapChunk | src/core/memory/memory_objects.c:68-90 | for any sizes, the writes of the loop are the copy in whole buffers that the specification describes |
| Swap.SwapRound | src/core/memory/memory_objects.c:118-142 | for any sizes, the three copies of one round |
| Swap.RoundSwaps | src/core/memory/memory_objects.c:118-142 | on page-wise sizes one round exchanges one chunk of the two slots |
| Swap.SwapSlots | src/core/memory/memory_objects.c:92-144 | for any sizes, the run the specification describes; on page-wise sizes each slot then holds the image that the other announced, manifest to last byte; the first max(size1, size2) bytes are exchanged exactly, the rest of the last page is blank, nothing but the two slots and the swap object changes, and only bytes erased since their last programming are programmed |
| Swap.SwapsIffPageWise | src/core/memory/memory_objects.c:92-144 | for every page, buffer and swap size below 4 GB: every call of the swap leaves each slot with the whole image that the other announced, for all contents and layouts, if and only if a page divides the swap size and the buffer divides a page (or the swap size is one page) |
| Swap.DocumentedCondition | include/libpull/memory/memory_objects.h:89-91 | given the documented condition that the buffer divides the swap size, every call works if and only if the buffer divides a page and a page divides the swap size |
| Swap.DocumentedIsNotEnough | include/libpull/memory/memory_objects.h:89-91 | with pages of 512, a buffer of 384 and a swap size of 768, which meet the documented condition, there is a flash that the swap can be called on and that it does not leave with each other's images |
| Copy.CopyFirmware | src/core/memory/memory_objects.c:39-66 | terminates under arbitrary short reads, its writes being a copy in positive steps; success means that the firmware size is between 1 and 2^31 and covered, and that the destination holds the whole image if it was erased for a full rewrite, or is rewritten sequentially with a step at the start of every page below the firmware size; it succeeds if every read returns something and both slots hold the image and a buffer |
| Copy.CopiesIffPagesStart | src/core/memory/memory_objects.c:49-60 | a sequential rewrite in given steps copies every image that announces n bytes, for all contents and objects, if and only if every page below n starts with a step |
| Copy.WholeBuffersCopy | src/core/memory/memory_objects.c:49-60 | without short reads a sequential rewrite copies every image of n bytes if and only if the image fits one page or the buffer divides a page |
| Copy.ShortReadLoses | src/core/memory/memory_objects.c:49-60 | a short read of one byte, then the rest: an image one byte longer than a page is not copied for all contents |
| Slots.GetOrdered | src/core/memory/memory_objects.c:7-37 | the slot and version the table order, the version order and the preference select |
| Slots.PickIsLeftmost | src/core/memory/memory_objects.c:14-35 | without a preference, the leftmost slot of extreme version |
| Slots.PickIsLeftmostBootable | src/core/memory/memory_objects.c:26-34 | with bootable slots preferred and the first slot bootable, the leftmost extreme bootable slot |
| Slots.PickAfterOvertaking | src/core/memory/memory_objects.c:26-34 | with bootable slots preferred, in every table: from the first bootable slot that is better than all before it, the leftmost extreme bootable slot |
| Slots.PickNoneOvertaking | src/core/memory/memory_objects.c:26-34 | and if there is none such, the leftmost extreme of all slots, which is not bootable |
| Slots.PreferenceIffBootableFirst | src/core/memory/memory_objects.c:26-34 | the preference for bootable slots holds for all versions if and only if the first slot is bootable |
| Slots.PreferenceLost | src/core/memory/memory_objects.c:26-34 | for instance, two slots of version 1 of which the second is bootable: the first is kept |
| Slots.NewerIsNotBootable | src/agents/bootloader_agent.c:115-143 | a slot strictly newer than the newest bootable one is not bootable and differs from the oldest bootable one |
| Slots.TargetSparesRunning | src/core/network/fsm.c:217-217 | an update never overwrites the running slot if some slot is strictly older |
| Slots.TargetIsRunningIff | src/core/network/fsm.c:217-217 | it overwrites the running slot if and only if that is the first of the oldest slots |
| Verifier.VerifyObject | src/core/security/verifier.c:9-29 | the verdict of the specification, error by error |
| Verifier.VerifyManifest | src/core/security/verifier.c:31-44 | refuses a foreign application id, then a bad signature, and accepts all others |
| Verifier.HashImage | src/core/security/verifier.c:54-93 | terminates, and hashes the bytes from the offset to the end of the image or of one buffer, whichever is later, or fails if they are not all there |
| Verifier.VerifyDigest | src/core/security/verifier.c:46-112 | success exactly if the bytes hashed have the manifest's digest; an empty image is an error |
| Verifier.SameDigest | src/core/security/verifier.c:100-110 | true exactly for equal digests |
| Verifier.VerdictMeans | src/core/security/verifier.c:54-110 | for a buffer no longer than the image, success means that bytes [offset, offset+size) are there and have the digest, whatever the buffer's length |
| Verifier.PassesIff | src/core/security/verifier.c:9-112 | for every object and buffer: it passes if and only if the application id and the signature are right, the size is not zero, and the bytes from the offset to the end of the image or of one buffer, whichever is later, are there and have the digest; an image that ends at 4 GB or beyond passes exactly if no bytes have its digest |
| Verifier.HashesImageIffBufferFits | src/core/security/verifier.c:56-66 | exactly the image is hashed if and only if the buffer is no longer than it |
| Verifier.VerdictTravels | src/core/security/verifier.c:9-29 | objects that agree on manifest and image get the same verdict, if the buffer is no longer than the image |
| Fsm.Machine.Call | src/core/network/fsm.c:64-312 | one call does what the specification says, error codes included, keeps the invariant, and changes no byte of the flash outside the target slot; when it takes a manifest the target is the first of the oldest slots, and if some slot is strictly older than the running one, that is another slot and the running one keeps its bytes |
| Fsm.Machine.constructor | src/core/network/fsm.c:30-57 | idle, nothing processed, the version of the newest bootable slot as the running one: the leftmost of them if the first slot is bootable |
| Fsm.Machine.FillManifest | src/core/network/fsm.c:135-142 | appends bytes to the manifest held, never past its end, and says how many |
| Fsm.Machine.TakeManifest | src/core/network/fsm.c:151-259 | the manifest is taken if and only if its version is newer, the application id is the device's and it is signed; then the first of the oldest slots is erased and given the manifest, diff_version zeroed, and what came with it; otherwise the flash stays as it is |
| Fsm.Machine.KeepManifest | src/core/network/fsm.c:173-259 | an accepted manifest, diff_version zeroed, and what came with it are delivered to the erased oldest slot, and the count to be reached is set |
| Fsm.Machine.InReceiveManifest | src/core/network/fsm.c:128-146 | the manifest state of the specification, leftover counts refused |
| Fsm.Machine.Deliver | src/core/network/fsm.c:267-280 | bytes are passed on; when the count is reached the buffer is flushed and the slot holds all that was delivered, blank behind it |
| Fsm.Machine.InReceiveFirmware | src/core/network/fsm.c:260-300 | the firmware state of the specification, verification included; whenever verification was reached, passed or not, the slot holds all that was delivered, blank behind it |
| FsmSpec.Step | src/core/network/fsm.c:72-310 | every call keeps the invariant between calls: no transient state, an accepted manifest at the head of what is delivered, a verified target when a reboot is wanted |
| FsmSpec.StepKeepsInv | src/core/network/fsm.c:128-300 | the two receiving states keep that invariant |
| FsmSpec.ZeroedBytes | src/core/network/fsm.c:183-183 | the manifest stored is the one received with the two bytes of diff_version zero and every other byte as it was |
| FsmRuns.StepFaithful | src/core/network/fsm.c:106-146 | each call keeps the manifest bytes held equal to the bytes received since the update began |
| FsmRuns.StartsIff | src/core/network/fsm.c:73-105 | from IDLE and CLEAN: two bytes announcing a newer version start an update, two bytes announcing no newer one leave IDLE, any other length leaves CLEAN; after CLEAN nothing counts as processed |
| FsmRuns.RequestsIff | src/core/network/fsm.c:106-127 | a manifest is awaited next if and only if the buffer holds a receiver message and a nonce could be drawn |
| FsmRuns.CleanStarts | src/core/network/fsm.c:73-127 | from CLEAN, an announcement of a newer version and a message buffer start an update with nothing processed |
| FsmRuns.TakenIff | src/core/network/fsm.c:128-171 | a manifest is taken if and only if 256 bytes arrived since the update began and they are newer, for this application and signed; 256 bytes that are not are refused, fewer are waited for |
| FsmRuns.VerifiedIff | src/core/network/fsm.c:256-300 | firmware is verified by exactly the call that brings the count to offset plus prop_size in 32 bits; more is refused, less is waited for |
| FsmRuns.EveryRunFromStart | src/core/network/fsm.c:73-146 | over every run with non-empty buffers: never in VERIFY_MANIFEST or VERIFY_FIRMWARE between calls; while receiving the manifest its prefix is what was received since START_UPDATE, or the leftover count makes the next chunk lead to CLEAN |
| FsmRuns.RebootIsSafe | src/core/network/fsm.c:287-309 | over every run, REBOOT is reached only with a target slot that passes verification and stores a version above the running one |
| FsmRuns.RebootAbsorbs | src/core/network/fsm.c:308-309 | no input changes a machine in REBOOT |
| FsmRuns.Delivery | src/core/network/fsm.c:128-280 | for every split of an accepted manifest and a payload of the announced length into non-empty chunks, the target is given the manifest with diff_version zeroed and the payload; it is verified if and only if the manifest was complete before the last chunk; otherwise it never is, and any further byte leads to CLEAN |
| Download.Download | src/core/network/fsm.c:128-300 | a whole download, in any non-empty chunks, goes to the first of the oldest slots and changes nothing outside it, so not the running slot if some slot was older; if the manifest was complete before the last chunk, the slot's flash holds the zeroed manifest and the payload, blank behind them, and the verdict decides between REBOOT and IDLE; otherwise the machine waits and the slot lacks exactly the bytes pending in the buffer |
| Download.FlashLags | src/core/pipeline/buffer.c:14-24 | while firmware is received, the slot holds the full buffers of what was delivered and is blank behind them |
| FsmRuns.RebootNeedsZeroedSigned | src/core/network/fsm.c:183-292 | over every run, REBOOT implies that the manifest with diff_version zeroed is signed |
| FsmRuns.RebootsExactlyWhen | src/core/network/fsm.c:183-307 | in the situation of Delivery, REBOOT is reached exactly if the manifest was complete before the last chunk, the zeroed manifest is signed, and the digest matches |
| Bootloader.Boot | src/agents/bootloader_agent.c:55-209 | the agent, driven until the first failure event, does one boot step of the specification, whatever the slots hold and whichever are bootable; only when a newest image passed verification must there be another slot to exchange it with, the two fit each other's slots, and the swap be page-wise |
| Bootloader.Bootstrap | src/agents/bootloader_agent.c:67-111 | on a first boot the other slots' manifests and the flags read zero afterwards, and nothing else changes; otherwise nothing changes |
| Bootloader.Invalidate | src/core/memory/memory_objects.c:146-160 | writing zeros without erasing leaves a manifest of zeros, whatever was there |
| Bootloader.InvalidateOthers | src/agents/bootloader_agent.c:79-86 | exactly the manifests of the other slots become zero |
| Bootloader.StoreContext | src/agents/bootloader_agent.c:104-105 | writing the context back without erasing clears the flags and keeps every other byte |
| Bootloader.Exchange | src/agents/bootloader_agent.c:147-163 | the two slots exchange their images |
| BootSpec.OthersReadZero | src/agents/bootloader_agent.c:76-86 | after a first boot every slot but the running one reads version 0 |
| BootSpec.FirstBootFlag | src/agents/bootloader_agent.c:76-76 | a first boot is due exactly if the flag of value one is set |
| BootSpec.FirstBootNeverUpgrades | src/agents/bootloader_agent.c:76-183 | a first boot boots the running slot or nothing, whatever the other slots held |
| BootSpec.BootChoices | src/agents/bootloader_agent.c:57-143 | with the first slot bootable: the running slot is the leftmost newest bootable one, the slot found newest the leftmost newest of all, the slot replaced the leftmost oldest bootable one |
| BootSpec.UpgradesIff | src/agents/bootloader_agent.c:113-125 | a boot upgrades if and only if no first boot is due and some slot is strictly newer than every bootable one |
| BootSpec.ExchangedVersions | src/core/memory/memory_objects.c:92-144 | an exchange that reaches past the version field exchanges the two versions and no other |
| BootSpec.VerdictSurvives | src/agents/bootloader_agent.c:132-163 | an exchange of the whole manifests preserves the verdict of each of the two images that ends below 4 GB and is no shorter than the verification buffer |
| BootSpec.BootResult | src/agents/bootloader_agent.c:113-209 | with the first slot bootable: without an upgrade the leftmost newest bootable slot is started; an upgrade starts the leftmost oldest bootable slot, which then holds the newest image of all, verified before, while the slot that one came from holds the older image, each to its last byte; the slot started has the maximum version if the exchange reached past the version field; and it passes verification if the image found newer was sound |
| BootSpec.OlderImageKept | src/agents/bootloader_agent.c:143-163 | after an upgrade the older image sits whole in the slot the newer one came from, with the verdict it had |
| BootSpec.RunningSpared | src/agents/bootloader_agent.c:143-163 | if some bootable slot is strictly older than the running one, no boot changes a byte of the running slot, whatever its outcome |
| BootSpec.NoFirstBootLeft | src/agents/bootloader_agent.c:76-110 | no boot leaves a first boot due, whatever its outcome |
| BootSpec.FirstBootHappensOnce | src/agents/bootloader_agent.c:66-111 | over any sequence of boots, with anything done to the slots in between, only the first can take the first-boot branch |
| BootSpec.BootIsStable | src/agents/bootloader_agent.c:123-183 | a boot right after a successful one exchanges nothing and starts the same slot if the image passes verification where it is now, which it does if the one found newer was sound; otherwise it starts nothing |
| UpdateBoot.MachineHandsOver | src/core/network/fsm.c:287-309 | every machine on a device in REBOOT leaves such a flash to the bootloader: the target holds what was delivered and verified |
| UpdateBoot.RunningKept | src/core/memory/memory_objects.c:14-35 | writing a slot that is not bootable changes neither the running slot nor its version |
| UpdateBoot.DeliveredIsBooted | src/agents/bootloader_agent.c:113-209 | a machine in REBOOT whose target is not bootable leaves a flash that the next boot upgrades from; if the target is the newest slot and no shorter than both verification buffers, the boot starts the leftmost oldest bootable slot, which holds the delivered version and image and passes verification |
| UpdateBoot.DeliveredInPlace | src/agents/bootloader_agent.c:113-209 | a bootable target that is the first of the newest slots is verified and started in place, the flash unchanged |
| UpdateBoot.CutOffErased | src/core/network/fsm.c:225-236 | until the buffer was full, the target slot is erased |
| UpdateBoot.ErasedVerdict | src/core/security/verifier.c:31-110 | an erased slot passes verification exactly if the device belongs to application 65535, a manifest of ones is signed, and no bytes hash to ones |
| UpdateBoot.CutOffRefuses | src/agents/bootloader_agent.c:113-138 | after an update was cut off with its slot erased, the next boot starts something if and only if the running slot also reads version 65535 and passes verification |
| UpdateBoot.NewestDecides | src/agents/bootloader_agent.c:123-138 | whenever some image is newer than the running one, the boot starts something if and only if the newest passes verification |
| UpdateBoot.UnsignedRefused | src/agents/bootloader_agent.c:123-138 | a newest slot with a newer, unsigned manifest: nothing is started and nothing changes |
| UpdateBoot.ServedUpdateRefused | src/core/network/fsm.c:183-300 | a complete download from a fresh session to a device that runs any version but 0, with ideal signatures: the machine refuses what it stored, and if it is now the newest of all, so does the next boot |
| Resume.Server.Handle | utils/server/resources/firmware.c:39-92 | the file is personalised for a new device or nonce only, and then carries both; an offset beyond the file is not found, a block beyond it is bad, and every other block is what lies behind the offset there, full unless the file ends |
| Resume.SessionKeepsFile | utils/server/resources/firmware.c:41-54 | within one session the served file does not change after the first request |
| Resume.FreshSessionSize | utils/server/resources/firmware.c:46-46 | a fresh session's prop_size is the length of what follows the manifest |
| Resume.FreshSessionVerified | src/core/network/fsm.c:256-300 | the file of a fresh session whose image offset is 256, if its manifest is accepted, is verified exactly at its last byte, for every split into non-empty chunks that completes the manifest before the last |
| Resume.SignedAsServed | utils/server/resources/firmware.c:42-48 | a fresh session's manifest carries the device's version and the server's signature; the vendor's part and the image are untouched |
| Resume.Request | src/agents/update.c:73-85 | any in-order prefix of a request's blocks keeps what the device accepted a prefix of the served file; without an error the device then has all bytes the blocks brought, up to the end of the file, or wants to reboot |
| Resume.Session | src/agents/update.c:70-86 | over any number of interrupted requests, the bytes accepted since START_UPDATE are file[0..processed); if a reboot is wanted, they are as many as the manifest announced and the slot was given them with diff_version zeroed; if the first request brings the manifest, some request is not cut off, and no error is met, the device has the whole file or wants to reboot |
| Resume.StoredUnsigned | src/core/network/fsm.c:183-183 | with ideal signatures, the manifest a fresh session serves to a device that runs any version but 0 is not signed as the device stores it |
| Resume.OnlyVersionZeroReboots | src/core/network/fsm.c:183-183 | so a device that sends its running version to a fresh session asks for a reboot only if that version is 0 |

## Left out

- Cryptography: SHA-256 and ECDSA are parameters, a hash of the concatenated bytes and a predicate on manifests.
- I/O errors of the flash: erase, program and read always succeed; `swap_slots` does not look at two of its results.
- Power loss: no operation keeps a record of its progress, so a reset in the middle is not modelled.
- CoAP, BLE, the remaining server resources and the connection code: only in-order blocks and request offsets are kept.
- POSIX file backend, platform drivers, random numbers, ARM loader: replaced by the flash and by parameters.
- Manifest getters and setters, logging, error strings, keys, configuration files, reading and writing files in the tool.
- The tool's statistics: it divides by the text length, which fails for an empty text after the code was written.
- FACTORY_IMAGE branches, `restore_factory_image`, ZEPHYR timers: conditional or stub code.
- The coroutine's events: a boot is one method that ends at the first failure event; in between, events change nothing.
- The receiver message filled in by START_UPDATE: only its offset and session fields appear, in `Resume`.
- Counters of type `size_t` (`processed`, `len`) are unbounded; 32-bit addresses and sums of them wrap as written.
- Assertions compiled out by default are preconditions (objects hold what is written to them), with `<=` where the source writes `<`, since the last byte of an object is used.
- Slot ids stand for positions in the slot table.
- Bspatch.Apply: a patch that ends early is bad; the tool's reader notices the end one read later. Negative lengths are bad too.
- Bspatch.PatchTriple: refuses a short triple and negative lengths likewise.
- Bsdiff.FoundIsLongest: one direction only; which of the failing searches still happen to find a longest match depends on the probes.
- PatchStream.FinishesIff: for control words that are not negative and below 2^31; `PatchStream.NegativeLengthDiffers` shows what happens to others.
- Resume.Session: the agent stops asking when a request did not bring the manifest, as the source does.
- LzssHost.FindMatch: candidates are the positions equal to the current `char`; where `char` is signed a byte of 128 or more has none, so longest matches are not claimed there.
- Stages.PatchStage.Feed: a failed applier is not fed again; the source would resume inside the loop it failed behind, with its counters past their ends.
- Stages.PatchStage.TakeByte: reading outside the old object is an error, where the source would read its neighbour.
- Stages.LzssStage.Feed: for a downstream stage that does not fail; the source stops at a failed literal and ignores a failed copy, feeding the failed stage again.
- Stages.LzssStage.EndField: for a downstream stage that does not fail, likewise.
- Verifier.HashImage: reading outside the object is an error, where the source would read its neighbour; addresses up to the end of the object plus one buffer stay below 4 GB, and the buffer is not empty, without which the loop does not end.
- Copy.CopyFirmware: the destination need not agree when a sequential rewrite starts no step at some page of the image, which `Copy.CopiesIffPagesStart` shows to be real.
- Fsm.Machine.Call: what is delivered fits the target slot; the source does not check the announced size against it.
- Bootloader.Boot: an exchange needs two different slots whose images fit each other's, and a page-wise swap; the source checks none of it.
- BootSpec.BootResult: that the version is the newest and that the image still passes verification are promised under conditions on the image found newer; nothing on the device checks them.
- Resume.Server.Handle: signing always succeeds.
- Resume.StoredUnsigned: signatures are ideal, that is, different server parts have different signatures and only the server's own is accepted.
