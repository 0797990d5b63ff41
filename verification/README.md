# Verification of the Xbox runtime's state machines

This project models the parts of the runtime that replace kernel, Direct3D 8 and
DirectSound services with loops, bit arithmetic, protocols and indexes of their
own, and proves what they are for. Every integer is unbounded unless a type or an
explicit reduction says otherwise; a value of type `u32` or `u64` that is computed
is proved to fit.

- `VertexProgram`, `VertexProgramText`, `VertexProgramReading`: the translator from
  paired vertex instructions to the text of sequential assignments. The microcode
  semantics, in which both units read the old state, is written independently of the
  translator; the theorem holds for every arithmetic (`Alu`). The text determines the
  assignments. `VertexProgramLayout`: where a token has its fields.
- `Sha1` (the standard), `ShaStream` (the streaming context), `ShaGuest` (the same
  context in guest memory). `Sha1Laws`: what the standard's parts do to single bits
  and bytes.
- `Bits`, `Morton`, `Swizzle`, `Unswizzle`, `MipSpan`: Morton order, the copy out
  of it, and compressed mip chains. `MortonLayout`: that order in the bits of x and y.
- `PresenterThread`: the two-thread, three-packet protocol as atomic steps in any
  interleaving. `PresenterErrors`: where its error comes from. `Capture`: the packet it
  passes on, with allocations that may fail.
- `AudioClock` (a head moved frame by frame), `AudioBuffer` (the closed form),
  `AudioPump` (spans copied or decoded out of a ring), `AudioRun` (whole runs).
- `Glob`, `Directory`, `DirectoryRecord`: wildcard matching, enumeration, and the
  record of an entry.
- `TextureCache`, `TargetBudget`, `UploadRing`: the host resource tables.
- `DpcQueue`, `Fibers`, `FileHandles`, `HostPath`: kernel services. `DpcRules`,
  `FiberStacks`, `FileRules`: their rules, case by case.
- `Fvf`: the two decoders of a vertex format. `FvfLayout`: formats and declarations bit
  by bit, and the formats that the repository's tests name. `MachineWords`, `Arith`: words of a
  given width, and facts about division.

What comes from outside the program (backend results, allocation failures, host
file answers, guest code, decoders) is a parameter and is arbitrary. Guest code
may go on for ever, except that each call of one routine makes finitely many calls
of its own.

## Where the code and its promise part

- Presenter thread: an owner whose report cannot be added raises the first error
  while the worker may be past its check; then one record runs after that error
  (`PresenterThread.LateRecords`, both directions, and `LateRecordHappens`).
- Upload ring: when the discarding map at the end of the buffer fails, the next
  upload writes from the start under a mapping that promises not to overwrite
  (`UploadRing.KeepsOffLiveBytes` for the exact condition, `OverwritesAfterFailure`,
  and `FailureHappens` for a run from the start).
- NtCreateFile: an unreadable name opened without write access returns handle 1
  without registering it, and the delete-on-close option then marks or closes the
  real handle 1 (`FileHandles.Table.CreateFile`, `ApplyToFirst` for which of the two,
  `StrangerMarksFirst` for a run).
- `recomp_d3d_fvf_for_stream` is documented to drop sets until the layout fits; a
  format with five to fifteen sets has stride 0 and is left alone (`Fvf.ForStream`).
- SHA final: the digest is written before the context, so a digest inside the live
  context is overwritten by it. It reads as the digest exactly if it stands
  (`ShaGuest.XcShaFinal`): always apart from the live part, at the state words only
  for palindromes (`StandsAtState`), on the block buffer only if the last block has
  the same bytes (`StandsInBuffer`), and somewhere not (`EmptyMessageLoses`).
- A drain of the DPC queue need not end: a routine may queue its own call again
  (`DpcQueue.RequeueingNeverEnds`; `EndsExactly` says when it ends).
- Creating a fiber: a stack request above 0xFFFFF000 wraps to nothing, and is then
  met by whatever stack the slot keeps (`Fibers.Process.ChooseStack` for the exact
  condition, `WrappedRequest` for a run).
- The declaration builder shifts by 32 and more for the fifth coordinate set on,
  which C leaves undefined; nothing is stated about that word then.

## Model

| member | source | states |
|---|---|---|
| `VertexProgram.TranslationCorrect` | recomp-runtime/d3d_vertex_program.cpp:43-91 | Running the emitted assignments of any supported program gives the registers and outputs of the microcode, in which the two units of an instruction both read the state before it; for every arithmetic. |
| `VertexProgram.BlockCorrect` | recomp-runtime/d3d_vertex_program.cpp:77-90 | One emitted block, started in any state that agrees with the machine, ends in the machine's next state. |
| `VertexProgram.StoresAreExclusive` | recomp-runtime/d3d_vertex_program.cpp:81-83 | The two units of a paired instruction never both store one component: r1 is the second unit's. |
| `VertexProgram.OperandCorrect` | recomp-runtime/d3d_vertex_program.cpp:11-23 | The text of an operand evaluates to the fetched register, swizzled and negated. |
| `VertexProgram.MacCorrect` | recomp-runtime/d3d_vertex_program.cpp:52-65 | The multiply unit's expression has the value of its operation for every accepted opcode. |
| `VertexProgram.IluCorrect` | recomp-runtime/d3d_vertex_program.cpp:66-75 | The scalar unit's expression has the value of its operation, spread to all components. |
| `VertexProgram.WriteCorrect` | recomp-runtime/d3d_vertex_program.cpp:25-32 | A masked write changes the selected components of one register and keeps every other component. |
| `VertexProgramText.VertexProgramSource` | recomp-runtime/d3d_vertex_program.cpp:35-95 | A body is produced exactly for the accepted programs (length, last-instruction flag, opcodes, operands, masks, outputs); it is the text of the translation, and empty otherwise. |
| `VertexProgramReading.TextTellsTranslation` | recomp-runtime/d3d_vertex_program.cpp:43-95 | The emitted text can be read in one way only: programs with the same text, whatever fixed text stands around the body, have the same translation. |
| `VertexProgramReading.TextTellsMeaning` | recomp-runtime/d3d_vertex_program.cpp:43-95 | Accepted programs with the same text compute the same, over any arithmetic and any inputs. |
| `VertexProgramReading.SameBody` | recomp-runtime/d3d_vertex_program.cpp:43-91 | A body is read statement by statement, each in one way only. |
| `VertexProgramReading.SameOperand` | recomp-runtime/d3d_vertex_program.cpp:11-23 | No operand's text begins the text of another: register numbers, swizzles and signs can all be read back. |
| `VertexProgramReading.SameMac` | recomp-runtime/d3d_vertex_program.cpp:52-65 | Nor does one multiply expression's, up to the comma that ends it. |
| `VertexProgramReading.SameIlu` | recomp-runtime/d3d_vertex_program.cpp:66-75 | Nor does one scalar expression's. |
| `VertexProgramText.Write` | recomp-runtime/d3d_vertex_program.cpp:25-32 | A masked write appends its assignment; it fails exactly when a write has no destination. |
| `VertexProgramText.Source` | recomp-runtime/d3d_vertex_program.cpp:11-23 | The operand's text is that of its expression; empty exactly when it cannot be read. |
| `VertexProgramText.Mask` | recomp-runtime/d3d_vertex_program.cpp:4-9 | The letters of the selected components, x first. |
| `VertexProgramLayout.DecodeReads` | recomp-runtime/d3d_vertex_program.cpp:43-89 | An instruction whose fields are put into the words of a token, each in its range and at its weight, is decoded into exactly those fields. |
| `VertexProgramLayout.EveryTokenEncodes` | recomp-runtime/d3d_vertex_program.cpp:43-89 | Every token is such a sum of fields, of the fields that are decoded and of no others. |
| `VertexProgramLayout.OperandsTaken` | recomp-runtime/d3d_vertex_program.cpp:52-75 | Which operands each operation takes. |
| `VertexProgramLayout.MovDecodes` | recomp-runtime/d3d_vertex_program.cpp:43-50 | The token (0, 0x20001B, 0x8000000, 0xF801) is `mov oPos, v0`, the last instruction. |
| `VertexProgramLayout.ReadableMeans` | recomp-runtime/d3d_vertex_program.cpp:11-19 | An operand can be read exactly if there is a register of four components where it points. |
| `VertexProgramLayout.OthersDoNotMatter` | recomp-runtime/d3d_vertex_program.cpp:52-75 | Operands that an operation does not take have no influence on what the two units compute. |
| `VertexProgramLayout.MovReads` | recomp-runtime/d3d_vertex_program.cpp:43-91 | The token of `mov oPos, v0` alone is an accepted program, and its text is the one block that writes v0.xyzw to r12.xyzw. |
| `ShaStream.DigestOfChunks` | recomp-runtime/kernel_crypto.c:100-177 | For every message and every way to cut it into updates, empty ones included, the digest is the one-shot SHA-1 of sections 5.1.1 and 6.1.2 of FIPS 180-4. |
| `ShaStream.Context.Update` | recomp-runtime/kernel_crypto.c:114-145 | A context that stands for a message stands for the longer one after an update, whatever was buffered. |
| `ShaStream.Context.UpdateBlocks` | recomp-runtime/kernel_crypto.c:125-144 | The buffered part is completed, whole blocks are absorbed from the input, and the rest is buffered. |
| `ShaStream.Context.Final` | recomp-runtime/kernel_crypto.c:147-177 | The padding tail, in one block or two, ends in the digest of the message. |
| `ShaStream.OneBlockPadding` | recomp-runtime/kernel_crypto.c:157-168 | Up to 55 buffered bytes: the padded message ends in the block that the code builds. |
| `ShaStream.TwoBlockPadding` | recomp-runtime/kernel_crypto.c:157-168 | From 56 on: it ends in the two blocks that the code builds. |
| `ShaStream.Sha1Compress` | recomp-runtime/kernel_crypto.c:48-98 | The 80 rounds in 32-bit arithmetic are the compression function of section 6.1.2 of FIPS 180-4. |
| `ShaStream.ExpandSchedule` | recomp-runtime/kernel_crypto.c:57-65 | The message schedule. |
| `Sha1Laws.ScheduleBits` | recomp-runtime/kernel_crypto.c:63-65 | Each bit of a later schedule word, one place up, is the parity of the bits of the words 3, 8, 14 and 16 before it. |
| `Sha1Laws.BlockWords` | recomp-runtime/kernel_crypto.c:57-62 | The first sixteen schedule words have the bytes of the block, the first one highest. |
| `Sha1Laws.ScheduleWords` | recomp-runtime/kernel_crypto.c:57-65 | The schedule is the eighty words in order. |
| `Sha1Laws.RoundBits` | recomp-runtime/kernel_crypto.c:71-83 | Bit by bit: the first twenty rounds choose, the third twenty take the majority, the others the parity. |
| `Sha1Laws.RotateBits` | recomp-runtime/kernel_crypto.c:43-46 | A rotation moves every bit up by its amount, around the end of the word. |
| `Sha1Laws.RoundWords` | recomp-runtime/kernel_crypto.c:85-90 | One round, word by word, over any rotated words with their bits moved by 5 and by 30. |
| `Sha1Laws.RoundConstants` | recomp-runtime/kernel_crypto.c:71-83 | The four constants are 2^30 times the square roots of 2, 3, 5 and 10, rounded down. |
| `Sha1Laws.RoundsInOrder` | recomp-runtime/kernel_crypto.c:67-91 | The rounds take the words of the schedule one after the other, from the first. |
| `Sha1Laws.CompressAdds` | recomp-runtime/kernel_crypto.c:93-97 | What the rounds make of the hash is added to it, word by word. |
| `Sha1Laws.FirstHash` | recomp-runtime/kernel_crypto.c:105-109 | The first hash byte by byte: 01 23 45 to EF, then back to 10, then F0 E1 D2 C3. |
| `Sha1Laws.HashInOrder` | recomp-runtime/kernel_crypto.c:171-176 | The digest is the five words, in order, each with its highest byte first. |
| `Sha1Laws.PaddedMessage` | recomp-runtime/kernel_crypto.c:153-169 | The padded message is the message, a byte 0x80, fewest zeros, and its length in bits in eight bytes, the highest first; together whole blocks. |
| `ShaStream.Context.constructor` | recomp-runtime/kernel_crypto.c:100-112 | A fresh context stands for the empty message. |
| `ShaStream.BufferedCount` | recomp-runtime/kernel_crypto.c:121-122 | The buffered count read back from the wrapped bit count is right for any length. |
| `ShaGuest.GuestDigest` | recomp-runtime/kernel_crypto.c:215-267 | A whole run through guest memory, its input anywhere apart from the live context: the digest apart from that too is the SHA-1 of what the guest passed; wherever it is put, it reads as such exactly if it stands. The 24 bytes before the state are kept. |
| `ShaGuest.ApartMeans` | recomp-runtime/kernel_crypto.c:229-267 | What is asked of the guest: stretches are apart exactly if they share no address. |
| `ShaGuest.RangeMeans` | recomp-runtime/kernel_crypto.c:229-246 | An input range must lie in memory, off the null page's first byte and apart from bytes 24 to 115 of the context. |
| `ShaGuest.XcShaInit` | recomp-runtime/kernel_crypto.c:215-226 | The context in guest memory stands for the empty message; nothing outside its live part changes. |
| `ShaGuest.XcShaUpdate` | recomp-runtime/kernel_crypto.c:229-246 | The context in guest memory takes the bytes at the input address; nothing outside its live part changes. |
| `ShaGuest.XcShaFinal` | recomp-runtime/kernel_crypto.c:249-267 | Every byte of memory afterwards: the context, with its last padded block, over the digest, over what was there. The digest reads as one exactly if each byte that the context covers happens to be the same. |
| `ShaGuest.StandsAtState` | recomp-runtime/kernel_crypto.c:198-212 | Put where the state words go, a digest reads as one exactly if every word of it is the same in both byte orders. |
| `ShaGuest.StandsInBuffer` | recomp-runtime/kernel_crypto.c:249-267 | Put anywhere on the block buffer, the digest of any message reads as one exactly if the last padded block has the same bytes there. |
| `ShaGuest.EmptyMessageLoses` | recomp-runtime/kernel_crypto.c:249-267 | The digest of the empty message, put at any of the 44 places behind the buffer's first byte, reads as one exactly if it is all zeros; and if it is, it is lost at the first. |
| `Unswizzle.MortonBijection` | recomp-runtime/d3d_texture_model.c:29-68 | (x, y) to offset is a bijection from the surface onto its texels: each way of going there and back is the identity. |
| `Unswizzle.UnswizzleSurface` | recomp-runtime/d3d_texture_model.c:75-109 | Accepts exactly power-of-two sizes of one to four bytes; writes every byte of the image in row order, and no other byte. |
| `Unswizzle.RowMajorOfSwizzled` | recomp-runtime/d3d_texture_model.c:93-107 | What the copy loop computes inverts swizzling, for every image. |
| `Bits.PowerOfTwoTest` | recomp-runtime/d3d_texture_model.c:70-73 | The bit test accepts exactly the powers of two. |
| `Morton.MasksShare` | recomp-runtime/d3d_texture_model.c:40-52 | The two masks are disjoint, together they are all bits below the number of texels, and each has as many bits as its axis. |
| `Morton.CollectOffset` | recomp-runtime/d3d_texture_model.c:61-68 | Gathering under either mask recovers that coordinate from an offset. |
| `Morton.OffsetCollect` | recomp-runtime/d3d_texture_model.c:61-68 | Every offset is the offset of the coordinates gathered from it. |
| `Morton.MortonPlacesX` | recomp-runtime/d3d_texture_model.c:40-52 | Bit i of x lands after i bits of y as long as y lasts, then alone. |
| `Morton.MortonPlacesY` | recomp-runtime/d3d_texture_model.c:40-52 | Bit i of y lands after i + 1 bits of x as long as x lasts, then alone. |
| `MortonLayout.OffsetInterleaves` | recomp-runtime/d3d_texture_model.c:29-68 | The offset of a texel alternates the bits of x and y, x first, as long as both last, and then has the rest of the longer one. |
| `MortonLayout.OneInterleaving` | recomp-runtime/d3d_texture_model.c:29-68 | There is one such number. |
| `MortonLayout.HasInterleaving` | recomp-runtime/d3d_texture_model.c:29-68 | And every pair of coordinates has one. |
| `MortonLayout.RowMajorBytes` | recomp-runtime/d3d_texture_model.c:93-107 | Byte by byte: the texel at (x, y) of the image in rows is the one at the offset that interleaves x and y. |
| `Swizzle.SpreadBits` | recomp-runtime/d3d_texture_model.c:12-27 | The scatter loop over lowest set bits computes the spread of a value, in 32-bit arithmetic. |
| `Swizzle.SwizzleMasks` | recomp-runtime/d3d_texture_model.c:29-59 | The mask loop computes the two shares, slot by slot, as far as they fit 32 bits. |
| `Swizzle.MasksFit` | recomp-runtime/d3d_texture_model.c:40-52 | The two shares fit 32 bits exactly up to 2^32 texels. |
| `Swizzle.MaskLoopEnds` | recomp-runtime/d3d_texture_model.c:40-52 | The mask loop ends exactly if no axis is longer than 2^31. |
| `Swizzle.LowestBit` | recomp-runtime/d3d_texture_model.c:5-8 | Masking with the two's complement isolates the lowest set bit. |
| `Swizzle.SwizzleOffset` | recomp-runtime/d3d_texture_model.c:61-68 | The or of the two spreads is the offset. |
| `MipSpan.CompressedMipSpan` | recomp-runtime/d3d_texture_model.c:197-248 | The size of the whole chain if the descriptor is acceptable and the size fits 32 bits, else 0. |
| `MipSpan.AcceptableMeans` | recomp-runtime/d3d_texture_model.c:197-248 | Acceptable are exactly axes 2^a and 2^b, three formats, levels as many as halvings of one axis and one more at most, and a size below 2^32. |
| `MipSpan.BlockSizes` | recomp-runtime/d3d_texture_model.c:197-248 | A block of sixteen texels takes half a byte a texel in DXT1, one in DXT3 and DXT5; other formats have none. |
| `MipSpan.BlocksCover` | recomp-runtime/d3d_texture_model.c:197-248 | An axis has the fewest blocks of four that cover it. |
| `MipSpan.NamedChain` | recomp-runtime/d3d_texture_model_test.c:214-247 | A DXT1 texture of 128 by 256 texels takes 16384 bytes with one level, 21856 with eight and 21864 with nine. |
| `MipSpan.PlaceLevels` | recomp-runtime/d3d_presenter_d3d11.cpp:2092-2100 | The uploader's halving loop places every level where the size counts it, without gap or overflow, and ends at the span. |
| `MipSpan.LevelDimHalves` | recomp-runtime/d3d_presenter_d3d11.cpp:2098-2099 | Halving with a floor of one is the next level's shifted size. |
| `PresenterThread.Safety` | recomp-runtime/d3d_presenter_thread.cpp:92-220 | In every interleaving: open = (front + pending) mod 3, at most two pending, the open packet unsealed and never the one the worker holds, and executed records a prefix of the added ones. |
| `PresenterThread.RunsKeep` | recomp-runtime/d3d_presenter_thread.cpp:92-310 | The invariant holds in every state of every run of the two threads. |
| `PresenterThread.OwnerLeavesWorkersPacket` | recomp-runtime/d3d_presenter_thread.cpp:204-220 | No step of the owner touches the packet that the worker holds. |
| `PresenterThread.WorkerLeavesOpenPacket` | recomp-runtime/d3d_presenter_thread.cpp:150-173 | No step of the worker touches the open packet. |
| `PresenterThread.ErrorSticks` | recomp-runtime/d3d_presenter_thread.cpp:66-74 | The first error is never replaced. |
| `PresenterThread.NothingRunsAfterError` | recomp-runtime/d3d_presenter_thread.cpp:95-96 | From an error on, a worker that is not past its check runs nothing more, in every later state. |
| `PresenterErrors.StatusAfterRecord` | recomp-runtime/d3d_presenter_thread.cpp:95-126 | Running and settling a record leaves the status as it was exactly for a success, for a draw that failed without the window closing, or if there was an error; otherwise the record's error is the status. |
| `PresenterErrors.RaisedNow` | recomp-runtime/d3d_presenter_thread.cpp:66-74 | What the window, a failed wait or a failed report raises while all is well is the status from then on. |
| `PresenterErrors.ErrorsHaveCauses` | recomp-runtime/d3d_presenter_thread.cpp:92-173 | Over every run an error has a cause: the window, a failed wait, a report that could not be added, or a record that stops the presenter; never a draw that failed for another reason than the window closing. |
| `PresenterThread.LateRecords` | recomp-runtime/d3d_presenter_thread.cpp:317-324 | Exactly when a record runs after the first error: the owner raised that error for a report while the worker was between its check and that record; then one record, and no other. |
| `PresenterThread.LateRecordHappens` | recomp-runtime/d3d_presenter_thread.cpp:317-324 | A run in which it does happen. |
| `PresenterThread.DestroyRunsAll` | recomp-runtime/d3d_presenter_thread.cpp:288-310 | Without an error, destroy returns only after every added record has run. |
| `PresenterThread.WorkerProgress` | recomp-runtime/d3d_presenter_thread.cpp:150-173 | Every worker step brings a worker that has something to do nearer to its end. |
| `PresenterThread.WorkerNeverBlocked` | recomp-runtime/d3d_presenter_thread.cpp:158-164 | A worker with something to do can always take a step: no wake-up is lost. |
| `PresenterThread.WaitingOwner` | recomp-runtime/d3d_presenter_thread.cpp:204-220 | An owner that waits has no step to take... |
| `PresenterThread.OwnerGoesOn` | recomp-runtime/d3d_presenter_thread.cpp:204-310 | ... and one that does not wait and has not ended has one: nothing else can block it. |
| `PresenterThread.WaitsAreBounded` | recomp-runtime/d3d_presenter_thread.cpp:204-220 | Over every run, a publish that waits for room and a destroy that waits for the worker wait for no more than a number of its steps known when the wait begins. |
| `PresenterThread.WaitEnds` | recomp-runtime/d3d_presenter_thread.cpp:288-310 | From every waiting state of every run there is a way on to the end of the wait. |
| `Capture.Collect` | recomp-runtime/d3d_presenter_capture.cpp:51-170 | Any mix of successful and failed calls, the memory changing in between, then sealing: the packet holds the successful calls in order, each as it was seen. A call is refused exactly if it is not acceptable, and runs out of memory only if an allocation fails. |
| `Capture.Packet.Add` | recomp-runtime/d3d_presenter_capture.cpp:51-135 | A success appends one command with the memory its pointers name; a failure restores entries, commands, payload and the span index. |
| `Capture.Packet.StoreSpan` | recomp-runtime/d3d_presenter_capture.cpp:91-113 | An equal span of the same pointer is shared, and then nothing is stored; otherwise the bytes are appended and indexed, exactly if both can grow. |
| `Capture.MatchesMeans` | recomp-runtime/d3d_presenter_capture.cpp:91-97 | A stored span is equal exactly if it is of that address and of that size and has the bytes that are there now. |
| `Capture.Packet.RollBack` | recomp-runtime/d3d_presenter_capture.cpp:124-133 | Exactly the spans past the old payload of the named sources are dropped. |
| `Capture.Packet.CaptureFields` | recomp-runtime/d3d_presenter_capture.cpp:82-114 | All seven pointers are captured: null, borrowed or copied. |
| `Capture.ViewsSeen` | recomp-runtime/d3d_presenter_capture.cpp:22-32 | Of a draw, vertices, indices and both palettes are copied as they were at the call; a texture, its alpha mask and its reflection are copied exactly if their own format is 0x12, and stay the guest's otherwise. |
| `Capture.EnteredAs` | recomp-runtime/d3d_presenter_capture.cpp:51-149 | What each kind of call is logged as. |
| `Capture.TakenExactly` | recomp-runtime/d3d_presenter_capture.cpp:51-75 | Which commands are refused. |
| `Capture.WordsMeans` | recomp-runtime/d3d_presenter_capture.cpp:91-113 | A span takes the fewest words of eight bytes, and at least one. |
| `Capture.ReadsBack` | recomp-runtime/d3d_presenter_capture.cpp:165-179 | Reading a sealed pointer gives the bytes of the moment of its own call; null stays null and borrowed stays the guest's. |
| `Capture.Packet.Seal` | recomp-runtime/d3d_presenter_capture.cpp:165-179 | Sealing resolves every offset once; a second call changes nothing. |
| `Capture.Packet.Command` | recomp-runtime/d3d_presenter_capture.cpp:191-195 | The command of an entry stands for what its call saw. |
| `Capture.Packet.AddRecord` | recomp-runtime/d3d_presenter_capture.cpp:137-149 | A release or report is appended, or the packet is unchanged; refused exactly when sealed. |
| `AudioBuffer.Buffer.Cursor` | recomp-runtime/dsound_service_model.c:32-72 | The closed form moves the head to where stepping one frame at a time would, for every 64-bit time, without overflow; the position stays inside and aligned, the remainder below 1000. |
| `AudioClock.StepsLooping` | recomp-runtime/dsound_service_model.c:60-71 | n steps of a looping head, in closed form. |
| `AudioClock.StepsOneShot` | recomp-runtime/dsound_service_model.c:50-59 | n steps of a one-shot head: on, or stopped at zero with nothing owed. |
| `AudioClock.ReducedPlace` | recomp-runtime/dsound_service_model.c:61-70 | Reducing the seconds before multiplying keeps the place in the loop. |
| `AudioClock.NothingLost` | recomp-runtime/dsound_service_model.c:104-161 | Over any run of queries, plays, stops, rate changes and seeks in which a buffer keeps looping: its rate is that of the last change, it plays as the last play or stop says, and the head has moved on from where it was last put by the whole part of all that was played since, each stretch at the rate then in force, and holds the rest. |
| `AudioClock.SettledTwice` | recomp-runtime/dsound_service_model.c:32-72 | A query in between changes nothing that a later query can see. |
| `AudioBuffer.Buffer.Configure` | recomp-runtime/dsound_service_model.c:14-30 | Accepts exactly whole blocks at a nonzero rate, and then starts at zero, stopped. |
| `AudioBuffer.Buffer.Consume` | recomp-runtime/dsound_service_model.c:74-102 | The span given up is the frames that have passed, cut at the end of a one-shot buffer; none after a stall over 100 ms or when its bytes do not fit 32 bits. |
| `AudioBuffer.Buffer.Play` | recomp-runtime/dsound_service_model.c:104-122 | Settles the head, restarts it if asked, and plays on; refuses unknown flags. |
| `AudioBuffer.Buffer.Stop` | recomp-runtime/dsound_service_model.c:124-131 | Settles the head, then stops. |
| `AudioBuffer.Buffer.SetPosition` | recomp-runtime/dsound_service_model.c:133-144 | Settles, then seeks to an aligned position inside; refuses any other. |
| `AudioBuffer.Buffer.SetFrequency` | recomp-runtime/dsound_service_model.c:146-161 | What has passed is settled at the old rate before the new one holds. |
| `AudioPump.SpanEndsAtHead` | recomp-runtime/dsound_service_model.c:74-102 | A span of a looping buffer, walked from its offset byte by byte with wrap, ends where the head is now. |
| `AudioPump.OneShotSpan` | recomp-runtime/dsound_service_model.c:92-97 | A span of a one-shot buffer ends at the head, or at the buffer's end just when the buffer has stopped. |
| `AudioPump.Pump` | recomp-runtime/dsound_service_adapter.c:85-139 | The bytes submitted are the walk over the whole sound from the consumed offset; nothing is sent in exactly the listed cases, and a refused block on the walk stops the voice. |
| `AudioPump.CopyPcm` | recomp-runtime/dsound_service_adapter.c:128-135 | The segment loop copies the wrapped walk. |
| `AudioPump.CopyAdpcm` | recomp-runtime/dsound_service_adapter.c:104-126 | Block-wise decoding copies the same walk over the fully decoded sound, and fails exactly if the walk meets a block that the decoder refuses. |
| `AudioPump.WalkTwice` | recomp-runtime/dsound_service_adapter.c:85-139 | Walks that follow one another are one walk. |
| `AudioRun.PumpAll` | recomp-runtime/dsound_service_adapter.c:85-139 | Over any run of pumps on a looping buffer that drops nothing, all that is submitted, piece after piece, is one walk over the sound, of exactly the frames due between the first moment and the last. |
| `AudioRun.PlayedIsDue` | recomp-runtime/dsound_service_model.c:74-102 | However often a buffer is pumped, the pumps take the whole part of what is due at the last of them, and owe the rest. |
| `AudioRun.BytesAlong` | recomp-runtime/dsound_service_adapter.c:85-139 | The bytes taken lead from the first head to the last. |
| `AudioPump.SoundBlock` | recomp-runtime/dsound_service_adapter.c:105-114 | Block k of the decoded sound is block k of the ring, decoded. |
| `AudioPump.LayoutMeans` | recomp-runtime/dsound_service_adapter.c:104-126 | 36 coded bytes a channel become 64 samples of two bytes. |
| `AudioRun.SteadyMeans` | recomp-runtime/dsound_service_adapter.c:85-103 | A pump within ten milliseconds takes nothing; later ones drop nothing up to a hundred milliseconds and 80000 bytes. |
| `Glob.PatternMatches` | recomp-runtime/directory_model.c:6-34 | The loop that goes back only to the last star accepts exactly the names the recursive definition accepts; nothing, the empty pattern and `*.*` accept all. |
| `Glob.StarIsAnyRun` | recomp-runtime/directory_model.c:15-29 | A star stands for any run of characters. |
| `Glob.NewStar` | recomp-runtime/directory_model.c:16-18 | At a new star the last one can be forgotten. |
| `Glob.CharacterFirst` | recomp-runtime/directory_model.c:15-29 | Any other character stands for itself, or for the same letter in the other case. |
| `Glob.PlainPattern` | recomp-runtime/directory_model.c:6-34 | A pattern without a star is the name, up to case. |
| `Glob.AcceptsAll` | recomp-runtime/directory_model.c:6-14 | No pattern, the empty one and `*.*` accept every name; any other pattern decides by itself. |
| `Directory.Listing.Next` | recomp-runtime/directory_model.c:63-81 | The next entry that the pattern accepts, with everything passed over refused by it. |
| `Directory.Listing.Enumerate` | recomp-runtime/directory_model.c:56-81 | Asking from a restart gives the accepted entries, each once and in the order they were added, then nothing. |
| `Directory.Listing.Add` | recomp-runtime/directory_model.c:43-54 | An entry is added exactly if it has a name, the name is terminated and the table is not full. |
| `Directory.StorableMeans` | recomp-runtime/directory_model.c:43-54 | Names of 1 to 259 characters can be stored. |
| `DirectoryRecord.Serialize` | recomp-runtime/directory_model.c:93-129 | Writes the record and zeros behind it, exactly if the name is terminated and the record fits; otherwise nothing is written. |
| `DirectoryRecord.RecordTellsEntry` | recomp-runtime/directory_model.c:93-129 | A record tells its entry: no two entries have the same record, whatever room it is written in. |
| `DirectoryRecord.RecordLayout` | recomp-runtime/directory_model.c:115-126 | Which value is read back at which offset of the record, the lowest byte first. |
| `TextureCache.Cache.Find` | recomp-runtime/d3d_presenter_d3d11.cpp:1998-2024 | The index finds a slot exactly when a scan of all slots would. |
| `TextureCache.Cache.Lookup` | recomp-runtime/d3d_presenter_d3d11.cpp:1988-2144 | A linear texture whose rows are not 32-bit and within its bytes is refused; whatever is served shows the bytes of this draw, or bytes of the same fingerprint. A hit changes nothing but the bytes of a linear texture; an entry whose bytes have changed goes; a new texture takes the next slot. One index entry for every used slot, none for others, and no key twice. |
| `TextureCache.ShowableMeans` | recomp-runtime/d3d_presenter_d3d11.cpp:1988-2024 | A linear texture of 32-bit texels can be shown exactly if every texel lies within its bytes and before the next row. |
| `TextureCache.ShowsMeans` | recomp-runtime/d3d_presenter_d3d11.cpp:2016-2040 | What is served has the bytes of the draw wherever the fingerprint tells them apart, and for linear textures always. |
| `TextureCache.Cache.Refresh` | recomp-runtime/d3d_presenter_d3d11.cpp:2020-2026 | A linear texture is given new bytes; nothing else changes. |
| `TextureCache.Cache.Insert` | recomp-runtime/d3d_presenter_d3d11.cpp:2117-2143 | First in, first out: the next slot is evicted and filled, or left unused if the index cannot grow. |
| `TextureCache.AdvancedMeans` | recomp-runtime/d3d_presenter_d3d11.cpp:2117-2143 | The 4096 slots are taken in turn. |
| `TextureCache.Cache.Unindex` | recomp-runtime/d3d_presenter_d3d11.cpp:1950-1959 | One entry of the slot is removed from the index. |
| `TextureCache.Cache.Release` | recomp-runtime/d3d_presenter_d3d11.cpp:3265-3273 | Exactly the textures in the released range go out of use. |
| `TextureCache.Dropped` | recomp-runtime/d3d_presenter_d3d11.cpp:1950-1959 | Dropping a slot keeps the cache sound, and takes out that slot alone. |
| `TextureCache.Added` | recomp-runtime/d3d_presenter_d3d11.cpp:2128-2138 | Filling an unused slot with a key that is not cached keeps the cache sound. |
| `TargetBudget.Targets.BindColor` | recomp-runtime/d3d_presenter_d3d11.cpp:998-1062 | Finds or makes the one target of a key, and says with which error it does not: out of memory exactly if the limit has no room for it or the list cannot take it, a host failure exactly if there is room and the host does not make it. The bytes charged stay the sum over live targets and within the limit. |
| `TargetBudget.Targets.LookupDepth` | recomp-runtime/d3d_presenter_d3d11.cpp:881-982 | Exactly when a depth target can go with a color target, which, and the error otherwise; what goes with the main target is charged nothing. |
| `TargetBudget.Targets.CustomDepth` | recomp-runtime/d3d_presenter_d3d11.cpp:924-981 | Finds or makes a depth target within the budget, or gives the exact error. |
| `TargetBudget.MakingMeans` | recomp-runtime/d3d_presenter_d3d11.cpp:936-981 | A target takes four bytes a texel and must fit 64 MiB with all others; a refusal by the host is a host failure, a list that does not grow is out of memory. |
| `TargetBudget.PaidMeans` | recomp-runtime/d3d_presenter_d3d11.cpp:936-981 | What every live target is charged; the depth target beside the main target is charged nothing. |
| `TargetBudget.HasMeans` | recomp-runtime/d3d_presenter_d3d11.cpp:926-936 | Two targets are one exactly if everything of their descriptions but the depth flag agrees. |
| `TargetBudget.BindableMeans` | recomp-runtime/d3d_presenter_d3d11.cpp:998-1020 | Which descriptions a color target can have. |
| `TargetBudget.MatchingMeans` | recomp-runtime/d3d_presenter_d3d11.cpp:881-925 | Which depth targets can go with a color target of a given size, and when one counts as the main target's. |
| `TargetBudget.Targets.Release` | recomp-runtime/d3d_presenter_d3d11.cpp:3226-3264 | After a release no target that begins in the range is left, every other one is, and no subtraction underflows; addresses from 0x80000000 to 0x83FFFFFF are the same memory seen again; a range past the address space is refused. |
| `TargetBudget.SwapKeeps` | recomp-runtime/d3d_presenter_d3d11.cpp:3246-3264 | Replacing an entry by the last one removes that entry and its charge, and nothing else. |
| `UploadRing.Ring.Upload` | recomp-runtime/d3d_presenter_d3d11.cpp:1566-1593 | One upload is the step of the ring that the lemmas below are about, its answer included. |
| `UploadRing.DrawFindsBytes` | recomp-runtime/d3d_presenter_d3d11.cpp:1588-1591 | A draw finds its bytes, at an aligned place in the buffer. |
| `UploadRing.KeepsOffLiveBytes` | recomp-runtime/d3d_presenter_d3d11.cpp:1581-1588 | A mapping that promises not to overwrite keeps off live bytes if the ring is safe; and a ring stays safe exactly unless a discarding map over live bytes fails. |
| `UploadRing.WhyItFails` | recomp-runtime/d3d_presenter_d3d11.cpp:1577-1587 | A failure has its reason, and leaves the buffer and what it holds alone if it serves; a map discards only a new buffer or one at its end. |
| `UploadRing.RunsStand` | recomp-runtime/d3d_presenter_d3d11.cpp:1566-1593 | Over every run, with buffers and mappings failing anywhere: unless a discarding map over a standing upload has failed since, every upload since the buffer was last new or discarded is in place. |
| `UploadRing.UploadAll` | recomp-runtime/d3d_presenter_d3d11.cpp:1566-1593 | The uploads of any run do so. |
| `UploadRing.OverwritesAfterFailure` | recomp-runtime/d3d_presenter_d3d11.cpp:1581-1587 | After that failure the next upload that the buffer serves overwrites its beginning, live or not. |
| `UploadRing.FailureHappens` | recomp-runtime/d3d_presenter_d3d11.cpp:1581-1587 | A run from a fresh ring in which it does: the sixth upload is written over the first. |
| `UploadRing.Ring.Doubled` | recomp-runtime/d3d_presenter_d3d11.cpp:1526-1529 | Doubling ends at a sufficient capacity, less than twice what is required. |
| `UploadRing.RequiredMeans` | recomp-runtime/d3d_presenter_d3d11.cpp:1566-1577 | What is required: four times the upload, and a megabyte at least. |
| `DpcQueue.Queue.Drain` | recomp-runtime/kernel_interrupt.c:41-69 | An outermost drain that ends has taken the turns of the model and leaves the queue empty; a drain inside a drain does nothing. |
| `DpcQueue.EndsExactly` | recomp-runtime/kernel_interrupt.c:41-69 | A drain ends exactly if the insertions accepted in it are bounded, whatever the routines do. |
| `DpcQueue.TurnsBounded` | recomp-runtime/kernel_interrupt.c:46-67 | Each turn takes one entry off, and there are no more turns than entries pending or accepted since. |
| `DpcQueue.RequeueingNeverEnds` | recomp-runtime/kernel_interrupt.c:46-67 | A routine that queues its own call again keeps the drain going for ever. |
| `DpcQueue.RunsGood` | recomp-runtime/kernel_interrupt.c:41-167 | In every state of every run, in the middle of a drain too: no duplicates, at most 64 entries, every accepted insertion in its place, and every entry taken off has had its routine called, if it has one, with its arguments and in order. |
| `DpcQueue.Queue.QueueDpc` | recomp-runtime/kernel_interrupt.c:89-118 | An entry is appended exactly if it is not null, not queued already, and there is room. |
| `DpcQueue.Queue.RemoveDpc` | recomp-runtime/kernel_interrupt.c:120-136 | The one entry of a call is removed, if there is one. |
| `DpcQueue.Queue.LowerIrql` | recomp-runtime/kernel_interrupt.c:160-167 | Below dispatch level the queue is drained. |
| `DpcQueue.InsertedSound` | recomp-runtime/kernel_interrupt.c:89-118 | Accepted insertions stay partitioned into pending, dequeued and removed, in insertion order. |
| `DpcQueue.DequeuedSound` | recomp-runtime/kernel_interrupt.c:48-57 | So they do when the first entry is taken off. |
| `DpcQueue.RemovedSound` | recomp-runtime/kernel_interrupt.c:120-136 | So they do when any entry is removed. |
| `DpcQueue.EachOnce` | recomp-runtime/kernel_interrupt.c:41-136 | Every accepted insertion is in exactly one of the three. |
| `DpcRules.InsertMeans` | recomp-runtime/kernel_interrupt.c:89-118 | A call is queued behind the others unless it is null, queued already, or the sixty-fifth. |
| `DpcRules.NothingToRemove` | recomp-runtime/kernel_interrupt.c:120-136 | Removing a call that is not queued changes nothing. |
| `DpcRules.LevelMeans` | recomp-runtime/kernel_interrupt.c:150-162 | The interrupt level is the lowest byte of what is asked for. |
| `DpcRules.TurnMeans` | recomp-runtime/kernel_interrupt.c:46-67 | A turn takes the entry at the front and calls its routine, if it has one, with it. |
| `DpcRules.LoweringMeans` | recomp-runtime/kernel_interrupt.c:160-167 | Lowering the level below two drains the queue; otherwise it does not. |
| `DpcRules.RemoveMeans` | recomp-runtime/kernel_interrupt.c:120-136 | Removing a call takes its entry out from between what is before it and what is behind it. |
| `DpcRules.ActionsInOrder` | recomp-runtime/kernel_interrupt.c:46-67 | What a routine does happens one call after the other. |
| `Fibers.AwayAndBack` | recomp-runtime/fiber_adapter.c:303-625 | A fiber that switches away comes back, after anything the others did, to the registers (past its one argument), floating point and handlers it left: as if it had switched to itself. It comes back exactly if none of the steps in between stops the program. |
| `Fibers.Perform` | recomp-runtime/fiber_adapter.c:212-655 | A step goes on exactly if it is possible: its target is live, is not the running fiber if it is to be deleted, or there are a slot, a stack and a native fiber for a new one. No other fiber is disturbed. |
| `Fibers.Process.Switch` | recomp-runtime/fiber_adapter.c:303-625 | Succeeds exactly for a live target. To itself it only returns; otherwise the target sees what it left, and the caller leaves the same. |
| `Fibers.Process.Continue` | recomp-runtime/fiber_adapter.c:109-125 | A resumed fiber finds its own context in place, at its entry or in the switch it was in; the two checks never fail. |
| `Fibers.Process.Create` | recomp-runtime/fiber_adapter.c:212-301 | A new handle unlike every live one, with its entry, its parameter and the context of a fresh thread, in the first free slot of both tables; nothing else changes. Succeeds exactly if there is a slot, a stack and a native fiber; and the stack is as large as asked for exactly if the request does not wrap. |
| `Fibers.Process.ChooseStack` | recomp-runtime/fiber_adapter.c:226-250 | The slot's own stack if it is large enough as the request is rounded, or the new block: in either case apart from all other stacks, and as large as the request exactly up to 0xFFFFF000. |
| `Fibers.WrappedRequest` | recomp-runtime/fiber_adapter.c:226-248 | From a fresh process: a fiber that asks for 0xFFFFF001 bytes gets the 0x3000 of the one deleted before it. |
| `FiberStacks.StackMeans` | recomp-runtime/fiber_adapter.c:230-233 | A stack is the fewest whole pages, three at least, that hold the request, up to 0xFFFFF000; above that it is nothing. |
| `FiberStacks.StacksShareNothing` | recomp-runtime/fiber_adapter.c:235-252 | No address lies on the stacks of two slots, nor the first fiber's handle on any. |
| `FiberStacks.KeptStack` | recomp-runtime/fiber_adapter.c:230-255 | A kept stack is whole pages within 32 bits, and the handle of the fiber on it is sixteen bytes below its end. |
| `FiberStacks.ServesMeans` | recomp-runtime/fiber_adapter.c:244-252 | A slot's own stack serves if it is large enough; otherwise a block that ends within 32 bits does. |
| `FiberStacks.ChosenMeans` | recomp-runtime/fiber_adapter.c:244-252 | Which of the two is used, and that it holds the request. |
| `FiberStacks.NewFiberMeans` | recomp-runtime/fiber_adapter.c:254-285 | A new fiber has an empty floating-point unit with control word 0x037F, no handlers, and its stack pointer eight bytes below its handle. |
| `FiberStacks.GivenUpMeans` | recomp-runtime/fiber_adapter.c:627-655 | A fiber that is given up leaves its slot free, with the stack in it. |
| `FiberStacks.SameFibersMeans` | recomp-runtime/fiber_adapter.c:560-616 | A switch changes no handle, entry or parameter. |
| `FiberStacks.PlusMeans` | recomp-runtime/fiber_adapter.c:61-66 | Stack pointers are added in 32 bits. |
| `Fibers.Process.Delete` | recomp-runtime/fiber_adapter.c:627-655 | Succeeds exactly for a live fiber that is not running; its slot keeps the stack. |
| `Fibers.Process.Convert` | recomp-runtime/fiber_adapter.c:172-210 | The first fiber, exactly once. |
| `Fibers.Process.Locate` | recomp-runtime/fiber_adapter.c:78-87 | Both tables have a handle in the same slot, or neither has it. |
| `Fibers.Added` | recomp-runtime/fiber_adapter.c:268-291 | A stack apart from the others gives a handle unlike the others, and the tables stay in step. |
| `Fibers.Switched` | recomp-runtime/fiber_adapter.c:560-616 | Saving one context and taking up another keeps every other fiber's. |
| `Fibers.Freed` | recomp-runtime/fiber_adapter.c:640-653 | Giving a fiber up keeps the tables in step and every other context. |
| `Fibers.Process.AddFiber` | recomp-runtime/fiber_model.c:29-64 | A fiber is added in the first free slot, unless its handle is null or taken or the table is full. |
| `Fibers.Process.Find` | recomp-runtime/fiber_model.c:12-27 | The slot of a handle. |
| `FileHandles.Serve` | recomp-runtime/kernel_file.c:1061-1327 | Over every run of open, create, disposition and close: live handles on one profile path allow each other, and no handle is younger than a deletion mark on its path or on a directory above it. |
| `FileHandles.Table.OpenFile` | recomp-runtime/kernel_file.c:1061-1145 | A new handle on the followed path with the rights and sharing asked for, or an error, and exactly which: deletion-pending for a path that is marked or below a mark; what the host answers; a sharing violation if a live handle objects; no memory if the table is full; and what stands against a mark that was asked for. |
| `FileRules.OpensWhatIsThere` | recomp-runtime/kernel_file.c:1061-1145 | A directory is opened whatever the rights; a file to be written to is what the host makes of it; otherwise it must be there. |
| `FileHandles.Table.CreateFile` | recomp-runtime/kernel_file.c:1150-1327 | On every path of the code but one a handle returned is new; that path is an unreadable name without write access, which returns handle 1. On the others the status is exactly that of what the request leads to: a directory, a file to be made, what was found, or a handle made up in its place. No handle for a path that waits to be deleted. |
| `FileRules.CreatesWhereWritable` | recomp-runtime/kernel_file.c:1195-1327 | Where can be written: write access makes the file anew; otherwise FILE_OPEN and FILE_OPEN_IF keep what is there, and only FILE_OPEN refuses what is missing. |
| `FileRules.CreatesWhereReadOnly` | recomp-runtime/kernel_file.c:1195-1327 | Where nothing can be written nothing is made: to write, or to ask for what is missing, gets a made-up handle. |
| `FileRules.CreatesDirectories` | recomp-runtime/kernel_file.c:1195-1327 | A directory is asked for: what decides is what stands there once directories have been made. |
| `FileRules.PendingIsRefused` | recomp-runtime/kernel_file.c:1061-1327 | A path on its way to be deleted is refused by both calls; a name that leads nowhere opens a made-up handle. |
| `FileRules.NothingElse` | recomp-runtime/kernel_file.c:1061-1327 | A request that fails leaves every open handle as it was, and none behind. |
| `FileHandles.Table.ApplyToFirst` | recomp-runtime/kernel_file.c:927-951 | With the delete-on-close option that path marks the handle numbered 1 if it can be marked, and closes it otherwise; no other entry changes. |
| `FileHandles.StrangerMarksFirst` | recomp-runtime/kernel_file.c:1150-1327 | From an empty table: the file of handle 1 is marked by a call that names nothing. |
| `FileHandles.Table.Place` | recomp-runtime/kernel_file.c:183-279 | A handle is registered and marked if that is asked for; the status says exactly why not, and then no handle is left. |
| `FileHandles.Table.Register` | recomp-runtime/kernel_file.c:183-279 | A handle is entered in a free slot; a sharing violation exactly if a live handle on the path objects, and otherwise no memory exactly if there is no slot. |
| `FileHandles.Table.Conflict` | recomp-runtime/kernel_file.c:125-140 | Whether some live handle on the path rules a request out, either way round. |
| `FileRules.ObjectsMeans` | recomp-runtime/kernel_file.c:111-140 | A handle rules a request out exactly if it is live, its path is the same up to case, and one of the two asks for a right (four ways to read, three to write, one to delete) that the other does not share. |
| `FileRules.CompatibleMeans` | recomp-runtime/kernel_file.c:125-140 | What runs keep of two live handles on one profile path: neither has a right that the other does not share. |
| `FileRules.AllRights` | recomp-runtime/kernel_file.c:882-889 | All rights on a profile path are to read, write and delete; elsewhere they add none. |
| `FileRules.ProfileMeans` | recomp-runtime/kernel_file.c:442-458 | A profile path is the directory of the saves, up to case, or goes on behind either separator. |
| `FileHandles.Table.DeletePendingAt` | recomp-runtime/kernel_file.c:842-855 | Whether a path, or a directory above it, is marked. |
| `FileRules.PendsMeans` | recomp-runtime/kernel_file.c:842-855 | A marked handle holds back its own path, up to case, and a marked directory what goes on behind a backslash. |
| `FileRules.OlderThanMarks` | recomp-runtime/kernel_file.c:842-855 | Of a marked handle and an open one on the marked path or below it, the open one was there first. |
| `FileRules.HandlesAreSound` | recomp-runtime/kernel_file.c:183-279 | Every open handle has a number below the next one, a path of at most 511 characters, and, if marked, the right to delete. |
| `FileHandles.Table.Resolve` | recomp-runtime/kernel_file.c:955-1059 | What a name comes to, exactly: nothing for a marked path, and otherwise what the host found. |
| `FileHandles.Table.RequestDelete` | recomp-runtime/kernel_file.c:891-922 | Marks exactly an existing, writable file or empty directory, and says which is missing. |
| `FileRules.MarkEnds` | recomp-runtime/kernel_file.c:891-922 | What stands against a mark: a missing path, a read-only one, a directory that is not empty or cannot be listed. |
| `FileRules.OptionMeans` | recomp-runtime/kernel_file.c:927-951 | The option to delete on closing marks one handle or gives it up, and no other changes. |
| `FileHandles.Table.ApplyDeleteOnClose` | recomp-runtime/kernel_file.c:927-951 | Marks the handle, or closes it if it cannot be marked; other handles stay. |
| `FileHandles.Table.SetDisposition` | recomp-runtime/kernel_file.c:1470-1574 | Sets or takes back a mark on a profile handle with delete access, and nothing else. |
| `FileHandles.Table.Close` | recomp-runtime/kernel_file.c:2280-2336 | Deletes only the path of a marked handle that is really closed; a native handle that cannot be closed stays. |
| `FileHandles.Entered` | recomp-runtime/kernel_file.c:195-224 | A new handle that nothing objects to keeps both invariants. |
| `FileHandles.MarkedNow` | recomp-runtime/kernel_file.c:917-919 | So does a mark. |
| `HostPath.AppendRelative` | recomp-runtime/kernel_file.c:407-434 | Succeeds exactly if every segment is plain and short enough and the result fits the buffer, and then appends them all; on failure too the path starts where it started. |
| `HostPath.AppendSegment` | recomp-runtime/kernel_file.c:344-365 | One segment with its separator, or the path as it was but for the separator. |
| `HostPath.AcceptedBelow` | recomp-runtime/kernel_file.c:344-434 | What is built has the start's components, then the guest's, and none of the guest's is `.` or `..`. |
| `HostPath.SegmentsMeans` | recomp-runtime/kernel_file.c:407-434 | Either separator parts segments, empty ones do not count, and a name without separators is one. |
| `HostPath.PlainMeans` | recomp-runtime/kernel_file.c:344-350 | A segment is refused exactly if it is empty, has a colon, or ends in a dot or a space. |
| `HostPath.JoinedMeans` | recomp-runtime/kernel_file.c:351-365 | Segments are put one behind the other with one backslash between them. |
| `HostPath.AppendableMeans` | recomp-runtime/kernel_file.c:407-434 | What can be appended: plain segments of at most 127 characters whose result fits the buffer with its end mark. |
| `Fvf.DecodeLayout` | recomp-runtime/d3d_draw_model.c:108-149 | Decodes exactly the supported formats; every offset is where the component begins; and the stride is where the last one ends exactly if the sets have two floats each on average, so always for pairs. |
| `Fvf.EveryByteOnce` | recomp-runtime/d3d_draw_model.c:108-149 | Every byte of a vertex belongs to one component and to no other. |
| `Fvf.ForStream` | recomp-runtime/d3d_draw_model.c:94-106 | Changes nothing but the number of sets, to the largest that fits or zero; a format that is not decoded, five to fifteen sets included, is left alone. |
| `Fvf.TooManySets` | recomp-runtime/d3d_draw_model.c:94-106 | Such a format might be decoded with fewer sets, and is not. |
| `Fvf.BuildDeclaration` | recomp-runtime/d3d_vertex_shader_model.c:30-101 | The declaration gives every component its place and type; refused exactly past eight sets. |
| `Fvf.DecodeBoth` | recomp-runtime/d3d_vertex_shader_model.c:30-101 | Both decoders place every component alike in a format of coordinate pairs. |
| `Fvf.SetsAgree` | recomp-runtime/d3d_vertex_shader_model.c:88-99 | They agree on the coordinate sets exactly when the format asks for nothing but pairs. |
| `Fvf.OneSetLess` | recomp-runtime/d3d_draw_model.c:100-103 | Subtracting one set from the word touches no other field. |
| `FvfLayout.FieldsRead` | recomp-runtime/d3d_draw_model.c:29-47 | A format that is the sum of its parts, each at its place, is taken apart into those parts. |
| `FvfLayout.EveryFormatComposes` | recomp-runtime/d3d_draw_model.c:29-47 | Every word is such a sum. |
| `FvfLayout.PlainStrides` | recomp-runtime/d3d_draw_model_test.c:55-63 | The strides of all formats without weights, those of the tests among them; a transformed position cannot carry a normal. |
| `FvfLayout.WeightedStrides` | recomp-runtime/d3d_draw_model_test.c:137-172 | One to three weights widen a vertex by a float each; indexed weights are refused. |
| `FvfLayout.NamedLayout` | recomp-runtime/d3d_draw_model_test.c:84-135 | The layouts of the formats 0x112, 0x142 and 0x144. |
| `FvfLayout.DeclarationStarts` | recomp-runtime/d3d_vertex_shader_model.c:46-67 | Which words of a finished declaration hold the position and the weights, with their types. |
| `FvfLayout.DeclarationSays` | recomp-runtime/d3d_vertex_shader_model.c:69-85 | Which words hold normal, diffuse and specular color. |
| `FvfLayout.SetsSay` | recomp-runtime/d3d_vertex_shader_model.c:87-98 | Coordinate set i has its place and type in words 42 + 4i and 43 + 4i, behind the floats of the sets before it. |
| `FvfLayout.CodeOf` | recomp-runtime/d3d_vertex_shader_model.c:88-97 | The size code of set i is the two bits above the lower 2i. |
| `FvfLayout.SizesInBytes` | recomp-runtime/d3d_vertex_shader_model.c:92-95 | Up to four sizes, the first in the lowest byte of their word. |
| `FvfLayout.TypeTellsSize` | recomp-runtime/d3d_vertex_shader_model.c:48-93 | Every type word but a color's is sixteen times the number of floats, and 2. |
| `FvfLayout.SetSizes` | recomp-runtime/d3d_vertex_shader_model.c:33 | Size code 3 is one float, any other two more than it says. |
| `FvfLayout.NoMoreSets` | recomp-runtime/d3d_vertex_shader_model.c:87-98 | A vertex has the sets that its format counts, each four bytes a float, and nothing behind them. |

## Left out

- VertexProgramText.VertexProgramSource: the declarations before the translation and the results behind it are fixed text; that they initialise and hand on the registers as the model's start and end is assumed.
- VertexProgram.IluCorrect: floating-point arithmetic is abstract; the constants of the clamped reciprocal are one abstract operation.
- Swizzle.SwizzleMasks: axes up to 2^31, past which the loop does not end (`MaskLoopEnds`).
- Unswizzle.UnswizzleSurface: surfaces of at most 2^32 bytes, and source and destination apart.
- ShaStream.DigestOfChunks: a message of 2^64 bits or more has its length reduced, as the code reduces it; the standard does not define its digest.
- ShaGuest.GuestDigest: guest memory is one flat array; addresses outside it are not modelled.
- PresenterThread.Safety: creation, pacing statistics and the value destroy returns are not modelled; a critical section is one step.
- Capture.Packet.Add: the byte counts are given (vertex count times stride, twice the index count); copying only part of a fixed-function command is not modelled.
- AudioPump.Pump: the block decoder is any function that fills a block when it accepts one; the lookup and retiring of voices is not modelled.
- TextureCache.Cache.Lookup: the span check of a compressed texture (`MipSpan`), the presence of a palette, and the render targets and back buffer that are served before the cache; the conversion of texels is outside, and the fingerprint is any function of the bytes.
- TargetBudget.Targets.LookupDepth: host views are positions in the lists; the main target's own view is only named.
- DpcQueue.Queue.Drain: a routine that does not return; the routine that an entry turns out to have is given by the number of entries taken off before.
- AudioRun.PumpAll: looping buffers whose sound and clock settings stay as they are during the run.
- UploadRing.Ring.Upload: spans of at most 64 MiB, which the capture packet enforces.
- Fibers.Process.Create: the words mirrored into guest memory and the clearing of the stack are not modelled; heap blocks are apart from all earlier ones and from the main fiber's data, and the tables are sequences of 32 slots.
- FileHandles.Table.Resolve: reading guest names, symbolic links and the host's directory search are given as outcomes; a name found in the disc root's one directory is no profile path.
- FileHandles.Table.Close: the save transaction is only what it refuses; its failure notes and stops are not modelled, and handle numbers do not wrap.
- Fvf.BuildDeclaration: the bit fields are taken apart once, by Fields; words of absent components keep what they held.
- Null pointers of C interfaces, host calls (Direct3D, XAudio2, Win32 files and consoles), diagnostics and everything behind environment variables.
- Address dispatch, and the render-state, tile, frame, input and device tables: look-ups and counters without loops or shared state.
- The heap allocator, the save transaction and the symbolic-link table.
