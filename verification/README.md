# sprdflash, modelled in Dafny

A model of the flash driver for Spreadtrum/UNISOC modules and of the protocol-simulating device it is
developed against, with proofs about what whole sessions do. Both ends are stateful objects. The host
sends bytes, the device decodes and executes frames and answers in bytes, and a set of frame numbers
says whose replies are withheld. Every theorem about a stage, a run, a dump or a clone rests on the
byte-level link; none assumes it.

The layers, from the bottom:

- `Bytes`, `Text`, `Checksum`: words, exclusive or, lossy UTF-8, the Spreadtrum sum, the CRCs, the byte sum.
- `Bsl`, `Pdl`: framing, escaping and incremental decoding on both sides of the wire.
- `Device`: the device, `class MockTransport`, with its modes, buffers, write in progress, flash map
  and fault model. A ghost log of executed commands is tied to the flash by its invariant.
- `Session`: which commands a session executes and how it ends, as a function of the withheld replies
  alone: exchanges, stages, the adaptive retry, whole runs as lists of steps, and what reads return.
- `Link`, `PdlLink`: the host's two link layers, proved to produce exactly those traces.
- `Pac`, `Plan`: the package format, and the plan derived from it.
- `Flasher`, `Runs`: the driver, and what every successful run guarantees.
- `Discovery`, `Clone`: sizing and dumping an unknown device, and repackaging one.
- `Reconstruct`, `Damage`: proposing a layout from a flash image, and what damage to the image does to it.
- `Line`: the production line as interleaved atomic steps.

Code that works by changing things is modelled as methods with loops, on objects or arrays, each proved
against a function of its inputs or of the old state. What the program promises is then proved about
those functions. Time is abstracted: a receive times out exactly when no reply is pending.

Where the code differs from what its comments or a first reading suggest, the model follows the code
and states by how much:

- A starting chunk of at most 512 * 2^k does not survive k withheld replies in general: at 512 bytes and
  below there is no retry at all, and one withheld acknowledgement is final (`Session.FloorHasNoRetry`).
  A stage survives any k > 0 withheld replies, none of them of a reconnect, if and only if its chunk is at
  least 513 * 2^(k-1) (`Session.SurvivesExactlyFrom`).
- A `MIDST_DATA` piece above 65535 bytes loses data silently to its 16-bit length field: a stage stores
  its image intact if and only if the chunk or the image is below 65536 bytes (`Session.StoredIntact`).
- `dump_full` rounds the size up to 64 KiB. On an image whose size is no multiple of that (and below the
  128 MiB cap) it always fails, on its first read past the end, as long as the rounded range lies in the
  32-bit address space (`Discovery.DumpFull`).
- The final CRC test of `clone` cannot fail: whatever re-parses passes (`Clone.Repack`).
- The device looks a region up in a hash map, so with overlapping regions a read may be served from any
  of them. The model allows every choice. The read-back theorems need each partition to be readable
  undisturbed right after it is written (`Flasher.Consistent`), for which disjoint ranges are enough
  (`Flasher.DisjointIsConsistent`).
- The check-baud flag is repeated every 50 ms until the version frame is there. The frame is returned
  whatever the timing, but the link is quiet afterwards if and only if no further flag falls due before the
  last of its reads of 256 bytes (`PdlLink.ExecAndGetVer`). That is so for the device's own banner, which
  takes one read (`PdlLink.BannerIsTimely`). With a banner of 249 bytes or more it can fail
  (`PdlLink.LongBannerIsLate`), and the flag too many swallows the next message
  (`PdlLink.HalfFrameSwallows`). Runs, dumps and clones are stated for every timing that meets the condition.
- The layout scan looks into script packs block by block, and takes whatever it detects there for a region
  of its own. The contents of an image are found if and only if nothing is detected at the further blocks of
  its packs (`Reconstruct.RecoveredExactlyWhen`); a pack whose second block begins with a word that reads as
  a generation is taken apart (`Reconstruct.LoudPackIsTakenApart`).

The first 32 rows of the table are the main results; the others lead to them, layer by layer.

## Model

| member | source | states |
|---|---|---|
| Runs.RunPac | crates/sprdflash-flash/src/flasher.rs:85-184 | From a parsed package: an Ok run has booted the second loader, has each partition at its address, for every chunk with read-back of ranges of their own, and with format each marker, NV refreshed; version, byte count, order, starts, trace and the cause of each failure; without a first loader nothing is sent. |
| Flasher.RunPlan | crates/sprdflash-flash/src/flasher.rs:85-184 | For every plan, options, device content and set of withheld replies: what an Ok run has booted and stored, that every payload was in the file, the order of its commands and what each start announces, even with read-backs of overlapping regions, the exact trace, which decides success, what a failure names, and that a corrupted read-back never passes. |
| Runs.EverythingIsStored | crates/sprdflash-flash/src/flasher.rs:104-164 | Of entries at one address the last is what is left there, and writing the markers disturbs no partition, whatever the device held before. |
| Runs.ParsedRunSucceeds | crates/sprdflash-flash/src/flasher.rs:85-184 | A package that parses has every payload its plan needs; its run ends well exactly when it endures the withheld replies. |
| Session.RunEndsWellWhen | crates/sprdflash-flash/src/flasher.rs:85-184 | A run ends well if and only if every exchange is answered, every image stays within its budget with no reconnect lost, and no payload is missing; otherwise it ends on a withheld reply or a missing payload. |
| Session.SurvivesExactlyFrom | crates/sprdflash-flash/src/flasher.rs:376-428 | k > 0 withheld replies, none of a reconnect, are survived whatever they are if and only if the chunk is at least 513 * 2^(k-1), after any number of frames. |
| Session.SucceedsExactlyWhen | crates/sprdflash-flash/src/flasher.rs:376-428 | A stage succeeds if and only if it loses no reconnect and no more replies than its budget. |
| Session.AdaptiveEffect | crates/sprdflash-flash/src/flasher.rs:371-400 | Whatever its end, an adaptive stage touches no region but its own; if it ends well, that region holds what a chunk no larger than the first leaves of the image. |
| Session.StoredIntact | crates/sprdflash-flash/src/bsl_io.rs:128-135 | The stored image is the image if and only if no piece exceeds the 16-bit length field. |
| Flasher.BringUpBoots | crates/sprdflash-flash/src/flasher.rs:290-370 | Whatever the device holds, a bring-up that ends well has connected, announced the second loader once by address and size, loaded it in pieces of 2048 bytes, had it in its place when executing it, connected again, and changed the rate last; no other start or execution. |
| Link.ReadFlash | crates/sprdflash-flash/src/bsl_io.rs:151-182 | For every chunk size the result is exactly the shown bytes, short replies tolerated; a corrupted device is never read as correct; reading past what it serves fails. |
| Device.MockTransport.Process | crates/sprdflash-flash/src/mock.rs:93-218 | The whole dispatch loop for every mode and every buffer: all PDL messages up to EXEC, a check-baud flag behind it, all frames, each answered in turn; store and replies stay what the executed commands make of the initial flash. |
| Device.DeliverMessages | crates/sprdflash-flash/src/mock.rs:132-226 | Any list of messages in any fragmentation is executed as exactly that list, and its replies are exactly what is sent back. |
| Bsl.ReceiveFragments | crates/sprdflash-flash/src/bsl_io.rs:67-73 | Any fragmentation of noise, flags, a built message and more is received as the type and data that were built. |
| Checksum.SprdSumIsInternetChecksum | crates/sprdflash-core/src/checksum.rs:15-34 | On every input up to 131074 bytes the sum is the big-endian Internet checksum of RFC 1071, odd trailing byte included. |
| Checksum.CrcsArePolynomialDivisions | crates/sprdflash-core/src/checksum.rs:36-92 | CRC-16-ARC, CRC-32 (clause 3.2.9 of IEEE Std 802.3-2018) and the BootROM CRC are remainders of bitwise divisions. |
| Checksum.SprdSumDetectsByteChange | crates/sprdflash-core/src/checksum.rs:21-34 | Changing any one byte changes the sum. |
| Checksum.ByteChangeDetected | crates/sprdflash-core/src/checksum.rs:60-92 | Both CRCs differ after any change of one byte. |
| Pac.PackageIsRecovered | crates/sprdflash-core/src/pac.rs:146-224 | Any package written to the format parses: to its header fields and texts, its entries in table order, and checksum results that say what each covers. |
| Plan.NvFixedIsValid | crates/sprdflash-core/src/plan.rs:116-133 | A refreshed image passes its own check, differs only in the slot, is a fixed point, and fails the check after any one-byte change of its content. |
| Plan.PlanSelects | crates/sprdflash-core/src/plan.rs:166-185 | By names in any case and addresses alone: no plan exactly without a first-stage loader; the first such entry; the first second-stage loader; every other payload at a physical address and every payload at a logical one, each once and in table order. |
| Discovery.DiscoveryFindsEdge | crates/sprdflash-flash/src/flasher.rs:475-519 | For any read predicate: an edge at 64 KiB granularity or the cap, in at most 18 probes. |
| Discovery.DumpFull | crates/sprdflash-flash/src/flasher.rs:220-251 | For a device that shows one image: the size is the rounded, capped one; when that is at most its length the image is exact and only a withheld reply or a missing loader can make the dump fail; when it is more, the dump always fails if the rounded range lies in the 32-bit address space. The device is booted, read from, and reset exactly if asked for. |
| Clone.GoldenParses | crates/sprdflash-cli/src/main.rs:631-659 | The result parses with good checksums, the same header fields and entries, each dump as its payload and no other byte changed, even from stale checksums. |
| Clone.CloneDevice | crates/sprdflash-cli/src/main.rs:584-668 | From a device to a package that parses with good checksums and holds what the device shows at its partitions; on a device that shows full-size dumps only a withheld reply makes it fail. The device is booted, read from, and reset. |
| Reconstruct.RegionsTile | crates/sprdflash-core/src/reconstruct.rs:219-254 | Regions tile the image from the first base to its end, content fits its window, what follows non-code content is all padding, ids are unique, and only the topmost region can be the factory one. |
| Reconstruct.LongestRunIsAPiece | crates/sprdflash-core/src/reconstruct.rs:256-330 | No run of equal generations is longer than some single-generation piece of the back half, and if as long it starts no earlier. |
| Reconstruct.LayoutIsRecovered | crates/sprdflash-core/src/reconstruct.rs:193-254 | An image laid out from code images and quiet script packs in front of a filesystem is taken apart into exactly these, with ids, bases, used sizes and windows; then staging, longest run and the rest, as far as they are there, the topmost as the factory region. |
| Reconstruct.RecoveredExactlyWhen | crates/sprdflash-core/src/reconstruct.rs:193-217 | The contents and the back half of such an image are found if and only if nothing is detected at the further blocks of its script packs, whatever the code payloads contain. |
| Damage.FlippedByteShows | crates/sprdflash-core/src/reconstruct.rs:111-254 | On any image: with any one payload byte of a verified code image changed, the proposed layout is the same but for that region, which is no longer verified. |
| PdlLink.ExecAndGetVer | crates/sprdflash-flash/src/pdl_io.rs:88-112 | EXEC, check-baud flags whenever one falls due, and reads of 256 bytes return the whole version frame whatever the timing; the link is quiet afterwards if and only if no further flag falls due before the last read. |
| Line.JoinIsExact | crates/sprdflash-line/src/line.rs:123-182 | At the join the counters are the sums over all units, and the retained records are all pushes or the last 500 in order. |
| Checksum.SprdSum | crates/sprdflash-core/src/checksum.rs:21-34 | The loop with a wrapping 32-bit accumulator computes the folded, swapped sum of the little-endian words. |
| Checksum.PolynomialsAre | crates/sprdflash-core/src/checksum.rs:36-120 | The three polynomials by their exponents; that of CRC-32 as in clause 3.2.9 of IEEE Std 802.3-2018. |
| Checksum.CapturedSums | crates/sprdflash-core/src/checksum.rs:163-170 | The sums of two messages that a vendor tool sends. |
| Checksum.TotalBound | crates/sprdflash-core/src/checksum.rs:21-34 | Up to 131074 bytes the accumulator cannot overflow. |
| Checksum.ByteOrder | crates/sprdflash-core/src/checksum.rs:26 | 256 times the little-endian total and the big-endian ones-complement sum differ by a multiple of 65535 and vanish together (section 2(B) of RFC 1071). |
| Checksum.FoldResidue | crates/sprdflash-core/src/checksum.rs:31-33 | Folding keeps the residue modulo 65535 and yields 0 only for 0, which separates the 0 and 0xFFFF cases. |
| Checksum.BuildTable | crates/sprdflash-core/src/checksum.rs:100-138 | The nested loops fill the table with eight shift-and-reduce steps of each index. |
| Checksum.Crc | crates/sprdflash-core/src/checksum.rs:66-92 | The table-driven loop computes the byte-wise update folded over the input. |
| Checksum.ByTableIsSteps | crates/sprdflash-core/src/checksum.rs:68 | One table lookup equals eight bit steps on the register combined with the byte. |
| Checksum.CrcIsPolynomialDivision | crates/sprdflash-core/src/checksum.rs:66-138 | The table-driven CRC is the remainder of dividing the message bits by the polynomial one coefficient at a time. |
| Checksum.ByTableInjective | crates/sprdflash-core/src/checksum.rs:68 | The byte update stays in range and is injective in the register and in the byte. |
| Checksum.CrcDetectsByteChange | crates/sprdflash-core/src/checksum.rs:66-92 | Changing any one byte of any input changes the CRC. |
| Checksum.Crc16ArcFrom | crates/sprdflash-core/src/checksum.rs:66-71 | The CRC-16-ARC register after the input, in 16 bits. |
| Checksum.Crc32 | crates/sprdflash-core/src/checksum.rs:86-92 | The complemented CRC-32 register, in 32 bits. |
| Checksum.ArcComposes | crates/sprdflash-core/src/checksum.rs:64-71 | CRC-16-ARC continues over any split, and over nothing stays as it is. |
| Checksum.Sum32IsByteSum | crates/sprdflash-core/src/checksum.rs:76-79 | Adding with wrap-around at every byte is the plain byte sum modulo 2^32. |
| Checksum.Crc16Ccitt | crates/sprdflash-core/src/checksum.rs:39-52 | The two nested loops compute the masked shift register over all bytes. |
| Checksum.CcittIsPolynomialDivision | crates/sprdflash-core/src/checksum.rs:39-52 | From any register the loop computes the division by 0x11021, most significant bit first. |
| Bsl.Escape | crates/sprdflash-core/src/bsl.rs:101-112 | The loop escapes flags and escape bytes and nothing else. |
| Bsl.Unescape | crates/sprdflash-core/src/bsl.rs:116-129 | The loop undoes escapes and drops a dangling one. |
| Bsl.EscapesAs | crates/sprdflash-core/src/bsl.rs:99-112 | 7E is written as 7D 5E, 7D as 7D 5D, and any other byte as itself (section 4.2 of RFC 1662). |
| Bsl.UnescapesAs | crates/sprdflash-core/src/bsl.rs:114-130 | The byte behind 7D is read with bit 5 complemented, any other as it is, and a last 7D is dropped. |
| Bsl.EscapeRoundTrip | crates/sprdflash-core/src/bsl.rs:99-129 | For every body, unescaping undoes escaping, the escaped form holds no flag, and it is at most twice as long. |
| Bsl.BuildMessage | crates/sprdflash-core/src/bsl.rs:133-146 | Type, 16-bit length (truncated), data and checksum, escaped between two flags. |
| Bsl.FrameFields | crates/sprdflash-core/src/bsl.rs:132-146 | Type, 16-bit length, data and checksum lie at their places in the frame. |
| Bsl.CapturedMessages | crates/sprdflash-core/src/bsl.rs:188-204 | CONNECT, and CHANGE_BAUD to 115200, are on the wire what a vendor tool sends, byte by byte. |
| Bsl.RefusedBody | crates/sprdflash-core/src/bsl.rs:148-166 | A body is refused exactly when it lacks room for type, size and checksum, or for what its size says, and the error says which. |
| Bsl.ParseOfFrame | crates/sprdflash-core/src/bsl.rs:150-165 | Parsing a built frame gives back its type and what the 16-bit length field leaves of its data, all of it below 65536 bytes. |
| Bsl.DetectOfFrame | crates/sprdflash-core/src/bsl.rs:169-182 | A built frame is recognised under its own checksum unless a CRC equals the sum. |
| Bsl.DetectsByteChange | crates/sprdflash-core/src/bsl.rs:169-182 | A frame with one byte changed before the checksum never passes the sum. |
| Bsl.FindFrameBody | crates/sprdflash-flash/src/bsl_io.rs:191-202 | The index loop finds the first flag-free stretch between flags and unescapes it. |
| Bsl.FrameBodyOfMessage | crates/sprdflash-flash/src/bsl_io.rs:190-202 | After flag-free noise and any run of flags a message is decoded whatever follows it, and nothing is decoded from any proper prefix. |
| Bsl.PollFragments | crates/sprdflash-transport/src/serial.rs:59-82 | A decoder that fires only on a complete reply gives the same result for every fragmentation of the stream. |
| Bsl.SplitResumes | crates/sprdflash-flash/src/mock.rs:132-142 | Device-side decoding of a concatenation is decoding the first part, then the second behind its undecoded suffix. |
| Bsl.SplitOfMessage | crates/sprdflash-flash/src/mock.rs:132-142 | A built message at the head of the buffer is cut off as exactly one frame. |
| Pdl.ResponseIsStable | crates/sprdflash-core/src/pdl.rs:75-93 | After noise without the magic byte a response is decoded once complete, whatever follows, and never earlier. |
| Pdl.HeaderIs | crates/sprdflash-core/src/pdl.rs:45-50 | The eight bytes of a message header. |
| Pdl.ParamsFields | crates/sprdflash-core/src/pdl.rs:52-61 | Command and arguments are little-endian words in front of what is carried. |
| Device.DecodedFrame | crates/sprdflash-flash/src/mock.rs:140-153 | The device reads from a built frame the command that was sent, data truncated to its length field. |
| Device.ReplayAppend | crates/sprdflash-flash/src/mock.rs:155-172 | The store after a list of commands composes over concatenation. |
| Device.RepliedOne | crates/sprdflash-flash/src/mock.rs:143-214 | Every executed command has been answered from the flash as it was then, or not at all if withheld. |
| Device.MockTransport.constructor | crates/sprdflash-flash/src/mock.rs:45-91 | A fresh device is in PDL mode, quiet, with the given regions, withheld replies and corruption switch. |
| Device.MockTransport.StepPdl | crates/sprdflash-flash/src/mock.rs:96-118 | A whole PDL message is consumed and acknowledged, EXEC silently; anything less changes nothing. |
| Device.MockTransport.StepKick | crates/sprdflash-flash/src/mock.rs:119-131 | A flag after EXEC clears the input, answers with the banner and enters BSL mode; otherwise nothing changes. |
| Device.MockTransport.FindRegion | crates/sprdflash-flash/src/mock.rs:187-189 | Some region that holds the address, if and only if there is one. |
| Device.MockTransport.ReplyTo | crates/sprdflash-flash/src/mock.rs:174-214 | No reply when withheld or on reset, the served slice or INVALID_CMD on a read, an acknowledgement otherwise. |
| Device.MockTransport.Track | crates/sprdflash-flash/src/mock.rs:155-172 | START opens a write, MIDST appends to it, END files it under its address, with the short-payload and no-write cases. |
| Device.MockTransport.ExecuteCmd | crates/sprdflash-flash/src/mock.rs:143-214 | One frame counts once, takes effect on the store even if its reply is withheld, and leaves exactly its reply. |
| Device.MockTransport.ProcessPdl | crates/sprdflash-flash/src/mock.rs:96-118 | The PDL messages up to and including EXEC are taken in order and answered, EXEC silently. |
| Device.MockTransport.ProcessFrames | crates/sprdflash-flash/src/mock.rs:132-215 | All complete frames are executed in order and answered one after the other; the input keeps exactly the undecoded suffix. |
| Device.MockTransport.WriteAll | crates/sprdflash-flash/src/mock.rs:222-226 | Written bytes join the input and are processed before the call returns. |
| Device.MockTransport.ReadSome | crates/sprdflash-flash/src/mock.rs:228-234 | The first bytes of the output, as many as fit, are removed from it. |
| Device.MockTransport.PurgeInput | crates/sprdflash-flash/src/mock.rs:240-242 | The received input is discarded. |
| Device.MockTransport.Deliver | crates/sprdflash-flash/src/mock.rs:132-226 | Arbitrary fragments in BSL mode: exactly the frames of their concatenation are executed, in order, and answered. |
| Device.StreamOfMessages | crates/sprdflash-core/src/bsl.rs:133-146 | A concatenation of messages, whatever their checksums, decodes into exactly those commands. |
| Session.AskFacts | crates/sprdflash-flash/src/bsl_io.rs:76-94 | One-command, one-reply exchanges stop at the first withheld reply and complete exactly when none is. |
| Session.StageEffect | crates/sprdflash-flash/src/bsl_io.rs:109-147 | Executing a stage replaces the region at its address and nothing else. |
| Session.StagePrefixEffect | crates/sprdflash-flash/src/bsl_io.rs:109-147 | A stage cut anywhere has touched no region but its own. |
| Session.BudgetBound | crates/sprdflash-flash/src/flasher.rs:388-393 | The number of halvings is at most k if and only if the starting chunk is below 513 * 2^k. |
| Session.RetryAccount | crates/sprdflash-flash/src/flasher.rs:376-428 | At most one attempt more than the budget; a success has lost one reply per failed attempt; a failure has lost a reconnect or one reply too many. |
| Session.FloorHasNoRetry | crates/sprdflash-flash/src/flasher.rs:388 | At 512 bytes and below one withheld acknowledgement is final, after any number of frames. |
| Session.AdaptiveSucceeds | crates/sprdflash-flash/src/flasher.rs:376-428 | If no two consecutive replies are withheld, and no more than the budget are, the stage succeeds. |
| Session.AdaptiveOpens | crates/sprdflash-flash/src/flasher.rs:371-428 | The first attempt and each one behind a reconnect open with the stage's start, and nothing else is a start. |
| Session.RunAppend | crates/sprdflash-flash/src/flasher.rs:85-184 | A run of two lists of steps is the first run followed, if it ended well, by the second. |
| Session.RunWithoutFaults | crates/sprdflash-flash/src/flasher.rs:85-184 | With no reply withheld and no payload missing every run ends well. |
| Session.RunOnly | crates/sprdflash-flash/src/flasher.rs:85-184 | A run executes only the command types its steps allow, retries included. |
| Session.RunPlain | crates/sprdflash-flash/src/flasher.rs:290-370 | Steps without adaptive stages leave exactly their own commands. |
| Session.ClearRegion | crates/sprdflash-flash/src/mock.rs:187-203 | A region that no other reaches into is read back exactly, and nothing behind its end is. |
| Session.ReadIsServed | crates/sprdflash-flash/src/mock.rs:187-203 | Every byte of an answered read comes from an address the device holds. |
| Session.ReadAnswer | crates/sprdflash-flash/src/mock.rs:178-210 | A read inside shown bytes is answered with a non-empty prefix of what is wanted, its first byte flipped if the device corrupts. |
| Link.ReadUntil | crates/sprdflash-transport/src/serial.rs:59-82 | Behind what the caller already has, reads until the decoder accepts; nothing is lost, and everything is read on a timeout. |
| Link.TakeReply | crates/sprdflash-transport/src/serial.rs:59-82 | A decoder that accepts only complete replies takes exactly one reply and leaves the link quiet. |
| Link.Send | crates/sprdflash-flash/src/bsl_io.rs:60-64 | The device executes exactly the sent command and its reply, if not withheld, is all that is pending. |
| Link.Recv | crates/sprdflash-flash/src/bsl_io.rs:67-73 | The pending reply is decoded, nothing stays behind, and silence is a timeout. |
| Link.Command | crates/sprdflash-flash/src/bsl_io.rs:76-94 | One command, one reply: exact outcome, and the link is quiet afterwards whatever happened. |
| Link.CommandAck | crates/sprdflash-flash/src/bsl_io.rs:97-106 | An acknowledged command fails only by timing out, exactly when its reply is withheld. |
| Link.Transfer | crates/sprdflash-flash/src/bsl_io.rs:109-147 | START, the pieces and END leave exactly the trace the withheld replies dictate; the body `write_nv_once` shares. |
| Link.StageStartFields | crates/sprdflash-flash/src/bsl_io.rs:116-118 | The start of a stage carries the address and the size, big-endian, and nothing else. |
| Link.SendStage | crates/sprdflash-flash/src/bsl_io.rs:109-147 | The first command announces address and size and no other is a start; after a stage that ends well the image is stored, intact if and only if its pieces fit. |
| Link.ReadSlice | crates/sprdflash-flash/src/bsl_io.rs:158-176 | One read request: a timeout if withheld, otherwise a non-empty part of what the device holds there. |
| PdlLink.OneMessage | crates/sprdflash-flash/src/mock.rs:96-118 | A PDL header alone is not taken for a message; with its payload it is exactly one. |
| PdlLink.Send | crates/sprdflash-flash/src/pdl_io.rs:35-40 | Header and payload in two writes are taken as exactly one message. |
| PdlLink.Command | crates/sprdflash-flash/src/pdl_io.rs:43-49 | A message that is not EXEC is answered with status 0 and leaves the link quiet. |
| PdlLink.ImageIsDelivered | crates/sprdflash-flash/src/pdl_io.rs:61-84 | A start that announces address, size and the name PDL1; blocks of at most 2048 bytes, numbered from 0 with their lengths, as many as needed, that carry the image in order; an end with a checksum of zero. |
| PdlLink.SendImage | crates/sprdflash-flash/src/pdl_io.rs:61-84 | START, numbered blocks and END are delivered in order, for every image. |
| PdlLink.ExtractMessage | crates/sprdflash-flash/src/pdl_io.rs:115-121 | A built message is extracted whole, flags included, and from no proper prefix. |
| PdlLink.BannerIsTimely | crates/sprdflash-flash/src/mock.rs:119-131 | The device's own banner is read in one go, so the link is quiet for every timing. |
| PdlLink.LongBannerIsLate | crates/sprdflash-flash/src/pdl_io.rs:88-112 | A banner of 249 bytes or more needs a second read, and a flag due before it breaks the condition. |
| PdlLink.HalfFrameSwallows | crates/sprdflash-flash/src/mock.rs:132-142 | After a flag too many the next message is not executed; an empty frame is, in its place. |
| PdlLink.KickAgain | crates/sprdflash-flash/src/mock.rs:132-142 | A lone flag to a device in BSL mode: every second one closes an empty frame. |
| Pac.Utf16z | crates/sprdflash-core/src/pac.rs:123-140 | The loop decodes units up to the first NUL, lone surrogates replaced. |
| Pac.UnitsAre | crates/sprdflash-core/src/pac.rs:119-137 | The text is the little-endian units up to the first NUL or the end, lone surrogates replaced. |
| Pac.ParseEntries | crates/sprdflash-core/src/pac.rs:171-199 | The table loop stops at the first truncated slot or payload out of range and otherwise reads every entry. |
| Pac.PayloadCrc | crates/sprdflash-core/src/pac.rs:201-207 | The CRC streamed in 1 MiB chunks is the CRC of the whole body. |
| Pac.Parse | crates/sprdflash-core/src/pac.rs:146-224 | The parser as a function of the bytes: size checks, table bounds, ranges, both CRC flags, each error. |
| Pac.EntriesAreInRange | crates/sprdflash-core/src/pac.rs:171-199 | After parsing, every data entry has a payload of its declared size inside the file. |
| Pac.FirstProblem | crates/sprdflash-core/src/pac.rs:171-199 | A table is refused for its first slot that is cut off or whose payload reaches past the end, and the error names it. |
| Pac.RefusedFor | crates/sprdflash-core/src/pac.rs:146-199 | Each error of the parser says what is wrong: length, declared size, slot or payload. |
| Pac.TextIsRecovered | crates/sprdflash-core/src/pac.rs:123-140 | Text written as padded UTF-16LE is read back. |
| Pac.EntryIsRecovered | crates/sprdflash-core/src/pac.rs:181-189 | A slot written field by field at the format's offsets parses to the entry it describes. |
| Plan.EraseOps | crates/sprdflash-core/src/plan.rs:79-98 | The loop with its list of seen addresses computes the deduplicated erases. |
| Plan.ErasesAreDistinct | crates/sprdflash-core/src/plan.rs:79-98 | No address is erased twice. |
| Plan.ErasesAreFirst | crates/sprdflash-core/src/plan.rs:79-98 | The erases come, in table order, from the first markers named FMT_FSSYS or FLASH, in any case, for their addresses; the former sends SYSF, the latter four zeros. |
| Plan.ErasesCover | crates/sprdflash-core/src/plan.rs:79-98 | Every marker that asks for an erase gets one at its address. |
| Plan.EraseParamIs | crates/sprdflash-core/src/plan.rs:67-74 | Only the names FMT_FSSYS and FLASH, in any case, ask for an erase, and with which parameter. |
| Plan.NvIs | crates/sprdflash-core/src/plan.rs:111-115 | Exactly the name NV, in any case, is refreshed. |
| Plan.NvFixCrc | crates/sprdflash-core/src/plan.rs:125-133 | The CRC slot is overwritten with the big-endian CRC of the rest, images below two bytes untouched. |
| Plan.NvStartFields | crates/sprdflash-core/src/plan.rs:139-145 | The start payload carries the address, the size and the plain byte sum, each modulo 2^32. |
| Plan.Build | crates/sprdflash-core/src/plan.rs:166-185 | The plan as a function of the entries, absent exactly when there is no first loader. |
| Plan.PlanIsSeparated | crates/sprdflash-core/src/plan.rs:39-54 | Loaders and partitions lie at physical addresses, data markers at logical ones, and every addressed payload has a place. |
| Flasher.RetryTransfer | crates/sprdflash-flash/src/flasher.rs:376-428 | The retry loop leaves exactly the adaptive trace and fails only by a timeout. |
| Flasher.SendStageAdaptive | crates/sprdflash-flash/src/flasher.rs:376-400 | Every attempt opens with the address and the size; after success the region is the image if its pieces fit or it is as long; no other region has changed. |
| Flasher.WriteNv | crates/sprdflash-flash/src/flasher.rs:404-468 | The same for the refreshed NV image, whose start also carries the sum of its bytes; its full length is reported. |
| Flasher.WriteEntry | crates/sprdflash-flash/src/flasher.rs:104-164 | The common body of the two write loops: payload or its absence, NV or plain, trace and stored image. |
| Flasher.LoadFdl1 | crates/sprdflash-flash/src/flasher.rs:306-324 | FDL1 is delivered and executed, and the version banner returned as trimmed text, for every timing of the check-baud flags that the banner allows. |
| Flasher.FirstLoaderRuns | crates/sprdflash-flash/src/flasher.rs:296-316 | What the PDL agent is sent: a connection, the first loader delivered field by field at its address, and its execution. |
| Flasher.BannerIsReported | crates/sprdflash-flash/src/flasher.rs:317-322 | The version a run reports for the device's own banner, decoded and trimmed. |
| Flasher.BringUp | crates/sprdflash-flash/src/flasher.rs:290-370 | PDL, FDL1, reconnect, FDL2 and the baud change leave exactly their trace; a missing payload or a withheld reply stops them. |
| Flasher.DisjointIsConsistent | crates/sprdflash-flash/src/flasher.rs:118-126 | With disjoint write ranges, clear of the device's other regions, every partition can be read back undisturbed. |
| Flasher.CheckPartition | crates/sprdflash-flash/src/flasher.rs:118-126 | A read-back that passes means that the region holds at least as many bytes, and these very bytes unless the device corrupts; on visible data it fails only by a timeout, and always if corrupted. |
| Flasher.FlashPartition | crates/sprdflash-flash/src/flasher.rs:104-126 | One partition: the image is stored for certain if its pieces fit or it was read back from a range of its own. |
| Flasher.FlashPartitions | crates/sprdflash-flash/src/flasher.rs:104-127 | After success every payload was in the file and, for certain when pieces fit or each image was read back from a range of its own, every image is stored; partition traffic only, every start announcing one of the partitions; a failure names its entry. |
| Flasher.EraseAll | crates/sprdflash-flash/src/flasher.rs:134-145 | Exactly one erase per planned operation, in order, leaving the flash map unchanged. |
| Flasher.EraseFields | crates/sprdflash-flash/src/flasher.rs:134-145 | Each erase carries the address, big-endian, and then the four bytes of its parameter. |
| Flasher.WriteMarkers | crates/sprdflash-flash/src/flasher.rs:146-164 | After success every payload was in the file and its image, NV refreshed, is stored; nothing else has changed; every start announces one of the markers, NV with the sum of its bytes. |
| Flasher.Format | crates/sprdflash-flash/src/flasher.rs:133-165 | The erases and then the markers, exactly if asked for. |
| Flasher.Reset | crates/sprdflash-flash/src/flasher.rs:172-176 | A reset is sent if and only if asked for, and nothing is awaited. |
| Flasher.BringUpIsPlain | crates/sprdflash-flash/src/flasher.rs:290-370 | A bring-up that ends well has executed exactly its commands, none of them an erase, a read or a reset. |
| Runs.OversizePieceVanishes | crates/sprdflash-core/src/bsl.rs:136 | A piece of exactly 65536 bytes is acknowledged and stores nothing. |
| Discovery.MidBetween | crates/sprdflash-flash/src/flasher.rs:508-511 | The midpoint lies strictly inside, so the early exit is never taken. |
| Discovery.NarrowFindsEdge | crates/sprdflash-flash/src/flasher.rs:506-518 | For any read predicate the binary search ends on a readable-to-unreadable edge. |
| Discovery.NarrowProbes | crates/sprdflash-flash/src/flasher.rs:506-518 | Its number of probes is exactly the logarithm of the interval. |
| Discovery.EdgeOfSize | crates/sprdflash-flash/src/flasher.rs:475-519 | For a device readable exactly below a size, the edge is that size rounded up to 64 KiB and capped. |
| Discovery.Probe | crates/sprdflash-flash/src/flasher.rs:479-487 | A probe answers whether the address is held, or times out. |
| Discovery.DiscoverFlashSize | crates/sprdflash-flash/src/flasher.rs:475-519 | The two loops on a device return an edge of what it serves in at most 18 frames, or fail on a withheld reply or an unreadable base. |
| Discovery.Boot | crates/sprdflash-flash/src/flasher.rs:198-199 | Bring-up before a dump fails only on a withheld reply or a loader that is not in the package. |
| Discovery.Dump | crates/sprdflash-flash/src/flasher.rs:190-213 | Each region's bytes as the booted device shows them, in order; the device is only read from, left as it was booted, and reset exactly if asked for. |
| Discovery.AloneWhenClear | crates/sprdflash-flash/src/mock.rs:85-91 | A device with one region that no other reaches into, up to its end and the cap, is such a device. |
| Discovery.ReadWhole | crates/sprdflash-flash/src/flasher.rs:235-245 | The read loop returns exactly the image's first bytes, and fails when asked for more than the device holds. |
| Clone.CopyInto | crates/sprdflash-cli/src/main.rs:641-642 | Overwrites one slice of the array in place and nothing else. |
| Clone.Splice | crates/sprdflash-cli/src/main.rs:631-644 | The dumps spliced in order, or the first partition whose dump has the wrong size. |
| Clone.RefreshCrcs | crates/sprdflash-cli/src/main.rs:646-653 | Payload CRC first, then header CRC, both little-endian and in place. |
| Clone.RefreshedBytes | crates/sprdflash-cli/src/main.rs:646-653 | Only the four CRC bytes change, and both then match what they cover. |
| Clone.PassesWhenConsistent | crates/sprdflash-cli/src/main.rs:655-659 | A package that parses passes the checksum test if and only if both stored checksums match. |
| Clone.SplicedElsewhere | crates/sprdflash-cli/src/main.rs:631-644 | Bytes outside the partitions' payloads are untouched. |
| Clone.SplicedPart | crates/sprdflash-cli/src/main.rs:631-644 | With disjoint payloads every dump survives the later ones. |
| Clone.Repack | crates/sprdflash-cli/src/main.rs:631-659 | Splice, refresh and re-parse succeed on full-size dumps of a parseable package with separate payloads; the first short dump is named; the final checksum test cannot fail. |
| Reconstruct.UsedLen | crates/sprdflash-core/src/reconstruct.rs:93-100 | The backward loop finds the end of the content before the erase padding. |
| Reconstruct.ScanFront | crates/sprdflash-core/src/reconstruct.rs:197-212 | The block walk of phase 1 with its four branches. |
| Reconstruct.LongestRun | crates/sprdflash-core/src/reconstruct.rs:270-286 | The skipping double loop finds the first of the longest runs over all starting blocks. |
| Reconstruct.BestIsLongest | crates/sprdflash-core/src/reconstruct.rs:270-286 | No run of equal generations is longer, and none as long starts earlier. |
| Reconstruct.SegmentBackhalf | crates/sprdflash-core/src/reconstruct.rs:260-330 | Staging, run and rest, each present exactly when non-empty, or one unclassified piece. |
| Reconstruct.AssignRegions | crates/sprdflash-core/src/reconstruct.rs:219-252 | The loop with its running counters gives every anchor its region. |
| Reconstruct.BackhalfAscends | crates/sprdflash-core/src/reconstruct.rs:260-330 | At most three ascending pieces that start at the start and reach the end. |
| Reconstruct.AnchorsAscend | crates/sprdflash-core/src/reconstruct.rs:193-217 | For any image whatever, anchors ascend strictly and code images end before the next anchor. |
| Reconstruct.Layout | crates/sprdflash-core/src/reconstruct.rs:193-254 | The whole function on any image. |
| Reconstruct.ReservedAccountsForAll | crates/sprdflash-core/src/reconstruct.rs:226-227 | The reserved sizes add up to everything past the first base. |
| Reconstruct.ScanStops | crates/sprdflash-core/src/reconstruct.rs:197-212 | The walk ends short of a whole block or on a filesystem block. |
| Reconstruct.UnclassifiedIff | crates/sprdflash-core/src/reconstruct.rs:288-296 | The unclassified fallback is taken exactly when something remains, but less than one whole block. |
| Reconstruct.BuiltIsVerified | crates/sprdflash-core/src/reconstruct.rs:111-151 | A code image with its two checksums in place is detected and verified at any offset, whatever its payload. |
| Reconstruct.DetectedIs | crates/sprdflash-core/src/reconstruct.rs:111-182 | At any offset: a code image is found by its magic and size, and verified exactly when both stored checksums match what they cover; a script pack by its magic; a generation by its four bytes. |
| Damage.FlippedCode | crates/sprdflash-core/src/reconstruct.rs:111-138 | A verified code image with one payload byte changed is found with the same size, but not verified. |
| Damage.ScanDoubts | crates/sprdflash-core/src/reconstruct.rs:193-212 | The walk over the damaged image finds the same anchors, one of them not verified. |
| Damage.DamagedContentShows | crates/sprdflash-core/src/reconstruct.rs:453-462 | In an image laid out from contents, the region of the damaged code image is the only one that changes. |
| Reconstruct.KindsExclude | crates/sprdflash-core/src/reconstruct.rs:111-182 | A block is at most one of code image, script pack and filesystem block. |
| Reconstruct.BackIsRecovered | crates/sprdflash-core/src/reconstruct.rs:256-330 | The back half is cut at the first longest run, wherever it starts, with staging in front and the rest behind it. |
| Reconstruct.PassedIsQuiet | crates/sprdflash-core/src/reconstruct.rs:197-212 | Where the walk passes without an anchor, outside every code image, nothing is detected. |
| Reconstruct.LoudPackIsTakenApart | crates/sprdflash-core/src/reconstruct.rs:193-217 | A script pack whose second block reads as a generation is taken apart. |
| Line.RunUnit | crates/sprdflash-line/src/station.rs:51-112 | The retry loop computes the record of the first good attempt, or of the last error after retries + 1; one recovery between two attempts. |
| Line.InvStep | crates/sprdflash-line/src/line.rs:121-156 | Every atomic step of every station keeps counters, retained records and attempt counts in balance. |
| Line.InvAlways | crates/sprdflash-line/src/line.rs:121-156 | The balance holds after any interleaving. |
| Line.CountersLeadPushes | crates/sprdflash-line/src/metrics.rs:46-64 | At any moment passed plus failed exceeds the pushes by at most one per station. |
| Line.GoesOn | crates/sprdflash-line/src/line.rs:123-168 | In continuous mode no station is gone before it is told to stop. |
| Line.FoldIsTally | crates/sprdflash-line/src/metrics.rs:46-56 | Recording units one by one yields the plain sums of passes, retries and bytes. |

## Left out

- Serial ports, DTR/RTS, USB discovery, AT commands, boot verification and driver recovery: operating-system and hardware I/O.
- Wall-clock time: deadlines, phase seconds, throughput, and `flash_millis`; when a check-baud flag falls due is a parameter. The deadline loops of `read_until` and `exec_and_get_ver` end when nothing is pending.
- Late or duplicated replies: the code's fault model withholds replies, and stale acknowledgements are outside what the retry is designed for.
- Device.MockTransport.Process: the single loop over modes is written as three consecutive ones, since modes only move forward; between calls the states are the same.
- Pac.Utf16z: characters are Dafny characters; file ids are folded over ASCII only, as in the code.
- Reconstruct.Layout: an id is a kind with its index, not the formatted text, and the human-readable detail is omitted; offsets wrap at 32 bits where a checked build would stop.
- Checksum.BuildTable: the tables are constants of the program and are built per call here.
- Line.RunUnit: attempts are unbounded naturals; a retry limit of 2^32 - 1 would overflow the program's counter.
- Line.JoinIsExact: the record sink, flash seconds and the wait for the next unit are not part of the state; a station may stop or go on after any push.
- Progress callbacks, tracing, XML, JSON and Prometheus text, command-line parsing, printing, `describe_mismatch`, `rep_name`, `parse_region`, `wait_cycle`, `probe_commands`, `flash_with_recovery`: they would add only easy members.
- What a real device does on ERASE_FLASH or CHANGE_BAUD: the commands and their order are logged, their effect on hardware is not invented.
