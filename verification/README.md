# libopenwch-tools: a verified model of the flash and debug stack

This project models how the tool reads, writes and debugs a CH32V00x part through a WCH-LinkE
programmer, and proves that the stack, layer on layer, comes to a plain byte map: after a write, flash
is what it was, overlaid with the image. `dafny verify dfyconfig.toml` checks all of it.

The layers, from the bottom:

- **The environment** (`Target`, `DebugModule`, `Simulator`, `Transport`) is the repository's own
  simulated programmer: memory map, flash controller, RV32 program-buffer interpreter, abstract
  commands, debug-module registers and the packets that reach them. Each of its operations is a function
  from state to state, and class `Sim` carries it out in place and is proved to do exactly that. Three
  things are more general than in the simulator: the n-th flash operation keeps the controller busy for
  any number of polls `lag(n)`, the n-th abstract command likewise, and request n may be answered, lost,
  or take effect and have its reply lost, as `fault(n)` says. Three records are added so that whole runs
  can be talked about: the core's bus accesses, the CTLR writes that started something, and the commands
  issued while cmderr was set.
- **The request layer** (`Linke`, `Interface`): nine-byte register packets, and the cache of what the
  programmer has been told.
- **The debug module** (`RiscV`, `DmHost`, `BlockRead`, `Registers`, `DmRuns`): every byte read or written
  is a two-instruction program that is encoded, loaded, given its operands and run.
- **The flasher**: `FlashSteps`, `FlashPages` and `FlashImage` say, as functions of the state, what the
  controller's primitives, the rewriting of a page and the whole walk over an image come to, lost
  clean-ups included. `FlashLeftovers` says what a page leaves behind and what that does to the next one,
  `FlashEntries` what every page then holds, `FlashSound` when the controller refuses something, and
  `FlashBounds` how far any of it reaches. `FlashController`, `FlashWrite` and `Flash` carry all this out
  over the link on any wire; `EndToEnd` closes it over a newly built part.
- **The GDB server** (`GdbHex`, `GdbPacket`, `GdbReplies`, `GdbClient`, `GdbMemory`, and the breakpoint table as
  an overlay on memory in `GdbOverlay` and `GdbBreakpoints`).
- **The terminal mailbox** (`Terminal`).

Main results:

1. On a wire that answers, writing an image that fits always succeeds, its verification always
   succeeds, flash becomes the overlay, RAM and every register but x8 and x9 are unchanged, each touched
   page is erased once and then programmed once in ascending order with the controller idle, and no bit is
   asked to go from 0 to 1 (`Flash.WriteAndVerify`, closed over a newly built part in `EndToEnd.FlashTwice`).
2. On a wire that stops answering at any request, that request having taken effect or not, Ok still
   means that every page is final; otherwise flash is final up to some page, original after it, and that
   page is original, blank or final (`FlashWrite.WriteCh32v0`). On a wire that fails and answers again, what
   every page holds after Ok follows from which clean-ups took effect. A page whose buffer reset was not
   cleaned up after is blank, or untouched if that of the page before was not either; one whose erase was
   not, or whose program was not and which is not the last, is blank; every other page is final
   (`FlashEntries.Entry`, `FlashEntries.WalkHolds`). Flash is the overlay exactly when every page was meant to
   hold that (`FlashEntries.GoalIff`, `FlashEntries.EntryIsMeantIff`). If no request failed but those of
   clean-ups, the result is Ok exactly when every page that was programmed without having been erased
   asks for no bit that was clear in it (`FlashWrite.WriteThroughLoss`, `FlashEntries.WalkGranted`). A wire
   that loses a single request and leaves a page blank behind an Ok is `EndToEnd.OneLossBlanks`. Whatever
   the wire and the status, nothing outside the pages the image touches changes, and after a verification
   that returned Ok the image is there (`Flash.WriteAndVerify`).
3. On any wire at all, the core makes only accesses that were asked for, each whole and in order
   (`DmRuns.AccessAll`), and on one that answers no abstract command is ever issued while an error is
   pending (`DmRuns.PerformAll`).
4. Breakpoints are an overlay on memory that composes and is undone, over every run whose live ranges do
   not overlap (`GdbBreakpoints.Session.Serve`).
5. On a link that answers, under every interleaving with a target that gets to run, the terminal loses no
   message and prints none twice: every message appears whole, in order and once, up to the first word
   that the code takes for no message, at which the target waits for ever (`Terminal.Deliver`). With
   accesses that fail the loop stops only at a failed read or a short print, and it repeats exactly the
   messages whose clear of DATA0 was lost (`Terminal.Box.Turn`, `Terminal.Box.Run`).

Where the code and its documentation disagree, or a property one would expect is false, the model follows
the code:

- The packet sender sums the payload before escaping, the receiver sums the bytes on the wire, and
  section E.1 of the GDB manual asks for the latter. A server's own frame is accepted by its own
  receiver exactly when the number of escaped bytes is a multiple of 256 (`GdbPacket.OwnFrameAcceptedIff`,
  with a payload of one byte in `GdbPacket.OneEscapeIsRefused`). A client that does as the manual asks gets a
  document exactly when every piece of it has a multiple of 256 such bytes, so one with fewer than 256 but
  some never arrives, whatever sizes are asked for (`GdbClient.DocumentArrivesIff`); console text always does
  (`GdbClient.OutputArrives`).
- The comment "Retry once" (`src/gdb_server.c:227`) stands over a loop that repeats the frame for every
  `-` (`GdbPacket.SendPacket`): a client that answers `--+` is sent it three times (`GdbPacket.TwoRefusals`).
- Inserting a breakpoint twice remembers the first one's ebreak as the program, and removing it twice leaves
  the ebreak behind, unless the program held it already (`GdbBreakpoints.Session.InsertTwice`).
- The interface cache can be wrong after a request whose reply was lost. `Interface.AgreesUnless` gives the
  exact condition, `Interface.LostReplyLies` an input, and `Interface.SwitchBack` what it does to the next
  request.
- The statuses of the clean-up writes are ignored (`src/flash_ch32v0.c:176`), so that lost requests can leave
  a page blank, or as it was, behind an Ok. `EndToEnd.OneLossBlanks` is a wire on which a single lost request
  does so; `FlashEntries.LostEraseBlanks`, `FlashEntries.LostProgramBlanks` and `FlashEntries.LostResetsKeep` are
  families of inputs, `FlashWrite.WriteThroughLoss` says what the tool is told, and
  `FlashEntries.GoalIff` with `FlashEntries.EntryIsMeantIff` the exact condition.
- The simulator decodes instruction bit 7 of a branch as imm[0]; the ISA says imm[11]. The two agree exactly
  when that bit is clear (`DebugModule.BranchOffsetAgrees`), an encoded branch is run to the ISA's target
  exactly when imm[11] is clear (`DebugModule.BneRunsByIsaIff`), and `bne x1, x2, 0x800` is one that is not
  (`DebugModule.BneMisread`).
- The comment on the terminal's second packet shape puts the length into the low nibble
  (`src/main.c:1071`); the code takes six bits, which agrees exactly when the other two are clear or no
  length fits (`Terminal.NibbleAgrees`); 0x95 is a byte on which they differ (`Terminal.NibbleDisagrees`).
- A message whose clear of DATA0 is lost is printed again, and what DATA1 carried of it may be zeros the
  second time (`Terminal.OnceEach`, `Terminal.TornDiffers`).
- A word in DATA0 that is not zero, but whose low byte is 0 or 8 to 127, is taken for an empty mailbox and never
  cleared (`src/main.c:1163-1165`), so that the target waits for ever. Every message is delivered exactly when
  none is such a word (`Terminal.Deliver`), and nothing is printed any more once one is there (`Terminal.Box.Run`).

## Model

| member | source | states |
|---|---|---|
| Words.MasksAreRemainders | tests/sim_programmer.c:105-108 | Masking an address with 0x00ffffff, 0x3f or 0x3 is the remainder the model's arithmetic on addresses uses |
| Words.HighByteIsWindow | tests/sim_programmer.c:100-103 | Comparing an address's top byte is the 16 MB window the model uses for flash and its alias |
| Simulator.Sim.ProgramBytes | tests/sim_programmer.c:121-143 | The byte loop programs the range by clearing bits only, and counts exactly the bytes that ask for a 0 bit to be set |
| Simulator.Sim.EraseBytes | tests/sim_programmer.c:178-234 | The erase loop makes exactly the bytes of the range blank, as far as the array reaches |
| Simulator.Sim.StoreBytes | tests/sim_programmer.c:279-419 | The byte loop of a store is one little-endian store of that width |
| Simulator.Sim.RunProgbuf | tests/sim_programmer.c:421-510 | The interpreter loop agrees with the recursive definition of running the program buffer, step budget included |
| Transport.Wire.Command | src/transport.h:38-56 | One exchange: lost requests change nothing, lost replies hide a change that did happen |
| Linke.Link.Command | src/linke.c:85-119 | Success means exactly that the request was answered; a link that is not open sends nothing |
| Linke.Link.RegisterRequest | src/linke.c:464-472 | The packet built byte by byte is the big-endian register request |
| DebugModule.WritePacket | src/linke.c:454-502 | Packing a register write into bytes and unpacking it on the other side is that register write, for every register and value |
| DebugModule.ReadPacket | src/linke.c:454-502 | The value unpacked from the reply to a register read is the register's value |
| Linke.Link.RegAccess | src/linke.c:454-502 | A register access does all of its effect or none of it, and Ok means that it was answered with the true value |
| RiscV.StoreDecodes | src/dm.c:337-345 | Decoding a store word by the ISA's S format gives back width and both registers |
| RiscV.LoadDecodes | src/dm.c:347-354 | Decoding a load word by the I format gives back the operands |
| RiscV.AddiDecodes | src/dm.c:356-363 | Decoding gives back the operands exactly when the immediate is a 12-bit signed value |
| RiscV.BneDecodes | src/dm.c:365-377 | Decoding by the ISA's B format gives back the operands exactly when the offset is an even 13-bit signed value |
| RiscV.EncodersInjective | src/dm.c:337-377 | Distinct representable operands give distinct instruction words |
| RiscV.FormatsNeverCollide | src/dm.c:337-381 | No word of one format is a word of another, whatever the operands, and ebreak is a word of none |
| DebugModule.BranchOffsetAgrees | tests/sim_programmer.c:473-482 | The simulator reads a branch offset as the ISA does exactly when instruction bit 7 is clear |
| DebugModule.BneRunsByIsaIff | tests/sim_programmer.c:473-486 | An encoded bne that is taken goes to the target the ISA gives it exactly when imm[11] is clear |
| DebugModule.BneMisread | tests/sim_programmer.c:473-486 | bne x1, x2, 0x800 at 0 is taken to 1, where the ISA goes to 0x800 |
| DebugModule.RunStore | src/dm.c:404-407 | Running `sb`, `sh` or `sw` x8, 0(x9) and ebreak is one store of that width and changes nothing else |
| DebugModule.RunLoad | src/dm.c:409-412 | Running `lbu`, `lh` or `lw` x8, 0(x9) and ebreak is one load of that width into x8 and changes nothing else |
| DmHost.DmWait | src/dm.c:56-125 | Ok exactly when the command ended without error within the polling limit; an error found is cleared |
| DmHost.DmCommand | src/dm.c:128-160 | One abstract command has all of its effect or none; failed or not, it leaves cmderr clear on an answering wire |
| DmHost.GprWrite | src/dm.c:162-173 | Writes exactly one register; a number above 31 is refused before anything is sent |
| DmHost.GprRead | src/dm.c:175-186 | Returns the register's value and changes nothing a caller can see |
| DmHost.DmLoadProgram | src/dm.c:243-274 | After Ok the program buffer starts with the program; too long a program is refused |
| DmHost.BuildPrograms | src/dm.c:397-416 | The six programs are built once and are the encodings of the six accesses |
| DmHost.RunAccess | src/dm.c:278-313 | The last command of the chain is one access of the chosen width, address and value |
| DmHost.DmRun | src/dm.c:278-313 | The whole chain of packets is one access or none on any wire; x8 and x9 are the only registers changed |
| DmHost.WriteSized | src/dm.c:418-436 | A sized write is exactly one store of that width, address and value, or nothing; Ok means it happened |
| DmHost.ReadSized | src/dm.c:438-471 | A sized read is exactly one load of that width, and its value is what the core loaded |
| BlockRead.WordLoad | src/dm.c:497-510 | An aligned word is its four neighbouring bytes in order, in flash, its alias and RAM |
| BlockRead.ReadBlock | src/dm.c:473-527 | For every range, wrapping or not: only aligned accesses inside it are made and the rest of the buffer is untouched; off the controller's registers, the buffer is memory byte by byte |
| Registers.CsrAccess | src/dm.c:213-241 | dpc and dcsr are read and written as they are; any other number outside the GPRs is refused, and the refusal leaves no error behind |
| Registers.PcRead | src/dm.c:188-204 | Returns dpc and changes nothing a caller can see |
| Registers.PcWrite | src/dm.c:206-211 | Sets dpc and nothing else |
| DmRuns.PerformAll | src/dm.c:56-160 | Over any sequence of register and memory operations on an answering wire, no command is issued while cmderr is set |
| DmRuns.AccessAll | src/dm.c:278-333 | On any wire, the target ends as if exactly those accesses that took effect had been made, in order; every Ok one did; if no request failed, every one is Ok |
| DmRuns.BusIsWhatTookEffect | src/dm.c:278-333 | The core's bus shows those accesses and no other |
| FlashController.WaitReady | src/flash_ch32v0.c:65-95 | On an answering wire Ok exactly when the busy period is below the poll limit and nothing was refused; afterwards the controller is idle |
| FlashController.CtlrUpdate | src/flash_ch32v0.c:98-110 | The read-modify-write is one CTLR write of the old value with the bits set and cleared, or nothing |
| FlashController.Unlock | src/flash_ch32v0.c:113-152 | On any wire, Ok means that both locks are open whatever keys came before, and nothing else has changed |
| FlashSteps.KeysUnlock | src/flash_ch32v0.c:113-129 | KEY1 then KEY2 unlocks from every key stage |
| FlashController.EraseFast | src/flash_ch32v0.c:155-179 | On any wire, Ok means that the state is the erase's, with or without its clean-up; if no request failed but those of the clean-up and nothing was refused before, it is Ok; with nothing ever busy the clean-up comes after 75 requests, and is lost if the next one is; a wire that does not come back leaves flash at one of the two contents; nothing changes outside the zone it is given |
| FlashController.BufferReset | src/flash_ch32v0.c:182-198 | The same for the buffer reset, which leaves flash alone on a wire that does not come back |
| FlashController.BufferLoad | src/flash_ch32v0.c:201-222 | The same for loading a word, which leaves flash alone on a wire that does not come back |
| FlashController.ProgramFast | src/flash_ch32v0.c:225-245 | The same for programming a page, blank or not; it is Ok unless the program itself is refused |
| FlashPages.WrittenPage | src/flash_ch32v0.c:225-245 | Programming, which can only clear bits, makes an erased page exactly the buffer |
| FlashSteps.BlankAsksNothing | src/flash_ch32v0.c:306-331 | Programming a blank page never asks a 0 bit to become 1 |
| FlashPages.PageOutcome | src/flash_ch32v0.c:155-245 | Erase, reset, sixteen loads and a program from an idle controller, whichever clean-ups are lost: nothing outside the page changes, and the page is final if the clean-ups of the erase and the reset took effect, and blank otherwise |
| FlashLeftovers.TurnBits | src/flash_ch32v0.c:155-245 | The mode bits a page leaves behind depend on its own clean-ups alone: STRT and PAGE_PG on the program's, PAGE_ER on the erase's, BUF_RST on the reset's |
| FlashLeftovers.TurnOutcome | src/flash_ch32v0.c:306-331 | How one page's turn ends from any leftover bits: what it makes of flash if nothing is refused, and the exact reason for which it is |
| FlashSound.LoadTame | src/flash_ch32v0.c:201-222 | A load is never refused and never leaves the controller busy for ever, whichever bits an erase and a reset left behind |
| FlashSound.WhyRefused | src/flash_ch32v0.c:306-331 | A turn is refused exactly if it programs a page that leftover BUF_RST had kept from being erased with data that asks for a bit that is clear there |
| FlashBounds.CtlBounded | src/flash_ch32v0.c:98-110 | As long as ADDR names a page of the image whenever STRT is set, no CTLR write the tool makes changes flash outside the image's pages |
| FlashPages.CleanPage | src/flash_ch32v0.c:155-245 | With no clean-up lost: one erase and one program start, in that order, each on this page with BSY clear; the page final; no mode bit left; nothing else changed |
| FlashWrite.LoadPage | src/flash_ch32v0.c:311-324 | On any wire, Ok means that the state is that of the sixteen loads in order, each with or without its clean-up; flash is left alone by a wire that does not come back |
| FlashWrite.FillPage | src/flash_ch32v0.c:306-329 | On any wire, Ok means that the state is that of reset, loads and program; a wire that does not come back leaves flash as it was or programmed |
| FlashWrite.WritePage | src/flash_ch32v0.c:306-336 | On any wire, Ok means that the state is that of rewriting the page; on one that does not come back the page is original, blank or final, and Ok means final |
| FlashImage.MergedIsGoal | src/flash_ch32v0.c:283-304 | A fetched page merged with the image, or a wholly covered page, is that page's part of the overlay |
| FlashWrite.MergeImage | src/flash_ch32v0.c:298-304 | The merge loop puts exactly the image's bytes over what the buffer held |
| FlashWrite.RewritePage | src/flash_ch32v0.c:281-336 | One turn of the loop on any wire: Ok means that the page has been rewritten with the image over what it held; on a wire that does not come back it is original, blank or final |
| FlashImage.PagesAreThoseMet | src/flash_ch32v0.c:281-281 | The pages walked are exactly those that meet the image's range |
| FlashImage.BytesLandOnce | src/flash_ch32v0.c:281-304 | Each image byte lands in exactly one of those pages |
| FlashImage.CleanWalk | src/flash_ch32v0.c:281-346 | With no clean-up lost, the pages walked so far are final and the others untouched, each erased once and then programmed once in ascending order, and the controller is idle |
| FlashEntries.WalkLeaves | src/flash_ch32v0.c:281-346 | After any number of pages ADDR names the last one, the bits left are what its clean-ups say, and the locks are open |
| FlashEntries.WalkHolds | src/flash_ch32v0.c:281-346 | After a walk without refusals, for every combination of lost clean-ups: each page holds its entry (what it held, blank, or final), and nothing outside the pages has changed |
| FlashEntries.WalkGranted | src/flash_ch32v0.c:281-346 | A walk is refused nothing exactly when every page programmed after a lost clean-up of the reset before it is meant to hold something that asks for no bit that was clear in what it held |
| FlashEntries.EntryIsMeantIff | src/flash_ch32v0.c:281-346 | A page is what it was meant to be exactly when its erase and reset were cleaned up after, and its program too or it is the last; or when what it is left with is the same |
| FlashEntries.GoalIff | src/flash_ch32v0.c:281-346 | Flash is the overlay exactly when every page's entry is what it was meant to hold |
| FlashEntries.LostEraseBlanks | src/flash_ch32v0.c:155-179 | A page whose erase was not cleaned up after comes out blank, with nothing refused |
| FlashEntries.LostProgramBlanks | src/flash_ch32v0.c:225-245 | A page whose program alone was not cleaned up after comes out blank if another page follows, with nothing refused |
| FlashEntries.LostResetsKeep | src/flash_ch32v0.c:182-198 | With two neighbouring resets not cleaned up after, the second page keeps what it held, with nothing refused |
| FlashWrite.WritePages | src/flash_ch32v0.c:281-346 | On any wire, Ok means that the state is the whole walk's, and it is the result if only requests of clean-ups failed and the walk is granted; on a wire that does not come back flash is the overlay, or the loop stopped at one page; progress rises strictly and ends at the length; no 32-bit wrap occurs |
| FlashWrite.WriteCh32v0 | src/flash_ch32v0.c:249-347 | The writer's whole promise: on a wire that stops answering Ok means the overlay and anything else a run stopped at one page; on any wire Ok means that every page holds its entry, with flash the overlay exactly when every entry is as meant; if only requests of clean-ups failed, Ok is the result exactly when the walk is granted; for every status nothing outside the image's pages has changed |
| FlashWrite.WriteThroughLoss | src/flash_ch32v0.c:155-347 | If the only requests that fail are those of clean-ups, the tool is told Ok exactly when the walk is granted, while every page whose erase was not cleaned up after is blank; flash is the overlay exactly when every entry is as meant |
| Flash.AliasesMeet | src/flash.c:36-42 | Both spellings of a flash address mean the same byte, and normalising is idempotent |
| Flash.RangeIsPlaced | src/flash.c:44-56 | The range check accepts exactly the ranges that lie inside the part's flash |
| Flash.FitsReach | src/flash.c:44-95 | On the part selected, what passes the checks lies inside its flash |
| Flash.WritableRows | src/target.c:61-135 | Every row with a writer has its base at 0x08000000, 64-byte pages, and a size of whole pages |
| Flash.WriteFlash | src/flash.c:58-101 | Empty, unsupported and out-of-range images are refused, in that order, before anything is sent or reported; the others are written, with the writer's promises on any wire, for every status |
| Flash.ReadMemory | src/linke.c:520-542 | Select and stop the part if one is given, then read: memory is returned and not changed, for any range; without a part the programmer is not touched |
| Flash.Verify | src/flash.c:103-155 | Ok only if every byte is the image's, VerifyError only if one is not, whatever the wire does; on an answering wire it is one of the two; what was reported as checked did match |
| Flash.ChunkDecides | src/flash.c:117-152 | One chunk settles its own bytes, or settles that the whole image is not there |
| Flash.WriteAndVerify | src/linke.c:548-595 | The command: result, flash, RAM, registers and trace on answering wires and on ones that stop; after a verified Ok the image is there on any wire; for every status nothing outside the image's pages has changed; what was reported as written rises to the length and what was reported as checked is there; it can be repeated |
| EndToEnd.Plug | tests/sim_programmer.c:819-846 | A newly built part of any row on a new link is in the state every write starts from, and is the part its own row names |
| EndToEnd.PlugAndIdentify | src/linke.c:334-424 | Identifying a plugged part gives its own row or no row, and on an answering wire its own row, even if the programmer will not attach twice |
| EndToEnd.FlashTwice | src/linke.c:548-595 | Two images flashed one after the other onto a new part give the overlay of both, shared pages included |
| EndToEnd.OneLossBlanks | src/flash_ch32v0.c:155-179 | On a wire that loses one request, the one with which the clean-up of the erase begins, writing any page onto a new part returns Ok and leaves it blank |
| Interface.FamilyDeterminesSpeed | src/target.c:61-374 | Rows with the same LinkE family have the same interface speed |
| Interface.SetInterfaceRaw | src/linke.c:303-332 | What the programmer holds afterwards, for each of the three fates of the request |
| Interface.SetInterface | src/linke.c:426-450 | Cache and programmer afterwards; Ok means that the cache holds this part; a part the cache holds sends nothing |
| Interface.AgreesUnless | src/linke.c:334-450 | The cache goes on telling the truth exactly unless a request sent while it holds something takes effect unanswered |
| Interface.LostReplyLies | src/linke.c:426-450 | A view in which the cache tells the truth and the step after which it does not, and is believed |
| Interface.SwitchBack | src/linke.c:426-450 | For any two families: after such a step the next request for the first part returns Ok and sends nothing, while the programmer holds the second |
| Interface.AlwaysInformed | src/linke.c:303-450 | Over every run, lost replies included, the tool never believes it has told a programmer something that has been told nothing |
| Interface.RunAgrees | src/linke.c:334-450 | In every run where failed requests have no effect, the cache tells the truth |
| Interface.SkippingIsSending | src/linke.c:433-435 | When the cache tells the truth, the skipped request would have changed nothing |
| Interface.IdentifyOnce | src/linke.c:334-391 | On an answering wire Ok exactly for a known part whose programmer is willing to attach |
| Interface.IdentifyChip | src/linke.c:393-424 | The retry makes it Ok exactly for a known part, however the programmer was left, and returns a matching row |
| Interface.ChipByDetectId | src/target.c:386-400 | Finds a row with the family and the model without its low nibble, exactly when there is one |
| Interface.DetectedOnce | src/target.c:61-400 | No two rows answer to the same family and model |
| GdbHex.ParseU32 | src/gdb_server.c:119-146 | The longest run of digits, its value modulo 2^32, and where it ends |
| GdbHex.NumberReadsBack | src/gdb_server.c:119-146 | A number a client writes in hexadecimal is read back |
| GdbHex.ParseBytes | src/gdb_server.c:148-164 | Succeeds exactly when all pairs are digits, and then holds their bytes |
| GdbHex.HexIsHex | src/gdb_server.c:166-171 | Each byte's two digits read back as the byte |
| GdbHex.DecodeHexString | src/gdb_server.c:594-620 | Succeeds exactly when the string is whole pairs of digits that fit with a terminator |
| GdbHex.DecodeInvertsFormat | src/gdb_server.c:567-620 | Decoding inverts formatting on exactly the strings that fit |
| GdbPacket.EscapedIsOneBody | src/gdb_server.c:191-202 | An escaped body contains no '$' and no '#' |
| GdbPacket.UnescapeInvertsEscape | src/gdb_server.c:191-325 | Unescaping inverts escaping for every payload |
| GdbPacket.EscapingAdds | src/gdb_server.c:191-202 | Every escaped byte adds 93 to the sum of the bytes on the wire |
| GdbPacket.BuildFrame | src/gdb_server.c:182-207 | The frame built in place is '$', the escaped payload, '#' and the payload's own checksum, and fits the buffer |
| GdbPacket.SendPacket | src/gdb_server.c:182-236 | The frame goes out once more for each '-' before the '+', each copy as far as the socket takes it; quit is set exactly when a copy fails or the connection ends first; a first copy that fails is not waited for |
| GdbPacket.CopiesAreWhole | src/gdb_server.c:62-80 | On a socket that takes everything, what is sent is the frame, n times over |
| GdbPacket.RecvPacket | src/gdb_server.c:242-325 | What is taken from the stream, answered and returned, for every stream |
| GdbPacket.ConformingFrameAccepted | src/gdb_server.c:242-325 | A frame with the checksum section E.1 asks for is accepted and gives the payload |
| GdbPacket.OwnFrameAcceptedIff | src/gdb_server.c:182-325 | The receiver accepts the sender's frame exactly when the number of escaped bytes is a multiple of 256 |
| GdbPacket.OneEscapeIsRefused | src/gdb_server.c:182-325 | The payload "}" is framed and then refused |
| GdbPacket.TwoRefusals | src/gdb_server.c:227-236 | A client that answers `--+` is sent the frame three times |
| GdbReplies.SendOutput | src/gdb_server.c:567-592 | Decoding the O packets in order gives the text; each payload is at most 4095 bytes; to a client that acknowledges each, exactly their frames are sent |
| GdbReplies.OutputDecodes | src/gdb_server.c:567-592 | One O payload is well formed, fits, and decodes to its piece of the text |
| GdbReplies.QxferReply | src/gdb_server.c:901-933 | The one packet sent is the piece the request is entitled to |
| GdbReplies.FinalIsMarked | src/gdb_server.c:901-933 | 'l' exactly on the piece that ends the document, 'm' otherwise, and the piece is the document's |
| GdbReplies.CollectedIsDocument | src/gdb_server.c:901-933 | For all request sizes the client's loop ends, and the pieces make up the document |
| GdbReplies.DocumentReassembles | src/gdb_server.c:901-933 | From the first request on, the pieces are exactly the document |
| GdbClient.FrameReadIff | src/gdb_server.c:182-207 | A client that sums what it receives, as section E.1 asks, takes a frame of the server's exactly when the number of escaped bytes is a multiple of 256, and refuses it otherwise |
| GdbClient.StreamIsUnderstood | src/gdb_server.c:182-207 | Out of a stream of frames such a client takes exactly the payloads that pass, in order |
| GdbClient.RefusedForEver | src/gdb_server.c:227-236 | A frame that does not pass is refused however often it is repeated |
| GdbClient.OutputArrives | src/gdb_server.c:567-592 | Every packet of console output is understood |
| GdbClient.ObtainedIff | src/gdb_server.c:901-933 | Such a client's loop gets the rest of a document exactly when every reply passes, and nothing otherwise |
| GdbClient.DocumentArrivesIff | src/gdb_server.c:901-933 | The whole document arrives exactly when every reply passes: always if nothing in it needs escaping, never if fewer than 256 bytes but some do, whatever sizes are asked for |
| GdbMemory.HandleRead | src/gdb_server.c:1106-1151 | The reply is the range in lower-case hexadecimal or an error, also when no buffer can be had; memory is not changed, whatever the range; malformed packets touch nothing |
| GdbMemory.HandleWrite | src/gdb_server.c:1153-1188 | The bytes are stored in order up to the first failure; OK means all of them; malformed packets touch nothing |
| GdbMemory.StoredInRam | src/gdb_server.c:1180-1185 | Byte stores to RAM are the overlay of the bytes stored so far |
| GdbMemory.WriteThenRead | src/gdb_server.c:1106-1188 | An M packet and then an m packet on the same RAM range return the same bytes, for every range up to 1024 bytes |
| GdbOverlay.EbreakIsEbreak | src/gdb_server.c:491-518 | The four replacement bytes are the ebreak that the ISA decodes |
| GdbBreakpoints.Patch | src/gdb_server.c:436-487 | On a wire that does not come back, Ok means that exactly the given bytes have changed, in flash through either alias, in RAM, or nowhere if there is no memory |
| GdbOverlay.InsertKeeps | src/gdb_server.c:489-530 | Adding an entry over a free range keeps memory equal to the program overlaid at exactly the live entries |
| GdbOverlay.RemoveKeeps | src/gdb_server.c:532-551 | Putting back what an entry remembers keeps it too, whatever else is live in the same page |
| GdbOverlay.NoEntriesNoOverlay | src/gdb_server.c:553-565 | With no live entry, memory is the program |
| GdbOverlay.UndoneInOrder | src/gdb_server.c:489-551 | Two entries over one range, undone in the order they were made, leave what was there exactly when it was that ebreak already or there is no memory there |
| GdbBreakpoints.Session.Insert | src/gdb_server.c:489-530 | On an answering wire it succeeds exactly when the kind is known, the address aligned and a slot free; a refused one touches nothing; success says what is remembered and patched; the overlay is kept over a free range |
| GdbBreakpoints.Session.Remove | src/gdb_server.c:532-551 | Undoes the first entry with this address and kind, exactly when there is one, whether or not entries overlap; keeps the overlay if there was one |
| GdbBreakpoints.Session.ClearAll | src/gdb_server.c:553-565 | No entry is live; memory is what undoing the slots in order gives, and the program if the entries were an overlay on it |
| GdbBreakpoints.Session.InsertTwice | src/gdb_server.c:489-551 | Two insertions and two removals of one breakpoint on a session leave the ebreak behind: memory is restored exactly when it held that ebreak or there is no memory there |
| GdbBreakpoints.Session.RunAll | src/gdb_server.c:489-551 | Over every run in which the insertions that are carried out never overlap a live entry, the overlay holds with exactly the entries asked for; refused insertions may name anything |
| GdbBreakpoints.Session.Serve | src/gdb_server.c:1301-1314 | After any such run, detaching, killing or hanging up restores the program exactly |
| Terminal.LengthIsRead | src/main.c:1146-1167 | The low byte of a message is read back as its length, as a reply, or as an empty mailbox |
| Terminal.ShapesAreRead | src/main.c:1146-1167 | A length is read back from either packet shape |
| Terminal.WordsAreMessages | src/main.c:1146-1167 | Whatever two words the target posts, they are one of the messages of the model, unless the first is zero |
| Terminal.NibbleAgrees | src/main.c:1062-1159 | The length read from the second packet shape is that of its low nibble exactly when the next two bits are clear or the nibble is no length |
| Terminal.NibbleDisagrees | src/main.c:1062-1159 | The byte 0x95 announces a message by its low nibble and none by its six bits |
| Terminal.FreeFillsOnce | src/main.c:1129-1195 | A target that waits for DATA0 to be zero gets at most one whole message in, however long it runs |
| Terminal.FreeFills | src/main.c:1129-1195 | A target that finds the mailbox free gets its next message in within three of its steps |
| Terminal.OnceEach | src/main.c:1129-1195 | If no message was handled twice, what was printed is the payloads, whole, in order and each once |
| Terminal.TornDiffers | src/main.c:1171-1188 | A second print of a message differs from the first exactly when DATA1 carried anything but zeros |
| Terminal.Box.Turn | src/main.c:1129-1195 | Under every interleaving a turn goes on unless a read fails or a print is cut short, and then every message posted before it has been handled, and one more if the target gets to run; only a lost clear makes a repeat; a word taken for no message changes nothing any more |
| Terminal.Box.Run | src/main.c:1129-1195 | Over any number of turns the output is every message handled, in order and the first time whole, one repeat for every lost clear; if none is lost it is the payloads, each once; it stops only at a failed access or a short print, and otherwise handles one message a turn, up to a word taken for no message |
| Terminal.Deliver | src/main.c:1129-1195 | On a link that answers, a standard output that takes what it is given and a target that gets to run, what is printed is every message whole, in order and once, up to the first word taken for no message, and all of them exactly if there is none |

## Left out

- FlashWrite.WriteCh32v0: erase sizes other than 64 that the code would accept are outside the requires, because no row has one and the controller's page is 64 bytes.
- Flash.WriteAndVerify: an image that passes the range check has to lie inside the part on the wire, which the part selected does (`Flash.FitsReach`) and a larger one too; its controller and debug module have to go idle within the tool's polling limits for the results about answering wires.
- BlockRead.ReadBlock: what is read from the flash controller's registers is not described, because reading a status register changes it.
- GdbPacket.SendPacket: how the socket splits a buffer, and interrupted calls, are not modelled; a buffer is taken up to some length.
- GdbBreakpoints.Session.Insert: stated for a part with a flash writer, and not for addresses that name the flash controller's registers, which an insertion would write to; what a wire that fails leaves of a patched page is what `Flash.WriteFlash` says; the allocation of the page always succeeds.
- GdbBreakpoints.Session.RunAll: the requests are given as a list; reading them out of Z and z packets is not modelled.
- Interface.SetInterface: the part must be a row of the table for the cache theorems.
- Terminal.Box.Turn: a target that posts a zero word has posted nothing; sleeping and signals are not modelled; the loop is run for a number of turns.
- Simulator.Sim.Store: accesses with the reserved size code 3 do nothing and load 0, because the C shifts are then undefined.
- Simulator.Sim.Command: flash, RAM and the program buffer are fields holding sequences, so that aliasing between the simulator's buffers is not captured; counters are unbounded; replies are never cut to a caller's buffer.
- NULL arguments that the C functions refuse at once; `Flash.ReadMemory` takes the one that means something, a missing chip.
- libusb enumeration, opening, mode switching and re-enumeration (`src/usb.c`, `src/usb_link.c`), sockets, poll, clocks, logging and file reading: plumbing around the modelled calls.
- Command-line parsing, exit codes, messages, target XML, memory-map text, the monitor dispatcher, register packets (g, p, P), chip lookup by name: they would add only easy members.
- Running, stepping and waiting for the target's core: the core is not in the repository, so breakpoint sessions stay on a halted one.
- CH5xx and other families without a writer, unbrick, reset, and the controller's 1024-byte and halfword program modes as seen from the host: no host sequence drives them.
