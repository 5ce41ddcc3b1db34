# Verified model of the MDL host firmware

This project models the parts of the MDL sandbox firmware that carry state across unbounded
runs, together with the host-computer tools that share a format with it, and proves what they
keep. `dafny verify dfyconfig.toml` checks everything.

| files | component |
|---|---|
| `flash_format`, `flash_layout`, `flash_read`, `flash_store`, `flash_runs` | the two-bank flash store, power cuts included |
| `buddy_blocks`, `buddy_room`, `buddy_lists`, `buddy`, `arena` | buddy allocator, room for several blocks at once, three-block arena acquisition, buffer ownership |
| `image_format`, `image_header`, `packer`, `pack`, `pack_meaning`, `loader_copy` | packing, what a packed image says of its file, header bytes, copying and relocating a module image |
| `loading`, `deployment` | what decides a load, and what that is for an image the packer made |
| `crc32`, `crc32_check`, `wire_format`, `link`, `protocol` | CRC-32 and its check value, frame format, the parser that separates frames from console text |
| `event_trace`, `events` | per-slot event queues |
| `resources`, `pin_arbiter`, `packer_check` | physical pins: the device's arbitration and the packer's |
| `registry`, `slot_names`, `command_names`, `slots`, `watchdog`, `supervisor` | the slot table and everything that happens to it |
| `boot_restore`, `boot_clash`, `device` | boot restore, and the device over a power cycle |
| `uart_ring`, `module_heap` | UART receive ring, per-module heap |
| `bytes`, `arithmetic`, `free_list` | shared vocabulary |

Code that updates state is a class or a method with loops; each is tied to a specification
function or a ghost history, and the lemmas are about that. Constants of the wire and image
formats are those of the source (32 KB frames, 16 events, 8 claims, 4 pins per peripheral,
16-byte names); bank and sector size, pool orders, slot count, arena layout, ring, queue and
heap sizes are parameters.

## How the hardware and the arithmetic are modelled

* A flash word program is one step that may end with any value in that word; a sector erase
  is one step that happens or does not. An operation that reports an error has the same range
  of effects as one cut by a power failure. A word counts as abused when it is programmed
  twice without an erase between.
* The CRC register is a sequence of 32 bits and a checksum a number below 2^32. Addresses,
  lengths and counters are naturals, reduced modulo 2^32 where the source's `uint32_t` can wrap.
* The buddy allocator's memory is the map of its link words; the loader's memory is an array
  of bytes. `Supervisor.Host.BlocksApart` and `NeighbourBytesKept` connect the two: link words
  are written in free blocks only, the loader writes in the two blocks of its own slot.
* An image that passes magic, checksum, ABI and architecture is taken to come from the packer:
  its tables lie in its payload and no size comes near 2^32. `Deployment.PackedIsWellMade`
  proves that of packed images. Any other image may be pushed, and is refused.
* The read loop of the UART is cut into its test, copy and advance steps, with the receive
  interrupt atomic between any two of them.
* The GPIO whitelist table is taken to have the rows of `board_pins.def`. Task creation is
  taken to succeed, so the path that empties a slot without releasing its blocks is not taken.
* What the byte formats mean is also stated in bytes: `Bytes.LowByteFirst`,
  `ImageHeader.HeaderLayout`, `ImageFormat.EntryLayout`, `FlashFormat.BankValidMeans`,
  `WireFormat.BuiltIff`, `Crc32Check.CheckValue`. Names are compared as text, `UpToNul`.
* Module and command names are the header's 16-byte fields, which need not hold a NUL; a slot
  keeps 15 characters and a NUL, or nothing when the module exports no command.
* Room is stated on block sizes: `RoomForThree` says that aligned blocks of the three size
  classes are wholly free and pairwise disjoint. `CanAcquire` adds that no request is 0; it
  decides acquiring, and with it loading, replacing and restoring.
* A sleeping module is followed from reading the clock to feeding the watchdog; how long it
  waits to enter and to leave the delay is a parameter.

## Where the code falls short of its comments

* The store and the supervisor are said to share one definition of a module's identity. They
  do exactly for names of 1 to 15 characters (`SlotNames.IdentitiesAgreeIff`).
* A forget that is cut short shows the superseded set when both banks are valid and bank 0 is
  the newer; `FlashRuns.ForgetAtomicIff` gives the exact condition, `FlashRuns.ForgetMayExpose`
  a flash.
* One command name is said to have one owner. A push keeps that exactly when its command field
  holds a NUL (`CommandNames.PushKeepsIff`): the refusal test asks with all 16 bytes, the loader
  keeps 15. Boot restore does not ask: it keeps that exactly when no two entries that come up
  answer to one command (`BootRestore.UnambiguousSoFar`, `BootClash.ClashAtBoot`).
* A replacement that is going to fail is said to fail while the old module still runs. A
  validated one fails exactly when the arena cannot give its three blocks: when they do not fit
  side by side, or when text or data has 0 bytes, which validation rounds up and the allocator
  refuses. An image without GOT, data and bss is packed, passes (`Deployment.NoDataNeverLoads`),
  never runs, and takes its running namesake away (`Supervisor.Host.HandleLoad`).
* The packer does not count claims, the device accepts eight (`PackerCheck.NineClaimsDisagree`).
* A module asleep in the host is said not to be a watchdog candidate. Past the timeout it is one
  when its deadline comes out as tick 0 or lies more than half the tick range ahead, on the
  deadline tick and after, should it still be waiting then (`Watchdog.SleeperSparedIff`), and
  between clearing its deadline and feeding the watchdog (`Watchdog.WakingSparedIff`).
* `parse_frame()` does not check the checksum (`WireFormat.ParseIgnoresDamage`).

`mdl_arena_would_fit()` promises nothing and keeps to that: it is necessary for acquiring
(`Arena.WouldFitIsNecessary`) and not sufficient (`Arena.Misled`). A load that passes validation
and is not given its blocks leaves its claims in the empty slot (`Supervisor.Host.Load`), where
the next load overwrites them.

## Model

| member | source | states |
|---|---|---|
| FlashRead.BankIsValid | mdl/tests/hil/common/board_persist.c:112-129 | The entry loop accepts a bank exactly when the magic, the count and every entry (length, 32-bit bound, CRC) agree |
| FlashRead.FindActive | mdl/tests/hil/common/board_persist.c:131-143 | The bank chosen is the valid one, and of two valid ones the one whose sequence number is ahead in the wrapping signed comparison |
| FlashRead.EntryCount | mdl/tests/hil/common/board_persist.c:145-152 | In every sound flash the count is the length of the stored set |
| FlashRead.FindEntry | mdl/tests/hil/common/board_persist.c:154-166 | Entry i exists exactly for i below that count, and its offset and length delimit the bytes of the i-th stored image inside the bank |
| FlashFormat.BankValidMeans | mdl/tests/hil/common/board_persist.c:68-129 | A bank is valid exactly when its first four bytes spell MDLS, its third word is 1 to 4, and each 16-byte entry has a length, a 32-bit end within the bank and the checksum of the bytes it delimits |
| FlashFormat.SeqAfterMeans | mdl/tests/hil/common/board_persist.c:131-143 | A sequence number is ahead of another exactly when it is 1 to 2^31-1 steps further, across the wrap as well |
| FlashFormat.DamagedImageRefused | mdl/tests/hil/common/board_persist.c:112-129 | Up to four consecutive bytes gone bad in a stored image make the whole bank invalid |
| FlashFormat.StrnIsText | mdl/tests/hil/common/board_persist.c:219-227 | On fields of one width strncmp() is 0 exactly when the texts up to the first NUL, or the end, are equal |
| FlashFormat.SameNameIsSameText | mdl/tests/hil/common/board_persist.c:206-227 | Two images count as one module for the store exactly when both have a header and bytes 72 to 87 of each hold the same text |
| FlashLayout.NewBankWins | mdl/tests/hil/common/board_persist.c:131-143 | Once a bank written with the next sequence number is valid it is the one reported, whether the other bank is intact, half erased or invalid, and soundness (sequence numbers adjacent modulo 2^32) is kept |
| FlashLayout.CommittedBank | mdl/tests/hil/common/board_persist.c:112-129 | A complete header over a complete layout reads back as exactly those images, tidy and valid |
| FlashLayout.OtherBankUntouched | mdl/tests/hil/common/board_persist.c:228-319 | While only the inactive bank is written and still invalid, the reported set is the old one |
| FlashStore.Store.Program | mdl/tests/hil/common/board_persist.c:84-104 | A word program leaves every other word alone, may tear, and is counted as abuse if the word was already programmed since its erase |
| FlashStore.Store.Erase | mdl/tests/hil/common/board_persist.c:84-104 | A sector erase happens whole or not at all and makes its words programmable again |
| FlashStore.Store.EraseBank | mdl/tests/hil/common/board_persist.c:168-176 | Cut anywhere, the bank is erased up to a sector boundary and, once anything was erased, no longer valid |
| FlashStore.Store.WriteBytes | mdl/tests/hil/common/board_persist.c:189-204 | A completed copy is byte-exact; cut or not, the flash before it and behind its last word is as it was, and no word outside it is programmed |
| FlashStore.Store.Append | mdl/tests/hil/common/board_persist.c:268-291 | Writing one image behind the laid-out ones keeps those and, if completed, lays out one more |
| FlashStore.Store.WriteHeader | mdl/tests/hil/common/board_persist.c:294-309 | Magic last: at every cut the bank is either invalid or holds exactly the intended set |
| FlashStore.Store.CopySurvivors | mdl/tests/hil/common/board_persist.c:255-280 | Completed, the copies are the old entries without the same-named one, in order; refused only if the whole new set does not fit; interrupted only by a flash operation that did not end well |
| FlashStore.Store.Save | mdl/tests/hil/common/board_persist.c:228-319 | Soundness is kept on every exit; true means the old entries without those whose name is the same text, plus the new image; want of room leaves the old set exactly; a flash error or a cut leaves the old or the new set, never a mix, and is reported only when a flash operation failed; when none fails it returns true if and only if the image is not empty and the new set fits; no word is programmed twice between erases |
| FlashStore.Store.constructor | mdl/tests/hil/common/board_persist.c:106-129 | The erased part is sound and reports nothing |
| FlashStore.Store.Forget | mdl/tests/hil/common/board_persist.c:178-187 | Exactly which prefix of the two banks is erased at a cut; true if and only if no erase failed, and then all of it |
| FlashRuns.EveryLifeIsAtomic | mdl/tests/hil/common/board_persist.c:228-319 | Over every sequence of saves, cuts and reboots, what is reported is what some selection of whole saves would have left; all that returned true are in it, none that was refused |
| FlashRuns.Lifetime | mdl/tests/hil/common/board_persist.c:228-319 | Any sequence of calls of the save on one device is such a life: the report is the replay, no word is ever programmed twice between erases, and if no flash operation fails each save is kept exactly when there is room |
| FlashRuns.FromFactory | mdl/tests/hil/common/board_persist.c:228-319 | From the erased part on, the same, and never two images of one name |
| FlashRuns.SaveRemovesExactly | mdl/tests/hil/common/board_persist.c:255-280 | After a save an image is stored if and only if it is the new one, or was stored and does not bear the new one's name as text |
| FlashRuns.SaveReplacesByName | mdl/tests/hil/common/board_persist.c:255-291 | If no two stored images have names of the same text, the same holds after a save, which takes out just the one it replaces, keeps the order and appends the new one |
| FlashRuns.ForgetReports | mdl/tests/hil/common/board_persist.c:178-187 | What is reported after a cut at any erased byte count: the old set, the other bank, or nothing |
| FlashRuns.ForgetAtomicIff | mdl/tests/hil/common/board_persist.c:178-187 | A forget cut at any sector boundary reports the old set or nothing if and only if bank 0 is not the newer of two valid banks with different contents |
| FlashRuns.ForgetMayExpose | mdl/tests/hil/common/board_persist.c:178-187 | A flash on which it is not: two valid banks of 88 bytes, bank 0 the newer |
| SlotNames.IdentitiesAgreeIff | mdl/tests/hil/common/board_persist.c:202-226 | Store and supervisor identify the same modules as "the same" if and only if the loaded name has between 1 and 15 characters |
| SlotNames.UnnamedDisagree | mdl/core/supervisor.c:213-225 | For an image without a name they disagree: the store replaces it, the supervisor takes another slot |
| SlotNames.KeptText | mdl/core/loader.c:284-287 | What a slot keeps of a name is the text of its first 15 characters, the whole text exactly when the field holds a NUL |
| CommandNames.AnswersIff | mdl/core/supervisor.c:238-248 | The test of the first character and strcmp() decide whether the stored command and the field asked for hold the same text and any at all |
| CommandNames.PushKeepsIff | mdl/core/supervisor.c:377-413 | A push leaves every unambiguous table unambiguous if and only if its 16-byte command field holds a NUL |
| CommandNames.TerminatedFieldKeeps | mdl/core/supervisor.c:377-413 | With a NUL in the field the refusal test asks for the name that will be kept, so no second slot comes to answer to it |
| CommandNames.FullFieldClashes | mdl/core/loader.c:289-300 | A 16-character command pushed over the module that already keeps its first 15: accepted, and both answer to one name |
| CommandNames.UnambiguousIff | mdl/core/supervisor.c:238-248 | No typed command reaches two slots if and only if no two stored names are the same text |
| CommandNames.UnaskedKeepsIff | mdl/core/supervisor.c:57-94 | A load that does not ask, into a silent slot, leaves an unambiguous table unambiguous if and only if no slot answers to the name it brings |
| BuddyBlocks.FreeSetIsCanonical | mdl/core/buddy.c:139-178 | The free blocks are exactly the maximal naturally aligned blocks that touch no live block |
| BuddyBlocks.FreeSetDependsOnLiveOnly | mdl/core/buddy.c:139-178 | Equal live sets have equal free sets, whatever the history |
| BuddyBlocks.EmptyPoolIsWhole | mdl/core/buddy.c:81-92 | With nothing live the free set is the one whole-pool block |
| BuddyBlocks.SomeFreeBlockIffFits | mdl/core/buddy.c:100-137 | A free block of sufficient order exists if and only if some aligned block of the requested order is wholly free |
| BuddyBlocks.WhollyFreeIsEnclosed | mdl/core/buddy.c:139-178 | Every wholly free aligned block lies inside one free block |
| BuddyRoom.BestFitLeavesRoom | mdl/core/buddy.c:100-137 | Taking the low end of the smallest free block that suffices never spoils the room: if blocks of these sizes were free side by side, the others still are |
| BuddyRoom.TakenWereRoom | mdl/core/buddy.c:100-137 | Blocks taken one after the other were free side by side before |
| BuddyBlocks.CoversIsInterval | mdl/core/buddy.c:31-34 | A block as a set of ancestors is the same as an interval of units |
| BuddyAllocator.FlipBitIsBuddy | mdl/core/buddy.c:157-176 | Flipping the size bit of the pool offset gives the address of the buddy |
| BuddyAllocator.BlocksAreAligned | mdl/core/buddy.c:100-137 | A block in a pool aligned to its size is aligned to its own size |
| BuddyAllocator.ApartInBytes | mdl/core/buddy.c:100-137 | Blocks with no unit in common have no byte in common |
| BuddyAllocator.Allocator.constructor | mdl/core/buddy.c:81-92 | The pool starts as one free block and the invariant holds |
| BuddyAllocator.Allocator.Push | mdl/core/buddy.c:48-56 | One link word is written and the free set gains exactly the block |
| BuddyAllocator.Allocator.Pop | mdl/core/buddy.c:71-79 | Null exactly when no free block has that order; otherwise the head leaves the free set |
| BuddyAllocator.Allocator.UnlinkAt | mdl/core/buddy.c:58-69 | Found if and only if the block is free; then it and nothing else leaves the list, through a pointer to the link |
| BuddyAllocator.Allocator.OrderFor | mdl/core/buddy.c:36-46 | The smallest order that holds the request, or refusal when none does |
| BuddyAllocator.Allocator.BlockSize | mdl/core/buddy.c:94-98 | The size of that block |
| BuddyAllocator.Allocator.SplitDown | mdl/core/buddy.c:120-134 | The split loop: the upper halves return to the lists, the block shrinks to the requested order, nothing else changes |
| BuddyAllocator.Allocator.Alloc | mdl/core/buddy.c:100-137 | Null if and only if no aligned block of the rounded size is wholly free; otherwise a block not live before, cut from the smallest sufficient free order; only free memory is written |
| BuddyAllocator.Allocator.Coalesce | mdl/core/buddy.c:157-176 | The coalescing loop ends with no two free buddies left |
| BuddyAllocator.Allocator.Free | mdl/core/buddy.c:139-178 | Exactly the block at that address leaves the live set; any other pointer changes nothing; only free memory is written |
| BuddyAllocator.Allocator.Stats | mdl/core/buddy.c:180-194 | Total is pool minus live; largest is the largest wholly free aligned block |
| Arena.WouldFit | mdl/core/arena.c:36-70 | Yes exactly when each of the three requests would fit alone; the need is the sum of the three block sizes |
| Arena.WouldFitIsNecessary | mdl/core/arena.c:36-70 | If there is room for the three blocks side by side, each fits alone, which is when the check says yes, requests of 0 bytes included |
| Arena.WouldFitIsNotEnough | mdl/core/arena.c:49-62 | Whenever all that is free is one block of the size class of heap and stack, each request fits alone and there is no room for the three, whatever text and data that would fit |
| Arena.Misled | mdl/core/arena.c:36-104 | On a pool with one half taken the check says yes and acquiring fails |
| Arena.ThreeTries | mdl/core/arena.c:78-86 | Best fit in the order text, data, heap and stack takes all three if and only if none asks for 0 bytes and blocks of the three size classes were free side by side |
| Arena.Acquire | mdl/core/arena.c:72-104 | Succeeds if and only if no request is 0 and three aligned, wholly free, pairwise disjoint blocks of the three size classes exist; all three blocks or none: on failure live set, free set and module are unchanged; on success the bounds are those of three fresh blocks of exactly those classes, large enough for the request |
| Arena.Release | mdl/core/arena.c:106-124 | Exactly the module's three blocks are freed and every bound cleared |
| Arena.PtrInRangeMeans | mdl/host/host_api.c:58-64 | The wrapping range test means containment for any range that does not run backwards |
| Arena.LiveBlocksApart | mdl/core/buddy.c:100-137 | Live blocks lie apart in memory and inside the pool |
| Arena.PlacedApart | mdl/core/arena.c:88-103 | A placed module's blocks lie apart from each other and from every block it does not hold |
| Arena.OwnedIsExclusive | mdl/host/host_api.c:66-102 | A buffer accepted for a module touches neither its guard band nor any block it does not hold |
| Arena.OwnedIff | mdl/host/host_api.c:66-102 | A buffer passes for a module exactly when it is empty or lies wholly inside its text, its data, its heap below the guard band or its stack above it |
| Crc32.DivideByte | mdl/core/crc32.c:10-14 | Eight masked shift steps are eight division steps |
| Crc32.Crc32Update | mdl/core/crc32.c:6-17 | The bit-at-a-time loop equals the table form of section 8 of RFC 1952 |
| Crc32.ByteLoopIsTable | mdl/core/crc32.c:6-17 | One byte of it, by linearity |
| Crc32.MdlCrc32 | mdl/core/crc32.c:19-22 | Preset to ones and complemented, over the table form |
| Crc32Check.CheckValue | mdl/core/crc32.c:6-22 | Of the nine bytes "123456789" the checksum is 0xCBF43926 |
| Crc32Check.GeneratorPowers | mdl/core/crc32.c:13-13 | The generator's coefficients are those of IEEE 802.3 in reflected order: 26, 23, 22, 16, 12, 11, 10, 8, 7, 5, 4, 2, 1, 0 |
| Crc32Check.NextIsSerial | mdl/core/crc32.c:6-17 | Four message bits through the register by a table of sixteen rows |
| Crc32.MdlCrc32Two | mdl/core/crc32.c:24-30 | Two buffers are checksummed as their concatenation |
| Crc32.UpdateConcat | mdl/core/crc32.c:24-30 | The register after a concatenation is the register continued |
| Crc32.BitStepsLinear | mdl/core/crc32.c:10-14 | The division step is linear over GF(2) |
| Crc32.BitStepInjective | mdl/core/crc32.c:10-14 | and loses no information |
| Crc32.UpdateIsSerial | mdl/core/crc32.c:6-17 | The table form equals division of the message bit by bit |
| Crc32.CrcBurst | mdl/core/crc32.c:19-22 | Messages of equal length that differ only within 32 consecutive bits have different checksums |
| Crc32.FourByteDamageDetected | mdl/core/crc32.c:19-22 | Damage confined to four consecutive bytes, in a message of any length, changes the checksum |
| WireFormat.BuiltIff | mdl/tools/mdl_proto.py:43-46 | A byte string is the frame built for a command and payload if and only if it is the magic, the command, the little-endian length, the payload and the checksum of what lies between |
| WireFormat.ParseReadsBack | mdl/tools/mdl_proto.py:49-67 | A frame behind any text free of the magic, and before anything, parses to its command, payload, end and that text |
| WireFormat.ParseWaits | mdl/tools/mdl_proto.py:49-67 | Every proper prefix of text and frame parses to nothing |
| WireFormat.FirstMagic | mdl/tools/mdl_proto.py:56-58 | Text free of the magic cannot make the magic appear early: it has no border |
| WireFormat.ParseIgnoresDamage | mdl/tools/mdl_proto.py:49-67 | A frame with a damaged payload is handed over damaged: this side does not look at the checksum |
| WireFormat.SendResponse | mdl/transport/protocol.c:206-233 | The three writes put out exactly the frame the host computer builds for that command and payload |
| Link.TextPasses | mdl/transport/protocol.c:73-117 | Text free of the magic reaches the console in order; at most three bytes are held back |
| Link.MagicOpens | mdl/transport/protocol.c:73-117 | Wherever the matcher stands, the magic opens a frame and everything held is released |
| Link.HeaderFed | mdl/transport/protocol.c:119-143 | Command and four length bytes select payload, checksum, or, past the maximum, resynchronisation |
| Link.PayloadFed | mdl/transport/protocol.c:145-151 | After k payload bytes the buffer holds just those k |
| Link.PacketDigested | mdl/transport/protocol.c:153-190 | After any frame the parser is back in step; the frame is announced if and only if its checksum is right |
| Link.OversizeDigested | mdl/transport/protocol.c:130-137 | An oversized header is dropped, nothing else is |
| Link.Demultiplexed | mdl/transport/protocol.c:70-192 | For any stream of text, good, damaged and oversized frames the console gets the text in order (but for a held prefix of the magic) and exactly the intact frames are announced |
| Link.BuiltIsIntact | mdl/tools/mdl_proto.py:43-46 | Every frame the host computer builds within the size limit is delivered |
| Link.DamagedIsDropped | mdl/transport/protocol.c:174-190 | A frame with up to four consecutive bytes of command or payload changed is not delivered |
| Link.TakenAreAnnounced | mdl/transport/protocol.c:194-204 | Frames taken plus the pending one are the frames announced, as long as each is taken before later bytes overrun it |
| Link.LinkDelivers | mdl/transport/protocol.c:70-204 | Both together, for every interleaving of bytes and takes |
| Protocol.Parser.RxByte | mdl/transport/protocol.c:70-192 | One call is one step of the specification, buffers included |
| Protocol.Parser.MatchMagic | mdl/transport/protocol.c:73-117 | The magic state, with the release loop |
| Protocol.Parser.TakeLength | mdl/transport/protocol.c:125-143 | The length state |
| Protocol.Parser.TakeCrc | mdl/transport/protocol.c:153-190 | The checksum state |
| Protocol.Parser.TakeFrame | mdl/transport/protocol.c:194-204 | The pending frame is returned once and the announcement withdrawn |
| Protocol.Serve | mdl/transport/protocol.c:70-204 | Any schedule of bytes and takes leaves parser and taken frames as the specification says |
| ImageFormat.TableReadBack | mdl/tools/packer.py:511-514 | Every relocation entry the packer writes is read back by the device |
| ImageFormat.EntryLayout | mdl/core/mdl_format.h:130-137 | Entry i is the eight bytes at 8i: the offset, lowest byte first, 0 for the text base or 1 for the data base, three zeros |
| Bytes.LowByteFirst | mdl/core/mdl_format.h:17-17 | Words are little-endian: each byte is worth 256 times the one before it |
| ImageHeader.ReadsBack | mdl/tools/packer.py:528-539 | The 96 header bytes and the payload the packer writes are read back field by field by the device |
| ImageHeader.HeaderLayout | mdl/core/mdl_format.h:42-100 | At which byte each of the twenty fields lies, magic MDL0 first, command at 56, name at 72, events at 88, payload at 96 |
| ImageHeader.HeaderOkIff | mdl/core/loader.c:138-165 | The device takes an image for one of its own exactly when it has 96 bytes, the magic, and its ABI version and architecture as half words |
| ImageHeader.OneName | mdl/tests/hil/common/board_persist.c:206-218 | The name the store compares and the name the supervisor looks at are the same 16 bytes |
| Packer.ClassifyIsRuntime | mdl/tools/packer.py:564-580 | For disjoint sections, class and offset plus base give the run-time address of the place a value names |
| Packer.ClassifiedIff | mdl/tools/packer.py:564-580 | A value is accepted if and only if it names a place in text, data or bss |
| Packer.RewriteSlots | mdl/tools/packer.py:391-414 | Slots already relocated hold offsets from the recorded base, slots not yet reached their linked value |
| Packer.RewrittenInGot | mdl/tools/packer.py:391-414 | Every recorded slot lies inside the GOT |
| Packer.RewriteGot | mdl/tools/packer.py:391-414 | The loop over the relocations, error exits included |
| Packer.Assemble | mdl/tools/packer.py:510-543 | The image is text, data, GOT, relocation table, claims, with sizes, offsets and checksum that say so |
| Pack.PackElf | mdl/tools/packer.py:299-545 | Succeeds exactly when none of its checks refuses, and otherwise gives the first that does; the image is the linked file's, laid out, under a header of its symbols (`PackMeaning` says what both mean) |
| PackMeaning.PackableIff | mdl/tools/packer.py:299-507 | A file with an ordinary GOT is packed if and only if its symbols, sizes, every relocation, the three entry points, command, claims and events are fine, each in terms of the file alone |
| PackMeaning.RewritableIff | mdl/tools/packer.py:391-414 | The relocation loop succeeds if and only if every relocation is relative and falls on a word of the GOT whose value names a place in text, data or bss |
| PackMeaning.LookupMeans | mdl/tools/packer.py:323-336 | A symbol is found exactly when one of that name exists, and the first one counts |
| PackMeaning.EntryPoints | mdl/tools/packer.py:416-467 | The three offsets in a packed image, added to the link address of the text, are the values of `module_init`, `module_cmd` and `module_event`; inside the text, and 0 for the latter two exactly when the symbol is absent |
| PackMeaning.OffsetsEnter | mdl/tools/packer.py:416-467 | Added to the run-time address of the text they are the run-time addresses of the places those symbols name |
| Deployment.PackedIsEntered | mdl/core/loader.c:282-304 | A slot that loaded a packed image is entered at just these three places, for start, command and events |
| PackMeaning.EventHeader | mdl/tools/packer.py:468-474 | Depth and rate are the first and the second little-endian half word of the event section, 0 without one; the depth is at most 16, and not 0 exactly when there is a handler |
| PackMeaning.CommandPacked | mdl/tools/packer.py:427-443 | The command field is the first sixteen bytes of the declared command, zero-padded, and all zero without a handler |
| PackMeaning.NamePacked | mdl/tools/packer.py:445-454 | The name is the declared one up to sixteen characters, else fifteen of the hint |
| Deployment.PackedIsWellMade | mdl/core/loader.c:138-219 | What the loader takes for granted about authentic images (tables inside the payload, no size near 2^32) holds of every packed one |
| Deployment.ClaimsSurvive | mdl/core/loader.c:207-218 | The claims the device reads from a packed image are those the file declared |
| Deployment.PackedVerdictIff | mdl/core/loader.c:138-219 | Packed against a board and pushed to it, an image passes validation if and only if it has at most eight claims, each of its requests fits alone, and no pin it claims is held by another resident |
| Deployment.PackedCommandKeepsIff | mdl/tools/packer.py:431-443 | Pushing a packed image keeps every table of commands unambiguous if and only if it has no command or its name for it is shorter than the field |
| Pack.PaddedHasNul | mdl/tools/packer.py:440-443 | The command field ends up without a NUL exactly when the declared name fills it |
| LoaderCopy.ApplyRelocs | mdl/arch/arm_cm4/reloc_arm.c:18-27 | The loop adds one base per entry to the GOT words and writes nothing else |
| LoaderCopy.LoadImage | mdl/core/loader.c:260-279 | Text and GOT-data-bss regions hold the image, relocated; no other byte of memory changes |
| LoaderCopy.FillData | mdl/core/loader.c:262-268 | The copies that turn disk order (data, GOT) into memory order (GOT, data, zeroed bss) |
| LoaderCopy.CrcMatches | mdl/core/loader.c:154-156 | The payload checksum decides |
| LoaderCopy.RelocsInside | mdl/core/loader.c:195-199 | The loop accepts exactly if every relocation passes the 32-bit bound |
| LoaderCopy.InsideIsInBounds | mdl/core/loader.c:195-199 | For an image whose sizes stay below 2^32 that bound means every slot lies inside the GOT |
| LoaderCopy.PackedParts | mdl/tools/packer.py:516-539 | The loader finds in a packed image what the packer put there |
| LoaderCopy.PackedIsLoadable | mdl/core/loader.c:138-211 | Whatever the packer produces passes checksum, relocation and claim-table checks, and below 2^32 bytes meets what the loader takes for granted |
| LoaderCopy.RebasedSlots | mdl/arch/arm_cm4/reloc_arm.c:18-27 | With slots relocated once each, every slot is its offset plus its base |
| LoaderCopy.SlotMeansTheSame | mdl/core/mdl_format.h:98-128 | If the linker's value names a place, the loaded slot is that place's address in memory |
| LoaderCopy.ObjectIsThere | mdl/core/loader.c:260-268 | and the linked byte (or zero) is at that address |
| LoaderCopy.LoadPacked | mdl/core/loader.c:221-308 | Packed on one side, loaded anywhere on the other: every slot and every byte, and nothing outside the two regions |
| PinArbiter.ResPins | mdl/host/host_resources.c:166-212 | Expansion by table lookup; no pins when the board does not know the claim |
| PinArbiter.HostHolds | mdl/host/host_resources.c:176-184 | The first row for the pin decides |
| Resources.HardMeans | mdl/host/host_resources.c:176-184 | A pin is the host's for good exactly when the first row about it says so |
| Resources.PeriphPinsMeans | mdl/host/host_resources.c:166-174 | The first row of a peripheral gives its pins; without a row it has none |
| Resources.AllPinsMeans | mdl/host/host_resources.c:186-212 | The pins of a claim list are those of its claims: of a GPIO claim the one at its index, of any other its peripheral's |
| PinArbiter.PinHeldByModule | mdl/host/host_resources.c:262-283 | Held if and only if some resident other than the excluded one claims the pin |
| PinArbiter.ResCheck | mdl/host/host_resources.c:285-359 | Accepted if and only if every claim expands, no pin repeats, and none is hard or held elsewhere; the seen table never overflows |
| PinArbiter.CheckResources | mdl/core/loader.c:87-124 | The per-claim sanity checks and the arbitration, with which error is given when |
| PackerCheck.Parse | mdl/tools/packer.py:112-145 | The dictionaries of the board file; a later row replaces an earlier one |
| PackerCheck.CheckConflicts | mdl/tools/packer.py:159-183 | The build-time check, over dictionaries |
| PackerCheck.PackerAndDeviceAgree | mdl/tools/packer.py:159-183 | For well-formed tables the device accepts, with nothing else resident, exactly what the build accepts and has at most eight claims |
| PackerCheck.NineClaimsDisagree | mdl/tools/packer.py:159-183 | Nine claims on nine free pins are packed and refused by the device |
| Slots.DeclaredOnce | mdl/host/host_resources.c:262-283 | Two residents never declare the same whitelist pin |
| Slots.ClaimedOnce | mdl/host/host_resources.c:262-283 | No two residents claim the same instance of anything |
| Slots.RouteArmed | mdl/host/host_events.c:273-313 | Arming a declared pin keeps every route going to the one slot that armed it |
| Slots.PinsTaken | mdl/host/host_resources.c:285-359 | A claim list accepted against the pins held elsewhere keeps all pins exclusive |
| Supervisor.Host.constructor | mdl/core/registry.c:28-43 | The empty table satisfies every invariant |
| Supervisor.Host.Disarm | mdl/host/host_events.c:315-356 | Only this slot's lines, routes and queued events go |
| Supervisor.Host.Reclaim | mdl/core/supervisor.c:113-192 | The slot becomes vacant, its blocks free, its routes nobody's; every other slot is untouched and only free memory is written |
| Supervisor.Host.Validate | mdl/core/loader.c:138-219 | The answer is the first that applies of bad image, text or data too big, arena full, bad relocation, bad claims, conflict, OK; nothing is written |
| Loading.VerdictNames | mdl/core/loader.c:138-219 | Which refusal is named, each in terms of the image: checksum and header, sizes against the pool, a relocation past the GOT, the claim table or a claim of no kind, an unplaceable, repeated, hard or held pin |
| Loading.LoadableMeans | mdl/core/loader.c:138-219 | OK means the three requests fit alone, every relocation is in bounds and the claims are acceptable next to the other residents |
| Loading.VerdictKept | mdl/core/loader.c:138-219 | Freeing blocks never turns a good verdict bad |
| Loading.NothingToHold | mdl/core/loader.c:221-251 | An image without text, or without GOT, data and bss, is never loaded: validation may pass, acquiring fails |
| Deployment.NoDataNeverLoads | mdl/tools/packer.py:299-545 | Such an image: a file with code only is packed, validated wherever its requests fit alone, and loaded nowhere |
| Supervisor.Host.CopyIn | mdl/core/loader.c:260-279 | The two acquired blocks hold the relocated image and no other byte changes |
| Supervisor.Host.Load | mdl/core/loader.c:221-308 | The answer is that of validation, or OK exactly if the arena can give all three blocks. Not loadable: nothing changes. Loaded: claims, blocks of the image's size classes, memory, names and state are the image's. Not given: no memory taken or written, but the claims stay in the empty slot |
| Supervisor.GpioIdsMeans | mdl/core/loader.c:240-251 | The claimed bitmap has exactly the bits of the GPIO claims |
| Supervisor.Host.ArmGpio | mdl/host/host_events.c:273-313 | A pin that can interrupt is routed to its slot; no other slot's routing changes |
| Supervisor.Host.Start | mdl/core/supervisor.c:276-332 | Running, with a fresh event queue and exactly its interrupting GPIO claims armed |
| Supervisor.Host.ArmClaims | mdl/core/supervisor.c:290-296 | One claim after the other; routes of other slots stay |
| Supervisor.Host.FindByName | mdl/core/supervisor.c:213-225 | The first resident whose name is the same text; none for an empty name |
| Supervisor.Host.NamedAsLoaded | mdl/core/supervisor.c:213-225 | For a resident that came from an image that is the text of the first 15 characters of the image's name |
| Supervisor.Host.FindFree | mdl/core/supervisor.c:227-235 | The first empty slot |
| Supervisor.Host.FindByCommand | mdl/core/supervisor.c:238-248 | The first running module whose stored command is the text of the 16 bytes asked for |
| Supervisor.Host.ChooseSlot | mdl/core/supervisor.c:374-413 | Replace by name, else first free slot, else refusal; refused for its command if and only if the first slot that answers to the field as it came is another one |
| Supervisor.Host.BringUp | mdl/core/supervisor.c:428-447 | On a vacant slot: the module runs from fresh blocks holding its image, with a fresh queue and timer, if and only if it is loadable and the arena can give its blocks; otherwise the slot stays vacant and the answer says why; slots, queues, timers and routes of others stay |
| Supervisor.Host.Replace | mdl/core/supervisor.c:424-447 | The window after validation: the new module runs if and only if the arena can give its blocks once the old one's are free, else the slot is empty; all other slots, their queues, timers, routes and live memory are untouched |
| Supervisor.Host.HandleLoad | mdl/core/supervisor.c:357-458 | A push refused for want of a slot, for its command or by validation changes nothing and says why; an admitted one runs, with fresh queue and timer, if and only if the arena can give its blocks after the reclaim, which it never can without text or without data; it concerns the chosen slot only, memory and timers included |
| Supervisor.Host.Push | mdl/core/supervisor.c:377-413 | An admitted push puts exactly the kept command, or none, at its slot of the command table, a refused one leaves the table; if the image exports no command, or its field holds a NUL, names stay unambiguous |
| Supervisor.Host.HandleUnload | mdl/core/supervisor.c:460-475 | Every slot empty, the arena one free block again, no route left |
| Supervisor.Host.OneCulprit | mdl/core/registry.c:66-75 | No address lies in two residents' text |
| Supervisor.Host.RecordFault | mdl/core/registry.c:45-95 | Exactly the module executing at the address becomes faulted, and the offset is within its text |
| Supervisor.Host.WatchdogPass | mdl/core/supervisor.c:551-589 | Exactly the faulted and the hung slots are reclaimed; every other slot is unchanged |
| Supervisor.Host.DoomedMeans | mdl/core/supervisor.c:551-589 | Which slots those are: a faulted one; a running one that is not parked and was last fed more than 3000 ticks ago; no other |
| Watchdog.HungMeans | mdl/core/supervisor.c:567-582 | Not parked: taken out exactly past 3000 idle ticks. Parked for good: never. Parked until a tick up to 2^31 ahead: not before it |
| Watchdog.OverdueMeans | mdl/core/supervisor.c:567-582 | Once its deadline has come, being parked makes no difference |
| BootRestore.EveryTurnCounts | mdl/core/supervisor.c:57-94 | If every saved entry had its turn, each is running in the end, or could not be read, was refused at its turn, or found no free slot |
| BootRestore.UnambiguousSoFar | mdl/core/supervisor.c:57-94 | From a silent table, the commands are unambiguous after any number of turns if and only if no two entries that came up answer to one command |
| BootClash.ClashAtBoot | mdl/core/supervisor.c:43-94 | Two saved images with different names and one command: from power-on, restoring them leaves the command reaching both |
| Supervisor.Host.Restore | mdl/core/supervisor.c:43-94 | Every saved entry has its turn in order: loadable and given its blocks at that moment, it comes up in the first free slot under its name and command, with fresh queue and timer, and stays; otherwise that slot stays empty; residents, their queues and timers are untouched; from a silent table commands end unambiguous exactly if no two entries that came up clash |
| Supervisor.Host.Step | mdl/core/supervisor.c:551-606 | What each stimulus does: a push concerns one slot, an unload empties all, a fault marks the module at the address, a pass empties the hung and faulted, a killed command its slot, an end leaves the module loaded, a park or a host call sets one timer; and none but a push of a full-width command can make names ambiguous |
| Supervisor.Host.Run | mdl/core/supervisor.c:551-606 | Any sequence of pushes, unloads, faults, timeouts, ends and watchdog passes keeps the invariant; if every command pushed is shorter than its field, typed commands stay unambiguous throughout |
| Supervisor.Host.PinsExclusive | mdl/host/host_resources.c:251-283 | In every state of the invariant two residents share no pin, none claims one twice, none holds a hard pin |
| Supervisor.Host.BuffersExclusive | mdl/host/host_api.c:66-102 | In every state of the invariant an accepted buffer touches no guard band and no block of another slot |
| Supervisor.Host.BuffersAccepted | mdl/host/host_api.c:66-102 | and is accepted exactly when it is empty or inside the caller's text, data, heap or stack |
| Supervisor.Host.BlocksApart | mdl/core/loader.c:260-279 | What the loader writes for one slot lies outside every block of another |
| Supervisor.Host.NeighbourBytesKept | mdl/core/loader.c:260-279 | Every byte in a block of another resident survives a load |
| Supervisor.Host.EdgeTarget | mdl/host/host_events.c:249-254 | An edge goes to the one resident that declared the pin, or to nobody |
| Supervisor.Host.UartTarget | mdl/host/host_events.c:165-189 | A UART event goes to the only resident that claimed the port, if there is one |
| Watchdog.SleeperSparedIff | mdl/core/supervisor.c:567-589 | While its deadline is stored a sleeping module survives every pass up to a given tick if and only if that tick is before the timeout, or the deadline reads as forever, or it is not tick 0, lies at most 2^31 ticks away once the timeout has passed, and the tick is before it |
| Watchdog.WakingSparedIff | mdl/host/host_api.c:627-645 | Between clearing the deadline and feeding the watchdog a module survives a pass if and only if the timeout has not passed |
| Watchdog.SleepersTakenOut | mdl/host/host_api.c:627-645 | Four that are taken out: a sleep that ends on tick 0, one of more than 2^31 ticks, five ordinary seconds by a pass on the deadline tick, and by one while waking |
| Device.PushAndPersist | mdl/core/supervisor.c:449-456 | A push that is to be kept is saved only once it runs; with no failing flash operation the save is kept exactly when there is room |
| Device.ReadAll | mdl/core/supervisor.c:57-64 | Reading every entry gives the stored images, decoded |
| Device.SavedTrusted | mdl/tests/hil/common/board_persist.c:228-319 | A store of images from the packer stays one |
| Device.Boot | mdl/core/supervisor.c:43-94 | From the flash alone: every stored image has its turn and its account, and commands end unambiguous exactly if no two clash |
| Device.PushThenBoot | mdl/core/supervisor.c:357-458 | Pushed with persist, power lost anywhere in the save, booted: the set restored is the old one or the new one; the old one if the module did not come up, the new one if the save said so |
| EventTrace.Run | mdl/host/host_events.c:110-163 | In every run two queued interrupt records differ in source or id, all posts of a record have its source and id, commands are never merged, and the queue stays within its depth |
| EventTrace.Conservation | mdl/host/host_events.c:127-153 | Delivered, queued, merged and lost add up to interrupts plus accepted commands |
| EventTrace.CountsRecoverIff | mdl/host/host_events.c:127-134 | Merge counts plus losses recover every post if and only if no record passed its ceiling |
| EventTrace.EverySourceReplayed | mdl/host/host_events.c:96-109 | For every source and id, the posts in delivered and queued records with that source and id are the accepted ones, in order |
| EventTrace.NoLossUnderCapacity | mdl/host/host_events.c:137-142 | If distinct sources plus commands waiting at once never exceed the depth, nothing is ever lost |
| EventTrace.SingleSourceNeverLost | mdl/host/host_events.c:137-142 | One source alone is never lost, however fast it fires |
| Events.EventQueue.Reset | mdl/host/host_events.c:63-79 | An empty queue of the depth asked for, or the maximum |
| Events.EventQueue.Discard | mdl/host/host_events.c:324-345 | Nothing is left to take |
| EventTrace.PostedIsTaken | mdl/host/host_events.c:127-153 | A post joins the queued record of its own source and id; without one it starts a record if there is room, and is counted as lost otherwise |
| Events.EventQueue.PostFromIsr | mdl/host/host_events.c:110-163 | Just that, on the ring: ring and counters stay the summary of the run so far |
| Events.EventQueue.MergeAt | mdl/host/host_events.c:129-134 | Latest payload, first tick, saturating count |
| Events.EventQueue.TakeOne | mdl/host/host_events.c:191-213 | The oldest record, and nothing else, leaves; it names the source and id of every post in it, the latest payload, the first tick, and how many posts, up to 65535 |
| Events.EventQueue.PostConsole | mdl/host/host_events.c:215-240 | Refused, not lost, when full |
| Events.Drive | mdl/host/host_events.c:110-240 | Any run of the ring is the run of its specification |
| Events.CountersConserve | mdl/host/host_events.c:81-95 | The counters a status reader sees account for every post since reset, modulo 2^32 |
| UartRing.Uart.RingUsed | mdl/host/host_uart.c:111-114 | Accepted minus consumed, despite index and word wrap, for every ring size that divides 2^32 |
| UartRing.Uart.Receive | mdl/host/host_uart.c:118-130 | A byte is dropped exactly when one less than the ring size are waiting |
| UartRing.Uart.Test | mdl/host/host_uart.c:391-391 | The loop goes on exactly while there is room and something waiting |
| UartRing.Uart.CopyByte | mdl/host/host_uart.c:392-392 | The byte copied is the next one accepted |
| UartRing.Uart.Advance | mdl/host/host_uart.c:393-393 | Only then does the tail move |
| UartRing.Uart.ReadsArePrefix | mdl/host/host_uart.c:385-395 | What reads returned is a prefix of what was accepted |
| UartRing.Interleave | mdl/host/host_uart.c:118-130 | For every interleaving of interrupts with the steps of the read loop, from any state: ring, reader and counters are those of the specified run; reads are a prefix of the bytes accepted; every arrival is accepted or counted as dropped |
| ModuleHeap.RoundingIsUpIff | mdl/host/host_api.c:719-719 | Rounding covers the request, with room for the header, if and only if the request is at most 2^32-16 |
| ModuleHeap.TiledApart | mdl/host/host_api.c:742-751 | Blocks with their headers do not overlap |
| ModuleHeap.Heap.constructor | mdl/host/host_api.c:702-712 | The pool starts above the argument block |
| ModuleHeap.Heap.Search | mdl/host/host_api.c:723-741 | The walk along the free list stops at the first block that is large enough, or at the end when there is none |
| ModuleHeap.Heap.Alloc | mdl/host/host_api.c:714-752 | The first block on the free list that is large enough, else fresh space, else null; 8-aligned, no recorded size changes |
| ModuleHeap.Heap.Unlink | mdl/host/host_api.c:730-740 | The pointer that led to the block leads past it |
| ModuleHeap.Heap.Free | mdl/host/host_api.c:763-800 | A pointer outside the caller's heap changes nothing; a block of the caller's goes to the front of the list with its size |
| ModuleHeap.Heap.PayloadsApart | mdl/host/host_api.c:702-752 | Payloads are aligned, inside the heap above the argument block, and disjoint |
| ModuleHeap.Client | mdl/host/host_api.c:702-800 | For any client that frees only what it holds, from any heap: the pointers it gets are those of the specified first-fit pool, the heap stays tiled, no block is split, merged, moved or resized, and the pointers held are exactly the live blocks |

## Left out

- Vendor drivers, registers, MPU toggling, cache and code-sync calls: foreign hardware.
- FreeRTOS tasks, notifications, privilege switching and assembly glue: a fault, a timeout or the end of a task is one transition of one slot.
- mdl_buddy_selftest: a test harness that reinitialises the live pool.
- Authentic images that did not come from the packer and whose 32-bit offsets wrap: the bounds are computed with the wrap, but loading is stated for images whose tables lie in their payload.
- FlashRead.BankIsValid: an entry whose offset plus length wraps 32 bits reads memory outside the bank in the source; here it reads as empty. No sound flash contains one.
- Power cuts inside a sector erase: an erase is one step.
- ELF parsing: sections, symbols and relocations are inputs of `Pack.PackElf`.
- GOT sections that are not whole words, and slots relocated twice: a linker emits neither, and relocation is stated without them.
- Double or foreign in-range frees in the module heap, and requests above 2^32-16 bytes: the documented gap, and `ModuleHeap.RoundingIsUpIff` for the second.
- A frame whose bytes are overrun before it is taken: the parser has one buffer, and `Link.TakenAreAnnounced` says what keeping up means.
- The rolling one-second rate window and the declared rate of an event queue: reporting only.
- The error-flag branch of the UART interrupt: one more counter step.
- Console text, JSON output, conflict messages, watch, console and MCP tools, test modules, linker scripts: text and plumbing.
- BuddyAllocator.Allocator.Free: an in-pool pointer that is not the start of a live block is refused here because the side table says so; what a module could do to the side table is not modelled.
