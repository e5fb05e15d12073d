# UniProton board support: a Dafny model

UniProton is a real-time kernel for embedded boards. Its demos carry board-support code that keeps state and
talks to hardware or to a peer. This project models the parts of that code with the most state and arithmetic,
and proves for all inputs and all runs what they compute. `dafny verify dfyconfig.toml` checks everything.

| files | what they model |
|---|---|
| `Vmsa`, `PageTree`, `Paging`, `Mmu`, `PagingTheorems`, `MmuReach`, `Kunpeng`, `MmuPool`, `PoolMapping` | the AArch64 page-table builder of kp920, its region table and its pool of regions |
| `Shm` | the shared-memory channel between two virtual machines |
| `ItsCommands`, `Its`, `ItsDriver` | the GIC ITS driver: command words, command ring, device tables |
| `Crc`, `Ymodem`, `YmodemTheorems`, `YmodemAnswers`, `YmodemNames`, `YmodemReceiver`, `YmodemRoundTrip` | the YMODEM receiver, its callbacks and its sink |
| `Rtt` | the RTT ring buffers |
| `I2c`, `Spi` | bus transfers driven by interrupts |
| `Mqtt`, `Coap`, `CoapCodec`, `CoapTheorems` | the wire codecs of the OTA host server |
| `Timer` | the 64-bit counter read as two halves |
| `Bits`, `Options` | words as natural numbers with C's operators written out |

## How to read it

Fixed-width words are natural numbers below a power of two, and wrap-around and truncation are written out.
Code that updates state in place is a class whose methods are proved against functions or abstract contents;
the properties are lemmas about those. Things outside the program are modelled on their own terms and not
from the code: the processor's table walk follows section D8.3 of Arm DDI 0487 (`Vmsa.Walk`), the ITS follows
section 5.3 of Arm IHI 0069 (`ItsCommands.Decode`, `Its.Exec`), CRC-16 is a remainder of polynomials over
GF(2) (`Crc.Congruent`).

What the page tables are meant to say is `Paging.Expected`: the last region of the list whose blocks cover an
address decides. The theorem about `SetupPgTables` needs neither disjoint nor block-aligned regions, and its
success condition is exact. Nothing is assumed about the old contents of the table memory, so a rebuild
depends on the region list alone. The walk honours the T0SZ, TG0 and IPS fields of the register value that the
builder computes, so what the processor sees is `Mmu.Effective`: the mapping asked for, as far as the announced
physical address space reaches. Addresses with bit 55 set belong to TTBR1 and are not covered.

## Where the code does less than it seems to

Each of these is stated with the exact condition under which the intended property holds, and with an input at
which it fails.

* `mmu_add_map` counts whole blocks from an unaligned start, so the end of such a region may be in none of its
  blocks. Two regions of kp920 are like that: the end of the DMA region is mapped by its neighbour's block, and
  the end of that neighbour is not mapped (`PagingTheorems.WholeRegionCovered`, `Kunpeng.KunpengTails`).
* `mmu_get_tcr` announces a physical address space as large as the virtual one. A list with a higher physical
  address is installed, and accesses to it fault (`Mmu.PageTables.SetupPgTables`, `MmuReach.FarRegionOutOfReach`).
  Lists with equal virtual and physical addresses, such as that of kp920, do not run into this
  (`MmuReach.IdentityReachable`, `Kunpeng.KunpengReachable`, `Kunpeng.KunpengRunReachable`).
* `mmu_request` and `mmu_release` miscount when given the address that marks a free slot
  (`MmuPool.RequestAccounts`, `MmuPool.ReleaseAccounts`, `MmuPool.RequestOfInvalidMiscounts`,
  `MmuPool.ReleaseOfInvalidMiscounts`).
* `shm_write` of exactly `max_size` bytes neither sets `used_size` nor sends the interrupt, and the channel
  never delivers it (`Shm.FullMessageLost`). The chunk count is computed in 32 bits, can wrap, and is then taken as
  a signed number, as is the byte count of each copy (`Shm.LoopCountIsParts`, `Shm.WrappedLoopCount`,
  `Shm.NegativeLoopCount`). `Shm.DeliveredExactlyWhen` puts these together.
* The YMODEM size field is scanned with `%lu` into a 32-bit member, so a size with a minus sign also sets
  `curFileSize` (`YmodemTheorems.CountersStartEqual`, `YmodemRoundTrip.NegativeSizeAccepted`). An end of file is
  still acknowledged only with all declared bytes in the sink.
* The name of a YMODEM control frame is copied over what a refused frame left behind, without a terminator, and the
  result is what is compared with the wanted name (`YmodemNames.ShownIsName`, `YmodemNames.LeftOverName`).
* `GetAvailWriteSpace` reads the host's index twice. If the host passes the wrap in between, a skipping or trimming
  write overruns unread bytes (`Rtt.Ring.GetAvailWriteSpace`, `Rtt.TornSkip`).
* The event range that a MAPD declares is always larger than the device's event count, so spare events reach the
  interrupts of a device packed behind it (`Its.RangesMeet`, `Its.SpareEventAliases`).
* `I2cTransferMsg` spins when its budget is spent, messages are left and the FIFO is not full, and with a negative
  budget. `I2c.Returns` says exactly when a call comes back (`I2c.Controller.TransferMsg`, `I2c.DrainedFifoWaits`).
* The lookup behind INT and CLEAR misses a device whose interrupt numbers reach 2^32 (`Its.LookupFinds`,
  `Its.WrappedRangeMissed`), and the memory for a translation table is sized in 32 bits (`Its.TableFits`,
  `Its.TableTooLarge`).
* `mqtt_send_packet` lets flags run into the packet type (`Mqtt.PacketRoundTrip`, `Mqtt.FlagsChangeType`).
* `coap_add_uri_path` writes segment lengths of 13, 14 and above 15 in a form its own parser reads differently
  (`CoapTheorems.RequestReadsBack`, `CoapTheorems.ThirteenMisread`), and `coap_get_payload` starts its search inside
  the header and stops at an option byte that looks like the marker (`CoapTheorems.PayloadReadsBack`,
  `CoapTheorems.LongSegmentLosesPayload`).

## Model

| member | source | states |
|---|---|---|
| `Mmu.PageTables.SetupPgTables` | demos/kp920/bsp/mmu.c:340-388 | For any region list and any old arena contents it succeeds exactly when the list is installable; then the hardware walk, started from the returned TCR value, gives every TTBR0 address the translation the list asks for as far as the announced physical address space reaches and faults elsewhere, and that is the whole mapping asked for if and only if every requested address and every table leading to one is within reach |
| `Mmu.PageTables.AddRegions` | demos/kp920/bsp/mmu.c:375-383 | Succeeds exactly when every level is in range, no coarser block is in the way and the arena holds all tables needed; then the installed blocks are those of the list in order |
| `Mmu.PageTables.AddMap` | demos/kp920/bsp/mmu.c:287-326 | On success exactly ceil(size / block) rounds were added; -2 exactly for a level not below the start level, -3 only where a coarser block is in the way of the failing round, -1 only where the tables needed exceed the arena |
| `Mmu.PageTables.MapBlock` | demos/kp920/bsp/mmu.c:304-322 | Installs one block, keeps the tree well formed, and takes exactly the tables the blocks so far need |
| `Mmu.PageTables.MapLevel` | demos/kp920/bsp/mmu.c:305-317 | One level of the descent: -3 only when a block already sits above, 0 only when none does, and then the path reaches one level further or the leaf is written |
| `Mmu.PageTables.AddMapPteProcess` | demos/kp920/bsp/mmu.c:266-285 | An invalid entry above the leaf gets a new zeroed table or -1, a valid one is left alone, and the leaf entry is overwritten by phys, attributes and type |
| `Mmu.PageTables.CreateTable` | demos/kp920/bsp/mmu.c:239-259 | A table comes from the arena, zeroed, exactly when it fits; the fill pointer moves in either case and nothing below it changes |
| `Mmu.PageTables.FindPte` | demos/kp920/bsp/mmu.c:200-237 | The software walk returns the entry that the tree of tables resolves the address to, and nothing exactly where the tree does not reach that level |
| `Mmu.PageTables.GetTcr` | demos/kp920/bsp/mmu.c:133-184 | The announced address space holds every region; the T0SZ, TG0 and IPS fields announce it, for physical addresses the same size as for virtual ones |
| `Mmu.TcrValue` | demos/kp920/bsp/mmu.c:165-173 | The fields or-ed together do not overlap: T0SZ, IRGN0, ORGN0, SH0, TG0, the reserved bit and IPS each read back, and no other bit is set |
| `Mmu.VaBitsLeast` | demos/kp920/bsp/mmu.c:145-163 | The announced size is the smallest supported one that reaches the highest address |
| `Mmu.WalkIsLookup` | demos/kp920/bsp/mmu.c:191-285 | The hardware walk over the raw words gives what the well-formed tree says, for every address, or an address size fault exactly where a table or the output is out of reach |
| `Paging.PaintedIsExpected` | demos/kp920/bsp/mmu.c:287-326 | Installing the blocks of all regions one after another gives each address the translation of the last region that covers it |
| `Paging.LeafWordOutput` | demos/kp920/bsp/mmu.c:278-282 | A leaf word decodes to its block of physical memory and its attributes at every level and granule |
| `PageTree.PutLeafLookup` | demos/kp920/bsp/mmu.c:278-282 | Writing a leaf changes the translation of exactly the addresses of its block |
| `PageTree.GrowWellFormed` | demos/kp920/bsp/mmu.c:270-277 | Linking a new zeroed table keeps every entry invalid, a leaf its level allows, or a pointer to a table of the next level inside the arena |
| `PageTree.GrowLinked` | demos/kp920/bsp/mmu.c:270-277 | Every table but the root stays reachable from a used entry, and no two tables serve the same part of the address space |
| `PageTree.GrowLeafFrom` | demos/kp920/bsp/mmu.c:270-277 | Linking a new table changes no translation |
| `PagingTheorems.TablesNotShared` | demos/kp920/bsp/mmu.c:261-285 | Two entries pointing to the same table are the same entry |
| `PagingTheorems.DistinctBlocksDistinctEntries` | demos/kp920/bsp/mmu.c:191-237 | Addresses of different blocks are resolved by different entries |
| `PagingTheorems.RegionMapIsOffset` | demos/kp920/bsp/mmu.c:287-326 | A covered address maps to phys + (va - virt) if and only if virt and phys lie equally far into their blocks |
| `PagingTheorems.WholeRegionCovered` | demos/kp920/bsp/mmu.c:303-323 | All of a region is mapped if and only if its rounds, counted from the start of its first block, reach its end |
| `PagingTheorems.AlignedRegionCovers` | demos/kp920/bsp/mmu.c:303-323 | A region that starts on a block boundary covers exactly the blocks that begin inside it |
| `Kunpeng.KunpengTails` | demos/kp920/bsp/mmu.c:38-126 | With the whole region table of kp920, free slots and optional regions included, an address inside the DMA region is in none of its blocks and mapped by the next region, and an address inside that region faults |
| `Kunpeng.KunpengSound` | demos/kp920/bsp/kp920/cpu_config.h:14-44 | The table is an identity map within the architecture's limits that needs 48 bits |
| `Kunpeng.KunpengReachable` | demos/kp920/bsp/mmu.c:38-126 | Wherever its tables are placed, all of the table's mapping is within reach |
| `Kunpeng.KunpengRunReachable` | demos/kp920/bsp/mmu.c:390-485 | After every run of requests the architecture allows and of any releases, the table is still an identity map of 48 bits, and a rebuild that succeeds has all its mapping within reach |
| `MmuReach.ReachableByOutputs` | demos/kp920/bsp/mmu.c:133-184 | With the tables below the announced size, all is within reach if and only if no requested output address is beyond it |
| `MmuReach.IdentityReachable` | demos/kp920/bsp/mmu.c:133-184 | A list with equal virtual and physical addresses is within reach if and only if its tables are, and so whenever they lie below the announced size |
| `MmuReach.WideReachable` | demos/kp920/bsp/mmu.c:146-148 | A list that needs 48 bits is always within reach |
| `MmuReach.DisjointReachable` | demos/kp920/bsp/mmu.c:133-184 | With disjoint regions and the tables below the announced size, all is within reach if and only if the physical blocks of every region end at or below it |
| `MmuReach.FarRegionOutOfReach` | demos/kp920/bsp/mmu.c:141-165 | One accessible low virtual block at physical address 2^40 is installed with success and faults |
| `MmuReach.RunIdentity` | demos/kp920/bsp/mmu.c:443-485 | Requests and releases keep a list with equal virtual and physical addresses one |
| `MmuReach.RunRegionsOk` | demos/kp920/bsp/mmu.c:443-485 | Over every run of requests for allowed regions the table stays one the builder accepts |
| `MmuReach.RunReachable` | demos/kp920/bsp/mmu.c:426-485 | A rebuild after any run from an identity map, with its tables below the announced size, is all within reach |
| `PagingTheorems.DisjointExpected` | demos/kp920/bsp/mmu.c:287-326 | On regions disjoint at the coarser level each covered address is mapped by the one region that covers it |
| `PagingTheorems.ExpectedFault` | demos/kp920/bsp/mmu.c:287-326 | An address faults if and only if no region covers it |
| `PagingTheorems.DisjointNoConflict` | demos/hi3093/bsp/mmu.c:151-277 | In disjoint lists, also of mixed levels, no block is in the way of another, so -3 does not occur |
| `PagingTheorems.DisjointFeasible` | demos/hi3093/bsp/mmu.c:151-277 | On disjoint regions the only failures are a level out of range and arena exhaustion |
| `MmuPool.RegionTable.MmuRequest` | demos/kp920/bsp/mmu.c:443-462 | The table and counter after a request, for every state: the first free reserved slot is filled, or -1 or -4 with nothing changed; RequestMaps says what that means for the mapping |
| `MmuPool.RegionTable.MmuRelease` | demos/kp920/bsp/mmu.c:465-485 | The table and counter after a release, for every state: the first reserved slot with that address is blanked, or nothing changes |
| `PoolMapping.RequestMaps` | demos/kp920/bsp/mmu.c:443-462 | After a request the next rebuild maps each address of the requested blocks to itself with the attributes of the first free slot, except where a region behind that slot covers it, and every other address as before |
| `PoolMapping.RequestMapsRange` | demos/kp920/bsp/mmu.c:443-462 | With an aligned address that is every address of the requested range |
| `PoolMapping.ReleaseUnmaps` | demos/kp920/bsp/mmu.c:465-485 | After a release every address is mapped as the list without the released region says |
| `PoolMapping.ReleaseOfOther` | demos/kp920/bsp/mmu.c:465-477 | A release of an address no reserved slot holds changes nothing |
| `MmuPool.RequestAccounts` | demos/kp920/bsp/mmu.c:443-462 | From a state whose counter is the number of free slots, request fails exactly when none is free, never with -4, and keeps the counter right if and only if the address is not the free-slot mark or no slot is free |
| `MmuPool.ReleaseAccounts` | demos/kp920/bsp/mmu.c:465-485 | Release keeps the counter right if and only if the address is not the free-slot mark, or no slot or every slot is free |
| `MmuPool.ReleaseOfInvalidMiscounts` | demos/kp920/bsp/mmu.c:465-485 | A pool with one slot in use whose counter is wrong after releasing the free-slot mark |
| `MmuPool.RequestOfInvalidMiscounts` | demos/kp920/bsp/mmu.c:443-462 | A pool with all slots free whose counter is wrong after requesting the free-slot mark |
| `MmuPool.RunAccounts` | demos/kp920/bsp/mmu.c:443-485 | Over every run that never names the free-slot mark the counter is the number of free slots and the fixed regions never change |
| `MmuPool.RunClean` | demos/kp920/bsp/mmu.c:443-485 | Over every such run free slots stay blank |
| `MmuPool.ReleaseUndoesRequest` | demos/kp920/bsp/mmu.c:443-485 | Releasing an address just requested restores the whole pool |
| `Shm.WriterKeeps` | demos/ascend310b/bsp/shm_pub.c:77-112 | Every writer step, byte copies included, keeps the channel invariant or is the publication of a message of exactly max_size bytes |
| `Shm.ReaderKeeps` | demos/ascend310b/bsp/shm_pub.c:114-140 | Every reader step keeps the channel invariant, or loses bytes of the first message whose copies or rounds it miscounts |
| `Shm.LostKeeps` | demos/ascend310b/bsp/shm_pub.c:114-140 | A message received with bytes missing stays so in every continuation |
| `Shm.LoopCountIsParts` | demos/ascend310b/bsp/shm_pub.c:130 | Both sides agree on the number of chunks if and only if the 32-bit sum does not wrap and the count is positive as a signed number, that is, max_size above 1 or a length below 2^31; otherwise the reader makes fewer rounds |
| `Shm.NegativeLoopCount` | demos/ascend310b/bsp/shm_pub.c:130-131 | With max_size 1 and 2^31 bytes the count is negative while the writer sends 2^31 parts |
| `Shm.WrappedLoopCount` | demos/ascend310b/bsp/shm_pub.c:130 | With max_size 2^31 and 2^32 - 1 bytes the count is zero while the writer sends two parts |
| `Shm.ReceivedInOrder` | demos/ascend310b/bsp/shm_pub.c:77-140 | In every run the messages received are a prefix of those sent, byte for byte |
| `Shm.NeverOverwritten` | demos/ascend310b/bsp/shm_pub.c:77-140 | In every reachable state where the writer copies, nothing unread is in the buffer and the reader is not copying |
| `Shm.NotStuck` | demos/ascend310b/bsp/shm_pub.c:77-140 | A reachable state where neither side can move has delivered everything or has a message of exactly max_size bytes |
| `Shm.RunsEnd` | demos/ascend310b/bsp/shm_pub.c:77-140 | Every step lowers a measure of the work left, so every run is finite |
| `Shm.Drain` | demos/ascend310b/bsp/shm_pub.c:77-140 | Every run over messages that can be copied and counted can be continued to one that has delivered everything, when none has exactly max_size bytes |
| `Shm.DeliveredExactlyWhen` | demos/ascend310b/bsp/shm_pub.c:77-140 | For all lengths of 32 bits some run delivers all messages if and only if none has exactly max_size bytes and every one can be copied and counted in signed 32-bit numbers |
| `Shm.FullMessageLost` | demos/ascend310b/bsp/shm_pub.c:80-111 | Two bytes through a data area of two bytes are delivered by no run |
| `ItsCommands.DecodeEncode` | demos/ascend310b/bsp/prt_gic_its.c:15-188 | Every command with arguments in range, or-ed together field by field, decodes back to itself |
| `ItsDriver.NextIndexInRing` | demos/ascend310b/bsp/prt_gic_its.c:209-212 | The write index moves by 32 and wraps at 0x1000, stays a multiple of 32 below it, and two entries ahead is never the entry itself |
| `ItsDriver.Driver.FillEntry` | demos/ascend310b/bsp/prt_gic_its.c:75-188 | Fills one ring entry with the command's words and touches no other |
| `ItsDriver.Driver.HardwareReads` | demos/ascend310b/bsp/prt_gic_its.c:190-202 | The in-order consumer decodes exactly the entries between its index and the writer's, across the wrap |
| `ItsDriver.Driver.SendCmd` | demos/ascend310b/bsp/prt_gic_its.c:214-235 | The hardware sees the command, then a SYNC exactly when a redistributor is known, and nothing else |
| `ItsDriver.Driver.ConfigLpiRoute` | demos/ascend310b/bsp/prt_gic_its.c:292-310 | The hardware sees MAPTI for hwirq_base + event and then INV of the same device and event, each with its SYNC |
| `ItsDriver.Driver.MapDevice` | demos/ascend310b/bsp/prt_gic_its.c:738-750 | Issues MAPD and then the routes of the whole event range MAPD declared, and every MAPTI the hardware has seen is followed by an INV of its event before the next MAPTI |
| `ItsDriver.Driver.SetupDeviceTable` | demos/ascend310b/bsp/prt_gic_its.c:752-760 | After it the ITS holds the table of every device in the list, without a command error, and every MAPTI the hardware has seen is followed by an INV of its event before the next MAPTI |
| `ItsDriver.Driver.SetClearIrqPending` | demos/ascend310b/bsp/prt_gic_its.c:570-592 | Issues INT or CLEAR for the first device whose range holds the interrupt, or nothing |
| `Its.DeviceInvalidated` | demos/ascend310b/bsp/prt_gic_its.c:292-310 | In what the queue carries for a device each MAPTI is followed by an INV of the same device and event before any other MAPTI |
| `Its.WithSyncAt` | demos/ascend310b/bsp/prt_gic_its.c:214-235 | With a redistributor known, command i is entry 2i of what the queue carries and its SYNC entry 2i + 1; without one the commands alone are |
| `Its.EventBitsBounds` | demos/ascend310b/bsp/prt_gic_its.c:237-246 | The declared event range holds every event of the device and is at most twice their number, and below 2^31 events it fits the field |
| `Its.DeviceMapped` | demos/ascend310b/bsp/prt_gic_its.c:237-258 | Executing one device's commands makes no error, so every MAPTI is inside the range of its MAPD, routes each event of the range and leaves other tables alone |
| `Its.SetupTranslates` | demos/ascend310b/bsp/prt_gic_its.c:738-760 | After setup each device's event translates to hwirq_base + event inside the declared range and to nothing outside, whatever the tables held before |
| `Its.SameInterrupt` | demos/ascend310b/bsp/prt_gic_its.c:738-760 | After setup two events of listed devices translate alike if and only if their interrupt numbers, taken modulo 2^32, are equal |
| `Its.RangesMeet` | demos/ascend310b/bsp/prt_gic_its.c:738-750 | Two devices have events that reach the same interrupt if and only if one starts inside the declared range of the other, counted around 2^32 |
| `Its.SpareEventAliases` | demos/ascend310b/bsp/prt_gic_its.c:742-749 | The first event past a device's count reaches the first interrupt of a device packed directly behind |
| `Its.SyncsChangeNothing` | demos/ascend310b/bsp/prt_gic_its.c:222-229 | The interleaved SYNC commands do not change what the ITS ends up with |
| `Its.PendingHitsInterrupt` | demos/ascend310b/bsp/prt_gic_its.c:570-592 | Setting or clearing an interrupt changes the pending state of exactly that interrupt if some device of the list has it in a range that stays below 2^32, and nothing otherwise |
| `Its.LookupFinds` | demos/ascend310b/bsp/prt_gic_its.c:570-579 | The search finds a device if and only if one of the list has the interrupt among its events in a range that stays below 2^32 |
| `Its.LookupFindsLow` | demos/ascend310b/bsp/prt_gic_its.c:534-579 | For interrupts below 2^31, as its callers check, if and only if some range from hwirq_base on holds it |
| `Its.WrappedRangeMissed` | demos/ascend310b/bsp/prt_gic_its.c:575 | A device whose four interrupts end at 2^32 has one that the search misses |
| `Its.TableFits` | demos/ascend310b/bsp/prt_gic_its.c:240-245 | The declared table fits its allocation if and only if the 32-bit product of entries and entry size does not wrap |
| `Its.TableTooLarge` | demos/ascend310b/bsp/prt_gic_its.c:244 | With 2^28 events and entries of eight bytes no memory is asked for |
| `Crc.CalculateCrc16` | demos/ascend310b/bsp/ymodem.c:46-60 | The bit loop computes the CRC function byte by byte |
| `Crc.CrcIsRemainder` | demos/ascend310b/bsp/ymodem.c:46-60 | The CRC is congruent to data times x^16 modulo x^16 + x^12 + x^5 + 1 and below 2^16 |
| `Crc.RemainderUnique` | demos/ascend310b/bsp/ymodem.c:46-60 | There is only one such remainder |
| `Crc.CrcLinear` | demos/ascend310b/bsp/ymodem.c:46-60 | The CRC of an xor of equally long data is the xor of the CRCs |
| `Crc.ResidueZero` | demos/ascend310b/bsp/ymodem.c:174-176 | A packet's CRC check passes if and only if data followed by the big-endian CRC has residue 0 |
| `Crc.BurstDetected` | demos/ascend310b/bsp/ymodem.c:174-176 | An accepted packet changed by any non-empty burst of at most 16 bits, in data or CRC, is not accepted |
| `YmodemReceiver.Receiver.ReceivePacket` | demos/ascend310b/bsp/ymodem.c:62-99 | Takes from the byte and timeout stream what the packet function takes, for every stream |
| `YmodemReceiver.Receiver.ParseControl` | demos/ascend310b/bsp/ymodem.c:101-133 | Updates session, info and sink as the control-frame function says, including the 64-bit store of the size |
| `YmodemReceiver.Receiver.ParseData` | demos/ascend310b/bsp/ymodem.c:135-151 | Updates session, info and sink as the data-frame function says |
| `YmodemReceiver.Receiver.ParseReceived` | demos/ascend310b/bsp/ymodem.c:153-185 | Checks in the source's order: end, complement, CRC, sequence, then control or data |
| `YmodemReceiver.Receiver.HandleErrorStatus` | demos/ascend310b/bsp/ymodem.c:193-225 | Replies, counts errors and ends the session as the error function says |
| `YmodemReceiver.Receiver.ReceiveFile` | demos/ascend310b/bsp/ymodem.c:227-253 | The two loops refine the recursive receiver over every stream, whether they return or wait; a fresh download that returns OK has the last announced file complete in the sink |
| `YmodemReceiver.Receiver.RecvStartCmd` | demos/ascend310b/bsp/file_transfer.c:8-25 | Start callback: succeeds if and only if the size is not 0 and the name is the wanted one and below 64 bytes, and then resets sink and counters; otherwise nothing changes |
| `YmodemReceiver.Receiver.RecvFileData` | demos/ascend310b/bsp/file_transfer.c:27-43 | Data callback: succeeds if and only if there is data and the declared length is not reached, and then appends to the sink; otherwise nothing changes |
| `YmodemReceiver.Receiver.RecvEndCmd` | demos/ascend310b/bsp/file_transfer.c:45-58 | End callback: succeeds if and only if a file was announced and the sink holds the declared length |
| `YmodemNames.SameNameIs` | demos/ascend310b/bsp/file_transfer.c:14-16 | Names are compared byte by byte, equal or the two cases of one letter |
| `YmodemNames.ControlVerdict` | demos/ascend310b/bsp/ymodem.c:111-132 | A control frame with a name opens a file if and only if its size can be read and is not 0 in 32 bits and the name shown is the wanted one ignoring case and short enough; a refusal changes neither sink nor info |
| `YmodemNames.ShownIsName` | demos/ascend310b/bsp/ymodem.c:114-125 | The name shown to the callback is the frame's own if and only if the buffer holds a zero behind it |
| `YmodemNames.LeftOverName` | demos/ascend310b/bsp/ymodem.c:114-125 | A frame for "ab" without a size and then one for "x" open the wanted file "xb" |
| `YmodemNames.OtherNameRefused` | demos/ascend310b/bsp/file_transfer.c:14-16 | A frame with another name leaves sink and info alone, is answered CAN CAN and ends the call with the callback error |
| `YmodemNames.WantedFileAnnounced` | demos/ascend310b/bsp/ymodem.c:227-253 | If a call announced a file, the stream holds the control frame that opened it, with the declared size and, together with the frames refused before it in its session, the wanted name; without such frames its own name is the wanted one |
| `YmodemAnswers.LineReceipts` | demos/ascend310b/bsp/ymodem.c:62-91 | Timeout, EOT, CAN CAN, CAN and another byte, the two user aborts and any other byte, each by its byte values |
| `YmodemAnswers.PacketOnLine` | demos/ascend310b/bsp/ymodem.c:92-98 | Kind, number, complement, 128 or 1024 data bytes and the CRC, high byte first, are the bytes of the line in that order |
| `YmodemAnswers.PacketVerdict` | demos/ascend310b/bsp/ymodem.c:167-184 | Complement, CRC and sequence are checked in this order, a packet that fails changes nothing, and one that passes is a control frame exactly in an idle session at sequence 0 |
| `YmodemAnswers.FailureAnswers` | demos/ascend310b/bsp/ymodem.c:193-225 | NAK out of order, ACK for the sender's abort, CAN CAN for a user's or a callback's, otherwise C, or CAN CAN at the sixth failure of a file; and which of them end the call |
| `YmodemAnswers.SuccessAnswers` | demos/ascend310b/bsp/ymodem.c:101-166 | ACK and C after an end of file and an announced file, ACK after a data packet and the last control frame |
| `YmodemAnswers.ScanReads` | demos/ascend310b/bsp/ymodem.c:121-124 | The size is white space, a sign or none and decimal digits; without digits there is none, and a minus sign negates in 64 bits |
| `YmodemReceiver.Receiver.Write` | demos/ascend310b/bsp/emmc.c:13-21 | The copy loop stores the bytes behind those already there |
| `YmodemTheorems.ControlKeeps` | demos/ascend310b/bsp/ymodem.c:101-133 | A control frame opens a file with nothing accepted yet, ends the session if empty, or leaves an idle session idle with sequence 0 and size 0 |
| `YmodemTheorems.CountersStartEqual` | demos/ascend310b/bsp/ymodem.c:118-128 | The three counters agree at the start of a file if and only if the size text has no minus sign |
| `YmodemRoundTrip.NegativeSizeAccepted` | demos/ascend310b/bsp/ymodem.c:118-128 | The size -1 for the wanted file is accepted, and the session then counts 2^32 - 1 bytes of which the sink holds none |
| `YmodemTheorems.DataKeeps` | demos/ascend310b/bsp/ymodem.c:135-151 | An accepted data packet keeps the three counters equal and the sink equal to the accepted payloads cut to the declared size, and clears the error count |
| `YmodemTheorems.HandleKeeps` | demos/ascend310b/bsp/ymodem.c:153-225 | Every packet or failure keeps the invariant: sequence k mod 256, at most five counted errors, idle sessions at sequence 0 and size 0 |
| `YmodemTheorems.EndAcknowledged` | demos/ascend310b/bsp/file_transfer.c:45-58 | The end of a file is acknowledged only when the sink holds exactly the declared number of bytes, and they are the accepted payloads |
| `YmodemTheorems.ReceiveKeeps` | demos/ascend310b/bsp/ymodem.c:240-249 | For every stream the invariant holds whenever the receiver waits |
| `YmodemTheorems.ErrorsAreFailures` | demos/ascend310b/bsp/ymodem.c:193-225 | Through every stream the counter of a file in progress is the number of counted failures since the last accepted packet |
| `YmodemTheorems.FiveFailuresTolerated` | demos/ascend310b/bsp/ymodem.c:212-223 | That number is at most five while the receiver waits, and a call that gives up over such a failure does so at the sixth |
| `YmodemTheorems.SuccessMeansComplete` | demos/ascend310b/bsp/ymodem.c:227-253 | OK is returned only with the last announced file complete in the sink |
| `YmodemTheorems.SuccessNeedsEmptyControl` | demos/ascend310b/bsp/ymodem.c:227-253 | OK is returned only if the stream held a valid empty control frame |
| `YmodemTheorems.AcceptedFromStream` | demos/ascend310b/bsp/ymodem.c:240-249 | The accepted packets of the current file are receipts of the stream, at increasing places that do not overlap |
| `YmodemTheorems.SuccessFromStream` | demos/ascend310b/bsp/ymodem.c:227-253 | After OK the sink holds the payloads of packets received from the stream, in its order, cut to the declared size |
| `YmodemRoundTrip.FileRoundTrip` | demos/ascend310b/bsp/ymodem.c:227-253 | Any transmission that follows the protocol, with any mix of packet sizes, is received with OK and leaves exactly the file in the sink |
| `Rtt.Ring.GetAvailWriteSpace` | demos/m4/bsp/rtt_viewer.c:131-141 | Against a host that moves between the two looks at its index, the result is the free space at the second look if and only if the index did not pass the wrap in between; otherwise it is larger than the ring |
| `Rtt.Ring.WriteSome` | demos/m4/bsp/rtt_viewer.c:241-252 | Against a host that moves before, between and after the looks, skip appends all or nothing and trim the first min(free, n) whenever the looks were not torn or the data fits; a torn look with too much data leaves only the end of the data in the ring |
| `Rtt.TornSkip` | demos/m4/bsp/rtt_viewer.c:131-141 | A ring of 1024 bytes, a host that passes the wrap, and a skipping write of 1000 bytes into 523 free ones |
| `Rtt.QueueOverrun` | demos/m4/bsp/rtt_viewer.c:146-174 | More data than fits replaces the queue by the end of the data |
| `Rtt.QueueAppend` | demos/m4/bsp/rtt_viewer.c:146-174 | Bytes stored behind the write index become the back of the queue when the index moves past them, wrap included |
| `Rtt.QueueHidden` | demos/m4/bsp/rtt_viewer.c:197-207 | Until then they are invisible and disturb nothing |
| `Rtt.Ring.RingBufferPush` | demos/m4/bsp/rtt_viewer.c:146-174 | Appends all bytes that fit, in one or two pieces, while the host reads on; more than fits leaves exactly the end of the data |
| `Rtt.Ring.RingBufferBlockPush` | demos/m4/bsp/rtt_viewer.c:179-212 | Against a host that takes bytes before and after each look at the index and between copy and publication, what the host took followed by the queue is the old queue followed by the bytes written; with a host that keeps taking, all are written |
| `Rtt.Viewer.RttViewerWrite` | demos/m4/bsp/rtt_viewer.c:218-264 | Refuses exactly the bad arguments; against a moving host skip appends all or nothing and trim the first min(free, n) unless the looks at its index were torn and the data does not fit, and block appends a prefix that becomes the whole |
| `Rtt.AcceptedIs` | demos/m4/bsp/rtt_viewer.c:240-257 | Mode 0 takes all or, if it does not fit, nothing; mode 1 all or as much of the front as fits; an unknown mode nothing |
| `Rtt.Ring.ReadTail` | demos/m4/bsp/rtt_viewer.c:332-342 | Behind the wrap it takes min(available, wanted), although the subtraction of indices may wrap around |
| `Rtt.Viewer.RttViewerRead` | demos/m4/bsp/rtt_viewer.c:289-351 | Returns exactly the first min(available, n) bytes and removes them, and the error values on bad arguments |
| `I2c.Controller.TransferMsg` | demos/ascend310b/bsp/i2c_1911_transfer.c:50-99 | One interrupt writes the next words and at most its budget; past the last message all words are out and the interrupt is off; NULL buffers give the error; and for every budget and every sequence of FIFO answers it returns if and only if the budget covers all up to the end or a NULL buffer, or some answer is full while a budget that is not negative is spent |
| `I2c.FirstPollDecides` | demos/ascend310b/bsp/i2c_1911_transfer.c:90-92 | With a FIFO that only drains and words left over, the call returns if and only if the first poll after the budget is spent finds it full |
| `I2c.NeverReturns` | demos/ascend310b/bsp/i2c_1911_transfer.c:60-93 | With words left over it never returns on a FIFO that is never full, nor with a negative budget |
| `I2c.AllFullReturns` | demos/ascend310b/bsp/i2c_1911_transfer.c:90-92 | With a budget that is not negative and a FIFO full at every poll it returns |
| `I2c.DrainedFifoWaits` | demos/ascend310b/bsp/i2c_1911_transfer.c:90-92 | A message of two bytes, a budget of one and a FIFO that drains at once: it never returns |
| `I2c.Controller.WriteMessage` | demos/ascend310b/bsp/i2c_1911_transfer.c:72-83 | The inner loop sends the rest of the message or the rest of the budget, each word with the flags of its place |
| `I2c.Controller.Interrupts` | demos/ascend310b/bsp/i2c_1911_transfer.c:181-211 | Over any series of interrupts the words are a prefix of the flattened messages, the whole when the last is passed, and grow with every interrupt that has room |
| `I2c.SentPrefix` | demos/ascend310b/bsp/i2c_1911_transfer.c:50-99 | What is out at any position is a prefix of the flattened messages |
| `I2c.FlatAt` | demos/ascend310b/bsp/i2c_1911_transfer.c:76-78 | Byte j of message i, with the direction of its message, is where the lengths before it put it |
| `I2c.StopExactlyLast` | demos/ascend310b/bsp/i2c_1911_transfer.c:73-75 | STOP is on the very last word only, and there exactly when the last message is not empty |
| `I2c.RestartExactlyFirst` | demos/ascend310b/bsp/i2c_1911_transfer.c:68-70 | RESTART is exactly on the first byte of each later message that has one |
| `Spi.SpiDataConvert` | demos/ascend310b/bsp/spi_1911_transfer.c:21-67 | The shift loop reverses the low bits of a word |
| `Spi.ReverseBits` | demos/ascend310b/bsp/spi_1911_transfer.c:21-67 | Bit i of the result is bit width - 1 - i of the word |
| `Spi.ReverseInvolution` | demos/ascend310b/bsp/spi_1911_transfer.c:21-67 | Reversing twice gives the word back |
| `Spi.LineBack` | demos/ascend310b/bsp/spi_1911_transfer.c:82-95 | What receiving makes of a sent word is the word, in either bit order |
| `Spi.Device.SpiRxProc` | demos/ascend310b/bsp/spi_1911_transfer.c:69-100 | Keeps conservation while the line moves; at most the FIFO depth of words is taken, and with nothing left to arrive everything that was sent |
| `Spi.Device.SpiTxProc` | demos/ascend310b/bsp/spi_1911_transfer.c:102-134 | Keeps conservation while the line moves; at most the FIFO depth of words is sent, at least one when there is one and there is room; and bit i of each word in flight is bit i of its buffer word, or bit width - 1 - i when the lowest bit goes first |
| `Spi.Device.SendOne` | demos/ascend310b/bsp/spi_1911_transfer.c:113-132 | The word put into the FIFO carries the bits of the next buffer word, mirrored if and only if the lowest bit goes first |
| `Spi.Device.SpiIrqHandler` | demos/ascend310b/bsp/spi_1911_transfer.c:135-170 | The device stays enabled if and only if there was no overflow and words are left to receive; an overflow flushes the receive FIFO; unless a word was dropped, words sent are words received plus words in the FIFOs |
| `Spi.Device.Run` | demos/ascend310b/bsp/spi_1911_transfer.c:135-170 | Over every run without a drop the receive buffer is a prefix of the transmit buffer, whole when the device is disabled; no drop happens when the FIFO is as deep as the transfer; eager runs end |
| `Mqtt.MqttEncodeRemaining` | testsuites/iot-ota-test/host_iot_ota_server.py:195-205 | The loop writes the base-128 digits, low first, with the continuation bit on all but the last |
| `Mqtt.RemainingRoundTrip` | testsuites/iot-ota-test/host_iot_ota_server.py:195-219 | Every natural number reads back, whatever follows it |
| `Mqtt.RemainingShortest` | testsuites/iot-ota-test/host_iot_ota_server.py:195-205 | The encoding is the shortest: continuation bits on all bytes but the last, which is not zero unless it is the only one |
| `Mqtt.RemainingPrefixFree` | testsuites/iot-ota-test/host_iot_ota_server.py:195-219 | Equal streams carry equal lengths and equal rests, so no encoding is a prefix of another |
| `Mqtt.PacketRoundTrip` | testsuites/iot-ota-test/host_iot_ota_server.py:208-223 | A packet that can be sent reads back with its payload, and with its type if and only if its flags stay out of the type's bits |
| `Mqtt.FlagsChangeType` | testsuites/iot-ota-test/host_iot_ota_server.py:222-223 | Flags of 0x20 turn type 1 into type 3 |
| `Mqtt.Connection.ReadFull` | testsuites/iot-ota-test/host_iot_ota_server.py:113-120 | However recv cuts the stream it returns the next size bytes, or fails exactly when fewer are left |
| `Mqtt.Connection.MqttReadPacket` | testsuites/iot-ota-test/host_iot_ota_server.py:208-219 | Reads what the packet function reads from the stream and leaves the rest |
| `Mqtt.Connection.ReadPackets` | testsuites/iot-ota-test/host_iot_ota_server.py:208-223 | For every list of packets and every fragmentation, exactly the packets sent are read |
| `Coap.CoapParseOptions` | testsuites/iot-ota-test/host_iot_ota_server.py:737-762 | The position loop parses what the recursive parser parses, errors included; DatagramReads and HeadFails say what that is |
| `CoapCodec.DatagramReads` | testsuites/iot-ota-test/host_iot_ota_server.py:737-762 | Every list of options that section 3.1 of RFC 7252 can express, with deltas and lengths up to 65804 in all three forms, behind any token and before the marker or the end, reads back exactly |
| `CoapCodec.HeadFails` | testsuites/iot-ota-test/host_iot_ota_server.py:743-756 | The parser runs off the end if and only if extension bytes of an option are cut off |
| `CoapCodec.HeaderReads` | testsuites/iot-ota-test/host_iot_ota_server.py:733-734 | A request starts with 0x40 and the code, and its message id reads back modulo 2^16 |
| `Coap.CoapAddUriPath` | testsuites/iot-ota-test/host_iot_ota_server.py:793-800 | Appends one option per path segment, or fails exactly on a non-ASCII or over-long segment |
| `Coap.SplitJoins` | testsuites/iot-ota-test/host_iot_ota_server.py:795 | The segments joined by slashes are the path, and no segment holds a slash |
| `Coap.CoapSendRequest` | testsuites/iot-ota-test/host_iot_ota_server.py:803-810 | The datagram is header, path options, and format option, marker and payload exactly when there is a payload |
| `CoapTheorems.RequestReadsBack` | testsuites/iot-ota-test/host_iot_ota_server.py:737-762 | The datagram parses to the segments in order as option 11 and option 12 with value 0 exactly when a payload is present, if and only if every segment has at most 12 or exactly 15 bytes |
| `CoapTheorems.ThirteenMisread` | testsuites/iot-ota-test/host_iot_ota_server.py:737-762 | A single segment of 13 bytes parses to something else |
| `CoapTheorems.PayloadReadsBack` | testsuites/iot-ota-test/host_iot_ota_server.py:727-730 | For every encodable path the payload, marker bytes inside it included, is found if and only if no byte of the header and no option byte of the path is a marker |
| `CoapTheorems.MarkerLengths` | testsuites/iot-ota-test/host_iot_ota_server.py:795-799 | The option byte is a marker exactly for a first segment whose length has all bits of 0x4F, or a later one of 255 bytes |
| `CoapTheorems.PlainPayloadReadsBack` | testsuites/iot-ota-test/host_iot_ota_server.py:727-730 | On a path that reads back, the header alone decides |
| `CoapTheorems.LongSegmentLosesPayload` | testsuites/iot-ota-test/host_iot_ota_server.py:727-730 | A first segment of 79 bytes loses the payload with no marker in the header |
| `Timer.LowTells` | demos/d9_secure/src/timer.c:35-47 | The low half went down if and only if the high half changed |
| `Timer.SlowReadTears` | demos/d9_secure/src/timer.c:35-47 | If the counter moves on by 2^32 or more and the low half does not go down, the loop ends, and its value is wrong if and only if the high half was read before it last changed |
| `Timer.NoSecondWrap` | demos/d9_secure/src/timer.c:35-47 | With gaps below 2^31 two turns in a row cannot both see a wrap |
| `Timer.PRT_ClkGetCycleCount64` | demos/d9_secure/src/timer.c:35-47 | The value returned is the counter's exact value at the last low read, and with gaps below 2^31 there is at most one retry |

## Left out

- Mmu.PageTables.SetupPgTables: asks that regions end below 2^48, that physical addresses are 4 KB aligned with attributes in the attribute fields, and that the table memory is aligned to a table; the source checks none of these.
- Mmu.PageTables.SetupPgTables: says nothing of addresses with bit 55 set; the source loads TTBR1 with the same table and leaves T1SZ at 0, for which the architecture does not fix the translation.
- Mmu.PageTables.SetupPgTables: writes no TTBR, TCR or MAIR; barriers, cache and TLB maintenance and SCTLR are not modelled.
- MmuPool.RegionTable.MmuRequest: does not rebuild the tables, as the source leaves that to mmu_update.
- Shm.DeliveredExactlyWhen: interrupt sends succeed and receive buffers are large enough; the data type tag, the error returns of shm_read and a failed exclusive store in change_type, which its callers ignore, are not modelled, and shared words are sequentially consistent.
- Shm.RunsEnd: together with NotStuck and NeverOverwritten it is about messages that can be copied and counted; what follows a miscounted message is only that it stays incomplete.
- Kunpeng.KunpengTails: the memory addresses are those without OS_OPTION_RSC_TABLE.
- Shm.ReceivedInOrder: the channel is a step machine over values, because both sides run at once; it does not model it as two objects updated in place.
- ItsDriver.Driver.SetupDeviceTable: allocation of translation tables succeeds and gives aligned addresses of tables that do not overlap, which by TableFits needs the size not to wrap; the linked list of devices is a sequence.
- ItsDriver.Driver.HardwareReads: the wait for the ITS to catch up always ends.
- Rtt.Ring.WriteSome: does not say what a host that reads on during an overrunning copy finds.
- Rtt.Ring.RingBufferBlockPush: the host moves before and after each look at its index and between copy and publication, not in the middle of a copy; the source waits for ever without a host, the model stops when its schedule ends.
- Rtt.Viewer.RttViewerWrite: the control block has the one channel each way that the header configures.
- I2c.Controller.TransferMsg: the answers of TxFifoFull are a finite sequence, and running out of them stands for a call that has not returned.
- Spi.Device.Run: buffers are words of 8, 16 or 32 bits and not bytes, so byte order and other word sizes are not modelled.
- Coap.CoapSendRequest: the code fits a byte and the message id is not negative.
- Timer.PRT_ClkGetCycleCount64: the counter does not pass 2^64.
- YmodemRoundTrip.FileRoundTrip: file sizes below 10^9, the most the nine-character size field holds.
- I2cReadRxfifo and the I2C timing computation: the receive side advances on the transmit index, so no clean property of it follows.
- The other copies of mmu.c (ascend310b, atlasa1, e2000q, hi3093, hi3095, kp920_lite): the same algorithm with other region tables; hi3093 lacks the skip of unused regions and saves the TCR value.
- ITS table and register allocation, LPI property and pending tables, and the range check of interrupt numbers: device access.
- Mailboxes, spin locks, boot tables, UART and interrupt set-up, memory dispatch, and the rest of the host server: plumbing or clients of code outside the repository.
