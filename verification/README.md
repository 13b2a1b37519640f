# Verified model of the SAT accelerator and of the lwIP core it runs on

This project models, in Dafny, the parts of the ECP5 Ethernet system-on-chip that compute something:
the SAT accelerator from the host's encoder to the clocked search circuit and back, and four pieces of
the bundled lwIP stack that the firmware is built on (heap, packet buffers, Internet checksum, timer
list). `dafny verify dfyconfig.toml` checks everything.

| file | models |
|---|---|
| `Machine.dfy` | machine integers and `Option` |
| `SatFormula.dfy` | build sizes, CNF formulas and what it means to satisfy them |
| `SatHardware.dfy` | `soc/sat_slave.py` and `soc/sat_solver.py` as one circuit with a clock step |
| `SatProtocol.dfy` | the byte protocol, as functions of the bytes, and why the answer is right |
| `SatFirmware.dfy` | `firmware-tcp/sat_tcp.c` as bus transactions on that circuit, and `host/sat_host.py` |
| `HeapLayout.dfy` | the heap of `mem.c` as a sequence of blocks, and runs of calls on it |
| `Heap.dfy` | `mem.c` itself: `next`/`prev`/`used` headers by offset, and `lfree` |
| `PbufStore.dfy` | packet buffers as a store of nodes: counters, chains, bytes |
| `Pbuf.dfy` | `pbuf.c`: alloc, free, ref, cat, chain, dechain, realloc, free_header |
| `PbufBytes.dfy` | `pbuf.c`: skip, get_at, memcmp, memfind, take, take_at, copy_partial, copy_partial_pbuf |
| `PbufRuns.dfy` | runs of the pbuf operations by an arbitrary client |
| `PbufCases.dfy` | runs from a fresh pool that reach the surprising cases listed below |
| `PbufClients.dfy` | checksums and the receive callback on chains in the pool |
| `Checksum.dfy` | `inet_chksum.c` against the sum of section 1 of RFC 1071 |
| `Timeouts.dfy` | `timeouts.c` under a wrapping 32-bit clock, and this port's own clock |

How the models are set up:

- Build sizes are constants without a value (`SatFormula.BUILD`, `HeapLayout.MEM_SIZE`), so the theorems
  hold for every build that fits, not only for the one in the repository. The slave's register map gives
  a variable four bits, so a build has at most 15 variables.
- The circuit is a function from one clock to the next. The CPU is a bus master that issues classic
  single cycles (chapter 3 of the Wishbone B4 specification) with any number of idle clocks in front of
  each one.
- The heap class keeps the three header arrays of the C code; a ghost block sequence says what they
  mean. Every method is tied to a function on that sequence, and runs of calls are runs of that function.
- A pbuf's payload pointer and length are one field, the bytes visible through them. Ghost state counts
  the handles that callers hold. `PbufPool.Valid`, kept by every operation and so true after every run,
  says that each counter is the number of handles and `next` pointers, that none of them dangles, and that
  no chain runs in a circle.
- Total lengths are no part of that invariant: the code lets them go stale, and every operation is modelled on
  stale totals too, with the exact condition under which one of its assertions fails. What it does to right
  totals is stated beside that.
- Where `ids` is a ghost argument, it is the chain that starts at the given pbuf.
- Timers carry their true, unwrapped due time as ghost state, so that "sorted" and "due" mean what they say.
- A failed `LWIP_ASSERT` loops forever in this port (`firmware-tcp/arch/cc.h:37`); the models return
  `Halted` there.

## What the proofs found

Each failure has its exact condition in the named contract, and a run that reaches it.

- The comment at `firmware-tcp/sys_arch.c:25-26` calls the wrap-around of `sys_now` harmless. It is not:
  the clock is a 32-bit tick count divided by 50000, so it wraps at 85899 ms instead of 2^32 ms, and a timeout
  set to fall due behind the wrap never expires. `Timeouts.PortTimeoutLost` says exactly which ones these are.
- `mem_trim` halts on its assertion at `firmware-tcp/lwip/src/core/mem.c:790` when the block is the last one
  in the heap and enough would be cut off to make a new block (`Heap.Heap.Trim`, `Heap.TrimOfLastBlockHalts`).
- `mem_free` does not ignore an illegal pointer on this port, as its statistics and returns suggest: the default of
  `LWIP_MEM_ILLEGAL_FREE` is a failed assertion, so a double free or a stray pointer halts (`Heap.Heap.Free`,
  `Heap.DoubleFreeHalts`, `Heap.FreeTwice`).
- `pbuf_free_header` of a chain whose head is shared leaves the head with the total of the chain it was cut
  from. `pbuf_cat` to such a pbuf halts on its assertion, and so may `pbuf_dechain` and `pbuf_realloc`
  (`Pbuf.PbufPool.Cat`, `Pbuf.PbufPool.Dechain`, `Pbuf.PbufPool.Realloc`, `PbufCases.StaleTotalHalts`). On
  chains with right totals none of them halts (`Pbuf.RightTotalsReturn`).
- `pbuf_cat` adds total lengths in 16 bits, so right totals stay right exactly when the sum fits
  (`Pbuf.PbufPool.Cat`, `PbufCases.CatTotalsWrap`).
- `pbuf_dechain` counts released pbufs in eight bits. When a positive multiple of 256 of them goes away it
  returns a pointer to a released pbuf (`Pbuf.PbufPool.Dechain`, `PbufCases.DechainDangles`). That takes a
  chain of more than 256 pbufs, which the pools of this firmware (`firmware-tcp/lwipopts.h`) do not have.
- `pbuf_copy_partial_pbuf` promises to copy to any offset that leaves enough room, but it halts when
  the offset lies behind the first target pbuf. It also reports a packet queue for a chain whose bytes end
  before its last pbuf (`PbufBytes.CopyPartialPbuf`, `PbufCases.CopyBehindFirstHalts`,
  `PbufBytes.TrailingEmptyRejected`).
- `pbuf_memcmp` returns 0xFFFF both for a chain that is too short and for a first difference at index
  65534; with less than 0xFFFF bytes to compare it is unambiguous (`PbufBytes.Memcmp`,
  `PbufCases.MemcmpAmbiguous`).

## Model

| member | source | states |
|---|---|---|
| SatHardware.SearchStep | soc/sat_solver.py:94-119 | one clock of the search FSM takes the state predicted for cycle k to the one for cycle k + 1, for every loaded formula: running up to the least model or the last assignment, then holding the result |
| SatHardware.SearchInvariant | soc/sat_solver.py:67-119 | while the search runs, every assignment below the counter falsifies the formula; each clock either ends it with the right verdict on the current assignment or brings the counter nearer to its maximum |
| SatHardware.SearchRun | soc/sat_slave.py:59-98 | over any run of clocks without a write, with any reads in it, the formula registers are constant and the search advances by one cycle a clock |
| SatHardware.NoStaleResult | soc/sat_slave.py:59-96 | from any bus-idle state, even during another search: after CTRL is written with 1, bit 0 of address 0 is read as 1 exactly when the search of the formula now loaded is over, after model + 1 cycles with the least model or after 2^n cycles when none of the assignments satisfies it; bit 1 is then the verdict, address 3 the model and address 4 exactly the number of cycles, which never wraps |
| SatHardware.ResultAt | soc/sat_slave.py:87-96 | k cycles into a search, what the read addresses show: done exactly from the last cycle on, then the verdict, the least model and the number of cycles |
| SatHardware.Restart | soc/sat_slave.py:59-78 | a write of 1 to CTRL starts the search from its first cycle, whatever the solver was doing |
| SatHardware.Search | soc/sat_solver.py:81-119 | the result is the least satisfying assignment in the range, or there is none in the range |
| SatHardware.BitValue | soc/sat_solver.py:67-76 | the bit that a literal looks at is that of the assignment shifted right by the variable index |
| SatHardware.Duration | soc/sat_solver.py:103-119 | a search takes at least one and at most 2^n cycles |
| SatHardware.MaxAssignExact | soc/sat_solver.py:91-92 | the truncated `(1 << n_vars) - 1` is 2^n - 1 for every variable count up to the maximum |
| SatHardware.SlotsApart | soc/sat_slave.py:52-57 | different literal positions have different registers |
| SatHardware.QuietWrite | soc/sat_slave.py:63-85 | a classic write cycle after any number of idle clocks changes the addressed formula register once and nothing else: address 1 the variable count in 4 bits, 2 the clause count in 5, 8 + i literal register i in 6, and no other |
| SatHardware.StartWrite | soc/sat_slave.py:59-78 | a classic write of 1 to CTRL starts one search of the loaded formula, and `start` is low again when the cycle ends |
| SatHardware.SearchingRead | soc/sat_slave.py:63-96 | a read cycle is acknowledged once, sees the search as many cycles on as clocks passed, and changes no register |
| SatProtocol.LitRoundTrip | firmware-tcp/sat_tcp.c:127-131 | the word stored for an encoded literal is used bit, sign and 0-based index; no literal byte is the terminator or the end marker |
| SatProtocol.LitWordBits | firmware-tcp/sat_tcp.c:127-131 | for every byte: bits 3-0 of the word are those of the 8-bit index, bit 4 is set by the sign or by the index, bit 5 always, and bits 7-6 are those of the index |
| SatProtocol.ParseAt | firmware-tcp/sat_tcp.c:118-134 | for any bytes: with the bytes split into clauses at 0x00, up to 0xFF, each literal slot holds the byte in its place of its clause, surplus literals and clauses are ignored, and every other slot keeps its value |
| SatProtocol.ParsedRegisters | firmware-tcp/sat_tcp.c:103-138 | any accepted packet: the counts are its second and third byte, literal register c * CLAUSE_LEN + l holds the l-th byte of its c-th clause, and all others are zero |
| SatProtocol.EncodeParse | firmware-tcp/sat_tcp.c:105-138 | round trip: the firmware accepts every encoded well-formed formula and loads each literal into its slot, with every other literal register unused |
| SatProtocol.EncodeRegisters | firmware-tcp/sat_tcp.c:62-63 | the same by register number and bits: register c * CLAUSE_LEN + l holds 32, plus 16 if negated, plus the 0-based variable of literal l of clause c, and zero where there is none |
| SatProtocol.EncodeGroups | host/sat_host.py:40-50 | the encoded clauses, split at 0x00 up to 0xFF, are the clauses of the formula, with v for a literal of variable v and 128 + v for its negation |
| SatProtocol.EncodeFits | firmware-tcp/sat_tcp.c:89-100 | an encoded well-formed formula is never cut off by the 512-byte buffer |
| SatProtocol.DecodeResponse | host/sat_host.py:53-66 | round trip: the host reads the whole response and recovers the verdict and the value of exactly the variables 1 to n, whether the connection is then closed or silent |
| SatProtocol.ResponseBytes | firmware-tcp/sat_tcp.c:150-163 | a SAT response is 0x01, then for each variable i its number, with 128 added where bit i - 1 of the model is set, then 0xFF |
| SatProtocol.CircuitAgrees | soc/sat_solver.py:67-89 | on the registers loaded for a formula, the clause circuit accepts an assignment number exactly when its bits satisfy the formula |
| SatProtocol.NumberBits | soc/sat_solver.py:74 | every assignment is the bits of a counter value below 2^n, so the search misses none |
| SatProtocol.ReplyIsRight | host/sat_host.py:79-103 | what the host makes of the reply to an encoded formula is SAT with an assignment that satisfies every clause if there is one, and UNSAT if there is none |
| SatFirmware.SatBus.Access | soc/sat_slave.py:63-96 | a bus access run clock by clock ends in the state and with the data of one transaction |
| SatFirmware.Flatten | firmware-tcp/sat_tcp.c:89-100 | the buffer holds the first 512 bytes of the chain, however it is split |
| SatFirmware.ClearLiterals | firmware-tcp/sat_tcp.c:114-116 | every literal register is zero afterwards, and bus and search are at rest |
| SatFirmware.ParseLiterals | firmware-tcp/sat_tcp.c:118-134 | the bus writes leave in the literal registers what the packet's bytes stand for, for any bytes |
| SatFirmware.PollResult | firmware-tcp/sat_tcp.c:141-148 | polling ends, under any bus timing, and status and model read afterwards are the verdict on the loaded formula |
| SatFirmware.BuildResponse | firmware-tcp/sat_tcp.c:150-163 | the response fits the local buffer and is 0x00 0xFF for UNSAT, and for SAT 0x01, the n variable numbers with 128 added where true, and 0xFF |
| SatFirmware.SatRecv | firmware-tcp/sat_tcp.c:75-172 | there is a reply exactly when at least 4 bytes arrived, the first is 0xAA, the second in 1..MAX_VARS and the third in 1..MAX_CLAUSES; it is a function of the first 512 bytes alone; without a reply no register is touched and no bus cycle issued; the device is at rest again |
| SatFirmware.Serve | firmware-tcp/sat_tcp.c:75-172 | request isolation: over any sequence of packets, good or bad, each reply is the one its own packet determines, and there is one exactly for packets with such a header |
| SatFirmware.EncodePacket | host/sat_host.py:38-50 | 0xAA, the two sizes in a byte each, the clauses and 0xFF; for a well-formed formula the bytes, split at 0x00, are its literals, clause by clause |
| SatFirmware.DecodeResult | host/sat_host.py:53-66 | for any bytes: TIMEOUT exactly for none, UNSAT exactly for a first byte 0x00, SAT exactly for 0x01, with the dictionary for which the round trip holds |
| SatFirmware.ReceiveExact | host/sat_host.py:69-76 | the next n bytes of the stream, fewer only when the connection closes, and a timeout exactly when it falls silent before |
| SatFirmware.HostRead | host/sat_host.py:92-103 | for any stream, followed by a close or by silence: ERROR exactly for a first byte other than 0x00 and 0x01; TIMEOUT exactly for the empty stream or a silence before the 2 or n + 2 bytes that the first one announces; otherwise UNSAT exactly for 0x00 and SAT exactly for 0x01 |
| SatFirmware.Solve | host/sat_host.py:79-103 | end to end, for any formula, any split into pbufs, any bus timing and any earlier requests: for every well-formed CNF the result is SAT with a satisfying assignment exactly when one exists and UNSAT exactly when none does; up to 255 variables the host times out exactly when a size in the header is out of range; more, which the header cuts off, never give SAT |
| HeapLayout.NeededExact | firmware-tcp/lwip/src/core/mem.c:844-856 | the size adjustment in 16 bits, with its overflow test, refuses exactly the requests whose true size exceeds the heap and is exact on the others |
| HeapLayout.FirstFit | firmware-tcp/lwip/src/core/mem.c:867-890 | the lowest free block with enough room, or there is none |
| HeapLayout.AllocateGood | firmware-tcp/lwip/src/core/mem.c:886-927 | taking a fitting block, split or whole, keeps the heap invariant |
| HeapLayout.AllocateUsed | firmware-tcp/lwip/src/core/mem.c:886-927 | exactly one block becomes used; it is large enough and disjoint from every used block |
| HeapLayout.MallocTakes | firmware-tcp/lwip/src/core/mem.c:886-927 | a malloc adds one used block, at the start of the first fit, with exactly the room needed, or all of the fit when the rest could not be a block; nothing else is taken |
| HeapLayout.ReleaseGood | firmware-tcp/lwip/src/core/mem.c:473-510 | freeing with two-sided merging keeps the invariant, in particular no two free neighbours |
| HeapLayout.ReleaseUsed | firmware-tcp/lwip/src/core/mem.c:616-686 | freeing removes exactly the freed block from the used ones |
| HeapLayout.ShrinkGood | firmware-tcp/lwip/src/core/mem.c:753-810 | trimming keeps the invariant in all of its branches |
| HeapLayout.ShrinkUsed | firmware-tcp/lwip/src/core/mem.c:753-810 | trimming keeps the block's start and all other used blocks, and leaves it exactly the room the size needs, or its own where a used neighbour leaves no place for a new block |
| HeapLayout.TrimLeaves | firmware-tcp/lwip/src/core/mem.c:744-810 | a trim replaces one used block by one at the same start with exactly the room needed when its neighbour is free, less than 20 bytes more when it is used, and touches no other used block |
| HeapLayout.GoodDisjoint | firmware-tcp/lwip/src/core/mem.c:566-607 | in a good heap, blocks lie in order inside the heap without overlap |
| HeapLayout.UsedDetermines | firmware-tcp/lwip/src/core/mem.c:473-510 | the used blocks determine the whole heap: two good heaps with the same used blocks are the same, so what they say about the used blocks says everything |
| HeapLayout.AllocateLowest | firmware-tcp/lwip/src/core/mem.c:931-950 | allocating another block than the lowest free one leaves `lfree` right |
| HeapLayout.ShrinkLowest | firmware-tcp/lwip/src/core/mem.c:754-804 | the `lfree` updates of mem_trim keep it the lowest free block |
| HeapLayout.NoneAbove | firmware-tcp/lwip/src/core/mem.c:870-871 | the early bound of the search loop skips no block that fits |
| HeapLayout.ApplyGood | firmware-tcp/lwip/src/core/mem.c:616-976 | every call keeps the heap invariant |
| HeapLayout.ApplyLive | firmware-tcp/lwip/src/core/mem.c:616-976 | every call changes the set of live blocks as its caller sees it: a new address, one address less, or none |
| HeapLayout.RunGood | firmware-tcp/lwip/src/core/mem.c:566-607 | after every run of malloc, free and trim on the block sequence, the blocks tile the heap, aligned, large enough and without free neighbours, and the live ones are those outstanding |
| HeapLayout.HeapRestored | firmware-tcp/lwip/src/core/mem.c:473-545 | after any run in which every allocated block was freed, in any order, the block sequence is the single free block of mem_init, and its lowest free block is at the start |
| HeapLayout.SizesSum | firmware-tcp/lwip/src/core/mem.c:516-545 | conservation: after any run the block sizes sum to the heap size |
| Heap.Heap.constructor | firmware-tcp/lwip/src/core/mem.c:515-545 | the headers written by mem_init show one free block, and `lfree` is its start |
| Heap.Heap.Malloc | firmware-tcp/lwip/src/core/mem.c:830-976 | complete first fit: starting at `lfree`, the result is the data of the lowest free block that fits, and NULL for a nonzero request only when no free block fits; the used blocks grow by exactly that one, with the room needed, rounded up to 4 and at least 12, or with all of the fit when fewer than 20 bytes would be left; headers and `lfree` show the new layout |
| Heap.Heap.FindFit | firmware-tcp/lwip/src/core/mem.c:867-890 | the search loop from `lfree` with its early bound finds the lowest free block that fits, or there is none |
| Heap.Heap.TakeBlock | firmware-tcp/lwip/src/core/mem.c:891-927 | the header writes for a split or a whole block show the allocated layout |
| Heap.Heap.AdjustLfree | firmware-tcp/lwip/src/core/mem.c:931-950 | the scan ends at the lowest free block or at ram_end |
| Heap.Heap.PlugHoles | firmware-tcp/lwip/src/core/mem.c:473-510 | merging forward and backward relinks the headers to the merged layout and keeps `lfree` the lowest free block |
| Heap.Heap.Free | firmware-tcp/lwip/src/core/mem.c:616-686 | NULL changes nothing; a used block, and nothing else, leaves the used blocks and is merged, and headers, use marks and `lfree` show the new layout; every other pointer (misaligned, out of range, stray, already freed) halts, exactly these, with nothing changed |
| Heap.FreeAccepts | firmware-tcp/lwip/src/core/mem.c:616-660 | the checks of mem_free let a pointer pass exactly when it is the data of a block in use |
| Heap.Heap.Trim | firmware-tcp/lwip/src/core/mem.c:698-820 | NULL exactly when the new size exceeds the heap, halted exactly when the block would grow or the last block would be split; otherwise the block keeps its start and has exactly the room needed when its neighbour is free, or less than 20 bytes more when it is used, no other used block changes, and headers and `lfree` show it |
| Heap.RunCalls | firmware-tcp/lwip/src/core/mem.c:566-607 | over every run of malloc, free of any address and trim of blocks in use, up to the first call that halts (a free of anything but a block in use, or a trim that mem_trim refuses): next and prev links, use marks and `lfree` show the layout of the run; when everything handed out is freed, the heap is as mem_init made it with `lfree` at the start |
| Heap.TrimOfLastBlockHalts | firmware-tcp/lwip/src/core/mem.c:781-790 | from mem_init, allocating the whole heap and trimming it to one byte halts, for every heap of at least 40 bytes |
| Heap.DoubleFreeHalts | firmware-tcp/lwip/src/core/mem.c:616-663 | for every heap and pointer, freeing it twice halts; the first free returns exactly when the pointer is that of a block in use |
| Heap.FreeTwice | firmware-tcp/lwip/src/core/mem.c:648-653 | from mem_init, malloc, free and free again halts at the second free |
| Heap.UsedExactly | firmware-tcp/lwip/src/core/mem.c:616-660 | headers marked as used are exactly those of blocks in use; leftover headers are marked free |
| Heap.CutShows | firmware-tcp/lwip/src/core/mem.c:902-915 | the header writes of a split turn one shown block into two and disturb no other |
| Heap.MergeShows | firmware-tcp/lwip/src/core/mem.c:486-509 | the relinking of a merge turns two shown blocks into one and disturbs no other |
| Heap.LinkValidBlock | firmware-tcp/lwip/src/core/mem.c:550-564 | mem_link_valid holds for every block of a shown layout |
| PbufStore.RefOkRelease | firmware-tcp/lwip/src/core/pbuf.c:745-796 | releasing a pbuf with its last reference leaves every other counter exact when its next pointer becomes the next reference to drop |
| PbufStore.RefOkLink | firmware-tcp/lwip/src/core/pbuf.c:870-874 | setting a next pointer uses up one handle of its target; all counters stay exact |
| PbufStore.RefOkUnlink | firmware-tcp/lwip/src/core/pbuf.c:924-930 | clearing a next pointer turns it into a handle; all counters stay exact |
| PbufStore.DroppedEffect | firmware-tcp/lwip/src/core/pbuf.c:724-800 | dropping a reference releases exactly the unshared head of the chain, takes one off the first shared pbuf and leaves all others alone |
| PbufStore.NoHandlesNoPbufs | firmware-tcp/lwip/src/core/pbuf.c:690-723 | with exact counters, no circles and no handles, nothing is live |
| PbufStore.ChainDistinct | firmware-tcp/lwip/src/core/pbuf.c:690-723 | a chain never visits a pbuf twice |
| PbufStore.TakenDropped | firmware-tcp/lwip/src/core/pbuf.c:243-251 | freeing a partly built chain restores the store from before the allocation |
| PbufStore.PbufsForExact | firmware-tcp/lwip/src/core/pbuf.c:235-270 | the number of pbufs taken is the least that has room for the length |
| PbufStore.KeepIndexExact | firmware-tcp/lwip/src/core/pbuf.c:424-437 | the walk of pbuf_realloc stops at the first pbuf with which there are enough bytes |
| PbufStore.ShortenedEffect | firmware-tcp/lwip/src/core/pbuf.c:424-456 | each pbuf in front of the cut has the difference taken off its total in 16 bits, the one with the cut ends the chain with the bytes up to it, and no other changes |
| PbufStore.HeaderIndexExact | firmware-tcp/lwip/src/core/pbuf.c:670-688 | pbuf_free_header uses up a pbuf only while bytes are left to remove, and stops at the first that has more than that |
| Pbuf.PbufPool.constructor | firmware-tcp/lwip/src/core/pbuf.c:235-243 | the pool starts with all its elements free |
| Pbuf.PbufPool.AllReturned | firmware-tcp/lwip/src/core/pbuf.c:690-723 | after any run, once every handle is given back, every element is free again |
| Pbuf.PbufPool.AllocPool | firmware-tcp/lwip/src/core/pbuf.c:235-272 | fails exactly when the pool is empty or the length exceeds the first capacity plus the further one for each further element, and then nothing has changed; otherwise a fresh chain of exactly as many pbufs as it needs, all but the last filled up, with right totals, one reference each, all else untouched |
| Pbuf.PbufPool.GrowChain | firmware-tcp/lwip/src/core/pbuf.c:241-270 | one round appends a fresh pbuf and keeps chain, totals, counters and the pool's elements |
| Pbuf.PbufPool.PutBack | firmware-tcp/lwip/src/core/pbuf.c:244-251 | the failure path returns every element taken |
| Pbuf.PbufPool.DropRef | firmware-tcp/lwip/src/core/pbuf.c:724-800 | the loop drops one reference in the sense of `Dropped`, returns the number released modulo 256, and keeps every counter exact |
| Pbuf.PbufPool.Free | firmware-tcp/lwip/src/core/pbuf.c:724-800 | one handle less, counters exact, nothing still referenced is released, no element lost |
| Pbuf.PbufPool.Ref | firmware-tcp/lwip/src/core/pbuf.c:828-836 | halts exactly when the 8-bit counter would overflow; otherwise one handle more, counters exact |
| Pbuf.PbufPool.Cat | firmware-tcp/lwip/src/core/pbuf.c:852-875 | for any totals: halts exactly when the last pbuf of the head chain has a total other than its length; otherwise the chains are concatenated, in links and in bytes, and the tail's handle is used up; right totals stay right exactly when the sum fits in 16 bits |
| Pbuf.JoinedEffect | firmware-tcp/lwip/src/core/pbuf.c:862-874 | each pbuf of the head chain has the tail's total added in 16 bits, its last one points to the tail, and nothing else changes |
| Pbuf.PbufPool.ChainTo | firmware-tcp/lwip/src/core/pbuf.c:894-901 | as cat, but the caller keeps the tail's handle, and it also halts when that counter would overflow |
| Pbuf.PbufPool.Dechain | firmware-tcp/lwip/src/core/pbuf.c:911-940 | for any totals: halts exactly when the total of the head is not its length plus the next total; otherwise the head stands alone with its own bytes; the tail is the result when it survives, with bytes and totals as before; the result is a released pbuf exactly when a positive multiple of 256 pbufs was released |
| Pbuf.PbufPool.Realloc | firmware-tcp/lwip/src/core/pbuf.c:401-459 | for any totals: nothing changes for a length that the total does not exceed; otherwise it halts exactly when the chain has fewer bytes than that, or leaves the prefix of the bytes, in as few of the pbufs as hold it, and drops the rest of the chain; right totals stay right |
| Pbuf.PbufPool.FreeHeader | firmware-tcp/lwip/src/core/pbuf.c:670-688 | for any totals: the bytes left are the suffix behind the header and the handle moves to the new head, behind exactly the pbufs that the header uses up; each of these loses its next pointer and a reference, the new head its first bytes, and nothing else changes; right totals stay right |
| Pbuf.RightTotalsReturn | firmware-tcp/lwip/src/core/pbuf.c:852-940 | on a chain with right totals no assertion of cat, dechain or realloc fails |
| PbufRuns.Perform | firmware-tcp/lwip/src/core/pbuf.c:224-940 | each call does to pool and client list what `Stepped` says (fresh chain, reference more or less, joined, detached, shortened, header removed) and to the bytes behind the pointers what `BytesStepped` says, keeps counters exact and the pool complete, and halts exactly under the conditions of its assertions; calls on pbufs that are not live, positions outside the list and appends that would close a circle are not made |
| PbufRuns.DropKeepsBytes | firmware-tcp/lwip/src/core/pbuf.c:724-800 | freeing one pointer changes nothing in the bytes behind any pbuf that stays live |
| PbufRuns.Session | firmware-tcp/lwip/src/core/pbuf.c:224-940 | from any valid pool and over every run of calls, on any live pbufs and on right or stale totals: the states recorded are the start and then, call by call, what each call makes of the one before; each call does to the bytes behind its pointers what it promises (appended, cut to a prefix or a suffix, alone), and an alloc, ref or free changes no byte behind any pbuf that stays; in each state every counter is the number of handles and next pointers, all live, and no element is lost; the run ends early exactly at a call that halts; otherwise, once the client has freed what it holds, every element is back in the pool |
| PbufCases.CatTotalsWrap | firmware-tcp/lwip/src/core/pbuf.c:852-875 | two chains of 32 KiB, concatenated, have wrong totals |
| PbufCases.StaleTotalHalts | firmware-tcp/lwip/src/core/pbuf.c:670-688 | alloc, ref, free_header and then cat to the surviving head halts |
| PbufCases.DechainDangles | firmware-tcp/lwip/src/core/pbuf.c:911-940 | a chain of 256 * n + 1 pbufs, dechained, gives a pointer to a released pbuf |
| PbufCases.CopyBehindFirstHalts | firmware-tcp/lwip/src/core/pbuf.c:1005-1019 | a copy of one byte to the last of three target pbufs halts |
| PbufCases.MemcmpAmbiguous | firmware-tcp/lwip/src/core/pbuf.c:1467-1495 | a chain that is long enough and differs at its last byte is reported like one that is too short |
| PbufClients.InetChksumOf | firmware-tcp/lwip/src/core/inet_chksum.c:567-588 | the checksum of a chain in the pool is that of the bytes of the chain |
| PbufClients.SatRecvFrom | firmware-tcp/sat_tcp.c:75-172 | for a chain in the pool the reply is the one to its first 512 bytes, and the reference handed over is dropped whether it is answered or not |
| PbufBytes.Skip | firmware-tcp/lwip/src/core/pbuf.c:1184-1200 | the pbuf and position that hold the byte at the offset, passing empty pbufs; the end exactly when the offset is not inside the chain |
| PbufBytes.GetAt | firmware-tcp/lwip/src/core/pbuf.c:1404-1433 | the byte of the whole chain at the offset, zero behind the end |
| PbufBytes.Memcmp | firmware-tcp/lwip/src/core/pbuf.c:1467-1495 | 0xFFFF for a chain that is too short, zero exactly when the slice equals the buffer, otherwise one more than the index of the first difference; for less than 0xFFFF bytes, 0xFFFF exactly when the chain is too short |
| PbufBytes.Memfind | firmware-tcp/lwip/src/core/pbuf.c:1509-1523 | first-occurrence search in the flat bytes; 0xFFFF exactly when there is none, for totals up to 0xFFFE |
| PbufBytes.Take | firmware-tcp/lwip/src/core/pbuf.c:1229-1260 | ERR_ARG without a pbuf, ERR_MEM when the chain is too short, otherwise the bytes are the data followed by what was behind it, and nothing else changes |
| PbufBytes.TakeAt | firmware-tcp/lwip/src/core/pbuf.c:1273-1296 | the bytes in front of the offset, the data, and the bytes behind it, exactly when the offset is inside the chain and the data fits behind it; otherwise ERR_MEM and nothing changes |
| PbufBytes.CopyPartial | firmware-tcp/lwip/src/core/pbuf.c:1060-1091 | the smaller of the length and what the chain has from the offset on is copied and returned: the caller's buffer starts with these bytes of the chain and is unchanged behind them |
| PbufBytes.RoundStays | firmware-tcp/lwip/src/core/pbuf.c:1005-1019 | with 32-bit size arithmetic, a round stays inside the target pbuf exactly when it starts inside |
| PbufBytes.CopyRound | firmware-tcp/lwip/src/core/pbuf.c:1013-1031 | one round copies the next bytes to the next place and steps each walk on when its pbuf is used up |
| PbufBytes.CopyPartialPbuf | firmware-tcp/lwip/src/core/pbuf.c:987-1046 | for any two disjoint chains: ERR_ARG exactly when source or target is missing or too short; halted exactly when the offset is behind the first target pbuf; ERR_VAL exactly when a walk rests where only empty pbufs follow; otherwise the target bytes from the offset on are the source prefix and nothing else changes |
| PbufBytes.NonemptyNotRejected | firmware-tcp/lwip/src/core/pbuf.c:1033-1042 | chains without empty pbufs never end in ERR_VAL, whatever their segmentation |
| PbufBytes.TrailingEmptyRejected | firmware-tcp/lwip/test/unit/core/test_pbuf.c:73-108 | a source with an empty pbuf behind its bytes ends in ERR_VAL unless the first round takes all of them |
| PbufBytes.LaterEmptyRejected | firmware-tcp/lwip/src/core/pbuf.c:1033-1042 | an empty last pbuf behind two others, in the source or in the target, ends in ERR_VAL as soon as the copy has used up the first |
| PbufBytes.InFirstNotRejected | firmware-tcp/lwip/src/core/pbuf.c:1033-1042 | a copy that stays inside the first pbuf of both chains succeeds, whatever empty pbufs follow behind the second |
| PbufBytes.WriteThenCopy | firmware-tcp/lwip/src/core/pbuf.c:1273-1296 | round trip: a copy from where data was written finds that data, and copies in front of it or behind it find what was there before |
| Checksum.RfcSumIsOnes | firmware-tcp/lwip/src/core/inet_chksum.c:79-114 | the end-around-carry sum of RFC 1071 is the plain sum of the words with 65535 cast out, zero and 0xFFFF kept apart |
| Checksum.RfcExample | firmware-tcp/lwip/src/core/inet_chksum.c:79-114 | the reference sum gives the value of the numerical example in section 3 of RFC 1071 |
| Checksum.FoldTwice | firmware-tcp/lwip/src/core/inet_chksum.c:162-165 | folding a 32-bit accumulator twice is exactly the one's complement sum |
| Checksum.SwappedSum | firmware-tcp/lwip/src/core/inet_chksum.c:167-170 | swapping the bytes of a sum taken at odd alignment gives the sum itself |
| Checksum.StandardChksum1 | firmware-tcp/lwip/src/core/inet_chksum.c:79-114 | the RFC 1071 sum, for up to 0x20000 bytes, without accumulator overflow |
| Checksum.StandardChksum2 | firmware-tcp/lwip/src/core/inet_chksum.c:132-173 | the same sum, for every start address and up to 0x20000 bytes, without accumulator overflow |
| Checksum.StandardChksum3 | firmware-tcp/lwip/src/core/inet_chksum.c:188-255 | the same sum, for every start address and length, with its end-around carries |
| Checksum.AddCarryKeepsSum | firmware-tcp/lwip/src/core/inet_chksum.c:213-225 | adding with the carry wrapped around loses nothing |
| Checksum.WordSumConcat | firmware-tcp/lwip/src/core/inet_chksum.c:568-588 | the sum over a split buffer is the sum of the parts, the second one byte-shifted if the first is odd |
| Checksum.ChainStepKeepsSum | firmware-tcp/lwip/src/core/inet_chksum.c:575-582 | a step of the chain loop, with its fold, swap and parity flag, keeps the sum of everything still to come |
| Checksum.SumChain | firmware-tcp/lwip/src/core/inet_chksum.c:265-283 | the accumulator after the chain is the sum of the flat bytes, for any mix of segment lengths and addresses |
| Checksum.InetChksum | firmware-tcp/lwip/src/core/inet_chksum.c:554-558 | the complement of the RFC 1071 sum |
| Checksum.InetChksumPbuf | firmware-tcp/lwip/src/core/inet_chksum.c:567-588 | for every chain, exactly the checksum of the flat bytes |
| Checksum.InetChksumPseudo | firmware-tcp/lwip/src/core/inet_chksum.c:259-327 | for every chain, exactly the checksum of the pseudo-header of section 3.1 of RFC 9293 (addresses, zero, protocol, length in network order) followed by the flat bytes |
| Checksum.ChecksumVerifies | firmware-tcp/lwip/src/core/inet_chksum.c:259-327 | exactly which words in the checksum field verify: the computed one, and 0xFFFF where that is zero |
| Checksum.ChecksumRoundTrip | firmware-tcp/lwip/src/core/inet_chksum.c:259-327 | the RFC 1071 sum behind it: a checksum stored in its zeroed even field makes the recomputed one zero, over any resegmentation and any header |
| Checksum.SendAndVerify | firmware-tcp/lwip/src/core/inet_chksum.c:259-327 | inet_chksum_pseudo over a segment with a zeroed even field, stored there, makes inet_chksum_pseudo zero over any split of the stored segment |
| Timeouts.StampOrder | firmware-tcp/lwip/src/core/timeouts.c:70-73 | comparing wrapped stamps is comparing true times while these are within 2^31 of each other |
| Timeouts.InsertSorted | firmware-tcp/lwip/src/core/timeouts.c:179-221 | inserting keeps the list in order of due time, ties in order of insertion |
| Timeouts.InsertMembers | firmware-tcp/lwip/src/core/timeouts.c:179-221 | inserting adds one entry and loses none |
| Timeouts.TimerList.TimeoutAbs | firmware-tcp/lwip/src/core/timeouts.c:179-221 | the list walk inserts behind every entry due no later, across wrap-around; halts exactly when no element is free |
| Timeouts.TimerList.Timeout | firmware-tcp/lwip/src/core/timeouts.c:285-306 | an entry due `msecs` after the clock reading, in its place; halts exactly when the time is too long or no element is free |
| Timeouts.TimerList.Untimeout | firmware-tcp/lwip/src/core/timeouts.c:308-341 | the first entry with that handler and argument is removed, the others stay in order, and nothing changes when none matches |
| Timeouts.TimerList.RestartTimeouts | firmware-tcp/lwip/src/core/timeouts.c:398-420 | the first entry becomes due at the clock reading, every other one at its old distance from it, with handlers and arguments as before |
| Timeouts.RunTimers | firmware-tcp/lwip/src/core/timeouts.c:179-420 | over every run of sys_timeout, sys_untimeout and sys_restart_timeouts, up to the first call that halts, with due times within 2^31 of each other: each call adds one entry due that long after the reading, takes the first match away, or moves the first to the reading with all distances kept, and nothing else; the list is always sorted by true times with ties in order of insertion |
| Timeouts.TimerList.CyclicTimer | firmware-tcp/lwip/src/core/timeouts.c:228-261 | the next due time is one interval after the last one while the reading is not past that, and otherwise one interval after the reading |
| Timeouts.InRhythm | firmware-tcp/lwip/src/core/timeouts.c:228-261 | no drift: when no reading of the call is more than an interval past a pending cyclic timer, everything fired or pending for it is due a whole number of intervals after an entry of its own at the start |
| Timeouts.TimerList.FireHead | firmware-tcp/lwip/src/core/timeouts.c:368-391 | the head is taken off, and a cyclic timer comes back one interval after its due time, or after the reading when that is past |
| Timeouts.FireKeeps | firmware-tcp/lwip/src/core/timeouts.c:351-396 | each firing keeps the order of everything fired and pending, accounts for every timer, and uses up a measure that bounds each cyclic timer to two firings |
| Timeouts.TimerList.CheckTimeouts | firmware-tcp/lwip/src/core/timeouts.c:343-396 | terminates; every entry due at its start fires and every other one stays as it is, cyclic or not, in order of time and insertion, across wrap-around; each handler fires at least once for each of its entries due, at most twice for one due before now and once for one due just now; cyclic timers stay in the list, and each new entry comes from one that fired, one interval after its due time or after a clock reading past that |
| Timeouts.PortTimerExpires | firmware-tcp/sys_arch.c:28-33 | a due stamp is ever reached by this port's clock exactly when it is at most 85899 or above 2^31 |
| Timeouts.PortTimeoutLost | firmware-tcp/sys_arch.c:18-33 | a timeout set with this port's clock never expires exactly when it falls due after 85899 ms |

## Left out

- CopyPartialPbuf: when the call halts, the bytes that the first memcpy writes behind the payload before the assertion are not modelled.
- CopyPartialPbuf: total lengths of both chains are right, as for take, take_at, memcmp and memfind.
- CopyPartialPbuf: source and target share no pbuf, as memcpy demands; different pbufs that point into the same memory are not modelled.
- Realloc: the rest of the chain is freed after its link is cleared, and the heap block of a PBUF_RAM pbuf is not trimmed; the C code frees first, which makes no difference to the result.
- AllocPool: the bytes of a fresh pbuf are unspecified, and header space only enters through the capacity of the first pbuf.
- Free: headers are kept apart from data, so an address inside a block whose data bytes look like a valid used header is not modelled.
- Ref: when the counter overflows, its wrap to zero in front of the assertion is not modelled.
- RunTimers: pending times and a new one lie within 2^31 of each other at each sys_timeout call, as for Timeout.
- Timeout: pending times and the new one lie within 2^31 of each other, which the code's comparison depends on.
- CheckTimeouts: handlers are cyclic timers or leave the list alone, and pending times, intervals and the clock readings of the call stay within 2^31.
- StandardChksum1: longer buffers than 0x20000 bytes, whose accumulator can overflow.
- StandardChksum2: longer buffers than 0x20000 bytes, whose accumulator can overflow.
- Malformed formulas: the firmware's parse is modelled for all bytes, but the end-to-end theorem is for literals of existing variables and clauses that fit.
- Requests that arrive split over several TCP callbacks; the firmware treats each callback as a packet.
- Bus masters other than classic single cycles, byte selects, and addresses outside the slave.
- PBUF_RAM, PBUF_ROM, PBUF_REF and custom pbufs, out-of-sequence reclaim, packet queues, pbuf_coalesce, pbuf_clone, pbuf_put_at and pbuf_get_contiguous: they add cases without a harder property.
- The pool-based and libc-based heap variants, overflow guard bytes, statistics, mutexes and mem_calloc.
- IPv6, partial and copying checksums, and big-endian hosts.
- The TCP timer, sleep time, and handlers that start or stop other timers.
- TCP, IP and Ethernet processing, the echo firmware, LEDs, sockets, DIMACS files, timing measurements and the build scripts.
