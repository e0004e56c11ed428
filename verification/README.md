# Models of the simulation support and RTL under example/

This project models the stateful and algebraic core of the repository and proves what it is built
for. It is self-contained: `dafny verify dfyconfig.toml` checks everything.

## What is modelled

**Instruction cache** (`IcacheTypes`, `FillBuffers`, `AgeMatrix`, `BusOrder`, `Aligner`, `Icache`,
`IcacheInvalidation`, `IcacheStream`, `Runs`, `IcacheRuns`, `IcacheMachine`). One clock edge is a function
from all registers and RAMs to their next values, with the number of fill buffers, ways, sets,
beats and lines as parameters. The outstanding bus requests are a history variable. Assumed of the
environment: a response comes at least one cycle after its grant and in order; branch targets are
addresses. ECC checkers may fire on any lookup and invalidate any ways. The theorems about every
run are in `IcacheRuns`: one-hot arbitration by age, each response credited to its request, no
buffer released early, requests held until granted, no stale lookup after an invalidation request,
and, when an error-free memory answers, exactly the instruction stream of section 1.5 of the RISC-V
Instruction Set Manual Volume I (20191213) from each branch target. The bus invariant behind them
is in `BusOrder`: a recorded fill_ext_done_q never reverts, so only finished buffers lie ahead of
one that is on the bus, so the queue of requests is sorted by buffer age.

**Scrambled RAM** (`ScrambledRam`). The registers, the macro's single port and the scrambling are
stepped per clock; the state is proved to represent a plain memory at all times, whether the last
write is in the array, in flight or parked.

**ELF staging** (`RangedMaps`, `StagedMemory`, `ElfStaging`, `MemAreas`, `DpiMemUtil`). The interval map with merging
agrees with a byte map; registration keeps its maps and vectors consistent; loading an image puts into
every memory the bytes of the last program header covering them.

**Scrambling of simulated memories** (`Bits`, `Sbox`, `ByteVectors`, `SubstPerm`, `ScrambleModel`,
`Prince`, `ScrambleData`, `IntBits`, `EccPacking`, `ScrambledEccMem`, `EccMemCalls`, `ScrambledBackdoor`).
PRINCE inverts by reflection; the substitution/permutation network is a bijection at every width; packing of 39-bit words is the
identity; together they make a memory whose reads return what was written. `ScrambledBackdoor` joins it with the
RTL: both derive the same keystream and places from key and nonce, so what one side stores the other reads. The
S-boxes and the network are shared with the scrambled RAM and PRESENT.

**Codes and ciphers** (`LinearCodes`, `Secded`, `Present`, `OneHot`). Error correction is proved for any
matrix with distinct columns of odd weight and then for the two codes; PRESENT for any pair of
directions that undo each other and then for the cipher; the one-hot trees for every height.

Code that updates state in place is a class or a loop here too, proved against a function, and the
theorems are about that function. Vectors of bits are sequences of booleans, least significant bit
first.

## Where code and documentation differ

- A clash of ranges in `RegisterMemoryArea` is modelled as documented, an error that leaves everything
  unchanged. The assertion at example/dpi_memutil.cc:341 tests the stored index instead of the pointer, so
  where assertions are compiled in it stops the program exactly when the clash is reported with area 0: the
  contract of `DpiMemUtil.MemUtil.RegisterMemoryArea` says when, and `ElfStaging.SameBaseFails` gives an input.
- `GetFlat` with nothing staged computes an unsigned length that wraps to two; the model returns those
  two zero bytes.
- The network's size check at example/scramble_model.cc:139 stops `scramble_subst_perm_full_width` on a
  last chunk with fewer bytes than a whole one. `ScrambleData.SubstPermFullWidth` returns a flag that
  is proved true exactly when every chunk has the byte count of a whole one, both data
  operations pass it on, and `ScrambleData.ShortLastChunk` gives an input for which it is false.
- `prince_shift_rows` shifts by 64 where the other term already holds the whole row; the model clears the word there,
  and leaving it unchanged would give the same result.
- In a scrambled memory whose size is not 2^k with k at least 1, physical addresses may fall outside it.
  The model's accesses stop there, and `ScrambledEccMem.AllAccepted` says exactly when none does.
  `ScrambledEccMem.OneWordMemory` and `ThreeWordMemory` give sizes and nonces for which some do.
- `GetSizeBytes` is a 32-bit product. The registered range is the whole memory exactly up to 2^32 bytes
  (`ElfStaging.RangeIsWholeMemory`); past that it is shorter, and the image reaches the words of that range only.
  Where the product wraps to zero no segment is accepted, although at 2^32 bytes the range is the whole memory.
  `ElfStaging.SizeWrapsToZero` and `SizeWraps` give inputs.

## Model

| member | source | states |
|---|---|---|
| `AgeMatrix.ArbiterPicksOldest` | example/ibex_icache.sv:704-718 | For every request vector over busy buffers, an age-based arbiter selects a buffer if and only if it is the oldest requester; never two; and one whenever anyone requests |
| `AgeMatrix.AgeOrderKept` | example/ibex_icache.sv:586-600 | Every clock edge keeps the age matrix a strict total order on the busy buffers (irreflexive, total, transitive, busy entries only), with an allocation and any number of releases in the same cycle |
| `AgeMatrix.AgeOrderInitially` | example/ibex_icache.sv:747-772 | Out of reset the order holds |
| `AgeMatrix.ArbitersOneHot` | example/ibex_icache.sv:704-718 | The external, response, RAM and output arbiters each select exactly the oldest eligible buffer: at most one, and one whenever one is eligible |
| `Aligner.StepKeepsPlace` | example/ibex_icache.sv:936-1060 | For any word at the cursor: a presented instruction is the one the length encoding cuts at the current address, without error; the address moves past it exactly when it is handed over; the cursor moves by one word exactly when a word is consumed; the skid buffer holds the halfword at the current address; a branch restarts at its target |
| `BusOrder.DoneNeverReverts` | example/ibex_icache.sv:622-641 | A recorded fill_ext_done_q holds in every later cycle while the buffer is busy, whatever the inputs |
| `BusOrder.DoneJustifiedKept` | example/ibex_icache.sv:622-641 | What is recorded as done after an edge is justified by the new register values alone |
| `BusOrder.CreditedBufferExpects` | example/ibex_icache.sv:642-651 | The buffer at the head of the queue of outstanding requests expects the next beat, with the number of that request, and no older buffer expects one |
| `BusOrder.ResponseCreditedToIssuer` | example/ibex_icache.sv:714-718 | A response is credited to buffer f if and only if f issued the oldest outstanding request, and to the line offset that request was for |
| `BusOrder.NoReleaseWhileOutstanding` | example/ibex_icache.sv:593-600 | A buffer that is done has no request outstanding and is not requesting |
| `BusOrder.IssuerUnique` | example/ibex_icache.sv:571-573 | At most one buffer issues in a cycle, speculative requests included |
| `BusOrder.IssuedRequest` | example/ibex_icache.sv:852-905 | The address on the bus is that of the next beat of the issuing buffer, also for a speculative request of a buffer being allocated |
| `BusOrder.RequestHasIssuer` | example/ibex_icache.sv:892-905 | instr_req_o is raised exactly when some buffer issues |
| `BusOrder.OlderFinishedKept` | example/ibex_icache.sv:622-641 | A buffer that has put anything on the bus only has buffers ahead of it whose external requests are done; every edge keeps that |
| `BusOrder.Ic1YoungestKept` | example/ibex_icache.sv:330-358 | While a lookup is in IC1 its buffer is the youngest, untouched one; every edge keeps that |
| `BusOrder.CountersKept` | example/ibex_icache.sv:626-651 | Received beats never exceed requested beats, which never exceed the line; every edge keeps that |
| `BusOrder.BufsInvKept` | example/ibex_icache.sv:573-718 | All fill-buffer invariants are kept by every legal cycle |
| `BusOrder.WindowMoves` | example/ibex_icache.sv:626-651 | How the outstanding window of a buffer moves: one request when it issues and is granted, one response when the oldest request is its own |
| `BusOrder.SurvivorStays` | example/ibex_icache.sv:593-651 | A request that stays outstanding keeps its buffer busy and its number inside that buffer's window |
| `BusOrder.GrantedIsLast` | example/ibex_icache.sv:704-718 | A newly granted request comes after every outstanding one: same buffer with a higher number, or a younger buffer |
| `BusOrder.QueueSortedKept` | example/ibex_icache.sv:642-718 | Outstanding requests stay ordered by the age of their buffer, and by number within a buffer |
| `BusOrder.QueueMatchesKept` | example/ibex_icache.sv:642-718 | The queue stays exactly the set of granted, unanswered requests of the busy buffers, with their addresses |
| `BusOrder.BusInvKept` | example/ibex_icache.sv:566-718 | The whole bus invariant is kept by every legal cycle |
| `BusOrder.RequestHeldUntilGranted` | example/ibex_icache.sv:622-641 | An ungranted request is repeated by the same buffer at the same address in the next cycle, whatever that cycle's inputs |
| `IcacheInvalidation.CorrectionNeverMeetsInvalidation` | example/ibex_icache.sv:262-273 | An ECC correction write never takes the place of an invalidation write |
| `IcacheInvalidation.FillsAreFresh` | example/ibex_icache.sv:610-612 | A line is written to the cache only in IDLE and only by a buffer allocated since the latest invalidation request |
| `IcacheInvalidation.IdleEnteredAllInvalid` | example/ibex_icache.sv:1074-1146 | Whenever the invalidation FSM enters IDLE every tag in every way is invalid |
| `IcacheInvalidation.LookupSeesOnlyFreshLines` | example/ibex_icache.sv:245-260 | A lookup that reads the RAMs is not made in the cycle of an invalidation request, and reads only tags written by buffers allocated since the latest one |
| `IcacheInvalidation.BuffersFreshKept` | example/ibex_icache.sv:608-612 | A busy buffer that will still be cached exists only in IDLE and was allocated since the latest invalidation request |
| `IcacheInvalidation.AllFreshKept` | example/ibex_icache.sv:1074-1146 | In IDLE all valid tags were written by buffers allocated since the latest invalidation request |
| `IcacheInvalidation.InvalInvKept` | example/ibex_icache.sv:1074-1146 | Every clock edge keeps the invalidation invariant |
| `IcacheStream.HitIsMemory` | example/ibex_icache.sv:360-381 | Every way that matches holds the memory's line, so the hit data, however many ways match, is that line |
| `IcacheStream.BeatIsMemory` | example/ibex_icache.sv:714-718 | A response carries the memory word of the beat it is credited to |
| `IcacheStream.OutputIsMemory` | example/ibex_icache.sv:905-934 | When data is valid, the selected word (register, late hit or incoming beat) is the memory word at the output cursor, without error |
| `IcacheStream.FilledLineIsMemory` | example/ibex_icache.sv:676-688 | A line written to the data RAM is the memory's line |
| `IcacheStream.RamsCoherentKept` | example/ibex_icache.sv:262-283 | In IDLE, every valid entry of the cache keeps holding the memory's line |
| `IcacheStream.Ic1CoherentKept` | example/ibex_icache.sv:330-358 | The lookup in IC1 has read the memory's line in every way that matches |
| `IcacheStream.BufferCoherentKept` | example/ibex_icache.sv:804-848 | A busy buffer holds the beats received so far at their places, or the whole line after a hit |
| `IcacheStream.ChainKept` | example/ibex_icache.sv:208-235 | Without a branch, the pending buffers keep covering consecutive lines from the output cursor to the prefetch address |
| `IcacheStream.ChainRestarts` | example/ibex_icache.sv:605-607 | A branch empties the chain and restarts it at the target, granted or not |
| `IcacheStream.GrantIsOutput` | example/ibex_icache.sv:667-674 | The output count of a buffer advances exactly when its word is consumed by the output stage |
| `IcacheStream.AlignStep` | example/ibex_icache.sv:905-967 | The output stage is always fed the memory word at its cursor |
| `IcacheStream.StreamInvKept` | example/ibex_icache.sv:195-1060 | The whole coherence invariant is kept by every cycle in which the memory answers |
| `IcacheRuns.ControlInvariants` | example/ibex_icache.sv:566-718 | Bus and invalidation invariants hold in every state of every run from reset |
| `IcacheRuns.ArbitersOneHotAlways` | example/ibex_icache.sv:579-718 | In every reachable state the age order holds and each of the four arbiters selects the oldest eligible buffer: never two, and one whenever one is eligible |
| `IcacheRuns.EveryResponseCredited` | example/ibex_icache.sv:566-718 | In every run each response is credited to exactly the buffer and line offset that issued the oldest outstanding request |
| `IcacheRuns.QueueIsBusHistory` | example/ibex_icache.sv:892-905 | In every run the queue of outstanding requests is the sequence of addresses granted at instr_addr_o, less one from the front for each response |
| `IcacheRuns.ResponsesAnswerInOrder` | example/ibex_icache.sv:642-718 | In every run response number n goes to exactly the buffer and line offset for which request number n was granted on the bus |
| `IcacheRuns.NeverReleasedEarly` | example/ibex_icache.sv:593-651 | In every run no buffer is released with a response outstanding |
| `IcacheRuns.RequestHeld` | example/ibex_icache.sv:892-905 | In every run, instr_req_o raised without a grant is raised again with the same instr_addr_o in the next cycle, through branches, late hits and disabling |
| `IcacheRuns.LookupsNeverStale` | example/ibex_icache.sv:1074-1146 | In every run: lookups only see lines fetched since the latest invalidation request, IDLE is entered with all tags invalid, and corrections never meet invalidation writes |
| `IcacheRuns.PresentedIsCorrect` | example/ibex_icache.sv:1030-1060 | In every run with an error-free memory, whatever is presented is the instruction of the memory at its address |
| `IcacheRuns.CoreReceivesTheStream` | example/ibex_icache.sv:936-1060 | In every run with an error-free memory, the instructions handed over since the last branch are exactly the first ones of the stream from its target: in order, at the right addresses, none lost or repeated |
| `IcacheMachine.ClockRams` | example/ibex_icache.sv:262-283 | The bank-by-bank RAM writes of an edge produce the specified RAM contents |
| `IcacheMachine.ClockFillBuffers` | example/ibex_icache.sv:573-848 | The buffer-by-buffer register updates of an edge produce the specified next state |
| `IcacheMachine.ICache.constructor` | example/ibex_icache.sv:745-772 | Power-up gives a reset state for any RAM contents |
| `IcacheMachine.ICache.Clock` | example/ibex_icache.sv:195-1160 | One edge updates all registers and RAMs together as the specified step, of which the run theorems speak |
| `ScrambledRam.ScrambleAddrInjective` | example/prim_ram_1p_scr.sv:205-228 | Different addresses have different scrambled addresses |
| `ScrambledRam.DiffuseInverse` | example/prim_ram_1p_scr.sv:295-338 | Inverse diffusion undoes diffusion, for every word and slice width |
| `ScrambledRam.DecryptEncrypt` | example/prim_ram_1p_scr.sv:295-338 | The read path undoes the write path at the same address |
| `ScrambledRam.DiffuseMerge` | example/prim_ram_1p_scr.sv:295-338 | Diffusion commutes with a masked write whose mask is uniform on every slice |
| `ScrambledRam.DecryptMerge` | example/prim_ram_1p_scr.sv:295-338 | A masked write of encrypted data over any stored word reads back as the masked write of the data |
| `ScrambledRam.OutstandingWord` | example/prim_ram_1p_scr.sv:341-370 | The word on the macro's write port is the outstanding data encrypted for its own address, in flight or parked |
| `ScrambledRam.CommitInvisible` | example/prim_ram_1p_scr.sv:182-206 | The outstanding write reaching the array changes nothing a reader could see |
| `ScrambledRam.StepRefinesPlain` | example/prim_ram_1p_scr.sv:127-215 | Each cycle acts on the plain memory as the granted request says, at every address, and on nothing else |
| `ScrambledRam.InvKept` | example/prim_ram_1p_scr.sv:127-215 | Every edge keeps the invariant: never both in flight and parked, the parked word encrypted right, and the response of a read right with forwarding |
| `ScrambledRam.RunInv` | example/prim_ram_1p_scr.sv:127-215 | The invariant holds in every state of every run from reset |
| `ScrambledRam.RunIsPlainMemory` | example/prim_ram_1p_scr.sv:127-397 | In every run the state represents the plain memory after the writes granted so far |
| `ScrambledRam.ReadsReturnLatestWrites` | example/prim_ram_1p_scr.sv:127-397 | In every run, rvalid_o is high exactly one cycle after a granted read, with exactly the bits of all earlier granted masked writes to its address; the in-flight and parked flags are never both set |
| `ScrambledRam.Ram.Clock` | example/prim_ram_1p_scr.sv:408-476 | One edge of the register object is the specified step |
| `ScrambledRam.Ram.MacroCycle` | example/prim_ram_1p_scr.sv:482-500 | The single port serves a read first, else the outstanding write |
| `ScrambledRam.Ram.HoldingRegisters` | example/prim_ram_1p_scr.sv:361-370 | Pending flags and holding registers after an edge; the parked word is captured exactly on a read-write collision |
| `ScrambledRam.Ram.Response` | example/prim_ram_1p_scr.sv:375-397 | The response equals what a plain memory returns |
| `RangedMaps.HitsAreOverlaps` | example/ranged_map.h:41-69 | The entries found by the two iterator walks are exactly those that overlap the range; the others lie on either side |
| `RangedMaps.RangedMap.Emplace` | example/ranged_map.h:37-100 | The map after insertion with merging is the specified replacement of the hit entries by their merge |
| `RangedMaps.RangedMap.MergeHits` | example/ranged_map.h:78-92 | The accumulator is the fold of the merge function over the hit entries, in address order |
| `RangedMaps.RangedMap.EmplaceDisjoint` | example/ranged_map.h:108-146 | Inserts exactly when no entry overlaps; otherwise changes nothing and returns the value of an overlapping entry: the lowest of those that start above the low address, and the one that holds that address only when it is the only one |
| `RangedMaps.RangedMap.Find` | example/ranged_map.h:158-177 | Returns the only entry whose range has the address, and none exactly when no entry has it |
| `RangedMaps.InsertKeepsDisjoint` | example/ranged_map.h:108-146 | Inserting into a free range keeps the entries sorted and pairwise disjoint |
| `RangedMaps.InsertedMembers` | example/ranged_map.h:108-146 | Insertion adds the new entry and keeps all others |
| `StagedMemory.MergeBytes` | example/dpi_memutil.cc:221-278 | Merging two overlapping segments: as long as the hull of the ranges, the newer bytes where it has any, the older elsewhere, in all four overlap cases |
| `StagedMemory.FoldBytes` | example/ranged_map.h:78-92 | Merging with any number of hit entries holds the new bytes in the new range and the old bytes in the rest of the hit ranges |
| `StagedMemory.EmplaceKeepsShape` | example/ranged_map.h:37-100 | Entries stay sorted and disjoint, and every vector as long as its range |
| `StagedMemory.EmplaceOverwrites` | example/ranged_map.h:37-100 | Emplace refines a byte-map overwrite: the new byte inside the new range, the old byte or absence elsewhere, however many entries were hit |
| `StagedMemory.EmplaceKeepsAlignment` | example/dpi_memutil.cc:221-278 | Merging keeps segment starts word-aligned |
| `StagedMemory.BoundsGrow` | example/dpi_memutil.h:26-42 | The recorded bounds stay the smallest and largest staged address |
| `StagedMemory.AddedValid` | example/dpi_memutil.cc:280-290 | Adding a segment keeps the documented invariants of a StagedMem |
| `StagedMemory.AddedOverwrites` | example/dpi_memutil.cc:280-290 | Adding a segment overwrites exactly the bytes of its range |
| `StagedMemory.StagedMem.AddSegment` | example/dpi_memutil.cc:280-290 | The object after the call is the specified value; an empty segment changes nothing |
| `StagedMemory.StagedMem.GetFlat` | example/dpi_memutil.cc:292-311 | The staged byte map zero-filled between its bounds; two zero bytes when nothing is staged |
| `ElfStaging.AreasDisjoint` | example/dpi_memutil.cc:313-354 | Two different registered areas share no address |
| `ElfStaging.FreeMeansNoArea` | example/dpi_memutil.cc:313-354 | The range map is free at a range exactly when no registered area overlaps it |
| `ElfStaging.RegistryStep` | example/dpi_memutil.cc:313-354 | Why a registration is refused, and that the registry after a success is consistent again |
| `ElfStaging.RegionOf` | example/dpi_memutil.cc:532-547 | The area that contains an address, and none exactly when no area does |
| `ElfStaging.RegionContainsSegment` | example/dpi_memutil.cc:532-573 | A nonempty segment is given area k exactly when area k contains both its first and its last byte, and its byte size has not wrapped to zero |
| `ElfStaging.PhdrAccepted` | example/dpi_memutil.cc:470-508 | A header passes all checks exactly when some area accepts it, or it contributes nothing |
| `ElfStaging.ImageAccepted` | example/dpi_memutil.cc:470-508 | Staging succeeds exactly when every contributing segment lies in one area, word-aligned, with its bytes in the file |
| `ElfStaging.StagingIsImage` | example/dpi_memutil.cc:454-525 | After any accepted headers each area's staging is disjoint, aligned, inside the memory, and holds exactly the bytes of the last header covering each address |
| `ElfStaging.SegmentInMemory` | example/dpi_memutil.cc:433-441 | The word range of a staged segment lies inside the memory, so the size assertion of the write cannot fire |
| `ElfStaging.StagedIsRegistered` | example/dpi_memutil.cc:424-431 | Every staged name leads to its area, so the lookup assertions cannot fire |
| `ElfStaging.WordLoaded` | example/dpi_memutil.cc:433-441 | Writing all staged segments of a memory: staged bytes with zeros for the rest of a touched word, other words unchanged; no two segments share a word |
| `ElfStaging.LoadedIsImage` | example/dpi_memutil.cc:420-452 | Staging and writing puts into a memory of any size, byte by byte, the image byte of the last header covering it in the registered range, zero in the rest of a touched word, the old byte elsewhere |
| `ElfStaging.RangeIsWholeMemory` | example/dpi_memutil.cc:313-354 | For every valid area the registered range has as many addresses as the memory has bytes if and only if the byte size is at most 2^32; the range has 2^32 addresses when the 32-bit size is zero, and otherwise as many as that size |
| `ElfStaging.WholeMemoryInArea` | example/dpi_memutil.cc:313-354 | Every byte of a memory has an address in the registered range, so that it is that of the image there, if and only if the byte size is at most 2^32 |
| `ElfStaging.SizeWrapsToZero` | example/dpi_memutil.cc:532-573 | 2^30 words of four bytes at base zero: a valid area with size zero whose range is the whole memory and the whole address space, and which is given no segment |
| `ElfStaging.SizeWraps` | example/dpi_memutil.cc:313-354 | One word more: a valid area with size four whose range is its first word only |
| `ElfStaging.ReportedArea` | example/dpi_memutil.cc:339-342 | The entry that a clash is reported with is that of an area which overlaps, and either starts lowest of those that start above the new base or is the only one that overlaps |
| `ElfStaging.SameBaseFails` | example/dpi_memutil.cc:339-350 | A second area with the base of the only one registered fails the assertion on the clash; where assertions are left out the overlap is reported |
| `ElfStaging.StoppedIsPartly` | example/dpi_memutil.cc:433-441 | When a write is refused, each word of the memory is as before or as in the full load, since no word is written twice |
| `ElfStaging.ImageFitsStaged` | example/dpi_memutil.cc:433-441 | What is staged fits the simulated memories exactly when they have every word that the image touches, and always when all memories are connected |
| `ElfStaging.ImageIsLoaded` | example/dpi_memutil.cc:420-452 | Every word of every simulated memory, however many areas share it: it holds the image as the last area in the order of names sees it, of those through which the image reaches the word, and is unchanged when the image does not reach it |
| `ElfStaging.OneAreaHoldsImage` | example/dpi_memutil.cc:420-452 | So a memory that one area only has holds the image of that area |
| `ElfStaging.FirstName` | example/dpi_memutil.cc:424-424 | The names of the staging map have a first one, so the map is walked in order |
| `ElfStaging.LoadedStep` | example/dpi_memutil.cc:424-450 | Writing the area with the next name leaves every word as the last area touching it, so far, writes it |
| `ElfStaging.ImageIsPartlyLoaded` | example/dpi_memutil.cc:420-452 | After a refused load each word of every memory is as before or holds the image of an area through which the image reaches it |
| `DpiMemUtil.FindMeansRegion` | example/ranged_map.h:158-177 | Finding an address in the range map is finding the area it lies in |
| `DpiMemUtil.MemUtil.RegisterMemoryArea` | example/dpi_memutil.cc:313-354 | Name map, range map and the three vectors keep describing the same, pairwise disjoint areas; a refusal gives the reason and changes nothing; the assertion on a clash fails if and only if the top does not wrap, the name is new and the clash is reported with area 0 |
| `DpiMemUtil.MemUtil.UpdateRegistry` | example/dpi_memutil.cc:313-354 | The sequence of checks and updates, with the name taken back when the range clashes, and whether the assertion in between holds |
| `DpiMemUtil.MemUtil.GetRegionForSegment` | example/dpi_memutil.cc:532-573 | The area of the segment or the error, as specified |
| `DpiMemUtil.MemUtil.StageElf` | example/dpi_memutil.cc:454-525 | Stages all headers in order or stops at the first with an error, with all before it staged |
| `DpiMemUtil.MemUtil.StagePhdr` | example/dpi_memutil.cc:470-523 | One header: its error, or its segment added to its memory's staging |
| `DpiMemUtil.MemUtil.LoadElfToMemories` | example/dpi_memutil.cc:420-452 | With an error in staging no memory changes; otherwise the load succeeds exactly when the simulation has every word the image touches, and then every word of every memory is as the image and the order of names say; after a refusal each word is as before or holds the image; with all memories connected nothing is refused |
| `DpiMemUtil.MemUtil.WriteStaged` | example/dpi_memutil.cc:424-450 | Writes what is staged for each name to its memory, in the order of names, and nothing else, up to the first refusal, which happens exactly when something staged does not fit |
| `DpiMemUtil.MemUtil.WriteMemory` | example/dpi_memutil.cc:424-450 | Writes what is staged for one name to its memory, up to the first refusal |
| `DpiMemUtil.MemUtil.LoadStaged` | example/dpi_memutil.cc:433-441 | Writes the staged segments of one memory, in address order, and is done exactly when all of them fit |
| `MemAreas.WriteBuffer` | example/mem_area.cc:85-94 | The next word of the data in the buffer, zero-extended when the data runs short |
| `MemAreas.WriteFromMinibuf` | example/mem_area.cc:114-123 | Sets one word, or reports which refusal it was and changes nothing |
| `MemAreas.Write` | example/mem_area.cc:28-51 | Every word of the data, the last zero-extended, and no other word, up to the first word that the simulation refuses, with its error |
| `MemAreas.Read` | example/mem_area.cc:53-77 | The bytes of the words, in order, or the error of the first word that the simulation refuses |
| `MemAreas.ReadAfterWrite` | example/mem_area.cc:28-77 | Reading what was just written returns it |
| `Prince.ConstantsReflect` | example/prince_ref.h:80-86 | The constants of mirrored rounds differ by alpha |
| `Prince.TablesInverse` | example/prince_ref.h:93-108 | The two S-boxes are inverse |
| `Prince.SLayersInverse` | example/prince_ref.h:113-136 | The S layers undo each other |
| `Prince.ComputeSLayer` | example/prince_ref.h:113-136 | The nibble loop computes the S layer |
| `Prince.MatrixShape` | example/prince_ref.h:150-170 | Bit r of output nibble c of a matrix takes bit r of every input nibble but one |
| `Prince.ComputeTimes` | example/prince_ref.h:138-145 | The sum of the selected rows is the product |
| `Prince.TimesTwice` | example/prince_ref.h:138-170 | Both 16-bit matrices are their own inverses |
| `Prince.ComputeMPrime` | example/prince_ref.h:175-193 | The chunks are cut, multiplied and joined as the M' layer |
| `Prince.MPrimeTwice` | example/prince_ref.h:175-193 | The M' layer is its own inverse |
| `Prince.ComputeShiftRows` | example/prince_ref.h:198-207 | The row-by-row rotation is the row permutation |
| `Prince.ShiftRowsInverse` | example/prince_ref.h:198-207 | The two row shifts undo each other |
| `Prince.RoundLayersInverse` | example/prince_ref.h:212-225 | The unkeyed forward and backward round parts undo each other |
| `Prince.MiddleTwice` | example/prince_ref.h:245-249 | The middle of the cipher is its own inverse |
| `Prince.AddKeyCancels` | example/prince_ref.h:241-257 | Key and constant additions of mirrored rounds cancel under reflected keys |
| `Prince.BackwardUndoes` | example/prince_ref.h:251-263 | Backward rounds under reflected keys undo the last forward rounds |
| `Prince.ForwardUndoes` | example/prince_ref.h:235-243 | Forward rounds under reflected keys undo the last backward rounds |
| `Prince.CoreReflects` | example/prince_ref.h:230-267 | Reflection for any unkeyed parts that undo each other |
| `Prince.CoreInverse` | example/prince_ref.h:230-267 | The core under keys plus alpha is the inverse of the core, for every half-round count the constant table allows |
| `Prince.ComputeCore` | example/prince_ref.h:230-267 | The two round loops and the middle compute the core |
| `Prince.EncDec` | example/prince_ref.h:275-294 | The method through the loops computes the cipher |
| `Prince.CryptInverse` | example/prince_ref.h:275-294 | For every block, both key halves, both key schedules and every half-round count, each direction undoes the other |
| `Prince.BytesToUint64` | example/prince_ref.h:52-58 | Big-endian bytes to a word |
| `Prince.Uint64ToBytes` | example/prince_ref.h:65-69 | A word to big-endian bytes |
| `Prince.WordOfBytes` | example/prince_ref.h:52-69 | The byte conversions undo each other |
| `Prince.EncDecBytes` | example/prince_ref.h:302-312 | The byte interface: the first key half is in the first eight bytes |
| `ByteVectors.ReadVectorBit` | example/scramble_model.cc:35-40 | Reads the bit at a position |
| `ByteVectors.OrVectorBit` | example/scramble_model.cc:42-47 | Changes the bit at the position and no other |
| `ByteVectors.XorVectorsBits` | example/scramble_model.cc:49-59 | Xor bit by bit; what is clear past the width stays clear |
| `Sbox.PresentTablesInverse` | example/scramble_model.cc:16-20 | The PRESENT S-boxes are inverse |
| `Sbox.SboxLayersInverse` | example/scramble_model.cc:61-92 | S-box layers of inverse tables undo each other at every width, with or without a partial last nibble |
| `ScrambleModel.ScrambleSboxLayer` | example/scramble_model.cc:64-92 | The nibble loop and the copied remainder compute the layer; clean stays clean |
| `ScrambleModel.ScrambleFlipLayer` | example/scramble_model.cc:95-105 | The bit loop reverses the bits |
| `ScrambleModel.ScramblePermLayer` | example/scramble_model.cc:109-132 | The loop groups even and odd bits, or ungroups them; an odd last bit stays |
| `ScrambleModel.ScrambleSubstPermEnc` | example/scramble_model.cc:136-155 | The byte-vector loop computes the network |
| `ScrambleModel.ScrambleSubstPermDec` | example/scramble_model.cc:159-178 | The byte-vector loop computes the inverse network |
| `SubstPerm.GroupUngroup` | example/scramble_model.cc:109-132 | Grouping and ungrouping undo each other, at even and odd widths |
| `SubstPerm.LayersInverse` | example/scramble_model.cc:136-178 | The layers of one round undo those of the other direction |
| `SubstPerm.RoundsUnwind` | example/scramble_model.cc:136-178 | k rounds of the one direction undo the last k of n rounds of the other |
| `SubstPerm.CryptInverse` | example/scramble_model.cc:136-178 | For every width, key and number of rounds, each direction of the network undoes the other |
| `SubstPerm.CryptBijective` | example/scramble_model.cc:136-178 | Both directions are bijections on the vectors of any one width |
| `SubstPerm.NarrowCrypt` | example/scramble_model.cc:136-155 | On one to three bits two rounds only add the reversed key |
| `ScrambleData.FillIv` | example/scramble_model.cc:203-217 | The initial vector: address below, the instance's slice of the nonce above |
| `ScrambleData.KeystreamBlock` | example/scramble_model.cc:219-229 | One block of the cipher, through the byte reversals |
| `ScrambleData.GenKeystream` | example/scramble_model.cc:184-252 | The keystream: distinct blocks or one repeated, cut to the width, with no bit past it |
| `ScrambleData.ChunkedInverse` | example/scramble_model.cc:256-298 | Chunked application of inverse functions is inverse, for every width and chunk width |
| `ScrambleData.SubstPermFullWidth` | example/scramble_model.cc:256-298 | Completes exactly when every chunk has the byte count of a whole one (the network's size check), and then applies the network chunk by chunk |
| `ScrambleData.ShortLastChunk` | example/scramble_model.cc:272-298 | An input that does not complete: 40 bits in chunks of 16 |
| `ScrambleData.ScrambleAddr` | example/scramble_model.cc:300-319 | The address through the network keyed by the top bits of the nonce |
| `ScrambleData.DataInverse` | example/scramble_model.cc:321-366 | For every keystream cipher and inverse networks, encryption and decryption undo each other both ways |
| `ScrambleData.ScrambleEncryptData` | example/scramble_model.cc:321-344 | Keystream first, then the network if asked for |
| `ScrambleData.ScrambleDecryptData` | example/scramble_model.cc:346-366 | The network first if asked for, then the keystream |
| `ScrambleData.RoundTrip` | example/scramble_model.cc:321-366 | Calling encryption and then decryption with the same parameters returns the data, and completes exactly when the size checks pass |
| `LinearCodes.CalcParity` | example/secded_enc.c:14-26 | The shifting loop computes the parity, inverted if asked for |
| `LinearCodes.SyndromeOfFlip` | example/prim_secded_39_32_dec.sv:16-23 | The syndrome is linear: flipping a bit adds its column |
| `LinearCodes.ZeroSyndrome` | example/prim_secded_39_32_dec.sv:16-23 | The syndrome is zero exactly when the check bits are the encoder's |
| `LinearCodes.CleanDecodes` | example/prim_secded_39_32_dec.sv:14-60 | For any such matrix: no error is reported exactly for codewords, and then the data comes out |
| `LinearCodes.SingleCorrected` | example/prim_secded_39_32_dec.sv:14-60 | For any such matrix: every single flip is corrected and reported single |
| `LinearCodes.DoubleDetected` | example/prim_secded_39_32_dec.sv:14-60 | For any such matrix: every double flip is reported double and nothing is corrected |
| `Secded.EncSecded39` | example/secded_enc.c:51-62 | The C encoder computes the matrix's check bits; the inverted variant complements the odd ones |
| `Secded.EncSecdedInv22` | example/secded_enc.c:95-104 | The same for the inverted 22/16 code |
| `Secded.Good39` | example/prim_secded_39_32_dec.sv:14-60 | The 39 columns have odd weight and are distinct, and each check bit is seen by its own row only |
| `Secded.Dec39IsDecode` | example/prim_secded_39_32_dec.sv:14-60 | The decoder with its masks and constants is the matrix's decoder |
| `Secded.Secded39Clean` | example/prim_secded_39_32_dec.sv:14-60 | 39/32: no error is reported exactly for the C encoder's codewords, and then the data comes out |
| `Secded.Secded39Single` | example/prim_secded_39_32_dec.sv:14-60 | 39/32: every single-bit flip of a codeword is corrected and reported single |
| `Secded.Secded39Double` | example/prim_secded_39_32_dec.sv:14-60 | 39/32: every two-bit flip of a codeword is reported double, not single, with no bit corrected |
| `Secded.Good22` | example/prim_secded_inv_22_16_dec.sv:14-44 | The same of the 22 columns |
| `Secded.Dec22IsDecode` | example/prim_secded_inv_22_16_dec.sv:14-44 | The inverted 22/16 decoder is the matrix's decoder after the inversion is undone |
| `Secded.SecdedInv22Clean` | example/prim_secded_inv_22_16_dec.sv:14-44 | 22/16 inverted: no error is reported exactly for the C encoder's codewords, and then the data comes out |
| `Secded.SecdedInv22Single` | example/prim_secded_inv_22_16_dec.sv:14-44 | 22/16 inverted: every single-bit flip is corrected and reported single |
| `Secded.SecdedInv22Double` | example/prim_secded_inv_22_16_dec.sv:14-44 | 22/16 inverted: every two-bit flip is reported double with no bit corrected |
| `EccPacking.InsertBits` | example/ecc32_mem_area.cc:95-116 | Sets the given bits from a bit offset on and changes no other bit, over byte boundaries |
| `EccPacking.ExtractBits` | example/ecc32_mem_area.cc:129-155 | Reads back the bits from a bit offset on |
| `EccPacking.InsertWord` | example/ecc32_mem_area.cc:119-126 | 39 bits at any bit offset: four data bytes and seven check bits |
| `EccPacking.ZeroBuffer` | example/ecc32_mem_area.cc:79-85 | Clears exactly the bytes the words take |
| `EccPacking.WriteBuffer` | example/ecc32_mem_area.cc:157-165 | The buffer holds the packed words, all valid, and nothing else in the bytes they take; bytes past them are untouched |
| `EccPacking.WriteBufferWithIntegrity` | example/ecc32_mem_area.cc:167-187 | The same for words with validity flags |
| `EccPacking.ReadBuffer` | example/ecc32_mem_area.cc:189-197 | Appends the data bytes of the words in the buffer |
| `EccPacking.ReadBufferWithIntegrity` | example/ecc32_mem_area.cc:199-217 | Appends the words in the buffer with their validity flags |
| `EccPacking.FlatAt` | example/ecc32_mem_area.cc:119-126 | Word i lies at bit offset 39 i |
| `EccPacking.LogicalPhysical` | example/ecc32_mem_area.cc:167-217 | A word reads back as written; a word written invalid never reads valid |
| `EccPacking.UnpackedPacked` | example/ecc32_mem_area.cc:79-217 | Packing any number of 39-bit words and unpacking them is the identity on data and validity |
| `IntBits.AddrIntToBytes` | example/scrambled_ecc32_mem_area.cc:22-32 | The low bytes of an address, least significant first |
| `IntBits.AddrBytesToInt` | example/scrambled_ecc32_mem_area.cc:34-46 | The number the bytes stand for |
| `IntBits.AddrBytesHold` | example/scrambled_ecc32_mem_area.cc:22-32 | The bytes hold the address in its width and nothing past it |
| `IntBits.VBits` | example/scrambled_ecc32_mem_area.cc:67-82 | The least number of bits that address that many items, and at least one |
| `IntBits.VBitsOfPower` | example/scrambled_ecc32_mem_area.cc:67-82 | k for 2^k items |
| `ScrambledEccMem.Configure` | example/scrambled_ecc32_mem_area.cc:105-115 | The constructor's settings are consistent for every size |
| `ScrambledEccMem.PhysInjective` | example/scrambled_ecc32_mem_area.cc:195-200 | ToPhysAddr is one-to-one on the addresses of the address width and stays among them |
| `ScrambledEccMem.PhysOnto` | example/scrambled_ecc32_mem_area.cc:195-200 | ToPhysAddr reaches every address of the address width |
| `ScrambledEccMem.PowerOfTwoInRange` | example/scrambled_ecc32_mem_area.cc:195-200 | With 2^k words no physical address falls outside the memory |
| `ScrambledEccMem.ReadsLatest` | example/scrambled_ecc32_mem_area.cc:141-200 | After any sequence of writes each address reads as the words last written, data and validity flags, and others keep theirs |
| `ScrambledEccMem.MemoryRemembers` | example/scrambled_ecc32_mem_area.cc:141-200 | For a memory that is not scrambled, or of 2^k words with k at least 1: every address is readable and reads as last written, or as at the start |
| `ScrambledEccMem.OneWordMemory` | example/scrambled_ecc32_mem_area.cc:195-200 | A scrambled memory of one word accepts that word exactly when the top bit of the nonce is clear |
| `ScrambledEccMem.ThreeWordMemory` | example/scrambled_ecc32_mem_area.cc:195-200 | A scrambled memory of three words accepts all of them exactly when the two top bits of the nonce are clear; with both set address 0 is refused |
| `EccMemCalls.AfterCat` | example/ecc32_mem_area.cc:56-76 | Writes after writes leave the memory that all of them leave |
| `EccMemCalls.Perform` | example/ecc32_mem_area.cc:56-76 | A legal Write or WriteWithIntegrity call on such a memory does all its writes |
| `EccMemCalls.PerformAll` | example/ecc32_mem_area.cc:56-76 | Any sequence of such calls does the writes of all of them |
| `EccMemCalls.WriteThenRead` | example/scrambled_ecc32_mem_area.cc:141-200 | After any sequence of Write and WriteWithIntegrity calls on a memory that is not scrambled, or of 2^k words with k at least 1, ReadWithIntegrity succeeds and returns for each word the last data and validity flags written, or those there at the start |
| `ScrambledBackdoor.KeystreamsAgree` | example/prim_ram_1p_scr.sv:234-280 | For every configuration, cipher and address the keystream wired from the nonce slices and PRINCE instances of the RTL, replicated or not, is that of the C++ model |
| `ScrambledBackdoor.PlacesAgree` | example/prim_ram_1p_scr.sv:209-229 | The scrambled address of the RTL is the physical address of the C++ model |
| `ScrambledBackdoor.WordsAgree` | example/prim_ram_1p_scr.sv:297-338 | Without diffusion the RTL decrypts any stored word at any address as the C++ model does |
| `ScrambledBackdoor.WritesDecrypt` | example/scrambled_ecc32_mem_area.cc:181-200 | After any writes of the C++ model the RTL decrypts each address to the packed words last written there |
| `ScrambledBackdoor.WriteThenDecrypt` | example/ecc32_mem_area.cc:56-76 | Every word WriteWithIntegrity has written decrypts in the RTL to the packed words it was given, all other addresses as before |
| `ScrambledBackdoor.LoadThenRun` | example/prim_ram_1p_scr.sv:127-397 | A RAM loaded by the C++ model and run from reset: a granted read answers one cycle later with the bits the model wrote there last, changed by the writes granted since |
| `ScrambledBackdoor.RunThenView` | example/scrambled_ecc32_mem_area.cc:141-200 | After any run of the RTL the C++ model reads at every address without an outstanding write the words of the plain memory |
| `ScrambledEccMem.AllAccepted` | example/scrambled_ecc32_mem_area.cc:195-200 | A range of accesses succeeds exactly when all its physical addresses are inside the memory |
| `ScrambledEccMem.EccMemArea.constructor` | example/scrambled_ecc32_mem_area.cc:105-115 | A new area is consistent over any simulated memory of the right shape |
| `ScrambledEccMem.EccMemArea.ToPhysAddr` | example/scrambled_ecc32_mem_area.cc:195-200 | The physical address, through the byte conversions |
| `ScrambledEccMem.EccMemArea.ScrambleBuffer` | example/scrambled_ecc32_mem_area.cc:181-193 | Encrypts the bytes of the physical word in place for its logical address |
| `ScrambledEccMem.EccMemArea.ReadUnscrambled` | example/scrambled_ecc32_mem_area.cc:150-157 | Decrypts the physical word |
| `ScrambledEccMem.EccMemArea.WriteWithIntegrity` | example/ecc32_mem_area.cc:56-76 | One write per memory word up to the first that the simulator refuses |
| `ScrambledEccMem.EccMemArea.ReadWithIntegrity` | example/ecc32_mem_area.cc:33-54 | The logical content of the words with validity flags |
| `ScrambledEccMem.EccMemArea.Write` | example/mem_area.cc:28-51 | The virtual Write of an ECC area: every word written valid |
| `ScrambledEccMem.EccMemArea.Read` | example/mem_area.cc:53-77 | The virtual Read of an ECC area: the data bytes of the words |
| `Present.TablesInverse` | example/prim_cipher_pkg.sv:153-204 | The permutation tables of the two directions are inverse, at 32 and 64 bits |
| `Present.Permute` | example/prim_cipher_pkg.sv:379-395 | Bit k goes to place p(k) |
| `Present.Sbox4Wide` | example/prim_cipher_pkg.sv:343-359 | The byte loop computes the S-box layer |
| `Present.KeyStepBack` | example/prim_cipher_pkg.sv:207-283 | The inverse key schedule takes each key back, at 64, 80 and 128 bits |
| `Present.GetDecKey` | example/prim_cipher_pkg.sv:288-319 | Steps the key through the given number of rounds |
| `Present.LayersReverse` | example/prim_present.sv:66-131 | The decryption round layers undo the encryption round layers |
| `Present.ComputeLayer` | example/prim_present.sv:66-131 | The datapath of a round through the package's loops |
| `Present.EncryptionIndex` | example/prim_present.sv:106-129 | Index and key after n encryption rounds, with the five-bit wrap |
| `Present.RoundUndone` | example/prim_present.sv:66-131 | One decryption round undoes one encryption round, up to the key addition that starts the next |
| `Present.RoundsUndone` | example/prim_present.sv:66-131 | j decryption rounds undo the last j of n encryption rounds |
| `Present.EncryptionLast` | example/prim_present.sv:135-142 | Only the index after the last encryption round adds the final key, for 1 to 31 rounds |
| `Present.DecryptionLast` | example/prim_present.sv:135-142 | Only the index after the last decryption round adds the final key |
| `Present.ReversedRoundTrip` | example/prim_present.sv:57-145 | For any two directions that reverse each other: key output and round trip |
| `Present.DecryptInvertsEncrypt` | example/prim_present.sv:57-145 | Decryption with the stepped key from index NumRounds inverts encryption, for 1 to 31 rounds, every key and both data widths |
| `Present.IteratedIsUnrolled` | example/prim_present.sv:57-145 | Iterating a block that divides the rounds is the unrolled cipher, for any direction with that last index |
| `Present.IteratedCipher` | example/prim_present.sv:57-145 | For any direction whose index counts up from 1 or down from NumRounds: iterating NumPhysRounds blocks equals the unrolled module, and the final key is added exactly once |
| `Present.IteratedRoundTrip` | example/prim_present.sv:57-145 | PRESENT at both data widths, every key, 1 to 31 rounds and any dividing numbers of physical rounds: the iterated encryption leaves the stepped key, and the iterated decryption from it and index NumRounds returns the block |
| `OneHot.OrTreeMeans` | example/prim_onehot_check.sv:63-101 | An or node is set exactly when a leaf under it is |
| `OneHot.AndTreeMeans` | example/prim_onehot_check.sv:63-101 | An and node is the leaf that the address bits below it lead to |
| `OneHot.ErrTreeMeans` | example/prim_onehot_check.sv:63-101 | An error node is set exactly when two leaves under it are |
| `OneHot.Roots` | example/prim_onehot_check.sv:63-101 | The three roots: some bit set, two bits set, the bit at the address set |
| `OneHot.ErrMeans` | example/prim_onehot_check.sv:107-138 | What every configuration of the checks accepts |
| `OneHot.FullCheck` | example/prim_onehot_check.sv:107-138 | Fully checked: no error exactly when the enable is low and the vector zero, or the enable is high and the only set bit is at the address |

## Left out

- Instruction cache: the RAM contents are reliable, so ECC encoding, checking and the bits that an error corrupts are replaced by arbitrary error inputs that suppress the hit and invalidate arbitrary ways.
- Instruction cache: bus errors are modelled in the registers and the output stage, but the stream theorem is about runs without them.
- Instruction cache: one-hot OR-muxes are written as the choice of the selected source; that the selections are one-hot is proved.
- Instruction cache: fb_fill_level is a number; the RTL counter is narrower and can wrap only when all buffers are busy, when no lookup is made anyway.
- Instruction cache: ic_scr_key_req_o, busy_o, err_plus2_o and the RAM address outputs, which no modelled register depends on.
- Scrambled RAM: integrity errors, parity and the multi-bit encodings of its flags; key and nonce are constant, and write masks are uniform on each diffusion slice, as the RAM macro demands.
- Scrambled RAM: the keystream is an arbitrary function of the address here, as PRINCE instances produce it for a fixed key and nonce.
- DpiMemUtil.MemUtil.LoadElfToMemories: the words of a simulated memory are as wide as its handles say; after a refused load the order of names is not stated.
- MemAreas.Write: the words of a simulated memory are as wide as the handle says, and the same for MemAreas.Read.
- StagedMemory.StagedMem.AddSegment: the offset plus the length does not wrap 32 bits, as the checks of StageElf ensure for its callers.
- DpiMemUtil: the staging area holds StagedMem values; that the StagedMem object behaves as the value is proved separately.
- FlattenElfFile, LoadFileToNamedMem, vmem files, libelf, file access, printing and DPI scopes.
- MergeSegments: outside its assertions, where the source aborts, the merge function returns the newer segment.
- ScrambledEccMem: key and nonce are given constants of the object; the virtual methods of Ecc32MemArea and ScrambledEcc32MemArea are one class with a flag.
- EccPacking.WriteBuffer: the data must hold whole memory words, which the source needs but does not check.
- Prince and scramble model: bit widths and counts are unbounded integers, and assertions on sizes are preconditions, but for the chunk size check above.
- ScrambledBackdoor: prim_prince.sv is taken to be the cipher of prince_ref.h, and its datapath is not modelled.
- prim_lfsr, prim_count, multi-bit encodings, buffers, flops, bus.sv and the register files.
- The other SECDED widths and the Hamming codes: further instances of the theorems of LinearCodes.
- VerilatorSimCtrl, SimpleSystem, ibex_pcounts, ibex_tracer, ibex_lockstep, ibex_top, the Python scripts and Makefiles.
