# Verified model of the Bay Trail platform firmware

These Dafny modules model the parts of the Vlv2 tablet platform firmware that compute:
the cache map, the firmware volume block service, the stall on the power management timer,
the in-place patching of the ACPI tables, and two buffer loops. Methods mirror the loops and
stores of the C code over arrays and objects; each is proved against a specification function
or relation, and the lemmas say what those specifications mean. `dafny verify dfyconfig.toml`
checks all of it.

| file | models |
|---|---|
| `Division.dfy`, `Bits.dfy` | quotients, powers of two, bitwise operators on numbers, GetPowerOfTwo64 |
| `Mtrr.dfy` | what memory type range registers mean: mask matching, precedence of types, base/mask pairs |
| `CacheCover.dfy` | the three decomposition loops as lists of ranges |
| `CachePlan.dfy` | the whole register plan and the memory map it gives |
| `MemoryPeim.dfy` | SetPeiCacheMode and GetMemorySize |
| `FvbBlockMap.dfy` | block map lookup against the flat list of blocks |
| `FvbSpec.dfy` | the effect of each block service call, and runs of calls |
| `FvbEraseList.dfy` | when a list of extents is erased all or nothing |
| `FlashDevice.dfy` | the flash device library: every call but a read may fail; a lock per byte |
| `FvbLocks.dfy` | what the lock calls around writes and erasures leave locked |
| `FvbService.dfy` | the block service calls |
| `FvbArena.dfy`, `FvbInstances.dfy` | the packed arena of instance records, and the attribute calls on it |
| `Stall.dfy` | both Stall functions over an unbounded tick count read modulo 2^24 |
| `Bytes.dfy` | little-endian fields and replaced bytes |
| `CpuMap.dfy`, `Madt.dfy`, `MadtStructure.dfy` | the CPU map, the MADT walk, and what it keeps of the structures |
| `PatchDsdt.dfy` | PatchDsdtTable |
| `PssPackage.dfy`, `PatchGv3Ssdt.dfy` | PatchGv3SsdtTable, its packages and its scan |
| `SsdtObjects.dfy`, `SsdtFixes.dfy` | the same from the bytes of the input alone: which objects are fixed, and with what |
| `SsdtSeams.dfy`, `SsdtTables.dfy` | exactly when the scan does that and when it ends, and tables on which it does not |
| `OrMem.dfy`, `Spd.dfy` | EfiOrMem and ReadSpd |

The Intel SDM (volume 3A, sections 11.11.3, 11.11.4 and 11.11.4.1) gives the meaning of base and
mask pairs and the precedence of types; the PI specification (volume 3, sections 3.2.1 and 3.4.2)
the volume header and the block protocol; ACPI 5.0 (sections 4.8.3.3, 5.2.12 and 20.2.4) the timer,
the MADT and package lengths.

## Where the code falls short of what it is for

Each of these is kept as the code has it, with the exact condition proved where one is stated.

- The cache map is right exactly when memory fits 36 address bits (`CacheMapCorrect`): the
  masks drop higher bits, so beyond that high memory aliases low addresses.
- SetPeiCacheMode indexes its 32 variable registers without a check: it stays in bounds exactly
  when the plan has at most 32 ranges (`SetPeiCacheMode`, `PlanLength`), which is so for all sizes
  in units of 512KB and not for smaller units (`FitsExactly`); 39 ranges are possible (`CrowdedPlan`).
- The loop above 4GB on its own does not end for High > 2^64 - 4GB (`HighLoopTerminates`); with 32
  registers it runs past them first (`CursorInRange`).
- The block lookup multiplies two 32-bit numbers before it adds (`LookupIsFlat`), and stops at an
  entry of length 0 that FvbInitialize counts (`LookupAgreesWithCount`).
- The erase list check adds in 64 bits and lets wrapped extents through (`CheckIsRight`). A list
  is erased all or nothing exactly when no such extent stands behind other blocks
  (`AllOrNothingIff`); `TrapErasesFirstBlock` has a list that erases a block and is then refused.
- Stall promises at least the requested time; it is shorter when `Microseconds * 358` overflows
  (`LongEnough`).
- The services drop what the lock calls answer: a block stays unlocked exactly when it was
  unlocked and the call that locks it again failed (`LockedOnExit`, `AllLockedAfterList`).
- A local APIC structure shorter than its 8 bytes spills over the next ones: the walk goes wrong
  exactly when what it spills differs from the headers there (`PreservedIffSafe`); of 4 to 6 bytes,
  in front of another one, it makes the loop endless (`ShortStructureSticks`).
- GNVS sites must be 14 bytes apart, not 13: at 13 the upper byte of the size falls on the operator
  of the next site (`PatchedIffSpaced`).
- The SSDT scan stands still for ever at a package whose length reads 0: on input whose packages
  are well formed and quiet it ends exactly when it meets none (`EndsUnlessEmpty`); `EndlessTable`
  is a table on which it never ends.
- Behind a package the SSDT scan goes on five bytes too early, inside the last value it stored. It
  does what the input says exactly when nothing is spelled there (`SeamsDecide`); `LoudTable` is a
  table on which it stores the number of another processor.
- SpiFlashLock in this repository ignores the lock flag and lifts the protection in any case; the
  device here keeps the lock map that the interface describes, so that the protocol can be stated.

## Model

| member | source | states |
|---|---|---|
| Bits.HighestPowerOfTwo | edk2/MdePkg/Library/BaseLib/GetPowerOfTwo64.c:34-44 | The result is 0 exactly for 0, otherwise a power of two, and the powers of two up to the operand are exactly those up to the result. |
| Mtrr.MatchesRange | edk2-platforms/Vlv2TbltDevicePkg/PlatformInitPei/MemoryPeim.c:174-177 | A stored base/mask pair of a naturally aligned power-of-two range matches exactly the addresses whose page is, in 36 address bits, a page of the range: for every size from one byte to the whole 64-bit space. |
| Mtrr.TypesOfTiling | edk2-platforms/Vlv2TbltDevicePkg/PlatformInitPei/MemoryPeim.c:172-209 | Registers that encode a tiling of [a, b) by aligned ranges match an address if and only if some address of [a, b) shares its page in 36 bits; then they give the one type. |
| CacheCover.CoverTiles | edk2-platforms/Vlv2TbltDevicePkg/PlatformInitPei/MemoryPeim.c:172-181 | The low-memory loop tiles its interval exactly with disjoint ranges, each aligned to its power-of-two size, one per set bit of the length. |
| CacheCover.CarveTiles | edk2-platforms/Vlv2TbltDevicePkg/PlatformInitPei/MemoryPeim.c:183-192 | The carve loop tiles [Low, Max) from the top down with aligned ranges, one per set bit of Max - Low, so none reaches below Low. |
| CacheCover.HighReadyNext | edk2-platforms/Vlv2TbltDevicePkg/PlatformInitPei/MemoryPeim.c:195-208 | The invariant of the clamped loop: either the cursor is a power of two, or the rest lies below the cursor's lowest set bit; it is kept, and each range is aligned. |
| CacheCover.CoverHighTiles | edk2-platforms/Vlv2TbltDevicePkg/PlatformInitPei/MemoryPeim.c:194-209 | The loop above 4GB with its size clamp tiles [4GB, 4GB + High) exactly with disjoint aligned ranges, for every High. |
| CacheCover.DoublingsIsLargest | edk2-platforms/Vlv2TbltDevicePkg/PlatformInitPei/MemoryPeim.c:200-207 | The number of doublings of the cursor is the largest j with 2^m * (2^j - 1) <= the memory left. |
| CacheCover.CoverHighCount | edk2-platforms/Vlv2TbltDevicePkg/PlatformInitPei/MemoryPeim.c:194-209 | The loop above 4GB stores one range per doubling of the cursor and then one per bit still set in the rest. |
| CacheCover.HighLoopTerminates | edk2-platforms/Vlv2TbltDevicePkg/PlatformInitPei/MemoryPeim.c:194-209 | In 64-bit arithmetic the loop above 4GB ends if and only if 4GB + High <= 2^64; beyond that the cursor wraps to 0, every further size is 0 and the loop never ends. |
| CachePlan.PlanLength | edk2-platforms/Vlv2TbltDevicePkg/PlatformInitPei/MemoryPeim.c:167-209 | The number of variable registers: 1 + popcount(Max) + popcount(Max - Low) + j + popcount(what j doublings leave of High). |
| CachePlan.BelowOneMegabyte | edk2-platforms/Vlv2TbltDevicePkg/PlatformInitPei/MemoryPeim.c:156-162 | Below 1MB the fixed registers decide: write-back below 640KB, write-protected up to 1MB, whatever the variable registers say. |
| CachePlan.ExpectedMap | edk2-platforms/Vlv2TbltDevicePkg/PlatformInitPei/MemoryPeim.c:156-224 | The intended map in numbers: RAM below 640KB, from 1MB to low and from 4GB on is write-back, the legacy ROM area and the flash window are write-protected, all else is uncached. |
| CachePlan.TypesOfPlan | edk2-platforms/Vlv2TbltDevicePkg/PlatformInitPei/MemoryPeim.c:164-209 | The set of types of all planned ranges that match an address, from the interval the address lies in, however many ranges the plan has. |
| CachePlan.RightWhereRepresentable | edk2-platforms/Vlv2TbltDevicePkg/PlatformInitPei/MemoryPeim.c:136-209 | Above 1MB the matching registers give the intended type when the sizes are representable: uncacheable wins where carved memory is covered too, and no mixture that the processor leaves undefined occurs. |
| CachePlan.WrongWhereNotRepresentable | edk2-platforms/Vlv2TbltDevicePkg/PlatformInitPei/MemoryPeim.c:194-209 | When they are not, some address of the 36-bit space gets another type than intended. |
| CachePlan.PlanCorrect | edk2-platforms/Vlv2TbltDevicePkg/PlatformInitPei/MemoryPeim.c:164-209 | For a plan of any length: every address above 1MB gets its intended type from the planned ranges if and only if the sizes are representable. |
| CachePlan.CacheMapCorrect | edk2-platforms/Vlv2TbltDevicePkg/PlatformInitPei/MemoryPeim.c:136-224 | Complete settings: the effective type is the intended one on the whole 36-bit address space (write-back exactly on RAM, write-protected on flash and legacy ROM, uncached elsewhere) if and only if memory ends at most max(Max, 1MB) beyond 2^36 and not inside a page of that space. |
| MemoryPeim.GetMemorySize | edk2-platforms/Vlv2TbltDevicePkg/PlatformInitPei/MemoryPeim.c:245-286 | High memory is the sum of the system-memory descriptors that start at or above 4GB, low memory 1MB plus those that start in [1MB, 4GB), both modulo 2^64; without a HOB list 0 and 1MB. |
| MemoryPeim.MemoryInAppend | edk2-platforms/Vlv2TbltDevicePkg/PlatformInitPei/MemoryPeim.c:268-283 | The sums do not depend on the order or grouping in which the descriptors were published. |
| MemoryPeim.MemoryInOne | edk2-platforms/Vlv2TbltDevicePkg/PlatformInitPei/MemoryPeim.c:269-283 | One descriptor adds its length if it has type 3 and resource type 0 and starts in the range, and nothing otherwise. |
| MemoryPeim.HighMemoryNext | edk2-platforms/Vlv2TbltDevicePkg/PlatformInitPei/MemoryPeim.c:269-283 | High memory grows by exactly the length of each such descriptor at or above 4GB, modulo 2^64, and by nothing else. |
| MemoryPeim.RoundUpTop | edk2-platforms/Vlv2TbltDevicePkg/PlatformInitPei/MemoryPeim.c:139-154 | The two masks round Low up to a multiple of 256MB with high memory, of 64MB without. |
| MemoryPeim.RoundedTopLayout | edk2-platforms/Vlv2TbltDevicePkg/PlatformInitPei/MemoryPeim.c:139-192 | Whichever rounding was used, the rounded top is aligned well enough for both low-memory loops. |
| MemoryPeim.FitsExactly | edk2-platforms/Vlv2TbltDevicePkg/PlatformInitPei/MemoryPeim.c:167-209 | All sizes with high memory in units of 2^k inside the 36-bit space fit the 32 variable registers if and only if 2^k is 512KB or more. |
| MemoryPeim.CrowdedPlan | edk2-platforms/Vlv2TbltDevicePkg/PlatformInitPei/MemoryPeim.c:167-209 | With 3585MB of low memory, 4MB of flash and high memory to a unit of 2^k below the end of the 36-bit space the plan has 51 - k ranges: 39 at the page size, for High = 0xE_FFFF_F000. |
| MemoryPeim.StoreRange | edk2-platforms/Vlv2TbltDevicePkg/PlatformInitPei/MemoryPeim.c:174-180 | Storing the pair in the next register extends the stored plan by that range. |
| MemoryPeim.CoverLowMemory | edk2-platforms/Vlv2TbltDevicePkg/PlatformInitPei/MemoryPeim.c:172-181 | The loop fills the registers with the write-back cover of [0, Max) behind what is there. |
| MemoryPeim.CarveExcess | edk2-platforms/Vlv2TbltDevicePkg/PlatformInitPei/MemoryPeim.c:183-192 | The loop adds the uncacheable ranges of [Low, Max). |
| MemoryPeim.CoverHighMemory | edk2-platforms/Vlv2TbltDevicePkg/PlatformInitPei/MemoryPeim.c:194-209 | The loop adds the clamped write-back cover of [4GB, 4GB + High); if that takes more registers than there are it fills them all and goes out of bounds. |
| MemoryPeim.ReadLow | edk2-platforms/Vlv2TbltDevicePkg/PlatformInitPei/MemoryPeim.c:136-137 | Low is the multiple of 1MB that is at most the register and less than 1MB below it. |
| MemoryPeim.ProgramMap | edk2-platforms/Vlv2TbltDevicePkg/PlatformInitPei/MemoryPeim.c:156-224 | Flash, cover, carved excess and high memory are stored in that order, the other registers stay zero; the settings are complete if and only if the plan has at most 32 ranges, else the array is full of its first 32. |
| MemoryPeim.BuildSettings | edk2-platforms/Vlv2TbltDevicePkg/PlatformInitPei/MemoryPeim.c:156-222 | The fixed registers and the default-type register around the stored plan. |
| MemoryPeim.SetPeiCacheMode | edk2-platforms/Vlv2TbltDevicePkg/PlatformInitPei/MemoryPeim.c:76-229 | The whole function, for every HOB list: low is the multiple of 1MB just at or below the register, high the sum of the descriptors from 4GB on, the top is low rounded up to 256MB or 64MB; it stays in bounds if and only if the count of `PlanLength` for these is at most 32; then the settings hold the plan, and map memory as intended if and only if the sizes are representable. |
| FvbBlockMap.FvbGetLbaAddress | edk2-platforms/Vlv2TbltDevicePkg/FvbRuntimeDxe/FvbService.c:187-251 | The lookup: address as base plus the prefix sum with each entry's product cut to 32 bits, length, and run count up to the end of the entry; fails for blocks that do not exist. |
| FvbBlockMap.LookupIsFlat | edk2-platforms/Vlv2TbltDevicePkg/FvbRuntimeDxe/FvbService.c:209-251 | The lookup refines the flat list of block lengths (address is the base plus the prefix sum) for every block if and only if no entry in front of the last one has a product that exceeds 32 bits. |
| FvbBlockMap.CountBlocks | edk2-platforms/Vlv2TbltDevicePkg/FvbRuntimeDxe/FvbService.c:1093-1105 | NumOfBlocks is the sum of the counts up to the terminator, and MaxLbaSize bounds every block. |
| FvbBlockMap.LookupAgreesWithCount | edk2-platforms/Vlv2TbltDevicePkg/FvbRuntimeDxe/FvbService.c:216-251 | The lookup fails exactly at or beyond NumOfBlocks if and only if no entry in front of the terminator has length 0. |
| FvbBlockMap.BlocksDisjoint | edk2-platforms/Vlv2TbltDevicePkg/FvbRuntimeDxe/FvbService.c:213-251 | Different blocks do not overlap. |
| FvbBlockMap.BlocksTile | edk2-platforms/Vlv2TbltDevicePkg/FvbRuntimeDxe/FvbService.c:213-251 | Every byte of the volume lies in one block, and no byte outside does. |
| FvbSpec.SmallVolumesDoNotWrap | edk2-platforms/Vlv2TbltDevicePkg/FvbRuntimeDxe/FvbService.c:248 | A volume smaller than 4GB meets the condition of the 32-bit products. |
| FvbSpec.ReadBack | edk2-platforms/Vlv2TbltDevicePkg/FvbRuntimeDxe/FvbService.c:280-411 | After a successful write, clamped or not, a read of the same range returns the same status and the bytes written. |
| FvbSpec.WriteStaysInBlock | edk2-platforms/Vlv2TbltDevicePkg/FvbRuntimeDxe/FvbService.c:348-411 | A write changes no byte outside the granted bytes of its block, whatever the device answers. |
| FvbSpec.LockIsForever | edk2-platforms/Vlv2TbltDevicePkg/FvbRuntimeDxe/FvbService.c:488-594 | Over any run of calls capability, polarity, alignment and all other non-status bits never change, and once a volume is locked its status bits never change again. |
| FvbSpec.VerdictInBits | edk2-platforms/Vlv2TbltDevicePkg/FvbRuntimeDxe/FvbService.c:512-587 | The answer in bits: success exactly if the fixed bits are requested as they are, a locked volume keeps its status, and each requested read, write and lock status has its capability, enabled or disabled; access denied exactly for a changed status of a locked volume with its fixed bits. |
| FvbSpec.StatusHasCapability | edk2-platforms/Vlv2TbltDevicePkg/FvbRuntimeDxe/FvbService.c:488-594 | Over any run, where the attributes of a volume have changed, every status bit it has is one its capabilities allow. |
| FvbSpec.LockedContentsAreForever | edk2-platforms/Vlv2TbltDevicePkg/FvbRuntimeDxe/FvbService.c:348-594 | Over any run, the contents of a volume that was locked with write status clear never change. |
| FvbSpec.StepValid | edk2-platforms/Vlv2TbltDevicePkg/FvbRuntimeDxe/FvbService.c:280-594 | Every call keeps the layout of the volumes: placed in memory, disjoint, block maps consistent. |
| FvbEraseList.CheckIsRight | edk2-platforms/Vlv2TbltDevicePkg/FvbRuntimeDxe/FvbService.c:798-808 | The test of an extent tells whether its blocks exist if and only if the 64-bit sum does not wrap or what is left of it is out of range. |
| FvbEraseList.ValidatedExists | edk2-platforms/Vlv2TbltDevicePkg/FvbRuntimeDxe/FvbService.c:798-808 | A validated extent names existing blocks if and only if it does not wrap; one that wraps names none. |
| FvbEraseList.InvalidMeansUntouched | edk2-platforms/Vlv2TbltDevicePkg/FvbRuntimeDxe/FvbService.c:790-837 | InvalidParameter means an untouched flash, whatever it holds, if and only if the list fails the first pass, or writing is disabled, or no block is missing, or the first one is. |
| FvbEraseList.AllOrNothingIff | edk2-platforms/Vlv2TbltDevicePkg/FvbRuntimeDxe/FvbService.c:790-837 | Without empty blocks: all or nothing holds for a list if and only if no validated extent that wraps stands behind other blocks. |
| FvbEraseList.ValidatedNeverInvalid | edk2-platforms/Vlv2TbltDevicePkg/FvbRuntimeDxe/FvbService.c:810-837 | A validated list without wrap never gets InvalidParameter; one with wrap never gets Success. |
| FvbEraseList.TrapErasesFirstBlock | edk2-platforms/Vlv2TbltDevicePkg/FvbRuntimeDxe/FvbService.c:790-837 | The failing list: block 0, then five blocks from 2^64 - 2. It passes the check, block 0 is erased, and the answer is InvalidParameter. |
| FlashDevice.Device.Write | edk2-platforms/Vlv2TbltDevicePkg/Library/FlashDeviceLib/FlashDeviceLib.c:260-269 | A write changes only its range, all of it on success, and its answer, Success or DeviceError, is on record. |
| FlashDevice.Device.BlockErase | edk2-platforms/Vlv2TbltDevicePkg/Library/FlashDeviceLib/FlashDeviceLib.c:286-295 | An erase changes only its range, all of it to 0xFF on success. |
| FlashDevice.Device.BlockLock | edk2-platforms/Vlv2TbltDevicePkg/Library/FlashDeviceLib/FlashDeviceLib.c:297-321 | A lock call answers Success or DeviceError, and changes the set of unlocked bytes by its range exactly if it succeeds. |
| FvbLocks.LockedOnExit | edk2-platforms/Vlv2TbltDevicePkg/FvbRuntimeDxe/FvbService.c:395-403 | A block that was locked is locked on exit if and only if the call that locks it again succeeded or the one that unlocks it failed. |
| FvbLocks.OnlyTheBlock | edk2-platforms/Vlv2TbltDevicePkg/FvbRuntimeDxe/FvbService.c:395-403 | At each of its moments the sequence of calls has unlocked no byte outside the block, whatever fails. |
| FvbLocks.UnlockedMeanwhile | edk2-platforms/Vlv2TbltDevicePkg/FvbRuntimeDxe/FvbService.c:395-403 | The device writes or erases while the block is unlocked, if the first lock call succeeded. |
| FvbLocks.AllLockedAfterList | edk2-platforms/Vlv2TbltDevicePkg/FvbRuntimeDxe/FvbService.c:811-832 | After any list of erased blocks all of flash is locked if and only if no block was unlocked at its last visit without being locked again. |
| FvbLocks.OneBlockAtATime | edk2-platforms/Vlv2TbltDevicePkg/FvbRuntimeDxe/FvbService.c:811-832 | If the calls that lock succeed, at each moment at most one block is unlocked, and none at the end. |
| FvbService.CheckRequest | edk2-platforms/Vlv2TbltDevicePkg/FvbRuntimeDxe/FvbService.c:512-587 | The sequence of tests gives that answer: Success and AccessDenied exactly under those conditions on the bits, InvalidParameter otherwise. |
| FvbService.FvbModule.SetAttributes | edk2-platforms/Vlv2TbltDevicePkg/FvbRuntimeDxe/FvbService.c:488-594 | Sets the status bits of one volume to the requested ones, which it is capable of, and leaves its other bits alone; or changes nothing. |
| FvbInstances.FvbGlobal.GetVolumeAttributes | edk2-platforms/Vlv2TbltDevicePkg/FvbRuntimeDxe/FvbService.c:151-164 | Read through the stride walk and the bytes of the packed arena: the attributes of the volume whose record was laid down i-th. |
| FvbInstances.FvbGlobal.SetVolumeAttributes | edk2-platforms/Vlv2TbltDevicePkg/FvbRuntimeDxe/FvbService.c:488-594 | The call on the packed arena does the same to the volumes of all records, in the same bits. |
| FvbInstances.FvbGlobal.GetLbaAddress | edk2-platforms/Vlv2TbltDevicePkg/FvbRuntimeDxe/FvbService.c:187-251 | The lookup on the header bytes in the packed arena translates the block as that volume's block map does. |
| FvbInstances.FvbGlobal.GetNumOfBlocks | edk2-platforms/Vlv2TbltDevicePkg/FvbRuntimeDxe/FvbService.c:790-808 | Read from the packed arena: the block count of that volume. |
| FvbInstances.RecordIsPlaced | edk2-platforms/Vlv2TbltDevicePkg/FvbRuntimeDxe/FvbService.c:1088-1105 | A record laid down from a valid header meets what the block services rely on. |
| FvbService.FvbModule.Admit | edk2-platforms/Vlv2TbltDevicePkg/FvbRuntimeDxe/FvbService.c:300-318 | The checks shared by reads and writes refuse or clamp exactly as stated by the block's length, the offset and the status bit. |
| FvbService.FvbModule.ReadBlock | edk2-platforms/Vlv2TbltDevicePkg/FvbRuntimeDxe/FvbService.c:280-323 | The buffer receives exactly the granted bytes of the block, the rest of it is untouched; refused requests leave it alone. |
| FvbService.FvbModule.WriteBlock | edk2-platforms/Vlv2TbltDevicePkg/FvbRuntimeDxe/FvbService.c:348-411 | The write relation (clamped count, nothing else changed); a granted write answers DeviceError if and only if the device failed it, else Success or BadBufferSize; and the calls: none if refused, else unlock the block, write, lock it, exactly once each, whatever the lock calls answer. |
| FvbService.FvbModule.EraseBlock | edk2-platforms/Vlv2TbltDevicePkg/FvbRuntimeDxe/FvbService.c:429-465 | Erases the block, or fails if and only if the device does, or changes nothing, with the same sequence of calls. |
| FvbService.FvbModule.ListIsValid | edk2-platforms/Vlv2TbltDevicePkg/FvbRuntimeDxe/FvbService.c:790-809 | The first pass accepts exactly the lists all of whose extents are non-empty and, in 64-bit arithmetic, in range. |
| FvbService.FvbModule.EraseBlocks | edk2-platforms/Vlv2TbltDevicePkg/FvbRuntimeDxe/FvbService.c:766-837 | A list that does not validate returns InvalidParameter with the flash untouched; the blocks visited are a prefix of the requested ones in order, all of them on success; the answer is DeviceError if and only if the device failed the last one, all before it succeeded; they are erased and all else is as before, except that nothing is said of the bytes of a block that failed. |
| FvbArena.RecordInArena | edk2-platforms/Vlv2TbltDevicePkg/FvbRuntimeDxe/FvbService.c:1088-1118 | The records fill the arena without a gap: record i lies between its offset and that of record i + 1, and the last one ends the arena. |
| FvbArena.RecordsDoNotOverlap | edk2-platforms/Vlv2TbltDevicePkg/FvbRuntimeDxe/FvbService.c:1116-1118 | No record overlaps a later one. |
| FvbArena.HeaderFieldInArena | edk2-platforms/Vlv2TbltDevicePkg/FvbRuntimeDxe/FvbService.c:1088-1090 | A header field read through the arena is the field of the header laid down. |
| FvbArena.PrefixInArena | edk2-platforms/Vlv2TbltDevicePkg/FvbRuntimeDxe/FvbService.c:1091-1105 | The words in front of a header hold its base address and block count. |
| FvbArena.ArenaSize | edk2-platforms/Vlv2TbltDevicePkg/FvbRuntimeDxe/FvbService.c:1032-1042 | The allocation is exactly the size of all records. |
| FvbArena.CountInArena | edk2-platforms/Vlv2TbltDevicePkg/FvbRuntimeDxe/FvbService.c:1096-1105 | The loop over the block map in the arena counts the blocks of the header copied there. |
| FvbArena.FvbInitialize | edk2-platforms/Vlv2TbltDevicePkg/FvbRuntimeDxe/FvbService.c:1035-1120 | For any list of valid headers the arena is exactly the concatenation of their records. |
| FvbArena.GetFvbInstance | edk2-platforms/Vlv2TbltDevicePkg/FvbRuntimeDxe/FvbService.c:114-138 | The stride walk lands on the offset of the i-th record laid down, for every i, and on nothing beyond the last. |
| FvbArena.AttributesOfRecord | edk2-platforms/Vlv2TbltDevicePkg/FvbRuntimeDxe/FvbService.c:589-591 | Storing an attribute word changes the attributes of that volume and nothing else of it, and keeps the record well formed. |
| FvbArena.StoreAttributes | edk2-platforms/Vlv2TbltDevicePkg/FvbRuntimeDxe/FvbService.c:503-591 | Storing through the record's address replaces that record only; the strides to all records stay. |
| Stall.LongEnough | edk2-platforms/Vlv2TbltDevicePkg/PlatformInitPei/Stall.c:66 | The computed wait covers the requested time if and only if Microseconds * 358 fits the machine word. |
| Stall.NotTooLong | edk2-platforms/Vlv2TbltDevicePkg/PlatformInitPei/Stall.c:66 | If it fits, the wait is at most one tick more than requested, rounded. |
| Stall.WaitTurns | edk2-platforms/Vlv2TbltDevicePkg/PlatformInitPei/Stall.c:82-88 | The first loop ends with the first reading in the turn it waits for, across any number of wraps, and no reading in it reaches the target. |
| Stall.WaitRemainder | edk2-platforms/Vlv2TbltDevicePkg/PlatformInitPei/Stall.c:90-93 | The second loop ends with the first reading at or after the target, also when the timer wraps during it. |
| Stall.Stall | edk2-platforms/Vlv2TbltDevicePkg/PlatformInitPei/Stall.c:43-95 | Returns on the first reading at or after the target tick; 100 times the elapsed ticks exceed 358 * Microseconds when the product fits; the overshoot is less than the last gap between readings. |
| Stall.TurnOf | edk2-platforms/Vlv2TbltDevicePkg/PlatformPei/Stall.c:83-85 | A reading that is not above the previous one means exactly that the next turn of the 24-bit timer has begun, when less than a turn has passed. |
| CpuMap.DedupInOrder | edk2-platforms/Vlv2TbltDevicePkg/AcpiPlatform/AcpiPlatformHooks.c:42-72 | First-occurrence de-duplication: all structures that are the first with their APIC id are kept, in the order they came. |
| CpuMap.DedupKeepsFirst | edk2-platforms/Vlv2TbltDevicePkg/AcpiPlatform/AcpiPlatformHooks.c:51-55 | Each kept structure is the first one with its APIC id. |
| CpuMap.CpuIdMap.Append | edk2-platforms/Vlv2TbltDevicePkg/AcpiPlatform/AcpiPlatformHooks.c:42-72 | After any sequence of appends the table is a gap-free prefix equal to the first MAX_CPU_NUM structures of the de-duplicated sequence. |
| CpuMap.CpuIdMap.ProcessorId2ApicId | edk2-platforms/Vlv2TbltDevicePkg/AcpiPlatform/AcpiPlatformHooks.c:74-89 | Agrees with a linear lookup in that sequence, and gives all ones for an unknown id. |
| CpuMap.CpuIdMap.GetProcNumberInPackage | edk2-platforms/Vlv2TbltDevicePkg/AcpiPlatform/AcpiPlatformHooks.c:91-107 | The number of kept structures whose APIC id has the package in bit 4. |
| CpuMap.LookupInverts | edk2-platforms/Vlv2TbltDevicePkg/AcpiPlatform/AcpiPlatformHooks.c:81-85 | With distinct processor ids the lookup inverts the table. |
| CpuMap.ApicOfFirst | edk2-platforms/Vlv2TbltDevicePkg/AcpiPlatform/AcpiPlatformHooks.c:74-89 | The lookup gives the APIC id of the first structure with the processor id, and all ones if there is none. |
| MadtStructure.PreservedIffSafe | edk2-platforms/Vlv2TbltDevicePkg/AcpiPlatform/AcpiPlatform.c:352-420 | On any table whose structure lengths are at least 2 and sum to its length, the walk visits exactly the structures and keeps all their types and lengths if and only if each is last, or has room for what is stored in it, or what spills is there already: a local APIC of 7 bytes in front of type 0; one of 2 in front of a type up to the number of processors, unless the third header is hit; an I/O APIC of 2 in front of type 2. |
| MadtStructure.FlagsSet | edk2-platforms/Vlv2TbltDevicePkg/AcpiPlatform/AcpiPlatform.c:354-401 | In a table so preserved, the flag word of each local APIC structure with room for it is 1 if and only if the first processor with its APIC id is the boot processor or enabled, and is thread 0; else 0. |
| MadtStructure.ShortStructureSticks | edk2-platforms/Vlv2TbltDevicePkg/AcpiPlatform/AcpiPlatform.c:370-371 | A local APIC structure of 4 to 6 bytes gives the one behind it a length of 0, and the loop stays there. |
| MadtStructure.ThreeBytesStray | edk2-platforms/Vlv2TbltDevicePkg/AcpiPlatform/AcpiPlatform.c:370-396 | One of 3 bytes makes the next length 0 or 1: the loop stays, or goes on inside that structure, one byte further. |
| MadtStructure.NextRetyped | edk2-platforms/Vlv2TbltDevicePkg/AcpiPlatform/AcpiPlatform.c:366-372 | Otherwise an unsafe step overwrites the type of the next structure for good and keeps its length. |
| MadtStructure.FirstShortSticks | edk2-platforms/Vlv2TbltDevicePkg/AcpiPlatform/AcpiPlatform.c:352-420 | If the first unsafe structure has 4 to 6 bytes the whole walk never ends. |
| MadtStructure.RoomyFlags | edk2-platforms/Vlv2TbltDevicePkg/AcpiPlatform/AcpiPlatform.c:354-401 | When every structure has room, the flag word of every local APIC structure is right. |
| MadtStructure.RoomyResult | edk2-platforms/Vlv2TbltDevicePkg/AcpiPlatform/AcpiPlatform.c:352-420 | When every structure has room, each byte of each one is what its own patch leaves. |
| MadtStructure.RoomyFrame | edk2-platforms/Vlv2TbltDevicePkg/AcpiPlatform/AcpiPlatform.c:352-420 | ... nothing outside of the structures changes, and the CPU map gets what each adds on its own, in order. |
| MadtStructure.EndsByHeadersIff | edk2-platforms/Vlv2TbltDevicePkg/AcpiPlatform/AcpiPlatform.c:352-420 | If no local APIC structure of 2 bytes, or of 3 for a processor to be enabled, stands in front of another, some number of turns ends the loop if and only if none of 3 to 6 bytes does, counting those that the 7 bytes in front of them make a local APIC. |
| Madt.FindProcessor | edk2-platforms/Vlv2TbltDevicePkg/AcpiPlatform/AcpiPlatform.c:372-408 | The processor loop stops at the first match. |
| Madt.PatchUpdates | edk2-platforms/Vlv2TbltDevicePkg/AcpiPlatform/AcpiPlatform.c:354-416 | What one structure leaves, byte by byte: a local APIC keeps its APIC id, gets a processor id of at most the number of processors, and its flag word is 1 exactly if the first processor reported with that APIC id is the boot processor or enabled, and is thread 0; without the last condition it goes into the CPU map. An I/O APIC gets the id 2. |
| Madt.PatchStructure | edk2-platforms/Vlv2TbltDevicePkg/AcpiPlatform/AcpiPlatform.c:353-416 | The switch makes these stores for the structure at its place, whatever its length, and appends to the CPU map what it adds. |
| Madt.PatchMadt | edk2-platforms/Vlv2TbltDevicePkg/AcpiPlatform/AcpiPlatform.c:343-420 | The table afterwards, whether the walk ended, and the processors appended to the CPU map, for tables with any bytes. |
| PatchDsdt.ResultSites | edk2-platforms/Vlv2TbltDevicePkg/AcpiPlatform/AcpiPlatformHooks.c:468-495 | Whatever the bytes are, the result of the scan is the input with the operands stored at the sites the result itself has, lowest first. |
| PatchDsdt.SitesKept | edk2-platforms/Vlv2TbltDevicePkg/AcpiPlatform/AcpiPlatformHooks.c:468-495 | The scan keeps the set of sites if and only if storing at the sites of the input does, and then that is all it does. |
| PatchDsdt.PatchedIffSpaced | edk2-platforms/Vlv2TbltDevicePkg/AcpiPlatform/AcpiPlatformHooks.c:468-495 | If the operands cannot be part of a site, every site gets its operands, no site appears or disappears and nothing else changes, if and only if the sites are at least 14 bytes apart. |
| PatchDsdt.NeutralIff | edk2-platforms/Vlv2TbltDevicePkg/AcpiPlatform/AcpiPlatformHooks.c:484-487 | Which addresses can be part of a site, for a size whose bytes cannot. |
| PatchDsdt.AddressSpellsSite | edk2-platforms/Vlv2TbltDevicePkg/AcpiPlatform/AcpiPlatformHooks.c:484-485 | An address that reads GNVS behind a 0x80 byte makes a new site and breaks the patch. |
| PatchDsdt.NeutralExactly | edk2-platforms/Vlv2TbltDevicePkg/AcpiPlatform/AcpiPlatformHooks.c:468-495 | The operands for which 14 bytes between sites are enough on every table are exactly those that cannot be part of a site. |
| PatchDsdt.HideKeepsSites | edk2-platforms/Vlv2TbltDevicePkg/AcpiPlatform/AcpiPlatformHooks.c:440-464 | Hiding NDEP or PDEP neither makes nor breaks a site. |
| PatchDsdt.HideName | edk2-platforms/Vlv2TbltDevicePkg/AcpiPlatform/AcpiPlatformHooks.c:437-464 | The first NDEP with a MIPI display, the first PDEP without, in front of the last two bytes, becomes _DEP; if there is none, nothing changes. |
| PatchDsdt.StoreGnvs | edk2-platforms/Vlv2TbltDevicePkg/AcpiPlatform/AcpiPlatformHooks.c:468-495 | The in-place loop, which reads the length again in each turn, is the scan. |
| PatchDsdt.TablePatched | edk2-platforms/Vlv2TbltDevicePkg/AcpiPlatform/AcpiPlatformHooks.c:402-497 | The whole patch on the input's own sites, both directions, and that a table shorter than 0x44000000 bytes keeps its length. |
| PatchDsdt.TableRest | edk2-platforms/Vlv2TbltDevicePkg/AcpiPlatform/AcpiPlatformHooks.c:437-497 | Whatever the bytes are: every byte of the result that is no operand of one of its sites is as before, except the first one of that name. |
| PatchDsdt.OperandWords | edk2-platforms/Vlv2TbltDevicePkg/AcpiPlatform/AcpiPlatformHooks.c:473-490 | With neutral operands and spaced sites every GNVS behind 0x80 has the low 32 bits of the address at +6 and the low 16 of the size at +11. |
| PatchDsdt.PatchDsdtTable | edk2-platforms/Vlv2TbltDevicePkg/AcpiPlatform/AcpiPlatformHooks.c:402-497 | The table afterwards, and that all of it but operands and the renamed name is as before. |
| PssPackage.EncodedDecodes | edk2-platforms/Vlv2TbltDevicePkg/AcpiPlatform/AcpiPlatformHooks.c:333-341 | Re-encoding a length in two bytes and decoding it gives the length if and only if it is below 4096. |
| PssPackage.DecodedEncodes | edk2-platforms/Vlv2TbltDevicePkg/AcpiPlatform/AcpiPlatformHooks.c:333-341 | Decoding two bytes and encoding again gives the bytes if and only if the lead byte says two bytes. |
| PssPackage.EntryBytesHold | edk2-platforms/Vlv2TbltDevicePkg/AcpiPlatform/AcpiPlatformHooks.c:354-373 | The six values of an entry as 32-bit words (SPSS latencies times 2 and 10), its operators and prefixes unchanged. |
| PssPackage.PackagePatched | edk2-platforms/Vlv2TbltDevicePkg/AcpiPlatform/AcpiPlatformHooks.c:329-375 | A well-formed package becomes a well-formed package of the driver's states in reverse order, followed by no-operations up to exactly where it ended; prefixes inside and all bytes around it are unchanged. |
| PssPackage.EmptyPackageSticks | edk2-platforms/Vlv2TbltDevicePkg/AcpiPlatform/AcpiPlatformHooks.c:331-381 | A package whose length reads 0 still reads 0 after the patch, and patching it again changes nothing. |
| PssPackage.StorePackage | edk2-platforms/Vlv2TbltDevicePkg/AcpiPlatform/AcpiPlatformHooks.c:329-375 | The in-place stores and the loop over the states have that effect. |
| PatchGv3Ssdt.AdvancesUnlessEmpty | edk2-platforms/Vlv2TbltDevicePkg/AcpiPlatform/AcpiPlatformHooks.c:262-383 | Every turn of the scan moves forward, except at a package whose length reads 0; there the next turn repeats for ever. |
| SsdtSeams.EndsUnlessEmpty | edk2-platforms/Vlv2TbltDevicePkg/AcpiPlatform/AcpiPlatformHooks.c:262-383 | On input whose packages are well formed and quiet up to where the scan halts, some number of turns ends the loop if and only if the way through the input meets no package whose length reads 0. |
| SsdtSeams.NoEmptyPackage | edk2-platforms/Vlv2TbltDevicePkg/AcpiPlatform/AcpiPlatformHooks.c:262-383 | It meets none if no package of the input has such a length. |
| SsdtTables.EndlessTable | edk2-platforms/Vlv2TbltDevicePkg/AcpiPlatform/AcpiPlatformHooks.c:262-383 | A table with the signature, one _PR_ name and one empty package, on which no number of turns ends the loop. |
| PatchGv3Ssdt.Settled | edk2-platforms/Vlv2TbltDevicePkg/AcpiPlatform/AcpiPlatformHooks.c:262-383 | Bytes in front of the values at the current position never change again. |
| SsdtObjects.FormedScan | edk2-platforms/Vlv2TbltDevicePkg/AcpiPlatform/AcpiPlatformHooks.c:262-383 | On such input the scan has the outcome, the fixes and the positions selected or stored to that are read off the input without any store; unless it stands still, the stored regions are disjoint and in order, each name keeps its place, each fix is in place at the end with the operators and prefixes of the input, and every other byte is as it was. |
| SsdtObjects.SaneScan | edk2-platforms/Vlv2TbltDevicePkg/AcpiPlatform/AcpiPlatformHooks.c:262-383 | If nothing brings it to a halt either, the scan ends and fixes exactly the objects of the input, with that result. |
| SsdtObjects.SaneBytesAreSane | edk2-platforms/Vlv2TbltDevicePkg/AcpiPlatform/AcpiPlatformHooks.c:262-383 | Such input is one with, at every position, processor letters of the CPU map and packages that are well formed and quiet for every protocol instance. |
| SsdtSeams.SeamsDecide | edk2-platforms/Vlv2TbltDevicePkg/AcpiPlatform/AcpiPlatformHooks.c:262-383 | On input whose packages are well formed, the scan selects and stores at exactly the positions read off the input if and only if every package on the way is quiet: behind it, in the five bytes where the scan goes on too early, stands no _PR_, no named double word and no named package. |
| SsdtSeams.QuietStatus | edk2-platforms/Vlv2TbltDevicePkg/AcpiPlatform/AcpiPlatformHooks.c:373-381 | For a package that its states fill it is enough for that that no byte of the last status starts a name or is the name operator. |
| SsdtTables.LoudTable | edk2-platforms/Vlv2TbltDevicePkg/AcpiPlatform/AcpiPlatformHooks.c:262-383 | A table with the signature, well formed, whose only package is not quiet: the status stored last reads _PR_, the scan selects processor 1 there, and its double word gets 1 where the input says 0. |
| SsdtFixes.FixedExactly | edk2-platforms/Vlv2TbltDevicePkg/AcpiPlatform/AcpiPlatformHooks.c:262-383 | A position gets a fix if and only if the name of a double word starts there, or that of a package whose selected processor has the protocol, and its operator is not part of an object in front of it. |
| SsdtFixes.FixesMeant | edk2-platforms/Vlv2TbltDevicePkg/AcpiPlatform/AcpiPlatformHooks.c:262-383 | The value of a double word is the domain or number of the processor that the last _PR_ name selects, the states of a package are those that processor's protocol reports, with the length and count the input has. |
| SsdtFixes.SanePatch | edk2-platforms/Vlv2TbltDevicePkg/AcpiPlatform/AcpiPlatformHooks.c:229-391 | All of it for the table PatchGv3SsdtTable leaves of sane input, whatever was appended to the CPU map: the scan ends, with exactly these fixes, these values, and nothing else changed. |
| PatchGv3Ssdt.LocateCpuEistProtocol | edk2-platforms/Vlv2TbltDevicePkg/AcpiPlatform/AcpiPlatformHooks.c:109-160 | The first protocol instance whose APIC id is that of the first structure with the processor id index + 1; none if there is no such structure or instance. |
| PatchGv3Ssdt.NumberToStore | edk2-platforms/Vlv2TbltDevicePkg/AcpiPlatform/AcpiPlatformHooks.c:292-314 | Bit 4 of the APIC id, or how many processors of the map have the same; 0 for an unused entry. |
| PatchGv3Ssdt.CpuLetter | edk2-platforms/Vlv2TbltDevicePkg/AcpiPlatform/AcpiPlatformHooks.c:269-278 | The letter behind _PR_.CPU stands for the hexadecimal digit it is. |
| PatchGv3Ssdt.PatchGv3SsdtTable | edk2-platforms/Vlv2TbltDevicePkg/AcpiPlatform/AcpiPlatformHooks.c:229-391 | The in-place scan has the outcome and the table of the scan function, for every table with the signature; it ends, unless it meets an empty package. |
| OrMem.EfiOrMem | edk2-platforms/Vlv2TbltDevicePkg/PlatformDxe/Platform.c:1029-1052 | Every destination byte becomes the OR of itself and its source byte as they were before the call, for any overlap; nothing else changes. |
| OrMem.UpwardsIsRight | edk2-platforms/Vlv2TbltDevicePkg/PlatformDxe/Platform.c:1044-1051 | Counting upwards is right whenever the source is not just below the destination. |
| OrMem.UpwardsIff | edk2-platforms/Vlv2TbltDevicePkg/PlatformDxe/Platform.c:1038-1051 | Counting upwards is right for all contents of a memory if and only if the source is not just below the destination, so the other branch is needed exactly there. |
| Spd.PlanAsksOnce | edk2-platforms/Vlv2TbltDevicePkg/PlatformInitPei/Dimm.c:233-294 | The single bytes and the pairs of words ask for every byte of the range exactly once and in order, for every Count. |
| Spd.PlanLengths | edk2-platforms/Vlv2TbltDevicePkg/PlatformInitPei/Dimm.c:233-294 | The bytes that make up no block of four are asked for one by one, the rest in words. |
| Spd.ReadSpd | edk2-platforms/Vlv2TbltDevicePkg/PlatformInitPei/Dimm.c:190-294 | Success fills Buffer[0..Count) with the range of the module at 0x50 plus its number and nothing else; the requests are those of the plan up to the first that fails, whose error is returned; a module number above 3 is refused without any request. |

## Left out

- GetBootMode, ResetCache, InstallMemory and the rest of MemoryPeim.c: services and HOB building; the HOB list and the graphics register arrive as parameters.
- MemoryPeim.SetPeiCacheMode: stops with Overrun at the first store behind the registers, whose effect the model does not describe; flash lies above the rounded top of low memory, as the platform's memory map has it.
- Mtrr.MatchesRange: speaks of 36-bit physical addresses only, the width that MTRR_LIB_CACHE_VALID_ADDRESS fixes.
- Header validity and the repair path of FvbInitialize: GetFvbInfo and IsFvHeaderValid disagree on the unit of the checksum length, and the arena size is taken before a repair; the arena results hold for headers that are valid on flash, with validity as a predicate.
- FvbService.FvbModule.EraseBlocks: the variable argument list is a sequence of extents; that the terminator ends it is part of its type.
- FvbModule keeps the volumes as a sequence of values for the block calls; everything they read of a volume (attributes, address of a block, number of blocks) is proved to be what the bytes of the packed arena give (FvbInstances.dfy), and its records meet what they rely on (`RecordIsPlaced`).
- FlashDevice.Device.Write: does not refuse locked ranges, because FlashDeviceLib.c has no such check; the lock map only records what the lock calls did.
- FvbProtocolRead, FvbProtocolWrite, FvbProtocolGetAttributes, FvbProtocolSetAttributes, FvbProtocolGetPhysicalAddress, FvbProtocolGetBlockSize: they forward to the calls modelled here.
- FvbSmmDxe.c: marshalling to a handler in SMM, which is not part of this model.
- FlashDevice.Device.Read: never fails, because FvbReadBlock ignores the answer.
- Stall.Stall: requires that less than one turn of the timer passes between two readings and at least one tick does; without the first a turn is missed, without the second an equal reading counts as a turn.
- Madt.PatchMadt: stops with Stuck where the code would loop for ever; the buffer reaches 7 bytes past the table, because the stores for a structure at its end touch them.
- Madt.PatchMadt: WhoAmI and GetProcessorInfo are a table of answers that does not change during the walk.
- The other table cases of PlatformUpdateTables, among them the OSFR layout: independent field copies.
- PatchDsdt.PatchDsdtTable: the first loop, which looks for the _S3 name, only moves a cursor that is set again afterwards, and is not modelled; the buffer reaches 13 bytes past the table, because the scan touches them.
- PatchGv3Ssdt.PatchGv3SsdtTable: stops with OutOfBounds where the code reads the CPU map outside of its bounds, after the 0 it stores first, or would write outside of the buffer, and with Stuck where it would loop for ever; the final counts are asserted in the code for debugging only.
- SsdtObjects.FormedScan: packages whose length does not cover just their entries are scanned as the code does, but what they leave is not told from the input; nor is it for packages that are not quiet.
- MadtStructure.EndsByHeadersIff: behind a local APIC structure of 2 bytes, or of 3 for a processor to be enabled, whether the walk ends depends on bytes that are no headers; `Madt.WalkEndsIff` is for all bytes, by the outcome of the walk.
- PatchGv3Ssdt.Effect: at a package that leads out of the buffer, the stores that are made before the first one outside of it are left out.
- That PatchGv3SsdtTable is not called for SSDT tables in this version is not modelled; the function is.
- Spd.ReadSpd: the SMBus service may fail at any request and leave its own part of the buffer in any state.
- ValidateFvHeader, PCI BAR sizing, device paths, protocol installation, GPIO, CMOS, TPM, setup policy and board tables: register and table plumbing without an invariant of its own.
