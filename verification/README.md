# Verified models of boot0 and U-Boot algorithms

Dafny models of the algorithms in boot0 (the SPL) and in U-Boot's `cmd/` and `api/` layers of Brandy 2.0 that can
be stated apart from the hardware, with proofs about every input, every run or every reachable state.
`dafny verify dfyconfig.toml` checks the whole project.

Code that updates state in place is a class or a method on an array, proved against a function of its inputs; what
the source is meant for is then proved of that function. Where the code does not do what it is meant to for every
input, the code is modelled as it is, an input that shows it is given, and the exact condition is proved.

- `Heap.dfy`, `BootHeap.dfy`: the first-fit boot heap. The abstract heap and its laws over whole runs, and the list
  of headers stored in the heap itself that implements it. Requests, sums and the rounding wrap at 32 bits as in the
  code; the header size is symbolic.
- `Gpio.dfy`, `GpioTheorems.dfy`: the batched pin configuration as a write-back cache of four registers, against
  setting the pins one by one.
- `Bits.dfy`, `SpifDma.dfy`, `SpifEngine.dfy`, `SpifOp.dfy`: the DMA descriptor chains of the SPI flash controller,
  and an engine that runs them.
- `Crc32.dfy`: the table-driven CRC against bitwise division, and what it detects.
- `ShellSort.dfy`, `EfiMemTable.dfy`, `EfiOrders.dfy`: U-Boot's `qsort`, the normalisation of the EFI memory map that
  uses it, and what can be said of the result from the map alone.
- `MemCopy.dfy`: `memcpy` and `memmove` on one memory.
- `EnvRedundant.dfy`, `EnvLookup.dfy`: choosing between two environment copies, and looking up a name.
- `Eeprom.dfy`: cutting EEPROM transfers into chunks.
- `DevEnum.dfy`: the enumeration of storage devices.
- `Numerals.dfy`: printing numbers and reading them back.
- `Checksum.dfy`: additive checksums, and the boot parameters sealed with them.
- `Common.dfy`: machine words, optional values and C strings.
- `ElfLoader.dfy`, `Gzip.dfy`: loading ELF segments, and finding the end of a gzip header.

What the models bring out about the code:

- `malloc` tests for room with a 32-bit sum, so a 3 GiB request to a 1 MiB heap is granted (`HeapModel.WrapHandsOut`).
  `realloc` forgets a growth that fits the rounding, and the list loses a block that is moved directly below its old
  place (`HeapModel.GrowthForgotten`, `HeapModel.MovedBlockLost`). The comment at the rounding macro speaks of 1 KiB;
  the code rounds to 16 bytes.
- Inside a pull group `boot_set_gpio` uses the main controller's drive registers for the second controller too, and
  it sets the function of the first pin even when that is negative. On sun300iw1p1 port 29 of the main controller has
  the addresses of port 12 of the second one.
- Without memory for a bounce buffer an SPI flash transfer goes through address 0.
- `h_cmp_entry` orders addresses more than half the address space apart the wrong way round.
- `fw_getenv` looks behind an empty block.
- `eeprom_rw` reports only the last chunk, transfers nothing when offset and length wrap, and with pages above 256
  bytes lets chunks cross a page.
- A comment in `dev_enum_stor` says that a cookie of another group makes the group start with its first device; the
  code passes over the whole group.

## Model

| member | source | states |
|---|---|---|
| `HeapModel.RoundCoversIff` | brandy-2.0/spl/common/malloc.c:55 | the 32-bit rounding covers a request exactly when it does not wrap |
| `HeapModel.Ordered` | brandy-2.0/spl/common/malloc.c:94-139 | any two blocks of a well-formed heap are in list order and address order, a header apart |
| `HeapModel.Disjoint` | brandy-2.0/spl/common/malloc.c:128-136 | every byte of the heap belongs to at most one header or one block, and lies inside the heap |
| `HeapModel.FirstTaken` | brandy-2.0/spl/common/malloc.c:105-114 | the lowest gap the code's wrapping test accepts: all lower gaps fail it |
| `HeapModel.MallocSoundIff` | brandy-2.0/spl/common/malloc.c:105-136 | the block handed out fits its gap if and only if the sum in the test does not wrap |
| `HeapModel.WrapHandsOut` | brandy-2.0/spl/common/malloc.c:107-108 | a 3 GiB request to a 1 MiB heap wraps and is granted |
| `HeapModel.TakenIsFits` | brandy-2.0/spl/common/malloc.c:107-108 | for requests that cannot wrap anywhere in the heap, the code's test is the exact one at every gap |
| `HeapModel.ModestIsExact` | brandy-2.0/spl/common/malloc.c:107-108 | such requests wrap neither in the rounding nor at the gap chosen |
| `HeapModel.MallocFailsOnlyWhenFull` | brandy-2.0/spl/common/malloc.c:94-119 | whatever wraps, a non-zero request fails only when no gap holds the rounded size and two headers, and then nothing changes |
| `HeapModel.MallocFailsIff` | brandy-2.0/spl/common/malloc.c:94-119 | when the sums that decide do not wrap, a non-zero request fails if and only if no gap holds the rounded size and two headers |
| `HeapModel.MallocTakesLowest` | brandy-2.0/spl/common/malloc.c:103-138 | otherwise the block is placed at the bottom of the lowest gap that fits |
| `HeapModel.MallocKeepsInvIff` | brandy-2.0/spl/common/malloc.c:105-138 | a granted request leaves the heap well formed if and only if the sum at its gap does not wrap |
| `HeapModel.MallocKeepsInv` | brandy-2.0/spl/common/malloc.c:94-139 | malloc keeps the heap well formed and returns a block that was not live before |
| `HeapModel.FreeKeepsInv` | brandy-2.0/spl/common/malloc.c:220-243 | free keeps the heap well formed, and the pointer is dead afterwards |
| `HeapModel.FreeUndoesMalloc` | brandy-2.0/spl/common/malloc.c:94-243 | freeing what malloc has just returned restores the heap exactly |
| `HeapModel.FreeAllRestores` | brandy-2.0/spl/common/malloc.c:220-243 | freeing all live blocks in any order leaves the heap of malloc_init |
| `HeapModel.ReallocOutcome` | brandy-2.0/spl/common/malloc.c:151-207 | realloc keeps the heap well formed; the pointer it returns is live and large enough, except exactly when a moved block lands directly below the one it replaces |
| `HeapModel.ReallocServesIff` | brandy-2.0/spl/common/malloc.c:151-207 | in a heap that ends a header below the top, a successful realloc that does not move a block directly below its old place leaves a well-formed heap and a live block as large as asked if and only if no sum that decides it wraps |
| `HeapModel.GrowsInPlaceIff` | brandy-2.0/spl/common/malloc.c:183-196 | an exact growth stays in place if and only if the size stays or the gap above holds it and two headers, and then only the block's sizes change |
| `HeapModel.GrowthShrinks` | brandy-2.0/spl/common/malloc.c:183-196 | a growth by almost 4 GiB wraps and shrinks the block in place |
| `HeapModel.RecordsGrowthIff` | brandy-2.0/spl/common/malloc.c:183-196 | an in-place realloc records the larger request if and only if it does not take the early return |
| `HeapModel.GrowthForgotten` | brandy-2.0/spl/common/malloc.c:184-187 | two growths by 15 of a one-byte block both succeed in 16 bytes |
| `HeapModel.MovedBlockLost` | brandy-2.0/spl/common/malloc.c:175-204 | a block moved directly below its old place: the pointer handed back is not in the list, and the next request of that size gets the same bytes |
| `HeapModel.ReallocKeepsBytes` | brandy-2.0/spl/common/malloc.c:151-207 | a successful realloc keeps the bytes of the block, in place or moved |
| `HeapModel.MoveDetail` | brandy-2.0/spl/common/malloc.c:198-206 | a successful proper move: the new block is fresh, live, large enough for the copy, and the old one is dead |
| `HeapModel.ApplyKeepsInv` | brandy-2.0/spl/common/malloc.c:94-243 | every proper call keeps the heap well formed, rounded, and its bounds |
| `HeapModel.BlockSurvives` | brandy-2.0/spl/common/malloc.c:94-243 | a proper call leaves every block it does not name in the list unchanged |
| `HeapModel.StepKeepsBlock` | brandy-2.0/spl/common/malloc.c:94-243 | one proper call or store changes no byte of a block it does not touch |
| `HeapModel.MoveTargetIsFresh` | brandy-2.0/spl/common/malloc.c:203 | the copy of a moved block goes to data no other block owns |
| `HeapModel.RunKeepsInv` | brandy-2.0/spl/common/malloc.c:72-243 | the heap is well formed at every moment of every proper run from malloc_init |
| `HeapModel.RunKeepsBlock` | brandy-2.0/spl/common/malloc.c:72-243 | over any stretch of a run that does not touch a block, it stays live with all its bytes |
| `BootHeapCode.DataWriteKeepsList` | brandy-2.0/spl/common/malloc.c:42-48 | a write inside the data of a live block destroys no header of the linked list |
| `BootHeapCode.LinkedInsert` | brandy-2.0/spl/common/malloc.c:128-136 | writing a header into a fitting gap and linking it in gives exactly the list of the heap with the new block |
| `BootHeapCode.LinkedRemove` | brandy-2.0/spl/common/malloc.c:235-240 | pointing the predecessor past a node gives exactly the list of the heap without the block |
| `BootHeapCode.LinkedGrow` | brandy-2.0/spl/common/malloc.c:192-193 | rewriting the sizes of a node gives the list of the heap with the block resized |
| `BootHeapCode.MoveCuts` | brandy-2.0/spl/common/malloc.c:198-204 | cutting with the predecessor found before the inner malloc removes the old block, and the new one too when it was placed between |
| `BootHeapCode.BootHeap.constructor` | brandy-2.0/spl/common/malloc.c:72-81 | malloc_init leaves the empty heap as a linked list |
| `BootHeapCode.BootHeap.SearchGap` | brandy-2.0/spl/common/malloc.c:103-119 | the search loop stops at the first gap the wrapping test accepts, or at the tail |
| `BootHeapCode.BootHeap.Malloc` | brandy-2.0/spl/common/malloc.c:94-139 | malloc on the node list is the abstract allocation, result and list, for every request whose chosen sum does not wrap |
| `BootHeapCode.BootHeap.SearchBefore` | brandy-2.0/spl/common/malloc.c:166-176 | the search loop of free and realloc stops before the node with the given data address, or at the tail |
| `BootHeapCode.BootHeap.Free` | brandy-2.0/spl/common/malloc.c:220-243 | free on the node list is the abstract release, for every pointer but the heap end |
| `BootHeapCode.BootHeap.Realloc` | brandy-2.0/spl/common/malloc.c:151-207 | realloc on the node list is the abstract resize in all its cases: malloc for a null pointer, nothing for no increment, 0 for a pointer that is not live |
| `BootHeapCode.BootHeap.MoveBlock` | brandy-2.0/spl/common/malloc.c:198-206 | the move path: allocate, copy, cut with the stale predecessor |
| `Gpio.PinWriter.Flush` | brandy-2.0/spl/drivers/pinmux.c:403-412 | all held words are written back, the data word only if it was changed |
| `Gpio.PinWriter.Switch` | brandy-2.0/spl/drivers/pinmux.c:309-366 | moving to another group writes back what is left and loses no pending field |
| `Gpio.PinWriter.MoveDrive` | brandy-2.0/spl/drivers/pinmux.c:352-360 | both arms of the drive-register switch select the main controller |
| `Gpio.PinWriter.UpdateWords` | brandy-2.0/spl/drivers/pinmux.c:368-400 | a pin changes exactly its function, pull, drive and data fields of the held words |
| `Gpio.PinWriter.BootSetGpio` | brandy-2.0/spl/drivers/pinmux.c:206-415 | for every pin list, the register file left is that of setting the pins of the first run of non-zero ports one by one, with the drive registers the code picks; -1 and no change if there is no such pin |
| `Gpio.PinWriter.BootSetGpioNew` | brandy-2.0/spl/drivers/pinmux.c:420-624 | the same for the list without its unused entries |
| `Gpio.FirstRunIs` | brandy-2.0/spl/drivers/pinmux.c:224-308 | the run starts behind the entries with port 0 and ends at the next of them or at the end of the list |
| `Gpio.UsedOne` | brandy-2.0/spl/drivers/pinmux.c:442-444 | an entry is in use unless its port or its number is 0xFF |
| `Gpio.UsedConcat` | brandy-2.0/spl/drivers/pinmux.c:511-517 | the entries in use keep their order |
| `GpioTheorems.PinBit` | brandy-2.0/spl/drivers/pinmux.c:264-293 | each bit after one pin: the bit asked for inside its fields, the old bit elsewhere |
| `GpioTheorems.OnePin` | brandy-2.0/spl/drivers/pinmux.c:264-293 | after one entry, in absolute positions: bit j of register i of a kind is a bit of the entry's setting if 32 i + j lies in the pin's field, which starts at 4, 2, 4 or 2, and 1 times the pin number for function, pull, drive and data, and the old bit otherwise |
| `GpioTheorems.PinsApart` | brandy-2.0/spl/drivers/pinmux.c:264-293 | different pins share no bit of any register |
| `GpioTheorems.OtherPinsKept` | brandy-2.0/spl/drivers/pinmux.c:264-293 | setting one pin leaves every field of every other pin as it was |
| `GpioTheorems.BatchBit` | brandy-2.0/spl/drivers/pinmux.c:206-415 | after a run that batching gets right every bit is as the last entry for its pin asks, in the same absolute positions, or as it was |
| `GpioTheorems.UntouchedBit` | brandy-2.0/spl/drivers/pinmux.c:206-415 | a bit no pin of the run writes keeps its value |
| `GpioTheorems.LastPinWins` | brandy-2.0/spl/drivers/pinmux.c:206-415 | a bit that pins of the run write ends as the last of them asks |
| `GpioTheorems.DriveRegIff` | brandy-2.0/spl/drivers/pinmux.c:340-361 | the code uses a pin's own drive register except exactly for ports from 12 after a change of drive group inside the pull group |
| `GpioTheorems.CleanIsPinwise` | brandy-2.0/spl/drivers/pinmux.c:206-415 | when every drive level reaches its own register and the first pin asks for a function, batching equals setting each pin as it asks |
| `GpioTheorems.BatchIsPinwiseIff` | brandy-2.0/spl/drivers/pinmux.c:206-415 | batching equals setting each pin as it asks, for all register contents, if and only if no pin of a port from 12 sets a drive level after the drive group has changed inside its pull group, and the first pin or a later entry for the same pin asks for a function |
| `GpioTheorems.ForcedDiffers` | brandy-2.0/spl/drivers/pinmux.c:264-270 | a first pin with a negative function still has its function field overwritten |
| `GpioTheorems.ForcedExample` | brandy-2.0/spl/drivers/pinmux.c:264-377 | an entry that asks for nothing writes a register when it is the only one, and does not as a second one |
| `GpioTheorems.StaleDiffers` | brandy-2.0/spl/drivers/pinmux.c:352-360 | otherwise a register and a content are produced on which the two differ |
| `GpioTheorems.CleanEnough` | brandy-2.0/spl/drivers/pinmux.c:340-361 | runs on ports below 12, and chips with equal pull and drive groups, are clean |
| `GpioTheorems.StaleExample` | brandy-2.0/spl/drivers/pinmux.c:352-360 | two neighbouring pins of port 12 with 4-bit drive fields go wrong |
| `GpioTheorems.AddressInjective` | brandy-2.0/spl/include/arch/gpio.h:395-518 | for all three register layouts and both port numberings, distinct registers have distinct addresses on every board whose main controller ends below the second one |
| `GpioTheorems.FourthPortAliases` | brandy-2.0/spl/include/arch/gpio.h:484-493 | with a fourth port on the second controller of the third layout they would not |
| `GpioTheorems.FarBases` | brandy-2.0/spl/include/arch/cpu_ncat.h:93-157 | the bases of the older chips separate the controllers for all 255 ports |
| `GpioTheorems.Sun300Iff` | brandy-2.0/spl/include/arch/sun300iw1p1/cpu_sun300iw1.h:44-45 | on sun300iw1p1 the addresses are distinct if and only if the main controller has at most 28 ports, 29 when numbered from 0 |
| `SpifChain.ReadBlock` | brandy-2.0/spl/drivers/spi-mem.c:406-432 | the length in a block word decodes back to the piece length |
| `SpifChain.ReadCount` | brandy-2.0/spl/drivers/spi-mem.c:406-432 | the length in a count word decodes back to the piece length |
| `SpifChain.PiecesIsCeiling` | brandy-2.0/spl/drivers/spi-mem.c:267-268 | the driver's quotient is the number of pieces, for every length for which its sum does not wrap |
| `SpifChain.BuildChain` | brandy-2.0/spl/drivers/spi-mem.c:399-446 | the loop fills and links exactly the descriptors of the pieces, the last one marked |
| `SpifChain.NextDesc` | brandy-2.0/spl/drivers/spi-mem.c:415-432 | the next descriptor differs from the current one only in addresses and lengths |
| `SpifEngine.DescFields` | brandy-2.0/spl/drivers/spi-mem.c:399-446 | descriptor k names the flash address, memory address and length of piece k |
| `SpifEngine.DescLinks` | brandy-2.0/spl/drivers/spi-mem.c:434-446 | only the last descriptor ends the chain, every other links to its successor |
| `SpifEngine.TransferJoin` | brandy-2.0/spl/drivers/spi-mem.c:414-444 | adjacent transfers add up to one transfer |
| `SpifEngine.FollowsLinks` | brandy-2.0/spl/drivers/spi-mem.c:434-446 | an engine on properly linked descriptors visits each once, in order, and stops |
| `SpifEngine.ChainIsTransfer` | brandy-2.0/spl/drivers/spi-mem.c:399-476 | an engine running the chain performs exactly the one requested transfer, for every length and direction |
| `SpifOp.FirstCount` | brandy-2.0/spl/drivers/spi-mem.c:305-363 | the bit operations on the count word give the address size and dummy fields |
| `SpifOp.ChainFitsIff` | brandy-2.0/spl/drivers/spi-mem.c:267-290 | the descriptors fit the buffer size asked for if and only if its 32-bit sum does not wrap |
| `SpifOp.MallocAlign` | brandy-2.0/spl/drivers/spi-mem.c:75-89 | the aligned address is the next multiple of the line size and stays inside the allocation |
| `SpifOp.SpifDriver.ReserveBuffer` | brandy-2.0/spl/drivers/spi-mem.c:273-290 | the static buffer is kept when large enough, else replaced; a failed allocation is reported |
| `SpifOp.SpifDriver.ExecOp` | brandy-2.0/spl/drivers/spi-mem.c:263-476 | the whole operation changes memory and flash as specified, through the bounce buffer when the caller's buffer is misaligned, and its descriptors decode to a 4-byte address exactly when 4 are asked for, to its dummy cycles and its command words |
| `SpifOp.ReadIsExact` | brandy-2.0/spl/drivers/spi-mem.c:320-476 | a read fills the caller's buffer with the flash bytes from the 32-bit address asked for on, or from 0 without an address, and changes nothing else outside the bounce buffer |
| `SpifOp.WriteIsExact` | brandy-2.0/spl/drivers/spi-mem.c:320-476 | a write changes exactly the flash bytes from the address asked for on, to the caller's bytes |
| `SpifOp.WriteKeepsMemory` | brandy-2.0/spl/drivers/spi-mem.c:382-394 | a write changes no memory but the bounce buffer |
| `SpifOp.CountCarries` | brandy-2.0/spl/drivers/spi-mem.c:320-363 | the count word decodes to the address size and the dummy cycles asked for |
| `SpifOp.MissingBounce` | brandy-2.0/spl/drivers/spi-mem.c:369-391 | without memory for the bounce buffer the code carries on at address 0 and overwrites the first byte of memory, reading or writing |
| `SpifOp.ConfinedIff` | brandy-2.0/spl/drivers/spi-mem.c:366-476 | for all contents, no memory but the caller's buffer and the bounce allocation changes, if and only if nothing is transferred, the caller's buffer is aligned, or the bounce buffer was allocated |
| `Crc32.TableCorrect` | brandy-2.0/spl/common/crc32.c:34-78 | each of the 256 table entries is its index divided by eight bits of the reflected polynomial |
| `Crc32.EightLinear` | brandy-2.0/spl/common/crc32.c:80-90 | eight division steps are linear |
| `Crc32.EightAbsorbs` | brandy-2.0/spl/common/crc32.c:80-90 | a word added above the low byte before eight divisions is the word added after them |
| `Crc32.LookUp` | brandy-2.0/spl/common/crc32.c:85-86 | one table look-up is eight bits of division |
| `Crc32.Crc32` | brandy-2.0/spl/common/crc32.c:80-95 | for every byte sequence the table-driven loop computes the CRC of section 8 of RFC 1952 |
| `Crc32.FoldInjective` | brandy-2.0/spl/common/crc32.c:84-87 | equal bytes never merge distinct registers |
| `Crc32.FourDistinct` | brandy-2.0/spl/common/crc32.c:84-87 | four bytes are told apart by the register they leave |
| `Crc32.DetectsByte` | brandy-2.0/spl/common/crc32.c:80-95 | changing exactly one byte of a buffer of any length changes the CRC |
| `Crc32.DetectsBurst` | brandy-2.0/spl/common/crc32.c:80-95 | so does any change within four consecutive bytes |
| `Crc32.Residue` | brandy-2.0/spl/common/crc32.c:80-95 | a message followed by its own CRC has the same CRC whatever the message |
| `ShellSort.FirstGap` | brandy-2.0/u-boot-2018/lib/qsort.c:32-37 | the first gap is of the form 1, 4, 13, ..., at least a third of the last index and below the number of items |
| `ShellSort.Insert` | brandy-2.0/u-boot-2018/lib/qsort.c:43-60 | an item moves down its chain until the chain is in order, keeping all items |
| `ShellSort.Qsort` | brandy-2.0/u-boot-2018/lib/qsort.c:22-66 | the result is a rearrangement with no neighbours out of order, for every comparison that is not positive both ways |
| `EfiMemTable.CmpEntryAgreesIff` | brandy-2.0/u-boot-2018/cmd/efi.c:55-66 | the comparison is the order of the addresses if and only if they are less than half the address space apart |
| `EfiMemTable.CmpEntryFlips` | brandy-2.0/u-boot-2018/cmd/efi.c:55-66 | it is never positive both ways |
| `EfiMemTable.Place` | brandy-2.0/u-boot-2018/cmd/efi.c:88-111 | one turn of the loop keeps or joins the descriptor and touches nothing unread |
| `EfiMemTable.Compact` | brandy-2.0/u-boot-2018/cmd/efi.c:83-116 | the compaction in place leaves the table of the ordered list and the end marker |
| `EfiMemTable.BuildMemTable` | brandy-2.0/u-boot-2018/cmd/efi.c:68-119 | the whole function leaves the table of an ordered rearrangement of the map |
| `EfiMemTable.TableIsJoined` | brandy-2.0/u-boot-2018/cmd/efi.c:97-113 | with boot services skipped, no table has two neighbouring conventional regions that touch |
| `EfiMemTable.TableWithoutSkip` | brandy-2.0/u-boot-2018/cmd/efi.c:97-98 | without skipping, the table is the ordered list |
| `EfiMemTable.PagesKept` | brandy-2.0/u-boot-2018/cmd/efi.c:106-107 | pages are conserved |
| `EfiMemTable.KindIs` | brandy-2.0/u-boot-2018/cmd/efi.c:48-53 | only kinds 1 to 4 change, to 7, and only when skipping |
| `EfiMemTable.EntriesComeFrom` | brandy-2.0/u-boot-2018/cmd/efi.c:88-111 | every entry has the start, the kind and the carried fields of a descriptor; a joined region those of its first |
| `EfiMemTable.TableMaps` | brandy-2.0/u-boot-2018/cmd/efi.c:83-113 | the table gives every address exactly the kinds of the descriptors that were not joined past the top of the address space |
| `EfiMemTable.MapKeptIff` | brandy-2.0/u-boot-2018/cmd/efi.c:97-113 | on ordered lists without overlap every address keeps its kind if and only if no conventional region up to the very top is followed by one at address 0, empty ones at 0 between them or not |
| `EfiMemTable.TableOfMap` | brandy-2.0/u-boot-2018/cmd/efi.c:68-119 | for every map without overlap with close addresses, in any order: the table is sorted, maps every address to the kind it had, and has as many pages |
| `EfiMemTable.WrapExample` | brandy-2.0/u-boot-2018/cmd/efi.c:55-113 | two regions more than half the address space apart: only the wrong order passes the comparison, they are joined, and address 0 is lost |
| `EfiOrders.AlwaysSortedIff` | brandy-2.0/u-boot-2018/cmd/efi.c:55-82 | every order the sort may leave a map in is ascending if and only if no two starts are half the address space apart |
| `EfiOrders.AlwaysKeptIff` | brandy-2.0/u-boot-2018/cmd/efi.c:68-119 | every order the sort may leave keeps every address's kind if and only if the map has no conventional region from the upper half up to the very top together with one at 0 |
| `EfiOrders.KeptUnlessStraddling` | brandy-2.0/u-boot-2018/cmd/efi.c:68-119 | one direction of this for maps with empty descriptors too |
| `MemCopy.WordIsFourBytes` | brandy-2.0/spl/common/memcpy_sunxi.c:61-72 | between aligned addresses one word copied is four bytes copied upwards |
| `MemCopy.MemCpy` | brandy-2.0/spl/common/memcpy_sunxi.c:48-85 | blocks, words and bytes together are the byte copy upwards, for every overlap, length and alignment |
| `MemCopy.ForwardAt` | brandy-2.0/spl/common/memcpy_sunxi.c:48-85 | what an upward copy leaves at every address, overlap included |
| `MemCopy.MemCpyIsCopyIff` | brandy-2.0/spl/common/memcpy_sunxi.c:48-85 | memcpy leaves a copy if and only if the source repeats with the distance, when it starts below the destination |
| `MemCopy.MemCpySafeIff` | brandy-2.0/spl/common/memcpy_sunxi.c:48-85 | it does so for all contents if and only if the destination does not start inside the source |
| `MemCopy.MemMove` | brandy-2.0/spl/common/string.c:212-227 | memmove leaves the old source bytes in the destination and all else unchanged, for every overlap, length and alignment |
| `EnvRedundant.FwEnv.Open` | brandy-2.0/spl/common/env.c:429-603 | succeeds if and only if every step does and a copy is good, and then holds a good copy, the one of the selection rule; a second open changes nothing; a failed step or two bad copies give -1 and leave it closed |
| `EnvRedundant.SelectIsGood` | brandy-2.0/spl/common/env.c:538-545 | a copy is chosen if and only if one is good, and the chosen one is |
| `EnvRedundant.SelectIs` | brandy-2.0/spl/common/env.c:538-578 | which copy is chosen, for every pair of counters |
| `EnvRedundant.LatestIsSelected` | brandy-2.0/spl/common/env.c:538-570 | the latest copy is chosen, across the wrap of the counter too |
| `EnvRedundant.StepKeepsLatest` | brandy-2.0/spl/common/env.c:372-395 | opening, writing once, crashing while writing and closing all keep one copy the latest |
| `EnvRedundant.RunSelectsLastWritten` | brandy-2.0/spl/common/env.c:538-594 | in every run with at most one write per open the selected copy holds what was completely written last |
| `EnvRedundant.SeveralWritesIff` | brandy-2.0/spl/common/env.c:372-395 | after any number of writes in one session the new copy is selected if and only if the counter did not pass its wrap, but for 255 to 0, nor went from 0 to 255 |
| `EnvRedundant.DamagedIsBad` | brandy-2.0/spl/common/env.c:493-498 | a good copy damaged within four consecutive bytes is bad |
| `EnvLookup.EnvMatch` | brandy-2.0/spl/common/env.c:105-116 | the comparison finds the value if and only if the entry starts with the key of the name and an equals sign |
| `EnvLookup.StopsInsideIff` | brandy-2.0/spl/common/env.c:110-115 | the comparison stops inside both strings unless the entry is the bare name without an equals sign |
| `EnvLookup.MatchIff` | brandy-2.0/spl/common/env.c:105-116 | a key matches exactly its own entry, never a prefix or an extension of its key |
| `EnvLookup.FindEnd` | brandy-2.0/spl/common/env.c:136-141 | the end of an entry, or none when it runs past the block |
| `EnvLookup.FwGetenv` | brandy-2.0/spl/common/env.c:122-148 | the search over the block, its errors included, is the specified scan |
| `EnvLookup.ScanIsAssoc` | brandy-2.0/spl/common/env.c:133-147 | on a well-formed block the scan is association-list look-up |
| `EnvLookup.GetIsAssoc` | brandy-2.0/spl/common/env.c:122-148 | for every well-formed block with an entry the first value of the key is returned, or nothing |
| `EnvLookup.ScanSound` | brandy-2.0/spl/common/env.c:133-147 | in every block, well formed or not, a value that is found ends inside the block and has the key and an equals sign before it, and a NUL before them or the start of the search |
| `EnvLookup.EmptyBlockIff` | brandy-2.0/spl/common/env.c:126-131 | in an empty block no name is found if and only if the text behind it has no equals sign |
| `EnvLookup.StaleExample` | brandy-2.0/spl/common/env.c:126-131 | an entry left behind an empty block is found |
| `Eeprom.ChunkFits` | brandy-2.0/u-boot-2018/cmd/eeprom.c:104-125 | every chunk is non-empty, and stays in its page when pages have at most 256 bytes |
| `Eeprom.ChunkIsLongest` | brandy-2.0/u-boot-2018/cmd/eeprom.c:104-125 | a chunk is cut short only by the end of the transfer, the limit of the bus or the end of a page |
| `Eeprom.WriteChunks` | brandy-2.0/u-boot-2018/cmd/eeprom.c:163-175 | the loop writes the chunks in order and ends |
| `Eeprom.EepromWrite` | brandy-2.0/u-boot-2018/cmd/eeprom.c:155-178 | the transfer for every offset and length; nothing is written and 0 returned when offset plus length wraps |
| `Eeprom.CutsInPages` | brandy-2.0/u-boot-2018/cmd/eeprom.c:104-175 | the chunks are consecutive, non-empty, within the limit, inside one page each, and make up the transfer |
| `Eeprom.WriteIsLinear` | brandy-2.0/u-boot-2018/cmd/eeprom.c:155-178 | on a device that wraps inside its pages the chunked write is one linear write |
| `Eeprom.CrossingWrite` | brandy-2.0/u-boot-2018/cmd/eeprom.c:114-118 | with larger pages a byte behind the end of a page lands at the start of that page |
| `Eeprom.LinearIff` | brandy-2.0/u-boot-2018/cmd/eeprom.c:104-178 | on devices of two or more pages every write is linear if and only if pages have at most 256 bytes or bytes go out singly |
| `Eeprom.ResultIsLast` | brandy-2.0/u-boot-2018/cmd/eeprom.c:168-177 | the result code is that of the last chunk; other failures go unreported |
| `DevEnum.Enumerator.StorGet` | brandy-2.0/u-boot-2018/api/api_storage.c:98-149 | the next device behind the cookie, from the start without one, none for a foreign one |
| `DevEnum.Enumerator.StorType` | brandy-2.0/u-boot-2018/api/api_storage.c:154-164 | the group of a device |
| `DevEnum.Enumerator.EnumStor` | brandy-2.0/u-boot-2018/api/api_storage.c:175-263 | one group is asked: its device is the first still to come, or the rest comes from later groups |
| `DevEnum.Enumerator.Reset` | brandy-2.0/u-boot-2018/api/api_storage.c:265-273 | no group is started or ended |
| `DevEnum.Enumerator.EnumStorage` | brandy-2.0/u-boot-2018/api/api_storage.c:275-286 | the first device still to come, or none if none is left |
| `DevEnum.Enumerator.DevEnum` | brandy-2.0/u-boot-2018/api/api.c:196-226 | each call hands out the first of the devices still to come and leaves the others to come |
| `DevEnum.Round` | brandy-2.0/u-boot-2018/api/api.c:173-226 | a caller passing back each cookie gets the whole round in order, then none, and the same again in the next round |
| `DevEnum.AllIsAll` | brandy-2.0/u-boot-2018/api/api_storage.c:98-149 | the reference list holds every active device once, in (group, index) order |
| `DevEnum.RoundIsComplete` | brandy-2.0/u-boot-2018/api/api_storage.c:98-286 | without a network device and with all present devices active, a round hands out every device once, in order |
| `DevEnum.RoundCompleteIff` | brandy-2.0/u-boot-2018/api/api_storage.c:108-117 | a round is complete if and only if no active device stands behind an inactive one, in the configured group after it, or in the first configured group after the network device |
| `DevEnum.HiddenByInactive` | brandy-2.0/u-boot-2018/api/api_storage.c:133-145 | an inactive device hides the whole next group |
| `DevEnum.HiddenByNet` | brandy-2.0/u-boot-2018/api/api_net.c:56-71 | the network device hides the whole first group |
| `Numerals.PrintInfo.OutDgt` | brandy-2.0/spl/common/printf.c:75-84 | appends the character of a digit |
| `Numerals.Divide` | brandy-2.0/spl/common/printf.c:89-94 | repeated subtraction yields the true digit and remainder |
| `Numerals.DivOut` | brandy-2.0/spl/common/printf.c:86-98 | one digit, leading zeros suppressed, with what is written and what is left making up the number |
| `Numerals.Format` | brandy-2.0/spl/common/printf.c:295-340 | the buffer holds the numeral of the number and its closing NUL, within 12 bytes |
| `Numerals.Pad` | brandy-2.0/spl/common/printf.c:354-364 | the field is the text padded on the left to the width |
| `Numerals.PrintNumber` | brandy-2.0/spl/common/printf.c:295-364 | the printed field is the padded numeral, for every 32-bit number, both bases and any width |
| `Numerals.StrtoulDigits` | brandy-2.0/spl/common/string.c:297-300 | the longest run of digits and its value in 32 bits |
| `Numerals.Strtoul` | brandy-2.0/spl/common/string.c:273-307 | the value and the end for every text and base, prefixes included |
| `Numerals.RoundTrip` | brandy-2.0/spl/common/string.c:289-307 | a zero-padded numeral is read back as its number, and reading stops right behind it |
| `Numerals.DigitTable` | brandy-2.0/spl/common/string.c:297 | the digits in both cases, and no others |
| `Numerals.HexPrefix` | brandy-2.0/spl/common/string.c:273-307 | digits behind 0x or 0X are read in base 16, also with the base left open |
| `Numerals.BarePrefix` | brandy-2.0/spl/common/string.c:273-286 | 0x without a digit behind it: what is read with the base left open, and in base 16 |
| `Numerals.OctalPrefix` | brandy-2.0/spl/common/string.c:273-307 | digits behind a 0 are read in base 8 with the base left open |
| `Numerals.NoPrefixDecimal` | brandy-2.0/spl/common/string.c:273-307 | other digits are read in base 10 with the base left open |
| `Numerals.FieldReadsBackIff` | brandy-2.0/spl/common/printf.c:354-364 | a printed field is read back whole if and only if it is not padded with blanks |
| `Checksum.SumScalar` | brandy-2.0/spl/common/boot_utils.c:111-123 | the unrolled loop is the 32-bit sum, for at least four words |
| `Checksum.SumLanes` | brandy-2.0/spl/common/boot_utils.c:69-82 | the four-lane loop is the same sum |
| `Checksum.GenerateChecksum` | brandy-2.0/spl/common/boot_utils.c:177-199 | subtracting the old checksum and adding the stamp is summing with the stamp in its place |
| `Checksum.VerifyAddsum` | brandy-2.0/spl/common/boot_utils.c:53-136 | scalar or vector: accepted if and only if the stamped sum is the checksum word; the buffer is unchanged |
| `Checksum.VerifyChecksum` | brandy-2.0/spl/common/boot_utils.c:201-211 | accepted if and only if the stamped sum is the given checksum |
| `Checksum.SealIsValid` | brandy-2.0/spl/common/boot_utils.c:177-211 | storing the generated checksum makes the buffer valid |
| `Checksum.DetectsWord` | brandy-2.0/spl/common/boot_utils.c:177-211 | a valid buffer with one word changed is invalid |
| `BootParam.Param.CheckLegality` | brandy-2.0/spl/common/boot_param.c:160-182 | accepted if and only if magic, boot0 checksum and checksum are right |
| `BootParam.Param.Load` | brandy-2.0/spl/common/boot_param.c:206-242 | the block on flash if legal, else zeros with boot0's DRAM parameters, the download flag, the magic and boot0's checksum in their places |
| `BootParam.Param.FormatAndTransfer` | brandy-2.0/spl/common/boot_param.c:245-264 | the block is sealed, no other word changes, and it is handed on |
| `BootParam.MagicSpells` | brandy-2.0/spl/include/boot_param.h:41 | the magic words are the text "bootpara" |
| `BootParam.SealedIsLegalIff` | brandy-2.0/spl/common/boot_param.c:160-254 | a sealed block is legal if and only if its magic and boot0 checksum are right; sealing twice is sealing once |
| `BootParam.NextBootKeeps` | brandy-2.0/spl/common/boot_param.c:206-264 | whatever is on flash: what is loaded, sealed and stored is loaded unchanged at the next boot, DRAM data included |
| `BootParam.DamageFallsBack` | brandy-2.0/spl/common/boot_param.c:216-234 | one changed word makes the next boot use the defaults |
| `ElfLoader.FirstRangeMoves` | brandy-2.0/spl/common/elf_loader.c:69-84 | the first range with vstart <= address <= vend moves it to address - vstart + pstart in 32 bits, and in no range it stays |
| `ElfLoader.SetImgVaToPa` | brandy-2.0/spl/common/elf_loader.c:69-84 | the loop computes the mapping |
| `ElfLoader.LoadSegment` | brandy-2.0/spl/common/elf_loader.c:123-128 | the file bytes, then zeros up to the memory size, and nothing else |
| `ElfLoader.LoadElfImage` | brandy-2.0/spl/common/elf_loader.c:95-132 | for every header table: each address holds what the last PT_LOAD header with file bytes to fill it puts there, the file byte or 0 behind the file bytes, and an address no such header fills is unchanged |
| `ElfLoader.EachInPlace` | brandy-2.0/spl/common/elf_loader.c:109-129 | with destinations that do not meet, each PT_LOAD segment is in place whole, file bytes then zeros up to its memory size |
| `ElfLoader.UnfilledByte` | brandy-2.0/spl/common/elf_loader.c:109-129 | memory no such header fills is unchanged |
| `Gzip.ParseHeader` | brandy-2.0/spl/common/gunzip.c:65-91 | -1 for a method other than 8, for a reserved flag, or when no data is left, else the end of the header |
| `Gzip.EndOfHeader` | brandy-2.0/spl/common/gunzip.c:69-90 | for every well-formed header, whatever its parts and lengths, the end found is exactly its length |

## Left out

- The cache-line build of `malloc`, which moves the data address up after the test for room, and 64-bit addresses.
- `free` and `realloc` of the heap's end address, which would unlink the tail.
- HeapModel.ReallocOutcome: growths in which a sum that decides wraps are excluded; HeapModel.ReallocServesIff says that
  they fail.
- HeapModel.RunKeepsBlock: runs hold no request whose sums wrap, which HeapModel.MallocKeepsInvIff says would break the
  heap, and no move directly below the old block.
- BootHeapCode.BootHeap.Realloc: the same growths are excluded.
- IO voltage modes, `fdt_get_one_gpio` and the single-pin accessors of `pinmux.c`.
- Gpio.PinWriter.BootSetGpio: registers are named by controller, port, kind and index; their addresses are the
  subject of GpioTheorems.AddressInjective.
- The command, mode and bus-width words of SPIF descriptors are carried along unread; the build with
  `CFG_AMP_DELEG_SPIF_IRQ`, `spif_mem_exec_op_v0` and the non-SPIF branch are not modelled, nor is a failing transfer.
- SpifOp.SpifDriver.ExecOp: what `malloc` returns is a parameter; lengths for which the size of the descriptor buffer
  wraps are excluded, as SpifOp.ChainFitsIff says that the chain then overruns the buffer.
- Crc32.Crc32: the unused first argument of `crc32` is dropped.
- EfiMemTable.BuildMemTable: a failed allocation is not modelled, and the table takes descriptors of one size, their
  further fields kept as one value; in a joined region those are the fields of its first descriptor.
- EfiOrders.AlwaysKeptIff: maps with empty descriptors, which the UEFI specification forbids, are excluded; for them
  EfiOrders.KeptUnlessStraddling has one direction.
- ShellSort.Qsort: items are swapped whole, not byte by byte.
- MemCopy.MemCpy: addresses do not wrap.
- EnvRedundant.FwEnv.Open: the single-copy build, and the boolean flag scheme, which the build never uses.
- EnvRedundant.RunSelectsLastWritten: the writer is compiled out of boot0 and stands for its environment; that a
  torn copy fails its CRC is assumed of the crash, and EnvRedundant.DamagedIsBad says for which damage it is certain.
- EnvLookup.EnvMatch: an entry that is the bare name without an equals sign is excluded, because the comparison then
  runs on behind both strings, and only then (EnvLookup.StopsInsideIff).
- EnvLookup.FwGetenv: the same.
- Eeprom.EepromWrite: reading, FRAM devices and the address bytes of `eeprom_addr`.
- DevEnum.Enumerator.DevEnum: cookies that no earlier call returned, and the fields of `device_info` besides the cookie.
- Numerals.PrintNumber: `%d`, `%s`, `%c`, `%p` and 64-bit `long`.
- Checksum.GenerateChecksum: divisors other than 1, which sum only part of the buffer, and buffers of fewer than four
  words, which the loops overrun.
- BootParam.Param.Load: the FES build, which does not read flash.
- ElfLoader.LoadElfImage: the header table is given as a list rather than read from the image's bytes; segments whose
  memory size is below their file size; the search for sections.
- Gzip.ParseHeader: headers it accepts whose strings are not closed, which the code reads past; inflating.
- Register polling, clocks, resets, watchdog, RTC, keys, AVB, lz4, lzma, libfdt and filesystem back ends: no
  specification apart from the hardware, or bodies that are not part of this model.
- Argument dispatch, menus and printing of `cmd/`, which wrap other functions.
