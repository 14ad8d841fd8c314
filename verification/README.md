# Verified core of a realtime DMX controller platform

The repository is the firmware base of network lighting controllers: a C library without an operating system under
it, a configuration store in flash memory, and many device drivers. This project models five parts of it whose
behaviour is more than one body says, and proves what they are for.

1. **Heap** (`Memory`, `HeapModel`, `HeapProofs`, `Malloc`): the segregated-fit allocator. Headers and free-list links
   live in the same byte array as the payloads. The class `Allocator` carries a ghost value of the bookkeeping and the
   history of such values; the representation predicate ties them to memory, and the laws over whole runs are proved
   about the history.
2. **Configuration store** (`ConfigImage`, `ConfigBoot`, `ConfigRuns`, `ConfigStore`, `ConfigDevices`,
   `FlashDrivers`): the 4096-byte image with its 27
   stores, the loader, and the flush machine. `ConfigRuns` is a transition system in which any operation may come
   between any two polls; the methods of the class `ConfigStore` are proved to take its steps, and its ghost history is
   a run. The image may change
   while an erase or a write is under way: the machine then starts over. `ConfigDevices` models the file and the EEPROM
   driver, `FlashDrivers` the two internal-flash drivers that are state machines, and their calls are proved to be
   calls of the device that the machine assumes; `StoreDevice` links one of them to the store.
3. **Formatting and parsing** (`Digits`, `Format`, `Printf`, `HexText`, `Uuid`, `Strtoul`, `RoundFloat`, `Strtok`).
   `Format` says what a format prints as a function; the methods of `Printer` fill the 64-byte buffer backwards and
   write to the bounded sink as the code does. The round trips of `Uuid` and `Strtoul` go through that formatter.
4. **Calendar** (`Calendar`): `gmtime`, `localtime` and `mktime`.
5. **Filter** (`Ema`): the exponential moving average in 16-bit arithmetic.

`Wrappers`, `Integers`, `Bits` and `CStrings` hold what these share. Where a method is proved against a function, laws
that do not name the function say what it is, text by text, byte by byte or bit by bit.

Verify with `dafny verify dfyconfig.toml`.

Some properties one might expect do not hold of the code. Each is proved with its exact condition:

- `mktime` undoes `gmtime` from 1970 to 2039 except from 29 February to 31 December 2000, because month lengths are
  looked up with the year counted from 1900, and 100 is not a leap year (`RoundTripExact`, `RoundTripFails`). `gmtime`
  undoes `mktime` on all accepted fields except those of March to December 2000 (`GmtimeUndoesMktime`).
- `Copy` leaves buffer and store equal, whatever the buffer held, exactly when the slice asked for holds a byte that is
  not 0, or the update flag is set and the offset is 0, or nothing is copied: an empty slice at another offset is still
  seeded at offset 0 (`CopyAgrees`; `CopyDisagrees` is an instance where it fails).
- Data given to `Update` comes back from `Copy`, whatever the buffer held, exactly when it is not all zero: zeros read as
  an empty slice, and a `Copy` with the update flag then writes the buffer's old content over them (`UpdateThenCopy`,
  `ZerosUndone`; `ZeroReadsBackWrong` is an instance).
- The h7xx flash driver fails an assertion when erase is called while a write is under way. The store makes that call
  exactly when a request to flush interrupts a write and no other device call has come in between (`H7Device.Erase`,
  `EraseFindsWrite`; `EraseMeetsWrite` leads there). The fmc driver abandons the write instead. Both never finish a
  write whose length is no multiple of four (`FmcDevice.Write`); the store's length is one.
- The filter settles on a constant input from every state exactly when the input times 2^K is at most 65535 plus the
  rounding half (`ConvergesIff`; `MaximumIsLost` is an instance where it fails).
- A doubled percent sign prints one percent sign and goes on behind it, as the C standard has it, for every list of
  arguments exactly when `--`, `..` or `ll` comes next: an unknown conversion character is printed and then read again
  (`PercentPrintsAsInC`; `PercentAtEnd` is an instance where it fails).
- `snprintf` leaves everything from the size on as it was exactly when the size is at least 1 or a NUL was at the start
  of the string: a size of 0 still writes one (`BoundKept`).
- `calloc` returns room for all that was asked for exactly when the 32-bit product does not wrap (`CallocCovers`;
  `CallocFails` is an instance where it does).
- The region that the configuration store picks lies inside the device exactly when the sector size divides 4096
  (`RegionInside`; `RegionOutside` is an instance where it does not).

## Model

| member | source | states |
|---|---|---|
| HeapModel.Extent | lib-clib/src/malloc.c:120-121 | the bytes of a block are a multiple of 16 and hold header and payload with fewer than 16 to spare |
| HeapModel.BoardTables | lib-clib/src/h3/malloc.h:29 | the bucket table of the H3 board, and that of the GD32 board, are increasing and ended by 0, as every result here supposes |
| HeapModel.Bucket | lib-clib/src/malloc.c:102-112 | first bucket that holds the request: every earlier one is too small |
| HeapModel.Capacity | lib-clib/src/malloc.c:102-112 | never less than the request; CapacityIsDue says which one |
| HeapProofs.CapacityIsDue | lib-clib/src/malloc.c:102-121 | the capacity is exactly the request when every table entry is smaller, and otherwise the least entry that is not |
| HeapProofs.MallocGives | lib-clib/src/malloc.c:94-146 | for the capacity due, without reference to the search: malloc fails exactly when nothing is asked for, or no returned block of that capacity exists and a new one does not fit; it gives a block of just that capacity, reuses one when it can, and otherwise carves it where the last block ends |
| Malloc.ReallocGives | lib-clib/src/malloc.c:215-263 | the block after realloc: the same one when large enough, otherwise another one of the capacity due with the old one given back, or nothing changed; size 0 gives it back |
| HeapProofs.MallocKeepsInv | lib-clib/src/malloc.c:94-146 | any malloc keeps the whole invariant: blocks tile the carved heap, free lists are duplicate-free and hold only free blocks of their size, every block is owned |
| HeapProofs.FreeKeepsInv | lib-clib/src/malloc.c:148-177 | any free of a live block keeps that invariant |
| HeapProofs.MallocMeaning | lib-clib/src/malloc.c:94-146 | when exactly malloc fails, that failure changes nothing, that the block returned was not in use and has the promised capacity, and that recycling carves nothing |
| HeapProofs.OneOwner | lib-clib/src/malloc.c:94-177 | every carved block is exactly one of: in use, at exactly one place of the free list of the bucket with its size, or retired because no bucket has its size |
| HeapProofs.MallocUndoesFree | lib-clib/src/malloc.c:114-116 | the lists are LIFO: malloc of the capacity just freed returns that block and restores the bookkeeping exactly |
| HeapProofs.RetiredForever | lib-clib/src/malloc.c:166-176 | a freed oversize block is never handed out again |
| HeapProofs.RunExtends | lib-clib/src/malloc.c:94-177 | runs of malloc and free keep the invariant at every state |
| HeapProofs.PeakIsMaximum | lib-clib/src/malloc.c:105-109 | the peak used below is the largest number in use at any state of the run, and is reached |
| HeapProofs.CarvedIsPeak | lib-clib/src/malloc.c:102-137 | over every run, the blocks ever carved for a bucket are as many as were ever in use at the same time |
| HeapProofs.EndIsSum | lib-clib/src/malloc.c:118-133 | the bump pointer has moved by the extents of all carved blocks, bucket by bucket, plus the oversize ones |
| HeapProofs.HighWaterMark | lib-clib/src/malloc.c:94-177 | over every run, the heap has grown by exactly the sum of peak times extent over the buckets plus the extents of all oversize blocks |
| Malloc.TakeKeeps | lib-clib/src/malloc.c:114-116 | popping a list head through its `next` word keeps memory a representation of the bookkeeping and every live payload |
| Malloc.CarveKeeps | lib-clib/src/malloc.c:118-139 | writing a header behind the last block keeps the representation and every live payload |
| Malloc.PushKeeps | lib-clib/src/malloc.c:166-176 | pushing a block on its list through its `next` word keeps the representation and every live payload |
| Malloc.FillKeeps | lib-clib/src/malloc.c:197-208 | writing inside one payload keeps every header, list and other payload |
| Malloc.Allocator.HeapShape | lib-clib/src/malloc.c:52-60 | at any time, walking memory from the lowest address by the sizes found there reaches the bump pointer exactly with intact magics; the growth is the sum of peaks; and following each list head through the `next` words meets just the free blocks of the bucket, then null |
| Malloc.Allocator.GetAllocated | lib-clib/src/malloc.c:79-92 | the capacity in the header, or 0 for null or a missing magic |
| Malloc.Allocator.Malloc | lib-clib/src/malloc.c:94-146 | the new bookkeeping, added to the past, and pointer; failure leaves memory alone, success changes only the header before the pointer; all live payloads stay |
| Malloc.Allocator.Free | lib-clib/src/malloc.c:148-177 | the new bookkeeping; only the `next` word before the pointer is written; without a magic nothing changes, the past included |
| Malloc.Allocator.Calloc | lib-clib/src/malloc.c:179-213 | zero bytes as many as the 32-bit product, also in a recycled block, and room for n * size exactly when the product did not wrap; all live payloads stay; at most one step is added to the past |
| Malloc.Allocator.Cleared | lib-clib/src/malloc.c:187-212 | a block of so many zero bytes, also a recycled one; all live payloads stay |
| Malloc.CallocFails | lib-clib/src/malloc.c:187-189 | an instance: 65536 times 65537 bytes give a block of 256 kB on the H3 board |
| Malloc.CallocCovers | lib-clib/src/malloc.c:187-189 | the block that calloc gets is as large as asked for if and only if the product is below 2^32 |
| Malloc.Allocator.Move | lib-clib/src/malloc.c:240-259 | the copy of `size` bytes, more than the old block holds, and the release of the old block: the old payload arrives whole, every other one stays, and the past is extended |
| Malloc.Allocator.Realloc | lib-clib/src/malloc.c:215-263 | keeps the first min(old capacity, new size) bytes and all other payloads; a failure leaves the old block live and memory unchanged; size 0 frees; the past is extended |
| Malloc.Grown | lib-clib/src/malloc.c:228-240 | the larger block found by realloc is a different block, in use, and apart from the old one, which is still in use with its bytes |
| Malloc.WalkTiles | lib-clib/src/malloc.c:55-60 | the blocks are recoverable from memory alone |
| Malloc.FollowLists | lib-clib/src/malloc.c:114-176 | every free list in memory is null-terminated after exactly its blocks, so none has a cycle |
| Memory.Clear | lib-clib/src/malloc.c:197-208 | exactly the given bytes become zero |
| Memory.CopyUp | lib-clib/src/malloc.c:240-255 | an upward copy by words and bytes delivers the part of the source that does not overlap the target, and writes nowhere else |
| ConfigImage.OffsetsOrdered | lib-configstore/src/configstore.cpp:136-148 | stores do not overlap and lie in order |
| ConfigImage.UsedSize | lib-configstore/src/configstore.cpp:115-119 | those of the rest, and that all 27 add up to the length that is written to the device |
| ConfigImage.UpdateRefinesStores | lib-configstore/src/configstore.cpp:163-204 | on the flat image, an update of one store is that update on an array of its own; no other store, the signature, the environment or the tail changes |
| ConfigImage.FirstOffsets | lib-configstore/src/configstore.cpp:136-148 | the offsets of the first stores, as a list |
| ConfigImage.MiddleOffset | lib-configstore/src/configstore.cpp:136-148 | those of the next ones |
| ConfigImage.WordBit | lib-configstore/src/configstore.cpp:193-196 | bit 8q + j of a word in the image is bit j of its q-th byte |
| ConfigImage.SetListBits | lib-configstore/src/configstore.cpp:193-196 | after an update that changed a byte, each of the 32 bits of the set-list word is set if and only if it was set once the data were written or is one of those given |
| ConfigImage.BitSurvives | lib-configstore/src/configstore.cpp:163-204 | a bit once set stays set through every update that does not overwrite its byte |
| ConfigImage.UpdateBytes | lib-configstore/src/configstore.cpp:163-204 | outside the set-list word the data are in their place and every other byte is as before |
| ConfigImage.SameDataChangesNothing | lib-configstore/src/configstore.cpp:182-200 | an update whose data are there already changes nothing, the set list included |
| Bits.OrHasBit | lib-configstore/src/configstore.cpp:195 | a bit of the disjunction is set exactly when it is in one of the two |
| ConfigImage.ResetRefinesStores | lib-configstore/src/configstore.cpp:150-161 | a set-list reset clears the first word of one store and touches nothing else |
| ConfigImage.UpdateThenCopy | lib-configstore/src/configstore.cpp:163-237 | data written without set-list bits is what Copy gives back, at any offset and whatever the buffer held, if and only if it is not all zero or empty |
| ConfigImage.UpdateRead | lib-configstore/src/configstore.cpp:163-237 | and reading it back leaves the image alone |
| ConfigImage.ZerosUndone | lib-configstore/src/configstore.cpp:222-236 | zeros that were written are replaced by the old content of the buffer of the next Copy that may seed, at the start of the store |
| ConfigImage.ZeroReadsBackWrong | lib-configstore/src/configstore.cpp:163-237 | an instance: a zero at the start of the first store reads back as the byte the buffer held |
| ConfigImage.CopyDisagrees | lib-configstore/src/configstore.cpp:206-237 | an instance at offset 4 of the first store |
| ConfigImage.CopyAgrees | lib-configstore/src/configstore.cpp:206-237 | buffer and store slice agree after Copy, whatever the buffer held, if and only if the slice held data, or Copy may seed it and the offset is 0, or there is nothing to copy: seeding always happens at offset 0 |
| ConfigBoot.BootUnsigned | lib-configstore/src/configstore.cpp:93-106 | loading a region without the signature: the signature is put in, bytes 4 to 15 stay, every byte from 16 on is 0, and a flush is asked for |
| ConfigBoot.BootSigned | lib-configstore/src/configstore.cpp:93-128 | loading a region with the signature: every set-list word and the UTC word that reads 0xFFFFFFFF becomes 0, every other byte stays, and no flush is asked for |
| ConfigBoot.FixupIdempotent | lib-configstore/src/configstore.cpp:121-128 | loading an image that was loaded before changes nothing more |
| ConfigBoot.FixupLocal | lib-configstore/src/configstore.cpp:121-128 | the fix-ups of the used part depend on the used part alone |
| ConfigBoot.UtcOffsetStored | lib-configstore/include/configstore.h:108-127 | the offset written into the environment reads back, for every 32-bit value, and only its four bytes change |
| ConfigBoot.UtcValidate | lib-hal/include/utc.h:58-92 | an accepted offset lies within 14 hours of UTC |
| ConfigBoot.UtcFormsAgree | lib-hal/include/utc.h:39-92 | both forms of the function, on hours and minutes and on fractional hours, accept the same zones and give the same offset |
| ConfigBoot.UtcRoundTrip | lib-configstore/include/configstore.h:108-143 | every time zone that is accepted reads back as the same hours and minutes |
| ConfigRuns.StepKeepsInv | lib-configstore/src/configstore.cpp:136-303 | any operation or poll keeps: while erased, the region is blank; while writing, every byte is blank or already that of the image; when idle, device and image agree |
| ConfigRuns.NoLostUpdate | lib-configstore/src/configstore.cpp:87-128 | under any interleaving, whenever the machine is idle, what a restart loads from the device is the image in memory, both after the fix-ups, and needs no rewrite |
| ConfigRuns.EraseIsDebounced | lib-configstore/src/configstore.cpp:251-262 | when erase is called, every earlier change is 100 ms or more of real time in the past, although the counter wraps |
| ConfigRuns.WriteFollowsErase | lib-configstore/src/configstore.cpp:262-290 | when write is called, an erase was called and completed after the last request to flush, 100 ms or more after it; the image has not changed since; and the write comes 100 ms or more after the erase completed |
| ConfigRuns.DelayPutsOff | lib-configstore/src/configstore.cpp:239-243 | after Delay with a flush pending no erase is called for 100 ms; without one Delay does nothing |
| ConfigRuns.UpdateAsks | lib-configstore/src/configstore.cpp:163-204 | an update asks for a flush exactly when a byte it writes was another one, and otherwise does nothing at all |
| ConfigRuns.OthersAsk | lib-configstore/src/configstore.cpp:150-237 | Copy asks for one exactly when it seeds an empty slice with something new, a reset always, a new time zone exactly when it is accepted and differs |
| ConfigRuns.ElapsedGrows | lib-configstore/src/configstore.cpp:255-257 | the wrapped difference of two clock reads grows with real time while a wait is not over |
| ConfigRuns.ImageOperations | lib-configstore/src/configstore.cpp:150-243 | no operation changes the image without asking for a flush, and none loses the signature |
| ConfigStore.AnyDevice.Erase | lib-configstore/include/configstoredevice.h:36 | the device as assumed: done after finitely many uninterrupted calls, and then the region is ready to be programmed; nothing below it changes |
| ConfigStore.AnyDevice.Write | lib-configstore/include/configstoredevice.h:37 | the device as assumed: programs bytes in any order over calls; a byte that is ready takes the value offered |
| ConfigStore.StoreDevice.Erase | lib-configstore/device/rom/storedevice.cpp:68-78 | with every driver the erase that the store calls, over its region, is an erase of the assumed device: alignment and the region under way are always right |
| ConfigStore.StoreDevice.Write | lib-configstore/device/rom/storedevice.cpp:80-90 | and the write of the used part is a write of the assumed device |
| ConfigStore.StoreDevice.Read | lib-configstore/device/rom/storedevice.cpp:56-66 | the bytes of the device |
| FlashDrivers.FmcDevice.Erase | lib-flashcode/src/gd32/fmc/flashcode.cpp:112-216 | every call is a call of the assumed device: pages are erased one after the other, an erase taken up again goes on, and one that finds a write under way abandons it; no command reaches a busy or locked chip |
| FlashDrivers.FmcDevice.EraseWait | lib-flashcode/src/gd32/fmc/flashcode.cpp:132-165 | the poll between pages: waits, goes on, or is done when every page is erased |
| FlashDrivers.FmcDevice.EraseNext | lib-flashcode/src/gd32/fmc/flashcode.cpp:166-193 | one page less, and the bound on further calls falls |
| FlashDrivers.FmcDevice.Write | lib-flashcode/src/gd32/fmc/flashcode.cpp:218-315 | every call is a call of the assumed device when the length is a multiple of four; otherwise no call is ever done |
| FlashDrivers.FmcDevice.WriteWait | lib-flashcode/src/gd32/fmc/flashcode.cpp:237-269 | the poll between words |
| FlashDrivers.FmcDevice.WriteReady | lib-flashcode/src/gd32/fmc/flashcode.cpp:250-269 | the rest of that poll once the controller is ready |
| FlashDrivers.FmcDevice.WriteWord | lib-flashcode/src/gd32/fmc/flashcode.cpp:270-281 | one word of the data lands where it belongs |
| FlashDrivers.FmcDevice.WriteTail | lib-flashcode/src/gd32/fmc/flashcode.cpp:282-292 | a rest of less than a word is written without any progress |
| FlashDrivers.WordIsCall | lib-flashcode/src/gd32/fmc/flashcode.cpp:270-281 | programming one word keeps to what the assumed device may do |
| FlashDrivers.H7Device.Erase | lib-flashcode/src/gd32/h7xx/flashcode.cpp:88-143 | a call of the assumed device if and only if no write is under way; otherwise an assertion fails |
| FlashDrivers.H7Device.Write | lib-flashcode/src/gd32/h7xx/flashcode.cpp:145-217 | likewise if and only if no erase is under way |
| ConfigRuns.EraseFindsWrite | lib-configstore/src/configstore.cpp:262-290 | over every run, erase is called while a write is under way if and only if a request to flush interrupted that write and the device was not called since |
| ConfigRuns.EraseMeetsWrite | lib-configstore/src/configstore.cpp:150-161 | which happens: a set-list reset and two polls lead there from every write under way |
| ConfigRuns.RunGoesOn | lib-configstore/src/configstore.cpp:136-303 | a step may follow a run although the clock was read by others in between |
| ConfigStore.ConfigStore.Durable | lib-configstore/src/configstore.cpp:87-128 | with every driver, at any time at which nothing is left to flush, a restart loads the image in memory |
| ConfigStore.ConfigStore.CallErase | lib-configstore/src/configstore.cpp:264-274 | the erase step of the machine with any driver, and its progress |
| ConfigStore.ConfigStore.CallWrite | lib-configstore/src/configstore.cpp:284-292 | the write step, likewise |
| ConfigStore.ConfigStore.constructor | lib-configstore/src/configstore.cpp:60-134 | the image is the loaded region after signature check and fix-ups, a flush is asked for exactly when the signature was missing, and a run starts |
| ConfigStore.RegionInside | lib-configstore/src/configstore.cpp:74-83 | the region that the constructor picks lies inside the device if and only if the sector size divides 4096 |
| ConfigStore.RegionOutside | lib-configstore/src/configstore.cpp:74-83 | an instance: with sectors of 3072 bytes the region ends 1024 bytes behind the device |
| ConfigDevices.FileDevice.constructor | lib-configstore/device/file/storedevice.cpp:53-77 | an existing file, or a new one of 512 sectors of 0xFF |
| ConfigDevices.FileDevice.Erase | lib-configstore/device/file/storedevice.cpp:122-178 | every call of the file device is a call of the assumed device, also the one after an interrupted write, which fills 0xFF in from where that write had come to and makes the file longer; a misaligned erase fails |
| ConfigDevices.FileDevice.Write | lib-configstore/device/file/storedevice.cpp:180-236 | every call of the file device is a call of the assumed device: first a seek, then blocks of up to 1024 bytes |
| ConfigDevices.FileDevice.WriteBlock | lib-configstore/device/file/storedevice.cpp:200-233 | one block lands at the position reached, and the last one ends the operation |
| ConfigDevices.BlockIsCall | lib-configstore/device/file/storedevice.cpp:200-233 | overwriting one block keeps to what the assumed device may do, and the number of further calls falls by one |
| ConfigDevices.Eeprom.Erase | lib-configstore/device/i2c/storedevice.cpp:85-92 | an erase that does nothing is a completed erase of the assumed device |
| ConfigDevices.Eeprom.Write | lib-configstore/device/i2c/storedevice.cpp:94-104 | a write in one call is a completed write of the assumed device |
| ConfigStore.ConfigStore.GetStoreOffset | lib-configstore/src/configstore.cpp:136-148 | the prefix sum of the sizes of the stores before it |
| ConfigStore.ConfigStore.CheckSignature | lib-configstore/src/configstore.cpp:93-100 | tells whether the signature was there, and repairs it |
| ConfigStore.ConfigStore.FixSetLists | lib-configstore/src/configstore.cpp:121-126 | every set list that read as erased flash becomes 0 and nothing else changes |
| ConfigStore.ConfigStore.Update | lib-configstore/src/configstore.cpp:163-204 | the image update, and a request to flush exactly when a byte changed |
| ConfigStore.ConfigStore.Copy | lib-configstore/src/configstore.cpp:206-237 | buffer and image afterwards, and the request to flush |
| ConfigStore.ConfigStore.ResetSetList | lib-configstore/src/configstore.cpp:150-161 | the set list is cleared and a flush requested |
| ConfigStore.ConfigStore.ResetSetListAll | lib-configstore/include/configstore.h:92-96 | all 27 set lists are cleared and the flush invariant is kept |
| ConfigStore.ConfigStore.Delay | lib-configstore/src/configstore.cpp:239-243 | a pending flush starts over |
| ConfigStore.ConfigStore.SetEnvUtcOffset | lib-configstore/include/configstore.h:108-127 | an accepted zone is stored and a change requests a flush; any other leaves all as it was |
| ConfigStore.ConfigStore.GetEnvUtcHoursMinutes | lib-configstore/include/configstore.h:129-144 | hours and minutes of the stored offset |
| ConfigStore.ConfigStore.Flash | lib-configstore/src/configstore.cpp:245-303 | one step of the machine, added to the run; a poll that is not the last lowers state rank, remaining wait, or remaining device and clock stalls, in this order |
| ConfigStore.ConfigStore.Drain | lib-configstore/include/configstore.h:79-82 | the destructor loop terminates in IDLE from every state, the image is unchanged, and a restart would load it, with every driver |
| Format.PadIsInField | lib-clib/src/printf.c:262-278 | where the body of a number stands: at the left end when left-justified, otherwise at the right end, or up to place 63 of a wider field; blanks everywhere else |
| Format.IntFillsField | lib-clib/src/printf.c:229-279 | an integer is a minus sign if negative, just the zeros that precision and zero flag ask for up to 63 places, and its digits, standing in its field like that |
| Format.HexFillsField | lib-clib/src/printf.c:176-227 | a hexadecimal number likewise, without a sign |
| Format.StringFillsField | lib-clib/src/printf.c:327-351 | a string is as long as the width or its shown part; that part is the prefix the precision allows, at the end the flag asks for, and all else is blank |
| Format.DirectiveReads | lib-clib/src/printf.c:378-423 | a directive written out from its flag, width, precision and length modifier is read as just these, whatever stands around it |
| Format.NumberReads | lib-clib/src/printf.c:391-394 | a width or precision is the value of the maximal run of digits |
| Format.StarReads | lib-clib/src/printf.c:402-407 | a star takes the magnitude of the next argument |
| Format.PlainText | lib-clib/src/printf.c:371-376 | text without a percent sign prints as it is |
| Format.PercentPrintsAsInC | lib-clib/src/printf.c:371-472 | a doubled percent sign prints one percent sign and goes on behind it, as in C, for every list of arguments, if and only if "--", ".." or "ll" comes behind it |
| Format.PercentPrintsText | lib-clib/src/printf.c:371-472 | for one list of arguments of which the second directive takes none, it prints as in C if and only if what that directive prints is its own text |
| Format.PercentTakesArgument | lib-clib/src/printf.c:425-472 | when the second directive takes an argument, the arguments that fit the text behind it are one too few |
| Format.FittingRenders | lib-clib/src/printf.c:371-472 | every format has arguments with which its output is defined |
| Format.FewerDoNotRender | lib-clib/src/printf.c:371-472 | and with fewer than those it has no defined output |
| Format.PercentReadTwice | lib-clib/src/printf.c:466-469 | in every format a doubled percent sign prints one and its second character starts a directive; the comparison with C is PercentPrintsAsInC |
| Format.PercentAtEnd | lib-clib/src/printf.c:466-469 | so a format that ends in a doubled percent sign prints the terminating NUL as a character |
| Format.UnknownPrintedTwice | lib-clib/src/printf.c:466-469 | a directive with an unknown conversion character prints that character twice |
| Format.Turn | lib-clib/src/printf.c:371-472 | every turn of the interpreter consumes input, also after an unknown conversion, so the loop terminates |
| Digits.ValSplit | lib-clib/src/strtoul.c:106-109 | of two runs of digits the first counts the base to the power of the length of the second |
| Digits.NumeralCase | lib-clib/src/printf.c:187-195 | the digits are the first characters of the alphabet, in the case asked for |
| Digits.NoLeadingZero | lib-clib/src/printf.c:239-243 | no digit too many |
| Digits.NumeralValue | lib-clib/src/printf.c:239-243 | the digits produced by repeated division have the value of the number |
| Printf.Printer.Putch | lib-clib/src/printf.c:55-66 | a character is stored only while the count is below the capacity; the count always grows |
| Printf.PutDigits | lib-clib/src/printf.c:231-244 | the loop leaves exactly the shortest numeral at the end of the 64-byte buffer |
| Printf.Fill | lib-clib/src/printf.c:246-256 | the padding loops add just the missing characters up to 63 places |
| Printf.Printer.FormatInt | lib-clib/src/printf.c:229-279 | prints sign, zeros, digits and blanks as the directive asks |
| Printf.Printer.FormatHex | lib-clib/src/printf.c:176-227 | prints zeros, hexadecimal digits and blanks as the directive asks |
| Printf.Printer.FormatString | lib-clib/src/printf.c:327-351 | prints at most `prec` characters and the blanks to the width on the side asked for |
| Printf.ReadDirective | lib-clib/src/printf.c:380-423 | flags, width, precision and length modifier of a directive |
| Printf.Printer.Interpret | lib-clib/src/printf.c:371-472 | for every format and argument list with a meaning in C, exactly the rendered text is passed to the sink |
| Printf.Printer.Vprintf | lib-clib/src/printf.c:363-475 | returns the length of the whole output and stores its first min(n, size - 1) characters |
| Printf.BoundKept | lib-clib/src/printf.c:528-557 | nothing at or behind the size changes if and only if the size is at least 1 or a NUL was at the start; with size 0 exactly the first byte becomes NUL |
| Printf.Printer.Snprintf | lib-clib/src/printf.c:528-557 | str holds the first min(n, size - 1) characters of the unbounded output and a NUL, the bytes behind stay, the full length n is returned, and the part from the size on stays if and only if the size is at least 1 or a NUL was at the start |
| Printf.Printer.Sprintf | lib-clib/src/printf.c:498-526 | str holds the whole output and a NUL; the bytes behind stay |
| Printf.Printer.PrintConsole | lib-clib/src/printf.c:477-496 | the whole output goes to the console |
| Uuid.ParseUndoesUnparse | lib-clib/src/uuid_unparse.c:109-133 | the text of every 16-byte value, in either case, is accepted and parses to that value |
| Uuid.UnparseUndoesParse | lib-clib/src/uuid_parse.c:121-171 | printing what any accepted text parses to gives that text in lower case |
| Uuid.TextOfByte | lib-clib/src/uuid_unparse.c:73-74 | where the two digits of each byte and the four hyphens stand, in either case |
| Uuid.FormatPrintsUuid | lib-clib/src/uuid_unparse.c:73-121 | the real format string, rendered by the interpreter on the unpacked fields, is the text form of section 3 of RFC 4122 |
| Uuid.FieldsInjective | lib-clib/src/uuid_unparse.c:82-107 | the structure determines the sixteen bytes |
| HexText.ZeroPaddedHex | lib-clib/src/printf.c:176-227 | what %0Nx and %0NX print of a number that fits is its N hexadecimal digits |
| HexText.BytesOfHex | lib-clib/src/uuid_parse.c:69-86 | reading back the hexadecimal digits of bytes gives the bytes |
| HexText.HexOfParsed | lib-clib/src/uuid_parse.c:69-86 | printing the bytes of a run of hexadecimal digits gives the run in lower case |
| Uuid.Unpack | lib-clib/src/uuid_unparse.c:82-107 | the big-endian fields of the sixteen bytes |
| Uuid.Pack | lib-clib/src/uuid_parse.c:88-119 | the bytes whose fields are those given: the inverse of the unpacking |
| Uuid.Unparse | lib-clib/src/uuid_unparse.c:109-133 | through sprintf, the target holds the 36-character text and a NUL |
| Uuid.HexUint32 | lib-clib/src/uuid_parse.c:69-86 | the value of the maximal run of hexadecimal digits, modulo 2^32 |
| Uuid.Check | lib-clib/src/uuid_parse.c:127-152 | passes exactly the 36-character hyphenated form of section 3 of RFC 4122 |
| Uuid.AcceptedGroups | lib-clib/src/uuid_parse.c:154-157 | in accepted text the four numbers read are those of the parsed bytes, none of them cut by its cast |
| Uuid.Parse | lib-clib/src/uuid_parse.c:121-171 | accepted text is parsed and 0 returned; anything else gives -1 and leaves the target alone |
| RoundFloat.RoundedDigits | lib-clib/src/printf.c:125-173 | rounding half away from zero at the last digit is dropping it, and adding one to the rest when it is 5 or more |
| RoundFloat.RoundedIsNearest | lib-clib/src/printf.c:125-173 | what is left is the nearest number with one digit less, a tie going away from zero, with the sign in front, the point in its place, and one digit more only for a new leading 1 |
| RoundFloat.IncValue | lib-clib/src/printf.c:134-147 | the digit-wise increment with carry adds exactly one to the value |
| RoundFloat.CarryStops | lib-clib/src/printf.c:134-155 | a carry that stops at a digit leaves the incremented digits around the point |
| RoundFloat.CarryGrows | lib-clib/src/printf.c:156-162 | a carry through nothing but nines leaves a new leading 1 and the point moved up |
| RoundFloat.Round | lib-clib/src/printf.c:125-173 | for digits "[-]I.F" of any length, the text of the value rounded half away from zero with one digit less, carries, growth, sign and a dropped trailing point included |
| RoundFloat.ItoStr | lib-clib/src/printf.c:80-123 | sign and digits, with zeros up to the places asked for |
| RoundFloat.PaddedValue | lib-clib/src/printf.c:80-123 | those digits have the value of the number |
| RoundFloat.PaddedLength | lib-clib/src/printf.c:104-108 | and are as many as asked for, or as the number needs |
| Strtoul.CutoffExact | lib-clib/src/strtoul.c:90-109 | the cutoff test is true exactly when the next digit takes the value above ULONG_MAX |
| Strtoul.Accumulate | lib-clib/src/strtoul.c:88-110 | the flag goes negative exactly when the true value of the digits is above ULONG_MAX; otherwise the accumulator is that value |
| Strtoul.Scan | lib-clib/src/strtoul.c:54-118 | the result is the true value of the maximal digit run cut off at ULONG_MAX, negated modulo 2^32 behind a minus sign when not cut off; the end pointer is behind the run, or the start when there is none |
| Strtoul.ReadsInBase | lib-clib/src/strtoul.c:65-117 | in a given base from 2 to 36: white space, a sign, digits; 0xFFFFFFFF when their value exceeds 32 bits, otherwise the value or its negative modulo 2^32; the digits end at the first other character |
| Strtoul.ReadsHexadecimal | lib-clib/src/strtoul.c:77-85 | in base 16 or 0 behind "0x" or "0X" and before a hexadecimal digit, the digits are hexadecimal |
| Strtoul.ReadsOctalOrDecimal | lib-clib/src/strtoul.c:86-87 | in base 0 without that prefix a leading 0 makes them octal, anything else decimal |
| Strtoul.ConversionsReadBack | lib-clib/src/printf.c:425-465 | every conversion of every word reads back as that word: %d and %i with its sign, %u without one, %x, %X and %p in base 16; %c prints the low byte |
| Strtoul.HexCase | lib-clib/src/printf.c:188-192 | %X prints no small letters and %x no capitals |
| Strtoul.ReadsBackPointer | lib-clib/src/printf.c:353-361 | a pointer is "0x" and eight digits |
| Strtoul.ReadsBackInt | lib-clib/src/strtoul.c:54-118 | strtoul in base 10 of any integer directive output gives the number back, whatever flags, width and precision |
| Strtoul.ReadsBackHex | lib-clib/src/strtoul.c:54-118 | strtoul in base 16 of any hexadecimal directive output gives the number back, whatever flags, width and precision |
| Strtoul.ReadsBackWord | lib-clib/src/printf.c:429-438 | any word printed with %d or %i reads back as that word |
| Calendar.BeforeYearIsGregorian | lib-clib/src/time.cpp:85-93 | summing year lengths agrees with the closed Gregorian rule |
| Calendar.MonthsInClosedForm | lib-clib/src/time.cpp:98-108 | the month loop in closed form |
| Calendar.MonthLengths | lib-clib/src/time.cpp:36-52 | the lengths of the months, by a formula |
| Calendar.DayNumberIsGregorian | lib-clib/src/time.cpp:83-111 | the day number is the closed form of the Gregorian calendar, for every date |
| Calendar.DaysAscend | lib-clib/src/time.cpp:83-108 | day numbers follow the calendar order |
| Integers.TruncatesTowardsZero | lib-clib/src/time.cpp:74-81 | division and remainder truncate towards zero |
| Calendar.FindYear | lib-clib/src/time.cpp:83-93 | the year whose first day is not after the given day while its last is not before it |
| Calendar.FindMonth | lib-clib/src/time.cpp:98-108 | the month, likewise |
| Calendar.Gmtime | lib-clib/src/time.cpp:67-114 | the fields add up to the time, weekday and day of the year belong to the date, and from 1970 on all are in range |
| Calendar.Localtime | lib-clib/src/time.cpp:58-65 | gmtime of the shifted time |
| Calendar.Mktime | lib-clib/src/time.cpp:116-171 | the value of accepted fields with the month lengths of year - 1900, and -1 for all others |
| Calendar.MktimeOfTime | lib-clib/src/time.cpp:116-171 | mktime of the fields of t is t, except -1 before 1970, after 2039 and on 29 February 2000, and t - 86400 from 1 March to 31 December 2000 |
| Calendar.RoundTripExact | lib-clib/src/time.cpp:67-171 | mktime undoes gmtime if and only if the time is within 1970 to 2039 and not between 29 February and 31 December 2000, or is -1, the error value |
| Calendar.RoundTripFails | lib-clib/src/time.cpp:46-52 | two times in 2000 for which the round trip fails |
| Calendar.MktimeAscends | lib-clib/src/time.cpp:123-170 | strictly increasing over all accepted fields, the year 2000 included |
| Calendar.MktimeInjective | lib-clib/src/time.cpp:123-170 | different accepted times have different values |
| Calendar.GmtimeUndoesMktime | lib-clib/src/time.cpp:67-171 | gmtime of what mktime returns gives the accepted fields back if and only if they are not in March to December 2000, where it gives the fields of the day before |
| Calendar.FitsInLong | lib-clib/src/time.cpp:116-171 | the value fits a 32-bit signed long exactly up to 19 January 2038, 03:14:07 |
| Ema.Ema.constructor | lib-device/include/ema.h:46 | starts at the level of the initial value |
| Ema.ShiftAlwaysDefined | lib-device/include/ema.h:46 | up to K = 15 every initial value can be shifted, so the demand of constructor and Reset is always met |
| Ema.HalfIsCut | lib-device/include/ema.h:71 | the rounding constant is the half of 2^K cut to 16 bits, for every K |
| Ema.Ema.Reset | lib-device/include/ema.h:55-57 | the same for a new value |
| Ema.Ema.Filter | lib-device/include/ema.h:59-64 | output and state in 16-bit arithmetic; neither the rounding nor the subtraction wraps |
| Ema.StaysInRange | lib-device/include/ema.h:59-71 | with inputs between lo and hi and room for hi * 2^K, nothing wraps, the output lies between lo and hi and the state between their levels |
| Ema.RunStaysInRange | lib-device/include/ema.h:46-71 | the same over every sequence of inputs from a start between lo and hi |
| Ema.StepApproaches | lib-device/include/ema.h:59-71 | for a constant input a step comes strictly closer to its level, or is settled there |
| Ema.Converges | lib-device/include/ema.h:59-71 | for a constant input without wrap at the start, the output becomes exactly the input in at most as many steps as the initial error, and stays so |
| Ema.WrapsOnce | lib-device/include/ema.h:60-62 | for an input in reach a wrap of the first sum is the last |
| Ema.OutOfReach | lib-device/include/ema.h:61-71 | for a larger input the output stays below the input from any state |
| Ema.MaximumIsLost | lib-device/include/ema.h:46-64 | an instance: with K = 1 a filter set to 65535 and fed 65535 puts out 32767 |
| Ema.ConvergesIff | lib-device/include/ema.h:46-71 | every state converges to the constant input c if and only if c * 2^K is at most 65535 plus the rounding half |
| Strtok.Tokenizer.Strtok | lib-clib/src/strtok.c:59-108 | one call: the token found, the single NUL written, and the saved pointer |
| Strtok.TokensAreRuns | lib-clib/src/strtok.c:76-106 | every token is a maximal delimiter-free run of the string |
| Strtok.RunsAreTokens | lib-clib/src/strtok.c:76-106 | every maximal delimiter-free run is a token |
| Strtok.TokensAscend | lib-clib/src/strtok.c:76-106 | the tokens come left to right with a delimiter between any two |
| Strtok.CallStep | lib-clib/src/strtok.c:70-106 | one call on the cut buffer returns the next token of the original string and writes one NUL behind it, or returns null and writes nothing |
| Strtok.CallsReturnTokens | lib-clib/src/strtok.c:70-106 | the n-th call of a series returns the n-th token of the original string, and null ever after; the buffer has changed only at the ends of the tokens returned |
| Strtok.CutAt | lib-clib/src/strtok.c:98-103 | what the cuts leave at every position of the buffer |
| Strtok.TokenText | lib-clib/src/strtok.c:98-103 | the C string at a returned pointer is exactly its run of the original string, however many calls follow |

## Left out

- Heap: the bucket table is a parameter that increases and ends with 0, and the linker's bounds are parameters with a
  16-aligned lower one; pointers and sizes are those of a 32-bit target (12-byte header).
- Heap: requests so large that header, rounding and bump pointer would exceed 32 bits, double frees and pointers that
  malloc did not return are excluded by preconditions; the product in calloc wraps as in the code. A pointer whose header lost its magic is ignored, as in a build without asserts.
- Heap: `realloc` reads as many bytes as the new size from a block that holds fewer. Memory is one space in which such
  reads give some byte; it is twice as long as the heap so that they stay inside.
- Heap: `DEBUG_HEAP` counters, console messages and the debug dump.
- AnyDevice.Erase: the flush machine is proved over an assumed device. An erase makes the region ready to be
  programmed, which need not mean 0xFF, and the first programming of a ready byte gives the byte offered. An erase or a
  write that was interrupted by another operation starts anew or goes on, as the device likes. Device errors, which the
  code turns into failed asserts, are not modelled.
- FileDevice.Write: failures of the C library's file functions are left out, and the caller passes the same region and
  length until an operation is done, as the store does.
- FmcDevice.Erase: region and length are multiples of the sector, as the store's are, and the region lies in one bank,
  which ends at a sector.
  The flash controller is assumed: a page erase leaves 0xFF, a word takes its value where the flash is erased, and after
  a command it is busy for finitely many polls. The last word of an odd length is completed with any bytes.
- H7Device.Erase: taken as the machine of the fmc driver with one page size; where that clears a control bit at the next
  poll, this one does at once. Its wait for the controller before each word never fails, since the poll before it found
  the controller ready; and a rest of less than a word is not written at all, which comes to the same: no end.
- Drivers covered: file, EEPROM and, through the internal-flash device, fmc; h7xx under the condition above. Not covered:
  the f4xx driver, which reports sectors of 16 kB, so that the constructor's assert on the sector size fails; the SPI
  flash, whose chip protocol is not part of this model and which is taken as a device of the assumed kind; and the
  backup-RAM driver, which stores nothing because there the image itself lives in memory that keeps its content.
- Hardware.Millis: the clock may stand still over finitely many reads, and two reads are at most 2^32 - 100 ms apart.
- ConfigStore.constructor: the sector size divides 4096; otherwise the region would reach behind the end of the device,
  and the read that the constructor asserts to succeed would fail (`RegionInside`). A device that is absent leaves the image as static memory had it.
- ConfigStore.Update: the set-list word must lie inside the image, which the code does not check.
- ConfigStore.GetEnvUtcHoursMinutes: the hours fit a signed byte, as the code asserts.
- Printer.Vprintf: the build without floating point; %f is then an unknown conversion. Formats and arguments without a
  meaning in C (an argument of the wrong kind or missing, a `*` precision of -2^31) have no rendering, and `INT_MIN`
  printed with %d negates as two's complement does. Widths, precisions and totals beyond `int` are not wrapped.
- Printer.Sprintf: the output is shorter than `INT_MAX` and fits the target, with its NUL.
- RoundFloat.Round: digit strings only; the binary arithmetic of `_format_float` is left out. The loop over the integer
  digits of a number without a sign reads the character before the string once when all of them are 9, because its
  test comes second; the model makes the test first. There is room for one more character, as growth needs.
- RoundFloat.ItoStr: the most negative integer, whose negation overflows, is excluded.
- Strtoul.Scan: `unsigned long` has 32 bits. A negative base is accepted as the code does; base 1 and bases above 36 are
  read as the code reads them.
- Strtok.Tokenizer.Strtok: the delimiters may change from call to call in the method; the results about series of calls
  are for one set of delimiters. The string is ended by a NUL inside its array.
- Calendar.Gmtime: times are unbounded integers; `FitsInLong` says where 32 bits end. Before 1970 the fields are those
  the code computes with truncating division, and they are not calendar dates.
- Ema.constructor: K is at most 31 and the shifted initial value fits an int; beyond that the C++ code has no meaning.
- Uuid.Parse: null pointers are asserted against in the code; strings here have no NUL inside their length.
- Console output is a string that grows; `console_putc` is not part of this model.
- Registers and peripherals (GPIO, UART, I2C, SPI, DMA, interrupts) are memory-mapped hardware and not part of this
  model; nor are the Art-Net and E1.31 classes, displays, sensors and network glue.
- The SPI divider search, `random.c`, `inet_aton`, parameter files and JSON output would only add easy members.
