# Verification of the signal, flash and messaging cores

Dafny models of the parts of this repository that carry its data, with proofs of what they are for.
Check everything with `dafny verify dfyconfig.toml`.

## What is modelled

- `Basics`, `Memory` (`memcpy`) and `Arith` hold what the models share.
- **The mixed-radix Fourier transform** (`Complex`, `Fourier`, `Butterfly`, `KissFft`, `Transform`, `Factor`,
  `FastSize`). Butterflies and recursion work in place on an array, over exact complex numbers. The twiddle table is a
  parameter: a table closed under adding angles, with conjugates for reversed angles, no early repetition, and the
  orientation of its direction. Every specialised butterfly does what the generic one does, and the recursion computes the
  naive sum.
- **The QSPI flash driver** (`Bits`, `FlashSpec`, `ErasePlan`, `QspiFlash`, `FlashDriver`, `FlashThread`, `Sfdp`). The chip is
  an object that obeys only enabled commands while idle, ANDs page programs with wrap-around in the page, and erases aligned
  sectors. The driver's operations are proved to be plain range operations on it. `FlashThread` is the request queue with any
  number of threads.
- **The sample rings** of the I2S and microphone drivers (`Ring`, `SampleRing`, `TransmitProtocol`, `ReceiveProtocol`).
  `SampleRing` has the functions as they run by themselves, on an array with wrapping counters; the two protocols let every
  access to shared variables interleave.
- **Inter-tile messages and RPC** (`Bytes`, `Intertile`, `Rpc`), byte by byte.
- **The I2C slave** (`I2cSlave`, `I2cEventLoop`, `I2cHandshake`, `I2cDriver`, `I2cSession`): the automaton on the two lines
  against the transfers of NXP UM10204, section 3.1, its event loop as written, the hand-over of transfers to the application's
  thread, and all of it together, in both directions.

In the models of threads a run is a series of steps, and what a run has to amount to is a function of the arguments of its
calls alone: `FlashThread.Requested`, `TransmitProtocol.Accepted`, `ReceiveProtocol.Delivered` and `Kept`, `Intertile.Sent`,
`I2cHandshake.Offers`, `I2cDriver.CallsMade`.

## Where the code does less than it says

- `read_op` means to return 0xFF past the end of the flash but never comes to an end there, and then the driver never carries
  out all that has been requested (`FlashDriver.ReadTerminatesIff`, `ReadPastEndExample`, `FlashThread.CarriedOutIff`).
- `erase_op` rounds the start down in 32 bits; the length can overflow. An empty request at an unaligned address erases a
  sector (`FlashDriver.EraseIsExactIff`, `EmptyErase`, `OverflowExample`).
- Greedy erasing is not always shortest (`ErasePlan.GreedyIsShortestIff`).
- The header of the flash driver says that a single read needs no lock; as soon as there are two readers, one of them
  without the lock, they can take each other's semaphore (`FlashThread.UnlockedReadsCorrectIff`).
- A retry after a timed-out `rtos_i2s_tx`, `rtos_i2s_rx` or `rtos_mic_array_rx` is not checked again. It is safe if it is no
  longer than the call that timed out, and when receiving also if it is no longer than a block
  (`TransmitProtocol.RetryFitsIff`, `ReceiveProtocol.RetryHasWordsIff`).
- A receive request within the documented limit can wait for ever, because blocks that do not fit are dropped
  (`ReceiveProtocol.WokenIff`, `FirstCallStarves`).
- The I2C slave misses start and stop conditions inside an address, inside a byte and in an acknowledge slot
  (`I2cSlave.StartRecognisedIff`, `StopRecognisedIff`, `MissedInAddress`, `MissedInByte`, `MissedInAckSlot`). UM10204 asks
  devices to reset on any start condition, in the notes of section 3.1.10.
- The check against an empty erase table counts unused entries and never fails (`Sfdp.Discover`, `EmptyTableExample`).
- `boot_image_write` relies on the erase size of the chip (`FlashDriver.BootImagePatchesIff`, `BootImageExample`);
  `write_dfu_mode` is the same sequence with a four-byte value.

## Model

| member | source | states |
|---|---|---|
| Fourier.DecimationInTime | examples/bare-metal/micro_speech/kissfft/kiss_fft.c:282-287 | a transform of p*m samples is a sum, over the p decimated subsequences, of their m-point transforms times a twiddle factor |
| Fourier.GeometricSum | examples/bare-metal/micro_speech/kissfft/kiss_fft.c:355-361 | the powers of any table entry other than 1 sum to zero; the facts the butterflies use of particular radices (-1, the quarter turns, the sums for 3 and 5) follow from the table being a group of roots |
| Fourier.ConjugatedIsTwiddleTable | examples/bare-metal/micro_speech/kissfft/kiss_fft.c:355-361 | the table of the inverse configuration, the conjugates, is a twiddle table for the other direction |
| Fourier.InverseUndoesForward | examples/bare-metal/micro_speech/kissfft/kiss_fft.c:355-361 | the transform of a transform with the conjugate table is the signal times its length |
| Fourier.FourPointTable | examples/bare-metal/micro_speech/kissfft/kiss_fft.c:355-361 | the assumptions on twiddle tables can be met: the table of four quarter turns meets them |
| Butterfly.ColumnIsSmallDft | examples/bare-metal/micro_speech/kissfft/kiss_fft.c:220-230 | output k = r*m+u of the generic butterfly, whose twiddle index is q*fstride*k mod nfft, is the p-point transform of column u after twiddling its samples |
| Butterfly.Radix2Column | examples/bare-metal/micro_speech/kissfft/kiss_fft.c:32-37 | sum and difference are that transform for p = 2 |
| Butterfly.Radix3Column | examples/bare-metal/micro_speech/kissfft/kiss_fft.c:109-131 | the radix 3 shortcut with one imaginary constant is that transform for p = 3 |
| Butterfly.Radix4Column | examples/bare-metal/micro_speech/kissfft/kiss_fft.c:60-88 | the radix 4 shortcut, which multiplies by the quarter turn of its direction, is that transform for p = 4, forward and inverse |
| Butterfly.Radix5Column | examples/bare-metal/micro_speech/kissfft/kiss_fft.c:160-193 | the radix 5 shortcut with the two constants ya and yb is that transform for p = 5 |
| KissFft.Bfly2 | examples/bare-metal/micro_speech/kissfft/kiss_fft.c:21-42 | in place, leaves in every column what the generic butterfly computes for p = 2, and touches nothing else |
| KissFft.Bfly3 | examples/bare-metal/micro_speech/kissfft/kiss_fft.c:92-134 | the same for p = 3 |
| KissFft.Bfly4 | examples/bare-metal/micro_speech/kissfft/kiss_fft.c:44-90 | the same for p = 4, in either direction |
| KissFft.Bfly5 | examples/bare-metal/micro_speech/kissfft/kiss_fft.c:136-195 | the same for p = 5 |
| KissFft.BflyGeneric | examples/bare-metal/micro_speech/kissfft/kiss_fft.c:198-235 | the same for every radix, with scratch array and the wrapped running twiddle index |
| KissFft.AccumulateOutput | examples/bare-metal/micro_speech/kissfft/kiss_fft.c:222-229 | the running index with one conditional subtraction is q*fstride*k mod nfft at every term |
| Transform.CopySamples | examples/bare-metal/micro_speech/kissfft/kiss_fft.c:275-279 | the m = 1 level leaves the p strided samples, which are their own one-point transforms |
| Transform.SubTransforms | examples/bare-metal/micro_speech/kissfft/kiss_fft.c:280-290 | the recursion leaves the transforms of the p decimated inputs side by side |
| Transform.Recombine | examples/bare-metal/micro_speech/kissfft/kiss_fft.c:292-301 | whichever butterfly the radix selects, the stage is the generic one |
| Transform.Work | examples/bare-metal/micro_speech/kissfft/kiss_fft.c:238-302 | for every factor list, stride and input, each output is the discrete Fourier transform sum of the strided input, and the rest of the output array is unchanged |
| Transform.RecombinedIsDft | examples/bare-metal/micro_speech/kissfft/kiss_fft.c:292-301 | recombining the transforms of the decimated inputs gives the transform of the whole input |
| Transform.FactorListIsValid | examples/bare-metal/micro_speech/kissfft/kiss_fft.c:304-307 | the list kf_factor makes satisfies p[i]*m[i] = m[i-1] with last m = 1, which the recursion relies on |
| Transform.Alloc | examples/bare-metal/micro_speech/kissfft/kiss_fft.c:339-368 | the configuration has the factors of nfft and fits the transform |
| Transform.KissFftStride | examples/bare-metal/micro_speech/kissfft/kiss_fft.c:371-383 | the output is the transform of every in_stride-th input, also when input and output are the same buffer |
| Transform.BackAndForth | examples/bare-metal/micro_speech/kissfft/kiss_fft.c:371-383 | forward and then inverse transform multiply every sample by nfft |
| Factor.RadicesArePrimeOrFour | examples/bare-metal/micro_speech/kissfft/kiss_fft.c:314-325 | every radix is 4, 2 or an odd prime |
| Factor.FactorListIsShort | examples/bare-metal/micro_speech/kissfft/kiss_fft.c:308-330 | n >= 2 to the number of radices |
| Factor.FactorListFits | examples/bare-metal/micro_speech/kissfft/_kiss_fft_guts.h:22-31 | for every 32-bit length the list fits the 32 pairs reserved for it |
| Factor.NextRadix | examples/bare-metal/micro_speech/kissfft/kiss_fft.c:316-325 | the search, which gives up past the root of the whole length, finds the radix of the specification: 4, 2, or the least prime factor |
| Factor.KfFactor | examples/bare-metal/micro_speech/kissfft/kiss_fft.c:308-330 | terminates for every n >= 1 and fills facbuf with exactly the specified list |
| Factor.NextStageRadix | examples/bare-metal/micro_speech/kissfft/kissfft.hh:33-41 | the search with the other stopping test, past the root of the remaining length, finds the same radix |
| Factor.Prepare | examples/bare-metal/micro_speech/kissfft/kissfft.hh:19-47 | the two vectors, interleaved, are the same list as kf_factor makes |
| FastSize.StrippedDecides | examples/bare-metal/micro_speech/kissfft/kiss_fft.c:400-404 | what is left after dividing out 2, 3 and 5 is 1 exactly if the number has no other prime factor |
| FastSize.Strip | examples/bare-metal/micro_speech/kissfft/kiss_fft.c:400-402 | divides out one factor completely, and keeps whether the number is fast |
| FastSize.NextFastSize | examples/bare-metal/micro_speech/kissfft/kiss_fft.c:396-408 | the least k >= n without prime factors other than 2, 3 and 5; terminates, since there is a power of two |
| Bits.MaskIsRemainder | modules/rtos/drivers/qspi_flash/rtos_qspi_flash.c:91 | address & (page - 1) is address mod page for a power of two |
| Bits.ShiftRoundsDown | modules/rtos/drivers/qspi_flash/rtos_qspi_flash.c:113-117 | shifting right and left rounds down to a multiple of the sector size, and so tests alignment |
| FlashSpec.ProgramInsidePage | modules/hil/lib_qspi_io/src/qspi_flash.c:557-564 | a page program inside one page is a plain AND of the data into memory, although the command wraps around in the page |
| QspiFlash.Chip.WriteEnable | modules/hil/lib_qspi_io/src/qspi_flash.c:107-117 | the command is repeated until the latch reads back set; it comes to that, and if the latch was clear the chip has finished its last write by then |
| QspiFlash.Chip.WriteInProgress | modules/hil/lib_qspi_io/src/qspi_flash.c:131-137 | a status poll |
| QspiFlash.Chip.Erase | modules/hil/lib_qspi_io/src/qspi_flash.c:144-190 | an enabled idle chip erases the aligned sector and clears the latch; any other ignores the command |
| QspiFlash.Chip.EraseChip | modules/hil/lib_qspi_io/src/qspi_flash.c:144-190 | the same for the whole chip |
| QspiFlash.Chip.Program | modules/hil/lib_qspi_io/src/qspi_flash.c:557-564 | an enabled idle chip programs, wrapping around in the page, and clears the latch |
| QspiFlash.Chip.Read | modules/hil/lib_qspi_io/src/qspi_flash.c:436-447 | the memory from an address on |
| ErasePlan.PlanErases | modules/rtos/drivers/qspi_flash/rtos_qspi_flash.c:156-196 | the greedy sector erases together erase the range rounded up to the smallest sector and cut off at the end of the flash |
| ErasePlan.PlanBlocks | modules/rtos/drivers/qspi_flash/rtos_qspi_flash.c:165-180 | every command erases an aligned sector of the table that lies in the flash |
| ErasePlan.PlanIsShortest | modules/rtos/drivers/qspi_flash/rtos_qspi_flash.c:156-196 | no cover of a sector-aligned range by aligned table sectors inside it has fewer commands |
| ErasePlan.PlanIsCover | modules/rtos/drivers/qspi_flash/rtos_qspi_flash.c:156-196 | and the plan is such a cover |
| ErasePlan.PlanForPartialSector | modules/rtos/drivers/qspi_flash/rtos_qspi_flash.c:165-176 | when the range ends inside a smallest sector: the plan is the one for the rounded range exactly unless a larger sector ends there |
| ErasePlan.GreedyIsShortestIff | modules/rtos/drivers/qspi_flash/rtos_qspi_flash.c:156-196 | the number of erase commands is the least possible if and only if the range ends on a smallest-sector boundary, or reaches the end of the flash, or no larger sector of the table fits at its rounded end |
| ErasePlan.NotShortestExample | modules/rtos/drivers/qspi_flash/rtos_qspi_flash.c:165-176 | a 64 KiB sector less one byte is erased 4 KiB at a time |
| FlashDriver.ChooseErase | modules/rtos/drivers/qspi_flash/rtos_qspi_flash.c:165-176 | the search picks the last entry of the table whose sectors are aligned here and not longer than what is left, the largest one, or else the first |
| FlashDriver.EraseSectors | modules/rtos/drivers/qspi_flash/rtos_qspi_flash.c:156-196 | the loop issues exactly the planned commands to the chip |
| FlashDriver.WhileBusy | modules/rtos/drivers/qspi_flash/rtos_qspi_flash.c:64-73 | polls until the chip is ready |
| FlashDriver.EraseOp | modules/rtos/drivers/qspi_flash/rtos_qspi_flash.c:119-200 | for every address and length the chip carries out the planned commands, enabled and waited for one by one |
| FlashDriver.EraseIsRounded | modules/rtos/drivers/qspi_flash/rtos_qspi_flash.c:119-200 | without overflow: exactly the range rounded out to smallest sectors, inside the flash, is erased and everything else kept |
| FlashDriver.EraseIsExactIff | modules/rtos/drivers/qspi_flash/rtos_qspi_flash.c:143-153 | exactly the sectors that the range touches are erased, for every content of the flash, if and only if: the start is past the flash; or the request is empty and aligned; or rounding the start down does not overflow the 32-bit length; or it does, something is left, and the start is in the last sector |
| FlashDriver.EmptyErase | modules/rtos/drivers/qspi_flash/rtos_qspi_flash.c:143-153 | an empty request at an unaligned address erases the sector around it |
| FlashDriver.OverflowExample | modules/rtos/drivers/qspi_flash/rtos_qspi_flash.c:151 | a length of 2^32 - 1 at address 1 erases nothing |
| FlashDriver.ChunksInsidePages | modules/rtos/drivers/qspi_flash/rtos_qspi_flash.c:90-96 | each page program is not empty, inside one page and inside the flash |
| FlashDriver.ChunksContiguous | modules/rtos/drivers/qspi_flash/rtos_qspi_flash.c:107-110 | the programs follow on from each other and end at the end of the data or of the flash |
| FlashDriver.WriteOp | modules/rtos/drivers/qspi_flash/rtos_qspi_flash.c:75-111 | one AND of the data into the range, cut off at the end of the flash, and nothing else; terminates |
| FlashDriver.ReadChunk | modules/rtos/drivers/qspi_flash/rtos_qspi_flash.c:29-61 | one round of the loop inside the flash |
| FlashDriver.ReadOp | modules/rtos/drivers/qspi_flash/rtos_qspi_flash.c:19-62 | the bytes of the range, for a range inside the flash |
| FlashDriver.ReadTerminatesIff | modules/rtos/drivers/qspi_flash/rtos_qspi_flash.c:29-61 | for every flash that leaves a 32-bit address room for one more chunk: the loop comes to an end if and only if the length is zero or the range is inside the flash |
| FlashDriver.ReadPastEndExample | modules/rtos/drivers/qspi_flash/rtos_qspi_flash.c:42-60 | one byte past the end is read for ever, although the code means to return 0xFF |
| FlashDriver.RemoteRead | modules/rtos/drivers/qspi_flash/rtos_qspi_flash_rpc.c:77-95 | the remote chunk loop reads the same bytes |
| FlashDriver.EraseWriteRead | modules/rtos/drivers/qspi_flash/rtos_qspi_flash.c:19-200 | for every range inside the flash: what is written after erasing the range reads back, locally or by remote calls, and nothing has changed outside the sectors it touches |
| FlashDriver.BootImageWrite | examples/freertos/usb/src/main_0.c:107-137 | the effect of reading, patching, erasing and writing back on the chip |
| FlashDriver.BootImagePatchesIff | examples/freertos/usb/src/main_0.c:107-137 | exactly the given bytes are replaced, whatever the flash holds, if and only if both ends of the 4096 bytes are erase boundaries |
| FlashDriver.BootImageExample | examples/freertos/usb/src/main_0.c:107-137 | a chip whose smallest sector is 64 KiB loses the 60 KiB after the patched part |
| FlashThread.RunsAreCorrect | modules/rtos/drivers/qspi_flash/rtos_qspi_flash.c:210-326 | in every run in which readers hold the lock, or there is just one of them, in terms of the calls alone: the flash holds what the completed calls leave in queue order, each read returned its range as exactly the calls queued before it leave it, a write counts with the data in the caller's buffer when it called, and its copy is freed once, when the write is complete |
| FlashThread.LogIsRequested | modules/rtos/drivers/qspi_flash/rtos_qspi_flash.c:246-326 | in every run, whoever holds the lock, the operations recorded are the calls with their own arguments, a write with the address and the data of its call, and each read that returned is its caller's last one |
| FlashThread.WrittenDataIsRead | modules/rtos/drivers/qspi_flash/rtos_qspi_flash.c:210-326 | in every such run, a call to read that is queued right after calls to erase and to write its range returns the data of the write |
| FlashThread.UnlockedReadsCorrectIff | modules/rtos/drivers/qspi_flash/api/rtos_qspi_flash.h:76-79 | reads that do not take the lock are correct in every run if and only if no thread reads that way or only one thread reads at all |
| FlashThread.CarriedOutIff | modules/rtos/drivers/qspi_flash/rtos_qspi_flash.c:210-243 | in every run, locked or not: the driver thread can carry out everything requested by itself if and only if no pending read goes past the end of the flash |
| FlashThread.WaitingReaderIsServed | modules/rtos/drivers/qspi_flash/rtos_qspi_flash.c:267-284 | a reader that waits gets its data: the driver thread alone comes to where the semaphore is up and the buffer holds what its call has to return |
| Sfdp.SortEraseTable | modules/hil/lib_qspi_io/src/sfdp.c:107-125 | for a table of any length: a permutation of the entries, in ascending order of size with the unused ones last |
| Sfdp.SizeIsBits | modules/hil/lib_qspi_io/src/sfdp.c:8-26 | the size in kilobytes is that of the number of bits, rounded down: one more than the density field, or two to the power of it |
| Sfdp.PagesMakeUpFlashIff | modules/hil/lib_qspi_io/src/qspi_flash.c:650-656 | page count times page size is the flash size if and only if the page size divides the number of kilobytes |
| Sfdp.PageSizeTest | modules/rtos/drivers/qspi_flash/rtos_qspi_flash.c:393 | the bit test holds exactly for powers of two |
| Sfdp.SizeAssertionIff | modules/rtos/drivers/qspi_flash/rtos_qspi_flash.c:389-390 | for every density the 30-bit field holds, the assertion holds if and only if the size is not zero and its number of bytes fits 32 bits |
| Sfdp.SaveEraseTable | modules/hil/lib_qspi_io/src/qspi_flash.c:673-684 | the saved table has the sizes and commands of the sorted one, in order and without gaps; four entries are counted whatever they hold |
| Sfdp.Discover | modules/hil/lib_qspi_io/src/qspi_flash.c:650-702 | for every table, density and address mode: the assertions hold exactly if the size in bytes is not zero and fits 32 bits and three address bytes will do; erasing and writing can rely on the geometry exactly if some entry is in use, the flash fits three address bytes, and its pages and sectors divide it; and the page count is exact if and only if the page size divides the kilobytes |
| Sfdp.EmptyTableExample | modules/hil/lib_qspi_io/src/qspi_flash.c:673-684 | a table without any sector size passes the assertion against empty tables |
| Ring.LevelIsExact | modules/rtos/drivers/i2s/rtos_i2s.c:102 | the difference of the two wrapped 32-bit totals is the number of words in the ring, however long it has been in use |
| Ring.ChunkInStores | modules/rtos/drivers/i2s/rtos_i2s.c:301-312 | a memcpy at the write index appends to the stream and overwrites nothing unread, if the room was given back |
| Ring.ChunkOutStores | modules/rtos/drivers/i2s/rtos_i2s.c:249-260 | a memcpy at the read index takes the next words of the stream |
| Ring.FrameFits | modules/rtos/drivers/i2s/rtos_i2s.c:107 | frames of a divisor of the buffer size never straddle its end |
| SampleRing.SampleRing.CopyIn | modules/rtos/drivers/i2s/rtos_i2s.c:300-316 | the wrapping loop appends all words to the queue |
| SampleRing.SampleRing.CopyOut | modules/rtos/drivers/i2s/rtos_i2s.c:249-266 | the wrapping loop removes the first words of the queue |
| SampleRing.SampleRing.LocalTx | modules/rtos/drivers/i2s/rtos_i2s.c:272-321 | sends all or nothing; when it blocks it leaves its request |
| SampleRing.SampleRing.Send | modules/rtos/drivers/i2s/rtos_i2s.c:100-143 | takes one frame off the queue if there is one, in a single memcpy, and grants a request that fits |
| SampleRing.SampleRing.Receive | modules/rtos/drivers/i2s/rtos_i2s.c:53-97 | appends one frame if there is room, in a single memcpy, and grants a request |
| SampleRing.SampleRing.Deliver | modules/rtos/drivers/mic_array/rtos_mic_array.c:40-76 | appends a block or drops it whole, and grants a request |
| SampleRing.SampleRing.LocalRx | modules/rtos/drivers/mic_array/rtos_mic_array.c:79-129 | returns the oldest words or nothing; when it blocks it leaves its request |
| TransmitProtocol.RunsAreFifo | modules/rtos/drivers/i2s/rtos_i2s.c:100-143 | in every interleaving with i2s_local_tx: the samples sent are a prefix, in whole frames, of those passed by the calls that return success, the level stays within the buffer, the memcpy stays inside it, and a blocked caller has exactly one of request, wake-up under way and semaphore |
| TransmitProtocol.AcceptedIsCalled | modules/rtos/drivers/i2s/rtos_i2s.c:272-321 | in every run, also with longer retries, what counts as accepted is the samples of the calls that return success, and of no others |
| TransmitProtocol.SendsIfThereIsOne | modules/rtos/drivers/i2s/rtos_i2s.c:100-106 | a frame is sent exactly if one has been accepted and not been sent, and a first call copies at once exactly if its samples fit |
| TransmitProtocol.ApplicationIsWoken | modules/rtos/drivers/i2s/rtos_i2s.c:130-142 | the I2S side alone grants every request and wakes the caller |
| TransmitProtocol.RetryFitsIff | modules/rtos/drivers/i2s/rtos_i2s.c:285-298 | in every run the words of a call after a timeout, which the call does not compare with the room, fit if and only if they are no more than the call that timed out had passed |
| TransmitProtocol.LongerRetryCorrupts | modules/rtos/drivers/i2s/rtos_i2s.c:285-298 | for every configuration and every longer retry there is a run in which it overwrites samples not sent yet |
| ReceiveProtocol.BlocksArriveWhole | modules/rtos/drivers/mic_array/rtos_mic_array.c:40-129 | in every interleaving the words received, as many as the completed calls asked for, are a prefix of the blocks delivered that fitted on top of the level when they came, each whole and in order, and no wake-up is lost |
| ReceiveProtocol.LevelIsCalled | modules/rtos/drivers/mic_array/rtos_mic_array.c:48-76 | level and choice of blocks are a function of the deliveries and calls alone: announced blocks less the words of completed calls |
| ReceiveProtocol.CopiesIfThereAre | modules/rtos/drivers/mic_array/rtos_mic_array.c:84-100 | a first call copies at once exactly if there are enough words |
| ReceiveProtocol.RetryHasWordsIff | modules/rtos/drivers/mic_array/rtos_mic_array.c:94-108 | in every run a call after a timeout, which does not look at what is there, finds its words if and only if it asks for no more than the call that timed out or one block, whichever is more |
| ReceiveProtocol.LongerRetryReadsTooMuch | modules/rtos/drivers/mic_array/rtos_mic_array.c:94-108 | for every configuration and every retry longer than that there is a run in which it returns words that were never received |
| ReceiveProtocol.WokenIff | modules/rtos/drivers/mic_array/rtos_mic_array.c:48-75 | the interrupt can wake a waiting call if and only if whole blocks bring the level up to its request; asking for up to the buffer size is allowed, but can wait for ever |
| ReceiveProtocol.FirstCallStarves | modules/rtos/drivers/mic_array/rtos_mic_array.c:48-75 | from the start: a first call for more than the whole blocks that fit the buffer is never woken |
| ReceiveProtocol.StarvingExample | examples/freertos/usb/src/main_1.c:48-54 | a buffer of 1.2 blocks, as this program has it, never fills |
| Bytes.WordRoundTrip | modules/rtos/drivers/intertile/rtos_intertile.c:69 | a length survives its four bytes |
| Bytes.UnwordRoundTrip | modules/rtos/drivers/intertile/rtos_intertile.c:92 | and four bytes their value |
| Intertile.FirstFrame | modules/rtos/drivers/intertile/rtos_intertile.c:60-73 | frames are self-delimiting: a complete frame at the head of a series of frames is the first of them, and a frame still being written is not complete |
| Intertile.PortsReceiveInOrder | modules/rtos/drivers/intertile/rtos_intertile.c:12-147 | in every interleaving what a port received is a prefix of what the senders' calls sent to it, in lock order, for messages sent and received whole or in parts, the chunks of a part put together and cut off at the length |
| Intertile.LogIsSent | modules/rtos/drivers/intertile/rtos_intertile.c:12-75 | the messages sent are a function of the senders' calls alone |
| Intertile.LinkIsSafe | modules/rtos/drivers/intertile/rtos_intertile.c:12-40 | the trigger is enabled only between messages with no bit set and nobody reading, the byte the interrupt takes is a port, and the lock is free only with tx_len = 0, so the assertion holds |
| Intertile.MessagesMoveOn | modules/rtos/drivers/intertile/rtos_intertile.c:116-147 | as long as a sent message has not been received, some byte or thread can go on |
| Rpc.PackRoundTrip | modules/rtos/drivers/rpc/api/rtos_rpc.h:80-85 | a descriptor survives its bit field |
| Rpc.DescsRoundTrip | modules/rtos/drivers/rpc/rtos_rpc.c:38-42 | descriptor i of a message is the one marshalled |
| Rpc.PayloadAt | modules/rtos/drivers/rpc/rtos_rpc.c:44-51 | the data of parameter i is at the sum of the lengths before it |
| Rpc.RequestMarshall | modules/rtos/drivers/rpc/rtos_rpc.c:13-54 | the message is function code, count, descriptors and input data, and its length the number of bytes written, for every terminated list |
| Rpc.RequestParses | modules/rtos/drivers/rpc/rtos_rpc.c:68-79 | parsing finds the parts of the message |
| Rpc.RequestUnmarshall | modules/rtos/drivers/rpc/rtos_rpc.c:81-113 | each argument becomes NULL, a pointer into the message, an invalid pointer, the bytes, or stays, by its descriptor |
| Rpc.RequestRoundTrip | modules/rtos/drivers/rpc/rtos_rpc.c:13-113 | every input arrives in its place, NULL for an empty buffer, whatever descriptors and values |
| Rpc.ResponseMarshall | modules/rtos/drivers/rpc/rtos_rpc.c:124-184 | the response is function code and output data, numbers cut to their length, and its length the number of bytes written |
| Rpc.ResponseUnmarshall | modules/rtos/drivers/rpc/rtos_rpc.c:207-220 | the outputs are copied in order to the memory their arguments point to, shared or not, and nothing else is written |
| Rpc.LandedAlone | modules/rtos/drivers/rpc/rtos_rpc.c:207-220 | an output that shares its memory with no other is there in the end, and nothing else in that memory has changed |
| Rpc.LastLands | modules/rtos/drivers/rpc/rtos_rpc.c:207-220 | of outputs that share memory the last one is there in the end |
| Rpc.ResponseRoundTrip | modules/rtos/drivers/rpc/rtos_rpc.c:124-220 | the caller looks for each output where the host put it |
| Rpc.NumberArrives | modules/rtos/drivers/rpc/rtos_rpc.c:155-173 | a number that its type can hold arrives as it was |
| Rpc.SignedArrives | modules/rtos/drivers/rpc/rtos_rpc.c:155-173 | so does one with a sign, in two's complement |
| Rpc.Serve | modules/rtos/drivers/rpc/rtos_rpc.c:68-184 | the other side calls its function with exactly the caller's inputs and answers with its results |
| Rpc.ClientCall | modules/rtos/drivers/rpc/rtos_rpc.c:231-271 | a call through request, remote side and response leaves the caller's memory as if the function had been called with the caller's inputs and its outputs copied in order, and the function codes agree |
| I2cSlave.AddressDone | modules/hil/lib_i2c/src/i2c_slave.c:90-155 | after the R/W bit: the acknowledge callback of that direction for the own address, nothing for another |
| I2cSlave.WriteByte | modules/hil/lib_i2c/src/i2c_slave.c:226-268 | nine clocks hand one byte to the application, most significant bit first, and put its answer on the line |
| I2cSlave.ReadByte | modules/hil/lib_i2c/src/i2c_slave.c:178-224 | eight clocks show the supplied byte on the line, most significant bit first |
| I2cSlave.Restarts | modules/hil/lib_i2c/src/i2c_slave.c:300-312 | a repeated start between two bytes of a write, or while the slave takes no part, is recognised |
| I2cSlave.Stops | modules/hil/lib_i2c/src/i2c_slave.c:280-299 | a stop is recognised, and reported exactly if the slave was addressed since the last one |
| I2cSlave.StartRecognisedIff | modules/hil/lib_i2c/src/i2c_slave.c:226-312 | at any place inside a transfer, a start condition is recognised if and only if the slave takes no part, expects the first bit of a written byte, or waits for the master's answer to a byte |
| I2cSlave.StopRecognisedIff | modules/hil/lib_i2c/src/i2c_slave.c:226-312 | and a stop condition if and only if the slave takes no part or expects the first bit of a written byte |
| I2cSlave.RunsAreMidway | modules/hil/lib_i2c/src/i2c_slave.c:61-317 | the places that these two are about are all that a run from the start, legal or not, reaches with the clock low and the line not held by the slave |
| I2cSlave.MissedInAddress | modules/hil/lib_i2c/src/i2c_slave.c:90-155 | a run from the start to inside an address, where both conditions are missed |
| I2cSlave.MissedInAckSlot | modules/hil/lib_i2c/src/i2c_slave.c:156-177 | one to the acknowledge slot after any other device's address |
| I2cSlave.MissedInByte | modules/hil/lib_i2c/src/i2c_slave.c:226-268 | one to inside a byte written to the slave |
| I2cSlave.TransferRuns | modules/hil/lib_i2c/src/i2c_slave.c:61-313 | one transfer from its start condition on: callbacks and bits as specified, for any application |
| I2cSlave.SlaveDecodes | modules/hil/lib_i2c/src/i2c_slave.c:61-317 | any series of legal transfers up to the stop: callbacks and line exactly as specified |
| I2cSlave.CallbacksInOrder | modules/hil/lib_i2c/src/i2c_slave.c:61-317 | on arbitrary waveforms the callbacks keep the order applications rely on |
| I2cEventLoop.Loop.EventScl | modules/hil/lib_i2c/src/i2c_slave.c:82-272 | the clock event as written computes the automaton step |
| I2cEventLoop.Loop.EventSda | modules/hil/lib_i2c/src/i2c_slave.c:275-312 | the data line event as written computes the automaton step |
| I2cEventLoop.Loop.Round | modules/hil/lib_i2c/src/i2c_slave.c:61-80 | one round of the loop is one step of the automaton |
| I2cHandshake.WritesDeliveredOnce | modules/rtos/drivers/i2c/rtos_i2c_slave.c:48-205 | in every interleaving: each non-empty write is delivered once, in order, with its stored bytes; each non-empty read is reported once; at most one request is outstanding |
| I2cHandshake.NoInterference | modules/rtos/drivers/i2c/rtos_i2c_slave.c:48-143 | while an application callback runs, the bus thread changes neither the buffer nor the transfer state |
| I2cHandshake.SuppliedInTurn | modules/rtos/drivers/i2c/rtos_i2c_slave.c:110-125 | in every interleaving, byte j of a read is byte j of what the last tx_start callback gave, counted around its end |
| I2cHandshake.NobodyStuck | modules/rtos/drivers/i2c/rtos_i2c_slave.c:48-205 | unless the bus thread is between callbacks and every request is answered, some step is possible that does not depend on the bus |
| I2cHandshake.RequestMovesOn | modules/rtos/drivers/i2c/rtos_i2c_slave.c:48-205 | every step of the interrupt and of the application's thread brings a pending request one step closer to its answer, at most four, and no step of the bus thread puts it back |
| I2cDriver.TakesOrderlyCalls | modules/rtos/drivers/i2c/rtos_i2c_slave.c:84-143 | in every run the driver is where its callbacks and its own answers lead, and takes exactly the callbacks that keep the order |
| I2cDriver.NextCallIsTaken | modules/rtos/drivers/i2c/rtos_i2c_slave.c:145-168 | whatever happens on the bus, the driver can take the automaton's next callback |
| I2cDriver.RefusedFrom | modules/rtos/drivers/i2c/rtos_i2c_slave.c:127-138 | the byte that fills the buffer is stored but refused, like all that come after it |
| I2cDriver.WritesArrive | modules/rtos/drivers/i2c/rtos_i2c_slave.c:48-205 | from the two lines to the application: of any series of legal transfers the rx callbacks get, in order and once, what the buffer holds of each non-empty write to the slave |
| I2cSession.MasterSees | modules/rtos/drivers/i2c/rtos_i2c_slave.c:84-138 | from the application to the two lines: of any series of legal transfers the bits on the data line are those of the transfers, acknowledgements of writes as long as there is room, and for read number r the bytes that tx_start callback number r gave, around its end, or a refusal if it gave none |
| I2cSession.ReadsAreReported | modules/rtos/drivers/i2c/rtos_i2c_slave.c:48-82 | the tx_done callbacks are told, in order and once, the number of bytes of each read that was acknowledged |

## Left out

- Fixed-point samples with their rounding and scaling, the trigonometry that fills the twiddle table, OpenMP, SIMD and `int`
  overflow of the transform's indices: the algorithm is proved over exact numbers.
- The butterflies of `kissfft.hh`, which repeat those of `kiss_fft.c`, and real and multi-dimensional transforms.
- The floating-point `floor(sqrt(n))` of `kf_factor`, taken to be exact.
- FlashDriver.EraseIsRounded: lengths that do not overflow; `EraseIsExactIff` is about all of them.
- FlashDriver.EraseWriteRead: ranges inside the flash, as for `ReadOp`.
- FlashDriver.ReadOp: only ranges inside the flash, since the loop does not end for others; the branches that cap address and
  length are in `ReadRound`, the step that `ReadTerminatesIff` is about.
- Fourier.FourPointTable: only the table for four points; others need sines, which Dafny does not have. The
  transform takes any table with the stated properties.
- Transform.Alloc: the twiddle table is given, and memory comes from Dafny; the branch for a buffer that is too small is left out.
- Factor.Prepare: only the factors; the twiddle table is filled elsewhere.
- FlashDriver.WhileBusy: the chip is assumed to become ready after some number of polls.
- QspiFlash.Chip.WriteInProgress: the polled register and its ready value are not modelled, only what they say.
- FlashDriver.ReadChunk: a round inside the flash, as for `ReadOp`.
- FlashDriver.BootImageWrite: at most 4096 bytes inside the flash; more would overrun the buffer, which the code does not check.
- FlashDriver.RemoteRead: the remote calls are taken to be the local reads they stand for, under one lock.
- QspiFlash.Chip.Read: reads during a write, reads that wrap around the end of the chip, 4-byte addressing and XIP are not
  modelled; the flash has at most 2^24 bytes, as three address bytes allow.
- Sfdp.Discover: starts from parsed tables; the parsing of SFDP headers, poll and quad-enable methods, and the assertions about
  read instructions are left out.
- FlashThread.RunsAreCorrect: readers as `UnlockedReadsCorrectIff` has it; taking the mutex, waiting for a free queue entry and
  sending are one step, and nested locking by one thread is not counted; priorities and failure of the allocation are left out.
- TransmitProtocol.RunsAreFifo: calls after a timeout ask for no more than the one that timed out, the condition of
  `RetryFitsIff`; there is no send filter, and memory accesses take effect in program order.
- ReceiveProtocol.BlocksArriveWhole: calls after a timeout keep to the condition of `RetryHasWordsIff`.
- SampleRing.SampleRing.LocalTx: a woken call has room for its words, the condition of `TransmitProtocol.RetryFitsIff`.
- SampleRing.SampleRing.LocalRx: a woken call has its words, the condition of `ReceiveProtocol.RetryHasWordsIff`.
- SampleRing.SampleRing.Send: no send filter; without one the frame is copied as it is.
- SampleRing.SampleRing.Receive: no receive filter.
- I2S filter callbacks, with which `i2s_receive` advances by the frame size whatever the filter returns.
- Intertile.PortsReceiveInOrder: one receiver for each port, as the header demands; a zero-length message counts as received,
  which depends on what `malloc(0)` returns; the receiver's `rx_len` is its place in the message, so the assertion that it is
  zero and the use of the split receive functions by several threads at once are not modelled. The channel's endpoints,
  their set-up and the other direction are left out.
- Rpc.RequestMarshall: lengths are unbounded, so no overflow of the 32-bit total; the arguments are given as what they point to.
- Rpc.ClientCall: the request and the reply travel unchanged, as `Intertile` has it, and the remote function is a function of its
  inputs.
- Rpc.Serve: the dispatch on the function code belongs to the application.
- The layout of the descriptor's bit field is one that compilers choose; only that it survives packing matters.
- I2cSlave.SlaveDecodes: a callback and the clock stretching around it take no time, the data line changes only while the clock
  is low except for start and stop conditions, the automaton handles its events before the bus changes again, and the other
  devices answer the last byte of a read with a NACK. Shutdown is left out.
- I2cSlave.CallbacksInOrder: at most three events between two changes of the bus.
- I2cHandshake.WritesDeliveredOnce: the buffer that `tx_start` returns is a value, so that the application changing it during a
  transfer is not modelled.
- Intertile, FlashThread, I2cHandshake and the two ring protocols are values and steps instead of objects: their functions wait
  for each other in the middle, which a method cannot.
- Ports, clock blocks, pin timing, SPI, the I2C master, GPIO, the other drivers' RPC wrappers, FreeRTOS itself, TensorFlow,
  USB, Wi-Fi and the demos.
