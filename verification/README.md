# A verified model of the Quectel user-friendly project's stateful core

Most of the repository is AT-command plumbing. What is modelled here is the code that keeps state
or computes something hard to get right by eye: the two flash writers, the intrusive list, message
queue, semaphore and event group of the ARM port's OSAL, the UART receive path with its ring
buffer, the framed debug log, and the codecs (IPv4 text, PSM timers, the shell's tokenizer).

`dafny verify dfyconfig.toml` checks everything.

| file | models | in the form of |
|---|---|---|
| `SpiFlash.dfy` | the SPI NOR-flash driver over a device whose page program ANDs and wraps | classes with the driver's loops |
| `Bootloader.dfy` | the firmware updater over an on-chip flash whose programs may fail | classes and loops; pure sector function |
| `QueueList.dfy` | the circular list with a sentinel, on the heap | class nodes, ghost sequence |
| `OsalSem.dfy`, `MsgQueue.dfy`, `MsgQueueBounds.dfy`, `MsgQueueTraffic.dfy`, `EventGroup.dfy`, `EventTraffic.dfy`, `Threads.dfy` | semaphore, message queue, event group under every interleaving | state machines `Init`, `Can`, `Do`, `Run` |
| `RingBuffer.dfy`, `UartReceive.dfy`, `LogFraming.dfy` | byte ring, DMA callbacks with spill and RTS, log records through a ring | classes with the source's fields |
| `Ipv4.dfy`, `PsmTimer.dfy`, `Tokenizer.dfy` | text codecs and the in-place tokenizer | loops against specification functions |
| `Bytes.dfy`, `CStrings.dfy`, `Wrappers.dfy` | bytes, 16- and 32-bit arithmetic, `isspace`, `Option` | |

## Reading the models

In the state machines a step is what one thread does between two points where another may run:
each test outside a lock, taking and giving back a mutex, each update made under it, each kernel
call. `Run` is any finite schedule of such steps by any number of threads, so a lemma about `Run`
from `Init` is a statement about every interleaving. A wait that times out is a step that is always
possible. `MsgQueue` and `EventGroup` use the kernel semaphore as one atomic step; `OsalSem` justifies
that: seen from outside, `qosa_sem_wait` and `qosa_sem_release` are the kernel's calls.

`MsgQueueTraffic` and `EventTraffic` say what the callers get in terms of the schedule alone: the arguments of the
calls in it and the order of the updates.

In `UartReceive` the object is the file's static data plus the position of the DMA channel and
its two interrupt flags. `Valid` holds whenever and in whatever order the interrupts are served; `Intact` says
that the slices handed on are the stream. `InTime` is the exact condition for one step to keep it,
`Prompt` what a system can do to be in time, and `Allowed` adds what the flow control needs.

## What the proofs turned up

Where the code differs from what its comments or callers expect, the model follows the code.

- `IAP_Write_Flash_AppBin` raises its counter and lowers its bound in the byte loop, so of the last
  `len % 4` bytes it writes only the first half, rounded up. `CompleteIff` is the exact condition for a complete image.
  After a failed word the same loop still runs over everything that is left.
- `Update_Firmware` keeps its status in 8 bits: the -1 it stores for an error is returned as 255, so the
  caller's `case -1` cannot match.
- The erase test adds the size to the start address in 32 bits. For sizes of 0xF7FF0000 and more the sum wraps and
  nothing is erased (`EraseCoversIff`). Such an image never ends with status 0.
- The message queue tests for "full" outside its lock: with two or more producers the count can exceed the maximum
  (`MaximumKeptIff`). The semaphore holds five tokens; once more messages than that can be queued, a release is refused
  although the message stays queued, and one message per refusal is stranded (`NoReleaseFailsIff`, `Stranded`).
- An event group with two waiters can lose a wakeup: the wrong waiter takes the token (`NoLostWakeupIff`).
- A semaphore created with a non-zero initial count reports a count that is off by it for ever (`QuietCountExactIff`).
- `qosa_delete` leaves the successor's back link pointing at the removed item; `qosa_insert` sets no back link, and before
  the sentinel it leaves the tail pointer stale. Its walk stops exactly if the given link is an item or the sentinel
  (`WalkStopsIff`); with any other link it goes round for ever.
- Bytes that arrive between the first read of a UART stall and the flush overtake the spill. One read of 1706 bytes
  or more can empty the ring during a stall, after which no read ends it. A spill longer than 3415 bytes can lose its end.
- When the line goes idle while a DMA interrupt is waiting and the idle event is served first, the slices stay intact exactly if
  the one waiting is the half interrupt and the DMA channel still stands on the mark (`IdleThenWaiting`). Behind the mark the
  next length wraps below zero. With the complete interrupt waiting either the idle slice wraps, or, at position 0, the head is
  reset and the whole buffer is handed on again.
- A log record that only partly fits leaves a torn frame. The log thread does not look at how much it read: drained at once, the
  record is padded with what its buffer holds; if others are put behind it first, it takes its missing bytes from them
  (`TornThen`, `TornThenEmpty`). Once the ring has been emptied, records are whole again. One that meets a full ring vanishes.
- `osal_ip4addr_aton` reads every number modulo 2^32, so 4294967297.0.0.1 is 1.0.0.1.
- The tokenizer's comment says the leading token cannot be quoted. The code allows it: its test is on a counter already raised.
- The PSM encoders choose the unit before rounding. The result is not monotone and not always the nearest time an
  octet can express; `TauStepsDownIff`, `ActiveStepsDownIff`, `TauNearestIff` and `ActiveNearestIff` say exactly where.

## Model

| member | source | states |
|---|---|---|
| `SpiFlash.SpiFlashDriver.Write` | quectel/common/src/spi_flash.c:216-258 | for every content, address and 16-bit length inside the device: exactly `[addr, addr+n)` is replaced by the buffer, and the erases and programs sent are those each sector's old content calls for |
| `SpiFlash.SpiFlashDriver.WriteSector` | quectel/common/src/spi_flash.c:230-244 | one sector's part: overwritten either way, erased first exactly if its part of the range is not blank |
| `SpiFlash.SpiFlashDriver.FirstNotBlank` | quectel/common/src/spi_flash.c:231-234 | the checking loop stops early exactly if a byte of the part is not 0xFF |
| `SpiFlash.SpiFlashDriver.CopyIntoSector` | quectel/common/src/spi_flash.c:238-241 | the copying loop overwrites the part in the copy of the sector and nothing else |
| `SpiFlash.ErasesExactly` | quectel/common/src/spi_flash.c:228-257 | in any write a sector is erased once if its part of the range holds a non-0xFF byte and never otherwise |
| `SpiFlash.SpiFlashDriver.WriteNoCheck` | quectel/common/src/spi_flash.c:189-208 | each byte of the range becomes old AND new, all others stay, on a device that wraps inside pages; the programs sent are `Pieces` |
| `SpiFlash.PiecesTile` | quectel/common/src/spi_flash.c:191-207 | the pieces follow each other, cover the range, none crosses a 256-byte page or is empty unless the range is, and each but the last reaches its page's end |
| `SpiFlash.NoEraseInPieces` | quectel/common/src/spi_flash.c:189-208 | an unchecked write erases nothing |
| `SpiFlash.RewriteSector` | quectel/common/src/spi_flash.c:235-243 | erasing a sector and ANDing its edited copy back is an overwrite of the edited part alone |
| `SpiFlash.ProgramBlank` | quectel/common/src/spi_flash.c:244 | programming a blank range is an overwrite |
| `SpiFlash.ProgramInPage` | quectel/common/src/spi_flash.c:156-179 | a program that stays in its page does not wrap: it is a plain AND of the range |
| `SpiFlash.SameDirt` | quectel/common/src/spi_flash.c:228-257 | writing one sector does not change the erase decision of a later one |
| `SpiFlash.DirtySplit` | quectel/common/src/spi_flash.c:225-255 | each sector's decision depends on its own part of the range |
| `SpiFlash.SpiFlashDriver.WritePage` | quectel/common/src/spi_flash.c:160-179 | sets the write-enable latch, so the page program takes effect |
| `SpiFlash.SpiFlashDriver.EraseSector` | quectel/common/src/spi_flash.c:275-291 | sets the latch and erases the sector of the multiplied address |
| `SpiFlash.SpiFlashDriver.Read` | quectel/common/src/spi_flash.c:137-154 | the loop fills the buffer's first `n` bytes with the range and leaves the rest |
| `Bootloader.UpdateFirmware` | system/platform/arm-cortex/bootloader/src/bootloader.c:130-190 | status 0 exactly if the file opens, no read and no program fails, the image fits and its byte 7 is 0x08 (or it is empty); then the flash is `Updated` and the file removed; a file that does not open or is no image changes nothing; whatever fails: only the application area changes, at most one round of erases, before any program, programs only inside the area, and unless a read fails the only other status is 255, or 1 for a failed open |
| `Bootloader.SectorTable` | system/platform/arm-cortex/bootloader/inc/bootloader.h:23-45 | the twelve sector addresses, the start of the application and the end of the flash |
| `Bootloader.UpdatedMeaning` | system/platform/arm-cortex/bootloader/src/bootloader.c:97-122 | a successful update cell by cell: untouched below the area, the image up to the skipped bytes, blank up to the end of the last erased sector, untouched above |
| `Bootloader.CompleteIff` | system/platform/arm-cortex/bootloader/src/bootloader.c:72-86 | the flash holds the whole image exactly if its last `(len % 4) / 2` bytes are 0xFF; with `len % 4 <= 1` there are none |
| `Bootloader.WrittenMeaning` | system/platform/arm-cortex/bootloader/src/bootloader.c:54-86 | of `n` bytes `n - (n % 4) / 2` are programmed |
| `Bootloader.WriteAppBin` | system/platform/arm-cortex/bootloader/src/bootloader.c:42-89 | 0 exactly if the address is aligned and in the flash and no program fails, else -1; on 0 exactly the first `Written(size)` bytes are programmed, as far as there are cells; never touches anything outside the range; leaves the flash locked |
| `Bootloader.WriteBuffer` | system/platform/arm-cortex/bootloader/src/bootloader.c:54-86 | word loop and byte loop together report success exactly if no program fails, and then have programmed exactly the first `Written(size)` bytes; whatever fails they stay in the range |
| `Bootloader.WriteWords` | system/platform/arm-cortex/bootloader/src/bootloader.c:54-70 | the word loop programs the whole words unless one fails, and stays in the range |
| `Bootloader.WriteTail` | system/platform/arm-cortex/bootloader/src/bootloader.c:72-86 | the byte loop programs `(n + 1) / 2` of `n` bytes unless one fails |
| `Bootloader.WordRoundTrip` | system/platform/arm-cortex/bootloader/src/bootloader.c:57-61 | the word built from four bytes is stored as those four bytes in that order |
| `Bootloader.WordValue` | system/platform/arm-cortex/bootloader/src/bootloader.c:57-61 | the word is the little-endian number of the four bytes |
| `Bootloader.WrittenSplits` | system/platform/arm-cortex/bootloader/src/bootloader.c:151-184 | cutting an image into 16 KB chunks skips bytes at the end of the image only |
| `Bootloader.EraseAppBin` | system/platform/arm-cortex/bootloader/src/bootloader.c:97-122 | the eight tests erase exactly the sectors from 4 up whose start the 32-bit end address reaches |
| `Bootloader.EraseNext` | system/platform/arm-cortex/bootloader/src/bootloader.c:100-115 | one of those tests |
| `Bootloader.ErasesOnce` | system/platform/arm-cortex/bootloader/src/bootloader.c:97-122 | each sector is erased at most once, sectors 0 to 3 never |
| `Bootloader.EraseCoversIff` | system/platform/arm-cortex/bootloader/src/bootloader.c:100-115 | the erased sectors cover the image's part of the flash exactly if the 32-bit end address does not wrap (or the image is empty) |
| `Bootloader.StartIsInSector` | system/platform/arm-cortex/bootloader/src/bootloader.c:17-31 | each sector's start is in that sector |
| `Bootloader.InSector` | system/platform/arm-cortex/bootloader/src/bootloader.c:17-31 | an address belongs to a sector exactly if it lies between its start and the next one's |
| `Bootloader.GetFlashSector` | system/platform/arm-cortex/bootloader/src/bootloader.c:17-31 | the sector found contains the address, for all addresses in the flash |
| `Bootloader.TakePackets` | system/platform/arm-cortex/bootloader/src/bootloader.c:151-184 | the read loop ends, keeps `Safe` on every path, and returns 0 exactly under the conditions above; its 8-bit counter never wraps |
| `Bootloader.TakePacket` | system/platform/arm-cortex/bootloader/src/bootloader.c:164-183 | one packet goes on exactly if it starts in the flash, no program fails and, the first, looks like an image |
| `Bootloader.FirstPacket` | system/platform/arm-cortex/bootloader/src/bootloader.c:164-173 | an invalid first packet changes nothing, a valid one has the flash erased |
| `Bootloader.IsValidPackage` | system/platform/arm-cortex/bootloader/src/bootloader.c:166 | the test of the masked word is a test of byte 7 |
| `Bootloader.WriteChunk` | system/platform/arm-cortex/bootloader/src/bootloader.c:175-181 | extends what the flash holds of the image by the chunk; refused past the end of the flash |
| `Bootloader.ChunkInFlash` | system/platform/arm-cortex/bootloader/src/bootloader.c:175-181 | a chunk that starts in the flash ends in it |
| `QueueList.Queue.constructor` | system/platform/arm-cortex/common/osal/qosa_queue_list.c:140-152 | an empty ring through the sentinel |
| `QueueList.Queue.Put` | system/platform/arm-cortex/common/osal/qosa_queue_list.c:202-224 | appends; chain, count and tail pointer follow, back links too if they mirrored the chain |
| `QueueList.Queue.PutHead` | system/platform/arm-cortex/common/osal/qosa_queue_list.c:696-727 | prepends; the same |
| `QueueList.Queue.Get` | system/platform/arm-cortex/common/osal/qosa_queue_list.c:243-277 | takes the first item, NULL exactly on an empty queue; the same |
| `QueueList.Queue.LastGet` | system/platform/arm-cortex/common/osal/qosa_queue_list.c:297-319 | the walk ends and the last item is taken; the same |
| `QueueList.Queue.Check` | system/platform/arm-cortex/common/osal/qosa_queue_list.c:362-385 | the first item or NULL |
| `QueueList.Queue.Next` | system/platform/arm-cortex/common/osal/qosa_queue_list.c:444-455 | the following item, NULL behind the last |
| `QueueList.Queue.LinearSearch` | system/platform/arm-cortex/common/osal/qosa_queue_list.c:566-586 | the first item the comparison accepts, NULL exactly if it accepts none |
| `QueueList.Queue.CountedSearch` | system/platform/arm-cortex/common/osal/qosa_queue_list.c:620-622 | the counting walk stops in front of the item, or with count 0 exactly if it is not queued |
| `QueueList.Queue.Delete` | system/platform/arm-cortex/common/osal/qosa_queue_list.c:604-641 | removes the item and keeps order, count and tail; nothing at all changes for an item not queued; mirrored back links survive exactly if the item was last or absent |
| `QueueList.Queue.Predecessor` | system/platform/arm-cortex/common/osal/qosa_queue_list.c:520-532 | the walk to a member or the sentinel ends in front of it |
| `QueueList.Queue.WalkStopsIff` | system/platform/arm-cortex/common/osal/qosa_queue_list.c:520-532 | the walk of qosa_insert ever meets the given link exactly if that is an item or the sentinel |
| `QueueList.Queue.SpliceIn` | system/platform/arm-cortex/common/osal/qosa_queue_list.c:533-535 | hooking the item in keeps the forward chain and the count |
| `QueueList.Queue.Insert` | system/platform/arm-cortex/common/osal/qosa_queue_list.c:503-539 | the item stands in front of the given one; chain and count always follow, the tail pointer exactly if the given one is not the sentinel; back links break |
| `QueueList.Run` | system/platform/arm-cortex/common/osal/qosa_queue_list.c:202-727 | every run of put, put_head, get, last_get, delete and insert-before-a-member keeps chain, count and tail pointer equal to the abstract sequence `Steps` computes; without delete and insert the back links mirror it too |
| `QueueList.Serve` | system/platform/arm-cortex/common/osal/qosa_queue_list.c:202-727 | one such call does to the list what `Step` does to a sequence |
| `QueueList.RemovedIs` | system/platform/arm-cortex/common/osal/qosa_queue_list.c:604-641 | taking out the item the counting walk stops at removes that item from the sequence |
| `QueueList.RemovedNothing` | system/platform/arm-cortex/common/osal/qosa_queue_list.c:604-641 | removing an absent item is a no-op |
| `QueueList.InsertedIs` | system/platform/arm-cortex/common/osal/qosa_queue_list.c:503-539 | hooking in behind the walk's end puts the new item directly before the given one |
| `OsalSem.ShadowCount` | system/platform/arm-cortex/common/osal/qosa_sem.c:109-174 | in every interleaving, up to the limit of the next row: shadow count + releases about to count = initial count + kernel tokens + waiters about to count down; no decrement meets zero, no releasing thread finds the count at the limit |
| `OsalSem.CountedIff` | system/platform/arm-cortex/common/osal/qosa_sem.c:157-170 | that count holds in every run exactly if there is no thread or initial count + 5 + threads is at most 0x7FFFFFFF |
| `OsalSem.ReleaseMany` | system/platform/arm-cortex/common/osal/qosa_sem.c:109-174 | for every number of threads a run that raises the count by five more than there are other threads |
| `OsalSem.ReleaseAtLimit` | system/platform/arm-cortex/common/osal/qosa_sem.c:157-167 | a release that finds the count at the limit gives no token and counts one all the same |
| `OsalSem.QuietCountExactIff` | system/platform/arm-cortex/common/osal/qosa_sem.c:51-54 | between calls the count reported is the number of tokens exactly if the initial count was 0 |
| `OsalSem.RefinesKernel` | system/platform/arm-cortex/common/osal/qosa_sem.c:157-170 | a wait takes one kernel token, a release adds one unless five are there and succeeds exactly if it adds one |
| `OsalSem.ResultsAreTrue` | system/platform/arm-cortex/common/osal/qosa_sem.c:122-173 | in every interleaving, for every caller: as many of its waits return success as took a token, as many a timeout as timed out; as many of its releases return success as found room in the kernel semaphore, as many failure as found five tokens |
| `OsalSem.StepResults` | system/platform/arm-cortex/common/osal/qosa_sem.c:122-173 | every step of anybody keeps that balance for every caller |
| `OsalSem.TokensConserved` | system/platform/arm-cortex/common/osal/qosa_sem.c:122-160 | in every run the tokens there are those added and not yet taken |
| `OsalSem.StepInv` | system/platform/arm-cortex/common/osal/qosa_sem.c:109-174 | every step keeps the invariant |
| `OsalSem.StepLocking` | system/platform/arm-cortex/common/osal/qosa_sem.c:123-141 | every step keeps mutual exclusion |
| `OsalSem.Bounds` | system/platform/arm-cortex/common/osal/qosa_sem.c:124-161 | under the invariant a waiter about to count down finds a positive count, and the limit test always passes |
| `OsalSem.RunInv` | system/platform/arm-cortex/common/osal/qosa_sem.c:109-174 | so does every run |
| `MsgQueue.Safety` | system/platform/arm-cortex/common/osal/qosa_msg_queue.c:156-267 | in every interleaving of any producers and consumers: no consumer gets NULL, what was received is a prefix of what was sent, the count is the list's length when nobody holds the mutex and at most max + producers - 1, and items = tokens + tokens owed + tokens claimed + refused releases |
| `MsgQueueTraffic.Delivers` | system/platform/arm-cortex/common/osal/qosa_msg_queue.c:195-266 | in every interleaving the messages qosa_msgq_wait returns are a prefix of those the callers of qosa_msgq_release passed in, in the order of the puts; with the mutex free the queue holds exactly the rest |
| `MsgQueueTraffic.FollowsSchedule` | system/platform/arm-cortex/common/osal/qosa_msg_queue.c:195-266 | at every moment what was put is what the callers passed in and what was taken out was returned, but for one message in hand |
| `MsgQueueTraffic.StepSent` | system/platform/arm-cortex/common/osal/qosa_msg_queue.c:196-198 | a put enqueues the message of its caller's latest call |
| `MsgQueueTraffic.StepReceived` | system/platform/arm-cortex/common/osal/qosa_msg_queue.c:259-266 | what is taken out of the list is what the call returns |
| `MsgQueueTraffic.ResultsAreTrue` | system/platform/arm-cortex/common/osal/qosa_msg_queue.c:202-207 | for every caller, as many of its releases return success as found room for their token, as many failure as found five |
| `MsgQueueTraffic.EveryCallReturns` | system/platform/arm-cortex/common/osal/qosa_msg_queue.c:156-267 | a thread is in a call exactly between the step that begins it and the one that ends it |
| `MsgQueue.Stranded` | system/platform/arm-cortex/common/osal/qosa_msg_queue.c:195-206 | when all calls are over, as many messages as releases were refused have no token |
| `MsgQueue.ClaimIsBacked` | system/platform/arm-cortex/common/osal/qosa_msg_queue.c:248-260 | a consumer with a token and the mutex finds an item |
| `MsgQueue.StepConserved` | system/platform/arm-cortex/common/osal/qosa_msg_queue.c:195-202 | every step keeps that count of items against tokens, and none dereferences NULL |
| `MsgQueue.StepCached` | system/platform/arm-cortex/common/osal/qosa_msg_queue.c:198-263 | every step keeps current_cnt equal to the list's length up to the update in progress; neither `++` nor `--` wraps |
| `MsgQueue.StepCapped` | system/platform/arm-cortex/common/osal/qosa_msg_queue.c:176-200 | every step keeps count + producers past the unlocked test within max + producers - 1 |
| `MsgQueue.StepOrdered` | system/platform/arm-cortex/common/osal/qosa_msg_queue.c:198-259 | every step keeps sent = received + queued |
| `MsgQueue.StepLocking` | system/platform/arm-cortex/common/osal/qosa_msg_queue.c:195-264 | every step keeps mutual exclusion |
| `MsgQueue.OneUpdate` | system/platform/arm-cortex/common/osal/qosa_msg_queue.c:195-264 | at most one update of list and count is in progress |
| `MsgQueue.StepInv` | system/platform/arm-cortex/common/osal/qosa_msg_queue.c:156-267 | every step keeps all of it |
| `MsgQueue.RunInv` | system/platform/arm-cortex/common/osal/qosa_msg_queue.c:156-267 | so does every run |
| `MsgQueueBounds.MaximumKeptIff` | system/platform/arm-cortex/common/osal/qosa_msg_queue.c:176-200 | the count stays within the maximum in every run exactly if there is at most one producer |
| `MsgQueueBounds.NoReleaseFailsIff` | system/platform/arm-cortex/common/osal/qosa_msg_queue.c:202-206 | no release is refused in any run exactly if max + producers - 1 is at most five or there is no producer |
| `MsgQueueBounds.PeakIsReached` | system/platform/arm-cortex/common/osal/qosa_msg_queue.c:176-200 | for every maximum and number of producers a run that reaches max + producers - 1 |
| `MsgQueueBounds.ItemsBound` | system/platform/arm-cortex/common/osal/qosa_msg_queue.c:176-200 | the list never holds more than that |
| `MsgQueueBounds.NoReleaseFails` | system/platform/arm-cortex/common/osal/qosa_msg_queue.c:202-206 | while the peak fits the five tokens every release of every run works |
| `EventGroup.NoLostWakeupIff` | system/platform/arm-cortex/common/osal/qosa_event.c:74-132 | in every run, whenever a blocked waiter's flags satisfy its mask a token is there or being given: true exactly if there is at most one waiter or no sender |
| `EventGroup.TokenForWaiter` | system/platform/arm-cortex/common/osal/qosa_event.c:74-132 | with one waiter, in every run: whenever nobody holds the mutex and the blocked waiter's flags satisfy its mask, the semaphore holds a token |
| `EventGroup.WakeupStolen` | system/platform/arm-cortex/common/osal/qosa_event.c:83-112 | for any two waiters and a sender a run in which one waiter takes the other's token and the other sleeps on flags that are set |
| `EventGroup.ReceiveTakesWhatItReturns` | system/platform/arm-cortex/common/osal/qosa_event.c:87-95 | a clearing receive removes exactly the bits it returns, a keeping one none; the bits are the masked flags |
| `EventTraffic.FollowsSchedule` | system/platform/arm-cortex/common/osal/qosa_event.c:74-132 | in every interleaving the flags are those of an object whose sends and receives are atomic, in the order of their updates, and every call works with the mask, option and flags it was called with |
| `EventTraffic.ReturnsWhatWasAsked` | system/platform/arm-cortex/common/osal/qosa_event.c:87-102 | a receive returns exactly if its test was met by the flags left by the sends and receives before it, and returns those of them it asked for |
| `EventTraffic.MeetsMeaning` | system/platform/arm-cortex/common/osal/qosa_event.c:87-88 | with option bit 1 a test is met if some flag of the mask is set, with bit 2 if each is, and otherwise not |
| `EventTraffic.TestIsMeets` | system/platform/arm-cortex/common/osal/qosa_event.c:87-93 | the model's test and clearing in literal bit operations |
| `EventTraffic.TokensFollow` | system/platform/arm-cortex/common/osal/qosa_event.c:102-128 | in every run the semaphore holds the releases, up to five, less the wakeups |
| `EventTraffic.EveryCallReturns` | system/platform/arm-cortex/common/osal/qosa_event.c:74-132 | a thread is in a call exactly between the step that begins it and the one that ends it |
| `EventGroup.ClearsExactly` | system/platform/arm-cortex/common/osal/qosa_event.c:87-93 | flags without the received bits, and those bits, are disjoint and make up the flags |
| `EventGroup.StepNoLostWakeup` | system/platform/arm-cortex/common/osal/qosa_event.c:74-132 | with one waiter every step keeps the wakeup property |
| `EventGroup.StepRefused` | system/platform/arm-cortex/common/osal/qosa_event.c:97-102 | between a failed test and giving the mutex back the flags do not change |
| `EventGroup.StepLocking` | system/platform/arm-cortex/common/osal/qosa_event.c:85-129 | every step keeps mutual exclusion |
| `EventGroup.StepUnsent` | system/platform/arm-cortex/common/osal/qosa_event.c:74-116 | without senders no flag is ever set, and whoever blocked has a mask that zero flags do not satisfy |
| `EventGroup.StepInv` | system/platform/arm-cortex/common/osal/qosa_event.c:74-132 | with one waiter every step keeps the invariant |
| `EventGroup.RunInv` | system/platform/arm-cortex/common/osal/qosa_event.c:74-132 | so does every run |
| `RingBuffers.RingBuffer.constructor` | quectel/common/src/ringbuffer.c:19-30 | an empty ring over the pool, its size rounded down to a multiple of four, zero included |
| `RingBuffers.RingBuffer.Put` | quectel/common/src/ringbuffer.c:45-71 | appends the first min(n, free) bytes, returns how many, and writes nothing behind the ring's size |
| `RingBuffers.RingBuffer.CopyToTail` | quectel/common/src/ringbuffer.c:55-68 | the one or two copies write the bytes cyclically from the tail and nothing else |
| `RingBuffers.RingBuffer.Get` | quectel/common/src/ringbuffer.c:81-109 | removes the first min(n, size) bytes into the buffer and leaves the rest of the buffer |
| `RingBuffers.RingBuffer.CopyFromHead` | quectel/common/src/ringbuffer.c:87-106 | the one or two copies deliver the window at the head |
| `RingBuffers.WindowGrows` | quectel/common/src/ringbuffer.c:55-69 | writing cyclically at (head + size) mod capacity appends to the ring's content |
| `RingBuffers.WindowShrinks` | quectel/common/src/ringbuffer.c:87-107 | moving the head drops the oldest bytes |
| `RingBuffers.WrappedIsModulo` | quectel/common/src/ringbuffer.c:61-97 | an index that ran past the end once is reduced by the code's remainder |
| `RingBuffers.Serve` | quectel/common/src/ringbuffer.c:45-109 | any sequence of puts and gets on a fresh ring behaves like a bounded FIFO, byte for byte |
| `RingBuffers.FifoConserves` | quectel/common/src/ringbuffer.c:45-109 | over any such sequence what was accepted is what came out followed by what is left |
| `UartReceive.AtUart.Run` | system/platform/arm-cortex/common/hal/hal_uart.c:148-403 | for every sequence of bytes, interrupts, idle events and reads, as far as the environment keeps `Allowed`: consumed + ring + spill + unserved DMA bytes is exactly what arrived |
| `UartReceive.AtUart.Deliver` | system/platform/arm-cortex/common/hal/hal_uart.c:191-267 | for every such sequence of a prompt system, whatever the reader does: the slices handed to rt_device_cb followed by the unserved DMA bytes are exactly what arrived |
| `UartReceive.AtUart.IdleThenWaiting` | system/platform/arm-cortex/common/hal/hal_uart.c:192-267 | an idle event served ahead of a waiting interrupt, and then that interrupt, keep the slices intact exactly if none or only the half interrupt is waiting and the DMA channel stands on the half mark; otherwise what was handed on and what the next slices will hand on is more than arrived |
| `UartReceive.AtUart.PromptIsInTime` | system/platform/arm-cortex/common/hal/hal_uart.c:191-267 | serving each interrupt before the next mark and before an idle event (or at the very mark) meets the exact condition of every step |
| `UartReceive.AtUart.NothingMissing` | system/platform/arm-cortex/common/hal/hal_uart.c:148 | what was not handed on still lies in the circular buffer from the head on |
| `UartReceive.AtUart.Drain` | system/platform/arm-cortex/common/hal/hal_uart.c:382-403 | reading at most 1705 bytes at a time ends every stall with at most 3415 spilled bytes: all comes out, flow control and RTS off |
| `UartReceive.AtUart.Serve` | system/platform/arm-cortex/common/hal/hal_uart.c:148-403 | one event, in any order: keeps the slices intact exactly if it is in time, keeps a prompt system prompt, and keeps the reader's order if it is orderly |
| `UartReceive.AtUart.RtDeviceCb` | system/platform/arm-cortex/common/hal/hal_uart.c:153-183 | what the ring refuses goes behind the spill, flow control is on exactly while the spill is non-empty, and the order survives exactly if the bytes that overtake the spill commute with it |
| `UartReceive.AtUart.PutOrSpill` | system/platform/arm-cortex/common/hal/hal_uart.c:155-182 | ring takes what fits, spill the rest, RTS raised once |
| `UartReceive.AtUart.RxIdleCallback` | system/platform/arm-cortex/common/hal/hal_uart.c:192-219 | in every state what is handed on and where the head goes, the reset at position 0 included; the slices stay intact exactly if the head has not passed the DMA channel, and then, unless a whole buffer was waiting, everything that arrived has been handed on |
| `UartReceive.AtUart.RxHalfCpltCallback` | system/platform/arm-cortex/common/hal/hal_uart.c:221-243 | in every state what is handed on; the slices stay intact exactly if the head has not passed the half mark and all up to it has arrived |
| `UartReceive.AtUart.RxCpltCallback` | system/platform/arm-cortex/common/hal/hal_uart.c:245-267 | the same at the end mark, bytes already written to the buffer's start included |
| `UartReceive.AtUart.Slice` | system/platform/arm-cortex/common/hal/hal_uart.c:214-218 | hands on exactly the bytes between head and mark, or overruns the buffer if the head has passed the mark, and leaves the head on the mark either way |
| `UartReceive.AtUart.NegativeSize` | system/platform/arm-cortex/common/hal/hal_uart.c:153-182 | a length that wrapped: the ring takes bytes from behind the buffer, nothing is spilled |
| `UartReceive.AtUart.SliceKeeps` | system/platform/arm-cortex/common/hal/hal_uart.c:214-218 | a slice continues the stream exactly if the head has not passed the mark and all up to it has arrived |
| `UartReceive.AtUart.DmaByte` | system/platform/arm-cortex/common/hal/hal_uart.c:148 | a byte of the circular DMA channel, in every state: it overwrites one not handed on exactly if 256 are waiting |
| `UartReceive.AtUart.UartRead` | system/platform/arm-cortex/common/hal/hal_uart.c:382-403 | how many bytes are returned and which, and what is left of the stream in every case; a flush ends the stall and keeps the stream exactly if the whole spill fits; a read leaves the reader stuck exactly if it empties a stalled ring |
| `UartReceive.AtUart.FlushSpill` | system/platform/arm-cortex/common/hal/hal_uart.c:388-397 | the flush, likewise |
| `UartReceive.AtUart.TakeFromRing` | system/platform/arm-cortex/common/hal/hal_uart.c:398 | moves bytes from ring to reader without changing the stream |
| `UartReceive.Reordering` | system/platform/arm-cortex/common/hal/hal_uart.c:155-178 | bytes that enter the ring ahead of the spill keep the stream exactly if both orders spell the same |
| `UartReceive.FlushFitsIff` | system/platform/arm-cortex/common/hal/hal_uart.c:388-390 | the spill fits whenever the one-third test lets a flush run exactly if it has at most 3415 bytes |
| `UartReceive.HeadMoves` | system/platform/arm-cortex/common/hal/hal_uart.c:214-216 | the head lands on the mark also when it, or the length, wraps at 2^32 |
| `UartReceive.SliceInBounds` | system/platform/arm-cortex/common/hal/hal_uart.c:214-218 | a slice lies in the DMA buffer exactly if the head has not passed the mark |
| `LogFraming.Run` | quectel/common/src/debug_service.c:348-374 | in any interleaving of whole-record puts with the log thread's ring accesses, as long as each record fits, the file is a prefix of the payloads in order |
| `LogFraming.DebugLog.Drain` | quectel/common/src/debug_service.c:348-374 | the thread's loop ends and empties the ring from any content; from whole frames the file is then the concatenation of all payloads |
| `LogFraming.DebugLog.ReadPiece` | quectel/common/src/debug_service.c:357-373 | one piece of at most 1024 bytes goes to the file, padded from the buffer where the ring holds less; whole frames stay whole |
| `LogFraming.DebugLog.ReadHeader` | quectel/common/src/debug_service.c:350-352 | the next four bytes are the next record's length, zeros where the ring holds fewer; whole frames stay whole |
| `LogFraming.DebugLog.DebugPrint` | system/platform/arm-cortex/common/osal/qosa_log.c:72-78 | the ring gains exactly what fits of the frame; it stays a string of whole frames exactly if the record fits or the ring is full; it is logged if it fits and dropped if the ring is full |
| `LogFraming.HeaderRoundTrip` | system/platform/arm-cortex/common/osal/qosa_log.c:73 | the length survives being copied out and in as four bytes |
| `LogFraming.HeaderBytes` | system/platform/arm-cortex/common/osal/qosa_log.c:73 | the header is the length's four bytes, least significant first |
| `LogFraming.ParseAppend` | quectel/common/src/debug_service.c:348-374 | frames put one after another are read one after another |
| `LogFraming.ParseFrame` | quectel/common/src/debug_service.c:350-352 | a frame is read as its payload |
| `LogFraming.ParseTorn` | system/platform/arm-cortex/common/osal/qosa_log.c:78 | a frame cut short is not readable as it stands |
| `LogFraming.TornThen` | quectel/common/src/debug_service.c:348-374 | whether a torn frame with anything put behind it is readable, and as which records: it takes its missing bytes, or the rest of its header, from what follows |
| `LogFraming.TornRightIff` | quectel/common/src/debug_service.c:348-374 | a torn record with a whole header is read as itself exactly if what follows starts with its missing bytes |
| `LogFraming.TornThenEmpty` | quectel/common/src/debug_service.c:348-374 | a four-byte record torn behind its header and an empty record are read as one record of four zeros |
| `Ipv4.RoundTrip` | system/platform/arm-cortex/common/osal/qosa_utils.c:141-324 | each of the 2^32 addresses survives being printed and read |
| `Ipv4.FormsRoundTrip` | system/platform/arm-cortex/common/osal/qosa_utils.c:149-271 | each address survives being written in one to four parts, each part in decimal, octal or hexadecimal of either case, and read |
| `Ipv4.CombineIff` | system/platform/arm-cortex/common/osal/qosa_utils.c:224-271 | numbers are accepted exactly if they are those of an address in as many parts, and combine to it |
| `Ipv4.AcceptedIsShaped` | system/platform/arm-cortex/common/osal/qosa_utils.c:149-219 | whatever is accepted starts with a digit, is made of numbers with single dots between them, each followed by a digit, and then ends or goes on with white space |
| `Ipv4.AtonOfDotted` | system/platform/arm-cortex/common/osal/qosa_utils.c:149-271 | any dotted text of decimal, octal and hexadecimal numbers is read as their values modulo 2^32, combined, exactly if there are at most four and nothing but white space follows |
| `Ipv4.Aton` | system/platform/arm-cortex/common/osal/qosa_utils.c:141-277 | the pointer loops compute the number the text's grammar gives, and fail exactly if it gives none |
| `Ipv4.ScanNumber` | system/platform/arm-cortex/common/osal/qosa_utils.c:161-192 | one number in base 10, 8 or 16 and where it ends |
| `Ipv4.ReadNumeral` | system/platform/arm-cortex/common/osal/qosa_utils.c:161-192 | a number in any of the three notations is read as itself modulo 2^32 |
| `Ipv4.ReadDotted` | system/platform/arm-cortex/common/osal/qosa_utils.c:150-212 | up to four numbers are collected in order, a fifth is refused |
| `Ipv4.NetworkOrderRoundTrip` | system/platform/arm-cortex/common/osal/qosa_utils.c:274 | the octets stored spell the number |
| `Ipv4.TextIsInjective` | system/platform/arm-cortex/common/osal/qosa_utils.c:288-324 | different addresses have different texts |
| `Ipv4.Ntoa` | system/platform/arm-cortex/common/osal/qosa_utils.c:288-324 | the buffer holds the dotted text and its terminator; NULL exactly if they do not fit; never writes past buflen |
| `Ipv4.Digits` | system/platform/arm-cortex/common/osal/qosa_utils.c:304-309 | at most three digits enter the scratch array, and reversed they are the octet |
| `Ipv4.PutReversed` | system/platform/arm-cortex/common/osal/qosa_utils.c:310-315 | the digits are copied in the right order as far as the buffer goes |
| `Ipv4.WithDotsIsText` | system/platform/arm-cortex/common/osal/qosa_utils.c:303-322 | dropping the last dot leaves the dotted text |
| `Ipv4.SixteenIsEnough` | system/platform/arm-cortex/common/osal/qosa_utils.c:288-324 | 16 characters are enough for every address |
| `PsmTimer.TauIsBest` | quectel/modules/src/ql_psm.c:23-58 | the unit is the finest that reaches the time, the result the nearest multiple of it, a tie going up; saturated above 31 units of 10 hours |
| `PsmTimer.ActiveIsBest` | quectel/modules/src/ql_psm.c:65-93 | the same for the active time, saturated above 31 units of 6 minutes |
| `PsmTimer.TauTable` | quectel/modules/src/ql_psm.c:114-137 | what each of the 256 TAU octets stands for, code by code |
| `PsmTimer.ActiveTable` | quectel/modules/src/ql_psm.c:144-168 | the same for the active time |
| `PsmTimer.TauOctet` | quectel/modules/src/ql_psm.c:28-57 | which code each range of times is sent with, and that code and value stand for the quantised time |
| `PsmTimer.DeactivatedIff` | quectel/modules/src/ql_psm.c:67-92 | the octet 0xE0, and the code 7, are sent exactly for no active time |
| `PsmTimer.TauIdempotent` | quectel/modules/src/ql_psm.c:23-137 | encoding, printing, parsing and decoding twice is the same as once |
| `PsmTimer.ActiveIdempotent` | quectel/modules/src/ql_psm.c:65-168 | the same for the active time |
| `PsmTimer.ZeroIff` | quectel/modules/src/ql_psm.c:23-168 | both map to 0 exactly the request 0 |
| `PsmTimer.TauWithinAFifth` | quectel/modules/src/ql_psm.c:23-58 | from 63 s to the maximum the result is within a fifth of the request |
| `PsmTimer.TauStepsDownIff` | quectel/modules/src/ql_psm.c:28-51 | one second more gives a shorter timer exactly at 62, 1860, 18600 and 111600 s |
| `PsmTimer.ActiveStepsDownIff` | quectel/modules/src/ql_psm.c:75-86 | the same exactly at 62 and 1860 s |
| `PsmTimer.TauNearestIff` | quectel/modules/src/ql_psm.c:28-51 | the result is the nearest time any octet expresses except in five windows, given exactly |
| `PsmTimer.ActiveNearestIff` | quectel/modules/src/ql_psm.c:75-86 | the same except in two |
| `PsmTimer.OctetRoundTrip` | quectel/modules/src/ql_psm.c:100-146 | every octet survives being printed as binary digits and parsed |
| `PsmTimer.ByteToBinaryStr` | quectel/modules/src/ql_psm.c:100-107 | the loop writes the eight digits, most significant first, a terminator, and nothing else |
| `PsmTimer.BitsAt` | quectel/modules/src/ql_psm.c:102-105 | digit `i` from the right is bit `i` |
| `PsmTimer.ParseBits` | quectel/modules/src/ql_psm.c:116 | parsing binary digits of any width gives the number back |
| `Tokenizer.TokensOfLine` | quectel/common/src/debug_service.c:49-117 | arguments typed between single or double quotes (without their own mark inside) or bare, with any of the six characters of white space between, are parsed back in order, as many as there is room for |
| `Tokenizer.UnclosedQuote` | quectel/common/src/debug_service.c:82-95 | a quotation that is never closed is one token up to the end of the line |
| `Tokenizer.ParseTyped` | quectel/common/src/debug_service.c:49-117 | up to 24 such arguments rendered into the buffer and parsed in place: argc is their number, argv[k] points at the k-th one's text, argv[argc] is NULL |
| `Tokenizer.CmdParse` | quectel/common/src/debug_service.c:49-117 | for any line: it ends, argc is at most 24, argv holds pointers to exactly the line's first 24 tokens as C strings at the same time, argv[argc] is NULL, nothing behind the line is touched |
| `CStrings.SpaceIff` | quectel/common/src/debug_service.c:62 | white space is blank, tab, newline, vertical tab, form feed and carriage return, and nothing else |
| `Tokenizer.FirstTokenOfLine` | quectel/common/src/debug_service.c:68-114 | the first argument typed is the first token, and the rest of the line gives the others |
| `Tokenizer.TakeArg` | quectel/common/src/debug_service.c:70-113 | one round adds one token and keeps the strings found before |
| `Tokenizer.TakeToken` | quectel/common/src/debug_service.c:77-109 | one token is cut off by one terminator and the rest of the line is as it was |
| `Tokenizer.TakeQuoted` | quectel/common/src/debug_service.c:77-96 | a quoted token ends at the same mark; a missing mark ends the parse with the token kept |
| `Tokenizer.TakeWord` | quectel/common/src/debug_service.c:97-109 | a bare token ends at white space |
| `Tokenizer.SkipFrom` | quectel/common/src/debug_service.c:110-113 | skips exactly the white space |
| `Tokenizer.OneMore` | quectel/common/src/debug_service.c:86-109 | a terminator written behind a token does not damage the strings in front of it |

## Left out

- HAL, SPI byte transfers, chip select, status polling, GPIO, clocks, NVIC, the jump to the application: replaced by device models and calls that may fail.
- The three or four address bytes sent to the flash chip and SPI_Flash_Init: addresses are integers inside the device.
- FatFs, FreeRTOS, CMSIS and malloc: taken by contract (a read is short only at the end of the file or on failure; kernel semaphores and mutexes are atomic; allocation succeeds).
- NULL checks and assertions on handles: the models' references are never null.
- AT-command modules, the socket receive queue, broadcast, MQTT tables, CLI help, generators and the Windows copies of the OSAL: outside the stateful core described above.
- `qosa_prev`, `qosa_last_check`, `qosa_destroy`, `qosa_msgq_delete`, `hexstr2byte` and `byte2hexstr`: short functions without state of their own.
- printf formatting and truncation in `debug_print`: the model starts from the record's payload. File errors of the log thread are not modelled.
- The ring has no lock of its own. Its calls are serialised in the model; a callback that interrupts a put or get half way is not modelled.
- Concurrent OSAL objects are state machines over values, not classes: a thread's place in its code is part of the state, so that every interleaving is covered.
- QueueList.Queue.Insert: requires a member or the sentinel, because with any other link the source's loop never ends (`WalkStopsIff`), and a Dafny method has to.
- QueueList.Queue.Predecessor: requires the same, for the same reason.
- QueueList.Queue.Put: does not model the 32-bit overflow of the count, because 2^31 queued items do not fit the memory.
- OsalSem.ShadowCount: assumes the limit `CountedIff` gives, above which it fails.
- MsgQueue.Safety: assumes that maximum and producers together do not exceed 2^32, because the count is 32 bits wide.
- MsgQueue.Safety: a wait that times out changes nothing and is no step of its own there; timeouts are modelled in `OsalSem` and `EventGroup`.
- EventGroup.NoLostWakeupIff: the wakeup under way is a token or a sender between setting the flags and its release; that the scheduler then runs the waiter is the kernel's part.
- SpiFlash.SpiFlashDriver.Write: requires a buffer other than FLASH_BUFFER and a range inside the device, as the source's comments do, and at least one byte of room at the address.
- UartReceive.AtUart.Run: stops at the first event that is not `Allowed`; `Serve`, `RtDeviceCb`, `UartRead` and `IdleThenWaiting` give the exact conditions, step by step, of what happens then.
- LogFraming.Run: stops at the first record that does not fit; `DebugPrint`, `TornThen` and `Drain` say what happens then.
- QueueList.Queue.LinearSearch: is one atomic step, where the source takes and gives back the mutex for each item, so that others may change the queue while it is searched.
- Bootloader.UpdateFirmware: does not say whether a non-empty image shorter than eight bytes is accepted, because the test reads bytes of the buffer that were never set.
- Bootloader.WriteAppBin: requires the range to end within the 32-bit address space; what HAL_FLASH_Program does behind the end of the flash is taken to be a success or a failure without effect on the flash.
- PsmTimer.TauIsBest: seconds are unbounded, where the source's are 32 bits wide; the largest intermediate sum stays far below 2^32.
