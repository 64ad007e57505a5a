# ESP8266 core and libraries: verified models

A Dafny model of the parts of the ESP8266 Arduino core and its bundled libraries that hold real algorithms, with proofs
of what they guarantee. One module for each component; each method models one of the source's loops or field updates,
branch by branch, and is proved against a specification about which the lemmas speak. `dafny verify dfyconfig.toml` checks
everything.

| File | Component |
|---|---|
| `Option.dfy`, `Numbers.dfy` | a value that may be missing; bytes and small facts |
| `Crc.dfy`, `BootCommand.dfy` | the checksum and the boot command record in RTC memory, with its two readers |
| `Flash.dfy` | NOR flash: erasing sets a sector to 0xff, programming clears bits, every operation may fail |
| `Bootloader.dfy` | the bootloader's sector copy and its dispatch |
| `Updater.dfy`, `UpdateSafety.dfy`, `FirmwareUpdate.dfy`, `UpdateSuccess.dfy` | the update session, its invariants, the whole pipeline through the reboot, and when it succeeds |
| `PwmPlanner.dfy`, `PwmTimer.dfy` | the software PWM planner, and the timer interrupt interleaved with the planner's stores |
| `SpiClock.dfy` | the SPI clock divider search and its cache |
| `NeoMatrix.dfy` | LED matrix addressing |
| `I2sQueue.dfy` | the I2S DMA buffer queue, interrupt against writer |
| `Scheduler.dfy` | scheduled functions on linked lists |
| `CircularBuffer.dfy` | `cbuf` |
| `IfBlocks.dfy` | IF/ELSE/ENDIF matching of the Basic interpreter |
| `StringReplace.dfy` | `String::replace` in place |
| `Gfx.dfy` | midpoint circle and Bresenham line |
| `Mqtt.dfy` | publish packets, framing, delivery |
| `Base64.dfy` | Base64 |
| `Millis.dfy` | `millis` across wraps of the microsecond counter |

How the outside world appears:

- Flash operations beyond the end of the chip fail; all others, and the memory for a growing String, take their success
  from the caller (an oracle), so every theorem holds for every pattern of failures. MD5 is an arbitrary function of the
  bytes.
- The sketch size, the start of the file system, the flash configuration check, the real flash size and the microsecond
  counter are parameters.
- Concurrency is a state machine: any interrupt may come between any two stores of the PWM planner, and between any two
  steps of the I2S writer. A TCP link is the bytes available now and what each later wait brings.
- C strings without NUL inside are sequences; `find` and `replace` of a replacement do not alias the String.
- Integer widths are written out wherever they matter: 32-bit sizes and addresses of the updater, 8-bit distances of IF
  blocks, 8-bit lengths of MQTT, 16-bit raster arithmetic, 32-bit time.

Where the code differs from what it seems or is said to do, the model follows the code:

- `x & 0xfff != 0` and the bootloader's magic test bind as `x & (0xfff != 0)`: only odd addresses are refused, and only
  bit 0 of the magic is tested. To an aligned destination, a sector or more below the source or behind its end, an
  unaligned source is copied correctly all the same (`Bootloader.CopyLoopCorrect`); an unaligned destination loses what the
  next erase strikes (`Bootloader.UnalignedCopyErases`; `Bootloader.CopyLands` covers any two addresses). A cleared record
  can still be accepted (`BootCommand.ClearedRecord`).
- `begin` accepts every size larger than the space, because its 32-bit arithmetic wraps (`FirmwareUpdate.BeginExact`).
- `write(buf, len)` leaves the buffered bytes out of its space check (`UpdateSafety.WriteKeeps` has the exact condition,
  `FirmwareUpdate.TwelveOfTen` a session).
- After the last byte, an empty `write(buf, 0)` and a template `write` whose source still has data both erase a sector: the
  end of the image, or, if the image is whole sectors, the first sector of the file system (`FirmwareUpdate.LateWrite`).
- `end(true)` ignores its last flush (`FirmwareUpdate.EndIgnoresFailedFlush`, `FirmwareUpdate.SuccessWithError`).
- An active PWM pin with value 0 stays high (`PwmPlanner.ExactDuty`).
- `setFrequency(0)` can meet the untouched cache (`SpiClock.SpiClass.SetFrequency`).
- A single LED matrix has its sizes cut to a byte, and any display has them cut to 16 bits with a sign; whether drawing
  survives that depends on the flags (`NeoMatrix.OneToOneExact`).
- `cbuf::resize` to exactly the queued characters breaks the buffer (`CircularBuffer.Cbuf.Resize`).
- `setIf` tests for a full stack one entry too late, and `setEndif` leaves the stack alone once 300 blocks are listed, so
  not only deep nesting overruns the stack (`IfBlocks.OverrunExactly`, `IfBlocks.PairsOverrun`).
- The growing branch of `replace` searches text it has already replaced; it is right for every text exactly for patterns
  whose matches and replacements cannot overlap (`StringReplace.GrowExact`), and stays within the room it counted, and
  within its buffer, for every text exactly if no replacement can complete a match (`StringReplace.FitsExact`,
  `StringReplace.CapacityExact`).
- The last turn of the circle loop may step across the diagonal (`Gfx.OverDiagonal`); that point mirrors one already
  drawn, so the circle is right all the same (`Gfx.AdafruitGfx.DrawCircle`).
- A subscription keeps up to 20 bytes, although the comment in the header says 19 (`Mqtt.PublishedIsDelivered`).
- `millis` read by an interrupt inside the overflow tick may count a wrap twice (`Millis.ReadInsideTick`).

## Model

| member | source | states |
|---|---|---|
| `Crc.CrcUpdate` | libs/Arduino-master/cores/esp8266/core_esp8266_eboot_command.c:26-46 | the byte and bit loops compute the checksum register as a fold over the message bits, most significant bit first |
| `Crc.UpdateByte` | libs/Arduino-master/cores/esp8266/core_esp8266_eboot_command.c:29-44 | eight turns of the mask loop feed exactly the eight bits of the byte |
| `Crc.CrcComposes` | libs/Arduino-master/cores/esp8266/core_esp8266_eboot_command.c:26-46 | updating with one message and then another equals updating with their concatenation, from any register |
| `Crc.StepLinear` | libs/Arduino-master/cores/esp8266/core_esp8266_eboot_command.c:31-42 | one step is linear over GF(2) in register and message bit together |
| `Crc.FeedInjective` | libs/Arduino-master/cores/esp8266/core_esp8266_eboot_command.c:26-46 | different registers stay different under the same message |
| `Crc.ShortMessagesDiffer` | libs/Arduino-master/cores/esp8266/core_esp8266_eboot_command.c:26-46 | two different messages of equal length, at most 32 bits, never collide |
| `Crc.BurstDetected` | libs/Arduino-master/cores/esp8266/core_esp8266_eboot_command.c:26-46 | messages of equal length that differ, but only inside some window of 32 consecutive bits, have different checksums |
| `Crc.CheckValue` | libs/Arduino-master/cores/esp8266/core_esp8266_eboot_command.c:26-46 | the checksum is CRC-32/MPEG-2: over the digits 1 to 9, from a register of ones, it is 0x0376e6e7 |
| `BootCommand.CommandWrite` | libs/Arduino-master/cores/esp8266/core_esp8266_eboot_command.c:71-81 | RTC memory holds the sealed record of the caller's action and arguments, and nothing behind it changes |
| `BootCommand.CoreCommandRead` | libs/Arduino-master/cores/esp8266/core_esp8266_eboot_command.c:54-69 | returns the stored record, and status 0 exactly if the application's reader accepts it |
| `BootCommand.BootCommandRead` | libs/Arduino-master/bootloaders/eboot/eboot_command.c:31-46 | the bootloader's reader of the same memory, with the magic test as the precedence of its operators makes it |
| `BootCommand.CommandClear` | libs/Arduino-master/cores/esp8266/core_esp8266_eboot_command.c:83-87 | only the magic and the checksum word are cleared |
| `BootCommand.SealRoundTrip` | libs/Arduino-master/cores/esp8266/core_esp8266_eboot_command.c:54-81 | a record just written is accepted by both readers with action and arguments unchanged |
| `BootCommand.CorruptionRejected` | libs/Arduino-master/cores/esp8266/core_esp8266_eboot_command.c:54-69 | of any record a reader accepts, damage within 32 consecutive bits of the first 124 bytes is rejected by both readers |
| `BootCommand.ChecksumCorruptionRejected` | libs/Arduino-master/cores/esp8266/core_esp8266_eboot_command.c:54-69 | any damage to the checksum word alone is rejected by both readers |
| `BootCommand.ChecksumCancels` | libs/Arduino-master/cores/esp8266/core_esp8266_eboot_command.c:26-46 | four more bytes bring the register to zero exactly when they spell the register |
| `BootCommand.ClearedRecord` | libs/Arduino-master/bootloaders/eboot/eboot_command.c:40-41 | after clearing, the application's reader always rejects; the bootloader's reader accepts if and only if the last argument spells the checksum of the words in front of it |
| `BootCommand.ClearMayNotDisarm` | libs/Arduino-master/bootloaders/eboot/eboot_command.c:60-64 | for every action and every other arguments such a last argument exists |
| `BootCommand.WordRoundTrip` | libs/Arduino-master/cores/esp8266/core_esp8266_eboot_command.c:48-81 | a 32-bit argument survives being stored as four bytes |
| `BootCommand.LittleEndian` | libs/Arduino-master/cores/esp8266/core_esp8266_eboot_command.c:48-52 | words lie in memory with the least significant byte first |
| `BootCommand.MagicTests` | libs/Arduino-master/bootloaders/eboot/eboot_command.c:38-41 | the application tests the upper twenty bits of the magic word, the bootloader whether it is even |
| `BootCommand.AcceptedChecksum` | libs/Arduino-master/cores/esp8266/core_esp8266_eboot_command.c:48-69 | both readers want the checksum of the 31 words in front of it, from a register of ones, as a little-endian word |
| `Flash.EraseThenProgram` | libs/Arduino-master/cores/esp8266/Esp.cpp:501-520 | erasing and programming a sector leaves exactly the data followed by blank cells, and nothing outside the sector changes |
| `Flash.EraseSector` | libs/Arduino-master/cores/esp8266/Esp.cpp:501-504 | a successful erase blanks one sector; a failed one may leave anything, but only there |
| `Flash.Program` | libs/Arduino-master/cores/esp8266/Esp.cpp:506-512 | programming can only clear bits |
| `Bootloader.CopyRaw` | libs/Arduino-master/bootloaders/eboot/eboot.c:92-124 | the sector loop with its four error codes, against the recursive copy specification |
| `Bootloader.CopySucceeds` | libs/Arduino-master/bootloaders/eboot/eboot.c:108-121 | for any two addresses the loop succeeds if and only if both regions are on the chip and no flash operation fails; otherwise its code says whether the last operation was an erase, a read or a write |
| `Bootloader.CopyRawExact` | libs/Arduino-master/bootloaders/eboot/eboot.c:92-124 | odd addresses are refused with code 1 and nothing touched; otherwise the same of the whole copy |
| `Bootloader.CopyLoopCorrect` | libs/Arduino-master/bootloaders/eboot/eboot.c:108-121 | from any source address to an aligned destination, at least a sector below the source or behind its end, overlapping or not: success leaves the original source at the destination; nothing outside the destination changes, also on failure |
| `Bootloader.CopyOntoItselfErases` | libs/Arduino-master/bootloaders/eboot/eboot.c:108-121 | with equal addresses a successful copy leaves blank flash instead |
| `Bootloader.CopyUpwardsRepeats` | libs/Arduino-master/bootloaders/eboot/eboot.c:108-121 | an aligned destination inside the source, a sector or more above its start, receives the first bytes of the source over and over |
| `Bootloader.CopyExact` | libs/Arduino-master/bootloaders/eboot/eboot.c:108-121 | for all aligned addresses, and any source a sector or more from an aligned destination: a successful copy is a true copy if and only if the destination neither is the source nor starts inside it, or else the source is blank or repeats itself at that distance |
| `Bootloader.CopyLands` | libs/Arduino-master/bootloaders/eboot/eboot.c:108-121 | for any two addresses, aligned or not, overlapping or not: what a successful copy leaves in every byte, from the old contents: erased before it was read, read after it was written, blanked by a later erase, or combined with flash that was never erased |
| `Bootloader.CopyTrueExactly` | libs/Arduino-master/bootloaders/eboot/eboot.c:108-121 | so for any two addresses it is a true copy if and only if all these bytes are those of the source |
| `Bootloader.ApartExact` | libs/Arduino-master/bootloaders/eboot/eboot.c:108-121 | for any destination, one sector or more, with the source apart from all that is touched: if and only if the source is blank wherever a later erase strikes, and sets no bit that is clear in the flash behind the last erased sector |
| `Bootloader.UnalignedCopyErases` | libs/Arduino-master/bootloaders/eboot/eboot.c:97-121 | to a destination that is not sector aligned, the end of every sector but the last is lost to the next erase; a true copy needs a source that is blank there |
| `Bootloader.RoundUp32` | libs/Arduino-master/bootloaders/eboot/eboot.c:104 | the size is rounded up to whole sectors, in 32 bits |
| `Bootloader.Start` | libs/Arduino-master/bootloaders/eboot/eboot.c:128-170 | without an accepted record the application at 0 is started and nothing changes; a load command starts its first argument; a copy command its second exactly if the copy succeeded; any other action nothing; an accepted record is left cleared |
| `Bootloader.BootLoads` | libs/Arduino-master/bootloaders/eboot/eboot.c:128-170 | the same of the specification, with the exact condition under which a copy command starts its destination |
| `Updater.UpdaterClass.constructor` | libs/Arduino-master/cores/esp8266/Updater.cpp:15-26 | a new updater has no session and no error |
| `Updater.UpdaterClass.ResetFields` | libs/Arduino-master/cores/esp8266/Updater.cpp:28-37 | drops buffer and session, keeps the error |
| `Updater.UpdaterClass.Begin` | libs/Arduino-master/cores/esp8266/Updater.cpp:39-126 | sizes, configuration, space check and staging address in 32-bit arithmetic, with every refusal |
| `Updater.UpdaterClass.SetMd5` | libs/Arduino-master/cores/esp8266/Updater.cpp:128-135 | a target digest is taken exactly if it has 32 characters |
| `Updater.UpdaterClass.WriteBuffer` | libs/Arduino-master/cores/esp8266/Updater.cpp:204-226 | one flush: erase, program, hash, advance; or a write error that ends the session |
| `Updater.UpdaterClass.Fill` | libs/Arduino-master/cores/esp8266/Updater.cpp:239-250 | the chunking loop, with what is left over when a flush fails |
| `Updater.UpdaterClass.Write` | libs/Arduino-master/cores/esp8266/Updater.cpp:228-261 | new state and reported count for every chunk in every state |
| `Updater.UpdaterClass.TakeOnce` | libs/Arduino-master/cores/esp8266/Updater.h:115-136 | one turn of the template loop |
| `Updater.UpdaterClass.WriteFrom` | libs/Arduino-master/cores/esp8266/Updater.h:108-142 | the whole template write, for every pattern in which a source can become available |
| `Updater.UpdaterClass.VerifyEndOfUpdate` | libs/Arduino-master/cores/esp8266/Updater.cpp:279-311 | succeeds if and only if the command is for the file system, or is for a sketch whose first bytes can be read and are the magic byte and a size code the chip has; flash is unchanged |
| `Updater.VerifyEndMeans` | libs/Arduino-master/cores/esp8266/Updater.cpp:279-311 | the same of the specification, and which of the three errors is flagged when |
| `Updater.ChipSizes` | libs/Arduino-master/cores/esp8266/Esp.cpp:240-259 | the flash size behind every size code |
| `Updater.UpdaterClass.SendCommand` | libs/Arduino-master/cores/esp8266/Updater.cpp:184-190 | the sealed copy command lands in RTC memory |
| `Updater.UpdaterClass.End` | libs/Arduino-master/cores/esp8266/Updater.cpp:137-202 | completeness, digest and image checks in order; the result and the whole new state |
| `UpdateSafety.FlushKeeps` | libs/Arduino-master/cores/esp8266/Updater.cpp:204-226 | a flush keeps the staged bytes equal to the hashed ones and touches one sector, or flags a write error |
| `UpdateSafety.FillKeeps` | libs/Arduino-master/cores/esp8266/Updater.cpp:239-250 | no byte is lost, repeated or reordered between the chunk, the buffer and flash |
| `UpdateSafety.WriteKeeps` | libs/Arduino-master/cores/esp8266/Updater.cpp:228-261 | from any good state, write takes the whole chunk or flags an error; the declared size is respected if and only if the bytes taken so far and the chunk fit in it; an empty chunk for a finished session must find the image's part of the last sector blank |
| `UpdateSafety.WriteStaysInside` | libs/Arduino-master/cores/esp8266/Updater.cpp:228-261 | chunks that fit change no flash outside the staging area, even when an operation fails; nor does an empty chunk for a finished session, unless the staging area is whole sectors and the sector behind it is not blank |
| `UpdateSafety.SourceKeeps` | libs/Arduino-master/cores/esp8266/Updater.h:108-142 | the template write takes a prefix of what the source offers, reports its length, never passes the declared size and never leaves the staging area; on a finished session with data available only if the sector it erases has nothing to lose |
| `UpdateSafety.EmptyWriteAfterFinish` | libs/Arduino-master/cores/esp8266/Updater.cpp:252-259 | writing nothing to a finished session flushes an empty buffer and reports 0 |
| `UpdateSafety.SourceAfterFinish` | libs/Arduino-master/cores/esp8266/Updater.h:112-139 | so does the template write to a finished session whenever its source has data available, whatever arrives later |
| `UpdateSafety.LateFlush` | libs/Arduino-master/cores/esp8266/Updater.cpp:204-226 | that flush erases the sector at the write address and leaves the session finished, or flags a write error |
| `UpdateSafety.LateFlushImage` | libs/Arduino-master/cores/esp8266/Updater.cpp:204-226 | the image survives it if and only if its part of that sector was blank already, as it is for whole sectors, which have no such part |
| `UpdateSafety.LateFlushOutside` | libs/Arduino-master/cores/esp8266/Updater.cpp:204-226 | everything outside the staging area survives it if and only if the size is no whole number of sectors or that sector was blank already; otherwise the first sector behind the staging area is lost |
| `FirmwareUpdate.BeginSpaceCheck` | libs/Arduino-master/cores/esp8266/Updater.cpp:74-98 | for sizes up to the space below the file system, begin succeeds if and only if the image fits between the sketch and the file system, and then places it flush below the file system |
| `FirmwareUpdate.BeginExact` | libs/Arduino-master/cores/esp8266/Updater.cpp:74-98 | with no session and a good configuration, acceptance means that the image fits if and only if the size is at most the space below the file system; every larger size is accepted |
| `FirmwareUpdate.BeginAcceptsOversized` | libs/Arduino-master/cores/esp8266/Updater.cpp:79-89 | the witness of one byte more: accepted, with a staging address just below 2^32 |
| `FirmwareUpdate.BeginStages` | libs/Arduino-master/cores/esp8266/Updater.cpp:61-125 | a successful begin establishes the session invariant, with the staging area between the rounded sketch and the file system |
| `FirmwareUpdate.FeedAllKeeps` | libs/Arduino-master/cores/esp8266/Updater.cpp:204-261 | over every run of both kinds of write in which late ones find nothing to lose: accepted bytes are exactly the bytes fed, flushed bytes are exactly the hashed bytes and are what flash holds |
| `FirmwareUpdate.LateWrite` | libs/Arduino-master/cores/esp8266/Updater.h:108-142 | either write to a finished session, empty chunk or source with data: takes nothing; without a write error the image survives if and only if its part of the last sector was blank, and everything outside the staging area if and only if the size is no whole number of sectors or the sector behind it was blank |
| `FirmwareUpdate.FeedAllExact` | libs/Arduino-master/cores/esp8266/Updater.cpp:204-261 | every run without an error at its end has taken what it says, and the staging area holds exactly that if and only if every late write found the image's part of the last sector blank |
| `FirmwareUpdate.FeedAllStaysInside` | libs/Arduino-master/cores/esp8266/Updater.cpp:204-261 | over every run within the declared size no flash outside the staging area changes, failures and spoiled images included, if late writes find the size to be no whole number of sectors or the sector behind it blank |
| `FirmwareUpdate.ErrorSticks` | libs/Arduino-master/cores/esp8266/Updater.cpp:228-236 | a session in error ignores every write |
| `FirmwareUpdate.EndStaysInside` | libs/Arduino-master/cores/esp8266/Updater.cpp:137-202 | whatever end reports, it changes no flash outside the staging area |
| `FirmwareUpdate.OnlyFreeFlash` | libs/Arduino-master/cores/esp8266/Updater.cpp:74-261 | over begin, any writes of at most the declared size and end, with failures anywhere: no erase or write reaches the rounded running sketch or, late writes being as above, the file system |
| `FirmwareUpdate.TwelveOfTen` | libs/Arduino-master/cores/esp8266/Updater.cpp:228-261 | ten bytes declared, six written twice: twelve are taken and no error is flagged |
| `FirmwareUpdate.SuccessWithError` | libs/Arduino-master/cores/esp8266/Updater.cpp:154-202 | ten bytes declared, six written, the last flush fails: end(true) returns true with the error flagged and the command issued for ten |
| `FirmwareUpdate.NoCommandAfterError` | libs/Arduino-master/cores/esp8266/Updater.cpp:137-152 | after an error, whatever is written, end fails and no boot command is issued |
| `FirmwareUpdate.EndStages` | libs/Arduino-master/cores/esp8266/Updater.cpp:137-202 | when end succeeds without error, the staging area holds the leading bytes of what was written, for a sketch with a good header, and the command names exactly them |
| `FirmwareUpdate.EndIgnoresFailedFlush` | libs/Arduino-master/cores/esp8266/Updater.cpp:154-182 | end reports success with an error flagged if and only if its last flush failed and the later checks pass all the same; the command then covers the declared size |
| `FirmwareUpdate.CopyCommandRead` | libs/Arduino-master/cores/esp8266/Updater.cpp:184-190 | the command is accepted by the bootloader, names source, destination 0 and size, and is disarmed by clearing as far as the application's reader goes |
| `FirmwareUpdate.BootInstalls` | libs/Arduino-master/bootloaders/eboot/eboot.c:128-170 | booting such a command copies the staged image to address 0 and starts it, with nothing changed behind the rounded size |
| `FirmwareUpdate.EndToEnd` | libs/Arduino-master/cores/esp8266/Updater.cpp:39-311 | begin, any writes in any chunking, end, reboot, all successful: flash from address 0 equals the bytes written, up to the image size, if and only if every late write found the image's part of the last sector blank; they then start with the header of a sketch |
| `UpdateSuccess.WriteExact` | libs/Arduino-master/cores/esp8266/Updater.cpp:204-261 | a chunk that fits is taken whole and without an error if and only if no flash operation fails meanwhile |
| `UpdateSuccess.TooLong` | libs/Arduino-master/cores/esp8266/Updater.cpp:232-237 | a chunk longer than what remains is refused with the space error, and nothing else changes |
| `UpdateSuccess.NotRunning` | libs/Arduino-master/cores/esp8266/Updater.cpp:228-230 | without a session, or after an error, write takes nothing and changes nothing |
| `UpdateSuccess.FailureReports` | libs/Arduino-master/cores/esp8266/Updater.cpp:239-260 | a write that fails reports exactly the bytes of the chunk that have reached flash |
| `UpdateSuccess.SourceExact` | libs/Arduino-master/cores/esp8266/Updater.h:108-142 | the template write ends without an error if and only if no flash operation fails meanwhile, and then has taken what was available at its start, or all that was missing |
| `UpdateSuccess.PassFailure` | libs/Arduino-master/cores/esp8266/Updater.h:119-136 | of a pass of the template write whose flush fails, the bytes are counted only if they were to complete the image |
| `UpdateSuccess.FeedAllSucceeds` | libs/Arduino-master/cores/esp8266/Updater.cpp:204-261 | over every run of both kinds of write within the declared size: no error if and only if no flash operation failed |
| `UpdateSuccess.BeginErrors` | libs/Arduino-master/cores/esp8266/Updater.cpp:39-126 | which refusal flags which error; begin never touches flash or RTC memory |
| `UpdateSuccess.EndExact` | libs/Arduino-master/cores/esp8266/Updater.cpp:137-202 | for every session: RTC memory changes only if end succeeds for a sketch, and success needs a complete session, or permission, without an error |
| `UpdateSuccess.EndErrors` | libs/Arduino-master/cores/esp8266/Updater.cpp:137-202 | how end fails: what it flags, in which order it checks, and that the session is over |
| `UpdateSuccess.EndSucceeds` | libs/Arduino-master/cores/esp8266/Updater.cpp:137-202 | a session in which all fits, with the right digest or none and for a sketch a good header, ends in success if no flash operation fails, with flash and the command for exactly the bytes taken |
| `UpdateSuccess.BootSucceeds` | libs/Arduino-master/bootloaders/eboot/eboot.c:92-161 | booting a staged image succeeds if no flash operation fails |
| `UpdateSuccess.UpdateInstalls` | libs/Arduino-master/cores/esp8266/Updater.cpp:39-311 | a sketch that fits, with the right header and digest, on a chip on which nothing fails: begin accepts, any writes that bring exactly the image end without an error, end reports success, and the next boot installs the image and starts it |
| `UpdateSuccess.BeginFileSystem` | libs/Arduino-master/cores/esp8266/Updater.cpp:100-125 | for the file system begin checks no space and starts at the file system |
| `UpdateSuccess.FileSystemUpdate` | libs/Arduino-master/cores/esp8266/Updater.cpp:39-202 | begin for the file system, any writes, end, all successful: RTC memory is unchanged, so no copy follows, and the file system starts with the bytes written if and only if every late write found the image's part of the last sector blank |
| `UpdateSuccess.FileSystemOnly` | libs/Arduino-master/cores/esp8266/Updater.cpp:39-261 | such an update changes flash only in the part of the file system that the image takes, whether it fails or not |
| `UpdateSuccess.FileSystemSucceeds` | libs/Arduino-master/cores/esp8266/Updater.cpp:39-202 | with the right digest, on a chip on which nothing fails, it succeeds |
| `PwmPlanner.InsertionSort` | libs/Arduino-master/cores/esp8266/core_esp8266_wiring_pwm.c:52-61 | the entries in order, a permutation of what they were |
| `PwmPlanner.KeepDistinct` | libs/Arduino-master/cores/esp8266/core_esp8266_wiring_pwm.c:62-68 | one copy of each value at the front, in order |
| `PwmPlanner.SortArray` | libs/Arduino-master/cores/esp8266/core_esp8266_wiring_pwm.c:52-69 | strictly increasing, with exactly the values of the input |
| `PwmPlanner.GetMask` | libs/Arduino-master/cores/esp8266/core_esp8266_wiring_pwm.c:71-81 | the active pins with a given value |
| `PwmPlanner.PrepareSteps` | libs/Arduino-master/cores/esp8266/core_esp8266_wiring_pwm.c:83-112 | the table is the plan for the pins, values and range |
| `PwmPlanner.PlanUnique` | libs/Arduino-master/cores/esp8266/core_esp8266_wiring_pwm.c:83-112 | that condition leaves no choice: there is one plan |
| `PwmPlanner.ExactDuty` | libs/Arduino-master/cores/esp8266/core_esp8266_wiring_pwm.c:83-157 | one cycle lasts the largest of range and active values, and an active pin is high for exactly its value if and only if the value is not 0 or the range is 0 |
| `PwmTimer.Refines` | libs/Arduino-master/cores/esp8266/core_esp8266_wiring_pwm.c:113-157 | for every single store and every interrupt between stores: the driver behaves like a machine that holds whole plans and changes them only at the end of a cycle |
| `PwmTimer.EveryCycleRunsOnePlan` | libs/Arduino-master/cores/esp8266/core_esp8266_wiring_pwm.c:113-157 | in every run each finished cycle ran one completely published plan |
| `PwmTimer.StartsOnTrack` | libs/Arduino-master/cores/esp8266/core_esp8266_wiring_pwm.c:31-50 | the state at power-on satisfies the invariant of the runs |
| `PwmTimer.DutyInEveryRun` | libs/Arduino-master/cores/esp8266/core_esp8266_wiring_pwm.c:83-157 | in every run, in every cycle with a steady set of pins, each pin is high for exactly the duty the plan was made for |
| `PwmTimer.DutyFromValues` | libs/Arduino-master/cores/esp8266/core_esp8266_wiring_pwm.c:83-157 | from power-on, in every run in which plans are computed from the pins and values of their moment: every finished cycle with a steady set of pins gave each pin the duty its values asked for when the plan of the cycle was started, or ran no plan yet |
| `PwmTimer.TakesUp` | libs/Arduino-master/cores/esp8266/core_esp8266_wiring_pwm.c:137-156 | a waiting plan is taken up at the first end of a cycle with active pins, which are switched on |
| `PwmTimer.SoonRunning` | libs/Arduino-master/cores/esp8266/core_esp8266_wiring_pwm.c:122-157 | a published plan runs after at most seventeen interrupts if no new one is started meanwhile |
| `PwmTimer.PwmDriver.EffectiveRange` | libs/Arduino-master/cores/esp8266/core_esp8266_wiring_pwm.c:92-96 | the range, or half of it at the lower clock |
| `PwmTimer.IsrTable.Load` | libs/Arduino-master/cores/esp8266/core_esp8266_wiring_pwm.c:113-117 | the unused table receives the plan |
| `PwmTimer.PwmDriver.Interrupt` | libs/Arduino-master/cores/esp8266/core_esp8266_wiring_pwm.c:122-157 | the handler performs exactly one interrupt step of the machine |
| `PwmTimer.PwmDriver.Publish` | libs/Arduino-master/cores/esp8266/core_esp8266_wiring_pwm.c:113-119 | the plan becomes available and the cycle that runs is not disturbed |
| `PwmTimer.PwmDriver.PrepPwmSteps` | libs/Arduino-master/cores/esp8266/core_esp8266_wiring_pwm.c:83-120 | publishes the plan for the current values without disturbing the cycle that runs; does nothing if no pin is active |
| `SpiClock.TriedPrescalersSuffice` | libs/Arduino-master/libraries/SPI/SPI.cpp:157-184 | for each divider the few prescalers tried include one as good as any of the 8192, exact match or best below |
| `SpiClock.SearchOptimal` | libs/Arduino-master/libraries/SPI/SPI.cpp:128-209 | from 152 Hz up to below 80 MHz the search ends with the largest frequency not above the request, over all dividers and prescalers |
| `SpiClock.RegisterOptimal` | libs/Arduino-master/libraries/SPI/SPI.cpp:25-209 | the same of the 32-bit register: low phase half of the divider, and no register with a divider of 1 or more runs faster without passing the request |
| `SpiClock.FindBest` | libs/Arduino-master/libraries/SPI/SPI.cpp:152-201 | the outer loop with its early exit computes the search |
| `SpiClock.TryDivider` | libs/Arduino-master/libraries/SPI/SPI.cpp:157-195 | the inner loop with its early exit |
| `SpiClock.SpiClass.SetClockDivider` | libs/Arduino-master/libraries/SPI/SPI.cpp:211-218 | writes the register and leaves the cache alone |
| `SpiClock.SpiClass.SetFrequency` | libs/Arduino-master/libraries/SPI/SPI.cpp:128-209 | cached or not and after direct divider writes, the register read back by its bit ranges runs at the largest frequency not above the request; 80 MHz and more routes the system clock, less than 152 Hz gets the slowest setting; except if and only if 0 is requested with an untouched cache and a register that reads 0 |
| `NeoMatrix.NumberLocate` | libs/Basic-master/libraries/Adafruit_NeoMatrix/Adafruit_NeoMatrix.cpp:138-170 | for every corner, axis and sequence flag, the number of a point is in range and determines the point |
| `NeoMatrix.LocateNumber` | libs/Basic-master/libraries/Adafruit_NeoMatrix/Adafruit_NeoMatrix.cpp:138-170 | every number belongs to a point |
| `NeoMatrix.ZigzagNeighbours` | libs/Basic-master/libraries/Adafruit_NeoMatrix/Adafruit_NeoMatrix.cpp:138-170 | in an untiled zigzag matrix consecutive LEDs are grid neighbours |
| `NeoMatrix.StripStarts` | libs/Basic-master/libraries/Adafruit_NeoMatrix/Adafruit_NeoMatrix.h:39-49 | for every combination of the matrix flags: which corner LED 0 is in, where LED 1 is, and where the second line starts |
| `NeoMatrix.TilesStart` | libs/Basic-master/libraries/Adafruit_NeoMatrix/Adafruit_NeoMatrix.h:53-63 | the same of the tiles and the tile flags |
| `NeoMatrix.TileBlock` | libs/Basic-master/libraries/Adafruit_NeoMatrix/Adafruit_NeoMatrix.cpp:98-172 | a tile takes consecutive LEDs that start in the corner of the matrix flags, or in the opposite one on every other line of a zigzag of tiles |
| `NeoMatrix.Turned` | libs/Basic-master/libraries/Adafruit_NeoMatrix/Adafruit_NeoMatrix.cpp:77-92 | where each rotation puts the visible origin and the visible axes |
| `NeoMatrix.IndexPointAt` | libs/Basic-master/libraries/Adafruit_NeoMatrix/Adafruit_NeoMatrix.cpp:98-172 | tiles included: the LED of a point is in range and determines the point |
| `NeoMatrix.PointAtIndex` | libs/Basic-master/libraries/Adafruit_NeoMatrix/Adafruit_NeoMatrix.cpp:98-172 | tiles included: every LED shows a point |
| `NeoMatrix.LedBijection` | libs/Basic-master/libraries/Adafruit_NeoMatrix/Adafruit_NeoMatrix.cpp:73-172 | the wiring described by sizes and flags: for all of them, and every rotation, the visible grid maps one to one onto the LEDs |
| `NeoMatrix.OneToOneExact` | libs/Basic-master/libraries/Adafruit_NeoMatrix/Adafruit_NeoMatrix.cpp:46-172 | with sizes stored in bytes and 16-bit numbers as in the source, each visible point sets an LED of its own if and only if the display is at most 32767 wide and high, and of a single matrix longer than 255 no line starts at the far end of the long side or has another line behind it with that side's length; then drawing follows the wiring |
| `NeoMatrix.NothingDrawn` | libs/Basic-master/libraries/Adafruit_NeoMatrix/Adafruit_NeoMatrix.cpp:73-75 | with a side above 32767 no point is drawn at all |
| `NeoMatrix.WideMatrixCollides` | libs/Basic-master/libraries/Adafruit_NeoMatrix/Adafruit_NeoMatrix.cpp:46-56 | the witness: in a plain row by row matrix wider than 255 two visible points set the same LED |
| `NeoMatrix.Matrix.Single` | libs/Basic-master/libraries/Adafruit_NeoMatrix/Adafruit_NeoMatrix.cpp:46-49 | any size is taken, and stored in a byte and in 16 bits |
| `NeoMatrix.Matrix.Tiles` | libs/Basic-master/libraries/Adafruit_NeoMatrix/Adafruit_NeoMatrix.cpp:52-56 | the display size is stored in 16 bits |
| `NeoMatrix.Matrix.DrawPixel` | libs/Basic-master/libraries/Adafruit_NeoMatrix/Adafruit_NeoMatrix.cpp:73-173 | a point outside the stored display size changes nothing; any other sets the LED computed from the stored sizes, if there is one, and no other |
| `NeoMatrix.Matrix.TiledLed` | libs/Basic-master/libraries/Adafruit_NeoMatrix/Adafruit_NeoMatrix.cpp:99-172 | the LED of a point of a tiled display |
| `NeoMatrix.Matrix.TileNumber` | libs/Basic-master/libraries/Adafruit_NeoMatrix/Adafruit_NeoMatrix.cpp:98-136 | the tile, the place in it and whether it is mounted upside down |
| `NeoMatrix.Matrix.PixelOffset` | libs/Basic-master/libraries/Adafruit_NeoMatrix/Adafruit_NeoMatrix.cpp:138-170 | the number of the point inside its matrix, by the effective corner |
| `NeoMatrix.Matrix.FillScreen` | libs/Basic-master/libraries/Adafruit_NeoMatrix/Adafruit_NeoMatrix.cpp:175-182 | every LED gets the colour |
| `I2sQueue.I2s.QueueNextItem` | libs/Arduino-master/cores/esp8266/core_esp8266_i2s.c:68-75 | takes the head and shifts the rest down |
| `I2sQueue.I2s.SlcIsr` | libs/Arduino-master/cores/esp8266/core_esp8266_i2s.c:80-93 | mutes and appends the finished buffer, dropping the oldest if all are free |
| `I2sQueue.I2s.WriteSampleNb` | libs/Arduino-master/cores/esp8266/core_esp8266_i2s.c:176-188 | fails if and only if a buffer is needed and none is free; otherwise the sample is stored at the write position |
| `I2sQueue.WholeWriteStores` | libs/Arduino-master/cores/esp8266/core_esp8266_i2s.c:176-188 | the sample ends at the write position, or at the start of the buffer that was free the longest if a new one was needed; nothing else changes |
| `I2sQueue.FinishSane` | libs/Arduino-master/cores/esp8266/core_esp8266_i2s.c:80-93 | a finished transmission keeps the queue a contiguous cyclic run that ends at the newest finished buffer |
| `I2sQueue.FinishGrows` | libs/Arduino-master/cores/esp8266/core_esp8266_i2s.c:80-93 | a finished buffer is muted and goes last; the queue grows by it unless seven are free, when the oldest goes |
| `I2sQueue.WriterSane` | libs/Arduino-master/cores/esp8266/core_esp8266_i2s.c:155-188 | so does every single step of the writer, and the write position stays inside the buffer |
| `I2sQueue.FreeBuffers` | libs/Arduino-master/cores/esp8266/core_esp8266_i2s.c:68-93 | at most seven distinct free buffers, the one on air never among them |
| `I2sQueue.HandedOutInTime` | libs/Arduino-master/cores/esp8266/core_esp8266_i2s.c:155-172 | a buffer handed to the writer is not on air, and goes on air after exactly 8 - n more completions if n were free |
| `I2sQueue.RunFaithful` | libs/Arduino-master/cores/esp8266/core_esp8266_i2s.c:68-188 | in every interleaving in which stores come before their buffer is on air, each transmission plays exactly the samples meant for it, in order, none lost or repeated |
| `I2sQueue.BeginFaithful` | libs/Arduino-master/cores/esp8266/core_esp8266_i2s.c:95-141 | the state after set-up satisfies both invariants |
| `Scheduler.NodeList.PushBack` | libs/Arduino-master/cores/esp8266/Schedule.cpp:55-83 | appending keeps the list acyclic with the right tail |
| `Scheduler.NodeList.PopFront` | libs/Arduino-master/cores/esp8266/Schedule.cpp:36-53 | takes the head; an emptied list has no tail |
| `Scheduler.Scheduler.GetFn` | libs/Arduino-master/cores/esp8266/Schedule.cpp:36-53 | an unused node, or a new one while fewer than 32 exist; null exactly if neither |
| `Scheduler.Scheduler.RecycleFn` | libs/Arduino-master/cores/esp8266/Schedule.cpp:55-65 | the node returns to the unused list and is in flight no more |
| `Scheduler.Scheduler.ScheduleFunction` | libs/Arduino-master/cores/esp8266/Schedule.cpp:67-83 | fails if and only if all 32 nodes are pending or in flight; otherwise the function is last in line; either way the offer is logged |
| `Scheduler.Scheduler.RunNext` | libs/Arduino-master/cores/esp8266/Schedule.cpp:87-96 | the oldest pending function is called: what it schedules is offered in order and accepted exactly while fewer than 32 nodes are in use, the runs it asks for take place, and then its node returns; disjoint acyclic lists and the count of nodes are kept |
| `Scheduler.Scheduler.RunScheduledFunctions` | libs/Arduino-master/cores/esp8266/Schedule.cpp:85-97 | also with functions that schedule or run further ones: the run is a sequence of such calls, after which everything accepted has been called exactly once, in the order accepted |
| `Scheduler.SameRun` | libs/Arduino-master/cores/esp8266/Schedule.cpp:67-97 | what is pending decides everything that happens in a run: the calls, the offers, their answers and their order |
| `Scheduler.OneOffer` | libs/Arduino-master/cores/esp8266/Schedule.cpp:67-97 | a function that schedules another one: it is called, and with room the other one is last in line |
| `CircularBuffer.RingAppend` | libs/Arduino-master/cores/esp8266/cbuf.cpp:135-158 | storing behind the end, around the wrap point, appends to the contents |
| `CircularBuffer.RingDrop` | libs/Arduino-master/cores/esp8266/cbuf.cpp:110-179 | moving the start, around the wrap point, drops from the front |
| `CircularBuffer.Cbuf.Available` | libs/Arduino-master/cores/esp8266/cbuf.cpp:69-74 | the number of queued characters |
| `CircularBuffer.Cbuf.Room` | libs/Arduino-master/cores/esp8266/cbuf.cpp:80-85 | one less than the size, minus the queued characters |
| `CircularBuffer.Cbuf.EmptyFull` | libs/Arduino-master/cores/esp8266/cbuf.h:40-46 | empty and full mean what they say of the contents |
| `CircularBuffer.Cbuf.Peek` | libs/Arduino-master/cores/esp8266/cbuf.cpp:87-92 | the first character or -1 |
| `CircularBuffer.Cbuf.PeekBulk` | libs/Arduino-master/cores/esp8266/cbuf.cpp:94-108 | copies the longest possible front, takes nothing |
| `CircularBuffer.Cbuf.Read` | libs/Arduino-master/cores/esp8266/cbuf.cpp:110-117 | takes the first character |
| `CircularBuffer.Cbuf.ReadBulk` | libs/Arduino-master/cores/esp8266/cbuf.cpp:119-133 | takes the longest possible front across the wrap point |
| `CircularBuffer.Cbuf.Write` | libs/Arduino-master/cores/esp8266/cbuf.cpp:135-142 | appends unless full |
| `CircularBuffer.Cbuf.WriteBulk` | libs/Arduino-master/cores/esp8266/cbuf.cpp:144-158 | appends the longest prefix that fits |
| `CircularBuffer.Cbuf.Flush` | libs/Arduino-master/cores/esp8266/cbuf.cpp:160-163 | empties the buffer |
| `CircularBuffer.Cbuf.Remove` | libs/Arduino-master/cores/esp8266/cbuf.cpp:165-179 | drops from the front and returns what is left |
| `CircularBuffer.Cbuf.Resize` | libs/Arduino-master/cores/esp8266/cbuf.cpp:36-67 | a size below the contents is refused, a larger one keeps them; the buffer stays usable if and only if the new size is not exactly the number of queued characters (or is the old size) |
| `CircularBuffer.Cbuf.ResizeAdd` | libs/Arduino-master/cores/esp8266/cbuf.cpp:32-34 | grows and keeps the contents |
| `IfBlocks.ScanProgram` | libs/Basic-master/ESP8266Basic/Classes.h:218-262 | scanning a well-nested program that fits leaves the stack as it was and appends one entry for each block, inner ones first |
| `IfBlocks.OnlyEntry` | libs/Basic-master/ESP8266Basic/Classes.h:241-262 | each block has its entry and no other entry has its IF position |
| `IfBlocks.GetElseCorrect` | libs/Basic-master/ESP8266Basic/Classes.h:279-293 | in every well-nested program of depth at most 10 and 300 blocks, getElse of an IF is its own ELSE, or its own ENDIF without one, if and only if that line is less than 256 lines away |
| `IfBlocks.GetEndIfExact` | libs/Basic-master/ESP8266Basic/Classes.h:296-307 | getEndIf of an ELSE at which no long block's shortened distance points is the ENDIF of the same block if and only if that is less than 256 lines behind the IF; other blocks may be of any length |
| `IfBlocks.GetEndIfAnyway` | libs/Basic-master/ESP8266Basic/Classes.h:296-307 | for any ELSE and blocks of any length: if and only if the first entry in the order of the list with that key leads there, which is its own or that of a long block pointing at it |
| `IfBlocks.GetEndIfCorrect` | libs/Basic-master/ESP8266Basic/Classes.h:296-307 | in particular, with all blocks shorter than 256 lines, getEndIf of an ELSE is the ENDIF of the same block |
| `IfBlocks.GetElseMisses` | libs/Basic-master/ESP8266Basic/Classes.h:279-293 | a line without an entry is answered with 0 |
| `IfBlocks.StrayLines` | libs/Basic-master/ESP8266Basic/Classes.h:231-262 | stray ELSE and ENDIF lines are ignored, and every ENDIF once 300 blocks are listed |
| `IfBlocks.OverrunExactly` | libs/Basic-master/ESP8266Basic/Classes.h:195-262 | for every well-nested program: the stack is overrun if and only if in front of some line the IFs exceed the ENDIFs, of which no more than 300 count, by more than ten |
| `IfBlocks.OverrunByDepth` | libs/Basic-master/ESP8266Basic/Classes.h:195-262 | with at most 300 blocks: if and only if the nesting is deeper than ten |
| `IfBlocks.PairsOverrun` | libs/Basic-master/ESP8266Basic/Classes.h:218-262 | without nesting: 310 IF/ENDIF pairs are safe and 311 overrun the stack |
| `IfBlocks.IfBlockList.SetIf` | libs/Basic-master/ESP8266Basic/Classes.h:218-229 | opens a block |
| `IfBlocks.IfBlockList.SetElse` | libs/Basic-master/ESP8266Basic/Classes.h:231-239 | records the distance in the innermost open block, or ignores a stray ELSE |
| `IfBlocks.IfBlockList.SetEndif` | libs/Basic-master/ESP8266Basic/Classes.h:241-262 | closes the innermost block into the list, or ignores a stray ENDIF or a full list |
| `IfBlocks.IfBlockList.Check` | libs/Basic-master/ESP8266Basic/Classes.h:266-276 | the list is what was scanned; tells whether every IF was closed |
| `IfBlocks.IfBlockList.GetElsePos` | libs/Basic-master/ESP8266Basic/Classes.h:279-293 | the loop finds the first entry for the IF |
| `IfBlocks.IfBlockList.GetEndIfPos` | libs/Basic-master/ESP8266Basic/Classes.h:296-307 | the loop finds the first entry for the ELSE |
| `StringReplace.ArduinoString.LastIndexOf` | libs/Arduino-master/cores/esp8266/WString.cpp:591-605 | the greatest match at or before the bound, or -1 |
| `StringReplace.ArduinoString.ChangeBuffer` | libs/Arduino-master/cores/esp8266/WString.cpp:149-164 | enough room in multiples of 16 with the text kept, or, if memory is refused, a null buffer under the old length |
| `StringReplace.ArduinoString.ReplaceEqual` | libs/Arduino-master/cores/esp8266/WString.cpp:644-648 | in place, exactly the leftmost non-overlapping replacement |
| `StringReplace.ArduinoString.ReplaceShorter` | libs/Arduino-master/cores/esp8266/WString.cpp:649-661 | in place with two moving positions, exactly the leftmost non-overlapping replacement |
| `StringReplace.ArduinoString.CountSize` | libs/Arduino-master/cores/esp8266/WString.cpp:663-667 | the forward pass counts the length of the leftmost replacement |
| `StringReplace.ArduinoString.ReplaceLast` | libs/Arduino-master/cores/esp8266/WString.cpp:672-680 | the backward loop, whenever what it produces fits the buffer |
| `StringReplace.ArduinoString.constructor` | libs/Arduino-master/cores/esp8266/WString.cpp:170-178 | a String holds its text in a capacity rounded up to 16 |
| `StringReplace.ArduinoString.Replace` | libs/Arduino-master/cores/esp8266/WString.cpp:638-681 | all branches, for every text whose result fits the capacity made for it, and the text lost when memory for growing is refused |
| `StringReplace.GrowCorrect` | libs/Arduino-master/cores/esp8266/WString.cpp:672-680 | if no proper suffix of the pattern starts the pattern or the replacement, the backward loop gives the leftmost replacement |
| `StringReplace.GrowExact` | libs/Arduino-master/cores/esp8266/WString.cpp:672-680 | it does so for every text if and only if that holds; one-character patterns always qualify |
| `StringReplace.FitsExact` | libs/Arduino-master/cores/esp8266/WString.cpp:663-680 | the size counted forward is enough for every text if and only if no proper suffix of the pattern starts the replacement |
| `StringReplace.CompletedMatch` | libs/Arduino-master/cores/esp8266/WString.cpp:663-680 | otherwise there is a text whose result is longer than the size counted forward by one more replacement |
| `StringReplace.GrowExceeds` | libs/Arduino-master/cores/esp8266/WString.cpp:149-680 | if one does, a text whose counted size is a full capacity does not fit the capacity of a String made of it |
| `StringReplace.CapacityExact` | libs/Arduino-master/cores/esp8266/WString.cpp:149-680 | so for every longer replacement: the result fits the capacity for every text if and only if no proper suffix of the pattern starts the replacement |
| `StringReplace.ExceedsInAab` | libs/Arduino-master/cores/esp8266/WString.cpp:149-680 | replacing ab by fourteen b in aab: fifteen characters counted and allocated, at least twenty-seven made |
| `StringReplace.GrowFits` | libs/Arduino-master/cores/esp8266/WString.cpp:663-680 | under the condition the result fits the capacity made for the counted size |
| `StringReplace.IndependentFits` | libs/Arduino-master/cores/esp8266/WString.cpp:663-680 | so it does for independent patterns |
| `Gfx.AdafruitGfx.DrawCircle` | libs/Basic-master/libraries/Adafruit_GFX_Library/Adafruit_GFX.cpp:88-120 | for radius 1 and more the pixels set are exactly the ideal circle: in every column of the octant the row nearest to the true circle, mirrored; no 16-bit value overflows |
| `Gfx.PaintIs` | libs/Basic-master/libraries/Adafruit_GFX_Library/Adafruit_GFX.cpp:88-120 | painting a set gives its points the colour and leaves all others |
| `Gfx.OctantIsCircle` | libs/Basic-master/libraries/Adafruit_GFX_Library/Adafruit_GFX.cpp:101-119 | when the loop ends no point of the ideal octant is missing and none is extra |
| `Gfx.Turn` | libs/Basic-master/libraries/Adafruit_GFX_Library/Adafruit_GFX.cpp:102-109 | one turn keeps the rounding and the closed form of the decision variable, with its bounds |
| `Gfx.RootUnique` | libs/Basic-master/libraries/Adafruit_GFX_Library/Adafruit_GFX.cpp:101-119 | -y <= x*x + y*y - r*r <= y - 1 determines y from x |
| `Gfx.OverDiagonal` | libs/Basic-master/libraries/Adafruit_GFX_Library/Adafruit_GFX.cpp:101-119 | the one point the last turn may draw across the diagonal satisfies the same bound if and only if r*r is not 2*y*y - 3*y + 2 |
| `Gfx.OverDiagonalAtTwo` | libs/Basic-master/libraries/Adafruit_GFX_Library/Adafruit_GFX.cpp:101-119 | radius 2 breaks the bound there |
| `Gfx.AdafruitGfx.DrawLine` | libs/Basic-master/libraries/Adafruit_GFX_Library/Adafruit_GFX.cpp:196-234 | the pixels set are those of the rounded line, without overflow up to the last pixel |
| `Gfx.AdafruitGfx.DrawFlat` | libs/Basic-master/libraries/Adafruit_GFX_Library/Adafruit_GFX.cpp:209-233 | the error variable yields the rounded offset k * dy / dx on every column |
| `Gfx.LineRaster` | libs/Basic-master/libraries/Adafruit_GFX_Library/Adafruit_GFX.cpp:196-234 | for any two ends: both ends are hit, one pixel for each step of the major axis, all within half a unit of the ideal line, and the same pixels from either end |
| `Mqtt.MqttClient.StringPrint` | libs/Basic-master/libraries/Adafruit_MQTT_Library/Adafruit_MQTT.cpp:59-76 | writes a length-prefixed string and nothing else |
| `Mqtt.MqttClient.PublishPacket` | libs/Basic-master/libraries/Adafruit_MQTT_Library/Adafruit_MQTT.cpp:493-521 | writes the QoS 0 packet of a topic and a payload |
| `Mqtt.StringFieldIs` | libs/Basic-master/libraries/Adafruit_MQTT_Library/Adafruit_MQTT.cpp:59-76 | a length of two bytes, high byte first, and the string |
| `Mqtt.PacketIs` | libs/Basic-master/libraries/Adafruit_MQTT_Library/Adafruit_MQTT.cpp:493-521 | the bytes of every packet that fits the buffer, as in section 3.3 of MQTT 3.1.1 |
| `Mqtt.PacketRoundTrip` | libs/Basic-master/libraries/Adafruit_MQTT_Library/Adafruit_MQTT.cpp:493-521 | a reader of section 3.3 of MQTT 3.1.1 gets topic and payload back from every packet of at most 125 bytes |
| `Mqtt.PacketIsFrame` | libs/Basic-master/libraries/Adafruit_MQTT_Library/Adafruit_MQTT_Client.cpp:50-86 | such a packet is the first frame of any stream that starts with it |
| `Mqtt.FramesOfPackets` | libs/Basic-master/libraries/Adafruit_MQTT_Library/Adafruit_MQTT_Client.cpp:50-86 | packets sent one after the other come back one at a time |
| `Mqtt.MqttClient.ReadPacket` | libs/Basic-master/libraries/Adafruit_MQTT_Library/Adafruit_MQTT_Client.cpp:50-86 | no byte is lost between buffer and link, never more than one frame is taken, and all of it is taken if and only if it arrives before the timeout |
| `Mqtt.SteadyIsPrompt` | libs/Basic-master/libraries/Adafruit_MQTT_Library/Adafruit_MQTT_Client.cpp:50-86 | a link that brings something at every poll brings every frame in time |
| `Mqtt.SilenceExact` | libs/Basic-master/libraries/Adafruit_MQTT_Library/Adafruit_MQTT_Client.cpp:50-86 | each silent poll costs ten milliseconds, and below zero the frame is given up |
| `Mqtt.MqttClient.ReadAvailable` | libs/Basic-master/libraries/Adafruit_MQTT_Library/Adafruit_MQTT_Client.cpp:58-81 | the inner loop stops at the end of the frame or of what is there |
| `Mqtt.MqttClient.FindSlot` | libs/Basic-master/libraries/Adafruit_MQTT_Library/Adafruit_MQTT.cpp:346-359 | the first slot with the topic in the buffer |
| `Mqtt.PayloadReach` | libs/Basic-master/libraries/Adafruit_MQTT_Library/Adafruit_MQTT.cpp:365-370 | reading a payload leaves the buffer if and only if the topic is longer than 102 and the frame ends inside it |
| `Mqtt.PayloadLengthExact` | libs/Basic-master/libraries/Adafruit_MQTT_Library/Adafruit_MQTT.cpp:365-370 | the payload length computed from every frame length and topic length |
| `Mqtt.EqualFoldExact` | libs/Basic-master/libraries/Adafruit_MQTT_Library/Adafruit_MQTT.cpp:354 | topics match exactly if they have the same letters, in any case |
| `Mqtt.MqttClient.ReadSubscription` | libs/Basic-master/libraries/Adafruit_MQTT_Library/Adafruit_MQTT.cpp:332-377 | what the matching subscription receives, which is one step of that delivery, that no other changes, and that reading stays inside the buffer |
| `Mqtt.PublishedIsDelivered` | libs/Basic-master/libraries/Adafruit_MQTT_Library/Adafruit_MQTT.cpp:332-377 | a published message reaches the first slot whose topic matches in any case of letters, payload whole up to 20 bytes and otherwise cut to 19 |
| `Mqtt.AllDelivered` | libs/Basic-master/libraries/Adafruit_MQTT_Library/Adafruit_MQTT.cpp:332-377 | any number of published messages, read by as many calls from a stream that brings each in time, arrive one by one and in order, each at the first matching slot with its payload so cut |
| `Mqtt.MqttClient.Subscribe` | libs/Basic-master/libraries/Adafruit_MQTT_Library/Adafruit_MQTT.cpp:265-288 | the first free slot, unless subscribed already; fails exactly if all slots hold others |
| `Base64.SameBits` | libs/Basic-master/ESP8266Basic/Base64.cpp:120-125 | three bytes and their four groups are the same 24 bits (section 4 of RFC 4648) |
| `Base64.QuadRoundTrip` | libs/Basic-master/ESP8266Basic/Base64.cpp:120-131 | regrouping three bytes and back returns them |
| `Base64.TripleRoundTrip` | libs/Basic-master/ESP8266Basic/Base64.cpp:120-131 | and so does regrouping four groups of six bits and back |
| `Base64.LookupAlphabet` | libs/Basic-master/ESP8266Basic/Base64.cpp:13-15 | looking up a letter gives its value; no letter is the padding |
| `Base64.AlphabetIs` | libs/Basic-master/ESP8266Basic/Base64.cpp:12-14 | the letters themselves, and 255 for every other character |
| `Base64.EncodeDecode` | libs/Basic-master/ESP8266Basic/Base64.cpp:21-103 | decoding an encoding gives back every byte sequence |
| `Base64.TestVectors` | libs/Basic-master/ESP8266Basic/Base64.cpp:21-57 | the test vectors for f, fo and foo of RFC 4648 |
| `Base64.DecodeEncode` | libs/Basic-master/ESP8266Basic/Base64.cpp:21-103 | encoding what was decoded gives the text back if and only if the text is canonical: whole groups, letters only, padding at the end, unused bits zero |
| `Base64.GroupDecoded` | libs/Basic-master/ESP8266Basic/Base64.cpp:59-103 | of any text: four characters in front of the padding give three bytes, for letters the same 24 bits |
| `Base64.RestDecoded` | libs/Basic-master/ESP8266Basic/Base64.cpp:59-103 | of any text: a rest of two or three letters gives one or two bytes, a single one none |
| `Base64.UpToPadding` | libs/Basic-master/ESP8266Basic/Base64.cpp:59-103 | what follows the first padding does not matter |
| `Base64.EncodeShape` | libs/Basic-master/ESP8266Basic/Base64.cpp:21-57 | letters of the alphabet, then the padding that fills the last group, in the announced length |
| `Base64.EncLenIs` | libs/Basic-master/ESP8266Basic/Base64.cpp:105-108 | four characters for every three bytes begun |
| `Base64.Base64Encode` | libs/Basic-master/ESP8266Basic/Base64.cpp:21-57 | the loop writes the encoding and a NUL and returns the announced length |
| `Base64.Base64Decode` | libs/Basic-master/ESP8266Basic/Base64.cpp:59-103 | the loop writes the decoding of any text and a NUL, up to the first padding |
| `Base64.Base64DecLen` | libs/Basic-master/ESP8266Basic/Base64.cpp:110-118 | for an encoding, the length of what was encoded |
| `Millis.TickExact` | libs/Arduino-master/cores/esp8266/core_esp8266_wiring.c:55-60 | a tick keeps the count right if and only if it comes less than one wrap after the tick before |
| `Millis.RunIsTrue` | libs/Arduino-master/cores/esp8266/core_esp8266_wiring.c:55-60 | in every run of such ticks the count is the number of wraps |
| `Millis.MillisInEveryRun` | libs/Arduino-master/cores/esp8266/core_esp8266_wiring.c:55-66 | in every run, up to a wrap behind the last tick, millis is its value modulo 2^32 |
| `Millis.Monotone` | libs/Arduino-master/cores/esp8266/core_esp8266_wiring.c:62-66 | the value never goes back, also not across a wrap |
| `Millis.Lag` | libs/Arduino-master/cores/esp8266/core_esp8266_wiring.c:62-66 | it lags behind the true milliseconds by exactly (296 * wraps + counter % 1000) / 1000 |
| `Millis.ReadInsideTick` | libs/Arduino-master/cores/esp8266/core_esp8266_wiring.c:55-66 | read by an interrupt between the two stores of a tick it is right if and only if the tick saw no wrap |
| `Millis.Wiring.MicrosOverflowTick` | libs/Arduino-master/cores/esp8266/core_esp8266_wiring.c:55-60 | one tick |
| `Millis.Wiring.Millis` | libs/Arduino-master/cores/esp8266/core_esp8266_wiring.c:62-66 | the value at the time of the call, whenever the last tick is less than a wrap ago |

## Left out

- FirmwareUpdate.EndToEnd: assumes that the template write is not used on a session that `write(buf, len)` has overfilled, where its subtraction wraps, and a declared size no larger than the space below the file system; `FirmwareUpdate.BeginExact` shows what happens with larger ones. It is for sketches; `UpdateSuccess.FileSystemUpdate` is for the file system.
- Updater.UpdaterClass.WriteFrom: requires that the buffered bytes do not already exceed the declared size, because the source's subtraction wraps there.
- FirmwareUpdate.NoCommandAfterError: holds for runs without `clearError`, which is not part of this model.
- Bootloader.CopyLoopCorrect: a destination that is not aligned, or less than a sector from the source, is left to `Bootloader.CopyLands` and `Bootloader.CopyTrueExactly`, which compute the outcome byte by byte; a condition in closed form is given for aligned destinations (`Bootloader.CopyExact`) and for a source apart from the destination (`Bootloader.ApartExact`), not for an unaligned destination that overlaps its source. Power loss during the copy is not modelled.
- UpdateSuccess.FileSystemUpdate: for images that end on the chip; `begin` takes larger ones too (`UpdateSuccess.BeginFileSystem`).
- Updater: `writeStream`, the sleep mode call, and debug output.
- PwmPlanner.PrepareSteps: at most 16 active pins with nonzero values; with 17 the source writes behind its step array.
- PwmTimer.PwmDriver.PrepPwmSteps: at most 16 active pins with nonzero values, as `PwmPlanner.PrepareSteps`.
- PwmTimer: `pwm_multiplier`, which both tables share, so duty is in steps and not in nanoseconds; `analogWrite` itself; bit masks are sets of pins.
- PwmTimer.DutyInEveryRun: speaks of cycles during which the set of active pins did not change, as does `PwmTimer.DutyFromValues`.
- I2sQueue.RunFaithful: assumes that a store comes before its buffer is on air; a writer that is late by a whole cycle overwrites what is being played.
- I2sQueue: DMA registers; the blocking write is its steps, and waiting is a step that changes nothing.
- NeoMatrix: a custom remap function, the gamma tables, more than 65535 LEDs, and sizes of 0.
- SpiClock.SearchOptimal: requests of 80 MHz and more, or below the slowest setting, do not search; `SpiClock.SpiClass.SetFrequency` covers them.
- Scheduler: `init_lists`, which nothing calls; a function is modelled by what it does to the scheduler.
- CircularBuffer.Cbuf.constructor: sizes of at least 1; a failed allocation is not modelled.
- IfBlocks.IfBlockList.SetIf: not for ten blocks on the stack, where the source writes behind it; `IfBlocks.OverrunExactly` says when that is reached.
- IfBlocks.OverrunByDepth: for at most 300 blocks; `IfBlocks.OverrunExactly` is for all programs.
- IfBlocks: line positions of 65536 and more, error messages, freeing the lists.
- IfBlocks.GetEndIfExact: leaves an ELSE at which the shortened distance of a long block points to `IfBlocks.GetEndIfAnyway`.
- StringReplace.ArduinoString.Replace: when growing, requires that the result fits the capacity made for this text, behind which the source would write otherwise; `StringReplace.CapacityExact` shows for which patterns that is so for every text. Replacing by or in a String that aliases is not modelled.
- StringReplace.ArduinoString.ReplaceLast: requires that the result fits the buffer, behind which the source would write otherwise.
- Gfx.AdafruitGfx.DrawCircle: radius at most 16383 and coordinates within 16 bits, so that nothing overflows.
- Gfx.AdafruitGfx.DrawLine: differences of at most 32767, and no end at 32767 along the major axis, where the loop counter would wrap.
- Mqtt: QoS above 0, connect, ping, unsubscribe.
- Mqtt.MqttClient.PublishPacket: messages of at most 125 bytes; the source writes longer ones behind its buffer.
- Mqtt.MqttClient.ReadSubscription: requires topics of at most 102 bytes or a whole packet, because the source trusts the lengths it receives; `Mqtt.PayloadReach` says exactly which reads leave the buffer.
- Base64.Base64DecLen: not for a text that is empty or all padding, in front of which the source would read.
- Base64: input and output in the same buffer; lengths near the top of the int range.
- Millis.TickExact: delays shorter than 2^32 wraps, after which the count itself comes round.
- RFID, Wire, displays, NeoPixel output, pins and registers: no state of their own worth proving.
- Network services, MD5, the SPIFFS library, the memory allocator and SDK or ROM calls are not part of this model.
- `spiffs_hal`, `memmem_P`, floating point, fonts and pin tables.
