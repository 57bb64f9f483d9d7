# The hard state of a sensor node's firmware, modelled and proved

The repository is the firmware of a connected sensor node: a base application for an nRF52 and a
bootloader that updates it over the air. This project models the parts of it that hold hard state or
arithmetic, and proves what they are for.

| part | files here | source |
|---|---|---|
| firmware update: protocol, RAM buffers, flash, checksums, bank marking | `DfuProtocol`, `DfuProgress`, `DfuHandler`, `FlashWriter`, `FlashTrace`, `Crc32` | `Firmware/Bootloader/Src/ExoKey/dfu_req_handling.c` |
| drop-oldest queue of variable-length frames in a byte ring | `FrameFifo`, `EsQueue` | `Firmware/AppBase/Src/Libraries/ES_Queue.c` |
| BLE UART sender with segmentation, back-pressure and the queue behind it | `ChunkedSender`, `BleUart` | `Firmware/AppBase/Src/BLE/BLE_Uart.c` |
| RTT ring shared with a debug host, without a lock | `RttRing` | `Firmware/AppBase/Src/RTT/SEGGER_RTT.c` |
| integer formatting and staged output | `FormatSpec`, `RttPrintf` | `Firmware/AppBase/Src/RTT/SEGGER_RTT_printf.c` |
| mantissa and exponent codec | `MantExp` | `Firmware/AppBase/Src/Libraries/Tool.c` |
| timed transmission windows | `Scheduler` | `Firmware/AppBase/Src/Application/ModeManagement.c` |

`Arithmetic` and `Cyclic` hold what several of these need about numbers and about indices that run
around a buffer.

Each stateful source file becomes a class with the source's fields, whose methods follow the source's
branches and loops. Beside it stands a plain description of the same thing on values: a list of frames
without indices, a list of chunks, a protocol session, a text. The class's methods are proved to do
what the description says, and the main results are proved about the description, over every input
and every sequence of requests.

Main results, hardest first.

* Whenever a complete image is accepted, and every object was in step with the flash when it was executed
  (its pages were erased and none of its stores failed), the flash at the start of the firmware is exactly
  the executed objects one behind the other, the bank shows their length and CRC, and their hash is the
  one in the init packet: `DfuHandler.Handler.OnReq`, with `Delivered`. The handler keeps its stream
  invariant through every request and every failure of flash, settings or hash: `Handler.Valid`,
  `StreamInvariant`. A peer that follows a failed store or erase by a new data CREATE keeps every object
  in step: `ObedientRunIsInStep`. No cell is programmed twice between erases: `FlashDiscipline`.
* An honest update completes. From any state requests can lead to, if nothing fails, an init command with a
  packet this device wants is accepted in whatever pieces it comes; then every CREATE, WRITE and EXECUTE of
  the image is answered with success, however it is cut into objects at page boundaries and writes of 1 to
  128 bytes, and the image ends up in a bank marked for its kind: `DfuProgress.HonestUpdateCompletes`,
  stated on the requests and their answers.
* An accepted init packet sends its image to a page boundary inside the region, behind a valid application
  in bank 0 exactly if there is room behind it: `DfuProtocol.WhereItGoes`. While an image goes there, no
  request changes a cell of that application: `DfuHandler.Handler.OnReq`. Each kind of image gets its own
  mark, and the old application its own fate: `AcceptanceMarks`, `RefusalClears`.
* Flash operations that complete late leave the same flash as operations that complete at once, if each
  store completes before the fourth buffer swap after it: `FlashTrace.AsyncRefinesSync`, and for the
  handler `DfuHandler.LateCompletionIsTheSame`.
* When a request decreases a stored version, exactly: `DfuProtocol.WhenVersionsDrop`. It can only be a data
  EXECUTE with neither a valid init packet nor an announced size, because data EXECUTE, unlike data
  CREATE and WRITE, does not look at the valid flag; `RefusedPacketDowngrades` is a run that does it.
  Without such a request versions never decrease over any run, and banks become valid only under an
  init packet whose signature verifies: `VersionsNeverDecrease`, `OnlySignedImages`, and exactly
  `WhenMarkedUnsigned`. Over every run
  whatever, the first image accepted under a valid init packet raises the bootloader version if it
  holds a bootloader: `FirstBootloaderIsNewer`. The stream invariant, the end-to-end result and the
  flash discipline need no assumption on the init packet.
* The byte ring with its interleaved evictions is a FIFO that drops the shortest prefix of oldest frames,
  across every wrap; over every run the frames balance: `EsQueue.Queue.Write`, `Queue.Read`,
  `FrameFifo.RunConserves`.
* In every run of the BLE sender, what went to the stack, what waits and what is queued are the accepted
  messages in call order less what the queue dropped: `ChunkedSender.BytesAreConserved`. Accepted are
  the messages of ready callers, by the events alone: `AcceptedIsSubmitted`. What the returned code tells
  about a message: `ReturnedTells`.
* However the host moves between two copied bytes, the RTT ring never overwrites an unread byte and
  delivers the stored bytes in order: `RttRing.Ring.Write`, `Ring.Read`.
* Formatted integers read back as the number, in a field of exactly the stated width, for every
  combination of flags: `FormatSpec.FormatRoundTrip` with `RttPrintf.Descriptor.PrintInt`. What each flag
  shows in the text is stated on its characters alone: `FlagsDecideText`. What the ring was given is
  always a first part of the text: `RttPrintf.VPrintf`.
* The codec chooses the least exponent that covers the number, and its error is at most half a unit
  exactly if the number is not out of range by more than that: `MantExp.Encode`, `ErrorWithinHalf`.
* The running checksum is the linear step that divides by the polynomial of CRC-32, and no other; a message
  followed by its checksum has a checksum that does not depend on the message: `Crc32.OnlyBitStep`,
  `MessageWithChecksum`.
* Window marks keep their distance through every reconfiguration, processing on every tick marks exactly
  every period after a first mark whose time is known, and processing with gaps misses no overdue window
  from its first mark until it is switched off, in spite of the 16-bit elapsed time:
  `Scheduler.MarksAreSpaced`, `MarkedEveryPeriod`, `MarksAreTimely`. Every mark is sent as soon as its
  payload can be built: `EveryMarkIsSent`.

Where the code falls short of what one would expect, the exact condition is proved:
`DfuProtocol.WhenVersionsDrop` (requests that decrease a version), `DfuProtocol.WhenMarkedUnsigned`
(requests that mark an unsigned image), `DfuProtocol.WhenMarkFails` (requests that erase an image whose
bank stays marked), `RttPrintf.EnoughDigits` (precisions
that can be printed in full), `RttPrintf.VPrintf` (texts whose result is the number of bytes stored),
`MantExp.TableSuffices` (numbers that stay inside the power table), `MantExp.UnpackPair` (pairs that come
back from the packed word), `BleUart.MtuChangeKeepsTail` (segment sizes that may change under a waiting
message), `Scheduler.GapBound` (gaps between processes that miss no overdue window that was marked
before), `Scheduler.FirstReached` (when a window switched on late is marked first),
`RttRing.Ring.LooksFull` (when the host may look at a ring whose write offset is being wrapped).

The code and its documentation differ in one place that matters here: `SEGGER_RTT_vprintf` is
documented to return the number of bytes stored, but a successful call adds the bytes of its final write
once more. `VPrintf` states what the code returns, and that it is the documented number exactly for
texts that fill whole buffers of 64 characters; `PrintOneCharacter` is an instance where it is not.

## Model

| member | source | states |
|---|---|---|
| DfuHandler.Handler.OnReq | Firmware/Bootloader/Src/ExoKey/dfu_req_handling.c:1175-1219 | for any request in any reachable state, with any failures: either nothing changes, or the update makes the protocol step that was asked for on the selected object type; the validated image is what the flash holds, whether an erase or a store of an object in step fails is determined by the faults, a refused request fails none, and the response reports the resulting state; the invariant is kept and the trace of operations only grows; an accepted image whose objects were in step is in the flash, vouched for by length, CRC, hash and the mark of its kind; no cell below the start of the image changes, none at all without a valid init packet, and none of a valid application in bank 0 while bank 1 is current |
| DfuHandler.ObedientRunIsInStep | Firmware/Bootloader/Src/ExoKey/dfu_req_handling.c:928-1068 | over every run of a peer that follows a failed store or erase by a new data create before further writes, whatever fails, every object is in step when it is executed |
| DfuHandler.StepKeepsInStep | Firmware/Bootloader/Src/ExoKey/dfu_req_handling.c:928-1068 | the same for one request |
| DfuHandler.StreamInvariant | Firmware/Bootloader/Src/ExoKey/dfu_req_handling.c:928-1068 | while an object is open and none of its flash operations failed: write offset plus buffer position is the image offset, the offsets are ordered within the announced size, flash followed by the current buffer is what was received, the checksum is that of the stream, and at the object's end the buffer is empty |
| DfuHandler.FlashDiscipline | Firmware/Bootloader/Src/ExoKey/dfu_req_handling.c:897-1068 | an open object starts at a multiple of the page size; since the erase of its pages every store fell inside them and behind all earlier stores, so no cell is programmed twice |
| DfuHandler.OpenedPagesAreErased | Firmware/Bootloader/Src/ExoKey/dfu_req_handling.c:928-946 | right after an object was opened its pages are erased, so nothing is left of an image that was there |
| DfuHandler.LateCompletionIsTheSame | Firmware/Bootloader/Src/ExoKey/dfu_req_handling.c:89-103 | everything the handler did to buffers and flash since start-up leaves the same flash when erases and stores complete later but in time |
| DfuHandler.Handler.constructor | Firmware/Bootloader/Src/ExoKey/dfu_req_handling.c:95-112 | start-up without progress satisfies the invariant and is the protocol's initial state, over the given flash and with nothing done yet |
| DfuHandler.Handler.Append | Firmware/Bootloader/Src/ExoKey/dfu_req_handling.c:986-1003 | bytes copied behind the buffer position extend the received stream by exactly those bytes |
| DfuHandler.Handler.StoreAndSwap | Firmware/Bootloader/Src/ExoKey/dfu_req_handling.c:1009-1029 | a successful store puts the buffer where the stream continues and moves the write offset on; a failed one moves progress back to the last executed object and programs nothing; either way the next buffer starts empty |
| DfuHandler.Handler.Buffer | Firmware/Bootloader/Src/ExoKey/dfu_req_handling.c:986-1038 | a write of any length up to a buffer, split over the buffer boundary or not, extends the stream by its bytes; a failed store is reported by reverted progress |
| DfuHandler.Handler.FlushAtEnd | Firmware/Bootloader/Src/ExoKey/dfu_req_handling.c:1040-1068 | the rest of a complete object reaches the flash, nothing is stored early, and exactly when the store fails |
| DfuHandler.Handler.TakeBytes | Firmware/Bootloader/Src/ExoKey/dfu_req_handling.c:986-1068 | both possible stores of one write together keep the stream in step, or fail and revert, and exactly which faults make it fail; only cells between the old and the new write offset change, inside the object's pages |
| DfuHandler.Handler.Take | Firmware/Bootloader/Src/ExoKey/dfu_req_handling.c:978-1068 | an accepted write extends the open object by its bytes, or loses the object if a store fails |
| DfuHandler.Handler.DataWrite | Firmware/Bootloader/Src/ExoKey/dfu_req_handling.c:955-1070 | the WRITE request: its three refusals, and an acceptance whose response reports the offset and CRC of what counts as received, the last executed object after a failed store; nothing changes below the start of the image |
| DfuHandler.Handler.ErasePages | Firmware/Bootloader/Src/ExoKey/dfu_req_handling.c:938-946 | the next buffer and erased pages begin an empty stream in step with the flash, and executed objects stay as they are |
| DfuHandler.Handler.Open | Firmware/Bootloader/Src/ExoKey/dfu_req_handling.c:928-946 | progress returns to the last executed object whatever failed before, and the stream invariant is established again if the erase succeeds |
| DfuHandler.Handler.DataCreate | Firmware/Bootloader/Src/ExoKey/dfu_req_handling.c:886-953 | the CREATE request: its five refusals in order, 32-bit wrap-around included, invalidation of bank 0, and when an object is open and in step afterwards; nothing is erased below the start of the image |
| DfuHandler.Handler.Close | Firmware/Bootloader/Src/ExoKey/dfu_req_handling.c:1095-1098 | a fully received object joins the executed ones, which stay in the flash if it was in step |
| DfuHandler.Handler.DataExecute | Firmware/Bootloader/Src/ExoKey/dfu_req_handling.c:1078-1111 | the EXECUTE request; when it completes and accepts an image whose objects were in step, flash, bank and hash agree with the executed objects |
| DfuHandler.Handler.Judge | Firmware/Bootloader/Src/ExoKey/dfu_req_handling.c:509-598 | the verdict on an image, including the comparison with the stale hash when hashing failed |
| DfuHandler.Handler.Mark | Firmware/Bootloader/Src/ExoKey/dfu_req_handling.c:527-650 | banks, versions and SoftDevice size after acceptance and after rejection |
| DfuHandler.Handler.ClearProgress | Firmware/Bootloader/Src/ExoKey/dfu_req_handling.c:652-655 | zeroed progress is an empty update that satisfies the invariant |
| DfuHandler.Handler.Postvalidate | Firmware/Bootloader/Src/ExoKey/dfu_req_handling.c:499-665 | validation of a complete image does what the protocol says, for the bytes really in the flash and the CRC of the executed objects |
| DfuHandler.Handler.DataStatus | Firmware/Bootloader/Src/ExoKey/dfu_req_handling.c:1072-1118 | CRC and SELECT report length and checksum of everything received |
| DfuHandler.Handler.CommandCreate | Firmware/Bootloader/Src/ExoKey/dfu_req_handling.c:745-775 | a new init command resets all progress and the valid flag, or is refused |
| DfuHandler.Handler.CommandWrite | Firmware/Bootloader/Src/ExoKey/dfu_req_handling.c:783-803 | init command bytes are appended and their checksum continued, or refused if there are too many |
| DfuHandler.Handler.CommandStatus | Firmware/Bootloader/Src/ExoKey/dfu_req_handling.c:777-781 | CRC and SELECT report length and checksum of the init command |
| DfuHandler.Handler.ReserveBank | Firmware/Bootloader/Src/components/libraries/bootloader/dfu/nrf_dfu_utils.c:558-643 | where the update goes: bank 1 behind a valid application if it fits, else bank 0, else nowhere |
| DfuHandler.Handler.Prevalidate | Firmware/Bootloader/Src/ExoKey/dfu_req_handling.c:237-490 | all checks of the init packet in the source's order, and what each failure has already changed |
| DfuHandler.Handler.CheckPacket | Firmware/Bootloader/Src/ExoKey/dfu_req_handling.c:237-393 | the checks up to the signature, with the search for the SoftDevice, give the first failure in order |
| DfuHandler.Handler.TakeSize | Firmware/Bootloader/Src/ExoKey/dfu_req_handling.c:395-463 | the announced size is stored even when it is then refused, and what is refused |
| DfuHandler.Handler.Decode | Firmware/Bootloader/Src/ExoKey/dfu_req_handling.c:672-852 | decoding, dispatch on the kind of packet, and when the init packet becomes valid |
| DfuHandler.Handler.CommandExecute | Firmware/Bootloader/Src/ExoKey/dfu_req_handling.c:805-852 | keeps the invariant through decoding and prevalidation, whatever they refuse |
| DfuHandler.Handler.CommandReq | Firmware/Bootloader/Src/ExoKey/dfu_req_handling.c:738-873 | every operation on the init command is its protocol step, or leaves the state unchanged, and reports offset, CRC and maximum size |
| DfuHandler.Handler.DataReq | Firmware/Bootloader/Src/ExoKey/dfu_req_handling.c:876-1132 | every operation on the image is its protocol step, with the image, erase and store outcomes that flash and faults determine, or leaves the state unchanged; its report; acceptance delivers |
| DfuHandler.FlushTracks | Firmware/Bootloader/Src/ExoKey/dfu_req_handling.c:1009-1016 | a store onto erased cells moves the buffer's bytes into the stream's place in flash, cell by cell |
| DfuHandler.ObjectInFlash | Firmware/Bootloader/Src/ExoKey/dfu_req_handling.c:1095-1098 | a flushed object extends the image in flash |
| DfuProtocol.EventKeepsOrder | Firmware/Bootloader/Src/ExoKey/dfu_req_handling.c:738-1132 | every request, successful or not, keeps the sizes in order: the announced image fits the region, executed objects and open object fit the image, and objects end at page boundaries or at the end of the image |
| DfuProtocol.RunKeepsOrder | Firmware/Bootloader/Src/ExoKey/dfu_req_handling.c:738-1132 | the same for every state that requests can lead to |
| DfuProtocol.ExecuteKeepsOrder | Firmware/Bootloader/Src/ExoKey/dfu_req_handling.c:1078-1111 | executing an object keeps the page alignment of the executed image |
| DfuProtocol.PoweredUpIsOrderly | Firmware/Bootloader/Src/ExoKey/dfu_req_handling.c:98-112 | the invariants hold at power-up |
| DfuProtocol.CreateStartsPage | Firmware/Bootloader/Src/ExoKey/dfu_req_handling.c:897-942 | every data CREATE that goes as far as the erase starts at a multiple of the page size and fits the image, without wrap-around |
| DfuProtocol.PrevalidateAccepts | Firmware/Bootloader/Src/ExoKey/dfu_req_handling.c:237-490 | an init packet is accepted if and only if it is a release build for this hardware and SoftDevice, new enough, correctly signed, and announces a size that fits |
| DfuProtocol.PrevalidateBounds | Firmware/Bootloader/Src/ExoKey/dfu_req_handling.c:400-490 | what prevalidation can change, and the bounds of an accepted size and bank |
| DfuProtocol.PostvalidateAccepts | Firmware/Bootloader/Src/ExoKey/dfu_req_handling.c:499-665 | a bank ends up valid if and only if the hash was computed, is of the supported type and agrees, and a SoftDevice keeps its major version; which mark the bank then has for which kind of image, and its size and checksum; when the response is success |
| DfuProtocol.PostvalidateKeeps | Firmware/Bootloader/Src/ExoKey/dfu_req_handling.c:652-655 | validation leaves the init packet in force, and clears the progress or nothing |
| DfuProtocol.AcceptanceVouches | Firmware/Bootloader/Src/ExoKey/dfu_req_handling.c:1105-1110 | an accepted image has its length, CRC and the mark of its kind in the bank, and its hash in the init packet |
| DfuProtocol.VersionsNeverDecrease | Firmware/Bootloader/Src/ExoKey/dfu_req_handling.c:294-1110 | over every run in which no data EXECUTE comes with neither a valid init packet nor an announced size, versions never decrease |
| DfuProtocol.WhenVersionsDrop | Firmware/Bootloader/Src/ExoKey/dfu_req_handling.c:294-1110 | a request decreases a version if and only if it is a data EXECUTE without a valid init packet and with no size announced, whose settings write succeeds and which accepts the empty image for an older packet |
| DfuProtocol.StaleExecute | Firmware/Bootloader/Src/ExoKey/dfu_req_handling.c:1078-1110 | without a valid init packet, data EXECUTE does nothing if a size was announced, and otherwise accepts exactly if the settings write succeeds, the bank is known and the verdict on the empty image is success |
| DfuProtocol.RefusedPacketDowngrades | Firmware/Bootloader/Src/ExoKey/dfu_req_handling.c:1078-1110 | an instance: a refused init command and a data EXECUTE bring the application version from 1 to 0 and mark a bank valid without a signature |
| DfuProtocol.ExecuteVersions | Firmware/Bootloader/Src/ExoKey/dfu_req_handling.c:1078-1110 | data EXECUTE changes a version exactly when it accepts an image of the kind |
| DfuProtocol.EventKeepsUpgrades | Firmware/Bootloader/Src/ExoKey/dfu_req_handling.c:294-852 | no request makes a valid init packet older than what it replaces |
| DfuProtocol.RunKeepsUpgrades | Firmware/Bootloader/Src/ExoKey/dfu_req_handling.c:294-852 | nor does any run |
| DfuProtocol.OnlySignedImages | Firmware/Bootloader/Src/ExoKey/dfu_req_handling.c:353-1110 | over every run in which no data EXECUTE comes with neither a valid init packet nor an announced size, a bank becomes valid only under an init packet whose signature verifies |
| DfuProtocol.WhenMarkedUnsigned | Firmware/Bootloader/Src/ExoKey/dfu_req_handling.c:499-1110 | a request marks a bank without a signature that verifies if and only if it is a data EXECUTE without a valid init packet and with no size announced, whose settings write succeeds and which accepts the empty image for such a packet, in a bank not marked just so already |
| DfuProtocol.ExecuteBanks | Firmware/Bootloader/Src/ExoKey/dfu_req_handling.c:499-650 | data EXECUTE marks the current bank exactly when it accepts, and else only invalidates |
| DfuProtocol.WhenMarkFails | Firmware/Bootloader/Src/ExoKey/dfu_req_handling.c:928-946 | a request opens an object under a bank that stays marked valid if and only if bank 1 is current and marked; bank 0 is unmarked first |
| DfuProtocol.MarksStand | Firmware/Bootloader/Src/ExoKey/dfu_req_handling.c:886-1110 | over every run that opens no object while bank 1 is current and marked, nothing is opened since a bank was marked |
| DfuProtocol.CreatedAgain | Firmware/Bootloader/Src/ExoKey/dfu_req_handling.c:928-946 | an instance: the image accepted into bank 1, created once more, leaves the bank marked |
| DfuProtocol.EventMarksSigned | Firmware/Bootloader/Src/ExoKey/dfu_req_handling.c:353-1110 | the same for one request |
| DfuProtocol.FirstBootloaderIsNewer | Firmware/Bootloader/Src/ExoKey/dfu_req_handling.c:294-635 | over every run from power-up, without assumption, an image accepted under a valid init packet stores its version, and if it is the first accepted under that packet and holds a bootloader, the bootloader version strictly increases |
| DfuProtocol.PostvalidateVersions | Firmware/Bootloader/Src/ExoKey/dfu_req_handling.c:619-638 | validation stores the packet's version exactly when it accepts, and only for the kind of image that has it |
| DfuProgress.HonestUpdateCompletes | Firmware/Bootloader/Src/ExoKey/dfu_req_handling.c:738-1132 | from any state that requests can lead to, and with no failing call: every request of an honest update, the init command and then the image, is answered with success, and the image is accepted in the current bank with its length, CRC and the mark of its kind |
| DfuProgress.HonestCommandIsAccepted | Firmware/Bootloader/Src/ExoKey/dfu_req_handling.c:745-852 | an init command in whatever pieces, holding a signed packet of a known kind for this device, new enough, announcing a size there is room for, is accepted from any state and put in force |
| DfuProgress.HonestImageIsAccepted | Firmware/Bootloader/Src/ExoKey/dfu_req_handling.c:886-1111 | with an init packet in force and no object executed, any image of the announced size and hash, cut into objects of whole pages but the last and writes of 1 to 128 bytes, is answered with success throughout and accepted |
| DfuProgress.ObjectsSucceed | Firmware/Bootloader/Src/ExoKey/dfu_req_handling.c:886-1111 | every object before the last one is created, written and executed with success, and the executed objects are then those sent so far |
| DfuProgress.WritesSucceed | Firmware/Bootloader/Src/ExoKey/dfu_req_handling.c:955-1070 | writes that together fit the open object are all accepted and received, up to and including its last byte |
| DfuProgress.WantedIsAccepted | Firmware/Bootloader/Src/ExoKey/dfu_req_handling.c:237-490 | a wanted packet, described by the kind of image and without the functions of the checks, passes them all |
| DfuProtocol.AcceptanceMarks | Firmware/Bootloader/Src/ExoKey/dfu_req_handling.c:527-650 | for every data EXECUTE that accepts: the mark of the current bank is that of the kind of image; the other bank stays, but an application in bank 0 is given up for a new one, or for a SoftDevice of another major version; the SoftDevice size is stored exactly for images that hold one |
| DfuProtocol.RefusalClears | Firmware/Bootloader/Src/ExoKey/dfu_req_handling.c:527-655 | a complete image that is refused empties the current bank and leaves versions, sizes and the other bank, but for a SoftDevice of another major version |
| DfuProtocol.WhenPacketInForce | Firmware/Bootloader/Src/ExoKey/dfu_req_handling.c:738-852 | an init packet comes into force if and only if a command received in full holds a signed packet that passes prevalidation and the settings are written; it goes out of force if and only if a new command is created |
| DfuProtocol.WhereItGoes | Firmware/Bootloader/Src/components/libraries/bootloader/dfu/nrf_dfu_utils.c:558-643 | an accepted packet's image fits the region from its start, which is a page boundary; bank 1 is taken if and only if bank 0 holds a valid application with room behind it, which is then kept whole |
| DfuProtocol.WhatIsAnnounced | Firmware/Bootloader/Src/ExoKey/dfu_req_handling.c:393-463 | the announced size is the one the packet gives for its kind of image, and a bootloader fits its room |
| DfuProtocol.EventKeepsPlace | Firmware/Bootloader/Src/ExoKey/dfu_req_handling.c:738-1132 | every request keeps an image that goes behind a valid application behind it |
| Crc32.FoldConcat | Firmware/Bootloader/Src/components/libraries/crc32/crc32.c:51-58 | the checksum loop over a concatenation is the loop over its parts |
| Crc32.CrcContinues | Firmware/Bootloader/Src/components/libraries/crc32/crc32.c:46-61 | a checksum continued piece by piece, through both complements, is that of the whole |
| Crc32.BitStepXor | Firmware/Bootloader/Src/components/libraries/crc32/crc32.c:53-57 | the bit step is linear in exclusive or |
| Crc32.OnlyBitStep | Firmware/Bootloader/Src/components/libraries/crc32/crc32.c:53-57 | every linear function that halves even words and takes one to the polynomial of CRC-32 is the bit step |
| Crc32.FoldWord | Firmware/Bootloader/Src/components/libraries/crc32/crc32.c:51-58 | the loop over the four bytes of a word, the lowest first, is thirty-two bit steps over the word |
| Crc32.MessageWithChecksum | Firmware/Bootloader/Src/components/libraries/crc32/crc32.c:46-61 | a message followed by its checksum has the same checksum whatever the message |
| FlashTrace.AsyncRefinesSync | Firmware/Bootloader/Src/ExoKey/dfu_req_handling.c:89-103 | whatever is done to buffers and flash, and whenever operations complete, in order and each store before the fourth swap after it, the flash ends up as if each had completed at once |
| FlashTrace.EventAgrees | Firmware/Bootloader/Src/ExoKey/dfu_req_handling.c:89-103 | one request or one completion keeps that agreement |
| FlashTrace.FillAgrees | Firmware/Bootloader/Src/ExoKey/dfu_req_handling.c:986-1003 | filling the current buffer does not disturb any store still under way |
| FlashTrace.FlushAgrees | Firmware/Bootloader/Src/ExoKey/dfu_req_handling.c:1009-1029 | a new store with its swap keeps every older store on a buffer that is not the current one |
| FlashTrace.SwapAgrees | Firmware/Bootloader/Src/ExoKey/dfu_req_handling.c:93-98 | so does a swap alone |
| FlashTrace.CompleteAgrees | Firmware/Bootloader/Src/components/libraries/bootloader/dfu/nrf_dfu_flash.c:121-161 | the oldest operation completing changes nothing about where things end |
| FlashTrace.NoCellTwice | Firmware/Bootloader/Src/ExoKey/dfu_req_handling.c:1010-1053 | stores that continue where the last one ended program each erased cell at most once |
| FlashTrace.ErasedCellTakes | Firmware/Bootloader/Src/components/libraries/bootloader/dfu/nrf_dfu_flash.c:121-140 | programming clears bits only, and an erased cell takes the byte |
| FlashWriter.Writer.FillBuffer | Firmware/Bootloader/Src/ExoKey/dfu_req_handling.c:989-1001 | the copy into one of the four buffers in their common block changes that buffer and no other |
| FlashWriter.Writer.SwapBuffers | Firmware/Bootloader/Src/ExoKey/dfu_req_handling.c:93-98 | the swap takes the next buffer, cyclically |
| FlashWriter.Writer.EraseFlash | Firmware/Bootloader/Src/components/libraries/bootloader/dfu/nrf_dfu_flash.c:143-161 | exactly the cells asked for are erased, or none |
| FlashWriter.Writer.FlushBuffer | Firmware/Bootloader/Src/components/libraries/bootloader/dfu/nrf_dfu_flash.c:121-140 | exactly the first bytes of the current buffer are programmed, or none; then the buffers swap |
| EsQueue.Queue.constructor | Firmware/AppBase/Src/Libraries/ES_Queue.c:50-61 | an initialised queue is empty whatever its buffer held |
| EsQueue.Queue.Write | Firmware/AppBase/Src/Libraries/ES_Queue.c:66-103 | the queue becomes what the drop-oldest FIFO answers to the same frame; Overlap is set exactly if a frame was dropped, Cycle exactly if the index went round; an empty frame fails and changes nothing |
| EsQueue.Queue.Read | Firmware/AppBase/Src/Libraries/ES_Queue.c:108-148 | hands over the oldest frame byte for byte across the wrap, touches nothing behind it in the destination, fails exactly if the queue is empty, and reports Cycle exactly if the index went round |
| EsQueue.Queue.CopyFrame | Firmware/AppBase/Src/Libraries/ES_Queue.c:131-135 | the payload loop copies exactly the frame, wherever it wraps |
| EsQueue.Queue.ClearAll | Firmware/AppBase/Src/Libraries/ES_Queue.c:168-177 | clears content, counters and buffer |
| EsQueue.Queue.Next | Firmware/AppBase/Src/Libraries/ES_Queue.c:182-194 | the next index and whether it wrapped |
| EsQueue.Queue.PreventOverlap | Firmware/AppBase/Src/Libraries/ES_Queue.c:196-225 | exactly when the ring is full, the read index jumps over the whole oldest frame, even one whose length bytes straddle the wrap, and the counters follow |
| EsQueue.Queue.PutByte | Firmware/AppBase/Src/Libraries/ES_Queue.c:80-94 | one byte of a frame in the making, with the at most one eviction it needs |
| EsQueue.OldestFrame | Firmware/AppBase/Src/Libraries/ES_Queue.c:201-218 | when the indices meet in the middle of a write, the cells there are the oldest frame's length, and the ring behind that frame still holds the others and the part written |
| EsQueue.HeldFrame | Firmware/AppBase/Src/Libraries/ES_Queue.c:122-137 | the ring holds the oldest frame cell by cell across the wrap, and the others behind it |
| EsQueue.EmptyWhenMet | Firmware/AppBase/Src/Libraries/ES_Queue.c:116-116 | the indices are equal if and only if the queue is empty |
| EsQueue.CountersBalance | Firmware/AppBase/Src/Libraries/ES_Queue.c:97-138 | frames written are frames read, plus the element counter, plus the overlap counter until that goes round |
| FrameFifo.PushDropsShortestPrefix | Firmware/AppBase/Src/Libraries/ES_Queue.c:66-103 | a write keeps all frames but the shortest prefix of oldest ones whose removal makes room, then the new frame |
| FrameFifo.EvictIsShortest | Firmware/AppBase/Src/Libraries/ES_Queue.c:196-225 | dropping any fewer frames would not make room |
| FrameFifo.EvictStepwise | Firmware/AppBase/Src/Libraries/ES_Queue.c:80-93 | making room byte by byte, as the code does, drops the same frames as making room at once |
| FrameFifo.PushConsistent | Firmware/AppBase/Src/Libraries/ES_Queue.c:66-103 | a write invents, reorders and silently loses nothing |
| FrameFifo.PopConsistent | Firmware/AppBase/Src/Libraries/ES_Queue.c:108-148 | nor does a read |
| FrameFifo.RunConserves | Firmware/AppBase/Src/Libraries/ES_Queue.c:66-225 | over every run since a clear: written = read + held + dropped, in order, within capacity, and all of them if nothing was dropped |
| FrameFifo.RunConsistent | Firmware/AppBase/Src/Libraries/ES_Queue.c:66-225 | the history of every run is exactly the frames written |
| ChunkedSender.BytesAreConserved | Firmware/AppBase/Src/BLE/BLE_Uart.c:184-433 | in every run: bytes handed to the stack, then of the message under way, then queued, are the accepted messages in call order less those the queue dropped |
| ChunkedSender.AcceptedIsSubmitted | Firmware/AppBase/Src/BLE/BLE_Uart.c:184-433 | over every run, the accepted messages are those of ready callers since the last reset: whole if the call was answered with success or RESOURCES, an empty one behind a waiting message aside, and of one the stack failed the chunks before the failure |
| ChunkedSender.StepTakes | Firmware/AppBase/Src/BLE/BLE_Uart.c:184-433 | the same for one event, and what it does to the link |
| ChunkedSender.ReturnedTells | Firmware/AppBase/Src/BLE/BLE_Uart.c:184-245 | success means out or last in the queue behind a waiting message, RESOURCES that the rest of the message waits, another answer how far the stack took it; not ready means nothing changed |
| ChunkedSender.Step | Firmware/AppBase/Src/BLE/BLE_Uart.c:184-433 | every handler keeps the ledger, and an unlocked sender has nothing waiting |
| ChunkedSender.SendConserves | Firmware/AppBase/Src/BLE/BLE_Uart.c:184-245 | a call keeps the ledger whatever the stack answers, a message that waits counted as accepted |
| ChunkedSender.QueueUpConserves | Firmware/AppBase/Src/BLE/BLE_Uart.c:238-242 | queueing behind a waiting message keeps call order, less what the queue drops |
| ChunkedSender.ResumeConserves | Firmware/AppBase/Src/BLE/BLE_Uart.c:324-393 | resuming keeps the ledger |
| ChunkedSender.ResumeSendsPrefix | Firmware/AppBase/Src/BLE/BLE_Uart.c:324-393 | a TX-complete hands over the longest prefix of the owed chunks that the stack takes, and ends unlocked with everything out or locked on the refused chunk |
| ChunkedSender.ChunksJoin | Firmware/AppBase/Src/BLE/BLE_Uart.c:207-226 | the chunks of a message are not empty, not longer than the segment size, and join to the message |
| ChunkedSender.SplitPrefix | Firmware/AppBase/Src/BLE/BLE_Uart.c:207-232 | the chunks that went out before an error are the chunks of what went out |
| ChunkedSender.ResetConserves | Firmware/AppBase/Src/BLE/BLE_Uart.c:426-433 | a reset sender is unlocked with an empty queue |
| ChunkedSender.ResizeConserves | Firmware/AppBase/Src/BLE/BLE_Uart.c:247-254 | cutting a waiting message anew, of which nothing was sent, keeps the ledger |
| BleUart.BleUart.SendBuffer | Firmware/AppBase/Src/BLE/BLE_Uart.c:184-245 | the call does to buffer, stack and queue what the abstract sender does, and which code it returns |
| BleUart.BleUart.Start | Firmware/AppBase/Src/BLE/BLE_Uart.c:196-237 | the unlocked branch |
| BleUart.BleUart.SendFirst | Firmware/AppBase/Src/BLE/BLE_Uart.c:207-232 | the transmit loop hands over exactly the chunks before the first refusal, locks exactly on RESOURCES, and leaves the segment index on the first chunk not sent |
| BleUart.BleUart.SendSegment | Firmware/AppBase/Src/BLE/BLE_Uart.c:211-226 | one turn sends the chunk at the segment index and advances only if the stack took it |
| BleUart.BleUart.OnTxComplete | Firmware/AppBase/Src/BLE/BLE_Uart.c:324-393 | the loop terminates and does what the abstract sender's resumption does |
| BleUart.BleUart.SendPending | Firmware/AppBase/Src/BLE/BLE_Uart.c:350-374 | a turn with a chunk left |
| BleUart.BleUart.TakeQueued | Firmware/AppBase/Src/BLE/BLE_Uart.c:375-386 | a turn that takes up the next queued message, or unlocks if there is none |
| BleUart.BleUart.Reset | Firmware/AppBase/Src/BLE/BLE_Uart.c:426-433 | drops everything and unlocks |
| BleUart.BleUart.OnConnect | Firmware/AppBase/Src/BLE/BLE_Uart.c:263-266 | connection |
| BleUart.BleUart.OnNotificationWrite | Firmware/AppBase/Src/BLE/BLE_Uart.c:281-318 | the peer switches notifications |
| BleUart.BleUart.OnGattEvt | Firmware/AppBase/Src/BLE/BLE_Uart.c:247-254 | the segment size follows the MTU, by section 3.4.7.1 of Volume 3 Part F of the Bluetooth Core Specification, three bytes below it; a waiting message of which nothing was sent is cut anew |
| BleUart.SoftDevice.Notify | Firmware/AppBase/Src/BLE/BLE_Uart.c:459-474 | the stack keeps a chunk exactly if it answers success |
| BleUart.MtuChangeKeepsTail | Firmware/AppBase/Src/BLE/BLE_Uart.c:247-254 | a new segment size leaves the unsent tail of a waiting message unchanged if and only if nothing of it was sent or the size is the old one |
| BleUart.ByteIsSkipped | Firmware/AppBase/Src/BLE/BLE_Uart.c:247-254 | an instance: a segment size of one changed to two after the first byte skips the second |
| RttRing.Ring.constructor | Firmware/AppBase/Src/RTT/SEGGER_RTT.c:477-493 | an initialised ring is empty |
| RttRing.Ring.Write | Firmware/AppBase/Src/RTT/SEGGER_RTT.c:297-359 | stores all or nothing in SKIP mode and what fits in TRIM mode, for the room there was when the firmware looked; terminates in at most two copies; every stored byte is read once, in order, however the host moves |
| RttRing.Ring.StoreAll | Firmware/AppBase/Src/RTT/SEGGER_RTT.c:339-356 | the write loop stores exactly the bytes it was given room for, each turn making progress |
| RttRing.Ring.StoreChunk | Firmware/AppBase/Src/RTT/SEGGER_RTT.c:348-355 | a chunk becomes visible only when it is complete, behind everything stored |
| RttRing.Ring.Publish | Firmware/AppBase/Src/RTT/SEGGER_RTT.c:352-355 | moving the write offset behind a chunk stores it, though the host may act between the two assignments that wrap the offset |
| RttRing.Ring.CopyIn | Firmware/AppBase/Src/RTT/SEGGER_RTT.c:346-348 | copying in, with the host reading before each byte, touches no unread byte |
| RttRing.Ring.Read | Firmware/AppBase/Src/RTT/SEGGER_RTT.c:230-276 | removes exactly the first min(requested, held) bytes, in order, while the host may store before every byte |
| RttRing.Ring.CopyRuns | Firmware/AppBase/Src/RTT/SEGGER_RTT.c:238-270 | the two copies take the first min(requested, held) bytes and end behind them |
| RttRing.Ring.CopyOut | Firmware/AppBase/Src/RTT/SEGGER_RTT.c:244-270 | copying out yields the oldest bytes in spite of the host storing meanwhile |
| RttRing.Ring.Release | Firmware/AppBase/Src/RTT/SEGGER_RTT.c:271-273 | the bytes copied out, and no others, are given back |
| RttRing.Ring.HostReads | Firmware/AppBase/Src/RTT/SEGGER_RTT.c:341-342 | what the host may do to an up-buffer: take any number of the bytes there |
| RttRing.Ring.HostReadsAtEnd | Firmware/AppBase/Src/RTT/SEGGER_RTT.c:352-354 | what the host may do between the two assignments: take any number of the bytes there |
| RttRing.Ring.LooksFull | Firmware/AppBase/Src/RTT/SEGGER_RTT.c:352-354 | what it must not do there: between the two assignments the offsets show the unread bytes if and only if there are any, else a whole buffer of old ones |
| RttRing.Ring.HostStores | Firmware/AppBase/Src/RTT/SEGGER_RTT.c:238-239 | what the host may do to a down-buffer: store what there is room for |
| FormatSpec.FormatRoundTrip | Firmware/AppBase/Src/RTT/SEGGER_RTT_printf.c:100-243 | the text of a number reads back as the number, with sign, and has exactly max(width, sign + max(precision, digits)) characters, for every base up to 16 and every flag combination |
| FormatSpec.FlagsDecideText | Firmware/AppBase/Src/RTT/SEGGER_RTT_printf.c:176-243 | of the text alone: a minus exactly for negative numbers, a plus exactly for others with the sign flag, once and before every digit; no leading space when left-justified, a digit at the end when not; no space when zero-padded, and else exactly max(precision, digits) digit characters; the width |
| FormatSpec.FlagsDecideUnsigned | Firmware/AppBase/Src/RTT/SEGGER_RTT_printf.c:100-170 | the same for unsigned numbers, which have no sign |
| FormatSpec.Alphabet | Firmware/AppBase/Src/RTT/SEGGER_RTT_printf.c:101-101 | the digit characters are 0 to 9 and A to F |
| FormatSpec.NumeralIsDigits | Firmware/AppBase/Src/RTT/SEGGER_RTT_printf.c:142-156 | the digits, most significant first, have the number as their positional value |
| FormatSpec.LayoutParses | Firmware/AppBase/Src/RTT/SEGGER_RTT_printf.c:124-243 | each of the three kinds of padding leaves the number readable and fills the field |
| FormatSpec.DigitCountCovers | Firmware/AppBase/Src/RTT/SEGGER_RTT_printf.c:113-117 | the digit count is the least that covers the number |
| RttPrintf.Descriptor.PrintUnsigned | Firmware/AppBase/Src/RTT/SEGGER_RTT_printf.c:100-170 | emits exactly the unsigned text, or after a refused flush a first part of it |
| RttPrintf.Descriptor.PrintInt | Firmware/AppBase/Src/RTT/SEGGER_RTT_printf.c:176-243 | emits exactly the signed text, no padding twice between the two functions, or a first part of it |
| RttPrintf.Descriptor.ActualWidth | Firmware/AppBase/Src/RTT/SEGGER_RTT_printf.c:113-120 | the width loop counts the digits and widens to the precision |
| RttPrintf.Descriptor.LeadingDivisor | Firmware/AppBase/Src/RTT/SEGGER_RTT_printf.c:142-144 | the divisor loop ends at the power of the leading digit, in 32-bit arithmetic |
| RttPrintf.Descriptor.StoreDigits | Firmware/AppBase/Src/RTT/SEGGER_RTT_printf.c:148-156 | the digit loop emits the digits and ends |
| RttPrintf.Descriptor.PadField | Firmware/AppBase/Src/RTT/SEGGER_RTT_printf.c:125-137 | the padding loop fills the field and leaves nothing to pad |
| RttPrintf.Descriptor.StoreSign | Firmware/AppBase/Src/RTT/SEGGER_RTT_printf.c:213-224 | the sign character |
| RttPrintf.Descriptor.StoreChar | Firmware/AppBase/Src/RTT/SEGGER_RTT_printf.c:75-94 | a character is staged once; a full buffer is flushed or kept whole; after a refusal nothing more is staged |
| RttPrintf.Descriptor.Empty | Firmware/AppBase/Src/RTT/SEGGER_RTT_printf.c:87-93 | a full buffer goes to the ring in one piece, or stays and the error is noted |
| RttPrintf.Descriptor.Print | Firmware/AppBase/Src/RTT/SEGGER_RTT_printf.c:349-394 | each directive emits its text |
| RttPrintf.Descriptor.Finish | Firmware/AppBase/Src/RTT/SEGGER_RTT_printf.c:396-405 | what the final write and the returned value are: the bytes beyond whole buffers are counted twice |
| RttPrintf.VPrintf | Firmware/AppBase/Src/RTT/SEGGER_RTT_printf.c:268-406 | in SKIP mode what the ring took is always a first part of the full text; a result that is no error is the length n plus n mod 64, which is the number of bytes taken if and only if n mod 64 is zero; texts under 64 characters never fail |
| RttPrintf.PrintOneCharacter | Firmware/AppBase/Src/RTT/SEGGER_RTT_printf.c:268-406 | an instance: one character printed returns two |
| RttPrintf.LeadingPowerFits | Firmware/AppBase/Src/RTT/SEGGER_RTT_printf.c:142-144 | the leading power fits a 32-bit divisor if and only if the precision is at most 10 in decimal, 8 in hexadecimal |
| RttPrintf.EnoughDigits | Firmware/AppBase/Src/RTT/SEGGER_RTT_printf.c:142-156 | the digit loop emits as many digits as the precision asks for, from some nonzero 32-bit divisor, if and only if the precision is at most 10 in decimal, 8 in hexadecimal; beyond, no divisor the wrapped products can end at gives the text of the number |
| RttPrintf.QuotientCount | Firmware/AppBase/Src/RTT/SEGGER_RTT_printf.c:148-156 | from any divisor, the digit loop makes as many turns as the divisor has digits |
| RttPrintf.QuotientsAreDigits | Firmware/AppBase/Src/RTT/SEGGER_RTT_printf.c:148-156 | from the power of the leading digit, its quotients are the digits |
| RttPrintf.ElevenDigitsFail | Firmware/AppBase/Src/RTT/SEGGER_RTT_printf.c:142-156 | an instance: zero with a precision of eleven gets ten digits |
| MantExp.Encode | Firmware/AppBase/Src/Libraries/Tool.c:159-203 | the encoder picks the least exponent whose range covers the number, or the maximum, rounds to the nearest mantissa and clips it, and packs the pair; without bits or coefficient it writes nothing |
| MantExp.ErrorWithinHalf | Firmware/AppBase/Src/Libraries/Tool.c:175-190 | the encoded value is within half a unit of the number if and only if the number is at most half a unit beyond the largest mantissa; always so below the largest exponent |
| MantExp.EncodeDecode | Firmware/AppBase/Src/Libraries/Tool.c:159-208 | encoded and decoded, for any coefficient, the result is at most half a unit above the number, and less than half a unit and one below it if the number is not out of range by more than half a unit; for a whole coefficient it is within half a unit if and only if that is so |
| MantExp.DecodesEncoded | Firmware/AppBase/Src/Libraries/Tool.c:205-208 | the decoder returns the encoded value, truncated |
| MantExp.InReachFits | Firmware/AppBase/Src/Libraries/Tool.c:175-190 | a number below the truncated threshold of an exponent needs no clipping there |
| MantExp.TableSuffices | Firmware/AppBase/Src/Libraries/Tool.c:175-189 | the encoder stays inside its table of powers, and does not divide by zero, if and only if the number is below the last threshold or the exponent field is small |
| MantExp.TableIsPowers | Firmware/AppBase/Src/Libraries/Tool.c:313-328 | the table holds the powers of ten, and zero is returned beyond it |
| MantExp.SmallerFallShort | Firmware/AppBase/Src/Libraries/Tool.c:175-189 | with any exponent smaller than the chosen one, the number is beyond the largest mantissa, or less than one power below it; beyond it for a whole coefficient |
| MantExp.TableOverrun | Firmware/AppBase/Src/Libraries/Tool.c:175-189 | an instance: 100000 with one bit of mantissa and three of exponent leads to a zero divisor |
| MantExp.UnpackPair | Firmware/AppBase/Src/Libraries/Tool.c:199-201 | the packed word gives the exponent back always, and the mantissa if and only if it is not shifted out |
| MantExp.TopBitIsLost | Firmware/AppBase/Src/Libraries/Tool.c:199-201 | an instance: a 25-bit mantissa beside an 8-bit exponent |
| MantExp.PackRoundTrip | Firmware/AppBase/Src/Libraries/Tool.c:199-201 | fields that fit the word together always come back |
| Scheduler.MarksAreSpaced | Firmware/AppBase/Src/Application/ModeManagement.c:272-307 | over every run with a non-decreasing clock and any reconfigurations: consecutive marks are at least the period in force at the later one apart, and no window is sent more often than marked |
| Scheduler.MarkedEveryPeriod | Firmware/AppBase/Src/Application/ModeManagement.c:272-307 | processed on every tick, an unchanged active timer window, whenever it was marked last or switched on, is marked first after at most period + 1 ticks, exactly when the truncated elapsed time says so, and from then on exactly every max(1, period) ticks |
| Scheduler.FirstReached | Firmware/AppBase/Src/Application/ModeManagement.c:290-300 | the first mark comes at the tick at which the truncated elapsed time first reaches the period |
| Scheduler.EveryMarkIsSent | Firmware/AppBase/Src/Application/ModeManagement.c:309-342 | over every run in which payloads can be built, there are as many transmissions as marks and nothing stays due |
| Scheduler.DueUntilSent | Firmware/AppBase/Src/Application/ModeManagement.c:309-342 | a marked window stays due until it is sent |
| Scheduler.DueIsSentWithAny | Firmware/AppBase/Src/Application/ModeManagement.c:309-342 | a due window whose payload can be built is sent as soon as any window is marked |
| Scheduler.SwitchedOnLate | Firmware/AppBase/Src/Application/ModeManagement.c:288-300 | an instance: a 100-second window switched on at second 65536 is overdue and not marked one second later, but at 65636 |
| Scheduler.MarksAreTimely | Firmware/AppBase/Src/Application/ModeManagement.c:283-300 | over every run with processes at most a gap apart, through every reconfiguration and switching off and on: from its first mark, for as long as the window stays an active timer window and period and gap together stay within 65536 seconds, each process marks it exactly if it is overdue, and leaves it not overdue |
| Scheduler.GapBound | Firmware/AppBase/Src/Application/ModeManagement.c:288-300 | that bound is exact: a window not overdue at one process is marked rightly at the next, whatever their distance up to the gap, if and only if period plus gap is at most 65536 |
| Scheduler.MissedAfterWrap | Firmware/AppBase/Src/Application/ModeManagement.c:288-300 | an instance: a one-second window processed again after 65536 seconds |
| Scheduler.LastRecordDecides | Firmware/AppBase/Src/Application/ModeManagement.c:141-205 | of several records for a window the last one alone decides, and being due survives configuration |
| Scheduler.RecordRoundTrip | Firmware/AppBase/Src/Application/ModeManagement.c:164-196 | a record built by the peer, the high byte of the period first, configures exactly its fields, and activates the window exactly if it holds a command |
| Scheduler.RecordOfBytes | Firmware/AppBase/Src/Application/ModeManagement.c:164-196 | an instance: what five bytes off the air configure |
| Scheduler.ModeManagement.constructor | Firmware/AppBase/Src/Application/ModeManagement.c:80-100 | all windows start inactive, not due and unmarked |
| Scheduler.ModeManagement.BleFrameCfg | Firmware/AppBase/Src/Application/ModeManagement.c:141-205 | a configuration frame is applied record by record, or refused as a whole |
| Scheduler.ModeManagement.FrameProcess | Firmware/AppBase/Src/Application/ModeManagement.c:272-344 | one process does to each window what its own timer does, coupled only through whether any was marked |
| Scheduler.ModeManagement.MarkDue | Firmware/AppBase/Src/Application/ModeManagement.c:286-307 | the marking loop |
| Scheduler.ModeManagement.SendDue | Firmware/AppBase/Src/Application/ModeManagement.c:309-342 | the sending loop sends every due window whose payload can be built, also those marked earlier |

## Left out

- DfuHandler.Handler.constructor: starts without progress; resuming a stored update after a reset (`nrf_dfu_req_handler_init`) is not modelled.
- DfuHandler.Handler.OnReq: flash operations complete on return; completion later is the subject of `LateCompletionIsTheSame`, where a store and the swap that always follows it are one step. Addresses are not cut to 32 bits: the flash is an array from address 0, and an operation outside it fails.
- DfuHandler.Handler.Prevalidate: signature, SHA-256 and protobuf decoding are functions of the environment, and the debug-build branches are not modelled. `sd_size` and `fw_version` of fields that are absent read as zero.
- DfuProtocol.VersionsNeverDecrease: assumes that no data EXECUTE comes with neither a valid init packet nor an announced size; `WhenVersionsDrop` says exactly what happens otherwise.
- DfuHandler.Handler.DataExecute: the delivery result is for images whose objects were in step with the flash when they were executed.
- EsQueue.Queue.Write: frames with length + 2 not below the buffer size are excluded, as their own bytes would run into each other; the semaphore is not modelled, each operation is one step.
- BleUart.BleUart.SendBuffer: messages longer than the 255-byte transmit buffer are excluded, as the code copies without a check; interrupts between the statements of a handler are not modelled.
- BleUart.BleUart.OnGattEvt: no change of segment size once a part of a waiting message has been sent; `MtuChangeKeepsTail` says that such a change would alter what is still sent. MTUs of 3 and below are excluded.
- RttRing.Ring.Write: the blocking mode is not modelled, as it ends only if the host reads. Between the two assignments that wrap the write offset the host reads what is there, but does not look again once it has read everything; `LooksFull` says why.
- RttPrintf.VPrintf: takes the list of directives that parsing a format string yields; the parser and its length modifiers are not modelled.
- RttPrintf.Descriptor.PrintInt: excludes the least integer, whose negation overflows, and precisions beyond those of `EnoughDigits`, where no text of the number comes out.
- MantExp.Encode: exact arithmetic instead of single-precision floats; numbers outside the power table are excluded, `TableSuffices` says which; field widths of 32 bits and more are excluded, as the shifts are undefined. Combining mantissa and exponent by OR is a sum, as their bits are disjoint.
- Scheduler.ModeManagement.FrameProcess: building and sending a payload is a success or failure per window; waking of sensors and the random delay are not modelled.
- Scheduler.MarksAreSpaced: assumes the clock is not set back.
- The three-byte configuration frames of `u8ModeMngt_FrameCfg`, sleep and motion handling.
- Timers, transport, reset and logging around the update handler.
- BT_Interface.c and CC430_Interface.c, whose protocol library is not part of this model.
- Battery percentage, GPS and string helpers, HAL drivers, sensor management, SoftDevice wrappers, generated and configuration files: hardware access or easy members only.
