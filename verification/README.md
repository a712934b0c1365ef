# Verified model of the gateway firmware

Dafny proofs about the logic of an STM32 gateway: its configuration store, its signed firmware images
and boot choice, its update path over TFTP, its process-data-to-MQTT router, and the arithmetic
underneath (CRC, decimal version numbers, CAN bit timing, CAN transmit bookkeeping).
`dafny verify dfyconfig.toml` checks the whole project (Dafny 4.11).

The model follows the source's own form. What the firmware updates in place is a class with the same
fields (`Flash`, `CrcUnit`, `Emitter`, `ConfigStore`, `FwInfo`, `FileServer`, `Connection`, `Preldr`,
`LdrLoop`, `MqttQueue`, `RouteTable`, `Can`, `CanModule`); loops are loops; what a method does is tied to
a function or relation on values, and the theorems are about those.

| files | subject |
|---|---|
| `Bytes`, `CrcTable`, `Crc` | machine integers; bitwise CRC, its 256-entry table, the device's CRC unit and the host's loops |
| `Flash`, `Layout` | the eight sectors, NOR cells, the writer with its erase flags; every erase and program is traced as one operation |
| `ConfigFormat`, `ConfigSpec`, `ConfigEmitter`, `ConfigStore`, `ConfigTheorems` | the stored format as a grammar, the byte-at-a-time parser, the flush buffer, write, merge, validate, read |
| `Decimal`, `FwFields`, `FwHeader`, `FwImages` | version numerals, the field block, the region check, the three images and their locks |
| `Sign`, `SignTheorems`, `EndToEnd`, `Gateway` | the host tool, and what the device makes of its output: locks, versions and downloads, in the build's numbers and names |
| `Boot`, `Update`, `Tftp`, `Upload` | the preloader, the file callbacks, the transfer protocol, an upload from the first packet to the lock of the image |
| `NeverBricked`, `LdrLayout` | runs of the whole device with power loss, and the exact condition on the loader's layout |
| `Mqtt`, `Router` | the 64-slot ring and the route table |
| `CanTiming`, `CanTx` | the bit timing search and the transmit counter |

## Where the code falls short of the plain claim

Each of these is proved with the exact condition under which the claim holds.

- **Application size limit.** The build signs the application with the limit 393216, its whole region
  (`Makefile:134-140`), but the device looks for the field block only up to 401 bytes before the end of the flash
  (`common/fw_header/fw_headers_variables.c:37`). A signed image passes the check if and only if its
  field block ends within the checked size (`SignThenCheck`, `SignedUpdate`); `LimitTooLarge` gives an
  image that is signed without complaint and locked on every device.
- **Block number wrap.** A TFTP transfer from a sender that does not abort and that closes normally has
  delivered the whole file if and only if the file has at most 65535 * 512 bytes (`CloseIsDelivery`), and
  every file has such a run (`CloseIsReachable`): the receiver compares a counter that does not wrap with a
  16-bit number. The firmware regions are far smaller.
- **Aborted transfers.** The server does not look at the opcode on an open connection, so an ERROR packet
  counts as a short block and closes it, or as a full one if it is long, and its message is written if its code happens
  to be the next block number (`TransferSafe`). Every file has a run in which such a close is not a delivery
  (`AbortCloses`, and `LongAbortCloses` for a long packet); `CloseIsDelivery` gives the exact condition: that
  the message is the rest of the file, or that nothing was written and no data was missing.
- **Version numerals.** Ten-digit numerals from 2^32 on are rejected as 0 only below 5 * 10^9 and in one
  more interval; `ParseExactness` gives the exact set.
- **Transmit counter.** In a run the 16-bit counter covers the full buffers in every state if and only if
  it never wraps (`RunCovered`). A run that wraps it to zero with a buffer full exists (`RunToWrap`), and then no
  interrupt sends the waiting message (`WrappedIsStuck`).
- **Each message once.** A message that the driver takes at once while the counter is not zero is put to wait as
  well, and goes out a second time (`SentTwice`). Over a run the messages of a buffer that went out, were lost or
  still wait add up to those sent if and only if this never happens (`EachOnce`).
- **Status of an upload.** Both write callbacks answer the final, empty call with the lock of the
  *loader*, also when the application was written (`ldr/tftp_server_callback.c:13`); the server ignores the answer.
  It is the lock of the written image if and only if that is the loader or the two locks are equal (`AnswerIsOwn`); from a
  loader that is itself in order, if and only if the application is unlocked (`AnswerOfLoader`). `WrongAnswer` is an
  application that is always too small, and the answers a good and a blank loader give to it.
- **Layout of the loader.** A running loader can take the gateway to the preloader's halt loop by writes it is made for
  if and only if it does not lie inside its region, field block included (`LayoutIsExact`). The check does not look
  at that; it is the limit given to the host tool that sees to it, and 49152 is exactly the right one (`LimitIsExact`).
  `LongLoader` is a gateway that a larger limit lets go wrong.

## Assumptions

- The linker's regions are those of `ldscript/memory.ld`; the header offset is 0x190.
- `NeverBricked` starts from a signed preloader in its region and a valid loader or application
  (`AssembledGateway` shows this of what the build assembles), and assumes that a loader the preloader
  jumps to lies inside its own region, field block included, as the host tool lays images out
  (`SignedUpdate` shows this of every completely received signed loader). `LayoutIsExact` shows that no less would do.
  Nothing is assumed of the application.
- Flash and CRC hardware are abstract: a sector erase or byte program may fail and then leaves unknown
  content in that sector or byte. The retained load source may be lost at a reset.
- Inputs that come from outside (packets, driver answers, lwIP's acceptance, elapsed time, hardware faults)
  are parameters or arbitrary choices.
- Sizes are within the memory of the device: the configuration table has at most 8192 rows; the host
  tool's file and arguments stay below 2^31 bytes.

## Model

| member | source | states |
|---|---|---|
| Bytes.LittleEndian | common/config_system/config_system.c:324-346 | a stored 32-bit word has its lowest byte first |
| CrcBits.BitStepByCases | sign/sign.c:13-79 | the bit step is the shift-and-add step of polynomial 0x04C11DB7 |
| CrcTable.TableStep | sign/sign.c:13-79 | one lookup in the 256-entry table is eight bit steps, for every 32-bit state |
| Crc.EthWord | sign/sign.c:100-103 | four lookups take a word into the state as 32 bitwise steps do |
| Crc.Crc32Eth | sign/sign.c:86-107 | the table-driven loop computes the bitwise CRC of all whole words |
| Crc.Crc32EthEnd | sign/sign.c:130-150 | continues from any state as the bitwise CRC does |
| Crc.StartThenEnd | sign/sign.c:109-150 | starting on one word-aligned piece and ending on the next gives the CRC of their concatenation |
| Crc.OneByteDetected | common/crc/crc.c:5-38 | changing one byte of a whole word always changes the CRC |
| Crc.CrcUnit.Start | common/crc/crc.c:17-27 | reset, then exactly the words of the data fed; the register is their CRC |
| Crc.CrcUnit.End | common/crc/crc.c:29-38 | feeds exactly the words of the data to a unit in any state |
| Crc.CrcUnit.Crc32 | common/crc/crc.c:5-15 | the one-shot form equals the host's CRC |
| FlashMemory.SectorsPartition | common/platform.c:14-23 | every flash address lies in exactly one of the eight sectors, and no other address in any |
| FlashMemory.FindSector | common/platform.c:25-35 | the sector of an address, -1 exactly outside all of them |
| FlashMemory.Flash.EraseFlagReset | common/platform.c:37-43 | all erase flags are down afterwards |
| FlashMemory.Flash.Write | common/platform.c:54-95 | on success exactly the written bytes, 0xFF elsewhere in sectors met for the first time, all else unchanged; in the trace of operations a sector is erased exactly once when its flag rises and else never; every operation stays in sectors the range meets; answers 2 or 4 exactly after a hardware fault, 5 only where a byte was programmed over an unfit one |
| FlashMemory.ProgrammingClears | common/platform.c:78-89 | programming never sets a bit, and repeating it changes nothing |
| FlashMemory.SessionErases | common/platform.c:66-76 | over any number of writes between two flag resets, failed ones included, a sector is erased at most once: once if its flag is up, else not at all |
| FlashMemory.WrittenAppend | common/platform.c:54-95 | consecutive writes add up to one write of the concatenation |
| FlashMemory.SessionContents | common/platform.c:54-95 | after any sequence of successful writes every byte is the last one written there, 0xFF elsewhere in touched sectors, unchanged in the others |
| FlashMemory.FlagsAreTouched | common/platform.c:66-76 | exactly the touched sectors carry the erase flag |
| FlashMemory.FreshBytesNeverClash | common/platform.c:66-89 | a byte that no earlier write of the session covered can be programmed to any value |
| FlashMemory.ReadBack | common/platform.c:54-102 | what a successful write put down, and any part of it, is read back exactly, unless the part ends with the last byte of the flash, which no read can reach |
| ConfigFormat.Streaming | common/config_system/config_system.c:271-311 | feeding any split of a stream gives the status, parser state and addresses of one call on the whole |
| ConfigFormat.Acceptance | common/config_system/config_system.c:271-311 | a stream is accepted between entries exactly when it is a sequence of entries and zero bytes between them |
| ConfigFormat.RefusedText | common/config_system/config_system.c:271-311 | the parser answers KEY_LONG exactly if after some entries comes a key of 32 bytes without an end, LENGTH_DATA_ZERO exactly if one with size zero, and nothing else |
| ConfigFormat.Explain | common/config_system/config_system.c:271-311 | whatever the parser takes without error is the print of items, with at most one unfinished |
| ConfigFormat.FeedPrint | common/config_system/config_system.c:271-311 | parsing the print of any items finds each entry's key, length and absolute value offset |
| ConfigFormat.FoundInside | common/config_system/config_system.c:257-269 | every recorded value lies inside the stream |
| ConfigStore.ConfigStore.ParseData | common/config_system/config_system.c:271-311 | the loop over the bytes is the parser function, and records each found address in the table |
| ConfigEmitter.Emitter.FlushOut | common/config_system/config_system.c:39-55 | a full buffer goes to flash and CRC unit; flash prefix and buffer are everything emitted, the CRC unit has consumed exactly the flushed prefix; it fails only if a flash operation failed in hardware |
| ConfigEmitter.Emitter.FlushDataCalcCrc | common/config_system/config_system.c:39-55 | the same for any data handed over, buffer boundaries included; out of bounds exactly beyond the region |
| ConfigEmitter.OnlyItsSector | common/config_system/config_system.c:39-55 | operations within the configuration region are within sector 4 |
| ConfigStore.ConfigStore.WriteNative | common/config_system/config_system.c:62-126 | on success the store holds exactly the native entries; every refusal has its status and touches nothing |
| ConfigStore.ConfigStore.WriteMerged | common/config_system/config_system.c:128-253 | on success the store holds the old entries whose keys are not native, in order and unchanged, then the native ones |
| ConfigStore.ConfigStore.ConfigWriteStorage | common/config_system/config_system.c:62-255 | both paths and all error statuses; with keys of 1 to 30 bytes and sizes from 1, a save answers OK exactly if no flash operation of the call failed in hardware and 8 plus the sum of key, 3 and size over kept and native entries, rounded up to four, is at most 65536, and STORAGE_OUT_OF_BOUNDS exactly beyond; otherwise the first bad row decides; every flash operation is inside the configuration sector |
| ConfigStore.RefusalExactly | common/config_system/config_system.c:72-98 | when a save is refused, by the sums of the sizes and the first bad row |
| ConfigStore.StoredLayout | common/config_system/config_system.h:6-18 | what a save leaves in flash: size, entries, zeros up to a multiple of four, CRC of all that |
| ConfigStore.TextParts | common/config_system/config_system.h:15-18 | an entry's bytes: key, zero, size with the low byte first, value |
| ConfigStore.ConfigStore.ConfigValidate | common/config_system/config_system.c:318-369 | its status and the addresses it records, over the 32-byte loop |
| ConfigTheorems.ValidateAcceptance | common/config_system/config_system.c:318-369 | OK exactly when the size is legal, the CRC word matches and the payload is grammatical |
| ConfigTheorems.ValidateExactly | common/config_system/config_system.c:318-369 | every answer of a validation, from the size word, the CRC word and the text in flash |
| ConfigTheorems.DamagedText | common/config_system/config_system.c:336-344 | a store in which one byte between the size and the CRC has changed answers CRC_INVALID |
| ConfigTheorems.DamagedCrc | common/config_system/config_system.c:342-344 | so does one whose CRC word alone has changed |
| ConfigStore.ConfigStore.ConfigReadStorage | common/config_system/config_system.c:375-386 | copies each found value of matching size into its variable and no other |
| ConfigTheorems.HeldIsValid | common/config_system/config_system.c:62-126 | what a write leaves behind validates as OK and parses to exactly the entries written |
| ConfigTheorems.RoundTrip | common/config_system/config_system.c:62-386 | after a save, validate and read restore every variable's bytes, whatever the variables held in between |
| ConfigTheorems.ReadExactly | common/config_system/config_system.c:257-386 | after a validation and a read a variable has the value of the last stored entry under its key and of its size, and without one what it had |
| ConfigStore.SaveAndReload | app/console.c:217-253 | the round trip carried out by the code itself: save, clobber, validate, read |
| ConfigTheorems.MergeIdempotent | common/config_system/config_system.c:128-253 | merging twice stores the same content as merging once |
| ConfigTheorems.KeptAreForeign | common/config_system/config_system.c:128-253 | every entry that is kept belongs to another firmware: no native entry has its key |
| ConfigTheorems.KeptIsFilter | common/config_system/config_system.c:195-230 | exactly the entries under other keys are kept, in their order |
| FwFields.StrLenSafe | common/fw_header/fw_header.c:5-17 | length of a zero-terminated string in flash, with both error codes |
| FwFields.StrCompareEqualSafeTwoArg | common/fw_header/fw_header.c:28-39 | true exactly for equal non-empty strings |
| FwFields.StrCompareEqualSafeFirstArg | common/fw_header/fw_header.c:50-61 | the same against a string of the program |
| FwFields.FlashCheckRange | common/fw_header/fw_headers_variables.c:19-25 | valid exactly inside the flash, as long as the end does not wrap 32 bits |
| FwFields.StringsIff | common/fw_header/fw_header.c:63-98 | a region lists exactly the non-empty strings it begins with up to a double zero |
| FwFields.CountGrammar | common/fw_header/fw_header.c:63-98 | the count is n > 0 exactly when the region begins with 2n non-empty strings and one more zero |
| FwFields.CountCodes | common/fw_header/fw_header.c:63-98 | which regions give each of the error codes |
| FwFields.FwFieldsGetCount | common/fw_header/fw_header.c:63-98 | the counting loop, with its four error codes |
| FwFields.FwFieldsFindByKey | common/fw_header/fw_header.c:110-159 | the value of the least matching key, NULL if none |
| FwFields.FwFieldsFindByIterator | common/fw_header/fw_header.c:173-226 | key and value of a pair, found exactly below the count |
| FwFields.LookupByIterator | common/fw_header/fw_header.c:110-226 | lookup by key gives the value of the least index whose iterator key equals it, and fails exactly when no index matches |
| Decimal.CountDigits | common/canopendriver/CO_driver_app.c:25-34 | the number of digits of the numeral |
| Decimal.PrintNum | common/canopendriver/CO_driver_app.c:36-47 | writes the numeral and nothing else, or nothing when a terminator would not fit |
| Decimal.VersionString | common/canopendriver/CO_driver_app.c:75-82 | any three 32-bit numbers with dots fit the 33 bytes with a terminator |
| Decimal.VersionInjective | common/canopendriver/CO_driver_app.c:75-82 | the string determines the triple |
| Decimal.VersionParts | common/canopendriver/CO_driver_app.c:75-82 | major up to the first dot, minor between the dots, patch behind them |
| Decimal.VersionExample | common/canopendriver/CO_driver_app.c:75-82 | the characters of "1.20.3" |
| Decimal.PrintThenParse | common/fw_header/fw_header_utils.c:8-33 | every 32-bit number survives printing and parsing |
| Decimal.ParseExactness | common/fw_header/fw_header_utils.c:21-32 | which digit strings are read exactly, which are rejected as 0 and which wrap |
| FwHeader.GetUint32NumberFromStr | common/fw_header/fw_header_utils.c:8-33 | both loops over flash, range checks and 32-bit products included |
| FwHeader.PrintedNumberAt | common/fw_header/fw_header_utils.c:8-33 | a numeral stored in flash is read back as its number |
| FwHeader.NumberExactly | common/fw_header/fw_header_utils.c:8-33 | a string is a number exactly if it has one to ten characters, all digits; any other gives 0 |
| FwHeader.FwInfo.CheckRegion | common/fw_header/fw_header_utils.c:41-86 | the lock for every image, in the code's order of precedence, and the fields it fills in |
| FwHeader.FieldInMemory | common/fw_header/fw_header_utils.c:64-70 | a found product field points at a non-empty string of the block |
| FwImages.CheckAll | common/fw_header/fw_headers_variables.c:27-70 | the locks of the three images, product and name comparisons included, and their sizes, fields and versions |
| FwImages.UnlockedExactly | common/fw_header/fw_header_utils.c:41-70 | the check passes exactly for an image in flash with the right size and CRC and a block of fields that has both product keys |
| FwImages.LockExactly | common/fw_header/fw_header_utils.c:41-86 | every answer of the region check and its precedence, from header words, CRC and keys |
| FwImages.RegionCheckIsLocal | common/fw_header/fw_header_utils.c:41-86 | the check of an image contained in its region depends on the region's bytes only |
| FwImages.ImageLockIsLocal | common/fw_header/fw_headers_variables.c:27-70 | an unlocked image stays unlocked while its own bytes and the preloader's are the same |
| FwImages.AppIsContained | common/fw_header/fw_headers_variables.c:35-38 | an application that passes its check lies inside its region, field block included |
| Sign.AppendFields | sign/sign.c:214-246 | the block of keys and values, refused exactly at the first malformed argument |
| Sign.PatternMatches | sign/sign.c:261-262 | compares the pattern without leaving the buffer; a match means the padded input extends behind the header |
| Sign.Run | sign/sign.c:194-299 | the output image or error code for every input |
| SignTheorems.SignExactly | sign/sign.c:184-297 | when the tool succeeds, the size of its output, and which code it fails with, from the input, the pattern, the arguments and the limit |
| SignTheorems.FieldsBehindHeader | sign/sign.c:194-213 | the field block never overlaps the header that is filled in |
| SignTheorems.SignedDescribes | sign/sign.c:281-289 | the output's header gives its size, its CRC and its field block, and the rest of the input is unchanged |
| SignTheorems.SignThenCheck | common/fw_header/fw_header_utils.c:41-86 | every signed image, placed 4-aligned in flash, gets exactly the lock its fields call for; the count is the number of arguments and each key looks up to its first value |
| SignTheorems.SignedVersion | common/fw_header/fw_header_utils.c:72-83 | a version number given to the host tool is the one the device reports |
| SignTheorems.SignedIsContained | sign/sign.c:293-297 | a signed image that passes its check is contained in a region exactly if it is not longer than the region |
| EndToEnd.SignedUpdate | ldr/tftp_server_callback.c:8-17 | after a complete update the image is unlocked exactly when it was signed with both product fields, the preloader's product and its own name, and its block fits |
| EndToEnd.AssembledGateway | ldr/Makefile:90-102 | a preloader and a loader signed for one product make a device that boots; both are contained in their regions with the build's limits, and with a larger limit the loader is exactly if it is no longer than its region |
| EndToEnd.LimitTooLarge | Makefile:134-140 | an image signed with the build's limit and locked on every device |
| Gateway.KeysAre | common/fw_header/fw_headers_variables.c:4-5 | field keys and image names as text |
| Gateway.ThreeLocks | common/fw_header/fw_headers_variables.c:27-70 | the locks of all three images of a gateway, whatever they were signed with, with the room for fields written out |
| Gateway.RoomExactly | common/fw_header/fw_headers_variables.c:35-38 | images signed for the gateway are unlocked exactly if their fields end within 507503 bytes (loader) and 392815 bytes (application) |
| Gateway.ReportedVersion | common/fw_header/fw_header_utils.c:72-83 | major, minor and patch are the numbers signed under ver_maj, ver_min and ver_pat |
| Gateway.DownloadExactly | ldr/tftp_server_callback.c:19-34 | the download of an unlocked signed image is the tool's output byte for byte, that of a locked one its whole region |
| Boot.Preldr.Start | preldr/preldr.c:6-41 | jumps only to an unlocked image, prefers the application only after a reboot from the loader, halts only when both are locked |
| Boot.ChoiceIsUnique | preldr/preldr.c:18-41 | these conditions leave exactly one choice for every load source and every flash |
| Boot.LdrLoop.Round | ldr/ldr.c:102-124 | resets exactly when five seconds of elapsed clocks have passed, nothing holds it and the application is unlocked |
| Update.WritesStayInside | ldr/tftp_server_callback.c:15-16 | a write inside a region erases and programs nothing outside it |
| Update.FileServer.CheckFile | ldr/tftp_server_callback.c:43-62 | which files may be written and read, and the state a write begins in |
| Update.FileServer.WriteCallback | app/comm/tftp_server_callback.c:16-26 | region limit, flash content after each block, and operations confined to the other firmware's region |
| Update.FileServer.Read | ldr/tftp_server_callback.c:19-30 | serves a piece of the download: at most the buffer's size from the address on |
| Update.PiecesMakeWhole | common/eth/tftp_server.c:174-225 | the pieces up to the first short one, one after the other, are the whole download |
| Tftp.Connection.Receive | common/eth/tftp_server.c:113-164 | one packet: calls, counters, acknowledgement and close as the protocol model has them; the flash holds what was received; a write fails exactly if the data exceed the region or a flash operation failed in hardware |
| Tftp.NetworkOrder | common/eth/tftp_server.c:113-125 | the block number has its high byte first and the data follow it |
| Tftp.Connection.constructor | common/eth/tftp_server.c:297-307 | a new connection begins at block 0 with nothing received, and flash as it was when the file was accepted |
| Tftp.TransferSafe | common/eth/tftp_server.c:113-164 | in every reachable state the calls tile a prefix of the file, for every file and every loss, repetition and reordering; if the sender aborted, at most the message of its one ERROR packet follows, and only a long one leaves the connection open |
| Tftp.CloseIsDelivery | common/eth/tftp_server.c:149-157 | a normal close means whole delivery and exactly one final empty call: if no ERROR packet was heard, exactly for files of at most 65535 * 512 bytes; if one had an effect, exactly if its code was the expected block number and its message the rest of the file, or its code was another and no data was missing |
| Tftp.AbortCloses | common/eth/tftp_server.c:113-164 | for every file a run in which the sender aborts and the server closes normally without the file |
| Tftp.LongAbortCloses | common/eth/tftp_server.c:113-164 | for every file within the block numbers a run in which a long message takes the place of the last block and a late copy of that block closes the connection |
| Tftp.CloseIsReachable | common/eth/tftp_server.c:113-164 | every file has a run that closes without an ERROR packet |
| Upload.Deliver | common/eth/tftp_server.c:113-164 | a connection that is where the protocol's receiver is stays there with every packet delivered to it |
| Upload.ClosedUpload | common/eth/tftp_server.c:113-164 | a signed image whose upload closed without an ERROR packet lies in the region, nothing outside has changed, and it is unlocked exactly if it was signed with both product fields, the preloader's product and its own name, and its block fits |
| Upload.AnswerIsOwn | ldr/tftp_server_callback.c:8-17 | the answer to the last call is the lock of the received image exactly if that is the loader or both have the same lock |
| Upload.AnswerOfLoader | ldr/tftp_server_callback.c:8-17 | a good loader answers 0 whatever application it received, so the answer is right exactly if the application is unlocked |
| Upload.WrongAnswer | ldr/tftp_server_callback.c:10-14 | an application that is too small in every flash, and the wrong answers to it |
| NeverBricked.NeverBricked | preldr/preldr.c:12-41 | in every run with resets at any moment the running image is unlocked and the halt loop is never reached |
| NeverBricked.WritesSpareTheWriter | ldr/tftp_server_callback.c:8-17 | what a program may write leaves itself and the preloader byte for byte the same |
| NeverBricked.PowerLoss | common/platform.c:54-95 | cutting an update or a save after any single erase or program leaves a device that boots |
| LdrLayout.LayoutIsExact | common/fw_header/fw_header_utils.c:41-86 | with the application at rest, the writes of a running unlocked loader can make the preloader halt exactly if the loader does not lie inside its region |
| LdrLayout.LimitIsExact | ldr/Makefile:90-102 | of all loaders signed for the gateway, with whatever limit within the checked size, exactly those longer than the build's limit can do so |
| LdrLayout.LongLoader | ldr/Makefile:90-102 | a gateway, signed and assembled with a larger limit, with a good preloader and an unlocked loader, that can reach the halt loop |
| Mqtt.FifoRuns | app/comm/mqtt_app.c:44-136 | over every interleaving: completed plus pending is accepted, the outstanding request is the oldest message, at most 63 wait, and every call of lwIP is accounted for with its answer |
| Mqtt.IdleWasRefused | app/comm/mqtt_app.c:44-136 | in every state of a run, an idle queue with messages means that the last call, for the oldest, was refused; if lwIP never refuses nothing waits in an idle queue |
| Mqtt.StoredCut | app/comm/mqtt_app.c:121-132 | at most 39 bytes of the topic and 16 of the payload are kept, the rest as given |
| Mqtt.MqttQueue.Publish | app/comm/mqtt_app.c:111-136 | refused exactly when 63 wait; otherwise the message is queued, and lwIP is called once, with the oldest message, exactly if the queue was idle; the answer says whether it took it |
| Mqtt.MqttQueue.PubRequestCb | app/comm/mqtt_app.c:44-49 | the oldest message is done; with messages left lwIP is called once, with the oldest, and the queue is idle exactly if it refused or none is left |
| Mqtt.MqttQueue.SendNext | app/comm/mqtt_app.c:51-68 | one call with the oldest message; the flag is its answer |
| Router.RouteTable.AddEntry | app/comm/router.c:12-139 | each refusal code, and a table that is unchanged or one route longer, the old ones and what happened to them untouched |
| Router.Settings | app/comm/router.c:35-119 | without a bad pair every setting of the route is what the last pair of its kind gave, and blank without one; otherwise the first bad pair gives the code |
| Router.AddedExactly | app/comm/router.c:20-139 | every answer and its precedence: table full, first bad pair, type, room behind the offset, topic taken |
| Router.AddedIsWellFormed | app/comm/router.c:35-135 | an added route has settings in range, fits its object and has a topic of its own |
| Router.RouteTable.CheckTrySend | app/comm/router.c:163-179 | sends exactly when the interval allows and the queue is not full, and only then resets flag and time; the queue accepts that one message or none |
| Router.RouteTable.AddPdo | app/comm/router.c:181-202 | matching routes hold the newest bytes and flag a message unless on-change finds no change; a flagged message that is due is accepted unless the queue is full; the queue accepts exactly those messages, in the order of the table; other routes are untouched |
| Router.RouteTable.Poll | app/comm/router.c:204-211 | time passes for every route; a flagged message that is due is accepted unless the queue is full; the queue accepts exactly those messages |
| Router.RouteTable.Complete | app/comm/mqtt_app.c:44-49 | a completion between two calls changes no route and nothing that was accepted |
| Router.ObjectEffect | app/comm/router.c:181-202 | what an object does to a route: its bytes, its flag, its time, and the message that is accepted for it, in its place |
| Router.PollEffect | app/comm/router.c:204-211 | what a poll does to a route, and the message that is accepted for it |
| Router.RouteKeeps | app/comm/router.c:163-211 | what an object or a poll does to a route keeps it fresh, if it sends only what is wanted |
| Router.Freshness | app/comm/router.c:163-211 | in every state of every run of adding, objects, polls and completions current and previous data of a route agree over its length, and while no message is flagged the last payload accepted on its topic is its current data, or none was ever flagged and only zeros were seen |
| Router.EverIsHistory | app/comm/router.c:190-198 | that none was ever flagged is a fact about the steps of the run |
| Router.RateLimit | app/comm/router.c:163-211 | in every run any two acceptances of a route with a positive interval are separated by polls whose times add up to at least the interval, also across wraps of the elapsed counter |
| CanTiming.WorksExactly | common/canopendriver/can_driver.c:81-85 | the loop's test accepts a prescaler exactly when some quanta count of 5 to 16 gives the rate |
| CanTiming.Search | common/canopendriver/can_driver.c:80-86 | the least prescaler that works, or none exists |
| CanTiming.Can.CheckSetBitrate | common/canopendriver/can_driver.c:74-113 | succeeds exactly when a timing exists, for every rate but zero; the register then decodes to it, sampled in the middle, with all other bits unchanged |
| CanTiming.Decoded | common/canopendriver/can_driver.c:101-107 | decoding the written fields gives back prescaler and quanta |
| CanTiming.OneMegabit | common/canopendriver/can_driver.c:101-107 | the register's bits for 1 MBit/s |
| CanTx.CanModule.Send | common/canopendriver/CO_driver_target.c:161-191 | when a message waits, the 16-bit counter and the overflow error |
| CanTx.CanModule.TxBufferInit | common/canopendriver/CO_driver_target.c:127-150 | clears a buffer and leaves the counter alone |
| CanTx.CanModule.ClearPendingSync | common/canopendriver/CO_driver_target.c:193-231 | aborts a synchronous message in transmission; unless the counter is zero, drops exactly the waiting synchronous messages and counts them off in 16 bits; reports lateness exactly if either happened |
| CanTx.CanModule.TxInterrupt | common/canopendriver/CO_driver_target.c:349-379 | the first waiting message goes out |
| CanTx.CanModule.Init | common/canopendriver/CO_driver_target.c:44-56 | nothing waits |
| CanTx.RunCovered | common/canopendriver/CO_driver_target.c:127-379 | the counter is at least the number of full buffers in every state of a run if and only if it wraps in none of its steps |
| CanTx.ZeroMeansNone | common/canopendriver/CO_driver_target.c:208-209 | while it is, zero means that none waits |
| CanTx.RunToWrap | common/canopendriver/CO_driver_target.c:183-187 | a run of 65536 sends that ends with the counter at zero and a full buffer |
| CanTx.Balance | common/canopendriver/CO_driver_target.c:127-379 | in every run, for every buffer: handed to the driver, lost and still waiting add up to sent and doubled |
| CanTx.EachOnce | common/canopendriver/CO_driver_target.c:176-188 | the messages of a buffer handed over, lost or waiting add up to those sent exactly if none is taken at once while the counter is not zero |
| CanTx.SentTwice | common/canopendriver/CO_driver_target.c:176-188 | a run in which one message is handed over twice |
| CanTx.AppendCovered | common/canopendriver/CO_driver_target.c:183-187 | putting a message to wait keeps that exactly when the counter does not wrap |
| CanTx.Drains | common/canopendriver/CO_driver_target.c:349-379 | with no new sends that many interrupts empty all buffers in ascending order |
| CanTx.IndicesComplete | common/canopendriver/CO_driver_target.c:355-372 | that order lists exactly the full buffers |
| CanTx.WrappedIsStuck | common/canopendriver/CO_driver_target.c:186-187 | after a wrap to zero no interrupt sends what waits |

## Left out

- Registers, pins, clocks, watchdog, Ethernet, ADC, FRAM and the other peripherals: hardware only.
- lwIP, CANopenNode and the object dictionary tables: library or generated code; data type lengths are a table of numbers up to 8.
- Locking and unlocking of the flash controller, and its flag registers.
- Console and UDP callbacks, printing, and the tokenising of a route's text: `Router.RouteTable.AddEntry` starts from key and value pairs.
- The file names of other nodes' firmware, which the application forwards over CAN: the other end is not in the repository.
- `common/fw_header/fw_headers_variables.c:72-96`, the two lookup wrappers: guards in front of the lookups that are modelled.
- The weak callback for unknown configuration keys, and two configuration rows that share one variable.
- TFTP downloads under loss: a wrong acknowledgement does not resend the old data, so only the content of loss-free downloads is stated (`Update.FileServer.Read`).
- A TFTP connection after a failed write: the code goes on with freed memory; the model ends the connection.
- TFTP packets of more than one buffer, packets other than DATA and ERROR on an open connection, and more than one connection at a time.
- FwFields.StrLenSafe: excludes the address 0xFFFFFFFF, whose 32-bit end wraps past the range check to memory that is not flash.
- FwFields.StrCompareEqualSafeTwoArg: excludes the same address.
- FwFields.StrCompareEqualSafeFirstArg: excludes the same address.
- FwFields.FwFieldsGetCount: excludes regions whose 32-bit end wraps, for the same reason; no caller has one.
- FwFields.FwFieldsFindByKey: excludes regions whose field count is not positive, for which its comment declares it unsafe (`common/fw_header/fw_header.c:102`).
- FwFields.FwFieldsFindByIterator: excludes the same regions and those outside the flash, where it answers true without a pair.
- FwHeader.GetUint32NumberFromStr: excludes the last twelve addresses below 2^32; its callers pass NULL or an address in flash.
- Sign.Run: excludes files and arguments of 2^31 bytes and more, which its 32-bit integers cannot measure.
- Tftp.Connection.Receive: excludes packets shorter than four bytes, whose block number the server would read from behind the packet.
- Update.FileServer.Read: excludes addresses whose sum with a region's start exceeds 2^32, far beyond any image.
- MQTT reconnects: lwIP may drop a request without its callback, so only safety is stated.
- The registers behind an aborted CAN transmission, receive filtering, and the CAN error states other than overflow and lateness.
- CanTx.EachOnce: counts what an interrupt hands to the driver as gone out, because the code does not look at the answer (`common/canopendriver/CO_driver_target.c:368`).
- Router.RouteTable.AddEntry: the scratch record a refused entry leaves behind the table is not modelled, because nothing reads it.
- Boot.LdrLoop.Round: does not model sums of elapsed clocks above 2^32 in one round, because the watchdog resets the device long before.
- Update.FileServer.WriteCallback: does not model sums of address and size above 2^32, because a transfer ends at its first refused block, far below.
