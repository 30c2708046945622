# SVS bridge: verified models

The SVS bridge is an ESP32 between a network and the USB serial port of a video switch (the SVS). These
Dafny files model the parts of it where a mistake would cost a user a setting, a firmware or a switch,
and prove what those parts promise.

| part of the bridge | files |
|---|---|
| settings in the switch's EEPROM: decoding, planning, reading, saving, and the request for it | `SvsConfig`, `PlanLemmas`, `PlanTheorems`, `EepromView`, `Switch`, `TranscoderSettings`, `SvsSettings`, `SettingsRequest`, `StaleSaves` |
| firmware files in Intel HEX | `IntelHex`, `HexTheorems`, `HexPrinting` |
| the AVR reset-vector patch | `ResetVectors`, `PatchTheorems` |
| flashing the switch: one task, all runs of the state machine, and some particular ones | `Flasher`, `FlashRuns`, `FlashSafety`, `FlashFresh`, `FlashTraces` |
| the RFC 2217 server, its Telnet parser and the echo filter | `Telnet`, `TelnetTheorems`, `TelnetSettings`, `Negotiation`, `Rfc2217`, `EchoFilter` |
| one client of that server over a whole connection | `ClientRuns`, `ClientTheorems`, `EchoAnswers` |
| the receive tap of the serial port | `RxTap` |
| logins: lockout and sessions | `Lockout`, `Sessions` |
| updates of the bridge itself | `Ota` |
| bytes and their bits, and what the others share | `Bytes`, `Options` |

`dafny verify dfyconfig.toml` checks the whole project.

Code that changes things in place is modelled by classes, arrays and loops. Most methods are proved equal to
a function on values, and the theorems are about those functions. A task that talks to a device (reading,
saving, flashing, sending, updating) is given its exact outcome instead: it succeeds if and only if what the
device does makes that possible, and what it leaves behind is stated for success and for each failure.

The USB line, the switch, sockets, the flash of the bridge, password hashing and the clock are devices or
parameters whose answers are arbitrary at every call, and are the device's own: a method cannot choose them.
So a theorem holds for every failure at every point. A page of the switch's flash is written in one step or
not at all, whatever the bootloader answers, and a session with the bootloader talks to one switch. The flash
task is described twice, as the loop it is (`Flasher.FlashTask`) and as steps between which anything may happen
(`FlashRuns`); both ask `Flasher.Refusal` whether to write, and `FlashTraces.WritingMatches` says that they
write the same.

Main results:

- **Settings.** Reading, guarding and saving a request succeeds if and only if the request is valid and the
  switch answers, carries, keeps and shows what it has to (`SettingsRequest.ReadAndSave`), although only part of
  the EEPROM was ever read (`PlanTheorems.WriteEndToEnd`). Then the EEPROM holds, bit by bit and code by code,
  what the client asked for each input as far as its hardware has it, and the rest as before; so do the
  transcoders, if the switch did what it was told about them, which is also exactly when a fresh read gives the
  settings that were saved. Nothing else changes (`WriteFrame`, `DiffExact`), saving again writes nothing
  (`ReplanNothing`), and a save that failed half way is completed by repeating it
  (`SvsSettings.RetryCompletes`).
- **Flashing.** A switch is accepted exactly when it answers as it should and its table says what it should
  (`Flasher.EvaluateExact`). In every run of the flasher, with switches plugged and unplugged at will, answered
  pages that are not on the chip and unanswered ones that are, and stopped at any point, no page is written
  without the check and the preview (`FlashSafety.FlashingIsGated`), and a check only counts for the switch that
  was plugged in (`FlashFresh.CheckHoldsForPlugged`). Every byte from where a switch's own size byte says that
  its bootloader starts stays as it was; and a switch whose bootloader saves the application's entry in a vector
  other than the reset leads to it if and only if it did at the start or a first page has landed on it, which a
  matching preview shows (`FlashSafety.NoSwitchIsLost`).
- **RFC 2217.** The parser undoes a Telnet printer (`TelnetTheorems.PrintParses`), and nothing says the same in
  fewer bytes (`ReadAsNeedsBytes`). Over a whole connection, with any reads, any modem states and anything the
  switch says in between, the exact condition is proved under which the client reads all its bytes as they are
  meant (`ClientRuns.ReadAsMeant`); then it knows how each option stands (`ClientTheorems.AnnouncedInStep`), which
  is as it last asked, as are the line settings and DTR (`ClientTheorems.RunIsAsAsked`), and
  its data is what the switch said since it connected, less the lines the echo filter should drop and the parts
  of lines it forgets (`ClientTheorems.SwitchIsHeard`).
- **HEX files.** Decoding in one pass gives the image the records stand for (`HexTheorems.DecodedImage`). A file
  is read to its end if and only if, with every line before it in order, there is an end record
  (`EndIsReached`), and is refused for a line if and only if that is the first faulty one (`FirstFaultNamed`).
  Every changed byte is caught (`CorruptionCaught`), and so is a file cut anywhere before the end of its end
  record (`CutExact`).
- **Sessions and updates.** The four slots are a least-recently-used set in every run (`Sessions.TableIsLru`),
  and an update succeeds if and only if every step of it does, with all that was received written
  (`Ota.Apply`).

Where the code does less than its comments or a reader would expect, the exact condition is proved:

- `plan_writes` alone does not preserve a list that has a code with the address 0xFF, which ends it when it
  is read back (`PlanTheorems.WriteEndToEnd`). The one caller refuses such codes
  (src/platform/esp32/main/web_server.cpp:1116-1121), so no accepted request has one
  (`SettingsRequest.NoEmptyRequested`).
- The flash task's comment says that an interrupted flash always leaves the reset leading to the bootloader
  (src/platform/esp32/main/svs_flasher.cpp:567-569). Once the first page has landed, that is so if and only if
  the saved vector is not 0 or the image already led there; before, if and only if the reset led there anyway
  (`Flasher.InterruptedIsRecoverable`). The patch's last check decodes the opcode it made, not the image, so it
  does not notice (`PatchTheorems.Vector0LosesBootloader`). The flasher accepts a bootloader of version 7.7 or
  older that reports vector 0 (`FlashTraces.ZeroIsAccepted`), and there is a run in which such a switch is
  checked, previewed and flashed with every answer right and is lost with its first page
  (`FlashTraces.ZeroIsLost`).
- A refused patch leaves the image alone except when only that last check fails
  (`PatchTheorems.PatchRefusal`). For a bootloader that the flasher accepts it never fails
  (`Flasher.EvaluateReachable`).
- The range check of the HEX decoder is made modulo 2^32. A data record that starts in the last 64 KB of the
  32-bit addresses and ends past them passes it, and the bytes are then copied to an address far outside the
  buffer. `HexTheorems.UnknownExact` says which files come to that, `HexPrinting.WrappingFile` is one: a base
  of 0xFFFF and one byte at 0xFFFF, for every flash size.
- The replies to one read are cut to a 256-byte buffer (src/platform/esp32/main/rfc2217.cpp:252,
  src/core/rfc2217_proto.c:56-58), and the reply to the vendor command 155 has the number 255, which goes out
  undoubled. A client reads all it is sent as it is meant if and only if the replies to each read fit the buffer
  and it never has 155 answered (`ClientRuns.ReadAsMeant`; `Negotiation.VendorAnswered` is a request that does).
  The replies to a read of at most 93 bytes always fit (`ClientTheorems.ShortReadsFit`). A read of 94 can lose
  the announcement that an option has been turned off, so that the client goes on believing it is on
  (`ClientTheorems.LostAnnouncement`).
- A failed save leaves the bridge's view as it was. Saving again what was wanted completes it, but saving the old
  settings back is reported as done while the device keeps a byte of the failed save (`StaleSaves.SaveAndTakeBack`;
  `PlanTheorems.StaleView` is the exact condition).
- A transcoder that does not confirm a change is remembered as changed all the same
  (`TranscoderSettings.RecordedIsWanted`); whether the switch agrees is `TranscoderSettings.TxWantedExact`.

## Model

| member | source | states |
|---|---|---|
| PlanTheorems.WriteEndToEnd | src/core/svs_config.h:256-307 | for any device, any view that agrees with it and any accepted plan: the device after the writes, slots never read included, decodes to the wanted settings of each input if and only if none of its IR codes has the empty mark as its address |
| PlanTheorems.WriteFrame | src/core/svs_config.h:251-307 | after the writes every address the map gives to no input, every slot past those written and every bit of inputs past the last is as it was |
| PlanTheorems.WriteKeepsFlag | src/core/svs_config.h:264-281 | a flag wanted as it was keeps its bit although other inputs share its byte |
| PlanTheorems.DiffExact | src/core/svs_config.h:301-305 | the writes ascend strictly and are exactly the addresses whose planned byte differs from the read one, with that byte |
| PlanTheorems.ApplySome | src/core/svs_config.h:301-305 | after any number of the writes every byte is the old one or the planned one |
| PlanTheorems.WrittenAt | src/core/svs_config.h:256-307 | device and refreshed view hold at each address what looking the address up in the map says is planned there, the device unchanged elsewhere |
| PlanTheorems.RefreshIsPlanned | src/platform/esp32/main/svs_settings.cpp:321-337 | the view given each written byte is the planned view |
| PlanTheorems.ReplanNothing | src/core/svs_config.h:256-307 | planning the same settings again from the refreshed view is accepted and lists no write |
| PlanTheorems.StaleView | src/platform/esp32/main/svs_settings.cpp:321-335 | for a view that may no longer agree with the device: the device ends up as planned if and only if it holds what the view says wherever nothing is written |
| StaleSaves.SaveAndTakeBack | src/platform/esp32/main/svs_settings.cpp:284-385 | for every device and complete read of it: two switches of input 1 are saved the other way, the switch ignores one of the bytes and the save ends there; saving the settings as they were read then ends as saved, while the device still has the other byte |
| PlanTheorems.HeldSettingsRead | src/core/svs_config.h:235-249 | settings laid out in a view decode to themselves if and only if no IR address is the empty mark |
| PlanTheorems.DecodeHeld | src/core/svs_config.h:241-248 | decoding a held list gives its codes up to the first whose address is the empty mark |
| PlanTheorems.PlannedList | src/core/svs_config.h:290-299 | the planned view holds every wanted list with the empty slot that ends it |
| PlanTheorems.PlannedFlag | src/core/svs_config.h:264-281 | the planned view reads each flag as wanted, with its polarity, whatever was written for the other inputs of the byte |
| PlanTheorems.FoldBitsBit | src/core/svs_config.h:77-88 | bit by bit, a bitmap byte with several inputs written to it: each written bit as wanted, each other one as read |
| PlanLemmas.PlanUpToAt | src/core/svs_config.h:264-300 | the plan made input by input holds at every address what looking the address up in the map gives |
| PlanLemmas.LocateSlot | src/core/svs_config.h:98-103 | the address and the command of an IR slot are at those two addresses and no other address is theirs: slots of different inputs never meet |
| PlanLemmas.LocatedSlot | src/core/svs_config.h:90-103 | an address looked up as a slot is the address of that slot, of an input that exists |
| PlanLemmas.SlotsFit | src/core/svs_config.h:96-98 | every slot of every input is inside the 250-byte region |
| PlanLemmas.RowIs | src/core/svs_config.h:98-103 | row k of the IR table starts at k * (inputs + 1) |
| PlanLemmas.PutCodesAt | src/core/svs_config.h:295-299 | what writing the first slots of one input leaves at each address |
| PlanLemmas.PutFlagsAt | src/core/svs_config.h:265-281 | what writing the three flags of one input leaves at each address |
| Bytes.WithBitBits | src/core/svs_config.h:85-88 | writing one bit sets it and keeps every other |
| EepromView.Eeprom.Set | src/core/svs_config.h:193-198 | the byte is stored when its address exists, nothing changes otherwise |
| EepromView.Eeprom.PutBit | src/core/svs_config.h:265-273 | refused exactly when the byte was not read; otherwise that bit is written with its polarity |
| EepromView.DecodeInput | src/core/svs_config.h:235-249 | flags, and the IR codes up to the first slot that is empty or unread, the transcoder flags kept |
| EepromView.PutInputCodes | src/core/svs_config.h:290-299 | the codes, one empty slot and the old list's tail are written, as far as there are slots |
| EepromView.PlanInput | src/core/svs_config.h:276-299 | one input is planned exactly when its three bitmap bytes were read and its codes fit; which of the two failed otherwise |
| EepromView.ListWrites | src/core/svs_config.h:301-305 | the list of changed bytes, which DiffExact says is exact |
| EepromView.PlanWrites | src/core/svs_config.h:256-307 | accepted exactly when the number of inputs matches and is 1 to 32, every bitmap byte needed was read and every list fits; no writes on refusal |
| SvsSettings.BitmapAddresses | src/core/svs_config.h:209-220 | exactly the bytes of the five bitmaps and the two transcoder bytes |
| SvsSettings.ReadBitmaps | src/platform/esp32/main/svs_settings.cpp:190-199 | succeeds if and only if every question is answered, and then the view has exactly the bitmap and transcoder bytes |
| SvsSettings.ReadTranscoders | src/platform/esp32/main/svs_settings.cpp:211-231 | succeeds if and only if every fitted transcoder is answered for, for every input, and then has what they say |
| SvsSettings.ReadList | src/platform/esp32/main/svs_settings.cpp:237-253 | one input's slots are read up to and with its first empty one: it succeeds if and only if every question for them is answered, and then the view has exactly those slots more |
| SvsSettings.ReadLists | src/platform/esp32/main/svs_settings.cpp:233-254 | the same for all inputs |
| SvsSettings.ReadTask | src/platform/esp32/main/svs_settings.cpp:179-267 | succeeds if and only if every question of the read is answered, a number fixed by what the device holds; then it leaves exactly the bytes asked for, and the settings and hardware of the whole device |
| SvsSettings.SnapshotComplete | src/platform/esp32/main/svs_settings.cpp:233-257 | those bytes are true of the device and have every bitmap and every list to its end |
| SvsSettings.ReadDecodes | src/core/svs_config.h:241-248 | the slots never read do not matter: view and device decode to the same codes |
| SvsSettings.CompletePlans | src/core/svs_config.h:256-289 | from a complete read a plan is refused only for the number of inputs or a list that does not fit |
| SvsSettings.SendWrites | src/platform/esp32/main/svs_settings.cpp:312-320 | succeeds if and only if every command is carried; the device has taken those before the first that is not, as far as it keeps them |
| SvsSettings.TakenAt | src/platform/esp32/main/svs_settings.cpp:312-320 | a device told a list holds a listed byte if it kept it or held it before, and nothing else has changed |
| SvsSettings.ReadBack | src/platform/esp32/main/svs_settings.cpp:321-337 | a match if and only if every question is answered with the byte written; otherwise the verdict on the first that is not |
| SvsSettings.HeldIsTaken | src/platform/esp32/main/svs_settings.cpp:312-337 | all is read back right if and only if the switch keeps each byte or held it before, and answers for each |
| SvsSettings.AllKept | src/platform/esp32/main/svs_settings.cpp:311-337 | a device that holds some of the plan and every byte read back has taken the whole plan |
| SvsSettings.WriteTask | src/platform/esp32/main/svs_settings.cpp:284-400 | refused, not sent, not read, kept, not set or saved, each exactly when it should be: the EEPROM is written if and only if there is a plan, every command is carried, every byte is held and every question answered; however it ends each byte is old or planned; a save that has written the EEPROM writes the whole plan, leaves a complete read from a complete read, and sets the transcoders up to the first that cannot be set |
| TranscoderSettings.ChangesExact | src/platform/esp32/main/svs_settings.cpp:300-307 | the list of changes has each transcoder that is wanted otherwise exactly once, and nothing else |
| TranscoderSettings.SetTranscoders | src/platform/esp32/main/svs_settings.cpp:343-376 | the changes in order up to the first whose input is not shown in time or whose command is not carried, and which of the two it is; what the switch has then, what is unconfirmed and what is remembered are those of the changes made; afterwards the input shown is the one shown before, if the switch does that |
| TranscoderSettings.RecordedIsWanted | src/platform/esp32/main/svs_settings.cpp:372 | once every change is made the bridge remembers exactly the wanted transcoders, confirmed or not, and nothing else new |
| TranscoderSettings.TxWantedExact | src/platform/esp32/main/svs_settings.cpp:344-373 | once every change is made, the transcoders of the switch are as wanted if and only if it did what it was told about each |
| TranscoderSettings.ConfirmedExact | src/platform/esp32/main/svs_settings.cpp:363-371 | no change is reported as unconfirmed if and only if the switch did what it was told about each and answered for each |
| SvsSettings.StaysComplete | src/platform/esp32/main/svs_settings.cpp:336-384 | the refreshed view is again a complete read of the device, hardware bytes untouched |
| SvsSettings.RetryCompletes | src/platform/esp32/main/svs_settings.cpp:284-337 | repeating a save that failed half way gives what it would have given at once |
| SvsSettings.GuardSettings | src/platform/esp32/main/svs_settings.cpp:505-523 | each input is guarded by its own hardware, which GrantedFlags says what it means; refused exactly when the number of inputs is another one or some list does not fit |
| SettingsRequest.GrantedFlags | src/platform/esp32/main/svs_settings.cpp:509-517 | of a guarded request, auto profile and codes are as asked; sync bypass where the bit at 630 says there is a SCART module, RGsB where it or the one at 670 does, each transcoder where 710 or 711 is 0; and without the module the setting is the one the EEPROM holds |
| SvsSettings.GuardKeeps | src/platform/esp32/main/svs_settings.cpp:509-517 | an input without the module a setting needs still has that setting as before after the save |
| SettingsRequest.ParseCodes | src/platform/esp32/main/web_server.cpp:1116-1123 | accepted exactly when every code is a pair of an address below 0xFF and a byte, and then these codes |
| SettingsRequest.ParseRequest | src/platform/esp32/main/web_server.cpp:1108-1125 | accepted exactly when every code of every input is valid, and then the settings that were sent |
| SettingsRequest.NoEmptyRequested | src/platform/esp32/main/web_server.cpp:1116-1121 | no code of an accepted request has the empty mark as its address, guarded or not |
| SettingsRequest.ReadAndSave | src/platform/esp32/main/svs_settings.cpp:179-400 | read, parse, guard and save in one: succeeds if and only if the request is valid and fits and the switch answers, carries, keeps and shows all it has to; then the EEPROM holds what the client asked for every input as far as its hardware has it (AllGranted), every input decodes to its guarded settings, and if the switch did what it was told about each transcoder these are as asked too; a fresh read gives exactly the guarded settings if and only if it did; no input is reported as unconfirmed if and only if it did and answered for each |
| SettingsRequest.SaveGrants | src/platform/esp32/main/svs_settings.cpp:284-337 | the EEPROM after the planned writes, in its own bytes: the bits at 513, 550 and 590 and the codes of every input are what the client asked, polarity included, or as before where the module is missing |
| SettingsRequest.SaveGrantsTx | src/platform/esp32/main/svs_settings.cpp:339-376 | a switch that does what it is told has each fitted transcoder as the client asked and the others as before |
| IntelHex.ReadBytes | src/core/svs_hex.h:67-78 | the bytes the digits spell and their sum modulo 256; refused exactly for a character that is no digit |
| IntelHex.ParseRecord | src/core/svs_hex.h:55-92 | one line: its record, or which of the checks fails first |
| IntelHex.Copy | src/core/svs_hex.h:110 | the data lands at its address and nowhere else |
| IntelHex.PutData | src/core/svs_hex.h:102-114 | buffer and top stay those of the data records so far |
| IntelHex.DecodeHex | src/core/svs_hex.h:28-146 | the one-pass decoder gives the meaning of the file: the image of its data records, or the first error and its line, or the line of a record that wraps past the range check |
| HexTheorems.DecodedImage | src/core/svs_hex.h:101-145 | an accepted file's image is as long as its highest data record reaches and fits; each byte is that of the last data record over it, or 0xFF |
| HexTheorems.ByteAtIsPainted | src/core/svs_hex.h:102-114 | the byte at an address is that of the last record covering it, or erased if none does |
| HexTheorems.TopIsMax | src/core/svs_hex.h:111-113 | the top is the maximum of the ends of the data records |
| HexTheorems.ReadFits | src/core/svs_hex.h:104-109 | every data record of an accepted file ends within the flash |
| HexTheorems.RangeCheckExact | src/core/svs_hex.h:103-104 | the 32-bit range check is right for a record under a base that can be set if and only if its end does not wrap to a small number |
| HexTheorems.EndIsReached | src/core/svs_hex.h:28-145 | a file is read to its end if and only if, with every line before it accepted, there is an end record |
| HexTheorems.FirstFaultNamed | src/core/svs_hex.h:28-140 | a file is refused with an error and a line number if and only if, with every line before it accepted, that line has that fault, in unbounded arithmetic |
| HexTheorems.CutExact | src/core/svs_hex.h:28-145 | an accepted file cut short is accepted as before if its end record is whole, and refused if it is cut anywhere before that |
| HexTheorems.UnknownExact | src/core/svs_hex.h:28-133 | a file comes to a record that wraps if and only if, with every line before it accepted, there is a data record under base 0xFFFF0000 whose end is past the last address and looks small enough |
| HexPrinting.WrappingFile | src/core/svs_hex.h:103-110 | a two-line file that does, for every flash size |
| HexTheorems.ChangedLine | src/core/svs_hex.h:79-89 | a record with one byte changed fails the length test if it is the count, the checksum otherwise |
| HexTheorems.CorruptionCaught | src/core/svs_hex.h:28-146 | changing one byte of any record of an accepted file, the end record included, gets the file refused with that error |
| HexPrinting.PrintedRecord | src/core/svs_hex.h:16-92 | a record printed with capital or small digits parses back to itself |
| HexPrinting.PrintedFileDecodes | src/core/svs_hex.h:28-146 | any records of the kinds that are read, both kinds of address record included, printed in either style, lines ending with a line feed or with a carriage return before it, and decoded give the image they stand for, or are refused for having no data |
| ResetVectors.RjmpResetTarget | src/core/svs_vectors.h:48-56 | ends for any opcode and any flash size, with the wrapped distance brought into the flash |
| ResetVectors.JmpRoundTrip | src/core/svs_vectors.h:59-72 | a jmp opcode decodes to the address it was made for, less the odd bit and what 23 bits cannot hold |
| ResetVectors.JmpUnique | src/core/svs_vectors.h:59-72 | a jmp's four bytes are the opcode of its own target |
| ResetVectors.RjmpReachesTop | src/core/svs_vectors.h:35-78 | for every flash of 8 KB or more, every bootloader an even distance back in its last 4 KB is reached by the rjmp made for it |
| ResetVectors.RjmpReachExact | src/core/svs_vectors.h:35-78 | on the 32 KB chip the rjmp made for an address reaches it if and only if it is even and in the first or last 4 KB |
| ResetVectors.PatchVectors | src/core/svs_vectors.h:89-130 | the patch in place does to the image what its description on values does, with the same verdict, entry and opcode |
| PatchTheorems.PatchRefusal | src/core/svs_vectors.h:80-130 | when the patch succeeds, as an if and only if; a refusal leaves the image as it was except by the last check, which fires exactly when all others pass for an unreachable bootloader |
| PatchTheorems.PatchKeepsEntry | src/core/svs_vectors.h:120-122 | the saved vector holds a jmp to where the reset led, all but it and the reset word is unchanged |
| PatchTheorems.PatchReachesBootloader | src/core/svs_vectors.h:89-130 | after a successful patch the reset leads to the bootloader if and only if the saved vector is not 0 or it already led there |
| PatchTheorems.PatchedResetWord | src/core/svs_vectors.h:120-121 | with another vector than the reset, the reset word is the rjmp to the bootloader |
| PatchTheorems.KnownSwitch | src/core/svs_vectors.h:80-88 | every firmware that resets with a jmp to 0x1A6, patched for bootloader 0x7F00 and vector 25, starts with 7F CF D3 00 and has its entry in that vector, as documented |
| PatchTheorems.Vector0LosesBootloader | src/core/svs_vectors.h:110-130 | an image that is patched for vector 0 without an error and then resets into the application |
| Flasher.EvaluateReachable | src/platform/esp32/main/svs_flasher.cpp:344-409 | every bootloader that passes the check starts exactly as many pages below the end of the flash as its table says, and is in reach of a reset rjmp |
| Flasher.SyncRoundTrip | src/platform/esp32/main/svs_flasher.cpp:297-309 | the answer of an urboot to a sync, two digits in base 255 that are never equal nor those of a classic bootloader, decodes to its MCU number and features |
| Flasher.EvaluateExact | src/platform/esp32/main/svs_flasher.cpp:344-409 | a switch is accepted if and only if it is an ATmega328P whose urboot reads flash and erases pages, with a table of versions 7.5 to 12.7 and 1 to 16 pages; where its bootloader starts, whether it is a vector bootloader and with which vector |
| Flasher.PaddedIs | src/platform/esp32/main/svs_flasher.cpp:540-546 | padding appends 0xFF only, up to the next page |
| Flasher.LandedAt | src/platform/esp32/main/svs_flasher.cpp:585-595 | after any page writes of which any have landed, each byte is the image's if its page has landed and the old one otherwise |
| Flasher.ResetOfPages | src/platform/esp32/main/svs_flasher.cpp:567-595 | the reset is that of the new image if its first page has landed, and the old one otherwise |
| Flasher.InterruptedIsRecoverable | src/platform/esp32/main/svs_flasher.cpp:567-595 | after any number of page writes, of which any pages have landed, the bootloader is untouched; the reset leads to it, if the first page has landed, if and only if the saved vector is not 0 or the image already led there, and otherwise if and only if it did before |
| Flasher.ExampleFlash | src/platform/esp32/main/svs_flasher.cpp:525-595 | an instance: on a two-page urboot with vector 25 every firmware that resets with a jmp to 0x1A6 and fits stays recoverable at any point once its first page has landed, whichever others have |
| Flasher.Chip.WritePage | src/platform/esp32/main/svs_flasher.cpp:258-268 | the page of the image is on the chip or nothing has changed, and the write is answered or not, in all four combinations |
| Flasher.WritePages | src/platform/esp32/main/svs_flasher.cpp:585-595 | succeeds if and only if every page is answered, stops at the first that is not, and at every moment the chip is the old one with those of the pages written so far that have landed |
| Flasher.VerifyPages | src/platform/esp32/main/svs_flasher.cpp:597-614 | passes exactly when every page could be read and the chip holds the image |
| Flasher.HeldIsImage | src/platform/esp32/main/svs_flasher.cpp:597-614 | the chip then holds the image if and only if every page has landed or was there before |
| Flasher.RefusalExact | src/platform/esp32/main/svs_flasher.cpp:525-583 | nothing is written if and only if the bootloader does not answer, is another one, the firmware is longer than the space below the pages the bootloader says it has, or a patch that is needed fails; which of these it is |
| Flasher.FlashTask | src/platform/esp32/main/svs_flasher.cpp:525-635 | the exact outcome: refused with the first reason there is and then without a write; write failed if and only if some page is not answered; flashed if and only if every page is answered, every page has landed or was there before, and every read is answered; verification failed otherwise; a flash that ends well holds the patched padded image over the old content |
| FlashTraces.WritingMatches | src/platform/esp32/main/svs_flasher.cpp:585-595 | the steps of the state machine write what the loop writes, whatever becomes of each page |
| FlashTraces.ZeroIsAccepted | src/platform/esp32/main/svs_flasher.cpp:396-405 | a bootloader of version 7.5 that flags itself a vector bootloader and reports vector 0 is accepted |
| FlashTraces.ZeroIsLost | src/platform/esp32/main/svs_flasher.cpp:415-635 | a run that checks, previews and flashes such a switch, every answer right, after which its reset no longer leads to its bootloader |
| FlashSafety.FlashingIsGated | src/platform/esp32/main/svs_flasher.cpp:415-635 | in every run each page write goes to the accepted bootloader the latest check found, for a vector bootloader after a matching preview since that check; at most one task runs |
| FlashSafety.NoSwitchIsLost | src/platform/esp32/main/svs_flasher.cpp:525-635 | in every run, whichever pages land: on every switch all bytes from the start of its bootloader on, by its own size byte, are as they were; a switch with an unaccepted bootloader is unchanged; one whose own vector byte names a vector other than the reset is led to its bootloader by the reset if and only if it was at the start or a first page has landed; a preview that matched on it means that it is |
| FlashFresh.CheckHoldsForPlugged | src/platform/esp32/main/svs_flasher.cpp:415-448 | in every run, if flashing is let through on the current connection, what the last check accepted is the bootloader of the very switch that is plugged in |
| FlashFresh.CanFlashExact | src/platform/esp32/main/svs_flasher.cpp:885-928 | flashing is let through if and only if nothing runs, the last check was made on this connection and accepted the bootloader, a firmware that fits is staged, and a preview has matched if it is a vector bootloader |
| FlashFresh.CallsWait | src/platform/esp32/main/svs_flasher.cpp:771-850 | while a task runs or nothing is plugged in no call starts another, and a running task's firmware cannot be exchanged |
| FlashSafety.RunKeeps | src/platform/esp32/main/svs_flasher.cpp:771-928 | the invariant behind both holds after every run |
| FlashSafety.NextKeeps | src/platform/esp32/main/svs_flasher.cpp:771-928 | each call, task step, plug and unplug keeps it |
| FlashSafety.CanFlashIsReady | src/platform/esp32/main/svs_flasher.cpp:885-928 | what the status lets be flashed is a checked, accepted and, if need be, previewed bootloader |
| FlashSafety.PageKeeps | src/platform/esp32/main/svs_flasher.cpp:585-595 | one page of a good image that lands keeps the bootloader; after the first page the reset leads to it, after any other it does if it did |
| FlashSafety.ToWriteIsGood | src/platform/esp32/main/svs_flasher.cpp:547-583 | what the flash task writes fits below the bootloader and leads to it |
| FlashSafety.KeptIdentity | src/platform/esp32/main/svs_flasher.cpp:314-327 | flashing does not change what the bootloader reveals of itself |
| FlashSafety.PreviewMeansRecoverable | src/platform/esp32/main/svs_flasher.cpp:489-510 | a preview matches only on a switch whose reset already leads to its bootloader |
| FlashSafety.PreviewEnterStep | src/platform/esp32/main/svs_flasher.cpp:464-510 | reading the reset in the bootloader keeps the invariant, in which the preview task only stands at a match on such a switch |
| TelnetTheorems.BaudIsKept | src/core/rfc2217_proto.c:148-156 | a client that sets a rate is told that rate, and told it again when it asks with 0, with nothing else changed |
| TelnetSettings.SessionIsLastAsked | src/core/rfc2217_proto.c:102-194 | after any stream BINARY and SGA stand, for both sides, as the client's last verb about them says, and rate, data size, parity, stop size and DTR are those it last set |
| TelnetSettings.NoOtherOption | src/core/rfc2217_proto.c:43-136 | no other option is ever agreed to, but for COM-PORT on the client's side |
| TelnetSettings.RefusedOrConfirmed | src/core/rfc2217_proto.c:102-128 | a request for any other option is refused, and the offer of COM-PORT always confirmed |
| TelnetSettings.AnswersAreTrue | src/core/rfc2217_proto.c:138-194 | each COM-PORT request is answered with the value that holds afterwards, the signature, the state asked for, or its own first byte; flow control with nothing |
| TelnetTheorems.PrintParses | src/core/rfc2217_proto.c:196-242 | any list of data runs, negotiations, subnegotiations and two-byte commands, printed and parsed, is handed on as exactly those items in order; a body over 64 bytes is cut and marked |
| TelnetTheorems.TextParses | src/core/rfc2217_proto.c:200-210 | data with 0xFF doubled comes out as that data |
| TelnetTheorems.BodyParses | src/core/rfc2217_proto.c:223-234 | a subnegotiation body with 0xFF doubled is stored up to 64 bytes and marked when longer |
| TelnetTheorems.ServeConcat | src/core/rfc2217_proto.c:196-242 | however a stream is cut into reads, state, data, replies and DTR are the same |
| TelnetTheorems.DataFits | src/core/rfc2217_proto.c:196-242 | no more data comes out than bytes went in |
| TelnetTheorems.RenderIsPrint | src/core/rfc2217_proto.c:67-78 | a reply's bytes are the well-formed Telnet for it if and only if the answered command is not 155 |
| TelnetTheorems.RenderParses | src/core/rfc2217_proto.c:60-78 | such a reply parses back to 44, the command plus 100 and the payload |
| TelnetTheorems.NothingShorter | src/core/rfc2217_proto.c:196-242 | whatever is parsed, each token took at least the bytes its printed form has, escapes included, wherever the stream starts and stops |
| TelnetTheorems.ReadAsNeedsBytes | src/core/rfc2217_proto.c:196-242 | a stream that is read as a list of items is at least as long as the printer's form of them |
| Negotiation.TokensInStep | src/core/rfc2217_proto.c:88-194 | if the announcements of BINARY and SGA so far alternate and end with what is remembered, they do after any tokens; no other option is ever on |
| Negotiation.RepeatIsSilent | src/core/rfc2217_proto.c:100-136 | asking again for what was just asked is answered if and only if the option is one always refused, or COM-PORT |
| Negotiation.SubnegReplies | src/core/rfc2217_proto.c:138-194 | a subnegotiation gets at most one reply, to its own command, touches no option and reports DTR exactly when it goes on |
| Negotiation.RenderedLength | src/core/rfc2217_proto.c:60-78 | replies are never longer than their well-formed Telnet, and as long if and only if none answers command 155 |
| Negotiation.AnswersBounded | src/core/rfc2217_proto.c:56-242 | the replies to n bytes, with up to 5 of an item begun before, are at most 16 bytes for every 6 and 3 for 3 left over |
| Negotiation.VendorAnswered | src/core/rfc2217_proto.c:180-192 | a request that has it answered |
| Negotiation.VendorMisread | src/core/rfc2217_proto.c:67-78 | that reply, whatever follows it, is read as something else |
| Rfc2217.OutBuffer.Put | src/core/rfc2217_proto.c:56-58 | a byte is appended, or dropped when the buffer is full |
| Rfc2217.Io.PutCmd | src/core/rfc2217_proto.c:60-64 | an announcement is put, as far as the buffer has room |
| Rfc2217.Io.PutCpo | src/core/rfc2217_proto.c:67-78 | a COM-PORT reply is put, payload escaped, as far as the buffer has room |
| Rfc2217.Connection.constructor | src/core/rfc2217_proto.c:80-86 | a new connection is between items, at 9600 8N1, with no option on |
| Rfc2217.Connection.Greeting | src/core/rfc2217_proto.c:88-98 | the five offers are put and remembered |
| Rfc2217.Connection.HandleVerb | src/core/rfc2217_proto.c:102-136 | option state and answer are those of the negotiation on values, for which Negotiation.TokensInStep and TelnetSettings.SessionIsLastAsked hold |
| Rfc2217.Connection.HandleSubneg | src/core/rfc2217_proto.c:138-194 | session, reply and DTR are those of the handling on values |
| Rfc2217.Connection.Input | src/core/rfc2217_proto.c:196-242 | the byte-by-byte parser with its bounded buffers ends where parsing and then handling the whole read ends; data and replies are those of the unbounded run, cut to the buffers |
| Rfc2217.BuffersOnlyCut | src/core/rfc2217_proto.c:56-58 | a buffer holds a prefix of what it was given, and all the data when it has room for the read |
| Rfc2217.EscapeInto | src/core/rfc2217_proto.c:250-260 | as many whole escaped bytes as fit; a doubled 0xFF is never split |
| Rfc2217.FittingIsMost | src/core/rfc2217_proto.c:250-260 | that many bytes fit escaped, and one more would not |
| Rfc2217.SendText | src/platform/esp32/main/rfc2217.cpp:91-103 | ends for any text; succeeds if and only if every send works and stops at the first that does not; what has got through is exactly the pieces before it, and the other end reads from them a start of the text, which is all of it if and only if it succeeds |
| Rfc2217.PiecesAreText | src/platform/esp32/main/rfc2217.cpp:91-103 | the first pieces are the escaped text as far as it goes, each of at most 128 bytes and of whole escaped bytes |
| Rfc2217.TextArrives | src/platform/esp32/main/rfc2217.cpp:91-103 | the escaped text parses back to the text, with no answer and no change of state |
| EchoFilter.LineIsNumber | src/core/rfc2217_proto.c:279-290 | the loop with its early exits accepts what scanning the whole line accepts |
| EchoFilter.ScanExact | src/core/rfc2217_proto.c:278-290 | that is exactly the lines of digits, blanks and at least one digit that spell the number, for numbers up to 1000 |
| EchoFilter.Filter.Expect | src/core/rfc2217_proto.c:269-272 | waits for the number and forgets what was held |
| EchoFilter.Filter.Release | src/core/rfc2217_proto.c:292-298 | what was held goes out, as far as there is room, and the wait ends |
| EchoFilter.Filter.Run | src/core/rfc2217_proto.c:300-324 | the in-place filter does what the filter on values does, cut to the output buffer |
| EchoFilter.FilterIsByLine | src/core/rfc2217_proto.c:300-324 | the byte-by-byte filter is the line-by-line one |
| EchoFilter.OneLineDropped | src/core/rfc2217_proto.c:300-324 | a line is dropped if and only if there is a first line that is only the number with no line over 40 bytes up to it; every other byte comes out or is held |
| EchoFilter.RunConcat | src/core/rfc2217_proto.c:300-324 | however the switch's bytes are cut into reads, the same comes out |
| EchoFilter.OutputBounded | src/core/rfc2217_proto.c:300-324 | a read lets out fewer than its own bytes plus 40 |
| EchoFilter.AnswerKeepsTheRest | src/platform/esp32/main/rfc2217.cpp:137-152 | for any Y or G command of a client: all the switch says comes out or is held but for the first line that is only the input asked about |
| EchoFilter.WaitsAccount | src/core/rfc2217_proto.c:262-324 | over any sequence of waits, bytes and timeouts: what came out, was dropped, was forgotten when a new wait began and is still held is, in order, all the switch said; each wait drops at most one line and forgets at most part of one |
| EchoFilter.OnlyAskedDropped | src/core/rfc2217_proto.c:262-324 | and each dropped line is only a number that was waited for |
| EchoAnswers.TypedIsAsked | src/platform/esp32/main/rfc2217.cpp:137-152 | Y or G, a number below 1000 and a line end of either kind, typed, make the filter wait for that number |
| EchoAnswers.EchoIsDropped | src/core/rfc2217_proto.c:278-324 | the number on a line of its own that the switch then says does not come out, and all that follows does |
| RxTap.Tap.AddByte | src/platform/esp32/main/svs_usb.cpp:163-170 | the ring with its wrapped counter holds the last 2048 bytes of the whole history |
| RxTap.Tap.Add | src/platform/esp32/main/svs_usb.cpp:163-170 | so it does after a run of bytes |
| RxTap.Tap.RxSince | src/platform/esp32/main/svs_usb.cpp:180-192 | with its wrapped counters, a reader is given and left where asking for as much on the whole history gives and leaves it: a contiguous piece from its place or the oldest byte left |
| RxTap.EveryByteOnce | src/platform/esp32/main/svs_usb.cpp:158-192 | over any run of bytes that come and questions, each of which RxSince answers so: every byte is given, missed or still to come; a reader misses none if and only if it never falls a ring behind, and then gets each exactly once in order |
| RxTap.AskedInPieces | src/platform/esp32/main/svs_usb.cpp:180-192 | asking twice gives and misses what asking once for as much does, and asking for enough catches up |
| RxTap.SlotOfWrapped | src/platform/esp32/main/svs_usb.cpp:158-161 | the ring slot of a count does not change when the 32-bit counter wraps |
| RxTap.WrappedDifference | src/platform/esp32/main/svs_usb.cpp:183-187 | the difference of two wrapped counters is that of the counts, for a lag below 2^32 |
| ClientRuns.TypedLine.LogLine | src/platform/esp32/main/rfc2217.cpp:137-152 | a whole typed line, less the line ends around it, makes the filter wait if and only if it asks about an input |
| ClientRuns.TypedLine.FromClient | src/platform/esp32/main/rfc2217.cpp:156-173 | typed bytes the switch took are gathered into lines byte by byte, a line ending with a line feed or at 128 bytes; if it did not take them the line begun is dropped |
| ClientRuns.SentIsAll | src/platform/esp32/main/rfc2217.cpp:279-340 | over any run of a connection all that is meant is sent if and only if the replies to each read fit the reply buffer |
| ClientRuns.ReadAsMeant | src/platform/esp32/main/rfc2217.cpp:237-340 | over any run of a connection - reads, modem states, waits that run out, bytes of the switch, in any order - the client reads from all it is sent exactly the replies, announcements and data that were meant, in order, if and only if the replies to each read fit the reply buffer and command 155 is never answered |
| ClientTheorems.AnnouncedInStep | src/core/rfc2217_proto.c:88-136 | over any run the announcements made for BINARY and SGA alternate and end with what is remembered; if nothing is cut or misread the same holds of the announcements the client reads |
| ClientTheorems.RunIsAsAsked | src/core/rfc2217_proto.c:88-194 | over any run the options stand and the line is set as the client last asked in all it has sent, however it was cut into reads |
| ClientTheorems.ModemIsTold | src/platform/esp32/main/rfc2217.cpp:305-313 | over any run a look at the modem state tells it to the client if and only if it is the first or another one than at the look before |
| ClientTheorems.OfferedFirst | src/core/rfc2217_proto.c:88-98 | the fifteen bytes a client is sent first |
| ClientTheorems.NotTakenNotTyped | src/platform/esp32/main/rfc2217.cpp:156-168 | bytes the switch did not take ask nothing and end the line begun |
| ClientTheorems.ShortReadsFit | src/platform/esp32/main/rfc2217.cpp:274-295 | a client whose reads are of at most 93 bytes never has a reply cut |
| ClientTheorems.LostAnnouncement | src/core/rfc2217_proto.c:56-58 | 93 cannot be 94: two reads after which the client has been told that BINARY is on and never that it is off, which the server remembers |
| ClientTheorems.SwitchIsHeard | src/platform/esp32/main/rfc2217.cpp:315-340 | over any run, if nothing is cut or misread, the client's data is what the filter let out; that, the lines it dropped, each only a number the client asked about, the parts of lines it forgot and what it holds are in order all the reader was given, with no more drops or losses than waits; and the reader misses nothing if and only if it keeps up with the tap, and then has had every byte since the connection began |
| Lockout.Auth.CheckPassword | src/platform/esp32/main/auth.cpp:174-216 | locked if and only if the lock has not run out, right if and only if it has and the password is right; the failures, the lock and the seconds told then; and all as in the lockout on values |
| Lockout.RetryIsEnough | src/platform/esp32/main/auth.cpp:178-182 | waiting as long as told is enough and at most a second too long |
| Lockout.StreakTakesTime | src/platform/esp32/main/auth.cpp:174-216 | in every run of calls the failures counted are the wrong passwords evaluated since the last right one, and these took at least the sum of their locks |
| Lockout.GuessingIsSlow | src/platform/esp32/main/auth.cpp:174-216 | n of them, from ten on, take at least 930 + 900 (n - 10) seconds |
| Lockout.WaitFromTen | src/platform/esp32/main/auth.cpp:33-35 | the sum of the locks in closed form |
| Lockout.LocksDouble | src/platform/esp32/main/auth.cpp:33-35 | the first lock is of 30 seconds, the next four each twice the one before, all later ones of 900 |
| Sessions.SessionTable.Create | src/platform/esp32/main/auth.cpp:222-251 | the new session replaces the slot the search picks |
| Sessions.SessionTable.Check | src/platform/esp32/main/auth.cpp:253-275 | an accepted session is extended, an expired one cleared, anything else leaves the table alone |
| Sessions.SessionTable.End | src/platform/esp32/main/auth.cpp:277-286 | every slot with the token is cleared and no other |
| Sessions.SessionTable.EndAll | src/platform/esp32/main/auth.cpp:288-295 | every slot is cleared |
| Sessions.PickIs | src/platform/esp32/main/auth.cpp:233-246 | the slot that makes room is empty or expired, or all are in use and none was used longer ago |
| Sessions.TableIsLru | src/platform/esp32/main/auth.cpp:222-295 | in every run the table is a least-recently-used set of at most four sessions, answer by answer: what is in it is accepted, what is not is refused, and only a login into a full set takes one out, a least recently used one |
| Sessions.SessionAnswers | src/platform/esp32/main/auth.cpp:222-295 | after any run a token is accepted only if its session was used within twelve hours and neither refused nor ended since; such a token is refused only if at least four others were used since |
| Ota.Apply | src/platform/esp32/main/web_server.cpp:425-530 | for any read sizes and any answers of the flash: no partition, wrong size and done each exactly when they should be, done if and only if every read until the image is whole brings bytes, the headers pass and the begin, every write, the end and the boot switch work; any other outcome is the verdict on the last read, and what was asked of the flash is exactly what belongs to it |
| Ota.Transfer | src/platform/esp32/main/web_server.cpp:449-529 | the loop: outcome and log are those of the first read whose verdict ends the transfer |
| Ota.CheckHeaders | src/platform/esp32/main/web_server.cpp:468-501 | nothing begins before the headers are in and pass |
| Ota.DoneExact | src/platform/esp32/main/web_server.cpp:449-529 | the transfer succeeds if and only if all of it does |
| Ota.OutcomeMeans | src/platform/esp32/main/web_server.cpp:449-529 | what each outcome says: which read ended the transfer and how, whether the image was too small, the headers did not pass, or which step of the flash failed |
| Ota.OneEnd | src/platform/esp32/main/web_server.cpp:449-529 | only one read can end a transfer |
| Ota.LogConserves | src/platform/esp32/main/web_server.cpp:449-529 | what was written is a start of what was received and all of it once the end is asked for; a read or write that failed after the begin is followed by one abort, anything else by none; the boot slot switches only after all is written and the end has worked |
| Ota.WholeChunks | src/platform/esp32/main/web_server.cpp:503-515 | however a transfer ends, every write in its log but the last is a whole chunk, and the last is of at least a byte and at most a chunk |

## Left out

- TranscoderSettings.SetTranscoders: what the switch reports of the input it shows is true, nobody else operates it meanwhile, and turning one transcoder leaves the other alone. `Switch.Svs` decides everything else.
- IntelHex.DecodeHex: the copy that follows a wrapped range check is outside the buffer, so C++ gives it no meaning; the outcome is `Unknown`, and `HexTheorems.UnknownExact` says for which files.
- Rfc2217.SendText: a send that fails may have sent part of its bytes; the model counts it as nothing sent.
- RxTap.Tap.RxSince: a reader 2^32 bytes behind cannot be told from one that is not; the lag is below that.
- Lockout.StreakTakesTime: calls come one after the other and the failure counter does not overflow.
- Sessions.TableIsLru: fresh tokens are assumed new; random generation and the constant-time comparison are not modelled. Of two sessions last used in the same microsecond either may be the one that goes.
- SettingsRequest.ReadAndSave: the read, the request and the save are one after the other; the JSON around the numbers is not modelled.
- Ota.Apply: the header checks are one yes-or-no question about the first bytes; reads are taken to give at least one byte and at most what is asked, as the reader's description promises.
- FlashSafety.NoSwitchIsLost: one caller at a time, a session talks to one switch, and a page write is one step. The verify pass changes nothing and is in `Flasher.FlashTask` only.
- FlashSafety.FlashingIsGated: task names, phases, results and the staged file's hash are not part of the state.
- ClientRuns.ReadAsMeant: one connection whose sends work; one that fails ends the connection (`Rfc2217.SendText` says what has then got through). A read is of at most 256 bytes, so the data buffer never cuts (`TelnetTheorems.DataFits`); the model takes reads of any length. Whether the switch takes what is typed, and the restart when DTR goes on, are the switch's affair.
- The traffic log of the serial port, its 300 entries and readers: an easier twin of the receive tap.
- Text of the serial commands and answers (`write_command`, `parse_byte_reply`, `transcoder_value`, `firmware_number`): the switch is modelled by the bytes it is asked for and given.
- `rfc2217_describe`, the table of three clients and their turns, sockets and timeouts of the RFC 2217 task.
- Bootloader sync, retries and timing, the diagnostics capture: entering the bootloader is an answer or none.
- Password hashing, the API token, storage in flash, HTTP routes, cookies, JSON, web pages, WiFi, DNS, factory reset.
