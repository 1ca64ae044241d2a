# Firmware verification in Dafny

A model of the parts of the I2C/JTAG bus tool (`src/`) and of the LUFA projects and bootloaders it is built beside
(`third-party/LUFA100513/`) that keep state, and proofs of what they do.

Code that changes things step by step is modelled that way: classes with the program's variables, arrays for its
buffers, and loops with invariants. Each such method is proved equal to a function, and the results about whole
writes, brackets, runs and sessions are lemmas about these functions. Command bytes, replies, packet
fields, reset lines, digits, delimiters and key codes are stated apart from these functions, by their literal values
(`DfuCommands`, `DhcpPackets`, `CommandLines`, `JtagDevice.PacketSets`, `Parse.NumeralMeans`, `Magstripe.SwipeBytes`).

| files | system part |
|---|---|
| `DataflashChip`, `DataflashManager`, `DataflashTheorems` | 512-byte blocks on a Dataflash chip with other page sizes and two SRAM buffers |
| `I2cWire`, `I2cLine`, `I2cMaster`, `I2cBus`, `I2cTheorems`, `I2cBrackets` | the bit-banged I2C master, on open-drain lines with an arbitrary slave, and the bus layer that defers each operation by one |
| `Jtag`, `JtagDevice` | the unrolled tap loops, run in place in the USB buffer |
| `AvrFlash`, `AvrEeprom`, `DfuFlash`, `Dfu`, `DfuTheorems`, `DfuCommands`, `Cdc` | the DFU and CDC bootloaders on self-programmed flash |
| `Parse`, `Console`, `Commands`, `CommandLines`, `I2cCommands` | number parser, printers, command line, and typed lines down to the I2C wire |
| `DhcpOptions`, `DhcpClient`, `DhcpPackets`, `DhcpApp` | the DHCP client on its packet buffer |
| `CircularBitBuffer`, `Magstripe` | the magnetic stripe reader that types what it reads |
| `RingBuff`, `UsbToSerial`, `UsbToSerialRuns` | the USB to serial adapter, main loop and interrupt in any order |
| `Scheduler` | the delay test of the LUFA scheduler |
| `Words` | fixed-width unsigned arithmetic, division, places in a ring, optional values |

What comes from outside is a parameter: the bytes a host sends, the slave on the bus and the target on the JTAG
cable as functions of what they have seen, card samples, timer results, and the contents of every memory.
Page sizes, memory sizes, buffer lengths, block counts and delays are variables, not constants.

Results that did not come out as the code's comments promise are stated with the exact condition under which the
promise holds: which Dataflash writes are faithful (`DataflashTheorems.WriteFaithfulIff`,
`DataflashTheorems.RamWriteFaithfulIff`) and on which page sizes all are (`DataflashTheorems.PageSizesExact`), which
abandoned writes leave a prefix (`DataflashTheorems.AbandonedExact`), which DFU downloads and CDC blocks keep their
data (`DfuTheorems.DownloadRightIff`, `Cdc.WriteBlockExact`; whole words only, odd counts and odd addresses lose a
byte), when a DFU read command is answered (`DfuTheorems.ReadUpload`), when a blank check of a blank application
passes (`DfuTheorems.BlankCheckExact`, `DfuTheorems.EraseThenBlankCheck`), when the CDC chip erase erases everything
(`Cdc.ChipEraseExact`), which brackets and sessions are safe with every slave (`I2cBrackets.BracketExact`,
`I2cBrackets.SessionExact`, `I2cBrackets.AddressOnly`), and for which delays polling works
(`Scheduler.PollingExact`). Where the comments and the code differ, the model follows the code: `WriteBlocks_RAM`
writes data to the first buffer after every page change; a DFU download of a full 64 KB programs nothing; the number
parser lets a second `b` or `x` override a leading `b` or `h`; a `:` count that is no number repeats a command zero
times; a passed blank check does not clear an earlier error, so a part that is blank can still be reported as not
blank (`DfuTheorems.StaleError`); a bracket that opens inside another drops the pending byte; a second router in a
DHCP offer overwrites the server's address.

`dafny verify dfyconfig.toml` checks the whole project.

## Model

| member | source | states |
|---|---|---|
| DataflashManager.WriteBlocks | third-party/LUFA100513/Projects/TemperatureDataLogger/Lib/DataflashManager.c:50-174 | the loops leave the chip, pages and both buffers, as `WriteResult` says, for a host that sends everything and for one that leaves at any chunk, the first included; the chip is released when the write completes |
| DataflashManager.WriteBlocksRam | third-party/LUFA100513/Projects/TemperatureDataLogger/Lib/DataflashManager.c:292-380 | the same for the variant fed from RAM, including its buffer command after a page change |
| DataflashManager.ReadBlocks | third-party/LUFA100513/Projects/TemperatureDataLogger/Lib/DataflashManager.c:184-281 | returns exactly the addressed window of the medium seen as one flat array, or the part of it the host takes, and changes no memory |
| DataflashManager.ChangePage | third-party/LUFA100513/Projects/TemperatureDataLogger/Lib/DataflashManager.c:94-121 | programs the full page, moves to the other buffer and copies the next page into it when the 16-bit test says so |
| DataflashManager.StoreChunk | third-party/LUFA100513/Projects/TemperatureDataLogger/Lib/DataflashManager.c:86-147 | one 16-byte chunk: the page change when the page is full, then sixteen bytes into the right buffer at the right place |
| DataflashManager.Locate | third-party/LUFA100513/Projects/TemperatureDataLogger/Lib/DataflashManager.c:52-54 | the three fixed-width variables give the page and the byte in it where the block starts, for every block inside the medium |
| DataflashTheorems.WriteFaithfulIff | third-party/LUFA100513/Projects/TemperatureDataLogger/Lib/DataflashManager.c:50-174 | for every page size, block address and count: the write replaces exactly the addressed bytes of the medium whatever chip and data hold, if and only if, on pages above 512 bytes, it ends in its first page, at a page end, or where the block count recognises the last page, a count of zero included; on smaller pages, if and only if the count is not zero and it starts and ends on page boundaries |
| DataflashTheorems.PageSizesExact | third-party/LUFA100513/Projects/TemperatureDataLogger/Lib/DataflashManager.c:60-127 | the page sizes for which every non-empty write meets that condition: exactly those whose last part, from the last block boundary inside the page on, divides 512 |
| DataflashTheorems.GoodPageSizes | third-party/LUFA100513/Projects/TemperatureDataLogger/Lib/DataflashManager.c:60-127 | so every write is right on pages that divide 512, are multiples of it, or have 528 or 1056 bytes |
| DataflashTheorems.BadPageSizes | third-party/LUFA100513/Projects/TemperatureDataLogger/Lib/DataflashManager.c:94-127 | for each of the other page sizes, one write from block 0 on that loses data on every medium with room for it |
| DataflashTheorems.WrongPageSizes | third-party/LUFA100513/Projects/TemperatureDataLogger/Lib/DataflashManager.c:94-127 | with 48-byte pages a write of one block is such a write, with 1008-byte pages a write of three |
| DataflashTheorems.ReadBack | third-party/LUFA100513/Projects/TemperatureDataLogger/Lib/DataflashManager.c:50-281 | reading any window after a right write returns the data where the two meet and the old medium elsewhere, so write and read are inverse |
| DataflashTheorems.AbandonedWrite | third-party/LUFA100513/Projects/TemperatureDataLogger/Lib/DataflashManager.c:149-156 | a write that the host leaves changes a prefix of its range to the data, at most one page short of what was sent, and nothing else, if its pages are larger than a block, it starts at a page boundary, or it is left within its first page |
| DataflashTheorems.AbandonedExact | third-party/LUFA100513/Projects/TemperatureDataLogger/Lib/DataflashManager.c:149-156 | over all contents of chip and data, that is so if and only if one of the three holds: otherwise the bytes in front of the data in the first page are lost |
| DataflashTheorems.WrappingOnlyAddsLoads | third-party/LUFA100513/Projects/TemperatureDataLogger/Lib/DataflashManager.c:114 | where the product in the test wraps around, it can only copy a page that will be filled anyway; a needed copy is never left out |
| DataflashTheorems.TailLoadedIff | third-party/LUFA100513/Projects/TemperatureDataLogger/Lib/DataflashManager.c:94-127 | walking the pages of a write, its last page is copied first or filled to the end exactly under the condition on where the write ends |
| DataflashTheorems.PagesOverlay | third-party/LUFA100513/Projects/TemperatureDataLogger/Lib/DataflashManager.c:79-166 | the page-level invariant: with every page committed from a buffer that holds that page's other bytes, the flat medium is the old one with the data laid over it |
| DataflashTheorems.RamWriteFaithfulIff | third-party/LUFA100513/Projects/TemperatureDataLogger/Lib/DataflashManager.c:292-380 | the RAM variant is right for all contents if and only if the transfer stays in one page, because later pages are programmed from a buffer that was not filled |
| I2cWire.StableData | src/hw_i2c.c:207-412 | in any waveform SDA changes while SCL is high exactly as often as the decoding has a START or a STOP |
| I2cWire.BitsRoundTrip | src/hw_i2c.c:278-296 | a byte shifted out most significant bit first and shifted in again is the same byte |
| I2cWire.ShiftOutBits | src/hw_i2c.c:278-296 | testing the top bit and shifting, eight times, gives the bits in bus order |
| I2cWire.UndisturbedSend | src/hw_i2c.c:278-324 | with a slave that leaves the data bits alone the frame on the wire is the byte and the slave's acknowledge |
| I2cMaster.Master.MasterStart | src/hw_i2c.c:207-254 | for any slave, SDA held low or not: SDA falls and rises as `Started` says, a START or, if the slave does not let SDA rise, none, then the nine clock periods of the address; the result is the level in the ninth |
| I2cMaster.Master.MasterStop | src/hw_i2c.c:256-274 | for any slave: a STOP if it lets SDA rise; otherwise none, and the master takes the bus for released all the same |
| I2cMaster.Master.MasterTx | src/hw_i2c.c:300-324 | for any slave: nine clock periods a byte, up to and including the first byte without acknowledge, which is the result |
| I2cMaster.Master.MasterRx | src/hw_i2c.c:354-412 | for any slave: nine clock periods a byte, the last acknowledged as asked, and the bytes that the levels of SDA make |
| I2cMaster.Master.BusClear | src/hw_i2c.c:174-178 | for any slave: the START byte and a STOP, each with what the slave makes of it |
| I2cLine.StartInStep | src/hw_i2c.c:207-254 | where the slave lets SDA rise and no frame has begun, what MasterStart does is a START and the address frame, with the slave's acknowledge |
| I2cLine.TransmitInStep | src/hw_i2c.c:300-324 | behind whole frames, what MasterTx does is one frame a byte up to the first that is not acknowledged |
| I2cLine.ReceiveInStep | src/hw_i2c.c:354-412 | behind whole frames, what MasterRx does is one frame a byte, and it returns the bytes that the slave's frames carry |
| I2cMaster.Master.WriteByte | src/hw_i2c.c:278-296 | eight clock periods with the bits of the byte, SDA changing only while SCL is low |
| I2cMaster.Master.ReadBit | src/hw_i2c.c:328-350 | one clock period, the slave holding SCL for any finite time |
| I2cBus.Bus.StartCondition | src/bus_i2c.c:41-44 | only the state changes: no bus activity, and a pending byte is dropped |
| I2cBus.Bus.WriteByte | src/bus_i2c.c:96-152 | one call of the deferred machine, for any slave: what was pending goes out, the new byte is kept, a missing acknowledge clears the bus |
| I2cBus.Bus.ReadByte | src/bus_i2c.c:154-193 | one call of the deferred machine on reading, for any slave: the previous read goes out acknowledged |
| I2cBus.Bus.StopCondition | src/bus_i2c.c:46-94 | for any slave: the pending operation goes out, a pending read without acknowledge, then a STOP if the slave lets SDA rise |
| I2cBus.Perform | src/bus_i2c.c:41-193 | any sequence of calls on the program, for any slave, takes mode, pending byte, lines and output where the call-by-call machine says |
| I2cBus.RunClean | src/bus_i2c.c:41-193 | a sequence of calls none of which needs SDA where the slave holds it low has exactly the frames, modes and bytes of the frame-level machine that the results below are about |
| I2cTheorems.WritesRun | src/bus_i2c.c:96-152 | the deferral invariant: bytes sent and the pending byte are together the bytes given, until the first byte without acknowledge; after it the calls only clear the bus |
| I2cTheorems.WriteBracketRun | src/bus_i2c.c:41-152 | a bracket of n writes, from any state: exactly the wire events of the undeferred bracket, and nothing handed to the user |
| I2cTheorems.ReadBracketRun | src/bus_i2c.c:46-94 | a bracket of n reads: one START, n frames of which only the last is not acknowledged, STOP, and the n bytes of one long read |
| I2cTheorems.WriteBracketWire | src/bus_i2c.c:41-152 | for every slave that keeps the bus rules: address, bytes bit for bit up to the first that is not acknowledged, STOP; afterwards only bus clears, and none of the later bytes |
| I2cTheorems.ReadBracketWire | src/bus_i2c.c:154-193 | for every such slave that acknowledges the address: n frames carry the n bytes returned, and exactly the last is not acknowledged |
| I2cBrackets.BracketExact | src/bus_i2c.c:41-193 | on a free bus, the calls between an open and a close are clean for every slave that keeps the rules, none of them meeting a held SDA at a START or STOP, if and only if the first is no address that a slave may answer by sending, or one read or more and nothing else follow it, or just one write, or two writes and then anything |
| I2cBrackets.BracketClean | src/bus_i2c.c:41-193 | and the bus is free behind them, so well-formed brackets and probes for a write address are always safe |
| I2cBrackets.SessionExact | src/bus_i2c.c:41-193 | a whole session of brackets is clean for every such slave if and only if each of its brackets is |
| I2cBrackets.LineClean | src/bus_i2c.c:41-193 | sessions of well-formed brackets and probes for write addresses are clean, and leave the bus free |
| I2cBrackets.LineRun | src/bus_i2c.c:41-193 | for any slave, such a session has the wire events of its brackets one behind the other, and hands over their bytes in order |
| I2cBrackets.AddressOnly | src/bus_i2c.c:46-94 | a bracket with an address and nothing else is clean for every such slave if and only if it is a write address or the START byte |
| I2cBrackets.AddressOnlyLine | src/bus_i2c.c:46-94 | what the lines show of it, for any slave: a STOP if the slave releases SDA behind the address, otherwise no STOP and SDA low on a bus that the master takes for released |
| I2cBrackets.StrayRun | src/bus_i2c.c:147-150 | for every slave that keeps the rules: each byte or read outside a bracket, after a failure inside one, or beginning with a read behind an open, shows a START, the byte 0000 0001 without acknowledge and a STOP, leaves the bus in its error mode, and neither sends nor hands over a byte |
| I2cBrackets.TransferStray | src/bus_i2c.c:188-191 | run on the program and closed, such calls leave line levels that decode to just these events, and a free bus |
| I2cBrackets.Transfer | src/bus_i2c.c:41-193 | run on the program, a well-formed bracket leaves line levels that decode to it, the user has its bytes and the bus is released; if all is acknowledged, SDA changes while SCL is high exactly twice |
| I2cBrackets.TransferWrite | src/bus_i2c.c:41-152 | run on the program, an acknowledged write bracket leaves line levels that decode to START, address, data and STOP, with no other change of SDA while SCL is high |
| Jtag.TapOutput | src/jtag.c:45-320 | for 1 to 65535 taps: clocks exactly the taps of the output buffer as it was, stores the packed samples, returns their number of bytes in eight bits, which is all of it up to the documented 1020 taps, touches no other byte of the input and no reset line; input and output may share an array with the input in front |
| Jtag.FourTaps | src/jtag.c:58-119 | one round of the unrolled loop, with its four early exits, is up to four steps of the bit-by-bit description |
| Jtag.TapLies | src/jtag.c:58-119 | tap j of the output takes TDI from bit 2(j mod 4) of byte j / 4 and TMS from the bit above it |
| Jtag.TdoLands | src/jtag.c:110-126 | TDO of tap j, sampled after taps 0 to j, comes back in bit j mod 8 of byte j / 8 |
| Jtag.PairLands | src/jtag.c:307-319 | TDO and EMU of tap j come back in bits 2(j mod 4) and 2(j mod 4) + 1 of byte j / 4 |
| Jtag.InByteBit | src/jtag.c:123-126 | each sample is in its place and all bits behind the last one are zero |
| Jtag.ShiftedPacks | src/jtag.c:123-124 | a part-filled shift register, shifted down, is the packed byte |
| Jtag.Port.Clock | src/jtag.c:63-66 | one pulse of TCK presents the pair of levels and keeps the reset lines |
| JtagDevice.Device.Tick | src/usbdev_jtag.c:155-240 | a reply that waits goes to the host when it takes it, and a packet is answered by the reply its bytes call for, computed in place, with the reset lines and the delay its command sets, the lines bit by bit: SRST is bit 0 of the argument after commands 2 and 6, TRST is bit 0 after 1 and bit 1 after 6, both are kept otherwise, and the delay is 256 times the argument after 5; without a packet nothing else changes |
| JtagDevice.Device.TapCommand | src/usbdev_jtag.c:176-196 | a tap command with 1 to 127 bytes and a tail of 0 to 3, run in the shared buffer, clocks exactly the taps the packet asks for and replies with their samples |
| JtagDevice.PacketFits | src/usbdev_jtag.c:126-128 | the taps end before the end of the packet and the samples before the first unread tap, so both stay in the 130-byte buffer |
| JtagDevice.Device.SetCommand | src/usbdev_jtag.c:198-233 | the input, reset and delay commands: their one-byte replies and the lines or the delay they set |
| JtagDevice.PacketSets | src/usbdev_jtag.c:204-229 | what these commands do to the reset bits of the port, bit by bit, and to the delay, for every packet and whatever the port held |
| JtagDevice.TapPacket | src/usbdev_jtag.c:176-196 | the number of taps of a packet, and each tap's TDI and TMS, by the bits of the packet |
| JtagDevice.TdoReply | src/usbdev_jtag.c:176-187 | the answer bit by bit: TDO of tap j in bit j mod 8 of byte j / 8, zeros behind the last tap, and no more bytes than that takes |
| JtagDevice.PairReply | src/usbdev_jtag.c:189-196 | the answer bit by bit with TDO and EMU of four taps to a byte |
| JtagDevice.SetReply | src/usbdev_jtag.c:198-233 | the bytes of the other answers: TDO and EMU for the input, zero for the settings, none for unknown commands |
| DfuFlash.ProgramLeaves | third-party/LUFA100513/Bootloaders/DFU/BootloaderDFU.c:236-270 | the programming loop, from the middle of an erased page on: data in place, ones up to the end of the last page, every other byte as it was, each page erased before it is filled |
| DfuFlash.DownloadRight | third-party/LUFA100513/Bootloaders/DFU/BootloaderDFU.c:215-277 | a download that starts a page, or stays within one, leaves exactly the data, blanks the rest of the pages it touches and keeps all others |
| DfuFlash.DownloadExact | third-party/LUFA100513/Bootloaders/DFU/BootloaderDFU.c:248-270 | it keeps every stream of n bytes at s if and only if n is zero, or both s and n are even and it starts a page or stays within one |
| DfuFlash.CrossingFails | third-party/LUFA100513/Bootloaders/DFU/BootloaderDFU.c:248-270 | a download that crosses into the next page without starting one loses this stream: its byte at the next page's start lands elsewhere |
| DfuFlash.OddCountFails | third-party/LUFA100513/Bootloaders/DFU/BootloaderDFU.c:248-270 | a download of an odd number of bytes loses its last byte: this stream shows it |
| DfuFlash.OddStartFails | third-party/LUFA100513/Bootloaders/DFU/BootloaderDFU.c:248-270 | a download to an odd address loses its first byte: this stream shows it |
| DfuFlash.EraseAll | third-party/LUFA100513/Bootloaders/DFU/BootloaderDFU.c:664-675 | the erase loop blanks every byte of the application and no other |
| DfuFlash.FirstNonBlank | third-party/LUFA100513/Bootloaders/DFU/BootloaderDFU.c:597-623 | the address found is the least whose byte is not blank |
| Dfu.Bootloader.HandleRequest | third-party/LUFA100513/Bootloaders/DFU/BootloaderDFU.c:152-458 | one request on the program is one step of the state machine, in state, memory and reply |
| Dfu.Bootloader.HandleDnload | third-party/LUFA100513/Bootloaders/DFU/BootloaderDFU.c:160-302 | a pending exit, the command of the request and the data behind it, in this order |
| Dfu.Bootloader.ProcessBootloaderCommand | third-party/LUFA100513/Bootloaders/DFU/BootloaderDFU.c:491-534 | the secure gate and the dispatch of the five commands |
| Dfu.Bootloader.ProcessMemProgCommand | third-party/LUFA100513/Bootloaders/DFU/BootloaderDFU.c:556-581 | the addresses are taken over and the first page of a flash download is erased |
| Dfu.Bootloader.ProcessMemReadCommand | third-party/LUFA100513/Bootloaders/DFU/BootloaderDFU.c:587-625 | the display commands and the blank check |
| Dfu.Bootloader.ProcessWriteCommand | third-party/LUFA100513/Bootloaders/DFU/BootloaderDFU.c:630-683 | leaving the bootloader in its two ways, and the chip erase with the end of the secure mode |
| DfuCommands.PageSet | third-party/LUFA100513/Bootloaders/DFU/BootloaderDFU.c:528-530 | on an open part, the command 06 03 00 x makes x the 64 KB page and changes no memory |
| DfuCommands.PageKept | third-party/LUFA100513/Bootloaders/DFU/BootloaderDFU.c:491-534 | no other request changes the page, but for the blank check |
| DfuCommands.PagedDownload | third-party/LUFA100513/Bootloaders/DFU/BootloaderDFU.c:215-407 | after that command a download of whole words that starts a flash page or stays within one leaves its stream from 65536 x plus the first address on, keeps every byte outside the pages it touches, and a display command and an upload return the stream |
| DfuCommands.LeaveLoader | third-party/LUFA100513/Bootloaders/DFU/BootloaderDFU.c:630-661 | the command 04 03 and an empty request behind it: the watchdog for a zero, otherwise the loader ends with the address of the fourth and fifth parameter, the high byte first; nothing before the empty request |
| DfuCommands.ClearAndAbort | third-party/LUFA100513/Bootloaders/DFU/BootloaderDFU.c:411-456 | the bytes of the status reply: clearing makes the status 0 and keeps the state, an abort makes the state 2 and keeps the status |
| DfuCommands.RefusedTold | third-party/LUFA100513/Bootloaders/DFU/BootloaderDFU.c:493-511 | a command refused by a secure part is told as status 3 in state 10, and changes no memory |
| DfuCommands.NotBlankTold | third-party/LUFA100513/Bootloaders/DFU/BootloaderDFU.c:597-623 | a failed blank check is told as status 5 in state 10, and the upload behind it is the low 16 bits of the least address that is not blank, the low byte first |
| DfuCommands.TransferTold | third-party/LUFA100513/Bootloaders/DFU/BootloaderDFU.c:556-594 | a download command is told as state 5, a display command as state 9 |
| DfuTheorems.ReadUpload | third-party/LUFA100513/Bootloaders/DFU/BootloaderDFU.c:322-335 | a read command and an upload, secure part or not, exit pending or not, return the byte of the version or signature table that the command asks for, if and only if no upload was under way and, for the signature, the loader was not in the error state, where the upload is that of a failed blank check |
| Dfu.Bootloader.ProgramFlash | third-party/LUFA100513/Bootloaders/DFU/BootloaderDFU.c:222-277 | the loop makes exactly the fills, writes and erases of the programming function |
| Dfu.Bootloader.UploadData | third-party/LUFA100513/Bootloaders/DFU/BootloaderDFU.c:322-407 | the three kinds of upload: flash or EEPROM data, the blank check address, the response byte |
| DfuTheorems.SecureRun | third-party/LUFA100513/Bootloaders/DFU/BootloaderDFU.c:493-511 | in every run: as long as the part is secure, no transfer state is reached and flash and EEPROM are as they were at the start |
| DfuTheorems.SecureFalls | third-party/LUFA100513/Bootloaders/DFU/BootloaderDFU.c:660-682 | a run that ends the secure mode does so in a request that erases the whole application first, with memory unchanged up to then |
| DfuTheorems.StepKeeps | third-party/LUFA100513/Bootloaders/DFU/BootloaderDFU.c:152-458 | what every request keeps: the gate, the blank page buffer, and the memory while the part is secure |
| DfuTheorems.DownloadResult | third-party/LUFA100513/Bootloaders/DFU/BootloaderDFU.c:215-277 | a download request puts the whole words of its stream between the two addresses and keeps the rest of the memory, EEPROM included |
| DfuTheorems.DownloadRightIff | third-party/LUFA100513/Bootloaders/DFU/BootloaderDFU.c:215-277 | over all streams, the memory holds every byte from the start to the end address of a download request if and only if these are fewer than 64 KB, an even number, from an even address on, and the download starts a page or stays within one |
| DfuTheorems.DownloadUpload | third-party/LUFA100513/Bootloaders/DFU/BootloaderDFU.c:335-405 | a display command and an upload return the words of the download, in order |
| DfuTheorems.DisplayUpload | third-party/LUFA100513/Bootloaders/DFU/BootloaderDFU.c:335-405 | a display command and an upload return what is between the addresses and change no memory |
| DfuTheorems.BlankCheckFinds | third-party/LUFA100513/Bootloaders/DFU/BootloaderDFU.c:595-624 | on an open part in any state: a failing blank check reports the least address that is not blank; a passing one leaves status, addresses and memory, and the state except that a download begun is over |
| DfuTheorems.BlankCheckExact | third-party/LUFA100513/Bootloaders/DFU/BootloaderDFU.c:595-624 | on every part: the loader is idle behind the check if and only if the part is open, the application blank, and the loader was idle or had begun a download; it is in the error state if and only if the part is secure, the application not blank, or the loader was in the error state before |
| DfuTheorems.EraseThenBlankCheck | third-party/LUFA100513/Bootloaders/DFU/BootloaderDFU.c:660-682 | after the chip erase the part is open and the application blank, and the blank check behind it passes if and only if the loader was idle or had begun a download |
| DfuTheorems.AbortEraseBlankCheck | third-party/LUFA100513/Bootloaders/DFU/BootloaderDFU.c:449-456 | after an abort it always passes |
| DfuTheorems.StaleError | third-party/LUFA100513/Bootloaders/DFU/BootloaderDFU.c:595-624 | how it fails: a secure part that has refused a command, is erased and checked, is blank, and yet in the error state of that command, and an upload reports an address as not blank |
| DfuTheorems.EepromDownloadUpload | third-party/LUFA100513/Bootloaders/DFU/BootloaderDFU.c:278-299 | EEPROM bytes downloaded to any address come back by a display command and an upload, over the end of the address space too, with the flash as it was: all that were asked for if and only if these are fewer than 64 KB |
| AvrEeprom.EepromRoundTrip | third-party/LUFA100513/Bootloaders/DFU/BootloaderDFU.c:278-299 | EEPROM bytes stored from an address on come back in order, also across the end of the address space |
| AvrEeprom.EepromStoredAt | third-party/LUFA100513/Bootloaders/DFU/BootloaderDFU.c:278-299 | byte i of a write is in cell a + i, counted modulo 65536 |
| AvrEeprom.EepromReadAt | third-party/LUFA100513/Bootloaders/DFU/BootloaderDFU.c:379-401 | byte i of a read is cell a + i, counted modulo 65536 |
| Cdc.WriteBlockRight | third-party/LUFA100513/Bootloaders/CDC/BootloaderCDC.c:244-291 | a block write within a page leaves the whole words of the data, blanks the rest of the page and keeps every other byte |
| Cdc.WriteBlockExact | third-party/LUFA100513/Bootloaders/CDC/BootloaderCDC.c:244-291 | a block write is right for every content if and only if it has an even number of bytes and stays within one page |
| Cdc.BlockRoundTrip | third-party/LUFA100513/Bootloaders/CDC/BootloaderCDC.c:212-291 | such a block is read back |
| Cdc.ChipErase | third-party/LUFA100513/Bootloaders/CDC/BootloaderCDC.c:427-442 | the loop that steps by the page size plus one erases exactly the pages whose number does not leave the remainder P when divided by P + 1 |
| Cdc.ChipEraseExact | third-party/LUFA100513/Bootloaders/CDC/BootloaderCDC.c:427-442 | so it blanks the application, whatever it was, if and only if the application has at most P pages |
| Cdc.Loader.ReadWriteMemoryBlock | third-party/LUFA100513/Bootloaders/CDC/BootloaderCDC.c:189-298 | flash or EEPROM, read or write: memory, address and reply of the command, and the error reply for any other memory |
| Cdc.Loader.EraseChip | third-party/LUFA100513/Bootloaders/CDC/BootloaderCDC.c:427-442 | the erase loop is the one the two results above are about |
| Parse.ParseNumber | src/parse.c:29-77 | the parser accepts exactly the strings that mean a number, which by the two lemmas on numerals are the prefixed and unprefixed numerals with their values in 32 bits |
| Parse.ScanMeans | src/parse.c:41-75 | the loop with its prefix tests and the grammar agree on every string, prefixes that override each other included |
| Parse.FoldDigits | src/parse.c:68-71 | accumulating in 32 bits gives the positional value of the whole string, reduced once |
| Parse.DecimalMeans | src/parse.c:29-77 | an unprefixed decimal string stands for its positional value modulo two to the 32 |
| Parse.DigitToInt | src/parse.c:7-26 | the wrapping subtraction yields the digit value for digits and at least sixteen for everything else |
| Parse.DigitTable | src/parse.c:7-26 | the digits are the characters of 0123456789abcdef and of 0123456789ABCDEF, each with its place as its value, and nothing else is a digit |
| Parse.NumeralMeans | src/parse.c:29-77 | every numeral, its digits in lower or upper case behind one of the prefixes, means the sum of its digits times the powers of the base, in 32 bits |
| Parse.OnlyNumerals | src/parse.c:29-77 | what means anything is such a numeral |
| Parse.Tok | src/parse.c:83-107 | the next token between blanks, which is the only one, and whether there is one |
| Parse.TokenBetween | src/parse.c:83-107 | text without spaces and tabs between them is a token, whatever else it holds |
| Parse.TokNum | src/parse.c:110-126 | a token that is a number is stepped over, anything else is not |
| Console.PutDec | src/console.c:232-246 | prints the decimal digits without leading zeros, and the parser returns the number, for all 32-bit numbers |
| Console.Put0x8 | src/console.c:215-220 | prints two hexadecimal digits behind 0x, and the parser returns the byte |
| Console.NibbleTable | src/console.c:196-201 | the digits printed are those of 0123456789ABCDEF |
| Console.PutBin | src/console.c:248-259 | prints the eight bits behind b, and the parser returns the byte |
| Console.DecimalValue | src/console.c:232-246 | the printed digits have the number as their positional value |
| Commands.Interpreter.ExecuteCommandLine | src/commands.c:125-201 | for every line the scanner ends, makes exactly the calls of the line's lexemes one after the other, and leaves the duplex mode they leave |
| Commands.Interpreter.HandleCommand | src/commands.c:51-123 | a word makes the calls its body and count stand for, and says whether the rest of the line is taken |
| Commands.Interpreter.SplitRepeat | src/commands.c:57-71 | the search from the left finds the count behind the last colon, and no count anywhere makes it zero |
| Commands.EarlierColon | src/commands.c:61-69 | no earlier colon can start a count |
| Commands.TokenEnds | src/commands.c:176-194 | a token scanned to a delimiter is the next lexeme, and the delimiter is looked at again |
| CommandLines.DuplexLine | src/commands.c:150-164 | for a bus with every operation, a bracket of numbers with counts, and numbers behind it: a start, full-duplex calls inside if it was opened by { or an earlier { is still open and writes otherwise, each with the low byte of its number and as often as its count says, a stop, and writes behind it |
| CommandLines.OpenEnded | src/commands.c:150-156 | without the closing bracket full duplex stays on for the next line |
| CommandLines.ReadLine | src/commands.c:94-101 | r and R read as often as the count says, full duplex or not |
| CommandLines.GlobalLine | src/commands.c:104-108 | a global command at the start of a line is the only call of the line; its arguments are the text behind its name, a count included |
| CommandLines.NameLine | src/commands.c:109-120 | any other name is for the bus with its count, and an error exactly if the bus has no commands or does not know it |
| CommandLines.RefusedLine | src/commands.c:74-120 | a number or a read for a bus that cannot do it is one error, whatever the count, and the line goes on |
| CommandLines.CommentFirst | src/commands.c:142-143 | behind # outside a word nothing is looked at |
| I2cCommands.TypedLineCalls | src/commands.c:125-201 | a line of I2C brackets typed in decimal makes exactly the calls of the brackets, counted reads included |
| I2cCommands.TypedLineClean | src/bus_i2c.c:41-193 | such a line, typed on a free bus, of well-formed brackets and probes for write addresses, never meets a held line, and leaves the bus free |
| I2cCommands.TypedLineRun | src/bus_i2c.c:41-193 | what it puts on the wire, for any slave: the events of its brackets one behind the other; and it hands over their bytes in order |
| I2cCommands.TransferTyped | src/commands.c:125-201 | run on the program, from the characters through interpreter and bus: the recorded line levels decode to the brackets of the line, and the user has their bytes |
| DhcpOptions.SetOption | third-party/LUFA100513/Projects/Webserver/Lib/DHCPClientApp.c:218-232 | ends on every well-formed list, puts the entry in front of END, keeps every earlier byte, and the list grows by the entry, whose size is returned in eight bits |
| DhcpOptions.GetOption | third-party/LUFA100513/Projects/Webserver/Lib/DHCPClientApp.c:242-263 | finds the data of the first entry with the code, or none |
| DhcpOptions.ExtendedEntries | third-party/LUFA100513/Projects/Webserver/Lib/DHCPClientApp.c:224-228 | the entries after an addition are those before it and the new one |
| DhcpOptions.LookupAfter | third-party/LUFA100513/Projects/Webserver/Lib/DHCPClientApp.c:242-263 | a new option that was absent is found, and every other lookup answers as before |
| DhcpApp.Dhcp.FillDHCPHeader | third-party/LUFA100513/Projects/Webserver/Lib/DHCPClientApp.c:179-206 | the 244 bytes of a packet start: header fields at their places, zeros between them, message type, END |
| DhcpPackets.PacketLayout | third-party/LUFA100513/Projects/Webserver/Lib/DHCPClientApp.c:179-206 | every packet sent, byte by byte: 1, 1, 6, 0, the transaction, the broadcast flag, host, offered and server address in bytes 12 to 24, zeros, the hardware address in bytes 28 to 34, zeros up to 236, and the cookie |
| DhcpPackets.DiscoverContents | third-party/LUFA100513/Projects/Webserver/Lib/DHCPClientApp.c:73-87 | the DISCOVER has this layout with no address, type 1 and a list that asks for the options 1, 3 and 6, and ends there |
| DhcpPackets.RequestLayout | third-party/LUFA100513/Projects/Webserver/Lib/DHCPClientApp.c:120-133 | the REQUEST has it with the offered address and its server, type 3, and both again in the options 50 and 54 |
| DhcpPackets.ParsedLayout | third-party/LUFA100513/Projects/Webserver/Lib/DHCPClientApp.c:105-110 | what the client reads in a packet with this layout: the transaction, and bytes 16 to 20 as the address offered |
| DhcpApp.Dhcp.Callback | third-party/LUFA100513/Projects/Webserver/Lib/DHCPClientApp.c:65-168 | one call on the packet buffer is one step of the client, and what it sends is the packet of its state, through END |
| DhcpClient.OfferedAddress | third-party/LUFA100513/Projects/Webserver/Lib/DHCPClientApp.c:105-113 | whatever the options, the address taken is the one in the packet's own field |
| DhcpClient.OfferedFields | third-party/LUFA100513/Projects/Webserver/Lib/DHCPClientApp.c:105-113 | with options of the standard's lengths each field of the offer is that of its option, the first of two routers included; but of two routers and no server identifier, the second router is taken for the server |
| DhcpClient.RequestContents | third-party/LUFA100513/Projects/Webserver/Lib/DHCPClientApp.c:120-133 | the REQUEST is a well-formed packet of the client's transaction whose options are its type, the offered address and the server that offered it |
| DhcpClient.LeaseRun | third-party/LUFA100513/Projects/Webserver/Lib/DHCPClientApp.c:65-168 | in every run, a configured client took an offer, sent the request for it in the next call, saw no timeout, and got its acknowledge, all in its transaction; the settings are those of that offer |
| DhcpClient.RequestBefore | third-party/LUFA100513/Projects/Webserver/Lib/DHCPClientApp.c:115-143 | a client that waits for an acknowledge has taken an offer and requested it, and only waited since |
| DhcpClient.NotYetConfigured | third-party/LUFA100513/Projects/Webserver/Lib/DHCPClientApp.c:65-168 | the address is configured exactly in the leased state, and an offer is taken with the earlier one erased |
| DhcpPackets.LeaseGot | third-party/LUFA100513/Projects/Webserver/Lib/DHCPClientApp.c:65-168 | and the way there, whatever else is heard in between: a DISCOVER, an offer, the REQUEST that names it, the acknowledge, and the settings are those of the offer |
| DhcpPackets.Restarts | third-party/LUFA100513/Projects/Webserver/Lib/DHCPClientApp.c:94-102 | a timeout ends either waiting, and the next call sends a DISCOVER |
| DhcpPackets.SendsOnly | third-party/LUFA100513/Projects/Webserver/Lib/DHCPClientApp.c:73-139 | nothing is sent while waiting or leased, and the other two calls send whatever has come in |
| CircularBitBuffer.BitBuffer.StoreNextBit | third-party/LUFA100513/Projects/Magstripe/Lib/CircularBitBuffer.c:53-79 | the queue of bits grows by the bit at its end, free places staying zero; a full queue grows as well, the bit being or-ed into the place it falls on; the count keeps its last sixteen bits |
| CircularBitBuffer.BitBuffer.GetNextBit | third-party/LUFA100513/Projects/Magstripe/Lib/CircularBitBuffer.c:82-113 | the oldest bit is returned and its place cleared, in an over-full queue as well |
| CircularBitBuffer.BitBuffer.Init | third-party/LUFA100513/Projects/Magstripe/Lib/CircularBitBuffer.c:40-50 | zeroed data becomes an empty queue |
| CircularBitBuffer.StoreInRing | third-party/LUFA100513/Projects/Magstripe/Lib/CircularBitBuffer.c:53-79 | on the ring of bits, storing at the place behind the last appends while there is room, or-s into an older bit when there is none, and keeps the free places zero |
| CircularBitBuffer.TakeFromRing | third-party/LUFA100513/Projects/Magstripe/Lib/CircularBitBuffer.c:82-113 | on the ring of bits, clearing the oldest place removes the first bit and keeps the free places zero |
| Magstripe.Reader.ReadMagstripeData | third-party/LUFA100513/Projects/Magstripe/Magstripe.c:110-142 | each track's queue has stored the data levels at the rising edges of its own clock while the card is present, over-full queues included |
| Magstripe.Reader.CreateHIDReport | third-party/LUFA100513/Projects/Magstripe/Magstripe.c:174-203 | one report: key code and next state |
| Magstripe.Reader.Swipe | third-party/LUFA100513/Projects/Magstripe/Magstripe.c:110-203 | a card and any number of reports without another: the key codes sent |
| Magstripe.ReportsAlternate | third-party/LUFA100513/Projects/Magstripe/Magstripe.c:182-200 | report by report: every other one is a release, the others are the remaining keys in order, then none |
| Magstripe.AllKeysPressed | third-party/LUFA100513/Projects/Magstripe/Magstripe.c:182-200 | enough reports press every remaining key once and in order, and nothing else |
| Magstripe.StoreAllOverFull | third-party/LUFA100513/Projects/Magstripe/Lib/CircularBitBuffer.c:53-79 | a card with more bits than an empty queue has places: each place has the or of the bits that fell on it, and the rest are zeros |
| Magstripe.LevelsAtEdges | third-party/LUFA100513/Projects/Magstripe/Magstripe.c:124-139 | one level is sampled for each sample at which the clock is high and was low before, in order, and it is the data line there |
| Magstripe.SwipeBytes | third-party/LUFA100513/Projects/Magstripe/Magstripe.c:110-203 | the bytes of the reports behind a card that fits: in every other one 30 or 39 for a bit and 40 behind each track, and zero in all others |
| Magstripe.CardTyped | third-party/LUFA100513/Projects/Magstripe/Magstripe.c:110-203 | for any card on an idle reader the keys pressed are, track by track, as many of the bits stored as the sixteen-bit count says, and an enter |
| Magstripe.CardTypedFits | third-party/LUFA100513/Projects/Magstripe/Magstripe.c:110-203 | for a card that fits the queues and the count these are the bits sampled |
| RingBuff.RingBuff.StoreElement | third-party/LUFA100513/Projects/USBtoSerial/Lib/RingBuff.c:43-74 | the byte is appended, the oldest giving way in a full ring |
| RingBuff.RingBuff.GetElement | third-party/LUFA100513/Projects/USBtoSerial/Lib/RingBuff.c:76-99 | the oldest byte is returned and removed, for a ring that is not empty |
| UsbToSerial.AdapterRun | third-party/LUFA100513/Projects/USBtoSerial/USBtoSerial.c:82-158 | under every interleaving: no read of an empty ring; from host to serial line nothing is lost or reordered; the other way bytes arrive in order, and only interrupts that find the ring full lose one each |
| UsbToSerial.StepDrops | third-party/LUFA100513/Projects/USBtoSerial/USBtoSerial.c:93-95 | which byte each step hands over, and that a drop takes the oldest of a full ring and happens nowhere else |
| UsbToSerial.DropsCounted | third-party/LUFA100513/Projects/USBtoSerial/USBtoSerial.c:152-158 | over every run the number of lost bytes is the number of interrupts that found the ring full |
| UsbToSerial.StepKeeps | third-party/LUFA100513/Projects/USBtoSerial/USBtoSerial.c:82-158 | what every step of either side keeps |
| UsbToSerial.Adapter.UsartRx | third-party/LUFA100513/Projects/USBtoSerial/USBtoSerial.c:152-158 | the interrupt on the program is the interrupt step of the transition system |
| UsbToSerial.Adapter.Advance | third-party/LUFA100513/Projects/USBtoSerial/USBtoSerial.c:84-100 | each step of the main loop on the program is the loop step of the transition system |
| UsbToSerialRuns.InAndOut | third-party/LUFA100513/Projects/USBtoSerial/USBtoSerial.c:82-158 | under every interleaving from the start on: the bytes taken from the host are those sent to the serial line and still held, in order; of the bytes the serial line sent, those that left the ring and were not lost to a full ring are handed to the host in order |
| UsbToSerialRuns.FillLap | third-party/LUFA100513/Projects/USBtoSerial/USBtoSerial.c:84-91 | from the byte count on, exactly as many host bytes are taken as have come and find room |
| UsbToSerialRuns.UsbLap | third-party/LUFA100513/Projects/USBtoSerial/USBtoSerial.c:93-95 | three steps a byte and one more hand over exactly what was in the ring, in order, and leave it empty |
| UsbToSerialRuns.UsartLap | third-party/LUFA100513/Projects/USBtoSerial/USBtoSerial.c:97-99 | and so for the ring to the serial line |
| UsbToSerialRuns.Lap | third-party/LUFA100513/Projects/USBtoSerial/USBtoSerial.c:84-100 | a whole lap without an interrupt: what it takes, what it hands to the host, what it sends, and both rings empty |
| UsbToSerialRuns.RunLap | third-party/LUFA100513/Projects/USBtoSerial/USBtoSerial.c:84-100 | the lap on the program, with the bytes its steps return |
| UsbToSerialRuns.HostLatency | third-party/LUFA100513/Projects/USBtoSerial/USBtoSerial.c:82-158 | with interrupts anywhere, every byte in the ring to the host is handed over, or lost to an interrupt that found the ring full, within a bounded number of main-loop steps; without such losses they are the next bytes handed over |
| UsbToSerialRuns.SerialLatency | third-party/LUFA100513/Projects/USBtoSerial/USBtoSerial.c:82-158 | and every byte in the ring to the serial line is sent, in order |
| Scheduler.HasDelayElapsed | third-party/LUFA100513/LUFA/Scheduler/Scheduler.c:36-66 | answers by the two branches of the wrapped difference and restarts the delay exactly when it is over |
| Scheduler.DelayBounds | third-party/LUFA100513/LUFA/Scheduler/Scheduler.c:47-63 | within a period the test is never early and at most one tick late, late only across the wrap |
| Scheduler.PollingExact | third-party/LUFA100513/LUFA/Scheduler/Scheduler.c:36-66 | polled at every tick, the test succeeds within one period from every start if and only if the delay is at most TASK_MAX_DELAY |
| Scheduler.OutOfBounds | third-party/LUFA100513/LUFA/Scheduler/Scheduler.c:36-66 | a delay above it is never over, for all time, unless it starts at count zero |
| Scheduler.PolledTask | third-party/LUFA100513/LUFA/Scheduler/Scheduler.c:36-66 | the first tick at which polling succeeds: the delay, or one more if the counter wraps |
| Scheduler.TicksLost | third-party/LUFA100513/LUFA/Scheduler/Scheduler.c:36-66 | over any number of runs, a polling routine falls behind by exactly the number of times the counter has wrapped |

## Left out

- JtagDevice.Device.Tick: takes packets of at most 128 bytes, and tap commands with at least one byte of taps and a tail count of at most 3; for others the source reads beyond what it has received.
- Dfu.Bootloader.HandleRequest: covers hosts that stay until the end of a request.
- Cdc.Loader.ReadWriteMemoryBlock: the same.
- DhcpApp.Dhcp.Callback: takes received packets whose option list ends inside the packet, with a message type of one byte and no more data in the subnet mask, router and server options than the offer has room for behind their fields; the source copies any length it is given.
- DhcpClient.OfferedFields: speaks of the standard's option lengths; for others, `DhcpClient.Offered` says byte by byte what is copied.
- DhcpOptions.SetOption: takes lists that end before the buffer does, with room for the new entry, which the source does not check.
- Commands.Interpreter.HandleCommand: compares a global name as a whole; for a line with a NUL character the source compares beyond the end of the name.
- USB: descriptors, enumeration and endpoint configuration. Waiting for packets is a plain stream of bytes or words; the filler and suffix bytes around a firmware stream are not in it.
- Detaching during a DFU or CDC transfer: the early returns that leave a page half filled. For the Dataflash writer, leaving at any chunk is modelled.
- Delays, watchdog, LEDs, and interrupt enabling around the JTAG and I2C loops: they have no effect on the values modelled. The two JTAG loops without EMU differ only in delays and are one method.
- The branches of `src/hw_i2c.c` for the TWI hardware.
- I2C clock stretching on bits the master writes: the master does not look at SCL there. Several masters on one bus are not treated; brackets inside brackets are modelled call by call, but not classified.
- I2C slaves that break the bus rules: the programs are modelled for any slave, but the results on frames need one that pulls SDA only to acknowledge and to send.
- Zero-length JTAG transfers: the loops clock at least once.
- Boards with two Dataflash chips: the chip selection modelled is that of the driver stub, one chip. Programming a page and copying it are single steps; busy times are not modelled. `DataflashManager_ReadBlocks_RAM` is the read loop with a memory destination and is not repeated.
- Dataflash page sizes that are no multiple of 16, or above 4080 bytes: the chunk counter of the source does not cover them.
- AVR flash: lock bits, the read-while-write section, and addresses beyond the end of the flash, which read as blank and store nothing here.
- The other AVR910 commands of the CDC bootloader, and how its `A` command builds the address: the address is any even one.
- `src/bus_commands.c`, `src/bus_spi.c`, `src/menu.c`, `src/usbdev_avrisp.c`, the Windows programs, drivers and board headers: thin or not code.
- The handlers of the global commands and of bus commands: a call with its text stands for them, and a bus command's answer is a parameter.
- DHCP options without a length byte (padding). The network stack under the client, and the leased state's renewal, which the source does not have.
- Scheduler task lists: plain table updates.
