# Airfrog SWD stack in Dafny

Airfrog is a wireless probe for ARM microcontrollers: it speaks the Serial Wire
Debug protocol on two pins, reads and writes target memory, programs flash,
relays a target's log, and serves all of this over the network. This project
models the parts of it that have to be exactly right and proves what they
promise.

`dafny verify dfyconfig.toml` checks everything.

## What is modelled

Bottom up. `Protocol`, `Interface` and `Debug` are stacked: each is proved
against the one below it, down to the target's machine at the pins. The flash
writer, the log pipe and the server each stand on a model of their own of what
the debug interface does for them: any transfer may fail, a write that reports
an error may have happened or not, and a write that reports success may still
be lost, as `Transfers.CountedButLost` shows of the stack itself.

| files | content |
|---|---|
| `Wrappers`, `Bits`, `Registers` | words as bits on a wire, parity; SELECT, CSW, CTRL/STAT fields, the command byte of an operation |
| `DebugPort` | the target's debug port and memory access port, one packet at a time: posted accesses with one in flight, the read buffer, TAR auto-increment inside a 1 KB page, sticky errors, OK/WAIT/FAULT. After ADIv5 (IHI 0031), sections B4.2 and C2.2. It records every write it accepts with its word. Whatever a target may decide for itself (delays, spurious WAIT and FAULT, bus errors, when power comes up, what TAR and CSW keep of a word, other registers) is an arbitrary environment |
| `Wire`, `Protocol` | the two ends of the link: a target stepped by rising clock edges, and the probe's pin-level code, with a record of whether both ever drove the line at once and of how many clocks the line has been driven low |
| `Transfers`, `Interface`, `Debug` | retries, bank selection with the shadow of SELECT, error checks, single and bulk memory transfers, raw register calls, one at a time and in bulk |
| `Calls` | any run of calls by a user of the interface, and what becomes of the shadow of SELECT |
| `Hazards` | runs in which the interface is misled, one for each way the contracts leave open |
| `ByteWindow`, `Ring`, `LocalBuffer`, `Rtt` | byte reads of a memory that is only read in words; the log pipe: a running target that logs between any two words a poll reads, the probe's ring, its clients, and the log task's loop |
| `FlashController`, `FlashWriter` | the STM32G0 flash controller with its control and status registers, delays and failures; page erase, doubleword program, read-modify-write, bulk write |
| `Frames`, `Server` | the binary API's requests, the parser, and the server loop |
| `Sectors` | the STM32F4 sector lookup |

Code that updates state in place is a class whose methods change it, proved
against functions on values; loops are loops. `D().Final()` is the access
port's state once the access in flight has run: in that view posted accesses
look sequential, and that is what "the same as single accesses" means below.

## Main results

- **Lockstep.** Every packet the probe sends leaves the target's machine idle
  again and the line never contended, for any mix of OK, WAIT and FAULT; the
  target decodes exactly the request sent, the data words arrive as sent, and
  an odd number of flipped bits in a data phase is always noticed.
- **Exactly once.** A request goes out at most `wait_retries + 1` times and
  takes effect on the attempt answered OK, if any; `WaitAck` comes back exactly
  when all were answered WAIT.
- **Register calls.** What a call does to the target is stated exactly, for any
  result. A typed write that succeeds has sent its word to its own register
  once, in the bank its address names, after putting that right if need be, and
  has checked for errors once; clearing errors leaves none; power-up has
  requested both domains and seen both acknowledged.
- **Bulk transfers.** A pipelined bulk read returns what single reads would,
  with the same bus accesses in the same order, across page boundaries; on an
  error the counted prefix is right and the rest of the buffer untouched, in
  slow and in fast mode. Slow mode checks for errors after every word, fast mode
  once. A bulk write by the debugger that reports success has put every word in
  memory and changed nothing else. Single accesses are right whatever TAR keeps
  of an address, because it is read back; bulk ones rest on TAR keeping it.
- **A doubt that is real.** CTRL/STAT does not wait for a posted write, so one
  word can pass its check and still be lost. `Transfers.CheckedWriteLanded`
  says exactly when, `Transfers.CountedButLost` gives a run in which a word
  that was counted as written is not in memory. The counts in
  `WriteMemBulk` are stated accordingly: the words counted are in memory if and
  only if the bus access of the last of them succeeds; that is always so for a
  target that completes each access before the next packet. At most one word
  beyond the count is written.
  A write that is lost shows at the next access: from then on no access to the
  AP is accepted until ABORT is written (`Transfers.LostWriteSticks`).
- **SELECT shadow.** Every call, whatever comes of it, leaves SELECT and its
  shadow as its acknowledged SELECT writes make them, and so does any run of
  register, memory and raw calls (`Calls.Client.Run`). A call that finds its
  bank selected writes none, so a bus error does not disturb the shadow. It
  stays right unless a SELECT update failed its check after the write, or
  SELECT was written past the shadow with another word: by a raw write to an
  address that aliases SELECT, or by a typed write, which the bank logic skips.
  It is right again after the next write it is told of. `Hazards` has a run for
  each way to go wrong, the last without any error showing.
- **Log pipe.** Under every interleaving of a logging target with the reads of
  a poll, for the whole run of the log task and any commands: delivered, held
  and unread bytes together are what was logged, with one run of bytes doubled
  for each move of the read position that was lost, and nothing else changed.
  So no byte is ever lost, and with no move lost none is repeated. Every command
  is obeyed: started, stopped, and the oldest bytes to whoever asks. With a
  quiet target and no troubles on the way, as many full-size reads as there are
  256 bytes deliver everything.
- **Flash.** An erase selects page `s` exactly when `s < 256`, and changes no
  other field; erasing all erases each page once, and when it stops, the pages
  before are erased and at most the next was tried. A bulk write succeeds only
  on erased doublewords, programs each once and in order, and leaves the range
  holding the data and everything else as it was, also when it is stopped
  half-way. One and two bytes land as the low bytes of the value, all others of
  their doubleword stay 0xFF. PG is clear when a program returns, with success
  or failure, unless a transfer failed or was lost. Over a link that loses
  nothing and with a controller that does not fail of itself, every one of these
  operations succeeds, programs on erased doublewords only.
- **Binary API.** Each request reaches the registers it names, with its own
  data, and the reply is what they returned, byte by byte. Parsing inverts the
  documented layout in both directions, takes exactly a request's bytes, and
  refuses exactly the streams it should, each for its reason; replies can be cut
  apart again uniquely; nothing runs after a disconnect or a bad argument.
  Replies come one per request, but for one case: a bulk read of zero words
  panics exactly when both its calls get through, and a stream goes unanswered
  from some point on exactly when it holds such a read (`Server.ServesAll`).

## Where code and documentation differ

The model follows the code.

- An unknown command byte ends the session without a reply; `docs/BINARY-API.md`
  lists a status 0x81 for it.
- Error replies are the status byte alone, and a bulk write's success reply too;
  one table of the document shows a count after them.
- A bulk read of zero words panics where it stores its last word; that is the
  release build, where arithmetic wraps (`Cargo.toml:85`).
- `read_dp_register_raw` says it handles the register bank; it does not select
  one. It reaches the register asked for exactly when that register's bank is
  selected or it has none (`Hazards.RawReadReaches`).
- The error check reads address 4 in whatever DP bank is selected. Success
  means that no sticky error is up in bank 0 and in no other
  (`Hazards.CheckSoundInBankZero`).
- The memory calls do not select AP 0. With SELECT known, they work on memory
  if AP 0 and DP bank 0 are selected, or if the AP bank is a wrong one, since
  the word that puts it right is built from zero. With another AP and its bank
  0 selected they succeed or fail without touching memory; with AP 0 and
  another DP bank their error checks read another register.
- A page erase that fails leaves PER set.
- A sector range that ends with the last word below 4 GB is accepted whatever
  the size of the flash, because the end wraps (`Sectors.Stm.LastWordAccepted`).
- A raw bulk call takes a register, but uses it only to choose the bank: what
  it then accesses is DRW.
- Fast bulk reads are documented as possibly tainted on an error; the counted
  prefix is in fact good, because an access is only collected after the next
  one was accepted.

## Model

| member | source | states |
|---|---|---|
| Registers.SelectFields | airfrog-core/src/arm/dp.rs:513-562 | SELECT's fields tile the word: building and taking apart are inverse both ways, so no setter touches another field |
| Registers.SetAddrIncField | airfrog-core/src/arm/map.rs:88-147 | the setter stores the low two bits of its argument and keeps all other bits |
| Registers.CommandDecodes | airfrog-swd/src/interface.rs:2077-2112 | the byte sent for an operation has right framing and parity and decodes to its APnDP, RnW and A[3:2] |
| DebugPort.RetryOnlyWaits | airfrog-swd/src/interface.rs:1657-1688 | all attempts before the last were answered WAIT and changed nothing, at most `wait_retries` of them |
| DebugPort.ReadTxnExactlyOnce | airfrog-swd/src/interface.rs:1721-1765 | a read sends at most `wait_retries + 1` packets; WaitAck exactly when all were WAIT; without OK no effect |
| DebugPort.WriteTxnExactlyOnce | airfrog-swd/src/interface.rs:1651-1697 | the same for a write |
| Wire.HeaderReceived | airfrog-swd/src/protocol.rs:318-325 | eight command bits bring an idle target to its turnaround with the request decoded, undisturbed |
| Wire.DataReceived | airfrog-swd/src/protocol.rs:350-358 | the 33 bits sent for a word make the target write that word |
| Wire.CheckWordRoundTrip | airfrog-swd/src/protocol.rs:292-316 | what is emitted for a word is read back as that word, for every word |
| Wire.OddFlipsDetected | airfrog-swd/src/protocol.rs:292-316 | any odd number of flipped bits gives ReadParity |
| Wire.AcceptedMeansEven | airfrog-swd/src/protocol.rs:489-494 | a data phase is accepted exactly when its bits have even parity |
| Wire.FramedBits | airfrog-swd/src/protocol.rs:350-358 | shifting out the word with its parity in bit 32 sends the word and then the parity |
| Protocol.SwdProtocol.SetSwclkHigh | airfrog-swd/src/protocol.rs:254-257 | a rising edge steps the target with the level of whoever drives; contention and low clocks are recorded |
| Protocol.SwdProtocol.WriteBit | airfrog-swd/src/protocol.rs:264-275 | the target is stepped once with the bit |
| Protocol.SwdProtocol.ReadBit | airfrog-swd/src/protocol.rs:277-290 | the bit is what the target drove before the edge that steps it |
| Protocol.SwdProtocol.WriteBits | airfrog-swd/src/protocol.rs:435-443 | the target is stepped through the low bits, least significant first |
| Protocol.SwdProtocol.Clock | airfrog-swd/src/protocol.rs:391-401 | driven low, all clocks count as idle clocks and an idle target stays idle |
| Protocol.SwdProtocol.WriteCmdTurnaround | airfrog-swd/src/protocol.rs:318-325 | the target decodes the request and starts its response; the line has changed hands without contention |
| Protocol.SwdProtocol.TurnaroundToOutput | airfrog-swd/src/protocol.rs:336-341 | one edge, then the probe drives low |
| Protocol.SwdProtocol.ReadAck | airfrog-swd/src/protocol.rs:362-389 | the host reads the response the target gave; after WAIT or FAULT both ends are idle |
| Protocol.SwdProtocol.AckValue | airfrog-swd/src/protocol.rs:362-389 | the three response bits, accumulated, decode to the response sent |
| Protocol.SwdProtocol.ReadU32ParityTurnaround | airfrog-swd/src/protocol.rs:292-316 | the host gets the 33 bits the target sent, checks them, and both ends are idle |
| Protocol.SwdProtocol.WriteU32Parity | airfrog-swd/src/protocol.rs:350-358 | the target is stepped through word and parity |
| Protocol.SwdProtocol.TurnaroundWriteU32Parity | airfrog-swd/src/protocol.rs:343-348 | the target writes exactly the word and is idle again |
| Transfers.ReadBurst | airfrog-swd/src/interface.rs:1547-1587 | an error-free burst inside a page read consecutive words once each, in order, although TAR wraps |
| Transfers.BurstWords | airfrog-swd/src/interface.rs:1547-1587 | word by word, a burst returns memory's words |
| Transfers.WriteLanded | airfrog-swd/src/interface.rs:947-992 | of a burst of accepted writes all land but perhaps the last |
| Transfers.ChunkInPage | airfrog-swd/src/interface.rs:1547-1587 | the chunk chosen is never empty and never crosses a 1 KB boundary |
| Transfers.WriteWordsReadBack | airfrog-swd/src/interface.rs:1606-1646 | after a range write word i of the range holds word i of the data and all else is unchanged |
| Transfers.CheckedWriteLanded | airfrog-swd/src/interface.rs:947-992 | a checked write is in memory exactly when it already ran or its bus access succeeds |
| Transfers.CountedButLost | airfrog-swd/src/interface.rs:947-992 | a run in which a word passes its check, is counted, and is not in memory |
| Transfers.LostWriteSticks | airfrog-swd/src/interface.rs:792-806 | after a lost write no AP access is accepted and memory stays as it is, until ABORT is written |
| Transfers.RegWriteSends | airfrog-swd/src/interface.rs:1767-1785 | of the bank and the word, each is written once at most, in that order, and on success both, the word to its own register in the bank its address names, with one check each |
| Transfers.RawApWriteSends | airfrog-swd/src/interface.rs:1116-1141 | the same for a raw AP write, without check |
| Transfers.ApReadFetches | airfrog-swd/src/interface.rs:1787-1815 | what an AP read returns is the result of its own access, whatever register it is |
| Transfers.RegReadChecks | airfrog-swd/src/interface.rs:1787-1815 | an AP read writes at most the bank and checks for errors once |
| Transfers.AbortWorks | airfrog-swd/src/interface.rs:1891-1913 | a typed ABORT write that clears STKERR succeeds over a target in order and leaves no error |
| Registers.StatusBits | airfrog-core/src/arm/dp.rs:330-336 | the error flags of CTRL/STAT are bits 1, 4, 5 and 7, READOK bit 6, the power bits 28 to 31 |
| Interface.SwdInterface.DoWriteOp | airfrog-swd/src/interface.rs:1651-1697 | the pin-level loop is the packet-level transaction; lockstep kept, no contention, idle tail on success |
| Interface.SwdInterface.DoReadOp | airfrog-swd/src/interface.rs:1721-1765 | the same for reads |
| Interface.SwdInterface.ReadCtrlStat | airfrog-swd/src/interface.rs:770-790 | a status read, with idle tail, that disturbs nothing |
| Interface.SwdInterface.CheckDpErrors | airfrog-swd/src/interface.rs:792-806 | success is exactly: address 4 was read and shows no error flag and, if asked, READOK; in DP bank 0 that means no sticky error |
| Interface.SwdInterface.UpdateDpSelect | airfrog-swd/src/interface.rs:748-761 | the shadow follows exactly when the write is acknowledged and its check passes; the target holds the new word exactly when the write is acknowledged |
| Interface.SwdInterface.CheckAndUpdateDpSelect | airfrog-swd/src/interface.rs:1817-1865 | on success the addressed bank is selected; nothing is sent when it already is, nor for the registers that have no bank |
| Interface.SwdInterface.WriteOperation | airfrog-swd/src/interface.rs:1767-1785 | the whole effect on target and shadow for any result; on success the word went once to its own register, in the right bank, and was checked; ABORT clears errors; SELECT and its shadow are untouched if the bank was right and SELECT is not the target |
| Interface.SwdInterface.WriteOverSelect | airfrog-swd/src/interface.rs:1767-1785 | a typed write to SELECT: SELECT changes exactly when it is acknowledged, the shadow never |
| Interface.SwdInterface.ReadOperation | airfrog-swd/src/interface.rs:1787-1815 | the whole effect and the value for any result: a DP read its transaction's value, an AP read its own result through RDBUFF, free of errors and checked once; SELECT and its shadow change only to put the bank right |
| Interface.SwdInterface.ReadRdBuffFast | airfrog-swd/src/interface.rs:1867-1873 | the RDBUFF transaction, without bank check |
| Interface.SwdInterface.ReadDrwFast | airfrog-swd/src/interface.rs:1875-1881 | the DRW read transaction, without bank check |
| Interface.SwdInterface.WriteDrwFast | airfrog-swd/src/interface.rs:1883-1889 | the DRW write transaction, without bank check |
| Interface.SwdInterface.ReadDrwBulk | airfrog-swd/src/interface.rs:857-923 | the pipelined form equals that many single accesses; valid prefix and untouched rest on an error, in both modes; one check a word in slow mode, one in all in fast mode; asked for nothing it panics, if its one access goes through; whatever the result, SELECT and its shadow change only to put bank 0 right |
| Interface.SwdInterface.CollectWords | airfrog-swd/src/interface.rs:877-896 | word i comes from read i + 1, up to the first failure |
| Interface.SwdInterface.FinishReads | airfrog-swd/src/interface.rs:898-922 | the last word comes from RDBUFF; the one check of fast mode covers all words |
| Interface.SwdInterface.WriteDrwBulk | airfrog-swd/src/interface.rs:947-992 | equals that many single writes; on success the error flag will be up exactly when the last one's bus access fails; one check a word, and one more in fast mode; whatever the result, SELECT and its shadow change only to put bank 0 right |
| Interface.SwdInterface.PushWords | airfrog-swd/src/interface.rs:964-981 | word by word, each write accepted only once the one before has landed |
| Interface.SwdInterface.SetAddrInc | airfrog-swd/src/interface.rs:1420-1455 | on success CSW differs in AddrInc only, TAR and memory are untouched; whatever the result, SELECT and its shadow change only to put bank 0 right |
| Interface.SwdInterface.ReadMem | airfrog-swd/src/interface.rs:1471-1496 | returns memory's word with exactly one bus access; unpowered it sends nothing; with another AP selected it touches no memory; whatever the result, SELECT and its shadow change only to put bank 0 right |
| Interface.SwdInterface.WriteMem | airfrog-swd/src/interface.rs:1509-1533 | memory is changed at that word or not at all; after success it is changed exactly when the bus access succeeds; whatever the result, SELECT and its shadow change only to put bank 0 right |
| Interface.SwdInterface.ReadMemBulk | airfrog-swd/src/interface.rs:1547-1587 | buf[i] is memory's word i, each read once in order; on an error a valid prefix; whatever the result, SELECT and its shadow change only to put bank 0 right |
| Interface.SwdInterface.WriteMemBulk | airfrog-swd/src/interface.rs:1606-1646 | a prefix of the range is written and nothing else; on an error all words counted are in it exactly when the bus access of the last of them succeeds, and at most one more; whatever the result, SELECT and its shadow change only to put bank 0 right |
| Interface.SwdInterface.ClearErrors | airfrog-swd/src/interface.rs:818-832 | on success ABORT was written with all four clear bits and no error is up; over a target in order it succeeds |
| Interface.SwdInterface.PowerUpDebugDomain | airfrog-swd/src/interface.rs:1286-1311 | success means SELECT zero and both power requests were written, both domains acknowledged, the shadow right and the interface ready; a target in order is powered up |
| Interface.SwdInterface.ReadDpRegisterRaw | airfrog-swd/src/interface.rs:1005-1025 | one DP read transaction in whatever bank is selected; the power check is restored |
| Interface.SwdInterface.WriteDpRegisterRaw | airfrog-swd/src/interface.rs:1027-1049 | one DP write; a right shadow stays right exactly unless the write is acknowledged and its address aliases SELECT with another word |
| Interface.SwdInterface.ReadApRegisterRaw | airfrog-swd/src/interface.rs:1064-1103 | the whole effect and the value for any result; AP and bank are those of the arguments; the power check returns only after an error |
| Interface.SwdInterface.WriteApRegisterRaw | airfrog-swd/src/interface.rs:1116-1141 | the same for a write, whose word goes once to the register named |
| Interface.SwdInterface.SelectAp | airfrog-swd/src/interface.rs:1064-1090 | AP and AP bank are selected from the arguments and the DP bank is kept |
| Interface.SwdInterface.ReadApRegisterRawBulk | airfrog-swd/src/interface.rs:1166-1200 | as many DRW reads as words, whatever the register; with no words it panics once its read got through |
| Interface.SwdInterface.WriteApRegisterRawBulk | airfrog-swd/src/interface.rs:1218-1250 | as many DRW writes, whatever the register |
| Calls.Client.Do | airfrog-swd/src/interface.rs:748-761 | one call, whatever comes of it: SELECT and its shadow are what the call's acknowledged SELECT writes make them |
| Calls.Client.Run | airfrog-swd/src/interface.rs:748-761 | the same for any run of register, memory and raw calls; a right shadow stays right while the shadow is told of every write |
| Calls.RegisterWrites | airfrog-swd/src/interface.rs:1767-1865 | a register call writes SELECT to put the bank right, if it has one and it is wrong, and once more past the shadow if SELECT is its target |
| Calls.RightAfter | airfrog-swd/src/interface.rs:748-761 | the shadow is right exactly when nothing was written and it was right before, or it was told of the last write, or that write repeated the last word it was told |
| Calls.AfterConcat | airfrog-swd/src/interface.rs:748-761 | the writes of two runs, one after the other, are the writes of the whole |
| Calls.NothingToPutRight | airfrog-swd/src/interface.rs:1817-1865 | a call that finds its bank selected writes no SELECT |
| Hazards.TypedSelectWrite | airfrog-swd/src/interface.rs:1819-1824 | a typed write to SELECT succeeds, shows no error and leaves the shadow stale |
| Hazards.StaleAfterFailedCheck | airfrog-swd/src/interface.rs:748-761 | a SELECT write that is acknowledged and whose error check fails |
| Hazards.AliasedRawWrite | airfrog-swd/src/interface.rs:1027-1049 | a raw write to 0x18 lands in SELECT |
| Hazards.CheckSoundInBankZero | airfrog-swd/src/interface.rs:792-806 | that a passed check means no sticky error holds in DP bank 0 and in no other |
| Hazards.RawReadReaches | airfrog-swd/src/interface.rs:1005-1025 | a raw DP read reaches the register asked for exactly when its bank is selected or it has none |
| Hazards.RawReadMisses | airfrog-swd/src/interface.rs:1005-1025 | a raw read of CTRL/STAT that succeeds and does not show the sticky error that is up |
| Hazards.OtherApNoMemory | airfrog-swd/src/interface.rs:2127-2144 | with another AP selected, no sequence of requests that keeps it selected touches memory |
| Debug.DebugInterface.ReadMemBulk | airfrog-swd/src/debug.rs:304-325 | as the bulk read; auto-increment is off whenever the last change reports success, also after an error of the transfer |
| Debug.DebugInterface.WriteMemBulk | airfrog-swd/src/debug.rs:342-363 | success means the whole range holds the data now, all else unchanged; an error's count is right exactly when the bus access of its last word succeeds; auto-increment is off whenever the last change reports success |
| ByteWindow.WindowCovers | airfrog/src/firmware/rtt.rs:340-343 | the aligned window covers the bytes asked for with at most three to spare on either side |
| ByteWindow.CutBytes | airfrog/src/firmware/rtt.rs:335-375 | the bytes returned are the right slice of the words' bytes |
| ByteWindow.CutIsExact | airfrog/src/firmware/rtt.rs:335-375 | from a memory at rest they are the bytes asked for |
| ByteWindow.ReadInto | airfrog/src/firmware/mod.rs:478-544 | the buffer holds exactly the bytes from the address on |
| LocalBuffer.LocalBuf.constructor | airfrog/src/firmware/rtt.rs:249-258 | starts empty |
| LocalBuffer.LocalBuf.AvailableSpace | airfrog/src/firmware/rtt.rs:261-267 | 4095 less the bytes held |
| LocalBuffer.LocalBuf.AvailableData | airfrog/src/firmware/rtt.rs:269-275 | the number of bytes held; with the space it makes 4095 |
| LocalBuffer.LocalBuf.PushByte | airfrog/src/firmware/rtt.rs:278-281 | appends one byte, across the wrap |
| LocalBuffer.LocalBuf.WriteData | airfrog/src/firmware/rtt.rs:277-282 | appends, if there is space |
| LocalBuffer.LocalBuf.CopyOut | airfrog/src/firmware/rtt.rs:288-298 | one run or two, the same bytes in the same order |
| LocalBuffer.LocalBuf.ReadData | airfrog/src/firmware/rtt.rs:284-302 | removes and returns the longest prefix that fits |
| Rtt.RttTask.ReadBytes | airfrog/src/firmware/rtt.rs:335-375 | where the bytes read are unread log bytes they are right, whatever the target did between the words |
| Rtt.RttTask.Start | airfrog/src/firmware/rtt.rs:425-460 | on success the probe knows the read position; on failure nothing is forgotten |
| Rtt.RttTask.Stop | airfrog/src/firmware/rtt.rs:462-471 | stopped, and the description dropped |
| Rtt.RttTask.Locate | airfrog/src/firmware/rtt.rs:506-523 | after the reset check the position is the target's, and the write position is one the target had |
| Rtt.RttTask.ReadUnread | airfrog/src/firmware/rtt.rs:533-548 | the first unread bytes, in one chunk or two |
| Rtt.RttTask.Transfer | airfrog/src/firmware/rtt.rs:531-558 | the bytes appended are those taken off if the move of the read position landed, and still unread if not, whatever it reported |
| Rtt.RttTask.Poll | airfrog/src/firmware/rtt.rs:506-558 | a poll under any interleaving takes the right number of bytes from the front |
| Rtt.RttTask.GetRttDataFromTarget | airfrog/src/firmware/rtt.rs:499-558 | the same with the early exits: Full exactly when there is no space |
| Rtt.RttTask.HandleRead | airfrog/src/firmware/rtt.rs:473-496 | a client gets the oldest bytes, at most 256 and at most what it asked for; nothing is lost |
| Rtt.RttTask.Turn | airfrog/src/firmware/rtt.rs:575-644 | polls exactly if started, takes bytes from the front of the unread, and obeys the command: started on a start that succeeds, halted on a stop, the oldest min(max, 256, held) bytes to a reader or an error if halted; doubles a run of bytes if a move was lost and else keeps the balance |
| Rtt.RttTask.Obey | airfrog/src/firmware/rtt.rs:473-496 | one command, for any outcome of the poll before it |
| Rtt.RttTask.Task | airfrog/src/firmware/rtt.rs:562-645 | every command is obeyed and each turn begins where the one before ended; delivered + held + unread is the log with one run doubled for each lost move; without troubles and with a quiet target full-size reads deliver everything, 256 bytes a turn |
| Rtt.DoubledKeepsAll | airfrog/src/firmware/rtt.rs:499-558 | doubling runs loses nothing: the log is a subsequence of the stream, and every lost move adds at least one byte |
| Rtt.PollConserves | airfrog/src/firmware/rtt.rs:499-558 | a poll whose move landed loses, repeats and reorders nothing |
| Rtt.LostMoveDoubles | airfrog/src/firmware/rtt.rs:551-555 | one whose move was lost doubles the run it took, and loses none |
| Rtt.QuietPoll | airfrog/src/firmware/rtt.rs:499-558 | on a quiet target a poll is a function of what is unread and held |
| Rtt.PollMakesProgress | airfrog/src/firmware/rtt.rs:527-531 | with bytes to fetch and room for them a poll moves at least one |
| Rtt.Drains | airfrog/src/firmware/rtt.rs:473-558 | rounds of one poll and one read deliver everything in order, 256 bytes a round |
| FlashController.SelectsPage | airfrog-swd/src/debug.rs:659-677 | the control value selects page s exactly when s < 256 |
| FlashController.SelectsPageFor | airfrog-swd/src/debug.rs:659-677 | which page it selects: from 256 on the pages of the second bank come again |
| FlashController.SelectsNothingElse | airfrog-swd/src/debug.rs:668-677 | it asks for a page erase and keeps every other bit |
| FlashController.SelectBits | airfrog-core/src/stm.rs:224-236 | which bits the page and bank fields occupy, and that an old page number is cleared first |
| FlashWriter.FlashWriter.WaitNotBusy | airfrog-swd/src/debug.rs:492-500 | on success the controller is idle and nothing else happened |
| FlashWriter.FlashWriter.ClearStatus | airfrog-swd/src/debug.rs:502-512 | on success no error is flagged or due, nor end of operation, unless the write was lost |
| FlashWriter.FlashWriter.ExecuteErasePage | airfrog-swd/src/debug.rs:514-534 | success means exactly the selected page was erased; otherwise no other page changed |
| FlashWriter.FlashWriter.EraseSector | airfrog-swd/src/debug.rs:655-686 | out-of-range pages touch nothing; success erases the page once, also when the controller was busy on entry, and unless the last write was lost clears PER and keeps unrelated bits; an erase that fails leaves PER set |
| FlashWriter.FlashWriter.ClearBit | airfrog-swd/src/debug.rs:681-684 | success means the register lost that one bit or the write was lost and every later transfer fails |
| FlashWriter.FlashWriter.EraseAll | airfrog-swd/src/debug.rs:722-730 | for any flash size success erases every page selectable, in order, and leaves all of them 0xFF; on an error those before are erased, at most the next was tried, and nothing else changed; with a smooth link it succeeds |
| FlashWriter.FlashWriter.FinishProgram | airfrog-swd/src/debug.rs:556-577 | PG is clear on success and on failure, unless the status or the register could not be read or the write that clears it failed or was lost |
| FlashWriter.FlashWriter.ExecuteProgramDoubleword | airfrog-swd/src/debug.rs:536-578 | misaligned addresses touch nothing; success means the doubleword was erased and holds the data; otherwise nothing else changed; for any result PG is clear unless a transfer failed or was lost; over a smooth link it succeeds exactly on an erased doubleword |
| FlashWriter.FlashWriter.WriteRmw | airfrog-swd/src/debug.rs:580-618 | the low byte of the value lands at its address, its higher bytes above as the width says, every other byte of the doubleword is 0xFF; the words programmed are those read with the bytes patched in; PG as above |
| FlashWriter.FlashWriter.WriteFlashBulk | airfrog-swd/src/debug.rs:962-982 | success means the range was erased, holds the data, all else is unchanged, each doubleword was programmed once in order, and for any result PG is clear unless a transfer failed or was lost; a misaligned write programs nothing; stopped half-way, a prefix is written; on an erased range over a smooth link it succeeds |
| FlashWriter.FlashWriter.BulkStep | airfrog-swd/src/debug.rs:966-980 | one turn of the loop takes the writing one or two words on |
| FlashWriter.PatchedByte | airfrog-swd/src/debug.rs:587-614 | each byte of the doubleword programmed, as a number |
| FlashWriter.PatchedBytes | airfrog-swd/src/debug.rs:587-614 | the doubleword programmed has the payload in place and its other bytes as read |
| FlashWriter.PatchedWord | airfrog-swd/src/debug.rs:604-614 | an aligned word lands at its own half, the other half stays erased |
| FlashWriter.DoublewordsAscend | airfrog-swd/src/debug.rs:962-982 | the doublewords of a range are distinct and ascend |
| Frames.Reader.RecvCmd | airfrog-bin/src/lib.rs:441-449 | one byte is taken and recognised, or refused |
| Frames.Reader.AsyncRecv | airfrog-bin/src/lib.rs:465-570 | the operation of the bytes that follow, and exactly those are taken |
| Frames.FrameRoundTrip | airfrog-bin/src/lib.rs:441-570 | an operation laid out as documented parses to itself whatever follows it |
| Frames.FrameConverse | airfrog-bin/src/lib.rs:441-570 | whatever parses is the layout of what it parses to |
| Frames.StreamRoundTrip | airfrog-bin/src/lib.rs:441-570 | any list of operations sent back to back parses to that list |
| Frames.TooManyRefused | airfrog-bin/src/lib.rs:166-184 | a count above 256 is refused before any payload byte is taken |
| Frames.WhyRefused | airfrog-bin/src/lib.rs:441-570 | exactly which streams are refused, by their bytes: an unknown command, an argument out of range, and otherwise the end of the stream |
| Frames.LevelsRoundTrip | airfrog-bin/src/lib.rs:625-650 | line levels survive their byte |
| Frames.LevelsBack | airfrog-bin/src/lib.rs:625-650 | an accepted level byte is the one its levels make |
| Server.Api.HandleOp | airfrog-swd/src/bin.rs:275-377 | each request reaches the DP or AP register it names, with its own data, entry by entry for register lists and words in order for bulk writes; the reply's bytes are the words the last call returned, or its error; a bulk read of no words never succeeds |
| Server.ServesItsOp | airfrog-swd/src/bin.rs:275-377 | the same of the calls planned and the reply made of them |
| Server.Api.BulkRead | airfrog-swd/src/bin.rs:301-318 | auto-increment first, then the words, the reply only if both went well |
| Server.Api.BulkWrite | airfrog-swd/src/bin.rs:319-332 | auto-increment first, then the words |
| Server.Api.WriteRegs | airfrog-swd/src/bin.rs:333-347 | registers are written in order up to the first that fails, DP entries to DP registers and AP entries to AP registers (with Server.ServesItsOp) |
| Server.Api.ResetEither | airfrog-swd/src/bin.rs:349-357 | a reset that fails is tried once more the other way |
| Server.Api.Answer | airfrog-swd/src/bin.rs:212-250 | one operation, one reply, one call counted |
| Server.Api.NextOp | airfrog-swd/src/bin.rs:176-204 | a whole request is read and exactly its bytes are taken |
| Server.Api.MainLoop | airfrog-swd/src/bin.rs:161-261 | replies, calls and end are those of the session the stream describes |
| Server.Api.Serve | airfrog-swd/src/bin.rs:77-150 | the same with handshake and farewell byte |
| Server.StatusOf | airfrog-swd/src/bin.rs:222-233 | no error is reported as success; network, timeout and caller errors have their own codes |
| Server.CutRecovers | airfrog-swd/src/bin.rs:237-248 | a client that knows its requests cuts the reply stream into exactly the replies sent |
| Server.TriesFollow | airfrog-swd/src/bin.rs:275-377 | the calls of an operation are the planned ones in order, all but the last successful |
| Server.PanicsOnEmptyRead | airfrog-swd/src/bin.rs:301-318 | an operation panics exactly when it is a bulk read of no words and both its calls get through |
| Server.ReplyLength | airfrog-swd/src/bin.rs:237-248 | the reply has the length its request and status fix |
| Server.SessionAnswers | airfrog-swd/src/bin.rs:161-261 | every request before the end is answered in order, the end has its reason in the stream, nothing is done after it |
| Server.ServesAll | airfrog-swd/src/bin.rs:175-261 | a well-formed stream is answered up to and including its disconnect unless an empty bulk read gets through, and then exactly up to the first that does |
| Server.NoEmptyRead | airfrog-swd/src/bin.rs:175-261 | without an empty bulk read every request is answered, whatever fails |
| Server.PanickingSession | airfrog-swd/src/bin.rs:301-318 | a session that ends without an answer |
| Sectors.Stm.GetSectorsFromWordRange | airfrog-core/src/stm.rs:949-997 | exactly the sectors that share a byte with the range, consecutive and ascending; at least one exactly when the range starts inside the table |
| Sectors.Stm.FillSectors | airfrog-core/src/stm.rs:972-997 | the loop with its early exit finds a consecutive run |
| Sectors.BytesOfWords | airfrog-core/src/stm.rs:954-962 | the byte addresses are the words' exactly below word 2^30; above they wrap |
| Sectors.TableTotal | airfrog-core/src/stm.rs:857-870 | the table covers 1136 KB |
| Sectors.TableStarts | airfrog-core/src/stm.rs:857-870 | where each sector starts |
| Sectors.Stm.AcceptedInside | airfrog-core/src/stm.rs:949-970 | below the last word a range is accepted exactly when its last byte lies inside the flash |
| Sectors.Stm.LastWordAccepted | airfrog-core/src/stm.rs:949-970 | a range that ends with that word is accepted whatever the size of the flash |

## Left out

- Interface.SwdInterface.WriteMemBulk: on success or error the last word counted is in memory only if its bus access succeeds, because the code does not wait for the last posted write; Transfers.CountedButLost is a run where it is lost.
- Interface.SwdInterface.WriteDrwBulk: the last word may be in flight on success, for the same reason.
- Interface.SwdInterface.WriteApRegisterRaw: success does not say the access completed, because the code makes no error check after it.
- Interface.SwdInterface.WriteMem: success leaves the word in doubt until its bus access has run, for the same reason; the contract says exactly when it is in memory.
- Interface.SwdInterface.ReadMem: what it reads is stated for a right SELECT shadow that leads to AP 0 and DP bank 0, and so for all memory calls; with another AP and its bank 0 selected the contract says that no memory is touched. With AP 0, its bank 0 and another DP bank nothing is claimed but that memory stays, because the error checks then read some other register.
- Interface.SwdInterface.ReadMemBulk: what it reads is stated for single auto-increment, which the debugger's calls switch on, and for a target whose TAR keeps what is written to it, which bulk calls do not read back; and so for WriteMemBulk.
- FlashWriter.FlashWriter.EraseSector: says which page is erased for any page number, but that this is the page asked for only below 256; above, the code selects another page.
- FlashWriter.FlashWriter.WriteFlashBulk: what is programmed is stated for ranges inside the flash.
- Rtt.RttTask.Task: exactly-once is claimed while no move of the read position is lost; each lost move doubles a run of bytes, because the code copies first and moves then.
- FlashWriter.FlashWriter.ClearBit: success leaves the register in doubt, because the write is posted; a lost write makes every later transfer fail, but an operation that ends with this one makes none.
- Server.Api.Serve: no write to the network fails.
- NoAck responses, line and dormant resets, multi-drop selection, CSW size and protection fields, and pushed compare or verify operations: the links to them are fixed sequences or not used by the calls modelled. Of the sticky flags only STICKYERR is ever set by the modelled target; all four are read. The modelled AP answers whether or not power was requested.
- Finding and parsing the log's control block: reading it succeeds or fails arbitrarily. The two ring positions are read and written as registers of the target, its data bytes through memory words. The target does not reset, move its ring or overwrite unread bytes.
- JSON and hexadecimal between tasks, tasks and channels themselves, timers, delays and timeouts: asynchronous calls are ordinary steps, and other parties act between them.
- A control register write while the flash controller is busy takes effect at once; real controllers may stall it. Flash data written over the controller's own registers, mass-erase bits, option bytes, unlocking and locking; the flash is unlocked on entry. An erased doubleword is recognised by its value.
- STM32F4 flash paths; firmware parsing and remote calls, configuration storage, HTTP and the web pages, WiFi.
