# Verified models of the SentriFarm firmware and bridge

This project models the parts of SentriFarm in which state, arithmetic and ordering interact, and proves what they
promise. `dafny verify dfyconfig.toml` checks everything.

| files | part of the system |
|---|---|
| `Common` | bytes and minimum |
| `Bits`, `RomOrder`, `OneWireBus`, `Ds18b20` | the 1-Wire bus, the resumable ROM search and the DS18x20 driver loop above it |
| `Crc8` | the 1-Wire checksum as polynomial division over GF(2) |
| `NetconnSpec`, `NetconnProofs`, `NetconnAnswers`, `NetconnSemaphore`, `Netconn` | the lwIP netconn state machine: API messages and TCP callbacks on one connection, and its one semaphore |
| `MqttSnSpec`, `MqttSnMessages`, `MqttSn` | the MQTT-SN client: requests, retransmission, topic table (MQTT-SN v1.2, sections 6.5 and 6.13) |
| `RadioLink`, `RadioEndpoints` | the radio frame between bridge and node, its checksum and its rolling counters |
| `Sx1276Send`, `Sx1276Exact`, `Sx1276` | the bridge's SX1276 driver over an unreliable SPI bus, and the carrier arithmetic |
| `LeaseSpec`, `LeaseList` | the DHCP server's lease list |
| `UdpSender` | the mutually recursive UDP sender |
| `GroundSensor`, `SensorEndings` | the ground sensor's timer-driven state machine |

Each part has the same shape. A state and its transitions are functions (`...Spec`, or the first half of a file); the
program's own form - objects, arrays, linked cells, loops - is a class whose methods are proved to do what the
functions say; and the properties are lemmas about the functions, over every input or every run. What the environment
does (devices on the bus, TCP, the gateway, the radio, the SPI bus, the allocator, wifi) is an argument, a sequence of
events or a nondeterministic choice, never a fixed script.

## Findings

Where the code does not meet what one would expect of it, the exact condition under which it does is proved:

- **ROM search.** A device whose family byte is 0 makes the very first search fail and hides every other device. The
  enumeration is complete if and only if there is none (`EveryDeviceFoundIffAllNamed`).
- **Drop count.** `dropped_` is exact if and only if no gap between delivered frames exceeds 256; a full turn of 256 lost
  frames is not seen at all (`LossyLink`, `FullTurnUnseen`).
- **Delete during connect.** After deleting a netconn that is still connecting, every caller is answered, whatever callbacks
  come, if and only if the connect was non-blocking; otherwise the waiting connecter is overwritten and never answered
  (`DeleteWhileConnecting`, `ConnecterLost`). The source asserts that guard (api_msg.c:830), with assertions off. It is enough
  because `tcp_close` cannot fail in SYN_SENT (attic/experiments/esp8266/src/lwip/core/tcp.c:193-199); with a stack in which it
  could, an error callback would forget the deleter (`DeleteUnderAnyClose`, `DeleterForgotten`).
- **Shared semaphore.** All callers of a netconn wait on the same semaphore. Every signal reaches the caller it is meant for if
  and only if no message is handed in while another caller waits (`SignalsReachIffSerial`).
- **Topic ids.** Committed topics are right for exactly 2^16 message ids: with one more, a REGACK delayed long enough commits
  a name under another name's id, unless the gateway gives all names the same id (`TopicIdsExact`).
- **Acknowledging a publish.** The ids of an incoming PUBLISH are swapped once too often on their way into the PUBACK: the
  gateway finds its own ids in it if and only if their two bytes are equal (`ReceivingSends`).
- **Carrier.** Words fit the registers if and only if the carrier is below 1024 MHz; requesting the reported carrier again
  steps down by one unless the word is a multiple of 256 (`CarrierFits`, `ReportedCarrierDrifts`).
- **Transmit with a fault.** A fault set on the way does not keep the transmitter off. The payload is sent, once, and nothing
  else, if and only if the tests of the FIFO pointer pass, exactly one switch to the transmitter takes effect, and length and
  cells are right, each in terms of the transfers and the registers before the call (`OnlyThePayloadOnce`, and the contract
  of `SendSimpleMessage`). Cause by cause: a length or a base that could not be written (`StaleLengthGoesOut`,
  `StaleBaseGoesOut`), a lost byte behind looks at the pointer that fail (`LossHidden`, `LostBytesGoOut`), a switch that is
  repeated (`SentTwice`) or passes for done (`NothingKeyed`), each if and only if.

Where code and documentation differ, the model follows the code: `SendSimpleMessage` is documented to truncate long
messages (software/sx1276/sx1276.hpp:87) but refuses them; `ChangeCarrier` is documented to return true when all is well
(software/sx1276/sx1276.hpp:78) but returns the fault flag; a failed association goes on to telemetry like a successful one,
only a missing access point leads to a restart (attic/ground-sensor/code/src/sentrifarm.c:349-353, 462-472).

## Assumptions

- The 1-Wire bus is ideal and its devices do not change during an enumeration. Command and family codes come from
  `driver/ds18b20.h`, which is not part of this model; the values are Dallas's.
- lwIP runs without core locking, `tcp_write` takes all bytes or none, and assertions are no-ops. A connected callback comes only
  while connecting and nothing is called on a netconn after it was deleted. A netconn in CONNECT has a pcb in SYN_SENT, because
  the connected callback follows in the call that establishes it (core/tcp.c:742, core/tcp_in.c:682-712). A signal of the
  semaphore is taken before the next message is handed in.
- Topic claims hold for a gateway that answers a REGISTER with its own message id and registers nothing itself. The clock claim
  holds when consecutive polls are less than 2^32 ms less one time-out apart.
- On the radio link frames arrive in order or not at all. A packet that reaches the bridge is not empty, and one that passes
  for data has at least 4 bytes.
- On the SPI bus any transfer may fail and any write may have no effect, but a read that reports success is truthful, and a
  write does not store a different value. Interrupt flags may read as anything.

## Model

| member | source | states |
|---|---|---|
| `Ds18b20.SearchRunsForever` | attic/ground-sensor/code/src/ds18b20.c:235-352 | after a search reset, the k-th call for ever: with every family byte non-zero it returns TRUE with device k mod (N+1) of the LSB-first order, and FALSE at k mod (N+1) = N, after which the enumeration starts over |
| `Ds18b20.EveryDeviceFoundIffAllNamed` | attic/ground-sensor/code/src/ds18b20.c:342-351 | every device is found if and only if no device has a zero family byte; then the first pass returns each once, in strictly increasing order, and FALSE after the last; with one such device nothing is ever found |
| `Ds18b20.ZeroFamilyFirst` | attic/ground-sensor/code/src/ds18b20.c:342-349 | a device whose family byte is zero comes first in the search order, so the call that meets it is the first one |
| `Ds18b20.NothingForever` | attic/ground-sensor/code/src/ds18b20.c:342-349 | when the first device in the order has a zero family byte, every call returns FALSE |
| `Ds18b20.DiscrepancyTellsLast` | attic/ground-sensor/code/src/ds18b20.c:332-336 | between calls `LastDiscrepancy` is 0 exactly when the ROM just returned is the last of the order |
| `Ds18b20.PassFindsNext` | attic/ground-sensor/code/src/ds18b20.c:267-340 | a completed pass leaves the ROM that follows the previous one in the order, whatever the devices are |
| `Ds18b20.FoundAt` | attic/ground-sensor/code/src/ds18b20.c:81-102 | the device a call returns is on the bus, and it joins the reported ones exactly when its family is known |
| `RomOrder.PassStep` | attic/ground-sensor/code/src/ds18b20.c:270-311 | one bit of a pass: the bus never answers 1/1, the active devices stay exactly those that match the bits chosen so far, and the invariant of the pass is kept |
| `RomOrder.PassNonempty` | attic/ground-sensor/code/src/ds18b20.c:270-311 | the chosen direction always keeps a device on the bus |
| `RomOrder.PassDeepest` | attic/ground-sensor/code/src/ds18b20.c:293-295 | `last_zero` is the deepest bit so far where the ROM took 0 and a device with the same prefix has 1 |
| `RomOrder.PassTrail` | attic/ground-sensor/code/src/ds18b20.c:284-290 | the pass repeats the previous ROM up to the last discrepancy, turns from 0 to 1 there, and after it takes a 1 only where no device on its branch has a 0 |
| `RomOrder.FreshPassFindsLeast` | attic/ground-sensor/code/src/ds18b20.c:244-340 | a pass that starts from discrepancy 0 finds the least ROM |
| `RomOrder.LaterPassFindsSuccessor` | attic/ground-sensor/code/src/ds18b20.c:244-340 | a pass that starts from the deepest discrepancy of a ROM finds its immediate successor |
| `RomOrder.NoDiscrepancyIffLast` | attic/ground-sensor/code/src/ds18b20.c:334-336 | a ROM has no open branch exactly when it is the greatest |
| `RomOrder.SuccessorIsNext` | attic/ground-sensor/code/src/ds18b20.c:235-352 | the immediate successor of the i-th ROM is the ROM at place i+1, and there is one exactly when i is not the last place |
| `RomOrder.SortedIncreases` | attic/ground-sensor/code/src/ds18b20.c:235-352 | the search order is strictly increasing in the LSB-first lexicographic order, so nothing is repeated |
| `RomOrder.LessTotal` | attic/ground-sensor/code/src/ds18b20.c:235-352 | any two different ROMs are ordered |
| `Ds18b20.Driver.ResetSearch` | attic/ground-sensor/code/src/ds18b20.c:180-190 | zeroes the ROM and both discrepancies and puts the search in front of the first device |
| `Ds18b20.Driver.StoreBit` | attic/ground-sensor/code/src/ds18b20.c:303-308 | sets or clears one bit of `ROM_NO` and no other |
| `Ds18b20.Driver.SearchBit` | attic/ground-sensor/code/src/ds18b20.c:270-323 | one turn of the bit loop on the bus: the state moves along the invariant of the pass |
| `Ds18b20.Driver.WalkTrie` | attic/ground-sensor/code/src/ds18b20.c:268-326 | the bit loop runs all 64 bits and ends on the next ROM with its deepest discrepancy |
| `Ds18b20.Driver.Pass` | attic/ground-sensor/code/src/ds18b20.c:267-339 | a pass over a non-empty bus always completes, on the device after the previous one, and leaves the search state behind it |
| `Ds18b20.Driver.Search` | attic/ground-sensor/code/src/ds18b20.c:235-352 | one call does what the order says it does and copies the ROM out, from any place of the enumeration |
| `OneWireBus.Bus.Reset` | attic/ground-sensor/code/src/ds18b20.c:198-232 | all devices are active and listen for a ROM command; presence is reported exactly when there is a device |
| `OneWireBus.Bus.WriteBit` | attic/ground-sensor/code/src/ds18b20.c:381-406 | a bit reaches every device and, in a search or match, keeps only the devices that carry it |
| `OneWireBus.Bus.ReadBit` | attic/ground-sensor/code/src/ds18b20.c:412-432 | a read is the wired AND of what the active devices put on the bus |
| `OneWireBus.Bus.Write` | attic/ground-sensor/code/src/ds18b20.c:361-375 | a byte leaves least significant bit first |
| `OneWireBus.Bus.Read` | attic/ground-sensor/code/src/ds18b20.c:449-457 | a byte is assembled least significant bit first |
| `OneWireBus.Bus.Select` | attic/ground-sensor/code/src/ds18b20.c:437-444 | a match command and the eight ROM bytes leave exactly the addressed device active |
| `OneWireBus.AddressingSelects` | attic/ground-sensor/code/src/ds18b20.c:437-444 | 64 address bits keep only the device with that ROM |
| `OneWireBus.WritesConcat` | attic/ground-sensor/code/src/ds18b20.c:361-375 | writing two bit strings one after the other is writing their concatenation |
| `Ds18b20.Driver.SearchSlot` | attic/ground-sensor/code/src/ds18b20.c:80-82 | one search that writes its ROM into the next result slot |
| `Ds18b20.Driver.ReadScratchpad` | attic/ground-sensor/code/src/ds18b20.c:109-116 | reads the nine scratchpad bytes of the addressed device |
| `Ds18b20.Driver.FillSlot` | attic/ground-sensor/code/src/ds18b20.c:89-147 | a known device fills its slot with its ROM and the temperature its scratchpad stands for, an unknown family leaves no result |
| `Ds18b20.Driver.Sweep` | attic/ground-sensor/code/src/ds18b20.c:79-148 | the driver loop makes at most N+1 searches and fills slots in search order |
| `Ds18b20.Driver.Exec` | attic/ground-sensor/code/src/ds18b20.c:56-152 | with valid arguments the first min(max_results, K) slots hold the ROM of the first readable devices in search order, each with the temperature its own scratchpad stands for, and at most the slot after them is touched; with invalid ones nothing is touched and it returns false; there are at most N+1 searches |
| `Ds18b20.Driver.SweptIsReported` | attic/ground-sensor/code/src/ds18b20.c:148-149 | where the loop stops, what was filled in is the first min(max_results, K) readable devices |
| `Ds18b20.ReadableIncreases` | attic/ground-sensor/code/src/ds18b20.c:89-102 | the devices reported are strictly increasing, hence distinct |
| `Ds18b20.TemperatureMeaning` | attic/ground-sensor/code/src/ds18b20.c:124-138 | sign, whole and hundredths decode the two-complement register: sixteenths for DS18B20, halves for DS18S20 |
| `Ds18b20.ReadingShows` | attic/ground-sensor/code/src/ds18b20.c:114-147 | the digits shown are the first 16 bits of the scratchpad, least significant bit first, the last one counting negative, in half degrees for the DS18S20 and sixteenths for every other device, cut to hundredths; minus exactly below zero |
| `Crc8.CrcIsTheRemainder` | attic/ground-sensor/code/src/ds18b20.c:463-477 | the result is the bit-reflected remainder modulo x^8+x^5+x^4+1, and the only 8-bit value that is one |
| `Crc8.QuotientUnique` | attic/ground-sensor/code/src/ds18b20.c:463-477 | two quotients whose products with the generator agree above degree 7 are equal, so long division has one answer |
| `Crc8.RegisterDivides` | attic/ground-sensor/code/src/ds18b20.c:467-474 | the shift register carries out polynomial long division, with the quotient as witness |
| `Crc8.CrcLinear` | attic/ground-sensor/code/src/ds18b20.c:463-477 | crc8 of the sum of two messages of one length is the sum of their crc8s |
| `Crc8.CheckedMessage` | attic/ground-sensor/code/src/ds18b20.c:86-87 | crc8(m ++ [c]) = 0 if and only if c = crc8(m) |
| `Crc8.BurstDetected` | attic/ground-sensor/code/src/ds18b20.c:463-477 | two messages that differ only within eight consecutive bits have different crc8s |
| `Crc8.ComputeCrc8` | attic/ground-sensor/code/src/ds18b20.c:463-477 | the nested loops over bytes and bits compute the register |
| `Crc8.ShiftByte` | attic/ground-sensor/code/src/ds18b20.c:468-474 | one byte is eight steps of the register |
| `Crc8.ShiftConcat` | attic/ground-sensor/code/src/ds18b20.c:467-474 | the register after two strings is the register after the second, started from the first |
| `NetconnProofs.RunConserves` | attic/experiments/esp8266/src/lwip/api/api_msg.c:346-404 | over every legal run each API message submitted has been answered exactly once or is the current message, every answer is truthful about the bytes, and the invariant holds |
| `NetconnProofs.NobodyAnsweredTwice` | attic/experiments/esp8266/src/lwip/api/api_msg.c:346-404 | no interleaving of API calls and sent, poll, error and connected callbacks answers a message twice or while it is still current |
| `NetconnAnswers.AnswersAreEarned` | attic/experiments/esp8266/src/lwip/api/api_msg.c:277-404 | over every legal run each answer tells what the stack said: an error callback answers the caller that waits with its error, a connected callback with its result, a close that waited with success, and only when `tcp_close` succeeds; success is never told without the success of the stack: a TCP connect only after `tcp_connect` returned ERR_OK for it and a connected callback brought ERR_OK |
| `NetconnAnswers.RunWaits` | attic/experiments/esp8266/src/lwip/api/api_msg.c:853-1018 | whoever waits was handed in under the phase that owns it: a connecter after `tcp_connect` succeeded, a closer after `tcp_close` failed |
| `NetconnAnswers.StepHonest` | attic/experiments/esp8266/src/lwip/api/api_msg.c:277-1457 | one legal action: whom it answers with what, and whom it leaves waiting |
| `NetconnAnswers.ErrAnswers` | attic/experiments/esp8266/src/lwip/api/api_msg.c:347-404 | the error callback answers exactly the caller that waits, with the error, and drops the pcb |
| `NetconnAnswers.FatalErrorSticks` | attic/experiments/esp8266/src/lwip/api/api_msg.c:1057-1101 | after a fatal error callback every write and every listen is answered with that error |
| `NetconnAnswers.FatalErrorKept` | attic/experiments/esp8266/src/lwip/api/api_msg.c:364-368 | an error reported later does not replace a fatal one |
| `NetconnAnswers.ConnectedAnswers` | attic/experiments/esp8266/src/lwip/api/api_msg.c:925-966 | the connected callback answers a blocking caller with its result; for a non-blocking connect it only ends ERR_INPROGRESS |
| `NetconnAnswers.CloseTriedAgain` | attic/experiments/esp8266/src/lwip/api/api_msg.c:277-337 | a waiting closer is answered exactly when the close succeeds, and the pcb goes with it |
| `NetconnAnswers.IdleCallback` | attic/experiments/esp8266/src/lwip/api/api_msg.c:277-337 | a sent or poll callback that finds neither a writer nor a closer does nothing but clear the write-space mark |
| `NetconnAnswers.MarkCleared` | attic/experiments/esp8266/src/lwip/api/api_msg.c:290-334 | the write-space mark goes exactly when a callback sees room on a connection that is still there |
| `NetconnAnswers.MarkSet` | attic/experiments/esp8266/src/lwip/api/api_msg.c:1255-1275 | it is set exactly by a write that must not block and finds no room |
| `NetconnAnswers.OffersTheMost` | attic/experiments/esp8266/src/lwip/api/api_msg.c:1220-1242 | what is offered to `tcp_write` is as much of the rest as fits a u16 and the send buffer |
| `NetconnAnswers.BlockedWriteFails` | attic/experiments/esp8266/src/lwip/api/api_msg.c:1276-1305 | a blocking writer waits on when memory runs out and is answered with any other error and the bytes taken |
| `NetconnAnswers.WriteBegins` | attic/experiments/esp8266/src/lwip/api/api_msg.c:1318-1364 | when a write is refused, with which error and without a trace, and when it is answered at once or waits |
| `NetconnAnswers.CloseBegins` | attic/experiments/esp8266/src/lwip/api/api_msg.c:1426-1457 | the same for a close |
| `NetconnAnswers.DeleteBegins` | attic/experiments/esp8266/src/lwip/api/api_msg.c:820-876 | the same for a delete, and that the netconn is gone with the answer |
| `NetconnAnswers.ConnectBegins` | attic/experiments/esp8266/src/lwip/api/api_msg.c:977-1025 | the same for a connect; once under way it needs the connected callback |
| `NetconnAnswers.ListenAnswers` | attic/experiments/esp8266/src/lwip/api/api_msg.c:1057-1101 | a listen succeeds exactly on an idle TCP connection without a fatal error; only a missing mailbox costs the pcb |
| `NetconnAnswers.NewAnswers` | attic/experiments/esp8266/src/lwip/api/api_msg.c:540-551 | success is answered exactly when there is a pcb afterwards |
| `NetconnSemaphore.SignalsReachIffSerial` | attic/experiments/esp8266/include/lwip-esp8266/lwip/tcpip.h:67-71 | all callers of a netconn wait on one semaphore and a signal may wake any of them: over every legal run of distinct messages each signal reaches the caller it is meant for, whomever the semaphore chooses, if and only if no message is handed in while another caller waits |
| `NetconnSemaphore.SerialReaches` | attic/experiments/esp8266/include/lwip-esp8266/lwip/tcpip.h:67-71 | without such an overlap there is only one caller to wake, and it is the one just answered |
| `NetconnSemaphore.OverlapMisses` | attic/experiments/esp8266/include/lwip-esp8266/lwip/tcpip.h:67-71 | with an overlap the second message is answered on the spot, and its signal can wake the first caller, who has not been answered; the run goes on from there |
| `NetconnSemaphore.AnsweredOnTheSpot` | attic/experiments/esp8266/src/lwip/api/api_msg.c:540-1457 | every API message handed in while a caller waits is answered in its own handler |
| `NetconnProofs.StepKeeps` | attic/experiments/esp8266/src/lwip/api/api_msg.c:198-1457 | every legal action keeps the invariant and loses or doubles no answer; `current_msg` is set exactly in WRITE, CLOSE and blocking CONNECT |
| `NetconnProofs.WriteMoreKeeps` | attic/experiments/esp8266/src/lwip/api/api_msg.c:1199-1308 | while in WRITE there is a pcb and a message, the offset is below its length, and the bytes accepted are exactly its first bytes in order |
| `NetconnProofs.NonblockingWriteIsAllOrNothing` | attic/experiments/esp8266/src/lwip/api/api_msg.c:1206-1301 | a write that must not block is answered inside its handler, with success and the whole buffer taken or with an error and no byte, and leaves the state as it was; on an idle connection it succeeds exactly when the buffer fits and `tcp_write` takes it |
| `NetconnProofs.NonblockingTurn` | attic/experiments/esp8266/src/lwip/api/api_msg.c:1206-1301 | how such a write is answered: with success and all bytes if the buffer fits and `tcp_write` takes it, else with an error and none |
| `NetconnProofs.WriteProgress` | attic/experiments/esp8266/src/lwip/api/api_msg.c:1242-1276 | a blocking write with room in the send buffer advances by min(remaining, room, 65535) bytes |
| `NetconnProofs.BlockingWriteCompletes` | attic/experiments/esp8266/src/lwip/api/api_msg.c:313-337 | as many accepting sent callbacks as there are bytes left answer the writer with ERR_OK and all of its bytes |
| `NetconnProofs.DeleteWhileConnecting` | attic/experiments/esp8266/src/lwip/api/api_msg.c:820-876 | deleting a netconn that is still connecting, followed by any callbacks: the deleter is answered; a caller blocked in connect is never answered; so every caller is served if and only if the connect was non-blocking |
| `NetconnProofs.DeleteUnderAnyClose` | attic/experiments/esp8266/src/lwip/api/api_msg.c:735-876 | the same for a `tcp_close` that may fail: the deleter is always served if and only if no non-blocking connect is under way or the close succeeds; everybody is served if and only if the connect was non-blocking and the close succeeds |
| `NetconnProofs.ConnectReached` | attic/experiments/esp8266/src/lwip/api/api_msg.c:977-1018 | a new pcb and a connect bring the netconn into CONNECT by a legal run, with the caller waiting exactly when it is blocking |
| `NetconnProofs.DeleterForgotten` | attic/experiments/esp8266/src/lwip/api/api_msg.c:390-393 | why a failed close of a connecting pcb would matter: after it and an error callback the state is NONE with the deleter still current, and no callback ever answers it |
| `NetconnProofs.DeleterServed` | attic/experiments/esp8266/src/lwip/api/api_msg.c:820-876 | the deleter's half of DeleteUnderAnyClose |
| `NetconnProofs.ConnecterLost` | attic/experiments/esp8266/src/lwip/api/api_msg.c:853-856 | a delete during a blocking connect overwrites the waiting message, and no callback ever answers it |
| `NetconnProofs.StrayConnected` | attic/experiments/esp8266/src/lwip/api/api_msg.c:925-966 | a connected callback in NONE or LISTEN signals a semaphore nobody waits on, and only then |
| `NetconnProofs.ErrTcpKeeps` | attic/experiments/esp8266/src/lwip/api/api_msg.c:347-404 | the error callback keeps the invariant and answers only the caller that waits, if any, who then waits no more |
| `NetconnProofs.DoConnectedKeeps` | attic/experiments/esp8266/src/lwip/api/api_msg.c:925-966 | the same for the connected callback while connecting |
| `NetconnProofs.DoDelConnKeeps` | attic/experiments/esp8266/src/lwip/api/api_msg.c:820-876 | a delete is answered or becomes the waiting message, never both, and disturbs no other; while connecting this needs a non-blocking connect, and DeleteWhileConnecting covers the other case |
| `NetconnProofs.DoCloseKeeps` | attic/experiments/esp8266/src/lwip/api/api_msg.c:1426-1457 | the same for a close |
| `NetconnProofs.DoConnectKeeps` | attic/experiments/esp8266/src/lwip/api/api_msg.c:977-1025 | the same for a connect; the non-blocking mark is set exactly when nobody waits for it |
| `NetconnProofs.DoListenKeeps` | attic/experiments/esp8266/src/lwip/api/api_msg.c:1057-1101 | the same for a listen |
| `Netconn.Conn.WriteMore` | attic/experiments/esp8266/src/lwip/api/api_msg.c:1199-1308 | the step on the fields does what the write transition says |
| `Netconn.Conn.Offer` | attic/experiments/esp8266/src/lwip/api/api_msg.c:1206-1254 | how many bytes are offered to `tcp_write`, when a write that must not block fails first, and what is accepted |
| `Netconn.Conn.Conclude` | attic/experiments/esp8266/src/lwip/api/api_msg.c:1255-1305 | from the result of `tcp_write` to offset, write-space mark, answer and state |
| `Netconn.Conn.DoWrite` | attic/experiments/esp8266/src/lwip/api/api_msg.c:1318-1364 | fatal error, wrong type, busy, hand-in or not connected |
| `Netconn.Conn.CloseInternal` | attic/experiments/esp8266/src/lwip/api/api_msg.c:735-810 | a successful close drops the pcb and answers, a failed one leaves the closer waiting |
| `Netconn.Conn.DoClose` | attic/experiments/esp8266/src/lwip/api/api_msg.c:1426-1457 | busy, hand-in or not connected |
| `Netconn.Conn.DoDelConn` | attic/experiments/esp8266/src/lwip/api/api_msg.c:820-876 | refuses while writing or closing, otherwise closes a TCP connection or answers at once |
| `Netconn.Conn.DoConnect` | attic/experiments/esp8266/src/lwip/api/api_msg.c:977-1025 | refusals, `tcp_connect` and the two kinds of waiting |
| `Netconn.Conn.DoConnected` | attic/experiments/esp8266/src/lwip/api/api_msg.c:925-966 | ends the connect and answers a blocking caller |
| `Netconn.Conn.DoListen` | attic/experiments/esp8266/src/lwip/api/api_msg.c:1057-1101 | refusals, a new listening pcb, a missing mailbox |
| `Netconn.Conn.DoNewConn` | attic/experiments/esp8266/src/lwip/api/api_msg.c:540-551 | a new pcb or an error |
| `Netconn.Conn.ErrTcp` | attic/experiments/esp8266/src/lwip/api/api_msg.c:347-404 | drops the pcb, records the error, and answers whoever waits with it in its own message |
| `Netconn.Conn.SentTcp` | attic/experiments/esp8266/src/lwip/api/api_msg.c:313-337 | continues a write or a close and clears the write-space mark |
| `Netconn.Conn.PollTcp` | attic/experiments/esp8266/src/lwip/api/api_msg.c:277-303 | continues a write or a close and clears the write-space mark |
| `Netconn.Conn.Perform` | attic/experiments/esp8266/src/lwip/api/api_msg.c:198-1457 | on the object: any one handler or callback that may run keeps the invariant, loses no answer, gives none twice, and every answer is truthful |
| `Netconn.Conn.Submit` | attic/experiments/esp8266/src/lwip/api/api_msg.c:540-1457 | an API message runs its handler |
| `Netconn.Conn.Notify` | attic/experiments/esp8266/src/lwip/api/api_msg.c:277-404 | a callback or a flag change runs its step |
| `Netconn.Conn.BeginClose` | attic/experiments/esp8266/src/lwip/api/api_msg.c:853-856 | a close or a delete becomes the current message and makes its first attempt |
| `MqttSnProofs.TopicsAreTheGateways` | software/mcu/libraries/arduino-mqtt-sn/mqttsn-messages.cpp:276-295 | over every run with at most 2^16 message ids and a gateway that answers REGISTERs with their own ids: every committed topic has the id the gateway gave its name, committed ids are distinct, and the count stays at most MAX_TOPICS - 1, whatever answers are late, repeated or lost |
| `MqttSnProofs.WrappedIdsMispair` | software/mcu/libraries/arduino-mqtt-sn/mqttsn-messages.cpp:276-295 | for any two names the gateway tells apart there is an honest run with 2^16 + 1 ids after which a late REGACK has committed one name under the id of the other |
| `MqttSnProofs.TopicIdsExact` | software/mcu/libraries/arduino-mqtt-sn/mqttsn-messages.cpp:276-295 | for every gateway and every n: all honest runs with at most n message ids leave the committed topics right if and only if n is at most 2^16 or the gateway gives all names the same id |
| `MqttSnProofs.ConstantRun` | software/mcu/libraries/arduino-mqtt-sn/mqttsn-messages.cpp:276-295 | with a gateway that has one id for all names the committed topics are right over runs of any length |
| `MqttSnProofs.StepKeeps` | software/mcu/libraries/arduino-mqtt-sn/mqttsn-messages.cpp:114-232 | every action of client and honest gateway keeps the invariant of the topic table |
| `MqttSnProofs.RegackKeeps` | software/mcu/libraries/arduino-mqtt-sn/mqttsn-messages.cpp:276-295 | a REGACK that answers some REGISTER, however old, keeps the invariant of the topic table |
| `MqttSnProofs.RegackChanges` | software/mcu/libraries/arduino-mqtt-sn/mqttsn-messages.cpp:276-295 | a REGACK changes at most the entry being registered: it commits it under the id it carries if and only if it is awaited, accepts, has the awaited message id and an id not committed before; it sends nothing and, unless ignored, ends the wait |
| `MqttSnProofs.RegisterKeeps` | software/mcu/libraries/arduino-mqtt-sn/mqttsn-messages.cpp:453-478 | a registration is refused exactly while a reply is awaited or the table is full, whether or not the name is in the table already; otherwise one REGISTER with the next id goes out; committed entries stay and the invariant is kept |
| `MqttSnProofs.PollKeeps` | software/mcu/libraries/arduino-mqtt-sn/mqttsn-messages.cpp:70-88 | a poll sends the buffered message once more if the wait has expired with retries left, and nothing otherwise; topics and message id stay |
| `MqttSnProofs.StaleHonest` | software/mcu/libraries/arduino-mqtt-sn/mqttsn-messages.cpp:276-295 | the run behind the counterexample is one the gateway and the network may produce |
| `MqttSnMessages.PublishReaches` | software/mcu/libraries/arduino-mqtt-sn/mqttsn-messages.cpp:494-512 | over every honest run with at most 2^16 ids, publishing on a committed topic sends one message in which the gateway reads its own id for the name of the topic, a message id no request had before, and the flags and data of the caller; the client then waits for a PUBACK exactly when the flags ask for QoS 1 or 2 |
| `MqttSnMessages.RequestsAreNew` | software/mcu/libraries/arduino-mqtt-sn/mqttsn-messages.cpp:453-638 | every request that issues an id sends exactly one message, under an id that no message of the run had |
| `MqttSnMessages.AcknowledgedQos` | software/mcu/libraries/arduino-mqtt-sn/mqttsn-messages.cpp:508-511 | an answer is due exactly when bits 5 and 6 of the flags read 1 or 2 |
| `MqttSnMessages.SubscribeContents` | software/mcu/libraries/arduino-mqtt-sn/mqttsn-messages.cpp:557-596 | the topic as it was named, the quality of service asked for, and bit 0 for a topic named by its id; the wait for the SUBACK |
| `MqttSnMessages.UnsubscribeContents` | software/mcu/libraries/arduino-mqtt-sn/mqttsn-messages.cpp:599-638 | the same for UNSUBSCRIBE |
| `MqttSnMessages.RegistrationStages` | software/mcu/libraries/arduino-mqtt-sn/mqttsn-messages.cpp:453-478 | a registration stages its name, waits for the REGACK and starts the timer with all retries |
| `MqttSnMessages.RegistrationCommits` | software/mcu/libraries/arduino-mqtt-sn/mqttsn-messages.cpp:276-295 | over every honest run the answer of the gateway commits the name with its id, unless a committed name has the same id; the wait ends either way |
| `MqttSnMessages.PlainContents` | software/mcu/libraries/arduino-mqtt-sn/mqttsn-messages.cpp:373-450 | the other requests wait for their own answer, a will does not wait; none issues an id or touches a topic |
| `MqttSnMessages.SendStartsTimer` | software/mcu/libraries/arduino-mqtt-sn/mqttsn-messages.cpp:235-246 | a message sent while nothing is awaited starts the timer with five retries; while something is awaited neither changes |
| `MqttSnMessages.ReceivingEndsWait` | software/mcu/libraries/arduino-mqtt-sn/mqttsn-messages.cpp:114-232 | a wait is ended exactly by the awaited answer and by GWINFO, WILLTOPICREQ, WILLMSGREQ, PINGREQ, DISCONNECT and PUBLISH |
| `MqttSnMessages.ReceivingSends` | software/mcu/libraries/arduino-mqtt-sn/mqttsn-messages.cpp:313-348 | only a ping and a publish that asks for it are answered; the PUBACK accepts exactly the committed topics, and the gateway finds its own ids in it if and only if their two bytes are equal |
| `MqttSnRetry.RetrySchedule` | software/mcu/libraries/arduino-mqtt-sn/mqttsn-messages.cpp:70-88 | each expiry repeats the buffered message; when the retries are used up the next one ends the wait and reports the loss, once and for all |
| `MqttSnRetry.RequestRetried` | software/mcu/libraries/arduino-mqtt-sn/mqttsn-messages.cpp:235-246 | a request started while idle and never answered goes out once and is repeated unchanged exactly N_RETRY times, then `disconnect_handler` is called exactly once |
| `MqttSnRetry.WrappingClockIsExact` | software/mcu/libraries/arduino-mqtt-sn/mqttsn-messages.cpp:70-88 | the same expiries are seen on a 32-bit millisecond clock that wraps between polls as on an unbounded one |
| `MqttSnSpec.BswapInvolutive` | software/mcu/libraries/arduino-mqtt-sn/mqttsn-messages.cpp:90-92 | swapping the bytes twice gives the value back |
| `MqttSn.Client.SendMessage` | software/mcu/libraries/arduino-mqtt-sn/mqttsn-messages.cpp:235-246 | sends the buffer and restarts timer and retries unless a wait is on |
| `MqttSn.Client.WaitForResponse` | software/mcu/libraries/arduino-mqtt-sn/mqttsn-messages.cpp:70-88 | one poll of the wait |
| `MqttSn.Client.FindTopicId` | software/mcu/libraries/arduino-mqtt-sn/mqttsn-messages.cpp:95-104 | finds the first committed entry with the name |
| `MqttSn.Client.RegisterTopic` | software/mcu/libraries/arduino-mqtt-sn/mqttsn-messages.cpp:453-478 | stages the name at `topic_count` and requests its id |
| `MqttSn.Client.RegackHandler` | software/mcu/libraries/arduino-mqtt-sn/mqttsn-messages.cpp:276-295 | commits the staged name when message id, return code and uniqueness allow |
| `MqttSn.Client.HasTopic` | software/mcu/libraries/arduino-mqtt-sn/mqttsn-messages.cpp:282-287 | the loop over the committed entries finds an id exactly when one of them has it |
| `MqttSn.Client.Dispatch` | software/mcu/libraries/arduino-mqtt-sn/mqttsn-messages.cpp:114-232 | ends the wait on the awaited kind only and hands the message to its handler |
| `MqttSn.Client.DoPublish` | software/mcu/libraries/arduino-mqtt-sn/mqttsn-messages.cpp:494-512 | issues an id and sends the message of the publish transition; waits only for the acknowledged qualities of service |
| `MqttSn.Client.DoSubscribe` | software/mcu/libraries/arduino-mqtt-sn/mqttsn-messages.cpp:557-596 | issues an id, sends, and waits for the acknowledged qualities of service |
| `MqttSn.Client.DoRequest` | software/mcu/libraries/arduino-mqtt-sn/mqttsn-messages.cpp:373-399 | sends and waits for the named kind |
| `MqttSn.Client.DoUnsubscribe` | software/mcu/libraries/arduino-mqtt-sn/mqttsn-messages.cpp:599-638 | issues an id, sends, and waits for the acknowledged qualities of service |
| `MqttSn.Client.DoSend` | software/mcu/libraries/arduino-mqtt-sn/mqttsn-messages.cpp:402-434 | sends without waiting |
| `MqttSn.Client.Timeout` | software/mcu/libraries/arduino-mqtt-sn/mqttsn-messages.cpp:249-252 | waits for an ADVERTISE |
| `MqttSn.Client.Perform` | software/mcu/libraries/arduino-mqtt-sn/mqttsn-messages.cpp:70-660 | on the object: any one call or message of an honest gateway, up to the 2^16-th id, keeps the invariant and the committed topics right |
| `RadioLink.LossyLink` | software/sx1276/sx1276_mqttsn_bridge.cpp:147-182 | from a fresh start or a hello on: the node sends any messages, the link loses or spoils any frames: the bridge hands up exactly those that arrived, in order, and `dropped_` grows by the frames missing between the first and the last if and only if no gap exceeds 256 |
| `RadioLink.LossyLinkAfterHello` | software/sx1276/sx1276_mqttsn_bridge.cpp:158-182 | the same from any receiver once a hello has come in |
| `RadioLink.HelloStartsOver` | software/sx1276/sx1276_mqttsn_bridge.cpp:158-162 | a hello sets the counter and forgets that data has come in |
| `RadioLink.EveryArrivalCounted` | software/sx1276/sx1276_mqttsn_bridge.cpp:148-195 | valid, junk, checksum and CRC counts: every arrival is counted in its own place and nowhere else, and only data can be charged as dropped |
| `RadioLink.CountersTrack` | software/sx1276/sx1276_mqttsn_bridge.cpp:167-179 | on any arrivals whose data frames carry increasing sequence numbers modulo 256, the counters hold the last number and `dropped_` the sum of the gaps as seen modulo 256 |
| `RadioLink.CountedExact` | software/sx1276/sx1276_mqttsn_bridge.cpp:172-178 | counting modulo 256 never overestimates the loss and is exact just when no gap exceeds 256 |
| `RadioLink.FullTurnUnseen` | software/sx1276/sx1276_mqttsn_bridge.cpp:172-178 | 256 frames lost in a row leave `dropped_` unchanged |
| `RadioLink.IntactIffZero` | software/sx1276/sx1276_mqttsn_bridge.cpp:148-152 | a frame passes the checksum exactly when all of its bytes cancel |
| `RadioLink.OneByteChangeRejected` | software/sx1276/sx1276_mqttsn_bridge.cpp:148-152 | an intact frame with any one byte changed is refused |
| `RadioLink.DamagedFrameIsOnlyCounted` | software/sx1276/sx1276_mqttsn_bridge.cpp:152-157 | such a frame raises the checksum count and moves no counter |
| `RadioLink.BridgeToNode` | software/mcu/libraries/sentrifarm/sx1276mqttsn.cpp:92-103 | what the bridge frames, the node parses: its message buffer starts with the payload, up to 92 bytes, and is otherwise unchanged |
| `RadioLink.NodeIgnores` | software/mcu/libraries/sentrifarm/sx1276mqttsn.cpp:92-100 | a hello or a packet shorter than a head leaves the message buffer as it was |
| `RadioLink.NodeToBridge` | software/mcu/libraries/sentrifarm/sx1276mqttsn.cpp:116-127 | what the node frames, the bridge accepts as data with the exact message, clipped to 92 bytes, and the node's counter |
| `RadioLink.AirIsNumbered` | software/mcu/libraries/sentrifarm/sx1276mqttsn.cpp:119-130 | the frames that arrive carry the places of their messages, counted from the node's counter, modulo 256 |
| `RadioLink.FrameShape` | software/sx1276/sx1276_mqttsn_bridge.cpp:103-116 | length, header, payload and checksum of a frame |
| `RadioEndpoints.RadioManager.constructor` | software/sx1276/sx1276_mqttsn_bridge.cpp:49-56 | counters of a new manager; the expected first counter is 0 |
| `RadioEndpoints.RadioManager.Transmit` | software/sx1276/sx1276_mqttsn_bridge.cpp:101-126 | the frame given to the radio; the counter moves on even when the radio fails, `num_tx_` only when it does not |
| `RadioEndpoints.RadioManager.TransmitHello` | software/sx1276/sx1276_mqttsn_bridge.cpp:87-100 | five hellos on consecutive counters, each sealed |
| `RadioEndpoints.RadioManager.NoteCounter` | software/sx1276/sx1276_mqttsn_bridge.cpp:165-179 | the charge for a frame off the expected counter |
| `RadioEndpoints.RadioManager.TakePacket` | software/sx1276/sx1276_mqttsn_bridge.cpp:147-186 | what one packet does to the receiver, and that a payload is copied exactly for an intact data frame |
| `RadioEndpoints.RadioManager.TryReceive` | software/sx1276/sx1276_mqttsn_bridge.cpp:130-198 | runs through whatever the radio reports until the first payload or bus error, which it returns, and no payload is skipped on the way |
| `RadioEndpoints.XorOf` | software/mcu/libraries/sentrifarm/sx1276mqttsn.cpp:105-112 | exclusive or of a prefix of a buffer |
| `RadioEndpoints.NodeRadio.SendMessage` | software/mcu/libraries/sentrifarm/sx1276mqttsn.cpp:116-135 | the packet on the air is the node's frame of the clipped message, on consecutive counters |
| `RadioEndpoints.NodeRadio.TransmitMessage` | software/mcu/libraries/SX1276lib/sx1276.cpp:320-350 | the bytes in the FIFO from 0x80 on, which go on the air, are the message, up to 128 of them |
| `RadioEndpoints.NodeRadio.ReceiveMessage` | software/mcu/libraries/SX1276lib/sx1276.cpp:486-513 | accepts exactly the packets whose adjusted length fits the buffer and keeps all but their last byte |
| `RadioEndpoints.NodeRadio.Parse` | software/mcu/libraries/sentrifarm/sx1276mqttsn.cpp:92-103 | short packets and hellos leave the message buffer alone, others fill it from their payload |
| `Sx1276.Radio.SendSimpleMessage` | software/sx1276/sx1276.cpp:417-491 | the chip afterwards follows from how the transfers went, and exactly the payload left it, once, if and only if ExactlyOnce holds of them; true is returned if and only if no fault was set before or on the way to the transmitter and the last look at the interrupt flags read TxDone, where the looks stop at the first TxDone, at one that fails, or when the time is up; longer payloads than 127 bytes are never sent and set the fault; without true the chip sends at most one packet, twice at most, and it is the payload unless a fault is set; on a bus without failures every payload of at most 127 bytes leaves exactly once |
| `Sx1276.Radio.AwaitTxDone` | software/sx1276/sx1276.cpp:469-490 | the looks at the interrupt flags: true exactly when the last one read bit 3 set, with every one before it clear; a look that fails four times sets the fault |
| `Sx1276Exact.FlawlessWhen` | software/sx1276/sx1276.cpp:429-467 | no fault is set on the way to the transmitter if and only if every verified write is confirmed, every look at the pointer succeeds, no byte is lost and the payload has at most 127 bytes |
| `Sx1276Exact.LastLookTells` | software/sx1276/sx1276.cpp:473-484 | the last look has seen TxDone exactly when any has, and a first look that sees it is the only one |
| `Sx1276Exact.VerifiedConfirmed` | software/sx1276/sx1276.cpp:174-189 | a verified write succeeds exactly when one of its attempts is neither refused nor unread and finds the value in the register |
| `Sx1276Exact.OnlyThePayloadOnce` | software/sx1276/sx1276.cpp:417-467 | over every course of the transfers, with or without a fault at entry: the payload is sent, once, and nothing else, if and only if all tests of the pointer pass, one switch to the transmitter takes effect, the length register fits, and every cell from the base on holds its byte |
| `Sx1276Exact.WrongPacketGoesOut` | software/sx1276/sx1276.cpp:417-467 | something else is sent if and only if the tests pass, a switch takes effect, and length or cells are not right |
| `Sx1276Exact.RunSends` | software/sx1276/sx1276.cpp:417-467 | what is sent and how often, as a function of the registers and the FIFO before the call and of the transfers |
| `Sx1276Exact.ExactWhenSeen` | software/sx1276/sx1276.cpp:417-467 | the condition when no look at the pointer fails: the pointer was set, no byte was lost, the payload has at most 127 bytes, length and base fit, and one switch takes effect |
| `Sx1276Exact.StaleLengthGoesOut` | software/sx1276/sx1276.cpp:440-467 | with everything else right a packet other than the payload is found if and only if both writes of the length are lost and the register held another length |
| `Sx1276Exact.StaleBaseGoesOut` | software/sx1276/sx1276.cpp:436-467 | the same for the base: both writes lost, and the cells from the old base on do not happen to show the payload |
| `Sx1276Exact.LossHidden` | software/sx1276/sx1276.cpp:444-461 | with the pointer set and seen before the first byte: a lost FIFO byte gets past the driver if and only if every look at the pointer from the loss to the end fails and leaves the expected value behind |
| `Sx1276Exact.HiddenLoss` | software/sx1276/sx1276.cpp:444-461 | whatever the first look showed, a lost byte or an unset pointer gets past only behind a look that failed |
| `Sx1276Exact.SeenPasses` | software/sx1276/sx1276.cpp:444-461 | while no look fails, the tests let through exactly the runs in which the pointer was set, no byte was lost and the payload has at most 127 bytes |
| `Sx1276Exact.LostBytesGoOut` | software/sx1276/sx1276.cpp:446-467 | lost bytes that get past let a wrong packet out if and only if the bytes kept, moved up, and the old cells behind them do not happen to be the payload |
| `Sx1276Exact.SentTwice` | software/sx1276/sx1276.cpp:174-189 | a packet leaves twice if and only if the first switch to transmit takes effect but is refused or cannot be read back, and the second takes effect |
| `Sx1276Exact.NothingKeyed` | software/sx1276/sx1276.cpp:174-189 | no packet leaves if and only if the first switch is lost and so is the second, or the transmitter was on before and the lost write passes for done |
| `Sx1276Exact.Launched` | software/sx1276/sx1276.cpp:466-467 | the verified switch to transmit sends what the chip holds at most twice, and at least once when it succeeds from another mode |
| `Sx1276Exact.VerifiedHolds` | software/sx1276/sx1276.cpp:174-189 | after a verified write a register holds its old value exactly when both attempts were lost, and no other register changes |
| `Sx1276Exact.FilledCells` | software/sx1276/sx1276.cpp:446-455 | every cell of the FIFO after any writes, lost or not: the bytes kept lie one after the other from the pointer on, around the end |
| `Sx1276.Radio.FillFifo` | software/sx1276/sx1276.cpp:446-461 | the FIFO afterwards is the one of the writes that took effect, and true is returned exactly when all tests of the pointer pass; without a fault it holds the payload, and the 128th byte never passes |
| `Sx1276.FillStep` | software/sx1276/sx1276.cpp:446-455 | one byte: the pointer test passes only if the byte is in place, and never for the 128th |
| `Sx1276.LoadedLeaves` | software/sx1276/sx1276.cpp:463-466 | what the transmitter finds in a filled FIFO is the payload |
| `Sx1276.Radio.Prepare` | software/sx1276/sx1276.cpp:429-444 | every register after the preparation follows from the transfers, standby being skipped with a fault at entry; without a fault mode, base, pointer and length are what was asked for |
| `Sx1276.Radio.SwitchToTx` | software/sx1276/sx1276.cpp:463-466 | interrupt mask, flags and the verified switch: what the chip holds leaves at most twice, once without failures |
| `Sx1276.Radio.WriteRegisterVerify` | software/sx1276/sx1276.cpp:174-189 | two attempts, each lost, refused or unread, determine chip and result; success means the register holds the value; failure needs two failed transfers and sets the sticky fault |
| `Sx1276.Radio.ReadRegisterHarder` | software/sx1276/sx1276.cpp:161-169 | success is truthful; failure needs all retries to fail and sets the sticky fault |
| `Sx1276.Radio.ChangeCarrier` | software/sx1276/sx1276.cpp:248-268 | returns the fault flag; without a fault the three registers hold the frequency word modulo 2^24, and the reported carrier agrees with the request, within 62 Hz below 1024 MHz |
| `Sx1276.Radio.ReadCarrier` | software/sx1276/sx1276.cpp:270-284 | without a fault the reported carrier is the one in the registers |
| `Sx1276.CarrierFits` | software/sx1276/sx1276.cpp:256-262 | three byte registers hold the frequency word if and only if the carrier is below 1,024,000,000 Hz |
| `Sx1276.CarrierIsClose` | software/sx1276/sx1276.cpp:256-283 | the carrier reported is never above the request and at most 62 Hz below it |
| `Sx1276.CarrierIsMonotone` | software/sx1276/sx1276.cpp:256-283 | a higher request never reports a lower carrier |
| `Sx1276.ReportedCarrierDrifts` | software/sx1276/sx1276.cpp:256-283 | asking again for the reported carrier gives the same word if and only if it is a multiple of 256, and the next lower one otherwise |
| `Sx1276.WordSurvives` | software/sx1276/sx1276.cpp:257-279 | splitting a word over the registers and joining it keeps it modulo 2^24 |
| `LeaseSpec.LeaseLives` | attic/experiments/esp8266/src/lwip/app/dhcpserver.c:856-877 | whatever other clients do, a lease renewed at some request is there until exactly the 0x05A0-th sweep after it, with that many sweeps left |
| `LeaseSpec.RunSound` | attic/experiments/esp8266/src/lwip/app/dhcpserver.c:622-643 | over every run each client holds at most one lease and no lease in the list has run out |
| `LeaseSpec.AddressKept` | attic/experiments/esp8266/src/lwip/app/dhcpserver.c:624-628 | as long as a client's lease lasts it keeps its address, whatever address it would be offered when it asks again |
| `LeaseSpec.StrangersHoldNothing` | attic/experiments/esp8266/src/lwip/app/dhcpserver.c:622-643 | a client that never asked holds no lease |
| `LeaseSpec.AgedRemaining` | attic/experiments/esp8266/src/lwip/app/dhcpserver.c:862-876 | a sweep takes one from every client's remaining time |
| `LeaseSpec.RenewedRemaining` | attic/experiments/esp8266/src/lwip/app/dhcpserver.c:622-643 | a request restarts its own client's lease and no other |
| `LeaseSpec.RenewedAtPlace` | attic/experiments/esp8266/src/lwip/app/dhcpserver.c:622-643 | a request changes the first lease of its client, or appends one when there is none |
| `LeaseList.LeaseTable.Insert` | attic/experiments/esp8266/src/lwip/app/dhcpserver.c:39-53 | the cell is appended, all others stay |
| `LeaseList.LeaseTable.LastCell` | attic/experiments/esp8266/src/lwip/app/dhcpserver.c:46-49 | the walk ends on the last cell |
| `LeaseList.LeaseTable.Remove` | attic/experiments/esp8266/src/lwip/app/dhcpserver.c:61-80 | exactly that cell is unlinked; a cell that is not in the list changes nothing |
| `LeaseList.LeaseTable.RemoveLater` | attic/experiments/esp8266/src/lwip/app/dhcpserver.c:72-77 | the walk behind the head, which goes on to the end of the list |
| `LeaseList.LeaseTable.SweepCell` | attic/experiments/esp8266/src/lwip/app/dhcpserver.c:863-875 | a cell that runs out is unlinked after its successor is noted |
| `LeaseList.LeaseTable.CoarseTimer` | attic/experiments/esp8266/src/lwip/app/dhcpserver.c:856-877 | one sweep visits every cell once, although it deletes on the way, and leaves the order-preserving sublist of decremented non-zero timers |
| `LeaseList.LeaseTable.Request` | attic/experiments/esp8266/src/lwip/app/dhcpserver.c:622-643 | the list after a request is the sequence after a request |
| `UdpSender.Connection.UdpSent` | attic/experiments/esp8266/src/lwip/app/espconn_udp.c:68-128 | the datagrams sent are the chunks of the payload in order; the sent callback is scheduled exactly once if and only if no allocation failed, and not at all for an empty payload, a missing pcb or no data |
| `UdpSender.Connection.DataSent` | attic/experiments/esp8266/src/lwip/app/espconn_udp.c:43-57 | the continuation sends what is left or schedules the callback; the recursion ends because what is left shrinks |
| `UdpSender.Connection.SendDatagram` | attic/experiments/esp8266/src/lwip/app/espconn_udp.c:84-118 | one datagram carries exactly the bytes asked for, or the allocation failed and nothing is sent |
| `UdpSender.WholePayload` | attic/experiments/esp8266/src/lwip/app/espconn_udp.c:84-127 | the datagrams are non-empty, at most 1024 bytes, and their concatenation is the payload |
| `UdpSender.DatagramsCarry` | attic/experiments/esp8266/src/lwip/app/espconn_udp.c:84-127 | the first k datagrams carry the first min(1024 k, length) bytes |
| `UdpSender.DatagramSizes` | attic/experiments/esp8266/src/lwip/app/espconn_udp.c:84-127 | there are ceil(length / 1024) datagrams and only the last can be short |
| `UdpSender.FillChain` | attic/experiments/esp8266/src/lwip/app/espconn_udp.c:93-105 | a chain of buffers of any shape and the right total length ends up holding the bytes in order |
| `UdpSender.FillLink` | attic/experiments/esp8266/src/lwip/app/espconn_udp.c:100-102 | one buffer of the chain takes the next bytes, the others keep theirs |
| `UdpSender.PbufAlloc` | attic/experiments/esp8266/src/lwip/app/espconn_udp.c:90-93 | an allocation fails or yields a chain of any shape of the requested total length |
| `SensorSpec.AlwaysEnds` | attic/ground-sensor/code/src/sentrifarm.c:402-552 | for all settings, wifi states and TCP callbacks, 52 invocations of the handler after power-up at the latest the sensor sleeps, restarts or is left to the console; until then the timer is armed with a positive delay |
| `SensorSpec.BoundIsReached` | attic/ground-sensor/code/src/sentrifarm.c:442-507 | some behaviour still runs after 51 invocations |
| `SensorSpec.RunCounts` | attic/ground-sensor/code/src/sentrifarm.c:402-552 | every firing of the armed timer uses up one of the invocations left, and callbacks use none |
| `SensorSpec.HandleCounts` | attic/ground-sensor/code/src/sentrifarm.c:402-552 | one invocation lowers the bound and arms the timer unless the machine has ended |
| `SensorSpec.EndedStays` | attic/ground-sensor/code/src/sentrifarm.c:536-551 | an ended machine stays ended |
| `SensorSpec.NoSleepUnanswered` | attic/ground-sensor/code/src/sentrifarm.c:482-507 | from power-up on: unless a callback names a handle that a push stored, the sensor never goes to deep sleep |
| `SensorSpec.StaysAwake` | attic/ground-sensor/code/src/sentrifarm.c:482-507 | the same from every state that is not asleep or about to sleep |
| `SensorEndings.HowRunsEnd` | attic/ground-sensor/code/src/sentrifarm.c:402-552 | how every run that has ended did: asleep if and only if the diagnostic button is off and a callback named the stored handle while the push was pending; restarted if and only if the button is off and the station reported a missing access point or all 22 polls found the push unanswered; at the console if and only if the station was busy at all 24 polls or the button was on |
| `SensorEndings.AnsweredPushEnds` | attic/ground-sensor/code/src/sentrifarm.c:283-304 | in every reachable TelemetryPending: after a callback with the stored handle the next two firings end the run, asleep, or at the console with the button |
| `SensorEndings.Delays` | attic/ground-sensor/code/src/sentrifarm.c:413-507 | how long the timer is set for before each state |
| `SensorEndings.AwakeAtMost` | attic/ground-sensor/code/src/sentrifarm.c:402-552 | for all settings and behaviours the timer runs for at most the settling time, 25 waits for the station and 1824 seconds; settings that are not positive give way to the defaults |
| `SensorEndings.FaultsRecorded` | attic/ground-sensor/code/src/sentrifarm.c:343-366 | a failed connection and a missing access point are recorded by the poll that sees them and by nothing else |
| `SensorSpec.WifiKeepsWaiting` | attic/ground-sensor/code/src/sentrifarm.c:442-460 | a station that stays busy is polled up to 23 times without an end |
| `SensorSpec.TelemetryKeepsWaiting` | attic/ground-sensor/code/src/sentrifarm.c:482-492 | a push that stays unanswered is polled up to 21 times without a fault |
| `GroundSensor.Sensor.constructor` | attic/ground-sensor/code/src/sentrifarm.c:565-646 | initialisation takes only positive waits from the environment and runs the handler once |
| `GroundSensor.Sensor.Handler` | attic/ground-sensor/code/src/sentrifarm.c:402-552 | the switch on the fields does what the transition says |
| `GroundSensor.Sensor.Callback` | attic/ground-sensor/code/src/sentrifarm.c:283-304 | the first entry with the handle counts as sent, which AnsweredPushEnds makes the end of the run |
| `GroundSensor.Sensor.CheckTelemetry` | attic/ground-sensor/code/src/sentrifarm.c:333-340 | finished exactly when every entry counts as sent |
| `GroundSensor.Sensor.CheckWifi` | attic/ground-sensor/code/src/sentrifarm.c:343-369 | failure, missing access point and success end the wait, and the first two leave their error flag |
| `GroundSensor.Sensor.DoTelemetry` | attic/ground-sensor/code/src/sentrifarm.c:307-330 | all entries count as sent but the one that is pushed |
| `GroundSensor.Sensor.PollWifi` | attic/ground-sensor/code/src/sentrifarm.c:442-474 | poll, count, give up or go on |
| `GroundSensor.Sensor.PollTelemetry` | attic/ground-sensor/code/src/sentrifarm.c:482-500 | poll, count, give up or finish |

## Left out

- Times, GPIO, SPI and serial transfers, delays, logging and LED output are not modelled.
- ds18b20.c: `LastFamilyDiscrepancy` is written and never read; the parasite-power argument of `write` has no effect on the bus; a bus that stays low during reset is not modelled.
- ds18b20.c: a checksum mismatch is only printed, so the driver reports such a device like any other; on the ideal bus it does not occur.
- api_msg.c: API events and `select`, receive and accept mailboxes, UDP and RAW connections, bind, send, receive, DNS and multicast.
- api_msg.c: releasing the netconn after a delete that was refused with ERR_INPROGRESS, which is done by the caller.
- api_msg.c: `write_offset` keeps its value after a failed write; nothing is claimed about it outside WRITE, and the next write resets it.
- NetconnSpec.DoWrite: requires a non-empty buffer, because the offset of an empty write already equals its length and the source asserts against it.
- mqttsn-messages.cpp: the byte layout and length limits of messages, inbound REGISTER (it uses an index that is not set for unknown names), outgoing REGACK, and `willtopic`, which does not set its length when a topic is given.
- Radio: counters of events are unbounded integers; the echo byte and PrintStats are only written.
- RadioEndpoints.RadioManager.TakePacket: empty packets, and packets of one to three bytes that pass for data, for which the source's lengths are negative.
- RadioEndpoints.RadioManager.TryReceive: the same packets, and a user time-out that leaves the time-out flag of an earlier call.
- Radio: the node handles a hello or a short packet by dispatching the message that is still in its buffer.
- Radio: the node's FIFO pointer at the start of a packet when its receiver stays warm; the packet is assumed to lie at the pointer.
- SX1276: receive path, modem configuration, and the CRC flag test, which can never hold.
- SX1276: PredictTimeOnAir.
- SX1276: a FIFO write that stores a wrong byte. The driver cannot notice it; the frame checksum is what catches it.
- DHCP: addresses. The pass over the list does not look again at nodes before a collision, so addresses are not claimed to be unique; the address a request would hand out is an argument.
- DHCP: a client that is already in the station table is answered from it and does not reach the lease list; neither does one the station table refuses.
- DHCP: list cell and pool record are one object; freeing is not modelled.
- UDP: a packet buffer whose reference count is zero after sending, and overlapping sends on one connection.
- Ground sensor: waits over 2147483 seconds, for which the conversion to milliseconds overflows; sensor readings, the telemetry text and the error bits of the thermometers.
- Ground sensor: the static configuration is that of the module in the source: sensors always powered, deep sleep enabled, no bypass.
