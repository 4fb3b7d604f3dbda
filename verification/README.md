# Verified models of a LoRa gateway's protocol code

A Dafny model of six components of the gateway, with proofs of what they are for. Each module
stays with one component:

- **CmacSpec, Cmac** - streaming AES-CMAC. The context of `cmac.c` is a class whose arrays are
  updated in place; it is proved against a byte-at-a-time absorber, and the absorber against
  sections 2.3 and 2.4 of RFC 4493, for every block function and every way of cutting the
  message into updates. The message integrity code of LoRaWAN frames is built on it.
- **PayloadCrc, PayloadDistance** - the payload CRC of the SX1302. The XOR network is eight turns
  of a bit-serial register, the register is the remainder of polynomial division over GF(2), and
  from there follow linearity, the detection of all bursts up to 16 bits, a 17-bit burst that is
  never detected, the detection of all odd errors and of all double errors, and with them the
  Hamming distance: exactly four for the payloads its size argument allows.
- **MqttPacket, MqttReader, MqttProgress, MqttPublish, MqttSubscribe, MqttConnect** - the MQTT
  3.1.1 codec: the remaining-length field, length predictors, serializers that write into an
  array and parsers that undo them, the resumable packet reader against the blocking one over
  every run of calls, and the exact condition under which it gets a packet, and a whole stream of
  packets, through.
- **TopicFilter, MqttTrace, MqttClient** - topic matching against section 4.7.1 of MQTT 3.1.1,
  and the client as an object whose calls add events to a trace; acknowledgements, deliveries
  and pings are related over every run.
- **Mailbox** - the one-slot queue between reader thread and caller as interleaved atomic steps.
- **MpsseStream, MpsseSlots, MpsseBlocks, MpsseClock, MpsseTrace, MpsseRate, MpsseBus, MpsseSelect,
  Mpsse** - libmpsse as a compiler from payloads to the command stream of an FTDI chip, with a
  decoder written from the chip's side, the clock divisor, and the device context; over every
  run, the GPIO levels in every buffer, the order of the bits on the line, the clock the chip
  runs at, the start and stop conditions on an I2C bus, and when an SPI slave is selected and
  which edges it samples.
- **Base64** and **LinkedList** - the encoders and decoders of `base64.c` in place, and the list
  macros on a heap structure.

`Common` holds the byte and option types. Bytes are integers from 0 to 255, except in the CMAC
modules, where they are 8-bit vectors. Where the code updates a structure or a buffer in place
the model does too, in a class or an array, and each such method is proved equal to a function
on values; the lemmas are about those functions. The answers of sockets, devices, timers and
the scheduler are inputs, and the theorems hold for all of them.

## Where code and documentation disagree

The model follows the code. Each point is a proved statement.

- `MQTTDeserialize_publish`, `MQTTDeserialize_ack` and `MQTTDeserialize_subscribe` return the
  size of the length field when they reject a packet, which reads as success (1) exactly for
  one-byte fields (`MqttPublish.RejectedWithSuccessCode`,
  `MqttPublish.AckRejectedWithSuccessCode`, `MqttSubscribe.RejectedWithSuccessCode`). Which
  buffers these are is stated byte by byte (`MqttPublish.RejectedExact`,
  `MqttPublish.AckRejectedExact`, `MqttSubscribe.RejectedExact`), with inputs beside it.
- `MQTTDeserialize_subscribe` never looks at `maxcount`: it writes past its output arrays exactly
  when as many entries as they hold are laid out in the packet and anything follows them
  (`MqttSubscribe.OverflowExact`,
  `MqttSubscribe.EntriesOverflow`; an input: `MqttSubscribe.OverflowInput`).
- `MQTTDeserialize_publish` accepts a packet that ends inside its packet id, reads the id from what
  lies behind, and reports a negative payload length; `cycle` delivers such a message. Byte by
  byte: `MqttPublish.NegativeExact`; an input: `MqttPublish.NegativeInput`.
- `cycle` reports a PUBLISH that its parser rejects as handled, although no handler has run, when
  the length field is longer than one byte (`MqttTrace.RejectedPublish`,
  `MqttTrace.RejectedPublishInput`). When it is one byte long the rejection reads as success, and
  `cycle` goes on with variables that were never set.
- A QoS value comes back from `MQTTDeserialize_subscribe` as a char, negative from 128 on where
  char is signed (`MqttSubscribe.ReadBackExact`).
- `MQTTPacket_len` is one too large for the remaining lengths 127, 16383, 2097150 and 2097151
  (`MqttPacket.PredictorExact`).
- `MQTTPacket_readnb` never completes a packet without body, such as PINGRESP
  (`MqttProgress.EmptyBodyLost`, `MqttProgress.PingrespArrives`), and stalls inside the length
  field use up its four bytes (`MqttProgress.StalledPuback`). It gets the first packet of a
  stream through exactly when `MqttProgress.FirstPacketDelivered` says, and a whole stream of
  packets exactly when `MqttProgress.StreamDelivered` says; then they are those of the blocking
  reader, in order.
- `MQTTPacket_checkVersion` accepts every name that is a prefix or an extension of the right one
  (`MqttConnect.CheckVersionExact`); `MQTTDeserialize_connect` refuses empty passwords and lone
  empty user names that its own serializer writes (`MqttConnect.ConnectRoundTrip`), and the
  serializer declares twelve bytes too few for a version other than 3 or 4
  (`MqttConnect.ConnectLengthAgrees`).
- The topic matcher does not match the parent level of a final `#` or an empty level with a
  wildcard (`TopicFilter.MatcherExact`).
- `sendPacket` offers the network the whole packet length again after a short write; if the
  network then takes more than was left, the call fails with stray bytes sent
  (`MqttTrace.TakesTooMuch`, `MqttClient.Client.SendPacket`).
- `cycle` does not answer PUBREL (`MqttTrace.NoAction`), and fails after delivery for the QoS
  value 3 (`MqttClient.Client.Cycle`).
- A timed-out `Dequeue` can discard an item (`Mailbox.TimeoutLosesItem`); one is lost exactly
  when it was stored between the last look of such a call and its clear
  (`Mailbox.LosslessExact`). The reader thread never passes on UNSUBACK: the types that a call can
  return are exactly those passed on (`Mailbox.PassedOnExact`).
- `gpio_write` sets the low pins to their start state. On I2C that makes a start condition on an
  idle bus, and the next `Start` then makes none (`MpsseBus.GpioStartsInstead`; right after opening:
  `MpsseBus.GpioAfterOpening`). The bus is idle exactly if no low pin was written, no data was
  transferred and no `Start` was made since the last `Stop`, SetMode or opening
  (`Mpsse.Context.BusConditions`).
- On SPI, too, writing a low GPIO pin selects the slave (`MpsseSelect.SelectedExact`), and a `Start`
  of a slave that is still selected makes a sampling edge of its own in modes 1 and 3
  (`MpsseSelect.StraysExact`, `Mpsse.Context.SlaveSees`; an input:
  `MpsseSelect.RepeatedStartInput`).
- A SetClock of which the device takes only the first command changes the clock of the chip but not
  the one reported (`MpsseRate.RateExact`; an input: `MpsseRate.TornClock`).
- `LoRaMacComputeMic` authenticates only `size & 0xFF` bytes (`Cmac.WholeFrameAuthenticated`).
- The clock divisor wraps around below 92 Hz and above 30 MHz (`MpsseClock.OptimalExact`).
- `Write` of nothing is a failure and `FastWrite` of nothing a success
  (`Mpsse.FastMatchesWrite`).
- `bin_to_b64` leaves the unpadded text behind when only the padding does not fit
  (`Base64.BinToB64`), and `b64_to_bin` takes any last character after padding in the place
  before it (`Base64.PaddedReencode`).

## Model

| member | source | states |
|---|---|---|
| `CmacSpec.StreamingMac` | src/fwd/src/cmac.c:36-117 | For every block function and every list of (possibly empty) updates, finishing the absorbed state gives the AES-CMAC of section 2.4 of RFC 4493 of the concatenation, and the held-back tail is at most one block and empty only for the empty message |
| `CmacSpec.AbsorbedState` | src/fwd/src/cmac.c:36-68 | The running invariant: X is the CBC chain over all blocks but the last, and the tail is exactly the message behind those blocks |
| `CmacSpec.AbsorbedAt` | src/fwd/src/cmac.c:53-67 | The same for any number of blocks k that leaves between 1 and 16 bytes over: no other split of chain and tail is possible |
| `CmacSpec.AbsorbConcat` | src/fwd/src/cmac.c:36-68 | Absorbing two chunks one after the other is absorbing their concatenation, from any state |
| `CmacSpec.AbsorbAllFlattens` | src/fwd/src/cmac.c:36-68 | Any list of chunks absorbs like the flattened message |
| `CmacSpec.MacByTheStandard` | src/fwd/src/cmac.c:36-117 | The one-shot MAC is what the steps of section 2.4 of RFC 4493 give, for any subkeys that satisfy section 2.3 and any chain of block values: the first subkey with a complete last block, the second with a padded one |
| `CmacSpec.DoubleIsSubkey` | src/fwd/src/cmac.c:81-98 | A block is the next subkey of section 2.3 of RFC 4493 (twice the big-endian number modulo 2^128, with 0x87 folded in exactly if the top bit was set) if and only if it is what shift and conditional XOR compute |
| `CmacSpec.ShiftLeftDoubles` | src/fwd/src/cmac.c:7-12 | The byte-wise shift doubles the big-endian number, losing exactly the top bit |
| `Cmac.LeftShiftInPlace` | src/fwd/src/cmac.c:7-12 | The aliased LSHIFT(K, K) leaves the shifted old contents, although it overwrites what it reads |
| `Cmac.DoubleInPlace` | src/fwd/src/cmac.c:81-98 | One subkey step on the key buffer in place |
| `Cmac.PadInPlace` | src/fwd/src/cmac.c:100-103 | The held-back bytes padded with 0x80 and zeros to a whole block |
| `Cmac.AesCmac.Init` | src/fwd/src/cmac.c:23-28 | The context is back at the empty message, whatever it held |
| `Cmac.AesCmac.Update` | src/fwd/src/cmac.c:36-68 | The context moves from its abstract state to that state with the data absorbed, for any data length including zero |
| `Cmac.AesCmac.TopUp` | src/fwd/src/cmac.c:41-52 | A held-back block is enciphered only if more data follows it; the early return is complete |
| `Cmac.AesCmac.MaskLastBlock` | src/fwd/src/cmac.c:72-108 | The last block is XORed with K1 if full and padded and XORed with K2 otherwise |
| `Cmac.AesCmac.Final` | src/fwd/src/cmac.c:70-117 | The digest is the finish of the abstract state; the context keeps the masked last block mixed in |
| `Cmac.ComputeMic` | src/fwd/src/loramac-crypto.c:67-94 | The code is the first four bytes, little endian, of the AES-CMAC of block B0 and the low eight bits of size worth of the frame |
| `Cmac.AuthenticatedFields` | src/fwd/src/loramac-crypto.c:71-87 | Read by their places from the bytes authenticated: 0x49 and four zeros, the direction, the address and the counter, each lowest byte first, a zero, the low byte of the size, and so much of the frame |
| `Cmac.MicOfTwoUpdates` | src/fwd/src/loramac-crypto.c:83-91 | Two updates and a finish give the one-shot MAC of both parts |
| `Cmac.WordBytes` | src/fwd/src/loramac-crypto.c:93 | The word carries exactly the first four digest bytes, little endian |
| `Cmac.WholeFrameAuthenticated` | src/fwd/src/loramac-crypto.c:81-89 | The whole frame is authenticated if and only if its size is at most 255: both uses of the size are cut to one byte |
| `PayloadCrc.LoraCrc16` | src/tools/payload_crc.c:77-96 | The XOR network on ints, for a data byte of either sign, is eight turns of the bit-serial register modulo x^16 + x^12 + x^5 + 1 with the data bits entering at the low end |
| `PayloadCrc.NetworkAt` | src/tools/payload_crc.c:79-94 | Each place of the register after eight turns as an XOR of register and data bits |
| `PayloadCrc.Sx1302LoraPayloadCrc` | src/tools/payload_crc.c:100-110 | The loop returns the register after all bits of the payload |
| `PayloadCrc.CrcIsTheRemainder` | src/tools/payload_crc.c:77-110 | A 16-bit string is a remainder of the message polynomial on division by the generator if and only if it is the register after the message: existence and uniqueness, without augmentation by x^16 |
| `PayloadCrc.CrcLinear` | src/tools/payload_crc.c:77-110 | The CRC of the byte-wise XOR of two equally long messages is the XOR of their CRCs |
| `PayloadCrc.RunLinear` | src/tools/payload_crc.c:77-96 | The register is linear in its start value and its input together |
| `PayloadCrc.RunInjective` | src/tools/payload_crc.c:77-96 | Different registers stay different over any common suffix |
| `PayloadCrc.WindowInjective` | src/tools/payload_crc.c:77-96 | Different windows of at most 16 bits lead to different registers from any start |
| `PayloadCrc.BurstDetected` | src/tools/payload_crc.c:77-110 | Two different messages of equal length that differ only inside 16 consecutive bits have different CRCs |
| `PayloadCrc.GeneratorBurstMissed` | src/tools/payload_crc.c:77-110 | The bound is sharp: a 17-bit burst in the shape of the generator is never detected, in any message at any place |
| `PayloadCrc.OddErrorsDetected` | src/tools/payload_crc.c:77-110 | An odd number of differing bits is always detected |
| `PayloadDistance.NotOne` | src/tools/payload_crc.c:77-96 | The register started at 1 does not come back to 1 within 2048 turns: no power of x up to that is 1 modulo the generator |
| `PayloadDistance.TwoErrorsDetected` | src/tools/payload_crc.c:100-110 | Two wrong bits, wherever they are, are detected in every payload of at most 255 bytes, which is what the size argument allows |
| `PayloadDistance.HammingDistance` | src/tools/payload_crc.c:100-110 | Different payloads of one length up to 255 bytes and of one CRC differ in at least four bits |
| `PayloadDistance.DistanceReached` | src/tools/payload_crc.c:100-110 | The distance is exactly four: every payload of at least three bytes has another one at that distance with the same CRC |
| `MqttPacket.Encode` | src/libmqtt/MQTTPacket.c:29-45 | The loop overwrites exactly the encoded bytes of the buffer and returns their number |
| `MqttPacket.Decode` | src/libmqtt/MQTTPacket.c:54-81 | The loop reads exactly the bytes of the field and reports its value, the four-byte limit or starvation |
| `MqttPacket.DecodeBuf` | src/libmqtt/MQTTPacket.c:101-117 | Decoding from a buffer is decoding from the bytes behind the index |
| `MqttPacket.LengthRoundTrip` | src/libmqtt/MQTTPacket.c:29-81 | For every length below 128^4 and any bytes behind it, decoding returns the length and consumes exactly its encoding |
| `MqttPacket.EncodeIsShortest` | src/libmqtt/MQTTPacket.c:29-45 | No field that decodes to a value is shorter than its encoding |
| `MqttPacket.ReencodeDecoded` | src/libmqtt/MQTTPacket.c:29-81 | Encoding a decoded value reproduces the bytes if and only if the field did not end in a superfluous zero byte |
| `MqttPacket.PredictorExact` | src/libmqtt/MQTTPacket.c:84-98 | The packet length predictor never underestimates if and only if the remaining length is below 128^4, where it is exact but for four lengths that it overestimates by one |
| `MqttPacket.IntRoundTrip` | src/libmqtt/MQTTPacket.c:125-170 | A 16-bit integer is read back if and only if it fits |
| `MqttPacket.StrLenAgrees` | src/libmqtt/MQTTPacket.c:194-251 | The predicted length of a string is the written one if and only if its two representations, where both are set, agree |
| `MqttPacket.WriteMqttString` | src/libmqtt/MQTTPacket.c:194-207 | The buffer grows by the length-prefixed string that wins |
| `MqttPacket.ReadPrefixed` | src/libmqtt/MQTTPacket.c:215-234 | A prefixed string that ends inside the frame is read back as it was |
| `MqttPacket.HeaderFields` | src/libmqtt/MQTTPacket.h:45-61 | The four bit fields of a header byte are recovered, cut to their widths |
| `MqttPacket.HeaderLayout` | src/libmqtt/MQTTPacket.h:45-61 | Where in the header byte type, dup, QoS and retain lie |
| `MqttPacket.StandardBytes` | src/libmqtt/MQTTPacket.c:29-170 | The example of section 2.2.3 of MQTT 3.1.1 for the length field, and the byte order of integers |
| `MqttPacket.SerializeZero` | src/libmqtt/MQTTConnectClient.c:169-192 | A packet without body takes two bytes or reports a short buffer and leaves it alone |
| `MqttReader.Read` | src/libmqtt/MQTTPacket.c:290-316 | The blocking reader, given room for header and length field, leaves the packet with its length field in shortest form at the start of the buffer and consumes exactly the packet, or fails |
| `MqttReader.Transport.DecodeNonBlocking` | src/libmqtt/MQTTPacket.c:324-351 | The resumable length field, with its progress kept in the transport |
| `MqttReader.Transport.ReadNonBlocking` | src/libmqtt/MQTTPacket.c:361-409 | One call of the resumable reader on transport and buffer in place, from whatever state it was left in, given room for what it writes |
| `MqttReader.LengthLoopAgrees` | src/libmqtt/MQTTPacket.c:324-351 | Continuing a partly read field accounts for every byte read: the accumulated value is that of the whole field |
| `MqttReader.CallAgrees` | src/libmqtt/MQTTPacket.c:361-409 | Started midway through a packet, a call is midway again with the bytes it read accounted for, or gives up, or delivers what the blocking reader makes of the same bytes |
| `MqttReader.CallSound` | src/libmqtt/MQTTPacket.c:361-409 | Every call keeps the session invariant: the stream is what is past, what is in progress and what is to come |
| `MqttReader.NonblockingAgrees` | src/libmqtt/MQTTPacket.c:290-409 | After any number of calls over any network behaviour, in any buffer with room for header and length field, a packet type returned and the buffer left behind are what the blocking reader gives on the stream from where that packet began |
| `MqttReader.RoomyFive` | src/libmqtt/MQTTPacket.c:361-386 | Five bytes are room enough for header and length field, wherever in the stream a packet is started |
| `MqttReader.EmptyBodyNeverDelivered` | src/libmqtt/MQTTPacket.c:390-399 | From the empty body on, no number of calls completes the packet, unless the network fails |
| `MqttReader.StallsExhaustLength` | src/libmqtt/MQTTPacket.c:324-351 | A stalled call inside the length field uses up one of its four attempts, and the fifth attempt gives the packet up |
| `MqttProgress.FirstPacketDelivered` | src/libmqtt/MQTTPacket.c:324-409 | For every stream, buffer and network, failing ones among them, some call returns the first packet if and only if it is whole and of a type other than 0, has a body, fits the buffer with its field in shortest form, has at most four field bytes and stalls among them together, and enough is handed out before the network fails |
| `MqttProgress.PacketDelivered` | src/libmqtt/MQTTPacket.c:324-409 | The same for any packet in the middle of a run, with the place in the stream and the replies of the network that are left behind it |
| `MqttProgress.StreamDelivered` | src/libmqtt/MQTTPacket.c:290-409 | For every stream of whole packets, buffer and network, the calls get the whole stream through if and only if every packet meets that condition with the replies left behind those before it; the packets returned are then exactly those of the blocking reader in order, and up to the first packet given up always the first of those |
| `MqttProgress.RunAgrees` | src/libmqtt/MQTTPacket.c:290-409 | The same from the start of any packet on: a run that gives none up returns a prefix of what the blocking reader returns, and all of it when it has read the stream |
| `MqttProgress.CallPending` | src/libmqtt/MQTTPacket.c:361-409 | One call delivers the first packet only while that condition holds for what is left, gives it up only when it does not, and otherwise keeps it as it was and uses up a reply |
| `MqttProgress.EmptyBodyLost` | src/libmqtt/MQTTPacket.c:390-399 | A packet with remaining length 0 is never delivered, over any network, after any number of calls |
| `MqttProgress.PingrespArrives` | src/libmqtt/MQTTPacket.c:361-399 | An input: a PINGRESP, which the blocking reader returns, brings the resumable one to the empty body with its first call |
| `MqttProgress.StalledPuback` | src/libmqtt/MQTTPacket.c:324-351 | An input for every number of stalls: a PUBACK with n stalls before its one-byte length field is delivered if and only if n is at most 3, while the blocking reader returns it |
| `MqttPublish.SerializePublish` | src/libmqtt/MQTTSerializePublish.c:55-91 | Either the predicted size exceeds the buffer and nothing is written, or exactly the packet is, its length is returned and the rest of the buffer is unchanged |
| `MqttPublish.SerializeAck` | src/libmqtt/MQTTSerializePublish.c:104-126 | The same for the four bytes of an acknowledgement |
| `MqttPublish.ReadFrame` | src/libmqtt/MQTTDeserializePublish.c:53-54 | Where the fields of a packet start and end, as its length field says |
| `MqttPublish.DeserializePublish` | src/libmqtt/MQTTDeserializePublish.c:36-68 | The imperative parser is the parsing function, outcome by outcome, negative payload lengths among them |
| `MqttPublish.PublishRoundTrip` | src/libmqtt/MQTTDeserializePublish.c:36-68 | Every PUBLISH packet, with anything behind it, parses back to the same topic, flags, packet id and payload |
| `MqttPublish.PublishBytes` | src/libmqtt/MQTTSerializePublish.c:55-91 | A PUBLISH byte by byte |
| `MqttPublish.RejectedWithSuccessCode` | src/libmqtt/MQTTDeserializePublish.c:53-57 | A malformed PUBLISH is reported with the success code if and only if its length field is one byte long |
| `MqttPublish.AckRejectedWithSuccessCode` | src/libmqtt/MQTTDeserializePublish.c:94-98 | The same for an acknowledgement |
| `MqttPublish.RejectedExact` | src/libmqtt/MQTTDeserializePublish.c:48-57 | Byte by byte, which buffers are rejected, and which of them with the success code: the topic is cut off by the remaining length, which is one byte long; how much of the packet the buffer holds does not matter |
| `MqttPublish.RejectedInputs` | src/libmqtt/MQTTDeserializePublish.c:48-57 | Inputs: a PUBLISH without body, one whose topic is longer than the packet, and one of which only the topic length is there, are rejected with the success code |
| `MqttPublish.NegativeExact` | src/libmqtt/MQTTDeserializePublish.c:59-65 | Byte by byte, which packets are accepted with a negative payload length: the QoS is above 0 and fewer than two bytes are left behind the topic; and what that length is |
| `MqttPublish.NegativeInput` | src/libmqtt/MQTTDeserializePublish.c:59-65 | An input: a PUBLISH of QoS 1 that ends behind its topic is accepted with a payload of length -2 and the id of the bytes behind it |
| `MqttPublish.AckRejectedExact` | src/libmqtt/MQTTDeserializePublish.c:90-98 | Byte by byte, which buffers are rejected as acknowledgements, and which of them with the success code: the remaining length byte is 0 or 1 |
| `MqttPublish.AckRejectedInput` | src/libmqtt/MQTTDeserializePublish.c:90-98 | Inputs: acknowledgements without packet id are rejected with the success code, also one of which nothing else is there |
| `MqttPublish.DeserializeAck` | src/libmqtt/MQTTDeserializePublish.c:81-103 | The imperative parser is the parsing function, error by error |
| `MqttPublish.AckRoundTrip` | src/libmqtt/MQTTSerializePublish.c:104-126 | Every acknowledgement parses back to the same type, dup flag and packet id; the QoS bits are 01 in PUBREL and 00 in the others |
| `MqttSubscribe.LengthAgrees` | src/libmqtt/MQTTSubscribeClient.c:28-36 | The predicted remaining length is the length of the body written |
| `MqttSubscribe.SerializeSubscribe` | src/libmqtt/MQTTSubscribeClient.c:50-86 | Either nothing is written and the buffer is reported short, or exactly the packet |
| `MqttSubscribe.WriteEntries` | src/libmqtt/MQTTSubscribeClient.c:76-80 | The loop appends one entry for every filter, in order |
| `MqttSubscribe.DeserializeSubscribe` | src/libmqtt/MQTTSubscribeServer.c:35-70 | The parser fills the array with the entries of the packet and counts them, or reports why not; the entries stored before it stops, for whatever reason, are those laid out in the packet up to there |
| `MqttSubscribe.FillEntries` | src/libmqtt/MQTTSubscribeServer.c:55-64 | The loop terminates, and however it ends the array holds exactly the entries laid out up to where none follows |
| `MqttSubscribe.RejectedWithSuccessCode` | src/libmqtt/MQTTSubscribeServer.c:50-70 | A malformed SUBSCRIBE is reported with the success code if and only if its length field is one byte long |
| `MqttSubscribe.EntriesRejected` | src/libmqtt/MQTTSubscribeServer.c:55-64 | The list is rejected if and only if fewer entries than there is room for are laid out in it, followed by bytes that hold no entry |
| `MqttSubscribe.RejectedExact` | src/libmqtt/MQTTSubscribeServer.c:45-66 | Byte by byte, which buffers are rejected, and which of them with the success code; how much of the packet the buffer holds does not matter |
| `MqttSubscribe.RejectedInput` | src/libmqtt/MQTTSubscribeServer.c:45-66 | An input: a SUBSCRIBE whose list is a single byte is rejected with the success code |
| `MqttSubscribe.EntriesExact` | src/libmqtt/MQTTSubscribeServer.c:55-64 | However the loop ends, it does so if and only if the list stops in that way behind some entries that are laid out in it, and those are the ones read |
| `MqttSubscribe.EntriesOverflow` | src/libmqtt/MQTTSubscribeServer.c:55-64 | The loop writes past the output arrays if and only if entries that fill them are laid out in the list and anything follows |
| `MqttSubscribe.OverflowExact` | src/libmqtt/MQTTSubscribeServer.c:35-70 | Byte by byte, which buffers make the parser write past output arrays of a given size |
| `MqttSubscribe.OverflowInput` | src/libmqtt/MQTTSubscribeServer.c:55-64 | An input: two filters for arrays of one element |
| `MqttSubscribe.SubscribeRoundTrip` | src/libmqtt/MQTTSubscribeServer.c:35-70 | For every list of filters and QoS values, and anything behind the packet, the parser recovers list, packet id and dup flag, and of a QoS value the char that its low byte is, signed or not |
| `MqttSubscribe.SubscribeBytes` | src/libmqtt/MQTTSubscribeClient.c:50-86 | A SUBSCRIBE byte by byte |
| `MqttSubscribe.ReadBackExact` | src/libmqtt/MQTTSubscribeServer.c:62 | The list comes back unchanged if and only if every QoS value is one of a char, signed or not |
| `MqttSubscribe.RequestsRoundTrip` | src/libmqtt/MQTTSubscribeClient.c:50-86 | The same for what the serializer writes of a list of string structures: the representations written, and the QoS values as chars |
| `MqttConnect.ConnectLengthAgrees` | src/libmqtt/MQTTConnectClient.c:27-48 | The predicted remaining length is that of the body if and only if the version is 3 or 4; otherwise it is twelve too small |
| `MqttConnect.SerializeConnect` | src/libmqtt/MQTTConnectClient.c:58-121 | Either nothing is written and the buffer is reported short, or exactly the packet |
| `MqttConnect.FlagsOf` | src/libmqtt/MQTTConnectClient.c:91-105 | The flags byte built field by field is that of the fields the packet carries |
| `MqttConnect.CheckVersionExact` | src/libmqtt/MQTTConnectServer.c:30-41 | The version check accepts exactly the names that start, or are started by, the right one |
| `MqttConnect.DeserializeConnect` | src/libmqtt/MQTTConnectServer.c:51-108 | The imperative parser is the parsing function, error by error |
| `MqttConnect.StringsRoundTrip` | src/libmqtt/MQTTConnectServer.c:84-104 | The strings of a packet are read back if and only if user name and password are acceptable |
| `MqttConnect.ConnectRoundTrip` | src/libmqtt/MQTTConnectServer.c:51-108 | Every CONNECT packet of version 3 or 4 is accepted if and only if a password comes with a user name, is not empty, and a user name alone is not empty; then every field but the version is recovered |
| `MqttConnect.ConnectBytes` | src/libmqtt/MQTTConnectClient.c:58-121 | A CONNECT with all its strings byte by byte, and the protocol name of version 3 |
| `MqttConnect.OptionsRoundTrip` | src/libmqtt/MQTTConnectClient.c:58-121 | The same for what the serializer writes of given options |
| `TopicFilter.IsTopicMatched` | src/libmqtt/MQTTClient.c:154-179 | The two-cursor loop decides the recursive matching relation and terminates |
| `TopicFilter.MatcherExact` | src/libmqtt/MQTTClient.c:154-179 | For every well-formed filter and every topic name, the matcher accepts if and only if section 4.7.1 of MQTT 3.1.1 matches and every wildcard lies over a level that exists and is not empty |
| `TopicFilter.MatcherSound` | src/libmqtt/MQTTClient.c:154-179 | What the matcher accepts, the standard accepts |
| `TopicFilter.MatcherOnPlainNames` | src/libmqtt/MQTTClient.c:154-179 | For names without empty levels the matcher is the standard without the parent level of a final # |
| `TopicFilter.EqualIsMatched` | src/libmqtt/MQTTClient.c:189-190 | The comparison of whole strings before the matcher adds nothing for well-formed filters |
| `TopicFilter.StricterThanStandard` | src/libmqtt/MQTTClient.c:154-179 | Two concrete cases that the standard matches and the matcher does not |
| `MqttTrace.MatchingExact` | src/libmqtt/MQTTClient.c:181-199 | A handler runs for a message if and only if one of its slots has a filter that the standard matches, up to the two exceptions of the matcher |
| `MqttTrace.MatchingInOrder` | src/libmqtt/MQTTClient.c:181-199 | The handlers called are, one for one and in slot order, those of the slots that serve the topic |
| `MqttTrace.DefaultExact` | src/libmqtt/MQTTClient.c:201-208 | The default handler is called alone, exactly if it is set and no slot serves the topic |
| `MqttTrace.EveryMessageDelivered` | src/libmqtt/MQTTClient.c:181-211 | Over every run, directly behind every PUBLISH received that its parser accepts come the calls of all handlers for its topic, with the message as parsed |
| `MqttTrace.OnlyMessagesDelivered` | src/libmqtt/MQTTClient.c:181-211 | Over every run, every call of a handler is one of those |
| `MqttTrace.NoAction` | src/libmqtt/MQTTClient.c:267-352 | A packet that is neither PUBLISH nor PUBREC, such as PUBREL, is answered by nothing |
| `MqttTrace.RejectedPublish` | src/libmqtt/MQTTClient.c:289-312 | A PUBLISH that its parser rejects adds nothing to the trace but its receipt, and the cycle does not fail |
| `MqttTrace.RejectedPublishInput` | src/libmqtt/MQTTClient.c:289-312 | An input: a PUBLISH without body whose length field has two bytes |
| `MqttTrace.CycleAcks` | src/libmqtt/MQTTClient.c:267-352 | A cycle sends whole exactly the acknowledgement its packet calls for, or none if it fails |
| `MqttTrace.OnlyAnswers` | src/libmqtt/MQTTClient.c:289-331 | Over every run, every packet sent other than a ping answers one received before: read by the parsers, a PUBACK answers a PUBLISH of QoS 1, a PUBREC one of QoS 2 and a PUBREL a PUBREC, with its packet id |
| `MqttTrace.CycleAnswers` | src/libmqtt/MQTTClient.c:289-331 | A cycle that does not fail answers its packet whole if that is to be answered, and any cycle sends nothing if it is not |
| `MqttTrace.CycleFailsExact` | src/libmqtt/MQTTClient.c:267-352 | A cycle fails if and only if the QoS is 3, a PUBREC is rejected, or an answer is called for and the buffer or the network does not take exactly its four bytes |
| `MqttTrace.AnswersInOrder` | src/libmqtt/MQTTClient.c:289-331 | Over every run in which no cycle fails that has a packet to answer, the acknowledgements that get out are the answers to those packets, one each and in order |
| `MqttTrace.AckInputs` | src/libmqtt/MQTTClient.c:289-331 | Inputs: the bytes sent for a PUBLISH of QoS 1 and one of QoS 2, and for a PUBREC |
| `MqttTrace.AcksInOrder` | src/libmqtt/MQTTClient.c:267-352 | Over every run of cycle, keepalive and MQTTSendPing the acknowledgements sent are an in-order subsequence of those called for, and all of them if and only if no cycle failed that owed one |
| `MqttTrace.AckFollowsDelivery` | src/libmqtt/MQTTClient.c:289-312 | Over every run each acknowledgement comes directly behind the packet that called for it and the calls of all handlers for its message |
| `MqttTrace.PingsAlternate` | src/libmqtt/MQTTClient.c:213-265 | Over every run there is a PINGRESP between any two PINGREQ packets that got out |
| `MqttTrace.PingsWhenDue` | src/libmqtt/MQTTClient.c:213-265 | After every run, keepalive sends a ping if and only if it is switched on, the timer has expired, no ping that got out is unanswered, and buffer and network are there; MQTTSendPing likewise, without switch and timer |
| `MqttTrace.WholePacketsOnTheWire` | src/libmqtt/MQTTClient.c:29-60 | If every packet got out whole, the wire holds exactly the packets in order |
| `MqttTrace.SentWholeExact` | src/libmqtt/MQTTClient.c:40-51 | The loop ends with exactly the length of the packet sent if and only if some rounds from the first on, none failing, add up to it |
| `MqttTrace.TakesTooMuch` | src/libmqtt/MQTTClient.c:40-51 | An input: two bytes of four, then the four bytes that are offered again, are two too many |
| `MqttTrace.IdsRepeat` | src/libmqtt/MQTTClient.c:24-27 | Packet ids lie in 1..65535, and two calls give the same one if and only if the number of calls between them is a multiple of 65535 |
| `MqttTrace.IdAfterExact` | src/libmqtt/MQTTClient.c:24-27 | The id after any number of calls in closed form |
| `MqttClient.Client.constructor` | src/libmqtt/MQTTClient.c:62-88 | A new client has no handlers, no ping outstanding and next packet id 1 |
| `MqttClient.Client.GetNextPacketId` | src/libmqtt/MQTTClient.c:24-27 | The next id in the cycle 1..65535, never 0 |
| `MqttClient.Client.SendPacket` | src/libmqtt/MQTTClient.c:29-60 | For any sequence of short writes, success if and only if some rounds from the first on, none failing, add up to exactly the length of the packet, and then the wire has grown by exactly the packet; otherwise by the bytes taken, which are those in memory from the start of the buffer on |
| `MqttClient.Client.DeliverMessage` | src/libmqtt/MQTTClient.c:181-211 | Exactly the matching handlers are called in slot order, and the default handler only if there is none |
| `MqttClient.Client.KeepAlive` | src/libmqtt/MQTTClient.c:213-243 | A ping is sent exactly if the timer has expired and none is outstanding |
| `MqttClient.Client.SendPing` | src/libmqtt/MQTTClient.c:245-265 | A ping is sent unless one is outstanding; success is also reported if the buffer is too short |
| `MqttClient.Client.Cycle` | src/libmqtt/MQTTClient.c:267-352 | One step of the run, for accepted and rejected packets: the trace grows by the packet, the calls and the acknowledgement of the step function, and the packet type is returned unless it fails |
| `Mailbox.RunKeeps` | src/libmqtt/MQTTLinux.c:256-291 | The invariant of all interleavings: a store finds the slot empty, and a clear finds the item its call has seen |
| `Mailbox.Conservation` | src/libmqtt/MQTTLinux.c:256-291 | In every interleaving the items given are, in order, those that left the slot, the one in it and the one still to be stored |
| `Mailbox.NoOverwrite` | src/libmqtt/MQTTLinux.c:256-272 | No step replaces an item in the slot by another one |
| `Mailbox.DequeuedInOrder` | src/libmqtt/MQTTLinux.c:274-291 | The successful calls of Dequeue return a subsequence of the items given, in order and none twice |
| `Mailbox.LosslessWithoutTimeouts` | src/libmqtt/MQTTLinux.c:256-291 | Without timeouts the items given are those returned, with at most one on the consumer side, one in the slot and one on the producer side |
| `Mailbox.LosslessExact` | src/libmqtt/MQTTLinux.c:256-291 | Over all interleavings, every item given is accounted for in order if and only if no step clears a full slot on behalf of a call that has timed out |
| `Mailbox.LossesExact` | src/libmqtt/MQTTLinux.c:274-291 | No item is discarded if and only if no such step is taken |
| `Mailbox.StoredAccounted` | src/libmqtt/MQTTLinux.c:256-291 | The number of items stored is that of the items returned, about to be returned, discarded, and in the slot |
| `Mailbox.LossesBounded` | src/libmqtt/MQTTLinux.c:274-291 | Each timed-out call loses at most one item |
| `Mailbox.TimeoutLosesItem` | src/libmqtt/MQTTLinux.c:279-289 | A schedule in which a timed-out Dequeue clears an item that was stored after it looked |
| `Mailbox.DequeueEnds` | src/libmqtt/MQTTLinux.c:274-291 | In every interleaving a call of Dequeue ends by returning exactly one item, or without one if and only if it has timed out itself: a wait that is signalled looks again |
| `Mailbox.SemaphoreExact` | src/libmqtt/MQTTLinux.c:256-291 | In every interleaving the semaphore counts the calls of both sides that have ended, less the waits that were signalled |
| `Mailbox.OnlyPassedOn` | src/libmqtt/MQTTClient.c:407-417 | A caller that waits for a packet type the reader thread does not pass on, such as UNSUBACK, never gets it |
| `Mailbox.PassedOnExact` | src/libmqtt/MQTTClient.c:407-417 | A packet type is returned in some interleaving of items passed on if and only if it is one the reader thread passes on |
| `MpsseStream.DecodeEncoded` | src/libmpsse/support.c:84-202 | The decoder of the chip recovers every stream of proper operations from its bytes |
| `MpsseStream.CodeRoundTrip` | src/libmpsse/mpsse.c:270-356 | The command byte determines all of its flags |
| `MpsseStream.PortBits` | src/libmpsse/mpsse.h:76-86 | Which bit of the low byte each pin is |
| `MpsseStream.BlocksFit` | src/libmpsse/support.c:84-202 | Every transfer compiles to proper operations whose bytes fit the buffer allocated for them |
| `MpsseStream.WritePayload` | src/libmpsse/support.c:119-195 | The blocks of a write clock out exactly its data in order, and on I2C one ACK bit is read for every byte |
| `MpsseStream.ReadExact` | src/libmpsse/support.c:98-127 | A read of one buffer asks for exactly its size if and only if that is at most one block or a multiple of the block size, and never for less |
| `MpsseStream.WriteRecovered` | src/libmpsse/mpsse.c:730-788 | Decoding everything an uninterrupted Write sends gives back exactly the data, and on I2C one ACK read per byte |
| `MpsseStream.FastIsTheSame` | src/libmpsse/fast.c:15-96 | Outside I2C and bit mode the fast path hands over the same buffers as Write |
| `MpsseStream.BitsRecovered` | src/libmpsse/mpsse.c:685-719 | In bit mode the chip puts exactly the given bits on the line, in order, in every mode of the bus and over any number of transfers |
| `MpsseStream.BitOrder` | src/libmpsse/mpsse.c:270-272 | Eight bits for every byte, lowest first in a command with the LSB option and highest first in one without it |
| `MpsseStream.BytesOnTheLine` | src/libmpsse/mpsse.c:730-788 | Outside bit mode, decoding everything an uninterrupted Write sends, the line carries the bits of the data byte by byte, each in the order of the command |
| `MpsseSlots.I2cWriteSlots` | src/libmpsse/support.c:133-195 | On I2C a Write drives the eight bits of every byte and then releases the line for one bit that is read |
| `MpsseSlots.I2cReadSlots` | src/libmpsse/support.c:133-180 | On I2C a read takes every byte with the line released and answers it with the acknowledgement bit that was set, driven |
| `Mpsse.ReadsOnTheLine` | src/libmpsse/mpsse.c:791-839 | The same over all buffers of a read |
| `MpsseBlocks.BuildBlockBuffer` | src/libmpsse/support.c:84-202 | The in-place loops fill the allocated buffer with exactly the encoding of the blocks and never pass its end |
| `MpsseBlocks.PutBlock` | src/libmpsse/support.c:119-195 | One round of the loop appends one block |
| `MpsseBlocks.FastBuildBlockBuffer` | src/libmpsse/fast.c:15-42 | The static buffer holds header and data, or the header alone if the data does not fit |
| `Mpsse.FastMatchesWrite` | src/libmpsse/fast.c:53-96 | Whatever the device answers, Write and FastWrite hand it the same buffers, and report the same if and only if there is something to write |
| `Mpsse.WriteDelivers` | src/libmpsse/mpsse.c:730-788 | Whatever the device answers, the buffers it takes decode to a prefix of the data, with its bits on the line in the order of the command, and to all of it if and only if Write reports success (or there is none) |
| `Mpsse.ReadRecovered` | src/libmpsse/mpsse.c:791-839 | The chip is asked for exactly as many bytes, or bits in bit mode, as are to be read |
| `Mpsse.WriteBitsRecovered` | src/libmpsse/mpsse.c:685-719 | In every mode, I2C among them, the line carries the low bits of the argument, lowest first with the LSB option and highest first without it |
| `Mpsse.Context.WrittenInOrder` | src/libmpsse/mpsse.c:260-391 | In every run and mode, a Write puts each byte on the line in the bit order given to the last SetMode, which opening calls |
| `Mpsse.DriverBytes` | src/sx1301hal/src/loragw_spi.ftdi.c:56-69 | The bytes for the driver of the radio, which opens SPI mode 0 at 6 MHz: clock, set-up, a GPIO pin driven high, Start, and a Write |
| `MpsseTrace.SpiModes` | src/libmpsse/mpsse.c:294-344 | The pins and command flags of the four SPI modes are those that clock polarity and phase define |
| `MpsseTrace.I2cEdges` | src/libmpsse/mpsse.c:345-358 | On I2C data goes out on the falling edge and is read on the rising one |
| `Mpsse.SetupCommandsExact` | src/libmpsse/mpsse.c:288-358 | The set-up turns adaptive clocking off, and three-phase clocking on exactly for I2C |
| `MpsseSelect.SpiStarts` | src/libmpsse/mpsse.c:627-674 | The pin states of Start select the SPI slave, leave the clock where its next edge is not the sampling one, and make a sampling edge only in modes 1 and 3 from a slave that is selected already |
| `MpsseSelect.SpiStops` | src/libmpsse/mpsse.c:1068-1098 | The pin states of Stop deselect it with the clock idle, and make no sampling edge |
| `MpsseSelect.StraysExact` | src/libmpsse/mpsse.c:627-674 | A run makes no sampling edge besides those of the data if and only if the mode is 0 or 2 or there was no Start of a slave still selected |
| `MpsseSelect.RepeatedStartInput` | src/libmpsse/mpsse.c:627-674 | An input: two calls of Start in mode 1 or 3 make one |
| `MpsseSelect.SelectedExact` | src/libmpsse/support.c:250-277 | As long as the idle level of chip select is left alone, the slave is selected if and only if a Start, or the writing of a low GPIO pin, came since the last Stop or SetMode |
| `Mpsse.Context.SlaveSees` | src/libmpsse/mpsse.c:627-1098 | In any run of an open SPI context whose buffers the device took, clock and chip select are as the calls should leave them, and the sampling edges besides those of the data are exactly the expected ones |
| `MpsseBus.I2cStarts` | src/libmpsse/mpsse.c:627-674 | Behind whatever the bus has seen, the pin states of Start add exactly one start condition if it is a repeated start or the lines are high, and no condition otherwise |
| `MpsseBus.I2cStops` | src/libmpsse/mpsse.c:1068-1098 | Behind whatever the bus has seen, the pin states of Stop add exactly one stop condition and leave the lines high |
| `MpsseBus.TransferQuiet` | src/libmpsse/support.c:133-195 | Every pin setting inside an I2C transfer, write or read, has the clock low, in the buffer as the chip decodes it |
| `MpsseBus.StartKeeps` | src/libmpsse/mpsse.c:627-674 | Start keeps the bus invariant whatever the device answers: if every buffer of the run was taken, the conditions on the bus are the expected ones and the lines are as the calls should have left them |
| `MpsseBus.StopKeeps` | src/libmpsse/mpsse.c:1068-1098 | So does Stop |
| `MpsseBus.TransferKeeps` | src/libmpsse/mpsse.c:730-839 | So does a transfer, which adds no condition |
| `MpsseBus.LevelKeeps` | src/libmpsse/support.c:250-277 | So does writing a low GPIO pin, which is expected to make a start condition if the lines are high |
| `MpsseBus.ModeKeeps` | src/libmpsse/mpsse.c:260-391 | So does SetMode, which is expected to make a stop condition if the data line is held low |
| `MpsseBus.OpeningSettles` | src/libmpsse/mpsse.c:116-200 | The buffers sent on opening leave the lines high with no condition |
| `MpsseBus.GpioStartsInstead` | src/libmpsse/support.c:250-277 | On an idle bus, writing a low GPIO pin makes a start condition and the Start that follows makes none |
| `MpsseBus.GpioAfterOpening` | src/libmpsse/support.c:250-277 | So it is on the bus that opening the context leaves |
| `MpsseBus.IdleExact` | src/libmpsse/mpsse.c:627-1098 | The calls leave both lines high if and only if no Start, no write of a low GPIO pin and no transfer of data came since the last Stop, SetMode or opening |
| `Mpsse.Context.BusConditions` | src/libmpsse/mpsse.c:627-1098 | In any run of an open I2C context whose buffers the device took, exactly the expected conditions were on the bus; one start for every Start and one stop for every Stop if data is transferred between them only, SetMode is called outside, and no low GPIO pin is written; and the lines are high if and only if no Start, low GPIO write or transfer of data came since the last Stop, SetMode or opening |
| `MpsseTrace.LevelsOnTheWire` | src/libmpsse/mpsse.c:260-391 | In every trace a context can have, every buffer handed over decodes, and every SET_BITS_LOW in it drives each GPIO pin, bit 4 + k of the value, to the level asked for before, and after the first SetMode makes it an output |
| `MpsseTrace.LastWriteCounts` | src/libmpsse/support.c:250-277 | Those levels are those of the last accepted write to each pin since the last SetMode |
| `MpsseTrace.LastModeCounts` | src/libmpsse/mpsse.c:260-272 | The bit order is the one given to the last SetMode |
| `Mpsse.HighByteBits` | src/libmpsse/support.c:279-287 | Bit k of the byte sent for the high pins is the k-th of them |
| `Mpsse.TransferCarries` | src/libmpsse/support.c:133-195 | The pin settings inside a transfer carry the GPIO levels asked for and drive the outputs, and a transfer leaves the clock alone |
| `Mpsse.Context.constructor` | src/libmpsse/mpsse.c:116-200 | Opening sends the clock commands and the set-up of the mode, leaves the context open if and only if both got through, and establishes the invariant of all runs |
| `Mpsse.Context.SetClock` | src/libmpsse/mpsse.c:402-447 | The two commands sent, and the clock reported, as far as the device takes them; the clock of the chip stays in step with it |
| `MpsseRate.ClockSet` | src/libmpsse/mpsse.c:402-447 | Worked out by the chip from the two commands: 60 MHz or 12 MHz as base clock and the divisor, and with them the clock that is reported |
| `MpsseRate.RateExact` | src/libmpsse/mpsse.c:402-447 | Over every run the chip runs at the clock reported if and only if its base clock is the one the divisor was set for, and so it does if the device took every buffer |
| `MpsseRate.TornClock` | src/libmpsse/mpsse.c:402-447 | An input: a SetClock of which only the first command is taken leaves the chip at 30 MHz and the report at 6 MHz |
| `Mpsse.Context.ClockReported` | src/libmpsse/mpsse.c:402-447 | The same of every run of a context |
| `Mpsse.Context.SetMode` | src/libmpsse/mpsse.c:260-391 | Commands and pins of each mode; all GPIO levels are low again and the invariant holds |
| `Mpsse.Context.SetCSIdle` | src/libmpsse/mpsse.c:581-602 | Only the chip select pin changes, in the three states as documented, and what the slave sees is kept track of |
| `Mpsse.Context.Start` | src/libmpsse/mpsse.c:627-674 | The pin states of the start condition in order, including the repeated start of I2C and the work-arounds of SPI modes 1 and 3 |
| `Mpsse.Context.Stop` | src/libmpsse/mpsse.c:1068-1098 | The pin states of the stop condition in order; the idle state is restored only if all before got through |
| `Mpsse.Context.GpioWrite` | src/libmpsse/support.c:229-291 | A low pin changes in all three pin states and is sent, while stopped, as bit 4 + pin; while started nothing changes; a high pin is sent as its bit with the others |
| `Mpsse.Context.Write` | src/libmpsse/mpsse.c:730-788 | The loop hands over the buffers of the plan one by one up to the first that fails |
| `Mpsse.Context.FastWrite` | src/libmpsse/fast.c:53-96 | The same for the fast path |
| `Mpsse.Context.InternalRead` | src/libmpsse/mpsse.c:791-839 | The same for a read |
| `Mpsse.Context.WriteBits` | src/libmpsse/mpsse.c:685-719 | The bits are written in bit mode, which is off again afterwards |
| `Mpsse.Context.EnableBitmode` | src/libmpsse/mpsse.c:232-248 | The bit-mode flag of the three commands changes and nothing else does |
| `MpsseClock.OptimalExact` | src/libmpsse/mpsse.c:402-447 | The clock is the slowest over all 65536 divisors that is not below the request if and only if the request is 0 Hz or from 92 Hz to 30 MHz |
| `MpsseClock.NotSlowest` | src/libmpsse/support.c:72-75 | For 1 to 91 Hz the wrapped divisor never gives the slowest clock by chance |
| `MpsseClock.TooFast` | src/libmpsse/support.c:72-75 | Above 30 MHz the divisor wraps to the slowest clock, 457 Hz |
| `MpsseClock.WithinOneStep` | src/libmpsse/support.c:72-81 | The clock is less than freq * (1 + 1 / (div + 1)) |
| `MpsseClock.StableExact` | src/libmpsse/mpsse.c:402-447 | Setting the clock to the value reported keeps base clock and value if and only if the request was from 1 Hz to 30 MHz |
| `Base64.CodeToChar` | src/fwd/src/base64.c:60-75 | Every code has a character that stands for it |
| `Base64.CodeIsUnique` | src/fwd/src/base64.c:77-92 | A character of the alphabet is that of its code only |
| `Base64.Alphabet` | src/fwd/src/base64.c:60-75 | The characters are those of table 1 of RFC 4648 in order |
| `Base64.QuadValue` | src/fwd/src/base64.c:97-130 | Three bytes and their four codes are one number, highest digit first |
| `Base64.TestVectors` | src/fwd/src/base64.c:97-286 | Three of the test vectors of section 10 of RFC 4648 |
| `Base64.DecodeEncoded` | src/fwd/src/base64.c:97-248 | Decoding the unpadded encoding of any bytes gives the bytes |
| `Base64.ReencodeDecoded` | src/fwd/src/base64.c:171-248 | Encoding a decoded text reproduces it if and only if its unused trailing bits are zero |
| `Base64.PaddedRoundTrip` | src/fwd/src/base64.c:250-304 | The padded decoder inverts both encoders, and the padded text has four characters for every three bytes begun |
| `Base64.PaddedReencode` | src/fwd/src/base64.c:288-304 | Encoding again what the padded decoder accepts reproduces the text if and only if it is padded to a multiple of four, padding in the last place but one is followed by padding, and the unused bits are zero |
| `Base64.BinToB64Nopad` | src/fwd/src/base64.c:97-169 | In place: for non-empty input success if and only if there is room for text and terminator; the text, the terminator and nothing else is written |
| `Base64.BinToB64` | src/fwd/src/base64.c:250-286 | In place: for non-empty input success if and only if max_len is at least 4 * ceil(n / 3) + 1; on failure the buffer is as it was or holds the unpadded text |
| `Base64.B64ToBinNopad` | src/fwd/src/base64.c:171-248 | In place: one character left over or too little room is refused without a write, a foreign character ends the program, anything else is decoded into exactly the first bytes |
| `Base64.B64ToBin` | src/fwd/src/base64.c:288-304 | The same after the padding has been taken off |
| `LinkedList.List.InsertHead` | src/fwd/inc/linkedlists.h:536-542 | The chain grows at the front and keeps first, last and size |
| `LinkedList.List.InsertTail` | src/fwd/inc/linkedlists.h:556-565 | The chain grows at the end, given an entry that leads nowhere |
| `LinkedList.List.InsertAfter` | src/fwd/inc/linkedlists.h:520-526 | The chain grows behind the given entry |
| `LinkedList.List.Remove` | src/fwd/inc/linkedlists.h:412-441 | Exactly the given entry leaves the chain and is returned; null or an entry not in the list changes nothing |
| `LinkedList.List.RemoveCurrent` | src/fwd/inc/linkedlists.h:351-362 | The current entry leaves the chain and first and last stay right; nothing is said of the size |
| `LinkedList.List.TraverseSafe` | src/fwd/inc/linkedlists.h:325-362 | Removing entries during the traversal leaves exactly the others in order, with correct first and last |
| `LinkedList.KeptExact` | src/fwd/inc/linkedlists.h:325-362 | What is left is what was not to be dropped, and a second traversal changes nothing |

## Left out

- AES itself: the block function and the key schedule are uninterpreted, so the CMAC results hold for any.
- Sockets, USB, UART, threads and clocks: their answers are inputs of the model, and time is the choice whether a timer has expired.
- The frame encryption of `loramac-crypto.c`, the JIT queue, JSON parsing and the generated protobuf tables.
- `readPacket` and `decodePacket` of the client: their error paths mix failure codes with packet types; their answers are an input of `cycle`.
- `waitfor`, `MQTTConnect`, `MQTTSubscribe`, `MQTTPublish` and `MQTTDisconnect`: sequences of the calls that are modelled; handlers are therefore fixed during a run.
- CONNACK, SUBACK and the unsubscribe packets: their size checks do not match their writers, or they repeat the subscribe proof.
- Liveness of the mailbox: one semaphore serves both sides, so only safety is stated, for one producer and one consumer and a slot that starts empty (`QueueInit` does not clear it).
- `FastTransfer`, `FastRead`, `Transfer`, `ReadBits` and the BITBANG mode of libmpsse, and SetDirection, which only acts in that mode.
- `SetAck`: the acknowledgement byte it sets is a parameter of the read lemmas, and the one SetMode sets in the context.
- The values of the commands and flags from libftdi's header, which is not part of this model's sources; the standard ones are used.
- `LGW_LIST_REMOVE_HEAD`, `LGW_LIST_MOVE_CURRENT` and `LGW_LIST_DELETE_ELM`, which add nothing new.
- MqttReader.Read: assumes room in the buffer for the header and the length field, which the code writes before it compares the packet size with the buffer length.
- MqttReader.Transport.ReadNonBlocking: the same, for what this call writes, and a transport structure as earlier calls left it.
- MqttReader.CallAgrees: the same.
- MqttReader.NonblockingAgrees: the same wherever in the stream a packet may be started; five bytes are always enough (`MqttReader.RoomyFive`).
- MqttProgress.FirstPacketDelivered: the same.
- MqttProgress.StreamDelivered: the same, for streams of packets that are whole; behind a packet that is not, the reader takes up the stream wherever it gave up.
- MqttPublish.SerializePublish: assumes a remaining length below 128^4 and, where a string has two representations, that they are of one length; otherwise the size check does not cover what is written.
- MqttSubscribe.SerializeSubscribe: the same assumptions.
- MqttConnect.SerializeConnect: the same assumptions, and version 3 or 4 as the header file documents.
- MqttPublish.DeserializePublish: where the code reads, or hands out bytes, outside the buffer, the outcome is an overrun; on a rejected packet the fields already stored are not modelled; the negative payload length is not followed into the `size_t` of the message.
- MqttPublish.DeserializeAck: the same, for type and dup flag.
- MqttConnect.DeserializeConnect: the same.
- MqttSubscribe.DeserializeSubscribe: the two output arrays are one array of pairs, and what is written past its end is an outcome and not followed further.
- MqttClient.Client.Cycle: starts from a read buffer whose PUBLISH or PUBREC parses without an overrun and is not rejected with the success code, since `cycle` would go on with unset variables; failed reads, restarts of the ping timer and the ping time are not modelled.
- Mpsse.Context.InternalRead: assumes a device that answers every request in full; what it answers, and the ACK bits stored by Write, are not modelled.
- Mpsse.Context.FastWrite: for the SPI modes with bit mode off, which is what it is documented for.
- Base64.B64ToBinNopad: null pointers are not modelled; the exit at a foreign character is an outcome, and what has been written by then is bounded only.
- LinkedList.List.RemoveCurrent: says nothing of the size, which the macro does not update.
- LinkedList.List.InsertTail: assumes an entry whose link is null; the macro leaves the link as it is.
