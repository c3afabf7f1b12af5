# Serial-link protocol layer of the robot firmware, in Dafny

This project models the firmware side of the point-to-point serial link between the
microcontroller and the host control panel (`hrssi` in `SystemInterface.cpp` /
`SystemInterface.hpp`). It covers five parts:

- **Packet** (`packet.dfy`, module `Packets`). An append-only byte buffer with a 16-bit
  command, a capacity of 64 or 256, a sealed flag and a read cursor. Typed puts store values
  big-endian and do nothing when the packet is sealed or full. Indexed gets return zero past
  the length. Sequential gets always move the cursor.
- **Hex codec** (`hex.dfy`, module `Hex`). Each payload byte travels as two upper-case ASCII
  hex digits, high nibble first.
- **Packet pools** (`pool.dfy`, module `Pools`). One ring of 4 small slots and one of 2
  large slots. Each ring has a build index and a receive index. An advance skips the other
  index *before* it wraps to 0.
- **Framing** (`transmit.dfy`, module `Transmit`; `receive.dfy`, module `Receiver`).
  `send` writes the command byte, the digits and the end marker 128. `poll` is a fold of a
  pure `Step` over the input bytes. Bytes above 127 start or end frames. Every second digit
  appends one byte to the packet the poll is bound to.
- **Dispatcher and handlers** (`commands.dfy`, module `Commands`). `processCommand` and
  `com_echo`, `com_getbyte`, `com_getword`, `com_getdword`, `com_getstring`,
  `com_getvars` and `com_logstr`. Each handler builds one response packet from a variable
  table and sends it.

`protocol.dfy` (module `Protocol`) holds the constants. `scenarios.dfy` (module `Scenarios`)
fixes concrete runs from start-up.

Global statics become explicit state. `RxState` holds the two pools and the size class whose
receive slot the next poll binds (`i_recvPacketIsLarge`). It also holds the slot the running
poll's packet reference is bound to, the pending hex digit and every frame sent so far. The
variable table is a parameter. Each table entry is a record with a type, a name, and the
byte, word, double word and text that each handler width reads through the entry's pointer.

## Where the code departs from what a reader of the protocol might expect

The model follows the code in each case below. A lemma exhibits each behaviour.

- Only upper-case hex digits decode correctly. `'a'` decodes to 42, so `"0a"` becomes 0x2A
  (`Hex.LowercaseMisdecoded`).
- The pools do not keep the build and receive indices apart. The skip runs before the wrap,
  so a step that wraps can land on the other index (`Pools.AcquireCollisionExample`).
- `poll` binds its packet reference once, when it starts. A frame start copy-assigns the new
  receive slot into that bound slot; it does not rebind the reference. A frame whose bytes
  arrive over several polls is lost when a later poll binds a different slot from the one
  its start marker wrote into. This happens when the marker picks a size class other than
  the one whose receive slot the poll bound when it started, or when that class's receive
  index moved off the bound slot earlier in the same poll. From start-up, the
  polls `129`, then `52 49 128`, then `129` send nothing, and they leave the large pool's
  two indices on slot 0 (`Scenarios.SplitEchoIsLost`). When both polls bind the same slot,
  the split frame is answered whole. A getbyte frame split as `131 '0' '7'` and then
  `'0' '0' '0' '0' 128` gets the reply with id 7 (`Scenarios.SplitGetByteKept`). So does
  `129 131 '0' '7'` and then `'0' '0' '0' '0' 128`: 131 switches back to the small class,
  whose receive slot is still the bound slot (`Scenarios.SwitchBackKept`).
- Every handler acquires its response packet before it reads the request. When that build
  slot is the slot holding the request, the handler reads a freshly reset packet. From
  start-up, three getbyte frames in one poll, the third with correlation id 7, get three
  replies that all carry id 0 (`Scenarios.OverwrittenRequest`).
- `getvars` computes a capped name length but never uses it. Overflow is dropped byte by
  byte, so the final terminating zero can be lost (`Commands.GetVarsLosesTerminator`).
- A poll with no bytes available sends nothing. It can still move an index, because `poll`
  first recycles a sealed receive slot (`Scenarios.EmptyPollMovesReceiveIndex`).
- The hex digit index is a function-static. It is not reset when a frame starts, so a
  pending digit pairs with the first digit of the next frame
  (`Receiver.PhaseCarriesAcrossFrames`).
- `com_ret` is a stub, so a ret frame gets no answer.

## Model

| member | source | states |
|---|---|---|
| Protocol.ConstantsConsistent | SystemInterface.hpp:4-24 | Every inbound code (128-135) and outbound code (128-130) is above 127, so the receiver reads it as a marker. The end byte of `send` equals the one `poll` recognises. 64 <= 256 < 2^16. Both pools have at least two slots. |
| Hex.NibbleToHex | SystemInterface.cpp:14-18 | For a nibble below 16, the result is an upper-case hex digit that `NibbleFromHex` maps back to the nibble. |
| Hex.NibbleFromHex | SystemInterface.cpp:20-23 | An upper-case hex digit decodes to a value below 16. |
| Hex.HexByte | SystemInterface.cpp:25-29 | Both digits are upper-case hex digits below 128. Decoding them as `hi<<4 \| lo` gives back the byte. |
| Hex.DigitsRoundTrip | SystemInterface.cpp:14-29 | The other direction: any pair of upper-case digits decodes to a byte whose digits are that same pair. |
| Hex.LowercaseMisdecoded | SystemInterface.cpp:20-23 | `'a'`..`'f'` decode to 16 or more (`'a'` to 42), and `"0a"` decodes to 0x2A. |
| Packets.Put | SystemInterface.cpp:60-122 | When the packet is writeable and `length + width <= capacity`, the value's big-endian bytes are appended. Otherwise the packet is unchanged. Length <= capacity is preserved. |
| Packets.PutReadsBack | SystemInterface.cpp:60-190 | A value put into a packet with room is returned by the indexed get of its width at the old length. |
| Packets.ShortRoundTrip | SystemInterface.cpp:72-94 | Assembling a word from its two big-endian bytes gives it back, and splitting an assembled word gives back the bytes. |
| Packets.IntRoundTrip | SystemInterface.cpp:96-122 | The same for a double word and its four bytes. |
| Packets.PutByte | SystemInterface.cpp:60-70 | Appends exactly the byte when it fits. Otherwise the packet is unchanged. Only the buffer can change. |
| Packets.PutShort | SystemInterface.cpp:72-94 | Appends exactly 2 bytes when they fit, high byte first, keeping the old bytes. `getShort` at the old length returns the word. Otherwise the packet is unchanged. Only the buffer can change. |
| Packets.PutInt | SystemInterface.cpp:96-122 | Appends exactly 4 bytes when they fit, most significant first, keeping the old bytes. `getInt` at the old length returns the value. Otherwise the packet is unchanged. Only the buffer can change. |
| Packets.PutBytes | SystemInterface.cpp:473-474 | A putByte loop appends the prefix of the bytes that fits and drops the rest. A sealed packet is left alone. |
| Packets.PutBytesAppend | SystemInterface.cpp:576-585 | Two putByte loops in a row have the same effect as one loop over the concatenation. |
| Packets.GetByteAt | SystemInterface.cpp:135-142 | Returns the stored byte inside the length, and 0 at or beyond it. |
| Packets.GetShortAt | SystemInterface.cpp:144-164 | Returns the word whose big-endian bytes sit at the index when two bytes remain, and 0 otherwise. |
| Packets.GetIntAt | SystemInterface.cpp:166-190 | Returns the double word whose big-endian bytes sit at the index when four bytes remain, and 0 otherwise. |
| Packets.DecodeBigEndian | SystemInterface.cpp:144-190 | An indexed get at an offset holding a value's big-endian bytes returns that value. |
| Packets.Read | SystemInterface.cpp:203-220 | A sequential get returns the indexed get at the cursor: the big-endian value of the bytes there when enough remain, else zero. It moves the cursor by 1, 2 or 4 even past the end and changes nothing else. |
| Packets.IsEnd | SystemInterface.cpp:234-237 | At the end, every sequential get yields zero. Otherwise the cursor is inside the data and getByte returns the byte there. |
| Packets.Size | SystemInterface.cpp:244-248 | `size()` is the length plus 1 while writeable, and plus 2 once sealed. |
| Packets.End | SystemInterface.cpp:255-258 | Sealing keeps the data, command, capacity and cursor, and `size()` grows by one. |
| Packets.SealedIgnoresPuts | SystemInterface.cpp:62-64 | Once a packet is sealed, every put leaves it as it is. |
| Packets.PutAllAppends | SystemInterface.cpp:60-122 | A run of puts that fits appends the concatenated big-endian bytes of the values. |
| Packets.ReadFirst | SystemInterface.cpp:203-220 | When a value's bytes sit at the cursor, the next sequential get of its width returns it and moves the cursor past it. |
| Packets.ReadAllDecodes | SystemInterface.cpp:203-220 | Sequential gets over bytes that encode a run of values return those values and leave the cursor just past them. |
| Packets.ReadBack | SystemInterface.cpp:60-220 | Values put into a fresh packet, while they fit, are returned in order by sequential gets of the same widths, after which `isEnd` holds. |
| Packets.ReadAllMovesCursorOnly | SystemInterface.cpp:203-220 | A run of sequential gets changes only the cursor and never moves it backwards. |
| Packets.Rewind | SystemInterface.cpp:229-232 | After any run of sequential gets, `resetGetPtr` makes the same run return the same values again. |
| Packets.SeekReads | SystemInterface.cpp:234-242 | After `setGetPtr(i)`, the next sequential get reads at `i`. `isEnd` holds exactly when `i` is at or past the length. |
| Pools.InitialPools | SystemInterface.cpp:289-297 | At start-up every slot is fresh and of its class's capacity. In each pool the build index (0) and the receive index (1) name distinct valid slots. |
| Pools.Advance | SystemInterface.cpp:409-413 | The result is below the pool size. It equals the other index exactly when the step wrapped and the other index is 0. Without a wrap it moves forward. |
| Pools.Acquire | SystemInterface.cpp:405-431 | `getNextAvailablePacket` moves the build index by one advance past the receive index. It resets that slot to a fresh packet of the class capacity and leaves every other slot, the receive index and the other pool alone. |
| Pools.Receive | SystemInterface.cpp:433-465 | `getReceivePacket` leaves the pools untouched while the receive slot is writeable. Once the slot is sealed, it advances the receive index past the build index and resets that slot, touching nothing else. The slot handed back is always writeable. |
| Pools.Respond | SystemInterface.cpp:486-502 | A handler's writes once its build slot is acquired. The inbound slot holds the request with its moved cursor, and the build slot holds the response. When the two are one slot, it holds the response with the request's cursor. No index moves, and every other slot of both pools is unchanged. |
| Pools.AcquireThenRespond | SystemInterface.cpp:405-431 | Measured from before the acquire, a handler moves only its response class's build index, by one advance. Every receive index stays put, and only the inbound slot and the new build slot can change. |
| Pools.Post | SystemInterface.cpp:594-604 | Acquiring a build slot and filling it moves that class's build index by one advance, and the slot then holds the packet. The receive index, the other pool and every other slot are unchanged. |
| Pools.AcquireCollidesOnlyOnWrap | SystemInterface.cpp:405-431 | The new build index equals the receive index if and only if the step wrapped and the receive index is 0. |
| Pools.ReceiveCollidesOnlyOnWrap | SystemInterface.cpp:433-465 | After an advance, the receive index equals the build index if and only if the step wrapped and the build index is 0. |
| Pools.AcquireCollisionExample | SystemInterface.cpp:419-430 | A small pool with build index 3 and receive index 0 ends with its build index on slot 0, the receive slot. |
| Transmit.HexAll | SystemInterface.cpp:365-370 | The digits of a payload are twice its length. Every digit is an upper-case hex digit below 128. |
| Transmit.HexAllDecodes | SystemInterface.cpp:365-370 | Digit pair i decodes to payload byte i. |
| Transmit.Frame | SystemInterface.cpp:361-373 | A frame is `2*length + 2` bytes long. It starts with the code and ends with 128, and every byte in between is below 128. |
| Transmit.Send | SystemInterface.cpp:361-373 | The send loop writes exactly the frame of the packet's command byte and payload. For a marker command that frame is well formed. |
| Transmit.FramesAreWellFormed | SystemInterface.cpp:361-373 | A frame whose code is a marker has even length, starts with a marker, ends with 128 and has no marker inside. |
| Transmit.EncodedLength | SystemInterface.cpp:244-248 | For a sealed packet, the wire frame is `2*size() - 2` bytes long. |
| Commands.Tag | SystemInterface.hpp:90-97 | Type tags are 0..4, so each fits in the single byte `getvars` writes. |
| Commands.CString | SystemInterface.cpp:554 | The `strlen` view is the prefix of the bytes before the first zero. It contains no zero and is followed by a zero when shorter than the bytes. |
| Commands.Capped | SystemInterface.cpp:554-555 | The capped length keeps at most `256 - 2` bytes of the text. |
| Commands.PutTerminated | SystemInterface.cpp:556-559 | Text followed by a zero, when both fit, is appended exactly. |
| Commands.Echo | SystemInterface.cpp:467-479 | The response is a sealed large packet with command 129 (logstr, not ret) carrying the inbound payload unchanged, and the inbound cursor is not moved. |
| Commands.GetValue | SystemInterface.cpp:486-541 | `getbyte`, `getword` and `getdword` answer with a sealed small packet with command 130. The payload is the correlation id, then the entry read at width 1, 2 or 4 (zero when the index is past the table), so its length is 2, 3 or 5. The inbound cursor moves by 3. |
| Commands.GetString | SystemInterface.cpp:543-567 | The response is a sealed large ret packet. The payload is the correlation id, the entry's text capped at 254 bytes (none past the table), and a terminating 0. The inbound cursor moves by 3. |
| Commands.PutDirectory | SystemInterface.cpp:576-585 | The per-entry loop of `getvars` (tag, name, zero) has the same effect as one putByte loop over the whole directory. |
| Commands.GetVars | SystemInterface.cpp:569-590 | The response is a sealed large ret packet whose payload is the correlation id followed by the directory, cut at 256 bytes. The inbound cursor moves by 1. |
| Commands.DirectoryEndsInZero | SystemInterface.cpp:576-585 | The directory of a non-empty table ends with a zero. |
| Commands.GetVarsCompleteWhenItFits | SystemInterface.cpp:569-590 | When the directory fits, it is sent whole and the payload ends with 0. |
| Commands.GetVarsLosesTerminator | SystemInterface.cpp:580-584 | An entry with a 300-byte name fills the 256-byte payload with name bytes, and the final zero is dropped. |
| Commands.ReadHeader | SystemInterface.cpp:490-491 | A getter's two sequential gets return the byte at the cursor and the big-endian word after it, and leave the cursor three bytes further on. |
| Commands.Handle | SystemInterface.cpp:375-403 | There is a reply if and only if the code is echo or 131..135. 128, ret and unknown codes get none. A reply only moves the inbound cursor forward, and its response is sealed, valid, of its class's capacity and tagged with a marker. The response is small if and only if the code is 131..133. |
| Commands.Dispatch | SystemInterface.cpp:375-403 | Sends exactly what the handler answers for the packet it reads, or nothing, and every frame sent is well formed. That packet is the sealed request, or a reset packet when the response's build slot is the request's own slot. With no reply the pools are untouched. With a reply, only the response class's build index moves, by one advance, and no receive index moves. The request slot keeps the request with its moved cursor and the build slot holds the response. When the two coincide, the slot holds the response with the request's cursor. Every other slot is unchanged. |
| Commands.LogMessage | SystemInterface.cpp:594-604 | The packet `com_logstr` builds is a sealed large logstr packet. It holds the message's text up to its first zero, capped at 254 bytes, followed by a zero. |
| Commands.LogStr | SystemInterface.cpp:592-607 | That packet is sent in a well-formed logstr frame. The large build index takes one advance and its slot holds the packet. The receive index, the small pool and every other large slot are unchanged. |
| Receiver.CopyInto | SystemInterface.cpp:339 | The copy-assignment keeps the command, the sealed flag and the cursor. A packet that fits the slot's class is copied exactly. |
| Receiver.Bind | SystemInterface.cpp:316 | `poll` binds its reference to the current class's receive slot, recycled first when it is sealed. The bound packet is writeable. |
| Receiver.Incoming | SystemInterface.cpp:338-339 | The packet a frame start copies in is writeable and fits the bound slot. When the class's receive slot was sealed, it is a fresh packet. When the bound slot is that class's writeable receive slot, it is the bound packet itself. |
| Receiver.StartFrame | SystemInterface.cpp:336-345 | A marker other than 128 selects the large class if and only if it is 129 or 130. The class's receive slot is copied, with the command set, into the bound slot, and the reference stays bound there. The indices are the ones getReceivePacket leaves, and so is every other slot. So the new receive slot gets the command only when it is the bound slot. The digit phase is untouched. |
| Receiver.EndFrame | SystemInterface.cpp:325-335 | The byte 128 seals the bound packet. It sends exactly what processCommand answers for the sealed packet, or for a reset packet when the response's build slot is the bound slot. The bound slot ends sealed. |
| Receiver.Digit | SystemInterface.cpp:346-357 | A digit is ignored unless the bound packet's command is above 127. Otherwise the first digit of a pair is held, and the second puts the decoded byte into the bound packet. |
| Receiver.Step | SystemInterface.cpp:318-358 | One byte sends at most one frame, only when the byte is 128, keeps earlier frames, and keeps all frames well formed. |
| Receiver.Run | SystemInterface.cpp:318-358 | The loop only appends frames, and all of them are well formed. |
| Receiver.Poll | SystemInterface.cpp:311-359 | `poll` binds the current class's receive slot, and the loop keeps that binding to the end, whatever frames start. It only appends frames, and all of them are well formed. |
| Receiver.Appended | SystemInterface.cpp:355 | Appending bytes to the bound packet changes only that packet, and no index. |
| Receiver.RunAppend | SystemInterface.cpp:318-358 | Feeding two byte sequences in turn equals feeding their concatenation. |
| Receiver.FirstDigit | SystemInterface.cpp:349-351 | The first digit of a pair only becomes the pending digit. |
| Receiver.SecondDigit | SystemInterface.cpp:352-356 | The second digit puts the byte decoded from the pair into the bound packet and clears the pending digit. |
| Receiver.PairAppends | SystemInterface.cpp:349-356 | The two digits of a byte, fed in phase, append that byte. |
| Receiver.AppendLast | SystemInterface.cpp:346-357 | The digits of a payload's last byte, after the rest is reassembled, complete the whole payload. |
| Receiver.PayloadReassembled | SystemInterface.cpp:346-357 | The digits of a payload, fed in phase inside a frame, append exactly that payload and change nothing else. |
| Receiver.FrameBodyRebuildsPacket | SystemInterface.cpp:336-357 | Consider a frame's code and digits, received in phase when the frame start copies in an empty packet with room. They rebuild, in the bound slot, a writeable packet with that command and payload. The indices are the ones the frame start's getReceivePacket left. |
| Receiver.FrameRoundTrip | SystemInterface.cpp:311-373 | A whole frame as `send` writes it, received in phase when the frame start copies in an empty packet with room, is answered exactly as processCommand answers. The answer is for the sealed packet the frame describes, or for a reset packet when the reply's build slot is the bound slot. |
| Receiver.StrayDigitsIgnored | SystemInterface.cpp:347 | Digits arriving while the bound packet's command is not a marker are dropped without trace. |
| Receiver.PhaseCarriesAcrossFrames | SystemInterface.cpp:313-314 | A pending digit is paired with the first digit after a new frame start. |
| Receiver.PollWithoutInputSendsNothing | SystemInterface.cpp:311-318 | A poll with no bytes sends no frame and keeps the digit phase. |
| Scenarios.GetByteRequestFrame | SystemInterface.cpp:361-373 | The getbyte request for id 0 and index 1 is the bytes `131 '0' '0' '0' '0' '0' '1' 128`. |
| Scenarios.GetByteAnswer | SystemInterface.cpp:486-503 | With entry 1 a byte of 42, that request is answered by the single frame `130 '0' '0' '2' 'A' 128`. |
| Scenarios.GetByteExample | SystemInterface.cpp:311-503 | From start-up, polling those request bytes sends exactly that one frame. |
| Scenarios.SplitEchoIsLost | SystemInterface.cpp:311-345 | From start-up, an echo frame whose bytes arrive over three polls (`129`, then `52 49 128`, then `129`) sends nothing. It leaves the large pool's build and receive indices both on slot 0. |
| Scenarios.IdSevenReply | SystemInterface.cpp:486-503 | getbyte reading id 7 and index 0 answers with id 7 and entry 0 of the table. |
| Scenarios.SplitGetByteKept | SystemInterface.cpp:311-359 | From start-up, a getbyte frame split over two polls (`131 '0' '7'`, then `'0' '0' '0' '0' 128`) gets the reply with id 7. The second poll binds the same, still writeable, small slot 1. |
| Scenarios.SwitchBackMarkers | SystemInterface.cpp:336-345 | From start-up, the markers 129 then 131 in one poll leave the bound small slot 1 holding an empty writeable getbyte packet. The small pool's indices stay at 0 and 1. |
| Scenarios.SwitchBackFirstPoll | SystemInterface.cpp:311-359 | From start-up, the poll `129 131 '0' '7'` ends with byte 7 appended to that packet in slot 1. |
| Scenarios.SwitchBackKept | SystemInterface.cpp:311-359 | From start-up, the polls `129 131 '0' '7'` and then `'0' '0' '0' '0' 128` get the reply with id 7. The marker 131 switches back to the small class, whose receive slot is the bound slot 1. |
| Scenarios.ZeroIdReply | SystemInterface.cpp:486-503 | getbyte reading an empty packet answers with id 0 and entry 0 of the table. |
| Scenarios.EmptyGetByte | SystemInterface.cpp:311-503 | An empty getbyte frame, assembled in the bound small slot 1, is answered with id 0. The small build index takes one advance, and only the bound slot and the new build slot change. |
| Scenarios.OverwrittenRequest | SystemInterface.cpp:311-503 | From start-up, three getbyte frames in one poll, the third with id 7, get three replies with id 0. The third handler's build slot is the bound slot, so it reads a reset packet. |
| Scenarios.EmptyPollMovesReceiveIndex | SystemInterface.cpp:311-316 | After a complete getbyte frame, a poll with no bytes sends nothing but moves the small receive index from 1 to 3. |

## Left out

- `driver.cpp` and `driver.h`. They hold the PID motor loop in floating point, encoder
  interrupts and pin I/O, which are not part of the link.
- The serial transport. Input is a byte sequence, and output is the list of frames sent.
  `setVariablesArray` becomes the table parameter.
- The debug `Serial.print` calls inside `poll` (SystemInterface.cpp:329-332, 341-344). They
  inject text onto the same wire between frames, which the model does not show.
- `putFloat`, `getFloat` and the sequential float get. Their float semantics are left out.
  They move the same bit pattern as `putInt` and `getInt`, with the same guards, so those
  model them.
- The endianness-detection union. The model states the resulting canonical big-endian order
  directly.
- Memory layout. Large packets write past `m_data[64]` into the subclass's `m_extraData`.
  The model gives each packet one buffer of its capacity. A small packet copied into a large
  slot keeps capacity 64, as the firmware's copy does.
- Receiver.CopyInto: does not model copying a large packet into a small slot
  (SystemInterface.cpp:339, when the poll is bound to a small slot and an echo or ret frame
  starts). The firmware slices the object: it keeps capacity 256 over a 64-byte buffer, and
  later puts write past it. The model cuts the packet to 64 bytes and capacity 64.
- Receiver.Poll: its own contract states the binding and that frames are only appended.
  What a poll sends is stated by `Receiver.FrameRoundTrip`,
  `Receiver.PollWithoutInputSendsNothing` and the scenarios. Those cover frames received in
  phase when the frame start copies in an empty packet.
- Raw pointers and `strlen`. Each table entry is a record of the values each width reads,
  and names and texts are read up to their first zero byte.
- `com_ret` (a TODO at SystemInterface.cpp:481-484) and the declared but undefined overload
  `com_ret(size_t, const uint8_t*)` (SystemInterface.hpp:136). There is nothing to model.
- The unused `m_occupied` field.
- The width of `size_t`. The cursor and indices are unbounded naturals, so the
  `index + 3` overflow of an indexed get near `SIZE_MAX` is not modelled.
