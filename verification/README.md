# rawhid: a Dafny model of the Pd raw-HID bridge

`rawhid` is a Pure Data external that talks to a USB raw-HID device with
64-byte reports. Below its Pd glue sits a small sequential engine, and this
project models that engine:

- the **outbound framer** `write_serials`. It cuts a byte list into 64-byte
  packets and zero-pads the last partial one. It stops with -1 at the first
  send the transport does not accept in full.
- the **bounded accumulator** `write_serial`. It appends one byte to a
  16384-byte buffer while the device is open and the buffer has room.
  Nothing in the object ever sends or drains this buffer, and the model
  keeps it that way.
- the **poll tick** `rawhid_tick`. It makes up to `packetsToRecv` receive
  attempts and sends every received byte to the outlet. A reply of 0 stops
  the loop. A negative reply closes the device and stops the loop. The poll
  clock is then always re-armed.
- the **session lifecycle**. This covers the constructor's initial state,
  `open` with its validation of the two `0x…` identifiers, `close`, and
  destruction.
- **list ingestion** `rawhid_list`. It keeps at most 16384 values, reduces
  each to a byte, and hands them to the framer.

The session is an immutable record (`Device.Session`) and every operation is
a pure function. The poll clock is a boolean `timerArmed`: `clock_delay`
sets it and `clock_unset` clears it. The HID transport is a scripted oracle:

- `send(k)` is the reply to the k-th send call of one `write_serials`;
- `recv(k)` is the reply to the k-th receive call of one tick. `Got(data)` is
  a reply of `|data|` bytes (`Got([])` is the reply 0), and `Failed` is a
  negative reply;
- `reply` is the result of the single open call.

Each operation returns what it sent to the transport or the outlet, so every
property is stated over that trace. Module `Rawhid` puts the operations
together as a message-driven step function. It proves that any run from the
constructor's state keeps the buffer bounds and keeps an open session
polling, and that no byte already accumulated is lost.

Three behaviours of the code are easy to miss:

- `write_serials` returns -1 when a send is refused, whatever was sent before
  it. On a closed device it returns 0.
- After a tick closes the device on a read error, it re-arms the clock
  (rawhid.c:107 then rawhid.c:115). So the clock keeps firing while the device
  is closed. Those later ticks do nothing but re-arm it
  (`Poll.ErrorCloseKeepsPolling`).
- Bytes from `write_serial` are never flushed. No operation drains them.

Identifier parsing follows C on an LP64 platform. `strtol(name, NULL, 16)`
reads the longest run of hex digits after the `0x`, in either case and with
any leading zeros, ignores what follows, and saturates at `LONG_MAX`
(`HexId.StrtolAny`). The `(int)` cast then keeps the low 32 bits. As a result,
`0x100000001` opens vendor 1, while `0x80000000` and `0x100000000` are
refused (`HexId.WrappedIdAccepted`, `HexId.WrappedIdRefused`).

## Model

| member | source | states |
|---|---|---|
| `HexId.ToCInt` | rawhid.c:193-194 | the `(int)` narrowing yields a 32-bit value congruent to its argument modulo 2^32 |
| `HexId.Strtol` | rawhid.c:193-194 | `strtol` base 16 on a `0x` name yields a value no greater than `LONG_MAX` |
| `HexId.HexRun` | rawhid.c:193-194 | the digits `strtol` consumes are the longest prefix of hex digits: all hex digits, and the next character is not one |
| `HexId.StrtolOfToHex` | rawhid.c:193-194 | `strtol` reads the hex spelling of any `v` back as `v`, saturated at `LONG_MAX` |
| `HexId.IdValue` | rawhid.c:193-194 | `(int)strtol(name, NULL, 16)`: a 32-bit value congruent modulo 2^32 to what `strtol` reads |
| `HexId.HexRunStops` | rawhid.c:193-194 | `strtol` consumes a whole run of hex digits and stops at the first character after it that is not one |
| `HexId.StrtolAny` | rawhid.c:193-194 | for any name made of `0x`, hex digits of either case and with any leading zeros, then nothing or a non-hex character, `strtol` yields the digits' value, saturated at `LONG_MAX` |
| `HexId.IdRoundTrip` | rawhid.c:193-196 | every such name whose digits spell a positive `int` (such as the usage message's `0x002a`) is accepted and parses to that value |
| `HexId.CanonicalIdRoundTrip` | rawhid.c:193-196 | the canonical lower-case spelling `0x` + hex digits of any positive `int` is accepted and parses to itself |
| `HexId.ToCIntOfInt` | rawhid.c:193-194 | the `(int)` narrowing leaves every value in `INT_MIN..INT_MAX` unchanged |
| `HexId.WrappedIdAccepted` | rawhid.c:193-196 | every such name whose value fits in a `long` and is 1 modulo 2^32 (such as `0x100000001`) narrows to 1 and is accepted as identifier 1 |
| `HexId.WrappedIdRefused` | rawhid.c:193-196 | every such name whose value fits in a `long` and whose low 32 bits are 0 or have the top bit set (such as `0x80000000` and `0x100000000`) narrows to a value that is not positive, so it is refused |
| `HexId.SaturatedIdRefused` | rawhid.c:193-196 | every such name whose value is beyond `LONG_MAX` saturates, narrows to -1 and is refused |
| `HexId.EmptyDigitsRefused` | rawhid.c:193-196 | a `0x` name with no hex digit after the prefix parses to 0 and is refused |
| `Device.New` | rawhid.c:244-254 | the constructed object is closed, its clock is not armed, its buffer of 16384 zero bytes is empty, and it polls 1 packet per tick |
| `Device.Open` | rawhid.c:191-211 | the transport is called (1, ids, 0xFFAB, 0x0200) exactly when both names start with `0x` and parse to positive ids; only a positive reply then stores the ids, opens the session and arms the clock, and every other path leaves the session unchanged |
| `Device.Close` | rawhid.c:213-223 | on an open session: one transport close, then closed and disarmed with nothing else changed; on a closed session: no call and no change |
| `Device.Free` | rawhid.c:266-274 | destruction leaves the object closed with its clock unset, and closes the transport exactly once if it was open |
| `Device.OpenCloseOpen` | rawhid.c:191-223 | open, close, open with the same names gives back the first opened state, with the same ids and polling resumed |
| `Framer.NumBlocks` | rawhid.c:143-161 | the number of packets for n bytes is the ceiling of n/64 |
| `Framer.Pad` | rawhid.c:152-156 | a partial chunk is copied to the front of a 64-byte packet and the rest is zero |
| `Framer.Frames` | rawhid.c:142-161 | the reference framing: ceil(n/64) packets, each of 64 bytes |
| `Framer.FrameByte` | rawhid.c:142-161 | byte o of packet i is input byte 64·i+o, or 0 beyond the input |
| `Framer.FramesRoundTrip` | rawhid.c:142-161 | concatenating the packets and cutting at n gives back the input, and every byte past n is 0 |
| `Framer.SendFrom` | rawhid.c:142-162 | the send loop from block `i`: while 64 bytes remain, send them verbatim and stop with -1 on a refusal; then send a non-empty remainder padded, giving -1 on a refusal and the input length otherwise (its properties are stated by `Framer.SendFromSpec`) |
| `Framer.FullBlock` | rawhid.c:143-150 | a block lying wholly inside the input is the framing's packet at that index, unpadded |
| `Framer.SendsFramingStep` | rawhid.c:143-150 | putting an accepted full block in front of a run that conforms to the framing from the next block gives a run that conforms from this block |
| `Framer.SendFromSpec` | rawhid.c:143-162 | the send loop from any block sends the framing's packets from that block on, all accepted except possibly the last; it yields -1 exactly when the last was refused, and otherwise the input length after the whole framing |
| `Framer.WriteSerials` | rawhid.c:133-163 | a closed session gives 0 and no send; an open one sends a prefix of the framing, stops at the first refused send with -1, and otherwise returns n after sending all packets |
| `Framer.AcceptingTransport` | rawhid.c:142-162 | with an accepting transport: ceil(n/64) sends of 64 bytes each, reassembling to the input followed by zeros, and a result of n |
| `Framer.WholeBlocksUnpadded` | rawhid.c:143-153 | for a positive multiple of 64 bytes every packet is an unpadded input slice, and the packets concatenate to the input |
| `Framer.EmptyInput` | rawhid.c:142-162 | empty input on an open session makes no send and returns 0 |
| `Framer.FirstRefusal` | rawhid.c:143-160 | if send k is the first refused one: the result is -1, exactly k+1 sends were made, and the earlier packets are the exact leading packets of the input |
| `Framer.SendFromStep` | rawhid.c:143-150 | after any packets already sent, an accepted full block is sent unpadded and the loop goes on from the next block |
| `Framer.SendFromRefused` | rawhid.c:144-146 | a refused full block is the last packet sent and the result is -1 |
| `Framer.SendFromTail` | rawhid.c:152-162 | a remainder shorter than 64 bytes is sent once, padded, when it is not empty |
| `Framer.SendWholeBlocks` | rawhid.c:142-150 | the pointer loop over whole blocks either stops on a refused send with the final result -1, or leaves fewer than 64 bytes, having sent exactly the blocks before them |
| `Framer.WriteSerialsLoop` | rawhid.c:133-163 | the pointer loop, then the padded tail in a zeroed scratch block: 0 and no send when closed, and otherwise the same result and packets as the recursive send loop `SendFrom` from block 0 |
| `Accumulator.WriteSerial` | rawhid.c:118-131 | closed or full: 0 and no change; otherwise the byte is stored at the old index, the index grows by one, the result is 1, and every other cell and field is unchanged; `0 ≤ index ≤ 16384` is preserved |
| `Accumulator.WriteEachWithRoom` | rawhid.c:118-131 | while there is room, successive bytes are all accepted and land in order from the old index, and the cells before and after are kept |
| `Accumulator.FillToCapacity` | rawhid.c:118-131 | an open, empty buffer accepts exactly 16384 bytes and then holds them; the next byte returns 0 and changes nothing |
| `Poll.TickLoop` | rawhid.c:93-113 | the receive loop counts only positive replies, emits their bytes in order, ends on the first non-positive reply or at the packet limit, and closes the session exactly on a negative reply |
| `Poll.Tick` | rawhid.c:86-116 | no call when closed; at most `packetsToRecv` calls; the emitted bytes are exactly the counted packets' bytes in packet-then-byte order; an early end only on the first 0 or negative reply; a negative reply closes the session; the clock always ends armed |
| `Poll.ReceivedFull` | rawhid.c:101-103 | k full packets emit 64·k bytes |
| `Poll.AllPacketsFull` | rawhid.c:93-104 | when every reply is a full packet, a tick makes exactly `packetsToRecv` calls and emits `64 * packetsToRecv` bytes |
| `Poll.FirstNonPositive` | rawhid.c:93-112 | if reply j is the first non-positive one: j+1 calls, the first j packets' bytes, and the session stays open exactly when the reply was 0 |
| `Poll.ErrorCloseKeepsPolling` | rawhid.c:105-115 | after a read-error close the clock is still armed, and later ticks make no call, emit nothing and only re-arm |
| `ListInput.Batch` | rawhid.c:180-187 | the batch holds min(argc, 16384) elements, each the low byte of its atom |
| `ListInput.List` | rawhid.c:174-189 | a closed session sends nothing; at most 256 sends are made, forming a prefix of the batch's framing |
| `ListInput.ListDelivered` | rawhid.c:174-189 | with an accepting transport, unframing what was sent gives the masked first 16384 values, and the result counts them |
| `Rawhid.Step` | rawhid.c:288-294 | the method dispatch: a byte goes to `write_serial`, a list to `rawhid_list` (which leaves the session unchanged), `open`, `close` and `packets` to their handlers, and a clock tick to `rawhid_tick` only while the clock is armed |
| `Rawhid.StepKeeps` | rawhid.c:118-131 | one message keeps the buffer bounds, keeps an open session polling, never moves the write index back and never rewrites an accumulated byte |
| `Rawhid.RunKeeps` | rawhid.c:118-131 | any sequence of messages keeps the same properties |
| `Rawhid.Reachable` | rawhid.c:250-252 | every state reachable from the constructor satisfies the buffer bounds and the polling invariant |

## Left out

- `rawhid_setup` (class registration and method binding) is host glue. `Rawhid.Step` stands in for the dispatch.
- `post`, `pd_error` and the DEBUG macros are left out: they only print text. This includes the truncation message in `rawhid_list`.
- The platform HID transports (`hid_WINDOWS.hpp`, `hid_LINUX.hpp`, `hid_MACOSX.hpp`) are not part of this model. They become the scripted send, receive and open replies.
- `rawhid_float`'s float-to-byte conversion is left out because it is floating point. `Rawhid.Message.Byte` carries the byte already converted.
- `rawhid_poll` and the poll delay `x_deltime` are left out: the delay is a floating-point duration and real clock timing is not modelled. The clock is only an armed flag.
- `rawhid_packets`' float-to-`size_t` cast is left out. `Rawhid.Message.Packets` carries a natural number.
- Heap allocation and freeing in `rawhid_new` and `rawhid_free` are left out, including the `return 1` on allocation failure. `getbytes` is taken to return zeroed memory.
- The contents of the inbound buffer `x_inbuf` are not modelled. A receive reply carries its bytes directly, and its length is not bounded by 64.
- Fields that the engine never reads (`x_deviceId`, `x_packetSizeBytes`, `x_packetsBuf`, `x_buf`, `x_inbuf_len`) are left out.
- `Framer.WriteSerials` returns the input length as an unbounded integer. It does not model the `size_t` to `int` narrowing of the return value, because the only caller passes at most 16384 bytes.
- Atom values are given as the integers that `atom_getint` yields. The float-to-integer conversion inside `atom_getint` is floating point.
- `HexId` assumes a 64-bit `long` (LP64). On a 32-bit `long` the saturation bound would be `INT_MAX` instead.
- Poll.Tick: re-entrant messages during a tick are not modelled. `outlet_float` (rawhid.c:102) runs the downstream patch synchronously, so a patch wired back into the object can deliver `close`, `packets`, `open` or a list in the middle of a tick, and the loop condition at rawhid.c:93 re-reads `x_isOpen` and `x_packets_to_recv` on every pass. The model reads both once, on entry, and treats the outlet as a pure sink.
- Device.Free: on an open device `rawhid_free` frees the clock (rawhid.c:270) before calling `rawhid_close_device` (rawhid.c:271), which then calls `clock_unset` on the freed clock (rawhid.c:218), a use after free. The model only tracks an armed flag, so it ignores this order and ends with the clock unset.
