# SLIP-radio command handler, modelled in Dafny

The SLIP-radio demo of emb6 turns an embedded node into a radio for a host on
the other end of a serial (SLIP) line. The host sends decoded frames to
`slip_radio_cmd_handler`:

- `'!' 'S' id attrs payload` asks the node to transmit `payload` with the
  packet attributes `attrs`;
- `'!' 'R'` asks it to reboot;
- `'?' 'M'` asks for its link-layer address.

The node answers a transmission with `'!' 'R' id status tx` once the link
layer reports completion (`packet_sent`), and answers an address query with
`'!' 'M'` followed by the eight address bytes. Each send's identifier byte is
kept in a sixteen-slot ring (`packet_ids`, cursor `packet_pos`). The ring
slot's address is the token the completion callback gets back.
`demo_extifConf` installs the SLIP drivers into the network-stack descriptor,
or checks that they are already there.

Files:

- `frames.dfy` (module `Frames`) holds the byte formats. It defines the
  command classification, the host's encoding of commands and the two reply
  frames with a host-side parser.
- `packet_ids.dfy` (module `PacketIds`) describes the identifier ring as
  values: the slot write, the cursor step, a run of accepted sends, and what
  the ring holds after such a run.
- `slip_radio.dfy` (module `SlipRadio`) is the stateful model. Class `Radio`
  holds the ring, the packet buffer, `uip_buf`/`uip_len` and a log of the
  calls made to collaborators. It has the handler and the completion
  callback. `ExtifConf` works on class `NetStack`.

Collaborators whose code is not part of this model are modelled as follows:

- The attribute decoder `packetutils_deserialize_atts` is a function
  parameter. The handler relies on it never reporting more bytes than it was
  given (`DecoderBounded`).
- The result of `emb6_get()` is a boolean parameter.
- `cmd_send`, `frame->parse`, `dllsec->send` and `bsp_watchdog` are entries
  appended, in call order, to `Radio.events`.

Behaviours of the code that the model keeps as written:

- A send whose attributes fail to decode returns before the cursor moves.
  The slot at the cursor has already been overwritten by then, and the packet
  buffer has been emptied.
- The address query tests `uip_buf[0]`, not `data[0]`, for `'?'`. The model
  keeps the two apart. `Classify` takes the buffer's first byte as
  `uipHead`, and `QueryReadsReceiveBuffer` shows both ways the two can
  disagree. `ClassifyEncode`/`EncodeClassify` state the intended behaviour
  for the case where the frame is the receive buffer.
- The handler leaves `uip_len` at 10 after the address reply. Setting it back
  to 0 happens in the input callback, which is not modelled.
- The reboot branch returns 1 after asking for the watchdog reset, as the
  code does.

## Model

| member | source | states |
|---|---|---|
| `Frames.Classify` | demo/extif/slip_radio.c:98-155 | a frame is a send iff it starts `'!' 'S'` (and is then `'!' 'S' id` followed by the rest); a reboot iff it is exactly `'!' 'R'`; an address query iff its first byte is not `'!'`, the receive buffer starts with `'?'`, its second byte is `'M'` and it has length 2; anything else is unhandled |
| `Frames.ClassifyEncode` | demo/extif/slip_radio.c:98-142 | every command a host can send is recognised as that command when the receive buffer is the frame |
| `Frames.EncodeClassify` | demo/extif/slip_radio.c:98-142 | every frame recognised as a command is exactly that command's encoding |
| `Frames.QueryReadsReceiveBuffer` | demo/extif/slip_radio.c:140-142 | a `'?' 'M'` frame is refused when `uip_buf` does not start with `'?'`, and an `'M' 'M'` frame is answered when it does |
| `Frames.ToByte` | demo/extif/slip_radio.c:87-88 | an `int` stored in a byte keeps values 0..255 and is otherwise reduced modulo 256 |
| `Frames.ParseReply` | demo/extif/slip_radio.c:84-149 | the host-side reading of a reply only ever yields well-formed replies (an address of 8 bytes) |
| `Frames.ParseReplyFrame` | demo/extif/slip_radio.c:84-149 | status replies are 5 bytes, address replies 10, and parsing a reply frame gives back the reply |
| `Frames.ReplyFrameParse` | demo/extif/slip_radio.c:84-149 | every frame the parser accepts is the frame of the reply it returns |
| `Frames.RepliesAreNotCommands` | demo/extif/slip_radio.c:135-150 | a reply frame fed back to the handler is never taken for a command (a 5-byte `'!' 'R'` status frame is not a reboot) |
| `PacketIds.Advance` | demo/extif/slip_radio.c:130-133 | the cursor step keeps the cursor in 0..15 and is `(pos + 1) mod 16` |
| `PacketIds.Accept` | demo/extif/slip_radio.c:103-133 | an accepted send writes its identifier at the old cursor, changes no other slot, and moves the cursor to `(pos + 1) mod 16` |
| `PacketIds.AcceptAll` | demo/extif/slip_radio.c:103-133 | any run of accepted sends keeps the ring at 16 slots and the cursor in 0..15 |
| `PacketIds.SlotIsSum` | demo/extif/slip_radio.c:130-133 | after `j` cursor steps from `p` the cursor is `(p + j) mod 16` |
| `PacketIds.SlotsDistinct` | demo/extif/slip_radio.c:130-133 | sixteen consecutive cursor positions are sixteen different slots |
| `PacketIds.AcceptAllEffect` | demo/extif/slip_radio.c:103-133 | after a run of sends the cursor has moved on by the number of sends; each of the last sixteen identifiers is in the slot the cursor was at when it was sent; slots the run did not reach are unchanged |
| `PacketIds.FullTurn` | demo/extif/slip_radio.c:130-133 | sixteen sends bring the cursor back to where it started and fill each slot with the identifier sent there |
| `PacketIds.SeventeenthSendOverwritesSlotZero` | demo/extif/slip_radio.c:130-133 | from cursor 0, the seventeenth send overwrites slot 0 with its identifier and leaves the cursor at 1 |
| `PacketIds.IdentifierLifetime` | demo/extif/slip_radio.c:103-133 | a send's identifier stays in its slot through up to fifteen further accepted sends, and the sixteenth overwrites it |
| `SlipRadio.StagedPayload` | demo/extif/slip_radio.c:111-117 | the staged payload is a prefix of the bytes after the attributes, at most the buffer capacity long, and shorter than the capacity only when it is all of them (overflow truncated silently) |
| `SlipRadio.StagedPayloadOfSend` | demo/extif/slip_radio.c:106-117 | for a frame `'!' 'S' id attrs payload` whose attributes decode to the length of `attrs`, the staged bytes are `payload`, or its first `capacity` bytes when it is longer |
| `SlipRadio.Radio.constructor` | demo/extif/slip_radio.c:58-59 | at start-up every ring slot is 0, the cursor is 0, nothing is staged and nothing has been sent |
| `SlipRadio.Radio.PacketSent` | demo/extif/slip_radio.c:72-90 | the callback emits exactly one frame, `'!' 'R' sid status tx` with `sid` the byte the token's slot holds at callback time, and changes nothing else |
| `SlipRadio.Radio.CmdHandler` | demo/extif/slip_radio.c:92-156 | returns 1 exactly for recognised commands; a send has the effect of `SendCommand`; a reboot logs one watchdog reset and nothing else; a query has the effect of `AnswerAddressQuery`; an unhandled frame changes nothing; the ring and packet buffer change only on a send, `uip_buf`/`uip_len` only on a query |
| `SlipRadio.Radio.SendCommand` | demo/extif/slip_radio.c:101-134 | the identifier is written at the old cursor before decoding. On a decode failure the cursor stays, the buffer length is 0, no payload is copied and nothing is sent. On success the ring becomes `Accept(old ring, id)` whether or not the stack is present, the staged bytes are `StagedPayload`, the rest of the buffer is untouched, and with a stack present `parse` is logged and then `send` with the old cursor as token |
| `SlipRadio.Radio.AnswerAddressQuery` | demo/extif/slip_radio.c:142-151 | `uip_buf[0..10)` becomes `'!' 'M'` and the 8 address bytes; the rest of `uip_buf` is unchanged; `uip_len` is 10; exactly that frame is sent |
| `SlipRadio.ExtifConf` | demo/extif/slip_radio.c:180-205 | -1 for no stack; for an unconfigured stack the four SLIP drivers are installed and 0 is returned; for a configured stack 0 if it already has the four SLIP drivers and -1 otherwise, the stack unchanged in both cases |

## Left out

- `slip_radio_cmd_output`, `slip_input_callback` and `demo_extifInit` (lines 158-178) are left out. They cover the IRQ registration, the SLIP transport, and the input callback that resets `uip_len` to 0. The handler's caller is assumed to pass the frame and its length.
- `packetutils_deserialize_atts` is left out. Only its result matters here: negative for failure, otherwise the bytes consumed. The attributes it stores into the packet buffer, and the attribute reset done by `packetbuf_clear`, are not modelled.
- Of the packet buffer, only the data area and `packetbuf_datalen` are modelled. `packetbuf_clear` is modelled as setting the length to 0.
- `PACKETBUF_SIZE` and `UIP_BUFSIZE` are the lengths given to `Radio`'s constructor, because `packetbuf.h` and `uip.h` are not part of this model. `uip_buf` must hold at least the 10-byte reply.
- `frame->parse`, `dllsec->send`, `cmd_send` and `bsp_watchdog` are logged as events. What they do is not modelled. The reset is modelled as returning, as the handler's own code assumes.
- `emb6_get()` is a boolean parameter. The rest of the stack descriptor `s_ns_t` is not modelled: only `c_configured` and the four driver fields are. Driver pointers are compared by name (`Driver`).
- The asynchronous timing of `packet_sent` is not modelled: it is a separate method called with the slot index of its token. Concurrency and interleavings are not modelled either.
- The handler's precondition `Indexable` covers the bytes the C reads without checking its length. A caller that passes shorter frames reads outside the frame, and that is not modelled.
- `PRINTF` output, the commented-out `putchar` debug framing (lines 208-236) and the `CMD_HANDLERS` registration (lines 66-70) are left out.
