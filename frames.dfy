/**
 * Byte-level formats of the SLIP-radio command protocol: the commands a host
 * sends to the radio, how the radio classifies a decoded frame, and the two
 * reply frames the radio sends back.
 */
module Frames {

  /** An unsigned 8-bit value (C uint8_t). */
  newtype byte = x: int | 0 <= x < 256

  /** ASCII markers used by the protocol. */
  const BANG: byte := 0x21      // '!'
  const QUERY: byte := 0x3F     // '?'
  const SEND: byte := 0x53      // 'S'
  const REBOOT: byte := 0x52    // 'R'
  const MAC: byte := 0x4D       // 'M'

  /** Number of bytes of a link-layer address in the address reply. */
  const LLADDR_LEN: int := 8

  datatype Option<T> = None | Some(value: T)

  /** What the command handler makes of one decoded frame. */
  datatype Command =
    | SendCmd(id: byte, rest: seq<byte>)   // '!' 'S' id, then attributes and payload
    | RebootCmd                            // '!' 'R'
    | AddressQueryCmd                      // '?' 'M'
    | Unhandled

  /**
   * What the handler indexes without checking, given the first byte
   * `uipHead` of the receive buffer: the first byte of every frame, the
   * second when the first byte of the frame is '!' or that of the buffer is
   * '?', and the identifier byte of a send command.
   */
  predicate Indexable(data: seq<byte>, uipHead: byte)
  {
    && |data| >= 1
    && (data[0] == BANG || uipHead == QUERY ==> |data| >= 2)
    && (data[0] == BANG && data[1] == SEND ==> |data| >= 3)
  }

  /**
   * Classification of a frame. The second marker byte of a query is looked
   * up in the frame, but its first byte is looked up in the receive buffer
   * (`uipHead` is that buffer's first byte), which is the frame only when
   * the two alias.
   */
  function Classify(data: seq<byte>, uipHead: byte): (c: Command)
    requires Indexable(data, uipHead)
    ensures c.SendCmd? <==> data[0] == BANG && data[1] == SEND
    ensures c.SendCmd? ==> [BANG, SEND, c.id] + c.rest == data
    ensures c.RebootCmd? <==> data == [BANG, REBOOT]
    ensures c.AddressQueryCmd? <==> data[0] != BANG && uipHead == QUERY && data[1] == MAC && |data| == 2
  {
    if data[0] == BANG then
      if data[1] == SEND then SendCmd(data[2], data[3..])
      else if data[1] == REBOOT && |data| == 2 then RebootCmd
      else Unhandled
    else if uipHead == QUERY then
      if data[1] == MAC && |data| == 2 then AddressQueryCmd
      else Unhandled
    else Unhandled
  }

  /** The frame a host sends for a command (there is none for Unhandled). */
  function EncodeCommand(c: Command): (data: seq<byte>)
    requires !c.Unhandled?
  {
    match c
    case SendCmd(id, rest) => [BANG, SEND, id] + rest
    case RebootCmd => [BANG, REBOOT]
    case AddressQueryCmd => [QUERY, MAC]
  }

  /**
   * When the receive buffer is the frame itself, every command a host can
   * send is recognised as that command.
   */
  lemma ClassifyEncode(c: Command)
    requires !c.Unhandled?
    ensures Indexable(EncodeCommand(c), EncodeCommand(c)[0])
    ensures Classify(EncodeCommand(c), EncodeCommand(c)[0]) == c
  {
    if c.SendCmd? {
      var data := EncodeCommand(c);
      assert data[3..] == c.rest;
    }
  }

  /**
   * Conversely, every frame recognised as a command (the receive buffer
   * being the frame) is exactly the encoding of that command.
   */
  lemma EncodeClassify(data: seq<byte>)
    requires |data| >= 1 && Indexable(data, data[0])
    requires !Classify(data, data[0]).Unhandled?
    ensures EncodeCommand(Classify(data, data[0])) == data
  {
  }

  /**
   * The query test reads the receive buffer, not the frame: a query frame is
   * refused when the buffer does not start with '?', and a frame that does
   * not start with '?' is answered when the buffer does.
   */
  lemma QueryReadsReceiveBuffer()
    ensures Classify([QUERY, MAC], BANG) == Unhandled
    ensures Classify([MAC, MAC], QUERY) == AddressQueryCmd
  {
  }

  /** `status` and `transmissions` are stored into single bytes (C conversion to uint8_t). */
  function ToByte(x: int): (b: byte)
    ensures 0 <= x < 256 ==> b as int == x
    ensures (x - b as int) % 256 == 0
  {
    (x % 256) as byte
  }

  /** The two frames the radio sends back. */
  datatype Reply =
    | SendStatus(sid: byte, status: byte, transmissions: byte)   // '!' 'R' sid status tx
    | Address(addr: seq<byte>)                                   // '!' 'M' addr[0..8)

  predicate WellFormedReply(r: Reply)
  {
    r.Address? ==> |r.addr| == LLADDR_LEN
  }

  function ReplyFrame(r: Reply): (f: seq<byte>)
    requires WellFormedReply(r)
  {
    match r
    case SendStatus(sid, status, tx) => [BANG, REBOOT, sid, status, tx]
    case Address(addr) => [BANG, MAC] + addr
  }

  /** Host-side reading of a reply frame, the inverse of ReplyFrame. */
  function ParseReply(f: seq<byte>): (r: Option<Reply>)
    ensures r.Some? ==> WellFormedReply(r.value)
  {
    if |f| == 5 && f[0] == BANG && f[1] == REBOOT then Some(SendStatus(f[2], f[3], f[4]))
    else if |f| == 2 + LLADDR_LEN && f[0] == BANG && f[1] == MAC then Some(Address(f[2..]))
    else None
  }

  lemma ParseReplyFrame(r: Reply)
    requires WellFormedReply(r)
    ensures |ReplyFrame(r)| == if r.SendStatus? then 5 else 10
    ensures ParseReply(ReplyFrame(r)) == Some(r)
  {
    if r.Address? {
      assert ReplyFrame(r)[2..] == r.addr;
    }
  }

  lemma ReplyFrameParse(f: seq<byte>)
    requires ParseReply(f).Some?
    ensures ReplyFrame(ParseReply(f).value) == f
  {
  }

  /**
   * A reply echoed back to the radio is never taken for a command: the
   * status reply starts with '!' 'R' but is 5 bytes long, so it is not a
   * reboot request.
   */
  lemma RepliesAreNotCommands(r: Reply, uipHead: byte)
    requires WellFormedReply(r)
    ensures Indexable(ReplyFrame(r), uipHead)
    ensures Classify(ReplyFrame(r), uipHead) == Unhandled
  {
  }
}
