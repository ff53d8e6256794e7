/**
 * The SLIP-radio command handler: the global packet-identifier ring, the
 * packet buffer a send command fills, the shared receive/transmit buffer a
 * query reply is built in, and the log of what the handler hands to the
 * collaborators it calls (the serial transport, the network stack, the
 * watchdog). Also the driver check done when the demo is configured.
 */
module SlipRadio {
  import opened Frames
  import opened PacketIds

  /** A call the handler makes to a collaborator, in the order made. */
  datatype Event =
    | CmdSend(frame: seq<byte>)                  // cmd_send: one whole frame for the host
    | FrameParse                                 // ps_ns->frame->parse()
    | DllsecSend(slot: int, payload: seq<byte>)  // ps_ns->dllsec->send with token &packet_ids[slot]
    | WatchdogReset                              // bsp_watchdog(EN_BSP_WD_RESET)

  /**
   * The contract the handler relies on from packetutils_deserialize_atts:
   * a negative result is a failure, otherwise it is the number of bytes of
   * attributes read, never more than it was given.
   */
  ghost predicate DecoderBounded(deserializeAtts: seq<byte> -> int)
  {
    forall s :: deserializeAtts(s) <= |s|
  }

  /**
   * The payload a send command leaves in a packet buffer of `capacity`
   * bytes when its attributes took `consumed` bytes: the bytes after the
   * attributes, cut silently at the capacity.
   */
  function StagedPayload(data: seq<byte>, consumed: int, capacity: nat): (p: seq<byte>)
    requires 0 <= consumed && 3 + consumed <= |data|
    ensures |p| <= capacity
    ensures p <= data[3 + consumed..]
    ensures |p| == capacity || 3 + consumed + |p| == |data|
  {
    var start := 3 + consumed;
    var len := |data| - start;
    data[start..start + if len > capacity then capacity else len]
  }

  /**
   * For a send command made of an identifier, `attrs` and `payload`, where
   * the decoder reads exactly `attrs`, the staged payload is `payload`, or
   * its first `capacity` bytes when it does not fit.
   */
  lemma StagedPayloadOfSend(id: byte, attrs: seq<byte>, payload: seq<byte>, capacity: nat)
    ensures 3 + |attrs| <= |EncodeCommand(SendCmd(id, attrs + payload))|
    ensures StagedPayload(EncodeCommand(SendCmd(id, attrs + payload)), |attrs|, capacity) ==
              if |payload| <= capacity then payload else payload[..capacity]
  {
    var data := EncodeCommand(SendCmd(id, attrs + payload));
    assert data[3 + |attrs|..] == payload;
  }

  class Radio {
    /** packet_ids: identifier bytes of sends awaiting completion. */
    const packetIds: array<byte>
    /** packet_pos: the slot the next send command writes. */
    var packetPos: int
    /** The packet buffer's data area, PACKETBUF_SIZE bytes. */
    const packetbuf: array<byte>
    /** packetbuf_datalen(). */
    var dataLen: int
    /** uip_buf, the buffer frames are received into. */
    const uipBuf: array<byte>
    /** uip_len. */
    var uipLen: int
    /** uip_lladdr.addr, the node's link-layer address. */
    const lladdr: seq<byte>
    /** Every call made to a collaborator so far. */
    var events: seq<Event>

    ghost predicate Valid()
      reads this
    {
      && packetIds.Length == RING_SIZE
      && 0 <= packetPos < RING_SIZE
      && 0 <= dataLen <= packetbuf.Length
      && uipBuf.Length >= 2 + LLADDR_LEN
      && |lladdr| == LLADDR_LEN
      && packetIds != packetbuf && packetIds != uipBuf && packetbuf != uipBuf
    }

    /** The ring as a value, for the functions of PacketIds. */
    ghost function IdRing(): (r: Ring)
      reads this, packetIds
      requires Valid()
      ensures ValidRing(r)
    {
      Ring(packetIds[..], packetPos)
    }

    /** The state at start-up: globals are zero, nothing has been sent. */
    constructor (packetbufSize: nat, uipBufSize: nat, addr: seq<byte>)
      requires uipBufSize >= 2 + LLADDR_LEN && |addr| == LLADDR_LEN
      ensures Valid()
      ensures fresh(packetIds) && fresh(packetbuf) && fresh(uipBuf)
      ensures packetbuf.Length == packetbufSize && uipBuf.Length == uipBufSize && lladdr == addr
      ensures packetIds[..] == seq(RING_SIZE, _ => 0) && packetPos == 0
      ensures dataLen == 0 && uipLen == 0 && events == []
    {
      packetIds := new byte[RING_SIZE](_ => 0);
      packetPos := 0;
      packetbuf := new byte[packetbufSize](_ => 0);
      dataLen := 0;
      uipBuf := new byte[uipBufSize](_ => 0);
      uipLen := 0;
      lladdr := addr;
      events := [];
    }

    /**
     * packet_sent: the completion callback for the send whose token is
     * slot `slot`. Sends the host the status frame carrying the byte the
     * slot holds NOW (a later send may have overwritten it), the status and
     * the transmission count, each cut to one byte.
     */
    method PacketSent(slot: int, status: int, transmissions: int)
      requires Valid()
      requires 0 <= slot < RING_SIZE
      modifies this`events
      ensures Valid()
      ensures events == old(events) +
                [CmdSend(ReplyFrame(SendStatus(packetIds[slot], ToByte(status), ToByte(transmissions))))]
    {
      var buf := new byte[20];
      var sid := packetIds[slot];
      var pos := 0;
      buf[pos] := BANG;
      pos := pos + 1;
      buf[pos] := REBOOT;
      pos := pos + 1;
      buf[pos] := sid;
      pos := pos + 1;
      buf[pos] := ToByte(status);
      pos := pos + 1;
      buf[pos] := ToByte(transmissions);
      pos := pos + 1;
      assert buf[..pos] == ReplyFrame(SendStatus(sid, ToByte(status), ToByte(transmissions)));
      events := events + [CmdSend(buf[..pos])];
    }

    /**
     * slip_radio_cmd_handler. `deserializeAtts` is the attribute decoder,
     * `stackPresent` whether emb6_get() returned a stack. Returns 1 when the
     * frame was a command it handled, 0 otherwise.
     */
    method CmdHandler(data: seq<byte>, stackPresent: bool, deserializeAtts: seq<byte> -> int)
      returns (handled: int)
      requires Valid()
      requires Indexable(data, uipBuf[0])
      requires DecoderBounded(deserializeAtts)
      modifies this, packetIds, packetbuf, uipBuf
      ensures Valid()
      ensures handled == if old(Classify(data, uipBuf[0])).Unhandled? then 0 else 1
      ensures old(Classify(data, uipBuf[0])).SendCmd? ==>
                SendEffect(data, stackPresent, deserializeAtts(data[3..]), old(IdRing()), old(packetbuf[..]), old(events))
      ensures old(Classify(data, uipBuf[0])).RebootCmd? ==> events == old(events) + [WatchdogReset]
      ensures old(Classify(data, uipBuf[0])).AddressQueryCmd? ==>
                && uipBuf[..2 + LLADDR_LEN] == ReplyFrame(Address(lladdr))
                && uipBuf[2 + LLADDR_LEN..] == old(uipBuf[2 + LLADDR_LEN..])
                && uipLen == 2 + LLADDR_LEN
                && events == old(events) + [CmdSend(ReplyFrame(Address(lladdr)))]
      // nothing else changes
      ensures !old(Classify(data, uipBuf[0])).SendCmd? ==>
                && packetIds[..] == old(packetIds[..]) && packetPos == old(packetPos)
                && packetbuf[..] == old(packetbuf[..]) && dataLen == old(dataLen)
      ensures !old(Classify(data, uipBuf[0])).AddressQueryCmd? ==>
                uipBuf[..] == old(uipBuf[..]) && uipLen == old(uipLen)
      ensures old(Classify(data, uipBuf[0])).Unhandled? ==> events == old(events)
    {
      if data[0] == BANG {
        if data[1] == SEND {
          SendCommand(data, stackPresent, deserializeAtts);
          return 1;
        } else if data[1] == REBOOT && |data| == 2 {
          events := events + [WatchdogReset];
          return 1;
        }
      } else if uipBuf[0] == QUERY {
        if data[1] == MAC && |data| == 2 {
          AnswerAddressQuery();
          return 1;
        }
      }
      return 0;
    }

    /**
     * What a send command leaves behind, given the decoder's result
     * `decoded` and the ring, packet buffer and log before it. The slot at
     * the cursor always takes the identifier byte and the buffer is always
     * emptied; on a decode failure nothing more happens; otherwise the
     * payload is staged, handed to the stack if there is one (parse first,
     * then the send with the old cursor as token) and the cursor moves on.
     */
    ghost predicate SendEffect(data: seq<byte>, stackPresent: bool, decoded: int,
                               ring0: Ring, buf0: seq<byte>, events0: seq<Event>)
      reads this, packetIds, packetbuf
      requires Valid() && ValidRing(ring0) && |buf0| == packetbuf.Length
      requires |data| >= 3 && decoded <= |data| - 3
    {
      && IdRing().ids == Record(ring0, data[2]).ids
      && (decoded < 0 ==>
            && packetPos == ring0.pos
            && dataLen == 0
            && packetbuf[..] == buf0
            && events == events0)
      && (decoded >= 0 ==>
            var payload := StagedPayload(data, decoded, packetbuf.Length);
            && IdRing() == Accept(ring0, data[2])
            && dataLen == |payload|
            && packetbuf[..dataLen] == payload
            && packetbuf[dataLen..] == buf0[dataLen..]
            && events == events0 +
                 (if stackPresent then [FrameParse, DllsecSend(ring0.pos, payload)] else []))
    }

    /** The '!' 'S' branch of slip_radio_cmd_handler. */
    method SendCommand(data: seq<byte>, stackPresent: bool, deserializeAtts: seq<byte> -> int)
      requires Valid()
      requires |data| >= 3 && data[0] == BANG && data[1] == SEND
      requires DecoderBounded(deserializeAtts)
      modifies this`packetPos, this`dataLen, this`events, packetIds, packetbuf
      ensures Valid()
      ensures SendEffect(data, stackPresent, deserializeAtts(data[3..]), old(IdRing()), old(packetbuf[..]), old(events))
    {
      packetIds[packetPos] := data[2];
      dataLen := 0;
      var pos := deserializeAtts(data[3..]);
      if pos < 0 {
        return;
      }
      pos := pos + 3;
      var len := |data| - pos;
      if len > packetbuf.Length {
        len := packetbuf.Length;
      }
      forall i | 0 <= i < len {
        packetbuf[i] := data[pos + i];
      }
      dataLen := len;
      assert packetbuf[..dataLen] == StagedPayload(data, pos - 3, packetbuf.Length);
      if stackPresent {
        events := events + [FrameParse];
        events := events + [DllsecSend(packetPos, packetbuf[..dataLen])];
      }
      packetPos := packetPos + 1;
      if packetPos >= packetIds.Length {
        packetPos := 0;
      }
    }

    /** The '?' 'M' branch: the address reply is built in the receive buffer and sent from there. */
    method AnswerAddressQuery()
      requires Valid()
      modifies this`uipLen, this`events, uipBuf
      ensures Valid()
      ensures uipBuf[..2 + LLADDR_LEN] == ReplyFrame(Address(lladdr))
      ensures uipBuf[2 + LLADDR_LEN..] == old(uipBuf[2 + LLADDR_LEN..])
      ensures uipLen == 2 + LLADDR_LEN
      ensures events == old(events) + [CmdSend(ReplyFrame(Address(lladdr)))]
    {
      uipBuf[0] := BANG;
      uipBuf[1] := MAC;
      for i := 0 to LLADDR_LEN
        modifies uipBuf
        invariant uipBuf[0] == BANG && uipBuf[1] == MAC
        invariant forall k :: 0 <= k < i ==> uipBuf[2 + k] == lladdr[k]
        invariant forall k :: 2 + i <= k < uipBuf.Length ==> uipBuf[k] == old(uipBuf[k])
      {
        uipBuf[2 + i] := lladdr[i];
      }
      uipLen := 2 + LLADDR_LEN;
      assert uipBuf[..uipLen] == ReplyFrame(Address(lladdr));
      events := events + [CmdSend(uipBuf[..uipLen])];
    }
  }

  /** The link-layer drivers demo_extifConf knows about. */
  datatype Driver =
    | SlipnetHc      // hc_driver_slipnet
    | NoFramer       // framer_noframer
    | NullDllsec     // dllsec_driver_null
    | NullDllc       // dllc_driver_null
    | OtherDriver(name: string)

  /** The part of the network-stack descriptor s_ns_t that the demo configures. */
  class NetStack {
    var configured: int
    var hc: Driver
    var frame: Driver
    var dllsec: Driver
    var dllc: Driver

    constructor (configured: int, hc: Driver, frame: Driver, dllsec: Driver, dllc: Driver)
      ensures this.configured == configured && this.hc == hc && this.frame == frame
      ensures this.dllsec == dllsec && this.dllc == dllc
    {
      this.configured := configured;
      this.hc := hc;
      this.frame := frame;
      this.dllsec := dllsec;
      this.dllc := dllc;
    }

    /** The stack runs over the SLIP drivers. */
    predicate HasSlipDrivers()
      reads this
    {
      hc == SlipnetHc && frame == NoFramer && dllsec == NullDllsec && dllc == NullDllc
    }
  }

  /**
   * demo_extifConf: installs the SLIP drivers in a stack that is not yet
   * configured; accepts a configured stack only if it already runs them.
   * Returns 0 on success, -1 otherwise.
   */
  method ExtifConf(stack: NetStack?) returns (ret: int)
    modifies stack
    ensures stack == null ==> ret == -1
    ensures stack != null && old(stack.configured) == 0 ==>
              ret == 0 && stack.HasSlipDrivers() && stack.configured == 0
    ensures stack != null && old(stack.configured) != 0 ==>
              && ret == (if old(stack.HasSlipDrivers()) then 0 else -1)
              && unchanged(stack)
  {
    ret := -1;
    if stack != null {
      if stack.configured == 0 {
        stack.hc := SlipnetHc;
        stack.frame := NoFramer;
        stack.dllsec := NullDllsec;
        stack.dllc := NullDllc;
        ret := 0;
      } else {
        if stack.hc == SlipnetHc && stack.frame == NoFramer
           && stack.dllsec == NullDllsec && stack.dllc == NullDllc {
          ret := 0;
        } else {
          ret := -1;
        }
      }
    }
  }
}
