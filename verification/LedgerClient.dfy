/** Command APDUs of the host library, over either transport. */
module LedgerClient {
  import opened Bytes
  import opened Results
  import opened LedgerAnswer
  import opened LedgerDeviceUsb
  import opened LedgerDeviceTcp
  import opened Wire
  import opened Usb
  import App

  const CLA: byte := 0xE0
  const HEADER_SIZE: nat := 5

  /** What the transport holds for the host to read, and everything the host has written. */
  datatype Traffic = Traffic(way: Way, written: seq<seq<byte>>)

  /** `LedgerDevice` and its two implementations. */
  datatype Transport = Usb(usb: LedgerDeviceUSB) | Tcp(tcp: LedgerDeviceTCP) {
    ghost function Footprint(): set<object>
      reads if Usb? then {usb} else {}
    {
      match this
      case Usb(usb) => if usb.hid == null then {} else {usb.hid}
      case Tcp(tcp) => {tcp.socket}
    }

    ghost function Expected(data: seq<byte>, capacity: nat): (r: Received)
      reads if Usb? then {usb} else {}, Footprint()
      ensures |r.content| <= capacity
    {
      match this
      case Usb(usb) => usb.Expected(data, capacity)
      case Tcp(tcp) => tcp.Expected(data, capacity)
    }

    ghost function Now(): Traffic
      reads if Usb? then {usb} else {}, Footprint()
    {
      match this
      case Usb(usb) => if usb.hid == null then Traffic(UsbWay([]), [])
                       else Traffic(UsbWay(usb.hid.inbox), usb.hid.written)
      case Tcp(tcp) => Traffic(TcpWay(tcp.socket.inbound), tcp.socket.sent)
    }

    ghost function TrafficAfter(data: seq<byte>, capacity: nat): Traffic
      reads if Usb? then {usb} else {}, Footprint()
    {
      match this
      case Usb(usb) => if usb.hid == null then Now()
                       else Traffic(UsbWay(usb.Left(data, capacity)), usb.Written(data))
      case Tcp(tcp) => Traffic(TcpWay(tcp.Left(data, capacity)), tcp.Written(data))
    }

    /** Connected, and every write is taken whole. */
    ghost predicate Works()
      reads if Usb? then {usb} else {}, Footprint()
    {
      match this
      case Usb(usb) => usb.hid != null && usb.hid.results == []
      case Tcp(tcp) => tcp.socket.full == []
    }

    /** What a message is written as. */
    function Wired(data: seq<byte>): seq<seq<byte>>
      requires |data| <= MAX_MESSAGE
    {
      if Usb? then Reports(data) else [BE32(|data|), data]
    }

    /** Over a working transport, an exchange writes the whole command and ends by what it reads. */
    lemma WorkingExchange(data: seq<byte>, capacity: nat)
      requires Works() && |data| <= MAX_MESSAGE
      ensures var h := Receive(Now().way, capacity);
              && Expected(data, capacity) == h.received
              && TrafficAfter(data, capacity) == Traffic(h.left, Now().written + Wired(data))
    {
      if Usb? {
        SequenceNumbersNeverWrap(data);
        CompleteWritesSucceed(usb.hid.written, Reports(data));
      }
    }

    method Exchange(out: LedgerAnswer, data: seq<byte>) returns (res: Result)
      requires out.Valid()
      modifies Footprint(), out, out.buf
      ensures out.Valid() && out.size <= old(out.size)
      ensures var e := old(Expected(data, out.size));
              res == e.result && (res == SUCCESS ==> out.Content() == e.content)
      ensures Now() == old(TrafficAfter(data, out.size))
    {
      match this
      case Usb(usb) => res := usb.Exchange(out, data);
      case Tcp(tcp) => res := tcp.Exchange(out, data);
    }
  }

  lemma {:induction false} CompleteWritesSucceed(written: seq<seq<byte>>, due: seq<seq<byte>>)
    requires forall i | 0 <= i < |due| :: |due[i]| <= 65
    ensures Hand(written, due, []) == SendOutcome(true, written + due)
    decreases |due|
  {
    if due == [] {
      assert written + due == written;
    } else {
      CompleteWritesSucceed(written + [due[0]], due[1..]);
      assert written + [due[0]] + due[1..] == written + due;
    }
  }

  /** An answer too short for a status word is refused whatever the transport reported. */
  function Checked(r: Received): (c: Received)
    ensures c.result == SUCCESS ==> |c.content| >= 2 && c == r
  {
    if r.result == SUCCESS && |r.content| < 2 then Received(PROTOCOL_BAD_LENGTH, []) else r
  }

  class APDUStream {
    const transport: Transport
    var buf: seq<byte>

    constructor (transport: Transport, cla: byte, ins: byte, p1: byte, p2: byte)
      ensures this.transport == transport && buf == App.CommandBytes(cla, ins, p1, p2, [])
    {
      this.transport := transport;
      buf := [cla, ins, p1, p2, 0];
    }

    method Append(data: seq<byte>)
      modifies this
      ensures buf == old(buf) + data
    {
      buf := buf + data;
    }

    method Wipe()
      modifies this
      ensures buf == []
    {
      buf := [];
    }

    /** Fixes the length byte and exchanges; a stream is used once. On success the status word can
        be read in bounds and the answer kept its capacity. */
    method Exchange(out: LedgerAnswer) returns (res: Result)
      requires out.Valid() && |buf| >= HEADER_SIZE
      modifies this, transport.Footprint(), out, out.buf
      ensures out.Valid() && out.size <= old(out.size)
      ensures |old(buf)| > HEADER_SIZE + 255 ==> res == LIB_BAD_LENGTH && buf == old(buf)
      ensures |old(buf)| <= HEADER_SIZE + 255 ==>
                var sent := old(buf)[4 := |old(buf)| - HEADER_SIZE];
                var e := Checked(old(transport.Expected(sent, out.size)));
                res == e.result && buf == [] && (res == SUCCESS ==> out.Content() == e.content)
      ensures |old(buf)| > HEADER_SIZE + 255 ==> unchanged(transport.Footprint())
      ensures |old(buf)| <= HEADER_SIZE + 255 ==>
                transport.Now() == old(transport.TrafficAfter(buf[4 := |buf| - HEADER_SIZE], out.size))
      ensures res == SUCCESS ==> 2 <= out.size <= old(out.size)
    {
      hide Transport.Now, Transport.TrafficAfter, Transport.Expected;
      var len := |buf| - HEADER_SIZE;
      if len > 255 {
        return LIB_BAD_LENGTH;
      }
      buf := buf[4 := len];
      res := transport.Exchange(out, buf);
      Wipe();
      if res != SUCCESS {
        return;
      }
      res := if out.size >= 2 then SUCCESS else PROTOCOL_BAD_LENGTH;
    }
  }

  /** Appending the parts of a command and fixing its length gives exactly its bytes. */
  lemma StreamBuildsCommand(cla: byte, ins: byte, p1: byte, p2: byte, data: seq<byte>)
    requires |data| <= 255
    ensures var buf := App.CommandBytes(cla, ins, p1, p2, []) + data;
            buf[4 := |buf| - HEADER_SIZE] == App.CommandBytes(cla, ins, p1, p2, data)
  {
  }
}
