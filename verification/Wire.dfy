/** The replies on their way to the host, over either transport, and what a call reads of them. */
module Wire {
  import opened Bytes
  import opened Wrappers
  import opened Results
  import opened Usb
  import opened LedgerAnswer
  import opened LedgerDeviceUsb
  import Tcp = LedgerDeviceTcp

  /** A reply as it is sent: the status word at least. */
  type Packet = m: seq<byte> | 2 <= |m| <= MAX_MESSAGE witness [0x90, 0]

  /** What has arrived and was not read; it outlives the call it was meant for. */
  datatype Way = UsbWay(inbox: seq<Report>) | TcpWay(inbound: Tcp.Inbound)

  datatype Hearing = Hearing(received: Received, left: Way)

  /** The receiving half of an exchange, and what it leaves. */
  function Receive(way: Way, capacity: nat): Hearing {
    match way
    case UsbWay(inbox) => Hearing(UsbReceive(inbox, capacity), UsbWay(ReadSpec(inbox, capacity).left))
    case TcpWay(inbound) => Hearing(Tcp.TcpReceive(inbound, capacity), TcpWay(Tcp.TcpLeft(inbound, capacity)))
  }

  /** A reply that arrives is received whole if it fits; a host that hears nothing times out. */
  function Hears(reply: Option<seq<byte>>, capacity: nat): Received {
    match reply
    case None => Received(TRANSPORT_TIMEOUT, [])
    case Some(m) => if |m| <= capacity then Received(SUCCESS, m) else Received(PROTOCOL_BAD_LENGTH, [])
  }

  // ---- Arrival ----

  /** Reports as they arrive: identifier byte stripped, padded to 64 bytes. */
  function Arriving(reports: seq<seq<byte>>): (inbox: seq<Report>)
    requires forall i | 0 <= i < |reports| :: 1 <= |reports[i]| <= 65
    ensures |inbox| == |reports| && Delivers(reports, inbox)
  {
    seq(|reports|, i requires 0 <= i < |reports| => Padded(reports[i]))
  }

  function Padded(report: seq<byte>): (r: Report)
    requires 1 <= |report| <= 65
    ensures Arrives(report, r)
  {
    report[1..] + seq(65 - |report|, i => 0)
  }

  function Incoming(m: seq<byte>): (inbox: seq<Report>)
    requires |m| <= MAX_MESSAGE
    ensures |inbox| == |Reports(m)| && Delivers(Reports(m), inbox)
  {
    SequenceNumbersNeverWrap(m);
    Arriving(Reports(m))
  }

  function Frame(m: Packet): seq<byte> {
    BE32(|m| - 2) + m
  }

  function Bringing(m: Packet): seq<Tcp.Recv> {
    [Tcp.Delivers(4), Tcp.Delivers(|m|)]
  }

  function Arrive(way: Way, m: Packet): Way {
    match way
    case UsbWay(inbox) => UsbWay(inbox + Incoming(m))
    case TcpWay(inbound) => TcpWay(Tcp.Inbound(inbound.stream + Frame(m), inbound.recvs + Bringing(m)))
  }

  function ArriveAll(way: Way, ms: seq<Packet>): Way
    decreases |ms|
  {
    if ms == [] then way else ArriveAll(Arrive(way, ms[0]), ms[1..])
  }

  // ---- Ways in step ----

  function AllReports(ms: seq<Packet>): seq<seq<byte>> {
    if ms == [] then [] else Reports(ms[0]) + AllReports(ms[1..])
  }

  function Frames(ms: seq<Packet>): seq<byte> {
    if ms == [] then [] else Frame(ms[0]) + Frames(ms[1..])
  }

  /** Two `recv`s for each reply: its length, and the whole rest. */
  predicate InPieces(recvs: seq<Tcp.Recv>, ms: seq<Packet>)
    decreases |ms|
  {
    if ms == [] then recvs == []
    else |recvs| >= 2 && Tcp.Brings(recvs, 0, 4) && Tcp.Brings(recvs, 1, |ms[0]|) && InPieces(recvs[2..], ms[1..])
  }

  /** Nothing but these replies is to be read, the oldest first, whatever their padding. */
  predicate Carries(way: Way, ms: seq<Packet>) {
    match way
    case UsbWay(inbox) => |inbox| == |AllReports(ms)| && Delivers(AllReports(ms), inbox)
    case TcpWay(inbound) => inbound.stream == Frames(ms) && InPieces(inbound.recvs, ms)
  }

  lemma {:induction false} AllReportsEnd(ms: seq<Packet>, m: Packet)
    ensures AllReports(ms + [m]) == AllReports(ms) + Reports(m)
  {
    hide Reports;
    if ms == [] {
      assert (ms + [m])[1..] == [];
    } else {
      assert (ms + [m])[1..] == ms[1..] + [m];
      AllReportsEnd(ms[1..], m);
    }
  }

  lemma {:induction false} FramesEnd(ms: seq<Packet>, m: Packet)
    ensures Frames(ms + [m]) == Frames(ms) + Frame(m)
  {
    hide Frame;
    if ms == [] {
      assert (ms + [m])[1..] == [];
    } else {
      assert (ms + [m])[1..] == ms[1..] + [m];
      FramesEnd(ms[1..], m);
    }
  }

  lemma {:induction false} InPiecesEnd(recvs: seq<Tcp.Recv>, ms: seq<Packet>, m: Packet)
    requires InPieces(recvs, ms)
    ensures InPieces(recvs + Bringing(m), ms + [m])
    decreases |ms|
  {
    var all, packets := recvs + Bringing(m), ms + [m];
    if ms == [] {
      assert all == Bringing(m) && packets[1..] == [] && all[2..] == [];
    } else {
      assert packets[1..] == ms[1..] + [m] && all[2..] == recvs[2..] + Bringing(m);
      InPiecesEnd(recvs[2..], ms[1..], m);
    }
  }

  lemma DeliversBoth(a: seq<seq<byte>>, b: seq<seq<byte>>, x: seq<Report>, y: seq<Report>)
    requires |a| == |x| && Delivers(a, x) && |b| == |y| && Delivers(b, y)
    ensures Delivers(a + b, x + y)
  {
  }

  lemma ArriveCarries(way: Way, ms: seq<Packet>, m: Packet)
    requires Carries(way, ms)
    ensures Carries(Arrive(way, m), ms + [m])
  {
    hide Delivers, InPieces, Reports;
    match way
    case UsbWay(inbox) =>
      AllReportsEnd(ms, m);
      DeliversBoth(AllReports(ms), Reports(m), inbox, Incoming(m));
    case TcpWay(inbound) =>
      FramesEnd(ms, m);
      InPiecesEnd(inbound.recvs, ms, m);
  }

  lemma {:induction false} ArriveAllCarries(way: Way, ms: seq<Packet>, more: seq<Packet>)
    requires Carries(way, ms)
    ensures Carries(ArriveAll(way, more), ms + more)
    decreases |more|
  {
    hide Carries, Arrive;
    if more == [] {
      assert ms + more == ms;
    } else {
      ArriveCarries(way, ms, more[0]);
      ArriveAllCarries(Arrive(way, more[0]), ms + [more[0]], more[1..]);
      assert ms + [more[0]] + more[1..] == ms + more;
    }
  }

  // ---- Reading ----

  function Oldest(ms: seq<seq<byte>>): Option<seq<byte>> {
    if ms == [] then None else Some(ms[0])
  }

  /** A call reads the oldest reply, or times out if there is none. */
  lemma ReadsOldest(way: Way, ms: seq<Packet>, capacity: nat)
    requires Carries(way, ms) && capacity <= MAX_MESSAGE
    ensures Receive(way, capacity).received == Hears(Oldest(ms), capacity)
    ensures ms == [] ==> Receive(way, capacity).left == way
    ensures ms != [] && |ms[0]| <= capacity ==> Carries(Receive(way, capacity).left, ms[1..])
  {
    match way
    case UsbWay(inbox) => UsbReadsOldest(inbox, ms, capacity);
    case TcpWay(inbound) => TcpReadsOldest(inbound, ms, capacity);
  }

  lemma UsbReadsOldest(inbox: seq<Report>, ms: seq<Packet>, capacity: nat)
    requires Carries(UsbWay(inbox), ms) && capacity <= MAX_MESSAGE
    ensures UsbReceive(inbox, capacity) == Hears(Oldest(ms), capacity)
    ensures ms == [] ==> ReadSpec(inbox, capacity).left == inbox
    ensures ms != [] && |ms[0]| <= capacity ==> Carries(UsbWay(ReadSpec(inbox, capacity).left), ms[1..])
  {
    if ms != [] {
      var first, rest := Reports(ms[0]), AllReports(ms[1..]);
      SplitDelivery(first, rest, inbox);
      UsbRoundTrip(ms[0], inbox, capacity);
    }
  }

  lemma SplitDelivery(a: seq<seq<byte>>, b: seq<seq<byte>>, inbox: seq<Report>)
    requires |inbox| == |a + b| && Delivers(a + b, inbox)
    ensures Delivers(a, inbox) && |inbox[|a|..]| == |b| && Delivers(b, inbox[|a|..])
  {
    forall i | 0 <= i < |a|
      ensures Arrives(a[i], inbox[i])
    {
      assert (a + b)[i] == a[i];
    }
    forall i | 0 <= i < |b|
      ensures Arrives(b[i], inbox[|a|..][i])
    {
      assert (a + b)[|a| + i] == b[i];
    }
  }

  lemma TcpReadsOldest(inbound: Tcp.Inbound, ms: seq<Packet>, capacity: nat)
    requires Carries(TcpWay(inbound), ms)
    ensures Tcp.TcpReceive(inbound, capacity) == Hears(Oldest(ms), capacity)
    ensures ms == [] ==> Tcp.TcpLeft(inbound, capacity) == inbound
    ensures ms != [] && |ms[0]| <= capacity ==> Carries(TcpWay(Tcp.TcpLeft(inbound, capacity)), ms[1..])
  {
    if ms != [] {
      assert inbound.stream == Frame(ms[0]) + Frames(ms[1..]) == BE32(|ms[0]| - 2) + ms[0] + Frames(ms[1..]);
      Tcp.TcpRoundTripIff(ms[0], Frames(ms[1..]), inbound.recvs, capacity);
      Tcp.TcpLeaves(ms[0], Frames(ms[1..]), inbound.recvs, capacity);
    }
  }

  /** A call hears its own reply exactly when no earlier one is still to be read, except that one
      reply, or one too long, cannot be told from another. */
  lemma OwnReplyIff(way: Way, earlier: seq<Packet>, own: Packet, capacity: nat)
    requires Carries(way, earlier) && capacity <= MAX_MESSAGE
    ensures Receive(Arrive(way, own), capacity).received == Hears(Some(own), capacity) <==>
            || earlier == [] || earlier[0] == own
            || (|earlier[0]| > capacity && |own| > capacity)
  {
    hide Carries, Receive, Arrive;
    ArriveCarries(way, earlier, own);
    ReadsOldest(Arrive(way, own), earlier + [own], capacity);
  }

  /** A framed reply arrives over USB however it is padded, and over TCP exactly when the two reads
      bring its length and, if it fits, the whole of it. */
  lemma TransportsDeliver(m: seq<byte>, inbox: seq<Report>, after: seq<byte>, recvs: seq<Tcp.Recv>, capacity: nat)
    requires 2 <= |m| <= MAX_MESSAGE && capacity <= MAX_MESSAGE
    requires Delivers(Reports(m), inbox)
    ensures UsbReceive(inbox, capacity) == Hears(Some(m), capacity)
    ensures Tcp.TcpReceive(Tcp.Inbound(BE32(|m| - 2) + m + after, recvs), capacity) == Hears(Some(m), capacity)
       <==> Tcp.Brings(recvs, 0, 4) && (|m| <= capacity ==> Tcp.Brings(recvs, 1, |m|))
  {
    UsbRoundTrip(m, inbox, capacity);
    Tcp.TcpRoundTripIff(m, after, recvs, capacity);
  }

  /** A reply the host had given up on is still in the way: the next call, whatever it asks, hears
      it as its own. */
  lemma LateReplyIsHeardInstead(way: Way, late: Packet, others: seq<Packet>, capacity: nat)
    requires Carries(way, [late] + others) && |late| <= capacity <= MAX_MESSAGE
    ensures Receive(way, capacity).received == Received(SUCCESS, late)
    ensures Carries(Receive(way, capacity).left, others)
  {
    hide Carries, Receive;
    ReadsOldest(way, [late] + others, capacity);
    assert ([late] + others)[1..] == others;
  }

  // ---- Out of step ----

  /** The first report of a message announces its contents. */
  predicate Announces(inbox: seq<Report>, m: seq<byte>) {
    inbox != [] && |inbox[0]| == 64 && inbox[0][..3] == HEADER && Load16(inbox[0][3..5]) == 0 &&
    Load16(inbox[0][5..7]) == |m|
  }

  /** Over USB, whatever sent them: a call hears `m` exactly on reports that announce it, are all
      there, in order, and carry its bytes. */
  lemma UsbHearsIff(inbox: seq<Report>, capacity: nat, m: seq<byte>)
    ensures UsbReceive(inbox, capacity) == Received(SUCCESS, m) <==>
            && |m| <= capacity <= MAX_MESSAGE && Announces(inbox, m)
            && InOrder(inbox, 1, ReportCount(|m|))
            && forall p | 0 <= p < |m| :: CarriedAt(inbox, p, m[p])
  {
    ReadSucceedsIff(inbox, capacity);
    var r := ReadSpec(inbox, capacity);
    hide ReadSpec, InOrder;
    if r.result == SUCCESS && |r.output| == |m| {
      if forall p | 0 <= p < |m| :: CarriedAt(inbox, p, m[p]) {
        assert forall p | 0 <= p < |m| :: CarriedAt(inbox, p, r.output[p]) && CarriedAt(inbox, p, m[p]);
        assert r.output == m;
      }
    }
  }

  /** Over USB, after a reply refused for its length, the next calls fail with a sequence error, one
      for each of its other reports; then the way is in step again. */
  lemma UsbBackInStep(inbox: seq<Report>, ms: seq<Packet>, capacity: nat, i: nat)
    requires Carries(UsbWay(inbox), ms) && ms != [] && capacity < |ms[0]|
    requires 1 <= i <= |Reports(ms[0])|
    ensures Receive(UsbWay(inbox), capacity) == Hearing(Received(PROTOCOL_BAD_LENGTH, []), UsbWay(inbox[1..]))
    ensures i < |Reports(ms[0])| ==> forall room: nat | room <= MAX_MESSAGE ::
              Receive(UsbWay(inbox[i..]), room) == Hearing(Received(TRANSPORT_USB_BAD_SEQ, []), UsbWay(inbox[i + 1..]))
    ensures i == |Reports(ms[0])| ==> Carries(UsbWay(inbox[i..]), ms[1..])
  {
    var reports := Reports(ms[0]);
    SplitDelivery(reports, AllReports(ms[1..]), inbox);
    SequenceNumbersNeverWrap(ms[0]);
    UsbRoundTrip(ms[0], inbox, capacity);
    hide Reports, AllReports;
    if i < |reports| {
      Continues(reports[i], inbox[i], i);
      assert inbox[i..][0] == inbox[i] && inbox[i..][1..] == inbox[i + 1..];
    }
  }

  lemma Continues(report: seq<byte>, received: Report, n: nat)
    requires n < 0x1_0000 && Numbered(report, n) && Arrives(report, received)
    ensures |received| == 64 && received[..3] == HEADER && Load16(received[3..5]) == n
  {
    assert report[1..][..3] == report[..4][1..] == HEADER;
    assert received[..3] == report[1..][..3];
    assert received[3..5] == report[1..][3..5] == report[4..6];
    LoadUndoesStore(n);
  }

  /** Over TCP, a reply refused for its length leaves its bytes to be taken for the next length. */
  lemma TcpOutOfStep(inbound: Tcp.Inbound, ms: seq<Packet>, capacity: nat)
    requires Carries(TcpWay(inbound), ms) && ms != [] && capacity < |ms[0]|
    ensures Receive(TcpWay(inbound), capacity) ==
            Hearing(Received(PROTOCOL_BAD_LENGTH, []), TcpWay(Tcp.Inbound(ms[0] + Frames(ms[1..]), inbound.recvs[1..])))
  {
    TcpReadsOldest(inbound, ms, capacity);
    Tcp.TcpLeaves(ms[0], Frames(ms[1..]), inbound.recvs, capacity);
    assert inbound.stream == BE32(|ms[0]| - 2) + ms[0] + Frames(ms[1..]);
  }
}
