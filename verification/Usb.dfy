/** USB HID transport of the host library: fragmentation into reports and reassembly. */
module Usb {
  import opened Bytes
  import opened Results

  const HEADER: seq<byte> := [0x01, 0x01, 0x05]
  const MAX_MESSAGE: nat := 0xFFFF

  /** What a read from the HID device delivers: at most one full report. */
  type Report = r: seq<byte> | |r| <= 64

  type CInt = x: int | -0x8000_0000 <= x < 0x8000_0000

  // ---- Fragmentation ----

  function FirstReport(data: seq<byte>): seq<byte>
    requires |data| <= MAX_MESSAGE
  {
    [0] + HEADER + [0, 0] + BE16(|data|) + data[..Min(57, |data|)]
  }

  function NextReport(rest: seq<byte>, seqNum: nat): seq<byte>
    requires seqNum < 0x1_0000
  {
    [0] + HEADER + BE16(seqNum) + rest[..Min(59, |rest|)]
  }

  function Continuation(rest: seq<byte>, seqNum: nat): seq<seq<byte>>
    requires seqNum < 0x1_0000
  {
    if rest == [] then []
    else [NextReport(rest, seqNum)] + Continuation(rest[Min(59, |rest|)..], (seqNum + 1) % 0x1_0000)
  }

  /** The reports handed to `hid_write` for one message, report identifier byte included. */
  function Reports(data: seq<byte>): (r: seq<seq<byte>>)
    requires |data| <= MAX_MESSAGE
    ensures |r| >= 1
  {
    [FirstReport(data)] + Continuation(data[Min(57, |data|)..], 1)
  }

  /** How many reports a message of `len` bytes needs. */
  function ReportCount(len: nat): nat {
    if len <= 57 then 1 else 1 + (len - 57 + 58) / 59
  }

  lemma {:induction false} ContinuationCount(rest: seq<byte>, seqNum: nat)
    requires seqNum < 0x1_0000
    ensures |Continuation(rest, seqNum)| == (|rest| + 58) / 59
  {
    if |rest| > 59 {
      ContinuationCount(rest[59..], (seqNum + 1) % 0x1_0000);
    } else if rest != [] {
      assert rest[Min(59, |rest|)..] == [];
    }
  }

  /** A report as `send` builds it: identifier byte, header, big-endian number, at least 6 bytes. */
  predicate Numbered(report: seq<byte>, n: nat)
    requires n < 0x1_0000
  {
    6 <= |report| <= 65 && report[..4] == [0] + HEADER && report[4..6] == BE16(n)
  }

  lemma ContinuationStep(rest: seq<byte>, seqNum: nat)
    requires seqNum < 0x1_0000 && rest != []
    ensures var n := Min(59, |rest|);
            Continuation(rest, seqNum) ==
            [NextReport(rest, seqNum)] + Continuation(rest[n..], (seqNum + 1) % 0x1_0000)
  {
  }

  lemma ContinuationNumber(rest: seq<byte>, seqNum: nat, i: nat)
    requires seqNum + i < 0x1_0000
    requires i < |Continuation(rest, seqNum)|
    ensures Numbered(Continuation(rest, seqNum)[i], seqNum + i)
  {
    ContinuationInBytes(rest, seqNum, i);
    hide Continuation;
    NumberedInBytes(Continuation(rest, seqNum)[i], seqNum + i, rest[59 * i..Min(59 * i + 59, |rest|)]);
  }

  lemma NumberedInBytes(report: seq<byte>, n: nat, body: seq<byte>)
    requires n < 0x1_0000 && |body| <= 59
    requires report == [0, 0x01, 0x01, 0x05, n / 0x100, n % 0x100] + body
    ensures Numbered(report, n)
  {
    HighByteFirst(n);
    assert BE16(n) == [n / 0x100, n % 0x100];
    assert report[..4] == [0] + HEADER && report[4..6] == BE16(n);
  }

  /** Reports are numbered 0, 1, 2, ... without the 16-bit counter ever wrapping. */
  lemma SequenceNumbersNeverWrap(data: seq<byte>)
    requires |data| <= MAX_MESSAGE
    ensures |Reports(data)| == ReportCount(|data|) <= 1111
    ensures forall i | 0 <= i < |Reports(data)| :: Numbered(Reports(data)[i], i)
  {
    var rest := data[Min(57, |data|)..];
    ContinuationCount(rest, 1);
    assert Numbered(FirstReport(data), 0);
    hide FirstReport, Continuation, Numbered;
    forall i | 0 <= i < |Reports(data)|
      ensures Numbered(Reports(data)[i], i)
    {
      if i > 0 {
        ContinuationNumber(rest, 1, i - 1);
      }
    }
  }

  // ---- Reassembly ----

  /** `length` is `*OutLen` on return, `left` the reports not yet read. */
  datatype ReadOutcome = ReadOutcome(result: Result, length: nat, output: seq<byte>, left: seq<Report>)

  /** The continuation loop of `read`: `got` is already copied, `len` bytes are announced. */
  function Collect(inbox: seq<Report>, seqRef: nat, got: seq<byte>, len: nat): (r: ReadOutcome)
    requires |got| <= len && seqRef < 0x1_0000
    ensures |r.output| <= len && r.length == len && got <= r.output
    ensures r.result == SUCCESS ==> |r.output| == len
    ensures |r.left| <= |inbox|
    decreases |inbox|
  {
    if |got| == len then ReadOutcome(SUCCESS, len, got, inbox)
    else if inbox == [] then ReadOutcome(TRANSPORT_TIMEOUT, len, got, [])
    else if |inbox[0]| != 64 then ReadOutcome(TRANSPORT_TIMEOUT, len, got, inbox[1..])
    else if Load16(inbox[0][3..5]) != seqRef then ReadOutcome(TRANSPORT_USB_BAD_SEQ, len, got, inbox[1..])
    else Collect(inbox[1..], (seqRef + 1) % 0x1_0000, got + inbox[0][5..5 + Min(len - |got|, 59)], len)
  }

  function ReadSpec(inbox: seq<Report>, capacity: nat): (r: ReadOutcome)
    ensures |r.output| <= capacity && r.length <= capacity && |r.left| <= |inbox|
    ensures r.result == SUCCESS ==> |r.output| == r.length
  {
    if capacity > MAX_MESSAGE then ReadOutcome(LIB_BAD_LENGTH, capacity, [], inbox)
    else if inbox == [] then ReadOutcome(TRANSPORT_TIMEOUT, capacity, [], [])
    else if |inbox[0]| != 64 then ReadOutcome(TRANSPORT_TIMEOUT, capacity, [], inbox[1..])
    else if inbox[0][..3] != HEADER then ReadOutcome(TRANSPORT_USB_BAD_PACKET, capacity, [], inbox[1..])
    else if Load16(inbox[0][3..5]) != 0 then ReadOutcome(TRANSPORT_USB_BAD_SEQ, capacity, [], inbox[1..])
    else
      var len := Load16(inbox[0][5..7]);
      if len > capacity then ReadOutcome(PROTOCOL_BAD_LENGTH, capacity, [], inbox[1..])
      else Collect(inbox[1..], 1, inbox[0][7..7 + Min(len, 57)], len)
  }

  // ---- Exact behaviour of reassembly ----

  predicate GoodFirst(inbox: seq<Report>, capacity: nat) {
    inbox != [] && |inbox[0]| == 64 && inbox[0][..3] == HEADER && Load16(inbox[0][3..5]) == 0 &&
    Load16(inbox[0][5..7]) <= capacity
  }

  predicate GoodReport(inbox: seq<Report>, i: nat) {
    i < |inbox| && |inbox[i]| == 64 && Load16(inbox[i][3..5]) == i
  }

  /** Reports `from`, ..., `to - 1` all arrived whole and in order. */
  predicate InOrder(inbox: seq<Report>, from: nat, to: nat) {
    forall i | from <= i < to :: GoodReport(inbox, i)
  }

  /** The report and the offset in it that carry message byte `p`. */
  function Carrier(p: nat): nat { if p < 57 then 0 else 1 + (p - 57) / 59 }

  function Offset(p: nat): nat { if p < 57 then 7 + p else 5 + (p - 57) % 59 }

  predicate CarriedAt(inbox: seq<Report>, p: nat, b: byte) {
    Carrier(p) < |inbox| && |inbox[Carrier(p)]| == 64 && inbox[Carrier(p)][Offset(p)] == b
  }

  lemma CarrierOf(i: nat, p: nat)
    requires 1 <= i && 57 + 59 * (i - 1) <= p < 57 + 59 * i
    ensures Carrier(p) == i && Offset(p) == 5 + (p - (57 + 59 * (i - 1)))
  {
  }

  /** Bytes received once the first `i` reports of a message of `len` bytes are in. */
  function Received(len: nat, i: nat): nat
    requires 1 <= i
  {
    Min(len, 57 + 59 * (i - 1))
  }

  lemma ReceivedStep(len: nat, i: nat)
    requires 1 <= i <= ReportCount(len)
    ensures Received(len, i) == len <==> i == ReportCount(len)
    ensures i < ReportCount(len) ==> Received(len, i + 1) == Received(len, i) + Min(len - Received(len, i), 59)
  {
  }

  lemma CollectGood(inbox: seq<Report>, i: nat, got: seq<byte>, len: nat)
    requires |got| < len <= MAX_MESSAGE && i < 0xFFFF
    requires GoodReport(inbox, i)
    ensures Collect(inbox[i..], i, got, len) ==
            Collect(inbox[i + 1..], i + 1, got + inbox[i][5..5 + Min(len - |got|, 59)], len)
  {
    var rest := inbox[i..];
    assert rest[0] == inbox[i] && rest[1..] == inbox[i + 1..];
    CollectOne(rest, i, got, len);
  }

  lemma CollectOne(rest: seq<Report>, seqRef: nat, got: seq<byte>, len: nat)
    requires |got| < len && seqRef < 0xFFFF && rest != [] && |rest[0]| == 64 && Load16(rest[0][3..5]) == seqRef
    ensures Collect(rest, seqRef, got, len) ==
            Collect(rest[1..], seqRef + 1, got + rest[0][5..5 + Min(len - |got|, 59)], len)
  {
  }

  lemma {:induction false} CollectExact(inbox: seq<Report>, i: nat, got: seq<byte>, len: nat)
    requires 1 <= i <= ReportCount(len) && i <= |inbox| && len <= MAX_MESSAGE
    requires |got| == Received(len, i)
    ensures var r := Collect(inbox[i..], i, got, len);
            && (r.result == SUCCESS <==> InOrder(inbox, i, ReportCount(len)))
            && (r.result == SUCCESS ==>
                  && ReportCount(len) <= |inbox| && r.left == inbox[ReportCount(len)..]
                  && forall p | |got| <= p < len :: CarriedAt(inbox, p, r.output[p]))
    decreases |inbox| - i
  {
    ReceivedStep(len, i);
    if i < ReportCount(len) && GoodReport(inbox, i) {
      var step := inbox[i][5..5 + Min(len - |got|, 59)];
      CollectGood(inbox, i, got, len);
      CollectExact(inbox, i + 1, got + step, len);
      var r := Collect(inbox[i + 1..], i + 1, got + step, len);
      if r.result == SUCCESS {
        forall p | |got| <= p < |got| + |step|
          ensures CarriedAt(inbox, p, r.output[p])
        {
          CarrierOf(i, p);
          assert r.output[p] == (got + step)[p];
        }
      }
    }
  }

  /** `read` succeeds exactly on a good first report followed by the announced number of good
      continuations; it then consumes exactly those and yields exactly the announced bytes. */
  lemma ReadSucceedsIff(inbox: seq<Report>, capacity: nat)
    ensures var r := ReadSpec(inbox, capacity);
            && (r.result == SUCCESS <==>
                  && capacity <= MAX_MESSAGE
                  && GoodFirst(inbox, capacity)
                  && InOrder(inbox, 1, ReportCount(Load16(inbox[0][5..7]))))
            && (r.result == SUCCESS ==>
                  && r.length == Load16(inbox[0][5..7]) == |r.output|
                  && ReportCount(r.length) <= |inbox| && r.left == inbox[ReportCount(r.length)..]
                  && forall p | 0 <= p < r.length :: CarriedAt(inbox, p, r.output[p]))
  {
    if capacity <= MAX_MESSAGE && GoodFirst(inbox, capacity) {
      var len := Load16(inbox[0][5..7]);
      var first := inbox[0][7..7 + Min(len, 57)];
      CollectExact(inbox, 1, first, len);
      var r := Collect(inbox[1..], 1, first, len);
      forall p | 0 <= p < |first|
        ensures CarriedAt(inbox, p, r.output[p])
      {
        assert r.output[p] == first[p];
      }
    }
  }

  /** A failed reassembly names the first bad continuation `b`: missing or short reads time out,
      a complete report with the wrong number is a sequence error. */
  lemma {:induction false} FirstBadReportDecides(inbox: seq<Report>, i: nat, got: seq<byte>, len: nat, b: nat)
    requires 1 <= i <= b < ReportCount(len) && i <= |inbox| && len <= MAX_MESSAGE
    requires |got| == Received(len, i)
    requires InOrder(inbox, i, b) && !GoodReport(inbox, b)
    ensures var r := Collect(inbox[i..], i, got, len);
            if b < |inbox| && |inbox[b]| == 64
            then r.result == TRANSPORT_USB_BAD_SEQ && r.left == inbox[b + 1..]
            else r.result == TRANSPORT_TIMEOUT && r.left == inbox[Min(b + 1, |inbox|)..]
    decreases b - i
  {
    ReceivedStep(len, i);
    if i < b {
      CollectGood(inbox, i, got, len);
      FirstBadReportDecides(inbox, i + 1, got + inbox[i][5..5 + Min(len - |got|, 59)], len, b);
    }
  }

  /** A failed reassembly at the first report: which check fails, in this order, decides the error, and at
      most that report is consumed. */
  lemma FirstReportDecides(inbox: seq<Report>, capacity: nat)
    ensures var r := ReadSpec(inbox, capacity);
            && (capacity > 0xFFFF ==> r.result == LIB_BAD_LENGTH && r.left == inbox)
            && (capacity <= 0xFFFF && inbox == [] ==> r.result == TRANSPORT_TIMEOUT && r.left == [])
            && (capacity <= 0xFFFF && inbox != [] ==>
                  var first := inbox[0];
                  if |first| < 64 then r.result == TRANSPORT_TIMEOUT && r.left == inbox[1..]
                  else if first[..3] != [0x01, 0x01, 0x05]
                  then r.result == TRANSPORT_USB_BAD_PACKET && r.left == inbox[1..]
                  else if first[3..5] != [0, 0] then r.result == TRANSPORT_USB_BAD_SEQ && r.left == inbox[1..]
                  else 0x100 * first[5] as int + first[6] as int > capacity ==>
                         r.result == PROTOCOL_BAD_LENGTH && r.left == inbox[1..])
  {
    if inbox != [] && |inbox[0]| == 64 {
      var number, length := inbox[0][3..5], inbox[0][5..7];
      assert length[0] == inbox[0][5] && length[1] == inbox[0][6];
      assert number == [number[0], number[1]];
      hide Collect;
    }
  }

  // ---- Reports on the wire ----

  /** The bytes of every report: identifier, channel and tag, number, in the first the length, high bytes
      first, then the next 57 or 59 bytes of the message. */
  lemma ReportsInBytes(data: seq<byte>, i: nat)
    requires |data| <= MAX_MESSAGE && i < |Reports(data)|
    ensures i == 0 ==>
              Reports(data)[0] ==
              [0, 0x01, 0x01, 0x05, 0, 0, |data| / 0x100, |data| % 0x100] + data[..Min(57, |data|)]
    ensures i > 0 ==>
              var at: nat := 59 * i - 2;
              at < |data| && i <= 0xFFFF &&
              Reports(data)[i] == [0, 0x01, 0x01, 0x05, i / 0x100, i % 0x100] + data[at..Min(at + 59, |data|)]
  {
    if i > 0 {
      var rest := data[Min(57, |data|)..];
      SequenceNumbersNeverWrap(data);
      ContinuationInBytes(rest, 1, i - 1);
      hide Continuation;
      var at := 59 * (i - 1);
      assert rest[at..Min(at + 59, |rest|)] == data[57 + at..Min(57 + at + 59, |data|)];
    }
  }

  lemma ContinuationInBytes(rest: seq<byte>, seqNum: nat, i: nat)
    requires seqNum + i < 0x1_0000 && i < |Continuation(rest, seqNum)|
    ensures 59 * i < |rest|
    ensures Continuation(rest, seqNum)[i] ==
            [0, 0x01, 0x01, 0x05, (seqNum + i) / 0x100, (seqNum + i) % 0x100] + rest[59 * i..Min(59 * i + 59, |rest|)]
  {
    ContinuationAt(rest, seqNum, i);
    hide Continuation, NextReport;
    NextInBytes(rest[59 * i..], seqNum + i);
    PartOfTail(rest, 59 * i, 0, Min(59, |rest| - 59 * i));
  }

  /** The `i`-th further report starts the message `59 * i` bytes on. */
  lemma {:induction false} ContinuationAt(rest: seq<byte>, seqNum: nat, i: nat)
    requires seqNum + i < 0x1_0000 && i < |Continuation(rest, seqNum)|
    ensures 59 * i < |rest| && Continuation(rest, seqNum)[i] == NextReport(rest[59 * i..], seqNum + i)
    decreases i
  {
    ContinuationStep(rest, seqNum);
    hide Continuation, NextReport;
    if i == 0 {
      assert rest[0..] == rest;
    } else {
      var n := Min(59, |rest|);
      var tail, at: nat := rest[n..], 59 * (i - 1);
      NoWrap(seqNum + 1);
      assert Continuation(rest, seqNum)[i] == Continuation(tail, seqNum + 1)[i - 1];
      ContinuationAt(tail, seqNum + 1, i - 1);
      assert n == 59;
      DropTwice(rest, 59, at);
    }
  }

  lemma NoWrap(n: nat)
    requires n < 0x1_0000
    ensures n % 0x1_0000 == n
  {
  }

  lemma DropTwice(s: seq<byte>, a: nat, b: nat)
    requires a + b <= |s|
    ensures s[a..][b..] == s[a + b..]
  {
  }

  lemma NextInBytes(rest: seq<byte>, seqNum: nat)
    requires seqNum < 0x1_0000
    ensures NextReport(rest, seqNum) ==
            [0, 0x01, 0x01, 0x05, seqNum / 0x100, seqNum % 0x100] + rest[..Min(59, |rest|)]
  {
    HighByteFirst(seqNum);
    assert BE16(seqNum) == [seqNum / 0x100, seqNum % 0x100];
  }

  lemma PartOfTail(s: seq<byte>, n: nat, i: nat, j: nat)
    requires n <= |s| && i <= j <= |s| - n
    ensures s[n..][i..j] == s[n + i..n + j]
  {
  }

  // ---- Round trip ----

  /** What the host sees of sent reports: the identifier byte stripped, anything as padding. */
  predicate Arrives(sent: seq<byte>, received: Report) {
    1 <= |sent| && |received| == 64 && sent[1..] <= received
  }

  predicate Delivers(reports: seq<seq<byte>>, inbox: seq<Report>) {
    |reports| <= |inbox| && forall i | 0 <= i < |reports| :: Arrives(reports[i], inbox[i])
  }

  lemma NextArrives(rest: seq<byte>, seqRef: nat, report: Report)
    requires seqRef < 0x1_0000
    requires Arrives(NextReport(rest, seqRef), report)
    ensures |report| == 64
    ensures Load16(report[3..5]) == seqRef
    ensures report[5..5 + Min(59, |rest|)] == rest[..Min(59, |rest|)]
  {
    var body := NextReport(rest, seqRef)[1..];
    assert body == HEADER + BE16(seqRef) + rest[..Min(59, |rest|)];
    assert report[3..5] == body[3..5] == BE16(seqRef);
    assert report[5..5 + Min(59, |rest|)] == body[5..];
    LoadUndoesStore(seqRef);
  }

  lemma FirstArrives(data: seq<byte>, report: Report)
    requires |data| <= MAX_MESSAGE
    requires Arrives(FirstReport(data), report)
    ensures |report| == 64
    ensures report[..3] == HEADER && Load16(report[3..5]) == 0 && Load16(report[5..7]) == |data|
    ensures report[7..7 + Min(57, |data|)] == data[..Min(57, |data|)]
  {
    var body := FirstReport(data)[1..];
    assert body == HEADER + [0, 0] + BE16(|data|) + data[..Min(57, |data|)];
    assert report[..3] == body[..3];
    assert report[3..5] == body[3..5];
    assert report[5..7] == body[5..7] == BE16(|data|);
    assert report[7..7 + Min(57, |data|)] == body[7..];
    LoadUndoesStore(|data|);
  }

  lemma DeliversTail(reports: seq<seq<byte>>, inbox: seq<Report>)
    requires reports != [] && Delivers(reports, inbox)
    ensures Delivers(reports[1..], inbox[1..])
  {
  }

  lemma FirstOfDelivered(reports: seq<seq<byte>>, inbox: seq<Report>)
    requires reports != [] && Delivers(reports, inbox)
    ensures |reports| <= |inbox| && Arrives(reports[0], inbox[0])
  {
  }

  lemma CollectNext(inbox: seq<Report>, seqRef: nat, got: seq<byte>, len: nat)
    requires |got| < len && seqRef < 0x1_0000
    requires inbox != [] && |inbox[0]| == 64 && Load16(inbox[0][3..5]) == seqRef
    ensures Collect(inbox, seqRef, got, len) ==
            Collect(inbox[1..], (seqRef + 1) % 0x1_0000,
                    got + inbox[0][5..5 + Min(len - |got|, 59)], len)
  {
  }

  lemma CollectDone(inbox: seq<Report>, seqRef: nat, got: seq<byte>)
    requires seqRef < 0x1_0000
    ensures Collect(inbox, seqRef, got, |got|) == ReadOutcome(SUCCESS, |got|, got, inbox)
  {
  }

  lemma CollectStops(inbox: seq<Report>, seqRef: nat, got: seq<byte>, len: nat, res: Result)
    requires |got| < len && seqRef < 0x1_0000
    requires inbox != [] && |inbox[0]| == 64 ==> Load16(inbox[0][3..5]) != seqRef
    requires res == if inbox != [] && |inbox[0]| == 64 then TRANSPORT_USB_BAD_SEQ else TRANSPORT_TIMEOUT
    ensures Collect(inbox, seqRef, got, len) ==
            ReadOutcome(res, len, got, if inbox == [] then [] else inbox[1..])
  {
  }

  lemma {:induction false} CollectRebuilds(inbox: seq<Report>, seqRef: nat, got: seq<byte>, rest: seq<byte>)
    requires seqRef < 0x1_0000
    requires Delivers(Continuation(rest, seqRef), inbox)
    ensures Collect(inbox, seqRef, got, |got| + |rest|) ==
            ReadOutcome(SUCCESS, |got| + |rest|, got + rest, inbox[|Continuation(rest, seqRef)|..])
    decreases |rest|
  {
    if rest == [] {
      assert got + rest == got;
    } else {
      hide Collect, Continuation, NextReport, Arrives, Delivers;
      var n := Min(59, |rest|);
      var head, more := NextReport(rest, seqRef), Continuation(rest[n..], (seqRef + 1) % 0x1_0000);
      var reports := [head] + more;
      ContinuationStep(rest, seqRef);
      assert reports[0] == head && reports[1..] == more;
      FirstOfDelivered(reports, inbox);
      NextArrives(rest, seqRef, inbox[0]);
      CollectNext(inbox, seqRef, got, |got| + |rest|);
      DeliversTail(reports, inbox);
      CollectRebuilds(inbox[1..], (seqRef + 1) % 0x1_0000, got + rest[..n], rest[n..]);
      assert inbox[0][5..5 + n] == rest[..n] && |got + rest[..n]| + |rest[n..]| == |got| + |rest|;
      assert |reports| == 1 + |more|;
      TailOfTail(inbox, |more|);
      Regroup(got, rest, n);
    }
  }

  lemma TailOfTail<T>(s: seq<T>, k: nat)
    requires k < |s|
    ensures s[1..][k..] == s[1 + k..]
  {
  }

  lemma Regroup(got: seq<byte>, rest: seq<byte>, n: nat)
    requires n <= |rest|
    ensures got + rest[..n] + rest[n..] == got + rest
  {
  }

  /** Reassembly undoes fragmentation, whatever the padding and whatever arrives afterwards. */
  lemma UsbRoundTrip(data: seq<byte>, inbox: seq<Report>, capacity: nat)
    requires |data| <= MAX_MESSAGE
    requires Delivers(Reports(data), inbox)
    ensures |data| <= capacity <= MAX_MESSAGE ==>
              ReadSpec(inbox, capacity) == ReadOutcome(SUCCESS, |data|, data, inbox[|Reports(data)|..])
    ensures capacity < |data| ==>
              ReadSpec(inbox, capacity) == ReadOutcome(PROTOCOL_BAD_LENGTH, capacity, [], inbox[1..])
  {
    hide Collect, Continuation, Arrives;
    var n := Min(57, |data|);
    var more := Continuation(data[n..], 1);
    assert Reports(data)[0] == FirstReport(data) && Reports(data)[1..] == more;
    FirstArrives(data, inbox[0]);
    DeliversTail(Reports(data), inbox);
    if |data| <= capacity {
      CollectRebuilds(inbox[1..], 1, data[..n], data[n..]);
      TailOfTail(inbox, |more|);
      assert data[..n] + data[n..] == data;
    }
  }
}
