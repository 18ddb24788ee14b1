/** The USB device of the host library: `send` and `read` over a HID handle. */
module LedgerDeviceUsb {
  import opened Bytes
  import opened Results
  import opened Usb
  import opened LedgerAnswer

  /** A `ssize`-like result compared against a `size_t`: negative values wrap around. */
  function AsSize(ret: CInt): nat {
    if ret < 0 then 0x1_0000_0000_0000_0000 + ret else ret
  }

  predicate ShortWrite(ret: CInt, len: nat) {
    AsSize(ret) < len
  }

  /** Only a non-negative short count is noticed; an error return of `hid_write` is not. */
  lemma ShortWriteIff(ret: CInt, len: nat)
    requires len <= 65
    ensures ShortWrite(ret, len) <==> 0 <= ret < len
  {
  }

  /** What the `n`-th `hid_write` returns; writes beyond the scripted ones are complete. */
  function ResultOf(results: seq<CInt>, n: nat): CInt {
    if n < |results| then results[n] else 65
  }

  /** The operating system's HID handle: what was written, what each write returns, what arrives. */
  class HidDevice {
    var written: seq<seq<byte>>
    var inbox: seq<Report>
    const results: seq<CInt>

    constructor (inbox: seq<Report>, results: seq<CInt>)
      ensures written == [] && this.inbox == inbox && this.results == results
    {
      written, this.inbox, this.results := [], inbox, results;
    }

    method Write(report: seq<byte>) returns (ret: CInt)
      modifies this`written
      ensures written == old(written) + [report] && ret == ResultOf(results, |old(written)|)
    {
      ret := ResultOf(results, |written|);
      written := written + [report];
    }

    /** More reports arrive. */
    method Arrive(reports: seq<Report>)
      modifies this`inbox
      ensures inbox == old(inbox) + reports
    {
      inbox := inbox + reports;
    }

    /** `hid_read_timeout`: an exhausted inbox is a timeout. */
    method ReadTimeout(buf: array<byte>) returns (ret: int)
      requires buf.Length == 64
      modifies this`inbox, buf
      ensures old(inbox) == [] ==> ret == 0 && inbox == [] && buf[..] == old(buf[..])
      ensures old(inbox) != [] ==>
                ret == |old(inbox)[0]| && inbox == old(inbox)[1..] &&
                buf[..] == old(inbox)[0] + old(buf[..])[|old(inbox)[0]|..]
    {
      if inbox == [] {
        return 0;
      }
      Put(buf, 0, inbox[0]);
      assert buf[..] == buf[..|inbox[0]|] + buf[|inbox[0]|..];
      ret := |inbox[0]|;
      inbox := inbox[1..];
    }
  }

  /** Everything handed to `hid_write` so far, and whether no write was seen to be short. */
  datatype SendOutcome = SendOutcome(ok: bool, written: seq<seq<byte>>)

  function Hand(written: seq<seq<byte>>, due: seq<seq<byte>>, results: seq<CInt>): SendOutcome
    decreases |due|
  {
    if due == [] then SendOutcome(true, written)
    else if ShortWrite(ResultOf(results, |written|), |due[0]|) then SendOutcome(false, written + [due[0]])
    else Hand(written + [due[0]], due[1..], results)
  }

  /** How many leading reports are written, `base` writes after the start, before one returns a
      non-negative count shorter than the report. */
  function Unnoticed(base: nat, due: seq<seq<byte>>, results: seq<CInt>): (n: nat)
    decreases |due|
    ensures n <= |due|
  {
    if due == [] || 0 <= ResultOf(results, base) < |due[0]| then 0 else 1 + Unnoticed(base + 1, due[1..], results)
  }

  lemma {:induction false} UnnoticedIsFirst(base: nat, due: seq<seq<byte>>, results: seq<CInt>, i: nat)
    requires i < |due| && i <= Unnoticed(base, due, results)
    ensures 0 <= ResultOf(results, base + i) < |due[i]| <==> i == Unnoticed(base, due, results)
    decreases i
  {
    if i > 0 {
      assert due[1..][i - 1] == due[i];
      UnnoticedIsFirst(base + 1, due[1..], results, i - 1);
    }
  }

  /** Sending stops after the first report whose write returned a non-negative short count, and
      succeeds exactly when there is none: an error return of `hid_write` goes unseen. */
  lemma {:induction false} HandStopsAtFirstNoticed(written: seq<seq<byte>>, due: seq<seq<byte>>, results: seq<CInt>)
    requires forall i | 0 <= i < |due| :: |due[i]| <= 65
    ensures var n := Unnoticed(|written|, due, results);
            Hand(written, due, results) == SendOutcome(n == |due|, written + due[..Min(n + 1, |due|)])
    decreases |due|
  {
    if due != [] {
      ShortWriteIff(ResultOf(results, |written|), |due[0]|);
      if 0 <= ResultOf(results, |written|) < |due[0]| {
        assert due[..1] == [due[0]];
      } else {
        var next := written + [due[0]];
        var n := Unnoticed(|next|, due[1..], results);
        HandStopsAtFirstNoticed(next, due[1..], results);
        FirstThenRest(written, due, Min(n + 1, |due| - 1));
      }
    }
  }

  lemma FirstThenRest<T>(written: seq<T>, due: seq<T>, m: nat)
    requires due != [] && m < |due|
    ensures written + [due[0]] + due[1..][..m] == written + due[..m + 1]
  {
  }

  /** Every report fits the 65-byte buffer, so the lemma above applies to every message. */
  lemma SendSucceedsIff(written: seq<seq<byte>>, data: seq<byte>, results: seq<CInt>)
    requires |data| <= MAX_MESSAGE
    ensures var o := Hand(written, Reports(data), results);
            && (o.ok <==> Unnoticed(|written|, Reports(data), results) == |Reports(data)|)
            && (o.ok ==> o.written == written + Reports(data))
  {
    SequenceNumbersNeverWrap(data);
    HandStopsAtFirstNoticed(written, Reports(data), results);
    assert Reports(data)[..|Reports(data)|] == Reports(data);
  }

  /** So a message none of whose reports was written still counts as sent. */
  lemma FailedWritesGoUnseen(data: seq<byte>)
    requires |data| <= MAX_MESSAGE
    ensures Hand([], Reports(data), seq(|Reports(data)|, i => -1)).ok
  {
    FailuresUnnoticed(0, Reports(data), |Reports(data)|);
    SendSucceedsIff([], data, seq(|Reports(data)|, i => -1));
  }

  lemma {:induction false} FailuresUnnoticed(base: nat, due: seq<seq<byte>>, n: nat)
    requires base + |due| <= n
    ensures Unnoticed(base, due, seq(n, i => -1)) == |due|
    decreases |due|
  {
    if due != [] {
      FailuresUnnoticed(base + 1, due[1..], n);
    }
  }

  /** The HID handle took the `i`-th of the reports whole. */
  predicate Accepted(base: nat, due: seq<seq<byte>>, results: seq<CInt>, i: nat)
    requires i < |due|
  {
    ResultOf(results, base + i) >= |due[i]|
  }

  /** The `i`-th write for a message returned an error. */
  predicate Failed(base: nat, results: seq<CInt>, i: nat) {
    ResultOf(results, base + i) < 0
  }

  /** Every report was accepted exactly when `send` succeeds and no write returned an error. */
  lemma AllAcceptedIff(written: seq<seq<byte>>, data: seq<byte>, results: seq<CInt>)
    requires |data| <= MAX_MESSAGE
    ensures (forall i | 0 <= i < |Reports(data)| :: Accepted(|written|, Reports(data), results, i))
       <==> && Hand(written, Reports(data), results).ok
            && forall i | 0 <= i < |Reports(data)| :: !Failed(|written|, results, i)
  {
    hide Hand, Unnoticed, Reports;
    var due := Reports(data);
    var n := Unnoticed(|written|, due, results);
    SendSucceedsIff(written, data, results);
    if n < |due| {
      UnnoticedIsFirst(|written|, due, results, n);
      assert !Accepted(|written|, due, results, n);
    } else {
      forall i | 0 <= i < |due|
        ensures Accepted(|written|, due, results, i) <==> !Failed(|written|, results, i)
      {
        UnnoticedIsFirst(|written|, due, results, i);
      }
    }
  }

  lemma SameTail<T>(s: seq<T>, t: seq<T>, a: nat, b: nat)
    requires a <= b <= |s| == |t| && s[a..] == t[a..]
    ensures s[b..] == t[b..]
  {
    assert s[b..] == s[a..][b - a..] && t[b..] == t[a..][b - a..];
  }

  function UsbReceive(inbox: seq<Report>, capacity: nat): (r: Received)
    ensures |r.content| <= capacity
  {
    var o := ReadSpec(inbox, capacity);
    Received(o.result, if o.result == SUCCESS then o.output else [])
  }

  class LedgerDeviceUSB {
    var hid: HidDevice?

    constructor (hid: HidDevice?)
      ensures this.hid == hid
    {
      this.hid := hid;
    }

    /** How an exchange of `data` will end, from the state of the handle before it. */
    ghost function Expected(data: seq<byte>, capacity: nat): (r: Received)
      reads this, hid
      ensures |r.content| <= capacity
    {
      if hid == null then Received(TRANSPORT_GENERIC_ERROR, [])
      else if |data| > MAX_MESSAGE then Received(LIB_BAD_LENGTH, [])
      else if !Hand(hid.written, Reports(data), hid.results).ok then Received(TRANSPORT_GENERIC_ERROR, [])
      else UsbReceive(hid.inbox, capacity)
    }

    /** The reports an exchange of `data` leaves unread. */
    ghost function Left(data: seq<byte>, capacity: nat): seq<Report>
      reads this, hid
      requires hid != null
    {
      if |data| <= MAX_MESSAGE && Hand(hid.written, Reports(data), hid.results).ok
      then ReadSpec(hid.inbox, capacity).left else hid.inbox
    }

    /** Everything handed to the HID device after an exchange of `data`. */
    ghost function Written(data: seq<byte>): seq<seq<byte>>
      reads this, hid
      requires hid != null
    {
      if |data| <= MAX_MESSAGE then Hand(hid.written, Reports(data), hid.results).written else hid.written
    }

    method Exchange(out: LedgerAnswer, data: seq<byte>) returns (res: Result)
      requires out.Valid()
      modifies hid, out, out.buf
      ensures out.Valid() && out.size <= old(out.size)
      ensures var e := old(Expected(data, out.size));
              res == e.result && (res == SUCCESS ==> out.Content() == e.content)
      ensures hid == null ==> res == TRANSPORT_GENERIC_ERROR
      ensures hid != null && |data| > 0xFFFF ==> res == LIB_BAD_LENGTH && hid.inbox == old(hid.inbox)
      ensures hid != null && |data| <= 0xFFFF && !Hand(old(hid.written), Reports(data), hid.results).ok ==>
                res == TRANSPORT_GENERIC_ERROR && hid.inbox == old(hid.inbox)
      ensures hid != null ==> hid.inbox == old(Left(data, out.size)) && hid.written == old(Written(data))
    {
      hide Hand, Reports, ReadSpec;
      res := Send(data);
      if res != SUCCESS {
        return;
      }
      var recvLen;
      res, recvLen := Read(out.buf, out.size);
      if res != SUCCESS {
        return;
      }
      out.Resize(recvLen);
    }

    method Send(data: seq<byte>) returns (res: Result)
      modifies hid
      ensures hid == null ==> res == TRANSPORT_GENERIC_ERROR
      ensures hid != null ==> hid.inbox == old(hid.inbox)
      ensures hid != null && |data| > MAX_MESSAGE ==> res == LIB_BAD_LENGTH && hid.written == old(hid.written)
      ensures hid != null && |data| <= MAX_MESSAGE ==>
                var o := Hand(old(hid.written), Reports(data), hid.results);
                res == (if o.ok then SUCCESS else TRANSPORT_GENERIC_ERROR) && hid.written == o.written
    {
      if hid == null {
        return TRANSPORT_GENERIC_ERROR;
      }
      if |data| > MAX_MESSAGE {
        return LIB_BAD_LENGTH;
      }
      res := SendReports(hid, data);
    }

    static method SendReports(hid: HidDevice, data: seq<byte>) returns (res: Result)
      requires |data| <= MAX_MESSAGE
      modifies hid`written
      ensures var o := Hand(old(hid.written), Reports(data), hid.results);
              res == (if o.ok then SUCCESS else TRANSPORT_GENERIC_ERROR) && hid.written == o.written
    {
      var buf := new byte[65](_ => 0);
      Put(buf, 0, [0] + HEADER);
      Put(buf, 4, [0, 0]);
      Put(buf, 6, BE16(|data|));
      var it: nat, seqNum: nat, rest := 8, 1, data;
      ghost var due := Reports(data);
      ghost var o := Hand(hid.written, due, hid.results);
      assert buf[..4] == buf[..8][..4];
      while true
        invariant (it == 6 || it == 8) && seqNum < 0x1_0000
        invariant buf[..4] == [0] + HEADER
        invariant due != [] && o == Hand(hid.written, due, hid.results)
        invariant due[0] == buf[..it] + rest[..Min(|rest|, 65 - it)]
        invariant due[1..] == Continuation(rest[Min(|rest|, 65 - it)..], seqNum)
        decreases |rest|
      {
        var len: nat := Min(|rest|, 65 - it);
        var short := WriteChunk(hid, buf, it, rest[..len]);
        if short {
          return TRANSPORT_GENERIC_ERROR;
        }
        due := due[1..];
        rest := rest[len..];
        StampSequence(buf, seqNum);
        seqNum := (seqNum + 1) % 0x1_0000;
        it := 6;
        if |rest| == 0 {
          return SUCCESS;
        }
      }
    }

    static method WriteChunk(hid: HidDevice, buf: array<byte>, it: nat, chunk: seq<byte>) returns (short: bool)
      requires buf.Length == 65 && 4 <= it && it + |chunk| <= 65
      modifies hid`written, buf
      ensures hid.written == old(hid.written) + [old(buf[..it]) + chunk]
      ensures short == ShortWrite(ResultOf(hid.results, |old(hid.written)|), it + |chunk|)
      ensures buf[..4] == old(buf[..4])
    {
      Put(buf, it, chunk);
      assert buf[..4] == buf[..it + |chunk|][..4];
      var ret := hid.Write(buf[..it + |chunk|]);
      short := ShortWrite(ret, it + |chunk|);
    }

    static method StampSequence(buf: array<byte>, seqNum: nat)
      requires buf.Length == 65 && buf[..4] == [0] + HEADER && seqNum < 0x1_0000
      modifies buf
      ensures buf[..4] == [0] + HEADER && buf[..6] == [0] + HEADER + BE16(seqNum)
    {
      Put(buf, 4, BE16(seqNum));
      assert buf[..4] == buf[..6][..4];
    }

    /** `length` is `*OutLen` on return. */
    method Read(out: array<byte>, capacity: nat) returns (res: Result, length: nat)
      requires hid != null && capacity <= out.Length
      modifies hid`inbox, out
      ensures var spec := ReadSpec(old(hid.inbox), capacity);
              && res == spec.result && length == spec.length
              && hid.inbox == spec.left
              && out[..|spec.output|] == spec.output && out[|spec.output|..] == old(out[..])[|spec.output|..]
    {
      length := capacity;
      if capacity > MAX_MESSAGE {
        return LIB_BAD_LENGTH, length;
      }
      var buf := new byte[64](_ => 0);
      ghost var inbox := hid.inbox;
      var n := hid.ReadTimeout(buf);
      if n != 64 {
        return TRANSPORT_TIMEOUT, length;
      }
      assert buf[..] == inbox[0];
      if buf[..3] != HEADER {
        return TRANSPORT_USB_BAD_PACKET, length;
      }
      if Load16(buf[3..5]) != 0 {
        return TRANSPORT_USB_BAD_SEQ, length;
      }
      var inLen: nat := Load16(buf[5..7]);
      if inLen > capacity {
        return PROTOCOL_BAD_LENGTH, length;
      }
      length := inLen;
      assert buf[7..7 + Min(inLen, 57)] == inbox[0][7..7 + Min(inLen, 57)];
      res := ReadRest(hid, buf, out, length, Collect(inbox[1..], 1, inbox[0][7..7 + Min(inLen, 57)], length));
    }

    /** Receives the report numbered `seqRef` into `buf`: one step of `Collect`. */
    static method ReadNext(hid: HidDevice, buf: array<byte>, seqRef: nat, ghost got: seq<byte>, ghost length: nat)
      returns (res: Result)
      requires buf.Length == 64 && seqRef < 0x1_0000 && |got| < length
      modifies hid`inbox, buf
      ensures |hid.inbox| <= |old(hid.inbox)|
      ensures res == SUCCESS ==> |hid.inbox| < |old(hid.inbox)|
      ensures Collect(old(hid.inbox), seqRef, got, length) ==
              if res == SUCCESS
              then Collect(hid.inbox, (seqRef + 1) % 0x1_0000, got + buf[5..5 + Min(length - |got|, 59)], length)
              else ReadOutcome(res, length, got, hid.inbox)
    {
      ghost var pending := hid.inbox;
      var n := hid.ReadTimeout(buf);
      if n != 64 {
        CollectStops(pending, seqRef, got, length, TRANSPORT_TIMEOUT);
        return TRANSPORT_TIMEOUT;
      }
      assert buf[..] == pending[0];
      if Load16(buf[3..5]) != seqRef {
        CollectStops(pending, seqRef, got, length, TRANSPORT_USB_BAD_SEQ);
        return TRANSPORT_USB_BAD_SEQ;
      }
      CollectNext(pending, seqRef, got, length);
      return SUCCESS;
    }

    /** `memcpy(Out, It, Len)`; what follows is still as it was `before` the loop. */
    static method CopyOut(out: array<byte>, at: nat, chunk: seq<byte>, ghost before: seq<byte>)
      requires at + |chunk| <= out.Length == |before| && out[at..] == before[at..]
      modifies out
      ensures out[..at + |chunk|] == old(out[..at]) + chunk
      ensures out[at + |chunk|..] == before[at + |chunk|..]
    {
      SameTail(out[..], before, at, at + |chunk|);
      Put(out, at, chunk);
    }

    /** The copying loop of `read`; `buf` holds the first report. */
    static method ReadRest(hid: HidDevice, buf: array<byte>, out: array<byte>, length: nat, ghost spec: ReadOutcome)
      returns (res: Result)
      requires buf.Length == 64 && buf != out && length <= out.Length
      requires spec == Collect(hid.inbox, 1, buf[7..7 + Min(length, 57)], length)
      modifies hid`inbox, out, buf
      ensures res == spec.result && hid.inbox == spec.left
      ensures out[..|spec.output|] == spec.output && out[|spec.output|..] == old(out[..])[|spec.output|..]
    {
      hide Collect;
      var it: nat, at: nat, seqRef: nat, inLen: nat := 7, 0, 1, length;
      ghost var got, before := [], out[..];
      assert [] + buf[7..7 + Min(length, 57)] == buf[7..7 + Min(length, 57)];
      while true
        invariant (it == 5 || it == 7) && seqRef < 0x1_0000
        invariant at + inLen == length
        invariant out[..at] == got && out[at..] == before[at..]
        invariant spec == Collect(hid.inbox, seqRef, got + buf[it..it + Min(inLen, 64 - it)], length)
        decreases |hid.inbox|
      {
        var len: nat := Min(inLen, 64 - it);
        got := got + buf[it..it + len];
        CopyOut(out, at, buf[it..it + len], before);
        at, inLen := at + len, inLen - len;
        if inLen == 0 {
          CollectDone(hid.inbox, seqRef, got);
          return SUCCESS;
        }
        res := ReadNext(hid, buf, seqRef, got, length);
        if res != SUCCESS {
          return;
        }
        seqRef := (seqRef + 1) % 0x1_0000;
        it := 5;
      }
    }
  }
}
