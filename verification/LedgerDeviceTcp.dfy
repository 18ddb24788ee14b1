/** The TCP device of the host library: length-prefixed frames over a stream socket. */
module LedgerDeviceTcp {
  import opened Bytes
  import opened Results
  import opened LedgerAnswer

  /** What one `recv` does: delivers up to so many bytes, would block, or fails. */
  datatype Recv = Delivers(n: nat) | WouldBlock | Fails

  /** Bytes still to come, and what the coming `recv`s do; past those, reads time out. */
  datatype Inbound = Inbound(stream: seq<byte>, recvs: seq<Recv>)

  datatype TcpRead = TcpRead(result: Result, got: seq<byte>, left: Inbound)

  /** A single `recv` must bring everything asked for. */
  function ReadSpec(from: Inbound, len: nat): (r: TcpRead)
    ensures |r.got| <= len && (r.result == SUCCESS <==> |r.got| == len && from.recvs != [] && from.recvs[0].Delivers?)
  {
    if from.recvs == [] then TcpRead(TRANSPORT_TIMEOUT, [], from)
    else
      var rest := from.recvs[1..];
      match from.recvs[0]
      case WouldBlock => TcpRead(TRANSPORT_TIMEOUT, [], Inbound(from.stream, rest))
      case Fails => TcpRead(TRANSPORT_GENERIC_ERROR, [], Inbound(from.stream, rest))
      case Delivers(n) =>
        var k := Min(n, Min(len, |from.stream|));
        TcpRead(if k == len then SUCCESS else TRANSPORT_TIMEOUT, from.stream[..k], Inbound(from.stream[k..], rest))
  }

  /** The announced length excludes the status word; the sum is 32 bits wide. */
  function AnswerLength(announced: seq<byte>): (r: nat)
    requires |announced| == 4
    ensures r < 0x1_0000_0000
  {
    (Load32(announced) + 2) % 0x1_0000_0000
  }

  /** The receiving half of an exchange into an answer of the given capacity. */
  function TcpReceive(from: Inbound, capacity: nat): (r: Received)
    ensures |r.content| <= capacity
  {
    var head := ReadSpec(from, 4);
    if head.result != SUCCESS then Received(head.result, [])
    else
      var len := AnswerLength(head.got);
      if len > capacity then Received(PROTOCOL_BAD_LENGTH, [])
      else
        var body := ReadSpec(head.left, len);
        Received(body.result, if body.result == SUCCESS then body.got else [])
  }

  /** What is still to come after that. */
  function TcpLeft(from: Inbound, capacity: nat): Inbound {
    var head := ReadSpec(from, 4);
    if head.result != SUCCESS || AnswerLength(head.got) > capacity then head.left
    else ReadSpec(head.left, AnswerLength(head.got)).left
  }

  /** The `i`-th `recv` delivers at least `n` bytes at once. */
  predicate Brings(recvs: seq<Recv>, i: nat, n: nat) {
    i < |recvs| && recvs[i].Delivers? && recvs[i].n >= n
  }

  /** Receiving succeeds exactly when the length arrives in one `recv`, is accepted, and as many
      bytes arrive in the next one; the answer is those bytes. */
  lemma TcpReceiveIff(from: Inbound, capacity: nat)
    ensures var r := TcpReceive(from, capacity);
            && (r.result == SUCCESS <==>
                  && |from.stream| >= 4 && Brings(from.recvs, 0, 4)
                  && var len := AnswerLength(from.stream[..4]);
                     len <= capacity && len <= |from.stream| - 4 && Brings(from.recvs, 1, len))
            && (r.result == SUCCESS ==> r.content == from.stream[4..4 + AnswerLength(from.stream[..4])])
  {
  }

  /** A frame comes out as its contents, or is refused for its length, exactly when its length word
      and, if it fits, the rest arrive in one `recv` each. */
  lemma TcpRoundTripIff(message: seq<byte>, after: seq<byte>, recvs: seq<Recv>, capacity: nat)
    requires 2 <= |message| < 0x1_0000_0000
    ensures TcpReceive(Inbound(BE32(|message| - 2) + message + after, recvs), capacity) ==
            (if |message| <= capacity then Received(SUCCESS, message) else Received(PROTOCOL_BAD_LENGTH, []))
       <==> Brings(recvs, 0, 4) && (|message| <= capacity ==> Brings(recvs, 1, |message|))
  {
    FrameParts(message, after);
    hide BE32, AnswerLength;
  }

  /** What a frame brought in one `recv` each leaves. */
  lemma TcpLeaves(message: seq<byte>, after: seq<byte>, recvs: seq<Recv>, capacity: nat)
    requires 2 <= |message| < 0x1_0000_0000
    requires Brings(recvs, 0, 4) && Brings(recvs, 1, |message|)
    ensures TcpLeft(Inbound(BE32(|message| - 2) + message + after, recvs), capacity) ==
            if |message| <= capacity then Inbound(after, recvs[2..]) else Inbound(message + after, recvs[1..])
  {
    FrameParts(message, after);
    hide BE32, AnswerLength;
    assert (message + after)[|message|..] == after;
    assert recvs[1..][0] == recvs[1] && recvs[1..][1..] == recvs[2..];
  }

  lemma FrameParts(message: seq<byte>, after: seq<byte>)
    requires 2 <= |message| < 0x1_0000_0000
    ensures var stream := BE32(|message| - 2) + message + after;
            && AnswerLength(stream[..4]) == |message|
            && stream[4..] == message + after && (message + after)[..|message|] == message
  {
    var head := BE32(|message| - 2);
    assert (head + message + after)[..4] == head;
    LoadUndoesStore(|message| - 2);
  }

  /** So a reply that arrives whole, but in two pieces, is reported as a timeout. */
  lemma SplitReplyIsLost(message: seq<byte>, after: seq<byte>, n: nat, m: nat, recvs: seq<Recv>, capacity: nat)
    requires 2 <= |message| <= capacity && |message| < 0x1_0000_0000
    requires n >= 4 && m < |message|
    ensures TcpReceive(Inbound(BE32(|message| - 2) + message + after, [Delivers(n), Delivers(m)] + recvs), capacity)
            == Received(TRANSPORT_TIMEOUT, [])
  {
    FrameParts(message, after);
    hide BE32, AnswerLength;
    var all := [Delivers(n), Delivers(m)] + recvs;
    assert all[0] == Delivers(n) && all[1..][0] == Delivers(m);
  }

  /** How the first `recv` ends a call, and what stays to come: a blocked one is a timeout, a failed one
      an error, and a short one a timeout that loses the bytes it brought. */
  lemma FirstRecvDecides(stream: seq<byte>, rest: seq<Recv>, n: nat, capacity: nat)
    ensures TcpReceive(Inbound(stream, []), capacity) == Received(TRANSPORT_TIMEOUT, [])
    ensures TcpReceive(Inbound(stream, [WouldBlock] + rest), capacity) == Received(TRANSPORT_TIMEOUT, [])
    ensures TcpReceive(Inbound(stream, [Fails] + rest), capacity) == Received(TRANSPORT_GENERIC_ERROR, [])
    ensures TcpLeft(Inbound(stream, [WouldBlock] + rest), capacity) == Inbound(stream, rest)
    ensures TcpLeft(Inbound(stream, [Fails] + rest), capacity) == Inbound(stream, rest)
    ensures n < 4 || |stream| < 4 ==>
              var from := Inbound(stream, [Delivers(n)] + rest);
              && TcpReceive(from, capacity) == Received(TRANSPORT_TIMEOUT, [])
              && TcpLeft(from, capacity) == Inbound(stream[Min(n, |stream|)..], rest)
  {
    assert ([WouldBlock] + rest)[1..] == ([Fails] + rest)[1..] == ([Delivers(n)] + rest)[1..] == rest;
  }

  /** The length word: four bytes, the first the highest, plus two, in 32 bits. */
  lemma LengthInBytes(word: seq<byte>)
    requires |word| == 4
    ensures var b0: nat, b1: nat, b2: nat, b3: nat := word[0], word[1], word[2], word[3];
            AnswerLength(word) == (0x100_0000 * b0 + 0x1_0000 * b1 + 0x100 * b2 + b3 + 2) % 0x1_0000_0000
  {
    assert word[..2][0] == word[0] && word[..2][1] == word[1] && word[2..][0] == word[2] && word[2..][1] == word[3];
  }

  /** How the second `recv` ends a call, once the length is in: too long a reply is refused before it. */
  lemma SecondRecvDecides(word: seq<byte>, stream: seq<byte>, rest: seq<Recv>, n: nat, capacity: nat)
    requires |word| == 4
    ensures var from, len := word + stream, AnswerLength(word);
            && TcpReceive(Inbound(from, [Delivers(4)] + []), capacity) ==
               Received(if len > capacity then PROTOCOL_BAD_LENGTH else TRANSPORT_TIMEOUT, [])
            && TcpReceive(Inbound(from, [Delivers(4)] + ([WouldBlock] + rest)), capacity) ==
               Received(if len > capacity then PROTOCOL_BAD_LENGTH else TRANSPORT_TIMEOUT, [])
            && TcpReceive(Inbound(from, [Delivers(4)] + ([Fails] + rest)), capacity) ==
               Received(if len > capacity then PROTOCOL_BAD_LENGTH else TRANSPORT_GENERIC_ERROR, [])
            && TcpReceive(Inbound(from, [Delivers(4)] + ([Delivers(n)] + rest)), capacity) ==
               if len > capacity then Received(PROTOCOL_BAD_LENGTH, [])
               else if n < len || |stream| < len then Received(TRANSPORT_TIMEOUT, [])
               else Received(SUCCESS, stream[..len])
  {
    AfterLength(word, stream, [], capacity);
    AfterLength(word, stream, [WouldBlock] + rest, capacity);
    AfterLength(word, stream, [Fails] + rest, capacity);
    AfterLength(word, stream, [Delivers(n)] + rest, capacity);
    hide TcpReceive, AnswerLength;
  }

  lemma AfterLength(word: seq<byte>, stream: seq<byte>, recvs: seq<Recv>, capacity: nat)
    requires |word| == 4
    ensures var len := AnswerLength(word);
            var body := ReadSpec(Inbound(stream, recvs), len);
            TcpReceive(Inbound(word + stream, [Delivers(4)] + recvs), capacity) ==
            if len > capacity then Received(PROTOCOL_BAD_LENGTH, [])
            else Received(body.result, if body.result == SUCCESS then body.got else [])
  {
    var from, all := word + stream, [Delivers(4)] + recvs;
    assert from[..4] == word && from[4..] == stream && all[0] == Delivers(4) && all[1..] == recvs;
    hide AnswerLength;
  }

  /** A peer announcing one of the two lengths whose sum wraps gets an answer too short to hold a
      status word; every other accepted length leaves room for one. */
  lemma WrappedLengthIsTooShort(announced: seq<byte>)
    requires |announced| == 4
    ensures AnswerLength(announced) < 2 <==> Load32(announced) >= 0xFFFF_FFFE
  {
  }

  class Socket {
    var inbound: Inbound
    var sent: seq<seq<byte>>
    const full: seq<bool>

    constructor (inbound: Inbound, full: seq<bool>)
      ensures this.inbound == inbound && this.full == full && sent == []
    {
      this.inbound, this.full, sent := inbound, full, [];
    }

    /** Whether the `n`-th `send` takes everything. */
    function SendsFully(n: nat): bool {
      n < |full| ==> full[n]
    }

    /** More bytes arrive, to be brought by further `recv`s. */
    method Arrive(bytes: seq<byte>, recvs: seq<Recv>)
      modifies this`inbound
      ensures inbound == Inbound(old(inbound).stream + bytes, old(inbound).recvs + recvs)
    {
      inbound := Inbound(inbound.stream + bytes, inbound.recvs + recvs);
    }

    method Send(data: seq<byte>) returns (all: bool)
      modifies this`sent
      ensures sent == old(sent) + [data] && all == SendsFully(|old(sent)|)
    {
      all := SendsFully(|sent|);
      sent := sent + [data];
    }

    /** `LedgerDeviceTCP::read`. */
    method Read(out: array<byte>, len: nat) returns (res: Result)
      requires len <= out.Length
      modifies this`inbound, out
      ensures var spec := ReadSpec(old(inbound), len);
              && res == spec.result && inbound == spec.left
              && out[..|spec.got|] == spec.got && out[|spec.got|..] == old(out[|spec.got|..])
    {
      if inbound.recvs == [] {
        return TRANSPORT_TIMEOUT;
      }
      var next, rest := inbound.recvs[0], inbound.recvs[1..];
      match next
      case WouldBlock =>
        inbound := Inbound(inbound.stream, rest);
        return TRANSPORT_TIMEOUT;
      case Fails =>
        inbound := Inbound(inbound.stream, rest);
        return TRANSPORT_GENERIC_ERROR;
      case Delivers(n) =>
        var ret := Min(n, Min(len, |inbound.stream|));
        assert [] + inbound.stream[..ret] == inbound.stream[..ret];
        Put(out, 0, inbound.stream[..ret]);
        inbound := Inbound(inbound.stream[ret..], rest);
        return if ret == len then SUCCESS else TRANSPORT_TIMEOUT;
    }
  }

  class LedgerDeviceTCP {
    const socket: Socket

    constructor (socket: Socket)
      ensures this.socket == socket
    {
      this.socket := socket;
    }

    /** How an exchange of `data` will end, from the state of the socket before it. */
    ghost function Expected(data: seq<byte>, capacity: nat): (r: Received)
      reads socket
      ensures |r.content| <= capacity
    {
      if |data| >= 0x1_0000_0000 then Received(LIB_BAD_LENGTH, [])
      else if !Sends(data) then Received(TRANSPORT_GENERIC_ERROR, [])
      else TcpReceive(socket.inbound, capacity)
    }

    /** Both `send`s of an exchange are attempted, and take everything. */
    ghost predicate Sends(data: seq<byte>)
      reads socket
    {
      |data| < 0x1_0000_0000 && socket.SendsFully(|socket.sent|) && socket.SendsFully(|socket.sent| + 1)
    }

    /** What the exchange leaves to come. */
    ghost function Left(data: seq<byte>, capacity: nat): Inbound
      reads socket
    {
      if Sends(data) then TcpLeft(socket.inbound, capacity) else socket.inbound
    }

    /** Everything sent after the exchange. */
    ghost function Written(data: seq<byte>): seq<seq<byte>>
      reads socket
    {
      if |data| >= 0x1_0000_0000 then socket.sent
      else if !socket.SendsFully(|socket.sent|) then socket.sent + [BE32(|data|)]
      else socket.sent + [BE32(|data|), data]
    }

    method Exchange(out: LedgerAnswer, data: seq<byte>) returns (res: Result)
      requires out.Valid()
      modifies socket, out, out.buf
      ensures out.Valid() && out.size <= old(out.size)
      ensures var e := old(Expected(data, out.size));
              res == e.result && (res == SUCCESS ==> out.Content() == e.content)
      ensures |data| > 0xFFFF_FFFF ==> res == LIB_BAD_LENGTH && socket.inbound == old(socket.inbound)
      ensures |data| <= 0xFFFF_FFFF && !old(Sends(data)) ==>
                res == TRANSPORT_GENERIC_ERROR && socket.inbound == old(socket.inbound)
      ensures socket.inbound == old(Left(data, out.size))
      ensures |data| <= 0xFFFF_FFFF && !old(socket.SendsFully(|socket.sent|)) ==>
                socket.sent == old(socket.sent) + [BE32(|data|)]
      ensures socket.sent == old(Written(data))
    {
      if |data| >= 0x1_0000_0000 {
        return LIB_BAD_LENGTH;
      }
      var all := socket.Send(BE32(|data|));
      if !all {
        return TRANSPORT_GENERIC_ERROR;
      }
      all := socket.Send(data);
      if !all {
        return TRANSPORT_GENERIC_ERROR;
      }
      var word := new byte[4](_ => 0);
      res := socket.Read(word, 4);
      if res != SUCCESS {
        return;
      }
      assert word[..] == word[..4];
      var recvLen := AnswerLength(word[..]);
      if recvLen > out.size {
        return PROTOCOL_BAD_LENGTH;
      }
      out.Resize(recvLen);
      res := socket.Read(out.buf, recvLen);
    }
  }
}
