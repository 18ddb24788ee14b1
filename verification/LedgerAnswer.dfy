/** The host's answer buffer: payload followed by a two-byte status word. */
module LedgerAnswer {
  import opened Bytes
  import opened Results

  /** How an exchange ended, and the answer's contents if it succeeded. */
  datatype Received = Received(result: Result, content: seq<byte>)

  function StatusOf(content: seq<byte>): nat
    requires |content| >= 2
  {
    Load16(content[|content| - 2..])
  }

  class LedgerAnswer {
    const buf: array<byte>
    var size: nat

    ghost predicate Valid()
      reads this
    {
      size <= buf.Length
    }

    ghost function Content(): seq<byte>
      requires Valid()
      reads this, buf
    {
      buf[..size]
    }

    /** `LedgerAnswer<n>`: room for `n` bytes and the status word. */
    constructor (n: nat)
      ensures Valid() && fresh(buf) && size == n + 2 == buf.Length
    {
      buf := new byte[n + 2](_ => 0);
      size := n + 2;
    }

    /** Never grows the answer. */
    method Resize(len: nat)
      requires Valid() && len <= size
      modifies this
      ensures Valid() && size == len
    {
      size := len;
    }

    method SW() returns (sw: nat)
      requires Valid() && size >= 2
      ensures sw == StatusOf(Content())
    {
      assert buf[size - 2..size] == Content()[|Content()| - 2..];
      sw := Load16(buf[size - 2..size]);
    }
  }
}
