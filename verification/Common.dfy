/** Bytes, optional values and the growable read buffer shared by every component. */
module Common {

  /** An octet. */
  type byte = b: int | 0 <= b < 256

  type Bytes = seq<byte>

  datatype Option<+T> = None | Some(value: T)

  const HT: byte := 9
  const LF: byte := 10
  const CR: byte := 13
  const SP: byte := 32

  const CRLF: Bytes := [CR, LF]

  /** One more than the largest `usize` of a 64-bit target. */
  const USIZE_LIMIT: nat := 0x1_0000_0000_0000_0000

  /** Text as bytes. */
  function Spelled(s: string): Bytes
    requires forall i :: 0 <= i < |s| ==> s[i] as int < 0x80
  {
    seq(|s|, i requires 0 <= i < |s| => s[i] as int)
  }

  function Min(a: nat, b: nat): nat {
    if a <= b then a else b
  }

  /** The pieces of a byte stream, one after the other. */
  function Concat(parts: seq<Bytes>): Bytes {
    if parts == [] then [] else parts[0] + Concat(parts[1..])
  }

  lemma {:induction false} ConcatAppend(a: seq<Bytes>, b: seq<Bytes>)
    ensures Concat(a + b) == Concat(a) + Concat(b)
  {
    if a == [] {
      assert a + b == b;
    } else {
      assert (a + b)[1..] == a[1..] + b;
      ConcatAppend(a[1..], b);
    }
  }

  lemma ConcatSnoc(a: seq<Bytes>, x: Bytes)
    ensures Concat(a + [x]) == Concat(a) + x
  {
    ConcatAppend(a, [x]);
    assert Concat([x]) == x + Concat([]);
  }

  /** Reads deliver at least one byte until the connection ends. */
  ghost predicate NoEmptyRead(script: seq<Bytes>) {
    forall i :: 0 <= i < |script| ==> script[i] != []
  }

  /** The read buffer: bytes are appended by reads and taken from the front by decoders. */
  class BytesMut {
    var data: Bytes

    constructor ()
      ensures data == []
    {
      data := [];
    }

    method ExtendFromSlice(more: Bytes)
      modifies this
      ensures data == old(data) + more
    {
      data := data + more;
    }

    method SplitTo(n: nat) returns (head: Bytes)
      requires n <= |data|
      modifies this
      ensures head == old(data)[..n]
      ensures data == old(data)[n..]
    {
      head := data[..n];
      data := data[n..];
    }

    method Split() returns (all: Bytes)
      modifies this
      ensures all == old(data) && data == []
    {
      all := data;
      data := [];
    }

    method Advance(n: nat)
      requires n <= |data|
      modifies this
      ensures data == old(data)[n..]
    {
      data := data[n..];
    }
  }
}
