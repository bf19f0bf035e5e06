/** The cursor buffer that frames are written into and read from (vtelem/classes/byte_buffer.py). */
module ByteBuffers {
  import opened Primitives
  import Crc

  function Zeros(n: nat): (s: seq<byte>) {
    seq(n, _ => 0)
  }

  /** A backing store grown with zeros to at least `n` bytes. */
  function Expanded(data: seq<byte>, n: nat): (r: seq<byte>)
    ensures |r| == if n > |data| then n else |data|
    ensures data <= r
  {
    if n > |data| then data + Zeros(n - |data|) else data
  }

  /** What a store grows by is zero. */
  lemma {:induction false} ExpandedWithZeros(data: seq<byte>, n: nat, i: nat)
    requires |data| <= i < |Expanded(data, n)|
    ensures Expanded(data, n)[i] == 0
  {
  }

  /** A backing store with `patch` laid over it at `at`. */
  function Overlaid(data: seq<byte>, at: nat, patch: seq<byte>): (r: seq<byte>) {
    var room := Expanded(data, at + |patch|);
    room[..at] + patch + room[at + |patch|..]
  }

  class ByteBuffer {
    var data: seq<byte>
    var size: nat
    var pos: nat
    const mutable: bool

    ghost predicate Valid()
      reads this
    {
      size <= |data|
    }

    /** The bytes the buffer is said to hold; the store may be longer. */
    ghost function Contents(): seq<byte>
      requires Valid()
      reads this
    {
      data[..size]
    }

    /** The size is taken as given; a buffer is valid if it has that many bytes. */
    constructor (data: seq<byte>, mutable: bool, size: nat)
      ensures Valid() <==> size <= |data|
      ensures this.data == data && this.size == size && pos == 0 && this.mutable == mutable
    {
      this.data := data;
      this.mutable := mutable;
      this.size := size;
      this.pos := 0;
    }

    method Reset()
      requires mutable
      modifies this
      ensures Valid() && data == [] && size == 0 && pos == 0
    {
      data := [];
      size := 0;
      pos := 0;
    }

    method ExpandTo(n: nat)
      requires Valid()
      modifies this`data
      ensures Valid() && data == Expanded(old(data), n)
    {
      if n > |data| {
        data := data + Zeros(n - |data|);
      }
    }

    method SetPos(p: nat)
      requires Valid()
      modifies this`data, this`pos
      ensures Valid() && pos == p && data == Expanded(old(data), p)
    {
      ExpandTo(p);
      pos := p;
    }

    method Advance(amount: nat, incSize: bool)
      requires Valid()
      modifies this
      ensures Valid() && pos == old(pos) + amount && data == Expanded(old(data), pos)
      ensures size == if incSize && pos > old(size) then pos else old(size)
    {
      SetPos(pos + amount);
      if incSize && pos > size {
        size := size + (pos - size);
      }
    }

    function Remaining(): int
      reads this
    {
      size - pos
    }

    predicate CanRead(p: Primitive)
      reads this
    {
      Remaining() >= Size(p)
    }

    /** Consuming what was read is only possible from the front of the buffer. */
    method ReadBytes(count: nat, chomp: bool) returns (result: seq<byte>)
      requires Valid() && Remaining() >= count
      requires chomp ==> pos == 0
      modifies this
      ensures Valid()
      ensures result == old(data)[old(pos)..old(pos) + count]
      ensures !chomp ==> pos == old(pos) + count && data == old(data) && size == old(size)
      ensures chomp ==> pos == 0 && data == old(data)[count..] && size == old(size) - count
    {
      var start := pos;
      result := data[start..start + count];
      Advance(count, false);
      if chomp {
        data := data[start + count..];
        size := Remaining();
        SetPos(0);
      }
    }

    method Read(p: Primitive, chomp: bool) returns (v: Value)
      requires Valid() && CanRead(p)
      requires chomp ==> pos == 0
      modifies this
      ensures Valid()
      ensures v == Decode(p, old(data)[old(pos)..old(pos) + Size(p)])
      ensures !chomp ==> pos == old(pos) + Size(p) && data == old(data) && size == old(size)
      ensures chomp ==> pos == 0 && data == old(data)[Size(p)..] && size == old(size) - Size(p)
    {
      var raw := ReadBytes(Size(p), chomp);
      v := Decode(p, raw);
    }

    /**
     The cursor follows the end of a non-empty buffer, and stays put otherwise.
     A length beyond the given bytes counts as given: where the cursor follows,
     zeros make up for it; otherwise the buffer is left with too large a size.
     */
    method Append(other: seq<byte>, length: nat) returns (n: nat)
      requires Valid()
      modifies this
      ensures n == length && size == old(size) + length
      ensures var follows := old(Remaining()) == 0 && old(size) != 0;
              var bytes := old(Contents()) + if length <= |other| then other[..length] else other;
              && (Valid() <==> follows || length <= |other|)
              && pos == (if follows then old(pos) + length else old(pos))
              && data == if follows then Expanded(bytes, size) else bytes
    {
      n := length;
      data := data[..size] + if length <= |other| then other[..length] else other;
      if Remaining() == 0 && size != 0 {
        Advance(length, true);
      } else {
        size := size + length;
      }
    }

    function Crc32(): nat
      requires Valid()
      reads this
    {
      Crc.Crc32(data[..size])
    }

    method Write(p: Primitive, v: Value) returns (n: nat)
      requires Valid() && Holds(p, v)
      modifies this
      ensures Valid()
      ensures !mutable ==> n == 0 && data == old(data) && size == old(size) && pos == old(pos)
      ensures mutable ==>
                && n == Size(p) && pos == old(pos) + n
                && data == Overlaid(old(data), old(pos), Encode(p, v))
                && size == if pos > old(size) then pos else old(size)
    {
      if !mutable {
        return 0;
      }
      n := Size(p);
      var bytes := Encode(p, v);
      ExpandTo(pos + n);
      data := data[..pos] + bytes + data[pos + n..];
      Advance(n, true);
    }
  }
}
