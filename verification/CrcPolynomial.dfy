/**
 What the checksum is: the remainder of a division of polynomials over the two
 element field, as the definition of CRC-32 has it. A polynomial is the sequence
 of its coefficients, that of the highest power first.
 */
module CrcPolynomial {
  import opened Primitives
  import Crc

  // ---------------------------------------------------------------------
  // Division of polynomials
  // ---------------------------------------------------------------------

  /** The powers of the divisor below the thirty-second. */
  const POWERS: set<nat> := {26, 23, 22, 16, 12, 11, 10, 8, 7, 5, 4, 2, 1, 0}

  /** The coefficients of the divisor, x^32 + x^26 + x^23 + ... + x + 1, after the first. */
  function Divisor(): (d: seq<bool>)
    ensures |d| == 32
  {
    seq(32, i => 31 - i in POWERS)
  }

  /** Adding coefficients of one polynomial to the first ones of another. */
  function Added(a: seq<bool>, b: seq<bool>): (r: seq<bool>)
    requires |b| <= |a|
    ensures |r| == |a|
  {
    seq(|a|, i requires 0 <= i < |a| => if i < |b| then a[i] != b[i] else a[i])
  }

  /** One step of the division by hand: take away the divisor if the highest power is there. */
  function Reduced(a: seq<bool>): (r: seq<bool>)
    requires |a| > 32
    ensures |r| == |a| - 1
  {
    if a[0] then Added(a[1..], Divisor()) else a[1..]
  }

  /** The remainder modulo the divisor: fewer than thirty-three coefficients are left. */
  function Remainder(a: seq<bool>): (r: seq<bool>)
    ensures |a| >= 32 ==> |r| == 32
    decreases |a|
  {
    if |a| <= 32 then a else Remainder(Reduced(a))
  }

  function Zero(n: nat): (r: seq<bool>)
    ensures |r| == n
  {
    seq(n, _ => false)
  }

  function Ones(n: nat): (r: seq<bool>)
    ensures |r| == n
  {
    seq(n, _ => true)
  }

  // ---------------------------------------------------------------------
  // Numbers and bytes as bits
  // ---------------------------------------------------------------------

  /** The bits of a number, the lowest first. */
  function Bits(v: nat, n: nat): (r: seq<bool>)
    ensures |r| == n
    decreases n
  {
    if n == 0 then [] else [v % 2 == 1] + Bits(v / 2, n - 1)
  }

  /** The number with these bits, the lowest first. */
  function Number(bits: seq<bool>): nat {
    if bits == [] then 0 else (if bits[0] then 1 else 0) + 2 * Number(bits[1..])
  }

  /** The bits of some data in the order in which they are sent: byte by byte, the lowest of each first. */
  function Message(data: seq<byte>): (r: seq<bool>)
    ensures |r| == 8 * |data|
  {
    if data == [] then [] else Message(data[..|data| - 1]) + Bits(data[|data| - 1], 8)
  }

  /**
   The checksum by its definition: the message is multiplied by x^32, its first
   thirty-two coefficients are complemented, the remainder is complemented, and
   the coefficient of the highest power becomes the lowest bit.
   */
  function Defined(data: seq<byte>): nat {
    var dividend := Added(Message(data) + Zero(32), Ones(32));
    var remainder := Remainder(dividend);
    Number(Added(remainder, Ones(|remainder|)))
  }

  // ---------------------------------------------------------------------
  // Bits
  // ---------------------------------------------------------------------

  lemma {:induction false} NumberOfBits(v: nat, n: nat)
    requires v < Pow2(n)
    ensures Number(Bits(v, n)) == v
    decreases n
  {
    if n > 0 {
      Pow2Half(n);
      NumberOfBits(v / 2, n - 1);
      assert Bits(v, n)[1..] == Bits(v / 2, n - 1);
    }
  }

  lemma {:induction false} XorBits(a: nat, b: nat, n: nat)
    ensures Bits(Crc.Xor(a, b, n), n) == Added(Bits(a, n), Bits(b, n))
    decreases n
  {
    if n > 0 {
      XorBits(a / 2, b / 2, n - 1);
      var x := Crc.Xor(a / 2, b / 2, n - 1);
      LowBit(x, a, b);
      assert Bits(Crc.Xor(a, b, n), n) == [(a + b) % 2 == 1] + Bits(x, n - 1);
      var sum := Added(Bits(a, n), Bits(b, n));
      assert sum[0] == ((a + b) % 2 == 1);
      assert sum[1..] == Added(Bits(a / 2, n - 1), Bits(b / 2, n - 1));
    }
  }

  lemma {:induction false} LowBit(x: nat, a: nat, b: nat)
    ensures var v := 2 * x + (a + b) % 2; v / 2 == x && v % 2 == (a + b) % 2
    ensures (a + b) % 2 == 1 <==> (a % 2 == 1) != (b % 2 == 1)
  {
  }

  /** Halving a number drops its lowest bit. */
  lemma {:induction false} HalfBits(v: nat, n: nat)
    requires n > 0 && v < Pow2(n)
    ensures Bits(v / 2, n) == Bits(v, n)[1..] + [false]
    decreases n
  {
    Pow2Half(n);
    if n == 1 {
      Pow2Zero();
      assert Bits(v / 2, 1) == [false];
    } else {
      HalfBits(v / 2, n - 1);
    }
  }

  lemma {:induction false} ZeroBits(n: nat)
    ensures Bits(0, n) == Zero(n)
    decreases n
  {
    if n > 0 {
      ZeroBits(n - 1);
      assert Bits(0, n) == [false] + Zero(n - 1);
    }
  }

  lemma {:induction false} OnesBits(n: nat)
    ensures Bits(Pow2(n) - 1, n) == Ones(n)
    decreases n
  {
    if n > 0 {
      Pow2Half(n);
      assert (Pow2(n) - 1) / 2 == Pow2(n - 1) - 1 && (Pow2(n) - 1) % 2 == 1;
      OnesBits(n - 1);
      assert Bits(Pow2(n) - 1, n) == [true] + Ones(n - 1);
    }
  }

  /** The bits of a byte, in a wider number. */
  lemma {:induction false} WideBits(v: nat, n: nat, more: nat)
    requires v < Pow2(n)
    ensures Bits(v, n + more) == Bits(v, n) + Zero(more)
    decreases n
  {
    if n == 0 {
      Pow2Zero();
      ZeroBits(more);
      assert Bits(v, 0) + Zero(more) == Zero(more);
    } else {
      Pow2Half(n);
      WideBits(v / 2, n - 1, more);
      assert Bits(v, n) + Zero(more) == [v % 2 == 1] + (Bits(v / 2, n - 1) + Zero(more));
    }
  }

  lemma {:induction false} FourBits(v: nat)
    ensures Bits(v, 4) == [v % 2 == 1, (v / 2) % 2 == 1, (v / 4) % 2 == 1, (v / 8) % 2 == 1]
  {
    assert v / 2 / 2 == v / 4 && v / 4 / 2 == v / 8;
    assert Bits(v / 8, 1) == [(v / 8) % 2 == 1] + Bits(v / 8 / 2, 0);
    assert Bits(v / 4, 2) == [(v / 4) % 2 == 1] + Bits(v / 8, 1);
    assert Bits(v / 2, 3) == [(v / 2) % 2 == 1] + Bits(v / 4, 2);
  }

  /** The bits of a byte are those of its two digits. */
  lemma {:induction false} ByteBits(lo: nat, hi: nat)
    requires lo < 16
    ensures Bits(lo + 16 * hi, 8) == Bits(lo, 4) + Bits(hi, 4)
  {
    Pow2Zero();
    Pow2Half(1);
    Pow2Half(2);
    Pow2Half(3);
    Pow2Half(4);
    LowerBits(lo, hi, 4, 4);
  }

  lemma {:induction false} LowHalf()
    ensures Bits(0x8320, 16) == [false, false, false, false, false, true, false, false,
                                 true, true, false, false, false, false, false, true]
  {
    hide Bits, Pow2;
    Widths();
    LowerBits(0x20, 0x83, 8, 8);
    ByteBits(0, 2);
    ByteBits(3, 8);
    FourBits(0);
    FourBits(2);
    FourBits(3);
    FourBits(8);
  }

  lemma {:induction false} HighHalf()
    ensures Bits(0xEDB8, 16) == [false, false, false, true, true, true, false, true,
                                 true, false, true, true, false, true, true, true]
  {
    hide Bits, Pow2;
    Widths();
    LowerBits(0xB8, 0xED, 8, 8);
    ByteBits(8, 0xB);
    ByteBits(0xD, 0xE);
    FourBits(8);
    FourBits(0xB);
    FourBits(0xD);
    FourBits(0xE);
  }

  /** The constant of the register is the divisor. */
  lemma {:induction false} ConstantIsDivisor()
    ensures Bits(Crc.POLYNOMIAL, 32) == Divisor()
  {
    hide Bits, Pow2;
    Widths();
    LowerBits(0x8320, 0xEDB8, 16, 16);
    LowHalf();
    HighHalf();
    var d := Divisor();
    assert Bits(0x8320, 16) == d[..16];
    assert Bits(0xEDB8, 16) == d[16..];
  }

  lemma {:induction false} LowerBits(lo: nat, hi: nat, n: nat, more: nat)
    requires lo < Pow2(n)
    ensures Bits(lo + Pow2(n) * hi, n + more) == Bits(lo, n) + Bits(hi, more)
    decreases n
  {
    if n == 0 {
      Pow2Zero();
      assert Bits(lo, 0) + Bits(hi, more) == Bits(hi, more);
    } else {
      Pow2Half(n);
      var v := lo + Pow2(n) * hi;
      var half := Pow2(n - 1) * hi;
      assert Pow2(n) * hi == 2 * half;
      assert v / 2 == lo / 2 + half && v % 2 == lo % 2;
      LowerBits(lo / 2, hi, n - 1, more);
      assert Bits(lo, n) + Bits(hi, more) == [lo % 2 == 1] + (Bits(lo / 2, n - 1) + Bits(hi, more));
    }
  }

  // ---------------------------------------------------------------------
  // The register divides
  // ---------------------------------------------------------------------

  /** What is still to be divided, if the register holds a number and these coefficients follow. */
  function Pending(register: nat, rest: seq<bool>): (a: seq<bool>)
    requires |rest| >= 32
    ensures |a| == |rest|
  {
    Added(rest, Bits(register, 32))
  }

  /** The bits of the register after one was shifted out. */
  lemma {:induction false} ShiftBits(register: nat)
    requires register < Pow2(32)
    ensures var bits := Bits(register, 32);
            Bits(Crc.ShiftOne(register), 32) ==
            if bits[0] then Added(bits[1..] + [false], Divisor()) else bits[1..] + [false]
  {
    hide Crc.Xor, Pow2;
    HalfBits(register, 32);
    if register % 2 == 1 {
      XorBits(register / 2, Crc.POLYNOMIAL, 32);
      ConstantIsDivisor();
    }
  }

  /** Shifting out a bit is one step of the division, where nothing of the message is left to add. */
  lemma {:induction false} ShiftReduces(register: nat, rest: seq<bool>)
    requires register < Pow2(32) && |rest| >= 32
    ensures Reduced(Pending(register, [false] + rest)) == Pending(Crc.ShiftOne(register), rest)
  {
    hide Crc.ShiftOne, Bits, Pow2, Divisor;
    ShiftBits(register);
    var bits, after := Bits(register, 32), Bits(Crc.ShiftOne(register), 32);
    var a := Pending(register, [false] + rest);
    assert a[0] == bits[0];
    var r, p := Reduced(a), Pending(Crc.ShiftOne(register), rest);
    forall i | 0 <= i < |rest|
      ensures r[i] == p[i]
    {
      assert a[i + 1] == if i < 31 then rest[i] != bits[i + 1] else rest[i];
      if i < 32 {
        assert (bits[1..] + [false])[i] == if i < 31 then bits[i + 1] else false;
      }
    }
  }

  lemma {:induction false} ShiftOutReduces(register: nat, n: nat, rest: seq<bool>)
    requires register < Pow2(32) && |rest| >= 32
    ensures Remainder(Pending(register, Zero(n) + rest)) == Remainder(Pending(Crc.ShiftOut(register, n), rest))
    decreases n
  {
    hide Crc.ShiftOne, Pending, Reduced, Pow2;
    if n == 0 {
      assert Zero(0) + rest == rest;
    } else {
      assert Zero(n) + rest == [false] + (Zero(n - 1) + rest);
      ShiftReduces(register, Zero(n - 1) + rest);
      ShiftOutReduces(Crc.ShiftOne(register), n - 1, rest);
    }
  }

  /** Adding a byte to the register takes its coefficients out of what follows. */
  lemma {:induction false} ByteAdded(register: nat, b: byte, rest: seq<bool>)
    requires |rest| >= 32
    ensures Pending(register, Bits(b, 8) + rest) == Pending(Crc.Xor(register, b, 32), Zero(8) + rest)
  {
    hide Crc.Xor, Bits, Pow2;
    XorBits(register, b, 32);
    Widths();
    WideBits(b, 8, 24);
  }

  /** Working through some data leaves what follows to be divided from there. */
  lemma {:induction false} RegisterDivides(data: seq<byte>, rest: seq<bool>)
    requires |rest| >= 32
    ensures Remainder(Added(Message(data) + rest, Ones(32))) == Remainder(Pending(Crc.Register(data), rest))
    decreases |data|
  {
    hide Crc.ShiftOut, Crc.Xor, Bits, Pow2, Remainder, Added;
    if data == [] {
      OnesBits(32);
      assert Message(data) + rest == rest;
      assert Crc.Register(data) == Pow2(32) - 1;
    } else {
      var n := |data| - 1;
      var front, b := data[..n], data[n];
      assert Message(data) + rest == Message(front) + (Bits(b, 8) + rest);
      RegisterDivides(front, Bits(b, 8) + rest);
      ByteAdded(Crc.Register(front), b, rest);
      ShiftOutReduces(Crc.Xor(Crc.Register(front), b, 32), 8, rest);
    }
  }

  /** The register is the remainder of the message, times x^32, with its first coefficients complemented. */
  lemma {:induction false} RegisterIsRemainder(data: seq<byte>)
    ensures Bits(Crc.Register(data), 32) == Remainder(Added(Message(data) + Zero(32), Ones(32)))
  {
    hide Crc.Register, Bits, Message;
    RegisterDivides(data, Zero(32));
    assert Pending(Crc.Register(data), Zero(32)) == Bits(Crc.Register(data), 32);
  }

  /** The checksum computed is the checksum defined. */
  lemma {:induction false} ChecksumIsDefined(data: seq<byte>)
    ensures Crc.Crc32(data) == Defined(data)
  {
    hide Crc.Register, Crc.Xor, Bits, Message, Remainder, Pow2, Number;
    var register := Crc.Register(data);
    RegisterIsRemainder(data);
    XorBits(register, Pow2(32) - 1, 32);
    OnesBits(32);
    NumberOfBits(Crc.Crc32(data), 32);
  }
}
