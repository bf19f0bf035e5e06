/**
 The 32-bit cyclic redundancy check of section 8 of RFC 1952, which zlib's
 `crc32` computes (vtelem/classes/byte_buffer.py).
 */
module Crc {
  import opened Primitives

  const POLYNOMIAL: nat := 0xEDB8_8320

  /** Bitwise exclusive or of the low `bits` bits. */
  function Xor(a: nat, b: nat, bits: nat): (r: nat)
    ensures r < Pow2(bits)
  {
    if bits == 0 then 0 else 2 * Xor(a / 2, b / 2, bits - 1) + (a + b) % 2
  }

  function ShiftOne(register: nat): (r: nat)
    ensures register < Pow2(32) ==> r < Pow2(32)
  {
    if register % 2 == 1 then Xor(register / 2, POLYNOMIAL, 32) else register / 2
  }

  /** The register after shifting out `n` bits. */
  function ShiftOut(register: nat, n: nat): (r: nat)
    ensures register < Pow2(32) ==> r < Pow2(32)
    decreases n
  {
    if n == 0 then register else ShiftOut(ShiftOne(register), n - 1)
  }

  function Register(data: seq<byte>): (r: nat)
    ensures r < Pow2(32)
  {
    if data == [] then Pow2(32) - 1
    else ShiftOut(Xor(Register(data[..|data| - 1]), data[|data| - 1], 32), 8)
  }

  function Crc32(data: seq<byte>): (r: nat)
    ensures IntegerCanHold(UInt32, r)
  {
    Xor(Register(data), Pow2(32) - 1, 32)
  }

  // ---------------------------------------------------------------------
  // A changed byte changes the checksum
  // ---------------------------------------------------------------------

  /** A number is its half and its last bit; adding the same to two numbers keeps apart odd and even. */
  lemma {:induction false} Halves(a: nat, b: nat, c: nat, x: nat, y: nat)
    requires 2 * x + (a + c) % 2 == 2 * y + (b + c) % 2
    ensures x == y && a % 2 == b % 2
    ensures a / 2 == b / 2 ==> a == b
  {
  }

  lemma {:induction false} HalfBelow(a: nat, bits: nat)
    requires bits > 0 && a < Pow2(bits)
    ensures a / 2 < Pow2(bits - 1)
  {
    Pow2Half(bits);
  }

  lemma {:induction false} XorInjective(a: nat, b: nat, c: nat, bits: nat)
    requires a < Pow2(bits) && b < Pow2(bits) && Xor(a, c, bits) == Xor(b, c, bits)
    ensures a == b
  {
    if bits > 0 {
      hide Pow2;
      Halves(a, b, c, Xor(a / 2, c / 2, bits - 1), Xor(b / 2, c / 2, bits - 1));
      HalfBelow(a, bits);
      HalfBelow(b, bits);
      XorInjective(a / 2, b / 2, c / 2, bits - 1);
    }
  }

  lemma {:induction false} XorCommutes(a: nat, b: nat, bits: nat)
    ensures Xor(a, b, bits) == Xor(b, a, bits)
  {
    if bits > 0 {
      XorCommutes(a / 2, b / 2, bits - 1);
    }
  }

  /** The top bit of one operand shows if the other has none. */
  lemma {:induction false} XorTop(a: nat, b: nat, bits: nat)
    requires bits > 0 && a < Pow2(bits - 1) <= b < Pow2(bits)
    ensures Xor(a, b, bits) >= Pow2(bits - 1)
  {
    if bits > 1 {
      XorTop(a / 2, b / 2, bits - 1);
    } else {
      assert Pow2(0) == 1;
    }
  }

  /** The polynomial's top bit tells whether a one was shifted out, so shifting can be undone. */
  lemma {:induction false} ShiftOneInjective(a: nat, b: nat)
    requires a < Pow2(32) && b < Pow2(32) && ShiftOne(a) == ShiftOne(b)
    ensures a == b
  {
    hide Xor, Pow2;
    Widths();
    Pow2Half(32);
    assert Pow2(31) <= POLYNOMIAL < Pow2(32);
    if a % 2 == 1 {
      XorTop(a / 2, POLYNOMIAL, 32);
    }
    if b % 2 == 1 {
      XorTop(b / 2, POLYNOMIAL, 32);
    }
    if a % 2 == 1 && b % 2 == 1 {
      XorInjective(a / 2, b / 2, POLYNOMIAL, 32);
    }
  }

  lemma {:induction false} ShiftOutInjective(a: nat, b: nat, n: nat)
    requires a < Pow2(32) && b < Pow2(32) && ShiftOut(a, n) == ShiftOut(b, n)
    ensures a == b
    decreases n
  {
    hide ShiftOne, Pow2;
    if n > 0 {
      ShiftOutInjective(ShiftOne(a), ShiftOne(b), n - 1);
      ShiftOneInjective(a, b);
    }
  }

  predicate DifferAt(a: seq<byte>, b: seq<byte>, i: nat) {
    |a| == |b| && i < |a| && a[i] != b[i] && forall j :: 0 <= j < |a| && j != i ==> a[j] == b[j]
  }

  lemma {:induction false} RegisterDiffers(a: seq<byte>, b: seq<byte>, i: nat)
    requires DifferAt(a, b, i)
    ensures Register(a) != Register(b)
    decreases |a|
  {
    hide Xor, Pow2, ShiftOut;
    var n := |a| - 1;
    var p, q := Register(a[..n]), Register(b[..n]);
    var x, y := Xor(p, a[n], 32), Xor(q, b[n], 32);
    if Register(a) == Register(b) {
      ShiftOutInjective(x, y, 8);
      if i == n {
        assert a[..n] == b[..n];
        XorCommutes(p, a[n], 32);
        XorCommutes(p, b[n], 32);
        Widths();
        XorInjective(a[n], b[n], p, 32);
      } else {
        RegisterDiffers(a[..n], b[..n], i);
        XorInjective(p, q, a[n], 32);
      }
    }
  }

  /** Changing one byte of some data always changes its checksum. */
  lemma {:induction false} ChangedByteChangesCrc(a: seq<byte>, b: seq<byte>, i: nat)
    requires DifferAt(a, b, i)
    ensures Crc32(a) != Crc32(b)
  {
    hide Xor, Register, Pow2;
    RegisterDiffers(a, b, i);
    if Crc32(a) == Crc32(b) {
      XorInjective(Register(a), Register(b), Pow2(32) - 1, 32);
    }
  }
}
