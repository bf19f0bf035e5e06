/** The checksum of the digits one to nine, by which implementations of CRC-32 are told apart. */
module CrcCheck {
  import opened Primitives
  import opened CrcPolynomial
  import Crc

  // ---------------------------------------------------------------------
  // The register, bit by bit
  // ---------------------------------------------------------------------

  /** A digit of base sixteen, the lowest bit first. */
  datatype Nibble = Nibble(a: bool, b: bool, c: bool, d: bool) {
    function Shifted(next: bool): Nibble {
      Nibble(b, c, d, next)
    }

    function Plus(other: Nibble): Nibble {
      Nibble(a != other.a, b != other.b, c != other.c, d != other.d)
    }

    function Flat(): (s: seq<bool>)
      ensures |s| == 4
    {
      [a, b, c, d]
    }
  }

  function Nib(x: nat): Nibble {
    Nibble(x % 2 == 1, x / 2 % 2 == 1, x / 4 % 2 == 1, x / 8 % 2 == 1)
  }

  /** Eight digits, the lowest first. */
  datatype Word = Word(n0: Nibble, n1: Nibble, n2: Nibble, n3: Nibble, n4: Nibble, n5: Nibble, n6: Nibble, n7: Nibble) {
    function Plus(o: Word): Word {
      Word(n0.Plus(o.n0), n1.Plus(o.n1), n2.Plus(o.n2), n3.Plus(o.n3),
           n4.Plus(o.n4), n5.Plus(o.n5), n6.Plus(o.n6), n7.Plus(o.n7))
    }

    function Halved(): Word {
      Word(n0.Shifted(n1.a), n1.Shifted(n2.a), n2.Shifted(n3.a), n3.Shifted(n4.a),
           n4.Shifted(n5.a), n5.Shifted(n6.a), n6.Shifted(n7.a), n7.Shifted(false))
    }

    function Flat(): (s: seq<bool>)
      ensures |s| == 32
    {
      n0.Flat() + (n1.Flat() + (n2.Flat() + (n3.Flat() + (n4.Flat() + (n5.Flat() + (n6.Flat() + n7.Flat()))))))
    }
  }

  function Hex(x0: nat, x1: nat, x2: nat, x3: nat, x4: nat, x5: nat, x6: nat, x7: nat): Word {
    Word(Nib(x0), Nib(x1), Nib(x2), Nib(x3), Nib(x4), Nib(x5), Nib(x6), Nib(x7))
  }

  const DIVISOR := Hex(0, 2, 3, 8, 8, 0xB, 0xD, 0xE)

  function Shift(w: Word): Word {
    if w.n0.a then w.Halved().Plus(DIVISOR) else w.Halved()
  }

  // ---------------------------------------------------------------------
  // It is the register
  // ---------------------------------------------------------------------

  predicate Holds32(w: Word, register: nat) {
    register < Pow2(32) && Bits(register, 32) == w.Flat()
  }

  lemma {:induction false} NibblePlus(x: Nibble, y: Nibble, s: seq<bool>, t: seq<bool>)
    requires |s| == |t|
    ensures Added(x.Flat() + s, y.Flat() + t) == x.Plus(y).Flat() + Added(s, t)
  {
  }

  lemma {:induction false} FlatPlus(v: Word, w: Word)
    ensures v.Plus(w).Flat() == Added(v.Flat(), w.Flat())
  {
    hide Added;
    var s7, t7 := v.n7.Flat(), w.n7.Flat();
    var s6, t6 := v.n6.Flat() + s7, w.n6.Flat() + t7;
    var s5, t5 := v.n5.Flat() + s6, w.n5.Flat() + t6;
    var s4, t4 := v.n4.Flat() + s5, w.n4.Flat() + t5;
    var s3, t3 := v.n3.Flat() + s4, w.n3.Flat() + t4;
    var s2, t2 := v.n2.Flat() + s3, w.n2.Flat() + t3;
    var s1, t1 := v.n1.Flat() + s2, w.n1.Flat() + t2;
    LastPlus(v.n7, w.n7);
    NibblePlus(v.n6, w.n6, s7, t7);
    NibblePlus(v.n5, w.n5, s6, t6);
    NibblePlus(v.n4, w.n4, s5, t5);
    NibblePlus(v.n3, w.n3, s4, t4);
    NibblePlus(v.n2, w.n2, s3, t3);
    NibblePlus(v.n1, w.n1, s2, t2);
    NibblePlus(v.n0, w.n0, s1, t1);
  }

  lemma {:induction false} LastPlus(x: Nibble, y: Nibble)
    ensures Added(x.Flat(), y.Flat()) == x.Plus(y).Flat()
  {
  }

  lemma {:induction false} NibbleShifted(x: Nibble, s: seq<bool>)
    requires s != []
    ensures (x.Flat() + s)[1..] + [false] == x.Shifted(s[0]).Flat() + (s[1..] + [false])
  {
  }

  lemma {:induction false} FlatHalved(w: Word)
    ensures w.Halved().Flat() == w.Flat()[1..] + [false]
  {
    var s7 := w.n7.Flat();
    var s6 := w.n6.Flat() + s7;
    var s5 := w.n5.Flat() + s6;
    var s4 := w.n4.Flat() + s5;
    var s3 := w.n3.Flat() + s4;
    var s2 := w.n2.Flat() + s3;
    var s1 := w.n1.Flat() + s2;
    var h7 := w.n7.Shifted(false).Flat();
    assert h7 == s7[1..] + [false];
    NibbleShifted(w.n6, s7);
    var h6 := w.n6.Shifted(w.n7.a).Flat() + h7;
    NibbleShifted(w.n5, s6);
    var h5 := w.n5.Shifted(w.n6.a).Flat() + h6;
    NibbleShifted(w.n4, s5);
    var h4 := w.n4.Shifted(w.n5.a).Flat() + h5;
    NibbleShifted(w.n3, s4);
    var h3 := w.n3.Shifted(w.n4.a).Flat() + h4;
    NibbleShifted(w.n2, s3);
    var h2 := w.n2.Shifted(w.n3.a).Flat() + h3;
    NibbleShifted(w.n1, s2);
    var h1 := w.n1.Shifted(w.n2.a).Flat() + h2;
    NibbleShifted(w.n0, s1);
    assert w.Halved().Flat() == w.n0.Shifted(w.n1.a).Flat() + h1;
  }

  function Value(x0: nat, x1: nat, x2: nat, x3: nat): nat {
    x0 + 16 * (x1 + 16 * (x2 + 16 * x3))
  }

  lemma {:induction false} FourDigits(x0: nat, x1: nat, x2: nat, x3: nat)
    requires x0 < 16 && x1 < 16 && x2 < 16 && x3 < 16
    ensures Value(x0, x1, x2, x3) < 0x1_0000
    ensures Bits(Value(x0, x1, x2, x3), 16) ==
            Nib(x0).Flat() + (Nib(x1).Flat() + (Nib(x2).Flat() + Nib(x3).Flat()))
  {
    hide Bits, Pow2, Nib;
    FourPower();
    var v2 := x2 + 16 * x3;
    var v1 := x1 + 16 * v2;
    LowerBits(x0, v1, 4, 12);
    LowerBits(x1, v2, 4, 8);
    LowerBits(x2, x3, 4, 4);
    NibbleBits(x0);
    NibbleBits(x1);
    NibbleBits(x2);
    NibbleBits(x3);
  }

  lemma {:induction false} FlatHex(x0: nat, x1: nat, x2: nat, x3: nat, x4: nat, x5: nat, x6: nat, x7: nat)
    requires x0 < 16 && x1 < 16 && x2 < 16 && x3 < 16 && x4 < 16 && x5 < 16 && x6 < 16 && x7 < 16
    ensures Holds32(Hex(x0, x1, x2, x3, x4, x5, x6, x7), Value(x0, x1, x2, x3) + 0x1_0000 * Value(x4, x5, x6, x7))
  {
    hide Bits, Pow2, Nib, Value;
    Widths();
    FourDigits(x0, x1, x2, x3);
    FourDigits(x4, x5, x6, x7);
    LowerBits(Value(x0, x1, x2, x3), Value(x4, x5, x6, x7), 16, 16);
    var a, b, c, d := Nib(x0).Flat(), Nib(x1).Flat(), Nib(x2).Flat(), Nib(x3).Flat();
    var rest := Nib(x4).Flat() + (Nib(x5).Flat() + (Nib(x6).Flat() + Nib(x7).Flat()));
    Regrouped(a, b, c, d, rest);
  }

  lemma {:induction false} Regrouped(a: seq<bool>, b: seq<bool>, c: seq<bool>, d: seq<bool>, rest: seq<bool>)
    ensures (a + (b + (c + d))) + rest == a + (b + (c + (d + rest)))
  {
    assert (c + d) + rest == c + (d + rest);
    assert (b + (c + d)) + rest == b + (c + (d + rest));
  }

  lemma {:induction false} FourPower()
    ensures Pow2(4) == 16
  {
    Pow2Zero();
    Pow2Half(1);
    Pow2Half(2);
    Pow2Half(3);
    Pow2Half(4);
  }

  lemma {:induction false} NibbleBits(x: nat)
    requires x < 16
    ensures Bits(x, 4) == Nib(x).Flat()
  {
    hide Bits;
    FourBits(x);
  }

  lemma {:induction false} ShiftHolds(w: Word, register: nat)
    requires Holds32(w, register)
    ensures Holds32(Shift(w), Crc.ShiftOne(register))
  {
    hide Bits, Pow2, Crc.ShiftOne, Added;
    ShiftBits(register);
    FlatHalved(w);
    DivisorHeld();
    FlatPlus(w.Halved(), DIVISOR);
  }

  lemma {:induction false} DivisorHeld()
    ensures DIVISOR.Flat() == Divisor()
  {
    hide Bits, Pow2, Divisor;
    FlatHex(0, 2, 3, 8, 8, 0xB, 0xD, 0xE);
    ConstantIsDivisor();
  }

  /** A byte added, given by its two digits. */
  function WithByte(w: Word, lo: nat, hi: nat): Word {
    w.(n0 := w.n0.Plus(Nib(lo)), n1 := w.n1.Plus(Nib(hi)))
  }

  lemma {:induction false} ByteHolds(w: Word, register: nat, lo: nat, hi: nat)
    requires lo < 16 && hi < 16 && Holds32(w, register)
    ensures Holds32(WithByte(w, lo, hi), Crc.Xor(register, lo + 16 * hi, 32))
  {
    hide Bits, Pow2, Crc.Xor, Added;
    FlatHex(lo, hi, 0, 0, 0, 0, 0, 0);
    XorBits(register, lo + 16 * hi, 32);
    FlatPlus(w, Hex(lo, hi, 0, 0, 0, 0, 0, 0));
    assert Nib(0) == Nibble(false, false, false, false);
    assert w.Plus(Hex(lo, hi, 0, 0, 0, 0, 0, 0)) == WithByte(w, lo, hi);
  }

  /** Four bits shifted out, one by one. */
  lemma {:induction false} FourHold(register: nat, w: Word, x1: Word, x2: Word, x3: Word, x4: Word)
    requires Holds32(w, register) && Shift(w) == x1 && Shift(x1) == x2 && Shift(x2) == x3 && Shift(x3) == x4
    ensures Holds32(x4, Crc.ShiftOut(register, 4))
  {
    hide Holds32, Shift, Crc.ShiftOne;
    var r1 := Crc.ShiftOne(register);
    var r2 := Crc.ShiftOne(r1);
    var r3 := Crc.ShiftOne(r2);
    ShiftHolds(w, register);
    ShiftHolds(x1, r1);
    ShiftHolds(x2, r2);
    ShiftHolds(x3, r3);
    assert Crc.ShiftOut(register, 4) == Crc.ShiftOut(r1, 3) == Crc.ShiftOut(r2, 2);
    assert Crc.ShiftOut(r2, 2) == Crc.ShiftOut(r3, 1) == Crc.ShiftOut(Crc.ShiftOne(r3), 0);
  }

  lemma {:induction false} EightInHalves(register: nat)
    ensures Crc.ShiftOut(register, 8) == Crc.ShiftOut(Crc.ShiftOut(register, 4), 4)
  {
    hide Crc.ShiftOne;
    var r2 := Crc.ShiftOne(Crc.ShiftOne(register));
    var r4 := Crc.ShiftOne(Crc.ShiftOne(r2));
    assert Crc.ShiftOut(register, 8) == Crc.ShiftOut(r2, 6) == Crc.ShiftOut(r4, 4);
    assert Crc.ShiftOut(register, 4) == Crc.ShiftOut(r2, 2) == Crc.ShiftOut(r4, 0);
  }

  /** The first half of a byte: it is added, and four bits are shifted out. */
  lemma {:induction false} FirstHold(register: nat, w: Word, lo: nat, x1: Word, x2: Word, x3: Word, x4: Word)
    requires lo < 16 && Holds32(w, register)
    requires Shift(WithByte(w, lo, 3)) == x1 && Shift(x1) == x2 && Shift(x2) == x3 && Shift(x3) == x4
    ensures Holds32(x4, Crc.ShiftOut(Crc.Xor(register, lo + 48, 32), 4))
  {
    hide Holds32, Shift, WithByte, Crc.Xor, Crc.ShiftOut;
    ByteHolds(w, register, lo, 3);
    FourHold(Crc.Xor(register, lo + 48, 32), WithByte(w, lo, 3), x1, x2, x3, x4);
  }

  /** The register after a byte more. */
  lemma {:induction false} ByteDone(data: seq<byte>, b: byte, w: Word)
    requires Holds32(w, Crc.ShiftOut(Crc.ShiftOut(Crc.Xor(Crc.Register(data), b, 32), 4), 4))
    ensures Holds32(w, Crc.Register(data + [b]))
  {
    hide Crc.ShiftOut, Crc.Xor, Holds32;
    assert (data + [b])[..|data|] == data;
    EightInHalves(Crc.Xor(Crc.Register(data), b, 32));
  }

  // ---------------------------------------------------------------------
  // The digits one to nine
  // ---------------------------------------------------------------------

  lemma {:induction false} First1(register: nat)
    requires Holds32(Hex(0xf, 0xf, 0xf, 0xf, 0xf, 0xf, 0xf, 0xf), register)
    ensures Holds32(Hex(4, 8, 0xd, 1, 5, 0xf, 0xf, 0xa), Crc.ShiftOut(Crc.Xor(register, 0x31, 32), 4))
  {
    hide Holds32, Crc.ShiftOut, Crc.Xor;
    FirstHold(register, Hex(0xf, 0xf, 0xf, 0xf, 0xf, 0xf, 0xf, 0xf), 1, Hex(7, 0xe, 0xf, 0xf, 0xf, 0xf, 0xf, 7),
              Hex(3, 0xd, 0xc, 7, 7, 4, 2, 0xd), Hex(9, 4, 0xd, 3, 0xb, 9, 4, 8), Hex(4, 8, 0xd, 1, 5, 0xf, 0xf, 0xa));
  }

  lemma {:induction false} Second1(register: nat)
    requires Holds32(Hex(4, 8, 0xd, 1, 5, 0xf, 0xf, 0xa), register)
    ensures Holds32(Hex(8, 4, 0, 1, 3, 2, 0xc, 7), Crc.ShiftOut(register, 4))
  {
    hide Holds32, Crc.ShiftOut;
    FourHold(register, Hex(4, 8, 0xd, 1, 5, 0xf, 0xf, 0xa), Hex(2, 0xc, 0xe, 8, 0xa, 0xf, 7, 5),
             Hex(1, 6, 7, 4, 0xd, 0xf, 0xb, 2), Hex(0, 9, 0, 2, 6, 4, 8, 0xf), Hex(8, 4, 0, 1, 3, 2, 0xc, 7));
  }

  lemma {:induction false} First2(register: nat)
    requires Holds32(Hex(8, 4, 0, 1, 3, 2, 0xc, 7), register)
    ensures Holds32(Hex(0xf, 0xe, 2, 9, 4, 1, 1, 0xd), Crc.ShiftOut(Crc.Xor(register, 0x32, 32), 4))
  {
    hide Holds32, Crc.ShiftOut, Crc.Xor;
    FirstHold(register, Hex(8, 4, 0, 1, 3, 2, 0xc, 7), 2, Hex(0xd, 3, 8, 8, 1, 1, 0xe, 3),
              Hex(0xe, 3, 7, 4, 0, 0xb, 2, 0xf), Hex(0xf, 9, 3, 2, 8, 5, 9, 7), Hex(0xf, 0xe, 2, 9, 4, 1, 1, 0xd));
  }

  lemma {:induction false} Second2(register: nat)
    requires Holds32(Hex(0xf, 0xe, 2, 9, 4, 1, 1, 0xd), register)
    ensures Holds32(Hex(2, 3, 0xb, 0xb, 0xc, 0xa, 0, 0xb), Crc.ShiftOut(register, 4))
  {
    hide Holds32, Crc.ShiftOut;
    FourHold(register, Hex(0xf, 0xe, 2, 9, 4, 1, 1, 0xd), Hex(7, 5, 0xa, 0xc, 2, 3, 5, 8),
             Hex(0xb, 0, 6, 0xe, 1, 2, 0xf, 0xa), Hex(5, 2, 0, 7, 8, 2, 0xa, 0xb),
                 Hex(2, 3, 0xb, 0xb, 0xc, 0xa, 0, 0xb));
  }

  lemma {:induction false} First3(register: nat)
    requires Holds32(Hex(2, 3, 0xb, 0xb, 0xc, 0xa, 0, 0xb), register)
    ensures Holds32(Hex(4, 0xd, 0xb, 0xd, 0xd, 0xb, 6, 1), Crc.ShiftOut(Crc.Xor(register, 0x33, 32), 4))
  {
    hide Holds32, Crc.ShiftOut, Crc.Xor;
    FirstHold(register, Hex(2, 3, 0xb, 0xb, 0xc, 0xa, 0, 0xb), 3, Hex(0, 0xa, 0xe, 0xd, 0xe, 0xe, 5, 0xb),
              Hex(0, 5, 0xf, 6, 7, 0xf, 0xa, 5), Hex(8, 0xa, 7, 0xb, 0xb, 7, 0xd, 2),
                  Hex(4, 0xd, 0xb, 0xd, 0xd, 0xb, 6, 1));
  }

  lemma {:induction false} Second3(register: nat)
    requires Holds32(Hex(4, 0xd, 0xb, 0xd, 0xd, 0xb, 6, 1), register)
    ensures Holds32(Hex(0xd, 2, 0xc, 9, 7, 0xb, 7, 7), Crc.ShiftOut(register, 4))
  {
    hide Holds32, Crc.ShiftOut;
    FourHold(register, Hex(4, 0xd, 0xb, 0xd, 0xd, 0xb, 6, 1), Hex(0xa, 0xe, 0xd, 0xe, 0xe, 5, 0xb, 0),
             Hex(5, 0xf, 6, 7, 0xf, 0xa, 5, 0), Hex(0xa, 5, 8, 3, 0xf, 6, 0xf, 0xe), Hex(0xd, 2, 0xc, 9, 7, 0xb, 7, 7));
  }

  lemma {:induction false} First4(register: nat)
    requires Holds32(Hex(0xd, 2, 0xc, 9, 7, 0xb, 7, 7), register)
    ensures Holds32(Hex(5, 8, 0xa, 0xe, 4, 7, 7, 0xf), Crc.ShiftOut(Crc.Xor(register, 0x34, 32), 4))
  {
    hide Holds32, Crc.ShiftOut, Crc.Xor;
    FirstHold(register, Hex(0xd, 2, 0xc, 9, 7, 0xb, 7, 7), 4, Hex(0xc, 2, 0xd, 4, 3, 6, 6, 0xd),
              Hex(6, 9, 6, 0xa, 1, 3, 0xb, 6), Hex(0xb, 4, 3, 0xd, 8, 9, 5, 3), Hex(5, 8, 0xa, 0xe, 4, 7, 7, 0xf));
  }

  lemma {:induction false} Second4(register: nat)
    requires Holds32(Hex(5, 8, 0xa, 0xe, 4, 7, 7, 0xf), register)
    ensures Holds32(Hex(0xc, 5, 0xf, 1, 0xc, 1, 4, 6), Crc.ShiftOut(register, 4))
  {
    hide Holds32, Crc.ShiftOut;
    FourHold(register, Hex(5, 8, 0xa, 0xe, 4, 7, 7, 0xf), Hex(2, 6, 6, 0xf, 2, 0, 6, 9),
             Hex(1, 3, 0xb, 7, 1, 0, 0xb, 4), Hex(8, 0xb, 0xe, 3, 8, 3, 8, 0xc), Hex(0xc, 5, 0xf, 1, 0xc, 1, 4, 6));
  }

  lemma {:induction false} First5(register: nat)
    requires Holds32(Hex(0xc, 5, 0xf, 1, 0xc, 1, 4, 6), register)
    ensures Holds32(Hex(2, 0xb, 2, 5, 0xe, 4, 6, 0xf), Crc.ShiftOut(Crc.Xor(register, 0x35, 32), 4))
  {
    hide Holds32, Crc.ShiftOut, Crc.Xor;
    FirstHold(register, Hex(0xc, 5, 0xf, 1, 0xc, 1, 4, 6), 5, Hex(4, 9, 0xc, 8, 6, 0xb, 0xf, 0xd),
              Hex(0xa, 4, 6, 4, 0xb, 0xd, 0xf, 6), Hex(5, 2, 3, 0xa, 0xd, 0xe, 7, 3),
                  Hex(2, 0xb, 2, 5, 0xe, 4, 6, 0xf));
  }

  lemma {:induction false} Second5(register: nat)
    requires Holds32(Hex(2, 0xb, 2, 5, 0xe, 4, 6, 0xf), register)
    ensures Holds32(Hex(3, 0xe, 5, 0xc, 0xa, 0, 4, 3), Crc.ShiftOut(register, 4))
  {
    hide Holds32, Crc.ShiftOut;
    FourHold(register, Hex(2, 0xb, 2, 5, 0xe, 4, 6, 0xf), Hex(9, 5, 9, 2, 7, 2, 0xb, 7),
             Hex(0xc, 8, 7, 1, 0xb, 2, 0, 0xd), Hex(6, 0xc, 0xb, 8, 5, 1, 8, 6), Hex(3, 0xe, 5, 0xc, 0xa, 0, 4, 3));
  }

  lemma {:induction false} First6(register: nat)
    requires Holds32(Hex(3, 0xe, 5, 0xc, 0xa, 0, 4, 3), register)
    ensures Holds32(Hex(9, 0xa, 0xd, 0xf, 0xb, 2, 8, 6), Crc.ShiftOut(Crc.Xor(register, 0x36, 32), 4))
  {
    hide Holds32, Crc.ShiftOut, Crc.Xor;
    FirstHold(register, Hex(3, 0xe, 5, 0xc, 0xa, 0, 4, 3), 6, Hex(0xa, 0xc, 1, 0xe, 0xd, 0xb, 7, 0xf),
              Hex(5, 0xe, 0, 0xf, 0xe, 0xd, 0xb, 7), Hex(2, 5, 0xb, 0xf, 7, 5, 0, 0xd),
                  Hex(9, 0xa, 0xd, 0xf, 0xb, 2, 8, 6));
  }

  lemma {:induction false} Second6(register: nat)
    requires Holds32(Hex(9, 0xa, 0xd, 0xf, 0xb, 2, 8, 6), register)
    ensures Holds32(Hex(0xe, 9, 0xc, 2, 0xd, 8, 6, 0xf), Crc.ShiftOut(register, 4))
  {
    hide Holds32, Crc.ShiftOut;
    FourHold(register, Hex(9, 0xa, 0xd, 0xf, 0xb, 2, 8, 6), Hex(4, 0xf, 0xd, 7, 0xd, 0xa, 9, 0xd),
             Hex(0xa, 0xf, 0xe, 0xb, 6, 0xd, 0xc, 6), Hex(0xd, 7, 0xf, 5, 0xb, 6, 6, 3),
                 Hex(0xe, 9, 0xc, 2, 0xd, 8, 6, 0xf));
  }

  lemma {:induction false} First7(register: nat)
    requires Holds32(Hex(0xe, 9, 0xc, 2, 0xd, 8, 6, 0xf), register)
    ensures Holds32(Hex(0xe, 8, 1, 4, 7, 6, 0xf, 0xf), Crc.ShiftOut(Crc.Xor(register, 0x37, 32), 4))
  {
    hide Holds32, Crc.ShiftOut, Crc.Xor;
    FirstHold(register, Hex(0xe, 9, 0xc, 2, 0xd, 8, 6, 0xf), 7, Hex(4, 7, 5, 1, 0xe, 0xf, 6, 9),
              Hex(0xa, 0xb, 0xa, 0, 0xf, 7, 0xb, 4), Hex(0xd, 5, 5, 8, 0xf, 0xb, 5, 2),
                  Hex(0xe, 8, 1, 4, 7, 6, 0xf, 0xf));
  }

  lemma {:induction false} Second7(register: nat)
    requires Holds32(Hex(0xe, 8, 1, 4, 7, 6, 0xf, 0xf), register)
    ensures Holds32(Hex(0, 6, 6, 9, 0xc, 0xf, 0xf, 0xa), Crc.ShiftOut(register, 4))
  {
    hide Holds32, Crc.ShiftOut;
    FourHold(register, Hex(0xe, 8, 1, 4, 7, 6, 0xf, 0xf), Hex(7, 0xc, 0, 0xa, 3, 0xb, 0xf, 7),
             Hex(3, 4, 3, 5, 1, 6, 2, 0xd), Hex(1, 8, 0xa, 2, 8, 8, 4, 8), Hex(0, 6, 6, 9, 0xc, 0xf, 0xf, 0xa));
  }

  lemma {:induction false} First8(register: nat)
    requires Holds32(Hex(0, 6, 6, 9, 0xc, 0xf, 0xf, 0xa), register)
    ensures Holds32(Hex(5, 4, 0xa, 4, 7, 4, 7, 0xe), Crc.ShiftOut(Crc.Xor(register, 0x38, 32), 4))
  {
    hide Holds32, Crc.ShiftOut, Crc.Xor;
    FirstHold(register, Hex(0, 6, 6, 9, 0xc, 0xf, 0xf, 0xa), 8, Hex(0xc, 2, 0xb, 4, 0xe, 0xf, 7, 5),
              Hex(6, 9, 5, 2, 0xf, 0xf, 0xb, 2), Hex(0xb, 0xc, 2, 9, 0xf, 0xf, 5, 1), Hex(5, 4, 0xa, 4, 7, 4, 7, 0xe));
  }

  lemma {:induction false} Second8(register: nat)
    requires Holds32(Hex(5, 4, 0xa, 4, 7, 4, 7, 0xe), register)
    ensures Holds32(Hex(0, 5, 5, 2, 0xf, 1, 5, 6), Crc.ShiftOut(register, 4))
  {
    hide Holds32, Crc.ShiftOut;
    FourHold(register, Hex(5, 4, 0xa, 4, 7, 4, 7, 0xe), Hex(2, 0, 6, 2, 0xb, 1, 0xe, 9),
             Hex(1, 0, 3, 9, 0xd, 0, 0xf, 4), Hex(0, 0xa, 0xa, 4, 0xe, 3, 0xa, 0xc), Hex(0, 5, 5, 2, 0xf, 1, 5, 6));
  }

  lemma {:induction false} First9(register: nat)
    requires Holds32(Hex(0, 5, 5, 2, 0xf, 1, 5, 6), register)
    ensures Holds32(Hex(2, 1, 1, 6, 0xe, 5, 6, 0xf), Crc.ShiftOut(Crc.Xor(register, 0x39, 32), 4))
  {
    hide Holds32, Crc.ShiftOut, Crc.Xor;
    FirstHold(register, Hex(0, 5, 5, 2, 0xf, 1, 5, 6), 9, Hex(4, 9, 1, 1, 7, 3, 0xf, 0xd),
              Hex(0xa, 0xc, 8, 8, 0xb, 9, 0xf, 6), Hex(5, 6, 4, 0xc, 0xd, 0xc, 7, 3), Hex(2, 1, 1, 6, 0xe, 5, 6, 0xf));
  }

  lemma {:induction false} Second9(register: nat)
    requires Holds32(Hex(2, 1, 1, 6, 0xe, 5, 6, 0xf), register)
    ensures Holds32(Hex(9, 0xd, 6, 0xc, 0xb, 0, 4, 3), Crc.ShiftOut(register, 4))
  {
    hide Holds32, Crc.ShiftOut;
    FourHold(register, Hex(2, 1, 1, 6, 0xe, 5, 6, 0xf), Hex(9, 8, 0, 3, 0xf, 2, 0xb, 7),
             Hex(4, 6, 0xb, 1, 0xf, 2, 0, 0xd), Hex(2, 0xb, 0xd, 8, 7, 1, 8, 6), Hex(9, 0xd, 6, 0xc, 0xb, 0, 4, 3));
  }

  lemma {:induction false} Started()
    ensures Holds32(Hex(0xF, 0xF, 0xF, 0xF, 0xF, 0xF, 0xF, 0xF), Crc.Register([]))
  {
    hide Bits, Pow2;
    Widths();
    FlatHex(0xF, 0xF, 0xF, 0xF, 0xF, 0xF, 0xF, 0xF);
  }

  /** The check value of CRC-32. */
  lemma {:induction false} CheckValue()
    ensures Crc.Crc32([0x31, 0x32, 0x33, 0x34, 0x35, 0x36, 0x37, 0x38, 0x39]) == 0xCBF4_3926
  {
    hide Crc.Register, Crc.Crc32, Crc.Xor, Crc.ShiftOut, Hex, Holds32;
    var d: seq<byte> := [];
    Started();
    First1(Crc.Register(d));
    Second1(Crc.ShiftOut(Crc.Xor(Crc.Register(d), 0x31, 32), 4));
    ByteDone(d, 0x31, Hex(8, 4, 0, 1, 3, 2, 0xc, 7));
    d := d + [0x31];
    First2(Crc.Register(d));
    Second2(Crc.ShiftOut(Crc.Xor(Crc.Register(d), 0x32, 32), 4));
    ByteDone(d, 0x32, Hex(2, 3, 0xb, 0xb, 0xc, 0xa, 0, 0xb));
    d := d + [0x32];
    First3(Crc.Register(d));
    Second3(Crc.ShiftOut(Crc.Xor(Crc.Register(d), 0x33, 32), 4));
    ByteDone(d, 0x33, Hex(0xd, 2, 0xc, 9, 7, 0xb, 7, 7));
    d := d + [0x33];
    First4(Crc.Register(d));
    Second4(Crc.ShiftOut(Crc.Xor(Crc.Register(d), 0x34, 32), 4));
    ByteDone(d, 0x34, Hex(0xc, 5, 0xf, 1, 0xc, 1, 4, 6));
    d := d + [0x34];
    First5(Crc.Register(d));
    Second5(Crc.ShiftOut(Crc.Xor(Crc.Register(d), 0x35, 32), 4));
    ByteDone(d, 0x35, Hex(3, 0xe, 5, 0xc, 0xa, 0, 4, 3));
    d := d + [0x35];
    First6(Crc.Register(d));
    Second6(Crc.ShiftOut(Crc.Xor(Crc.Register(d), 0x36, 32), 4));
    ByteDone(d, 0x36, Hex(0xe, 9, 0xc, 2, 0xd, 8, 6, 0xf));
    d := d + [0x36];
    First7(Crc.Register(d));
    Second7(Crc.ShiftOut(Crc.Xor(Crc.Register(d), 0x37, 32), 4));
    ByteDone(d, 0x37, Hex(0, 6, 6, 9, 0xc, 0xf, 0xf, 0xa));
    d := d + [0x37];
    First8(Crc.Register(d));
    Second8(Crc.ShiftOut(Crc.Xor(Crc.Register(d), 0x38, 32), 4));
    ByteDone(d, 0x38, Hex(0, 5, 5, 2, 0xf, 1, 5, 6));
    d := d + [0x38];
    First9(Crc.Register(d));
    Second9(Crc.ShiftOut(Crc.Xor(Crc.Register(d), 0x39, 32), 4));
    ByteDone(d, 0x39, Hex(9, 0xd, 6, 0xc, 0xb, 0, 4, 3));
    d := d + [0x39];
    assert d == [0x31, 0x32, 0x33, 0x34, 0x35, 0x36, 0x37, 0x38, 0x39];
    Complemented(Hex(9, 0xd, 6, 0xc, 0xb, 0, 4, 3), d);
  }

  lemma {:induction false} Opposite(w: Word)
    requires w == Hex(9, 0xd, 6, 0xc, 0xb, 0, 4, 3)
    ensures w.Plus(Hex(0xF, 0xF, 0xF, 0xF, 0xF, 0xF, 0xF, 0xF)) == Hex(6, 2, 9, 3, 4, 0xf, 0xb, 0xc)
  {
  }

  lemma {:induction false} Complemented(w: Word, data: seq<byte>)
    requires w == Hex(9, 0xd, 6, 0xc, 0xb, 0, 4, 3) && Holds32(w, Crc.Register(data))
    ensures Crc.Crc32(data) == 0xCBF4_3926
  {
    hide Crc.Register, Crc.Xor, Bits, Pow2, Added, Hex;
    Widths();
    var ones := Hex(0xF, 0xF, 0xF, 0xF, 0xF, 0xF, 0xF, 0xF);
    FlatHex(0xF, 0xF, 0xF, 0xF, 0xF, 0xF, 0xF, 0xF);
    FlatPlus(w, ones);
    XorBits(Crc.Register(data), 0xFFFF_FFFF, 32);
    Opposite(w);
    FlatHex(6, 2, 9, 3, 4, 0xf, 0xb, 0xc);
    NumberOfBits(Crc.Crc32(data), 32);
    NumberOfBits(0xCBF4_3926, 32);
  }
}
