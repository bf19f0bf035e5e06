/**
 The primitive types of the wire protocol, the values they hold and their
 big-endian encoding (vtelem/enums/primitive.py, vtelem/classes/byte_buffer.py).

 A floating-point value is an opaque pattern of four or eight bytes.
 */
module Primitives {
  import opened Wrappers

  type byte = b: int | 0 <= b < 256

  datatype Primitive =
    | Boolean
    | Int8 | UInt8 | Int16 | UInt16 | Int32 | UInt32 | Int64 | UInt64
    | Float | Double

  datatype Value = Flag(b: bool) | Number(i: int) | Pattern(bits: seq<byte>)

  function Size(p: Primitive): (n: nat)
    ensures 1 <= n <= 8
  {
    match p
    case Boolean | Int8 | UInt8 => 1
    case Int16 | UInt16 => 2
    case Int32 | UInt32 | Float => 4
    case Int64 | UInt64 | Double => 8
  }

  predicate IsInteger(p: Primitive) {
    p != Boolean && p != Float && p != Double
  }

  predicate IsSigned(p: Primitive) {
    p == Int8 || p == Int16 || p == Int32 || p == Int64
  }

  function Pow2(n: nat): (r: nat)
    ensures r >= 1
  {
    if n == 0 then 1 else 2 * Pow2(n - 1)
  }

  /** The smallest and largest integer of a given width and signedness. */
  function IntegerBounds(byteCount: nat, signed: bool): (int, int)
    requires byteCount > 0
  {
    var least := if !signed then 0 else -1 * Pow2(byteCount * 8 - 1);
    var width := if !signed then 8 * byteCount else 8 * byteCount - 1;
    (least, Pow2(width) - 1)
  }

  predicate IntegerCanHold(p: Primitive, v: int) {
    var (least, greatest) := IntegerBounds(Size(p), IsSigned(p));
    least <= v <= greatest
  }

  function MaxOf(p: Primitive): int {
    IntegerBounds(Size(p), IsSigned(p)).1
  }

  /** `v` is a value that a primitive of type `p` can store. */
  predicate Holds(p: Primitive, v: Value) {
    match v
    case Flag(_) => p == Boolean
    case Number(i) => IsInteger(p) && IntegerCanHold(p, i)
    case Pattern(bits) => (p == Float || p == Double) && |bits| == Size(p)
  }

  function DefaultValue(p: Primitive): (v: Value)
    ensures Holds(p, v)
  {
    if p == Boolean then Flag(false)
    else if IsInteger(p) then Number(0)
    else Pattern(seq(Size(p), _ => 0))
  }

  /**
   What assigning `v` to a primitive of type `p` stores, if it is accepted at
   all. A boolean is accepted by every integer primitive and stored as 0 or 1.
   */
  function Accept(p: Primitive, v: Value): (r: Option<Value>)
    ensures r.Some? ==> Holds(p, r.value)
    ensures Holds(p, v) ==> r == Some(v)
    ensures r.None? <==> !Holds(p, v) && !(v.Flag? && IsInteger(p))
  {
    if v.Flag? && IsInteger(p) then
      UnitHeld(p);
      Some(Number(if v.b then 1 else 0))
    else if Holds(p, v) then Some(v)
    else None
  }

  lemma {:induction false} UnitHeld(p: Primitive)
    requires IsInteger(p)
    ensures IntegerCanHold(p, 0) && IntegerCanHold(p, 1)
  {
    var width := if IsSigned(p) then 8 * Size(p) - 1 else 8 * Size(p);
    assert Pow2(width) == 2 * Pow2(width - 1);
  }

  lemma {:induction false} Pow2Zero()
    ensures Pow2(0) == 1
  {
  }

  lemma {:induction false} Widths()
    ensures Pow2(8) == 256 && Pow2(16) == 0x1_0000 && Pow2(32) == 0x1_0000_0000
    ensures MaxOf(UInt8) == 255 && MaxOf(UInt16) == 65535 && MaxOf(UInt32) == 0xFFFF_FFFF
  {
    hide Pow2;
    Pow2Zero();
    Pow2Byte(0);
    Pow2Byte(1);
    Pow2Byte(2);
    Pow2Byte(3);
  }

  // ---------------------------------------------------------------------
  // Big-endian integers
  // ---------------------------------------------------------------------

  function ToBigEndian(v: nat, n: nat): (s: seq<byte>)
    ensures |s| == n
  {
    if n == 0 then [] else ToBigEndian(v / 256, n - 1) + [v % 256]
  }

  function FromBigEndian(s: seq<byte>): nat {
    if s == [] then 0 else 256 * FromBigEndian(s[..|s| - 1]) + s[|s| - 1]
  }

  lemma {:induction false} FromToBigEndian(v: nat, n: nat)
    requires v < Pow2(8 * n)
    ensures FromBigEndian(ToBigEndian(v, n)) == v
  {
    if n > 0 {
      Pow2Byte(n - 1);
      FromToBigEndian(v / 256, n - 1);
      var s := ToBigEndian(v, n);
      assert s[..n - 1] == ToBigEndian(v / 256, n - 1);
    }
  }

  lemma {:induction false} ToFromBigEndian(s: seq<byte>)
    ensures FromBigEndian(s) < Pow2(8 * |s|)
    ensures ToBigEndian(FromBigEndian(s), |s|) == s
  {
    if s != [] {
      var front := s[..|s| - 1];
      Pow2Byte(|front|);
      ToFromBigEndian(front);
      assert FromBigEndian(s) / 256 == FromBigEndian(front);
    }
  }

  lemma {:induction false} Pow2Byte(n: nat)
    ensures Pow2(8 * (n + 1)) == 256 * Pow2(8 * n)
  {
    var k := 8 * n;
    assert Pow2(k + 8) == 2 * Pow2(k + 7) == 4 * Pow2(k + 6) == 8 * Pow2(k + 5) == 16 * Pow2(k + 4);
    assert Pow2(k + 4) == 2 * Pow2(k + 3) == 4 * Pow2(k + 2) == 8 * Pow2(k + 1) == 16 * Pow2(k);
  }

  /** A negative integer is written in two's complement. */
  function EncodeInteger(i: int, n: nat): (s: seq<byte>)
    requires i + Pow2(8 * n) >= 0
    ensures |s| == n
  {
    ToBigEndian(if i < 0 then i + Pow2(8 * n) else i, n)
  }

  function DecodeInteger(s: seq<byte>, signed: bool): int
    requires s != []
  {
    var u := FromBigEndian(s);
    if signed && u >= Pow2(8 * |s| - 1) then u - Pow2(8 * |s|) else u
  }

  lemma {:induction false} DecodeEncodeInteger(i: int, n: nat, signed: bool)
    requires n > 0 && IntegerBounds(n, signed).0 <= i <= IntegerBounds(n, signed).1
    ensures i + Pow2(8 * n) >= 0 && DecodeInteger(EncodeInteger(i, n), signed) == i
  {
    Pow2Half(8 * n);
    hide Pow2, ToBigEndian, FromBigEndian;
    FromToBigEndian(if i < 0 then i + Pow2(8 * n) else i, n);
  }

  lemma {:induction false} EncodeDecodeInteger(s: seq<byte>, signed: bool)
    requires s != []
    ensures var i := DecodeInteger(s, signed);
            && IntegerBounds(|s|, signed).0 <= i <= IntegerBounds(|s|, signed).1
            && i + Pow2(8 * |s|) >= 0 && EncodeInteger(i, |s|) == s
  {
    hide Pow2, ToBigEndian, FromBigEndian;
    Pow2Half(8 * |s|);
    ToFromBigEndian(s);
    var i, u := DecodeInteger(s, signed), FromBigEndian(s);
    assert u == if i < 0 then i + Pow2(8 * |s|) else i;
  }

  lemma {:induction false} Pow2Half(n: nat)
    requires n > 0
    ensures Pow2(n) == 2 * Pow2(n - 1)
  {
  }

  // ---------------------------------------------------------------------
  // Primitives as bytes
  // ---------------------------------------------------------------------

  /** Network byte order; negative integers are in two's complement. */
  function Encode(p: Primitive, v: Value): (s: seq<byte>)
    requires Holds(p, v)
    ensures |s| == Size(p)
  {
    match v
    case Flag(b) => [if b then 1 else 0]
    case Number(i) => DecodeEncodeInteger(i, Size(p), IsSigned(p)); EncodeInteger(i, Size(p))
    case Pattern(bits) => bits
  }

  /** Any byte but zero reads as true. */
  function Decode(p: Primitive, s: seq<byte>): (v: Value)
    requires |s| == Size(p)
  {
    if p == Boolean then Flag(s[0] != 0)
    else if IsInteger(p) then Number(DecodeInteger(s, IsSigned(p)))
    else Pattern(s)
  }

  /** Writing a value and reading it back yields that value. */
  lemma {:induction false} DecodeEncode(p: Primitive, v: Value)
    requires Holds(p, v)
    ensures Decode(p, Encode(p, v)) == v
  {
    if v.Number? {
      hide IntegerBounds, EncodeInteger, DecodeInteger;
      DecodeEncodeInteger(v.i, Size(p), IsSigned(p));
    }
  }

  /** Whatever is read can be stored by the primitive it was read as. */
  lemma {:induction false} DecodeHolds(p: Primitive, s: seq<byte>)
    requires |s| == Size(p)
    ensures Holds(p, Decode(p, s))
  {
    hide IntegerBounds, DecodeInteger;
    EncodeDecodeInteger(s, IsSigned(p));
  }

  /** Reading bytes and writing them back restores them, except for a boolean byte above one. */
  lemma {:induction false} EncodeDecode(p: Primitive, s: seq<byte>)
    requires |s| == Size(p)
    ensures Holds(p, Decode(p, s))
    ensures Encode(p, Decode(p, s)) == s <==> p != Boolean || s[0] <= 1
  {
    hide IntegerBounds, EncodeInteger, DecodeInteger;
    DecodeHolds(p, s);
    EncodeDecodeInteger(s, IsSigned(p));
  }

  /** The integer bounds are exactly the integers that some byte pattern of that width denotes. */
  lemma {:induction false} BoundsAreExact(p: Primitive, i: int)
    requires IsInteger(p)
    ensures IntegerCanHold(p, i) <==> exists s: seq<byte> :: |s| == Size(p) && Decode(p, s) == Number(i)
  {
    hide IntegerBounds, EncodeInteger, DecodeInteger;
    if IntegerCanHold(p, i) {
      DecodeEncode(p, Number(i));
      assert |Encode(p, Number(i))| == Size(p);
    }
    forall s: seq<byte> | |s| == Size(p) && Decode(p, s) == Number(i)
      ensures IntegerCanHold(p, i)
    {
      DecodeHolds(p, s);
    }
  }

  // ---------------------------------------------------------------------
  // Which byte is where
  // ---------------------------------------------------------------------

  lemma {:induction false} Product(x: nat, y: nat, d: nat)
    requires x < y
    ensures d * x + d <= d * y
    decreases y
  {
    assert d * y == d * (y - 1) + d;
    if x < y - 1 {
      Product(x, y - 1, d);
    }
  }

  lemma {:induction false} AddMultiple(i: nat, d: nat, t: nat)
    requires d > 0
    ensures (i + d * t) / d == i / d + t
  {
    var q, r := i / d, i % d;
    assert i == d * q + r;
    assert d * q + d * t == d * (q + t);
    QuotientIs(i + d * t, d, q + t, r);
  }

  /** A quotient is what leaves a remainder. */
  lemma {:induction false} QuotientIs(v: nat, d: nat, q: nat, r: nat)
    requires v == d * q + r && r < d
    ensures v / d == q
  {
    var w := v / d;
    assert v == d * w + v % d;
    if w < q {
      Product(w, q, d);
    } else if q < w {
      Product(q, w, d);
    }
  }

  lemma {:induction false} DivideTwice(v: nat, d: nat)
    requires d > 0
    ensures (v / 256) / d == v / (256 * d)
  {
    var x := v / 256;
    var q, s := x / d, x % d;
    assert x == d * q + s;
    assert v == 256 * (d * q) + (256 * s + v % 256);
    assert 256 * (d * q) == (256 * d) * q;
    QuotientIs(v, 256 * d, q, 256 * s + v % 256);
  }

  lemma {:induction false} ToBigEndianAt(v: nat, n: nat, k: nat)
    requires k < n
    ensures ToBigEndian(v, n)[k] == (v / Pow2(8 * (n - 1 - k))) % 256
  {
    if k == n - 1 {
      Pow2Zero();
    } else {
      ToBigEndianAt(v / 256, n - 1, k);
      Pow2Byte(n - 2 - k);
      DivideTwice(v, Pow2(8 * (n - 2 - k)));
    }
  }

  lemma {:induction false} Pow2Sum(a: nat, b: nat)
    ensures Pow2(a + b) == Pow2(a) * Pow2(b)
  {
    if a > 0 {
      Pow2Sum(a - 1, b);
      assert 2 * (Pow2(a - 1) * Pow2(b)) == (2 * Pow2(a - 1)) * Pow2(b);
    }
  }

  /** Adding a whole turn changes no byte of a number. */
  lemma {:induction false} TurnInvisible(i: nat, m: nat, k: nat)
    ensures ((i + Pow2(8 * (m + 1 + k))) / Pow2(8 * m)) % 256 == (i / Pow2(8 * m)) % 256
  {
    hide Pow2;
    TurnPower(m, k);
    TurnOf(i, Pow2(8 * m), Pow2(8 * k));
  }

  lemma {:induction false} TurnPower(m: nat, k: nat)
    ensures Pow2(8 * (m + 1 + k)) == Pow2(8 * m) * (256 * Pow2(8 * k))
  {
    hide Pow2;
    Pow2Sum(8 * m, 8 * (k + 1));
    Pow2Byte(k);
    assert 8 * m + 8 * (k + 1) == 8 * (m + 1 + k);
  }

  lemma {:induction false} TurnOf(i: nat, d: nat, t: nat)
    requires d > 0
    ensures ((i + d * (256 * t)) / d) % 256 == (i / d) % 256
  {
    AddMultiple(i, d, 256 * t);
    LastByte(i / d, t);
  }

  lemma {:induction false} LastByte(x: nat, y: nat)
    ensures (x + 256 * y) % 256 == x % 256
  {
  }

  /** The bytes of an integer, from the highest down; a negative one is read as that much below a whole turn. */
  lemma {:induction false} EncodeAt(p: Primitive, i: int, k: nat)
    requires IsInteger(p) && IntegerCanHold(p, i) && k < Size(p)
    ensures i + Pow2(8 * Size(p)) >= 0
    ensures Encode(p, Number(i))[k] == ((i + Pow2(8 * Size(p))) / Pow2(8 * (Size(p) - 1 - k))) % 256
  {
    hide IntegerBounds, ToBigEndian, Pow2;
    var n := Size(p);
    DecodeEncodeInteger(i, n, IsSigned(p));
    if i < 0 {
      ToBigEndianAt(i + Pow2(8 * n), n, k);
    } else {
      ToBigEndianAt(i, n, k);
      TurnInvisible(i, n - 1 - k, k);
      assert n - 1 - k + 1 + k == n;
    }
  }

  /** A boolean is one byte, one for true and zero for false, and any other byte reads as true. */
  lemma {:induction false} BooleanBytes(b: bool, s: seq<byte>)
    requires |s| == 1
    ensures Encode(Boolean, Flag(b)) == [if b then 1 else 0]
    ensures Decode(Boolean, s) == Flag(s != [0])
  {
  }

  /** The bytes of a floating-point value are its pattern. */
  lemma {:induction false} PatternBytes(p: Primitive, bits: seq<byte>)
    requires (p == Float || p == Double) && |bits| == Size(p)
    ensures Encode(p, Pattern(bits)) == bits && Decode(p, bits) == Pattern(bits)
  {
  }

  lemma {:induction false} ZeroBytes(n: nat)
    ensures ToBigEndian(0, n) == seq(n, _ => 0)
  {
    if n > 0 {
      ZeroBytes(n - 1);
    }
  }

  /** The default of every type is the value whose bytes are all zero: false, nought, and nought again. */
  lemma {:induction false} DefaultIsZero(p: Primitive)
    ensures Encode(p, DefaultValue(p)) == seq(Size(p), _ => 0)
    ensures forall v :: Holds(p, v) && Encode(p, v) == seq(Size(p), _ => 0) ==> v == DefaultValue(p)
  {
    hide IntegerBounds, ToBigEndian;
    ZeroBytes(Size(p));
    DecodeEncode(p, DefaultValue(p));
    forall v | Holds(p, v) && Encode(p, v) == seq(Size(p), _ => 0)
      ensures v == DefaultValue(p)
    {
      DecodeEncode(p, v);
    }
  }

  /** An integer takes a boolean as one or nought; nothing else takes a value of another kind. */
  lemma {:induction false} AcceptsBooleans(p: Primitive, b: bool)
    ensures IsInteger(p) ==> Accept(p, Flag(b)) == Some(Number(if b then 1 else 0))
    ensures p == Float || p == Double ==> Accept(p, Flag(b)) == None
    ensures forall i :: !IsInteger(p) ==> Accept(p, Number(i)) == None
  {
  }

  /** The sizes and the ranges of all types. */
  lemma {:induction false} PrimitiveTable()
    ensures Size(Boolean) == 1 && Size(Float) == 4 && Size(Double) == 8
    ensures forall i :: IntegerCanHold(Int8, i) <==> -128 <= i <= 127
    ensures forall i :: IntegerCanHold(UInt8, i) <==> 0 <= i <= 255
    ensures forall i :: IntegerCanHold(Int16, i) <==> -32768 <= i <= 32767
    ensures forall i :: IntegerCanHold(UInt16, i) <==> 0 <= i <= 65535
    ensures forall i :: IntegerCanHold(Int32, i) <==> -0x8000_0000 <= i <= 0x7FFF_FFFF
    ensures forall i :: IntegerCanHold(UInt32, i) <==> 0 <= i <= 0xFFFF_FFFF
    ensures forall i :: IntegerCanHold(Int64, i) <==> -0x8000_0000_0000_0000 <= i <= 0x7FFF_FFFF_FFFF_FFFF
    ensures forall i :: IntegerCanHold(UInt64, i) <==> 0 <= i <= 0xFFFF_FFFF_FFFF_FFFF
  {
    hide Pow2;
    Widths();
    Pow2Sum(32, 32);
    Pow2Half(8);
    Pow2Half(16);
    Pow2Half(32);
    Pow2Half(64);
  }
}
