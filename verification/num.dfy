/** Fixed-width integers tagged with a byte order (the `u16be`, `i32le`, ... wrappers).
    A wrapper stores its value already in the target byte order, so it IS its byte
    array: `from_bytes`/`to_bytes` are the `Wrapped` constructor and its `bytes`
    field, while `from_uN`/`to_uN` (and the matching `From` conversions) are
    `FromNative`/`ToNative`. */
module Num {

  type byte = x: nat | x < 256
  type u16 = x: nat | x < 0x1_0000
  type u32 = x: nat | x < 0x1_0000_0000

  function Pow256(n: nat): (p: nat)
    ensures p >= 1
  {
    if n == 0 then 1 else 256 * Pow256(n - 1)
  }

  /** The n-byte big-endian array of v, most significant byte first (v taken modulo 256^n). */
  function BeBytes(v: nat, n: nat): (b: seq<byte>)
    ensures |b| == n
  {
    if n == 0 then [] else BeBytes(v / 256, n - 1) + [v % 256]
  }

  /** The number a big-endian byte array denotes. */
  function BeValue(b: seq<byte>): (v: nat)
    ensures v < Pow256(|b|)
  {
    if |b| == 0 then 0 else BeValue(b[..|b| - 1]) * 256 + b[|b| - 1] as nat
  }

  function Reverse<T>(s: seq<T>): (r: seq<T>)
    ensures |r| == |s|
    ensures forall i :: 0 <= i < |s| ==> r[i] == s[|s| - 1 - i]
  {
    if |s| == 0 then [] else [s[|s| - 1]] + Reverse(s[..|s| - 1])
  }

  /** The n-byte little-endian array of v, least significant byte first. */
  function LeBytes(v: nat, n: nat): (b: seq<byte>)
    ensures |b| == n
    ensures v < Pow256(n) ==> LeValue(b) == v
  {
    var b := Reverse(BeBytes(v, n));
    if v < Pow256(n) then
      BeBytesValue(v, n);
      ReverseReverse(BeBytes(v, n));
      b
    else
      b
  }

  function LeValue(b: seq<byte>): (v: nat)
    ensures v < Pow256(|b|)
  {
    BeValue(Reverse(b))
  }

  lemma ReverseReverse<T>(s: seq<T>)
    ensures Reverse(Reverse(s)) == s
  {
  }

  lemma {:induction false} BeBytesValue(v: nat, n: nat)
    requires v < Pow256(n)
    ensures BeValue(BeBytes(v, n)) == v
  {
    if n > 0 {
      var b := BeBytes(v, n);
      var q, r := v / 256, v % 256;
      assert v == q * 256 + r;
      assert q < Pow256(n - 1);
      assert b == BeBytes(q, n - 1) + [r];
      assert b[..n - 1] == BeBytes(q, n - 1);
      BeBytesValue(q, n - 1);
    }
  }

  lemma {:induction false} BeValueBytes(b: seq<byte>)
    ensures BeBytes(BeValue(b), |b|) == b
  {
    if |b| > 0 {
      var p, d := b[..|b| - 1], b[|b| - 1];
      var v := BeValue(b);
      assert v / 256 == BeValue(p) && v % 256 == d as nat;
      BeValueBytes(p);
      assert b == p + [d];
    }
  }

  datatype Width = W16 | W32 | W64 | W128 {
    /** Size of the wrapper's byte array: the same as the integer's width. */
    function Bytes(): nat {
      match this
      case W16 => 2
      case W32 => 4
      case W64 => 8
      case W128 => 16
    }
  }

  datatype Endian = BigEndian | LittleEndian

  /** One of the sixteen wrappers: u16be, u16le, i16be, ..., i128le. */
  datatype Kind = Kind(width: Width, signed: bool, endian: Endian) {

    function Modulus(): nat {
      Pow256(width.Bytes())
    }

    /** Bound of the signed range: 2^(8 * bytes - 1). */
    function Half(): nat {
      128 * Pow256(width.Bytes() - 1)
    }

    /** The values of the native integer type the wrapper stands for. */
    predicate InRange(v: int) {
      if signed then -(Half() as int) <= v < Half() else 0 <= v < Modulus()
    }
  }

  const U16BE := Kind(W16, false, BigEndian)
  const U32BE := Kind(W32, false, BigEndian)
  const U64BE := Kind(W64, false, BigEndian)

  datatype Wrapped = Wrapped(kind: Kind, bytes: seq<byte>) {
    predicate Valid() {
      |bytes| == kind.width.Bytes()
    }
  }

  /** Two's-complement image of an in-range value (the bit pattern as an unsigned number). */
  function TwosComplement(k: Kind, v: int): (u: nat)
    requires k.InRange(v)
    ensures u < k.Modulus()
  {
    if v < 0 then v + k.Modulus() else v
  }

  function FromTwosComplement(k: Kind, u: nat): (v: int)
    requires u < k.Modulus()
    ensures k.InRange(v)
  {
    assert k.Modulus() == 2 * k.Half();
    if k.signed && u >= k.Half() then u - k.Modulus() else u
  }

  /** `from_uN` / `from_iN`: store the value in the wrapper's byte order. */
  function FromNative(k: Kind, v: int): (w: Wrapped)
    requires k.InRange(v)
    ensures w.Valid() && w.kind == k
  {
    var u := TwosComplement(k, v);
    match k.endian
    case BigEndian => Wrapped(k, BeBytes(u, k.width.Bytes()))
    case LittleEndian => Wrapped(k, LeBytes(u, k.width.Bytes()))
  }

  /** `to_uN` / `to_iN`: read the value back in the wrapper's byte order. */
  function ToNative(w: Wrapped): (v: int)
    requires w.Valid()
    ensures w.kind.InRange(v)
  {
    var u := match w.kind.endian
      case BigEndian => BeValue(w.bytes)
      case LittleEndian => LeValue(w.bytes);
    FromTwosComplement(w.kind, u)
  }

  lemma TwosComplementInverse(k: Kind, u: nat)
    requires u < k.Modulus()
    ensures TwosComplement(k, FromTwosComplement(k, u)) == u
  {
  }

  /** `to_uN(from_uN(v)) == v` for every width, signedness and byte order. */
  lemma NativeRoundTrip(k: Kind, v: int)
    requires k.InRange(v)
    ensures ToNative(FromNative(k, v)) == v
  {
    var u, n := TwosComplement(k, v), k.width.Bytes();
    BeBytesValue(u, n);
    if k.endian == LittleEndian {
      ReverseReverse(BeBytes(u, n));
    }
  }

  /** Every byte array of the right length is the image of exactly one value:
      going through the native integer gives back the same bytes. */
  lemma BytesRoundTrip(w: Wrapped)
    requires w.Valid()
    ensures FromNative(w.kind, ToNative(w)) == w
  {
    var k, n := w.kind, w.kind.width.Bytes();
    match k.endian
    case BigEndian =>
      var u := BeValue(w.bytes);
      TwosComplementInverse(k, u);
      BeValueBytes(w.bytes);
    case LittleEndian =>
      var u := BeValue(Reverse(w.bytes));
      TwosComplementInverse(k, u);
      BeValueBytes(Reverse(w.bytes));
      ReverseReverse(w.bytes);
  }

  /** `i32be::from(0x11223344).to_bytes()` is the big-endian byte array of the value. */
  lemma BigEndianBytesExample()
    ensures FromNative(Kind(W32, true, BigEndian), 0x11223344).bytes == [0x11, 0x22, 0x33, 0x44]
  {
    assert BeBytes(0x11, 1) == [0x11];
    assert BeBytes(0x1122, 2) == [0x11, 0x22];
    assert BeBytes(0x112233, 3) == [0x11, 0x22, 0x33];
    assert BeBytes(0x11223344, 4) == [0x11, 0x22, 0x33, 0x44];
  }

  /** `i32le::from(0x11223344).to_bytes()` is the little-endian byte array of the value. */
  lemma LittleEndianBytesExample()
    ensures FromNative(Kind(W32, true, LittleEndian), 0x11223344).bytes == [0x44, 0x33, 0x22, 0x11]
  {
    BigEndianBytesExample();
  }

  /** Negative values are stored in two's complement. */
  lemma NegativeBytesExample()
    ensures FromNative(Kind(W16, true, BigEndian), -2).bytes == [0xFF, 0xFE]
  {
    assert Kind(W16, true, BigEndian).Modulus() == 0x1_0000;
    assert BeBytes(0xFF, 1) == [0xFF];
    assert BeBytes(0xFFFE, 2) == [0xFF, 0xFE];
  }

  /** `u16be::from_u16(v).to_bytes()`: the two bytes the FINS codecs write for a u16. */
  function U16Bytes(v: u16): (b: seq<byte>)
    ensures |b| == 2
    ensures BeValue(b) == v
  {
    assert Pow256(2) == 0x1_0000;
    BeBytesValue(v, 2);
    FromNative(U16BE, v).bytes
  }

  /** `u16be::from_bytes(b).to_u16()`. */
  function U16Of(b: seq<byte>): (v: u16)
    requires |b| == 2
    ensures BeBytes(v, 2) == b
  {
    BeValueBytes(b);
    ToNative(Wrapped(U16BE, b))
  }

  function U32Bytes(v: u32): (b: seq<byte>)
    ensures |b| == 4
    ensures BeValue(b) == v
  {
    assert Pow256(4) == 0x1_0000_0000;
    BeBytesValue(v, 4);
    FromNative(U32BE, v).bytes
  }

  function U32Of(b: seq<byte>): (v: u32)
    requires |b| == 4
    ensures BeBytes(v, 4) == b
  {
    BeValueBytes(b);
    ToNative(Wrapped(U32BE, b))
  }

  lemma U16RoundTrip(v: u16)
    ensures U16Of(U16Bytes(v)) == v
  {
    NativeRoundTrip(U16BE, v);
  }

  lemma U16BytesRoundTrip(b: seq<byte>)
    requires |b| == 2
    ensures U16Bytes(U16Of(b)) == b
  {
    BytesRoundTrip(Wrapped(U16BE, b));
  }

  lemma U32RoundTrip(v: u32)
    ensures U32Of(U32Bytes(v)) == v
  {
    NativeRoundTrip(U32BE, v);
  }

  lemma U32BytesRoundTrip(b: seq<byte>)
    requires |b| == 4
    ensures U32Bytes(U32Of(b)) == b
  {
    BytesRoundTrip(Wrapped(U32BE, b));
  }

  /** A u16 is written high byte first. */
  lemma U16BytesDigits(v: u16)
    ensures U16Bytes(v) == [v / 256, v % 256]
  {
    assert BeBytes(v / 256, 1) == BeBytes(v / 256 / 256, 0) + [v / 256 % 256];
  }

  /** A u32 below 256 is written as three zero bytes and the value. */
  lemma U32BytesOfSmall(v: nat)
    requires v < 256
    ensures U32Bytes(v) == [0, 0, 0, v]
  {
    assert BeBytes(0, 1) == [0];
    assert BeBytes(0, 2) == [0, 0];
    assert BeBytes(0, 3) == [0, 0, 0];
    assert BeBytes(v, 4) == BeBytes(0, 3) + [v];
  }

  /** The packed record `{ a: u8, b: u16be, c: u64be }`: fields laid end to end. */
  function PackedThing(a: byte, b: Wrapped, c: Wrapped): (r: seq<byte>)
    requires b.Valid() && b.kind == U16BE && c.Valid() && c.kind == U64BE
  {
    [a] + b.bytes + c.bytes
  }

  /** The packed record occupies 11 bytes with its fields at offsets 0, 1 and 3,
      and each field reads back from its offset unchanged. */
  lemma PackedThingLayout(a: byte, b: Wrapped, c: Wrapped)
    requires b.Valid() && b.kind == U16BE && c.Valid() && c.kind == U64BE
    ensures |PackedThing(a, b, c)| == 11
    ensures PackedThing(a, b, c)[0] == a
    ensures ToNative(Wrapped(U16BE, PackedThing(a, b, c)[1..3])) == ToNative(b)
    ensures ToNative(Wrapped(U64BE, PackedThing(a, b, c)[3..11])) == ToNative(c)
  {
    var r := PackedThing(a, b, c);
    assert r[1..3] == b.bytes;
    assert r[3..11] == c.bytes;
  }
}
