/** The two number renderings fins-rust's formatting uses: Rust's `{}` for an
    unsigned integer (plain decimal) and `{:02X}` for a byte (two upper-case hex digits). */
module Text {
  import opened Num

  predicate IsDigit(c: char) {
    '0' <= c <= '9'
  }

  predicate AllDigits(s: string) {
    forall i :: 0 <= i < |s| ==> IsDigit(s[i])
  }

  function DigitChar(d: nat): (c: char)
    requires d < 10
    ensures IsDigit(c)
  {
    ('0' as int + d) as char
  }

  function DigitValue(c: char): (d: nat)
    requires IsDigit(c)
    ensures d < 10 && DigitChar(d) == c
  {
    c as int - '0' as int
  }

  /** `format!("{}", n)`: the shortest decimal numeral of n. */
  function Decimal(n: nat): (s: string)
    ensures |s| >= 1 && AllDigits(s)
    ensures s[0] == '0' <==> n == 0
    ensures |s| == 1 || s[0] != '0'
  {
    if n < 10 then [DigitChar(n)] else Decimal(n / 10) + [DigitChar(n % 10)]
  }

  function DecimalValue(s: string): nat
    requires AllDigits(s)
  {
    if |s| == 0 then 0 else DecimalValue(s[..|s| - 1]) * 10 + DigitValue(s[|s| - 1])
  }

  /** The numeral reads back as the number it was made from. */
  lemma {:induction false} DecimalRoundTrip(n: nat)
    ensures DecimalValue(Decimal(n)) == n
  {
    if n >= 10 {
      var s := Decimal(n);
      assert s[..|s| - 1] == Decimal(n / 10);
      DecimalRoundTrip(n / 10);
    }
  }

  lemma DecimalInjective(m: nat, n: nat)
    requires Decimal(m) == Decimal(n)
    ensures m == n
  {
    DecimalRoundTrip(m);
    DecimalRoundTrip(n);
  }

  /** A digit of `{:X}`: 0-9 or an upper-case letter A-F. */
  predicate IsUpperHex(c: char) {
    '0' <= c <= '9' || 'A' <= c <= 'F'
  }

  /** The value of an upper-case hex digit, read independently of how it was written. */
  function HexValue(c: char): (d: nat)
    requires IsUpperHex(c)
    ensures d < 16
  {
    if '0' <= c <= '9' then c as int - '0' as int else c as int - 'A' as int + 10
  }

  function HexDigit(d: nat): (c: char)
    requires d < 16
    ensures IsUpperHex(c) && HexValue(c) == d
  {
    if d < 10 then ('0' as int + d) as char else ('A' as int + d - 10) as char
  }

  /** `format!("{:02X}", b)`: two upper-case hex digits, high nibble first, that
      read back as the byte. */
  function Hex2(b: byte): (s: string)
    ensures |s| == 2
    ensures IsUpperHex(s[0]) && IsUpperHex(s[1]) && 16 * HexValue(s[0]) + HexValue(s[1]) == b
  {
    [HexDigit(b as nat / 16), HexDigit(b as nat % 16)]
  }

  /** Letters are rendered in upper case, and a small byte keeps its leading zero. */
  lemma Hex2Examples()
    ensures Hex2(0xAB) == "AB"
    ensures Hex2(0x0F) == "0F"
    ensures Hex2(0xFF) == "FF"
  {
  }

  lemma HexDigitInjective(d: nat, e: nat)
    requires d < 16 && e < 16 && HexDigit(d) == HexDigit(e)
    ensures d == e
  {
  }

  lemma NumeralOfPairInjective(x: nat, y: nat)
    requires x < 256 && y < 256
    requires HexDigit(x / 16) == HexDigit(y / 16) && HexDigit(x % 16) == HexDigit(y % 16)
    ensures x == y
  {
    HexDigitInjective(x / 16, y / 16);
    HexDigitInjective(x % 16, y % 16);
  }

  /** Distinct bytes render as distinct pairs of hex digits. */
  lemma Hex2Injective(a: byte, b: byte)
    requires Hex2(a) == Hex2(b)
    ensures a == b
  {
    var x, y := a as nat, b as nat;
    assert Hex2(a)[0] == Hex2(b)[0] && Hex2(a)[1] == Hex2(b)[1];
    NumeralOfPairInjective(x, y);
  }
}
