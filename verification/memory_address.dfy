/** A word or bit address in a PLC memory area: area code, 16-bit offset, bit number. */
module MemoryAddresses {
  import opened Num
  import opened Wrappers
  import opened FinsErrors
  import opened AreaCodes
  import opened FinsLib
  import opened Text

  datatype MemoryAddress = MemoryAddress(areaCode: MemoryAreaCode, offset: u16, bits: byte)

  const RawSize: nat := 4

  /** The packed `RawMemoryAddress`: area code, offset as big-endian u16, bit byte. */
  type RawMemoryAddress = b: seq<byte> | |b| == RawSize witness [0, 0, 0, 0]

  function Serialize(a: MemoryAddress): (raw: RawMemoryAddress)
    ensures raw[0] == AreaCodes.Serialize(a.areaCode)
    ensures U16Of(raw[1..3]) == a.offset
    ensures raw[3] == a.bits
  {
    U16RoundTrip(a.offset);
    var raw := [AreaCodes.Serialize(a.areaCode)] + U16Bytes(a.offset) + [a.bits];
    assert raw[1..3] == U16Bytes(a.offset);
    raw
  }

  /** An unknown area code is returned unchanged; offset and bits are never checked. */
  function Deserialize(raw: RawMemoryAddress): (r: Result<MemoryAddress, Error>)
    ensures AreaCodes.Deserialize(raw[0]).Failure? ==> r == Failure(AreaCodes.Deserialize(raw[0]).error)
    ensures r.Success? <==> raw[0] == RawD
    ensures r.Success? ==> r.value.offset == U16Of(raw[1..3]) && r.value.bits == raw[3]
    ensures r.Success? ==> Serialize(r.value) == raw
  {
    U16BytesRoundTrip(raw[1..3]);
    assert raw == [raw[0]] + raw[1..3] + [raw[3]];
    Trye(AreaCodes.Deserialize(raw[0]),
      (code: MemoryAreaCode) => Success(MemoryAddress(code, U16Of(raw[1..3]), raw[3])))
  }

  /** Every offset and every bit byte survive the round trip. */
  lemma RoundTrip(a: MemoryAddress)
    ensures Deserialize(Serialize(a)) == Success(a)
  {
    var raw := Serialize(a);
    assert Deserialize(raw).Success?;
  }

  /** D100 with no bit set encodes as 82 00 64 00. */
  lemma SerializeExample()
    ensures Serialize(MemoryAddress(D, 100, 0)) == [0x82, 0x00, 0x64, 0x00]
  {
    U16BytesDigits(100);
  }

  /** D1500, the address the client reads. */
  lemma SerializeExampleD1500()
    ensures Serialize(MemoryAddress(D, 1500, 0)) == [0x82, 0x05, 0xDC, 0x00]
  {
    U16BytesDigits(1500);
  }

  /** The `{:?}` text: area name and offset, then `.bits` when bits is not zero. */
  function DebugText(a: MemoryAddress): (s: string)
    ensures var head := Name(a.areaCode) + Decimal(a.offset);
            |s| >= |head| && s[..|head|] == head && (|s| == |head| <==> a.bits == 0)
    ensures var head := Name(a.areaCode) + Decimal(a.offset);
            a.bits != 0 ==> s[|head|] == '.' && AllDigits(s[|head| + 1..])
                            && DecimalValue(s[|head| + 1..]) == a.bits as nat
  {
    var head := Name(a.areaCode) + Decimal(a.offset);
    if a.bits == 0 then head
    else
      DecimalRoundTrip(a.bits as nat);
      var s := head + "." + Decimal(a.bits as nat);
      assert s[|head| + 1..] == Decimal(a.bits as nat);
      s
  }

  lemma DebugTextExamples()
    ensures DebugText(MemoryAddress(D, 100, 0)) == "D100"
    ensures DebugText(MemoryAddress(D, 100, 3)) == "D100.3"
  {
    assert Decimal(100) == "100" by {
      assert Decimal(1) == "1";
      assert Decimal(10) == "10";
    }
    assert Decimal(3) == "3";
  }

  predicate NoDot(s: string) {
    forall i :: 0 <= i < |s| ==> s[i] != '.'
  }

  lemma HeadHasNoDot(a: MemoryAddress)
    ensures NoDot(Name(a.areaCode) + Decimal(a.offset))
  {
    var d := Decimal(a.offset);
    assert forall i :: 0 <= i < |d| ==> IsDigit(d[i]);
  }

  /** A dot appears exactly when the bit number is not zero. */
  lemma DebugTextDot(a: MemoryAddress)
    ensures a.bits == 0 <==> NoDot(DebugText(a))
  {
    HeadHasNoDot(a);
    var head := Name(a.areaCode) + Decimal(a.offset);
    if a.bits != 0 {
      assert DebugText(a)[|head|] == '.';
    }
  }

  /** Distinct addresses never render alike. */
  lemma DebugTextInjective(a: MemoryAddress, b: MemoryAddress)
    requires DebugText(a) == DebugText(b)
    ensures a == b
  {
    var ha, hb := Name(a.areaCode) + Decimal(a.offset), Name(b.areaCode) + Decimal(b.offset);
    HeadHasNoDot(a);
    HeadHasNoDot(b);
    DebugTextDot(a);
    DebugTextDot(b);
    var s := DebugText(a);
    if a.bits == 0 {
      assert ha == hb;
    } else {
      assert ha == s[..|ha|] == hb;
      assert Decimal(a.bits as nat) == s[|ha| + 1..] == Decimal(b.bits as nat);
      DecimalInjective(a.bits as nat, b.bits as nat);
    }
    assert Decimal(a.offset) == ha[1..] == hb[1..] == Decimal(b.offset);
    DecimalInjective(a.offset, b.offset);
  }
}
