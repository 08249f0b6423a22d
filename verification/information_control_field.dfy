/** The Information Control Field: one byte giving the message direction and whether
    a response is wanted. */
module Icf {
  import opened Num
  import opened Wrappers
  import opened FinsErrors

  datatype InformationControlField =
    | RequestWithResponse
    | RequestWithoutResponse
    | ResponseWithResponse
    | ResponseWithoutResponse
  {
    predicate IsRequest() {
      RequestWithResponse? || RequestWithoutResponse?
    }

    predicate RequiresResponse() {
      RequestWithResponse? || ResponseWithResponse?
    }
  }

  /** Bit `w` of `v`, for a power of two `w`. */
  predicate Bit(v: byte, w: nat)
    requires w > 0
  {
    (v / w) % 2 == 1
  }

  predicate AndBit(v: byte, mask: byte, value: byte, w: nat)
    requires w > 0
  {
    Bit(value, w) <==> Bit(v, w) && Bit(mask, w)
  }

  /** `v & mask == value`, compared bit by bit over the eight bits of a byte. */
  predicate AndEquals(v: byte, mask: byte, value: byte) {
    AndBit(v, mask, value, 0x01) && AndBit(v, mask, value, 0x02) && AndBit(v, mask, value, 0x04)
    && AndBit(v, mask, value, 0x08) && AndBit(v, mask, value, 0x10) && AndBit(v, mask, value, 0x20)
    && AndBit(v, mask, value, 0x40) && AndBit(v, mask, value, 0x80)
  }

  /** `test_bits_u8`: `v & b == b`, that is, every bit set in `b` is set in `v`. */
  function TestBits(v: byte, b: byte): (r: bool)
    ensures r <==> (Bit(b, 0x01) ==> Bit(v, 0x01)) && (Bit(b, 0x02) ==> Bit(v, 0x02))
                   && (Bit(b, 0x04) ==> Bit(v, 0x04)) && (Bit(b, 0x08) ==> Bit(v, 0x08))
                   && (Bit(b, 0x10) ==> Bit(v, 0x10)) && (Bit(b, 0x20) ==> Bit(v, 0x20))
                   && (Bit(b, 0x40) ==> Bit(v, 0x40)) && (Bit(b, 0x80) ==> Bit(v, 0x80))
    ensures b == 0x40 ==> (r <==> Bit(v, 0x40))
    ensures b == 0x01 ==> (r <==> Bit(v, 0x01))
  {
    AndEquals(v, b, b)
  }

  /** The two flags name the variant: no two variants agree on both. */
  lemma FlagsIdentifyVariant(f: InformationControlField, g: InformationControlField)
    requires f.IsRequest() == g.IsRequest() && f.RequiresResponse() == g.RequiresResponse()
    ensures f == g
  {
  }

  /** The variant with the given flags: every pair of flags names one variant. */
  function FromFlags(request: bool, response: bool): (f: InformationControlField)
    ensures f.IsRequest() == request && f.RequiresResponse() == response
  {
    match (request, response)
    case (true, true) => RequestWithResponse
    case (true, false) => RequestWithoutResponse
    case (false, true) => ResponseWithResponse
    case (false, false) => ResponseWithoutResponse
  }

  /** Bit 7 set and bits 1 to 5 clear: what the mask test of `deserialize` accepts. */
  predicate Framed(raw: byte) {
    Bit(raw, 0x80) && !Bit(raw, 0x02) && !Bit(raw, 0x04) && !Bit(raw, 0x08) && !Bit(raw, 0x10) && !Bit(raw, 0x20)
  }

  lemma MaskMeaning(raw: byte)
    ensures AndEquals(raw, 0xBE, 0x80) <==> Framed(raw)
  {
  }

  /** Exactly four bytes are framed. */
  lemma FramedBytes(raw: byte)
    ensures Framed(raw) <==> raw in {0x80, 0x81, 0xC0, 0xC1}
  {
  }

  /** `b as u8`. */
  function BitOf(b: bool): byte {
    if b then 1 else 0
  }

  /** Bit 7 always set, bit 6 set for a response, bit 0 set when no response is wanted,
      every other bit clear. The three parts of the Rust `|` have no bit in
      common, so they add up. */
  function Serialize(f: InformationControlField): (raw: byte)
    ensures Bit(raw, 0x80)
    ensures TestBits(raw, 0x40) <==> !f.IsRequest()
    ensures TestBits(raw, 0x01) <==> !f.RequiresResponse()
    ensures !Bit(raw, 0x02) && !Bit(raw, 0x04) && !Bit(raw, 0x08) && !Bit(raw, 0x10) && !Bit(raw, 0x20)
  {
    0x80 + 0x40 * BitOf(!f.IsRequest()) + BitOf(!f.RequiresResponse())
  }

  /** Accepts a byte only when bit 7 is set and bits 1 to 5 are clear; bits 6 and 0
      then pick the enumerant. A refused byte is returned inside the error. */
  function Deserialize(raw: byte): (r: Result<InformationControlField, ProtocolViolation>)
    ensures r.Success? <==> Framed(raw)
    ensures r.Failure? ==> r.error == InvalidInformationControlField(raw)
    ensures r.Success? ==> Serialize(r.value) == raw
    ensures r.Success? ==> (r.value.IsRequest() <==> !Bit(raw, 0x40))
    ensures r.Success? ==> (r.value.RequiresResponse() <==> !Bit(raw, 0x01))
  {
    MaskMeaning(raw);
    FramedBytes(raw);
    if !AndEquals(raw, 0xBE, 0x80) then
      Failure(InvalidInformationControlField(raw))
    else
      var isRequest := !TestBits(raw, 0x40);
      var requiresResponse := !TestBits(raw, 0x01);
      Success(
        match (isRequest, requiresResponse)
        case (true, true) => RequestWithResponse
        case (true, false) => RequestWithoutResponse
        case (false, true) => ResponseWithResponse
        case (false, false) => ResponseWithoutResponse)
  }

  lemma RoundTrip(f: InformationControlField)
    ensures Deserialize(Serialize(f)) == Success(f)
  {
  }

  /** Exactly four bytes are accepted. */
  lemma AcceptedBytes(raw: byte)
    ensures Deserialize(raw).Success? <==> raw in {0x80, 0x81, 0xC0, 0xC1}
  {
    FramedBytes(raw);
  }

  /** The literals of fins-rust's bidirectional ICF test, and the rejected zero byte. */
  lemma Literals()
    ensures Serialize(RequestWithResponse) == 0x80
    ensures Serialize(RequestWithoutResponse) == 0x81
    ensures Serialize(ResponseWithResponse) == 0xC0
    ensures Serialize(ResponseWithoutResponse) == 0xC1
    ensures Deserialize(0x00) == Failure(InvalidInformationControlField(0x00))
  {
  }
}
