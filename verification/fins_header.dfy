/** The 10-byte FINS message header. */
module FinsHeaders {
  import opened Num
  import opened Wrappers
  import opened FinsErrors
  import opened Icf
  import opened MachineAddresses

  datatype Header = Header(
    icf: InformationControlField,
    gct: byte,                    // permissible number of gateways
    destination: MachineAddress,
    source: MachineAddress,
    sid: byte)                    // service id

  const RawSize: nat := 10

  /** The packed `RawHeader`: icf, rsv, gct, destination (3), source (3), sid. */
  type RawHeader = b: seq<byte> | |b| == RawSize witness [0, 0, 0, 0, 0, 0, 0, 0, 0, 0]

  function Serialize(h: Header): (raw: RawHeader)
    ensures raw[0] == Icf.Serialize(h.icf)
    ensures raw[1] == 0x00
    ensures raw[2] == h.gct
    ensures raw[3..6] == ToRaw(h.destination)
    ensures raw[6..9] == ToRaw(h.source)
    ensures raw[9] == h.sid
  {
    [Icf.Serialize(h.icf), 0x00, h.gct] + ToRaw(h.destination) + ToRaw(h.source) + [h.sid]
  }

  /** An invalid ICF byte is the only failure; the reserved byte is not looked at. */
  function Deserialize(raw: RawHeader): (r: Result<Header, Error>)
    ensures r.Failure? <==> Icf.Deserialize(raw[0]).Failure?
    ensures r.Failure? ==> r.error == Violation(InvalidInformationControlField(raw[0]))
    ensures r.Success? ==> Serialize(r.value) == raw[1 := 0x00]
  {
    match Icf.Deserialize(raw[0])
    case Failure(e) => Failure(Violation(e))
    case Success(icf) =>
      var h := Header(icf, raw[2], FromRaw(raw[3..6]), FromRaw(raw[6..9]), raw[9]);
      assert Serialize(h) == raw[1 := 0x00];
      Success(h)
  }

  lemma RoundTrip(h: Header)
    ensures Deserialize(Serialize(h)) == Success(h)
  {
    var raw := Serialize(h);
    Icf.RoundTrip(h.icf);
    MachineAddresses.RoundTrip(h.destination);
    MachineAddresses.RoundTrip(h.source);
    assert raw[3..6] == ToRaw(h.destination) && raw[6..9] == ToRaw(h.source);
  }

  lemma ReservedByteIgnored(raw: RawHeader, rsv: byte)
    ensures Deserialize(raw[1 := rsv]) == Deserialize(raw)
  {
    var other := raw[1 := rsv];
    assert other[3..6] == raw[3..6] && other[6..9] == raw[6..9];
  }

  /** The header of fins-rust's header layout test. */
  function TestHeader(): Header {
    Header(RequestWithResponse, 0x02, MachineAddress(0x03, 0x04, 0x05), MachineAddress(0x06, 0x07, 0x08), 0x09)
  }

  /** Destination precedes source on the wire. */
  lemma TestHeaderBytes()
    ensures Serialize(TestHeader()) == [0x80, 0x00, 0x02, 0x03, 0x04, 0x05, 0x06, 0x07, 0x08, 0x09]
  {
  }

  /** The byte order the layout test expects: source before destination. */
  function SourceFirstLayout(h: Header): (raw: RawHeader) {
    [Icf.Serialize(h.icf), 0x00, h.gct] + ToRaw(h.source) + ToRaw(h.destination) + [h.sid]
  }

  /** The test's expected bytes are the source-first layout, which disagrees with the
      declared field order whenever the two addresses differ, as they do in the test. */
  lemma SourceFirstLayoutDisagrees(h: Header)
    ensures SourceFirstLayout(TestHeader()) == [0x80, 0x00, 0x02, 0x06, 0x07, 0x08, 0x03, 0x04, 0x05, 0x09]
    ensures SourceFirstLayout(h) == Serialize(h) <==> h.destination == h.source
  {
    if SourceFirstLayout(h) == Serialize(h) {
      var s := SourceFirstLayout(h);
      assert s[3..6] == ToRaw(h.source) && Serialize(h)[3..6] == ToRaw(h.destination);
      MachineAddresses.RoundTrip(h.source);
      MachineAddresses.RoundTrip(h.destination);
    }
  }
}
