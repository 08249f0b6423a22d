/** The 16-byte FINS/TCP envelope: magic "FINS", then length, command and error code,
    each a big-endian u32. */
module TcpHeaders {
  import opened Num
  import opened Wrappers
  import FinsErrors
  import opened TcpProtocol

  /** `*b"FINS"`. */
  const Magic: Quad := [0x46, 0x49, 0x4E, 0x53]

  datatype Header = Header(length: u32, command: CommandCode, errorCode: u32)

  const RawSize: nat := 16

  type RawHeader = b: seq<byte> | |b| == RawSize witness [0, 0, 0, 0, 0, 0, 0, 0, 0, 0, 0, 0, 0, 0, 0, 0]

  /** Four quads laid end to end read back at offsets 0, 4, 8 and 12. */
  lemma QuadSlices(a: Quad, b: Quad, c: Quad, d: Quad)
    ensures var s := a + b + c + d;
            |s| == RawSize && s[..4] == a && s[4..8] == b && s[8..12] == c && s[12..16] == d
  {
  }

  lemma QuadsOf(s: seq<byte>)
    requires |s| == RawSize
    ensures s == s[..4] + s[4..8] + s[8..12] + s[12..16]
  {
  }

  /** The magic is always written; the three numbers are stored big-endian. */
  function ToRaw(h: Header): (raw: RawHeader)
    ensures raw[..4] == Magic
    ensures raw[4..8] == U32Bytes(h.length) && U32Of(raw[4..8]) == h.length
    ensures raw[8..12] == TcpProtocol.ToRaw(h.command)
    ensures raw[12..16] == U32Bytes(h.errorCode) && U32Of(raw[12..16]) == h.errorCode
  {
    U32RoundTrip(h.length);
    U32RoundTrip(h.errorCode);
    QuadSlices(Magic, U32Bytes(h.length), TcpProtocol.ToRaw(h.command), U32Bytes(h.errorCode));
    Magic + U32Bytes(h.length) + TcpProtocol.ToRaw(h.command) + U32Bytes(h.errorCode)
  }

  /** With length and error code below 256, each number is three zero bytes and
      its value. */
  lemma ToRawSmall(h: Header)
    requires h.length < 256 && h.errorCode < 256
    ensures ToRaw(h) == Magic + [0, 0, 0, h.length] + TcpProtocol.ToRaw(h.command) + [0, 0, 0, h.errorCode]
  {
    var raw := ToRaw(h);
    U32BytesOfSmall(h.length);
    U32BytesOfSmall(h.errorCode);
    QuadsOf(raw);
  }

  /** The magic is checked first, then the command; length and error code are
      accepted as they are. */
  function FromRaw(raw: RawHeader): (r: Result<Header, TcpViolation>)
    ensures raw[..4] != Magic ==> r == Failure(IncorrectMagicString(raw[..4]))
    ensures raw[..4] == Magic && TcpProtocol.FromRaw(raw[8..12]).Failure? ==>
              r == Failure(UnknownCommand(raw[8..12]))
    ensures r.Success? <==> raw[..4] == Magic && ToU32(raw[8..12]) <= 2
    ensures r.Success? ==> r.value.length == U32Of(raw[4..8]) && r.value.errorCode == U32Of(raw[12..16])
    ensures r.Success? ==> ToRaw(r.value) == raw
  {
    if raw[..4] != Magic then
      Failure(IncorrectMagicString(raw[..4]))
    else
      match TcpProtocol.FromRaw(raw[8..12])
      case Failure(e) => Failure(e)
      case Success(command) =>
        FieldsRebuildRaw(raw, command);
        Success(Header(U32Of(raw[4..8]), command, U32Of(raw[12..16])))
  }

  lemma FieldsRebuildRaw(raw: RawHeader, command: CommandCode)
    requires raw[..4] == Magic && TcpProtocol.ToRaw(command) == raw[8..12]
    ensures ToRaw(Header(U32Of(raw[4..8]), command, U32Of(raw[12..16]))) == raw
  {
    var t := ToRaw(Header(U32Of(raw[4..8]), command, U32Of(raw[12..16])));
    U32BytesRoundTrip(raw[4..8]);
    U32BytesRoundTrip(raw[12..16]);
    QuadsOf(t);
    QuadsOf(raw);
  }

  /** Every header survives the round trip, whatever its length and error code. */
  lemma RoundTrip(h: Header)
    ensures FromRaw(ToRaw(h)) == Success(h)
  {
    CommandRoundTrip(h.command);
  }

  /** A wrong magic is reported with the received bytes even when the command is
      also unknown: "GINS" with command 7. */
  lemma BadMagicExample()
    ensures FromRaw([0x47, 0x49, 0x4E, 0x53, 0, 0, 0, 8, 0, 0, 0, 7, 0, 0, 0, 0])
      == Failure(IncorrectMagicString([0x47, 0x49, 0x4E, 0x53]))
  {
    var raw: RawHeader := [0x47, 0x49, 0x4E, 0x53, 0, 0, 0, 8, 0, 0, 0, 7, 0, 0, 0, 0];
    assert raw[..4] == [0x47, 0x49, 0x4E, 0x53];
  }

  /** `Header::read_from`: a read of exactly 16 bytes (`UnexpectedEof` when fewer are
      available), then `from_raw`. */
  function ReadFrom(input: seq<byte>): (r: Result<Parsed<Header>, Error>)
    ensures |input| < RawSize ==> r == Failure(Io(FinsErrors.UnexpectedEof))
    ensures |input| >= RawSize && FromRaw(input[..RawSize]).Failure? ==>
              r == Failure(Violation(FromRaw(input[..RawSize]).error))
    ensures r.Success? ==> |input| >= RawSize && r.value.consumed == RawSize
                           && FromRaw(input[..RawSize]) == Success(r.value.value)
  {
    if |input| < RawSize then
      Failure(Io(FinsErrors.UnexpectedEof))
    else
      var h :- Lift(FromRaw(input[..RawSize]));
      Success(Parsed(h, RawSize))
  }

  /** `Header::write_to` followed by `Header::read_from` gives the header back,
      whatever follows it in the stream. */
  lemma ReadWritten(h: Header, rest: seq<byte>)
    ensures ReadFrom(ToRaw(h) + rest) == Success(Parsed(h, RawSize))
  {
    assert (ToRaw(h) + rest)[..RawSize] == ToRaw(h);
    RoundTrip(h);
  }

  /** The envelope checks every handshake frame makes, in the order the Rust client checks them:
      length, then command, then error code. */
  function ExpectHeader(h: Header, length: u32, command: CommandCode): (r: Result<(), TcpViolation>)
    ensures r.Success? <==> h == Header(length, command, 0)
    ensures h.length != length ==> r == Failure(UnexpectedHeaderLength(h.length, length))
    ensures h.length == length && h.command != command ==>
              r == Failure(UnexpectedCommand(h.command, command))
    ensures h.length == length && h.command == command && h.errorCode != 0 ==>
              r == Failure(UnexpectedError(h.errorCode))
  {
    var _ :- AssertHeaderLength(h.length, length);
    var _ :- AssertCommand(h.command, command);
    AssertNoError(h.errorCode)
  }
}
