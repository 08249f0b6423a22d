/** FINS/TCP command codes, protocol violations and errors
    (fins_tcp/src/command_code.rs, protocol_violation.rs and error.rs, which refer
    to each other and so form one module here). */
module TcpProtocol {
  import opened Num
  import opened Wrappers
  import opened Text
  import FinsErrors

  datatype CommandCode = ClientAddress | ServerAddress | Fins

  type Quad = b: seq<byte> | |b| == 4 witness [0, 0, 0, 0]

  /** `RawCommandCode`: a big-endian u32 on the wire. */
  type RawCommandCode = Quad

  const RawClientAddress: RawCommandCode := U32Bytes(0)
  const RawServerAddress: RawCommandCode := U32Bytes(1)
  const RawFins: RawCommandCode := U32Bytes(2)

  lemma RawCodeBytes()
    ensures RawClientAddress == [0, 0, 0, 0]
    ensures RawServerAddress == [0, 0, 0, 1]
    ensures RawFins == [0, 0, 0, 2]
  {
    U32BytesOfSmall(0);
    U32BytesOfSmall(1);
    U32BytesOfSmall(2);
  }

  /** `RawCommandCode::to_u32`: the native value of the big-endian field. */
  function ToU32(raw: RawCommandCode): (v: u32)
    ensures U32Bytes(v) == raw
  {
    U32BytesRoundTrip(raw);
    U32Of(raw)
  }

  function ToRaw(c: CommandCode): (raw: RawCommandCode)
    ensures c == ClientAddress ==> ToU32(raw) == 0
    ensures c == ServerAddress ==> ToU32(raw) == 1
    ensures c == CommandCode.Fins ==> ToU32(raw) == 2
  {
    U32RoundTrip(0);
    U32RoundTrip(1);
    U32RoundTrip(2);
    match c
    case ClientAddress => RawClientAddress
    case ServerAddress => RawServerAddress
    case Fins => RawFins
  }

  /** Codes 0, 1 and 2 are known; any other value is refused and carried in the error. */
  function FromRaw(raw: RawCommandCode): (r: Result<CommandCode, TcpViolation>)
    ensures r.Success? <==> ToU32(raw) <= 2
    ensures r.Success? ==> ToRaw(r.value) == raw
    ensures r.Failure? ==> r.error == UnknownCommand(raw)
  {
    U32RoundTrip(0);
    U32RoundTrip(1);
    U32RoundTrip(2);
    U32BytesRoundTrip(raw);
    if raw == RawClientAddress then Success(ClientAddress)
    else if raw == RawServerAddress then Success(ServerAddress)
    else if raw == RawFins then Success(CommandCode.Fins)
    else Failure(UnknownCommand(raw))
  }

  lemma CommandRoundTrip(c: CommandCode)
    ensures FromRaw(ToRaw(c)) == Success(c)
  {
  }

  datatype TcpViolation =
    | IncorrectMagicString(magic: Quad)
    | UnknownCommand(command: RawCommandCode)
    | UnexpectedHeaderLength(actualLength: u32, expectedLength: u32)
    | UnexpectedError(errorCode: u32)
    | UnexpectedCommand(actualCommand: CommandCode, expectedCommand: CommandCode)
    | Fins(finsViolation: FinsErrors.ProtocolViolation)

  /** The crate's `Error`. `NodeDoesNotFitU8` stands for the panic of
      `try_into().unwrap()` when a node number on the wire exceeds 255. */
  datatype Error =
    | Violation(violation: TcpViolation)
    | Io(kind: FinsErrors.IoErrorKind)
    | NodeDoesNotFitU8(value: u32)

  /** `?` on a `Result<_, ProtocolViolation>` inside a function returning `Result<_, Error>`. */
  function Lift<T>(r: Result<T, TcpViolation>): (s: Result<T, Error>)
    ensures s.Success? <==> r.Success?
    ensures r.Success? ==> s.value == r.value
    ensures r.Failure? ==> s.error == Violation(r.error)
  {
    match r
    case Success(v) => Success(v)
    case Failure(e) => Failure(Violation(e))
  }

  function AssertHeaderLength(actual: u32, expected: u32): (r: Result<(), TcpViolation>)
    ensures r.Success? <==> actual == expected
    ensures r.Failure? ==> r.error == UnexpectedHeaderLength(actual, expected)
  {
    if actual == expected then Success(()) else Failure(UnexpectedHeaderLength(actual, expected))
  }

  function AssertCommand(actual: CommandCode, expected: CommandCode): (r: Result<(), TcpViolation>)
    ensures r.Success? <==> actual == expected
    ensures r.Failure? ==> r.error == UnexpectedCommand(actual, expected)
  {
    if actual == expected then Success(()) else Failure(UnexpectedCommand(actual, expected))
  }

  function AssertNoError(actual: u32): (r: Result<(), TcpViolation>)
    ensures r.Success? <==> actual == 0
    ensures r.Failure? ==> r.error == UnexpectedError(actual)
  {
    if actual == 0 then Success(()) else Failure(UnexpectedError(actual))
  }

  /** `From<fins::ProtocolViolation>`: the FINS violation is kept unchanged. */
  function FromFins(e: FinsErrors.ProtocolViolation): (v: TcpViolation)
    ensures v == TcpViolation.Fins(e)
  {
    TcpViolation.Fins(e)
  }

  /** `From<fins::Error>`: a FINS violation becomes `Fins(e)`, an I/O error keeps its kind. */
  function FromFinsError(e: FinsErrors.Error): (r: Error)
    ensures e.Io? <==> r.Io?
    ensures e.Io? ==> r.kind == e.kind
    ensures e.Violation? ==> r == Violation(TcpViolation.Fins(e.violation))
  {
    match e
    case Violation(v) => Violation(FromFins(v))
    case Io(k) => Io(k)
  }

  /** Distinct FINS errors stay distinct after conversion: nothing is lost. */
  lemma FromFinsErrorInjective(a: FinsErrors.Error, b: FinsErrors.Error)
    requires FromFinsError(a) == FromFinsError(b)
    ensures a == b
  {
  }

  const MagicPrefix: string := "Received incorrect magic string 0x"
  const MagicSuffix: string := " but expected 0x46494E53 (\"FINS\")!"

  /** `{:02X}{:02X}{:02X}{:02X}` of the four bytes. */
  function HexQuad(q: Quad): (s: string)
    ensures |s| == 8
  {
    Hex2(q[0]) + Hex2(q[1]) + Hex2(q[2]) + Hex2(q[3])
  }

  /** The `IncorrectMagicString` text: the fixed prefix, the eight hex digits of the
      bytes received, the fixed suffix naming the expected `FINS`. */
  function MagicMessage(magic: Quad): (s: string)
    ensures |s| == |MagicPrefix| + 8 + |MagicSuffix|
    ensures s[..|MagicPrefix|] == MagicPrefix && s[|MagicPrefix| + 8..] == MagicSuffix
    ensures forall i :: 0 <= i < 4 ==> s[|MagicPrefix| + 2 * i..|MagicPrefix| + 2 * i + 2] == Hex2(magic[i])
  {
    var s := MagicPrefix + HexQuad(magic) + MagicSuffix;
    forall i | 0 <= i < 4
      ensures s[|MagicPrefix| + 2 * i..|MagicPrefix| + 2 * i + 2] == Hex2(magic[i])
    {
      HexQuadPair(magic, i);
      assert s[|MagicPrefix|..|MagicPrefix| + 8] == HexQuad(magic);
    }
    s
  }

  /** The `Display` text of a violation; `None` where fins-rust has `todo!()` and panics. */
  function Describe(v: TcpViolation): (text: Option<string>)
    ensures text.None? <==> v.UnexpectedHeaderLength? || v.UnexpectedError? || v.UnexpectedCommand?
  {
    match v
    case IncorrectMagicString(b) => Some(MagicMessage(b))
    case UnknownCommand(c) => Some("Received FINS/TCP frame with unknown command " + Decimal(ToU32(c)) + "!")
    case UnexpectedHeaderLength(_, _) => None
    case UnexpectedError(_) => None
    case UnexpectedCommand(_, _) => None
    case Fins(e) => Some(FinsErrors.Describe(e))
  }

  lemma HexQuadExample()
    ensures HexQuad([0x01, 0x52, 0x32, 0x99]) == "01523299"
  {
    var q: Quad := [0x01, 0x52, 0x32, 0x99];
    assert Hex2(q[0]) == "01" && Hex2(q[1]) == "52" && Hex2(q[2]) == "32" && Hex2(q[3]) == "99";
  }

  /** fins-rust's formatting test: the bytes 01 52 32 99 in upper-case hex. */
  lemma MagicMessageExample()
    ensures Describe(IncorrectMagicString([0x01, 0x52, 0x32, 0x99]))
      == Some("Received incorrect magic string 0x" + "01523299" + " but expected 0x46494E53 (\"FINS\")!")
  {
    HexQuadExample();
  }

  lemma HexQuadPair(q: Quad, i: nat)
    requires i < 4
    ensures HexQuad(q)[2 * i..2 * i + 2] == Hex2(q[i])
  {
  }

  lemma HexQuadInjective(a: Quad, b: Quad)
    requires HexQuad(a) == HexQuad(b)
    ensures a == b
  {
    forall i | 0 <= i < 4
      ensures a[i] == b[i]
    {
      HexQuadPair(a, i);
      HexQuadPair(b, i);
      Hex2Injective(a[i], b[i]);
    }
  }

  /** The message names the four offending bytes: different bytes, different message. */
  lemma MagicMessageInjective(a: Quad, b: Quad)
    requires MagicMessage(a) == MagicMessage(b)
    ensures a == b
  {
    var n := |MagicPrefix|;
    assert MagicMessage(a)[n..n + 8] == HexQuad(a);
    assert MagicMessage(b)[n..n + 8] == HexQuad(b);
    HexQuadInjective(a, b);
  }
}
