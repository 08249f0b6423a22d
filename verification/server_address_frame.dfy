/** The handshake frame a server answers with: envelope (length 16, command
    ServerAddress, error 0), then the client node and the server node, each a
    big-endian u32. */
module ServerAddressFrames {
  import opened Num
  import opened Wrappers
  import opened TcpProtocol
  import opened TcpHeaders
  import FinsErrors

  datatype ServerAddressFrame = ServerAddressFrame(clientNode: byte, serverNode: byte)

  /** The envelope's length field: command, error code and the two body words. */
  const ServerAddressLength: u32 := 16

  const BodySize: nat := 8

  const FrameSize: nat := 24

  const Envelope := Header(ServerAddressLength, ServerAddress, 0)

  function WriteBody(f: ServerAddressFrame): (body: seq<byte>)
    ensures |body| == BodySize
    ensures U32Of(body[..4]) == f.clientNode as nat && U32Of(body[4..]) == f.serverNode as nat
  {
    U32RoundTrip(f.clientNode as nat);
    U32RoundTrip(f.serverNode as nat);
    var body := U32Bytes(f.clientNode as nat) + U32Bytes(f.serverNode as nat);
    assert body[..4] == U32Bytes(f.clientNode as nat) && body[4..] == U32Bytes(f.serverNode as nat);
    body
  }

  function WriteTo(f: ServerAddressFrame): (out: seq<byte>)
    ensures |out| == FrameSize
    ensures out[..RawSize] == TcpHeaders.ToRaw(Envelope)
    ensures out[RawSize..] == WriteBody(f)
  {
    TcpHeaders.ToRaw(Envelope) + WriteBody(f)
  }

  /** `from_raw_body`: the client node is narrowed first, then the server node; the
      first one above 255 is the one reported. */
  function FromRawBody(body: seq<byte>): (r: Result<ServerAddressFrame, Error>)
    requires |body| == BodySize
    ensures U32Of(body[..4]) > 255 ==> r == Failure(NodeDoesNotFitU8(U32Of(body[..4])))
    ensures U32Of(body[..4]) <= 255 && U32Of(body[4..]) > 255 ==>
              r == Failure(NodeDoesNotFitU8(U32Of(body[4..])))
    ensures r.Success? <==> U32Of(body[..4]) <= 255 && U32Of(body[4..]) <= 255
    ensures r.Success? ==> WriteBody(r.value) == body
  {
    var client := U32Of(body[..4]);
    var server := U32Of(body[4..]);
    if client > 255 then
      Failure(NodeDoesNotFitU8(client))
    else if server > 255 then
      Failure(NodeDoesNotFitU8(server))
    else
      var f := ServerAddressFrame(client, server);
      BodyRebuilt(body, f);
      Success(f)
  }

  lemma BodyRebuilt(body: seq<byte>, f: ServerAddressFrame)
    requires |body| == BodySize
    requires f.clientNode as nat == U32Of(body[..4]) && f.serverNode as nat == U32Of(body[4..])
    ensures WriteBody(f) == body
  {
    var w := WriteBody(f);
    U32BytesRoundTrip(body[..4]);
    U32BytesRoundTrip(body[4..]);
    assert w[..4] == U32Bytes(U32Of(body[..4]));
    assert w[4..] == U32Bytes(U32Of(body[4..]));
    assert w == w[..4] + w[4..];
    assert body == body[..4] + body[4..];
  }

  /** Reads the envelope, checks length, command and error code in that order, reads
      the whole eight-byte body, and only then narrows the two nodes. */
  function ReadFrom(input: seq<byte>): (r: Result<Parsed<ServerAddressFrame>, Error>)
    ensures TcpHeaders.ReadFrom(input).Failure? ==> r == Failure(TcpHeaders.ReadFrom(input).error)
    ensures TcpHeaders.ReadFrom(input).Success? ==>
              var h := TcpHeaders.ReadFrom(input).value.value;
              ExpectHeader(h, ServerAddressLength, ServerAddress).Failure? ==>
                r == Failure(Violation(ExpectHeader(h, ServerAddressLength, ServerAddress).error))
    ensures r.Success? ==> |input| >= FrameSize && r.value.consumed == FrameSize
                           && WriteTo(r.value.value) == input[..FrameSize]
  {
    var h :- TcpHeaders.ReadFrom(input);
    var _ :- Lift(ExpectHeader(h.value, ServerAddressLength, ServerAddress));
    ReadBody(input)
  }

  /** The body read that follows an accepted envelope. */
  function ReadBody(input: seq<byte>): (r: Result<Parsed<ServerAddressFrame>, Error>)
    requires |input| >= RawSize && TcpHeaders.FromRaw(input[..RawSize]) == Success(Envelope)
    ensures |input| < FrameSize <==> r == Failure(Io(FinsErrors.UnexpectedEof))
    ensures |input| >= FrameSize && FromRawBody(input[RawSize..FrameSize]).Failure? ==>
              r == Failure(FromRawBody(input[RawSize..FrameSize]).error)
    ensures r.Success? <==> |input| >= FrameSize && FromRawBody(input[RawSize..FrameSize]).Success?
    ensures r.Success? ==> r.value.consumed == FrameSize && WriteTo(r.value.value) == input[..FrameSize]
  {
    if |input| < FrameSize then
      Failure(Io(FinsErrors.UnexpectedEof))
    else
      var body := input[RawSize..FrameSize];
      match FromRawBody(body)
      case Failure(e) => Failure(e)
      case Success(f) =>
        FrameRebuilt(input, f);
        Success(Parsed(f, FrameSize))
  }

  lemma FrameRebuilt(input: seq<byte>, f: ServerAddressFrame)
    requires |input| >= FrameSize
    requires TcpHeaders.FromRaw(input[..RawSize]) == Success(Envelope)
    requires WriteBody(f) == input[RawSize..FrameSize]
    ensures WriteTo(f) == input[..FrameSize]
  {
    var w := WriteTo(f);
    assert w == w[..RawSize] + w[RawSize..];
    assert input[..FrameSize] == input[..RawSize] + input[RawSize..FrameSize];
  }

  /** Once the envelope is the expected one, only the body decides the outcome. */
  lemma EnvelopeAccepted(input: seq<byte>)
    requires |input| >= RawSize && input[..RawSize] == TcpHeaders.ToRaw(Envelope)
    ensures TcpHeaders.FromRaw(input[..RawSize]) == Success(Envelope)
    ensures ReadFrom(input) == ReadBody(input)
  {
    TcpHeaders.RoundTrip(Envelope);
    assert TcpHeaders.ReadFrom(input) == Success(Parsed(Envelope, RawSize));
  }

  /** What `write_to` produced, `read_from` gives back, whatever follows in the stream. */
  lemma ReadWritten(f: ServerAddressFrame, rest: seq<byte>)
    ensures ReadFrom(WriteTo(f) + rest) == Success(Parsed(f, FrameSize))
  {
    var w := WriteTo(f);
    var input := w + rest;
    assert input[..RawSize] == w[..RawSize];
    EnvelopeAccepted(input);
    var body := input[RawSize..FrameSize];
    assert body == WriteBody(f);
    assert FromRawBody(body) == Success(f);
  }

  /** Every proper prefix of a frame is reported as a short read. */
  lemma ReadPrefix(f: ServerAddressFrame, k: nat)
    requires k < FrameSize
    ensures ReadFrom(WriteTo(f)[..k]) == Failure(Io(FinsErrors.UnexpectedEof))
  {
    var w := WriteTo(f);
    if k >= RawSize {
      assert w[..k][..RawSize] == w[..RawSize];
      EnvelopeAccepted(w[..k]);
    }
  }

  /** The envelope every server address frame starts with. */
  lemma EnvelopeBytes()
    ensures TcpHeaders.ToRaw(Envelope) == [0x46, 0x49, 0x4E, 0x53, 0x00, 0x00, 0x00, 0x10, 0x00, 0x00, 0x00, 0x01, 0x00, 0x00, 0x00, 0x00]
  {
    EnvelopeParts();
    RawCodeBytes();
    EnvelopeLiteral();
  }

  lemma EnvelopeParts()
    ensures TcpHeaders.ToRaw(Envelope) == Magic + [0, 0, 0, 16] + TcpProtocol.ToRaw(ServerAddress) + [0, 0, 0, 0]
  {
    ToRawSmall(Envelope);
  }

  lemma EnvelopeLiteral()
    ensures Magic + [0, 0, 0, 16] + [0, 0, 0, 1] + [0, 0, 0, 0] == [0x46, 0x49, 0x4E, 0x53, 0x00, 0x00, 0x00, 0x10, 0x00, 0x00, 0x00, 0x01, 0x00, 0x00, 0x00, 0x00]
  {
  }

  /** Every server address frame is the same sixteen-byte-length envelope followed
      by the two nodes in the low bytes of their words; nodes 3 and 4 give the
      fins-rust's 24-byte test vector. */
  lemma WriteLayout(f: ServerAddressFrame)
    ensures WriteTo(f) == [0x46, 0x49, 0x4E, 0x53, 0x00, 0x00, 0x00, 0x10, 0x00, 0x00, 0x00, 0x01,
                           0x00, 0x00, 0x00, 0x00, 0x00, 0x00, 0x00, f.clientNode, 0x00, 0x00, 0x00, f.serverNode]
  {
    EnvelopeBytes();
    BodyBytes(f);
    FrameLiteral(f.clientNode, f.serverNode);
  }

  lemma FrameLiteral(c: byte, s: byte)
    ensures [0x46, 0x49, 0x4E, 0x53, 0x00, 0x00, 0x00, 0x10, 0x00, 0x00, 0x00, 0x01, 0x00, 0x00, 0x00, 0x00]
            + [0, 0, 0, c, 0, 0, 0, s]
         == [0x46, 0x49, 0x4E, 0x53, 0x00, 0x00, 0x00, 0x10, 0x00, 0x00, 0x00, 0x01,
             0x00, 0x00, 0x00, 0x00, 0x00, 0x00, 0x00, c, 0x00, 0x00, 0x00, s]
  {
  }

  lemma BodyBytes(f: ServerAddressFrame)
    ensures WriteBody(f) == [0, 0, 0, f.clientNode, 0, 0, 0, f.serverNode]
  {
    U32BytesOfSmall(f.clientNode);
    U32BytesOfSmall(f.serverNode);
  }

  /** Both nodes too large: the client node is the one reported. */
  lemma ClientNodeReportedFirst()
    ensures FromRawBody([0, 0, 1, 0, 0, 0, 1, 1]) == Failure(NodeDoesNotFitU8(256))
  {
    var body: seq<byte> := [0, 0, 1, 0, 0, 0, 1, 1];
    assert body[..4] == [0, 0, 1, 0];
    assert BeBytes(256, 4) == [0, 0, 1, 0] by {
      assert BeBytes(0, 1) == [0];
      assert BeBytes(0, 2) == [0, 0];
      assert BeBytes(1, 3) == [0, 0, 1];
    }
    U32RoundTrip(256);
  }
}
