/** The handshake frame a client sends first: envelope (length 12, command
    ClientAddress, error 0) and the proposed client node as a big-endian u32. */
module ClientAddressFrames {
  import opened Num
  import opened Wrappers
  import opened TcpProtocol
  import opened TcpHeaders
  import FinsErrors

  datatype ClientAddressFrame = ClientAddressFrame(clientNode: byte)

  /** The envelope's length field: the 8 bytes of command and error code plus the body. */
  const ClientAddressLength: u32 := 12

  const FrameSize: nat := 20

  const Envelope := Header(ClientAddressLength, ClientAddress, 0)

  function WriteTo(f: ClientAddressFrame): (out: seq<byte>)
    ensures |out| == FrameSize
    ensures out[..RawSize] == TcpHeaders.ToRaw(Envelope)
    ensures U32Of(out[RawSize..]) == f.clientNode as nat
  {
    U32RoundTrip(f.clientNode as nat);
    var out := TcpHeaders.ToRaw(Envelope) + U32Bytes(f.clientNode as nat);
    assert out[RawSize..] == U32Bytes(f.clientNode as nat);
    out
  }

  /** Reads the envelope, checks length, command and error code in that order, and
      only then reads the four body bytes. A node above 255 cannot become a `u8`. */
  function ReadFrom(input: seq<byte>): (r: Result<Parsed<ClientAddressFrame>, Error>)
    ensures TcpHeaders.ReadFrom(input).Failure? ==> r == Failure(TcpHeaders.ReadFrom(input).error)
    ensures TcpHeaders.ReadFrom(input).Success? ==>
              var h := TcpHeaders.ReadFrom(input).value.value;
              ExpectHeader(h, ClientAddressLength, ClientAddress).Failure? ==>
                r == Failure(Violation(ExpectHeader(h, ClientAddressLength, ClientAddress).error))
    ensures r.Success? ==> |input| >= FrameSize && r.value.consumed == FrameSize
                           && WriteTo(r.value.value) == input[..FrameSize]
  {
    var h :- TcpHeaders.ReadFrom(input);
    var _ :- Lift(ExpectHeader(h.value, ClientAddressLength, ClientAddress));
    ReadBody(input)
  }

  /** The body read that follows an accepted envelope. */
  function ReadBody(input: seq<byte>): (r: Result<Parsed<ClientAddressFrame>, Error>)
    requires |input| >= RawSize && TcpHeaders.FromRaw(input[..RawSize]) == Success(Envelope)
    ensures |input| < FrameSize <==> r == Failure(Io(FinsErrors.UnexpectedEof))
    ensures |input| >= FrameSize && U32Of(input[RawSize..FrameSize]) > 255 ==>
              r == Failure(NodeDoesNotFitU8(U32Of(input[RawSize..FrameSize])))
    ensures r.Success? <==> |input| >= FrameSize && U32Of(input[RawSize..FrameSize]) <= 255
    ensures r.Success? ==> r.value.consumed == FrameSize && WriteTo(r.value.value) == input[..FrameSize]
  {
    if |input| < FrameSize then
      Failure(Io(FinsErrors.UnexpectedEof))
    else
      var node := U32Of(input[RawSize..FrameSize]);
      if node > 255 then
        Failure(NodeDoesNotFitU8(node))
      else
        var f := ClientAddressFrame(node);
        WrittenFrameIs(input, f);
        Success(Parsed(f, FrameSize))
  }

  lemma WrittenFrameIs(input: seq<byte>, f: ClientAddressFrame)
    requires |input| >= FrameSize
    requires TcpHeaders.FromRaw(input[..RawSize]) == Success(Envelope)
    requires f.clientNode as nat == U32Of(input[RawSize..FrameSize])
    ensures WriteTo(f) == input[..FrameSize]
  {
    var w := WriteTo(f);
    U32BytesRoundTrip(input[RawSize..FrameSize]);
    assert w[RawSize..] == U32Bytes(U32Of(input[RawSize..FrameSize])) == input[RawSize..FrameSize];
    assert w == w[..RawSize] + w[RawSize..];
    assert input[..FrameSize] == input[..RawSize] + input[RawSize..FrameSize];
  }

  /** Once the envelope is the expected one, only the body decides the outcome. */
  lemma EnvelopeAccepted(input: seq<byte>)
    requires |input| >= RawSize && input[..RawSize] == TcpHeaders.ToRaw(Envelope)
    ensures TcpHeaders.FromRaw(input[..RawSize]) == Success(Envelope)
    ensures ReadFrom(input) == ReadBody(input)
  {
    TcpHeaders.RoundTrip(Envelope);
    assert TcpHeaders.ReadFrom(input) == Success(Parsed(Envelope, RawSize));
  }

  /** What `write_to` produced, `read_from` gives back, whatever follows in the stream. */
  lemma ReadWritten(f: ClientAddressFrame, rest: seq<byte>)
    ensures ReadFrom(WriteTo(f) + rest) == Success(Parsed(f, FrameSize))
  {
    var w := WriteTo(f);
    var input := w + rest;
    assert input[..RawSize] == w[..RawSize];
    EnvelopeAccepted(input);
    assert input[RawSize..FrameSize] == w[RawSize..];
    assert U32Of(input[RawSize..FrameSize]) == f.clientNode as nat;
  }

  /** Every proper prefix of a frame is reported as a short read. */
  lemma ReadPrefix(f: ClientAddressFrame, k: nat)
    requires k < FrameSize
    ensures ReadFrom(WriteTo(f)[..k]) == Failure(Io(FinsErrors.UnexpectedEof))
  {
    var w := WriteTo(f);
    if k >= RawSize {
      assert w[..k] == TcpHeaders.ToRaw(Envelope) + w[RawSize..k];
      TcpHeaders.ReadWritten(Envelope, w[RawSize..k]);
    }
  }

  /** The envelope every client address frame starts with. */
  lemma EnvelopeBytes()
    ensures TcpHeaders.ToRaw(Envelope) == [0x46, 0x49, 0x4E, 0x53, 0x00, 0x00, 0x00, 0x0C, 0x00, 0x00, 0x00, 0x00, 0x00, 0x00, 0x00, 0x00]
  {
    EnvelopeParts();
    RawCodeBytes();
    EnvelopeLiteral();
  }

  lemma EnvelopeParts()
    ensures TcpHeaders.ToRaw(Envelope) == Magic + [0, 0, 0, 12] + TcpProtocol.ToRaw(ClientAddress) + [0, 0, 0, 0]
  {
    ToRawSmall(Envelope);
  }

  lemma EnvelopeLiteral()
    ensures Magic + [0, 0, 0, 12] + [0, 0, 0, 0] + [0, 0, 0, 0] == [0x46, 0x49, 0x4E, 0x53, 0x00, 0x00, 0x00, 0x0C, 0x00, 0x00, 0x00, 0x00, 0x00, 0x00, 0x00, 0x00]
  {
  }

  /** Every client address frame is the same twelve-byte-length envelope followed
      by the node in the low byte; node 3 gives fins-rust's 20-byte test vector. */
  lemma WriteLayout(f: ClientAddressFrame)
    ensures WriteTo(f) == [0x46, 0x49, 0x4E, 0x53, 0x00, 0x00, 0x00, 0x0C, 0x00, 0x00, 0x00, 0x00,
                           0x00, 0x00, 0x00, 0x00, 0x00, 0x00, 0x00, f.clientNode]
  {
    EnvelopeBytes();
    U32BytesOfSmall(f.clientNode);
    assert WriteTo(f) == TcpHeaders.ToRaw(Envelope) + U32Bytes(f.clientNode);
  }

  /** A body value of 256 does not fit the node byte. */
  lemma OversizedNode()
    ensures ReadFrom(TcpHeaders.ToRaw(Envelope) + [0x00, 0x00, 0x01, 0x00]) == Failure(NodeDoesNotFitU8(256))
  {
    var body: seq<byte> := [0x00, 0x00, 0x01, 0x00];
    var input := TcpHeaders.ToRaw(Envelope) + body;
    TcpHeaders.ReadWritten(Envelope, body);
    assert input[RawSize..FrameSize] == body;
    assert BeBytes(256, 4) == body by {
      assert BeBytes(0, 1) == [0];
      assert BeBytes(0, 2) == [0, 0];
      assert BeBytes(1, 3) == [0, 0, 1];
    }
    U32RoundTrip(256);
  }
}
