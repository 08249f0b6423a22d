/** The memory-area-read command: FINS header, command code 01 01, address, word count. */
module ReadRequests {
  import opened Num
  import opened Wrappers
  import opened Icf
  import opened MachineAddresses
  import opened AreaCodes
  import opened MemoryAddresses
  import opened FinsHeaders
  import opened FinsLib

  datatype MemoryAreaReadRequest = MemoryAreaReadRequest(
    serverNode: byte,
    clientNode: byte,
    address: MemoryAddress,
    count: u16)

  /** Main request code 0x01, sub request code 0x01. */
  const ReadCommand := RequestHeader(0x01, 0x01)

  /** The fixed FINS header of a read: request wanting a response, two gateways,
      local network and unit, service id 0. */
  function FinsHeaderOf(req: MemoryAreaReadRequest): (h: Header)
    ensures h.icf.IsRequest() && h.icf.RequiresResponse()
    ensures h.destination.node == req.serverNode && h.source.node == req.clientNode
    ensures h.destination.network == 0 && h.destination.unit == 0 && h.source.network == 0 && h.source.unit == 0
  {
    Header(
      RequestWithResponse,
      0x02,
      MachineAddress(0, req.serverNode, 0),
      MachineAddress(0, req.clientNode, 0),
      0)
  }

  /** `byte_size()`: the size of the packed request. */
  function ByteSize(): (n: nat)
    ensures n == 18
  {
    FinsHeaders.RawSize + RequestHeaderSize + MemoryAddresses.RawSize + 2
  }

  /** The bytes `write_to` hands to the writer; encoding itself cannot fail. */
  function WriteTo(req: MemoryAreaReadRequest): (out: seq<byte>)
    ensures |out| == ByteSize()
  {
    FinsHeaders.Serialize(FinsHeaderOf(req))
      + RequestHeaderBytes(ReadCommand)
      + MemoryAddresses.Serialize(req.address)
      + U16Bytes(req.count)
  }

  /** Each field decodes back from its offset: header at 0, command code at 10,
      address at 12, count at 16. */
  lemma WriteToLayout(req: MemoryAreaReadRequest)
    ensures FinsHeaders.Deserialize(WriteTo(req)[..10]) == Success(FinsHeaderOf(req))
    ensures ParseRequestHeader(WriteTo(req)[10..12]) == ReadCommand
    ensures MemoryAddresses.Deserialize(WriteTo(req)[12..16]) == Success(req.address)
    ensures U16Of(WriteTo(req)[16..18]) == req.count
  {
    var out := WriteTo(req);
    assert out[..10] == FinsHeaders.Serialize(FinsHeaderOf(req));
    assert out[10..12] == RequestHeaderBytes(ReadCommand);
    assert out[12..16] == MemoryAddresses.Serialize(req.address);
    assert out[16..18] == U16Bytes(req.count);
    FinsHeaders.RoundTrip(FinsHeaderOf(req));
    MemoryAddresses.RoundTrip(req.address);
    U16RoundTrip(req.count);
  }

  /** The constant header bytes: ICF 0x80, gateway count 2, destination (0, server, 0),
      source (0, client, 0), service id 0. */
  lemma WriteToHeaderBytes(req: MemoryAreaReadRequest)
    ensures WriteTo(req)[..10] == [0x80, 0x00, 0x02, 0x00, req.serverNode, 0x00, 0x00, req.clientNode, 0x00, 0x00]
    ensures WriteTo(req)[10..12] == [0x01, 0x01]
  {
    var out := WriteTo(req);
    assert out[..10] == FinsHeaders.Serialize(FinsHeaderOf(req));
    assert out[10..12] == RequestHeaderBytes(ReadCommand);
  }

  /** Two requests with the same encoding are the same request. */
  lemma WriteToInjective(a: MemoryAreaReadRequest, b: MemoryAreaReadRequest)
    requires WriteTo(a) == WriteTo(b)
    ensures a == b
  {
    WriteToLayout(a);
    WriteToLayout(b);
  }

  /** The request is its four parts laid end to end. */
  lemma WriteToFromParts(req: MemoryAreaReadRequest, h: seq<byte>, c: seq<byte>, a: seq<byte>, n: seq<byte>)
    requires WriteTo(req)[..10] == h && WriteTo(req)[10..12] == c
    requires MemoryAddresses.Serialize(req.address) == a && U16Bytes(req.count) == n
    ensures WriteTo(req) == h + c + a + n
  {
    var out := WriteTo(req);
    assert out[12..16] == a && out[16..18] == n;
    assert out == out[..10] + out[10..12] + out[12..16] + out[16..18];
  }

  /** Server node 0xD3, client node 0xFB, D1500, 16 words. */
  lemma WriteToExample()
    ensures WriteTo(MemoryAreaReadRequest(0xD3, 0xFB, MemoryAddress(D, 1500, 0), 16))
      == [0x80, 0x00, 0x02, 0x00, 0xD3, 0x00, 0x00, 0xFB, 0x00, 0x00,
          0x01, 0x01, 0x82, 0x05, 0xDC, 0x00, 0x00, 0x10]
  {
    var req := MemoryAreaReadRequest(0xD3, 0xFB, MemoryAddress(D, 1500, 0), 16);
    WriteToHeaderBytes(req);
    SerializeExampleD1500();
    U16BytesDigits(16);
    WriteToFromParts(req, [0x80, 0x00, 0x02, 0x00, 0xD3, 0x00, 0x00, 0xFB, 0x00, 0x00], [0x01, 0x01],
                     [0x82, 0x05, 0xDC, 0x00], [0x00, 0x10]);
  }
}
