/** Command headers that follow the FINS header, and the `trye!` propagation macro
    (fins/src/lib.rs). */
module FinsLib {
  import opened Num
  import opened Wrappers

  /** `trye!(e)`: continue with the `Ok` payload, or return the `Err` unchanged. */
  function Trye<T, U, E>(r: Result<T, E>, k: T -> Result<U, E>): (s: Result<U, E>)
    ensures r.Failure? ==> s == Failure(r.error)
    ensures r.Success? ==> s == k(r.value)
  {
    match r
    case Success(v) => k(v)
    case Failure(e) => Failure(e)
  }

  /** Main and sub request code of a command. */
  datatype RequestHeader = RequestHeader(mrc: byte, src: byte)

  /** Main/sub request code followed by main/sub response code of a reply. */
  datatype ResponseHeader = ResponseHeader(mrc: byte, src: byte, mres: byte, sres: byte)

  const RequestHeaderSize: nat := 2
  const ResponseHeaderSize: nat := 4

  function RequestHeaderBytes(h: RequestHeader): (raw: seq<byte>)
    ensures |raw| == RequestHeaderSize
    ensures raw[0] == h.mrc && raw[1] == h.src
  {
    [h.mrc, h.src]
  }

  /** No byte is validated at this layer. */
  function ParseRequestHeader(raw: seq<byte>): (h: RequestHeader)
    requires |raw| == RequestHeaderSize
    ensures RequestHeaderBytes(h) == raw
  {
    RequestHeader(raw[0], raw[1])
  }

  function ResponseHeaderBytes(h: ResponseHeader): (raw: seq<byte>)
    ensures |raw| == ResponseHeaderSize
    ensures raw[0] == h.mrc && raw[1] == h.src && raw[2] == h.mres && raw[3] == h.sres
  {
    [h.mrc, h.src, h.mres, h.sres]
  }

  /** No byte is validated at this layer: a non-zero response code is still parsed. */
  function ParseResponseHeader(raw: seq<byte>): (h: ResponseHeader)
    requires |raw| == ResponseHeaderSize
    ensures ResponseHeaderBytes(h) == raw
  {
    ResponseHeader(raw[0], raw[1], raw[2], raw[3])
  }

  lemma RequestHeaderRoundTrip(h: RequestHeader)
    ensures ParseRequestHeader(RequestHeaderBytes(h)) == h
  {
  }

  lemma ResponseHeaderRoundTrip(h: ResponseHeader)
    ensures ParseResponseHeader(ResponseHeaderBytes(h)) == h
  {
  }
}
