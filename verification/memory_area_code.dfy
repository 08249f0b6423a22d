/** Memory-area codes: a closed enumeration on the value side, any byte on the wire side. */
module AreaCodes {
  import opened Num
  import opened Wrappers
  import opened FinsErrors

  datatype MemoryAreaCode = D

  /** `RawMemoryAreaCode::D`. */
  const RawD: byte := 0x82

  function Serialize(c: MemoryAreaCode): (raw: byte)
    ensures c == D ==> raw == 0x82
  {
    match c
    case D => RawD
  }

  /** Only 0x82 is known; any other byte is a protocol violation carrying that byte. */
  function Deserialize(raw: byte): (r: Result<MemoryAreaCode, Error>)
    ensures r.Success? <==> raw == 0x82
    ensures r.Success? ==> Serialize(r.value) == raw
    ensures r.Failure? ==> r.error == Violation(InvalidMemoryAreaCode(raw))
  {
    if raw == RawD then Success(D) else Failure(Violation(InvalidMemoryAreaCode(raw)))
  }

  lemma RoundTrip(c: MemoryAreaCode)
    ensures Deserialize(Serialize(c)) == Success(c)
  {
  }

  /** The `{:?}` rendering of a code: its variant name. */
  function Name(c: MemoryAreaCode): (s: string)
    ensures |s| == 1 && s[0] == 'D'
  {
    match c
    case D => "D"
  }
}
