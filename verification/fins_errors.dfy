/** The FINS layer's error surface (fins/src/protocol_violation.rs, fins/src/error.rs). */
module FinsErrors {
  import opened Num
  import opened Text

  /** The `std::io::ErrorKind`s the model distinguishes. A short read is
      `UnexpectedEof`; every other transport failure is `OtherIo`. */
  datatype IoErrorKind = UnexpectedEof | OtherIo

  /** A byte on the wire that the FINS codecs refuse; the offending byte is kept. */
  datatype ProtocolViolation =
    | InvalidMemoryAreaCode(rawCode: byte)
    | InvalidInformationControlField(rawIcf: byte)

  datatype Error = Violation(violation: ProtocolViolation) | Io(kind: IoErrorKind)

  /** The `Display` text of a violation; the raw wrappers print through their
      derived `Debug`, e.g. `RawMemoryAreaCode(130)`. */
  function Describe(v: ProtocolViolation): string {
    match v
    case InvalidMemoryAreaCode(b) =>
      "Invalid FINS memory area code: RawMemoryAreaCode(" + Decimal(b as nat) + ")"
    case InvalidInformationControlField(b) =>
      "Invalid FINS information control field: RawInformationControlField(" + Decimal(b as nat) + ")"
  }
}
