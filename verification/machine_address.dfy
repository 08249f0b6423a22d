/** A FINS machine address: network, node and unit, one byte each. */
module MachineAddresses {
  import opened Num

  datatype MachineAddress = MachineAddress(network: byte, node: byte, unit: byte)

  /** The packed `RawMachineAddress`: three bytes, no padding. */
  type RawMachineAddress = b: seq<byte> | |b| == 3 witness [0, 0, 0]

  /** Network, node, unit in that order, copied unchanged. */
  function ToRaw(a: MachineAddress): (raw: RawMachineAddress)
    ensures raw[0] == a.network && raw[1] == a.node && raw[2] == a.unit
  {
    [a.network, a.node, a.unit]
  }

  /** Every byte triple is accepted; nothing is validated. */
  function FromRaw(raw: RawMachineAddress): (a: MachineAddress)
    ensures ToRaw(a) == raw
  {
    MachineAddress(raw[0], raw[1], raw[2])
  }

  lemma RoundTrip(a: MachineAddress)
    ensures FromRaw(ToRaw(a)) == a
  {
  }
}
