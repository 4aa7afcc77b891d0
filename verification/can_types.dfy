/** Signal layouts and decoded signals. */
module CanTypes {
  import opened Bytes

  /** One signal of a CAN message: a field of bits, and how its raw value becomes a physical one. */
  datatype SignalDef = SignalDef(
    name: string, startBit: byte, length: byte, isSigned: bool, isLittleEndian: bool,
    scale: real, offset: real, minVal: real, maxVal: real, unit: string)

  datatype MessageDef = MessageDef(canId: uint32, name: string, length: byte, signals: seq<SignalDef>)

  datatype DecodedSignal = DecodedSignal(name: string, value: real, unit: string)
}
