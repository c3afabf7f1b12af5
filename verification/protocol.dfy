/** Constants of the serial link between the firmware and the control panel:
    packet capacities, pool sizes, the reserved command codes in both
    directions and the tags of the variable types. */
module Protocol {

  /** Payload capacity, in bytes, of a small and of a large packet. */
  const SmallCapacity: nat := 64
  const LargeCapacity: nat := 256

  /** Capacity and length live in 16-bit fields of the packet. */
  const FieldLimit: nat := 0x1_0000

  /** Number of slots in the small and in the large packet pool. */
  const SmallSlots: nat := 4
  const LargeSlots: nat := 2

  // Codes of frames sent by the control panel.
  const RecvNoop: bv8 := 128
  const RecvEcho: bv8 := 129
  const RecvRet: bv8 := 130
  const RecvGetByte: bv8 := 131
  const RecvGetWord: bv8 := 132
  const RecvGetDword: bv8 := 133
  const RecvGetString: bv8 := 134
  const RecvGetVars: bv8 := 135

  // Codes of frames sent to the control panel.
  const SendNoop: bv8 := 128
  const SendLogStr: bv8 := 129
  const SendRet: bv8 := 130

  /** The receive loop reads a byte above 127 as a frame marker. */
  predicate IsMarker(b: bv8) {
    127 < b
  }

  function InboundCodes(): seq<bv8> {
    [RecvNoop, RecvEcho, RecvRet, RecvGetByte, RecvGetWord, RecvGetDword, RecvGetString, RecvGetVars]
  }

  function OutboundCodes(): seq<bv8> {
    [SendNoop, SendLogStr, SendRet]
  }

  /** The constants agree with each other: every reserved code is a marker,
      both directions end a frame with the same byte, the capacities fit the
      16-bit fields, and each pool has room for distinct build and receive slots. */
  lemma ConstantsConsistent()
    ensures forall i :: 0 <= i < |InboundCodes()| ==> IsMarker(InboundCodes()[i])
    ensures forall i :: 0 <= i < |OutboundCodes()| ==> IsMarker(OutboundCodes()[i])
    ensures SendNoop == RecvNoop
    ensures SmallCapacity <= LargeCapacity < FieldLimit
    ensures 2 <= SmallSlots && 2 <= LargeSlots
  {
  }
}
