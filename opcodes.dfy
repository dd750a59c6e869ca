/**
 * The opcode translator: the closed mapping between WebSocketMessageType and the wire opcodes of
 * section 5.2 of RFC 6455 (%x1 text frame, %x2 binary frame, %x8 connection close).
 */
module OpCodes {
  import opened Types

  const TEXT_OP: int := 0x1
  const BINARY_OP: int := 0x2
  const CLOSE_OP: int := 0x8

  /** The continuation opcode of section 5.2 of RFC 6455; the translator has no case for it. */
  const CONTINUATION_OP: int := 0x0

  /** The opcodes the translator accepts. */
  predicate IsKnownOpCode(opCode: int) {
    opCode == TEXT_OP || opCode == BINARY_OP || opCode == CLOSE_OP
  }

  /** Wire opcode to message type; any other opcode raises ArgumentOutOfRangeException. */
  function MessageTypeOpCodeToEnum(opCode: int): (r: Result<MessageType>)
    ensures r.Ok? <==> IsKnownOpCode(opCode)
    ensures r.Ok? ==> r.value.IsNamed() && MessageTypeEnumToOpCode(r.value) == Ok(opCode)
    ensures r.Err? ==> r.error == OpCodeOutOfRange(opCode)
  {
    if opCode == TEXT_OP then Ok(Text)
    else if opCode == BINARY_OP then Ok(Binary)
    else if opCode == CLOSE_OP then Ok(Close)
    else Err(OpCodeOutOfRange(opCode))
  }

  /** Message type to wire opcode; a value outside the named members raises ArgumentOutOfRangeException. */
  function MessageTypeEnumToOpCode(messageType: MessageType): (r: Result<int>)
    ensures r.Ok? <==> messageType.IsNamed()
    ensures r.Ok? ==> IsKnownOpCode(r.value)
    ensures r.Err? ==> r.error == MessageTypeOutOfRange(messageType)
  {
    match messageType
    case Text => Ok(TEXT_OP)
    case Binary => Ok(BINARY_OP)
    case Close => Ok(CLOSE_OP)
    case Undefined(_) => Err(MessageTypeOutOfRange(messageType))
  }

  /** The translation table, member by member. */
  lemma OpCodeTable()
    ensures MessageTypeEnumToOpCode(Text) == Ok(0x1)
    ensures MessageTypeEnumToOpCode(Binary) == Ok(0x2)
    ensures MessageTypeEnumToOpCode(Close) == Ok(0x8)
    ensures MessageTypeOpCodeToEnum(0x1) == Ok(Text)
    ensures MessageTypeOpCodeToEnum(0x2) == Ok(Binary)
    ensures MessageTypeOpCodeToEnum(0x8) == Ok(Close)
  {
  }

  /** Enum to opcode and back gives the original message type, for every named member. */
  lemma EnumRoundTrip(messageType: MessageType)
    requires messageType.IsNamed()
    ensures MessageTypeEnumToOpCode(messageType).Ok?
    ensures MessageTypeOpCodeToEnum(MessageTypeEnumToOpCode(messageType).value) == Ok(messageType)
  {
  }

  /** Opcode to enum and back gives the original opcode, for every accepted opcode. */
  lemma OpCodeRoundTrip(opCode: int)
    requires IsKnownOpCode(opCode)
    ensures MessageTypeOpCodeToEnum(opCode).Ok?
    ensures MessageTypeEnumToOpCode(MessageTypeOpCodeToEnum(opCode).value) == Ok(opCode)
  {
  }

  /** Distinct message types get distinct opcodes. */
  lemma EnumToOpCodeInjective(a: MessageType, b: MessageType)
    requires MessageTypeEnumToOpCode(a).Ok? && MessageTypeEnumToOpCode(b).Ok?
    requires MessageTypeEnumToOpCode(a) == MessageTypeEnumToOpCode(b)
    ensures a == b
  {
  }

  /** Every opcode outside {0x1, 0x2, 0x8}, the continuation opcode among them, is rejected. */
  lemma UnknownOpCodeRejected(opCode: int)
    requires opCode != TEXT_OP && opCode != BINARY_OP && opCode != CLOSE_OP
    ensures MessageTypeOpCodeToEnum(opCode) == Err(OpCodeOutOfRange(opCode))
  {
  }

  /** The continuation opcode in particular yields no message type. */
  lemma ContinuationOpCodeRejected()
    ensures MessageTypeOpCodeToEnum(CONTINUATION_OP) == Err(OpCodeOutOfRange(0x0))
  {
  }
}
