/** Values shared by the translator, the reassembly specification and the socket facade. */
module Types {

  /** One octet of a message payload. */
  newtype byte = x: int | 0 <= x < 256

  /** A cancellation handle: passed through to the transport unchanged, never inspected. */
  datatype CancellationToken = CancellationToken(id: nat)

  /** A nullable value, as the facade's `CloseStatus` / `CloseStatusDescription` accessors return. */
  datatype Option<T> = None | Some(value: T)

  /**
   * An underlying integer of WebSocketMessageType that is none of its named members, which are
   * Text = 0, Binary = 1 and Close = 2.
   */
  type UnnamedValue = x: int | x < 0 || 2 < x witness 3

  /**
   * System.Net.WebSockets.WebSocketMessageType. A C# enum variable can hold any integer, not only
   * its named members; `Undefined(raw)` stands for such a value, `raw` being its underlying integer.
   * The values 0, 1 and 2 are Text, Binary and Close, so `raw` is never one of them.
   */
  datatype MessageType = Text | Binary | Close | Undefined(raw: UnnamedValue) {
    /** One of the three named members of the enumeration. */
    predicate IsNamed() {
      !Undefined?
    }
  }

  /** The two ArgumentOutOfRangeException throws of the translator. */
  datatype Error =
    | OpCodeOutOfRange(opCode: int)
    | MessageTypeOutOfRange(messageType: MessageType)

  /** A value, or the exception that a call raised instead. */
  datatype Result<T> = Ok(value: T) | Err(error: Error)

  /** Completion of a Task that carries no value: it ran to completion or it faulted. */
  datatype Outcome = Pass | Fail(error: Error)

  /** An ArraySegment<byte> over a buffer the caller owns: an offset and a length. */
  datatype Segment = Segment(offset: int, count: int)

  /**
   * One report of the transport's receive delegate: the opcode it reports, its end-of-message flag
   * and the bytes it wrote at the start of the segment it was handed (the reported count is their
   * number).
   */
  datatype Fragment = Fragment(opCode: int, endOfMessage: bool, bytes: seq<byte>) {
    /** The byte count the transport reports for this fragment. */
    function Count(): (n: nat) {
      |bytes|
    }
  }

  /** A ReceiveMessage result: the region `buffer[offset .. offset + count)` and its message type. */
  datatype ReceivedMessage = ReceivedMessage(segment: Segment, messageType: MessageType)

  /** One call of one of the three host-supplied transport delegates, with its arguments. */
  datatype TransportCall =
    | SendCall(data: seq<byte>, opCode: int, endOfMessage: bool, cancel: CancellationToken)
    | ReceiveCall(segment: Segment, cancel: CancellationToken)
    | CloseCall(closeStatus: int, closeDescription: string, cancel: CancellationToken)
}
