/**
 * The message socket facade: one object per connection that sends through the host's send
 * delegate, closes through its close delegate and reassembles fragmented messages from its receive
 * delegate into a caller-owned buffer.
 */
module Handlers {
  import opened Types
  import opened OpCodes
  import opened Reassembly

  /**
   * The host transport is modelled by two fields: `incoming`, the reports its receive delegate has
   * still to deliver, and `transportCalls`, every call made to its three delegates so far, in order.
   */
  class OwinWebSocket {
    var incoming: seq<Fragment>
    ghost var transportCalls: seq<TransportCall>

    constructor (incoming: seq<Fragment>)
      ensures this.incoming == incoming && transportCalls == []
    {
      this.incoming := incoming;
      transportCalls := [];
    }

    /** The facade does not track the close handshake: there is never a close status. */
    function CloseStatus(): (status: Option<int>)
      ensures status == None
    {
      None
    }

    /** Nor a close description. */
    function CloseStatusDescription(): (description: Option<string>)
      ensures description == None
    {
      None
    }

    /**
     * Sends one fragment: exactly one call of the send delegate with the data, the translated
     * opcode, the end-of-message flag and the token. A message type outside the named members
     * faults the returned task before the delegate is called.
     */
    method Send(data: seq<byte>, messageType: MessageType, endOfMessage: bool, cancel: CancellationToken)
      returns (outcome: Outcome)
      modifies this`transportCalls
      ensures messageType.IsNamed() ==>
        outcome == Pass &&
        transportCalls == old(transportCalls) +
          [SendCall(data, MessageTypeEnumToOpCode(messageType).value, endOfMessage, cancel)]
      ensures !messageType.IsNamed() ==>
        outcome == Fail(MessageTypeOutOfRange(messageType)) && transportCalls == old(transportCalls)
    {
      var opCode := MessageTypeEnumToOpCode(messageType);
      match opCode
      case Ok(op) =>
        transportCalls := transportCalls + [SendCall(data, op, endOfMessage, cancel)];
        outcome := Pass;
      case Err(e) =>
        outcome := Fail(e);
    }

    /** Send with the text message type. */
    method SendText(data: seq<byte>, endOfMessage: bool, cancel: CancellationToken)
      returns (outcome: Outcome)
      modifies this`transportCalls
      ensures outcome == Pass
      ensures transportCalls == old(transportCalls) + [SendCall(data, TEXT_OP, endOfMessage, cancel)]
    {
      outcome := Send(data, Text, endOfMessage, cancel);
    }

    /** Send with the binary message type. */
    method SendBinary(data: seq<byte>, endOfMessage: bool, cancel: CancellationToken)
      returns (outcome: Outcome)
      modifies this`transportCalls
      ensures outcome == Pass
      ensures transportCalls == old(transportCalls) + [SendCall(data, BINARY_OP, endOfMessage, cancel)]
    {
      outcome := Send(data, Binary, endOfMessage, cancel);
    }

    /**
     * Closes the connection: one call of the close delegate with the status code, the description
     * and the token, made directly and not through the send path.
     */
    method Close(closeStatus: int, closeDescription: string, cancel: CancellationToken)
      modifies this`transportCalls
      ensures transportCalls == old(transportCalls) + [CloseCall(closeStatus, closeDescription, cancel)]
    {
      transportCalls := transportCalls + [CloseCall(closeStatus, closeDescription, cancel)];
    }

    /**
     * One call of the host's receive delegate: it is handed `segment` of `buffer`, delivers its next
     * report and writes the report's bytes at the start of the segment.
     */
    method TransportReceive(buffer: array<byte>, segment: Segment, cancel: CancellationToken)
      returns (f: Fragment)
      requires incoming != []
      requires 0 <= segment.offset && segment.offset + segment.count <= buffer.Length
      requires incoming[0].Count() <= segment.count
      modifies this, buffer
      ensures f == old(incoming[0]) && incoming == old(incoming[1..])
      ensures transportCalls == old(transportCalls) + [ReceiveCall(segment, cancel)]
      ensures buffer[..] ==
        old(buffer[..])[..segment.offset] + f.bytes + old(buffer[..])[segment.offset + f.Count()..]
    {
      f := incoming[0];
      incoming := incoming[1..];
      transportCalls := transportCalls + [ReceiveCall(segment, cancel)];
      forall k | 0 <= k < |f.bytes| {
        buffer[segment.offset + k] := f.bytes[k];
      }
      assert buffer[..] ==
        old(buffer[..])[..segment.offset] + f.bytes + old(buffer[..])[segment.offset + f.Count()..];
    }

    /**
     * The do-while loop of ReceiveMessage: asks the transport to fill the unused tail of `buffer`
     * until a report is flagged end-of-message. Returns the running count and the last report.
     */
    method ReceiveFragments(buffer: array<byte>, cancel: CancellationToken)
      returns (count: int, last: Fragment)
      requires Fits(incoming, buffer.Length)
      modifies this, buffer
      ensures incoming == old(incoming)[FirstEnd(old(incoming)) + 1..]
      ensures transportCalls ==
        old(transportCalls) + ReceiveCalls(Consumed(old(incoming)), buffer.Length, cancel)
      ensures count == TotalCount(Consumed(old(incoming))) && last == old(incoming)[FirstEnd(old(incoming))]
      ensures buffer[..] == Filled(old(incoming), FirstEnd(old(incoming)) + 1, old(buffer[..]))
    {
      ghost var reports := incoming;
      ghost var original := buffer[..];
      ghost var calls0 := transportCalls;
      ghost var k := FirstEnd(reports);
      count := 0;
      last := Fragment(0, false, []);
      var done := false;
      ghost var i := 0;
      while !done
        invariant 0 <= i <= k + 1
        invariant done <==> i == k + 1
        invariant incoming == reports[i..]
        invariant count == TotalCount(reports[..i]) && count <= |original|
        invariant buffer[..] == Filled(reports, i, original)
        invariant transportCalls == calls0 + ReceiveCalls(reports[..i], buffer.Length, cancel)
        invariant i > 0 ==> last == reports[i - 1]
        decreases |reports| - i
      {
        ReceiveStep(reports, i, buffer.Length);
        ghost var before, callsBefore := buffer[..], transportCalls;
        var segment := Segment(count, buffer.Length - count);
        last := TransportReceive(buffer, segment, cancel);
        FilledStep(reports, i, original, before, buffer[..]);
        ReceiveCallsStep(reports, i, buffer.Length, cancel, calls0, callsBefore, transportCalls);
        count := count + last.Count();
        done := last.endOfMessage;
        i := i + 1;
      }
      assert i == k + 1 && reports[..i] == Consumed(reports);
    }

    /**
     * Receives one message: runs the receive loop, then returns `buffer[0 .. count)` tagged with
     * the translation of the opcode of the last report, the end-of-message one.
     */
    method ReceiveMessage(buffer: array<byte>, cancel: CancellationToken)
      returns (r: Result<ReceivedMessage>)
      requires Fits(incoming, buffer.Length)
      modifies this, buffer
      ensures incoming == old(incoming)[FirstEnd(old(incoming)) + 1..]
      ensures transportCalls ==
        old(transportCalls) + ReceiveCalls(Consumed(old(incoming)), buffer.Length, cancel)
      ensures buffer[..] ==
        Payload(Consumed(old(incoming))) + old(buffer[..])[TotalCount(Consumed(old(incoming)))..]
      ensures r == ReceiveOutcome(old(incoming))
    {
      var count, last := ReceiveFragments(buffer, cancel);
      var opCode := MessageTypeOpCodeToEnum(last.opCode);
      match opCode
      case Ok(t) => r := Ok(ReceivedMessage(Segment(0, count), t));
      case Err(e) => r := Err(e);
    }
  }
}
