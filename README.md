# OwinWebSocket: verified model

A Dafny model of `OwinWebSocket`, the per-connection WebSocket facade of Owin.WebSocket. It sits
between application code and the three delegates the OWIN host supplies: send a frame, receive a
frame, close the connection. The model covers:

- **the opcode translator**: `WebSocketMessageType` to and from the RFC 6455 section 5.2 opcodes
  (Text 0x1, Binary 0x2, Close 0x8). Any other value raises an out-of-range error.
- **the receive loop** (`ReceiveMessage`): message fragmentation as in section 5.4 of RFC 6455. The
  loop asks the transport to fill the unused tail of a caller-owned buffer until a fragment is
  flagged end-of-message. It returns `buffer[0 .. count)`, tagged with the message type of the last
  fragment.
- **send and close delegation**: `Send`, `SendText`, `SendBinary` and `Close`.

Modules:

- `Types`: value types: bytes, cancellation tokens, the message type enumeration, segments,
  fragment reports, transport calls, and results.
- `OpCodes`: the translator and its round-trip lemmas.
- `Reassembly`: specification functions for what one receive call consumes, writes, hands the
  transport and returns, with lemmas about them.
- `Handlers`: the class `OwinWebSocket`. It has two fields. `incoming` holds the fragment reports the
  host's receive delegate has yet to deliver. `transportCalls` logs every call made to the three host
  delegates, in order; it is a ghost field. The methods are proved against the `Reassembly` functions.

`WebSocketMessageType` is a C# enum, so a variable of that type can hold any integer. The model gives
such values the constructor `Undefined(raw)`; `raw` excludes 0, 1 and 2, the underlying values of
Text, Binary and Close. This is why the `default:` branch of
`MessageTypeEnumToOpCode` can be reached, and why `Send` can fail for such values.

`ReceiveMessage` takes the message type from the opcode of the last report, the end-of-message
one (`OwinWebSocket.cs:110`), not from the first fragment. `Reassembly.IgnoresEarlierOpCodes` proves
that the opcodes of earlier fragments have no effect. In RFC 6455 continuation frames carry opcode
0x0, so a transport that reports 0x0 on the final fragment makes the call fail
(`Reassembly.ContinuationFinalFragmentFails`).

## Model

| member | source | states |
|---|---|---|
| `OpCodes.MessageTypeOpCodeToEnum` | src/Owin.WebSocket/Handlers/OwinWebSocket.cs:113-126 | succeeds exactly for the opcodes 0x1, 0x2, 0x8; every result is a named member that translates back to the same opcode; any other opcode fails with an out-of-range error naming that opcode |
| `OpCodes.MessageTypeEnumToOpCode` | src/Owin.WebSocket/Handlers/OwinWebSocket.cs:128-141 | succeeds exactly for Text, Binary and Close, always with an opcode in {0x1, 0x2, 0x8}; any other enum value fails with an out-of-range error naming that value |
| `OpCodes.OpCodeTable` | src/Owin.WebSocket/Handlers/OwinWebSocket.cs:47-49 | the mapping is exactly Text↔0x1, Binary↔0x2, Close↔0x8, in both directions |
| `OpCodes.EnumRoundTrip` | src/Owin.WebSocket/Handlers/OwinWebSocket.cs:113-141 | enum → opcode → enum gives back every named message type |
| `OpCodes.OpCodeRoundTrip` | src/Owin.WebSocket/Handlers/OwinWebSocket.cs:113-141 | opcode → enum → opcode gives back every opcode in {0x1, 0x2, 0x8} |
| `OpCodes.EnumToOpCodeInjective` | src/Owin.WebSocket/Handlers/OwinWebSocket.cs:128-141 | distinct message types never share an opcode |
| `OpCodes.UnknownOpCodeRejected` | src/Owin.WebSocket/Handlers/OwinWebSocket.cs:123-124 | every opcode outside {0x1, 0x2, 0x8} yields an out-of-range error and no message type |
| `OpCodes.ContinuationOpCodeRejected` | src/Owin.WebSocket/Handlers/OwinWebSocket.cs:123-124 | the continuation opcode 0x0 is rejected too |
| `Reassembly.FirstEnd` | src/Owin.WebSocket/Handlers/OwinWebSocket.cs:101-108 | the loop stops at the index of the first end-of-message report: that report is flagged and none before it is |
| `Reassembly.FirstEndUnique` | src/Owin.WebSocket/Handlers/OwinWebSocket.cs:101-108 | any index with that characterisation is the one the loop stops at |
| `Reassembly.ReceiveOutcome` | src/Owin.WebSocket/Handlers/OwinWebSocket.cs:110 | the result succeeds exactly when the final report's opcode is known; the segment is `(0, length of the assembled payload)`; the message type translates back to the final report's opcode; otherwise the error names that opcode |
| `Reassembly.PayloadLength` | src/Owin.WebSocket/Handlers/OwinWebSocket.cs:106 | the running count equals the number of bytes laid end to end |
| `Reassembly.PayloadSnoc` | src/Owin.WebSocket/Handlers/OwinWebSocket.cs:103-106 | one more report appends its bytes after the earlier ones and adds its count to the total |
| `Reassembly.TotalCountPrefix` | src/Owin.WebSocket/Handlers/OwinWebSocket.cs:106 | the running count never decreases from one iteration to the next |
| `Reassembly.FitsIffEachSliceFits` | src/Owin.WebSocket/Handlers/OwinWebSocket.cs:103-106 | the consumed reports' total fits in the buffer exactly when every report fits in the slice it was handed |
| `Reassembly.ReceiveCallsSnoc` | src/Owin.WebSocket/Handlers/OwinWebSocket.cs:103-104 | each iteration adds one receive call, for the slice starting at the current count |
| `Reassembly.ReceiveSlicesInBounds` | src/Owin.WebSocket/Handlers/OwinWebSocket.cs:99-106 | under the fit condition, the slice offset of every iteration is the running count, satisfies `0 <= count <= buffer.Length`, and the slice runs to the end of the buffer |
| `Reassembly.SameBytesSamePayload` | src/Owin.WebSocket/Handlers/OwinWebSocket.cs:106 | reports carrying the same bytes give the same total and the same assembled payload |
| `Reassembly.IgnoresEarlierOpCodes` | src/Owin.WebSocket/Handlers/OwinWebSocket.cs:110 | changing the opcodes of the non-final fragments changes neither the assembled region nor the result |
| `Reassembly.IgnoresLaterReports` | src/Owin.WebSocket/Handlers/OwinWebSocket.cs:101-108 | reports after the first end-of-message one are not consumed and do not affect the result |
| `Reassembly.ThreeBinaryFragments` | src/Owin.WebSocket/Handlers/OwinWebSocket.cs:99-110 | three binary fragments of 4, 4 and 2 bytes, the last one final, give a 10-byte binary message made of their bytes in order |
| `Reassembly.ContinuationFinalFragmentFails` | src/Owin.WebSocket/Handlers/OwinWebSocket.cs:110 | a two-fragment message whose final fragment reports 0x0 fails, whatever the first fragment reported |
| `Handlers.OwinWebSocket.constructor` | src/Owin.WebSocket/Handlers/OwinWebSocket.cs:62-68 | a new facade has made no transport call yet |
| `Handlers.OwinWebSocket.Send` | src/Owin.WebSocket/Handlers/OwinWebSocket.cs:80-90 | for a named message type, exactly one send call is logged with the same data, the translated opcode, the same end-of-message flag and the same token; otherwise the outcome is the out-of-range fault and no call is made |
| `Handlers.OwinWebSocket.SendText` | src/Owin.WebSocket/Handlers/OwinWebSocket.cs:70-73 | one send call with opcode 0x1 and the caller's data, flag and token |
| `Handlers.OwinWebSocket.SendBinary` | src/Owin.WebSocket/Handlers/OwinWebSocket.cs:75-78 | one send call with opcode 0x2 and the caller's data, flag and token |
| `Handlers.OwinWebSocket.Close` | src/Owin.WebSocket/Handlers/OwinWebSocket.cs:92-95 | one close call with the status code, the description and the token, made directly, not through the send path |
| `Handlers.OwinWebSocket.CloseStatus` | src/Owin.WebSocket/Handlers/OwinWebSocket.cs:58 | always returns `None`: the facade never reports a close status |
| `Handlers.OwinWebSocket.CloseStatusDescription` | src/Owin.WebSocket/Handlers/OwinWebSocket.cs:60 | always returns `None`: the facade never reports a close description |
| `Handlers.OwinWebSocket.TransportReceive` | src/Owin.WebSocket/Handlers/OwinWebSocket.cs:103-104 | one receive call for a segment inside the buffer, whose report fits that segment, consumes the next report; its bytes go to the start of the segment and the rest of the buffer is unchanged |
| `Handlers.OwinWebSocket.ReceiveFragments` | src/Owin.WebSocket/Handlers/OwinWebSocket.cs:99-108 | the do-while loop: consumes exactly the reports up to and including the first end-of-message one, logs one receive call per report for the buffer suffix at the running count, returns the summed count and the last report, and leaves the buffer holding the consumed payload followed by its original contents |
| `Reassembly.FilledStep` | src/Owin.WebSocket/Handlers/OwinWebSocket.cs:103-106 | writing the next report at the running count turns the buffer filled with `i` reports into the buffer filled with `i + 1` |
| `Reassembly.ReceiveStep` | src/Owin.WebSocket/Handlers/OwinWebSocket.cs:103-106 | under the fit condition, each consumed report fits the tail it is handed and adds its count to the running count |
| `Reassembly.ReceiveCallsStep` | src/Owin.WebSocket/Handlers/OwinWebSocket.cs:103-104 | one iteration's receive call, for the tail at the running count, extends the log of receive calls by exactly one |
| `Handlers.OwinWebSocket.ReceiveMessage` | src/Owin.WebSocket/Handlers/OwinWebSocket.cs:97-111 | consumes exactly the reports up to and including the first end-of-message one; logs one receive call per report, each for the buffer suffix at the running count; leaves the fragments' bytes end to end in `buffer[0 .. count)` and the rest of the buffer untouched; returns `ReceiveOutcome` of the reports |

## Left out

- `TaskQueue`: its ordering, draining and failure isolation are not modelled. It is a separate class, and its concurrent draining is outside this model. `Send` logs its transport call at once, so the model assumes the queue runs work in FIFO order and one item at a time.
- async/await, `Task` completion and cancellation: these are runtime plumbing. A `Task` is modelled as its outcome, and a `CancellationToken` is an opaque value passed through unchanged.
- `Handlers.OwinWebSocket.Send`, `Handlers.OwinWebSocket.SendText`, `Handlers.OwinWebSocket.SendBinary`: the three host delegates are assumed never to fault. In the C# code the returned `Task` also faults when the send delegate faults; the model's `Pass` outcome for every named message type does not capture that.
- The constructor's OWIN environment lookups and delegate casts (`OwinWebSocket.cs:64-66`) are host wiring. The constructor takes the transport's pending reports instead.
- WebSocket framing (masking, frame headers, ping/pong) is done by the host transport.
- `Handlers.OwinWebSocket.ReceiveMessage`: requires the consumed reports to fit in the buffer. The C# code has no explicit check for buffer exhaustion. An overflow would only appear as an exception from the `ArraySegment` constructor, so it is a precondition on the transport's reports and not an error result.
- `Handlers.OwinWebSocket.ReceiveMessage`: the loop has no iteration bound in the C# code. The model requires that an end-of-message report is pending. A transport that never sends one is not modelled.
- Negative byte counts from the transport are not modelled. A report's count is the number of bytes it carries.
- `ArraySegment<byte>` send data is modelled as the byte values it holds when `Send` is called. The model does not capture aliasing with the caller's array, which the transport reads later, when the queue runs the work.
- `WebSocketCloseStatus` is carried as its underlying integer, on which the `(int)` cast of `Close` is the identity. A null `closeDescription` is not distinguished from a string.
