/**
 * What ReceiveMessage computes from the transport's fragment reports (message fragmentation,
 * section 5.4 of RFC 6455): the reports it consumes, the bytes it lays end to end in the buffer,
 * the slices it hands the transport and the message it returns.
 */
module Reassembly {
  import opened Types
  import opened OpCodes

  /** Some report in `fs` is flagged end-of-message. */
  predicate HasEnd(fs: seq<Fragment>) {
    exists i :: 0 <= i < |fs| && fs[i].endOfMessage
  }

  /** The index of the first end-of-message report. */
  function FirstEnd(fs: seq<Fragment>): (k: nat)
    requires HasEnd(fs)
    ensures k < |fs| && fs[k].endOfMessage
    ensures forall j :: 0 <= j < k ==> !fs[j].endOfMessage
  {
    if fs[0].endOfMessage then 0
    else
      assert HasEnd(fs[1..]) by {
        var i :| 0 <= i < |fs| && fs[i].endOfMessage;
        assert fs[1..][i - 1] == fs[i];
      }
      1 + FirstEnd(fs[1..])
  }

  /** The reports one ReceiveMessage call consumes: up to and including the first end-of-message one. */
  function Consumed(fs: seq<Fragment>): (c: seq<Fragment>)
    requires HasEnd(fs)
    ensures |c| == FirstEnd(fs) + 1 && c[|c| - 1].endOfMessage
    ensures forall j :: 0 <= j < |c| - 1 ==> !c[j].endOfMessage
  {
    fs[..FirstEnd(fs) + 1]
  }

  /** The sum of the reported byte counts. */
  function TotalCount(fs: seq<Fragment>): (total: nat) {
    if fs == [] then 0 else fs[0].Count() + TotalCount(fs[1..])
  }

  /** The fragments' bytes laid end to end in arrival order. */
  function Payload(fs: seq<Fragment>): (payload: seq<byte>) {
    if fs == [] then [] else fs[0].bytes + Payload(fs[1..])
  }

  /**
   * What `ReceiveMessage` demands of the transport: every report through the first end-of-message one
   * fits in the slice it was handed. Stated on the running total; FitsIffEachSliceFits shows it is
   * the per-slice condition.
   */
  predicate Fits(fs: seq<Fragment>, capacity: int) {
    HasEnd(fs) && TotalCount(Consumed(fs)) <= capacity
  }

  /** Report `i` is no longer than the slice `[TotalCount(fs[..i]) .. capacity)` it is written into. */
  predicate EachSliceFits(fs: seq<Fragment>, capacity: int) {
    HasEnd(fs) &&
    forall i :: 0 <= i <= FirstEnd(fs) ==> fs[i].Count() <= capacity - TotalCount(fs[..i])
  }

  /**
   * The receive calls the loop makes, in order: call `i` is handed the suffix of the buffer that
   * starts at the running count of the reports before it.
   */
  function ReceiveCalls(fs: seq<Fragment>, capacity: int, cancel: CancellationToken): (calls: seq<TransportCall>)
    ensures |calls| == |fs|
  {
    seq(|fs|, i requires 0 <= i < |fs| =>
      ReceiveCall(Segment(TotalCount(fs[..i]), capacity - TotalCount(fs[..i])), cancel))
  }

  /**
   * The value ReceiveMessage returns: `buffer[0 .. count)` with the total count of the consumed
   * reports, tagged with the translation of the opcode of the last consumed (end-of-message) report.
   */
  function ReceiveOutcome(fs: seq<Fragment>): (r: Result<ReceivedMessage>)
    requires HasEnd(fs)
    ensures r.Ok? <==> IsKnownOpCode(fs[FirstEnd(fs)].opCode)
    ensures r.Ok? ==> r.value.segment == Segment(0, |Payload(Consumed(fs))|)
    ensures r.Ok? ==> MessageTypeEnumToOpCode(r.value.messageType) == Ok(fs[FirstEnd(fs)].opCode)
    ensures r.Err? ==> r.error == OpCodeOutOfRange(fs[FirstEnd(fs)].opCode)
  {
    PayloadLength(Consumed(fs));
    match MessageTypeOpCodeToEnum(fs[FirstEnd(fs)].opCode)
    case Ok(t) => Ok(ReceivedMessage(Segment(0, TotalCount(Consumed(fs))), t))
    case Err(e) => Err(e)
  }

  /** The returned length is the length of the assembled payload. */
  lemma {:induction false} PayloadLength(fs: seq<Fragment>)
    ensures |Payload(fs)| == TotalCount(fs)
  {
    if fs != [] {
      PayloadLength(fs[1..]);
    }
  }

  /** Appending one report appends its bytes to the payload. */
  lemma {:induction false} PayloadSnoc(fs: seq<Fragment>, f: Fragment)
    ensures Payload(fs + [f]) == Payload(fs) + f.bytes
    ensures TotalCount(fs + [f]) == TotalCount(fs) + f.Count()
  {
    if fs == [] {
      assert fs + [f] == [f];
    } else {
      assert (fs + [f])[1..] == fs[1..] + [f];
      PayloadSnoc(fs[1..], f);
    }
  }

  /** The running count never decreases along the reports. */
  lemma {:induction false} TotalCountPrefix(fs: seq<Fragment>, i: nat, j: nat)
    requires i <= j <= |fs|
    ensures TotalCount(fs[..i]) <= TotalCount(fs[..j])
    decreases j - i
  {
    if i < j {
      TotalCountPrefix(fs, i, j - 1);
      assert fs[..j] == fs[..j - 1] + [fs[j - 1]];
      PayloadSnoc(fs[..j - 1], fs[j - 1]);
    }
  }

  /** The first report meeting the end-of-message characterisation is the one FirstEnd finds. */
  lemma FirstEndUnique(fs: seq<Fragment>, k: nat)
    requires k < |fs| && fs[k].endOfMessage
    requires forall j :: 0 <= j < k ==> !fs[j].endOfMessage
    ensures HasEnd(fs) && FirstEnd(fs) == k
  {
  }

  /** The total-count condition holds exactly when every report fits the slice it is handed. */
  lemma FitsIffEachSliceFits(fs: seq<Fragment>, capacity: int)
    ensures Fits(fs, capacity) <==> EachSliceFits(fs, capacity)
  {
    if HasEnd(fs) {
      var k := FirstEnd(fs);
      assert Consumed(fs) == fs[..k + 1];
      assert fs[..k + 1] == fs[..k] + [fs[k]];
      PayloadSnoc(fs[..k], fs[k]);
      if Fits(fs, capacity) {
        forall i | 0 <= i <= k
          ensures fs[i].Count() <= capacity - TotalCount(fs[..i])
        {
          assert fs[..i + 1] == fs[..i] + [fs[i]];
          PayloadSnoc(fs[..i], fs[i]);
          TotalCountPrefix(fs, i + 1, k + 1);
        }
      }
    }
  }

  /** The receive calls for one more report are the previous ones plus the call for that report. */
  lemma ReceiveCallsSnoc(fs: seq<Fragment>, i: nat, capacity: int, cancel: CancellationToken)
    requires i < |fs|
    ensures ReceiveCalls(fs[..i + 1], capacity, cancel) ==
      ReceiveCalls(fs[..i], capacity, cancel) +
      [ReceiveCall(Segment(TotalCount(fs[..i]), capacity - TotalCount(fs[..i])), cancel)]
  {
    var a := ReceiveCalls(fs[..i + 1], capacity, cancel);
    var b := ReceiveCalls(fs[..i], capacity, cancel);
    forall j | 0 <= j < i
      ensures a[j] == b[j]
    {
      assert fs[..i + 1][..j] == fs[..i][..j];
    }
    assert fs[..i + 1][..i] == fs[..i];
  }

  /**
   * One receive call on the unused tail: a buffer holding `payload` followed by the original
   * contents, with `bytes` written right after `payload`, holds `payload + bytes` followed by the
   * rest of the original contents.
   */
  lemma WriteExtendsPayload(original: seq<byte>, payload: seq<byte>, bytes: seq<byte>)
    requires |payload| + |bytes| <= |original|
    ensures var before := payload + original[|payload|..];
      before[..|payload|] + bytes + before[|payload| + |bytes|..] ==
      (payload + bytes) + original[|payload| + |bytes|..]
  {
    var before := payload + original[|payload|..];
    assert before[..|payload|] == payload;
    assert before[|payload| + |bytes|..] == original[|payload| + |bytes|..];
  }

  /**
   * The buffer after the first `n` reports of a message: their payload followed by what the
   * buffer originally held beyond it.
   */
  ghost function Filled(fs: seq<Fragment>, n: nat, original: seq<byte>): (buffer: seq<byte>)
    requires n <= |fs| && TotalCount(fs[..n]) <= |original|
    ensures |buffer| == |original|
  {
    PayloadLength(fs[..n]);
    Payload(fs[..n]) + original[TotalCount(fs[..n])..]
  }

  /**
   * The buffer part of one iteration: writing report `i` into the tail that starts at the running
   * count turns the buffer filled with `i` reports into the buffer filled with `i + 1`.
   */
  lemma FilledStep(fs: seq<Fragment>, i: nat, original: seq<byte>, before: seq<byte>, after: seq<byte>)
    requires i < |fs| && TotalCount(fs[..i]) + fs[i].Count() <= |original|
    requires before == Filled(fs, i, original)
    requires after == before[..TotalCount(fs[..i])] + fs[i].bytes + before[TotalCount(fs[..i]) + fs[i].Count()..]
    ensures TotalCount(fs[..i + 1]) == TotalCount(fs[..i]) + fs[i].Count()
    ensures after == Filled(fs, i + 1, original)
  {
    assert fs[..i + 1] == fs[..i] + [fs[i]];
    PayloadSnoc(fs[..i], fs[i]);
    PayloadLength(fs[..i]);
    WriteExtendsPayload(original, Payload(fs[..i]), fs[i].bytes);
  }

  /**
   * The counting part of one iteration: report `i` of the message fits the tail it is handed and
   * the running count grows by the report's count.
   */
  lemma ReceiveStep(fs: seq<Fragment>, i: nat, capacity: int)
    requires Fits(fs, capacity) && i <= FirstEnd(fs)
    ensures TotalCount(fs[..i]) + fs[i].Count() <= capacity
    ensures TotalCount(fs[..i + 1]) == TotalCount(fs[..i]) + fs[i].Count()
  {
    FitsIffEachSliceFits(fs, capacity);
    assert fs[..i + 1] == fs[..i] + [fs[i]];
    PayloadSnoc(fs[..i], fs[i]);
  }

  /**
   * The call-log part of one iteration: a log holding the receive calls for `i` reports, followed
   * by one more receive call for the tail at the running count, holds those for `i + 1` reports.
   */
  lemma ReceiveCallsStep(fs: seq<Fragment>, i: nat, capacity: int, cancel: CancellationToken,
                         calls0: seq<TransportCall>, before: seq<TransportCall>, after: seq<TransportCall>)
    requires i < |fs|
    requires before == calls0 + ReceiveCalls(fs[..i], capacity, cancel)
    requires after == before + [ReceiveCall(Segment(TotalCount(fs[..i]), capacity - TotalCount(fs[..i])), cancel)]
    ensures after == calls0 + ReceiveCalls(fs[..i + 1], capacity, cancel)
  {
    ReceiveCallsSnoc(fs, i, capacity, cancel);
  }

  /** Under Fits, every slice handed to the transport lies within the buffer and runs to its end. */
  lemma ReceiveSlicesInBounds(fs: seq<Fragment>, capacity: int, cancel: CancellationToken, i: nat)
    requires Fits(fs, capacity)
    requires i < |Consumed(fs)|
    ensures ReceiveCalls(Consumed(fs), capacity, cancel)[i].segment.offset == TotalCount(fs[..i])
    ensures 0 <= ReceiveCalls(Consumed(fs), capacity, cancel)[i].segment.offset <= capacity
    ensures var s := ReceiveCalls(Consumed(fs), capacity, cancel)[i].segment;
      s.offset + s.count == capacity
  {
    var c := Consumed(fs);
    assert c[..i] == fs[..i];
    assert c == fs[..|c|];
    TotalCountPrefix(fs, i, |c|);
  }

  /** Two report sequences carrying the same bytes, report by report, have the same total and payload. */
  lemma {:induction false} SameBytesSamePayload(fs: seq<Fragment>, gs: seq<Fragment>)
    requires |fs| == |gs|
    requires forall i :: 0 <= i < |fs| ==> fs[i].bytes == gs[i].bytes
    ensures TotalCount(fs) == TotalCount(gs) && Payload(fs) == Payload(gs)
  {
    if fs != [] {
      SameBytesSamePayload(fs[1..], gs[1..]);
    }
  }

  /**
   * Only the opcode of the end-of-message report matters: changing the opcodes of the earlier
   * fragments changes neither the message type nor the assembled region.
   */
  lemma IgnoresEarlierOpCodes(fs: seq<Fragment>, gs: seq<Fragment>)
    requires HasEnd(fs) && |fs| == |gs|
    requires forall i :: 0 <= i < |fs| ==>
      gs[i].endOfMessage == fs[i].endOfMessage && gs[i].bytes == fs[i].bytes
    requires gs[FirstEnd(fs)].opCode == fs[FirstEnd(fs)].opCode
    ensures HasEnd(gs)
    ensures Payload(Consumed(gs)) == Payload(Consumed(fs))
    ensures ReceiveOutcome(gs) == ReceiveOutcome(fs)
  {
    var k := FirstEnd(fs);
    FirstEndUnique(gs, k);
    SameBytesSamePayload(fs[..k + 1], gs[..k + 1]);
  }

  /** Reports after the first end-of-message one are not consumed and do not affect the result. */
  lemma IgnoresLaterReports(fs: seq<Fragment>, rest: seq<Fragment>)
    requires HasEnd(fs)
    ensures HasEnd(Consumed(fs) + rest)
    ensures Consumed(Consumed(fs) + rest) == Consumed(fs)
    ensures ReceiveOutcome(Consumed(fs) + rest) == ReceiveOutcome(fs)
  {
    var k := FirstEnd(fs);
    var gs := Consumed(fs) + rest;
    FirstEndUnique(gs, k);
    assert gs[..k + 1] == Consumed(fs);
  }

  /** Three fragments of 4, 4 and 2 bytes, all reporting the binary opcode: a 10-byte binary message. */
  lemma ThreeBinaryFragments(a: seq<byte>, b: seq<byte>, c: seq<byte>)
    requires |a| == 4 && |b| == 4 && |c| == 2
    ensures var fs := [Fragment(BINARY_OP, false, a), Fragment(BINARY_OP, false, b), Fragment(BINARY_OP, true, c)];
      HasEnd(fs) && Payload(Consumed(fs)) == a + b + c &&
      ReceiveOutcome(fs) == Ok(ReceivedMessage(Segment(0, 10), Binary))
  {
    var fs := [Fragment(BINARY_OP, false, a), Fragment(BINARY_OP, false, b), Fragment(BINARY_OP, true, c)];
    FirstEndUnique(fs, 2);
    assert Consumed(fs) == fs;
    assert fs[1..][1..] == [fs[2]];
    assert Payload([fs[2]]) == c + Payload([]);
    assert Payload(fs) == a + (b + c);
    PayloadLength(fs);
  }

  /**
   * A final fragment that reports the continuation opcode makes the whole call fail, whatever the
   * opcode of the first fragment.
   */
  lemma ContinuationFinalFragmentFails(first: Fragment, last: Fragment)
    requires !first.endOfMessage
    requires last.endOfMessage && last.opCode == CONTINUATION_OP
    ensures HasEnd([first, last])
    ensures ReceiveOutcome([first, last]) == Err(OpCodeOutOfRange(CONTINUATION_OP))
  {
    FirstEndUnique([first, last], 1);
  }
}
