/** Sequence numbers of a FIX session: what fix_session_recv and fix_session_admin do to the expected
    number, and what the peer sees sent back (lib/proto/fix_session.c, tools/fix/fix_common.c). */
module FixSession {
  import opened Wrappers

  /** Counters are unsigned and 64 bits wide. */
  const WRAP: nat := 0x1_0000_0000_0000_0000

  type Counter = n: nat | n < WRAP

  function Inc(n: Counter): Counter { (n + 1) % WRAP }

  function Dec(n: Counter): Counter { (n + WRAP - 1) % WRAP }

  /** A signed field value stored in an unsigned counter. */
  function ToCounter(n: int): Counter { n % WRAP }

  /** The admin message types; every other type is Other. */
  datatype Kind = Heartbeat | TestRequest | ResendRequest | SequenceReset | Other

  datatype Message = Message(
    kind: Kind, seqNum: Counter, possDup: bool,
    gapFillFlag: Option<string>, newSeqNo: Option<int>,
    beginSeqNo: Option<int>, endSeqNo: Option<int>, testReqId: Option<string>)

  /** What the session sends, each with the MsgSeqNum it goes out under. */
  datatype Reply =
    | ResendRequested(num: Counter, begin: Counter, end: Counter)
    | HeartbeatSent(num: Counter, id: string)
    | GapFilled(num: Counter, newSeqNo: Counter)
    | Rejected(num: Counter, refSeqNum: Counter)
    | LoggedOut(num: Counter)

  /** fix_msg_expected */
  predicate Expected(inSeq: Counter, m: Message) {
    m.seqNum == inSeq || m.kind == SequenceReset
  }

  predicate IsGapFill(m: Message) {
    m.gapFillFlag.Some? && m.gapFillFlag.value != "" && m.gapFillFlag.value[0] == 'Y'
  }

  // ----- specification: what one received message does to the expected number --------------

  /** Why a message does what it does to the expected number `n` (the number already counts the message). */
  datatype Verdict =
    | TooHigh               // a gap: ask for a resend, the message does not count
    | TooLow                // a duplicate or an error: the message does not count
    | Consumed              // the message counts
    | JumpsTo(last: Counter) // the peer declares everything up to `last` as received
    | Refused               // a reset below the expected number: rejected, does not count

  function Judge(n: Counter, m: Message): Verdict {
    if m.kind != SequenceReset then
      if m.seqNum > n then TooHigh else if m.seqNum < n then TooLow else Consumed
    else if m.newSeqNo.None? then Consumed
    else
      var to := ToCounter(m.newSeqNo.value);
      if IsGapFill(m) then
        if m.seqNum > n then TooHigh
        else if m.seqNum < n then TooLow
        else if to > m.seqNum then JumpsTo(to - 1)
        else Consumed
      else if to > n then JumpsTo(to - 1)
      else if to < n then Refused
      else Consumed
  }

  /** The expected number after the verdict. */
  function Settle(n: Counter, v: Verdict): Counter {
    match v
    case Consumed => n
    case JumpsTo(last) => last
    case TooHigh | TooLow | Refused => Dec(n)
  }

  /** Is the message left to the caller? */
  predicate Declined(n: Counter, m: Message) {
    && m.seqNum == n
    && (m.kind == Other || (m.kind == ResendRequest && (m.beginSeqNo.None? || m.endSeqNo.None?)))
  }

  /** Does the message end the session? */
  predicate EndsSession(n: Counter, m: Message) {
    Judge(n, m) == TooLow && !m.possDup
  }

  /** What the peer gets to see. */
  function RepliesTo(legacy: bool, n: Counter, out: Counter, m: Message): seq<Reply> {
    match Judge(n, m)
    case TooHigh => [ResendRequested(out, n, if m.kind == SequenceReset then m.seqNum else if legacy then 999999
                                     else 0)]
    case TooLow => if m.possDup then [] else [LoggedOut(out)]
    case Refused => [Rejected(out, n)]
    case JumpsTo(_) => []
    case Consumed =>
      match m.kind
      case TestRequest =>
        [HeartbeatSent(out, if m.testReqId.Some? && |m.testReqId.value| < 128 then m.testReqId.value else "TestReqID")]
      case ResendRequest =>
        if m.beginSeqNo.None? || m.endSeqNo.None? then []
        else [GapFilled(ToCounter(m.beginSeqNo.value), Inc(ToCounter(m.endSeqNo.value)))]
      case SequenceReset => if m.newSeqNo.Some? && IsGapFill(m) then [Rejected(out, m.seqNum)] else []
      case Heartbeat | Other => []
  }

  /** A gap fill reuses the number that was asked for; everything else takes the next one. */
  function NumberAfter(out: Counter, replies: seq<Reply>): Counter {
    if replies == [] || replies[0].GapFilled? then out else Inc(out)
  }

  /** Is this the heartbeat that answers our own test request? */
  predicate AnswersTest(testReqId: string, n: Counter, m: Message) {
    m.seqNum == n && m.kind == Heartbeat && m.testReqId.Some? && testReqId <= m.testReqId.value
  }

  // ----- implementation -------------------------------------------------------------------

  class Session {
    /** Dialects up to FIX 4.1 have no "to infinity" in a resend request. */
    const legacy: bool
    var inMsgSeqNum: Counter
    var outMsgSeqNum: Counter
    var active: bool
    var trPending: bool
    var testReqId: string
    var sent: seq<Reply>

    constructor (legacy: bool, inSeq: Counter, outSeq: Counter)
      ensures this.legacy == legacy && inMsgSeqNum == inSeq && sent == [] && active && !trPending
      ensures outMsgSeqNum == if outSeq > 1 then outSeq else 1
    {
      this.legacy := legacy;
      inMsgSeqNum := inSeq;
      outMsgSeqNum := if outSeq > 1 then outSeq else 1;
      active, trPending, testReqId, sent := true, false, "", [];
    }

    /** fix_session_recv: a parsed message counts at once, unless the caller keeps the number. */
    method Recv(parsed: bool, keep: bool) returns (got: bool)
      modifies this`inMsgSeqNum
      ensures got == parsed
      ensures inMsgSeqNum == if parsed && !keep then Inc(old(inMsgSeqNum)) else old(inMsgSeqNum)
    {
      if parsed {
        if !keep {
          inMsgSeqNum := Inc(inMsgSeqNum);
        }
        return true;
      }
      return false;
    }

    /** fix_session_send for a message that takes the next outgoing number. */
    method NextOut() returns (num: Counter)
      modifies this`outMsgSeqNum
      ensures num == old(outMsgSeqNum) && outMsgSeqNum == Inc(num)
    {
      num := outMsgSeqNum;
      outMsgSeqNum := Inc(outMsgSeqNum);
    }

    method SendResendRequest(begin: Counter, end: Counter)
      modifies this`sent, this`outMsgSeqNum
      ensures sent == old(sent) + [ResendRequested(old(outMsgSeqNum), begin, end)]
      ensures outMsgSeqNum == Inc(old(outMsgSeqNum))
    {
      var num := NextOut();
      sent := sent + [ResendRequested(num, begin, end)];
    }

    method SendHeartbeat(id: string)
      modifies this`sent, this`outMsgSeqNum
      ensures sent == old(sent) + [HeartbeatSent(old(outMsgSeqNum), id)] && outMsgSeqNum == Inc(old(outMsgSeqNum))
    {
      var num := NextOut();
      sent := sent + [HeartbeatSent(num, id)];
    }

    method SendReject(refSeqNum: Counter)
      modifies this`sent, this`outMsgSeqNum
      ensures sent == old(sent) + [Rejected(old(outMsgSeqNum), refSeqNum)] && outMsgSeqNum == Inc(old(outMsgSeqNum))
    {
      var num := NextOut();
      sent := sent + [Rejected(num, refSeqNum)];
    }

    /** The start of fix_session_logout; waiting for the peer's answer is not modelled. */
    method SendLogout()
      modifies this`sent, this`outMsgSeqNum, this`active
      ensures sent == old(sent) + [LoggedOut(old(outMsgSeqNum))] && outMsgSeqNum == Inc(old(outMsgSeqNum)) && !active
    {
      var num := NextOut();
      sent := sent + [LoggedOut(num)];
      active := false;
    }

    /** fix_do_unexpected */
    method DoUnexpected(m: Message) returns (ended: bool)
      requires m.seqNum != inMsgSeqNum
      modifies this`inMsgSeqNum, this`outMsgSeqNum, this`sent, this`active
      ensures inMsgSeqNum == Dec(old(inMsgSeqNum))
      ensures ended == (m.seqNum < old(inMsgSeqNum) && !m.possDup)
      ensures active == (old(active) && !ended)
      ensures m.seqNum > old(inMsgSeqNum) ==>
        sent == old(sent) + [ResendRequested(old(outMsgSeqNum), old(inMsgSeqNum), if legacy then 999999 else 0)]
      ensures m.seqNum < old(inMsgSeqNum) ==>
        sent == old(sent) + if ended then [LoggedOut(old(outMsgSeqNum))] else []
      ensures outMsgSeqNum == if |sent| > |old(sent)| then Inc(old(outMsgSeqNum)) else old(outMsgSeqNum)
    {
      if m.seqNum > inMsgSeqNum {
        SendResendRequest(inMsgSeqNum, if legacy then 999999 else 0);
        inMsgSeqNum := Dec(inMsgSeqNum);
      } else if m.seqNum < inMsgSeqNum {
        inMsgSeqNum := Dec(inMsgSeqNum);
        if !m.possDup {
          SendLogout();
          return true;
        }
      }
      return false;
    }

    /** fix_session_admin: true means the caller must not look at the message. */
    method Admin(m: Message) returns (handled: bool)
      modifies this`inMsgSeqNum, this`outMsgSeqNum, this`sent, this`active, this`trPending
      ensures inMsgSeqNum == Settle(old(inMsgSeqNum), Judge(old(inMsgSeqNum), m))
      ensures handled == !Declined(old(inMsgSeqNum), m)
      ensures active == (old(active) && !EndsSession(old(inMsgSeqNum), m))
      ensures sent == old(sent) + RepliesTo(legacy, old(inMsgSeqNum), old(outMsgSeqNum), m)
      ensures outMsgSeqNum == NumberAfter(old(outMsgSeqNum), RepliesTo(legacy, old(inMsgSeqNum), old(outMsgSeqNum), m))
      ensures trPending == (old(trPending) && !AnswersTest(testReqId, old(inMsgSeqNum), m))
    {
      if !Expected(inMsgSeqNum, m) {
        var _ := DoUnexpected(m);
        return true;
      }
      match m.kind {
        case Heartbeat =>
          if m.testReqId.Some? && testReqId <= m.testReqId.value {
            trPending := false;
          }
          return true;
        case TestRequest =>
          var id := "TestReqID";
          if m.testReqId.Some? && |m.testReqId.value| < 128 {
            id := m.testReqId.value;
          }
          SendHeartbeat(id);
          return true;
        case ResendRequest =>
          if m.beginSeqNo.None? || m.endSeqNo.None? {
            return false;
          }
          sent := sent + [GapFilled(ToCounter(m.beginSeqNo.value), Inc(ToCounter(m.endSeqNo.value)))];
          return true;
        case SequenceReset =>
          handled := true;
          if m.newSeqNo.None? {
            return;
          }
          var expSeqNum := inMsgSeqNum;
          var newSeqNum := ToCounter(m.newSeqNo.value);
          if IsGapFill(m) {
            if m.seqNum > expSeqNum {
              SendResendRequest(expSeqNum, m.seqNum);
              inMsgSeqNum := Dec(inMsgSeqNum);
              return;
            } else if m.seqNum < expSeqNum {
              inMsgSeqNum := Dec(inMsgSeqNum);
              if !m.possDup {
                SendLogout();
              }
              return;
            }
            if newSeqNum > m.seqNum {
              inMsgSeqNum := newSeqNum - 1;
            } else {
              SendReject(m.seqNum);
            }
          } else {
            if newSeqNum > expSeqNum {
              inMsgSeqNum := newSeqNum - 1;
            } else if newSeqNum < expSeqNum {
              inMsgSeqNum := Dec(inMsgSeqNum);
              SendReject(expSeqNum);
            }
          }
        case Other =>
          return false;
      }
    }

    /** One turn of a client: receive the message, then let the session handle what is its own. */
    method Turn(m: Message) returns (delivered: bool)
      modifies this`inMsgSeqNum, this`outMsgSeqNum, this`sent, this`active, this`trPending
      ensures inMsgSeqNum == Next(old(inMsgSeqNum), m)
      ensures delivered == Declined(Inc(old(inMsgSeqNum)), m)
      ensures active == (old(active) && !EndsSession(Inc(old(inMsgSeqNum)), m))
      ensures sent == old(sent) + RepliesTo(legacy, Inc(old(inMsgSeqNum)), old(outMsgSeqNum), m)
      ensures outMsgSeqNum
              == NumberAfter(old(outMsgSeqNum), RepliesTo(legacy, Inc(old(inMsgSeqNum)), old(outMsgSeqNum), m))
    {
      var _ := Recv(true, false);
      var handled := Admin(m);
      delivered := !handled;
    }

    /** Serve messages until the session ends. */
    method Serve(ms: seq<Message>) returns (served: nat, delivered: seq<Counter>)
      requires active
      modifies this`inMsgSeqNum, this`outMsgSeqNum, this`sent, this`active, this`trPending
      ensures served <= |ms| && (active ==> served == |ms|)
      ensures inMsgSeqNum == Last(old(inMsgSeqNum), ms[..served])
      ensures delivered == Delivered(old(inMsgSeqNum), ms[..served])
      ensures sent == old(sent) + Answers(legacy, old(inMsgSeqNum), old(outMsgSeqNum), ms[..served])
      ensures outMsgSeqNum == OutNumber(legacy, old(inMsgSeqNum), old(outMsgSeqNum), ms[..served])
    {
      hide RepliesTo, Judge, Settle, Declined, EndsSession, NumberAfter;
      served, delivered := 0, [];
      while served < |ms| && active
        invariant served <= |ms|
        invariant inMsgSeqNum == Last(old(inMsgSeqNum), ms[..served])
        invariant delivered == Delivered(old(inMsgSeqNum), ms[..served])
        invariant sent == old(sent) + Answers(legacy, old(inMsgSeqNum), old(outMsgSeqNum), ms[..served])
        invariant outMsgSeqNum == OutNumber(legacy, old(inMsgSeqNum), old(outMsgSeqNum), ms[..served])
        decreases |ms| - served
      {
        assert ms[..served + 1][..served] == ms[..served];
        var d := Turn(ms[served]);
        delivered := delivered + if d then [ms[served].seqNum] else [];
        served := served + 1;
      }
    }
  }

  // ----- every run ------------------------------------------------------------------------

  /** The expected number after receiving and handling one message. */
  function Next(inSeq: Counter, m: Message): Counter {
    Settle(Inc(inSeq), Judge(Inc(inSeq), m))
  }

  /** The expected number after a run. */
  function Last(inSeq: Counter, ms: seq<Message>): Counter
    decreases |ms|
  {
    if ms == [] then inSeq else Next(Last(inSeq, ms[..|ms| - 1]), ms[|ms| - 1])
  }

  /** The outgoing number after a run. */
  function OutNumber(legacy: bool, inSeq: Counter, out: Counter, ms: seq<Message>): Counter
    decreases |ms|
  {
    if ms == [] then out
    else
      var prev := ms[..|ms| - 1];
      var now := OutNumber(legacy, inSeq, out, prev);
      NumberAfter(now, RepliesTo(legacy, Inc(Last(inSeq, prev)), now, ms[|ms| - 1]))
  }

  /** Everything that is sent in a run. */
  function Answers(legacy: bool, inSeq: Counter, out: Counter, ms: seq<Message>): seq<Reply>
    decreases |ms|
  {
    if ms == [] then []
    else
      var prev := ms[..|ms| - 1];
      Answers(legacy, inSeq, out, prev)
      + RepliesTo(legacy, Inc(Last(inSeq, prev)), OutNumber(legacy, inSeq, out, prev), ms[|ms| - 1])
  }

  /** The numbers of the messages left to the caller. */
  function Delivered(inSeq: Counter, ms: seq<Message>): seq<Counter>
    decreases |ms|
  {
    if ms == [] then []
    else
      var prev, m := ms[..|ms| - 1], ms[|ms| - 1];
      Delivered(inSeq, prev) + if Declined(Inc(Last(inSeq, prev)), m) then [m.seqNum] else []
  }

  /** The counter never stands at its largest value before a message of the run. */
  ghost predicate Unwrapped(inSeq: Counter, ms: seq<Message>) {
    forall k | 0 <= k < |ms| :: Last(inSeq, ms[..k]) < WRAP - 1
  }

  ghost predicate Increasing(s: seq<Counter>) {
    forall i, j | 0 <= i < j < |s| :: s[i] < s[j]
  }

  /** Handling a message never lowers the expected number, exactly if receiving it did not wrap the counter. */
  lemma NeverDropsUnlessWrapping(inSeq: Counter)
    ensures (forall m :: inSeq <= Next(inSeq, m)) <==> inSeq < WRAP - 1
  {
    if inSeq == WRAP - 1 {
      var m := Message(Other, 0, false, None, None, None, None, None);
      assert Next(inSeq, m) == 0;
    }
  }

  /** What is left to the caller is past the number consumed before, and no later than the one after. */
  lemma DeliveredIsNext(inSeq: Counter, m: Message)
    requires inSeq < WRAP - 1
    ensures inSeq <= Next(inSeq, m)
    ensures Declined(Inc(inSeq), m) ==> inSeq < m.seqNum <= Next(inSeq, m)
  {
  }

  /** Numbers in order between two bounds. */
  ghost predicate OrderedWithin(low: Counter, s: seq<Counter>, high: Counter) {
    low <= high && Increasing(s) && forall k | 0 <= k < |s| :: low < s[k] <= high
  }

  lemma OrderExtends(low: Counter, s: seq<Counter>, mid: Counter, n: Counter, high: Counter)
    requires OrderedWithin(low, s, mid) && mid <= high
    ensures OrderedWithin(low, s, high)
    ensures mid < n <= high ==> OrderedWithin(low, s + [n], high)
  {
  }

  /** In-order delivery: over every run the delivered numbers strictly increase, start past the number last
      consumed and end at or before the expected one. */
  lemma {:induction false} DeliveredInOrder(inSeq: Counter, ms: seq<Message>)
    requires Unwrapped(inSeq, ms)
    ensures OrderedWithin(inSeq, Delivered(inSeq, ms), Last(inSeq, ms))
    decreases |ms|
  {
    if ms != [] {
      var prev, m := ms[..|ms| - 1], ms[|ms| - 1];
      assert forall k | 0 <= k < |prev| :: prev[..k] == ms[..k];
      DeliveredInOrder(inSeq, prev);
      assert ms[..|prev|] == prev;
      DeliveredIsNext(Last(inSeq, prev), m);
      OrderExtends(inSeq, Delivered(inSeq, prev), Last(inSeq, prev), m.seqNum, Last(inSeq, ms));
      assert Delivered(inSeq, prev) + [] == Delivered(inSeq, prev);
    }
  }

  /** The numbers of the messages that counted. */
  function ConsumedNums(inSeq: Counter, ms: seq<Message>): seq<Counter>
    decreases |ms|
  {
    if ms == [] then []
    else
      var prev, m := ms[..|ms| - 1], ms[|ms| - 1];
      ConsumedNums(inSeq, prev) + if Judge(Inc(Last(inSeq, prev)), m) == Consumed then [m.seqNum] else []
  }

  /** A message past a gap or a duplicate never counts: the expected number stays. */
  lemma GapIsHeld(inSeq: Counter, m: Message)
    requires inSeq < WRAP - 1 && m.kind != SequenceReset
    ensures Judge(Inc(inSeq), m) == Consumed <==> m.seqNum == inSeq + 1
    ensures Next(inSeq, m) == if m.seqNum == inSeq + 1 then inSeq + 1 else inSeq
  {
  }

  /** Gap-free: in a run without SequenceReset exactly the numbers after `inSeq` are consumed, each once, in order. */
  lemma {:induction false} ConsumedWithoutGaps(inSeq: Counter, ms: seq<Message>)
    requires Unwrapped(inSeq, ms)
    requires forall m | m in ms :: m.kind != SequenceReset
    ensures Last(inSeq, ms) == inSeq + |ConsumedNums(inSeq, ms)|
    ensures forall k | 0 <= k < |ConsumedNums(inSeq, ms)| :: ConsumedNums(inSeq, ms)[k] == inSeq + 1 + k
    decreases |ms|
  {
    if ms != [] {
      var prev := ms[..|ms| - 1];
      assert forall k | 0 <= k < |prev| :: prev[..k] == ms[..k];
      ConsumedWithoutGaps(inSeq, prev);
      assert ms[|ms| - 1] in ms;
      assert ms[..|prev|] == prev;
      GapIsHeld(Last(inSeq, prev), ms[|ms| - 1]);
    }
  }
}
