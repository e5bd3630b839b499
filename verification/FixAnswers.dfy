/** What the peer of a FIX session sees: which messages count after a sequence reset, what each message is answered
    with, and under which numbers (FIX 4.4, Volume 2, session test cases). */
module FixAnswers {
  import opened Wrappers
  import opened FixSession

  // ----- two turns: a reset and the message after it --------------------------------------

  /** The message with number `n` is the next one that counts. */
  ghost predicate NextIs(inSeq: Counter, n: Counter) {
    forall x: Message | x.kind != SequenceReset :: Next(inSeq, x) == Inc(inSeq) <==> x.seqNum == n
  }

  /** The number that a SequenceReset names is that of the next message that counts exactly if it is above the
      expected one and, for a gap fill, the reset itself has the expected number. A gap fill out of turn changes
      nothing. */
  lemma ResetNamesNextExactly(inSeq: Counter, m: Message)
    requires inSeq < WRAP - 2 && m.kind == SequenceReset && m.newSeqNo.Some?
    ensures var expected, to := inSeq + 1, ToCounter(m.newSeqNo.value);
      NextIs(Next(inSeq, m), to) <==> if IsGapFill(m) && m.seqNum != expected then to == expected else to > expected
  {
    var s := Next(inSeq, m);
    var x := Message(Other, Inc(s), false, None, None, None, None, None);
    assert Next(s, x) == Inc(s);
  }

  /** After a reset to `to`, in the same terms as without one: the message `to` counts, one above it is asked for again
      from `to` on, and one below it ends the session unless it is marked as a possible duplicate. */
  lemma MessageAfterReset(inSeq: Counter, m: Message, x: Message, legacy: bool, out: Counter)
    requires inSeq < WRAP - 2 && m.kind == SequenceReset && m.newSeqNo.Some? && x.kind != SequenceReset
    requires ToCounter(m.newSeqNo.value) > inSeq + 1 && (IsGapFill(m) ==> m.seqNum == inSeq + 1)
    ensures var to, s := ToCounter(m.newSeqNo.value), Next(inSeq, m);
      && Next(s, x) == (if x.seqNum == to then to else to - 1)
      && (x.seqNum > to ==> RepliesTo(legacy, Inc(s), out,
                                      x) == [ResendRequested(out, to, if legacy then 999999 else 0)])
      && (EndsSession(Inc(s), x) <==> x.seqNum < to && !x.possDup)
  {
  }

  // ----- answers --------------------------------------------------------------------------

  /** A reset that fills a gap. */
  predicate FillsGap(m: Message) {
    m.kind == SequenceReset && m.newSeqNo.Some? && m.gapFillFlag.Some? && "Y" <= m.gapFillFlag.value
  }

  /** Messages whose own number has to be the expected one. */
  predicate HasTurn(m: Message) {
    m.kind != SequenceReset || FillsGap(m)
  }

  /** A resend is asked for exactly when a message that has a turn is ahead of it: from the expected number on. */
  lemma ResendIsAsked(legacy: bool, n: Counter, out: Counter, m: Message, r: Reply)
    requires r.ResendRequested?
    ensures RepliesTo(legacy, n, out, m) == [r] <==>
      && HasTurn(m) && m.seqNum > n
      && r == ResendRequested(out, n, if m.kind == SequenceReset then m.seqNum else if legacy then 999999 else 0)
  {
  }

  /** The session is ended, and the peer told so, exactly when such a message is behind its turn and not marked as a
      possible duplicate. */
  lemma SessionIsEnded(legacy: bool, n: Counter, out: Counter, m: Message)
    ensures EndsSession(n, m) <==> HasTurn(m) && m.seqNum < n && !m.possDup
    ensures RepliesTo(legacy, n, out, m) == [LoggedOut(out)] <==> EndsSession(n, m)
  {
  }

  /** A reset is rejected exactly when it would lower the expected number: a gap fill in turn to no later number
      than its own, or a reset to an earlier number than the expected one. */
  lemma ResetIsRejected(legacy: bool, n: Counter, out: Counter, m: Message)
    ensures RepliesTo(legacy, n, out, m) == [Rejected(out, n)] <==>
      && m.kind == SequenceReset && m.newSeqNo.Some?
      && if FillsGap(m) then m.seqNum == n && ToCounter(m.newSeqNo.value) <= n else ToCounter(m.newSeqNo.value) < n
  {
  }

  /** A message does not count exactly if it is out of turn or a reset that would lower the number; a reset forward
      makes the number before the one it names the last that counts, and everything else counts as one. */
  lemma CountsExactly(inSeq: Counter, m: Message)
    requires inSeq < WRAP - 2
    ensures var expected, reset := inSeq + 1, m.kind == SequenceReset && m.newSeqNo.Some?;
      Next(inSeq, m) ==
        if HasTurn(m) && m.seqNum != expected then inSeq
        else if reset && !FillsGap(m) && m.newSeqNo.value % WRAP < expected then inSeq
        else if reset && m.newSeqNo.value % WRAP > expected then m.newSeqNo.value % WRAP - 1
        else expected
  {
  }

  /** Our own test request is answered exactly by a heartbeat in turn, one that counts as one, whose text begins with
      what we sent. */
  lemma TestIsSettledExactly(id: string, inSeq: Counter, m: Message)
    requires inSeq < WRAP - 2
    ensures AnswersTest(id, Inc(inSeq), m) <==>
      && m.kind == Heartbeat && Next(inSeq, m) == inSeq + 1
      && exists rest: string :: m.testReqId == Some(id + rest)
  {
    if m.testReqId.Some? && id <= m.testReqId.value {
      assert m.testReqId.value == id + m.testReqId.value[|id|..];
      assert m.testReqId == Some(id + m.testReqId.value[|id|..]);
    }
  }

  /** A test request in turn is answered by a heartbeat that carries its text, if that fits. */
  lemma TestIsAnswered(legacy: bool, n: Counter, out: Counter, m: Message, id: string)
    ensures RepliesTo(legacy, n, out, m) == [HeartbeatSent(out, id)] <==>
      && m.kind == TestRequest && m.seqNum == n
      && id == match m.testReqId case Some(t) => if |t| < 128 then t else "TestReqID" case None => "TestReqID"
  {
  }

  /** A resend request in turn is answered by a gap fill from the first number asked for to one past the last. */
  lemma ResendIsAnswered(legacy: bool, n: Counter, out: Counter, m: Message, begin: Counter, end: Counter)
    ensures RepliesTo(legacy, n, out, m) == [GapFilled(begin, Inc(end))] <==>
      && m.kind == ResendRequest && m.seqNum == n && m.beginSeqNo.Some? && m.endSeqNo.Some?
      && begin == m.beginSeqNo.value % WRAP && end == m.endSeqNo.value % WRAP
  {
    assert forall a, b: Counter | Inc(a) == Inc(b) :: a == b;
  }

  /** A message gets one answer at most. */
  lemma OneAnswer(legacy: bool, n: Counter, out: Counter, m: Message)
    ensures |RepliesTo(legacy, n, out, m)| <= 1
  {
  }

  /** The caller gets exactly the messages in turn that are neither admin messages the session deals with nor
      answered. */
  lemma CallerGetsTheRest(legacy: bool, n: Counter, out: Counter, m: Message)
    ensures Declined(n, m) <==>
      m.seqNum == n && m.kind !in {Heartbeat, TestRequest, SequenceReset} && RepliesTo(legacy, n, out, m) == []
  {
  }

  // ----- outgoing numbers -----------------------------------------------------------------

  /** The replies that take a number of their own. */
  function Numbered(rs: seq<Reply>): seq<Reply>
    decreases |rs|
  {
    if rs == [] then []
    else
      var prev, r := rs[..|rs| - 1], rs[|rs| - 1];
      Numbered(prev) + if r.GapFilled? then [] else [r]
  }

  lemma {:induction false} NumberedSplits(x: seq<Reply>, y: seq<Reply>)
    ensures Numbered(x + y) == Numbered(x) + Numbered(y)
    decreases |y|
  {
    if y == [] {
      assert x + y == x;
    } else {
      assert (x + y)[..|x + y| - 1] == x + y[..|y| - 1];
      NumberedSplits(x, y[..|y| - 1]);
    }
  }

  lemma NumberedOne(rs: seq<Reply>)
    requires |rs| <= 1
    ensures Numbered(rs) == if rs == [] || rs[0].GapFilled? then [] else rs
  {
    if |rs| == 1 {
      assert rs[..0] == [] && rs == [rs[0]];
    }
  }

  /** The number `k` steps after `n`. */
  function Plus(n: Counter, k: nat): Counter {
    (n + k) % WRAP
  }

  lemma PlusOne(n: Counter, k: nat)
    ensures Plus(n, 0) == n && Inc(Plus(n, k)) == Plus(n, k + 1)
  {
  }

  /** The replies have consecutive numbers from `out` on. */
  ghost predicate InSteps(out: Counter, rs: seq<Reply>) {
    forall k | 0 <= k < |rs| :: rs[k].num == Plus(out, k)
  }

  lemma StepIsNumbered(before: seq<Reply>, rs: seq<Reply>, out: Counter, now: Counter)
    requires InSteps(out, Numbered(before)) && now == Plus(out, |Numbered(before)|) && |rs| <= 1
    requires rs != [] && !rs[0].GapFilled? ==> rs[0].num == now
    ensures InSteps(out, Numbered(before + rs)) && NumberAfter(now, rs) == Plus(out, |Numbered(before + rs)|)
  {
    hide Plus, Inc, Numbered;
    NumberedSplits(before, rs);
    NumberedOne(rs);
    PlusOne(out, |Numbered(before)|);
  }

  /** Over every run the answers that take a number of their own have consecutive ones, and none is left out. */
  lemma {:induction false} AnswersAreNumbered(legacy: bool, inSeq: Counter, out: Counter, ms: seq<Message>)
    ensures var sent := Answers(legacy, inSeq, out, ms);
      InSteps(out, Numbered(sent)) && OutNumber(legacy, inSeq, out, ms) == Plus(out, |Numbered(sent)|)
    decreases |ms|
  {
    hide RepliesTo, Plus, NumberAfter, Numbered, InSteps;
    if ms == [] {
      NothingIsNumbered(out);
    } else {
      var prev, m := ms[..|ms| - 1], ms[|ms| - 1];
      AnswersAreNumbered(legacy, inSeq, out, prev);
      var now := OutNumber(legacy, inSeq, out, prev);
      var rs := RepliesTo(legacy, Inc(Last(inSeq, prev)), now, m);
      OneAnswer(legacy, Inc(Last(inSeq, prev)), now, m);
      AnswerTakesNumber(legacy, Inc(Last(inSeq, prev)), now, m);
      StepIsNumbered(Answers(legacy, inSeq, out, prev), rs, out, now);
    }
  }

  lemma NothingIsNumbered(out: Counter)
    ensures InSteps(out, Numbered([])) && Plus(out, |Numbered([])|) == out
  {
  }

  lemma AnswerTakesNumber(legacy: bool, n: Counter, out: Counter, m: Message)
    ensures var rs := RepliesTo(legacy, n, out, m); rs != [] && !rs[0].GapFilled? ==> rs[0].num == out
  {
  }
}
