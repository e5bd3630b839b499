/** What the redundant feeds deliver and what next_increment makes of it: where the numbers it hands on come from,
    and which losses it reports (lib/proto/fast_book.c). */
module FeedDeliveries {
  import opened Wrappers
  import opened FeedArbitration

  // ----- one feed -------------------------------------------------------------------------

  /** The feed is asked, and this is what it delivers. */
  predicate Delivers(s: State, i: nat, d: Delivery)
    requires i < |s.feeds|
  {
    s.feeds[i].recvNum <= s.incMsgNum && s.feeds[i].pending != [] && s.feeds[i].pending[0] == d
  }

  function Increment(n: nat): Delivery {
    Msg(Message(Some(n), Some(Refresh)))
  }

  /** A number is handed on exactly if it is that of an increment which the counter accepts. */
  lemma HandsOnExactly(s: State, i: nat, n: nat)
    requires i < |s.feeds|
    ensures Receive(s, i).next == Some(n) <==> Delivers(s, i, Increment(n)) && Accepts(s, n)
  {
  }

  /** Receiving fails exactly for a message without a number, or one that the counter accepts and whose type is
      missing or not expected. */
  lemma FailsExactly(s: State, i: nat)
    requires i < |s.feeds|
    ensures !Receive(s, i).ok <==> exists m ::
      && Delivers(s, i, Msg(m))
      && (m.num.None? || (Accepts(s, m.num.value) && m.kind != Some(Refresh) && m.kind != Some(Quiet)))
  {
    if s.feeds[i].pending != [] && s.feeds[i].pending[0].Msg? {
      var m := s.feeds[i].pending[0].m;
      assert Delivers(s, i, Msg(m)) <==> s.feeds[i].recvNum <= s.incMsgNum;
    }
  }

  /** A feed that is past the counter keeps what it has; any other gives up one delivery and remembers its number.
      No other feed is touched. */
  lemma TakesOne(s: State, i: nat, j: nat)
    requires i < |s.feeds| && j < |s.feeds|
    ensures var was, now := s.feeds[j], Receive(s, i).s.feeds[j];
      if i != j || was.recvNum > s.incMsgNum || was.pending == [] then now == was
      else
        && [was.pending[0]] + now.pending == was.pending
        && now.recvNum == match was.pending[0]
           case Msg(m) => if m.num.Some? then m.num.value else was.recvNum
           case _ => was.recvNum
  {
  }

  // ----- one call -------------------------------------------------------------------------

  lemma NextOfTail(x: seq<Feed>, y: seq<Feed>, n: nat)
    requires n < |x| == |y| && x[n..] == y[n..]
    ensures x[n] == y[n] && x[n + 1..] == y[n + 1..]
  {
    assert x[n] == x[n..][0] && x[n + 1..] == x[n..][1..];
  }

  lemma TakesOnlyFrom(s: State, i: nat)
    requires i < |s.feeds|
    ensures Receive(s, i).s.feeds[i + 1..] == s.feeds[i + 1..] && Receive(s, i).s.feeds[..i] == s.feeds[..i]
  {
  }

  /** What the first `n` feeds leave alone, and where a number comes from. */
  lemma {:induction false} PollTakesHeads(s: State, n: nat)
    requires n <= |s.feeds|
    ensures Poll(s, n).s.feeds[n..] == s.feeds[n..]
    ensures Poll(s, n).next.Some? ==> exists i :: 0 <= i < n && s.feeds[i].pending != []
                                                  && s.feeds[i].pending[0] == Increment(Poll(s, n).next.value)
    decreases n
  {
    if n > 0 {
      PollTakesHeads(s, n - 1);
      var r := Poll(s, n - 1);
      NextOfTail(r.s.feeds, s.feeds, n - 1);
      if r.ok {
        var q := Receive(r.s, n - 1);
        TakesOnlyFrom(r.s, n - 1);
        if q.next.Some? {
          HandsOnExactly(r.s, n - 1, q.next.value);
        }
      }
    }
  }

  /** A call returns a number only if it is that of an increment at the head of a feed: never that of a quiet
      message. */
  lemma CallReturnsIncrements(s: State)
    ensures NextCall(s).next.Some? ==>
      exists i :: 0 <= i < |s.feeds| && s.feeds[i].pending != []
        && s.feeds[i].pending[0] == Increment(NextCall(s).next.value)
    ensures var r := NextCall(s); r.s.handed == s.handed + if r.ok && r.next.Some? then [r.next.value] else []
  {
    PollTakesHeads(s, |s.feeds|);
    PollHandsNothing(s, |s.feeds|);
    assert s.handed + [] == s.handed;
  }

  lemma {:induction false} PollHandsNothing(s: State, n: nat)
    requires n <= |s.feeds|
    ensures Poll(s, n).s.handed == s.handed
    decreases n
  {
    if n > 0 {
      PollHandsNothing(s, n - 1);
    }
  }

  // ----- every run ------------------------------------------------------------------------

  predicate Arrived(ops: seq<Op>, d: Delivery) {
    exists k :: 0 <= k < |ops| && ops[k].Arrive? && ops[k].d == d
  }

  /** All that is pending has arrived, and all that was handed on has arrived as an increment. */
  ghost predicate Traced(s: State, ops: seq<Op>) {
    && (forall i, k | 0 <= i < |s.feeds| && 0 <= k < |s.feeds[i].pending| :: Arrived(ops, s.feeds[i].pending[k]))
    && (forall k | 0 <= k < |s.handed| :: Arrived(ops, Increment(s.handed[k])))
  }

  lemma ArrivedBefore(ops: seq<Op>, op: Op, d: Delivery)
    requires Arrived(ops, d)
    ensures Arrived(ops + [op], d)
  {
    var k :| 0 <= k < |ops| && ops[k].Arrive? && ops[k].d == d;
    assert (ops + [op])[k] == ops[k];
  }

  lemma TracedBefore(s: State, ops: seq<Op>, op: Op)
    requires Traced(s, ops)
    ensures Traced(s, ops + [op])
  {
    forall i, k | 0 <= i < |s.feeds| && 0 <= k < |s.feeds[i].pending|
      ensures Arrived(ops + [op], s.feeds[i].pending[k])
    {
      ArrivedBefore(ops, op, s.feeds[i].pending[k]);
    }
    forall k | 0 <= k < |s.handed| ensures Arrived(ops + [op], Increment(s.handed[k])) {
      ArrivedBefore(ops, op, Increment(s.handed[k]));
    }
  }

  /** The deliveries of every feed are the last ones it had. */
  ghost predicate Suffixes(s: State, t: State) {
    && |s.feeds| == |t.feeds|
    && forall i | 0 <= i < |s.feeds| :: SuffixOf(t.feeds[i].pending, s.feeds[i].pending)
  }

  ghost predicate SuffixOf(x: seq<Delivery>, y: seq<Delivery>) {
    |x| <= |y| && x == y[|y| - |x|..]
  }

  lemma {:induction false} PollKeepsSuffixes(s: State, n: nat)
    requires n <= |s.feeds|
    ensures Suffixes(s, Poll(s, n).s)
    decreases n
  {
    if n > 0 {
      PollKeepsSuffixes(s, n - 1);
      var r := Poll(s, n - 1);
      if r.ok {
        var q := Receive(r.s, n - 1).s;
        forall i | 0 <= i < |s.feeds| ensures SuffixOf(q.feeds[i].pending, s.feeds[i].pending) {
          TakesOne(r.s, n - 1, i);
          assert SuffixOf(r.s.feeds[i].pending, s.feeds[i].pending);
        }
      }
    }
  }

  lemma CallIsTraced(s: State, ops: seq<Op>)
    requires Traced(s, ops)
    ensures Traced(NextCall(s).s, ops)
  {
    var t := NextCall(s).s;
    PollKeepsSuffixes(s, |s.feeds|);
    CallReturnsIncrements(s);
    forall i, k | 0 <= i < |t.feeds| && 0 <= k < |t.feeds[i].pending| ensures Arrived(ops, t.feeds[i].pending[k]) {
      assert SuffixOf(t.feeds[i].pending, s.feeds[i].pending);
      assert t.feeds[i].pending[k] == s.feeds[i].pending[k + |s.feeds[i].pending| - |t.feeds[i].pending|];
    }
  }

  lemma StepIsTraced(s: State, ops: seq<Op>, op: Op)
    requires Traced(s, ops)
    ensures Traced(Step(s, op), ops + [op])
  {
    TracedBefore(s, ops, op);
    match op
    case Call => CallIsTraced(s, ops + [op]);
    case Restart =>
    case Arrive(i, d) =>
      assert (ops + [op])[|ops|] == op;
      assert Arrived(ops + [op], d);
  }

  /** Over every run from feeds with nothing pending: what was handed on has arrived, as an increment. */
  lemma {:induction false} HandedOnHasArrived(s: State, ops: seq<Op>)
    requires s.handed == [] && forall i | 0 <= i < |s.feeds| :: s.feeds[i].pending == []
    ensures Traced(Run(s, ops), ops)
    decreases |ops|
  {
    if ops != [] {
      var prev := ops[..|ops| - 1];
      HandedOnHasArrived(s, prev);
      StepIsTraced(Run(s, prev), prev, ops[|ops| - 1]);
      assert prev + [ops[|ops| - 1]] == ops;
    }
  }

  // ----- losses ---------------------------------------------------------------------------

  /** The feed does not bring the number after the counter: it is past it, or has nothing, or a message with another
      number. */
  ghost predicate Misses(s: State, i: nat)
    requires i < |s.feeds|
  {
    || s.feeds[i].recvNum > s.incMsgNum
    || s.feeds[i].pending == []
    || (s.feeds[i].pending[0].Msg? ==>
        (s.feeds[i].pending[0].m.num.Some? && s.feeds[i].pending[0].m.num.value != s.incMsgNum + 1))
  }

  /** The feed has skipped the number after the counter. */
  ghost predicate Skipped(s: State, i: nat)
    requires i < |s.feeds|
  {
    || s.feeds[i].recvNum > s.incMsgNum
    || (s.feeds[i].pending != [] && s.feeds[i].pending[0].Msg? && s.feeds[i].pending[0].m.num.Some?
        && s.feeds[i].pending[0].m.num.value > s.incMsgNum)
  }

  lemma ReceiveMisses(s: State, i: nat)
    requires i < |s.feeds| && 0 < s.incMsgNum < U64 - 1 && Misses(s, i)
    ensures var r := Receive(s, i);
      && r.ok && r.s.incMsgNum == s.incMsgNum && (r.s.feeds[i].recvNum > s.incMsgNum <==> Skipped(s, i))
  {
  }

  lemma {:induction false} PollMisses(s: State, n: nat)
    requires n <= |s.feeds| && 0 < s.incMsgNum < U64 - 1 && forall i | 0 <= i < |s.feeds| :: Misses(s, i)
    ensures var r := Poll(s, n);
      && r.ok && r.s.incMsgNum == s.incMsgNum && r.s.feeds[n..] == s.feeds[n..]
      && forall i | 0 <= i < n :: r.s.feeds[i].recvNum > s.incMsgNum <==> Skipped(s, i)
    decreases n
  {
    hide Receive;
    if n > 0 {
      PollMisses(s, n - 1);
      var r := Poll(s, n - 1);
      NextOfTail(r.s.feeds, s.feeds, n - 1);
      assert Misses(s, n - 1);
      ReceiveMisses(r.s, n - 1);
      TakesOnlyFrom(r.s, n - 1);
      var q := Receive(r.s, n - 1).s;
      forall i | 0 <= i < n ensures q.feeds[i].recvNum > s.incMsgNum <==> Skipped(s, i) {
        if i < n - 1 {
          assert q.feeds[i] == q.feeds[..n - 1][i] == r.s.feeds[i];
        }
      }
    }
  }

  /** When no feed brings the next number, the call reports a gap exactly if every one of them has skipped it. */
  lemma LossIsReportedExactly(s: State)
    requires Good(s) && 0 < s.incMsgNum < U64 - 1 && forall i | 0 <= i < |s.feeds| :: Misses(s, i)
    ensures NextCall(s).ok <==> exists i :: 0 <= i < |s.feeds| && !Skipped(s, i)
  {
    PollMisses(s, |s.feeds|);
    GapIsReportedExactly(s);
    var r := Poll(s, |s.feeds|).s;
    assert forall i | 0 <= i < |s.feeds| :: r.feeds[i].recvNum > s.incMsgNum <==> Skipped(s, i);
  }
}
