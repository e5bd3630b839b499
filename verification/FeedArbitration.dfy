/** Redundant increment feeds merged by MsgSeqNum: recv_increment and next_increment of lib/proto/fast_book.c. */
module FeedArbitration {
  import opened Wrappers

  const U64: nat := 0x1_0000_0000_0000_0000

  /** MessageType: an increment, one of the quiet types, or one the caller treats as an error. */
  datatype Kind = Refresh | Quiet | Unknown

  /** A missing number or type is an error. */
  datatype Message = Message(num: Option<nat>, kind: Option<Kind>)

  /** What a poll of a feed finds. */
  datatype Delivery = Nothing | Reset | Msg(m: Message)

  /** A feed remembers the last number it saw; `pending` is what it will deliver. */
  datatype Feed = Feed(recvNum: nat, pending: seq<Delivery>)

  /** `accepted` logs the numbers that moved `incMsgNum`, `handed` those given to the caller. */
  datatype State = State(feeds: seq<Feed>, incMsgNum: nat, gapMode: bool, accepted: seq<nat>, handed: seq<nat>)

  datatype Received = Received(ok: bool, next: Option<nat>, s: State)

  // ----- one feed -------------------------------------------------------------------------

  /** The message of feed `i`, numbered `n`, meets the counter. */
  predicate Accepts(s: State, n: nat) {
    s.incMsgNum == 0 || (s.incMsgNum + 1) % U64 == n
  }

  /** recv_increment: a feed that is ahead of the counter is not polled. */
  function Receive(s: State, i: nat): (r: Received)
    requires i < |s.feeds|
    ensures |r.s.feeds| == |s.feeds|
  {
    var feed := s.feeds[i];
    if feed.recvNum > s.incMsgNum || feed.pending == [] then Received(true, None, s)
    else
      var s1 := s.(feeds := s.feeds[i := feed.(pending := feed.pending[1..])]);
      match feed.pending[0]
      case Nothing => Received(true, None, s1)
      case Reset => Received(true, None, s1)
      case Msg(m) =>
        if m.num.None? then Received(false, None, s1)
        else
          var n := m.num.value;
          var s2 := s1.(feeds := s.feeds[i := Feed(n, feed.pending[1..])]);
          if Accepts(s, n) then
            var s3 := s2.(incMsgNum := n, gapMode := s.incMsgNum == 0 && s.gapMode, accepted := s.accepted + [n]);
            match m.kind
            case None => Received(false, None, s3)
            case Some(Unknown) => Received(false, None, s3)
            case Some(Quiet) => Received(true, None, s3)
            case Some(Refresh) => Received(true, Some(n), s3)
          else Received(true, None, s2.(gapMode := s.gapMode || s.incMsgNum < n))
  }

  /** The polling loop of next_increment over the first `n` feeds: only the first increment is kept. */
  function Poll(s: State, n: nat): (r: Received)
    requires n <= |s.feeds|
    ensures |r.s.feeds| == |s.feeds|
  {
    if n == 0 then Received(true, None, s)
    else
      var r := Poll(s, n - 1);
      if !r.ok then r
      else
        var q := Receive(r.s, n - 1);
        Received(q.ok, if r.next.Some? then r.next else q.next, q.s)
  }

  /** Every feed has seen a number past the counter: what they skipped will not come again. */
  ghost predicate AllPast(s: State) {
    forall i | 0 <= i < |s.feeds| :: s.feeds[i].recvNum > s.incMsgNum
  }

  // ----- invariants -----------------------------------------------------------------------

  /** Outside gap mode some feed is still at or behind the counter. */
  ghost predicate GapKnown(s: State) {
    !s.gapMode ==> exists i :: 0 <= i < |s.feeds| && s.feeds[i].recvNum <= s.incMsgNum
  }

  /** The feeds deliver real numbers only. */
  ghost predicate Numbered(s: State) {
    && s.incMsgNum < U64
    && forall i | 0 <= i < |s.feeds| :: NumberedFeed(s.feeds[i])
  }

  ghost predicate NumberedFeed(f: Feed) {
    && f.recvNum < U64
    && forall k | 0 <= k < |f.pending| :: f.pending[k].Msg? && f.pending[k].m.num.Some? ==>
         0 < f.pending[k].m.num.value < U64
  }

  ghost predicate StepsOfOne(log: seq<nat>) {
    forall k | 0 < k < |log| :: log[k] == log[k - 1] + 1
  }

  ghost predicate Increasing(log: seq<nat>) {
    forall j, k | 0 <= j < k < |log| :: log[j] < log[k]
  }

  /** The counter is the last accepted number, accepted numbers are consecutive, handed-on ones increase. */
  ghost predicate Ordered(s: State) {
    && (s.incMsgNum == if s.accepted == [] then 0 else s.accepted[|s.accepted| - 1])
    && (s.accepted != [] ==> s.incMsgNum > 0)
    && StepsOfOne(s.accepted)
    && Increasing(s.handed)
    && (s.handed != [] ==> s.handed[|s.handed| - 1] <= s.incMsgNum)
  }

  lemma ReceiveKeepsGap(s: State, i: nat)
    requires i < |s.feeds| && GapKnown(s)
    ensures GapKnown(Receive(s, i).s)
  {
    var r := Receive(s, i).s;
    if !r.gapMode {
      if s.gapMode {
        assert r.feeds[i].recvNum <= r.incMsgNum;
      } else {
        var j :| 0 <= j < |s.feeds| && s.feeds[j].recvNum <= s.incMsgNum;
        assert r.feeds[j].recvNum <= r.incMsgNum || r.feeds[i].recvNum <= r.incMsgNum;
      }
    }
  }

  lemma ReceiveKeepsNumbers(s: State, i: nat)
    requires i < |s.feeds| && Numbered(s)
    ensures Numbered(Receive(s, i).s)
  {
    var feed, r := s.feeds[i], Receive(s, i).s;
    assert NumberedFeed(feed);
    forall j | 0 <= j < |r.feeds| ensures NumberedFeed(r.feeds[j]) {
      assert NumberedFeed(s.feeds[j]);
    }
  }

  /** An accepted number extends the log by one step. */
  lemma AcceptKeepsOrder(s: State, n: nat, t: State)
    requires Ordered(s) && s.incMsgNum < U64 && 0 < n < U64 && Accepts(s, n)
    requires t.incMsgNum == n && t.accepted == s.accepted + [n] && t.handed == s.handed
    ensures Ordered(t) && (s.incMsgNum > 0 ==> n == s.incMsgNum + 1)
  {
  }

  lemma ReceiveKeepsOrder(s: State, i: nat)
    requires i < |s.feeds| && Numbered(s) && Ordered(s)
    ensures var r := Receive(s, i);
      && Ordered(r.s) && s.accepted <= r.s.accepted && r.s.handed == s.handed
      && s.incMsgNum <= r.s.incMsgNum
      && (r.next.Some? ==> r.next.value == r.s.incMsgNum > s.incMsgNum)
  {
    var feed, r := s.feeds[i], Receive(s, i);
    assert NumberedFeed(feed);
    if r.s.accepted != s.accepted {
      AcceptKeepsOrder(s, feed.pending[0].m.num.value, r.s);
    }
  }

  /** One call of next_increment. */
  function NextCall(s: State): Received {
    var r := Poll(s, |s.feeds|);
    if !r.ok then r
    else if r.s.gapMode && Behind(r.s.feeds, r.s.incMsgNum, |r.s.feeds|) > r.s.incMsgNum then r.(ok := false,
      next := None)
    else if r.next.None? then r
    else r.(s := r.s.(handed := r.s.handed + [r.next.value]))
  }

  /** The minimum next_increment takes over the first `n` feeds, capped by the number after the counter. */
  function Behind(feeds: seq<Feed>, incMsgNum: nat, n: nat): nat
    requires n <= |feeds|
  {
    if n == 0 then (incMsgNum + 1) % U64
    else
      var low := Behind(feeds, incMsgNum, n - 1);
      if feeds[n - 1].recvNum < low then feeds[n - 1].recvNum else low
  }

  lemma {:induction false} BehindMeansAllPast(feeds: seq<Feed>, incMsgNum: nat, n: nat)
    requires n <= |feeds| && incMsgNum < U64 && (forall i | 0 <= i < |feeds| :: feeds[i].recvNum < U64)
    requires feeds != []
    ensures Behind(feeds, incMsgNum, n) > incMsgNum <==>
      incMsgNum + 1 < U64 && forall i | 0 <= i < n :: feeds[i].recvNum > incMsgNum
  {
    if n > 0 {
      BehindMeansAllPast(feeds, incMsgNum, n - 1);
    }
  }

  ghost predicate Good(s: State) {
    s.feeds != [] && Numbered(s) && Ordered(s) && GapKnown(s)
  }

  /** Receiving extends the log of accepted numbers, and what it hands on is past the old counter. */
  ghost predicate Advances(s: State, r: Received) {
    && Good(r.s)
    && s.accepted <= r.s.accepted && r.s.handed == s.handed && s.incMsgNum <= r.s.incMsgNum
    && (r.next.Some? ==> s.incMsgNum < r.next.value <= r.s.incMsgNum)
  }

  lemma ReceiveAdvances(s: State, i: nat)
    requires i < |s.feeds| && Good(s)
    ensures Advances(s, Receive(s, i))
  {
    ReceiveKeepsNumbers(s, i);
    ReceiveKeepsOrder(s, i);
    ReceiveKeepsGap(s, i);
  }

  lemma AdvancesThrough(s: State, r: Received, q: Received, both: Received)
    requires Advances(s, r) && Advances(r.s, q)
    requires both == Received(q.ok, if r.next.Some? then r.next else q.next, q.s)
    ensures Advances(s, both)
  {
  }

  lemma {:induction false} PollKeeps(s: State, n: nat)
    requires n <= |s.feeds| && Good(s)
    ensures Advances(s, Poll(s, n))
  {
    if n > 0 {
      PollKeeps(s, n - 1);
      var r := Poll(s, n - 1);
      if r.ok {
        ReceiveAdvances(r.s, n - 1);
        AdvancesThrough(s, r, Receive(r.s, n - 1), Poll(s, n));
      }
    }
  }

  /** A gap is reported exactly when every feed is past the counter. */
  lemma GapIsReportedExactly(s: State)
    requires Good(s) && Poll(s, |s.feeds|).ok
    ensures NextCall(s).ok <==> !AllPast(Poll(s, |s.feeds|).s)
  {
    PollKeeps(s, |s.feeds|);
    var r := Poll(s, |s.feeds|).s;
    forall i | 0 <= i < |r.feeds| ensures r.feeds[i].recvNum < U64 {
      assert NumberedFeed(r.feeds[i]);
    }
    BehindMeansAllPast(r.feeds, r.incMsgNum, |r.feeds|);
    if AllPast(r) {
      assert r.feeds[0].recvNum > r.incMsgNum;
    }
  }

  /** Handing on the number `n` keeps the log increasing. */
  lemma HandingKeepsGood(s: State, n: nat)
    requires Good(s) && n <= s.incMsgNum && (s.handed != [] ==> s.handed[|s.handed| - 1] < n)
    ensures Good(s.(handed := s.handed + [n]))
  {
  }

  lemma CallKeepsGood(s: State)
    requires Good(s)
    ensures Good(NextCall(s).s) && s.accepted <= NextCall(s).s.accepted && s.handed <= NextCall(s).s.handed
  {
    PollKeeps(s, |s.feeds|);
    var r := Poll(s, |s.feeds|);
    if r.next.Some? {
      HandingKeepsGood(r.s, r.next.value);
    }
  }

  // ----- every run ------------------------------------------------------------------------

  /** A packet arrives at a feed, the caller asks for the next increment, or it starts over. */
  datatype Op = Arrive(i: nat, d: Delivery) | Call | Restart

  /** The loop of fast_books_recover that resets the counters; the feeds keep what they have not delivered. */
  function Restarted(s: State): State {
    State(seq(|s.feeds|, i requires 0 <= i < |s.feeds| => s.feeds[i].(recvNum := 0)), 0, false, [], [])
  }

  function Step(s: State, op: Op): State {
    match op
    case Arrive(i, d) =>
      if i < |s.feeds| then s.(feeds := s.feeds[i := s.feeds[i].(pending := s.feeds[i].pending + [d])]) else s
    case Call => NextCall(s).s
    case Restart => Restarted(s)
  }

  function Run(s: State, ops: seq<Op>): State
    decreases |ops|
  {
    if ops == [] then s else Step(Run(s, ops[..|ops| - 1]), ops[|ops| - 1])
  }

  predicate RealNumber(op: Op) {
    op.Arrive? && op.d.Msg? && op.d.m.num.Some? ==> 0 < op.d.m.num.value < U64
  }

  /** Feed arbitration: over every interleaving of lossy and duplicated feeds, accepted numbers are consecutive,
      handed-on numbers strictly increase, and gap mode is on whenever all feeds are past the counter. */
  lemma {:induction false} EveryRunIsOrdered(s: State, ops: seq<Op>)
    requires Good(s) && forall k | 0 <= k < |ops| :: RealNumber(ops[k])
    ensures Good(Run(s, ops))
    decreases |ops|
  {
    if ops != [] {
      var mid, op := Run(s, ops[..|ops| - 1]), ops[|ops| - 1];
      EveryRunIsOrdered(s, ops[..|ops| - 1]);
      match op
      case Call => CallKeepsGood(mid);
      case Restart =>
        var r := Restarted(mid);
        forall j | 0 <= j < |r.feeds| ensures NumberedFeed(r.feeds[j]) {
          assert NumberedFeed(mid.feeds[j]);
        }
        assert r.feeds[0].recvNum <= r.incMsgNum;
      case Arrive(i, d) => ArrivalKeepsGood(mid, i, d);
    }
  }

  lemma ArrivalKeepsGood(s: State, i: nat, d: Delivery)
    requires Good(s) && RealNumber(Arrive(i, d))
    ensures Good(Step(s, Arrive(i, d)))
  {
    var r := Step(s, Arrive(i, d));
    forall j | 0 <= j < |r.feeds| ensures NumberedFeed(r.feeds[j]) {
      assert NumberedFeed(s.feeds[j]);
    }
    if !s.gapMode {
      var j :| 0 <= j < |s.feeds| && s.feeds[j].recvNum <= s.incMsgNum;
      assert r.feeds[j].recvNum <= r.incMsgNum;
    }
  }

  // ----- where the promise ends -----------------------------------------------------------

  /** Taking a number as the next one keeps the log in order exactly if the number is not 0: that is the counter's own
      mark for nothing accepted yet. */
  lemma ZeroBreaksOrderExactly(s: State, n: nat, t: State)
    requires Ordered(s) && s.incMsgNum < U64 && n < U64 && Accepts(s, n)
    requires t.incMsgNum == n && t.accepted == s.accepted + [n] && t.handed == s.handed
    ensures Ordered(t) <==> n > 0
  {
    if n > 0 {
      AcceptKeepsOrder(s, n, t);
    }
  }

  /** The number 0 is accepted again and again. */
  lemma ZeroIsAcceptedTwice(s: State)
    requires |s.feeds| == 1 && s.incMsgNum == 0 && s.accepted == []
    requires s.feeds[0] == Feed(0, [Msg(Message(Some(0), Some(Refresh))), Msg(Message(Some(0), Some(Refresh)))])
    ensures Receive(Receive(s, 0).s, 0).s.accepted == [0, 0]
  {
  }

  /** The increments that a call accepts from the first `n` feeds. */
  function Refreshes(s: State, n: nat): seq<nat>
    requires n <= |s.feeds|
  {
    if n == 0 then []
    else
      var r := Poll(s, n - 1);
      var q := Receive(r.s, n - 1);
      Refreshes(s, n - 1) + if r.ok && q.next.Some? then [q.next.value] else []
  }

  /** Only the first of them is kept. */
  lemma {:induction false} FirstIsKept(s: State, n: nat)
    requires n <= |s.feeds|
    ensures Poll(s, n).next == if Refreshes(s, n) == [] then None else Some(Refreshes(s, n)[0])
    decreases n
  {
    if n > 0 {
      FirstIsKept(s, n - 1);
    }
  }

  /** A call that reports no gap hands on what it accepts. */
  ghost predicate HandsOnAll(s: State) {
    NextCall(s).ok ==> NextCall(s).s.handed == s.handed + Refreshes(s, |s.feeds|)
  }

  /** ... that is, unless it accepts two increments or more. */
  lemma HandsOnAllUnlessTwo(s: State)
    requires Good(s)
    ensures HandsOnAll(s) <==> NextCall(s).ok ==> |Refreshes(s, |s.feeds|)| <= 1
  {
    PollKeeps(s, |s.feeds|);
    FirstIsKept(s, |s.feeds|);
    if NextCall(s).ok {
      var all := Refreshes(s, |s.feeds|);
      assert |NextCall(s).s.handed| == |s.handed| + if all == [] then 0 else 1;
      if |all| == 1 {
        assert all == [all[0]];
      }
    }
  }

  /** A state of `n` feeds in which the next call accepts two increments. */
  function TwoAtOnce(n: nat): State
    requires n >= 2
  {
    State([Feed(1, [Msg(Message(Some(2), Some(Refresh)))]), Feed(1, [Msg(Message(Some(3), Some(Refresh)))])]
          + seq(n - 2, _ => Feed(1, [])), 1, false, [1], [])
  }

  lemma {:induction false} BothAccepted(n: nat, k: nat)
    requires 2 <= k <= n
    ensures var r := Poll(TwoAtOnce(n), k);
      && r.ok && r.next == Some(2) && r.s.incMsgNum == 3 && !r.s.gapMode && r.s.feeds[k..] == TwoAtOnce(n).feeds[k..]
      && Refreshes(TwoAtOnce(n), k) == [2, 3]
    decreases k
  {
    var s := TwoAtOnce(n);
    if k == 2 {
      var r0 := Poll(s, 0);
      var r1 := Poll(s, 1);
      assert r1 == Received(true, Some(2), Receive(s, 0).s);
      assert Refreshes(s, 1) == [] + [2] == [2];
      assert Receive(r1.s, 1).next == Some(3);
      assert Refreshes(s, 2) == [2] + [3];
    } else {
      BothAccepted(n, k - 1);
      var r := Poll(s, k - 1);
      assert r.s.feeds[k - 1] == r.s.feeds[k - 1..][0] == Feed(1, []);
      assert r.s.feeds[k..] == r.s.feeds[k - 1..][1..];
      assert Refreshes(s, k - 1) + [] == Refreshes(s, k - 1);
    }
  }

  /** With one feed nothing that is accepted is lost, whatever is delivered; with more, something may be. */
  lemma NothingIsLostExactly(n: nat)
    requires n > 0
    ensures (forall s: State | Good(s) && |s.feeds| == n :: HandsOnAll(s)) <==> n == 1
  {
    if n == 1 {
      forall s: State | Good(s) && |s.feeds| == n ensures HandsOnAll(s) {
        HandsOnAllUnlessTwo(s);
        assert Refreshes(s, 0) == [];
      }
    } else {
      var s := TwoAtOnce(n);
      BothAccepted(n, n);
      assert s.feeds[0].recvNum <= s.incMsgNum;
      assert Good(s);
      HandsOnAllUnlessTwo(s);
      assert NextCall(s).ok;
    }
  }

  /** One call can accept two increments, and then hands on the first only. */
  lemma SecondIncrementIsDropped(a: nat, s: State)
    requires 0 < a < U64 - 2 && s.incMsgNum == a && |s.feeds| == 2 && !s.gapMode
    requires s.feeds[0] == Feed(a, [Msg(Message(Some(a + 1), Some(Refresh)))])
    requires s.feeds[1] == Feed(a, [Msg(Message(Some(a + 2), Some(Refresh)))])
    ensures var r := NextCall(s);
      r.ok && r.next == Some(a + 1) && r.s.incMsgNum == a + 2 && r.s.accepted == s.accepted + [a + 1, a + 2]
  {
    var r1 := Receive(s, 0);
    assert Poll(s, 1) == Received(true, r1.next, r1.s) by {
      assert Poll(s, 0) == Received(true, None, s);
    }
    assert Receive(r1.s, 1).s.incMsgNum == a + 2;
    assert s.accepted + [a + 1] + [a + 2] == s.accepted + [a + 1, a + 2];
  }

  // ----- implementation -------------------------------------------------------------------

  /** The first `n` feeds are polled with this result. */
  ghost predicate Polls(s: State, n: nat, r: Received) {
    n <= |s.feeds| && Poll(s, n) == r
  }

  /** One feed more. */
  lemma PollsOne(s: State, i: nat, r: Received, q: Received)
    requires i < |s.feeds| && Polls(s, i, r) && r.ok && q == Receive(r.s, i)
    ensures Polls(s, i + 1, Received(q.ok, if r.next.Some? then r.next else q.next, q.s))
  {
  }

  class FeedSet {
    const feeds: array<Feed>
    var incMsgNum: nat
    var gapMode: bool
    ghost var accepted: seq<nat>
    ghost var handed: seq<nat>

    ghost function Now(): State
      reads this, feeds
    {
      State(feeds[..], incMsgNum, gapMode, accepted, handed)
    }

    constructor (n: nat)
      requires n > 0
      ensures Good(Now()) && feeds.Length == n && fresh(feeds) && accepted == [] && handed == []
    {
      feeds := new Feed[n](_ => Feed(0, []));
      incMsgNum, gapMode, accepted, handed := 0, false, [], [];
      new;
      assert feeds[0].recvNum <= incMsgNum;
    }

    /** recv_increment */
    method RecvIncrement(i: nat) returns (ok: bool, next: Option<nat>)
      requires i < feeds.Length && incMsgNum < U64
      modifies this, feeds
      ensures Received(ok, next, Now()) == Receive(old(Now()), i)
    {
      if feeds[i].recvNum > incMsgNum {
        return true, None;
      }
      if feeds[i].pending == [] {
        return true, None;
      }
      var d := feeds[i].pending[0];
      feeds[i] := feeds[i].(pending := feeds[i].pending[1..]);
      if !d.Msg? {
        return true, None;
      }
      if d.m.num.None? {
        return false, None;
      }
      var msgNum := d.m.num.value;
      feeds[i] := feeds[i].(recvNum := msgNum);
      if incMsgNum == 0 {
        incMsgNum := msgNum;
      } else if (incMsgNum + 1) % U64 == msgNum {
        incMsgNum := (incMsgNum + 1) % U64;
        if gapMode {
          gapMode := false;
        }
      } else if incMsgNum < msgNum {
        gapMode := true;
        return true, None;
      } else {
        return true, None;
      }
      accepted := accepted + [msgNum];
      match d.m.kind
      case None => return false, None;
      case Some(Unknown) => return false, None;
      case Some(Quiet) => return true, None;
      case Some(Refresh) => return true, Some(msgNum);
    }

    /** The polling loop of next_increment. */
    method PollFeeds() returns (ok: bool, next: Option<nat>)
      requires Good(Now())
      modifies this, feeds
      ensures Polls(old(Now()), feeds.Length, Received(ok, next, Now()))
    {
      ghost var start := Now();
      next := None;
      for i := 0 to feeds.Length
        invariant Polls(start, i, Received(true, next, Now()))
      {
        PollKeeps(start, i);
        ghost var before := Received(true, next, Now());
        var good, msg := RecvIncrement(i);
        PollsOne(start, i, before, Received(good, msg, Now()));
        if next.None? {
          next := msg;
        }
        if !good {
          PollStopsAtFailure(start, i + 1, feeds.Length);
          return false, next;
        }
      }
      return true, next;
    }

    /** The minimum next_increment takes in gap mode. */
    method Lowest() returns (minMsgNum: nat)
      requires incMsgNum < U64
      ensures minMsgNum == Behind(feeds[..], incMsgNum, feeds.Length)
    {
      minMsgNum := (incMsgNum + 1) % U64;
      for i := 0 to feeds.Length
        invariant minMsgNum == Behind(feeds[..], incMsgNum, i)
      {
        if feeds[i].recvNum < minMsgNum {
          minMsgNum := feeds[i].recvNum;
        }
      }
    }

    /** next_increment */
    method NextIncrement() returns (ok: bool, next: Option<nat>)
      requires Good(Now())
      modifies this, feeds
      ensures Good(Now())
      ensures Received(ok, next, Now()) == NextCall(old(Now()))
      ensures Poll(old(Now()), feeds.Length).ok ==> (ok <==> !AllPast(Now()))
    {
      GapIsReportedExactlyIfPolled(Now());
      CallKeepsGood(Now());
      PollKeeps(Now(), feeds.Length);
      ok, next := PollFeeds();
      assert Received(ok, next, Now()) == Poll(old(Now()), feeds.Length);
      if !ok {
        return;
      }
      if gapMode {
        var minMsgNum := Lowest();
        if minMsgNum > incMsgNum {
          return false, None;
        }
      }
      if next.Some? {
        handed := handed + [next.value];
      }
    }
  }

  lemma GapIsReportedExactlyIfPolled(s: State)
    requires Good(s)
    ensures Poll(s, |s.feeds|).ok ==> (NextCall(s).ok <==> !AllPast(Poll(s, |s.feeds|).s))
  {
    if Poll(s, |s.feeds|).ok {
      GapIsReportedExactly(s);
    }
  }

  lemma {:induction false} PollStopsAtFailure(s: State, k: nat, n: nat)
    requires k <= n <= |s.feeds| && !Poll(s, k).ok
    ensures Poll(s, n) == Poll(s, k)
  {
    if k < n {
      PollStopsAtFailure(s, k, n - 1);
    }
  }
}
