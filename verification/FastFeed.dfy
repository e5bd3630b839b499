/** fast_session_recv of lib/proto/fast_session.c: decode, compact, receive, decode again. Over any number of calls,
    whatever each of them receives, the messages returned are those of the bytes received. */
module FastFeed {
  import opened Wrappers
  import opened Digits
  import opened ByteBuffer
  import opened FastFlat
  import opened FastMessage
  import opened FastDecoder
  import opened FastChunks
  import opened FastEncoder
  import opened FastRoundTrip
  import opened FastShift
  import FastReceiver

  const MAX_SIZE: nat := 2048

  type Got = (nat, seq<FieldSlot>)

  // ----- what has been decoded, whatever comes later --------------------------------------

  /** Decoding `y` gives these messages and then what decoding it from `p` gives. */
  ghost predicate DecodesTo(c: Config, start: Session, y: seq<byte>, msgs: seq<Got>, t: Session, p: nat) {
    && p <= |y| && Valid(c, start) && Valid(c, t)
    && DecodeAll(c, start, y, 0) == Then(msgs, DecodeAll(c, t, y, p))
  }

  /** So it is for all bytes that begin with `h`. */
  ghost predicate Decoded(c: Config, start: Session, h: seq<byte>, msgs: seq<Got>, t: Session, p: nat) {
    p <= |h| && Valid(c, start) && Valid(c, t) && forall y | h <= y :: DecodesTo(c, start, y, msgs, t, p)
  }

  lemma NothingDecoded(c: Config, s: Session)
    requires Valid(c, s)
    ensures Decoded(c, s, [], [], s, 0)
  {
    forall y: seq<byte> | [] <= y ensures DecodesTo(c, s, y, [], s, 0) {
      ThenThen([], [], DecodeAll(c, s, y, 0));
    }
  }

  lemma MoreArrives(c: Config, start: Session, h: seq<byte>, e: seq<byte>, msgs: seq<Got>, t: Session, p: nat)
    requires Decoded(c, start, h, msgs, t, p)
    ensures Decoded(c, start, h + e, msgs, t, p)
  {
    forall y | h + e <= y ensures DecodesTo(c, start, y, msgs, t, p) {
      assert h <= y;
    }
  }

  lemma MessageDecoded(c: Config, start: Session, h: seq<byte>, msgs: seq<Got>, t: Session, p: nat, u: Session, i: nat,
                       q: nat)
    requires Decoded(c, start, h, msgs, t, p) && AllRepeatable(c) && Ahead(c, t, h, p) == Message(u, i, q)
    ensures Decoded(c, start, h, msgs + [(i, u.slots[i])], u, q)
  {
    forall y | h <= y ensures DecodesTo(c, start, y, msgs + [(i, u.slots[i])], u, q) {
      var e := y[|h|..];
      assert y == h + e;
      RunResumes(c, t, h, e, p);
      ThenMessage(c, t, y, p, u, i, q);
      ThenThen(msgs, [(i, u.slots[i])], DecodeAll(c, u, y, q));
      assert DecodesTo(c, start, y, msgs, t, p);
    }
  }

  lemma WaitingDecoded(c: Config, start: Session, h: seq<byte>, msgs: seq<Got>, t: Session, p: nat, u: Session, q: nat)
    requires Decoded(c, start, h, msgs, t, p) && AllRepeatable(c) && Ahead(c, t, h, p) == NeedMore(u, q)
    ensures Decoded(c, start, h, msgs, u, q) && DecodeAll(c, start, h, 0).msgs == msgs
  {
    forall y | h <= y ensures DecodesTo(c, start, y, msgs, u, q) {
      var e := y[|h|..];
      assert y == h + e;
      RunResumes(c, t, h, e, p);
      SameRun(c, t, u, y, p, q);
      assert DecodesTo(c, start, y, msgs, t, p);
    }
    ThenNothing(c, t, h, p, NeedMore(u, q));
    assert DecodesTo(c, start, h, msgs, t, p);
  }

  /** Where the bytes from the cursor on are the same, the run is the same. */
  lemma SameTail(c: Config, s: Session, d: seq<byte>, start: nat, h: seq<byte>, p: nat)
    requires start <= |d| && p <= |h| && d[start..] == h[p..] && Valid(c, s)
    ensures match Ahead(c, s, d, start)
      case Message(t, i, q) => q >= start && Ahead(c, s, h, p) == Message(t, i, p + (q - start))
      case NeedMore(t, q) => q >= start && Ahead(c, s, h, p) == NeedMore(t, p + (q - start))
      case GaveUp => Ahead(c, s, h, p) == GaveUp
  {
    var tail := h[p..];
    RunMoves(c, s, d, start, tail, 0);
    RunMoves(c, s, h, p, tail, 0);
  }

  /** The messages that have been returned are those of the bytes received, and the next ones come from the bytes that
      are not read yet. */
  ghost predicate InStep(c: Config, start: Session, received: seq<byte>, returned: seq<Got>, now: Session,
                         unread: seq<byte>) {
    && |unread| <= |received| && received[|received| - |unread|..] == unread
    && Decoded(c, start, received, returned, now, |received| - |unread|)
  }

  lemma UnreadMoves(received: seq<byte>, d: seq<byte>, p: nat, q: nat)
    requires p <= q <= |d| && |d| - p <= |received| && received[|received| - (|d| - p)..] == d[p..]
    ensures received[|received| - (|d| - q)..] == d[q..]
  {
    assert d[q..] == d[p..][q - p..];
  }

  lemma MessageStays(c: Config, start: Session, received: seq<byte>, returned: seq<Got>, s: Session, d: seq<byte>,
                     p: nat)
    requires p <= |d| && InStep(c, start, received, returned, s, d[p..]) && AllRepeatable(c)
    ensures var r := Ahead(c, s, d, p);
      r.Message? ==> InStep(c, start, received, returned + [(r.index, r.s.slots[r.index])], r.s, d[r.p..])
  {
    var at := |received| - |d[p..]|;
    SameTail(c, s, d, p, received, at);
    var r := Ahead(c, s, d, p);
    if r.Message? {
      UnreadMoves(received, d, p, r.p);
      MessageDecoded(c, start, received, returned, s, at, r.s, r.index, at + (r.p - p));
    }
  }

  lemma WaitingStays(c: Config, start: Session, received: seq<byte>, returned: seq<Got>, s: Session, d: seq<byte>,
                     p: nat)
    requires p <= |d| && InStep(c, start, received, returned, s, d[p..]) && AllRepeatable(c)
    ensures var r := Ahead(c, s, d, p);
      r.NeedMore? ==>
        InStep(c, start, received, returned, r.s, d[r.p..]) && DecodeAll(c, start, received, 0).msgs == returned
  {
    var at := |received| - |d[p..]|;
    SameTail(c, s, d, p, received, at);
    var r := Ahead(c, s, d, p);
    if r.NeedMore? {
      UnreadMoves(received, d, p, r.p);
      WaitingDecoded(c, start, received, returned, s, at, r.s, at + (r.p - p));
    }
  }

  lemma InStepWithMore(c: Config, start: Session, received: seq<byte>, returned: seq<Got>, s: Session,
                       unread: seq<byte>, e: seq<byte>)
    requires InStep(c, start, received, returned, s, unread)
    ensures InStep(c, start, received + e, returned, s, unread + e)
  {
    MoreArrives(c, start, received, e, returned, s, |received| - |unread|);
    assert (received + e)[|received| - |unread|..] == unread + e;
  }

  class Link {
    const session: FastReceiver.Receiver
    /** All bytes received, all messages returned, and whether the decoder has given up. */
    ghost var received: seq<byte>
    ghost var returned: seq<Got>
    ghost var broken: bool
    ghost const start: Session

    ghost predicate Valid()
      reads this, session, session.buf, session.buf.data, session.pmap, session.pmap.bytes, session.messages,
        session.owner.Keys
    {
      && session.Valid() && this !in session.owner && AllRepeatable(session.config)
      && (!broken ==> InStep(session.config, start, received, returned, session.Now(), session.buf.Unread()))
    }

    constructor (session: FastReceiver.Receiver)
      requires session.Valid() && session.buf.start == session.buf.end && AllRepeatable(session.config)
      ensures Valid() && this.session == session && received == [] && returned == [] && !broken
      ensures start == session.Now()
    {
      this.session, received, returned, broken, start := session, [], [], false, session.Now();
      NothingDecoded(session.config, session.Now());
    }

    /** A message returned is the next one of the stream; if there is none, there is none in what was received. */
    ghost predicate Returns(got: Option<nat>, before: seq<Got>)
      requires session.Valid()
      reads this, session, session.owner.Keys, session.buf, session.pmap, session.messages
    {
      match got
      case Some(i) => i < |session.slots| && returned == before + [(i, session.slots[i])]
      case None => returned == before
    }

    /** fast_message_decode */
    method Decode() returns (got: Option<nat>)
      requires Valid()
      modifies this`returned, this`broken, session.buf`start, session, session.preamble, session.pmap,
        session.pmap.bytes, session.messages, session.owner.Keys
      ensures Valid() && (old(broken) ==> broken)
      ensures !broken ==> Returns(got, old(returned))
      ensures !broken && got.None? ==> DecodeAll(session.config, start, received, 0).msgs == returned
    {
      ghost var s, d, p := session.Now(), Arrived(session.buf), session.buf.start;
      ghost var r := Ahead(session.config, s, d, p);
      if !broken {
        assert session.buf.Unread() == d[p..];
        MessageStays(session.config, start, received, returned, s, d, p);
        WaitingStays(session.config, start, received, returned, s, d, p);
      }
      got := session.Decode();
      assert session.buf.Unread() == Arrived(session.buf)[session.buf.start..];
      if r.Message? {
        returned := returned + [(r.index, r.s.slots[r.index])];
      } else if r.GaveUp? {
        broken := true;
      }
    }

    /** buffer_compact, if there may be no room for a message */
    method MakeRoom()
      requires Valid()
      modifies session.buf, session.buf.data
      ensures Valid() && session.Now() == old(session.Now())
    {
      if session.buf.data.Length - session.buf.end <= MAX_SIZE {
        session.buf.Compact();
      }
    }

    /** buffer_recv */
    method Receive(offered: seq<byte>) returns (n: nat)
      requires Valid()
      modifies this`received, session.buf, session.buf.data
      ensures Valid() && n <= |offered| && received == old(received) + offered[..n]
    {
      ghost var unread, s := session.buf.Unread(), session.Now();
      n := session.buf.Recv(offered, MAX_SIZE);
      assert session.buf.Unread() == unread + offered[..n];
      if !broken {
        InStepWithMore(session.config, start, received, returned, s, unread, offered[..n]);
      }
      received := received + offered[..n];
    }

    /** fast_session_recv, where `offered` is what the socket holds */
    method Recv(offered: seq<byte>) returns (got: Option<nat>, n: nat)
      requires Valid()
      modifies this`received, this`returned, this`broken, session.buf, session.buf.data, session, session.preamble,
        session.pmap, session.pmap.bytes, session.messages, session.owner.Keys
      ensures Valid() && (old(broken) ==> broken)
      ensures n <= |offered| && received == old(received) + offered[..n]
      ensures !broken ==> Returns(got, old(returned))
      ensures !broken && got.None? ==> DecodeAll(session.config, start, received, 0).msgs == returned
    {
      n := 0;
      got := Decode();
      if got.Some? {
        return;
      }
      MakeRoom();
      n := Receive(offered);
      if n > 0 {
        got := Decode();
      } else {
        assert received == old(received);
      }
    }
  }

  // ----- any number of calls --------------------------------------------------------------

  /** What was returned is the beginning of what the whole stream holds, however it goes on. */
  lemma ReturnedIsPrefix(c: Config, start: Session, received: seq<byte>, returned: seq<Got>, now: Session,
                         unread: seq<byte>, stream: seq<byte>)
    requires InStep(c, start, received, returned, now, unread) && received <= stream
    ensures returned <= DecodeAll(c, start, stream, 0).msgs
  {
    assert DecodesTo(c, start, stream, returned, now, |received| - |unread|);
  }

  /** From end to end: whatever fast_message_encode sends, however it is cut on its way, fast_session_recv returns in
      order, and all of it once all of it has arrived. */
  lemma SentIsReturned(c: Config, start: Session, prevs: seq<seq<FieldPrev>>, ms: seq<Send>,
                       received: seq<byte>, returned: seq<Got>, now: Session, unread: seq<byte>)
    requires Fresh(c, start) && CoupledAll(c, prevs, start) && AllFilled(c, prevs, ms)
    requires InStep(c, start, received, returned, now, unread) && received <= StreamText(c, prevs, ms)
    ensures |returned| <= |ms| && forall k | 0 <= k < |returned| :: ShowsSend(c, returned[k], ms[k])
    ensures received == StreamText(c, prevs, ms) && DecodeAll(c, start, received, 0).msgs == returned ==>
      ShowsAll(c, returned, ms)
  {
    var stream := StreamText(c, prevs, ms);
    StreamIsDelivered(c, start, prevs, ms, stream, 0);
    ReturnedIsPrefix(c, start, received, returned, now, unread, stream);
    assert ShowsAll(c, DecodeAll(c, start, stream, 0).msgs, ms);
  }
}
