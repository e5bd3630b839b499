/** Chunking is unobservable: however a stream of FAST messages is cut into pieces, and wherever the buffer is
    compacted, the same messages are decoded. */
module FastChunks {
  import opened Wrappers
  import opened Digits
  import opened StopBit
  import opened PresenceMap
  import opened FastField
  import opened FastFlat
  import opened FastMessage
  import opened FastDecoder

  /** The messages decoded, each with its template and its fields, and how the decoding ended. */
  datatype All = All(msgs: seq<(nat, seq<FieldSlot>)>, end: Outcome)

  /** fast_message_decode, called again as long as it returns a message. */
  function DecodeAll(c: Config, s: Session, d: seq<byte>, p: nat): (r: All)
    requires p <= |d| && Valid(c, s)
    ensures !r.end.Message? && (r.end.NeedMore? ==> Valid(c, r.end.s) && p <= r.end.p <= |d|)
    decreases |d| - p, if s.pmap.Some? then 1 else 0, 1
  {
    DecodeNext(c, s, d, p)
  }

  function DecodeNext(c: Config, s: Session, d: seq<byte>, p: nat): (r: All)
    requires p <= |d| && Valid(c, s)
    ensures !r.end.Message? && (r.end.NeedMore? ==> Valid(c, r.end.s) && p <= r.end.p <= |d|)
    decreases |d| - p, if s.pmap.Some? then 1 else 0, 0
  {
    match Run(c, s, d, p)
    case Message(t, i, q) =>
      var rest := DecodeAll(c, t, d, q);
      All([(i, t.slots[i])] + rest.msgs, rest.end)
    case e => All([], e)
  }

  /** First these messages, then those. */
  function Then(msgs: seq<(nat, seq<FieldSlot>)>, more: All): All {
    All(msgs + more.msgs, more.end)
  }

  /** The bytes `d` and then each chunk, decoding as far as possible every time. */
  function Feed(c: Config, s: Session, d: seq<byte>, p: nat, chunks: seq<seq<byte>>): All
    requires p <= |d| && Valid(c, s)
    decreases |chunks|
  {
    var r := DecodeAll(c, s, d, p);
    if chunks == [] || !r.end.NeedMore? then r
    else Then(r.msgs, Feed(c, r.end.s, d + chunks[0], r.end.p, chunks[1..]))
  }

  function Joined(chunks: seq<seq<byte>>): seq<byte> {
    if chunks == [] then [] else chunks[0] + Joined(chunks[1..])
  }

  lemma UnfoldAll(c: Config, s: Session, d: seq<byte>, p: nat)
    requires p <= |d| && Valid(c, s)
    ensures DecodeAll(c, s, d, p) == DecodeNext(c, s, d, p)
  {
  }

  /** One cut. */
  ghost predicate AllResumesAt(c: Config, s: Session, d: seq<byte>, e: seq<byte>, p: nat)
    requires p <= |d| && Valid(c, s)
  {
    var r, w := DecodeAll(c, s, d, p), DecodeAll(c, s, d + e, p);
    w == if r.end.NeedMore? then Then(r.msgs, DecodeAll(c, r.end.s, d + e, r.end.p)) else r
  }

  lemma ThenNothing(c: Config, s: Session, d: seq<byte>, p: nat, r: Outcome)
    requires p <= |d| && Valid(c, s)
    requires Run(c, s, d, p) == r && !r.Message?
    ensures DecodeAll(c, s, d, p) == All([], r)
  {
    UnfoldAll(c, s, d, p);
  }

  lemma ThenMessage(c: Config, s: Session, d: seq<byte>, p: nat, t: Session, i: nat, q: nat)
    requires p <= |d| && Valid(c, s)
    requires Run(c, s, d, p) == Message(t, i, q)
    ensures DecodeAll(c, s, d, p) == Then([(i, t.slots[i])], DecodeAll(c, t, d, q))
  {
    UnfoldAll(c, s, d, p);
  }

  /** The same run leads to the same rest. */
  lemma SameRun(c: Config, s: Session, t: Session, d: seq<byte>, p: nat, q: nat)
    requires p <= |d| && q <= |d| && Valid(c, s) && Valid(c, t) && Run(c, s, d, p) == Run(c, t, d, q)
    ensures DecodeAll(c, s, d, p) == DecodeAll(c, t, d, q)
  {
    UnfoldAll(c, s, d, p);
    UnfoldAll(c, t, d, q);
  }

  lemma ThenThen(x: seq<(nat, seq<FieldSlot>)>, y: seq<(nat, seq<FieldSlot>)>, more: All)
    ensures Then(x, Then(y, more)) == Then(x + y, more)
    ensures Then([], more) == more
  {
    assert x + (y + more.msgs) == x + y + more.msgs;
    assert [] + more.msgs == more.msgs;
  }

  lemma {:induction false} AllResumes(c: Config, s: Session, d: seq<byte>, e: seq<byte>, p: nat)
    requires p <= |d| && Valid(c, s) && AllRepeatable(c)
    ensures AllResumesAt(c, s, d, e, p)
    decreases |d| - p, if s.pmap.Some? then 1 else 0
  {
    RunResumes(c, s, d, e, p);
    var r := Run(c, s, d, p);
    match r {
      case Message(t, i, q) =>
        AllResumes(c, t, d, e, q);
        ThenMessage(c, s, d, p, t, i, q);
        ThenMessage(c, s, d + e, p, t, i, q);
        var m := DecodeAll(c, t, d, q);
        if m.end.NeedMore? {
          ThenThen([(i, t.slots[i])], m.msgs, DecodeAll(c, m.end.s, d + e, m.end.p));
        }
      case NeedMore(t, q) =>
        ThenNothing(c, s, d, p, r);
        SameRun(c, s, t, d + e, p, q);
        ThenThen([], [], DecodeAll(c, t, d + e, q));
      case GaveUp =>
        ThenNothing(c, s, d, p, r);
        ThenNothing(c, s, d + e, p, r);
    }
  }

  /** Any number of cuts, anywhere: the messages, the way the decoding ends and the dictionaries are those of the
      stream in one piece. */
  lemma {:induction false} ChunksDoNotMatter(c: Config, s: Session, d: seq<byte>, p: nat, chunks: seq<seq<byte>>)
    requires p <= |d| && Valid(c, s) && AllRepeatable(c)
    ensures Feed(c, s, d, p, chunks) == DecodeAll(c, s, d + Joined(chunks), p)
    decreases |chunks|
  {
    if chunks == [] {
      assert d + Joined(chunks) == d;
    } else {
      var r := DecodeAll(c, s, d, p);
      var e := chunks[0] + Joined(chunks[1..]);
      assert d + chunks[0] + Joined(chunks[1..]) == d + e;
      AllResumes(c, s, d, e, p);
      if r.end.NeedMore? {
        ChunksDoNotMatter(c, r.end.s, d + chunks[0], r.end.p, chunks[1..]);
      }
    }
  }
}
