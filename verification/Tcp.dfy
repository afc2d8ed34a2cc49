/** read_conn: the receiving side of the built-in TCP stack. */
module Tcp {
  import opened Bytes
  import opened IoBuf

  datatype Timer = KeepAlive | Ack | Arp | Syn | Fin

  /** What read_conn looks at in a segment without options. */
  datatype Segment = Segment(seqNo: uint32, ack: uint32, fin: bool, payload: seq<byte>)

  /** A segment that is sent back, without payload. */
  datatype Reply = NoReply | Reply(fin: bool, seqNo: uint32, ack: uint32)

  function Wrap(n: nat): uint32
  {
    n % TWO_TO_THE_32
  }

  /** The connection as read_conn leaves it; `appended` is all it ever put in the buffer. */
  datatype State = State(seqNo: uint32, ack: uint32, draining: bool, timer: Timer, appended: seq<byte>)

  datatype Result = Result(state: State, reply: Reply)

  function OnFin(st: State, p: Segment): Result
  {
    var ack := Wrap(p.seqNo + |p.payload| + 1);
    if st.draining && st.timer == Fin then
      var seqNo := if st.seqNo == p.ack then Wrap(st.seqNo + 1) else p.ack;
      Result(st.(ack := ack, seqNo := seqNo), Reply(false, seqNo, ack))
    else Result(st.(ack := ack, draining := true, timer := Fin), Reply(true, st.seqNo, ack))
  }

  function Receive(st: State, p: Segment): Result
  {
    var next := Wrap(p.seqNo + |p.payload|);
    if p.fin then OnFin(st, p)
    else if p.payload == [] then Result(st, NoReply)
    else if p.seqNo != st.ack then
      Result(st, if st.ack == next then NoReply else Reply(false, st.seqNo, st.ack))
    else Result(st.(ack := next, timer := Ack, appended := st.appended + p.payload), NoReply)
  }

  /** The fields of struct connstate and of the connection that read_conn works on. */
  class Connection {
    var seqNo: uint32
    var ack: uint32
    var draining: bool
    var timer: Timer
    const io: Buffer // c->recv, or s->raw when the bytes are still encrypted
    ghost var appended: seq<byte>

    ghost function Seen(): State
      reads this
    {
      State(seqNo, ack, draining, timer, appended)
    }

    ghost predicate Valid()
      reads this, io, io.buf
    {
      io.Valid()
    }

    constructor (seqNo: uint32, ack: uint32)
      ensures Valid() && Seen() == State(seqNo, ack, false, KeepAlive, []) && fresh(io) && fresh(io.buf)
    {
      this.seqNo, this.ack, draining, timer, appended := seqNo, ack, false, KeepAlive, [];
      io := new Buffer(2048);
    }

    /** read_conn. */
    method ReadConn(p: Segment) returns (reply: Reply)
      requires Valid()
      modifies this, io, io.buf
      ensures Valid() && (io.buf == old(io.buf) || fresh(io.buf))
      ensures Result(Seen(), reply) == Receive(old(Seen()), p)
      ensures io.Contents() == old(io.Contents()) + appended[|old(appended)|..]
    {
      reply := NoReply;
      if p.fin {
        var fin := false;
        ack := (p.seqNo + |p.payload| + 1) % TWO_TO_THE_32;
        if draining && timer == Fin {
          if seqNo == p.ack {
            seqNo := (seqNo + 1) % TWO_TO_THE_32;
          } else {
            seqNo := p.ack;
          }
        } else {
          fin := true;
          draining := true;
          timer := Fin;
        }
        reply := Reply(fin, seqNo, ack);
      } else if |p.payload| == 0 {
      } else if p.seqNo != ack {
        if ack != (p.seqNo + |p.payload|) % TWO_TO_THE_32 {
          reply := Reply(false, seqNo, ack);
        }
      } else {
        Store(p.payload);
        appended := appended + p.payload;
        ack := (p.seqNo + |p.payload|) % TWO_TO_THE_32;
        if timer != Ack {
          timer := Ack;
        }
      }
    }

    /** The payload is copied behind the bytes in the buffer, which grows when it is too small. */
    method Store(payload: seq<byte>)
      requires Valid() && payload != []
      modifies io, io.buf
      ensures Valid() && (io.buf == old(io.buf) || fresh(io.buf))
      ensures io.Contents() == old(io.Contents()) + payload
    {
      ghost var was := io.Contents();
      if io.buf.Length - io.len < |payload| {
        io.Resize(io.len + |payload|);
        assert io.buf[..io.len] == was;
      }
      var len := io.len;
      ghost var all := io.buf[..];
      assert all[..len] == was;
      MemCpy(io.buf, len, payload);
      io.len := len + |payload|;
      assert io.Contents() == io.buf[..][..io.len] == all[..len] + payload;
    }
  }

  // ----- any network -----

  /** The segment was cut from the peer's stream, whose first byte has sequence number `base`; a FIN
      stands behind the last byte. */
  ghost predicate CutFrom(p: Segment, stream: seq<byte>, base: nat)
  {
    exists o: nat :: CutAt(p, stream, base, o)
  }

  predicate CutAt(p: Segment, stream: seq<byte>, base: nat, o: nat)
  {
    && o + |p.payload| <= |stream| && p.payload == stream[o..o + |p.payload|] && p.seqNo == Wrap(base + o)
    && (p.fin ==> o + |p.payload| == |stream|)
  }

  function Run(st: State, segments: seq<Segment>): State
    decreases |segments|
  {
    if segments == [] then st else Receive(Run(st, segments[..|segments| - 1]), segments[|segments| - 1]).state
  }

  /** Whether a FIN is among the segments. */
  predicate Finished(segments: seq<Segment>)
  {
    exists i :: 0 <= i < |segments| && segments[i].fin
  }

  /** The bytes appended are the stream from `from` on; until a FIN, `ack` numbers the next byte, and
      afterwards it numbers the place behind the FIN. */
  predicate InOrder(st: State, stream: seq<byte>, base: nat, from: nat, finished: bool)
  {
    && from + |st.appended| <= |stream| && st.appended == stream[from..from + |st.appended|]
    && st.ack == if finished then Wrap(base + |stream| + 1) else Wrap(base + from + |st.appended|)
  }

  lemma WrapUnique(base: nat, a: nat, b: nat)
    requires Wrap(base + a) == Wrap(base + b) && a < TWO_TO_THE_32 && b < TWO_TO_THE_32
    ensures a == b
  {
    var q, r := (base + a) / TWO_TO_THE_32, (base + b) / TWO_TO_THE_32;
    assert base + a == TWO_TO_THE_32 * q + Wrap(base + a) && base + b == TWO_TO_THE_32 * r + Wrap(base + b);
  }

  lemma WrapAdd(n: nat, m: nat)
    ensures Wrap(Wrap(n) + m) == Wrap(n + m)
  {
    var q := n / TWO_TO_THE_32;
    assert n == TWO_TO_THE_32 * q + Wrap(n);
    DivModUnique(n + m, TWO_TO_THE_32, q + (Wrap(n) + m) / TWO_TO_THE_32, Wrap(Wrap(n) + m));
  }

  lemma ReceiveInOrder(st: State, p: Segment, stream: seq<byte>, base: nat, from: nat, finished: bool)
    requires InOrder(st, stream, base, from, finished) && CutFrom(p, stream, base)
    requires |stream| + (if finished then 1 else 0) < TWO_TO_THE_32
    ensures InOrder(Receive(st, p).state, stream, base, from, finished || p.fin)
  {
    hide Wrap;
    var o: nat :| CutAt(p, stream, base, o);
    var n := |p.payload|;
    WrapAdd(base + o, n);
    WrapAdd(base + o, n + 1);
    if !p.fin && n > 0 && p.seqNo == st.ack {
      if finished {
        WrapUnique(base, o, |stream| + 1);
        assert false;
      } else {
        WrapUnique(base, o, from + |st.appended|);
      }
    }
  }

  /** Under any loss, duplication and reordering the bytes appended are the stream, in order and without
      a gap, from where the connection started.  A stream of 2^32 - 1 bytes is safe only until its FIN. */
  lemma {:induction false} AppendsTheStream(st: State, stream: seq<byte>, base: nat, from: nat, segments: seq<Segment>)
    requires st.appended == [] && from <= |stream| && st.ack == Wrap(base + from)
    requires forall p <- segments :: CutFrom(p, stream, base)
    requires |stream| + (if Finished(segments) then 1 else 0) < TWO_TO_THE_32
    ensures InOrder(Run(st, segments), stream, base, from, Finished(segments))
    decreases |segments|
  {
    if segments == [] {
    } else {
      var n := |segments| - 1;
      var before, p := segments[..n], segments[n];
      assert p in segments && forall q <- before :: q in segments;
      FinishedStep(segments);
      hide InOrder, CutFrom, Receive, Wrap, Finished;
      AppendsTheStream(st, stream, base, from, before);
      ReceiveInOrder(Run(st, before), p, stream, base, from, Finished(before));
    }
  }

  lemma FinishedStep(segments: seq<Segment>)
    requires segments != []
    ensures var n := |segments| - 1;
            Finished(segments) <==> Finished(segments[..n]) || segments[n].fin
  {
    var n := |segments| - 1;
    if Finished(segments) && !segments[n].fin {
      var i :| 0 <= i < |segments| && segments[i].fin;
      assert segments[..n][i].fin;
    }
    if Finished(segments[..n]) {
      var i :| 0 <= i < n && segments[..n][i].fin;
      assert segments[i].fin;
    }
  }

  /** Behind a FIN nothing is appended any more. */
  lemma NoMoreBytes(st: State, p: Segment, stream: seq<byte>, base: nat, from: nat)
    requires InOrder(st, stream, base, from, true) && CutFrom(p, stream, base) && |stream| + 1 < TWO_TO_THE_32
    ensures Receive(st, p).state.appended == st.appended
  {
    hide Wrap;
    var o: nat :| CutAt(p, stream, base, o);
    if !p.fin && p.payload != [] && p.seqNo == st.ack {
      WrapUnique(base, o, |stream| + 1);
      assert false;
    }
  }

  lemma {:induction false} AfterFin(st: State, stream: seq<byte>, base: nat, from: nat, before: seq<Segment>,
      after: seq<Segment>)
    requires st.appended == [] && from <= |stream| && st.ack == Wrap(base + from) && |stream| + 1 < TWO_TO_THE_32
    requires (forall p <- before :: CutFrom(p, stream, base)) && (forall p <- after :: CutFrom(p, stream, base))
    requires Finished(before)
    ensures InOrder(Run(st, before + after), stream, base, from, true)
    ensures Run(st, before + after).appended == Run(st, before).appended
    decreases |after|
  {
    hide InOrder, CutFrom, Receive, Wrap, Finished, Run;
    if after == [] {
      assert before + after == before;
      AppendsTheStream(st, stream, base, from, before);
    } else {
      var n := |after| - 1;
      var all, front, p := before + after, before + after[..n], after[n];
      assert all[..|all| - 1] == front && all[|all| - 1] == p && p in after && forall q <- after[..n] :: q in after;
      RunLast(st, all);
      AfterFin(st, stream, base, from, before, after[..n]);
      NoMoreBytes(Run(st, front), p, stream, base, from);
      ReceiveInOrder(Run(st, front), p, stream, base, from, true);
    }
  }

  lemma FinishedOnce(before: seq<Segment>, fin: Segment)
    requires fin.fin
    ensures Finished(before + [fin]) && (before + [fin])[..|before|] == before
  {
    assert (before + [fin])[|before|].fin;
  }

  lemma FinReceived(st: State, fin: Segment, stream: seq<byte>, base: nat, from: nat)
    requires InOrder(st, stream, base, from, false) && CutFrom(fin, stream, base) && fin.fin
    requires |stream| + 1 < TWO_TO_THE_32
    ensures Receive(st, fin).state.appended == st.appended
    ensures st.appended == stream[from..] <==> st.ack == Wrap(fin.seqNo + |fin.payload|)
  {
    var o: nat :| CutAt(fin, stream, base, o);
    WrapAdd(base + o, |fin.payload|);
    hide Wrap;
    if st.ack == Wrap(fin.seqNo + |fin.payload|) {
      WrapUnique(base, from + |st.appended|, |stream|);
    }
  }

  // ----- what is sent back -----

  /** A segment is answered when it has a FIN, or data that neither starts nor ends at the next byte expected;
      an answer tells what is acknowledged now. */
  lemma AnsweredExactly(st: State, p: Segment)
    ensures var r, end := Receive(st, p), Wrap(p.seqNo + |p.payload|);
            && (r.reply.Reply? <==> p.fin || (p.payload != [] && st.ack != p.seqNo && st.ack != end))
            && (r.reply.Reply? ==> r.reply.ack == r.state.ack && r.reply.seqNo == r.state.seqNo)
            && (p.fin ==> r.reply.ack == Wrap(p.seqNo + |p.payload| + 1))
            && (r.reply.Reply? && !p.fin ==> r == Result(st, Reply(false, st.seqNo, st.ack)))
  {
    hide Wrap;
  }

  /** Until a FIN every answer acknowledges exactly the bytes appended so far. */
  lemma AnswersAcknowledge(st: State, stream: seq<byte>, base: nat, from: nat, before: seq<Segment>, p: Segment)
    requires st.appended == [] && from <= |stream| && st.ack == Wrap(base + from) && |stream| < TWO_TO_THE_32
    requires (forall q <- before :: CutFrom(q, stream, base)) && !Finished(before) && !p.fin
    ensures var r := Receive(Run(st, before), p);
            r.reply.Reply? ==> r.reply.ack == Wrap(base + from + |Run(st, before).appended|)
                               && Run(st, before).appended <= stream[from..]
  {
    AppendsTheStream(st, stream, base, from, before);
    hide Run, Wrap, CutFrom, Finished;
  }

  /** The number of FINs sent in answer. */
  function FinsSent(st: State, segments: seq<Segment>): nat
    decreases |segments|
  {
    if segments == [] then 0
    else
      var n := |segments| - 1;
      var reply := Receive(Run(st, segments[..n]), segments[n]).reply;
      FinsSent(st, segments[..n]) + if reply.Reply? && reply.fin then 1 else 0
  }

  predicate Closing(st: State)
  {
    st.draining && st.timer == Fin
  }

  /** The first FIN is answered with one, the others without; from the first on the connection is closing. */
  lemma {:induction false} OneFinSent(st: State, stream: seq<byte>, base: nat, from: nat, segments: seq<Segment>)
    requires st.appended == [] && from <= |stream| && st.ack == Wrap(base + from) && |stream| + 1 < TWO_TO_THE_32
    requires forall p <- segments :: CutFrom(p, stream, base)
    requires !Closing(st)
    ensures FinsSent(st, segments) == if Finished(segments) then 1 else 0
    ensures Closing(Run(st, segments)) <==> Finished(segments)
    decreases |segments|
  {
    if segments != [] {
      var n := |segments| - 1;
      var before, p := segments[..n], segments[n];
      assert p in segments && forall q <- before :: q in segments;
      FinishedStep(segments);
      hide InOrder, CutFrom, Wrap, Finished;
      OneFinSent(st, stream, base, from, before);
      AppendsTheStream(st, stream, base, from, before);
      if Finished(before) {
        NoMoreBytes(Run(st, before), p, stream, base, from);
      }
    }
  }

  /** The first FIN sets the acknowledgement number behind the whole stream, and appends nothing: what it
      acknowledges has all been appended exactly when it ends where the next byte was expected.  Until then,
      by `AppendsTheStream`, every byte that is acknowledged has been appended. */
  lemma AcknowledgedExactly(st: State, stream: seq<byte>, base: nat, from: nat, before: seq<Segment>, fin: Segment,
      after: seq<Segment>)
    requires st.appended == [] && from <= |stream| && st.ack == Wrap(base + from) && |stream| + 1 < TWO_TO_THE_32
    requires forall p <- before + [fin] + after :: CutFrom(p, stream, base)
    requires !Finished(before) && fin.fin
    ensures var end := Run(st, before + [fin] + after);
            && end.ack == Wrap(base + |stream| + 1)
            && (end.appended == stream[from..] <==> Run(st, before).ack == Wrap(fin.seqNo + |fin.payload|))
  {
    assert (forall p <- before :: p in before + [fin] + after) && fin in before + [fin] + after;
    assert forall p <- after :: p in before + [fin] + after;
    FinishedOnce(before, fin);
    AppendsTheStream(st, stream, base, from, before);
    FinReceived(Run(st, before), fin, stream, base, from);
    AfterFin(st, stream, base, from, before + [fin], after);
  }

  /** A FIN that comes before any data acknowledges all of it. */
  lemma EarlyFin(st: State, stream: seq<byte>, base: nat)
    requires st.appended == [] && st.ack == Wrap(base) && 0 < |stream| < TWO_TO_THE_32 - 1
    ensures var fin := Segment(Wrap(base + |stream|), 0, true, []);
            CutFrom(fin, stream, base) && Run(st, [fin]).ack == Wrap(base + |stream| + 1)
                && Run(st, [fin]).appended == []
  {
    var fin := Segment(Wrap(base + |stream|), 0, true, []);
    assert CutAt(fin, stream, base, |stream|);
    WrapAdd(base + |stream|, 1);
    assert [fin][..0] == [] && Run(st, []) == st;
  }

  lemma WrapNext(x: nat)
    ensures Wrap(x + 1) != Wrap(x)
  {
    var q, r := x / TWO_TO_THE_32, x % TWO_TO_THE_32;
    if r + 1 < TWO_TO_THE_32 {
      DivModUnique(x + 1, TWO_TO_THE_32, q, r + 1);
    } else {
      DivModUnique(x + 1, TWO_TO_THE_32, q + 1, 0);
    }
  }

  lemma TwoRun(st: State, p: Segment, q: Segment)
    ensures Run(st, [p, q]) == Receive(Receive(st, p).state, q).state
  {
    assert [p, q][..1] == [p] && [p][..0] == [] && Run(st, []) == st;
    assert Run(st, [p]) == Receive(st, p).state;
  }

  /** A stream that is longer than that breaks: behind the FIN an old byte is taken for a new one. */
  lemma LongStreamBreaks(st: State, stream: seq<byte>, base: nat, from: nat) returns (segments: seq<Segment>)
    requires st.appended == [] && from <= |stream| && st.ack == Wrap(base + from) && |stream| + 1 >= TWO_TO_THE_32
    ensures forall p <- segments :: CutFrom(p, stream, base)
    ensures !InOrder(Run(st, segments), stream, base, from, Finished(segments))
  {
    hide Wrap, Run;
    var end := |stream| + 1;
    var o := end - TWO_TO_THE_32 * (end / TWO_TO_THE_32);
    var fin, stale := Segment(Wrap(base + |stream|), 0, true, []), Segment(Wrap(base + o), 0, false, [stream[o]]);
    segments := [fin, stale];
    assert CutAt(fin, stream, base, |stream|) && CutAt(stale, stream, base, o);
    assert segments[0].fin;
    TwoRun(st, fin, stale);
    WrapAdd(base + |stream|, 1);
    WrapAdd(base + o, 1);
    SameWrap(base + o, end / TWO_TO_THE_32);
    WrapNext(base + o);
  }

  lemma SameWrap(x: nat, q: nat)
    ensures Wrap(x + TWO_TO_THE_32 * q) == Wrap(x)
  {
    DivModUnique(x + TWO_TO_THE_32 * q, TWO_TO_THE_32, x / TWO_TO_THE_32 + q, x % TWO_TO_THE_32);
  }

  /** Whatever comes in, the bytes stay in order exactly when the stream is shorter than 2^32 - 1 bytes. */
  lemma StreamLimit(st: State, stream: seq<byte>, base: nat, from: nat)
    requires st.appended == [] && from <= |stream| && st.ack == Wrap(base + from)
    ensures (forall segments: seq<Segment> :: (forall p <- segments :: CutFrom(p, stream, base)) ==>
               InOrder(Run(st, segments), stream, base, from, Finished(segments)))
            <==> |stream| + 1 < TWO_TO_THE_32
  {
    hide InOrder, CutFrom, Wrap, Run, Finished;
    if |stream| + 1 < TWO_TO_THE_32 {
      forall segments: seq<Segment> | forall p <- segments :: CutFrom(p, stream, base)
        ensures InOrder(Run(st, segments), stream, base, from, Finished(segments))
      {
        AppendsTheStream(st, stream, base, from, segments);
      }
    } else {
      var segments := LongStreamBreaks(st, stream, base, from);
    }
  }

  /** After the FIN of a stream of 2^32 - 1 bytes the acknowledgement number is that of its first byte
      again, so a duplicate of the first byte is appended twice. */
  lemma FirstByteTwice(st: State, stream: seq<byte>, base: nat)
    requires st.appended == [] && st.ack == Wrap(base) && |stream| + 1 == TWO_TO_THE_32 && stream[0] != stream[1]
    ensures var first := Segment(Wrap(base), 0, false, [stream[0]]);
            var fin := Segment(Wrap(base + |stream|), 0, true, []);
            && (forall p <- [first, fin, first] :: CutFrom(p, stream, base))
            && Run(st, [first, fin, first]).appended == [stream[0], stream[0]] != stream[0..2]
  {
    hide Run, Wrap, Receive, CutAt;
    var first, fin := Segment(Wrap(base), 0, false, [stream[0]]), Segment(Wrap(base + |stream|), 0, true, []);
    FirstAndFin(stream, base);
    TwoRun(st, first, fin);
    assert [first, fin, first][..2] == [first, fin];
    RunLast(st, [first, fin, first]);
    FirstReceived(st, first);
    FinWraps(Receive(st, first).state, fin, base + |stream|);
    SameWrap(base, 1);
    FirstReceived(Run(st, [first, fin]), first);
    assert [stream[0], stream[0]][1] != stream[0..2][1];
  }

  lemma FirstAndFin(stream: seq<byte>, base: nat)
    requires |stream| > 0
    ensures CutAt(Segment(Wrap(base), 0, false, [stream[0]]), stream, base, 0)
    ensures CutAt(Segment(Wrap(base + |stream|), 0, true, []), stream, base, |stream|)
  {
    hide Wrap;
    assert base + 0 == base;
  }

  lemma FirstReceived(st: State, p: Segment)
    requires !p.fin && p.payload != [] && p.seqNo == st.ack
    ensures Receive(st, p).state.appended == st.appended + p.payload
  {
    hide Wrap;
  }

  lemma FinWraps(st: State, p: Segment, end: nat)
    requires p == Segment(Wrap(end), 0, true, [])
    ensures Receive(st, p).state.ack == Wrap(end + 1) && Receive(st, p).state.appended == st.appended
  {
    WrapAdd(end, 1);
    hide Wrap;
  }

  lemma RunLast(st: State, segments: seq<Segment>)
    requires segments != []
    ensures Run(st, segments) == Receive(Run(st, segments[..|segments| - 1]), segments[|segments| - 1]).state
  {
    hide Receive;
  }
}
