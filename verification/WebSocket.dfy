/**
 WebSocket framing: ws_process, which recognises and unmasks one frame in place; mg_ws_cb, which
 turns received bytes into messages and control events while it strips headers in place; and the
 senders mkhdr, mg_ws_send and mg_ws_wrap.
 */
module WebSocket {
  import opened Bytes
  import opened IoBuf

  const MAX_PAYLOAD: nat := 0x4000_0000 // "data_len should not be larger than 1 Gb"

  const OP_CONTINUE := 0
  const OP_TEXT := 1
  const OP_BINARY := 2
  const OP_CLOSE := 8
  const OP_PING := 9
  const OP_PONG := 10

  // ----- one frame, as RFC 6455 section 5.2 lays it out -----

  function MaskLen(s: seq<byte>): nat
    requires |s| >= 2
  {
    if s[1] >= 128 then 4 else 0
  }

  /** Header length, mask included; it depends on the second byte only. */
  function HeaderLen(s: seq<byte>): (n: nat)
    requires |s| >= 2
    ensures 2 <= n
  {
    var n := s[1] % 128;
    (if n < 126 then 2 else if n == 126 then 4 else 10) + MaskLen(s)
  }

  function DataLen(s: seq<byte>): nat
    requires |s| >= 2 && |s| >= HeaderLen(s)
  {
    var n := s[1] % 128;
    if n < 126 then n else FromBigEndian(s[2..HeaderLen(s) - MaskLen(s)])
  }

  /** A whole frame, of a size that the code accepts, lies at the start of `s`. */
  predicate Complete(s: seq<byte>)
  {
    |s| >= 2 && |s| >= HeaderLen(s) && DataLen(s) <= MAX_PAYLOAD && HeaderLen(s) + DataLen(s) <= |s|
  }

  function FrameLen(s: seq<byte>): nat
    requires Complete(s)
  {
    HeaderLen(s) + DataLen(s)
  }

  function Masked(data: seq<byte>, mask: seq<byte>): (r: seq<byte>)
    requires |mask| == 4
    ensures |r| == |data|
  {
    seq(|data|, i requires 0 <= i < |data| => Xor(data[i], mask[i % 4]))
  }

  function Payload(s: seq<byte>): (r: seq<byte>)
    requires Complete(s)
    ensures |r| == DataLen(s)
  {
    var h := HeaderLen(s);
    var data := s[h..FrameLen(s)];
    if MaskLen(s) == 0 then data else Masked(data, s[h - 4..h])
  }

  /** More bytes behind a complete frame change nothing about it. */
  lemma CompleteStays(s: seq<byte>, t: seq<byte>)
    requires Complete(s)
    ensures Complete(s + t) && FrameLen(s + t) == FrameLen(s) && Payload(s + t) == Payload(s)
  {
    HeaderStays(s, t);
    FrameParts(s);
    var h, n := HeaderLen(s), FrameLen(s);
    PrefixSlice(s, t, h, n);
    if MaskLen(s) == 4 {
      PrefixSlice(s, t, h - 4, h);
    }
    hide HeaderLen, MaskLen, DataLen, Masked;
  }

  lemma PrefixSlice(s: seq<byte>, t: seq<byte>, i: nat, j: nat)
    requires i <= j <= |s|
    ensures (s + t)[i..j] == s[i..j]
  {
  }

  lemma HeaderStays(s: seq<byte>, t: seq<byte>)
    requires |s| >= 2 && |s| >= HeaderLen(s)
    ensures MaskLen(s + t) == MaskLen(s) && HeaderLen(s + t) == HeaderLen(s) && DataLen(s + t) == DataLen(s)
  {
    hide FromBigEndian;
    assert (s + t)[1] == s[1];
    PrefixSlice(s, t, 2, HeaderLen(s) - MaskLen(s));
  }

  /** The header part of ws_process: 0, 0 when the header is not all there. */
  method ReadHeader(buf: array<byte>, from: nat, len: nat) returns (headerLen: nat, dataLen: nat, maskLen: nat)
    requires from + len <= buf.Length && len >= 2
    ensures var s := buf[from..from + len];
            && maskLen == MaskLen(s)
            && if len >= HeaderLen(s) then headerLen == HeaderLen(s) && dataLen == DataLen(s)
               else headerLen + dataLen == 0 || headerLen > len
  {
    headerLen, dataLen := 0, 0;
    ghost var s := buf[from..from + len];
    var short := buf[from + 1] % 128;
    maskLen := if buf[from + 1] >= 128 then 4 else 0;
    if short < 126 && len >= maskLen {
      dataLen := short;
      headerLen := 2 + maskLen;
    } else if short == 126 && len >= 4 + maskLen {
      headerLen := 4 + maskLen;
      dataLen := FromBigEndian(buf[from + 2..from + 4]);
      SubSlice(buf[..], from, from + len, 2, 4);
    } else if len >= 10 + maskLen {
      headerLen := 10 + maskLen;
      dataLen := FromBigEndian(buf[from + 2..from + 10]);
      SubSlice(buf[..], from, from + len, 2, 10);
    }
  }

  /** `p[i] ^= m[i & 3]` over the `n` bytes at `p`, with the four mask bytes in front of them. */
  method Unmask(buf: array<byte>, p: nat, n: nat)
    requires 4 <= p && p + n <= buf.Length
    modifies buf
    ensures var was := old(buf[..]);
            buf[..] == was[..p] + Masked(was[p..p + n], was[p - 4..p]) + was[p + n..]
  {
    ghost var was := buf[..];
    UnmaskBytes(buf, p, n);
    MaskedBytes(was, buf[..], p, n);
  }

  method UnmaskBytes(buf: array<byte>, p: nat, n: nat)
    requires 4 <= p && p + n <= buf.Length
    modifies buf
    ensures forall k :: 0 <= k < p || p + n <= k < buf.Length ==> buf[k] == old(buf[k])
    ensures forall k :: p <= k < p + n ==> buf[k] == Xor(old(buf[k]), old(buf[KeyAt(p, k)]))
  {
    hide Xor, KeyAt;
    for i := 0 to n
      invariant forall k :: 0 <= k < p || p + i <= k < buf.Length ==> buf[k] == old(buf[k])
      invariant forall k :: p <= k < p + i ==> buf[k] == Xor(old(buf[k]), old(buf[KeyAt(p, k)]))
    {
      KeyIndex(p, i);
      buf[p + i] := Xor(buf[p + i], buf[p - 4 + i % 4]);
    }
  }

  /** Where the byte of the mask for byte `k` of a payload at `p` lies. */
  function KeyAt(p: nat, k: nat): (r: nat)
    requires 4 <= p <= k
    ensures p - 4 <= r < p
  {
    p - 4 + (k - p) % 4
  }

  lemma KeyIndex(p: nat, i: nat)
    requires 4 <= p
    ensures KeyAt(p, p + i) == p - 4 + i % 4
  {
  }

  lemma MaskedBytes(was: seq<byte>, now: seq<byte>, p: nat, n: nat)
    requires 4 <= p && p + n <= |was| == |now|
    requires forall k :: 0 <= k < p || p + n <= k < |was| ==> now[k] == was[k]
    requires forall k :: p <= k < p + n ==> now[k] == Xor(was[k], was[KeyAt(p, k)])
    ensures now == was[..p] + Masked(was[p..p + n], was[p - 4..p]) + was[p + n..]
  {
    hide Xor;
    var masked := Masked(was[p..p + n], was[p - 4..p]);
    forall k | 0 <= k < n
      ensures now[p..p + n][k] == masked[k]
    {
      assert now[p + k] == Xor(was[p + k], was[p - 4 + k % 4]);
    }
    assert now[p..p + n] == masked && now[..p] == was[..p] && now[p + n..] == was[p + n..];
    ThreeParts(now, p, p + n);
  }

  /** What ws_process makes of the `len` bytes from `from`: with a whole frame there, its length, flags and
      the lengths of its parts, and its payload unmasked in place; else 0, and no byte has changed. */
  ghost predicate Took(was: seq<byte>, now: seq<byte>, from: nat, len: nat, n: nat, flags: byte, headerLen: nat,
      dataLen: nat)
    requires from + len <= |was|
  {
    var s := was[from..from + len];
    if Complete(s) then
      && n == FrameLen(s) && flags == s[0] && headerLen == HeaderLen(s) && dataLen == DataLen(s)
      && now == was[..from + headerLen] + Payload(s) + was[from + n..]
    else n == 0 && now == was
  }

  /** ws_process on the `len` bytes of `buf` from `from`. */
  method WsProcess(buf: array<byte>, from: nat, len: nat)
    returns (n: nat, flags: byte, headerLen: nat, dataLen: nat)
    requires from + len <= buf.Length
    modifies buf
    ensures Took(old(buf[..]), buf[..], from, len, n, flags, headerLen, dataLen)
  {
    hide *;
    n, flags, headerLen, dataLen := 0, 0, 0, 0;
    ghost var was := buf[..];
    ghost var s := was[from..from + len];
    assert buf[from..from + len] == s;
    var maskLen := 0;
    if len >= 2 {
      headerLen, dataLen, maskLen := ReadHeader(buf, from, len);
      flags := buf[from];
    }
    HeaderKnown(was, from, len, flags, headerLen, dataLen, maskLen);
    if dataLen > MAX_PAYLOAD {
      return;
    }
    if headerLen + dataLen > len {
      return;
    }
    n := headerLen + dataLen;
    UnmaskFrame(buf, from + headerLen, dataLen, maskLen > 0 && headerLen > 0);
    TookFrame(was, buf[..], from, len, flags, headerLen, dataLen, maskLen);
  }

  /** The end of ws_process: the `n` bytes at `p` are unmasked if there is a mask in front of them. */
  method UnmaskFrame(buf: array<byte>, p: nat, n: nat, masked: bool)
    requires p + n <= buf.Length && (masked ==> 4 <= p)
    modifies buf
    ensures var was := old(buf[..]);
            buf[..] == if masked then was[..p] + Masked(was[p..p + n], was[p - 4..p]) + was[p + n..] else was
  {
    hide *;
    if masked {
      Unmask(buf, p, n);
    }
  }

  /** The header lengths tell whether the frame is all there. */
  lemma HeaderKnown(was: seq<byte>, from: nat, len: nat, flags: byte, headerLen: nat, dataLen: nat, maskLen: nat)
    requires from + len <= |was|
    requires var s := was[from..from + len];
             if |s| < 2 then headerLen == dataLen == maskLen == 0
             else if |s| >= HeaderLen(s) then
                 headerLen == HeaderLen(s) && dataLen == DataLen(s) && maskLen == MaskLen(s)
             else headerLen + dataLen == 0 || headerLen > |s|
    ensures dataLen > MAX_PAYLOAD || headerLen + dataLen > len ==>
            Took(was, was, from, len, 0, flags, headerLen, dataLen)
    ensures dataLen <= MAX_PAYLOAD && headerLen + dataLen <= len ==>
              var s := was[from..from + len];
              if headerLen > 0 then
                  Complete(s) && headerLen == HeaderLen(s) && dataLen == DataLen(s) && maskLen == MaskLen(s)
              else !Complete(s) && dataLen == 0
    ensures headerLen > 0 && maskLen > 0 && headerLen + dataLen <= len ==> headerLen >= 4
  {
    hide DataLen, Payload;
  }

  lemma TookFrame(was: seq<byte>, now: seq<byte>, from: nat, len: nat, flags: byte, headerLen: nat, dataLen: nat,
      maskLen: nat)
    requires from + len <= |was| && headerLen + dataLen <= len && (len >= 2 ==> flags == was[from])
    requires var s := was[from..from + len];
             if headerLen > 0 then
                 Complete(s) && headerLen == HeaderLen(s) && dataLen == DataLen(s) && maskLen == MaskLen(s)
             else !Complete(s) && dataLen == 0
    requires headerLen > 0 && maskLen > 0 ==> headerLen >= 4
    requires var p := from + headerLen;
             now == if maskLen > 0 && headerLen > 0
                    then was[..p] + Masked(was[p..p + dataLen], was[p - 4..p]) + was[p + dataLen..] else was
    ensures Took(was, now, from, len, headerLen + dataLen, flags, headerLen, dataLen)
  {
    hide *;
    var s := was[from..from + len];
    TookUnfold(was, now, from, len, headerLen + dataLen, flags, headerLen, dataLen);
    if headerLen > 0 {
      FrameParts(s);
      PayloadAt(was, from, len);
      ThreeParts(was, from + headerLen, from + headerLen + dataLen);
    }
  }

  lemma TookUnfold(was: seq<byte>, now: seq<byte>, from: nat, len: nat, n: nat, flags: byte, headerLen: nat,
      dataLen: nat)
    requires from + len <= |was|
    ensures var s := was[from..from + len];
            Took(was, now, from, len, n, flags, headerLen, dataLen) <==>
              if Complete(s) then
                && n == FrameLen(s) && flags == s[0] && headerLen == HeaderLen(s) && dataLen == DataLen(s)
                && now == was[..from + headerLen] + Payload(s) + was[from + n..]
              else n == 0 && now == was
  {
  }

  /** The payload of a frame in the middle of the buffer. */
  lemma PayloadAt(was: seq<byte>, from: nat, len: nat)
    requires from + len <= |was| && Complete(was[from..from + len])
    ensures var s := was[from..from + len];
            var p := from + HeaderLen(s);
            Payload(s) == if MaskLen(s) == 0 then was[p..p + DataLen(s)]
                          else Masked(was[p..p + DataLen(s)], was[p - 4..p])
  {
    hide FromBigEndian, DataLen, Masked;
    var s := was[from..from + len];
    SubSlice(was, from, from + len, HeaderLen(s), FrameLen(s));
    if MaskLen(s) > 0 {
      SubSlice(was, from, from + len, HeaderLen(s) - 4, HeaderLen(s));
    }
  }

  // ----- receiving: mg_ws_cb -----

  datatype Event =
    | Message(flags: byte, data: seq<byte>)  // MG_EV_WS_MSG
    | Control(flags: byte, data: seq<byte>)  // MG_EV_WS_CTL
    | Sent(op: nat, data: seq<byte>)         // a frame that mg_ws_cb sends of its own accord
    | UnknownOp(op: nat)                     // mg_error
    | Overrun                                // MG_EV_WS_MSG of `ofs - 1` bytes, with `ofs` zero

  /** The `switch` on the opcode. */
  function SwitchEvents(first: byte, payload: seq<byte>): seq<Event>
  {
    var op := first % 16;
    if op == OP_CONTINUE || op == OP_PONG then [Control(first, payload)]
    else if op == OP_PING then [Sent(OP_PONG, payload), Control(first, payload)]
    else if op == OP_TEXT || op == OP_BINARY then if first >= 128 then [Message(first, payload)] else []
    else if op == OP_CLOSE then [Control(first, payload), Sent(OP_CLOSE, payload)]
    else [UnknownOp(op)]
  }

  /** `frag` is the first byte of the first fragment followed by the data of the fragments so far. */
  datatype Receiver = Receiver(frag: seq<byte>, rest: seq<byte>, events: seq<Event>)

  /** How the bytes of a frame are kept, delivered or removed once its opcode has been handled. */
  function Settle(frag: seq<byte>, events: seq<Event>, first: byte, payload: seq<byte>, rest: seq<byte>): (r: Receiver)
    ensures r.rest == rest
  {
    var final, op := first >= 128, first % 16;
    if final && op != 0 then Receiver(frag, rest, events)
    else
      var frag' := frag + (if op != 0 then [first] else []) + payload;
      if !final then Receiver(frag', rest, events)
      else Receiver([], rest, events + [if frag' == [] then Overrun else Message(frag'[0], frag'[1..])])
  }

  /** What becomes of one frame with first byte `first`. */
  function AfterFrame(frag: seq<byte>, events: seq<Event>, first: byte, payload: seq<byte>,
      rest: seq<byte>): (r: Receiver)
    ensures r.rest == rest
  {
    Settle(frag, events + SwitchEvents(first, payload), first, payload, rest)
  }

  function TakeFrame(r: Receiver): (r': Receiver)
    requires Complete(r.rest)
    ensures |r'.rest| < |r.rest|
  {
    AfterFrame(r.frag, r.events, r.rest[0], Payload(r.rest), r.rest[FrameLen(r.rest)..])
  }

  function Drain(r: Receiver): Receiver
    decreases |r.rest|
  {
    if Complete(r.rest) then Drain(TakeFrame(r)) else r
  }

  // ----- what is sent in answer -----

  /** The events of one frame, in order. */
  function TurnEvents(frag: seq<byte>, first: byte, payload: seq<byte>): seq<Event>
  {
    SwitchEvents(first, payload)
    + if first >= 128 && first % 16 == 0 then
        [if frag + payload == [] then Overrun else Message((frag + payload)[0], (frag + payload)[1..])]
      else []
  }

  lemma FrameEventsAdded(frag: seq<byte>, events: seq<Event>, first: byte, payload: seq<byte>, rest: seq<byte>)
    ensures AfterFrame(frag, events, first, payload, rest).events == events + TurnEvents(frag, first, payload)
  {
    hide SwitchEvents;
    if first >= 128 && first % 16 == 0 {
      assert frag + [] + payload == frag + payload;
    }
  }

  /** The bytes that an event puts into the send queue; `mask` is what mg_random gave for it. */
  function Reply(e: Event, mask: seq<byte>): seq<byte>
  {
    if e.Sent? then Encode(SentFrame(e.data, e.op, mask)) else []
  }

  function Replies(events: seq<Event>, masks: seq<seq<byte>>): seq<byte>
    requires |events| == |masks|
  {
    if events == [] then [] else Reply(events[0], masks[0]) + Replies(events[1..], masks[1..])
  }

  /** Masks are drawn by clients only. */
  predicate MasksOk(masks: seq<seq<byte>>, isClient: bool)
  {
    forall m <- masks :: |m| == if isClient then 4 else 0
  }

  /** The queue has grown by the replies among the events. */
  predicate Queued(before: seq<byte>, after: seq<byte>, events: seq<Event>, masks: seq<seq<byte>>, isClient: bool)
  {
    |masks| == |events| && MasksOk(masks, isClient) && after == before + Replies(events, masks)
  }

  lemma RepliesStep(e: Event, mask: seq<byte>, events: seq<Event>, masks: seq<seq<byte>>)
    requires |events| == |masks|
    ensures Replies([e] + events, [mask] + masks) == Reply(e, mask) + Replies(events, masks)
  {
    assert ([e] + events)[1..] == events && ([mask] + masks)[1..] == masks;
    hide Reply;
  }

  lemma {:induction false} RepliesJoin(a: seq<Event>, m: seq<seq<byte>>, b: seq<Event>, n: seq<seq<byte>>)
    requires |a| == |m| && |b| == |n|
    ensures Replies(a + b, m + n) == Replies(a, m) + Replies(b, n)
    decreases |a|
  {
    hide *;
    if a == [] {
      NoReplies();
      assert a + b == b && m + n == n && m == [];
      assert [] + Replies(b, n) == Replies(b, n);
    } else {
      assert [a[0]] + a[1..] == a && [m[0]] + m[1..] == m;
      assert [a[0]] + (a[1..] + b) == a + b && [m[0]] + (m[1..] + n) == m + n;
      RepliesStep(a[0], m[0], a[1..], m[1..]);
      RepliesStep(a[0], m[0], a[1..] + b, m[1..] + n);
      RepliesJoin(a[1..], m[1..], b, n);
      Grouped(Reply(a[0], m[0]), Replies(a[1..], m[1..]), Replies(b, n));
    }
  }

  lemma Grouped(a: seq<byte>, b: seq<byte>, c: seq<byte>)
    ensures (a + b) + c == a + (b + c)
  {
  }

  lemma NoReplies()
    ensures Replies([], []) == []
  {
  }

  lemma QueuedUnfold(before: seq<byte>, after: seq<byte>, events: seq<Event>, masks: seq<seq<byte>>, isClient: bool)
    ensures Queued(before, after, events, masks, isClient)
       <==> |masks| == |events| && MasksOk(masks, isClient) && after == before + Replies(events, masks)
  {
  }

  lemma MasksJoin(m: seq<seq<byte>>, n: seq<seq<byte>>, isClient: bool)
    requires MasksOk(m, isClient) && MasksOk(n, isClient)
    ensures MasksOk(m + n, isClient)
  {
  }

  lemma QueuedJoin(q0: seq<byte>, q1: seq<byte>, q2: seq<byte>, a: seq<Event>, m: seq<seq<byte>>, b: seq<Event>,
      n: seq<seq<byte>>, isClient: bool)
    requires Queued(q0, q1, a, m, isClient) && Queued(q1, q2, b, n, isClient)
    ensures Queued(q0, q2, a + b, m + n, isClient)
  {
    hide *;
    QueuedUnfold(q0, q1, a, m, isClient);
    QueuedUnfold(q1, q2, b, n, isClient);
    RepliesJoin(a, m, b, n);
    MasksJoin(m, n, isClient);
    Grouped(q0, Replies(a, m), Replies(b, n));
    QueuedUnfold(q0, q2, a + b, m + n, isClient);
  }

  lemma QueuedNothing(q: seq<byte>, isClient: bool)
    ensures Queued(q, q, [], [], isClient)
  {
    assert q + [] == q;
  }

  lemma QueuedOne(q: seq<byte>, e: Event, mask: seq<byte>, isClient: bool)
    requires |mask| == if isClient then 4 else 0
    ensures Queued(q, q + Reply(e, mask), [e], [mask], isClient)
  {
    RepliesStep(e, mask, [], []);
    hide Reply;
    assert [e] + [] == [e] && [mask] + [] == [mask] && Reply(e, mask) + [] == Reply(e, mask);
  }

  /** An event that sends nothing. */
  lemma QueuedSilent(q: seq<byte>, e: Event, isClient: bool)
    requires !e.Sent?
    ensures Queued(q, q, [e], [NoMask(isClient)], isClient)
  {
    QueuedOne(q, e, NoMask(isClient), isClient);
    assert q + [] == q;
  }

  function NoMask(isClient: bool): (m: seq<byte>)
    ensures |m| == if isClient then 4 else 0
  {
    if isClient then [0, 0, 0, 0] else []
  }

  /** A CLOSE frame has been answered. */
  predicate Closes(events: seq<Event>)
  {
    exists e <- events :: e.Sent? && e.op == OP_CLOSE
  }

  lemma ClosesJoin(a: seq<Event>, b: seq<Event>)
    ensures Closes(a + b) <==> Closes(a) || Closes(b)
  {
    assert forall e :: e in a + b <==> e in a || e in b;
  }

  lemma ClosesFrame(frag: seq<byte>, first: byte, payload: seq<byte>)
    ensures Closes(TurnEvents(frag, first, payload)) <==> first % 16 == OP_CLOSE
  {
    if first % 16 == OP_CLOSE {
      assert TurnEvents(frag, first, payload)[1] == Sent(OP_CLOSE, payload);
    }
  }

  /** mg_random of four bytes. */
  method MgRandom() returns (r: seq<byte>)
    ensures |r| == 4
  {
    ghost var four: seq<byte> := [0, 0, 0, 0];
    assert |four| == 4;
    r :| |r| == 4;
  }

  /** What a READ event starts from. */
  datatype Connected = Connected(events: seq<Event>, queue: seq<byte>, draining: bool)

  /** A connection after the upgrade.  `ofs` is what the code keeps in `pfn_data`. */
  class Connection {
    const recv: Buffer
    const out: Sender
    var ofs: nat
    var events: seq<Event>
    var isDraining: bool

    ghost predicate Valid()
      reads this, recv, out.send
    {
      recv.Valid() && ofs <= recv.len && out.send.Valid() && recv != out.send && recv.buf != out.send.buf
    }

    ghost function View(): Receiver
      reads this, recv, recv.buf, out.send
      requires Valid()
    {
      Receiver(recv.Contents()[..ofs], recv.Contents()[ofs..], events)
    }

    constructor (align: nat, isClient: bool)
      ensures Valid() && fresh(recv) && fresh(recv.buf) && fresh(out.send) && fresh(out.send.buf)
      ensures View() == Receiver([], [], []) && !isDraining && out.isClient == isClient && out.send.Contents() == []
    {
      recv := new Buffer(align);
      out := new Sender(align, isClient);
      ofs, events, isDraining := 0, [], false;
    }

    /** A frame that is no fragment is removed. */
    method RemoveFrame(n: nat, ghost frag: seq<byte>, ghost frame: seq<byte>, ghost rest: seq<byte>)
      requires Valid() && recv.Contents() == frag + frame + rest && ofs == |frag| && n == |frame| > 0
      modifies recv, recv.buf
      ensures Valid() && recv.buf == old(recv.buf)
      ensures recv.Contents() == frag + rest
    {
      assert (frag + frame + rest)[..ofs] == frag && (frag + frame + rest)[ofs + n..] == rest;
      var _ := recv.Del(ofs, n);
    }

    lemma InUse()
      requires recv.Valid()
      ensures |recv.Contents()| == recv.len
      ensures Valid() <==> ofs <= recv.len && out.send.Valid() && recv != out.send && recv.buf != out.send.buf
    {
    }

    lemma BufferValid()
      requires Valid()
      ensures recv.Valid()
    {
    }

    /** A fragment loses its header; of the first one, the first byte stays. */
    method StripHeader(op: nat, headerLen: nat, dataLen: nat,
                       ghost frag: seq<byte>, ghost header: seq<byte>, ghost data: seq<byte>, ghost rest: seq<byte>)
      requires Valid() && recv.Contents() == frag + header + data + rest && ofs == |frag|
      requires headerLen == |header| >= 2 && dataLen == |data|
      modifies this`ofs, recv, recv.buf
      ensures Valid() && recv.buf == old(recv.buf)
      ensures var frag' := frag + (if op != 0 then [header[0]] else []) + data;
              recv.Contents() == frag' + rest && ofs == |frag'|
    {
      hide *;
      ghost var kept := if op != 0 then [header[0]] else [];
      BufferValid();
      InUse();
      StripCut(frag, header, kept, data, rest);
      var strip := headerLen;
      if op != 0 {
        ofs, strip := ofs + 1, strip - 1;
      }
      var _ := recv.Del(ofs, strip);
      ofs := ofs + dataLen;
      InUse();
    }

    /** The last fragment has come: the whole message is delivered and removed. */
    method Deliver(ghost frag: seq<byte>, ghost rest: seq<byte>)
      requires Valid() && recv.Contents() == frag + rest && ofs == |frag|
      modifies this`ofs, this`events, recv, recv.buf
      ensures Valid() && recv.buf == old(recv.buf)
      ensures View() == Receiver([], rest, old(events) + [if frag == [] then Overrun else Message(frag[0], frag[1..])])
    {
      assert recv.buf[..ofs] == recv.Contents()[..ofs] == frag;
      events := events + [if ofs == 0 then Overrun else Message(recv.buf[0], recv.buf[1..ofs])];
      assert ofs > 0 ==> recv.buf[1..ofs] == frag[1..];
      if ofs > 0 {
        assert (frag + rest)[ofs..] == rest;
      }
      var _ := recv.Del(0, ofs);
      ofs := 0;
    }

    /** mg_ws_send of a reply. */
    method SendReply(op: nat, payload: seq<byte>) returns (ghost mask: seq<byte>)
      requires Valid() && op < 16 && |payload| < TWO_TO_THE_64
      modifies out.send, out.send.buf
      ensures Valid() && (out.send.buf == old(out.send.buf) || fresh(out.send.buf))
      ensures |mask| == if out.isClient then 4 else 0
      ensures out.send.Contents() == old(out.send.Contents()) + Reply(Sent(op, payload), mask)
    {
      hide Encode, SentFrame;
      var random := MgRandom();
      mask := if out.isClient then random else [];
      var _ := out.WsSend(payload, op, random);
    }

    /** The switch on the opcode: the events, and the replies to PING and CLOSE. */
    method Switch(flags: byte, payload: seq<byte>) returns (ghost masks: seq<seq<byte>>)
      requires Valid() && |payload| < TWO_TO_THE_64
      modifies this`events, this`isDraining, out.send, out.send.buf
      ensures Valid() && (out.send.buf == old(out.send.buf) || fresh(out.send.buf))
      ensures events == old(events) + SwitchEvents(flags, payload)
      ensures isDraining == (old(isDraining) || flags % 16 == OP_CLOSE)
      ensures Queued(old(out.send.Contents()), out.send.Contents(), SwitchEvents(flags, payload), masks, out.isClient)
    {
      hide Queued, Reply, NoMask;
      var op := flags % 16;
      ghost var q := out.send.Contents();
      var control, none := Control(flags, payload), NoMask(out.isClient);
      QueuedNothing(q, out.isClient);
      masks := [];
      if op == OP_CONTINUE || op == OP_PONG {
        QueuedSilent(q, control, out.isClient);
        events, masks := events + [control], [none];
      } else if op == OP_PING {
        ghost var mask := SendReply(OP_PONG, payload);
        events := events + [Sent(OP_PONG, payload)] + [control];
        QueuedOne(q, Sent(OP_PONG, payload), mask, out.isClient);
        QueuedSilent(out.send.Contents(), control, out.isClient);
        QueuedJoin(q, out.send.Contents(), out.send.Contents(), [Sent(OP_PONG, payload)], [mask], [control], [none],
            out.isClient);
        masks := [mask] + [none];
        assert [Sent(OP_PONG, payload)] + [control] == SwitchEvents(flags, payload);
      } else if op == OP_TEXT || op == OP_BINARY {
        if flags >= 128 {
          QueuedSilent(q, Message(flags, payload), out.isClient);
          events, masks := events + [Message(flags, payload)], [none];
        }
      } else if op == OP_CLOSE {
        events := events + [control];
        ghost var mask := SendReply(OP_CLOSE, payload);
        events, isDraining := events + [Sent(OP_CLOSE, payload)], true;
        QueuedSilent(q, control, out.isClient);
        QueuedOne(q, Sent(OP_CLOSE, payload), mask, out.isClient);
        QueuedJoin(q, q, out.send.Contents(), [control], [none], [Sent(OP_CLOSE, payload)], [mask], out.isClient);
        masks := [none] + [mask];
        assert [control] + [Sent(OP_CLOSE, payload)] == SwitchEvents(flags, payload);
      } else {
        QueuedSilent(q, UnknownOp(op), out.isClient);
        events, masks := events + [UnknownOp(op)], [none];
      }
    }

    /** The part of the loop's body behind the switch. */
    method SettleFrame(flags: byte, headerLen: nat, dataLen: nat,
                       ghost frag: seq<byte>, ghost header: seq<byte>, ghost data: seq<byte>, ghost rest: seq<byte>)
      requires Valid() && recv.Contents() == frag + header + data + rest && ofs == |frag|
      requires headerLen == |header| >= 2 && dataLen == |data| && header[0] == flags
      modifies this`ofs, this`events, recv, recv.buf
      ensures Valid() && recv.buf == old(recv.buf)
      ensures View() == Settle(frag, old(events), flags, data, rest)
    {
      var op, final := flags % 16, flags >= 128;
      if !final || op == 0 {
        StripHeader(op, headerLen, dataLen, frag, header, data, rest);
        ghost var frag' := frag + (if op != 0 then [flags] else []) + data;
        if final {
          Deliver(frag', rest);
        } else {
          Parts(frag', rest);
        }
      } else {
        Grouped(frag, header, data);
        RemoveFrame(headerLen + dataLen, frag, header + data, rest);
        Parts(frag, rest);
      }
    }

    /** The body of the loop, after ws_process has unmasked the frame at `ofs`. */
    method HandleFrame(flags: byte, headerLen: nat, dataLen: nat,
                       ghost frag: seq<byte>, ghost header: seq<byte>, ghost data: seq<byte>, ghost rest: seq<byte>)
      returns (ghost masks: seq<seq<byte>>)
      requires Valid() && recv.Contents() == frag + header + data + rest && ofs == |frag|
      requires headerLen == |header| >= 2 && dataLen == |data| < TWO_TO_THE_64 && header[0] == flags
      modifies this, recv, recv.buf, out.send, out.send.buf
      ensures Valid() && recv.buf == old(recv.buf) && (out.send.buf == old(out.send.buf) || fresh(out.send.buf))
      ensures View() == AfterFrame(frag, old(events), flags, data, rest)
      ensures isDraining == (old(isDraining) || flags % 16 == OP_CLOSE)
      ensures Queued(old(out.send.Contents()), out.send.Contents(), TurnEvents(frag, flags, data), masks, out.isClient)
    {
      hide SwitchEvents, Queued, Settle, TurnEvents, NoMask;
      Cut(frag, header, data, rest);
      var payload := recv.buf[ofs + headerLen..ofs + headerLen + dataLen];
      assert payload == recv.Contents()[ofs + headerLen..ofs + headerLen + dataLen];
      masks := Switch(flags, payload);
      LastEvent(old(out.send.Contents()), out.send.Contents(), frag, flags, payload, masks, out.isClient);
      masks := masks + if flags >= 128 && flags % 16 == 0 then [NoMask(out.isClient)] else [];
      SettleFrame(flags, headerLen, dataLen, frag, header, data, rest);
    }

    /** `recv` holds the fragments so far and then, if one is complete, an unmasked frame. */
    ghost predicate Processed(r: Receiver, n: nat, flags: byte, headerLen: nat, dataLen: nat)
      reads this, recv, recv.buf, out.send
      requires Valid()
    {
      && events == r.events && ofs == |r.frag|
      && if Complete(r.rest) then
           && n == FrameLen(r.rest) && flags == r.rest[0]
           && headerLen == HeaderLen(r.rest) && dataLen == DataLen(r.rest)
           && recv.Contents() == r.frag + r.rest[..headerLen] + Payload(r.rest) + r.rest[n..]
         else n == 0 && View() == r
    }

    method NextFrame(ghost r: Receiver) returns (n: nat, flags: byte, headerLen: nat, dataLen: nat)
      requires Valid() && View() == r
      modifies recv.buf
      ensures Valid() && Processed(r, n, flags, headerLen, dataLen)
    {
      hide DataLen, HeaderLen, Payload, FrameLen, Complete, Took;
      ghost var was := recv.buf[..];
      n, flags, headerLen, dataLen := WsProcess(recv.buf, ofs, recv.len - ofs);
      assert was[..recv.len] == r.frag + r.rest;
      TookNext(was, recv.buf[..], recv.len, r, n, flags, headerLen, dataLen);
      assert recv.Contents() == recv.buf[..][..recv.len];
    }

    /** Since `was` the events `added` have come, and the replies among them are in the queue. */
    ghost predicate Answered(was: Connected, r: Receiver, added: seq<Event>, masks: seq<seq<byte>>)
      reads this, recv, out.send, out.send.buf
      requires Valid()
    {
      && r.events == was.events + added && isDraining == (was.draining || Closes(added))
      && Queued(was.queue, out.send.Contents(), added, masks, out.isClient)
    }

    /** One turn of the loop, and the search for the next frame. */
    method Turn(ghost was: Connected, ghost r: Receiver, ghost added: seq<Event>, ghost masks: seq<seq<byte>>,
                n: nat, flags: byte, headerLen: nat, dataLen: nat)
      returns (ghost r': Receiver, ghost added': seq<Event>, ghost masks': seq<seq<byte>>,
               n': nat, flags': byte, headerLen': nat, dataLen': nat)
      requires Valid() && Processed(r, n, flags, headerLen, dataLen) && n > 0 && Answered(was, r, added, masks)
      modifies this, recv, recv.buf, out.send, out.send.buf
      ensures Valid() && recv.buf == old(recv.buf) && (out.send.buf == old(out.send.buf) || fresh(out.send.buf))
      ensures Processed(r', n', flags', headerLen', dataLen') && Answered(was, r', added', masks')
      ensures Drain(r) == Drain(r') && |r'.rest| < |r.rest|
    {
      hide Queued, Closes, Drain, DataLen, HeaderLen, Payload, TurnEvents, AfterFrame;
      ghost var queue, payload := out.send.Contents(), Payload(r.rest);
      ghost var more := HandleFrame(flags, headerLen, dataLen, r.frag, r.rest[..headerLen], payload, r.rest[n..]);
      FrameAdds(was.queue, queue, out.send.Contents(), r, added, masks, more, out.isClient);
      DrainStep(r);
      r', added', masks' := TakeFrame(r), added + TurnEvents(r.frag, flags, payload), masks + more;
      n', flags', headerLen', dataLen' := NextFrame(r');
    }

    /** mg_ws_cb on MG_EV_READ: `masks` are the random bytes of the replies, one entry for each event. */
    method OnRead() returns (ghost masks: seq<seq<byte>>)
      requires Valid()
      modifies this, recv, recv.buf, out.send, out.send.buf
      ensures Valid() && recv.buf == old(recv.buf) && (out.send.buf == old(out.send.buf) || fresh(out.send.buf))
      ensures View() == Drain(old(View())) && old(events) <= events
      ensures isDraining == (old(isDraining) || Closes(events[|old(events)|..]))
      ensures Queued(old(out.send.Contents()), out.send.Contents(), events[|old(events)|..], masks, out.isClient)
    {
      hide Queued, Closes, Drain, DataLen, HeaderLen, Payload, Complete;
      ghost var r, added: seq<Event>, was := View(), [], Connected(events, out.send.Contents(), isDraining);
      masks := [];
      QueuedNothing(out.send.Contents(), out.isClient);
      NothingCloses();
      assert events == events + added;
      var n, flags, headerLen, dataLen := NextFrame(r);
      while n > 0
        invariant Valid() && recv.buf == old(recv.buf) && (out.send.buf == old(out.send.buf) || fresh(out.send.buf))
        invariant Processed(r, n, flags, headerLen, dataLen) && Answered(was, r, added, masks)
        invariant Drain(r) == Drain(old(View()))
        decreases |r.rest|
      {
        hide Processed, Answered;
        r, added, masks, n, flags, headerLen, dataLen := Turn(was, r, added, masks, n, flags, headerLen, dataLen);
      }
      DrainEnd(r);
    }

    /** Bytes arrive and MG_EV_READ is raised. */
    method Receive(data: seq<byte>) returns (ghost masks: seq<seq<byte>>)
      requires Valid()
      modifies this, recv, recv.buf, out.send, out.send.buf
      ensures Valid() && (recv.buf == old(recv.buf) || fresh(recv.buf))
      ensures out.send.buf == old(out.send.buf) || fresh(out.send.buf)
      ensures View() == Feed(old(View()), data) && old(events) <= events
      ensures isDraining == (old(isDraining) || Closes(events[|old(events)|..]))
      ensures Queued(old(out.send.Contents()), out.send.Contents(), events[|old(events)|..], masks, out.isClient)
    {
      hide Queued, Closes;
      ghost var r := View();
      recv.Append(data);
      assert View() == r.(rest := r.rest + data);
      masks := OnRead();
    }
  }

  lemma DrainStep(r: Receiver)
    requires Complete(r.rest)
    ensures Drain(r) == Drain(TakeFrame(r))
    ensures |TakeFrame(r).rest| < |r.rest|
    ensures TakeFrame(r) == AfterFrame(r.frag, r.events, r.rest[0], Payload(r.rest), r.rest[FrameLen(r.rest)..])
  {
  }

  lemma DrainEnd(r: Receiver)
    ensures !Complete(r.rest) ==> Drain(r) == r
    ensures Complete(r.rest) ==> FrameLen(r.rest) > 0
  {
  }

  lemma NothingCloses()
    ensures !Closes([])
  {
  }

  /** The message event behind those of the switch sends nothing. */
  lemma LastEvent(q0: seq<byte>, q1: seq<byte>, frag: seq<byte>, first: byte, payload: seq<byte>,
      masks: seq<seq<byte>>, isClient: bool)
    requires Queued(q0, q1, SwitchEvents(first, payload), masks, isClient)
    ensures Queued(q0, q1, TurnEvents(frag, first, payload),
                   masks + if first >= 128 && first % 16 == 0 then [NoMask(isClient)] else [], isClient)
  {
    hide SwitchEvents, Queued, NoMask;
    if first >= 128 && first % 16 == 0 {
      var e := if frag + payload == [] then Overrun else Message((frag + payload)[0], (frag + payload)[1..]);
      QueuedSilent(q1, e, isClient);
      QueuedJoin(q0, q1, q1, SwitchEvents(first, payload), masks, [e], [NoMask(isClient)], isClient);
    } else {
      assert masks + [] == masks && SwitchEvents(first, payload) + [] == SwitchEvents(first, payload);
    }
  }

  /** One frame more. */
  lemma FrameAdds(q0: seq<byte>, q1: seq<byte>, q2: seq<byte>, r: Receiver, added: seq<Event>, masks: seq<seq<byte>>,
                  more: seq<seq<byte>>, isClient: bool)
    requires Complete(r.rest) && Queued(q0, q1, added, masks, isClient)
    requires Queued(q1, q2, TurnEvents(r.frag, r.rest[0], Payload(r.rest)), more, isClient)
    ensures var turn := TurnEvents(r.frag, r.rest[0], Payload(r.rest));
            && Queued(q0, q2, added + turn, masks + more, isClient)
            && TakeFrame(r).events == r.events + turn
            && (Closes(added + turn) <==> Closes(added) || r.rest[0] % 16 == OP_CLOSE)
  {
    hide TurnEvents, Queued, Closes, Payload;
    var first, payload := r.rest[0], Payload(r.rest);
    FrameEventsAdded(r.frag, r.events, first, payload, r.rest[FrameLen(r.rest)..]);
    QueuedJoin(q0, q1, q2, added, masks, TurnEvents(r.frag, first, payload), more, isClient);
    ClosesJoin(added, TurnEvents(r.frag, first, payload));
    ClosesFrame(r.frag, first, payload);
  }

  /** The used part of the buffer once ws_process has looked behind the fragments. */
  lemma TookNext(was: seq<byte>, now: seq<byte>, len: nat, r: Receiver, n: nat, flags: byte, headerLen: nat,
      dataLen: nat)
    requires |r.frag| <= len <= |was| && was[..len] == r.frag + r.rest
    requires Took(was, now, |r.frag|, len - |r.frag|, n, flags, headerLen, dataLen)
    ensures if Complete(r.rest) then
              && n == FrameLen(r.rest) && flags == r.rest[0] && headerLen == HeaderLen(r.rest)
              && dataLen == DataLen(r.rest)
              && headerLen <= n <= |r.rest| && len <= |now|
              && now[..len] == r.frag + r.rest[..headerLen] + Payload(r.rest) + r.rest[n..]
            else n == 0 && now == was
  {
    hide *;
    var ofs := |r.frag|;
    RestOfBuffer(was, len, r.frag, r.rest);
    TookUnfold(was, now, ofs, len - ofs, n, flags, headerLen, dataLen);
    if Complete(r.rest) {
      FrameParts(r.rest);
      Unmasked(was, len, r.frag, r.rest, headerLen, n, Payload(r.rest), now);
    }
  }

  lemma RestOfBuffer(was: seq<byte>, len: nat, frag: seq<byte>, rest: seq<byte>)
    requires |frag| <= len <= |was| && was[..len] == frag + rest
    ensures was[|frag|..|frag| + (len - |frag|)] == rest
  {
    assert was[|frag|..len] == was[..len][|frag|..];
  }

  lemma FrameParts(s: seq<byte>)
    requires Complete(s)
    ensures FrameLen(s) == HeaderLen(s) + DataLen(s) <= |s| && |Payload(s)| == DataLen(s)
    ensures 2 + MaskLen(s) <= HeaderLen(s)
    ensures MaskLen(s) == 0 || MaskLen(s) == 4
  {
  }

  lemma StripCut(frag: seq<byte>, header: seq<byte>, kept: seq<byte>, data: seq<byte>, rest: seq<byte>)
    requires |kept| < |header| && kept == header[..|kept|]
    ensures var s := frag + header + data + rest;
            s[..|frag| + |kept|] + s[|frag| + |header|..] == frag + kept + data + rest
  {
    var s := frag + header + data + rest;
    assert s[..|frag| + |kept|] == frag + kept;
    assert s[|frag| + |header|..] == data + rest;
  }

  /** The used part of the buffer after ws_process has written `payload` behind the header. */
  lemma Unmasked(was: seq<byte>, len: nat, frag: seq<byte>, rest: seq<byte>, h: nat, n: nat, payload: seq<byte>,
      now: seq<byte>)
    requires len <= |was| && was[..len] == frag + rest && h + |payload| == n <= |rest|
    requires now == was[..|frag| + h] + payload + was[|frag| + n..]
    ensures now[..len] == frag + rest[..h] + payload + rest[n..]
  {
    assert was[..|frag| + h] == was[..len][..|frag| + h] == frag + rest[..h];
    assert was[|frag| + n..][..|rest| - n] == was[..len][|frag| + n..] == rest[n..];
  }

  lemma Parts(a: seq<byte>, b: seq<byte>)
    ensures (a + b)[..|a|] == a && (a + b)[|a|..] == b
  {
  }

  /** The places in the buffer of the parts around one frame. */
  lemma Cut(frag: seq<byte>, header: seq<byte>, data: seq<byte>, rest: seq<byte>)
    requires |header| > 0
    ensures var s, p, q := frag + header + data + rest, |frag| + |header|, |frag| + |header| + |data|;
            && s[..|frag|] == frag && s[p..q] == data && s[q..] == rest
            && s[|frag|] == header[0]
            && s[..|frag| + 1] == frag + [header[0]]
            && s[p..] == data + rest
  {
  }

  // ----- the way the bytes are cut up does not matter -----

  function Feed(r: Receiver, data: seq<byte>): Receiver
  {
    Drain(r.(rest := r.rest + data))
  }

  function FeedAll(r: Receiver, chunks: seq<seq<byte>>): Receiver
    decreases |chunks|
  {
    if chunks == [] then r else FeedAll(Feed(r, chunks[0]), chunks[1..])
  }

  function Concat(chunks: seq<seq<byte>>): seq<byte>
  {
    if chunks == [] then [] else chunks[0] + Concat(chunks[1..])
  }

  lemma {:induction false} FeedTwice(r: Receiver, a: seq<byte>, b: seq<byte>)
    ensures Feed(Feed(r, a), b) == Feed(r, a + b)
    decreases |r.rest| + |a|
  {
    hide *;
    var ra := r.(rest := r.rest + a);
    assert r.rest + (a + b) == ra.rest + b;
    FeedUnfold(r, a);
    FeedUnfold(r, a + b);
    FeedUnfold(Feed(r, a), b);
    if Complete(ra.rest) {
      var next := TakeFrame(ra);
      FrameStays(ra, b);
      DrainStep(ra);
      DrainStep(ra.(rest := ra.rest + b));
      FeedTwice(next, [], b);
      assert next.rest + [] == next.rest && [] + b == b;
      assert next.(rest := next.rest + []) == next;
      FeedUnfold(next, []);
      FeedUnfold(next, b);
    } else {
      DrainEnd(ra);
    }
  }

  lemma FeedUnfold(r: Receiver, data: seq<byte>)
    ensures Feed(r, data) == Drain(r.(rest := r.rest + data))
  {
  }

  /** A frame is taken whatever is behind it. */
  lemma FrameStays(r: Receiver, b: seq<byte>)
    requires Complete(r.rest)
    ensures Complete(r.rest + b) && TakeFrame(r.(rest := r.rest + b)) == TakeFrame(r).(rest := TakeFrame(r).rest + b)
    ensures |TakeFrame(r).rest| < |r.rest|
  {
    CompleteStays(r.rest, b);
    hide Complete, Payload, SwitchEvents, FrameLen;
    assert (r.rest + b)[FrameLen(r.rest)..] == r.rest[FrameLen(r.rest)..] + b;
  }

  lemma {:induction false} DrainedHasNoFrame(r: Receiver)
    ensures !Complete(Drain(r).rest) && Drain(Drain(r)) == Drain(r)
    decreases |r.rest|
  {
    if Complete(r.rest) {
      DrainedHasNoFrame(TakeFrame(r));
    }
  }

  /** Any byte stream whatever, cut into READ events in any way, leaves the connection in the state
      that one READ event with all the bytes leaves it in. */
  lemma {:induction false} SplitsDoNotMatter(r: Receiver, chunks: seq<seq<byte>>)
    requires !Complete(r.rest)
    ensures FeedAll(r, chunks) == Feed(r, Concat(chunks))
    decreases |chunks|
  {
    if chunks == [] {
      assert r.rest + [] == r.rest;
    } else {
      DrainedHasNoFrame(r.(rest := r.rest + chunks[0]));
      SplitsDoNotMatter(Feed(r, chunks[0]), chunks[1..]);
      FeedTwice(r, chunks[0], Concat(chunks[1..]));
    }
  }

  // ----- well-formed streams -----

  /** The three ways to write a payload length. */
  datatype Form = Short | Medium | Long

  datatype Frame = Frame(final: bool, rsv: nat, op: nat, form: Form, mask: seq<byte>, payload: seq<byte>)

  predicate ValidFrame(f: Frame)
  {
    && f.rsv < 8 && f.op < 16
    && (f.mask == [] || |f.mask| == 4)
    && |f.payload| <= 0x4000_0000
    && (f.form.Short? ==> |f.payload| < 126)
    && (f.form.Medium? ==> |f.payload| < 0x1_0000)
  }

  function First(f: Frame): byte
  {
    (if f.final then 128 else 0) + 16 * (f.rsv % 8) + f.op % 16
  }

  function LengthField(form: Form, len: nat, masked: bool): (s: seq<byte>)
    ensures |s| == match form case Short => 1 case Medium => 3 case Long => 9
  {
    var m := if masked then 128 else 0;
    match form
    case Short => [len % 126 + m]
    case Medium => [126 + m] + BigEndian(len, 2)
    case Long => [127 + m] + BigEndian(len, 8)
  }

  function Encode(f: Frame): seq<byte>
  {
    [First(f)] + LengthField(f.form, |f.payload|, f.mask != []) + f.mask
    + if |f.mask| == 4 then Masked(f.payload, f.mask) else f.payload
  }

  lemma MaskedTwice(data: seq<byte>, mask: seq<byte>)
    requires |mask| == 4
    ensures Masked(Masked(data, mask), mask) == data
  {
    forall i | 0 <= i < |data|
      ensures Masked(Masked(data, mask), mask)[i] == data[i]
    {
      XorTwice(data[i], mask[i % 4]);
    }
  }

  lemma LengthFieldRead(f: Frame, s: seq<byte>)
    requires ValidFrame(f)
    requires |s| >= 1 + |LengthField(f.form, |f.payload|, f.mask != [])| + |f.mask|
    requires s[1..1 + |LengthField(f.form, |f.payload|, f.mask != [])|]
         == LengthField(f.form, |f.payload|, f.mask != [])
    ensures |s| >= 2 && MaskLen(s) == |f.mask|
    ensures HeaderLen(s) == 1 + |LengthField(f.form, |f.payload|, f.mask != [])| + |f.mask|
    ensures DataLen(s) == |f.payload|
  {
    hide BigEndian, FromBigEndian, Limit;
    var field := LengthField(f.form, |f.payload|, f.mask != []);
    assert s[1] == s[1..1 + |field|][0] == field[0];
    match f.form
    case Short =>
    case Medium =>
      SubSlice(s, 1, 4, 1, 3);
      assert field[1..3] == BigEndian(|f.payload|, 2);
      LengthReadBack(|f.payload|);
    case Long =>
      SubSlice(s, 1, 10, 1, 9);
      assert field[1..9] == BigEndian(|f.payload|, 8);
      LengthReadBack(|f.payload|);
  }

  lemma LengthReadBack(n: nat)
    ensures n < 0x1_0000 ==> FromBigEndian(BigEndian(n, 2)) == n
    ensures n <= MAX_PAYLOAD ==> FromBigEndian(BigEndian(n, 8)) == n
  {
    Limits();
    hide BigEndian, FromBigEndian, Limit;
    if n < 0x1_0000 {
      BigEndianInverse(n, 2);
    }
    if n <= MAX_PAYLOAD {
      BigEndianInverse(n, 8);
    }
  }

  /** ws_process reads back what was sent: the whole frame, its first byte and the unmasked payload. */
  lemma EncodedFrameRead(f: Frame, t: seq<byte>)
    requires ValidFrame(f)
    ensures var s := Encode(f) + t;
            Complete(s) && FrameLen(s) == |Encode(f)| && s[0] == First(f) && Payload(s) == f.payload
  {
    var s, field := Encode(f) + t, LengthField(f.form, |f.payload|, f.mask != []);
    var body := if |f.mask| == 4 then Masked(f.payload, f.mask) else f.payload;
    EncodedParts([First(f)], field, f.mask, body, t);
    LengthFieldRead(f, s);
    if f.mask != [] {
      MaskedTwice(f.payload, f.mask);
    }
    hide Encode, LengthField, First, Masked, DataLen, HeaderLen;
  }

  lemma EncodedParts(first: seq<byte>, field: seq<byte>, mask: seq<byte>, body: seq<byte>, t: seq<byte>)
    requires |first| == 1
    ensures var s, h := first + field + mask + body + t, 1 + |field| + |mask|;
            && s[0] == first[0] && s[1..1 + |field|] == field && s[h - |mask|..h] == mask && s[h..h + |body|] == body
  {
    var s, h := first + field + mask + body + t, 1 + |field| + |mask|;
    assert s == first + (field + (mask + (body + t)));
    assert s[1..] == field + (mask + (body + t));
    assert s[h - |mask|..] == mask + (body + t);
    assert s[h..] == body + t;
  }

  function EncodeAll(frames: seq<Frame>): seq<byte>
  {
    if frames == [] then [] else Encode(frames[0]) + EncodeAll(frames[1..])
  }

  /** RFC 6455 section 5.4: a message is one frame, or fragments of which the later ones are
      continuations; control frames are not fragmented and may come in between.  `open` says that
      a fragmented message has begun. */
  predicate WellPlaced(f: Frame, open: bool)
  {
    && ValidFrame(f)
    && if f.op >= 8 then f.op in {OP_CLOSE, OP_PING, OP_PONG} && f.final
       else if f.op == OP_CONTINUE then open
       else f.op in {OP_TEXT, OP_BINARY} && !open
  }

  predicate WellFormed(frames: seq<Frame>, open: bool)
  {
    frames == []
    || (WellPlaced(frames[0], open)
        && WellFormed(frames[1..], if frames[0].op >= 8 then open else !frames[0].final))
  }

  /** The application data of a fragmented message. */
  function Joined(frames: seq<Frame>): seq<byte>
  {
    if frames == [] then [] else Joined(frames[..|frames| - 1]) + frames[|frames| - 1].payload
  }

  /** The frames of the message in progress, after one more frame. */
  function NextOpen(f: Frame, open: seq<Frame>): seq<Frame>
  {
    if f.op >= 8 then open else if f.final then [] else open + [f]
  }

  /** What a receiver is told on a frame; `open` are the frames of the message in progress.  Every
      continuation frame is also reported on its own, as the code does. */
  function FrameEvents(f: Frame, open: seq<Frame>): seq<Event>
  {
    if f.op == OP_CLOSE then [Control(First(f), f.payload), Sent(OP_CLOSE, f.payload)]
    else if f.op == OP_PING then [Sent(OP_PONG, f.payload), Control(First(f), f.payload)]
    else if f.op == OP_PONG then [Control(First(f), f.payload)]
    else if f.op == OP_CONTINUE then
      [Control(First(f), f.payload)]
      + if f.final && open != [] then [Message(First(open[0]), Joined(open + [f]))] else []
    else if f.final then [Message(First(f), f.payload)]
    else []
  }

  /** The reference decoder. */
  function Reference(frames: seq<Frame>, open: seq<Frame>): seq<Event>
    decreases |frames|
  {
    if frames == [] then [] else FrameEvents(frames[0], open) + Reference(frames[1..], NextOpen(frames[0], open))
  }

  /** The fragment buffer that stands for the frames of the message in progress. */
  function FragOf(open: seq<Frame>): seq<byte>
  {
    if open == [] then [] else [First(open[0])] + Joined(open)
  }

  lemma FragGrows(open: seq<Frame>, f: Frame)
    ensures FragOf(open + [f]) == if open == [] then [First(f)] + f.payload else FragOf(open) + f.payload
  {
    assert (open + [f])[..|open|] == open;
    assert Joined(open + [f]) == Joined(open) + f.payload;
    if open == [] {
      assert Joined([]) + f.payload == f.payload;
    } else {
      assert [First(open[0])] + (Joined(open) + f.payload) == FragOf(open) + f.payload;
    }
  }

  lemma FirstParts(f: Frame)
    requires ValidFrame(f)
    ensures First(f) % 16 == f.op && (First(f) >= 128 <==> f.final)
  {
  }

  lemma AfterContinuation(frag: seq<byte>, events: seq<Event>, first: byte, payload: seq<byte>, rest: seq<byte>)
    requires first % 16 == OP_CONTINUE && frag != []
    ensures var r, data := AfterFrame(frag, events, first, payload, rest), frag + payload;
            && (first < 128 ==> r == Receiver(data, rest, events + [Control(first, payload)]))
            && (first >= 128 ==>
                r == Receiver([], rest, events + [Control(first, payload), Message(data[0], data[1..])]))
  {
    assert frag + [] + payload == frag + payload;
  }

  lemma AfterStart(events: seq<Event>, first: byte, payload: seq<byte>, rest: seq<byte>)
    requires first % 16 == OP_TEXT || first % 16 == OP_BINARY
    ensures AfterFrame([], events, first, payload, rest)
         == if first < 128 then Receiver([first] + payload, rest, events)
            else Receiver([], rest, events + [Message(first, payload)])
  {
    assert [] + [first] + payload == [first] + payload;
  }

  lemma AfterControl(frag: seq<byte>, events: seq<Event>, first: byte, payload: seq<byte>, rest: seq<byte>)
    requires first >= 128 && first % 16 != OP_CONTINUE
    ensures AfterFrame(frag, events, first, payload, rest)
         == Receiver(frag, rest, events + SwitchEvents(first, payload))
  {
  }

  /** One frame of a well-formed stream does to the connection what it does in the reference. */
  lemma FrameDelivers(f: Frame, open: seq<Frame>, events: seq<Event>, rest: seq<byte>)
    requires WellPlaced(f, open != [])
    ensures AfterFrame(FragOf(open), events, First(f), f.payload, rest)
         == Receiver(FragOf(NextOpen(f, open)), rest, events + FrameEvents(f, open))
  {
    hide *;
    if f.op == OP_CONTINUE {
      ContinuationDelivers(f, open, events, rest);
    } else if f.op < 8 {
      StartDelivers(f, open, events, rest);
    } else {
      ControlDelivers(f, open, events, rest);
    }
  }

  lemma ContinuationDelivers(f: Frame, open: seq<Frame>, events: seq<Event>, rest: seq<byte>)
    requires WellPlaced(f, open != []) && f.op == OP_CONTINUE
    ensures AfterFrame(FragOf(open), events, First(f), f.payload, rest)
         == Receiver(FragOf(NextOpen(f, open)), rest, events + FrameEvents(f, open))
  {
    hide *;
    ContinuationCase(f, open);
    FragGrows(open, f);
    FragParts(open, f);
    AfterContinuation(FragOf(open), events, First(f), f.payload, rest);
  }

  lemma ContinuationCase(f: Frame, open: seq<Frame>)
    requires WellPlaced(f, open != []) && f.op == OP_CONTINUE
    ensures open != [] && FragOf(open) != [] && FragOf([]) == []
    ensures First(f) % 16 == OP_CONTINUE && (First(f) >= 128 <==> f.final)
    ensures NextOpen(f, open) == if f.final then [] else open + [f]
    ensures FrameEvents(f, open) == if f.final then
            [Control(First(f), f.payload), Message(First(open[0]), Joined(open + [f]))]
                                    else [Control(First(f), f.payload)]
  {
    FirstParts(f);
    hide First, Joined;
  }

  lemma FragParts(open: seq<Frame>, f: Frame)
    requires open != []
    ensures var data := FragOf(open) + f.payload;
            data != [] && data[0] == First(open[0]) && data[1..] == Joined(open + [f])
  {
    FragJoined(open, f);
    hide *;
    Grouped([First(open[0])], Joined(open), f.payload);
    Headed(First(open[0]), Joined(open + [f]));
  }

  lemma FragJoined(open: seq<Frame>, f: Frame)
    requires open != []
    ensures FragOf(open) == [First(open[0])] + Joined(open) && Joined(open + [f]) == Joined(open) + f.payload
  {
    hide First;
    assert (open + [f])[..|open|] == open;
  }

  lemma Headed(x: byte, rest: seq<byte>)
    ensures [x] + rest != [] && ([x] + rest)[0] == x && ([x] + rest)[1..] == rest
  {
  }

  lemma StartDelivers(f: Frame, open: seq<Frame>, events: seq<Event>, rest: seq<byte>)
    requires WellPlaced(f, open != []) && f.op != OP_CONTINUE && f.op < 8
    ensures AfterFrame(FragOf(open), events, First(f), f.payload, rest)
         == Receiver(FragOf(NextOpen(f, open)), rest, events + FrameEvents(f, open))
  {
    FirstParts(f);
    FragGrows(open, f);
    hide AfterFrame, First, SwitchEvents, ValidFrame;
    AfterStart(events, First(f), f.payload, rest);
  }

  lemma ControlDelivers(f: Frame, open: seq<Frame>, events: seq<Event>, rest: seq<byte>)
    requires WellPlaced(f, open != []) && f.op >= 8
    ensures AfterFrame(FragOf(open), events, First(f), f.payload, rest)
         == Receiver(FragOf(NextOpen(f, open)), rest, events + FrameEvents(f, open))
  {
    FirstParts(f);
    hide AfterFrame, First, ValidFrame, FragOf;
    AfterControl(FragOf(open), events, First(f), f.payload, rest);
  }

  lemma DrainFrame(f: Frame, frag: seq<byte>, events: seq<Event>, tail: seq<byte>)
    requires ValidFrame(f)
    ensures Drain(Receiver(frag, Encode(f) + tail, events))
         == Drain(AfterFrame(frag, events, First(f), f.payload, tail))
  {
    EncodedFrameRead(f, tail);
    assert (Encode(f) + tail)[|Encode(f)|..] == tail;
    hide Encode, Payload, Complete, AfterFrame;
  }

  lemma {:induction false} StreamDrains(frames: seq<Frame>, open: seq<Frame>, events: seq<Event>, rest: seq<byte>)
    requires WellFormed(frames, open != []) && !Complete(rest)
    ensures Drain(Receiver(FragOf(open), EncodeAll(frames) + rest, events)).events == events + Reference(frames, open)
    ensures Drain(Receiver(FragOf(open), EncodeAll(frames) + rest, events)).rest == rest
    decreases |frames|
  {
    hide Encode, Complete, FragOf, AfterFrame, FrameEvents, ValidFrame, TakeFrame;
    if frames == [] {
      assert EncodeAll([]) + rest == rest;
    } else {
      var f, tail, open' := frames[0], EncodeAll(frames[1..]) + rest, NextOpen(frames[0], open);
      assert EncodeAll(frames) + rest == Encode(f) + tail;
      DrainFrame(f, FragOf(open), events, tail);
      FrameDelivers(f, open, events, tail);
      assert open' != [] <==> (if f.op >= 8 then open != [] else !f.final);
      StreamDrains(frames[1..], open', events + FrameEvents(f, open), rest);
      hide Drain;
      assert events + FrameEvents(f, open) + Reference(frames[1..], open') == events + Reference(frames, open);
    }
  }

  /** A well-formed stream, with any of the length forms and masks, followed by a part of a frame,
      in READ events of any size: exactly the messages and control events of the reference decoder,
      in order. */
  lemma StreamDelivers(frames: seq<Frame>, rest: seq<byte>, chunks: seq<seq<byte>>)
    requires WellFormed(frames, false) && !Complete(rest)
    requires Concat(chunks) == EncodeAll(frames) + rest
    ensures FeedAll(Receiver([], [], []), chunks).events == Reference(frames, [])
    ensures FeedAll(Receiver([], [], []), chunks).rest == rest
  {
    SplitsDoNotMatter(Receiver([], [], []), chunks);
    assert [] + Concat(chunks) == Concat(chunks);
    StreamDrains(frames, [], [], rest);
  }

  /** A message event with a length below zero: exactly for a final continuation frame without data
      when no fragment is kept.  A well-formed stream has none. */
  lemma OverrunExactly(r: Receiver)
    requires Complete(r.rest)
    ensures TakeFrame(r).events == r.events + SwitchEvents(r.rest[0], Payload(r.rest)) + [Overrun] <==>
            r.rest[0] >= 128 && r.rest[0] % 16 == OP_CONTINUE && r.frag == [] && Payload(r.rest) == []
  {
    var events := r.events + SwitchEvents(r.rest[0], Payload(r.rest));
    if TakeFrame(r).events == events + [Overrun] {
      assert TakeFrame(r).events[|events|] == Overrun;
    }
  }

  /** The frame 80 00 does it. */
  lemma EmptyContinuation()
    ensures var r := Receiver([], [128, 0], []);
            Complete(r.rest) && TakeFrame(r).events == SwitchEvents(128, []) + [Overrun]
  {
    var r := Receiver([], [128, 0], []);
    assert DataLen(r.rest) == 0;
    assert Payload(r.rest) == [];
    OverrunExactly(r);
  }

  /** A header that announces more than 2^30 bytes is never taken, whatever comes: no event is raised any more, and
      the bytes pile up. */
  lemma TooLongStays(r: Receiver, data: seq<byte>)
    requires |r.rest| >= 2 && |r.rest| >= HeaderLen(r.rest) && DataLen(r.rest) > 0x4000_0000
    ensures Feed(r, data) == r.(rest := r.rest + data)
  {
    HeaderStays(r.rest, data);
    hide HeaderLen, DataLen, MaskLen;
    DrainEnd(r.(rest := r.rest + data));
  }

  // ----- the examples of RFC 6455 section 5.7 -----

  const HELLO: seq<byte> := [0x48, 0x65, 0x6c, 0x6c, 0x6f]

  lemma HelloBytes()
    ensures Xor(0x7f, 0x37) == 0x48 && Xor(0x9f, 0xfa) == 0x65 && Xor(0x4d, 0x21) == 0x6c
    ensures Xor(0x51, 0x3d) == 0x6c && Xor(0x58, 0x37) == 0x6f
  {
    hide Xor, XorBits, Pow2;
    assert Xor(0x7f, 0x37) == 0x48 by { XorSum(0x7f, 0x37); }
    assert Xor(0x9f, 0xfa) == 0x65 by { XorSum(0x9f, 0xfa); }
    assert Xor(0x4d, 0x21) == 0x6c by { XorSum(0x4d, 0x21); }
    assert Xor(0x51, 0x3d) == 0x6c by { XorSum(0x51, 0x3d); }
    assert Xor(0x58, 0x37) == 0x6f by { XorSum(0x58, 0x37); }
  }

  lemma MaskedHello(mask: seq<byte>, masked: seq<byte>)
    requires mask == [0x37, 0xfa, 0x21, 0x3d] && masked == [0x7f, 0x9f, 0x4d, 0x51, 0x58]
    ensures Masked(masked, mask) == HELLO && Masked(HELLO, mask) == masked
  {
    hide Xor, XorBits, Pow2;
    HelloBytes();
    assert Masked(masked, mask) == HELLO;
    MaskedTwice(masked, mask);
  }

  /** A frame of at most 125 bytes, read by its bytes. */
  lemma ShortFrame(first: byte, mask: seq<byte>, data: seq<byte>, tail: seq<byte>)
    requires (mask == [] || |mask| == 4) && |data| < 126
    ensures var s := [first, |data| + if mask == [] then 0 else 128] + mask + data + tail;
            && Complete(s) && s[0] == first && s[FrameLen(s)..] == tail
            && Payload(s) == if mask == [] then data else Masked(data, mask)
  {
    hide Masked;
    var head: seq<byte> := [first, |data| + if mask == [] then 0 else 128];
    var s := head + mask + data + tail;
    assert s[1] == head[1] && HeaderLen(s) == 2 + |mask| && DataLen(s) == |data|;
    assert s[2..2 + |mask|] == mask && s[2 + |mask|..2 + |mask| + |data|] == data;
  }

  lemma ShortFrameFed(frag: seq<byte>, events: seq<Event>, first: byte, mask: seq<byte>, data: seq<byte>)
    requires (mask == [] || |mask| == 4) && |data| < 126
    ensures var s := [first, |data| + if mask == [] then 0 else 128] + mask + data;
            Feed(Receiver(frag, [], events), s) ==
            AfterFrame(frag, events, first, if mask == [] then data else Masked(data, mask), [])
  {
    ShortFrame(first, mask, data, []);
    hide *;
    var s := [first, |data| + if mask == [] then 0 else 128] + mask + data;
    assert s + [] == s && [] + s == s;
    FeedUnfold(Receiver(frag, [], events), s);
    DrainStep(Receiver(frag, s, events));
    NoFrame();
    DrainEnd(AfterFrame(frag, events, first, if mask == [] then data else Masked(data, mask), []));
  }

  lemma NoFrame()
    ensures !Complete([])
  {
  }

  /** What a READ event with the bytes `s` delivers on a connection to which nothing has come. */
  function Delivered(s: seq<byte>): seq<Event>
  {
    Feed(Receiver([], [], []), s).events
  }

  /** A text message, as a server sends it and as a client does. */
  lemma HelloDelivered()
    ensures Delivered([0x81, 0x05, 0x48, 0x65, 0x6c, 0x6c, 0x6f]) == [Message(0x81, HELLO)]
    ensures Delivered([0x81, 0x85, 0x37, 0xfa, 0x21, 0x3d, 0x7f, 0x9f, 0x4d, 0x51, 0x58]) == [Message(0x81, HELLO)]
  {
    hide Masked, Feed;
    var mask, masked := [0x37, 0xfa, 0x21, 0x3d], [0x7f, 0x9f, 0x4d, 0x51, 0x58];
    assert [0x81, 5 + 0] + [] + HELLO == [0x81, 0x05, 0x48, 0x65, 0x6c, 0x6c, 0x6f];
    ShortFrameFed([], [], 0x81, [], HELLO);
    assert [0x81, 5 + 128] + mask + masked == [0x81, 0x85, 0x37, 0xfa, 0x21, 0x3d, 0x7f, 0x9f, 0x4d, 0x51, 0x58];
    ShortFrameFed([], [], 0x81, mask, masked);
    MaskedHello(mask, masked);
  }

  /** A text message in two fragments; the code reports the second one on its own as well. */
  lemma FragmentsDelivered()
    ensures Delivered([0x01, 0x03, 0x48, 0x65, 0x6c, 0x80, 0x02, 0x6c, 0x6f])
         == [Control(0x80, [0x6c, 0x6f]), Message(0x01, HELLO)]
  {
    hide Feed;
    var a, b, first := [0x01, 0x03, 0x48, 0x65, 0x6c], [0x80, 0x02, 0x6c, 0x6f], [0x01, 0x48, 0x65, 0x6c];
    assert a + b == [0x01, 0x03, 0x48, 0x65, 0x6c, 0x80, 0x02, 0x6c, 0x6f];
    FeedTwice(Receiver([], [], []), a, b);
    assert [0x01, 3 + 0] + [] + first[1..] == a;
    ShortFrameFed([], [], 0x01, [], first[1..]);
    assert [] + [0x01] + first[1..] == first;
    assert AfterFrame([], [], 0x01, first[1..], []) == Receiver(first, [], []);
    assert [0x80, 2 + 0] + [] + [0x6c, 0x6f] == b;
    ShortFrameFed(first, [], 0x80, [], [0x6c, 0x6f]);
    AfterContinuation(first, [], 0x80, [0x6c, 0x6f], []);
    assert (first + [0x6c, 0x6f])[1..] == HELLO;
  }

  /** What goes out for at most 125 bytes. */
  lemma ShortSent(data: seq<byte>, op: nat, mask: seq<byte>)
    requires |data| < 126 && op < 16
    ensures Reply(Sent(op, data), mask)
         == [128 + op, |data| + if mask == [] then 0 else 128] + mask
            + if |mask| == 4 then Masked(data, mask) else data
  {
    SentBytes(data, op, mask);
    hide Masked, Encode, SentFrame;
  }

  /** A ping, with the pong that a server and a client send back. */
  lemma PingAnswered(mask: seq<byte>)
    requires mask == [0x37, 0xfa, 0x21, 0x3d]
    ensures Delivered([0x89, 0x05, 0x48, 0x65, 0x6c, 0x6c, 0x6f]) == [Sent(10, HELLO), Control(0x89, HELLO)]
    ensures Reply(Sent(10, HELLO), []) == [0x8a, 0x05, 0x48, 0x65, 0x6c, 0x6c, 0x6f]
    ensures Reply(Sent(10, HELLO), mask) == [0x8a, 0x85, 0x37, 0xfa, 0x21, 0x3d, 0x7f, 0x9f, 0x4d, 0x51, 0x58]
  {
    hide Masked, Feed, Reply;
    assert [0x89, 5 + 0] + [] + HELLO == [0x89, 0x05, 0x48, 0x65, 0x6c, 0x6c, 0x6f];
    ShortFrameFed([], [], 0x89, [], HELLO);
    PongSent(mask);
  }

  lemma PongSent(mask: seq<byte>)
    requires mask == [0x37, 0xfa, 0x21, 0x3d]
    ensures Reply(Sent(10, HELLO), []) == [0x8a, 0x05, 0x48, 0x65, 0x6c, 0x6c, 0x6f]
    ensures Reply(Sent(10, HELLO), mask) == [0x8a, 0x85, 0x37, 0xfa, 0x21, 0x3d, 0x7f, 0x9f, 0x4d, 0x51, 0x58]
  {
    hide Masked, Reply;
    ShortSent(HELLO, 10, []);
    ShortSent(HELLO, 10, mask);
    MaskedHello(mask, [0x7f, 0x9f, 0x4d, 0x51, 0x58]);
  }

  /** A close frame, with its answer. */
  lemma CloseAnswered()
    ensures Delivered([0x88, 0x00]) == [Control(0x88, []), Sent(8, [])]
    ensures Reply(Sent(8, []), []) == [0x88, 0x00]
  {
    hide Masked, Feed, Reply;
    assert [0x88, 0 + 0] + [] + [] == [0x88, 0x00];
    ShortFrameFed([], [], 0x88, [], []);
    ShortSent([], 8, []);
  }

  /** The length fields of 256 and of 65536 bytes. */
  lemma LongLengths()
    ensures LengthField(Medium, 0x100, false) == [0x7e, 1, 0]
    ensures LengthField(Long, 0x1_0000, false) == [0x7f, 0, 0, 0, 0, 0, 1, 0, 0]
  {
    BigEndianHalves(0x1_0000);
    WordInBytes(0);
    WordInBytes(0x1_0000);
    BigEndianTwo(0x100);
    hide BigEndian;
  }

  lemma UnmaskedFrame(data: seq<byte>)
    ensures Encode(SentFrame(data, OP_BINARY, [])) == [0x82] + LengthField(FormFor(|data|), |data|, false) + data
    ensures First(SentFrame(data, OP_BINARY, [])) == 0x82
  {
  }

  lemma OneFrameDelivered(f: Frame)
    requires ValidFrame(f)
    ensures Delivered(Encode(f)) == AfterFrame([], [], First(f), f.payload, []).events
  {
    DrainFrame(f, [], [], []);
    assert Encode(f) + [] == Encode(f) && [] + Encode(f) == Encode(f);
    hide Drain, AfterFrame, Encode, Complete, First;
    NoFrame();
    DrainEnd(AfterFrame([], [], First(f), f.payload, []));
  }

  /** Binary messages of 256 and of 65536 bytes. */
  lemma LongFrames(data: seq<byte>)
    requires |data| == 0x100 || |data| == 0x1_0000
    ensures var head := if |data| == 0x100 then [0x82, 0x7e, 1, 0] else [0x82, 0x7f, 0, 0, 0, 0, 0, 1, 0, 0];
            Encode(SentFrame(data, OP_BINARY, [])) == head + data && Delivered(head + data) == [Message(0x82, data)]
  {
    hide Encode, Drain, LengthField, First, Delivered;
    LongLengths();
    UnmaskedFrame(data);
    OneFrameDelivered(SentFrame(data, OP_BINARY, []));
  }

  // ----- sending: mkhdr, mg_ws_send, mg_ws_wrap -----

  function FormFor(len: nat): Form
  {
    if len < 126 then Short else if len < 0x1_0000 then Medium else Long
  }

  /** The frame that mkhdr begins; `mask` is what mg_random put into a client's header. */
  function SentFrame(data: seq<byte>, op: nat, mask: seq<byte>): Frame
  {
    Frame(true, 0, op, FormFor(|data|), mask, data)
  }

  lemma LowWord(n: nat, k: nat)
    ensures BigEndian(n, k + 4)
         == BigEndian(n / TWO_TO_THE_32, k) + [n / 0x100_0000 % 256, n / 0x1_0000 % 256, n / 0x100 % 256, n % 256]
  {
    var n1, n2, n3, n4 := n / 256, n / 256 / 256, n / 256 / 256 / 256, n / 256 / 256 / 256 / 256;
    assert n2 == n / 0x1_0000 && n3 == n / 0x100_0000 && n4 == n / TWO_TO_THE_32;
    assert BigEndian(n, k + 4) == BigEndian(n1, k + 3) + [n % 256];
    assert BigEndian(n1, k + 3) == BigEndian(n2, k + 2) + [n1 % 256];
    assert BigEndian(n2, k + 2) == BigEndian(n3, k + 1) + [n2 % 256];
    assert BigEndian(n3, k + 1) == BigEndian(n4, k) + [n3 % 256];
  }

  /** A multiple of 256 * d changes neither a quotient by d modulo 256 nor what is below d. */
  lemma LowDigit(m: nat, high: nat, d: nat)
    requires d in {1, 0x100, 0x1_0000, 0x100_0000}
    ensures (256 * d * high + m) / d % 256 == m / d % 256
  {
    assert 256 * d * high + m == d * (256 * high) + m;
    assert (256 * d * high + m) / d == 256 * high + m / d;
  }

  lemma LowDigits(n: nat)
    ensures var m := n % TWO_TO_THE_32;
            && m / 0x100_0000 % 256 == n / 0x100_0000 % 256 && m / 0x1_0000 % 256 == n / 0x1_0000 % 256
            && m / 0x100 % 256 == n / 0x100 % 256 && m % 256 == n % 256
  {
    var high, m := n / TWO_TO_THE_32, n % TWO_TO_THE_32;
    assert n == 256 * 0x100_0000 * high + m;
    LowDigit(m, high, 0x100_0000);
    assert n == 256 * 0x1_0000 * (0x100 * high) + m;
    LowDigit(m, 0x100 * high, 0x1_0000);
    assert n == 256 * 0x100 * (0x1_0000 * high) + m;
    LowDigit(m, 0x1_0000 * high, 0x100);
    assert n == 256 * 1 * (0x100_0000 * high) + m;
    LowDigit(m, 0x100_0000 * high, 1);
  }

  /** The length goes out as two words. */
  lemma BigEndianHalves(n: nat)
    ensures BigEndian(n / TWO_TO_THE_32, 4) + BigEndian(n % TWO_TO_THE_32, 4) == BigEndian(n, 8)
  {
    LowWord(n, 4);
    LowDigits(n);
    LowWord(n % TWO_TO_THE_32, 0);
    hide BigEndian;
  }

  /** Header and mask as they go out. */
  function SentHeader(len: nat, op: nat, mask: seq<byte>): seq<byte>
  {
    [128 + op % 128] + LengthField(FormFor(len), len, mask != []) + mask
  }

  lemma SentBytes(data: seq<byte>, op: nat, mask: seq<byte>)
    requires op < 16
    ensures Encode(SentFrame(data, op, mask))
         == SentHeader(|data|, op, mask) + if |mask| == 4 then Masked(data, mask) else data
  {
  }

  /** The mask ends the header, and header and payload make the frame. */
  lemma FrameQueued(queue: seq<byte>, data: seq<byte>, op: nat, mask: seq<byte>)
    requires op < 16 && (mask == [] || |mask| == 4)
    ensures var head := queue + SentHeader(|data|, op, mask);
            && (|mask| == 4 ==> |head| >= 4 && head[|head| - 4..] == mask)
            && head + (if |mask| == 4 then Masked(data, mask) else data) == queue + Encode(SentFrame(data, op, mask))
  {
    SentBytes(data, op, mask);
    HeaderEnds(queue, |data|, op, mask);
    hide *;
    Grouped(queue, SentHeader(|data|, op, mask), if |mask| == 4 then Masked(data, mask) else data);
  }

  lemma HeaderEnds(queue: seq<byte>, len: nat, op: nat, mask: seq<byte>)
    ensures var head := queue + SentHeader(len, op, mask);
            |mask| == 4 ==> |head| >= 4 && head[|head| - 4..] == mask
  {
    hide LengthField;
  }

  /** What mg_ws_send sends, ws_process reads: one whole frame, FIN and the opcode, the payload. */
  lemma SentFrameRead(data: seq<byte>, op: nat, mask: seq<byte>, rest: seq<byte>)
    requires |data| <= 0x4000_0000 && op < 16 && (mask == [] || |mask| == 4)
    ensures var sent := Encode(SentFrame(data, op, mask));
            && Complete(sent + rest) && FrameLen(sent + rest) == |sent|
            && sent[0] == 128 + op && Payload(sent + rest) == data
  {
    EncodedFrameRead(SentFrame(data, op, mask), rest);
  }

  /** memmove and memcpy of mg_ws_wrap, seen as sequences. */
  lemma Prepended(all: seq<byte>, q: nat, len: nat, header: seq<byte>, moved: seq<byte>, now: seq<byte>)
    requires q + len + |header| <= |all|
    requires moved == all[..q + |header|] + all[q..q + len] + all[q + len + |header|..]
    requires now == moved[..q] + header + moved[q + |header|..]
    ensures now[..q + len + |header|] == all[..q] + header + all[q..q + len]
  {
    var p, total := q + |header|, q + len + |header|;
    assert moved[..q] == all[..q];
    assert moved[p..][..len] == all[q..q + len];
    assert now[..total] == moved[..q] + header + moved[p..][..len];
  }

  /** The `len` bytes at `q` move up by the header's length, and the header goes in front of them. */
  method InsertHeader(b: array<byte>, q: nat, len: nat, header: seq<byte>)
    requires q + len + |header| <= b.Length
    modifies b
    ensures var was := old(b[..]); b[..][..q + len + |header|] == was[..q] + header + was[q..q + len]
  {
    ghost var was := b[..];
    MemMove(b, q + |header|, q, len);
    ghost var moved := b[..];
    MemCpy(b, q, header);
    Prepended(was, q, len, header, moved, b[..]);
  }

  /** mg_ws_mask, on the `len` bytes at `p`. */
  method MaskAt(b: array<byte>, p: nat, len: nat, ghost head: seq<byte>, ghost data: seq<byte>)
    requires p + len <= b.Length && |head| == p >= 4 && |data| == len && b[..][..p + len] == head + data
    modifies b
    ensures b[..][..p + len] == head + Masked(data, head[p - 4..])
  {
    hide Masked;
    ghost var was := b[..];
    assert was[..p] == was[..p + len][..p] == head;
    assert was[p..p + len] == was[..p + len][p..] == data;
    assert was[p - 4..p] == was[..p][p - 4..];
    Unmask(b, p, len);
    assert b[..][..p + len] == was[..p] + Masked(data, head[p - 4..]);
  }

  lemma SplitAt(all: seq<byte>, was: seq<byte>, q: nat)
    requires q <= |was| <= |all| && all[..|was|] == was
    ensures all[..q] == was[..q] && all[q..|was|] == was[q..]
  {
    assert all[..q] == all[..|was|][..q] && all[q..|was|] == all[..|was|][q..];
  }

  class Sender {
    const send: Buffer
    const isClient: bool

    constructor (align: nat, isClient: bool)
      ensures fresh(send) && fresh(send.buf) && send.Valid() && send.Contents() == [] && this.isClient == isClient
    {
      send := new Buffer(align);
      this.isClient := isClient;
    }

    /** mkhdr; `random` are the bytes that mg_random yields. */
    method MkHdr(len: nat, op: nat, random: seq<byte>) returns (header: seq<byte>)
      requires len < TWO_TO_THE_64 && |random| == 4
      ensures header == SentHeader(len, op, if isClient then random else [])
    {
      header := [128 + op % 128];
      if len < 126 {
        header := header + [len];
      } else if len < 0x1_0000 {
        header := header + [126] + BigEndian(len, 2);
      } else {
        header := header + [127] + BigEndian(len / TWO_TO_THE_32, 4) + BigEndian(len % TWO_TO_THE_32, 4);
        BigEndianHalves(len);
      }
      if isClient {
        header := header[1 := header[1] + 128];
        header := header + random;
      }
    }

    /** mg_ws_mask over the last `len` bytes of the queue: the frame is finished. */
    method Mask(len: nat, ghost queue: seq<byte>, ghost data: seq<byte>, ghost op: nat, ghost mask: seq<byte>)
      requires send.Valid() && len == |data| && op < 16 && |mask| == if isClient then 4 else 0
      requires send.Contents() == queue + SentHeader(len, op, mask) + data
      modifies send.buf
      ensures send.Valid()
      ensures send.Contents() == queue + Encode(SentFrame(data, op, mask))
    {
      hide SentHeader, Encode, SentFrame, Masked;
      ghost var head := queue + SentHeader(len, op, mask);
      FrameQueued(queue, data, op, mask);
      if isClient {
        assert send.buf[..][..send.len] == send.Contents();
        MaskAt(send.buf, send.len - len, len, head, data);
        assert send.Contents() == send.buf[..][..send.len];
      }
    }

    /** mg_ws_send: a whole frame goes to the end of the queue. */
    method WsSend(data: seq<byte>, op: nat, random: seq<byte>) returns (n: nat)
      requires send.Valid() && |data| < TWO_TO_THE_64 && |random| == 4 && op < 16
      modifies send, send.buf
      ensures send.Valid() && (send.buf == old(send.buf) || fresh(send.buf))
      ensures var frame := Encode(SentFrame(data, op, if isClient then random else []));
              send.Contents() == old(send.Contents()) + frame && n == |frame|
    {
      SentBytes(data, op, if isClient then random else []);
      hide SentHeader, Encode, Masked;
      ghost var queue := send.Contents();
      var header := MkHdr(|data|, op, random);
      send.Append(header);
      send.Append(data);
      Mask(|data|, queue, data, op, if isClient then random else []);
      n := |header| + |data|;
    }

    /** The part of mg_ws_wrap that makes room in front of the last `len` bytes and fills it. */
    method Prepend(len: nat, header: seq<byte>)
      requires send.Valid() && len <= send.len
      modifies send, send.buf
      ensures send.Valid() && (send.buf == old(send.buf) || fresh(send.buf))
      ensures var was, p := old(send.Contents()), old(send.len) - len;
              send.Contents() == was[..p] + header + was[p..]
    {
      ghost var was, q := send.Contents(), send.len - len;
      send.AddSpace(send.len, |header|);
      ghost var all := send.buf[..];
      assert all[..|was|] == send.Contents()[..|was|] == was;
      SplitAt(all, was, q);
      InsertHeader(send.buf, send.len - |header| - len, len, header);
      assert send.buf[..][..send.len] == send.Contents();
    }

    /** mg_ws_wrap: the last `len` bytes of the queue become the same frame that mg_ws_send makes of
        them. */
    method WsWrap(len: nat, op: nat, random: seq<byte>) returns (n: nat)
      requires send.Valid() && len <= send.len && len < TWO_TO_THE_64 && |random| == 4 && op < 16
      modifies send, send.buf
      ensures send.Valid() && (send.buf == old(send.buf) || fresh(send.buf))
      ensures var queue, data := old(send.Contents())[..old(send.len) - len],
              old(send.Contents())[old(send.len) - len..];
              send.Contents() == queue + Encode(SentFrame(data, op, if isClient then random else []))
      ensures n == send.len
    {
      hide SentHeader, Encode, Masked;
      ghost var queue, data := send.Contents()[..send.len - len], send.Contents()[send.len - len..];
      var header := MkHdr(len, op, random);
      Prepend(len, header);
      Mask(len, queue, data, op, if isClient then random else []);
      n := send.len;
    }
  }
}
