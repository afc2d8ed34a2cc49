/**
 The single-producer/single-consumer queue (mg_queue_*) as two threads that share a byte buffer
 and the two offsets `head` and `tail`.  One step is one read or write of shared memory: an offset,
 or one byte of the buffer.  `head` is written by the producer only and `tail` by the consumer
 only, so a thread reads its own offset without a step of its own.
 */
module Queue {
  import opened Bytes

  const WORD: nat := 4            // sizeof(uint32_t), the length word in front of a message
  const HEADROOM: nat := 2 * WORD // `hs`: a length word and the zero marker

  type Message = seq<byte>

  /** The fields of `struct mg_queue`; `size` is the length of `buf`. */
  datatype Memory = Memory(buf: seq<byte>, head: nat, tail: nat)

  /** Where the producer stands.  Five states are the five reads of `tail` in mg_queue_book. */
  datatype Producer =
    | Idle
    | BookFits(len: uint32)                     // `head >= tail` of the first test
    | BookAhead(len: uint32)                    // `head >= tail` of the second test
    | BookBehind(len: uint32)                   // `tail > hs` of the second test
    | WriteMarker(len: uint32, k: nat)          // byte k of the zero marker
    | WrapHead(len: uint32)                     // head = 0
    | BookGap(len: uint32, space: nat)          // `head + hs + len < tail`
    | BookSpace(len: uint32)                    // `space = tail - head - hs`
    | Booked(len: uint32, space: nat)           // back in the caller
    | WriteLength(n: uint32, k: nat)            // byte k of the length word in mg_queue_add
    | AdvanceHead(n: uint32)                    // head += n + 4

  datatype Consumer =
    | Ready
    | CheckEmpty                                // `tail != head`
    | ReadLength(word: seq<byte>)               // the first mg_queue_read_len
    | WrapTail                                  // tail = 0
    | CheckAgain                                // `head > tail`
    | ReadAgain(word: seq<byte>)                // the second mg_queue_read_len
    | Empty                                     // mg_queue_next returned 0
    | Holding(n: nat, copy: seq<byte>)          // mg_queue_next returned n; bytes read so far

  /** A failed assert and an access outside the buffer have no outcome. */
  datatype ProducerOutcome = ProducerFailed | Produced(m: Memory, pc: Producer)

  datatype ConsumerOutcome = ConsumerFailed | Consumed(m: Memory, pc: Consumer)

  /** `added` and `taken` are histories: the messages passed to mg_queue_add, and those read in
      full and then deleted. */
  datatype State = State(m: Memory, producer: Producer, consumer: Consumer, added: seq<Message>, taken: seq<Message>)

  /** What the scheduler and the two callers choose. */
  datatype Action =
    | Book(len: uint32)              // producer calls mg_queue_book
    | Produce                        // producer runs one step inside mg_queue_book or mg_queue_add
    | Fill(offset: nat, b: byte)     // producer stores a byte in the space it was granted
    | Add(n: uint32)                 // producer calls mg_queue_add, with at most the booked length
    | Cancel                         // producer leaves the booked space unused
    | Next                           // consumer calls mg_queue_next
    | Consume                        // consumer runs one step
    | Del                            // consumer calls mg_queue_del with the returned length
    | Keep                           // consumer leaves the message in the queue

  /** size_t subtraction. */
  function Minus(a: int, b: int): nat
  {
    (a - b) % TWO_TO_THE_64
  }

  function Store(m: Memory, at: nat, b: byte, pc: Producer): ProducerOutcome
  {
    if at < |m.buf| then Produced(m.(buf := m.buf[at := b]), pc) else ProducerFailed
  }

  function ProducerStep(m: Memory, p: Producer): ProducerOutcome
  {
    match p
    case BookFits(len) =>
      if m.head >= m.tail && m.head + len + HEADROOM <= |m.buf|
      then Produced(m, BookGap(len, |m.buf| - m.head - HEADROOM))
      else Produced(m, BookAhead(len))
    case BookAhead(len) =>
      Produced(m, if m.head >= m.tail then BookBehind(len) else BookGap(len, 0))
    case BookBehind(len) =>
      Produced(m, if m.tail > HEADROOM then WriteMarker(len, 0) else BookGap(len, 0))
    case WriteMarker(len, k) =>
      if k < WORD
      then Store(m, m.head + k, LittleEndian(0, WORD)[k], WriteMarker(len, k + 1))
      else Produced(m, WrapHead(len))
    case WrapHead(len) =>
      Produced(m.(head := 0), BookGap(len, 0))
    case BookGap(len, space) =>
      Produced(m, if m.head + HEADROOM + len < m.tail then BookSpace(len) else Booked(len, space))
    case BookSpace(len) =>
      Produced(m, Booked(len, Minus(m.tail, m.head + HEADROOM)))
    case WriteLength(n, k) =>
      if k < WORD then Store(m, m.head + k, LittleEndian(n, WORD)[k], WriteLength(n, k + 1))
      else if m.head + HEADROOM + n <= |m.buf| then Produced(m, AdvanceHead(n))
      else ProducerFailed
    case AdvanceHead(n) =>
      Produced(m.(head := m.head + n + WORD), Idle)
    case Idle => Produced(m, p)
    case Booked(_, _) => Produced(m, p)
  }

  function ConsumerStep(m: Memory, c: Consumer): ConsumerOutcome
  {
    match c
    case CheckEmpty => Consumed(m, if m.tail != m.head then ReadLength([]) else Empty)
    case ReadLength(word) =>
      if |word| < WORD then
        if m.tail + |word| < |m.buf|
        then Consumed(m, ReadLength(word + [m.buf[m.tail + |word|]])) else ConsumerFailed
      else if m.tail + FromLittleEndian(word) + WORD > |m.buf| then ConsumerFailed
      else Consumed(m, if FromLittleEndian(word) == 0 then WrapTail else Holding(FromLittleEndian(word), []))
    case WrapTail => Consumed(m.(tail := 0), CheckAgain)
    case CheckAgain => Consumed(m, if m.head > m.tail then ReadAgain([]) else Empty)
    case ReadAgain(word) =>
      if |word| < WORD then
        if m.tail + |word| < |m.buf|
        then Consumed(m, ReadAgain(word + [m.buf[m.tail + |word|]])) else ConsumerFailed
      else if m.tail + FromLittleEndian(word) + WORD > |m.buf| then ConsumerFailed
      else Consumed(m, if FromLittleEndian(word) == 0 then Empty else Holding(FromLittleEndian(word), []))
    case Empty => Consumed(m, Ready)
    case Holding(n, copy) =>
      if |copy| >= n then Consumed(m, c)
      else if m.tail + WORD + |copy| < |m.buf|
      then Consumed(m, Holding(n, copy + [m.buf[m.tail + WORD + |copy|]])) else ConsumerFailed
    case Ready => Consumed(m, c)
  }

  /** mg_queue_del, with its assert. */
  function Delete(m: Memory, n: nat): ConsumerOutcome
  {
    var tail := m.tail + n + WORD;
    if tail + WORD <= |m.buf| then Consumed(m.(tail := tail), Ready) else ConsumerFailed
  }

  predicate Granted(p: Producer)
  {
    p.Booked? && p.space >= p.len
  }

  /** The bytes that mg_queue_add is about to publish. */
  function Published(m: Memory, p: Producer): seq<Message>
  {
    if p.AdvanceHead? && m.head + WORD + p.n <= |m.buf| then [m.buf[m.head + WORD..m.head + WORD + p.n]] else []
  }

  datatype Option = None | Some(value: State)

  function ProducerMoved(s: State, o: ProducerOutcome): Option
  {
    if o.ProducerFailed? then None
    else Some(s.(m := o.m, producer := o.pc, added := s.added + Published(s.m, s.producer)))
  }

  function ConsumerMoved(s: State, o: ConsumerOutcome): Option
  {
    if o.ConsumerFailed? then None else Some(s.(m := o.m, consumer := o.pc))
  }

  /** One step; an action that its thread cannot take now does nothing. */
  function Step(s: State, a: Action): Option
  {
    match a
    case Book(len) => Some(if s.producer.Idle? then s.(producer := BookFits(len)) else s)
    case Produce => ProducerMoved(s, ProducerStep(s.m, s.producer))
    case Fill(offset, b) =>
      if Granted(s.producer) && offset < s.producer.len
      then ProducerMoved(s, Store(s.m, s.m.head + WORD + offset, b, s.producer)) else Some(s)
    case Add(n) =>
      Some(if Granted(s.producer) && 0 < n <= s.producer.len then s.(producer := WriteLength(n, 0)) else s)
    case Cancel => Some(if s.producer.Booked? then s.(producer := Idle) else s)
    case Next => Some(if s.consumer.Ready? then s.(consumer := CheckEmpty) else s)
    case Consume => ConsumerMoved(s, ConsumerStep(s.m, s.consumer))
    case Del =>
      if s.consumer.Holding? && |s.consumer.copy| == s.consumer.n
      then ConsumerMoved(s.(taken := s.taken + [s.consumer.copy]), Delete(s.m, s.consumer.n)) else Some(s)
    case Keep => Some(if s.consumer.Holding? then s.(consumer := Ready) else s)
  }

  /** mg_queue_init, then any sequence of choices: any interleaving of the two threads. */
  function Run(buf: seq<byte>, actions: seq<Action>): Option
    decreases |actions|
  {
    if actions == [] then Some(State(Memory(buf, 0, 0), Idle, Ready, [], []))
    else
      var before := Run(buf, actions[..|actions| - 1]);
      if before.None? then None else Step(before.value, actions[|actions| - 1])
  }

  // ----- the layout of the buffer -----

  /** The bytes from `from` up to `to` are exactly these messages, each behind its length word. */
  ghost predicate Records(buf: seq<byte>, from: nat, to: nat, messages: seq<Message>)
    decreases |messages|
  {
    if messages == [] then from == to
    else
      && 0 < |messages[0]| < TWO_TO_THE_32
      && Holds(buf, from, LittleEndian(|messages[0]|, WORD))
      && Holds(buf, from + WORD, messages[0])
      && Records(buf, from + WORD + |messages[0]|, to, messages[1..])
  }

  lemma {:induction false} RecordsBounds(buf: seq<byte>, from: nat, to: nat, messages: seq<Message>)
    requires Records(buf, from, to, messages)
    ensures from <= to
    ensures messages == [] <==> from == to
    ensures messages != [] ==> from + WORD + |messages[0]| <= to <= |buf|
    decreases |messages|
  {
    if messages != [] {
      RecordsBounds(buf, from + WORD + |messages[0]|, to, messages[1..]);
    }
  }

  /** Only the bytes between `from` and `to` matter. */
  lemma {:induction false} RecordsFrame(buf: seq<byte>, buf': seq<byte>, from: nat, to: nat, messages: seq<Message>)
    requires Records(buf, from, to, messages) && |buf'| == |buf|
    requires forall i :: from <= i < to && i < |buf| ==> buf'[i] == buf[i]
    ensures Records(buf', from, to, messages)
    decreases |messages|
  {
    if messages != [] {
      RecordsBounds(buf, from, to, messages);
      RecordsFrame(buf, buf', from + WORD + |messages[0]|, to, messages[1..]);
      assert Holds(buf', from, LittleEndian(|messages[0]|, WORD)) && Holds(buf', from + WORD, messages[0]);
    }
  }

  lemma {:induction false} RecordsAppend(buf: seq<byte>, from: nat, to: nat, messages: seq<Message>, m: Message)
    requires Records(buf, from, to, messages) && 0 < |m| < TWO_TO_THE_32
    requires Holds(buf, to, LittleEndian(|m|, WORD)) && Holds(buf, to + WORD, m)
    ensures Records(buf, from, to + WORD + |m|, messages + [m])
    decreases |messages|
  {
    if messages == [] {
      assert (messages + [m])[1..] == [];
    } else {
      RecordsAppend(buf, from + WORD + |messages[0]|, to, messages[1..], m);
      assert (messages + [m])[1..] == messages[1..] + [m];
    }
  }

  /** The two pictures at the top of the queue's source: one run of records from `tail` to `head`,
      or a run from `tail` to the zero marker followed by a run from 0 to `head`. */
  datatype Shape =
    | Straight(messages: seq<Message>)
    | Wrapped(older: seq<Message>, marker: nat, newer: seq<Message>)

  function Pending(shape: Shape): seq<Message>
  {
    match shape
    case Straight(messages) => messages
    case Wrapped(older, _, newer) => older + newer
  }

  /** The records that the consumer will meet first. */
  function Front(shape: Shape): seq<Message>
  {
    if shape.Straight? then shape.messages else shape.older
  }

  ghost predicate Layout(m: Memory, shape: Shape)
  {
    && |m.buf| + TWO_TO_THE_32 + HEADROOM < TWO_TO_THE_64
    && (m.head > 0 ==> m.head + WORD <= |m.buf|)
    && match shape
       case Straight(messages) =>
         m.tail <= m.head && Records(m.buf, m.tail, m.head, messages)
       case Wrapped(older, marker, newer) =>
         && m.head < m.tail
         && Records(m.buf, m.tail, marker, older)
         && Holds(m.buf, marker, LittleEndian(0, WORD))
         && Records(m.buf, 0, m.head, newer)
  }

  /** `n` message bytes at `head`, and the two words the code keeps beside them, lie in free memory. */
  predicate Room(m: Memory, shape: Shape, n: nat)
  {
    m.head + HEADROOM + n <= |m.buf| && (shape.Wrapped? ==> m.head + HEADROOM + n < m.tail)
  }

  ghost predicate ProducerOk(m: Memory, p: Producer, shape: Shape)
  {
    match p
    case BookBehind(_) => shape.Straight?
    case WriteMarker(_, k) =>
      shape.Straight? && m.tail > HEADROOM && k <= WORD && Holds(m.buf, m.head, LittleEndian(0, WORD)[..k])
    case WrapHead(_) =>
      shape.Straight? && m.tail > HEADROOM && Holds(m.buf, m.head, LittleEndian(0, WORD))
    case BookGap(len, space) => 0 < len <= space ==> Room(m, shape, len)
    case BookSpace(len) => Room(m, shape, len)
    case Booked(len, space) => 0 < len <= space ==> Room(m, shape, len)
    case WriteLength(n, k) =>
      n > 0 && Room(m, shape, n) && k <= WORD && Holds(m.buf, m.head, LittleEndian(n, WORD)[..k])
    case AdvanceHead(n) =>
      n > 0 && Room(m, shape, n) && Holds(m.buf, m.head, LittleEndian(n, WORD))
    case Idle => true
    case BookFits(_) => true
    case BookAhead(_) => true
  }

  /** Something to read at `tail`: a record, or the marker. */
  ghost predicate ReadingAtTail(m: Memory, shape: Shape, word: seq<byte>)
  {
    && (shape.Straight? ==> shape.messages != [])
    && |word| <= WORD && Holds(m.buf, m.tail, word)
  }

  ghost predicate ConsumerOk(m: Memory, c: Consumer, shape: Shape)
  {
    match c
    case ReadLength(word) => ReadingAtTail(m, shape, word)
    case WrapTail => shape.Wrapped? && shape.older == []
    case CheckAgain => shape.Straight? && m.tail == 0
    case ReadAgain(word) => ReadingAtTail(m, shape, word) && shape.Straight? && m.tail == 0
    case Holding(n, copy) =>
      Front(shape) != [] && n == |Front(shape)[0]| && |copy| <= n && copy == Front(shape)[0][..|copy|]
    case Ready => true
    case CheckEmpty => true
    case Empty => true
  }

  ghost predicate ThreadsOk(m: Memory, p: Producer, c: Consumer, shape: Shape)
  {
    Layout(m, shape) && ProducerOk(m, p, shape) && ConsumerOk(m, c, shape)
  }

  // ----- the producer's steps keep the layout -----

  /** Memory that holds no unread byte, as far as the producer may use it. */
  predicate Free(m: Memory, shape: Shape, at: nat)
  {
    m.head <= at < |m.buf| && (shape.Wrapped? ==> at < m.tail)
  }

  lemma HoldsStored(buf: seq<byte>, at: nat, b: byte, from: nat, bytes: seq<byte>)
    requires Holds(buf, from, bytes) && at < |buf| && !(from <= at < from + |bytes|)
    ensures Holds(buf[at := b], from, bytes)
  {
  }

  lemma StoreKeepsLayout(m: Memory, shape: Shape, at: nat, b: byte)
    requires Layout(m, shape) && Free(m, shape, at)
    ensures Layout(m.(buf := m.buf[at := b]), shape)
  {
    hide Records, Holds, LittleEndian;
    var buf' := m.buf[at := b];
    match shape
    case Straight(messages) =>
      RecordsBounds(m.buf, m.tail, m.head, messages);
      RecordsFrame(m.buf, buf', m.tail, m.head, messages);
    case Wrapped(older, marker, newer) =>
      RecordsBounds(m.buf, m.tail, marker, older);
      RecordsFrame(m.buf, buf', m.tail, marker, older);
      RecordsFrame(m.buf, buf', 0, m.head, newer);
      HoldsStored(m.buf, at, b, marker, LittleEndian(0, WORD));
  }

  /** No byte that the consumer is reading changes. */
  lemma StoreKeepsConsumer(m: Memory, c: Consumer, shape: Shape, at: nat, b: byte)
    requires Layout(m, shape) && ConsumerOk(m, c, shape) && Free(m, shape, at)
    ensures ConsumerOk(m.(buf := m.buf[at := b]), c, shape)
  {
    if c.ReadLength? || c.ReadAgain? {
      if shape.Straight? {
        RecordsBounds(m.buf, m.tail, m.head, shape.messages);
      }
      assert Holds(m.buf[at := b], m.tail, c.word);
    }
  }

  /** Writing byte `k` of a word at `head`. */
  lemma StoreWordByte(m: Memory, c: Consumer, shape: Shape, word: seq<byte>, k: nat)
    requires Layout(m, shape) && ConsumerOk(m, c, shape)
    requires k < |word| && Free(m, shape, m.head + k) && Holds(m.buf, m.head, word[..k])
    ensures var m' := m.(buf := m.buf[m.head + k := word[k]]);
            && Layout(m', shape) && ConsumerOk(m', c, shape)
            && Holds(m'.buf, m.head, word[..k + 1])
  {
    hide Layout, Records;
    StoreKeepsLayout(m, shape, m.head + k, word[k]);
    StoreKeepsConsumer(m, c, shape, m.head + k, word[k]);
    assert word[..k + 1] == word[..k] + [word[k]];
  }

  lemma WriteMarkerKeeps(m: Memory, p: Producer, c: Consumer, shape: Shape)
    requires ThreadsOk(m, p, c, shape) && p.WriteMarker?
    ensures var o := ProducerStep(m, p); o.Produced? && ThreadsOk(o.m, o.pc, c, shape)
  {
    hide Records;
    var word := LittleEndian(0, WORD);
    if p.k < WORD {
      StoreWordByte(m, c, shape, word, p.k);
    } else {
      assert word[..WORD] == word;
    }
  }

  lemma WriteLengthKeeps(m: Memory, p: Producer, c: Consumer, shape: Shape)
    requires ThreadsOk(m, p, c, shape) && p.WriteLength?
    ensures var o := ProducerStep(m, p); o.Produced? && ThreadsOk(o.m, o.pc, c, shape)
  {
    hide Layout, Records;
    var word := LittleEndian(p.n, WORD);
    var o := ProducerStep(m, p);
    if p.k < WORD {
      StoreWordByte(m, c, shape, word, p.k);
      assert o == Produced(m.(buf := m.buf[m.head + p.k := word[p.k]]), WriteLength(p.n, p.k + 1));
    } else {
      assert word[..WORD] == word;
      assert o == Produced(m, AdvanceHead(p.n));
    }
  }

  lemma WrapHeadKeeps(m: Memory, p: Producer, c: Consumer, shape: Shape)
    requires ThreadsOk(m, p, c, shape) && p.WrapHead?
    ensures var o := ProducerStep(m, p); o.Produced? && ThreadsOk(o.m, o.pc, c, Wrapped(shape.messages, m.head, []))
  {
  }

  /** The reads of `tail` in mg_queue_book.  The subtraction may see a later `tail` than the
      comparison before it, and then yields nonsense; but the room that the comparison found is
      still there. */
  lemma BookKeeps(m: Memory, p: Producer, c: Consumer, shape: Shape)
    requires ThreadsOk(m, p, c, shape)
    requires p.BookFits? || p.BookAhead? || p.BookBehind? || p.BookGap? || p.BookSpace?
    ensures var o := ProducerStep(m, p); o.Produced? && ThreadsOk(o.m, o.pc, c, shape)
  {
    if shape.Wrapped? {
      RecordsBounds(m.buf, m.tail, shape.marker, shape.older);
    }
  }

  lemma RecordAtHead(m: Memory, shape: Shape, n: nat) returns (shape': Shape)
    requires Layout(m, shape) && 0 < n < TWO_TO_THE_32 && Room(m, shape, n)
    requires Holds(m.buf, m.head, LittleEndian(n, WORD))
    ensures Layout(m.(head := m.head + n + WORD), shape')
    ensures var message := m.buf[m.head + WORD..m.head + WORD + n];
            shape' == if shape.Straight? then Straight(shape.messages + [message])
                      else shape.(newer := shape.newer + [message])
  {
    hide Records, LittleEndian;
    var message := m.buf[m.head + WORD..m.head + WORD + n];
    assert |message| == n && Holds(m.buf, m.head + WORD, message);
    match shape
    case Straight(messages) =>
      RecordsAppend(m.buf, m.tail, m.head, messages, message);
      shape' := Straight(messages + [message]);
    case Wrapped(older, marker, newer) =>
      RecordsAppend(m.buf, 0, m.head, newer, message);
      shape' := Wrapped(older, marker, newer + [message]);
  }

  lemma AdvanceHeadKeeps(m: Memory, p: Producer, c: Consumer, shape: Shape) returns (shape': Shape)
    requires ThreadsOk(m, p, c, shape) && p.AdvanceHead?
    ensures var o := ProducerStep(m, p); o.Produced? && ThreadsOk(o.m, o.pc, c, shape')
    ensures Pending(shape') == Pending(shape) + Published(m, p)
  {
    shape' := RecordAtHead(m, shape, p.n);
  }

  lemma ProducerKeeps(m: Memory, p: Producer, c: Consumer, shape: Shape) returns (shape': Shape)
    requires ThreadsOk(m, p, c, shape)
    ensures var o := ProducerStep(m, p); o.Produced? && ThreadsOk(o.m, o.pc, c, shape')
    ensures Pending(shape') == Pending(shape) + Published(m, p)
  {
    hide Layout, Records;
    shape' := shape;
    match p
    case WriteMarker(_, _) => WriteMarkerKeeps(m, p, c, shape);
    case WriteLength(_, _) => WriteLengthKeeps(m, p, c, shape);
    case WrapHead(_) =>
      WrapHeadKeeps(m, p, c, shape);
      shape' := Wrapped(shape.messages, m.head, []);
    case AdvanceHead(_) => shape' := AdvanceHeadKeeps(m, p, c, shape);
    case Idle =>
    case Booked(_, _) =>
    case _ => BookKeeps(m, p, c, shape);
  }

  // ----- the consumer's steps keep the layout -----

  /** The word at `tail` is the length of the oldest message, or the zero marker. */
  lemma LengthAtTail(m: Memory, shape: Shape, word: seq<byte>)
    requires Layout(m, shape) && ReadingAtTail(m, shape, word) && |word| == WORD
    ensures Front(shape) == [] ==> FromLittleEndian(word) == 0
    ensures Front(shape) != [] ==> FromLittleEndian(word) == |Front(shape)[0]| > 0
    ensures m.tail + WORD + FromLittleEndian(word) <= |m.buf|
  {
    Limits();
    var n := if Front(shape) == [] then 0 else |Front(shape)[0]|;
    LittleEndianInverse(n, WORD);
    assert word == LittleEndian(n, WORD);
  }

  lemma WordFits(m: Memory, shape: Shape, word: seq<byte>)
    requires Layout(m, shape) && ReadingAtTail(m, shape, word) && |word| < WORD
    ensures m.tail + |word| < |m.buf|
    ensures ReadingAtTail(m, shape, word + [m.buf[m.tail + |word|]])
  {
    if Front(shape) == [] {
      assert m.tail == shape.marker;
    }
  }

  lemma ReadLengthKeeps(m: Memory, p: Producer, c: Consumer, shape: Shape)
    requires ThreadsOk(m, p, c, shape) && c.ReadLength?
    ensures var o := ConsumerStep(m, c); o.Consumed? && ThreadsOk(o.m, p, o.pc, shape)
  {
    if |c.word| < WORD {
      WordFits(m, shape, c.word);
    } else {
      LengthAtTail(m, shape, c.word);
    }
  }

  lemma ReadAgainKeeps(m: Memory, p: Producer, c: Consumer, shape: Shape)
    requires ThreadsOk(m, p, c, shape) && c.ReadAgain?
    ensures var o := ConsumerStep(m, c); o.Consumed? && ThreadsOk(o.m, p, o.pc, shape) && !o.pc.Empty?
  {
    if |c.word| < WORD {
      WordFits(m, shape, c.word);
    } else {
      LengthAtTail(m, shape, c.word);
    }
  }

  /** The two comparisons of `head` and `tail` find exactly whether anything is pending. */
  lemma CheckKeeps(m: Memory, p: Producer, c: Consumer, shape: Shape)
    requires ThreadsOk(m, p, c, shape) && (c.CheckEmpty? || c.CheckAgain?)
    ensures var o := ConsumerStep(m, c); o.Consumed? && ThreadsOk(o.m, p, o.pc, shape)
    ensures ConsumerStep(m, c).pc.Empty? ==> Pending(shape) == []
  {
    if shape.Straight? {
      RecordsBounds(m.buf, m.tail, m.head, shape.messages);
    }
  }

  lemma WrapTailKeeps(m: Memory, p: Producer, c: Consumer, shape: Shape)
    requires ThreadsOk(m, p, c, shape) && c.WrapTail?
    ensures var o := ConsumerStep(m, c); o.Consumed? && ThreadsOk(o.m, p, o.pc, Straight(shape.newer))
    ensures Pending(shape) == shape.newer
  {
  }

  lemma CopyKeeps(m: Memory, p: Producer, c: Consumer, shape: Shape)
    requires ThreadsOk(m, p, c, shape) && c.Holding?
    ensures var o := ConsumerStep(m, c); o.Consumed? && ThreadsOk(o.m, p, o.pc, shape)
  {
    var message := Front(shape)[0];
    assert Holds(m.buf, m.tail + WORD, message);
    if |c.copy| < c.n {
      assert m.buf[m.tail + WORD + |c.copy|] == m.buf[m.tail + WORD..m.tail + WORD + |message|][|c.copy|];
      assert c.copy + [message[|c.copy|]] == message[..|c.copy| + 1];
    }
  }

  lemma ConsumerKeeps(m: Memory, p: Producer, c: Consumer, shape: Shape) returns (shape': Shape)
    requires ThreadsOk(m, p, c, shape)
    ensures var o := ConsumerStep(m, c); o.Consumed? && ThreadsOk(o.m, p, o.pc, shape')
    ensures Pending(shape') == Pending(shape)
    ensures ConsumerStep(m, c).pc.Empty? && !c.Empty? ==> Pending(shape) == []
  {
    hide Layout, Records;
    shape' := shape;
    match c
    case ReadLength(_) => ReadLengthKeeps(m, p, c, shape);
    case ReadAgain(_) => ReadAgainKeeps(m, p, c, shape);
    case WrapTail =>
      WrapTailKeeps(m, p, c, shape);
      shape' := Straight(shape.newer);
    case CheckEmpty => CheckKeeps(m, p, c, shape);
    case CheckAgain => CheckKeeps(m, p, c, shape);
    case Holding(_, _) => CopyKeeps(m, p, c, shape);
    case Ready =>
    case Empty =>
  }

  lemma FirstGone(buf: seq<byte>, from: nat, to: nat, messages: seq<Message>)
    requires Records(buf, from, to, messages) && messages != []
    ensures Records(buf, from + WORD + |messages[0]|, to, messages[1..]) && from + WORD + |messages[0]| <= to <= |buf|
  {
    RecordsBounds(buf, from, to, messages);
  }

  lemma MarkerInside(buf: seq<byte>, marker: nat)
    requires Holds(buf, marker, LittleEndian(0, WORD))
    ensures marker + WORD <= |buf|
  {
  }

  lemma FirstDeleted(m: Memory, shape: Shape) returns (shape': Shape)
    requires Layout(m, shape) && Front(shape) != []
    ensures shape' == if shape.Straight? then Straight(Front(shape)[1..]) else shape.(older := Front(shape)[1..])
    ensures var m' := m.(tail := m.tail + |Front(shape)[0]| + WORD);
            Layout(m', shape') && m'.tail + WORD <= |m.buf|
    ensures Pending(shape) == [Front(shape)[0]] + Pending(shape')
  {
    hide Records, Holds, LittleEndian;
    var rest := Front(shape)[1..];
    if shape.Straight? {
      shape' := Straight(rest);
      FirstGone(m.buf, m.tail, m.head, shape.messages);
    } else {
      shape' := shape.(older := rest);
      FirstGone(m.buf, m.tail, shape.marker, shape.older);
      MarkerInside(m.buf, shape.marker);
      assert shape.older + shape.newer == [shape.older[0]] + (rest + shape.newer);
    }
  }

  /** What the producer knows stays true as the consumer moves `tail` forward. */
  lemma LaterTailKeepsProducer(m: Memory, p: Producer, shape: Shape, shape': Shape, tail: nat)
    requires ProducerOk(m, p, shape) && m.tail <= tail && shape'.Straight? == shape.Straight?
    ensures ProducerOk(m.(tail := tail), p, shape')
  {
  }

  lemma DeleteKeeps(m: Memory, p: Producer, c: Consumer, shape: Shape) returns (shape': Shape)
    requires ThreadsOk(m, p, c, shape) && c.Holding? && |c.copy| == c.n
    ensures var o := Delete(m, c.n); o.Consumed? && ThreadsOk(o.m, p, o.pc, shape')
    ensures Pending(shape) == [c.copy] + Pending(shape')
  {
    hide Layout, Records;
    assert c.copy == Front(shape)[0];
    shape' := FirstDeleted(m, shape);
    LaterTailKeepsProducer(m, p, shape, shape', m.tail + c.n + WORD);
  }

  // ----- every run -----

  ghost predicate Inv(s: State, shape: Shape)
  {
    ThreadsOk(s.m, s.producer, s.consumer, shape) && s.added == s.taken + Pending(shape)
  }

  lemma ProduceKeeps(s: State, shape: Shape) returns (shape': Shape)
    requires Inv(s, shape)
    ensures Step(s, Produce).Some? && Inv(Step(s, Produce).value, shape')
  {
    shape' := ProducerKeeps(s.m, s.producer, s.consumer, shape);
    var out := Published(s.m, s.producer);
    assert s.taken + (Pending(shape) + out) == s.added + out;
  }

  lemma FillKeeps(s: State, shape: Shape, offset: nat, b: byte)
    requires Inv(s, shape)
    ensures Step(s, Fill(offset, b)).Some? && Inv(Step(s, Fill(offset, b)).value, shape)
  {
    if Granted(s.producer) && offset < s.producer.len {
      var at := s.m.head + WORD + offset;
      StoreKeepsLayout(s.m, shape, at, b);
      StoreKeepsConsumer(s.m, s.consumer, shape, at, b);
      assert Step(s, Fill(offset, b)) == Some(s.(m := s.m.(buf := s.m.buf[at := b])));
    }
  }

  lemma DelKeeps(s: State, shape: Shape) returns (shape': Shape)
    requires Inv(s, shape)
    ensures Step(s, Del).Some? && Inv(Step(s, Del).value, shape')
  {
    hide Layout, Records;
    shape' := shape;
    if s.consumer.Holding? && |s.consumer.copy| == s.consumer.n {
      shape' := DeleteKeeps(s.m, s.producer, s.consumer, shape);
      assert s.taken + ([s.consumer.copy] + Pending(shape')) == s.taken + [s.consumer.copy] + Pending(shape');
    }
  }

  lemma StepKeeps(s: State, shape: Shape, a: Action) returns (shape': Shape)
    requires Inv(s, shape)
    ensures Step(s, a).Some? && Inv(Step(s, a).value, shape')
  {
    hide Layout, Records, ProducerStep, ConsumerStep, Delete;
    shape' := shape;
    match a
    case Produce => shape' := ProduceKeeps(s, shape);
    case Consume => shape' := ConsumerKeeps(s.m, s.producer, s.consumer, shape);
    case Fill(offset, b) => FillKeeps(s, shape, offset, b);
    case Del => shape' := DelKeeps(s, shape);
    case Book(_) =>
    case Add(_) =>
    case Cancel =>
    case Next =>
    case Keep =>
  }

  lemma {:induction false} RunKeeps(buf: seq<byte>, actions: seq<Action>) returns (shape: Shape)
    requires |buf| + TWO_TO_THE_32 + HEADROOM < TWO_TO_THE_64
    ensures Run(buf, actions).Some? && Inv(Run(buf, actions).value, shape)
    decreases |actions|
  {
    if actions == [] {
      shape := Straight([]);
    } else {
      var last := |actions| - 1;
      shape := RunKeeps(buf, actions[..last]);
      shape := StepKeeps(Run(buf, actions[..last]).value, shape, actions[last]);
    }
  }

  /** Under every interleaving: no assert fails and no access leaves the buffer; the messages taken
      are, byte for byte and in order, the first messages added. */
  lemma QueueIsFifo(buf: seq<byte>, actions: seq<Action>)
    requires |buf| + TWO_TO_THE_32 + HEADROOM < TWO_TO_THE_64
    ensures Run(buf, actions).Some?
    ensures Run(buf, actions).value.taken <= Run(buf, actions).value.added
  {
    var _ := RunKeeps(buf, actions);
  }

  /** mg_queue_next returns 0 only when, at the read of `head` that decides, every added message has
      been taken; and what it returns otherwise is the length of the oldest message not yet taken. */
  lemma NextIsOldest(buf: seq<byte>, actions: seq<Action>)
    requires |buf| + TWO_TO_THE_32 + HEADROOM < TWO_TO_THE_64
    ensures Run(buf, actions).Some?
    ensures var s := Run(buf, actions).value;
            && (s.consumer.Holding? ==>
                  && |s.taken| < |s.added|
                  && s.consumer.n == |s.added[|s.taken|]|
                  && s.consumer.copy <= s.added[|s.taken|])
            && (ConsumerStep(s.m, s.consumer).Consumed? && ConsumerStep(s.m, s.consumer).pc.Empty? && !s.consumer.Empty?
                ==> s.taken == s.added)
  {
    var shape := RunKeeps(buf, actions);
    var s := Run(buf, actions).value;
    hide Layout, Records, Run;
    var _ := ConsumerKeeps(s.m, s.producer, s.consumer, shape);
    if s.consumer.Holding? {
      assert s.added[|s.taken|] == Pending(shape)[0] == Front(shape)[0];
    }
  }
}
