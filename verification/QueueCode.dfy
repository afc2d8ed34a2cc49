/** The functions mg_queue_* as one thread runs them, each equal to its steps run to the end. */
module QueueCode {
  import opened Bytes
  import opened Queue

  // ----- steps run to the end -----

  function ProducerLeft(p: Producer): nat
  {
    match p
    case BookFits(_) => 13
    case BookAhead(_) => 12
    case BookBehind(_) => 11
    case WriteMarker(_, k) => if k < WORD then 10 - k else 5
    case WrapHead(_) => 4
    case BookGap(_, _) => 3
    case BookSpace(_) => 2
    case WriteLength(_, k) => if k < WORD then 10 - k else 5
    case AdvanceHead(_) => 4
    case Booked(_, _) => 0
    case Idle => 0
  }

  function FinishProducer(m: Memory, p: Producer): ProducerOutcome
    decreases ProducerLeft(p)
  {
    if p.Idle? || p.Booked? then Produced(m, p)
    else
      match ProducerStep(m, p)
      case ProducerFailed => ProducerFailed
      case Produced(m1, p1) => FinishProducer(m1, p1)
  }

  function ConsumerLeft(c: Consumer): nat
  {
    match c
    case CheckEmpty => 20
    case ReadLength(word) => if |word| < WORD then 19 - |word| else 15
    case WrapTail => 14
    case CheckAgain => 13
    case ReadAgain(word) => if |word| < WORD then 12 - |word| else 8
    case _ => 0
  }

  function FinishConsumer(m: Memory, c: Consumer): ConsumerOutcome
    decreases ConsumerLeft(c)
  {
    if c.Ready? || c.Empty? || c.Holding? then Consumed(m, c)
    else
      match ConsumerStep(m, c)
      case ConsumerFailed => ConsumerFailed
      case Consumed(m1, c1) => FinishConsumer(m1, c1)
  }

  /** The memory with a length word at `head`. */
  function WithWord(m: Memory, n: nat): Memory
    requires m.head + WORD <= |m.buf|
  {
    m.(buf := m.buf[..m.head] + LittleEndian(n, WORD) + m.buf[m.head + WORD..])
  }

  /** The first `k` bytes of the word have been written. */
  predicate PartWritten(was: Memory, m: Memory, n: nat, k: nat)
  {
    && was.head + WORD <= |was.buf| && k <= WORD && m.head == was.head && m.tail == was.tail && |m.buf| == |was.buf|
    && forall i :: 0 <= i < |m.buf| ==>
         m.buf[i] == if was.head <= i < was.head + k then LittleEndian(n, WORD)[i - was.head] else was.buf[i]
  }

  lemma WordWritten(was: Memory, m: Memory, n: nat)
    requires PartWritten(was, m, n, WORD)
    ensures m == WithWord(was, n)
  {
    assert m.buf == WithWord(was, n).buf;
  }

  lemma {:induction false} MarkerSteps(was: Memory, m: Memory, len: uint32, k: nat)
    requires PartWritten(was, m, 0, k)
    ensures FinishProducer(m, WriteMarker(len, k)) == FinishProducer(WithWord(was, 0), WrapHead(len))
    decreases WORD - k
  {
    hide LittleEndian;
    if k < WORD {
      MarkerSteps(was, m.(buf := m.buf[m.head + k := LittleEndian(0, WORD)[k]]), len, k + 1);
    } else {
      WordWritten(was, m, 0);
    }
  }

  lemma {:induction false} LengthSteps(was: Memory, m: Memory, n: uint32, k: nat)
    requires PartWritten(was, m, n, k)
    ensures FinishProducer(m, WriteLength(n, k))
         == if was.head + HEADROOM + n <= |was.buf|
            then Produced(WithWord(was, n).(head := was.head + n + WORD), Idle) else ProducerFailed
    decreases WORD - k
  {
    hide LittleEndian;
    if k < WORD {
      LengthSteps(was, m.(buf := m.buf[m.head + k := LittleEndian(n, WORD)[k]]), n, k + 1);
    } else {
      WordWritten(was, m, n);
      assert FinishProducer(m, WriteLength(n, k))
          == if m.head + HEADROOM + n <= |m.buf| then FinishProducer(m, AdvanceHead(n)) else ProducerFailed;
      LastStep(m, n);
    }
  }

  lemma LastStep(m: Memory, n: uint32)
    ensures FinishProducer(m, AdvanceHead(n)) == Produced(m.(head := m.head + n + WORD), Idle)
  {
  }

  /** The last two reads of `tail` in mg_queue_book. */
  lemma GapSteps(m: Memory, len: uint32, space: nat)
    ensures FinishProducer(m, BookGap(len, space))
         == Produced(m,
             Booked(len, if m.head + HEADROOM + len < m.tail then Minus(m.tail, m.head + HEADROOM) else space))
  {
    assert FinishProducer(m, BookSpace(len)) == Produced(m, Booked(len, Minus(m.tail, m.head + HEADROOM)));
  }

  lemma WrapSteps(m: Memory, len: uint32)
    ensures FinishProducer(m, WrapHead(len)) == FinishProducer(m.(head := 0), BookGap(len, 0))
  {
  }

  /** The first three. */
  lemma BookSteps(m: Memory, len: uint32)
    ensures FinishProducer(m, BookFits(len))
         == if m.head >= m.tail && m.head + len + HEADROOM <= |m.buf|
            then FinishProducer(m, BookGap(len, |m.buf| - m.head - HEADROOM))
            else if m.head >= m.tail && m.tail > HEADROOM then FinishProducer(m, WriteMarker(len, 0))
            else FinishProducer(m, BookGap(len, 0))
  {
    assert FinishProducer(m, BookAhead(len))
        == FinishProducer(m, if m.head >= m.tail then BookBehind(len) else BookGap(len, 0));
  }

  /** The marker at `head` ends the records, and `head` may start again at 0. */
  lemma MarkerPlaced(m: Memory, messages: seq<Message>)
    requires Layout(m, Straight(messages)) && m.head + WORD <= |m.buf| && 0 < m.tail
    ensures Layout(WithWord(m, 0).(head := 0), Wrapped(messages, m.head, []))
  {
    hide LittleEndian;
    var now := WithWord(m, 0);
    RecordsBounds(m.buf, m.tail, m.head, messages);
    RecordsFrame(m.buf, now.buf, m.tail, m.head, messages);
    assert Holds(now.buf, m.head, LittleEndian(0, WORD));
  }

  /** There is room for a message of `len` bytes behind `head`, or else in front of the records. */
  predicate HasRoom(m: Memory, shape: Shape, len: nat)
  {
    Room(m, shape, len) || (shape.Straight? && HEADROOM + len < m.tail)
  }

  /** mg_queue_book, run alone: no message is lost, and the space is `len` or more exactly when there is room.
      Then it reaches, but for the two words, up to the end of the buffer or up to the oldest message. */
  lemma BookedSpace(m: Memory, shape: Shape, len: uint32) returns (now: Memory, shape': Shape, space: nat)
    requires Layout(m, shape) && len > 0 && m.head + WORD <= |m.buf|
    ensures FinishProducer(m, BookFits(len)) == Produced(now, Booked(len, space))
    ensures Layout(now, shape') && Pending(shape') == Pending(shape) && now.tail == m.tail && |now.buf| == |m.buf|
    ensures space >= len <==> HasRoom(m, shape, len)
    ensures if space < len then space == 0
            else Room(now, shape', len)
                 && now.head + 8 + space == if shape'.Wrapped? then now.tail else |now.buf|
  {
    hide *;
    BookSteps(m, len);
    now, shape' := m, shape;
    TailBounds(m, shape);
    space := if m.head >= m.tail && m.head + len + HEADROOM <= |m.buf| then |m.buf| - m.head - HEADROOM else 0;
    if m.head >= m.tail && m.head + len + HEADROOM > |m.buf| && m.tail > HEADROOM {
      now, shape' := WithWord(m, 0).(head := 0), Wrapped(shape.messages, m.head, []);
      NothingWritten(m, len);
      MarkerPlaced(m, shape.messages);
      TailBounds(now, shape');
    }
    GapSteps(now, len, space);
    if now.head + HEADROOM + len < now.tail {
      space := Minus(now.tail, now.head + HEADROOM);
      SmallMinus(now.tail, now.head + HEADROOM);
    }
    RoomUnfold(m, shape, len);
    RoomUnfold(now, shape', len);
  }

  lemma NothingWritten(m: Memory, len: uint32)
    requires m.head + WORD <= |m.buf|
    ensures FinishProducer(m, WriteMarker(len, 0)) == FinishProducer(WithWord(m, 0).(head := 0), BookGap(len, 0))
    ensures |WithWord(m, 0).buf| == |m.buf| && WithWord(m, 0).tail == m.tail
  {
    MarkerSteps(m, m, len, 0);
    WrapSteps(WithWord(m, 0), len);
    hide FinishProducer;
  }

  lemma TailBounds(m: Memory, shape: Shape)
    requires Layout(m, shape)
    ensures m.head >= m.tail <==> shape.Straight?
    ensures m.tail <= |m.buf| < TWO_TO_THE_64
    ensures shape.Straight? ==> Pending(shape) == Pending(Wrapped(shape.messages, m.head, []))
    ensures HEADROOM == 8
  {
    if shape.Wrapped? {
      RecordsBounds(m.buf, m.tail, shape.marker, shape.older);
    } else {
      RecordsBounds(m.buf, m.tail, m.head, shape.messages);
      assert shape.messages + [] == shape.messages;
    }
  }

  lemma SmallMinus(a: nat, b: nat)
    requires b <= a < TWO_TO_THE_64
    ensures Minus(a, b) == a - b
  {
  }

  lemma RoomUnfold(m: Memory, shape: Shape, n: nat)
    ensures Room(m, shape, n) <==>
            m.head + HEADROOM + n <= |m.buf| && (shape.Wrapped? ==> m.head + HEADROOM + n < m.tail)
    ensures HasRoom(m, shape, n) <==> Room(m, shape, n) || (shape.Straight? && HEADROOM + n < m.tail)
  {
  }

  /** The number at `tail`. */
  function WordAtTail(m: Memory): nat
    requires m.tail + WORD <= |m.buf|
  {
    FromLittleEndian(m.buf[m.tail..m.tail + WORD])
  }

  lemma {:induction false} ReadSteps(m: Memory, k: nat)
    requires m.tail + WORD <= |m.buf| && k <= WORD
    ensures var word, n := m.buf[m.tail..m.tail + k], WordAtTail(m);
            && FinishConsumer(m, ReadLength(word))
            == (if m.tail + n + WORD > |m.buf| then ConsumerFailed
                else if n == 0 then FinishConsumer(m, WrapTail) else Consumed(m, Holding(n, [])))
            && FinishConsumer(m, ReadAgain(word))
            == (if m.tail + n + WORD > |m.buf| then ConsumerFailed
                else Consumed(m, if n == 0 then Empty else Holding(n, [])))
    decreases WORD - k
  {
    hide FromLittleEndian;
    if k < WORD {
      assert m.buf[m.tail..m.tail + k] + [m.buf[m.tail + k]] == m.buf[m.tail..m.tail + k + 1];
      ReadSteps(m, k + 1);
    }
  }

  lemma CheckSteps(m: Memory)
    ensures FinishConsumer(m, CheckEmpty)
         == if m.tail != m.head then FinishConsumer(m, ReadLength([])) else Consumed(m, Empty)
  {
  }

  lemma WrapTailSteps(m: Memory)
    ensures FinishConsumer(m, WrapTail)
         == if m.head > 0 then FinishConsumer(m.(tail := 0), ReadAgain([])) else Consumed(m.(tail := 0), Empty)
  {
    assert FinishConsumer(m.(tail := 0), CheckAgain)
        == if m.head > 0 then FinishConsumer(m.(tail := 0), ReadAgain([])) else Consumed(m.(tail := 0), Empty);
  }

  // ----- the functions -----

  /** `struct mg_queue`. */
  class SharedQueue {
    const buf: array<byte>
    var head: nat
    var tail: nat

    ghost function Now(): Memory
      reads this, buf
    {
      Memory(buf[..], head, tail)
    }

    /** mg_queue_init. */
    constructor (buf: array<byte>)
      ensures this.buf == buf && Now() == Memory(buf[..], 0, 0)
    {
      this.buf, head, tail := buf, 0, 0;
    }

    /** mg_queue_write_len. */
    method WriteLen(n: uint32)
      requires head + WORD <= buf.Length
      modifies buf
      ensures Now() == WithWord(old(Now()), n)
    {
      hide LittleEndian;
      ghost var was := buf[..];
      var word := LittleEndian(n, WORD);
      forall i | 0 <= i < WORD {
        buf[head + i] := word[i];
      }
      assert buf[..] == was[..head] + word + was[head + WORD..];
    }

    /** mg_queue_read_len, with its assert. */
    method ReadLen() returns (n: nat)
      requires tail + WORD <= buf.Length && tail + WordAtTail(Now()) + WORD <= buf.Length
      ensures n == WordAtTail(Now())
    {
      n := FromLittleEndian(buf[tail..tail + WORD]);
      assert buf[tail..tail + WORD] == buf[..][tail..tail + WORD];
      assert tail + n + WORD <= buf.Length;
    }

    /** mg_queue_book, run without interruption: where its steps do not fail, they end like this. */
    method Book(len: uint32) returns (space: nat, offset: nat)
      requires head + WORD <= buf.Length
      modifies buf, `head
      ensures FinishProducer(old(Now()), BookFits(len)) == Produced(Now(), Booked(len, space))
      ensures offset == head + WORD
    {
      hide LittleEndian, FinishProducer, ProducerStep;
      space := 0;
      ghost var was := Now();
      BookSteps(was, len);
      if head >= tail && head + len + HEADROOM <= buf.Length {
        space := buf.Length - head - HEADROOM;
      } else if head >= tail && tail > HEADROOM {
        MarkerSteps(was, was, len, 0);
        WriteLen(0);
        WrapSteps(Now(), len);
        head := 0;
      }
      GapSteps(Now(), len, space);
      if head + HEADROOM + len < tail {
        space := (tail - head - HEADROOM) % TWO_TO_THE_64;
      }
      offset := head + WORD;
    }

    /** mg_queue_add, whose asserts must hold. */
    method Add(len: uint32)
      requires len > 0 && head + HEADROOM + len <= buf.Length
      modifies buf, `head
      ensures FinishProducer(old(Now()), WriteLength(len, 0)) == Produced(Now(), Idle)
    {
      LengthSteps(Now(), Now(), len, 0);
      WriteLen(len);
      head := head + len + WORD;
    }

    /** mg_queue_next, where its steps do not fail: the length of the message at `offset`, or 0. */
    method Next() returns (len: nat, offset: nat)
      requires FinishConsumer(Now(), CheckEmpty).Consumed? && tail + WORD <= buf.Length && WORD <= buf.Length
      modifies `tail
      ensures FinishConsumer(old(Now()), CheckEmpty) == Consumed(Now(), if len > 0 then Holding(len, []) else Empty)
      ensures offset == tail + WORD
    {
      hide FromLittleEndian, WordAtTail, FinishConsumer, ConsumerStep;
      len := 0;
      CheckSteps(Now());
      if tail != head {
        ghost var m := Now();
        WrapTailSteps(m);
        assert m.buf[m.tail..m.tail + 0] == [];
        ReadSteps(m, 0);
        len := ReadLen();
        if len == 0 {
          tail := 0;
          assert Now().buf[0..0] == [];
          ReadSteps(Now(), 0);
          if head > tail {
            len := ReadLen();
          }
        }
      }
      offset := tail + WORD;
    }

    /** mg_queue_del, with its assert. */
    method Del(len: nat)
      requires tail + len + 2 * WORD <= buf.Length
      modifies `tail
      ensures Delete(old(Now()), len) == Consumed(Now(), Ready)
    {
      tail := tail + len + WORD;
      assert tail + WORD <= buf.Length;
    }
  }
}
