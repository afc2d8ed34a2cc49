/** SessionManager and Session over the connection list of Mongoose: who is alive, and who is told what. */
module Sessions {

  const PONG: nat := 10
  const MAX_HEARTBEAT_SKIPS: int := 5000

  datatype Entry = Entry(id: nat, userName: string)

  datatype Message = SessionId(id: nat) | SessionsChanged(sessions: seq<Entry>) | Heartbeat

  class Connection {
    const id: nat
    var isWebsocket: bool
    var isClosing: bool
    var user: Session? // user_data of the context that fn_data points to

    constructor (id: nat)
      ensures this.id == id && !isWebsocket && !isClosing && user == null
    {
      this.id, isWebsocket, isClosing, user := id, false, false, null;
    }
  }

  class Session {
    const connection: Connection
    var userName: string
    var lastPong: int
    var sent: seq<Message>
    ghost var deleted: bool

    /** The constructor binds the connection to the new session. */
    constructor (c: Connection, now: int)
      modifies c`user
      ensures connection == c && c.user == this && userName == "" && lastPong == now && sent == [] && !deleted
    {
      connection, userName, lastPong, sent, deleted := c, "", now, [], false;
      new;
      c.user := this;
    }

    /** The low 32 bits of the connection's id. */
    function GetId(): nat
    {
      connection.id % 0x1_0000_0000
    }

    method Send(m: Message)
      requires !deleted
      modifies this`sent
      ensures sent == old(sent) + [m]
    {
      sent := sent + [m];
    }

    /** The peer has not answered for too long. */
    ghost predicate Vanished(ms: int)
      reads this`lastPong
    {
      ms > lastPong + 5000
    }

    /** OnTimerEvent: a peer that has not answered for too long is dropped, any other gets a ping. */
    method OnTimerEvent(ms: int)
      requires !deleted
      modifies this`sent, connection`isClosing
      ensures connection.isClosing == (old(connection.isClosing) || Vanished(ms))
      ensures sent == if Vanished(ms) then old(sent) else old(sent) + [Heartbeat]
    {
      if MAX_HEARTBEAT_SKIPS < ms - lastPong {
        connection.isClosing := true;
        return;
      }
      sent := sent + [Heartbeat];
    }
  }

  /** The sessions that Iterate hands out: up to the first connection that is no WebSocket or has no
      session. */
  ghost function Visible(cs: seq<Connection>): (v: seq<Session>)
    reads cs`isWebsocket, cs`user
  {
    if cs == [] || !cs[0].isWebsocket || cs[0].user == null then [] else [cs[0].user] + Visible(cs[1..])
  }

  /** What the others are told of a session: its connection's id, as 32 bits, and the user. */
  ghost function EntryOf(s: Session): Entry
    reads s`userName
  {
    Entry(s.connection.id % 0x1_0000_0000, s.userName)
  }

  ghost function Entries(v: seq<Session>): seq<Entry>
    reads v`userName
  {
    if v == [] then [] else Entries(v[..|v| - 1]) + [EntryOf(v[|v| - 1])]
  }

  /** Each connection is younger than those behind it. */
  ghost predicate Descending(cs: seq<Connection>)
  {
    forall i, j :: 0 <= i < j < |cs| ==> cs[i].id > cs[j].id
  }

  /** The session of a connection in the list is alive, and belongs to that connection. */
  ghost predicate Bound(c: Connection, sessions: set<Session>)
    reads c`user, sessions`deleted
  {
    c.user != null ==> c.user in sessions && !c.user.deleted && c.user.connection == c
  }

  lemma {:induction false} VisibleBound(cs: seq<Connection>, sessions: set<Session>)
    requires forall c <- cs :: Bound(c, sessions)
    ensures |Visible(cs)| <= |cs|
    ensures forall k :: 0 <= k < |Visible(cs)| ==>
              && Visible(cs)[k] in sessions && !Visible(cs)[k].deleted
              && Visible(cs)[k].connection == cs[k] && cs[k].user == Visible(cs)[k]
  {
    if cs != [] && cs[0].isWebsocket && cs[0].user != null {
      assert Bound(cs[0], sessions) && forall c <- cs[1..] :: c in cs;
      VisibleBound(cs[1..], sessions);
    }
  }

  lemma VisibleNext(cs: seq<Connection>, i: nat)
    requires i <= |cs|
    ensures Visible(cs[i..]) == if i == |cs| || !cs[i].isWebsocket || cs[i].user == null then []
                                else [cs[i].user] + Visible(cs[i + 1..])
  {
    if i < |cs| {
      assert cs[i..][1..] == cs[i + 1..];
    }
  }

  /** No session is handed out twice. */
  lemma VisibleOnce(cs: seq<Connection>, sessions: set<Session>)
    requires Descending(cs) && forall c <- cs :: Bound(c, sessions)
    ensures forall i, j :: 0 <= i < j < |Visible(cs)| ==> Visible(cs)[i] != Visible(cs)[j]
  {
    VisibleBound(cs, sessions);
    hide Visible;
    var v := Visible(cs);
    forall i, j | 0 <= i < j < |v|
      ensures v[i] != v[j]
    {
      assert v[i].connection == cs[i] && v[j].connection == cs[j] && cs[i].id > cs[j].id;
    }
  }

  lemma EntriesNext(v: seq<Session>, i: nat)
    requires i < |v|
    ensures Entries(v[..i + 1]) == Entries(v[..i]) + [EntryOf(v[i])] && Entries([]) == []
  {
    assert v[..i + 1][..i] == v[..i];
  }

  /** There is one entry for each session, in their order, with the id of its connection. */
  lemma {:induction false} EntriesAt(v: seq<Session>, k: nat)
    requires k < |v|
    ensures |Entries(v)| == |v|
    ensures Entries(v)[k].userName == v[k].userName && Entries(v)[k].id == v[k].connection.id % 0x1_0000_0000
    decreases |v|
  {
    var front := v[..|v| - 1];
    if front == [] {
      assert Entries(front) == [];
    } else {
      EntriesAt(front, if k < |front| then k else 0);
    }
  }

  lemma OneMore(a: seq<Session>, s: Session, b: seq<Session>)
    ensures a + ([s] + b) == (a + [s]) + b
  {
  }

  class SessionManager {
    var conns: seq<Connection> // m_mgr.conns, the head first
    var nextId: nat // the id of the next connection
    ghost var sessions: set<Session> // every session ever made

    ghost predicate Valid()
      reads this, conns`user, sessions`deleted
    {
      Descending(conns) && forall c <- conns :: c.id < nextId && Bound(c, sessions)
    }

    /** A session that is alive, but no longer that of any connection in the list. */
    ghost predicate Forgotten(s: Session)
      reads this, conns`user, sessions`deleted
    {
      s in sessions && !s.deleted && forall c <- conns :: c.user != s
    }

    /** The listening connection is the first in the list. */
    constructor ()
      ensures Valid() && |conns| == 1 && fresh(conns[0]) && conns[0].user == null && sessions == {}
      ensures conns[0].id == 1 && nextId == 2
    {
      var listener := new Connection(1);
      conns, nextId, sessions := [listener], 2, {};
    }

    /** Iterate, with the sessions that the callback gets as the result: all of them alive, and bound to a
        connection in the list. */
    method Iterate() returns (visited: seq<Session>)
      requires Valid()
      ensures visited == Visible(conns)
      ensures forall s <- visited :: s in sessions && !s.deleted && s.connection in conns && s.connection.user == s
      ensures forall i, j :: 0 <= i < j < |visited| ==> visited[i] != visited[j]
    {
      hide *;
      visited := [];
      var i := 0;
      assert conns[0..] == conns && [] + Visible(conns) == Visible(conns);
      while i < |conns|
        invariant 0 <= i <= |conns| && |visited| == i && Visible(conns) == visited + Visible(conns[i..])
      {
        var c := conns[i];
        VisibleNext(conns, i);
        if !c.isWebsocket {
          break;
        }
        if c.user == null {
          break;
        }
        var session: Session := c.user;
        OneMore(visited, session, Visible(conns[i + 1..]));
        visited := visited + [session];
        i := i + 1;
      }
      VisibleNext(conns, i);
      assert visited + [] == visited;
      VisibleFacts();
    }

    lemma VisibleFacts()
      requires Valid()
      ensures forall s <- Visible(conns) ::
                s in sessions && !s.deleted && s.connection in conns && s.connection.user == s
      ensures forall i, j :: 0 <= i < j < |Visible(conns)| ==> Visible(conns)[i] != Visible(conns)[j]
    {
      VisibleBound(conns, sessions);
      VisibleOnce(conns, sessions);
    }

    /** A new connection comes to the head of the list, with the shared context and an id that none has had. */
    method Accept() returns (c: Connection)
      requires Valid()
      modifies this
      ensures Valid() && fresh(c) && conns == [c] + old(conns) && c.user == null && !c.isWebsocket
      ensures c.id == old(nextId) < nextId && forall d <- old(conns) :: d.id < c.id
      ensures forall s <- old(sessions) :: old(Forgotten(s)) ==> Forgotten(s)
      ensures sessions == old(sessions)
    {
      c := new Connection(nextId);
      conns, nextId := [c] + conns, nextId + 1;
    }

    /** AddSession: a session that the connection is bound to, and its first message. */
    method AddSession(c: Connection, now: int) returns (s: Session)
      requires Valid()
      modifies `sessions, c`user
      ensures Valid() && fresh(s) && c.user == s && s.connection == c
      ensures s.sent == [SessionId(c.id % 0x1_0000_0000)] && (c.id < 0x1_0000_0000 ==> s.sent == [SessionId(c.id)])
      ensures sessions == old(sessions) + {s} && !s.deleted
    {
      s := new Session(c, now);
      sessions := sessions + {s};
      s.Send(SessionId(s.GetId()));
    }

    /** The request for the WebSocket.  Without a key the connection stays what it is, and gets a session all
        the same; when the connection has a session already, that one is not deleted, now or later. */
    method Upgrade(c: Connection, hasKey: bool, now: int) returns (s: Session)
      requires Valid() && c in conns
      modifies `sessions, c`user, c`isWebsocket
      ensures Valid() && fresh(s) && c.user == s && s.connection == c
      ensures s.sent == [SessionId(c.id % 0x1_0000_0000)] && (c.id < 0x1_0000_0000 ==> s.sent == [SessionId(c.id)])
      ensures c.isWebsocket == (old(c.isWebsocket) || hasKey) && sessions == old(sessions) + {s}
      ensures old(c.user) != null ==> Forgotten(old(c.user))
      ensures forall t <- old(sessions) :: old(Forgotten(t)) ==> Forgotten(t)
    {
      if hasKey {
        c.isWebsocket := true;
      }
      assert forall d <- conns :: Bound(d, sessions);
      s := AddSession(c, now);
    }

    /** The timer event of one session, seen on all. */
    method Notify(s: Session, ms: int)
      requires Valid() && s in sessions && !s.deleted && s.connection in conns && s.connection.user == s
      modifies s`sent, s.connection`isClosing
      ensures Valid()
      ensures forall t <- sessions ::
                t.sent == if t == s && !s.Vanished(ms) then old(t.sent) + [Heartbeat] else old(t.sent)
      ensures forall c <- conns :: c.isClosing == (old(c.isClosing) || (c.user == s && s.Vanished(ms)))
    {
      hide Session.Vanished;
      assert forall c <- conns :: c.user == s ==> c == s.connection by {
        assert forall c <- conns :: Bound(c, sessions);
      }
      s.OnTimerEvent(ms);
    }

    /** The timer event has come to the sessions `done`, from the state in which the connections that were closing
        were `closing` and the messages were `sent`. */
    ghost predicate Notified(done: seq<Session>, ms: int, sent: map<Session, seq<Message>>, closing: set<Connection>)
      reads this, sessions, conns, done
    {
      && (forall s <- sessions ::
            s in sent && s.sent == if s in done && !s.Vanished(ms) then sent[s] + [Heartbeat] else sent[s])
      && (forall c <- conns ::
            c.isClosing == (c in closing || (c.user != null && c.user in done && c.user.Vanished(ms))))
    }

    /** The event of one more session. */
    method NotifyNext(s: Session, ms: int, ghost visited: seq<Session>, ghost i: nat,
        ghost sent: map<Session, seq<Message>>, ghost closing: set<Connection>)
      requires Valid() && s in sessions && !s.deleted && s.connection in conns && s.connection.user == s
      requires i < |visited| && s == visited[i] && forall j, k :: 0 <= j < k < |visited| ==> visited[j] != visited[k]
      requires Notified(visited[..i], ms, sent, closing)
      modifies s`sent, s.connection`isClosing
      ensures Valid() && Notified(visited[..i + 1], ms, sent, closing)
    {
      hide Valid, Session.Vanished;
      NewMember(visited, i);
      Notify(s, ms);
    }

    /** timer_event: of the sessions that Iterate reaches, each gets a ping, or its connection is marked for
        closing; all others, and their connections, stay as they are. */
    method TimerEvent(ms: int)
      requires Valid()
      modifies sessions`sent, conns`isClosing
      ensures Valid()
      ensures forall s <- sessions ::
                s.sent == if s in Visible(conns) && !s.Vanished(ms) then old(s.sent) + [Heartbeat] else old(s.sent)
      ensures forall c <- conns ::
                c.isClosing == (old(c.isClosing) || (c.user != null && c.user in Visible(conns) && c.user.Vanished(ms)))
    {
      hide *;
      var visited := Iterate();
      ghost var sent := map s: Session | s in sessions :: s.sent;
      ghost var closing := set c: Connection | c in conns && c.isClosing;
      assert visited[..0] == [] && visited[..|visited|] == visited;
      NoneNotified(ms, sent, closing);
      for i := 0 to |visited|
        invariant Valid() && Notified(visited[..i], ms, sent, closing)
      {
        NotifyNext(visited[i], ms, visited, i, sent, closing);
      }
      AllNotified(visited, ms, sent, closing);
    }

    lemma NoneNotified(ms: int, sent: map<Session, seq<Message>>, closing: set<Connection>)
      requires forall s <- sessions :: s in sent && s.sent == sent[s]
      requires forall c <- conns :: c.isClosing <==> c in closing
      ensures Notified([], ms, sent, closing)
    {
    }

    lemma AllNotified(done: seq<Session>, ms: int, sent: map<Session, seq<Message>>, closing: set<Connection>)
      requires Notified(done, ms, sent, closing)
      ensures forall s <- sessions ::
                s in sent && s.sent == if s in done && !s.Vanished(ms) then sent[s] + [Heartbeat] else sent[s]
      ensures forall c <- conns ::
                c.isClosing == (c in closing || (c.user != null && c.user in done && c.user.Vanished(ms)))
    {
    }

    lemma NewMember(v: seq<Session>, i: nat)
      requires i < |v| && forall j, k :: 0 <= j < k < |v| ==> v[j] != v[k]
      ensures v[i] in v && v[i] !in v[..i] && forall s :: s in v[..i + 1] <==> s in v[..i] || s == v[i]
    {
      assert v[..i + 1] == v[..i] + [v[i]];
    }

    /** MG_EV_WS_CTL: only a pong counts, and only with a session. */
    method Control(c: Connection, op: nat, now: int)
      requires Valid() && c in conns
      modifies sessions
      ensures Valid()
      ensures forall s <- sessions :: s.deleted == old(s.deleted) && s.sent == old(s.sent)
      ensures forall s <- sessions :: s.lastPong == if op == 10 && s == c.user then now else old(s.lastPong)
    {
      if c.user == null {
        return;
      }
      assert Bound(c, sessions);
      if op == PONG {
        c.user.lastPong := now;
      }
    }

    /** UpdateSessionsList: every session that Iterate reaches is told of all of these. */
    method UpdateSessionsList()
      requires Valid()
      modifies sessions`sent
      ensures Valid()
      ensures forall s <- sessions ::
                s.sent == if s in Visible(conns) then old(s.sent) + [SessionsChanged(Entries(Visible(conns)))]
                          else old(s.sent)
    {
      hide Visible, Entries, Descending;
      var visited := Iterate();
      var entries: seq<Entry> := [];
      NoEntries();
      assert visited[..0] == [];
      for i := 0 to |visited|
        modifies {}
        invariant entries == Entries(visited[..i])
      {
        EntriesNext(visited, i);
        entries := entries + [Entry(visited[i].GetId(), visited[i].userName)];
      }
      assert visited[..|visited|] == visited;
      for i := 0 to |visited|
        invariant Valid() && Visible(conns) == visited && entries == Entries(visited)
        invariant forall s <- sessions ::
                    s.sent == if s in visited[..i] then old(s.sent) + [SessionsChanged(entries)] else old(s.sent)
      {
        assert visited[i] !in visited[..i] && visited[..i + 1] == visited[..i] + [visited[i]];
        visited[i].Send(SessionsChanged(entries));
      }
    }

    /** DeleteSession: a session is deleted only while it is alive. */
    method DeleteSession(s: Session)
      requires Valid() && s in sessions && !s.deleted && forall c <- conns :: c.user != s
      modifies s`deleted, sessions`sent
      ensures Valid() && s.deleted
      ensures forall t <- sessions ::
                t.sent == if t in Visible(conns) then old(t.sent) + [SessionsChanged(Entries(Visible(conns)))]
                          else old(t.sent)
    {
      s.deleted := true;
      UpdateSessionsList();
    }

    /** LIST_DELETE: nothing in the list knows the connection or its session any more. */
    method Unlink(k: nat) returns (c: Connection)
      requires Valid() && k < |conns|
      modifies `conns
      ensures c == old(conns[k]) && conns == old(conns[..k] + conns[k + 1..]) && c !in conns
      ensures Valid() && (c.user != null ==> Forgotten(c.user) && c.user.connection == c)
      ensures forall s <- sessions :: old(Forgotten(s)) ==> Forgotten(s)
      ensures forall d <- conns :: d in old(conns)
    {
      c := conns[k];
      Unlinked(conns, k, sessions);
      conns := conns[..k] + conns[k + 1..];
    }

    /** MG_EV_CLOSE for a connection that has left the list: its session, if it has one, is deleted, and the
        others hear of it.  A connection without a session may still hold a request, and get a session from
        it while it is being closed: `late`. */
    method CloseEvent(c: Connection, late: bool, hasKey: bool, now: int)
      requires Valid() && c !in conns && (c.user != null ==> Forgotten(c.user))
      modifies `sessions, c, sessions`deleted, sessions`sent
      ensures Valid() && conns == old(conns)
      ensures forall s <- old(sessions) :: s.deleted == (old(s.deleted) || s == old(c.user))
      ensures old(c.user) != null || !late ==> sessions == old(sessions)
      ensures old(c.user) == null && late ==>
              c.user != null && sessions == old(sessions) + {c.user} && Forgotten(c.user)
      ensures forall s <- old(sessions) ::
                s.sent == if old(c.user) != null && s in Visible(conns)
                          then old(s.sent) + [SessionsChanged(Entries(Visible(conns)))] else old(s.sent)
    {
      hide Visible, Entries;
      if c.user != null {
        var session: Session := c.user;
        DeleteSession(session);
      } else if late {
        if hasKey {
          c.isWebsocket := true;
        }
        var s := AddSession(c, now);
      }
    }

    /** mg_close_conn: first the connection leaves the list, then the event is sent. */
    method Close(k: nat, late: bool, hasKey: bool, now: int)
      requires Valid() && k < |conns|
      modifies this, conns[k], sessions`deleted, sessions`sent
      ensures nextId == old(nextId)
      ensures Valid() && conns == old(conns[..k] + conns[k + 1..]) && old(conns[k]) !in conns
      ensures forall s <- old(sessions) :: s.deleted == (old(s.deleted) || s == old(conns[k].user))
      ensures old(conns[k].user) != null ==> sessions == old(sessions) && !old(conns[k].user.deleted)
      ensures forall s <- old(sessions) :: old(Forgotten(s)) ==> Forgotten(s)
      ensures forall s <- old(sessions) ::
                s.sent == if old(conns[k].user) != null && s in Visible(conns)
                          then old(s.sent) + [SessionsChanged(Entries(Visible(conns)))] else old(s.sent)
    {
      hide Visible, Entries;
      assert Bound(conns[k], sessions);
      var c := Unlink(k);
      CloseEvent(c, late, hasKey, now);
    }

    /** `session` is what is found for `id` among the sessions of `v`: the last one whose connection's id has these
        low 32 bits. */
    ghost predicate LastWith(v: seq<Session>, id: nat, session: Session?)
    {
      if session == null then forall s <- v :: s.connection.id % 0x1_0000_0000 != id
      else exists k :: 0 <= k < |v| && v[k] == session && session.connection.id % 0x1_0000_0000 == id
                       && forall m :: k < m < |v| ==> v[m].connection.id % 0x1_0000_0000 != id
    }

    /** While ids have 32 bits that is the session of the connection with the id, if that is reached. */
    lemma FoundById(id: nat, session: Session?)
      requires Valid() && nextId <= 0x1_0000_0000 && LastWith(Visible(conns), id, session)
      ensures forall c <- conns :: c.user != null && c.user in Visible(conns) && c.id == id ==> session == c.user
      ensures session != null ==> session in Visible(conns) && session.connection.id == id
    {
      VisibleFacts();
      BoundId();
      hide *;
      var v := Visible(conns);
      WholeIds(v, id, session);
      forall c | c in conns && c.user != null && c.user in v && c.id == id
        ensures session == c.user
      {
        OneWithId(conns, session.connection, c);
      }
    }

    lemma BoundId()
      requires Valid()
      ensures Descending(conns) && forall c <- conns :: c.id < nextId && (c.user != null ==> c.user.connection == c)
    {
      assert forall c <- conns :: Bound(c, sessions);
    }

    lemma WholeIds(v: seq<Session>, id: nat, session: Session?)
      requires LastWith(v, id, session) && forall s <- v :: s.connection.id < 0x1_0000_0000
      ensures if session == null then forall s <- v :: s.connection.id != id
              else session in v && session.connection.id == id
    {
    }

    /** GetSessionById: of the sessions that Iterate reaches, the last one with the id. */
    method GetSessionById(id: nat) returns (session: Session?)
      requires Valid()
      ensures LastWith(Visible(conns), id, session)
      ensures nextId <= 0x1_0000_0000 ==>
                && (forall c <- conns :: c.user != null && c.user in Visible(conns) && c.id == id ==> session == c.user)
                && (session != null ==> session in Visible(conns) && session.connection.id == id)
    {
      hide Visible, Valid;
      session := null;
      var visited := Iterate();
      ghost var at := -1;
      for i := 0 to |visited|
        invariant session == null ==> forall m :: 0 <= m < i ==> visited[m].connection.id % 0x1_0000_0000 != id
        invariant session != null ==>
                    && 0 <= at < i && visited[at] == session && session.connection.id % 0x1_0000_0000 == id
                    && forall m :: at < m < i ==> visited[m].connection.id % 0x1_0000_0000 != id
      {
        if visited[i].GetId() == id {
          session, at := visited[i], i;
        }
      }
      if nextId <= 0x1_0000_0000 {
        FoundById(id, session);
      }
    }
  }

  lemma OneWithId(cs: seq<Connection>, c: Connection, d: Connection)
    requires Descending(cs) && c in cs && d in cs && c.id == d.id
    ensures c == d
  {
    var i :| 0 <= i < |cs| && cs[i] == c;
    var j :| 0 <= j < |cs| && cs[j] == d;
  }

  lemma NoEntries()
    ensures Entries([]) == []
  {
  }

  /** Once a connection is out of the list its session is no other connection's. */
  lemma Unlinked(cs: seq<Connection>, k: nat, sessions: set<Session>)
    requires Descending(cs) && k < |cs| && forall c <- cs :: Bound(c, sessions)
    ensures Bound(cs[k], sessions)
    ensures var rest := cs[..k] + cs[k + 1..];
            && Descending(rest) && cs[k] !in rest
            && forall c <- rest :: c in cs && Bound(c, sessions) && (c.user == null || c.user != cs[k].user)
  {
    var rest := cs[..k] + cs[k + 1..];
    assert cs[k] in cs;
    forall c | c in rest
      ensures c in cs && Bound(c, sessions) && (c.user == null || c.user != cs[k].user)
    {
      var i :| 0 <= i < |rest| && rest[i] == c;
      assert c == cs[if i < k then i else i + 1];
    }
  }
}
