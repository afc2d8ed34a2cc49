/** Patterns of literals and '*': mg_match tests for '/' at the place of the mismatch, and not at the byte that
    the star takes.  Exactly which of these patterns get the right answer all the same. */
module MatchStars {
  import opened Bytes
  import opened Match

  /** Literals and '*' only. */
  predicate Plain(p: seq<byte>)
  {
    HASH !in p && ANY !in p
  }

  /** A '*' has no '/' behind it, but for the one in "/" followed by another '*'. */
  predicate SlashSafe(p: seq<byte>)
  {
    forall k :: 0 <= k < |p| - 1 && p[k] == STAR && p[k + 1] == SLASH ==> k + 2 < |p| && p[k + 2] == STAR
  }

  // ----- patterns that are safe -----

  /** What a star matches ends somewhere. */
  lemma {:induction false} StarStops(p: seq<byte>, i: nat, s: seq<byte>, j: nat) returns (k: nat)
    requires i < |p| && j <= |s| && p[i] == STAR && Rest(p, i, s, j)
    ensures j <= k <= |s| && NoSlash(s, j, k) && Rest(p, i + 1, s, k)
    decreases |s| - j
  {
    if Rest(p, i + 1, s, j) {
      k := j;
    } else {
      k := StarStops(p, i, s, j + 1);
    }
  }

  /** The `n` literals of the pattern from `i` on stand in the subject at `j`. */
  predicate Stands(p: seq<byte>, i: nat, s: seq<byte>, j: nat, n: nat)
  {
    i + n <= |p| && j + n <= |s| && forall k :: i <= k < i + n ==> p[k] == s[j + (k - i)]
  }

  lemma {:induction false} LiteralsStand(p: seq<byte>, i: nat, s: seq<byte>, j: nat, n: nat)
    requires Plain(p) && i + n <= |p| && j <= |s| && Rest(p, i, s, j)
    requires forall k :: i <= k < i + n ==> p[k] != STAR
    ensures Stands(p, i, s, j, n) && Rest(p, i + n, s, j + n)
    decreases n
  {
    if n > 0 {
      LiteralsStand(p, i + 1, s, j + 1, n - 1);
    }
  }

  /** The same literals at `a` and, further on, at `b`: when there is no slash from `a` to `b`, there is none in
      those at `b` either. */
  lemma {:induction false} NoSlashTwice(p: seq<byte>, i: nat, s: seq<byte>, a: nat, b: nat, n: nat)
    requires a < b && Stands(p, i, s, a, n) && Stands(p, i, s, b, n) && NoSlash(s, a, b)
    ensures NoSlash(s, a, b + n)
    decreases n
  {
    if n > 0 {
      NoSlashTwice(p, i, s, a, b, n - 1);
      var k := i + n - 1;
      assert s[b + (k - i)] == p[k] == s[a + (k - i)];
    }
  }

  /** Behind the remembered star the literals of the pattern stand in the subject. */
  predicate Followed(p: seq<byte>, s: seq<byte>, st: State)
  {
    st.nj > 0 && st.i > st.ni ==>
      st.j == st.nj - 1 + (st.i - st.ni - 1) && Stands(p, st.ni + 1, s, st.nj - 1, st.i - st.ni - 1)
  }

  /** The star may take one byte more, and then the rest matches. */
  predicate Later(p: seq<byte>, s: seq<byte>, st: State)
    requires Inside(p, s, st)
  {
    0 < st.nj <= |s| && s[st.nj - 1] != SLASH && Rest(p, st.ni, s, st.nj)
  }

  ghost predicate Covered(p: seq<byte>, s: seq<byte>, st: State)
    requires Inside(p, s, st)
  {
    Rest(p, 0, s, 0) <==> Rest(p, st.i, s, st.j) || Later(p, s, st)
  }

  ghost predicate Good(p: seq<byte>, s: seq<byte>, st: State)
  {
    Inside(p, s, st) && InStep(p, st) && Followed(p, s, st) && Covered(p, s, st)
  }

  /** A match with the star taking more: it takes no slash, and the literals stand behind that as well. */
  lemma LaterMatch(p: seq<byte>, s: seq<byte>, st: State, n: nat) returns (b: nat)
    requires Plain(p) && Inside(p, s, st) && InStep(p, st) && Followed(p, s, st) && Later(p, s, st) && st.i > st.ni
    requires n <= st.i - st.ni - 1
    ensures st.nj <= b <= |s| && NoSlash(s, st.nj - 1, b)
    ensures b + n <= |s| && Rest(p, st.ni + 1 + n, s, b + n) && NoSlash(s, st.nj - 1, b + n)
  {
    assert p[st.ni] == STAR;
    b := StarStops(p, st.ni, s, st.nj);
    assert NoSlash(s, st.nj - 1, b);
    LiteralsStand(p, st.ni + 1, s, b, n);
    assert Stands(p, st.ni + 1, s, st.nj - 1, n);
    NoSlashTwice(p, st.ni + 1, s, st.nj - 1, b, n);
  }

  /** At the next star the one before can be forgotten. */
  lemma StarForgotten(p: seq<byte>, s: seq<byte>, st: State)
    requires Plain(p) && Inside(p, s, st) && InStep(p, st) && Followed(p, s, st) && Later(p, s, st)
    requires st.ni < st.i < |p| && p[st.i] == STAR
    ensures Rest(p, st.i, s, st.j)
  {
    var n := st.i - st.ni - 1;
    var b := LaterMatch(p, s, st, n);
    assert NoSlash(s, st.j, b + n);
    Widen(p, st.i, s, st.j, b + n);
  }

  /** A mismatch at a slash, or at the end of the subject, leaves no match. */
  lemma NoneLater(p: seq<byte>, s: seq<byte>, st: State)
    requires Plain(p) && Inside(p, s, st) && InStep(p, st) && Followed(p, s, st) && st.i > st.ni && st.nj > 0
    requires st.j < |s| ==> s[st.j] == SLASH
    ensures !Later(p, s, st)
  {
    if Later(p, s, st) {
      var n := st.i - st.ni - 1;
      var b := LaterMatch(p, s, st, n);
    }
  }

  /** With nothing left of the subject no star can help. */
  lemma NoneAtEnd(p: seq<byte>, s: seq<byte>, st: State)
    requires Plain(p) && Inside(p, s, st) && InStep(p, st) && Followed(p, s, st) && st.i > st.ni && 0 < st.nj <= |s|
    requires st.j == |s|
    ensures !Rest(p, st.ni, s, st.nj)
  {
    if Rest(p, st.ni, s, st.nj) {
      assert p[st.ni] == STAR;
      var b := StarStops(p, st.ni, s, st.nj);
      LiteralsStand(p, st.ni + 1, s, b, st.i - st.ni - 1);
    }
  }

  lemma StarBehind(p: seq<byte>, k: nat)
    requires SlashSafe(p) && k + 1 < |p| && p[k] == STAR && p[k + 1] == SLASH
    ensures k + 2 < |p| && p[k + 2] == STAR
  {
  }

  /** The byte that the star takes next is no slash: it is the one just looked at, or stands for a literal that
      is none. */
  lemma TakenIsNoSlash(p: seq<byte>, s: seq<byte>, st: State)
    requires Plain(p) && SlashSafe(p) && Inside(p, s, st) && InStep(p, st) && Followed(p, s, st)
    requires st.i > st.ni && 0 < st.nj && st.j < |s| && s[st.j] != SLASH && (st.i < |p| ==> p[st.i] != STAR)
    ensures s[st.nj - 1] != SLASH
  {
    if st.i > st.ni + 1 {
      var k := st.ni + 1;
      assert p[k] == s[st.nj - 1 + (k - k)];
      assert p[st.ni] == STAR;
      if p[k] == SLASH {
        StarBehind(p, st.ni);
      }
    }
  }

  /** The elements at the two places do not match. */
  predicate Mismatch(p: seq<byte>, s: seq<byte>, st: State)
  {
    st.i < |p| ==> p[st.i] != STAR && (st.j < |s| ==> s[st.j] != p[st.i])
  }

  lemma NotFromHere(p: seq<byte>, s: seq<byte>, st: State)
    requires Plain(p) && Inside(p, s, st) && Mismatch(p, s, st) && (st.i < |p| || st.j < |s|)
    ensures !Rest(p, st.i, s, st.j)
  {
  }

  /** Going back to the star, with one byte more for it. */
  lemma BackGood(p: seq<byte>, s: seq<byte>, past: byte, st: State)
    requires Plain(p) && SlashSafe(p) && Good(p, s, st) && Mismatch(p, s, st) && (st.i < |p| || st.j < |s|)
    requires 0 < st.nj <= |s| && (if st.j < |s| then s[st.j] else past) != SLASH
    ensures Good(p, s, State(st.ni, st.nj, st.ni, st.nj))
  {
    NotFromHere(p, s, st);
    assert st.i > st.ni;
    if st.j < |s| {
      TakenIsNoSlash(p, s, st);
    } else {
      NoneAtEnd(p, s, st);
    }
    hide Rest;
  }

  /** Giving up. */
  lemma EndRight(p: seq<byte>, s: seq<byte>, past: byte, st: State)
    requires Plain(p) && Good(p, s, st) && Mismatch(p, s, st) && (st.i < |p| || st.j < |s|)
    requires st.nj == 0 || st.nj > |s| || (if st.j < |s| then s[st.j] else past) == SLASH
    ensures !Rest(p, 0, s, 0)
  {
    NotFromHere(p, s, st);
    if 0 < st.nj <= |s| {
      assert st.i > st.ni;
      NoneLater(p, s, st);
    }
  }

  lemma StarGood(p: seq<byte>, s: seq<byte>, st: State)
    requires Plain(p) && Good(p, s, st) && st.i < |p| && p[st.i] == STAR
    ensures Good(p, s, State(st.i + 1, st.j, st.i, st.j + 1))
  {
    if Later(p, s, st) && st.i > st.ni {
      StarForgotten(p, s, st);
    }
  }

  lemma LiteralGood(p: seq<byte>, s: seq<byte>, st: State)
    requires Plain(p) && Good(p, s, st) && st.i < |p| && st.j < |s| && p[st.i] == s[st.j] != STAR
    ensures Good(p, s, State(st.i + 1, st.j + 1, st.ni, st.nj))
  {
    assert Rest(p, st.i, s, st.j) == Rest(p, st.i + 1, s, st.j + 1);
    hide Rest;
  }

  lemma StepGood(p: seq<byte>, s: seq<byte>, past: byte, st: State)
    requires Plain(p) && SlashSafe(p) && STAR !in s && Good(p, s, st)
    ensures var out := Step(p, s, past, st);
            (out.Go? ==> Good(p, s, out.next)) && (out.Done? ==> (out.matches <==> Rest(p, 0, s, 0)))
  {
    hide Good, Rest;
    GoodInside(p, s, st);
    var State(i, j, ni, nj) := st;
    if i == |p| && j == |s| {
      AtBothEnds(p, s, st);
    } else if i < |p| && j < |s| && s[j] == p[i] {
      LiteralGood(p, s, st);
    } else if i < |p| && p[i] == STAR {
      StarGood(p, s, st);
    } else if 0 < nj <= |s| && (if j < |s| then s[j] else past) != SLASH {
      BackGood(p, s, past, st);
    } else {
      EndRight(p, s, past, st);
    }
  }

  lemma GoodInside(p: seq<byte>, s: seq<byte>, st: State)
    requires Good(p, s, st)
    ensures Inside(p, s, st) && InStep(p, st)
  {
  }

  lemma AtBothEnds(p: seq<byte>, s: seq<byte>, st: State)
    requires Good(p, s, st) && st.i == |p| && st.j == |s|
    ensures Rest(p, 0, s, 0)
  {
  }

  /** The loop ends, and with the right answer. */
  lemma {:induction false} RunsRight(p: seq<byte>, s: seq<byte>, past: byte, n: nat, st: State) returns (m: nat)
    requires Plain(p) && SlashSafe(p) && STAR !in s && After(p, s, past, n) == Go(st) && Good(p, s, st)
    ensures After(p, s, past, m) == Done(Rest(p, 0, s, 0))
    decreases |s| + 1 - st.nj, |p| - st.ni, if st.nj > 0 && st.i == st.ni && st.j == st.nj then 0 else 1 + |p| - st.i
  {
    var out := Step(p, s, past, st);
    assert After(p, s, past, n + 1) == out;
    StepGood(p, s, past, st);
    hide After, Rest, Step, Covered, Followed;
    if out.Go? {
      StepProgresses(p, s, past, st);
      m := RunsRight(p, s, past, n + 1, out.next);
    } else {
      m := n + 1;
    }
  }

  lemma SafeDecides(p: seq<byte>, s: seq<byte>, past: byte)
    requires Plain(p) && SlashSafe(p) && STAR !in s
    ensures Decides(p, s, past)
  {
    GlobIsRest(p, s);
    assert After(p, s, past, 0) == Go(START);
    var m := RunsRight(p, s, past, 0, START);
  }

  // ----- patterns that are not -----

  /** The pattern without its stars: a text that it matches. */
  function Stripped(p: seq<byte>): seq<byte>
  {
    if p == [] then [] else (if p[0] == STAR then [] else [p[0]]) + Stripped(p[1..])
  }

  function Slashes(s: seq<byte>): nat
  {
    if s == [] then 0 else (if s[0] == SLASH then 1 else 0) + Slashes(s[1..])
  }

  lemma {:induction false} SlashesAdd(a: seq<byte>, b: seq<byte>)
    ensures Slashes(a + b) == Slashes(a) + Slashes(b)
  {
    if a == [] {
      assert a + b == b;
    } else {
      assert (a + b)[1..] == a[1..] + b;
      SlashesAdd(a[1..], b);
    }
  }

  lemma {:induction false} StrippedFacts(p: seq<byte>)
    ensures Slashes(Stripped(p)) == Slashes(p) && STAR !in Stripped(p)
  {
    if p != [] {
      StrippedFacts(p[1..]);
      SlashesAdd(if p[0] == STAR then [] else [p[0]], Stripped(p[1..]));
      assert Slashes([p[0]]) == (if p[0] == SLASH then 1 else 0) + Slashes([]);
    }
  }

  /** A match has a slash for every slash of the pattern, and no others. */
  lemma {:induction false} SlashesMatch(p: seq<byte>, i: nat, s: seq<byte>, j: nat)
    requires Plain(p) && i <= |p| && j <= |s| && Rest(p, i, s, j)
    ensures Slashes(p[i..]) == Slashes(s[j..])
    decreases |p| - i, |s| - j
  {
    if i < |p| {
      assert p[i..][1..] == p[i + 1..];
      if p[i] == STAR {
        if Rest(p, i + 1, s, j) {
          SlashesMatch(p, i + 1, s, j);
        } else {
          assert s[j..][1..] == s[j + 1..];
          SlashesMatch(p, i, s, j + 1);
        }
      } else {
        assert s[j..][1..] == s[j + 1..];
        SlashesMatch(p, i + 1, s, j + 1);
      }
    }
  }

  /** The subject goes on like the pattern, up to element `e`, without its stars. */
  predicate OnTrack(p: seq<byte>, s: seq<byte>, st: State, e: nat)
  {
    && st.i <= e <= |p| && st.j + |Stripped(p[st.i..e])| <= |s|
    && s[st.j..st.j + |Stripped(p[st.i..e])|] == Stripped(p[st.i..e])
  }

  lemma StaysOnTrack(p: seq<byte>, s: seq<byte>, past: byte, st: State, e: nat)
    requires Plain(p) && STAR !in s && OnTrack(p, s, st, e) && st.i < e && Inside(p, s, st)
    ensures var out := Step(p, s, past, st);
            && out.Go? && out.next.i == st.i + 1 && OnTrack(p, s, out.next, e)
            && out.next.j + |Stripped(p[out.next.i..e])| == st.j + |Stripped(p[st.i..e])|
  {
    var rest, text := p[st.i + 1..e], Stripped(p[st.i..e]);
    assert p[st.i..e][1..] == rest && p[st.i..e][0] == p[st.i];
    if p[st.i] == STAR {
      assert text == Stripped(rest);
    } else {
      assert text == [p[st.i]] + Stripped(rest);
      assert s[st.j] == s[st.j..st.j + |text|][0] == p[st.i];
      assert s[st.j + 1..st.j + |text|] == s[st.j..st.j + |text|][1..];
    }
  }

  /** Then the loop follows it. */
  lemma {:induction false} Follows(p: seq<byte>, s: seq<byte>, past: byte, n: nat, st: State, e: nat)
    returns (m: nat, end: State)
    requires Plain(p) && STAR !in s && After(p, s, past, n) == Go(st) && OnTrack(p, s, st, e)
    ensures After(p, s, past, m) == Go(end) && end.i == e && end.j == st.j + |Stripped(p[st.i..e])|
    decreases e - st.i
  {
    if st.i == e {
      m, end := n, st;
    } else {
      var next := Step(p, s, past, st);
      StaysOnTrack(p, s, past, st, e);
      assert After(p, s, past, n + 1) == next;
      hide OnTrack, Step, After, Stripped, Plain;
      m, end := Follows(p, s, past, n + 1, next.next, e);
    }
  }

  /** Another letter than the one that the pattern has there, if any. */
  function Other(v: seq<byte>): byte
  {
    if v != [] && v[0] == 97 then 98 else 97
  }

  /** With one slash more than the pattern, in the place of its star. */
  function Crossing(p: seq<byte>, k: nat): seq<byte>
    requires k + 1 < |p|
  {
    Stripped(p[..k]) + [SLASH, Other(p[k + 2..]), SLASH] + Stripped(p[k + 2..])
  }

  /** A star and a slash, and then neither a star nor nothing at all that goes on: the star takes a slash. */
  lemma Crosses(p: seq<byte>, s: seq<byte>, past: byte, k: nat) returns (m: nat)
    requires Plain(p) && k + 1 < |p| && p[k] == STAR && p[k + 1] == SLASH && (k + 2 < |p| ==> p[k + 2] != STAR)
    requires s == Crossing(p, k) && STAR !in s
    ensures After(p, s, past, m) == Done(true)
  {
    hide *;
    var j, v := |Stripped(p[..k])|, p[k + 2..];
    CrossingParts(p, k);
    AfterStart(p, s, past);
    assert p[0..k] == p[..k] && s[0..0 + j] == s[..j];
    TrackUnfold(p, s, START, k);
    var n, st := Follows(p, s, past, 0, START, k);
    StarAt(p, s, past, n, st, k, j);
    assert p[k + 2..|p|] == v && s[j + 3..j + 3 + |Stripped(v)|] == s[j + 3..];
    TrackUnfold(p, s, State(k + 2, j + 3, k, j + 3), |p|);
    var end;
    m, end := Follows(p, s, past, n + 7, State(k + 2, j + 3, k, j + 3), |p|);
    AtEnd(p, s, past, m, end);
    m := m + 1;
  }

  lemma TrackUnfold(p: seq<byte>, s: seq<byte>, st: State, e: nat)
    requires st.i <= e <= |p| && st.j + |Stripped(p[st.i..e])| <= |s|
    requires s[st.j..st.j + |Stripped(p[st.i..e])|] == Stripped(p[st.i..e])
    ensures OnTrack(p, s, st, e)
  {
  }

  lemma AfterStart(p: seq<byte>, s: seq<byte>, past: byte)
    ensures After(p, s, past, 0) == Go(START) && START.i == START.j == 0
  {
  }

  lemma AtEnd(p: seq<byte>, s: seq<byte>, past: byte, n: nat, st: State)
    requires After(p, s, past, n) == Go(st) && st.i == |p| && st.j == |s|
    ensures After(p, s, past, n + 1) == Done(true)
  {
  }

  lemma CrossingParts(p: seq<byte>, k: nat)
    requires k + 1 < |p|
    ensures var s, j, v := Crossing(p, k), |Stripped(p[..k])|, p[k + 2..];
            && |s| == j + 3 + |Stripped(v)| && s[..j] == Stripped(p[..k]) && s[j + 3..] == Stripped(v)
            && s[j] == SLASH == s[j + 2] && s[j + 1] != SLASH && (k + 2 < |p| ==> s[j + 1] != p[k + 2])
  {
    hide Stripped;
    assert k + 2 < |p| ==> p[k + 2] == p[k + 2..][0];
  }

  /** The seven turns in which it does. */
  lemma StarAt(p: seq<byte>, s: seq<byte>, past: byte, n: nat, st: State, k: nat, j: nat)
    requires Plain(p) && STAR !in s && After(p, s, past, n) == Go(st) && st.i == k && st.j == j
    requires k + 1 < |p| && p[k] == STAR && p[k + 1] == SLASH && j + 2 < |s|
    requires s[j] == SLASH == s[j + 2] && s[j + 1] != SLASH
    requires k + 2 < |p| ==> p[k + 2] != STAR && p[k + 2] != s[j + 1]
    ensures After(p, s, past, n + 7) == Go(State(k + 2, j + 3, k, j + 3))
  {
    assert After(p, s, past, n + 1) == Go(State(k + 1, j, k, j + 1));
    assert After(p, s, past, n + 2) == Go(State(k + 2, j + 1, k, j + 1));
    assert After(p, s, past, n + 3) == Go(State(k, j + 1, k, j + 1));
    assert After(p, s, past, n + 4) == Go(State(k + 1, j + 1, k, j + 2));
    assert After(p, s, past, n + 5) == Go(State(k, j + 2, k, j + 2));
    assert After(p, s, past, n + 6) == Go(State(k + 1, j + 2, k, j + 3));
  }

  lemma CrossingSlashes(p: seq<byte>, k: nat)
    requires k + 1 < |p| && p[k] == STAR && p[k + 1] == SLASH
    ensures Slashes(Crossing(p, k)) == Slashes(p) + 1 && STAR !in Crossing(p, k)
  {
    hide *;
    var a, v, x := p[..k], p[k + 2..], Other(p[k + 2..]);
    CrossingShape(p, k);
    SlashesAdd(a + [STAR, SLASH], v);
    SlashesAdd(a, [STAR, SLASH]);
    SlashesAdd(Stripped(a) + [SLASH, x, SLASH], Stripped(v));
    SlashesAdd(Stripped(a), [SLASH, x, SLASH]);
    StrippedFacts(a);
    StrippedFacts(v);
    FewSlashes(x);
  }

  lemma CrossingShape(p: seq<byte>, k: nat)
    requires k + 1 < |p| && p[k] == STAR && p[k + 1] == SLASH
    ensures var a, v, x := p[..k], p[k + 2..], Other(p[k + 2..]);
            && p == a + [STAR, SLASH] + v && Crossing(p, k) == Stripped(a) + [SLASH, x, SLASH] + Stripped(v)
            && x != SLASH && (STAR !in Stripped(a) && STAR !in Stripped(v) ==> STAR !in Crossing(p, k))
  {
    hide Stripped;
  }

  lemma FewSlashes(x: byte)
    requires x != SLASH
    ensures Slashes([STAR, SLASH]) == 1 && Slashes([SLASH, x, SLASH]) == 2
  {
    assert [SLASH][1..] == [] && Slashes([SLASH]) == 1 + Slashes([]);
    assert [STAR, SLASH][1..] == [SLASH] && [x, SLASH][1..] == [SLASH] && Slashes([x, SLASH]) == 1;
    assert [SLASH, x, SLASH][1..] == [x, SLASH];
  }

  /** The match that is reported is none. */
  lemma NotSafeFails(p: seq<byte>, past: byte, k: nat) returns (s: seq<byte>)
    requires Plain(p) && k + 1 < |p| && p[k] == STAR && p[k + 1] == SLASH && (k + 2 < |p| ==> p[k + 2] != STAR)
    ensures STAR !in s && !Decides(p, s, past)
  {
    s := Crossing(p, k);
    CrossingSlashes(p, k);
    var m := Crosses(p, s, past, k);
    GlobIsRest(p, s);
    if Rest(p, 0, s, 0) {
      assert p[0..] == p && s[0..] == s;
      SlashesMatch(p, 0, s, 0);
    }
    Undecided(p, s, past, m);
  }

  /** A pattern of literals and '*' gets the right answer for every subject without '*' exactly when no '*' has a
      slash behind it, but for one between two stars. */
  lemma SafeStarPatterns(p: seq<byte>, past: byte)
    requires Plain(p)
    ensures (forall s :: STAR !in s ==> Decides(p, s, past)) <==> SlashSafe(p)
  {
    hide Decides, Plain;
    if SlashSafe(p) {
      forall s: seq<byte> | STAR !in s
        ensures Decides(p, s, past)
      {
        SafeDecides(p, s, past);
      }
    } else {
      var k :| 0 <= k < |p| - 1 && p[k] == STAR && p[k + 1] == SLASH && !(k + 2 < |p| && p[k + 2] == STAR);
      var s := NotSafeFails(p, past, k);
    }
  }

  // ----- subjects -----

  /** The pattern with '#' for every '*'. */
  function Hashed(p: seq<byte>): (q: seq<byte>)
    ensures |q| == |p| && STAR !in q
  {
    seq(|p|, i requires 0 <= i < |p| => if p[i] == STAR then HASH else p[i])
  }

  /** Without a slash in the subject they mean the same. */
  lemma {:induction false} HashedRest(p: seq<byte>, i: nat, s: seq<byte>, j: nat)
    requires SLASH !in s && i <= |p| && j <= |s|
    ensures Rest(p, i, s, j) <==> Rest(Hashed(p), i, s, j)
    decreases |p| - i, |s| - j
  {
    if i < |p| {
      HashedRest(p, i + 1, s, j);
      if j < |s| {
        HashedRest(p, i, s, j + 1);
        HashedRest(p, i + 1, s, j + 1);
      }
    }
  }

  /** At the end of the subject a star is of no use, so nothing is lost when the code gives up there. */
  lemma HashNoneAtEnd(p: seq<byte>, s: seq<byte>, st: State)
    requires STAR !in p && Inside(p, s, st) && InStep(p, st) && 0 < st.nj <= |s| && st.j == |s|
    requires st.i > st.ni
    ensures !Rest(p, st.ni, s, st.nj)
  {
    if Rest(p, st.ni, s, st.nj) {
      var k := StarEnds(p, st.ni, s, st.nj);
      Ahead(p, st.ni + 1, s, k, st.i - st.ni - 1);
    }
  }

  /** A step, seen as one for the pattern with '#' for '*'. */
  lemma HashedStep(p: seq<byte>, s: seq<byte>, past: byte, st: State)
    requires SLASH !in s && HASH !in s && STAR !in s
    requires Inside(p, s, st) && InStep(p, st) && Covers(Hashed(p), s, st)
    ensures var out := Step(p, s, past, st);
            && (out.Go? ==> Covers(Hashed(p), s, out.next))
            && (out.Done? ==> (out.matches <==> Rest(Hashed(p), 0, s, 0)))
  {
    var q := Hashed(p);
    if Step(p, s, past, st) == Step(q, s, past, st) {
      StepCovers(q, s, past, st);
    } else {
      HashNoneAtEnd(q, s, st);
    }
  }

  lemma {:induction false} HashedRun(p: seq<byte>, s: seq<byte>, past: byte, n: nat, st: State) returns (m: nat)
    requires SLASH !in s && HASH !in s && STAR !in s
    requires After(p, s, past, n) == Go(st) && Inside(p, s, st) && InStep(p, st) && Covers(Hashed(p), s, st)
    ensures After(p, s, past, m) == Done(Rest(Hashed(p), 0, s, 0))
    decreases |s| + 1 - st.nj, |p| - st.ni, if st.nj > 0 && st.i == st.ni && st.j == st.nj then 0 else 1 + |p| - st.i
  {
    var out := Step(p, s, past, st);
    assert After(p, s, past, n + 1) == out;
    HashedStep(p, s, past, st);
    hide After, Covers, Rest, Step, Hashed;
    if out.Go? {
      StepProgresses(p, s, past, st);
      m := HashedRun(p, s, past, n + 1, out.next);
    } else {
      m := n + 1;
    }
  }

  lemma SlashFreeDecides(p: seq<byte>, s: seq<byte>, past: byte)
    requires SLASH !in s && HASH !in s && STAR !in s
    ensures Decides(p, s, past)
  {
    GlobIsRest(p, s);
    HashedRest(p, 0, s, 0);
    assert After(p, s, past, 0) == Go(START);
    var m := HashedRun(p, s, past, 0, START);
  }

  /** Any bytes. */
  function Anys(n: nat): (p: seq<byte>)
    ensures |p| == n
  {
    seq(n, _ => ANY)
  }

  lemma {:induction false} AnysMatch(p: seq<byte>, i: nat, s: seq<byte>, j: nat)
    requires i <= |p| && j <= |s| && |p| - i == |s| - j && forall k :: i <= k < |p| ==> p[k] == ANY
    ensures Rest(p, i, s, j)
    decreases |p| - i
  {
    if i < |p| {
      AnysMatch(p, i + 1, s, j + 1);
    }
  }

  /** A '*' in the subject is taken for the star itself. */
  lemma StarInSubject(s: seq<byte>, past: byte, k: nat) returns (p: seq<byte>)
    requires k < |s| && s[k] == STAR
    ensures !Decides(p, s, past)
  {
    p := Anys(k) + [STAR] + Anys(|s| - k);
    InStepRun(p, s, past, |s|);
    AnysMatch(p, k + 1, s, k);
    LiteralRest(p, 0, s, k);
    GlobIsRest(p, s);
    hide Rest;
    assert After(p, s, past, |s| + 1) == Step(p, s, past, State(|s|, |s|, 0, 0)) == Done(false);
    Undecided(p, s, past, |s| + 1);
  }

  lemma {:induction false} HashStarRun(s: seq<byte>, past: byte, j: nat)
    requires HASH !in s && STAR !in s && j < |s| && NoSlash(s, 0, j)
    ensures After([HASH, STAR], s, past, 2 + 2 * j) == Go(State(2, j, 1, j + 1))
  {
    var p := [HASH, STAR];
    if j == 0 {
      assert After(p, s, past, 0) == Go(START);
      assert After(p, s, past, 1) == Go(State(1, 0, 0, 1));
    } else {
      HashStarRun(s, past, j - 1);
      assert After(p, s, past, 2 * j + 1) == Go(State(1, j, 1, j));
    }
  }

  lemma {:induction false} FirstSlash(s: seq<byte>, n: nat) returns (j: nat)
    requires n <= |s| && SLASH in s[..n]
    ensures j < n && s[j] == SLASH && NoSlash(s, 0, j)
  {
    if SLASH in s[..n - 1] {
      j := FirstSlash(s, n - 1);
    } else {
      j := n - 1;
      assert forall k :: 0 <= k < j ==> s[k] == s[..n - 1][k];
      assert s[..n] == s[..n - 1] + [s[n - 1]];
    }
  }

  /** "#*" matches everything; but the second star is all that is remembered, and it stops at a slash. */
  lemma SlashInSubject(s: seq<byte>, past: byte)
    requires SLASH in s && HASH !in s && STAR !in s
    ensures !Decides([HASH, STAR], s, past)
  {
    var p := [HASH, STAR];
    assert s[..|s|] == s;
    var j := FirstSlash(s, |s|);
    HashStarRun(s, past, j);
    assert After(p, s, past, 3 + 2 * j) == Done(false);
    assert Rest(p, 2, s, |s|) && Rest(p, 1, s, |s|);
    Widen(p, 0, s, 0, |s|);
    GlobIsRest(p, s);
    Undecided(p, s, past, 3 + 2 * j);
  }

  /** A subject gets the right answer for every pattern exactly when it has neither a star nor a slash. */
  lemma SafeForAllPatterns(s: seq<byte>, past: byte)
    ensures (forall p :: Decides(p, s, past)) <==> HASH !in s && STAR !in s && SLASH !in s
  {
    hide Decides;
    if HASH in s {
      var p := SubjectFails(s, past);
    } else if STAR in s {
      var k :| 0 <= k < |s| && s[k] == STAR;
      var p := StarInSubject(s, past, k);
    } else if SLASH in s {
      SlashInSubject(s, past);
    } else {
      forall p: seq<byte>
        ensures Decides(p, s, past)
      {
        SlashFreeDecides(p, s, past);
      }
    }
  }

  /** "*?" against "/a": the star takes the slash. */
  lemma StarThenAny(past: byte)
    ensures !Glob([STAR, ANY], [SLASH, 97]) && After([STAR, ANY], [SLASH, 97], past, 6) == Done(true)
  {
    var p, s: seq<byte> := [STAR, ANY], [SLASH, 97];
    GlobIsRest(p, s);
    assert !Rest(p, 2, s, 1) && !Rest(p, 1, s, 0);
    assert After(p, s, past, 0) == Go(START);
    assert After(p, s, past, 1) == Go(State(1, 0, 0, 1));
    assert After(p, s, past, 2) == Go(State(2, 1, 0, 1));
    assert After(p, s, past, 3) == Go(State(0, 1, 0, 1));
    assert After(p, s, past, 4) == Go(State(1, 1, 0, 2));
    assert After(p, s, past, 5) == Go(State(2, 2, 0, 2));
  }
}
