/** mg_match without captures: a glob matcher that remembers one star to go back to. */
module Match {
  import opened Bytes

  const HASH: byte := 35
  const STAR: byte := 42
  const SLASH: byte := 47
  const ANY: byte := 63

  // ----- the meaning of a pattern -----

  /** There is no '/' in this piece of the subject. */
  predicate NoSlash(s: seq<byte>, from: nat, to: nat)
    requires from <= to <= |s|
  {
    forall k :: from <= k < to ==> s[k] != SLASH
  }

  /** The element `c` of a pattern matches the piece of the subject from `from` to `to`. */
  predicate ElementMatches(c: byte, s: seq<byte>, from: nat, to: nat)
    requires from <= to <= |s|
  {
    if c == HASH then true
    else if c == STAR then NoSlash(s, from, to)
    else to == from + 1 && (c == ANY || s[from] == c)
  }

  predicate PieceMatches(p: seq<byte>, s: seq<byte>, cuts: seq<nat>, k: nat)
  {
    k + 1 < |cuts| && k < |p| && cuts[k] <= cuts[k + 1] <= |s| && ElementMatches(p[k], s, cuts[k], cuts[k + 1])
  }

  /** The subject from `j` on is cut into one piece per element of the pattern from `i` on. */
  ghost predicate CutsMatch(p: seq<byte>, i: nat, s: seq<byte>, j: nat, cuts: seq<nat>)
  {
    && i <= |p| && j <= |s| && |cuts| == |p| - i + 1 && cuts[0] == j && cuts[|p| - i] == |s|
    && forall k: nat :: k < |p| - i ==> PieceMatches(p[i..], s, cuts, k)
  }

  /** A pattern of literals, '?', '#' and '*' matches a subject. */
  ghost predicate Glob(p: seq<byte>, s: seq<byte>)
  {
    exists cuts: seq<nat> :: CutsMatch(p, 0, s, 0, cuts)
  }

  predicate Star(c: byte)
  {
    c == HASH || c == STAR
  }

  /** The same, element by element. */
  predicate Rest(p: seq<byte>, i: nat, s: seq<byte>, j: nat)
    requires i <= |p| && j <= |s|
    decreases |p| - i, |s| - j
  {
    if i == |p| then j == |s|
    else if Star(p[i]) then
      Rest(p, i + 1, s, j) || (j < |s| && (p[i] == HASH || s[j] != SLASH) && Rest(p, i, s, j + 1))
    else j < |s| && (p[i] == ANY || s[j] == p[i]) && Rest(p, i + 1, s, j + 1)
  }

  lemma {:induction false} CutsOfRest(p: seq<byte>, i: nat, s: seq<byte>, j: nat) returns (cuts: seq<nat>)
    requires i <= |p| && j <= |s| && Rest(p, i, s, j)
    ensures CutsMatch(p, i, s, j, cuts)
    decreases |p| - i, |s| - j
  {
    if i == |p| {
      cuts := [j];
    } else if Star(p[i]) && !Rest(p, i + 1, s, j) {
      var later := CutsOfRest(p, i, s, j + 1);
      cuts := later[0 := j];
      forall k: nat | k < |p| - i
        ensures PieceMatches(p[i..], s, cuts, k)
      {
        assert PieceMatches(p[i..], s, later, k);
      }
    } else {
      var tail := CutsOfRest(p, i + 1, s, if Star(p[i]) then j else j + 1);
      cuts := [j] + tail;
      forall k: nat | k < |p| - i
        ensures PieceMatches(p[i..], s, cuts, k)
      {
        assert k > 0 ==> PieceMatches(p[i + 1..], s, tail, k - 1);
      }
    }
  }

  lemma {:induction false} RestOfCuts(p: seq<byte>, i: nat, s: seq<byte>, j: nat, cuts: seq<nat>)
    requires CutsMatch(p, i, s, j, cuts)
    ensures Rest(p, i, s, j)
    decreases |p| - i, |s| - j
  {
    if i < |p| {
      assert PieceMatches(p[i..], s, cuts, 0);
      var tail, rest := cuts[1..], p[i + 1..];
      forall k: nat | k < |rest|
        ensures PieceMatches(rest, s, tail, k)
      {
        assert PieceMatches(p[i..], s, cuts, k + 1);
      }
      RestOfCuts(p, i + 1, s, cuts[1], tail);
      if Star(p[i]) {
        Widen(p, i, s, j, cuts[1]);
      }
    }
  }

  /** A star may take more of the subject. */
  lemma {:induction false} Widen(p: seq<byte>, i: nat, s: seq<byte>, j: nat, k: nat)
    requires i < |p| && j <= k <= |s| && (p[i] == HASH || (p[i] == STAR && NoSlash(s, j, k)))
    requires Rest(p, i + 1, s, k) || Rest(p, i, s, k)
    ensures Rest(p, i, s, j)
    decreases k - j
  {
    if j < k {
      Widen(p, i, s, j + 1, k);
    }
  }

  lemma GlobIsRest(p: seq<byte>, s: seq<byte>)
    ensures Glob(p, s) <==> Rest(p, 0, s, 0)
  {
    if Rest(p, 0, s, 0) {
      var cuts := CutsOfRest(p, 0, s, 0);
    }
    if Glob(p, s) {
      var cuts: seq<nat> :| CutsMatch(p, 0, s, 0, cuts);
      RestOfCuts(p, 0, s, 0, cuts);
    }
  }

  /** The elements: '#' matches any piece, '*' any without a slash, '?' any one byte, every other byte itself. */
  lemma OneElement(c: byte, s: seq<byte>)
    ensures Glob([c], s) <==>
            if c as char == '#' then true
            else if c as char == '*' then '/' as byte !in s
            else |s| == 1 && (c as char == '?' || s[0] == c)
  {
    GlobIsRest([c], s);
    if Star(c) {
      assert Rest([c], 1, s, |s|);
      if c == HASH || SLASH !in s {
        Widen([c], 0, s, 0, |s|);
      } else {
        if Rest([c], 0, s, 0) {
          OneStar([c], s, 0);
        }
        assert NoSlash(s, 0, |s|) ==> SLASH !in s;
      }
    }
  }

  lemma {:induction false} OneStar(p: seq<byte>, s: seq<byte>, j: nat)
    requires p == [STAR] && j <= |s| && Rest(p, 0, s, j)
    ensures NoSlash(s, j, |s|)
    decreases |s| - j
  {
    if j < |s| {
      OneStar(p, s, j + 1);
    }
  }

  // ----- mg_match -----

  /** Positions in pattern and subject, and those to go back to: the star at `ni`, and where the
      subject goes on once it takes one byte more. */
  datatype State = State(i: nat, j: nat, ni: nat, nj: nat)

  datatype Outcome = Go(next: State) | Done(matches: bool)

  const START: State := State(0, 0, 0, 0)

  predicate Inside(p: seq<byte>, s: seq<byte>, st: State)
  {
    st.i <= |p| && st.j <= |s| && (st.nj > 0 ==> st.ni < |p|)
  }

  /** One turn of the loop.  `past` is the byte behind the subject: with '*' the code may look at it. */
  function Step(p: seq<byte>, s: seq<byte>, past: byte, st: State): (out: Outcome)
    requires Inside(p, s, st)
    ensures out.Go? ==> Inside(p, s, out.next)
  {
    var State(i, j, ni, nj) := st;
    if i == |p| && j == |s| then Done(true)
    else if i < |p| && j < |s| && (p[i] == ANY || s[j] == p[i]) then Go(State(i + 1, j + 1, ni, nj))
    else if i < |p| && (p[i] == STAR || p[i] == HASH) then Go(State(i + 1, j, i, j + 1))
    else if 0 < nj <= |s| && (p[ni] == HASH || (if j < |s| then s[j] else past) != SLASH) then Go(State(ni, nj, ni, nj))
    else Done(false)
  }

  /** At or behind the remembered star; behind it, bytes and elements went in step. */
  ghost predicate InStep(p: seq<byte>, st: State)
  {
    st.nj > 0 ==>
      && st.ni < |p| && (p[st.ni] == HASH || p[st.ni] == STAR)
      && ((st.i == st.ni && st.j == st.nj) || (st.i > st.ni && st.j + 1 - st.nj == st.i - st.ni - 1))
      && forall k :: st.ni < k < st.i <= |p| ==> p[k] != HASH && p[k] != STAR
  }

  /** No star of the pattern occurs in the subject. */
  predicate NoClash(p: seq<byte>, s: seq<byte>)
  {
    (HASH in p ==> HASH !in s) && (STAR in p ==> STAR !in s)
  }

  /** Going back to the remembered star is all that is ever needed. */
  ghost predicate Covers(p: seq<byte>, s: seq<byte>, st: State)
    requires Inside(p, s, st)
  {
    Rest(p, 0, s, 0) <==> Rest(p, st.i, s, st.j) || (0 < st.nj <= |s| && Rest(p, st.ni, s, st.nj))
  }

  /** Elements other than stars take one byte each. */
  lemma {:induction false} Ahead(p: seq<byte>, i: nat, s: seq<byte>, j: nat, n: nat)
    requires i + n <= |p| && j <= |s| && Rest(p, i, s, j) && forall k :: i <= k < i + n ==> !Star(p[k])
    ensures j + n <= |s| && Rest(p, i + n, s, j + n)
    decreases n
  {
    if n > 0 {
      Ahead(p, i + 1, s, j + 1, n - 1);
    }
  }

  /** What a star matches ends somewhere. */
  lemma {:induction false} StarEnds(p: seq<byte>, i: nat, s: seq<byte>, j: nat) returns (k: nat)
    requires i < |p| && j <= |s| && p[i] == HASH && Rest(p, i, s, j)
    ensures j <= k <= |s| && Rest(p, i + 1, s, k)
    decreases |s| - j
  {
    if Rest(p, i + 1, s, j) {
      k := j;
    } else {
      k := StarEnds(p, i, s, j + 1);
    }
  }

  /** A match through the old star is one through the new star, so the old one can be forgotten. */
  lemma OldStarForgotten(p: seq<byte>, s: seq<byte>, st: State)
    requires Inside(p, s, st) && InStep(p, st) && STAR !in p && st.i < |p| && p[st.i] == HASH
    requires 0 < st.nj <= |s| && st.i > st.ni && Rest(p, st.ni, s, st.nj)
    ensures Rest(p, st.i, s, st.j)
  {
    var k := StarEnds(p, st.ni, s, st.nj);
    var n := st.i - st.ni - 1;
    Ahead(p, st.ni + 1, s, k, n);
    Widen(p, st.i, s, st.j, k + n);
  }

  lemma StepCovers(p: seq<byte>, s: seq<byte>, past: byte, st: State)
    requires Inside(p, s, st) && InStep(p, st) && NoClash(p, s) && STAR !in p && Covers(p, s, st)
    ensures var out := Step(p, s, past, st);
            && (out.Go? ==> InStep(p, out.next) && Covers(p, s, out.next))
            && (out.Done? ==> (out.matches <==> Rest(p, 0, s, 0)))
  {
    if st.i < |p| && p[st.i] == HASH && 0 < st.nj <= |s| && st.i > st.ni && Rest(p, st.ni, s, st.nj) {
      OldStarForgotten(p, s, st);
    }
  }

  /** While '#' and '*' are not in the subject every step brings the end nearer. */
  function Progress(p: seq<byte>, s: seq<byte>, st: State): (int, int, int)
  {
    (|s| + 1 - st.nj, |p| - st.ni, if st.nj > 0 && st.i == st.ni && st.j == st.nj then 0 else 1 + |p| - st.i)
  }

  predicate Less(a: (int, int, int), b: (int, int, int))
  {
    a.0 < b.0 || (a.0 == b.0 && (a.1 < b.1 || (a.1 == b.1 && a.2 < b.2)))
  }

  lemma StepProgresses(p: seq<byte>, s: seq<byte>, past: byte, st: State)
    requires Inside(p, s, st) && InStep(p, st) && NoClash(p, s) && Step(p, s, past, st).Go?
    ensures var next := Step(p, s, past, st).next;
            InStep(p, next) && Less(Progress(p, s, next), Progress(p, s, st))
  {
  }

  /** The state after `n` steps. */
  function After(p: seq<byte>, s: seq<byte>, past: byte, n: nat): (out: Outcome)
    ensures out.Go? ==> Inside(p, s, out.next)
  {
    if n == 0 then Go(START)
    else
      match After(p, s, past, n - 1)
      case Done(matches) => Done(matches)
      case Go(st) => Step(p, s, past, st)
  }

  /** Once it has ended the answer stays. */
  lemma {:induction false} DoneStays(p: seq<byte>, s: seq<byte>, past: byte, n: nat, m: nat)
    requires n <= m && After(p, s, past, n).Done?
    ensures After(p, s, past, m) == After(p, s, past, n)
    decreases m
  {
    if n < m {
      DoneStays(p, s, past, n, m - 1);
    }
  }

  /** Without '#' and '*' in the subject the loop ends, and for patterns without '*' its answer is right. */
  lemma {:induction false} RunEnds(p: seq<byte>, s: seq<byte>, past: byte, n: nat, st: State) returns (m: nat)
    requires NoClash(p, s) && After(p, s, past, n) == Go(st) && Inside(p, s, st) && InStep(p, st)
    requires STAR !in p ==> Covers(p, s, st)
    ensures After(p, s, past, m).Done? && (STAR !in p ==> (After(p, s, past, m).matches <==> Rest(p, 0, s, 0)))
    decreases |s| + 1 - st.nj, |p| - st.ni, if st.nj > 0 && st.i == st.ni && st.j == st.nj then 0 else 1 + |p| - st.i
  {
    var out := Step(p, s, past, st);
    assert After(p, s, past, n + 1) == out;
    if STAR !in p {
      StepCovers(p, s, past, st);
    }
    hide After, Covers, Rest, Step;
    if out.Go? {
      StepProgresses(p, s, past, st);
      m := RunEnds(p, s, past, n + 1, out.next);
    } else {
      m := n + 1;
    }
  }

  lemma DecidesUnlessClash(p: seq<byte>, s: seq<byte>, past: byte) returns (m: nat)
    requires NoClash(p, s)
    ensures After(p, s, past, m).Done? && (STAR !in p ==> (After(p, s, past, m).matches <==> Glob(p, s)))
  {
    GlobIsRest(p, s);
    assert After(p, s, past, 0) == Go(START);
    m := RunEnds(p, s, past, 0, START);
  }

  /** mg_match(s, p, NULL), when its loop ends: for patterns without '*' a match that is reported is one, and
      when the subject has none of the pattern's stars, a match is reported if there is one.  With '*' that is so
      where the loop ends with the right answer, which `MatchStars` tells. */
  method MgMatch(s: seq<byte>, p: seq<byte>, past: byte) returns (matches: bool)
    requires exists n: nat :: After(p, s, past, n).Done?
    ensures exists n: nat :: After(p, s, past, n) == Done(matches)
    ensures STAR !in p && matches ==> Glob(p, s)
    ensures STAR !in p && NoClash(p, s) ==> (matches <==> Glob(p, s))
    ensures Decides(p, s, past) ==> (matches <==> Glob(p, s))
  {
    ghost var last: nat :| After(p, s, past, last).Done?;
    ghost var n: nat := 0;
    var st := START;
    matches := false;
    var done := false;
    hide Step;
    while !done
      invariant n <= last + 1 && (!done ==> n <= last)
      invariant After(p, s, past, n) == if done then Done(matches) else Go(st)
      invariant !done ==> Inside(p, s, st)
      decreases last + 1 - n
    {
      if n == last {
        assert false;
      }
      var out := Step(p, s, past, st);
      match out {
        case Go(next) => st := next;
        case Done(result) => matches, done := result, true;
      }
      n := n + 1;
    }
    Answer(p, s, past, n, matches);
  }

  lemma Answer(p: seq<byte>, s: seq<byte>, past: byte, n: nat, matches: bool)
    requires After(p, s, past, n) == Done(matches)
    ensures STAR !in p && matches ==> Glob(p, s)
    ensures STAR !in p && NoClash(p, s) ==> (matches <==> Glob(p, s))
    ensures Decides(p, s, past) ==> (matches <==> Glob(p, s))
  {
    if STAR !in p && matches {
      NoFalseMatch(p, s, past, n);
    }
    if NoClash(p, s) {
      var m := DecidesUnlessClash(p, s, past);
      OneAnswer(p, s, past, n, m);
    }
    if Decides(p, s, past) {
      var m: nat :| After(p, s, past, m) == Done(Glob(p, s));
      OneAnswer(p, s, past, n, m);
    }
  }

  /** The loop ends in one way only. */
  lemma OneAnswer(p: seq<byte>, s: seq<byte>, past: byte, n: nat, m: nat)
    requires After(p, s, past, n).Done? && After(p, s, past, m).Done?
    ensures After(p, s, past, n) == After(p, s, past, m)
  {
    if m < n {
      DoneStays(p, s, past, m, n);
    } else {
      DoneStays(p, s, past, n, m);
    }
  }

  // ----- subjects that contain '#' -----

  /** A match from here on, or from the star, makes a match of the whole. */
  ghost predicate Sound(p: seq<byte>, s: seq<byte>, st: State)
    requires Inside(p, s, st)
  {
    && (Rest(p, st.i, s, st.j) ==> Rest(p, 0, s, 0))
    && (0 < st.nj <= |s| && Rest(p, st.ni, s, st.nj) ==> Rest(p, 0, s, 0))
  }

  lemma StepSound(p: seq<byte>, s: seq<byte>, past: byte, st: State)
    requires STAR !in p && Inside(p, s, st) && Sound(p, s, st)
    ensures var out := Step(p, s, past, st);
            (out.Go? ==> Sound(p, s, out.next)) && (out.Done? && out.matches ==> Rest(p, 0, s, 0))
  {
    if st.i < |p| && p[st.i] == HASH && st.j < |s| && (Rest(p, st.i + 1, s, st.j + 1) || Rest(p, st.i, s, st.j + 1)) {
      Widen(p, st.i, s, st.j, st.j + 1);
    }
  }

  lemma {:induction false} StaysSound(p: seq<byte>, s: seq<byte>, past: byte, n: nat)
    requires STAR !in p
    ensures var out := After(p, s, past, n);
            (out.Go? ==> Sound(p, s, out.next)) && (out.Done? && out.matches ==> Rest(p, 0, s, 0))
  {
    if n > 0 {
      StaysSound(p, s, past, n - 1);
      hide Rest, Step;
      if After(p, s, past, n - 1).Go? {
        StepSound(p, s, past, After(p, s, past, n - 1).next);
      }
    }
  }

  /** Whatever the subject, a match that is reported is a match. */
  lemma NoFalseMatch(p: seq<byte>, s: seq<byte>, past: byte, n: nat)
    requires STAR !in p && After(p, s, past, n) == Done(true)
    ensures Glob(p, s)
  {
    StaysSound(p, s, past, n);
    GlobIsRest(p, s);
  }

  /** With '#' in the subject a match can be missed: "#" against "#a". */
  lemma MissedMatch(past: byte)
    ensures Glob([HASH], [HASH, 97]) && After([HASH], [HASH, 97], past, 2) == Done(false)
  {
    var p, s: seq<byte> := [HASH], [HASH, 97];
    assert Rest(p, 1, s, 2);
    assert Rest(p, 0, s, 2) && Rest(p, 0, s, 1);
    GlobIsRest(p, s);
    assert After(p, s, past, 0) == Go(START);
    assert After(p, s, past, 1) == Go(State(1, 1, 0, 0));
  }

  /** And the search can go round for ever: "#b" against "a#c". */
  lemma {:induction false} NeverEnds(past: byte, n: nat)
    ensures var p, s: seq<byte> := [HASH, 98], [97, HASH, 99];
            After(p, s, past, 2 * n + 2) == Go(State(0, 1, 0, 1))
  {
    var p, s: seq<byte> := [HASH, 98], [97, HASH, 99];
    if n == 0 {
      assert After(p, s, past, 0) == Go(START);
      assert After(p, s, past, 1) == Go(State(1, 0, 0, 1));
    } else {
      NeverEnds(past, n - 1);
      assert After(p, s, past, 2 * n + 1) == Go(State(1, 2, 0, 1));
    }
  }

  // ----- the patterns and the subjects that are safe -----

  /** The loop ends with the right answer. */
  ghost predicate Decides(p: seq<byte>, s: seq<byte>, past: byte)
  {
    exists n: nat :: After(p, s, past, n) == Done(Glob(p, s))
  }

  lemma Undecided(p: seq<byte>, s: seq<byte>, past: byte, n: nat)
    requires After(p, s, past, n) == Done(!Glob(p, s))
    ensures !Decides(p, s, past)
  {
    if Decides(p, s, past) {
      var m: nat :| After(p, s, past, m) == Done(Glob(p, s));
      OneAnswer(p, s, past, n, m);
    }
  }

  lemma Decided(p: seq<byte>, s: seq<byte>, past: byte)
    requires STAR !in p && NoClash(p, s)
    ensures Decides(p, s, past)
  {
    var m := DecidesUnlessClash(p, s, past);
    hide After;
  }

  /** While pattern and subject agree byte by byte no star is remembered. */
  lemma {:induction false} InStepRun(p: seq<byte>, s: seq<byte>, past: byte, n: nat)
    requires n <= |p| && n <= |s| && forall k :: 0 <= k < n ==> p[k] == ANY || s[k] == p[k]
    ensures After(p, s, past, n) == Go(State(n, n, 0, 0))
  {
    if n > 0 {
      InStepRun(p, s, past, n - 1);
    }
  }

  /** From there on, without another star, the loop goes on in step or ends without a match. */
  lemma {:induction false} NoStarRun(p: seq<byte>, s: seq<byte>, past: byte, k: nat, n: nat)
    requires k <= n <= |p| < |s| && After(p, s, past, k) == Go(State(k, k, 0, 0))
    requires forall i :: k <= i < |p| ==> p[i] != HASH && p[i] != STAR
    ensures After(p, s, past, n) == Go(State(n, n, 0, 0)) || After(p, s, past, n) == Done(false)
    decreases n
  {
    if k < n {
      NoStarRun(p, s, past, k, n - 1);
    }
  }

  function Literal(c: byte): byte
  {
    if c == ANY then 97 else c
  }

  function PartedAt(p: seq<byte>, k: nat, i: nat): byte
    requires k < |p| && i <= |p|
  {
    if i <= k then Literal(p[i]) else if i == k + 1 then 97 else Literal(p[i - 1])
  }

  /** A text that agrees with the pattern byte by byte up to element `k`, and from there on with one byte
      more in front. */
  function Parted(p: seq<byte>, k: nat): (s: seq<byte>)
    requires k < |p|
    ensures |s| == |p| + 1
  {
    seq<byte>(|p| + 1, i requires 0 <= i < |p| + 1 => PartedAt(p, k, i))
  }

  lemma PartedFacts(p: seq<byte>, k: nat)
    requires k < |p|
    ensures forall n :: 0 <= n <= k ==> p[n] == ANY || Parted(p, k)[n] == p[n]
    ensures forall n :: k < n < |p| ==> p[n] == ANY || Parted(p, k)[n + 1] == p[n]
  {
  }

  lemma {:induction false} LiteralRest(p: seq<byte>, i: nat, s: seq<byte>, k: nat)
    requires i <= k <= |p| && k <= |s| && Rest(p, k, s, k)
    requires forall n :: i <= n < k ==> p[n] == ANY || s[n] == p[n]
    ensures Rest(p, i, s, i)
    decreases k - i
  {
    if i < k {
      LiteralRest(p, i + 1, s, k);
      if Star(p[i]) {
        Widen(p, i, s, i, i + 1);
      }
    }
  }

  /** Behind the last star pattern and subject agree, one byte apart. */
  lemma {:induction false} ShiftedRest(p: seq<byte>, i: nat, s: seq<byte>)
    requires i <= |p| && |s| == |p| + 1
    requires forall n :: i <= n < |p| ==> !Star(p[n]) && (p[n] == ANY || s[n + 1] == p[n])
    ensures Rest(p, i, s, i + 1)
    decreases |p| - i
  {
    if i < |p| {
      ShiftedRest(p, i + 1, s);
    }
  }

  lemma {:induction false} LastStar(p: seq<byte>, n: nat) returns (k: nat)
    requires n <= |p| && (HASH in p[..n] || STAR in p[..n])
    ensures k < n && Star(p[k]) && forall i :: k < i < n ==> !Star(p[i])
  {
    if Star(p[n - 1]) {
      k := n - 1;
    } else {
      assert p[..n] == p[..n - 1] + [p[n - 1]];
      k := LastStar(p, n - 1);
    }
  }

  /** For every pattern with '#' or '*' there is a subject that it matches, and the match is missed: the star
      takes the same byte of the subject for itself, and is not remembered. */
  lemma PatternFails(p: seq<byte>, past: byte) returns (s: seq<byte>)
    requires HASH in p || STAR in p
    ensures Glob(p, s) && !Decides(p, s, past)
  {
    hide *;
    assert p[..|p|] == p;
    var k := LastStar(p, |p|);
    s := Parted(p, k);
    PartedFacts(p, k);
    PartedGlob(p, k, s);
    InStepRun(p, s, past, k + 1);
    NoMoreStars(p, k + 1);
    NoStarRun(p, s, past, k + 1, |p|);
    var n := NoMatchAtEnd(p, s, past);
    Undecided(p, s, past, n);
  }

  lemma NoMoreStars(p: seq<byte>, k: nat)
    requires forall i :: k <= i < |p| ==> !Star(p[i])
    ensures forall i :: k <= i < |p| ==> p[i] != HASH && p[i] != STAR
  {
  }

  /** At the end of the pattern, with no star remembered and the subject not at its end. */
  lemma NoMatchAtEnd(p: seq<byte>, s: seq<byte>, past: byte) returns (n: nat)
    requires |p| < |s|
    requires After(p, s, past, |p|) == Go(State(|p|, |p|, 0, 0)) || After(p, s, past, |p|) == Done(false)
    ensures After(p, s, past, n) == Done(false)
  {
    n := |p|;
    if After(p, s, past, |p|).Go? {
      assert After(p, s, past, |p| + 1) == Step(p, s, past, State(|p|, |p|, 0, 0));
      n := |p| + 1;
    }
  }

  lemma PartedGlob(p: seq<byte>, k: nat, s: seq<byte>)
    requires k < |p| && Star(p[k]) && (forall i :: k < i < |p| ==> !Star(p[i])) && s == Parted(p, k)
    ensures Glob(p, s)
  {
    PartedFacts(p, k);
    assert s[k] == Literal(p[k]) && s[k + 1] == 97;
    hide Parted;
    ShiftedRest(p, k + 1, s);
    Widen(p, k, s, k, k + 2);
    LiteralRest(p, 0, s, k);
    GlobIsRest(p, s);
  }

  /** For every subject with '#' there is a pattern that matches it, and the match is missed. */
  lemma SubjectFails(s: seq<byte>, past: byte) returns (p: seq<byte>)
    requires HASH in s
    ensures STAR !in p && Glob(p, s) && !Decides(p, s, past)
  {
    var k: nat :| k < |s| && s[k] == HASH;
    var any := seq(k, _ => ANY);
    p := any + [HASH] + if k + 1 < |s| then [] else [ANY];
    assert forall n :: 0 <= n < k ==> p[n] == ANY;
    InStepRun(p, s, past, k + 1);
    if k + 1 < |s| {
      assert Rest(p, k + 1, s, |s|);
      Widen(p, k, s, k, |s|);
    } else {
      assert Rest(p, k + 2, s, |s|) && Rest(p, k + 1, s, k);
    }
    LiteralRest(p, 0, s, k);
    GlobIsRest(p, s);
    hide Rest;
    assert After(p, s, past, k + 2) == Step(p, s, past, State(k + 1, k + 1, 0, 0)) == Done(false);
    Undecided(p, s, past, k + 2);
  }

  /** A pattern is safe for every subject exactly when it has no star at all. */
  lemma SafePatterns(p: seq<byte>, past: byte)
    ensures (forall s :: Decides(p, s, past)) <==> HASH !in p && STAR !in p
  {
    if HASH in p || STAR in p {
      var s := PatternFails(p, past);
    } else {
      forall s: seq<byte>
        ensures Decides(p, s, past)
      {
        Decided(p, s, past);
      }
    }
  }

  /** A subject is safe for all patterns without '*' exactly when it has no '#'. */
  lemma SafeSubjects(s: seq<byte>, past: byte)
    ensures (forall p :: STAR !in p ==> Decides(p, s, past)) <==> HASH !in s
  {
    if HASH in s {
      var p := SubjectFails(s, past);
    } else {
      forall p: seq<byte> | STAR !in p
        ensures Decides(p, s, past)
      {
        Decided(p, s, past);
      }
    }
  }
}
