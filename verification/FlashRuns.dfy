/** What a flash sector gives back after any run of saves. */
module FlashRuns {
  import opened Bytes
  import opened IoBuf
  import opened FlashLog
  import opened Flash

  // ----- one save -----

  /** Where a save puts its record. */
  ghost function Place(records: seq<Record>, len: nat, align: nat, size: nat): nat
  {
    Used(Base(records, len, align, size), align)
  }

  /** A save of `len` bytes is kept. */
  ghost predicate Keeps(records: seq<Record>, len: nat, align: nat, size: nat)
  {
    Keepable(Place(records, len, align, size), len, align, size)
  }

  /** A save of `len` bytes has room. */
  ghost predicate HasSpace(records: seq<Record>, len: nat, align: nat, size: nat)
  {
    Fits(Place(records, len, align, size), len, align, size)
  }

  lemma SavedParts(records: seq<Record>, r: Record, align: nat, size: nat)
    ensures var base := Base(records, |r.data|, align, size);
            && Saved(records, r, align, size) == (if Keeps(records, |r.data|, align, size) then base + [r] else base)
            && Store(base) == Store(records) && forall b <- base :: b in records
  {
    hide Keepable, Used, Slot, Store;
    NewestUsed([], records, align);
    NewestStore([], records);
    assert Store([]) == map[] by {
      StoreNothing();
    }
  }

  lemma StoreNothing()
    ensures Store([]) == map[]
  {
  }

  /** A save that is kept sets the value of its key; any other changes no value. */
  lemma SaveUpdatesStore(records: seq<Record>, r: Record, align: nat, size: nat)
    ensures Store(Saved(records, r, align, size))
         == if Keeps(records, |r.data|, align, size) then Store(records)[r.key := r.data] else Store(records)
  {
    hide *;
    SavedParts(records, r, align, size);
    StoreAdd(Base(records, |r.data|, align, size), r);
  }

  /** The value just saved is loaded exactly when the save is kept, or when an older record with this key and
      this length, still in the log, is the same. */
  lemma SavedFound(records: seq<Record>, r: Record, align: nat, size: nat)
    ensures Lookup(Saved(records, r, align, size), r.key, |r.data|) == Some(r.data)
            <==> || Keeps(records, |r.data|, align, size)
                 || Lookup(Base(records, |r.data|, align, size), r.key, |r.data|) == Some(r.data)
  {
    var base := Base(records, |r.data|, align, size);
    hide *;
    SavedParts(records, r, align, size);
    LookupLast(base, r);
  }

  lemma LookupLast(records: seq<Record>, r: Record)
    ensures Lookup(records + [r], r.key, |r.data|) == Some(r.data)
  {
  }

  /** A save with enough room that no load finds: 8 bytes in a sector of one block of 16. */
  lemma SavedAndLost(r: Record)
    requires |r.data| == 8
    ensures HasSpace([], 8, 16, 16) && Lookup(Saved([], r, 16, 16), r.key, 8) == None
  {
    assert RoundUp(16, 16) == 16 && RoundUp(HEADER, 16) == 16;
  }

  // ----- after a compaction -----

  lemma {:induction false} NewestDistinct(cache: seq<Record>, records: seq<Record>)
    requires Distinct(cache)
    ensures Distinct(Newest(cache, records))
    decreases |records|
  {
    if records != [] {
      var w := Without(cache, records[0].key);
      WithoutStore(cache, records[0].key);
      DistinctAdd(w, records[0]);
      NewestDistinct(w + [records[0]], records[1..]);
    }
  }

  lemma {:induction false} DistinctValue(records: seq<Record>, r: Record)
    requires Distinct(records) && r in records
    ensures r.key in Store(records) && Store(records)[r.key] == r.data
  {
    if r != records[0] {
      DistinctValue(records[1..], r);
    }
  }

  /** Compaction leaves no old value: a load gives the value of the key when that has the length asked for,
      and else nothing. */
  lemma CompactedLoad(records: seq<Record>, key: uint32, len: nat)
    ensures Lookup(Newest([], records), key, len) == Right(Store(records), key, len)
  {
    var kept := Newest([], records);
    NewestDistinct([], records);
    NewestStore([], records);
    assert Store(kept) == Store(records);
    LookupNewest(kept, key, len);
    hide Newest, Store, Distinct, Lookup;
    if Saw(kept, key, len) {
      var r :| r in kept && r.key == key && |r.data| == len;
      DistinctValue(kept, r);
    }
  }

  // ----- runs -----

  ghost function Run(log: seq<Record>, saves: seq<Record>, align: nat, size: nat): seq<Record>
  {
    if saves == [] then log else Saved(Run(log, saves[..|saves| - 1], align, size), saves[|saves| - 1], align, size)
  }

  /** The saves that are kept. */
  ghost function KeptSaves(log: seq<Record>, saves: seq<Record>, align: nat, size: nat): seq<Record>
  {
    if saves == [] then []
    else
      var before, r := saves[..|saves| - 1], saves[|saves| - 1];
      KeptSaves(log, before, align, size) + if Keeps(Run(log, before, align, size), |r.data|, align, size) then [r]
                                            else []
  }

  /** After any run of saves, compactions included, every key has the value of the last of its saves that was
      kept. */
  lemma {:induction false} LastSaveWins(log: seq<Record>, saves: seq<Record>, align: nat, size: nat)
    ensures Store(Run(log, saves, align, size)) == Store(log + KeptSaves(log, saves, align, size))
  {
    hide Saved, Keeps, Store;
    if saves == [] {
      assert log + [] == log;
    } else {
      var before, r := saves[..|saves| - 1], saves[|saves| - 1];
      var kept := KeptSaves(log, before, align, size);
      LastSaveWins(log, before, align, size);
      SaveUpdatesStore(Run(log, before, align, size), r, align, size);
      StoreAdd(log + kept, r);
      assert log + (kept + [r]) == log + kept + [r] && log + (kept + []) == log + kept;
    }
  }

  /** No record comes from elsewhere. */
  lemma {:induction false} RunMembers(log: seq<Record>, saves: seq<Record>, align: nat, size: nat)
    ensures forall r <- Run(log, saves, align, size) :: r in log + KeptSaves(log, saves, align, size)
  {
    hide Saved, Keeps, Base;
    if saves != [] {
      var before, r := saves[..|saves| - 1], saves[|saves| - 1];
      RunMembers(log, before, align, size);
      SavedParts(Run(log, before, align, size), r, align, size);
    }
  }

  /** Every key has one length. */
  ghost predicate OneLength(records: seq<Record>)
  {
    forall a, b :: a in records && b in records && a.key == b.key ==> |a.data| == |b.data|
  }

  lemma {:induction false} StoreMembers(records: seq<Record>, key: uint32)
    ensures key in Store(records) ==> Record(key, Store(records)[key]) in records
    ensures forall r <- records :: r.key in Store(records)
  {
    if records != [] {
      StoreMembers(records[1..], key);
    }
  }

  /** With one length per key a load gives the value of the last save of the key that was kept, or nothing when
      there is none or another length is asked for. */
  lemma LoadAfterRun(log: seq<Record>, saves: seq<Record>, align: nat, size: nat, key: uint32, len: nat)
    requires OneLength(log + KeptSaves(log, saves, align, size))
    ensures Lookup(Run(log, saves, align, size), key, len)
         == Right(Store(log + KeptSaves(log, saves, align, size)), key, len)
  {
    var all, now := log + KeptSaves(log, saves, align, size), Run(log, saves, align, size);
    LastSaveWins(log, saves, align, size);
    RunMembers(log, saves, align, size);
    hide KeptSaves, Run, Store, Lookup;
    LookupNewest(now, key, len);
    StoreMembers(all, key);
    if Saw(now, key, len) {
      var r :| r in now && r.key == key && |r.data| == len;
      assert r in all;
    }
  }

  /** Without any condition: a load after a run is right exactly when the last kept value of the key has the
      length asked for, or no record of that length is left in the log. */
  lemma LoadAfterRunExactly(log: seq<Record>, saves: seq<Record>, align: nat, size: nat, key: uint32, len: nat)
    ensures var now, right := Run(log, saves, align, size),
            Right(Store(log + KeptSaves(log, saves, align, size)), key, len);
            Lookup(now, key, len) == right <==> right.Some? || !Saw(now, key, len)
  {
    LastSaveWins(log, saves, align, size);
    hide KeptSaves, Run, Store, Lookup, Saw;
    LoadExactly(Run(log, saves, align, size), key, len);
  }

  // ----- the code -----

  /** The saves that the code answered with true. */
  function Accepted(saves: seq<Record>, oks: seq<bool>): seq<Record>
    requires |saves| == |oks|
  {
    if saves == [] then []
    else
      Accepted(saves[..|saves| - 1], oks[..|saves| - 1]) + if oks[|saves| - 1] then [saves[|saves| - 1]] else []
  }

  ghost predicate AllSafe(saves: seq<Record>, align: nat)
  {
    forall r <- saves :: Safe(|r.data|, align)
  }

  /** A save of a safe length is kept just when it has room. */
  lemma SafeKept(records: seq<Record>, saves: seq<Record>, i: nat, align: nat, size: nat)
    requires i < |saves|
    ensures var len := |saves[i].data|;
            AllSafe(saves, align) && HasSpace(records, len, align, size) ==> Keeps(records, len, align, size)
  {
    hide Place, Slot;
    if AllSafe(saves, align) && HasSpace(records, |saves[i].data|, align, size) {
      assert saves[i] in saves;
      SafeExactly(|saves[i].data|, align);
    }
  }

  /** A run of saves on a sector. */
  method SaveAll(s: Sector, saves: seq<Record>) returns (oks: seq<bool>)
    requires s.Valid()
    modifies s`records, s.mem
    ensures s.Valid() && s.records == Run(old(s.records), saves, s.align, s.mem.Length) && |oks| == |saves|
    ensures AllSafe(saves, s.align) ==>
              Accepted(saves, oks) == KeptSaves(old(s.records), saves, s.align, s.mem.Length)
  {
    hide *;
    ghost var log := s.records;
    oks := [];
    RunStart(log, saves, s.align, s.mem.Length);
    while |oks| < |saves|
      invariant s.Valid() && |oks| <= |saves|
      invariant s.records == Run(log, saves[..|oks|], s.align, s.mem.Length)
      invariant AllSafe(saves, s.align) ==>
                  Accepted(saves[..|oks|], oks) == KeptSaves(log, saves[..|oks|], s.align, s.mem.Length)
    {
      RunStep(log, saves, oks, s.align, s.mem.Length);
      SafeKept(s.records, saves, |oks|, s.align, s.mem.Length);
      var ok := SaveOne(s, saves[|oks|]);
      oks := oks + [ok];
    }
  }

  method SaveOne(s: Sector, r: Record) returns (ok: bool)
    requires s.Valid()
    modifies s`records, s.mem
    ensures s.Valid() && s.records == Saved(old(s.records), r, s.align, s.mem.Length)
    ensures Keeps(old(s.records), |r.data|, s.align, s.mem.Length) ==> ok
    ensures ok ==> HasSpace(old(s.records), |r.data|, s.align, s.mem.Length)
    ensures old(s.Ready(|r.data|)) ==> (ok <==> HasSpace(old(s.records), |r.data|, s.align, s.mem.Length))
  {
    hide Saved, Keepable, Fits, Base, Used;
    ghost var end;
    ok, end := s.Save(r.key, r.data);
  }

  lemma RunStart(log: seq<Record>, saves: seq<Record>, align: nat, size: nat)
    ensures Run(log, [], align, size) == log && KeptSaves(log, [], align, size) == [] && Accepted([], []) == []
    ensures saves[..0] == [] && saves[..|saves|] == saves
  {
  }

  lemma RunStep(log: seq<Record>, saves: seq<Record>, oks: seq<bool>, align: nat, size: nat)
    requires |oks| < |saves|
    ensures var i := |oks|;
            var now := Run(log, saves[..i], align, size);
            && Run(log, saves[..i + 1], align, size) == Saved(now, saves[i], align, size)
            && KeptSaves(log, saves[..i + 1], align, size)
               == KeptSaves(log, saves[..i], align, size)
                  + (if Keeps(now, |saves[i].data|, align, size) then [saves[i]] else [])
            && forall ok :: Accepted(saves[..i + 1], oks + [ok])
                            == Accepted(saves[..i], oks) + if ok then [saves[i]] else []
  {
    hide Saved, Keeps;
    var i := |oks|;
    assert saves[..i + 1][..i] == saves[..i] && saves[..i + 1][i] == saves[i];
    forall ok: bool
      ensures Accepted(saves[..i + 1], oks + [ok]) == Accepted(saves[..i], oks) + if ok then [saves[i]] else []
    {
      assert (oks + [ok])[..i] == oks;
    }
  }

  /** Saves of safe lengths, one length per key, and then a load: it gives the value of the last save of the
      key that was answered with true. */
  method SavesThenLoad(s: Sector, saves: seq<Record>, key: uint32, len: nat)
    returns (oks: seq<bool>, ok: bool, data: seq<byte>)
    requires s.Valid() && AllSafe(saves, s.align) && OneLength(s.records + saves)
    modifies s`records, s.mem
    ensures |oks| == |saves|
    ensures (if ok then Some(data) else None) == Right(Store(old(s.records) + Accepted(saves, oks)), key, len)
  {
    hide Store, Run, KeptSaves, Lookup, Right, Safe;
    ghost var log := s.records;
    oks := SaveAll(s, saves);
    AcceptedMembers(saves, oks);
    LoadAfterRun(log, saves, s.align, s.mem.Length, key, len);
    ok, data := s.Load(key, len);
  }

  lemma {:induction false} AcceptedMembers(saves: seq<Record>, oks: seq<bool>)
    requires |saves| == |oks|
    ensures forall r <- Accepted(saves, oks) :: r in saves
  {
    if saves != [] {
      AcceptedMembers(saves[..|saves| - 1], oks[..|saves| - 1]);
    }
  }

  /** A save and a load of the same key and length. */
  method SaveThenLoad(s: Sector, key: uint32, data: seq<byte>) returns (saved: bool, ok: bool, found: seq<byte>)
    requires s.Valid()
    modifies s`records, s.mem
    ensures var size, len := s.mem.Length, |data|;
            && (ok && found == data
                <==> || Keeps(old(s.records), len, s.align, size)
                     || Lookup(Base(old(s.records), len, s.align, size), key, len) == Some(data))
            && (Keeps(old(s.records), len, s.align, size) ==> saved)
            && (old(s.Ready(len)) ==> (saved <==> HasSpace(old(s.records), len, s.align, size)))
  {
    ghost var log := s.records;
    hide *;
    saved := SaveOne(s, Record(key, data));
    ok, found := s.Load(key, |data|);
    SavedFound(log, Record(key, data), s.align, s.mem.Length);
  }
}
