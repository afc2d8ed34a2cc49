/**
 The record log that mg_flash_save keeps in one flash sector: its layout, and the map from keys to
 values that it stands for.
 */
module FlashLog {
  import opened Bytes
  import opened IoBuf

  const ERASED: byte := 0xff
  const HEADER: nat := 8 // 32-bit size, 32-bit key

  datatype Record = Record(key: uint32, data: seq<byte>)

  /** Space that a record of `len` data bytes takes: MG_ROUND_UP(len + 8, align). */
  function Slot(len: nat, align: nat): (n: nat)
    ensures n >= len + HEADER
  {
    RoundUp(len + HEADER, align)
  }

  function Used(records: seq<Record>, align: nat): nat
  {
    if records == [] then 0 else Slot(|records[0].data|, align) + Used(records[1..], align)
  }

  /** The 32-bit word at `at`. */
  function Word(s: seq<byte>, at: nat): uint32
    requires at + 4 <= |s|
  {
    Limits();
    FromLittleEndian(s[at..at + 4])
  }

  /** mg_flash_next at offset `at` of a sector: how far it is to the next record, 0 at the end. */
  function Next(s: seq<byte>, at: nat, align: nat): (n: nat)
    requires at <= |s|
    ensures at + n <= |s|
    ensures n > 0 ==> n >= HEADER
  {
    var left := |s| - at;
    if left > RoundUp(HEADER, align) && Word(s, at) != 0xffff_ffff then
      var n := RoundUp(Word(s, at) + HEADER, align);
      if left < n then 0 else n
    else 0
  }

  predicate ErasedFrom(s: seq<byte>, at: nat)
  {
    forall i :: at <= i < |s| ==> s[i] == ERASED
  }

  /** The bytes of a record: size, key, data. */
  function Pack(r: Record): (p: seq<byte>)
    ensures |p| == HEADER + |r.data|
  {
    LittleEndian(|r.data|, 4) + LittleEndian(r.key, 4) + r.data
  }

  /** The slot of a record of `len` bytes at `at` ends inside the sector. */
  predicate Fits(at: nat, len: nat, align: nat, size: nat)
  {
    align > 0 && len < 0xffff_ffff && at + Slot(len, align) <= size
  }

  /** And a scan sees the record. */
  predicate Keepable(at: nat, len: nat, align: nat, size: nat)
  {
    Fits(at, len, align, size) && at + RoundUp(HEADER, align) < size
  }

  /** The record lies at `at` in its slot, and a scan sees it. */
  ghost predicate RecordAt(s: seq<byte>, at: nat, align: nat, r: Record)
  {
    Keepable(at, |r.data|, align, |s|) && Holds(s, at, Pack(r))
  }

  /** A scan ends here: the rest of the sector is erased, or too short for it to look. */
  predicate Ended(s: seq<byte>, at: nat, align: nat)
  {
    ErasedFrom(s, at) || |s| <= at + RoundUp(HEADER, align)
  }

  /** From `at` on, the records in order, each in its slot; behind them a scan ends. */
  ghost predicate Log(s: seq<byte>, at: nat, align: nat, records: seq<Record>)
    decreases |records|
  {
    if records == [] then Ended(s, at, align)
    else
      && RecordAt(s, at, align, records[0])
      && Log(s, at + Slot(|records[0].data|, align), align, records[1..])
  }

  lemma PackedRead(s: seq<byte>, at: nat, r: Record)
    requires Holds(s, at, Pack(r)) && |r.data| < TWO_TO_THE_32
    ensures Word(s, at) == |r.data| && Word(s, at + 4) == r.key
    ensures s[at + HEADER..at + HEADER + |r.data|] == r.data
  {
    Limits();
    LittleEndianInverse(|r.data|, 4);
    LittleEndianInverse(r.key, 4);
    assert Pack(r)[0..4] == LittleEndian(|r.data|, 4) && Pack(r)[4..8] == LittleEndian(r.key, 4);
    HoldsSlice(s, at, Pack(r), 0, 4);
    HoldsSlice(s, at, Pack(r), 4, 8);
    HoldsSlice(s, at, Pack(r), HEADER, HEADER + |r.data|);
  }

  /** A record in memory: size and key as 32 bits, least significant byte first, and the data. */
  lemma PackedBytes(r: Record)
    ensures var n := |r.data|;
            Pack(r) == [n % 256, n / 0x100 % 256, n / 0x1_0000 % 256, n / 0x100_0000 % 256,
                        r.key % 256, r.key / 0x100 % 256, r.key / 0x1_0000 % 256, r.key / 0x100_0000 % 256] + r.data
  {
    WordInBytes(|r.data|);
    WordInBytes(r.key);
    hide LittleEndian;
  }

  lemma RecordRead(s: seq<byte>, at: nat, align: nat, r: Record)
    requires RecordAt(s, at, align, r)
    ensures Next(s, at, align) == Slot(|r.data|, align)
    ensures Word(s, at) == |r.data| && Word(s, at + 4) == r.key
    ensures s[at + HEADER..at + HEADER + |r.data|] == r.data
  {
    PackedRead(s, at, r);
  }

  lemma EndedEnds(s: seq<byte>, at: nat, align: nat)
    requires Ended(s, at, align) && at <= |s|
    ensures Next(s, at, align) == 0
  {
    if |s| - at > RoundUp(HEADER, align) {
      Limits();
      LittleEndianInverse(0xffff_ffff, 4);
      assert s[at..at + 4] == LittleEndian(0xffff_ffff, 4);
    }
  }

  lemma {:induction false} UsedAppend(a: seq<Record>, b: seq<Record>, align: nat)
    ensures Used(a + b, align) == Used(a, align) + Used(b, align)
  {
    if a == [] {
      assert a + b == b;
    } else {
      assert (a + b)[1..] == a[1..] + b;
      UsedAppend(a[1..], b, align);
    }
  }

  lemma UsedPart(records: seq<Record>, i: nat, align: nat)
    requires i <= |records|
    ensures Used(records[..i], align) <= Used(records, align)
  {
    assert records == records[..i] + records[i..];
    UsedAppend(records[..i], records[i..], align);
  }

  lemma {:induction false} LogBounds(s: seq<byte>, at: nat, align: nat, records: seq<Record>)
    requires Log(s, at, align, records) && at <= |s|
    ensures at + Used(records, align) <= |s|
    ensures Ended(s, at + Used(records, align), align)
    decreases |records|
  {
    if records != [] {
      LogBounds(s, at + Slot(|records[0].data|, align), align, records[1..]);
    }
  }

  lemma RecordFrame(s: seq<byte>, s': seq<byte>, at: nat, align: nat, r: Record)
    requires RecordAt(s, at, align, r) && |s'| == |s|
    requires forall i :: at <= i < at + Slot(|r.data|, align) ==> s'[i] == s[i]
    ensures RecordAt(s', at, align, r)
  {
  }

  /** A record in the erased rest of the sector extends the log. */
  lemma {:induction false} LogAppend(s: seq<byte>, s': seq<byte>, at: nat, align: nat, records: seq<Record>, r: Record)
    requires Log(s, at, align, records) && |s'| == |s| && at <= |s|
    requires RecordAt(s', at + Used(records, align), align, r)
    requires forall i :: at <= i < at + Used(records, align) && i < |s| ==> s'[i] == s[i]
    requires Ended(s', at + Used(records, align) + Slot(|r.data|, align), align)
    ensures Log(s', at, align, records + [r])
    decreases |records|
  {
    hide Ended, ErasedFrom, Slot, Keepable, Holds, Pack;
    var longer := records + [r];
    if records == [] {
      assert longer[1..] == [];
    } else {
      LogBounds(s, at, align, records);
      RecordFrame(s, s', at, align, records[0]);
      LogAppend(s, s', at + Slot(|records[0].data|, align), align, records[1..], r);
      assert longer[0] == records[0] && longer[1..] == records[1..] + [r];
    }
  }

  /** A log stays when nothing in front of its end changes and a scan still ends there. */
  lemma {:induction false} LogFrame(s: seq<byte>, s': seq<byte>, at: nat, align: nat, records: seq<Record>)
    requires Log(s, at, align, records) && |s'| == |s| && at <= |s|
    requires forall i :: at <= i < at + Used(records, align) && i < |s| ==> s'[i] == s[i]
    requires Ended(s', at + Used(records, align), align)
    ensures Log(s', at, align, records)
    decreases |records|
  {
    if records != [] {
      LogBounds(s, at, align, records);
      RecordFrame(s, s', at, align, records[0]);
      LogFrame(s, s', at + Slot(|records[0].data|, align), align, records[1..]);
    }
  }

  // ----- which record lengths the code can keep -----

  /** A whole record in its slot is seen by a scan exactly when more bytes are left than
      MG_ROUND_UP(8, align); so a record that needs no more than that is lost in the last slot. */
  lemma SeenExactly(s: seq<byte>, at: nat, align: nat, r: Record)
    requires align > 0 && at + Slot(|r.data|, align) <= |s| && |r.data| < 0xffff_ffff && Holds(s, at, Pack(r))
    ensures Next(s, at, align) > 0 <==> |s| - at > RoundUp(HEADER, align)
  {
    PackedRead(s, at, r);
  }

  /** MG_ROUND_DOWN. */
  function RoundDown(x: nat, align: nat): (r: nat)
    requires align > 0
    ensures r <= x < r + align
  {
    Multiples(x, align);
    x / align * align
  }

  lemma RoundedDown(x: nat, align: nat)
    requires align > 0
    ensures RoundDown(x, align) % align == 0
  {
    DivModUnique(x / align * align, align, x / align, 0);
  }

  /** Where, behind the start of a record, mg_flash_save stops writing. */
  function WrittenUpTo(len: nat, align: nat): nat
    requires align > 0
  {
    if align < HEADER then HEADER + len
    else
      var n := if align - HEADER > len then len else align - HEADER;
      if len <= n then align else align + RoundDown(len - n, align) + align
  }

  lemma RoundUpOf(x: nat, align: nat, q: nat, r: nat)
    requires 0 <= r < align && x == q * align + r
    ensures RoundUp(x, align) == if r == 0 then x else (q + 1) * align
  {
    if r == 0 {
      DivModUnique(x + align - 1, align, q, align - 1);
    } else {
      assert (q + 1) * align == q * align + align;
      DivModUnique(x + align - 1, align, q + 1, r - 1);
    }
  }

  /** The writes stay inside the record's slot unless the record fills whole blocks, more than one;
      then a block of 0xff goes behind it. */
  lemma WritesStayInSlot(len: nat, align: nat)
    requires align > 0
    ensures WrittenUpTo(len, align) <= Slot(len, align)
            <==> align < HEADER || len + HEADER <= align || (len + HEADER) % align != 0
    ensures align >= HEADER && len + HEADER > align && (len + HEADER) % align != 0 ==>
            WrittenUpTo(len, align) == Slot(len, align)
  {
    if align >= HEADER {
      var x := len + HEADER;
      var q, r := x / align, x % align;
      Multiples(x, align);
      RoundUpOf(x, align, q, r);
      if x > align {
        DivModUnique(x - align, align, q - 1, r);
      }
      hide RoundUp;
    }
  }

  lemma Multiples(x: nat, align: nat)
    requires align > 0
    ensures var q := x / align;
            && x == q * align + x % align
            && (q - 1) * align == q * align - align && (q + 1) * align == q * align + align
            && 0 <= q * align <= x
            && (q == 0 ==> x < align)
            && (x > align ==> q >= 1)
            && (x == align ==> q == 1 && x % align == 0)
  {
    if x == align {
      DivModUnique(x, align, 1, 0);
    }
    if x / align > 0 {
      MulAtLeast(x / align, align);
    }
  }

  /** A record of 8 bytes in a sector of one block of 16: it is there, and no scan finds it. */
  lemma LostRecord(r: Record)
    requires |r.data| == 8
    ensures |Pack(r)| == Slot(8, 16) == 16 && Next(Pack(r), 0, 16) == 0
  {
    assert RoundUp(16, 16) == 16 && RoundUp(HEADER, 16) == 16;
  }

  /** 8 bytes with blocks of 8: the slot takes two blocks, and three are written. */
  lemma BlockBehind()
    ensures WrittenUpTo(8, 8) == 24 && Slot(8, 8) == 16
  {
    assert RoundUp(16, 8) == 16 && RoundDown(8, 8) == 8;
  }

  /** Lengths for which a record is kept wherever it fits: they need more than the header's blocks. */
  predicate Safe(len: nat, align: nat)
  {
    align > 0 && len < 0xffff_ffff && len + HEADER > RoundUp(HEADER, align)
  }

  lemma SafeExactly(len: nat, align: nat)
    requires align > 0 && len < 0xffff_ffff
    ensures Safe(len, align)
            <==> forall at: nat, size: nat :: Fits(at, len, align, size) ==> Keepable(at, len, align, size)
  {
    hide RoundUp;
    if !Safe(len, align) {
      RoundUpLeast(len + HEADER, RoundUp(HEADER, align), align);
      assert Fits(0, len, align, Slot(len, align)) && !Keepable(0, len, align, Slot(len, align));
    }
  }

  lemma MultiplesApart(a: nat, b: nat, align: nat)
    requires align > 0 && a * align < b * align + align
    ensures a * align <= b * align
  {
    if a > b {
      MulSub(a, b, align);
      MulAtLeast(a - b, align);
    } else {
      MulSub(b, a, align);
    }
  }

  lemma MultipleOf(x: nat, align: nat)
    requires align > 0 && x % align == 0
    ensures x == x / align * align
  {
  }

  /** No smaller multiple will do. */
  lemma RoundUpLeast(x: nat, m: nat, align: nat)
    requires align > 0 && m % align == 0 && x <= m
    ensures RoundUp(x, align) <= m
  {
    hide *;
    var r := RoundUp(x, align);
    MultipleOf(r, align);
    MultipleOf(m, align);
    MultiplesApart(r / align, m / align, align);
  }

  // ----- where records can be kept -----

  /** The records, one behind the other from `at` on, can all be kept. */
  predicate AllKeepable(records: seq<Record>, at: nat, align: nat, size: nat)
    decreases |records|
  {
    records != [] ==>
      Keepable(at, |records[0].data|, align, size)
          && AllKeepable(records[1..], at + Slot(|records[0].data|, align), align, size)
  }

  lemma {:induction false} LogKeepable(s: seq<byte>, at: nat, align: nat, records: seq<Record>)
    requires Log(s, at, align, records)
    ensures AllKeepable(records, at, align, |s|)
    decreases |records|
  {
    hide Keepable;
    if records != [] {
      LogKeepable(s, at + Slot(|records[0].data|, align), align, records[1..]);
    }
  }

  lemma {:induction false} KeepableDown(records: seq<Record>, at: nat, lower: nat, align: nat, size: nat)
    requires AllKeepable(records, at, align, size) && lower <= at
    ensures AllKeepable(records, lower, align, size)
    decreases |records|
  {
    hide Slot, RoundUp;
    if records != [] {
      var n := Slot(|records[0].data|, align);
      KeepableDown(records[1..], at + n, lower + n, align, size);
    }
  }

  lemma {:induction false} KeepableAppend(records: seq<Record>, r: Record, at: nat, align: nat, size: nat)
    requires AllKeepable(records, at, align, size) && Keepable(at + Used(records, align), |r.data|, align, size)
    ensures AllKeepable(records + [r], at, align, size)
    decreases |records|
  {
    hide Slot, Keepable;
    var longer := records + [r];
    if records == [] {
      assert longer[1..] == [];
    } else {
      assert longer[1..] == records[1..] + [r];
      KeepableAppend(records[1..], r, at + Slot(|records[0].data|, align), align, size);
    }
  }

  lemma {:induction false} KeepableAt(records: seq<Record>, j: nat, at: nat, align: nat, size: nat)
    requires AllKeepable(records, at, align, size) && j < |records|
    ensures Keepable(at + Used(records[..j], align), |records[j].data|, align, size)
    decreases |records|
  {
    hide Slot, Keepable;
    if j > 0 {
      assert records[..j][1..] == records[1..][..j - 1];
      KeepableAt(records[1..], j - 1, at + Slot(|records[0].data|, align), align, size);
    }
  }

  lemma {:induction false} WithoutKeepable(cache: seq<Record>, key: uint32, at: nat, align: nat, size: nat)
    requires AllKeepable(cache, at, align, size)
    ensures AllKeepable(Without(cache, key), at, align, size)
    decreases |cache|
  {
    hide Slot, Keepable;
    if cache != [] {
      var n := Slot(|cache[0].data|, align);
      if cache[0].key == key {
        KeepableDown(cache[1..], at + n, at, align, size);
      } else {
        WithoutKeepable(cache[1..], key, at + n, align, size);
        assert Without(cache, key)[1..] == Without(cache[1..], key);
      }
    }
  }

  /** Compaction moves no record up, so what could be kept can be kept again. */
  lemma {:induction false} NewestKeepable(cache: seq<Record>, records: seq<Record>, at: nat, align: nat, size: nat)
    requires AllKeepable(cache, 0, align, size) && AllKeepable(records, at, align, size) && Used(cache, align) <= at
    ensures AllKeepable(Newest(cache, records), 0, align, size)
    decreases |records|
  {
    if records != [] {
      var r := records[0];
      var w := Without(cache, r.key);
      WithoutKeepable(cache, r.key, 0, align, size);
      WithoutUsed(cache, r.key, align);
      UsedOne(w, r, align);
      hide Slot, RoundUp, Without, Used;
      KeepableAppend(w, r, 0, align, size);
      NewestKeepable(w + [r], records[1..], at + Slot(|r.data|, align), align, size);
    }
  }

  lemma UsedOne(records: seq<Record>, r: Record, align: nat)
    ensures Used(records + [r], align) == Used(records, align) + Slot(|r.data|, align)
  {
    UsedAppend(records, [r], align);
    assert [r][1..] == [];
  }

  // ----- the map behind the log -----

  /** The newest value of every key. */
  function Store(records: seq<Record>): Values
  {
    if records == [] then map[] else map[records[0].key := records[0].data] + Store(records[1..])
  }

  type Values = map<uint32, seq<byte>>

  lemma Override(a: Values, key: uint32, data: seq<byte>, b: Values)
    ensures (map[key := data] + a) + b == map[key := data] + (a + b)
    ensures (a - {key})[key := data] + b == a + (map[key := data] + b)
  {
  }

  lemma {:induction false} StoreAppend(a: seq<Record>, b: seq<Record>)
    ensures Store(a + b) == Store(a) + Store(b)
  {
    if a == [] {
      assert a + b == b;
    } else {
      assert (a + b)[1..] == a[1..] + b;
      StoreAppend(a[1..], b);
      Override(Store(a[1..]), a[0].key, a[0].data, Store(b));
    }
  }

  lemma StoreAdd(a: seq<Record>, r: Record)
    ensures Store(a + [r]) == Store(a)[r.key := r.data]
  {
    StoreAppend(a, [r]);
    assert Store([r][1..]) == map[];
  }

  /** The cache without its copy of `key`. */
  function Without(cache: seq<Record>, key: uint32): seq<Record>
  {
    if cache == [] then []
    else if cache[0].key == key then cache[1..]
    else [cache[0]] + Without(cache[1..], key)
  }

  /** What mg_flash_sector_cleanup caches: per key the newest record, in the order of the log. */
  function Newest(cache: seq<Record>, records: seq<Record>): seq<Record>
    decreases |records|
  {
    if records == [] then cache else Newest(Without(cache, records[0].key) + [records[0]], records[1..])
  }

  predicate Distinct(cache: seq<Record>)
  {
    cache == [] || (cache[0].key !in Store(cache[1..]) && Distinct(cache[1..]))
  }

  lemma Removed(key: uint32, k: uint32, data: seq<byte>, m: Values)
    ensures k != key ==> map[k := data] + (m - {key}) == (map[k := data] + m) - {key}
    ensures k == key && key !in m ==> m == (map[k := data] + m) - {key}
  {
  }

  lemma StoreFirst(r: Record, rest: seq<Record>)
    ensures Store([r] + rest) == map[r.key := r.data] + Store(rest)
  {
    assert ([r] + rest)[1..] == rest;
  }

  lemma {:induction false} WithoutStore(cache: seq<Record>, key: uint32)
    requires Distinct(cache)
    ensures Store(Without(cache, key)) == Store(cache) - {key}
    ensures Distinct(Without(cache, key))
  {
    if cache != [] {
      WithoutStore(cache[1..], key);
      Removed(key, cache[0].key, cache[0].data, Store(cache[1..]));
      if cache[0].key != key {
        var w := Without(cache, key);
        StoreFirst(cache[0], Without(cache[1..], key));
        assert w[1..] == Without(cache[1..], key);
      }
    }
  }

  lemma {:induction false} WithoutUsed(cache: seq<Record>, key: uint32, align: nat)
    ensures Used(Without(cache, key), align) <= Used(cache, align)
    ensures forall r <- Without(cache, key) :: r in cache
  {
    if cache != [] && cache[0].key != key {
      WithoutUsed(cache[1..], key, align);
      assert Without(cache, key)[1..] == Without(cache[1..], key);
    }
  }

  lemma {:induction false} DistinctAdd(cache: seq<Record>, r: Record)
    requires Distinct(cache) && r.key !in Store(cache)
    ensures Distinct(cache + [r])
  {
    if cache == [] {
      assert (cache + [r])[1..] == [];
    } else {
      assert (cache + [r])[1..] == cache[1..] + [r];
      StoreAdd(cache[1..], r);
      DistinctAdd(cache[1..], r);
    }
  }

  /** Compaction keeps the map. */
  lemma {:induction false} NewestStore(cache: seq<Record>, records: seq<Record>)
    requires Distinct(cache)
    ensures Store(Newest(cache, records)) == Store(cache) + Store(records)
    decreases |records|
  {
    if records != [] {
      var r := records[0];
      var w := Without(cache, r.key);
      WithoutStore(cache, r.key);
      DistinctAdd(w, r);
      StoreAdd(w, r);
      NewestStore(w + [r], records[1..]);
      Override(Store(cache), r.key, r.data, Store(records[1..]));
    }
  }

  /** Compaction needs no more space. */
  lemma {:induction false} NewestUsed(cache: seq<Record>, records: seq<Record>, align: nat)
    ensures Used(Newest(cache, records), align) <= Used(cache, align) + Used(records, align)
    ensures forall r <- Newest(cache, records) :: r in cache || r in records
    decreases |records|
  {
    if records != [] {
      var r := records[0];
      var w := Without(cache, r.key);
      WithoutUsed(cache, r.key, align);
      UsedAppend(w, [r], align);
      assert [r][1..] == [];
      NewestUsed(w + [r], records[1..], align);
    }
  }
}
