/**
 mg_flash_save, mg_flash_load and mg_flash_sector_cleanup on one sector.  Erasing succeeds, and so does
 programming of erased memory; what programming other memory does to it, and answers, is left open.
 */
module Flash {
  import opened Bytes
  import opened IoBuf
  import opened FlashLog

  function PackAll(records: seq<Record>): seq<byte>
  {
    if records == [] then [] else Pack(records[0]) + PackAll(records[1..])
  }

  lemma {:induction false} PackAllAppend(a: seq<Record>, b: seq<Record>)
    ensures PackAll(a + b) == PackAll(a) + PackAll(b)
  {
    if a == [] {
      assert a + b == b;
    } else {
      assert (a + b)[1..] == a[1..] + b;
      PackAllAppend(a[1..], b);
      assert Pack(a[0]) + (PackAll(a[1..]) + PackAll(b)) == PackAll(a) + PackAll(b);
    }
  }

  lemma PackOne(r: Record)
    ensures PackAll([r]) == Pack(r)
  {
    assert [r][1..] == [];
  }

  /** Record `j` of the cache lies behind the first `j`. */
  lemma PackedAt(cache: seq<Record>, j: nat)
    requires j < |cache|
    ensures PackAll(cache) == PackAll(cache[..j]) + Pack(cache[j]) + PackAll(cache[j + 1..])
    ensures PackAll(cache[..j + 1]) == PackAll(cache[..j]) + Pack(cache[j])
  {
    hide *;
    RecordsSplit(cache, j);
    PackAllAppend(cache[..j + 1], cache[j + 1..]);
    PackAllAppend(cache[..j], [cache[j]]);
    PackOne(cache[j]);
  }

  lemma RecordsSplit(cache: seq<Record>, j: nat)
    requires j < |cache|
    ensures cache[..j + 1] == cache[..j] + [cache[j]] && cache == cache[..j + 1] + cache[j + 1..]
  {
  }

  /** The sector's records once room for one more is made, if need be by compaction. */
  ghost function Base(records: seq<Record>, len: nat, align: nat, size: nat): seq<Record>
  {
    if Used(records, align) + Slot(len, align) <= size then records else Newest([], records)
  }

  /** A scan of the log has come to offset `at`, behind the first `i` records. */
  ghost predicate Scan(s: seq<byte>, at: nat, align: nat, records: seq<Record>, i: nat)
  {
    i <= |records| && at <= |s| && Log(s, at, align, records[i..])
  }

  lemma ScanStart(s: seq<byte>, align: nat, records: seq<Record>)
    requires Log(s, 0, align, records)
    ensures Scan(s, 0, align, records, 0) && records[..0] == [] && records[..|records|] == records
  {
    assert records[0..] == records;
  }

  /** The scan meets record `i`, and goes on behind its slot. */
  ghost predicate Met(s: seq<byte>, at: nat, align: nat, records: seq<Record>, i: nat, n: nat, size: uint32,
      key: uint32)
  {
    && i < |records| && size == |records[i].data| && key == records[i].key
    && n == Slot(size, align) > 0 && at + HEADER + size <= at + n <= |s|
    && s[at + HEADER..at + HEADER + size] == records[i].data
    && Holds(s, at, Pack(records[i]))
    && Scan(s, at + n, align, records, i + 1)
  }

  /** A scan between two steps: it meets record `i`, or `n` is 0 at the end of the log. */
  ghost predicate Scanning(s: seq<byte>, at: nat, align: nat, records: seq<Record>, i: nat, n: nat, size: uint32,
      key: uint32)
  {
    if n > 0 then Met(s, at, align, records, i, n, size, key) else i == |records| && at <= |s|
  }

  lemma ScanEnds(s: seq<byte>, at: nat, align: nat, records: seq<Record>, i: nat, size: uint32, key: uint32)
    requires Scanning(s, at, align, records, i, 0, size, key)
    ensures i == |records| && at <= |s| && records[..i] == records
  {
  }

  lemma MetFacts(s: seq<byte>, at: nat, align: nat, records: seq<Record>, i: nat, n: nat, size: uint32, key: uint32)
    requires Scanning(s, at, align, records, i, n, size, key) && n > 0
    ensures i < |records| && size == |records[i].data| && key == records[i].key
    ensures n == Slot(size, align) && at + HEADER + size <= at + n <= |s|
    ensures s[at + HEADER..at + HEADER + size] == records[i].data && Holds(s, at, Pack(records[i]))
    ensures Scan(s, at + n, align, records, i + 1)
  {
  }

  /** One step of a scan: a record of the log, or its end. */
  lemma ScanStep(s: seq<byte>, at: nat, align: nat, records: seq<Record>, i: nat)
    requires Scan(s, at, align, records, i)
    ensures Next(s, at, align) == 0 <==> i == |records|
    ensures i < |records| ==> Met(s, at, align, records, i, Next(s, at, align), Word(s, at), Word(s, at + 4))
  {
    if i == |records| {
      EndedEnds(s, at, align);
    } else {
      RecordRead(s, at, align, records[i]);
      assert records[i..][0] == records[i] && records[i..][1..] == records[i + 1..];
    }
  }

  class Sector {
    const mem: array<byte>
    const align: nat
    ghost var records: seq<Record>

    ghost predicate Valid()
      reads this, mem
    {
      align > 0 && mem.Length < 0xffff_ffff && Log(mem[..], 0, align, records)
    }

    constructor (size: nat, align: nat)
      requires align > 0 && size < 0xffff_ffff
      ensures Valid() && records == [] && mem.Length == size && this.align == align
    {
      mem := new byte[size](_ => ERASED);
      this.align := align;
      records := [];
    }

    /** mg_flash_next. */
    method NextObject(ofs: nat) returns (n: nat, size: uint32, key: uint32)
      requires ofs <= mem.Length
      ensures n == Next(mem[..], ofs, align)
      ensures n > 0 ==> ofs + HEADER <= mem.Length && size == Word(mem[..], ofs) && key == Word(mem[..], ofs + 4)
    {
      n, size, key := 0, 0, 0;
      var left := mem.Length - ofs;
      if left > RoundUp(HEADER, align) && FromLittleEndian(mem[ofs..ofs + 4]) != 0xffff_ffff {
        assert mem[ofs..ofs + 4] == mem[..][ofs..ofs + 4] && mem[ofs + 4..ofs + 8] == mem[..][ofs + 4..ofs + 8];
        Limits();
        size := FromLittleEndian(mem[ofs..ofs + 4]);
        key := FromLittleEndian(mem[ofs + 4..ofs + 8]);
        n := RoundUp(size + HEADER, align);
        if left < n {
          n := 0;
        }
      } else if left > RoundUp(HEADER, align) {
        assert mem[ofs..ofs + 4] == mem[..][ofs..ofs + 4];
      }
    }

    /** mg_flash_next in the middle of a scan. */
    method NextRecord(ofs: nat, ghost recs: seq<Record>, ghost i: nat) returns (n: nat, size: uint32, key: uint32)
      requires Scan(mem[..], ofs, align, recs, i)
      ensures Scanning(mem[..], ofs, align, recs, i, n, size, key)
    {
      ScanStep(mem[..], ofs, align, recs, i);
      hide Log, Next, Word, Slot, Pack;
      n, size, key := NextObject(ofs);
    }

    /** mg_flash_load: the newest value of the key among those that have the length asked for. */
    method Load(key: uint32, len: nat) returns (ok: bool, data: seq<byte>)
      requires Valid()
      ensures Lookup(records, key, len) == if ok then Some(data) else None
    {
      hide *;
      ok, data := false, [];
      var ofs := 0;
      ghost var i: nat := 0;
      ScanReady();
      LookupNone(key, len);
      assert records[..0] == [];
      var n: nat, size: uint32, k: uint32 := NextRecord(ofs, records, i);
      while n > 0
        invariant Scanning(mem[..], ofs, align, records, i, n, size, k) && ofs <= mem.Length
        invariant i <= |records| && Lookup(records[..i], key, len) == if ok then Some(data) else None
        decreases mem.Length - ofs
      {
        MetFacts(mem[..], ofs, align, records, i, n, size, k);
        LookupStep(records, i, key, len);
        if k == key && size == len {
          data := mem[ofs + HEADER..ofs + HEADER + size];
          assert data == mem[..][ofs + HEADER..ofs + HEADER + size];
          ok := true;
        }
        ofs, i := ofs + n, i + 1;
        n, size, k := NextRecord(ofs, records, i);
      }
      ScanEnds(mem[..], ofs, align, records, i, size, k);
    }

    lemma LookupNone(key: uint32, len: nat)
      ensures Lookup([], key, len) == None
    {
    }

    lemma LookupStep(recs: seq<Record>, i: nat, key: uint32, len: nat)
      requires i < |recs|
      ensures Lookup(recs[..i + 1], key, len)
           == if recs[i].key == key && |recs[i].data| == len then Some(recs[i].data) else Lookup(recs[..i], key, len)
    {
      assert recs[..i + 1][..i] == recs[..i];
    }

    /** mg_flash_write, as far as this sector goes.  Memory that is not erased takes any value. */
    method Program(ofs: nat, data: seq<byte>) returns (ok: bool)
      modifies mem
      ensures forall i :: 0 <= i < mem.Length && !(ofs <= i < ofs + |data|) ==> mem[i] == old(mem[i])
      ensures old(ErasedFrom(mem[..], ofs)) ==>
                ok && forall i :: ofs <= i < ofs + |data| && i < mem.Length ==> mem[i] == data[i - ofs]
    {
      if forall i :: ofs <= i < mem.Length ==> mem[i] == ERASED {
        forall i | ofs <= i < ofs + |data| && i < mem.Length {
          mem[i] := data[i - ofs];
        }
        ok := true;
      } else {
        var any: nat -> byte := *;
        forall i | ofs <= i < ofs + |data| && i < mem.Length {
          mem[i] := any(i);
        }
        ok := *;
      }
    }

    /** mg_flash_erase. */
    method Erase()
      requires align > 0 && mem.Length < 0xffff_ffff
      modifies this`records, mem
      ensures Valid() && Clean() && records == []
    {
      forall i | 0 <= i < mem.Length {
        mem[i] := ERASED;
      }
      records := [];
    }

    /** Behind the last record the sector is erased. */
    ghost predicate Clean()
      reads this, mem
    {
      ErasedFrom(mem[..], Used(records, align))
    }

    /** The writes of mg_flash_save: with small blocks header and data, else a first block, whole
        blocks, and a last block filled up with ones.  `end` is where the last of them ended. */
    method WriteRecord(ofs: nat, key: uint32, data: seq<byte>) returns (ok: bool, ghost end: nat)
      requires align > 0 && ofs + Slot(|data|, align) <= mem.Length
      modifies mem
      ensures forall i :: 0 <= i < ofs ==> mem[i] == old(mem[i])
      ensures old(ErasedFrom(mem[..], ofs)) ==>
                && ok && end == ofs + WrittenUpTo(|data|, align)
                && Holds(mem[..], ofs, Pack(Record(key, data)))
                && ErasedFrom(mem[..], ofs + Slot(|data|, align))
    {
      hide LittleEndian;
      var header := LittleEndian(|data|, 4) + LittleEndian(key, 4);
      assert Pack(Record(key, data)) == header + data;
      hide Slot, Pack;
      if align < HEADER {
        ok := Program(ofs, header);
        if ok {
          var _ := Program(ofs + HEADER, data);
        }
        end := ofs + HEADER + |data|;
        assert Holds(mem[..], ofs, header + data) <== old(ErasedFrom(mem[..], ofs));
      } else {
        ok, end := WriteBlocks(ofs, header, data);
      }
    }

    method WriteBlocks(ofs: nat, header: seq<byte>, data: seq<byte>) returns (ok: bool, ghost end: nat)
      requires align >= HEADER && |header| == HEADER && ofs + HEADER + |data| <= mem.Length
      modifies mem
      ensures forall i :: 0 <= i < ofs ==> mem[i] == old(mem[i])
      ensures old(ErasedFrom(mem[..], ofs)) ==>
                && ok && end == ofs + WrittenUpTo(|data|, align)
                && Holds(mem[..], ofs, header + data) && ErasedFrom(mem[..], ofs + HEADER + |data|)
    {
      var len := |data|;
      var n := align - HEADER;
      if n > len {
        n := len;
      }
      ghost var first := header + data[..n];
      ok := Program(ofs, header + data[..n] + Ones(align - HEADER - n));
      end := ofs + align;
      ghost var s := mem[..];
      if ok && len > n {
        ok, end := WriteRest(ofs + align, data[n..]);
      }
      if old(ErasedFrom(mem[..], ofs)) {
        assert header + data == first + data[n..];
        assert forall i :: 0 <= i < |first| ==> s[ofs + i] == first[i];
        assert Holds(mem[..], ofs, header + data);
      }
    }

    /** The blocks behind the first. */
    method WriteRest(ofs: nat, data: seq<byte>) returns (ok: bool, ghost end: nat)
      requires align > 0 && ofs + |data| <= mem.Length
      modifies mem
      ensures forall i :: 0 <= i < ofs ==> mem[i] == old(mem[i])
      ensures old(ErasedFrom(mem[..], ofs)) ==>
                && ok && end == ofs + RoundDown(|data|, align) + align
                && Holds(mem[..], ofs, data) && ErasedFrom(mem[..], ofs + |data|)
    {
      var n2 := RoundDown(|data|, align);
      ok := true;
      if n2 > 0 {
        ok := Program(ofs, data[..n2]);
      }
      end := ofs + n2;
      if ok {
        ok := Program(ofs + n2, data[n2..] + Ones(align - (|data| - n2)));
        end := end + align;
      }
    }

    /** The offset behind the last record. */
    method FindEnd() returns (ofs: nat)
      requires Valid()
      ensures ofs == Used(records, align) <= mem.Length && Ended(mem[..], ofs, align)
    {
      hide *;
      ofs := 0;
      ghost var i: nat := 0;
      ScanReady();
      LogEnds();
      assert records[..0] == [];
      var n: nat, size: uint32, k: uint32 := NextRecord(ofs, records, i);
      while n > 0
        invariant Scanning(mem[..], ofs, align, records, i, n, size, k) && ofs <= mem.Length
        invariant i <= |records| && ofs == Used(records[..i], align)
        decreases mem.Length - ofs
      {
        MetFacts(mem[..], ofs, align, records, i, n, size, k);
        UsedNext(records, i);
        ofs, i := ofs + n, i + 1;
        n, size, k := NextRecord(ofs, records, i);
      }
      ScanEnds(mem[..], ofs, align, records, i, size, k);
    }

    lemma LogEnds()
      requires Valid()
      ensures Used(records, align) <= mem.Length && Ended(mem[..], Used(records, align), align) && Used([], align) == 0
    {
      LogBounds(mem[..], 0, align, records);
    }

    lemma UsedNext(recs: seq<Record>, i: nat)
      requires i < |recs|
      ensures Used(recs[..i + 1], align) == Used(recs[..i], align) + Slot(|recs[i].data|, align)
    {
      assert recs[..i + 1] == recs[..i] + [recs[i]] && [recs[i]][1..] == [];
      UsedAppend(recs[..i], [recs[i]], align);
    }

    /** The header at `o` of what the buffer holds. */
    lemma CachedSlices(io: Buffer, bytes: seq<byte>, o: nat)
      requires io.Valid() && io.Contents() == bytes && o + HEADER <= |bytes|
      ensures HEADER == 8 && o + 8 <= |bytes| == io.len <= io.buf.Length
      ensures io.buf[o..o + 4] == bytes[o..o + 4] && io.buf[o + 4..o + 8] == bytes[o + 4..o + 8]
    {
    }

    lemma WordLimits(a: seq<byte>, b: seq<byte>)
      requires |a| == |b| == 4
      ensures FromLittleEndian(a) < TWO_TO_THE_32 && FromLittleEndian(b) < TWO_TO_THE_32
    {
      Limits();
    }

    /** Size and key of the cached object at `o`. */
    method CachedHeader(io: Buffer, o: nat, ghost cache: seq<Record>, ghost j: nat) returns (size: uint32, key: uint32)
      requires io.Valid() && io.Contents() == PackAll(cache) && j < |cache| && o == |PackAll(cache[..j])|
      requires Short(cache)
      ensures size == |cache[j].data| && key == cache[j].key
      ensures o + HEADER + size <= io.len
      ensures |PackAll(cache[..j + 1])| == o + HEADER + size
    {
      hide *;
      HeaderAt(cache, j);
      CachedSlices(io, PackAll(cache), o);
      WordLimits(io.buf[o..o + 4], io.buf[o + 4..o + 8]);
      size := FromLittleEndian(io.buf[o..o + 4]);
      key := FromLittleEndian(io.buf[o + 4..o + 8]);
    }

    /** Size, key and data of the cached object at `o`. */
    method CachedObject(io: Buffer, o: nat, ghost cache: seq<Record>, ghost j: nat)
      returns (size: uint32, key: uint32, data: seq<byte>)
      requires io.Valid() && io.Contents() == PackAll(cache) && j < |cache| && o == |PackAll(cache[..j])|
      requires Short(cache)
      ensures size == |data| && Record(key, data) == cache[j]
      ensures |PackAll(cache[..j + 1])| == o + HEADER + size
    {
      hide PackAll, Short;
      size, key := CachedHeader(io, o, cache, j);
      CachedParts(cache, j);
      data := io.buf[o + HEADER..o + HEADER + size];
      assert data == io.Contents()[o + HEADER..o + HEADER + size];
    }

    /** The inner loop of mg_flash_sector_cleanup looks for the cached copy of `key`. */
    method FindCached(io: Buffer, key: uint32, ghost cache: seq<Record>) returns (o: nat, n: nat, ghost j: nat)
      requires io.Valid() && io.Contents() == PackAll(cache) && Short(cache)
      ensures n == 0 ==> Without(cache, key) == cache
      ensures n > 0 ==> j < |cache| && o == |PackAll(cache[..j])| && n == HEADER + |cache[j].data| && o + n <= io.len
      ensures n > 0 ==> PackAll(Without(cache, key)) == PackAll(cache[..j]) + PackAll(cache[j + 1..])
    {
      hide PackAll, Pack, Without, PassedOver, Short;
      o, n, j := 0, 0, 0;
      NonePassed(cache, key);
      while o < io.len
        invariant j <= |cache| && o == |PackAll(cache[..j])| && PassedOver(cache, j, key)
        decreases io.len - o
      {
        var size2: uint32, k: uint32 := CachedHeader(io, o, cache, j);
        WithoutAt(cache, j, key);
        if k == key {
          n := size2 + HEADER;
          return;
        }
        o, j := o + size2 + HEADER, j + 1;
      }
      WithoutEnd(cache, j, key);
    }

    /** The cached copy of `key`, if there is one, is deleted. */
    method DropKey(io: Buffer, key: uint32, ghost cache: seq<Record>)
      requires io.Valid() && io.Contents() == PackAll(cache) && Short(cache)
      modifies io`len, io.buf
      ensures io.Valid() && io.buf == old(io.buf) && io.Contents() == PackAll(Without(cache, key))
    {
      hide PackAll, Without;
      var o, n, j := FindCached(io, key, cache);
      if n > 0 {
        CachedParts(cache, j);
        io.Cut(o, n);
      }
    }

    /** `mg_iobuf_add` of an object in the sector, header included. */
    method CacheObject(io: Buffer, ofs: nat, size: nat, ghost r: Record)
      requires io.Valid() && io.buf != mem && Holds(mem[..], ofs, Pack(r)) && size == |r.data|
      modifies io, io.buf
      ensures io.Valid() && (io.buf == old(io.buf) || fresh(io.buf))
      ensures io.Contents() == old(io.Contents()) + Pack(r)
    {
      HoldsSlice(mem[..], ofs, Pack(r), 0, HEADER + size);
      hide Pack;
      assert mem[ofs..ofs + (size + HEADER)] == Pack(r);
      io.Append(mem[ofs..ofs + (size + HEADER)]);
    }

    /** An object of the sector replaces the cached one of its key. */
    method CacheRecord(io: Buffer, ofs: nat, size: nat, key: uint32, ghost cache: seq<Record>, ghost i: nat)
      returns (ghost next: seq<Record>)
      requires io.Valid() && io.Contents() == PackAll(cache) && io.buf != mem
      requires Caching(cache, records, i) && i < |records| && |records[i].data| < TWO_TO_THE_32
      requires Holds(mem[..], ofs, Pack(records[i])) && size == |records[i].data| && key == records[i].key
      modifies io, io.buf
      ensures io.Valid() && (io.buf == old(io.buf) || fresh(io.buf))
      ensures Caching(next, records, i + 1) && io.Contents() == PackAll(next)
    {
      CacheStep(cache, records, i);
      assert Short(cache);
      hide Pack, PackAll, Without, Holds, Caching, Short;
      DropKey(io, key, cache);
      CacheObject(io, ofs, size, records[i]);
      next := Without(cache, key) + [records[i]];
    }

    lemma ScanReady()
      requires Valid()
      ensures Scan(mem[..], 0, align, records, 0)
    {
      ScanStart(mem[..], align, records);
    }

    /** The outer loop of mg_flash_sector_cleanup: per key, the newest object goes to the cache. */
    method Collect(io: Buffer)
      requires Valid() && io.Valid() && io.Contents() == [] && io.buf != mem
      modifies io, io.buf
      ensures io.Valid() && (io.buf == old(io.buf) || fresh(io.buf))
      ensures io.Contents() == PackAll(Newest([], records))
    {
      hide *;
      var ofs := 0;
      ghost var i: nat, cache: seq<Record> := 0, [];
      ScanReady();
      CacheStart(records);
      var n: nat, size: uint32, key: uint32 := NextRecord(ofs, records, i);
      while n > 0
        invariant Scanning(mem[..], ofs, align, records, i, n, size, key) && ofs <= mem.Length
        invariant io.Valid() && io.buf != mem && (io.buf == old(io.buf) || fresh(io.buf))
        invariant io.Contents() == PackAll(cache) && Caching(cache, records, i)
        decreases mem.Length - ofs
      {
        MetFacts(mem[..], ofs, align, records, i, n, size, key);
        cache := CacheRecord(io, ofs, size, key, cache, i);
        ofs, i := ofs + n, i + 1;
        n, size, key := NextRecord(ofs, records, i);
      }
      ScanEnds(mem[..], ofs, align, records, i, size, key);
      CacheEnd(cache, records);
    }

    /** A record written behind the last one.  When a scan cannot see it the log stays what it was, and
        memory that was not erased may have made the write fail. */
    method AppendRecord(ofs: nat, key: uint32, data: seq<byte>) returns (ok: bool, ghost end: nat)
      requires Valid() && ofs == Used(records, align) && Fits(ofs, |data|, align, mem.Length)
      modifies this`records, mem
      ensures Valid()
      ensures records == if Keepable(ofs, |data|, align, mem.Length) then old(records) + [Record(key, data)]
                         else old(records)
      ensures old(Clean()) || Keepable(ofs, |data|, align, mem.Length) ==> ok && end == ofs + WrittenUpTo(|data|, align)
      ensures Keepable(ofs, |data|, align, mem.Length) ==> Clean()
    {
      ghost var s, r := mem[..], Record(key, data);
      LogEnds();
      ok, end := WriteRecord(ofs, key, data);
      assert forall i :: 0 <= i < ofs ==> mem[..][i] == s[i];
      if Keepable(ofs, |data|, align, mem.Length) {
        hide Slot, Used, Holds, Pack;
        LogAppend(s, mem[..], 0, align, records, r);
        UsedOne(records, r, align);
        records := records + [r];
      } else {
        LogFrame(s, mem[..], 0, align, records);
      }
    }

    /** One save from the cache: it fits, so it is appended, without another cleanup. */
    method Resave(io: Buffer, ofs: nat, ghost kept: seq<Record>, ghost j: nat) returns (size: uint32)
      requires Valid() && AllKeepable(kept, 0, align, mem.Length) && Used(kept, align) <= mem.Length && Short(kept)
      requires j < |kept| && records == kept[..j]
      requires io.Valid() && io.buf != mem && io.Contents() == PackAll(kept) && ofs == |PackAll(kept[..j])|
      modifies this`records, mem
      ensures Valid() && Clean() && records == kept[..j + 1] && |PackAll(kept[..j + 1])| == ofs + HEADER + size
      decreases 1, 0
    {
      hide *;
      ResaveFits(kept, j);
      var key: uint32, data: seq<byte>;
      size, key, data := CachedObject(io, ofs, kept, j);
      var _, _ := Save(key, data);
    }

    /** Record `j` of the cache fits behind those before it. */
    lemma ResaveFits(kept: seq<Record>, j: nat)
      requires AllKeepable(kept, 0, align, mem.Length) && Used(kept, align) <= mem.Length && j < |kept|
      ensures Base(kept[..j], |kept[j].data|, align, mem.Length) == kept[..j]
      ensures Saved(kept[..j], kept[j], align, mem.Length) == kept[..j + 1]
      ensures var at, len := Used(kept[..j], align), |kept[j].data|;
              at + Slot(len, align) <= mem.Length && Keepable(at, len, align, mem.Length)
    {
      assert kept[..j + 1] == kept[..j] + [kept[j]];
      UsedNext(kept, j);
      UsedPart(kept, j + 1, align);
      KeepableAt(kept, j, 0, align, mem.Length);
    }

    /** mg_flash_sector_cleanup: the log becomes its newest records. */
    method Cleanup()
      requires Valid()
      modifies this`records, mem
      ensures Valid() && Clean() && records == Newest([], old(records))
      decreases 1, 1
    {
      hide *;
      ghost var kept := Newest([], records);
      KeptFits();
      var io := new Buffer(2048);
      Collect(io);
      Erase();
      var ofs := 0;
      ghost var j: nat := 0;
      MoreCached(io, kept, 0);
      while ofs < io.len
        invariant Valid() && Clean() && io.Valid() && io.buf != mem
        invariant io.Contents() == PackAll(kept) && j <= |kept| && ofs == |PackAll(kept[..j])|
        invariant records == kept[..j]
        decreases io.len - ofs
      {
        MoreCached(io, kept, j);
        var size := Resave(io, ofs, kept, j);
        ofs, j := ofs + size + HEADER, j + 1;
      }
      MoreCached(io, kept, j);
    }

    /** The loop over the cache goes on just while there are records to save. */
    lemma MoreCached(io: Buffer, kept: seq<Record>, j: nat)
      requires io.Valid() && io.Contents() == PackAll(kept) && j <= |kept|
      ensures |PackAll(kept[..j])| < io.len <==> j < |kept|
      ensures kept[..0] == [] && |PackAll(kept[..0])| == 0 && kept[..|kept|] == kept && HEADER > 0
    {
      assert kept[..0] == [] && kept[..|kept|] == kept;
      if j < |kept| {
        PackedAt(kept, j);
      }
    }

    lemma KeptFits()
      requires Valid()
      ensures align > 0 && mem.Length < 0xffff_ffff
      ensures var kept := Newest([], records);
              && AllKeepable(kept, 0, align, mem.Length) && Used(kept, align) <= Used(records, align) <= mem.Length
              && Short(kept)
    {
      NewestUsed([], records, align);
      LogBounds(mem[..], 0, align, records);
      LogKeepable(mem[..], 0, align, records);
      NewestKeepable([], records, 0, align, mem.Length);
      KeepableShort(Newest([], records), 0, align, mem.Length);
    }

    /** A save of `len` bytes programs erased memory only, if it programs any. */
    ghost predicate Ready(len: nat)
      reads this, mem
    {
      Clean() || !Fits(Used(records, align), len, align, mem.Length)
    }

    /** mg_flash_save, for any record in any state of the sector that saves lead to. */
    method Save(key: uint32, data: seq<byte>) returns (ok: bool, ghost end: nat)
      requires Valid()
      modifies this`records, mem
      ensures Valid() && records == Saved(old(records), Record(key, data), align, mem.Length)
      ensures var at := Used(Base(old(records), |data|, align, mem.Length), align);
              && (ok ==> Fits(at, |data|, align, mem.Length))
              && (old(Ready(|data|)) ==>
                  && (ok <==> Fits(at, |data|, align, mem.Length))
                  && (ok ==> end == at + WrittenUpTo(|data|, align)))
              && (Keepable(at, |data|, align, mem.Length) ==> ok && Clean())
      decreases (if Used(records, align) + Slot(|data|, align) <= mem.Length then 0 else 2), 0
    {
      ok, end := false, 0;
      var needed := RoundUp(HEADER + |data|, align);
      var ofs := FindEnd();
      if ofs + needed > mem.Length {
        Cleanup();
        ofs := FindEnd();
      }
      if ofs + needed <= mem.Length {
        ok, end := AppendRecord(ofs, key, data);
      }
    }
  }

  lemma {:induction false} KeepableShort(records: seq<Record>, at: nat, align: nat, size: nat)
    requires AllKeepable(records, at, align, size)
    ensures Short(records)
    decreases |records|
  {
    if records != [] {
      KeepableShort(records[1..], at + Slot(|records[0].data|, align), align, size);
    }
  }

  /** What lies before, in and behind record `j` of the cache. */
  lemma CachedParts(cache: seq<Record>, j: nat)
    requires j < |cache|
    ensures var s, o, size := PackAll(cache), |PackAll(cache[..j])|, |cache[j].data|;
            && o + HEADER + size <= |s|
            && s[..o] == PackAll(cache[..j]) && s[o + HEADER..o + HEADER + size] == cache[j].data
            && s[o + HEADER + size..] == PackAll(cache[j + 1..])
  {
    PackedAt(cache, j);
    var a, p, c := PackAll(cache[..j]), Pack(cache[j]), PackAll(cache[j + 1..]);
    assert p[HEADER..] == cache[j].data;
    hide PackAll, Pack;
    HoldsInside(a, p, c);
    HoldsSlice(a + p + c, |a|, p, HEADER, |p|);
  }

  /** Size and key of record `j`, read back from the cache. */
  lemma HeaderAt(cache: seq<Record>, j: nat)
    requires j < |cache| && Short(cache)
    ensures var s, o := PackAll(cache), |PackAll(cache[..j])|;
            && o + HEADER + |cache[j].data| == |PackAll(cache[..j + 1])| <= |s|
            && FromLittleEndian(s[o..o + 4]) == |cache[j].data| && FromLittleEndian(s[o + 4..o + 8]) == cache[j].key
  {
    hide *;
    PackedAt(cache, j);
    HeaderShort(cache, j);
    HoldsInside(PackAll(cache[..j]), Pack(cache[j]), PackAll(cache[j + 1..]));
    HeaderRead(PackAll(cache), |PackAll(cache[..j])|, cache[j]);
  }

  lemma HeaderShort(cache: seq<Record>, j: nat)
    requires j < |cache| && Short(cache)
    ensures |cache[j].data| < TWO_TO_THE_32 && |Pack(cache[j])| == HEADER + |cache[j].data|
  {
    hide Pack;
    assert cache[j] in cache;
  }

  lemma HeaderRead(s: seq<byte>, at: nat, r: Record)
    requires Holds(s, at, Pack(r)) && |r.data| < TWO_TO_THE_32
    ensures at + 8 <= |s| && FromLittleEndian(s[at..at + 4]) == |r.data| && FromLittleEndian(s[at + 4..at + 8]) == r.key
  {
    hide Pack, FromLittleEndian;
    PackedRead(s, at, r);
  }

  lemma HoldsInside(a: seq<byte>, b: seq<byte>, c: seq<byte>)
    ensures Holds(a + b + c, |a|, b)
    ensures (a + b + c)[..|a|] == a && (a + b + c)[|a| + |b|..] == c
  {
  }

  ghost predicate Short(cache: seq<Record>)
  {
    forall r <- cache :: |r.data| < TWO_TO_THE_32
  }

  /** The cache while the first `i` records have been collected. */
  ghost predicate Caching(cache: seq<Record>, records: seq<Record>, i: nat)
  {
    && i <= |records|
    && Newest(cache, records[i..]) == Newest([], records)
    && Short(cache)
  }

  lemma CacheStart(records: seq<Record>)
    ensures Caching([], records, 0) && PackAll([]) == []
  {
    assert records[0..] == records;
  }

  lemma CacheStep(cache: seq<Record>, records: seq<Record>, i: nat)
    requires i < |records| && Caching(cache, records, i) && |records[i].data| < TWO_TO_THE_32
    ensures var r := records[i];
            var cache' := Without(cache, r.key) + [r];
            && Caching(cache', records, i + 1)
            && PackAll(cache') == PackAll(Without(cache, r.key)) + Pack(r)
  {
    var r := records[i];
    assert records[i..][0] == r && records[i..][1..] == records[i + 1..];
    WithoutUsed(cache, r.key, 0);
    PackAllAppend(Without(cache, r.key), [r]);
    PackOne(r);
  }

  lemma CacheEnd(cache: seq<Record>, records: seq<Record>)
    requires Caching(cache, records, |records|)
    ensures cache == Newest([], records)
  {
    assert records[|records|..] == [];
  }

  /** The key is not among the first `j` records. */
  ghost predicate PassedOver(cache: seq<Record>, j: nat, key: uint32)
  {
    j <= |cache| && Without(cache, key) == cache[..j] + Without(cache[j..], key)
  }

  lemma NonePassed(cache: seq<Record>, key: uint32)
    ensures PassedOver(cache, 0, key) && PackAll(cache[..0]) == [] && cache[..|cache|] == cache
  {
    assert cache[0..] == cache;
  }

  lemma WithoutAt(cache: seq<Record>, j: nat, key: uint32)
    requires j < |cache| && PassedOver(cache, j, key)
    ensures cache[j].key == key ==> PackAll(Without(cache, key)) == PackAll(cache[..j]) + PackAll(cache[j + 1..])
    ensures cache[j].key != key ==> PassedOver(cache, j + 1, key)
  {
    hide PackAll, Pack;
    var rest := cache[j..];
    assert rest[0] == cache[j] && rest[1..] == cache[j + 1..];
    if cache[j].key == key {
      assert Without(rest, key) == cache[j + 1..];
      PackAllAppend(cache[..j], cache[j + 1..]);
    } else {
      assert Without(rest, key) == [cache[j]] + Without(cache[j + 1..], key);
      hide Without;
      assert cache[..j + 1] == cache[..j] + [cache[j]];
      assert cache[..j] + ([cache[j]] + Without(cache[j + 1..], key)) == cache[..j + 1] + Without(cache[j + 1..], key);
    }
  }

  lemma WithoutEnd(cache: seq<Record>, j: nat, key: uint32)
    requires PassedOver(cache, j, key)
    requires |PackAll(cache)| <= |PackAll(cache[..j])|
    ensures Without(cache, key) == cache
  {
    if j < |cache| {
      PackedAt(cache, j);
    } else {
      assert cache[..j] == cache && cache[j..] == [];
    }
  }

  function Ones(n: nat): seq<byte>
  {
    seq(n, _ => ERASED)
  }

  // ----- what a load gives -----

  datatype Value = None | Some(data: seq<byte>)

  /** The newest record with this key and this length. */
  function Lookup(records: seq<Record>, key: uint32, len: nat): Value
  {
    if records == [] then None
    else
      var r := records[|records| - 1];
      if r.key == key && |r.data| == len then Some(r.data) else Lookup(records[..|records| - 1], key, len)
  }

  /** Some record has this key and this length. */
  predicate Saw(records: seq<Record>, key: uint32, len: nat)
  {
    exists r <- records :: r.key == key && |r.data| == len
  }

  lemma {:induction false} LookupNewest(records: seq<Record>, key: uint32, len: nat)
    ensures key in Store(records) && |Store(records)[key]| == len ==>
            Lookup(records, key, len) == Some(Store(records)[key])
    ensures Lookup(records, key, len).Some? <==> Saw(records, key, len)
  {
    if records != [] {
      var front, r := records[..|records| - 1], records[|records| - 1];
      assert records == front + [r];
      LookupNewest(front, key, len);
      StoreAdd(front, r);
      assert Saw(records, key, len) <==> Saw(front, key, len) || (r.key == key && |r.data| == len);
    }
  }

  /** What a load should give: the value of the key, if it has the length asked for. */
  function Right(values: Values, key: uint32, len: nat): Value
  {
    if key in values && |values[key]| == len then Some(values[key]) else None
  }

  /** That is what it gives exactly when the key's value has this length, or no older record of it in the log
      has. */
  lemma LoadExactly(records: seq<Record>, key: uint32, len: nat)
    ensures var right := Right(Store(records), key, len);
            Lookup(records, key, len) == right <==> right.Some? || !Saw(records, key, len)
  {
    LookupNewest(records, key, len);
  }

  /** After a value of another length an old one is still loaded. */
  lemma OldValueLoaded()
    ensures var records := [Record(1, [7, 7]), Record(1, [8, 8, 8])];
            Lookup(records, 1, 2) == Some([7, 7]) && 1 in Store(records) && Store(records)[1] == [8, 8, 8]
  {
    var records := [Record(1, [7, 7]), Record(1, [8, 8, 8])];
    assert records[..1] == [Record(1, [7, 7])];
    assert records[1..] == [Record(1, [8, 8, 8])] && records[1..][1..] == [];
  }

  // ----- what a sector stands for -----

  /** One call of mg_flash_save, seen on the log. */
  ghost function Saved(records: seq<Record>, r: Record, align: nat, size: nat): seq<Record>
  {
    var base := Base(records, |r.data|, align, size);
    if Keepable(Used(base, align), |r.data|, align, size) then base + [r] else base
  }
}
