/** The growing byte buffer `struct mg_iobuf`. */
module IoBuf {
  import opened Bytes

  function RoundUp(size: nat, align: nat): (r: nat)
    ensures r >= size
    ensures align > 0 ==> r < size + align && r % align == 0
  {
    if align == 0 then size
    else
      RoundUpFacts(size, align);
      (size + align - 1) / align * align
  }

  lemma RoundUpFacts(size: nat, align: nat)
    requires align > 0
    ensures var r := (size + align - 1) / align * align; size <= r < size + align && r % align == 0
  {
    var q, rem := (size + align - 1) / align, (size + align - 1) % align;
    assert size + align - 1 == q * align + rem;
    DivModUnique(q * align, align, q, 0);
  }

  /** memmove: the two ranges may overlap. */
  method MemMove(b: array<byte>, to: nat, from: nat, n: nat)
    requires to + n <= b.Length && from + n <= b.Length
    modifies b
    ensures var was := old(b[..]); b[..] == was[..to] + was[from..from + n] + was[to + n..]
  {
    ghost var was := b[..];
    forall i | to <= i < to + n {
      b[i] := b[from + (i - to)];
    }
    assert b[to..to + n] == was[from..from + n] && b[..to] == was[..to] && b[to + n..] == was[to + n..];
    ThreeParts(b[..], to, to + n);
  }

  /** memcpy from other memory. */
  method MemCpy(b: array<byte>, to: nat, data: seq<byte>)
    requires to + |data| <= b.Length
    modifies b
    ensures var was := old(b[..]); b[..] == was[..to] + data + was[to + |data|..]
  {
    ghost var was := b[..];
    forall i | to <= i < to + |data| {
      b[i] := data[i - to];
    }
    assert b[to..to + |data|] == data && b[..to] == was[..to] && b[to + |data|..] == was[to + |data|..];
    ThreeParts(b[..], to, to + |data|);
  }

  lemma Slices(b: array<byte>, len: nat, i: nat)
    requires i <= len <= b.Length
    ensures b[..len][..i] == b[..i] && b[..len][i..] == b[i..len] && b[..len] == b[..i] + b[i..len]
  {
    var s := b[..];
    assert b[..len] == s[..len] && b[..i] == s[..i] && b[i..len] == s[i..len];
    hide *;
    SubSlice(s, 0, len, 0, i);
    SubSlice(s, 0, len, i, len);
    assert s[0..len] == s[..len] && s[0..i] == s[..i] && s[..len] == s[..i] + s[i..len];
  }

  /** Memory moved up to open a gap, as seen in the bytes in use. */
  lemma GapOpened(was: seq<byte>, now: seq<byte>, used: nat, ofs: nat, n: nat)
    requires ofs <= used && used + n <= |was|
    requires now == was[..ofs + n] + was[ofs..used] + was[used + n..]
    ensures now[..ofs] == was[..ofs] && now[ofs + n..used + n] == was[ofs..used]
  {
  }

  /** The bytes from `ofs` to `used` move up by `n`. */
  method OpenGap(b: array<byte>, used: nat, ofs: nat, n: nat)
    requires ofs <= used && used + n <= b.Length
    modifies b
    ensures b[..ofs] == old(b[..ofs]) && b[ofs + n..used + n] == old(b[ofs..used])
  {
    ghost var was := b[..];
    MemMove(b, ofs + n, ofs, used - ofs);
    GapOpened(was, b[..], used, ofs, n);
    assert b[..ofs] == b[..][..ofs] && b[ofs + n..used + n] == b[..][ofs + n..used + n];
  }

  lemma GapClosed(was: seq<byte>, now: seq<byte>, used: nat, ofs: nat, n: nat)
    requires ofs + n <= used <= |was|
    requires now == was[..ofs] + was[ofs + n..used] + was[used - n..]
    ensures now[..used - n] == was[..ofs] + was[ofs + n..used]
  {
  }

  /** The bytes behind the `n` at `ofs` move down over them, and zeros fill what becomes free. */
  method CloseGap(b: array<byte>, used: nat, ofs: nat, n: nat)
    requires ofs + n <= used <= b.Length
    modifies b
    ensures b[..used - n] == old(b[..ofs]) + old(b[ofs + n..used])
    ensures forall i :: used - n <= i < used ==> b[i] == 0
  {
    ghost var was := b[..];
    MemMove(b, ofs, ofs + n, used - ofs - n);
    GapClosed(was, b[..], used, ofs, n);
    ghost var kept := b[..used - n];
    assert kept == b[..][..used - n] == was[..ofs] + was[ofs + n..used];
    forall i | used - n <= i < used {
      b[i] := 0;
    }
    assert b[..used - n] == kept;
  }

  /** Data copied into memory, as seen in the first `len` bytes. */
  lemma Filled(was: seq<byte>, now: seq<byte>, gap: seq<byte>, len: nat, ofs: nat, data: seq<byte>)
    requires ofs + |data| <= len <= |was| && gap == was[..len] && now == was[..ofs] + data + was[ofs + |data|..]
    ensures now[..len] == gap[..ofs] + data + gap[ofs + |data|..]
  {
  }

  class Buffer {
    var buf: array<byte>
    var len: nat
    const align: nat

    /** The bytes in use lie inside the allocated memory. */
    ghost predicate Valid()
      reads this
    {
      len <= buf.Length
    }

    ghost function Contents(): seq<byte>
      reads this, buf
      requires Valid()
    {
      buf[..len]
    }

    constructor (align: nat)
      ensures Valid() && fresh(buf) && Contents() == [] && this.align == align
    {
      buf := new byte[0];
      len := 0;
      this.align := align;
    }

    /** mg_iobuf_resize.  Asked for fewer bytes than are in use, but more than none, the code keeps
        `len` and so leaves it beyond the memory. */
    method Resize(size: nat)
      requires Valid()
      modifies this
      ensures buf.Length == RoundUp(size, align)
      ensures buf == old(buf) || fresh(buf)
      ensures Valid() <==> buf.Length == 0 || old(len) <= buf.Length
      ensures buf.Length == 0 ==> len == 0
      ensures buf.Length > 0 ==>
                var kept := if len < buf.Length then len else buf.Length;
                len == old(len) && buf[..kept] == old(buf[..len])[..kept]
    {
      var newSize := RoundUp(size, align);
      if newSize == 0 {
        if buf.Length > 0 {
          buf := new byte[0];
        }
        len := 0;
      } else if newSize != buf.Length {
        var p := new byte[newSize](_ => 0);
        var kept := if newSize < len then newSize else len;
        forall i | 0 <= i < kept {
          p[i] := buf[i];
        }
        buf := p;
      }
    }

    /** There is memory for `n` bytes at `ofs` once the buffer has grown by `n`. */
    ghost predicate HasRoom(ofs: nat, n: nat)
      reads this
    {
      ofs <= len || ofs + n <= RoundUp(len + n, align)
    }

    /** mg_iobuf_add with `data`; a length without data is `AddSpace`.  Behind the bytes in use, what lies
        between is taken in as it is. */
    method Add(ofs: nat, data: seq<byte>)
      requires Valid() && HasRoom(ofs, |data|)
      modifies this, buf
      ensures Valid() && (buf == old(buf) || fresh(buf))
      ensures ofs <= old(len) ==> Contents() == old(Contents())[..ofs] + data + old(Contents())[ofs..]
      ensures ofs > old(len) ==>
                len == ofs + |data| && Contents()[..old(len)] == old(Contents()) && Contents()[ofs..] == data
    {
      AddSpace(ofs, |data|);
      ghost var all, gap := buf[..], Contents();
      MemCpy(buf, ofs, data);
      Filled(all, buf[..], gap, len, ofs, data);
      assert Contents() == buf[..][..len];
      if ofs > old(len) {
        assert gap[..ofs][..old(len)] == gap[..old(len)];
        assert (gap[..ofs] + data)[..old(len)] == gap[..ofs][..old(len)];
      }
    }

    /** mg_iobuf_add at the end. */
    method Append(data: seq<byte>)
      requires Valid()
      modifies this, buf
      ensures Valid() && (buf == old(buf) || fresh(buf))
      ensures Contents() == old(Contents()) + data
    {
      ghost var was := Contents();
      Add(len, data);
      assert was[..|was|] == was && was[|was|..] == [];
    }

    /** mg_iobuf_add without data: opens a gap of `n` bytes at `ofs`. */
    method AddSpace(ofs: nat, n: nat)
      requires Valid() && HasRoom(ofs, n)
      modifies this, buf
      ensures Valid() && (buf == old(buf) || fresh(buf))
      ensures len == n + if ofs <= old(len) then old(len) else ofs
      ensures ofs <= old(len) ==>
                Contents()[..ofs] == old(Contents())[..ofs] && Contents()[ofs + n..] == old(Contents())[ofs..]
      ensures ofs > old(len) ==> Contents()[..old(len)] == old(Contents())
    {
      Grow(n);
      if ofs <= len {
        ShiftUp(ofs, n);
      } else {
        Stretch(ofs + n);
      }
    }

    /** The memory for `n` more bytes. */
    method Grow(n: nat)
      requires Valid()
      modifies this
      ensures Valid() && (buf == old(buf) || fresh(buf))
      ensures buf.Length == RoundUp(len + n, align) && len == old(len) && Contents() == old(Contents())
    {
      ghost var before := Contents();
      Resize(len + n);
      assert before[..|before|] == before;
    }

    /** The bytes from `ofs` on move up by `n`. */
    method ShiftUp(ofs: nat, n: nat)
      requires Valid() && ofs <= len && len + n <= buf.Length
      modifies this`len, buf
      ensures Valid() && len == old(len) + n
      ensures Contents()[..ofs] == old(Contents())[..ofs] && Contents()[ofs + n..] == old(Contents())[ofs..]
    {
      Slices(buf, len, ofs);
      OpenGap(buf, len, ofs, n);
      len := len + n;
      Slices(buf, len, ofs);
      Slices(buf, len, ofs + n);
    }

    /** What lies behind the bytes in use is taken in. */
    method Stretch(newLen: nat)
      requires Valid() && len <= newLen <= buf.Length
      modifies this`len
      ensures Valid() && len == newLen && Contents()[..old(len)] == old(Contents())
    {
      Slices(buf, newLen, len);
      len := newLen;
    }

    /** mg_iobuf_del: out-of-range arguments are cut down to what is there. */
    method Del(ofs: nat, n: nat) returns (deleted: nat)
      requires Valid()
      modifies this`len, buf
      ensures Valid()
      ensures ofs >= old(len) ==> deleted == 0
      ensures ofs < old(len) ==> deleted == if ofs + n > old(len) then old(len) - ofs else n
      ensures Contents() == if deleted == 0 then old(Contents())
                            else old(Contents())[..ofs] + old(Contents())[ofs + deleted..]
    {
      ghost var before := Contents();
      var o := if ofs > len then len else ofs;
      deleted := if o + n > len then len - o else n;
      CloseGap(buf, len, o, deleted);
      len := len - deleted;
      assert before[..o] + before[o..] == before;
    }

    /** mg_iobuf_del of bytes that are there. */
    method Cut(ofs: nat, n: nat)
      requires Valid() && ofs + n <= len
      modifies this`len, buf
      ensures Valid() && len == old(len) - n
      ensures Contents() == old(Contents())[..ofs] + old(Contents())[ofs + n..]
    {
      ghost var was := Contents();
      var _ := Del(ofs, n);
      assert was[..ofs] + was[ofs..] == was;
    }
  }
}
