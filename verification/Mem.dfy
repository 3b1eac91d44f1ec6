/** The loader's own byte copies, on one memory indexed by address. */
module Mem {
  import opened Common
  import opened Align

  const TWO_31: nat := 0x8000_0000
  const TWO_32: nat := 0x1_0000_0000

  /** The bytes vdl_memcpy copies: its counter is the length cut to a signed 32-bit integer. */
  function CopyCount(len: nat): nat {
    if len % TWO_32 < TWO_31 then len % TWO_32 else 0
  }

  /** The copy is complete exactly for lengths below 2^31. */
  lemma CopyIsWholeExactly(len: nat)
    ensures CopyCount(len) == len <==> len < TWO_31
  {
    if len < TWO_32 {
      assert len % TWO_32 == len;
    }
  }

  /** It is the low half of the length as a signed integer, and nothing when that is negative. */
  lemma CopyCountIsSigned(len: nat)
    ensures CopyCount(len) < 0x8000_0000
    ensures CopyCount(len) > 0 ==> (len - CopyCount(len)) % 0x1_0000_0000 == 0
    ensures CopyCount(len) == 0 <==> len % 0x1_0000_0000 == 0 || len % 0x1_0000_0000 >= 0x8000_0000
  {
  }

  /** m' is m with the n bytes at s, as they were in m, now at d; everything else is as it was. */
  predicate Moved(m: seq<Byte>, m': seq<Byte>, d: nat, s: nat, n: nat)
    requires d + n <= |m| && s + n <= |m|
  {
    |m'| == |m| && forall i :: 0 <= i < |m| ==> ByteMoved(m, m', d, s, n, i)
  }

  predicate ByteMoved(m: seq<Byte>, m': seq<Byte>, d: nat, s: nat, n: nat, i: nat)
    requires d + n <= |m| && s + n <= |m| == |m'| && i < |m|
  {
    m'[i] == if d <= i < d + n then m[s + (i - d)] else m[i]
  }

  /** Where the byte that a forward copy leaves at d + k comes from: a copy that runs into its own source from
      below repeats the bytes in front of the destination. */
  function Origin(d: nat, s: nat, k: nat): nat {
    if s < d then s + k % (d - s) else s + k
  }

  /** m' is m after a forward copy of n bytes. */
  predicate Copied(m: seq<Byte>, m': seq<Byte>, d: nat, s: nat, n: nat)
    requires d + n <= |m| && s + n <= |m|
  {
    |m'| == |m| && forall i :: 0 <= i < |m| ==> ByteCopied(m, m', d, s, n, i)
  }

  predicate ByteCopied(m: seq<Byte>, m': seq<Byte>, d: nat, s: nat, n: nat, i: nat)
    requires d + n <= |m| && s + n <= |m| == |m'| && i < |m|
  {
    OriginWithin(d, s, i - d, n);
    m'[i] == if d <= i < d + n then m[Origin(d, s, i - d)] else m[i]
  }

  lemma OriginWithin(d: nat, s: nat, k: int, n: nat)
    ensures 0 <= k < n ==> s <= Origin(d, s, k) < s + n && (s < d ==> Origin(d, s, k) < d)
    ensures 0 <= k < n && (d <= s || k < d - s) ==> Origin(d, s, k) == s + k
    ensures s < d && k >= d - s ==> Origin(d, s, k) == Origin(d, s, k - (d - s))
  {
    if 0 <= k && s < d {
      var p := d - s;
      DivModUnique(k % p, p, 0, k % p);
      if k >= p {
        DivModUnique(k, p, (k - p) / p + 1, (k - p) % p);
      } else {
        DivModUnique(k, p, 0, k);
      }
    }
  }

  /** When the destination does not run into its source, copying is moving. */
  lemma CopyIsMove(m: seq<Byte>, m': seq<Byte>, d: nat, s: nat, n: nat)
    requires d + n <= |m| && s + n <= |m| && Copied(m, m', d, s, n)
    requires d <= s || s + n <= d
    ensures Moved(m, m', d, s, n)
  {
    forall i | 0 <= i < |m| ensures ByteMoved(m, m', d, s, n, i) {
      assert ByteCopied(m, m', d, s, n, i);
      OriginWithin(d, s, i - d, n);
    }
  }

  /** vdl_memcpy, wherever source and destination lie. */
  method MemCpy(mem: array<Byte>, d: nat, s: nat, len: nat)
    requires d + len <= mem.Length && s + len <= mem.Length
    modifies mem
    ensures CopyCount(len) <= len && Copied(old(mem[..]), mem[..], d, s, CopyCount(len))
  {
    ghost var m := mem[..];
    var tmp: int := if len % TWO_32 < TWO_31 then len % TWO_32 else len % TWO_32 - TWO_32;
    var dst, src := d, s;
    ghost var n, k := CopyCount(len), 0;
    while tmp > 0
      invariant 0 <= k <= n <= len && dst == d + k && src == s + k
      invariant tmp == n - k || (tmp < 0 && n == k == 0)
      invariant Copied(m, mem[..], d, s, k)
    {
      OriginWithin(d, s, k, n);
      CopyStep(m, mem[..], d, s, k);
      mem[dst] := mem[src];
      dst := dst + 1;
      src := src + 1;
      tmp := tmp - 1;
      k := k + 1;
    }
  }

  /** One more byte of a forward copy. */
  lemma CopyStep(m: seq<Byte>, m': seq<Byte>, d: nat, s: nat, k: nat)
    requires d + k < |m| && s + k < |m| && Copied(m, m', d, s, k)
    ensures Copied(m, m'[d + k := m'[s + k]], d, s, k + 1)
  {
    OriginWithin(d, s, k, k + 1);
    assert ByteCopied(m, m', d, s, k, s + k);
    var m2, n := m'[d + k := m'[s + k]], k + 1;
    forall i | 0 <= i < |m| ensures ByteCopied(m, m2, d, s, n, i) {
      assert ByteCopied(m, m', d, s, k, i);
    }
  }

  /** A move to a higher address: the part that overlaps nothing yet to be read goes first. */
  lemma TailFirst(m: seq<Byte>, m1: seq<Byte>, m2: seq<Byte>, dst: nat, src: nat, len: nat)
    requires src < dst <= src + len && dst + len <= |m|
    requires var size := dst - src;
             Moved(m, m1, src + len, src + len - size, size) && Moved(m1, m2, dst, src, len - size)
    ensures Moved(m, m2, dst, src, len)
  {
    var size := dst - src;
    forall i | 0 <= i < |m| ensures ByteMoved(m, m2, dst, src, len, i) {
      assert ByteMoved(m1, m2, dst, src, len - size, i) && ByteMoved(m, m1, src + len, src + len - size, size, i);
      if dst <= i < src + len {
        assert ByteMoved(m, m1, src + len, src + len - size, size, src + (i - dst));
      }
    }
  }

  /** A move to a lower address. */
  lemma HeadFirst(m: seq<Byte>, m1: seq<Byte>, m2: seq<Byte>, dst: nat, src: nat, len: nat)
    requires dst < src <= dst + len && src + len <= |m|
    requires var size := src - dst;
             Moved(m, m1, dst, src, size) && Moved(m1, m2, dst + size, src + size, len - size)
    ensures Moved(m, m2, dst, src, len)
  {
    var size := src - dst;
    forall i | 0 <= i < |m| ensures ByteMoved(m, m2, dst, src, len, i) {
      assert ByteMoved(m1, m2, dst + size, src + size, len - size, i) && ByteMoved(m, m1, dst, src, size, i);
      if src <= i < dst + len {
        assert ByteMoved(m, m1, dst, src, size, src + (i - dst));
      }
    }
  }

  function Distance(d: nat, s: nat): nat { if d < s then s - d else d - s }

  /** vdl_memmove: the destination receives what the source held at the start, however they overlap, as long as
      no piece it is copied in reaches 2^31 bytes; a piece is as long as the move or as the distance between the
      two. A non-empty move onto itself is refused: there the code writes through a null pointer. */
  method MemMove(mem: array<Byte>, dst: nat, src: nat, len: nat) returns (ok: bool)
    requires dst + len <= mem.Length && src + len <= mem.Length
    requires len < TWO_31 || Distance(dst, src) < TWO_31
    modifies mem
    ensures ok <==> dst != src || len == 0
    ensures ok ==> Moved(old(mem[..]), mem[..], dst, src, len)
    ensures !ok ==> mem[..] == old(mem[..])
    decreases len
  {
    ghost var m := mem[..];
    var ss, se, ds, de := src, src + len, dst, dst + len;
    ok := true;
    if ss > de || se <= ds {
      CopyWhole(mem, dst, src, len);
    } else if de > se {
      var size := de - se;
      CopyWhole(mem, de - size, se - size, size);
      ghost var m1 := mem[..];
      ok := MemMove(mem, dst, src, len - size);
      TailFirst(m, m1, mem[..], dst, src, len);
    } else if ds < ss {
      var size := ss - ds;
      CopyWhole(mem, ds, ss, size);
      ghost var m1 := mem[..];
      ok := MemMove(mem, ds + size, ss + size, len - size);
      HeadFirst(m, m1, mem[..], dst, src, len);
    } else {
      ok := false;
    }
  }

  /** One piece. */
  method CopyWhole(mem: array<Byte>, d: nat, s: nat, len: nat)
    requires d + len <= mem.Length && s + len <= mem.Length && len < TWO_31
    requires d <= s || s + len <= d
    modifies mem
    ensures Moved(old(mem[..]), mem[..], d, s, len)
  {
    CopyIsWholeExactly(len);
    MemCpy(mem, d, s, len);
    CopyIsMove(old(mem[..]), mem[..], d, s, len);
  }
}
