/** The GROM read-back artefact that `GromDataArea.load_from_zip` restores:
    in every 8 KiB bank a chip occupies, the last 0x800 bytes read back as the
    OR of the bytes 0x1000 and 0x800 before them. */
module Grom {
  import opened Common
  import opened Roms

  /** Length of the reconstructed tail of a bank. */
  const TailLen: int := 0x800

  /** First byte of the bank that holds byte `p`. */
  function WindowStart(p: int): (w: int)
    ensures w % Bank == 0 && w <= p < w + Bank
  {
    p - p % Bank
  }

  /** Byte `p` lies in the last 0x800 bytes of its bank. */
  predicate InTail(p: int)
  {
    p % Bank >= GromChipSize
  }

  /** What the hardware returns at tail byte `p`: the OR of the bytes 0x1000
      and 0x800 before it (offsets 0x800+o and 0x1000+o of the bank). */
  function Garbage(s: Bytes, p: int): Byte
    requires 0x1000 <= p < |s|
  {
    s[p - 0x1000] | s[p - 0x800]
  }

  /** `range(offset, offset+size, 0x2000)` of chip `r` contains bank start `w`. */
  predicate ChipWindow(r: Rom, w: int)
  {
    r.offset <= w < r.offset + r.size && (w - r.offset) % Bank == 0
  }

  /** The load loop calls `update_garbage` on bank `w`: some chip covers it
      and `w + 0x1800 < len(self.data)`. */
  ghost predicate RepairedWindow(roms: seq<Rom>, capacity: int, w: int)
  {
    w + GromChipSize < capacity && exists k :: 0 <= k < |roms| && ChipWindow(roms[k], w)
  }

  /** `s` with the tails of the banks in `ws` replaced by their garbage. */
  function Fix(s: Bytes, ws: set<int>): (r: Bytes)
    ensures |r| == |s|
  {
    seq(|s|, p requires 0 <= p < |s| =>
      if InTail(p) && WindowStart(p) in ws && p >= 0x1000 then Garbage(s, p) else s[p])
  }

  /** `s` with the first `n` tail bytes of the bank at `offs` replaced by
      their garbage: the state of `update_garbage` after `n` iterations. */
  function TailRepaired(s: Bytes, offs: int, n: int): (r: Bytes)
    requires 0 <= offs && 0 <= n <= TailLen && offs + GromChipSize + n <= |s|
    ensures |r| == |s|
  {
    seq(|s|, p requires 0 <= p < |s| =>
      if offs + GromChipSize <= p < offs + GromChipSize + n then Garbage(s, p) else s[p])
  }

  /** After the whole tail, the bank at `offs` is repaired as `Fix` says. */
  lemma TailRepairedFix(s: Bytes, offs: int)
    requires 0 <= offs && offs % Bank == 0 && offs + Bank <= |s|
    ensures TailRepaired(s, offs, TailLen) == Fix(s, {offs})
  {
    forall p | 0 <= p < |s|
      ensures TailRepaired(s, offs, TailLen)[p] == Fix(s, {offs})[p]
    {
      if offs <= p < offs + Bank {
        BankOf(offs, p);
      } else {
        assert WindowStart(p) != offs;
      }
    }
  }

  /** The buffer after the repair pass of `GromDataArea.load_from_zip` over
      the freshly loaded buffer `s`. */
  ghost function Degarbled(s: Bytes, roms: seq<Rom>): (r: Bytes)
    ensures |r| == |s|
  {
    seq(|s|, p requires 0 <= p < |s| =>
      if InTail(p) && RepairedWindow(roms, |s|, WindowStart(p)) && p >= 0x1000 then Garbage(s, p) else s[p])
  }

  /** A tail byte of a bank that starts at or after 0 is at least 0x1800. */
  lemma TailByteBound(p: int)
    requires 0 <= p && InTail(p)
    ensures p >= GromChipSize && WindowStart(p) >= 0
  {
  }

  /** The bytes a tail byte is computed from lie in the same bank and outside
      every tail, so a repair never reads a byte that another repair writes. */
  lemma SourcesOutsideTails(p: int, d: int)
    requires InTail(p) && (d == 0x800 || d == 0x1000)
    ensures !InTail(p - d) && WindowStart(p - d) == WindowStart(p)
  {
    var w := WindowStart(p);
    assert p - d == w + (p % Bank - d);
    assert 0 <= p % Bank - d < Bank;
    assert (p - d) % Bank == p % Bank - d;
  }

  /** In a GROM area whose capacity passes the constructor's rule, a bank
      whose first 0x1800 bytes fit also has room for its whole tail: the
      `garbagesize` else-branch of the load loop is never taken. */
  lemma WindowFitsCapacity(capacity: int, w: int)
    requires GromCapacityOk(capacity)
    requires w % Bank == 0 && w + GromChipSize < capacity
    ensures w + Bank <= capacity
  {
    var q := capacity / Bank;
    var j := w / Bank;
    assert capacity == Bank * q + capacity % Bank;
    assert w == Bank * j;
    assert j < q;
  }

  /** A bank of a chip that passes `GromDataArea.add_rom` starts on a bank
      boundary and at least 0x1800 bytes of the chip remain from it: the
      `Too little data` error of `update_garbage` is never raised. */
  lemma WindowHasChipData(r: Rom, w: int)
    requires GromChipOk(r) && ChipWindow(r, w)
    ensures w % Bank == 0
    ensures r.offset + r.size - w >= GromChipSize
  {
    var i := (w - r.offset) / Bank;
    assert w - r.offset == Bank * i;
    assert r.offset == Bank * (r.offset / Bank);
    assert w == Bank * (r.offset / Bank + i);
    if r.size != GromChipSize {
      var n := r.size / Bank;
      assert r.size == Bank * n;
      assert i < n;
      assert r.offset + r.size - w == Bank * (n - i);
    }
  }

  /** Repairing one more bank on top of an already repaired buffer gives the
      buffer with both sets repaired. */
  lemma FixAddWindow(s: Bytes, ws: set<int>, w: int)
    requires w % Bank == 0 && 0 <= w && w + Bank <= |s|
    ensures Fix(Fix(s, ws), {w}) == Fix(s, ws + {w})
  {
    var t := Fix(s, ws);
    forall p | 0 <= p < |s|
      ensures Fix(t, {w})[p] == Fix(s, ws + {w})[p]
    {
      if InTail(p) && p >= 0x1000 {
        SourcesOutsideTails(p, 0x800);
        SourcesOutsideTails(p, 0x1000);
        assert t[p - 0x800] == s[p - 0x800] && t[p - 0x1000] == s[p - 0x1000];
      }
    }
  }

  /** After the repair pass every repaired bank is consistent: each tail byte
      is the OR of the bytes 0x800 and 0x1000 into the same bank. */
  lemma {:induction false} DegarbledConsistent(s: Bytes, roms: seq<Rom>, w: int, i: int)
    requires GromCapacityOk(|s|)
    requires forall k :: 0 <= k < |roms| ==> GromChipOk(roms[k]) && 0 <= roms[k].offset
    requires RepairedWindow(roms, |s|, w)
    requires 0 <= i < TailLen
    ensures w + Bank <= |s|
    ensures var r := Degarbled(s, roms);
            r[w + 0x1800 + i] == r[w + 0x800 + i] | r[w + 0x1000 + i]
  {
    var k :| 0 <= k < |roms| && ChipWindow(roms[k], w);
    WindowHasChipData(roms[k], w);
    WindowFitsCapacity(|s|, w);
    var p := w + 0x1800 + i;
    assert p % Bank == 0x1800 + i by {
      assert p == Bank * (w / Bank) + (0x1800 + i);
    }
    assert WindowStart(p) == w;
    SourcesOutsideTails(p, 0x800);
    SourcesOutsideTails(p, 0x1000);
  }

  /** Bytes outside the repaired tails are left as loaded. */
  lemma DegarbledKeepsOthers(s: Bytes, roms: seq<Rom>, p: int)
    requires 0 <= p < |s|
    requires !InTail(p) || !RepairedWindow(roms, |s|, WindowStart(p))
    ensures Degarbled(s, roms)[p] == s[p]
  {
  }

  /** In a GROM area ending in a 6 KiB partial bank, that bank is never
      repaired: none of its bytes change. */
  lemma PartialBankUntouched(s: Bytes, roms: seq<Rom>, p: int)
    requires |s| % Bank == GromChipSize
    requires |s| - GromChipSize <= p < |s|
    ensures Degarbled(s, roms)[p] == s[p]
  {
    var w := |s| - GromChipSize;
    assert w % Bank == 0;
    assert WindowStart(p) == w by {
      assert p == w + (p - w) && 0 <= p - w < Bank;
      assert p == Bank * (w / Bank) + (p - w);
    }
    assert !RepairedWindow(roms, |s|, WindowStart(p));
  }

  /** Running the repair pass a second time changes nothing. */
  lemma DegarbledIdempotent(s: Bytes, roms: seq<Rom>)
    ensures Degarbled(Degarbled(s, roms), roms) == Degarbled(s, roms)
  {
    var r := Degarbled(s, roms);
    forall p | 0 <= p < |s|
      ensures Degarbled(r, roms)[p] == r[p]
    {
      if InTail(p) && RepairedWindow(roms, |s|, WindowStart(p)) && p >= 0x1000 {
        SourcesOutsideTails(p, 0x800);
        SourcesOutsideTails(p, 0x1000);
      }
    }
  }

  /** The repair pass leaves a buffer unchanged exactly when every repaired
      tail byte already equals its garbage (all-zero data, for one). */
  lemma DegarbledUnchangedIff(s: Bytes, roms: seq<Rom>)
    ensures Degarbled(s, roms) == s <==>
            forall p :: 0x1000 <= p < |s| && InTail(p) && RepairedWindow(roms, |s|, WindowStart(p)) ==> s[p] == Garbage(s, p)
  {
    var r := Degarbled(s, roms);
    if r == s {
      forall p | 0x1000 <= p < |s| && InTail(p) && RepairedWindow(roms, |s|, WindowStart(p))
        ensures s[p] == Garbage(s, p)
      {
        assert r[p] == Garbage(s, p);
      }
    } else {
      var p :| 0 <= p < |s| && r[p] != s[p];
      assert 0x1000 <= p && InTail(p) && RepairedWindow(roms, |s|, WindowStart(p));
    }
  }

  /** Byte `p` of the bank that starts at the aligned address `w`. */
  lemma BankOf(w: int, p: int)
    requires w % Bank == 0 && w <= p < w + Bank
    ensures WindowStart(p) == w && p % Bank == p - w
  {
    assert p == Bank * (w / Bank) + (p - w);
  }

  /** Chip byte `p` is rewritten by the repair of its bank to a different
      value and lies inside the chip's declared data (`0x1800+o < datasize`),
      the case in which `update_garbage` warns. */
  ghost predicate RepairsChipByte(s: Bytes, r: Rom, p: int)
  {
    && 0x1000 <= p < |s| && InTail(p)
    && ChipWindow(r, WindowStart(p)) && WindowStart(p) + GromChipSize < |s|
    && p < r.offset + r.size
    && s[p] != Garbage(s, p)
  }

  /** The repair pass over `s` prints at least one warning. */
  ghost predicate RepairWarning(s: Bytes, roms: seq<Rom>)
  {
    exists k, p :: 0 <= k < |roms| && RepairsChipByte(s, roms[k], p)
  }

  /** The banks repaired for one more chip. */
  lemma RepairedWindowExtend(roms: seq<Rom>, i: int, capacity: int, w: int)
    requires 0 <= i < |roms|
    ensures RepairedWindow(roms[..i + 1], capacity, w) <==>
            RepairedWindow(roms[..i], capacity, w) || (w + GromChipSize < capacity && ChipWindow(roms[i], w))
  {
    var a, b := roms[..i], roms[..i + 1];
    assert b[i] == roms[i];
    assert forall k :: 0 <= k < i ==> a[k] == b[k];
  }

  /** The warnings printed for one more chip. */
  lemma RepairWarningExtend(s: Bytes, roms: seq<Rom>, i: int)
    requires 0 <= i < |roms|
    ensures RepairWarning(s, roms[..i + 1]) <==>
            RepairWarning(s, roms[..i]) || exists p :: RepairsChipByte(s, roms[i], p)
  {
    var a, b := roms[..i], roms[..i + 1];
    assert b[i] == roms[i];
    assert forall k :: 0 <= k < i ==> a[k] == b[k];
    if RepairWarning(s, b) {
      var k, p :| 0 <= k < |b| && RepairsChipByte(s, b[k], p);
      if k < i {
        assert RepairsChipByte(s, a[k], p);
      }
    }
    if RepairWarning(s, a) {
      var k, p :| 0 <= k < |a| && RepairsChipByte(s, a[k], p);
      assert RepairsChipByte(s, b[k], p);
    }
    if p :| RepairsChipByte(s, roms[i], p) {
      assert RepairsChipByte(s, b[i], p);
    }
  }

  /** When the repaired set of banks is exactly the banks the load loop
      visits, the partial repair is the whole pass. */
  lemma FixIsDegarbled(s: Bytes, ws: set<int>, roms: seq<Rom>)
    requires forall w :: w in ws <==> RepairedWindow(roms, |s|, w)
    ensures Fix(s, ws) == Degarbled(s, roms)
  {
  }

  /** The flag `update_garbage` returns for a bank not yet repaired, stated
      on the buffer as it was before the pass. */
  lemma FreshBankFlag(pre: Bytes, ws: set<int>, r: Rom, o: int)
    requires o % Bank == 0 && 0 <= o && o + Bank <= |pre| && o !in ws
    requires ChipWindow(r, o)
    ensures var t := Fix(pre, ws);
            (exists p :: o + GromChipSize <= p < o + Bank && p < r.offset + r.size && t[p] != Garbage(t, p)) <==>
            (exists p :: RepairsChipByte(pre, r, p) && WindowStart(p) == o)
  {
    var t := Fix(pre, ws);
    forall p | o + GromChipSize <= p < o + Bank
      ensures t[p] == pre[p] && Garbage(t, p) == Garbage(pre, p)
      ensures WindowStart(p) == o && InTail(p)
    {
      BankOf(o, p);
      SourcesOutsideTails(p, 0x800);
      SourcesOutsideTails(p, 0x1000);
    }
    if p :| RepairsChipByte(pre, r, p) && WindowStart(p) == o {
      assert o <= p < o + Bank;
      BankOf(o, p);
      assert o + GromChipSize <= p;
    }
  }

  /** Two bank starts of the same chip are at least a bank apart. */
  lemma ChipWindowsApart(r: Rom, v: int, w: int)
    requires ChipWindow(r, v) && ChipWindow(r, w) && v < w
    ensures v + Bank <= w
  {
    var a := (v - r.offset) / Bank;
    var b := (w - r.offset) / Bank;
    assert v - r.offset == Bank * a && w - r.offset == Bank * b;
    assert a < b;
  }

  /** The warnings for the banks of `r` below `o + 0x2000` are those below
      `o` and those of bank `o` itself. */
  lemma WarningsBelowNextBank(s: Bytes, r: Rom, o: int)
    requires ChipWindow(r, o)
    ensures (exists p :: RepairsChipByte(s, r, p) && WindowStart(p) < o + Bank) <==>
            (exists p :: RepairsChipByte(s, r, p) && WindowStart(p) < o) ||
            (exists p :: RepairsChipByte(s, r, p) && WindowStart(p) == o)
  {
    if p :| RepairsChipByte(s, r, p) && WindowStart(p) < o + Bank {
      if WindowStart(p) > o {
        ChipWindowsApart(r, o, WindowStart(p));
      }
    }
  }

  /** In a well-formed chip list a bank of chip `roms[i]` belongs to no
      earlier chip, so the pass visits every bank at most once. */
  lemma OwnBankNotEarlier(roms: seq<Rom>, capacity: int, grom: bool, i: int, o: int, n: int)
    requires ChipsWellFormed(roms, capacity, grom) && 0 <= i < |roms| && ChipWindow(roms[i], o)
    ensures !RepairedWindow(roms[..i], n, o)
  {
    forall k | 0 <= k < i
      ensures !ChipWindow(roms[..i][k], o)
    {
      assert roms[..i][k] == roms[k];
      WellFormedChipsDisjoint(roms, capacity, grom, k, i, o);
    }
  }

  lemma NextBankAligned(x: int)
    requires x % Bank == 0
    ensures (x + Bank) % Bank == 0
  {
    assert x == Bank * (x / Bank);
    assert x + Bank == Bank * (x / Bank + 1);
  }
}
