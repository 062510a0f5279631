/** `DataArea` and `GromDataArea`: one class with a `grom` tag instead of a
    subclass. The tag selects the stricter capacity and chip rules and the
    repair pass run after loading. */
module DataAreas {
  import opened Common
  import opened Roms
  import opened Checks
  import opened Loading
  import opened Grom

  class DataArea {
    /** Capacity in bytes (`self.size`). */
    const size: int
    /** Built as a `GromDataArea`. */
    const grom: bool
    /** Declared chips, in declaration order (`self.roms`). */
    var roms: seq<Rom>
    /** The loaded buffer, `None` in the source until `load_from_zip`. */
    var data: array?<Byte>

    ghost predicate Valid()
      reads this
    {
      && CapacityOk(size, grom)
      && ChipsWellFormed(roms, size, grom)
      && (data != null ==> data.Length == size)
    }

    /** The constructor proper, once the capacity has passed its check. */
    constructor (size: int, grom: bool)
      requires CapacityOk(size, grom)
      ensures Valid()
      ensures this.size == size && this.grom == grom && roms == [] && data == null
    {
      this.size := size;
      this.grom := grom;
      roms := [];
      data := null;
    }

    /** `DataArea(size)` or `GromDataArea(size)`, which raise on a capacity
        their rules refuse. */
    static method Create(size: int, grom: bool) returns (r: Result<DataArea>)
      ensures r.Err? <==> !CapacityOk(size, grom)
      ensures r.Err? ==> Some(r.error) == CapacityError(size, grom)
      ensures r.Ok? ==> fresh(r.value) && r.value.Valid() && r.value.size == size &&
                        r.value.grom == grom && r.value.roms == [] && r.value.data == null
    {
      var e := CapacityError(size, grom);
      if e.Some? {
        return Err(e.value);
      }
      var a := new DataArea(size, grom);
      return Ok(a);
    }

    /** `add_rom`: on success the chip is appended; on failure nothing changes. */
    method AddRom(r: Rom) returns (err: Option<Error>)
      requires Valid()
      modifies this
      ensures Valid() && data == old(data)
      ensures err == RomError(old(roms), size, grom, r)
      ensures roms == if err.None? then old(roms) + [r] else old(roms)
    {
      if grom && r.size != GromChipSize && r.size % Bank != 0 {
        return Some(InvalidGromSize(r.size));
      }
      if grom && r.offset % Bank != 0 {
        return Some(InvalidGromOffset(r.offset));
      }
      if r.offset < 0 || r.offset + r.size > size {
        return Some(RomOutsideRange(r.name, r.size));
      }
      var k := FindOverlap(roms, r);
      var first := FirstOverlap(roms, r);
      if k.Some? {
        assert first.Some?;
        assert !(first.value < k.value);
        assert !(first.value > k.value);
        return Some(OverlappingRoms(r.name, roms[k.value].name));
      }
      AcceptedKeepsWellFormed(roms, size, grom, r);
      roms := roms + [r];
      return None;
    }

    /** `load_from_zip`: allocate the zero-filled buffer, then check and copy
        every chip in declaration order; a GROM area then runs the repair
        pass. `repaired` stands for the warning `update_garbage` prints. */
    method LoadFromZip(zip: Archive, h: Hashes) returns (err: Option<Error>, repaired: bool)
      requires Valid()
      modifies this
      ensures Valid() && roms == old(roms)
      ensures old(data) != null ==> err == Some(DataareaLoadedTwice) && data == old(data) && !repaired
      ensures old(data) == null ==> data != null && fresh(data)
      ensures old(data) == null ==>
                var img := LoadRoms(Zeros(size), roms, zip, h);
                && (err.None? <==> img.Ok?)
                && (img.Err? ==> err == Some(img.error) && !repaired)
                && (img.Ok? ==> data[..] == if grom then Degarbled(img.value, roms) else img.value)
                && (img.Ok? ==> (repaired <==> grom && RepairWarning(img.value, roms)))
    {
      if data != null {
        return Some(DataareaLoadedTwice), false;
      }
      var buf := new Byte[size](_ => 0);
      data := buf;
      err := CopyChips(buf, zip, h);
      repaired := false;
      if err.None? && grom {
        repaired := RepairGrom();
      }
    }

    /** The copy loop of `DataArea.load_from_zip` over the zero-filled `buf`. */
    method CopyChips(buf: array<Byte>, zip: Archive, h: Hashes) returns (err: Option<Error>)
      requires Valid() && buf.Length == size && forall p :: 0 <= p < buf.Length ==> buf[p] == 0
      modifies buf
      ensures var img := LoadRoms(Zeros(size), roms, zip, h);
              && (err.None? <==> img.Ok?)
              && (img.Err? ==> err == Some(img.error))
              && (img.Ok? ==> buf[..] == img.value)
    {
      ghost var zeros := Zeros(size);
      assert buf[..] == zeros;
      var i := 0;
      while i < |roms|
        invariant 0 <= i <= |roms|
        invariant AllFit(roms[..i], size)
        invariant LoadRoms(zeros, roms[..i], zip, h).Ok?
        invariant buf[..] == LoadRoms(zeros, roms[..i], zip, h).value
      {
        var r := roms[i];
        if r.name !in zip {
          FirstFailure(zeros, roms, zip, h, i);
          return Some(MissingMember(r.name));
        }
        var bytes := zip[r.name];
        var e := CheckData(r.name, bytes, r.size, r.crc, r.sha1, h);
        if e.Some? {
          FirstFailure(zeros, roms, zip, h, i);
          return e;
        }
        LoadStep(zeros, roms, zip, h, i);
        CopyInto(buf, r.offset, bytes);
        i := i + 1;
      }
      assert roms[..i] == roms;
      return None;
    }

    /** The slice assignment `self.data[offset:offset+size] = data`. */
    static method CopyInto(buf: array<Byte>, offset: int, bytes: Bytes)
      requires 0 <= offset && offset + |bytes| <= buf.Length
      modifies buf
      ensures buf[..] == Splice(old(buf[..]), offset, bytes)
    {
      forall j | 0 <= j < |bytes| {
        buf[offset + j] := bytes[j];
      }
    }

    /** A chip that passes is copied over the buffer the earlier chips left. */
    static lemma LoadStep(zeros: Bytes, roms: seq<Rom>, zip: Archive, h: Hashes, i: int)
      requires 0 <= i < |roms| && AllFit(roms, |zeros|)
      requires LoadRoms(zeros, roms[..i], zip, h).Ok?
      requires ChipError(roms[i], zip, h).None?
      ensures AllFit(roms[..i + 1], |zeros|)
      ensures LoadRoms(zeros, roms[..i + 1], zip, h) ==
              Ok(Splice(LoadRoms(zeros, roms[..i], zip, h).value, roms[i].offset, zip[roms[i].name]))
    {
      assert roms[..i + 1][..i] == roms[..i] && roms[..i + 1][i] == roms[i];
    }

    /** The first chip that fails decides the error of the whole load. */
    static lemma FirstFailure(zeros: Bytes, roms: seq<Rom>, zip: Archive, h: Hashes, i: int)
      requires 0 <= i < |roms| && AllFit(roms, |zeros|)
      requires LoadRoms(zeros, roms[..i], zip, h).Ok?
      requires ChipError(roms[i], zip, h).Some?
      ensures LoadRoms(zeros, roms, zip, h) == Err(ChipError(roms[i], zip, h).value)
    {
      var pre := roms[..i];
      assert forall k :: 0 <= k < i ==> pre[k] == roms[k];
      var img := LoadRoms(zeros, roms, zip, h);
      var k :| 0 <= k < |roms| && ChipError(roms[k], zip, h) == Some(img.error) &&
               forall j :: 0 <= j < k ==> ChipError(roms[j], zip, h).None?;
      assert k == i;
    }

    /** The loop of `GromDataArea.load_from_zip` over every chip. */
    method RepairGrom() returns (repaired: bool)
      requires Valid() && grom && data != null
      modifies data
      ensures data[..] == Degarbled(old(data[..]), roms)
      ensures repaired <==> RepairWarning(old(data[..]), roms)
    {
      ghost var pre := data[..];
      ghost var ws: set<int> := {};
      repaired := false;
      var i := 0;
      while i < |roms|
        invariant 0 <= i <= |roms|
        invariant forall w :: w in ws <==> RepairedWindow(roms[..i], |pre|, w)
        invariant data[..] == Fix(pre, ws)
        invariant repaired <==> RepairWarning(pre, roms[..i])
      {
        var fixed;
        fixed, ws := RepairChip(i, pre, ws);
        RepairWarningExtend(pre, roms, i);
        repaired := repaired || fixed;
        i := i + 1;
      }
      assert roms[..i] == roms;
      FixIsDegarbled(pre, ws, roms);
    }

    /** The inner loop of `GromDataArea.load_from_zip`: `update_garbage` on
        every bank of chip `roms[i]` whose first 0x1800 bytes lie inside the
        area. `pre` is the buffer before the pass and `ws` the banks the pass
        has repaired so far. */
    method RepairChip(i: int, ghost pre: Bytes, ghost ws: set<int>) returns (fixed: bool, ghost ws': set<int>)
      requires Valid() && grom && data != null && 0 <= i < |roms| && |pre| == data.Length
      requires forall w :: w in ws <==> RepairedWindow(roms[..i], |pre|, w)
      requires data[..] == Fix(pre, ws)
      modifies data
      ensures forall w :: w in ws' <==> RepairedWindow(roms[..i + 1], |pre|, w)
      ensures data[..] == Fix(pre, ws')
      ensures fixed <==> exists p :: RepairsChipByte(pre, roms[i], p)
    {
      var n := data.Length;
      var r := roms[i];
      assert GromChipOk(r) && 0 <= r.offset;
      var o := r.offset;
      fixed := false;
      ws' := ws;
      while o < r.offset + r.size
        invariant r.offset <= o && (o - r.offset) % Bank == 0
        invariant forall w :: w in ws' <==>
                    RepairedWindow(roms[..i], n, w) || (w + GromChipSize < n && ChipWindow(r, w) && w < o)
        invariant data[..] == Fix(pre, ws')
        invariant fixed <==> exists p :: RepairsChipByte(pre, r, p) && WindowStart(p) < o
        decreases r.offset + r.size - o
      {
        WarningsBelowNextBank(pre, r, o);
        var f;
        f, ws' := RepairBank(i, o, pre, ws');
        fixed := fixed || f;
        NextBankAligned(o - r.offset);
        o := o + Bank;
      }
      forall w | true
        ensures RepairedWindow(roms[..i + 1], n, w) <==>
                RepairedWindow(roms[..i], n, w) || (w + GromChipSize < n && ChipWindow(r, w) && w < o)
      {
        RepairedWindowExtend(roms, i, n, w);
      }
    }

    /** One pass of the inner loop: bank `o` of chip `roms[i]` is repaired
        when its first 0x1800 bytes lie inside the area. */
    method RepairBank(i: int, o: int, ghost pre: Bytes, ghost ws: set<int>) returns (fixed: bool, ghost ws': set<int>)
      requires Valid() && grom && data != null && 0 <= i < |roms| && |pre| == data.Length
      requires ChipWindow(roms[i], o)
      requires forall w :: w in ws <==>
                 RepairedWindow(roms[..i], |pre|, w) || (w + GromChipSize < |pre| && ChipWindow(roms[i], w) && w < o)
      requires data[..] == Fix(pre, ws)
      modifies data
      ensures forall w :: w in ws' <==>
                RepairedWindow(roms[..i], |pre|, w) || (w + GromChipSize < |pre| && ChipWindow(roms[i], w) && w < o + Bank)
      ensures data[..] == Fix(pre, ws')
      ensures fixed <==> exists p :: RepairsChipByte(pre, roms[i], p) && WindowStart(p) == o
    {
      var n := data.Length;
      var r := roms[i];
      assert GromChipOk(r) && 0 <= r.offset;
      WindowHasChipData(r, o);
      fixed, ws' := false, ws;
      if o + GromChipSize < n {
        WindowFitsCapacity(n, o);
        if o + Bank <= n {
          OwnBankNotEarlier(roms, size, grom, i, o, n);
          FreshBankFlag(pre, ws, r, o);
          fixed := UpdateGarbage(o, r.offset + r.size - o);
          FixAddWindow(pre, ws, o);
          ws' := ws + {o};
        } else {
          assert false;
        }
      }
      forall w | ChipWindow(r, w) && w < o + Bank
        ensures w <= o
      {
        if w > o {
          ChipWindowsApart(r, o, w);
        }
      }
    }

    /** `update_garbage` on the bank at `offs`, whose chip still has
        `datasize` bytes from `offs` on: every tail byte becomes the OR of
        the bytes 0x1000 and 0x800 before it; `fixed` reports a changed
        byte inside the chip. */
    method UpdateGarbage(offs: int, datasize: int) returns (fixed: bool)
      requires data != null && 0 <= offs && offs % Bank == 0 && offs + Bank <= data.Length
      requires datasize >= GromChipSize
      modifies data
      ensures data[..] == Fix(old(data[..]), {offs})
      ensures fixed <==> exists p :: offs + GromChipSize <= p < offs + Bank && p < offs + datasize &&
                                     old(data[p]) != Garbage(old(data[..]), p)
    {
      var d := data;
      ghost var pre := d[..];
      fixed := false;
      var o := 0;
      while o < TailLen
        invariant 0 <= o <= TailLen
        invariant forall p :: 0 <= p < d.Length && !(offs + GromChipSize <= p < offs + GromChipSize + o) ==> d[p] == pre[p]
        invariant forall p :: offs + GromChipSize <= p < offs + GromChipSize + o ==> d[p] == Garbage(pre, p)
        invariant fixed <==> exists p :: offs + GromChipSize <= p < offs + GromChipSize + o && p < offs + datasize &&
                                         pre[p] != Garbage(pre, p)
      {
        ghost var q := offs + GromChipSize + o;
        var garbage := d[offs + 0x800 + o] | d[offs + 0x1000 + o];
        assert garbage == Garbage(pre, q);
        ghost var fixedBefore := fixed;
        if d[offs + 0x1800 + o] != garbage {
          if 0x1800 + o < datasize {
            fixed := true;
          }
          d[offs + 0x1800 + o] := garbage;
        }
        assert fixed <==> fixedBefore || (q < offs + datasize && pre[q] != Garbage(pre, q));
        o := o + 1;
      }
      TailRepairedFix(pre, offs);
      assert d[..] == TailRepaired(pre, offs, TailLen);
    }
  }
}
