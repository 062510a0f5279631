/** What `DataArea.load_from_zip` puts in a data area's buffer: a zero-filled
    `bytearray(size)` into which every declared chip, in declaration order,
    is copied once it has passed `check_data`. */
module Loading {
  import opened Common
  import opened Roms
  import opened Checks

  function Zeros(n: nat): (z: Bytes)
    ensures |z| == n && forall p :: 0 <= p < n ==> z[p] == 0
  {
    seq(n, _ => 0)
  }

  /** The slice assignment `buf[offset:offset+len(bytes)] = bytes` for a slice
      that lies inside the buffer. */
  function Splice(buf: Bytes, offset: int, bytes: Bytes): (r: Bytes)
    requires 0 <= offset && offset + |bytes| <= |buf|
    ensures |r| == |buf|
    ensures r[offset..offset + |bytes|] == bytes
    ensures forall p :: 0 <= p < |buf| && !(offset <= p < offset + |bytes|) ==> r[p] == buf[p]
  {
    buf[..offset] + bytes + buf[offset + |bytes|..]
  }

  /** The failure of one chip: `zip.read(name)` on an absent member, or the
      first failing test of `check_data`. */
  function ChipError(r: Rom, zip: Archive, h: Hashes): (e: Option<Error>)
    ensures e.None? <==> r.name in zip && |zip[r.name]| == r.size &&
                         h.sha1(zip[r.name]) == r.sha1 && h.crc32(zip[r.name]) == r.crc
    ensures r.name !in zip ==> e == Some(MissingMember(r.name))
  {
    if r.name !in zip then Some(MissingMember(r.name))
    else CheckData(r.name, zip[r.name], r.size, r.crc, r.sha1, h)
  }

  predicate AllFit(roms: seq<Rom>, capacity: int)
  {
    forall k :: 0 <= k < |roms| ==> Fits(roms[k], capacity)
  }

  /** The buffer after the copy loop of `load_from_zip` has run over `roms`
      starting from `base`, or the exception that stopped it. */
  function LoadRoms(base: Bytes, roms: seq<Rom>, zip: Archive, h: Hashes): (r: Result<Bytes>)
    requires AllFit(roms, |base|)
    ensures r.Ok? ==> |r.value| == |base|
    ensures r.Ok? <==> forall k :: 0 <= k < |roms| ==> ChipError(roms[k], zip, h).None?
    ensures r.Err? ==> exists k :: 0 <= k < |roms| && ChipError(roms[k], zip, h) == Some(r.error) &&
                                   forall j :: 0 <= j < k ==> ChipError(roms[j], zip, h).None?
    decreases |roms|
  {
    if roms == [] then Ok(base)
    else
      var init := roms[..|roms| - 1];
      var last := roms[|roms| - 1];
      assert forall k :: 0 <= k < |init| ==> init[k] == roms[k];
      var prev := LoadRoms(base, init, zip, h);
      if prev.Err? then prev
      else match ChipError(last, zip, h)
        case Some(e) => Err(e)
        case None => Ok(Splice(prev.value, last.offset, zip[last.name]))
  }

  /** After a successful load every declared chip holds exactly its archive
      member: later chips never overwrite earlier ones. */
  lemma {:induction false} LoadedChipHoldsMember(base: Bytes, roms: seq<Rom>, grom: bool, zip: Archive, h: Hashes, k: int)
    requires ChipsWellFormed(roms, |base|, grom)
    requires LoadRoms(base, roms, zip, h).Ok?
    requires 0 <= k < |roms|
    ensures roms[k].name in zip
    ensures var img := LoadRoms(base, roms, zip, h).value;
            img[roms[k].offset..roms[k].offset + roms[k].size] == zip[roms[k].name]
    decreases |roms|
  {
    var init := roms[..|roms| - 1];
    var last := roms[|roms| - 1];
    assert forall j :: 0 <= j < |init| ==> init[j] == roms[j];
    var img := LoadRoms(base, roms, zip, h).value;
    assert ChipError(roms[k], zip, h).None?;
    if k < |roms| - 1 {
      var prev := LoadRoms(base, init, zip, h).value;
      LoadedChipHoldsMember(base, init, grom, zip, h, k);
      assert img == Splice(prev, last.offset, zip[last.name]);
      var r := roms[k];
      forall p | r.offset <= p < r.offset + r.size
        ensures img[p] == prev[p]
      {
        WellFormedChipsDisjoint(roms, |base|, grom, k, |roms| - 1, p);
      }
      assert img[r.offset..r.offset + r.size] == prev[r.offset..r.offset + r.size];
    }
  }

  /** After a successful load, a byte that no chip covers still holds the
      byte of `base` (for `load_from_zip`, zero). */
  lemma {:induction false} LoadedOutsideChips(base: Bytes, roms: seq<Rom>, zip: Archive, h: Hashes, p: int)
    requires AllFit(roms, |base|)
    requires LoadRoms(base, roms, zip, h).Ok?
    requires 0 <= p < |base|
    requires forall k :: 0 <= k < |roms| ==> !Covers(roms[k], p)
    ensures LoadRoms(base, roms, zip, h).value[p] == base[p]
    decreases |roms|
  {
    if roms != [] {
      var init := roms[..|roms| - 1];
      assert forall j :: 0 <= j < |init| ==> init[j] == roms[j];
      LoadedOutsideChips(base, init, zip, h, p);
    }
  }
}
