/** The rules a data area puts on its capacity and on the ROM chips declared in
    it (`DataArea.__init__`, `DataArea.add_rom` and their `GromDataArea`
    refinements), stated as functions on values. */
module Roms {
  import opened Common

  /** A `(name, size, crc, sha1, offset)` tuple of `DataArea.roms`. */
  datatype Rom = Rom(name: string, size: int, crc: string, sha1: string, offset: int)

  /** Largest capacity of any data area. */
  const MaxCapacity: int := 0x10000
  /** A GROM bank: the 8 KiB window a single GROM chip answers for. */
  const Bank: int := 0x2000
  /** A GROM chip stores only the first 6 KiB of its bank. */
  const GromChipSize: int := 0x1800
  /** Largest capacity of a GROM data area (five banks). */
  const MaxGromCapacity: int := 0xa000

  /** The capacity rule of `GromDataArea.__init__`. */
  predicate GromCapacityOk(size: int)
  {
    (size % Bank == 0 || size % Bank == GromChipSize) && size <= MaxGromCapacity
  }

  predicate CapacityOk(size: int, grom: bool)
  {
    0 <= size <= MaxCapacity && (grom ==> GromCapacityOk(size))
  }

  /** The error the constructor raises, if any: the GROM test runs first
      (`GromDataArea.__init__` calls `DataArea.__init__` only afterwards). */
  function CapacityError(size: int, grom: bool): (e: Option<Error>)
    ensures e.None? <==> CapacityOk(size, grom)
    ensures e.Some? && grom && !GromCapacityOk(size) ==> e == Some(InvalidGromDataareaSize(size))
    ensures e.Some? && (!grom || GromCapacityOk(size)) ==> e == Some(InvalidDataareaSize(size))
  {
    if grom && !GromCapacityOk(size) then Some(InvalidGromDataareaSize(size))
    else if size < 0 || size > MaxCapacity then Some(InvalidDataareaSize(size))
    else None
  }

  /** The GROM capacities that are accepted are exactly the whole numbers of
      banks up to five, optionally followed by one 6 KiB partial bank. */
  lemma GromCapacities(size: int)
    ensures CapacityOk(size, true) <==>
              size in {0, 0x1800, 0x2000, 0x3800, 0x4000, 0x5800, 0x6000, 0x7800, 0x8000, 0x9800, 0xa000}
  {
    if CapacityOk(size, true) {
      var q := size / Bank;
      assert size == Bank * q + size % Bank;
      assert 0 <= q <= 5;
      if q == 0 { } else if q == 1 { } else if q == 2 { } else if q == 3 { } else if q == 4 { } else { }
    }
  }

  /** `0 <= offset` and `offset + size <= capacity`: the bounds test of `add_rom`. */
  predicate Fits(r: Rom, capacity: int)
  {
    0 <= r.offset && r.offset + r.size <= capacity
  }

  /** The chip rule of `GromDataArea.add_rom`. */
  predicate GromChipOk(r: Rom)
  {
    (r.size == GromChipSize || r.size % Bank == 0) && r.offset % Bank == 0
  }

  /** The overlap test of `add_rom` between a new chip `r` and a declared
      chip `other`: either start lies inside the other chip. */
  predicate Overlaps(r: Rom, other: Rom)
  {
    (r.offset <= other.offset && r.offset + r.size > other.offset) ||
    (r.offset >= other.offset && r.offset < other.offset + other.size)
  }

  /** Byte `p` lies inside chip `r`. */
  predicate Covers(r: Rom, p: int)
  {
    r.offset <= p < r.offset + r.size
  }

  /** The overlap test does not depend on which chip came first, and for
      chips of positive size it is exactly the intersection of their
      half-open byte ranges. */
  lemma OverlapIsIntersection(a: Rom, b: Rom)
    ensures Overlaps(a, b) <==> Overlaps(b, a)
    ensures a.size > 0 && b.size > 0 ==> (Overlaps(a, b) <==> exists p :: Covers(a, p) && Covers(b, p))
  {
    if a.size > 0 && b.size > 0 && Overlaps(a, b) {
      var p := if a.offset <= b.offset then b.offset else a.offset;
      assert Covers(a, p) && Covers(b, p);
    }
  }

  /** Chips that pass the overlap test share no byte, whatever their sizes. */
  lemma NotOverlappingIsDisjoint(a: Rom, b: Rom, p: int)
    requires !Overlaps(a, b)
    ensures !(Covers(a, p) && Covers(b, p))
  {
  }

  /** The invariant `add_rom` keeps on `DataArea.roms`. */
  predicate ChipsWellFormed(roms: seq<Rom>, capacity: int, grom: bool)
  {
    && (forall k :: 0 <= k < |roms| ==> Fits(roms[k], capacity) && (grom ==> GromChipOk(roms[k])))
    && (forall i, j :: 0 <= i < j < |roms| ==> !Overlaps(roms[j], roms[i]))
  }

  /** Index of the first declared chip that `r` overlaps, the one named in
      the `Overlapping roms` message. */
  function FirstOverlap(roms: seq<Rom>, r: Rom): (k: Option<nat>)
    ensures k.Some? ==> k.value < |roms| && Overlaps(r, roms[k.value])
    ensures k.Some? ==> forall j :: 0 <= j < k.value ==> !Overlaps(r, roms[j])
    ensures k.None? ==> forall j :: 0 <= j < |roms| ==> !Overlaps(r, roms[j])
  {
    if roms == [] then None
    else if Overlaps(r, roms[0]) then Some(0)
    else match FirstOverlap(roms[1..], r)
      case None => None
      case Some(k) => Some(k + 1)
  }

  /** The loop of `add_rom` over the declared chips. */
  method FindOverlap(roms: seq<Rom>, r: Rom) returns (k: Option<nat>)
    ensures k.Some? ==> k.value < |roms| && Overlaps(r, roms[k.value])
    ensures k.Some? ==> forall j :: 0 <= j < k.value ==> !Overlaps(r, roms[j])
    ensures k.None? ==> forall j :: 0 <= j < |roms| ==> !Overlaps(r, roms[j])
  {
    var i := 0;
    while i < |roms|
      invariant 0 <= i <= |roms|
      invariant forall j :: 0 <= j < i ==> !Overlaps(r, roms[j])
    {
      if Overlaps(r, roms[i]) {
        return Some(i);
      }
      i := i + 1;
    }
    return None;
  }

  /** Everything `add_rom` demands of a new chip. */
  predicate RomAccepted(roms: seq<Rom>, capacity: int, grom: bool, r: Rom)
  {
    && (grom ==> GromChipOk(r))
    && Fits(r, capacity)
    && forall j :: 0 <= j < |roms| ==> !Overlaps(r, roms[j])
  }

  /** The exception `add_rom` raises for chip `r`, in the order the source
      tests: GROM size, GROM offset, bounds, then the first overlap. */
  function RomError(roms: seq<Rom>, capacity: int, grom: bool, r: Rom): (e: Option<Error>)
    ensures e.None? <==> RomAccepted(roms, capacity, grom, r)
    ensures grom && r.size != GromChipSize && r.size % Bank != 0 ==> e == Some(InvalidGromSize(r.size))
    ensures grom && (r.size == GromChipSize || r.size % Bank == 0) && r.offset % Bank != 0 ==>
              e == Some(InvalidGromOffset(r.offset))
    ensures (grom ==> GromChipOk(r)) && !Fits(r, capacity) ==> e == Some(RomOutsideRange(r.name, r.size))
    ensures (grom ==> GromChipOk(r)) && Fits(r, capacity) && FirstOverlap(roms, r).Some? ==>
              e == Some(OverlappingRoms(r.name, roms[FirstOverlap(roms, r).value].name))
    ensures e.Some? && e.value.OverlappingRoms? ==>
              exists j :: 0 <= j < |roms| && Overlaps(r, roms[j]) && e.value.other == roms[j].name
  {
    if grom && r.size != GromChipSize && r.size % Bank != 0 then Some(InvalidGromSize(r.size))
    else if grom && r.offset % Bank != 0 then Some(InvalidGromOffset(r.offset))
    else if r.offset < 0 || r.offset + r.size > capacity then Some(RomOutsideRange(r.name, r.size))
    else match FirstOverlap(roms, r)
      case Some(k) => Some(OverlappingRoms(r.name, roms[k].name))
      case None => None
  }

  /** A chip that `add_rom` accepts keeps the chip list well formed. */
  lemma AcceptedKeepsWellFormed(roms: seq<Rom>, capacity: int, grom: bool, r: Rom)
    requires ChipsWellFormed(roms, capacity, grom)
    requires RomError(roms, capacity, grom, r).None?
    ensures ChipsWellFormed(roms + [r], capacity, grom)
  {
    var s := roms + [r];
    forall i, j | 0 <= i < j < |s|
      ensures !Overlaps(s[j], s[i])
    {
      if j == |roms| {
        assert s[j] == r && s[i] == roms[i];
      } else {
        assert s[j] == roms[j] && s[i] == roms[i];
      }
    }
  }

  /** Two chips can be declared one after the other in either order, or in
      neither: declaration order never decides acceptance. */
  lemma DeclarationOrderIrrelevant(roms: seq<Rom>, capacity: int, grom: bool, a: Rom, b: Rom)
    ensures (RomError(roms, capacity, grom, a).None? && RomError(roms + [a], capacity, grom, b).None?) <==>
            (RomError(roms, capacity, grom, b).None? && RomError(roms + [b], capacity, grom, a).None?)
  {
    OverlapIsIntersection(a, b);
    assert (roms + [a])[|roms|] == a;
    assert (roms + [b])[|roms|] == b;
    assert forall j :: 0 <= j < |roms| ==> (roms + [a])[j] == roms[j] && (roms + [b])[j] == roms[j];
  }

  /** In a well-formed chip list no byte belongs to two chips. */
  lemma WellFormedChipsDisjoint(roms: seq<Rom>, capacity: int, grom: bool, i: int, j: int, p: int)
    requires ChipsWellFormed(roms, capacity, grom)
    requires 0 <= i < |roms| && 0 <= j < |roms| && i != j
    ensures !(Covers(roms[i], p) && Covers(roms[j], p))
  {
    if i < j {
      NotOverlappingIsDisjoint(roms[j], roms[i], p);
    } else {
      NotOverlappingIsDisjoint(roms[i], roms[j], p);
    }
  }
}
