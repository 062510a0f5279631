/** `Cartridge`: one software-list entry being built by the catalog handler
    (its metadata, its PCB type and its data areas), and its loading. */
module Cartridges {
  import opened Common
  import opened Roms
  import opened Loading
  import opened Grom
  import opened Metadata
  import opened DataAreas

  /** The data area names `get_dataarea` accepts. */
  const Kinds: set<string> := {"rom", "grom", "ram", "nvram"}

  const SocketSuffix: string := "_socket"

  predicate HasSocketSuffix(name: string)
  {
    |name| >= |SocketSuffix| && name[|name| - |SocketSuffix|..] == SocketSuffix
  }

  /** `name[:-7]` when `name` ends with `_socket`, else `name`. */
  function SocketKind(name: string): (k: string)
    ensures HasSocketSuffix(name) ==> k + SocketSuffix == name
    ensures !HasSocketSuffix(name) ==> k == name
  {
    if HasSocketSuffix(name) then name[..|name| - |SocketSuffix|] else name
  }

  /** Both spellings of a socket, bare and suffixed, name the same data area;
      every accepted kind is its own bare spelling. */
  lemma SocketSpellings(k: string)
    ensures SocketKind(k + SocketSuffix) == k
    ensures k in Kinds ==> SocketKind(k) == k
  {
    var s := k + SocketSuffix;
    assert s[|s| - |SocketSuffix|..] == SocketSuffix;
    assert s[..|s| - |SocketSuffix|] == k;
  }

  /** The buffer of an area after a successful `load_from_zip`: the chips
      copied into zeros, GROM tails repaired. */
  ghost predicate LoadedFrom(a: DataArea, zip: Archive, h: Hashes)
    reads a, a.data
  {
    && a.Valid()
    && a.data != null
    && var img := LoadRoms(Zeros(a.size), a.roms, zip, h);
    && img.Ok?
    && a.data[..] == if a.grom then Degarbled(img.value, a.roms) else img.value
  }

  /** What `load_from_zip` depends on in one data area: its capacity, its
      chips, whether it is a GROM area and whether it was loaded before. */
  datatype AreaState = AreaState(size: int, roms: seq<Rom>, grom: bool, loaded: bool)

  predicate StateOk(s: AreaState)
  {
    0 <= s.size && AllFit(s.roms, s.size)
  }

  /** The exception `DataArea.load_from_zip` raises on an area in state `s`. */
  function AreaLoadError(s: AreaState, zip: Archive, h: Hashes): (e: Option<Error>)
    requires StateOk(s)
    ensures s.loaded ==> e == Some(DataareaLoadedTwice)
    ensures !s.loaded ==> (e.None? <==> forall k :: 0 <= k < |s.roms| ==> ChipError(s.roms[k], zip, h).None?)
  {
    if s.loaded then Some(DataareaLoadedTwice)
    else
      var img := LoadRoms(Zeros(s.size), s.roms, zip, h);
      if img.Err? then Some(img.error) else None
  }

  /** Whether loading an area in state `s` prints the GROM repair warning. */
  ghost function AreaWarning(s: AreaState, zip: Archive, h: Hashes): (w: bool)
    requires StateOk(s)
    ensures w ==> s.grom && AreaLoadError(s, zip, h).None?
  {
    && !s.loaded && s.grom
    && var img := LoadRoms(Zeros(s.size), s.roms, zip, h);
    && img.Ok? && RepairWarning(img.value, s.roms)
  }

  /** The exception of the first area, in order, whose load fails. */
  function FirstLoadError(ss: seq<AreaState>, zip: Archive, h: Hashes): (e: Option<Error>)
    requires forall i :: 0 <= i < |ss| ==> StateOk(ss[i])
    ensures e.None? <==> forall i :: 0 <= i < |ss| ==> AreaLoadError(ss[i], zip, h).None?
    ensures e.Some? ==> exists i :: 0 <= i < |ss| && e == AreaLoadError(ss[i], zip, h) &&
                                    forall j :: 0 <= j < i ==> AreaLoadError(ss[j], zip, h).None?
    decreases |ss|
  {
    if ss == [] then None
    else
      var init := ss[..|ss| - 1];
      assert forall i :: 0 <= i < |init| ==> init[i] == ss[i];
      var prev := FirstLoadError(init, zip, h);
      if prev.Some? then prev else AreaLoadError(ss[|ss| - 1], zip, h)
  }

  /** Once a prefix of the areas fails, the areas after it do not matter. */
  lemma {:induction false} FirstLoadErrorPrefix(ss: seq<AreaState>, k: int, zip: Archive, h: Hashes)
    requires forall i :: 0 <= i < |ss| ==> StateOk(ss[i])
    requires 0 <= k <= |ss|
    requires FirstLoadError(ss[..k], zip, h).Some?
    ensures FirstLoadError(ss, zip, h) == FirstLoadError(ss[..k], zip, h)
    decreases |ss|
  {
    if k < |ss| {
      var init := ss[..|ss| - 1];
      assert init[..k] == ss[..k];
      FirstLoadErrorPrefix(init, k, zip, h);
    } else {
      assert ss[..k] == ss;
    }
  }

  /** Whether an area among the first `n` prints the repair warning. */
  ghost predicate WarnedBefore(ss: seq<AreaState>, n: int, zip: Archive, h: Hashes)
    requires forall i :: 0 <= i < |ss| ==> StateOk(ss[i])
    requires 0 <= n <= |ss|
  {
    exists j :: 0 <= j < n && AreaWarning(ss[j], zip, h)
  }

  /** Whether an area that `load_from_zip` reaches prints the repair warning:
      the areas up to the first failing one. */
  ghost predicate Warned(ss: seq<AreaState>, zip: Archive, h: Hashes)
    requires forall i :: 0 <= i < |ss| ==> StateOk(ss[i])
  {
    exists j :: 0 <= j < |ss| && AreaWarning(ss[j], zip, h) && FirstLoadError(ss[..j], zip, h).None?
  }

  /** A step of the loop of `Cartridge.load_from_zip` that loads area `i`. */
  lemma LoadStepOk(ss: seq<AreaState>, i: int, zip: Archive, h: Hashes)
    requires forall k :: 0 <= k < |ss| ==> StateOk(ss[k])
    requires 0 <= i < |ss|
    requires FirstLoadError(ss[..i], zip, h).None?
    requires AreaLoadError(ss[i], zip, h).None?
    ensures FirstLoadError(ss[..i + 1], zip, h).None?
    ensures WarnedBefore(ss, i + 1, zip, h) <==> WarnedBefore(ss, i, zip, h) || AreaWarning(ss[i], zip, h)
  {
    assert ss[..i + 1][..i] == ss[..i];
  }

  /** A step of the loop of `Cartridge.load_from_zip` where area `i` raises:
      its exception is that of the whole loop, and the areas after it are
      never reached. */
  lemma LoadStepErr(ss: seq<AreaState>, i: int, zip: Archive, h: Hashes)
    requires forall k :: 0 <= k < |ss| ==> StateOk(ss[k])
    requires 0 <= i < |ss|
    requires FirstLoadError(ss[..i], zip, h).None?
    requires AreaLoadError(ss[i], zip, h).Some?
    ensures FirstLoadError(ss, zip, h) == AreaLoadError(ss[i], zip, h)
    ensures Warned(ss, zip, h) <==> WarnedBefore(ss, i, zip, h)
  {
    assert ss[..i + 1][..i] == ss[..i];
    FirstLoadErrorPrefix(ss, i + 1, zip, h);
    if Warned(ss, zip, h) {
      var j :| 0 <= j < |ss| && AreaWarning(ss[j], zip, h) && FirstLoadError(ss[..j], zip, h).None?;
      if j > i {
        FailingPrefix(ss, i, j, zip, h);
        assert false;
      }
      assert j != i;
      assert WarnedBefore(ss, i, zip, h);
    }
    if WarnedBefore(ss, i, zip, h) {
      var j :| 0 <= j < i && AreaWarning(ss[j], zip, h);
      PassingPrefix(ss, i, j, zip, h);
      assert Warned(ss, zip, h);
    }
  }

  /** A prefix that holds a failing area fails. */
  lemma FailingPrefix(ss: seq<AreaState>, i: int, j: int, zip: Archive, h: Hashes)
    requires forall k :: 0 <= k < |ss| ==> StateOk(ss[k])
    requires 0 <= i < j <= |ss|
    requires AreaLoadError(ss[i], zip, h).Some?
    ensures FirstLoadError(ss[..j], zip, h).Some?
  {
    assert ss[..j][i] == ss[i];
  }

  /** A prefix of a passing prefix passes. */
  lemma PassingPrefix(ss: seq<AreaState>, i: int, j: int, zip: Archive, h: Hashes)
    requires forall k :: 0 <= k < |ss| ==> StateOk(ss[k])
    requires 0 <= j <= i <= |ss|
    requires FirstLoadError(ss[..i], zip, h).None?
    ensures FirstLoadError(ss[..j], zip, h).None?
  {
    assert forall k :: 0 <= k < j ==> ss[..j][k] == ss[..i][k];
  }

  /** When every area loads, every area is reached. */
  lemma LoadAll(ss: seq<AreaState>, zip: Archive, h: Hashes)
    requires forall k :: 0 <= k < |ss| ==> StateOk(ss[k])
    requires FirstLoadError(ss, zip, h).None?
    ensures Warned(ss, zip, h) <==> WarnedBefore(ss, |ss|, zip, h)
  {
    forall j | 0 <= j < |ss|
      ensures FirstLoadError(ss[..j], zip, h).None?
    {
      assert forall k :: 0 <= k < j ==> ss[..j][k] == ss[k];
    }
  }

  class Cartridge {
    const name: string
    var metadata: Dict
    var pcb: Option<string>
    var dataareas: map<string, DataArea>
    /** The keys of `dataareas` in insertion order (the dict's iteration order). */
    var order: seq<string>

    ghost predicate Valid()
      reads this, dataareas.Values
    {
      && DistinctKeys(metadata)
      && (forall k :: k in dataareas ==> k in Kinds && dataareas[k].Valid() && (k != "grom" ==> !dataareas[k].grom))
      && (forall k1, k2 :: k1 in dataareas && k2 in dataareas && k1 != k2 ==> dataareas[k1] != dataareas[k2])
      && (forall i, j :: 0 <= i < j < |order| ==> order[i] != order[j])
      && (forall k :: k in dataareas <==> k in order)
    }

    constructor (name: string)
      ensures Valid()
      ensures this.name == name && metadata == [] && pcb == None && dataareas == map[] && order == []
    {
      this.name := name;
      metadata := [];
      pcb := None;
      dataareas := map[];
      order := [];
    }

    /** `set_metadata`: a dict assignment. */
    method SetMetadata(key: string, value: string)
      requires Valid()
      modifies this
      ensures Valid()
      ensures metadata == Put(old(metadata), key, value)
      ensures pcb == old(pcb) && dataareas == old(dataareas) && order == old(order)
    {
      assert DistinctKeys(Put(metadata, key, value)) by {
        PutSemantics(metadata, key, value);
      }
      metadata := Put(metadata, key, value);
    }

    /** `set_pcb`. */
    method SetPcb(p: string)
      requires Valid()
      modifies this
      ensures Valid()
      ensures pcb == Some(p)
      ensures metadata == old(metadata) && dataareas == old(dataareas) && order == old(order)
    {
      pcb := Some(p);
    }

    /** `get_dataarea(name, size)`: the area for socket `name`, created on its
        first declaration with a size; a GROM area unless the PCB type is
        `gromemu` at that moment. */
    method GetDataarea(socket: string, size: Option<int>) returns (r: Result<Option<DataArea>>)
      requires Valid()
      modifies this
      ensures Valid()
      ensures metadata == old(metadata) && pcb == old(pcb)
      ensures var k := SocketKind(socket);
              && (k !in Kinds ==> r == Err(UnknownDataarea(k)))
              && (k in Kinds && k in old(dataareas) ==>
                    r == if size.Some? && size.value != old(dataareas)[k].size
                         then Err(RedeclaredDataarea(k)) else Ok(Some(old(dataareas)[k])))
              && (k in Kinds && k !in old(dataareas) && size.None? ==> r == Ok(None))
      ensures var k := SocketKind(socket);
              var g := k == "grom" && pcb != Some("gromemu");
              k in Kinds && k !in old(dataareas) && size.Some? ==>
                && (r.Err? <==> !CapacityOk(size.value, g))
                && (r.Err? ==> Some(r.error) == CapacityError(size.value, g))
                && (r.Ok? ==> r.value.Some? && fresh(r.value.value) && r.value.value.size == size.value &&
                              r.value.value.grom == g && r.value.value.roms == [] && r.value.value.data == null &&
                              dataareas == old(dataareas)[k := r.value.value] && order == old(order) + [k])
      ensures r.Ok? && r.value.Some? ==> SocketKind(socket) in dataareas && r.value.value == dataareas[SocketKind(socket)]
      ensures !(r.Ok? && r.value.Some? && fresh(r.value.value)) ==> dataareas == old(dataareas) && order == old(order)
      ensures fresh(dataareas.Values - old(dataareas.Values))
    {
      var k := SocketKind(socket);
      if k !in Kinds {
        return Err(UnknownDataarea(k));
      }
      if k !in dataareas {
        if size.None? {
          return Ok(None);
        }
        var g := k == "grom" && pcb != Some("gromemu");
        var a := DataArea.Create(size.value, g);
        if a.Err? {
          return Err(a.error);
        }
        assert dataareas[k := a.value].Values <= dataareas.Values + {a.value};
        dataareas := dataareas[k := a.value];
        order := order + [k];
        return Ok(Some(a.value));
      } else if size.Some? && dataareas[k].size != size.value {
        return Err(RedeclaredDataarea(k));
      }
      return Ok(Some(dataareas[k]));
    }

    ghost function StateOf(a: DataArea): (s: AreaState)
      reads a
      ensures s == AreaState(a.size, a.roms, a.grom, a.data != null)
    {
      AreaState(a.size, a.roms, a.grom, a.data != null)
    }

    /** The state of every data area, in the dict's order. */
    ghost function States(): (ss: seq<AreaState>)
      requires Valid()
      reads this, dataareas.Values
      ensures |ss| == |order|
      ensures forall i :: 0 <= i < |order| ==> ss[i] == StateOf(dataareas[order[i]]) && StateOk(ss[i])
    {
      seq(|order|, i requires 0 <= i < |order| && order[i] in dataareas reads this, dataareas.Values =>
        StateOf(dataareas[order[i]]))
    }

    /** `load_from_zip`: load every data area in the dict's order; the first
        exception aborts the rest. `repaired` stands for any GROM repair
        warning printed before that. */
    method LoadFromZip(zip: Archive, h: Hashes) returns (err: Option<Error>, repaired: bool)
      requires Valid()
      modifies dataareas.Values
      ensures Valid()
      ensures err == FirstLoadError(old(States()), zip, h)
      ensures repaired <==> Warned(old(States()), zip, h)
      ensures err.None? ==> forall k :: k in dataareas ==> LoadedFrom(dataareas[k], zip, h)
      ensures forall k :: k in dataareas ==> dataareas[k].roms == old(dataareas[k].roms)
      ensures err.Some? ==>
                exists i :: 0 <= i < |order| && err == AreaLoadError(old(States())[i], zip, h) &&
                  (forall j :: 0 <= j < i ==> LoadedFrom(dataareas[order[j]], zip, h)) &&
                  dataareas[order[i]].data != null &&
                  (forall j :: i < j < |order| ==> StateOf(dataareas[order[j]]) == old(States())[j])
    {
      ghost var before := States();
      ghost var stop;
      err, repaired, stop := LoadAreas(before, zip, h);
      if err.Some? {
        LoadStepErr(before, stop, zip, h);
      } else {
        assert before[..stop] == before;
        LoadAll(before, zip, h);
        forall k | k in dataareas
          ensures LoadedFrom(dataareas[k], zip, h)
        {
          var j :| 0 <= j < |order| && order[j] == k;
        }
      }
    }

    /** The loop of `load_from_zip`, which stops at area `stop`: the first
        area that fails, or the end of the dict. */
    method LoadAreas(ghost before: seq<AreaState>, zip: Archive, h: Hashes)
      returns (err: Option<Error>, repaired: bool, ghost stop: int)
      requires Valid() && before == States()
      modifies dataareas.Values
      ensures Valid()
      ensures 0 <= stop <= |order| && |before| == |order|
      ensures FirstLoadError(before[..stop], zip, h).None?
      ensures repaired <==> WarnedBefore(before, stop, zip, h)
      ensures forall j :: 0 <= j < stop ==> LoadedFrom(dataareas[order[j]], zip, h)
      ensures forall k :: k in dataareas ==> dataareas[k].roms == old(dataareas[k].roms)
      ensures err.None? ==> stop == |order|
      ensures err.Some? ==>
                && stop < |order| && err == AreaLoadError(before[stop], zip, h)
                && dataareas[order[stop]].data != null
                && forall j :: stop < j < |order| ==> StateOf(dataareas[order[j]]) == before[j]
    {
      repaired := false;
      var i := 0;
      while i < |order|
        invariant 0 <= i <= |order|
        invariant Valid()
        invariant forall j :: i <= j < |order| ==> StateOf(dataareas[order[j]]) == before[j]
        invariant forall j :: 0 <= j < i ==> LoadedFrom(dataareas[order[j]], zip, h)
        invariant FirstLoadError(before[..i], zip, h).None?
        invariant repaired <==> WarnedBefore(before, i, zip, h)
        invariant forall k :: k in dataareas ==> dataareas[k].roms == old(dataareas[k].roms)
      {
        var e, fixed := LoadArea(i, before, zip, h);
        if e.Some? {
          return e, repaired, i;
        }
        LoadStepOk(before, i, zip, h);
        repaired := repaired || fixed;
        i := i + 1;
      }
      err, stop := None, i;
    }

    /** One iteration of `load_from_zip`: load the `i`-th area of the dict. */
    method LoadArea(i: int, ghost before: seq<AreaState>, zip: Archive, h: Hashes) returns (e: Option<Error>, fixed: bool)
      requires Valid() && 0 <= i < |order| && |before| == |order|
      requires forall j :: 0 <= j < |before| ==> StateOk(before[j])
      requires forall j :: i <= j < |order| ==> StateOf(dataareas[order[j]]) == before[j]
      requires forall j :: 0 <= j < i ==> LoadedFrom(dataareas[order[j]], zip, h)
      modifies dataareas[order[i]]
      ensures Valid()
      ensures e == AreaLoadError(before[i], zip, h)
      ensures e.None? ==> (fixed <==> AreaWarning(before[i], zip, h))
      ensures forall j :: i < j < |order| ==> StateOf(dataareas[order[j]]) == before[j]
      ensures forall j :: 0 <= j < i ==> LoadedFrom(dataareas[order[j]], zip, h)
      ensures e.None? ==> forall j :: 0 <= j <= i ==> LoadedFrom(dataareas[order[j]], zip, h)
      ensures StateOf(dataareas[order[i]]) == before[i].(loaded := true)
      ensures forall k :: k in dataareas ==> dataareas[k].roms == old(dataareas[k].roms)
    {
      var a := dataareas[order[i]];
      assert forall j :: 0 <= j < |order| && j != i ==> dataareas[order[j]] != a;
      e, fixed := a.LoadFromZip(zip, h);
      if e.None? {
        assert LoadedFrom(a, zip, h);
      }
    }
  }
}
