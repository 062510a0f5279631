/** `write_rpk`: the members of the RPK archive written for one loaded
    cartridge, as values. The XML documents are kept as records holding
    exactly what the elements and attributes say; their serialisation, the
    zip container and the digests themselves are outside the model. */
module Packager {
  import opened Common
  import opened Roms
  import opened Loading
  import opened Metadata
  import opened Sorting
  import opened IntLiterals
  import opened DataAreas
  import opened Cartridges

  /** A loaded data area as `write_rpk` sees it: its chips and its buffer. */
  datatype AreaView = AreaView(roms: seq<Rom>, data: Bytes)

  /** A cartridge as `write_rpk` sees it: the `rom` and `grom` areas are the
      results of `get_dataarea('rom')` and `get_dataarea('grom')`. */
  datatype CartView = CartView(name: string, metadata: Dict, pcb: string,
                               rom: Option<AreaView>, grom: Option<AreaView>)

  /** A loaded data area's chips and buffer. */
  ghost function AreaViewOf(a: DataArea): (v: AreaView)
    requires a.data != null
    reads a, a.data
    ensures v.roms == a.roms && v.data == a.data[..]
  {
    AreaView(a.roms, a.data[..])
  }

  /** What `write_rpk` reads of a cartridge whose data areas are loaded. */
  ghost function CartViewOf(c: Cartridge): (v: CartView)
    requires c.pcb.Some? && forall k :: k in c.dataareas ==> c.dataareas[k].data != null
    reads c, c.dataareas.Values, set k | k in c.dataareas :: c.dataareas[k].data
    ensures v.name == c.name && v.metadata == c.metadata && v.pcb == c.pcb.value
    ensures v.rom.Some? <==> "rom" in c.dataareas
    ensures v.grom.Some? <==> "grom" in c.dataareas
  {
    CartView(c.name, c.metadata, c.pcb.value,
             if "rom" in c.dataareas then Some(AreaViewOf(c.dataareas["rom"])) else None,
             if "grom" in c.dataareas then Some(AreaViewOf(c.dataareas["grom"])) else None)
  }

  // ---------------------------------------------------------------------
  // File name base

  /** The characters `str.split()` splits on, in the ASCII range: space,
      tab to carriage return, and the four separators 0x1c to 0x1f. */
  predicate IsSpace(c: char)
  {
    c == ' ' || 9 <= c as int <= 13 || 28 <= c as int <= 31
  }

  predicate IsUpper(c: char) { 'A' <= c <= 'Z' }

  function LowerChar(c: char): (r: char)
    ensures IsUpper(c) ==> r as int == c as int + 32
    ensures !IsUpper(r)
    ensures !IsUpper(c) ==> r == c
    ensures IsSpace(r) <==> IsSpace(c)
  {
    if IsUpper(c) then (c as int + 32) as char else c
  }

  /** `str.lower()` on ASCII text. */
  function Lower(s: string): (r: string)
    ensures |r| == |s| && forall i :: 0 <= i < |s| ==> r[i] == LowerChar(s[i])
  {
    seq(|s|, i requires 0 <= i < |s| => LowerChar(s[i]))
  }

  /** `''.join(s.split())`: `s` without its whitespace. */
  function Squash(s: string): (r: string)
    ensures forall i :: 0 <= i < |r| ==> !IsSpace(r[i])
    ensures multiset(r) <= multiset(s)
  {
    if s == [] then []
    else
      assert s == [s[0]] + s[1..];
      (if IsSpace(s[0]) then [] else [s[0]]) + Squash(s[1..])
  }

  /** The base of the member names: the cartridge name, or the `serial`
      info lower-cased and stripped of whitespace. */
  function BaseName(c: CartView): (b: string)
    ensures Get(c.metadata, "serial").None? ==> b == c.name
    ensures Get(c.metadata, "serial").Some? ==>
              && b == Squash(Lower(Get(c.metadata, "serial").value))
              && forall i :: 0 <= i < |b| ==> !IsSpace(b[i]) && !IsUpper(b[i])
  {
    match Get(c.metadata, "serial")
    case None => c.name
    case Some(serial) =>
      BaseNameNormal(serial);
      Squash(Lower(serial))
  }

  /** `''.join(s.split())` drops one whitespace character and keeps any
      other. */
  lemma SquashOne(c: char)
    ensures Squash([c]) == if IsSpace(c) then [] else [c]
  {
    assert [c][1..] == [];
  }

  /** Whitespace is removed piece by piece: with `SquashOne` this fixes
      `Squash` as the subsequence of non-whitespace characters, in order. */
  lemma {:induction false} SquashAppend(a: string, b: string)
    ensures Squash(a + b) == Squash(a) + Squash(b)
  {
    if a == [] {
      assert a + b == b;
    } else {
      var ab := a + b;
      var first := if IsSpace(a[0]) then [] else [a[0]];
      calc {
        Squash(ab);
      == { assert ab[0] == a[0] && ab[1..] == a[1..] + b; SquashCons(ab); }
        first + Squash(a[1..] + b);
      == { SquashAppend(a[1..], b); }
        first + (Squash(a[1..]) + Squash(b));
      == { AppendAssoc(first, Squash(a[1..]), Squash(b)); }
        (first + Squash(a[1..])) + Squash(b);
      == { SquashCons(a); }
        Squash(a) + Squash(b);
      }
    }
  }

  lemma AppendAssoc(x: string, y: string, z: string)
    ensures x + (y + z) == (x + y) + z
  {
  }

  lemma SquashCons(s: string)
    requires s != []
    ensures Squash(s) == (if IsSpace(s[0]) then [] else [s[0]]) + Squash(s[1..])
  {
  }

  lemma {:induction false} SquashKeeps(s: string)
    requires forall i :: 0 <= i < |s| ==> !IsSpace(s[i])
    ensures Squash(s) == s
  {
    if s != [] {
      SquashKeeps(s[1..]);
    }
  }

  lemma {:induction false} SquashLower(s: string)
    requires forall i :: 0 <= i < |s| ==> !IsUpper(s[i])
    ensures forall i :: 0 <= i < |Squash(s)| ==> !IsUpper(Squash(s)[i])
  {
    var r := Squash(s);
    forall i | 0 <= i < |r| ensures !IsUpper(r[i]) {
      assert r[i] in multiset(r);
      assert r[i] in multiset(s);
    }
  }

  /** A serial-derived base has no whitespace and no capitals, so deriving
      it again from itself gives it back. */
  lemma BaseNameNormal(serial: string)
    ensures var b := Squash(Lower(serial));
            && (forall i :: 0 <= i < |b| ==> !IsSpace(b[i]) && !IsUpper(b[i]))
            && Squash(Lower(b)) == b
  {
    var b := Squash(Lower(serial));
    SquashLower(Lower(serial));
    assert Lower(b) == b;
    SquashKeeps(b);
  }

  // ---------------------------------------------------------------------
  // PCB type

  predicate HasPrefix(s: string, p: string)
  {
    |p| <= |s| && s[..|p|] == p
  }

  /** The `pcb type` written to the layout and the software list: every
      `paged*` board is `paged`. */
  function PcbType(pcb: string): (t: string)
    ensures t == "paged" <==> HasPrefix(pcb, "paged")
    ensures !HasPrefix(pcb, "paged") ==> t == pcb
  {
    if HasPrefix(pcb, "paged") then "paged" else pcb
  }

  lemma PcbTypeIdempotent(pcb: string)
    ensures PcbType(PcbType(pcb)) == PcbType(pcb)
  {
    if HasPrefix(pcb, "paged") {
      assert HasPrefix("paged", "paged");
    }
  }

  // ---------------------------------------------------------------------
  // The checks on the `rom` area

  /** The boards that take two chips in the `rom` area. */
  const TwoChipPcbs: set<string> := {"paged7", "paged12k", "paged16k", "gromemu"}

  /** The largest chip a board takes in its `rom` area. */
  function ChipLimit(pcb: string): (n: int)
    ensures n == 0x2000 || (pcb == "mbx" && n == 0x4000)
  {
    if pcb == "mbx" then 0x4000 else 0x2000
  }

  predicate Paged12kShape(roms: seq<Rom>)
  {
    |roms| == 2 && roms[0].size == 0x1000 && roms[1].size == 0x2000
  }

  /** The first chip, from index `i` on, that is too large or is not at
      offset `0x2000` times its index. */
  function ChipRuleError(pcb: string, roms: seq<Rom>, i: nat): (e: Option<Error>)
    requires i <= |roms|
    ensures e.None? <==> forall j :: i <= j < |roms| ==> roms[j].size <= ChipLimit(pcb) && roms[j].offset == j * Bank
    ensures e.Some? ==> e == Some(RomTooLarge) || e == Some(WrongRomOffset)
    ensures e.Some? ==>
              exists j :: i <= j < |roms| && !(roms[j].size <= ChipLimit(pcb) && roms[j].offset == j * Bank) &&
                (forall k :: i <= k < j ==> roms[k].size <= ChipLimit(pcb) && roms[k].offset == k * Bank) &&
                e == Some(if roms[j].size > ChipLimit(pcb) then RomTooLarge else WrongRomOffset)
    decreases |roms| - i
  {
    if i == |roms| then None
    else if roms[i].size > ChipLimit(pcb) then Some(RomTooLarge)
    else if roms[i].offset != i * Bank then Some(WrongRomOffset)
    else ChipRuleError(pcb, roms, i + 1)
  }

  /** Chips `i` up to, not including, `j` pass both rules. */
  predicate PassesUpTo(pcb: string, roms: seq<Rom>, i: nat, j: nat)
    requires j <= |roms|
  {
    forall k :: i <= k < j ==> roms[k].size <= ChipLimit(pcb) && roms[k].offset == k * Bank
  }

  /** Chips are tested in order, size before offset: the error is
      `RomTooLarge` exactly when the first chip that breaks a rule is too
      large. */
  lemma ChipRuleTooLarge(pcb: string, roms: seq<Rom>, i: nat)
    requires i <= |roms|
    ensures ChipRuleError(pcb, roms, i) == Some(RomTooLarge) <==>
            exists j :: i <= j < |roms| && roms[j].size > ChipLimit(pcb) &&
              forall k :: i <= k < j ==> roms[k].size <= ChipLimit(pcb) && roms[k].offset == k * Bank
  {
    var e := ChipRuleError(pcb, roms, i);
    if j :| i <= j < |roms| && roms[j].size > ChipLimit(pcb) && PassesUpTo(pcb, roms, i, j) {
      var j' :| i <= j' < |roms| && !(roms[j'].size <= ChipLimit(pcb) && roms[j'].offset == j' * Bank) &&
                PassesUpTo(pcb, roms, i, j') &&
                e == Some(if roms[j'].size > ChipLimit(pcb) then RomTooLarge else WrongRomOffset);
      assert j' == j;
    }
  }

  /** The exception `write_rpk` raises on the chips of the `rom` area. */
  function RomsError(pcb: string, roms: seq<Rom>): (e: Option<Error>)
    ensures pcb == "paged12k" && !Paged12kShape(roms) ==> e == Some(InvalidPaged12k)
    ensures !(pcb == "paged12k" && !Paged12kShape(roms)) && |roms| != 1 && !(|roms| == 2 && pcb in TwoChipPcbs) ==>
              e == Some(InvalidRomCount)
    ensures !(pcb == "paged12k" && !Paged12kShape(roms)) && (|roms| == 1 || (|roms| == 2 && pcb in TwoChipPcbs)) ==>
              e == ChipRuleError(pcb, roms, 0)
  {
    if pcb == "paged12k" && !Paged12kShape(roms) then Some(InvalidPaged12k)
    else if |roms| == 2 && pcb in TwoChipPcbs then ChipRuleError(pcb, roms, 0)
    else if |roms| != 1 then Some(InvalidRomCount)
    else ChipRuleError(pcb, roms, 0)
  }

  /** The chips `write_rpk` accepts, stated rule by rule. */
  predicate RomsAccepted(pcb: string, roms: seq<Rom>)
  {
    && (|roms| == 1 || (|roms| == 2 && pcb in TwoChipPcbs))
    && (pcb == "paged12k" ==> Paged12kShape(roms))
    && forall j :: 0 <= j < |roms| ==> roms[j].size <= ChipLimit(pcb) && roms[j].offset == j * Bank
  }

  /** `write_rpk` accepts exactly one chip, or two on a two-chip board (in
      the 4 KiB + 8 KiB shape on `paged12k`), each within the board's size
      limit and at offset `0x2000` times its index. */
  lemma RomsErrorIff(pcb: string, roms: seq<Rom>)
    ensures RomsError(pcb, roms).None? <==> RomsAccepted(pcb, roms)
  {
  }

  // ---------------------------------------------------------------------
  // The ROM images

  /** Python's clipping of a slice bound, negative bounds counting from the end. */
  function SliceBound(i: int, n: nat): (k: nat)
    ensures k <= n
    ensures 0 <= i <= n ==> k == i
  {
    if i < 0 then (if i + n < 0 then 0 else i + n) else if i > n then n else i
  }

  /** Python's `s[lo:hi]`. */
  function PySlice(s: Bytes, lo: int, hi: int): (r: Bytes)
    ensures 0 <= lo <= hi <= |s| ==> r == s[lo..hi]
    ensures |r| <= |s|
  {
    var a := SliceBound(lo, |s|);
    var b := SliceBound(hi, |s|);
    if a < b then s[a..b] else []
  }

  /** The image written for chip `i` of the `rom` area: on `paged12k` the
      4 KiB chip followed by the first or second half of the 8 KiB chip,
      otherwise the chip's own bytes. */
  function ChipImage(pcb: string, v: AreaView, i: nat): (img: Bytes)
    requires i < |v.roms|
    ensures pcb != "paged12k" && Fits(v.roms[i], |v.data|) && v.roms[i].size >= 0 ==>
              img == v.data[v.roms[i].offset..v.roms[i].offset + v.roms[i].size]
    ensures pcb == "paged12k" && |v.data| >= 0x4000 ==>
              && |img| == 0x2000 && img[..0x1000] == v.data[..0x1000]
              && img[0x1000..] == if i == 0 then v.data[0x2000..0x3000] else v.data[0x3000..0x4000]
  {
    if pcb == "paged12k" then
      PySlice(v.data, 0, 0x1000) + (if i == 0 then PySlice(v.data, 0x2000, 0x3000) else PySlice(v.data, 0x3000, 0x4000))
    else PySlice(v.data, v.roms[i].offset, v.roms[i].offset + v.roms[i].size)
  }

  /** On `paged12k`, each image is 8 KiB: the shared 4 KiB chip, then one
      half of the banked 8 KiB chip. */
  lemma Paged12kImages(v: AreaView, i: nat)
    requires RomsError("paged12k", v.roms).None? && Fits(v.roms[1], |v.data|)
    requires i < |v.roms|
    ensures var img := ChipImage("paged12k", v, i);
            && |img| == 0x2000
            && img[..0x1000] == v.data[..0x1000]
            && img[0x1000..] == v.data[0x2000 + 0x1000 * i..0x3000 + 0x1000 * i]
  {
    RomsErrorIff("paged12k", v.roms);
    assert v.roms[1].offset == Bank;
  }

  /** On any other board, once the area has been loaded from the archive,
      each image is exactly the archive member its chip names. */
  lemma ChipImageIsMember(pcb: string, v: AreaView, zip: Archive, h: Hashes, i: nat)
    requires pcb != "paged12k"
    requires ChipsWellFormed(v.roms, |v.data|, false)
    requires LoadRoms(Zeros(|v.data|), v.roms, zip, h) == Ok(v.data)
    requires i < |v.roms|
    ensures v.roms[i].name in zip && ChipImage(pcb, v, i) == zip[v.roms[i].name]
  {
    LoadedChipHoldsMember(Zeros(|v.data|), v.roms, false, zip, h, i);
  }

  /** After `load_from_zip`, on any board but `paged12k`, every image
      `write_rpk` writes for the cartridge's `rom` area is the archive
      member its chip names. */
  lemma LoadedRomImages(c: Cartridge, zip: Archive, h: Hashes, i: nat)
    requires c.Valid() && c.pcb.Some? && c.pcb.value != "paged12k"
    requires forall k :: k in c.dataareas ==> c.dataareas[k].data != null
    requires "rom" in c.dataareas && LoadedFrom(c.dataareas["rom"], zip, h)
    requires i < |c.dataareas["rom"].roms|
    ensures var v := CartViewOf(c).rom.value;
            v.roms[i].name in zip && ChipImage(c.pcb.value, v, i) == zip[v.roms[i].name]
  {
    var a := c.dataareas["rom"];
    var v := CartViewOf(c).rom.value;
    assert v == AreaViewOf(a);
    assert !a.grom;
    ChipImageIsMember(c.pcb.value, v, zip, h, i);
  }

  // ---------------------------------------------------------------------
  // The documents

  datatype Resource = Resource(id: string, file: string)
  datatype Socket = Socket(id: string, uses: string)

  /** `layout.xml`: the `romset` element. */
  datatype Layout = Layout(version: string, listname: string, resources: seq<Resource>,
                           pcbType: string, sockets: seq<Socket>)

  /** A child of the `meta-inf` element. */
  datatype MetaItem = MetaText(tag: string, text: string) | MetaStatus(version: string)

  /** A `rom` element of the software list entry. */
  datatype RomEntry = RomEntry(name: string, size: string, crc: string, sha1: string, offset: string)

  /** A `dataarea` element of the software list entry with its one chip. */
  datatype SoftArea = SoftArea(name: string, size: string, rom: RomEntry)

  /** `softlist.xml`: the optional leading comment and the `software` element. */
  datatype Softlist = Softlist(comment: Option<string>, name: string,
                               texts: seq<(string, string)>, infos: seq<(string, string)>,
                               partName: string, partInterface: string, pcbFeature: string,
                               areas: seq<SoftArea>)

  datatype Body =
    | Binary(bytes: Bytes)
    | LayoutXml(layout: Layout)
    | MetaInfXml(items: seq<MetaItem>)
    | SoftlistXml(entry: Softlist)

  /** One `rpk.writestr(path, body)`. */
  datatype Member = Member(path: string, body: Body)

  /** The images written for the `rom` area, in the order of its chips:
      `c.bin` for the chip at offset 0, `d.bin` for the other. */
  function RomMembers(base: string, pcb: string, v: AreaView): (ms: seq<Member>)
    requires RomsError(pcb, v.roms).None?
    ensures |ms| == |v.roms| && 1 <= |ms| <= 2
    ensures ms[0] == Member(base + "c.bin", Binary(ChipImage(pcb, v, 0)))
    ensures |ms| == 2 ==> ms[1] == Member(base + "d.bin", Binary(ChipImage(pcb, v, 1)))
  {
    RomsErrorIff(pcb, v.roms);
    var c := Member(base + "c.bin", Binary(ChipImage(pcb, v, 0)));
    if |v.roms| == 1 then [c] else [c, Member(base + "d.bin", Binary(ChipImage(pcb, v, 1)))]
  }

  /** The `romset` element of `layout.xml`: a resource and a socket for
      the GROM image, then the ROM images. */
  function LayoutOf(c: CartView, base: string): Layout
    requires c.rom.Some? ==> RomsError(c.pcb, c.rom.value.roms).None?
  {
    var two := c.rom.Some? && |c.rom.value.roms| == 2;
    Layout("1.0", c.name,
           (if c.grom.Some? then [Resource("gromimage", base + "g.bin")] else []) +
           (if c.rom.Some? then [Resource("romimage", base + "c.bin")] else []) +
           (if two then [Resource("rom2image", base + "d.bin")] else []),
           PcbType(c.pcb),
           (if c.grom.Some? then [Socket("grom_socket", "gromimage")] else []) +
           (if c.rom.Some? then [Socket("rom_socket", "romimage")] else []) +
           (if two then [Socket("rom2_socket", "rom2image")] else []))
  }
  /** `layout.xml` names the software list entry and the board, declares
      the GROM image, the first ROM image and the second ROM image exactly
      when they exist, and every socket uses a declared image. */
  lemma LayoutDeclares(c: CartView, base: string)
    requires c.rom.Some? ==> RomsError(c.pcb, c.rom.value.roms).None?
    ensures var l := LayoutOf(c, base);
            && l.version == "1.0" && l.listname == c.name && l.pcbType == PcbType(c.pcb)
            && (Resource("gromimage", base + "g.bin") in l.resources <==> c.grom.Some?)
            && (Resource("romimage", base + "c.bin") in l.resources <==> c.rom.Some?)
            && (Resource("rom2image", base + "d.bin") in l.resources <==> c.rom.Some? && |c.rom.value.roms| == 2)
            && |l.sockets| == |l.resources|
            && forall s :: s in l.sockets ==> exists r :: r in l.resources && r.id == s.uses
  {
    var l := LayoutOf(c, base);
    forall s | s in l.sockets
      ensures exists r :: r in l.resources && r.id == s.uses
    {
      if s.uses == "gromimage" {
        assert Resource("gromimage", base + "g.bin") in l.resources;
      } else if s.uses == "romimage" {
        assert Resource("romimage", base + "c.bin") in l.resources;
      } else {
        assert Resource("rom2image", base + "d.bin") in l.resources;
      }
    }
  }


  /** The info keys `meta-inf.xml` copies, with the element each becomes. */
  const MetaTags: seq<(string, string)> :=
    [("description", "name"), ("year", "year"), ("publisher", "dist"), ("serial", "number")]

  /** A text element for each key of `tags` the info holds, in the order of `tags`. */
  function MetaTexts(md: Dict, tags: seq<(string, string)>): (items: seq<MetaItem>)
    ensures forall x :: x in items ==>
              x.MetaText? && exists t :: t in tags && Get(md, t.0) == Some(x.text) && x.tag == t.1
    ensures forall t :: t in tags && Get(md, t.0).Some? ==> MetaText(t.1, Get(md, t.0).value) in items
  {
    if tags == [] then []
    else
      var rest := MetaTexts(md, tags[1..]);
      assert forall t :: t in tags[1..] ==> t in tags;
      assert forall t :: t in tags ==> t == tags[0] || t in tags[1..];
      match Get(md, tags[0].0)
      case None => rest
      case Some(v) => [MetaText(tags[0].1, v)] + rest
  }

  /** The children of the `meta-inf` element. */
  function MetaInf(md: Dict): (items: seq<MetaItem>)
    ensures forall t :: t in MetaTags && Get(md, t.0).Some? ==> MetaText(t.1, Get(md, t.0).value) in items
    ensures forall x :: x in items && x.MetaText? ==>
              exists t :: t in MetaTags && Get(md, t.0) == Some(x.text) && x.tag == t.1
    ensures forall v :: MetaStatus(v) in items <==> Get(md, "version") == Some(v)
  {
    var texts := MetaTexts(md, MetaTags);
    var status := match Get(md, "version") case None => [] case Some(v) => [MetaStatus(v)];
    assert forall x :: x in texts + status <==> x in texts || x in status;
    texts + status
  }

  /** The element `meta-inf.xml` holds for tag pair `t`, if its key is set. */
  function MetaElem(md: Dict, t: (string, string)): seq<MetaItem>
  {
    match Get(md, t.0)
    case None => []
    case Some(v) => [MetaText(t.1, v)]
  }

  /** The tags are visited in order, each once: a list of tags yields the
      elements of its parts, one after the other. */
  lemma {:induction false} MetaTextsAppend(md: Dict, a: seq<(string, string)>, b: seq<(string, string)>)
    ensures MetaTexts(md, a + b) == MetaTexts(md, a) + MetaTexts(md, b)
  {
    if a == [] {
      assert a + b == b;
    } else {
      assert (a + b)[0] == a[0];
      assert (a + b)[1..] == a[1..] + b;
      MetaTextsAppend(md, a[1..], b);
    }
  }

  /** `MetaTexts` written as a plain concatenation of the element of each tag. */
  ghost function MetaConcat(md: Dict, tags: seq<(string, string)>): seq<MetaItem>
  {
    if tags == [] then [] else MetaElem(md, tags[0]) + MetaConcat(md, tags[1..])
  }

  lemma MetaTextsCons(md: Dict, tags: seq<(string, string)>)
    requires tags != []
    ensures MetaTexts(md, tags) == MetaElem(md, tags[0]) + MetaTexts(md, tags[1..])
  {
  }

  lemma {:induction false} MetaTextsConcat(md: Dict, tags: seq<(string, string)>)
    ensures MetaTexts(md, tags) == MetaConcat(md, tags)
  {
    if tags != [] {
      MetaTextsCons(md, tags);
      MetaTextsConcat(md, tags[1..]);
    }
  }

  lemma MetaTextsFour(md: Dict, ts: seq<(string, string)>)
    requires |ts| == 4
    ensures MetaTexts(md, ts) == MetaElem(md, ts[0]) + MetaElem(md, ts[1]) + MetaElem(md, ts[2]) + MetaElem(md, ts[3])
  {
    var t1, t2, t3 := ts[1..], ts[2..], ts[3..];
    assert t1[0] == ts[1] && t1[1..] == t2;
    assert t2[0] == ts[2] && t2[1..] == t3;
    assert t3[0] == ts[3] && t3[1..] == [];
    var e0, e1, e2, e3 := MetaElem(md, ts[0]), MetaElem(md, ts[1]), MetaElem(md, ts[2]), MetaElem(md, ts[3]);
    assert MetaConcat(md, t3) == e3;
    assert MetaConcat(md, t2) == e2 + e3;
    assert MetaConcat(md, t1) == e1 + (e2 + e3);
    assert MetaConcat(md, ts) == e0 + (e1 + (e2 + e3));
    assert e0 + (e1 + (e2 + e3)) == e0 + e1 + e2 + e3;
    MetaTextsConcat(md, ts);
  }

  /** The text children of `meta-inf`: name, year, dist and number, each
      present exactly when its key is set. */
  lemma MetaTagsOrder(md: Dict)
    ensures MetaTexts(md, MetaTags) ==
              MetaElem(md, ("description", "name")) + MetaElem(md, ("year", "year")) +
              MetaElem(md, ("publisher", "dist")) + MetaElem(md, ("serial", "number"))
  {
    MetaTextsFour(md, MetaTags);
  }

  /** The children of `meta-inf`, in the order they are written: the text
      elements, then the status. */
  lemma MetaInfOrder(md: Dict)
    ensures MetaInf(md) ==
              MetaElem(md, ("description", "name")) + MetaElem(md, ("year", "year")) +
              MetaElem(md, ("publisher", "dist")) + MetaElem(md, ("serial", "number")) +
              (if Get(md, "version").Some? then [MetaStatus(Get(md, "version").value)] else [])
  {
    MetaTagsOrder(md);
  }

  /** The info keys that are written as elements of their own. */
  const TextKeys: seq<string> := ["description", "year", "publisher"]

  function Texts(md: Dict, keys: seq<string>): (ts: seq<(string, string)>)
    ensures forall i :: 0 <= i < |ts| ==> ts[i].0 in keys && Get(md, ts[i].0) == Some(ts[i].1)
  {
    if keys == [] then []
    else
      var rest := Texts(md, keys[1..]);
      match Get(md, keys[0])
      case None => rest
      case Some(v) => [(keys[0], v)] + rest
  }

  /** The text element for key `k`, if it is set. */
  function TextElem(md: Dict, k: string): seq<(string, string)>
  {
    match Get(md, k)
    case None => []
    case Some(v) => [(k, v)]
  }

  lemma {:induction false} TextsAppend(md: Dict, a: seq<string>, b: seq<string>)
    ensures Texts(md, a + b) == Texts(md, a) + Texts(md, b)
  {
    if a == [] {
      assert a + b == b;
    } else {
      assert (a + b)[0] == a[0];
      assert (a + b)[1..] == a[1..] + b;
      TextsAppend(md, a[1..], b);
    }
  }

  /** The text elements of the software list entry, in the order they are
      written: description, year, publisher, each exactly when it is set. */
  lemma TextsOrder(md: Dict)
    ensures Texts(md, TextKeys) == TextElem(md, "description") + TextElem(md, "year") + TextElem(md, "publisher")
  {
    assert TextKeys == ["description"] + ["year"] + ["publisher"];
    TextsAppend(md, ["description"] + ["year"], ["publisher"]);
    TextsAppend(md, ["description"], ["year"]);
    assert ["description"][1..] == [] && ["year"][1..] == [] && ["publisher"][1..] == [];
  }

  /** The `info` elements: the keys of `keys` other than the text keys, in
      the order of `keys`, with their values. */
  function Infos(md: Dict, keys: seq<string>): (ts: seq<(string, string)>)
    ensures forall i :: 0 <= i < |ts| ==> ts[i].0 in keys && ts[i].0 !in TextKeys && Get(md, ts[i].0) == Some(ts[i].1)
  {
    if keys == [] then []
    else
      var rest := Infos(md, keys[1..]);
      assert forall k :: k in keys[1..] ==> k in keys;
      if keys[0] in TextKeys then rest
      else match Get(md, keys[0])
        case None => rest
        case Some(v) => [(keys[0], v)] + rest
  }

  /** Every key of `keys` the info holds, other than the text keys, gets an
      `info` element. */
  lemma {:induction false} InfosComplete(md: Dict, keys: seq<string>, k: string)
    requires k in keys && k !in TextKeys && Get(md, k).Some?
    ensures k in Keys(Infos(md, keys))
  {
    if keys[0] != k {
      InfosComplete(md, keys[1..], k);
      var rest := Infos(md, keys[1..]);
      var i :| 0 <= i < |rest| && Keys(rest)[i] == k;
      var ts := Infos(md, keys);
      if ts != rest {
        assert ts[i + 1] == rest[i];
        assert Keys(ts)[i + 1] == k;
      }
    } else {
      assert Keys(Infos(md, keys))[0] == k;
    }
  }

  /** The first of a sorted list is not above any later one. */
  lemma FirstNotAbove(keys: seq<string>, x: string)
    requires Sorted(keys) && keys != [] && x in keys[1..]
    ensures NotAbove(keys[0], x)
  {
    var m :| 0 <= m < |keys[1..]| && keys[1..][m] == x;
    assert keys[m + 1] == x;
  }

  /** Filtering keeps a sorted list sorted. */
  lemma {:induction false} InfosSorted(md: Dict, keys: seq<string>)
    requires Sorted(keys)
    ensures Sorted(Keys(Infos(md, keys)))
  {
    if keys != [] {
      SortedTail(keys);
      InfosSorted(md, keys[1..]);
      var rest := Keys(Infos(md, keys[1..]));
      var ks := Keys(Infos(md, keys));
      if ks != rest {
        forall j | 0 <= j < |rest| ensures NotAbove(keys[0], rest[j]) {
          assert rest[j] in keys[1..];
          FirstNotAbove(keys, rest[j]);
        }
        ConsSorted(keys[0], rest);
        assert ks == [keys[0]] + rest;
      }
    }
  }

  /** `"0x%04x" % len(data)`, `"%08x" % crc32(data)` and the SHA-1 hex
      digest of an image, under member name `name`. */
  function AreaEntry(socket: string, name: string, data: Bytes, h: Hashes): (a: SoftArea)
    ensures a.name == socket && a.rom.name == name && a.size == a.rom.size
    ensures a.rom.crc == h.crc32(data) && a.rom.sha1 == h.sha1(data)
  {
    SoftArea(socket, Hex4(|data|), RomEntry(name, Hex4(|data|), h.crc32(data), h.sha1(data), "0x0000"))
  }

  function SoftlistOf(c: CartView, base: string, h: Hashes): (s: Softlist)
    requires c.rom.Some? ==> RomsError(c.pcb, c.rom.value.roms).None?
  {
    var comment := match Get(c.metadata, "description")
                   case None => None
                   case Some(d) => Some(" Softlist entry for " + d + " ");
    Softlist(comment, c.name, Texts(c.metadata, TextKeys), Infos(c.metadata, Sort(Keys(c.metadata))),
             "cart", "ti99_cart", PcbType(c.pcb), SoftAreas(c, base, h))
  }

  /** The `dataarea` elements: the GROM image, then the ROM images. */
  function SoftAreas(c: CartView, base: string, h: Hashes): seq<SoftArea>
    requires c.rom.Some? ==> RomsError(c.pcb, c.rom.value.roms).None?
  {
    (if c.grom.Some? then [AreaEntry("grom_socket", base + "g.bin", c.grom.value.data, h)] else []) +
    (if c.rom.Some? then [AreaEntry("rom_socket", base + "c.bin", ChipImage(c.pcb, c.rom.value, 0), h)] else []) +
    (if c.rom.Some? && |c.rom.value.roms| == 2
     then [AreaEntry("rom2_socket", base + "d.bin", ChipImage(c.pcb, c.rom.value, 1), h)] else [])
  }
  /** The software list entry: its name, the `cart` part on the
      `ti99_cart` interface with the board's PCB feature, a leading comment
      exactly when a description is set, the text elements in the order
      description, year, publisher, and one data area per image written:
      the GROM image, then the first and the second ROM image. */
  lemma SoftlistShape(c: CartView, base: string, h: Hashes)
    requires c.rom.Some? ==> RomsError(c.pcb, c.rom.value.roms).None?
    ensures var s := SoftlistOf(c, base, h);
            && s.name == c.name && s.partName == "cart" && s.partInterface == "ti99_cart" && s.pcbFeature == PcbType(c.pcb)
            && (s.comment.Some? <==> Get(c.metadata, "description").Some?)
            && (s.comment.Some? ==> s.comment.value == " Softlist entry for " + Get(c.metadata, "description").value + " ")
            && s.texts == TextElem(c.metadata, "description") + TextElem(c.metadata, "year") + TextElem(c.metadata, "publisher")
            && s.areas == SoftAreas(c, base, h)
    ensures var areas := SoftAreas(c, base, h);
            && |areas| == (if c.grom.Some? then 1 else 0) + (if c.rom.Some? then |c.rom.value.roms| else 0)
            && (c.grom.Some? ==> areas[0].name == "grom_socket" && areas[0].rom.name == base + "g.bin")
            && (c.rom.Some? ==>
                  var k := if c.grom.Some? then 1 else 0;
                  && areas[k].name == "rom_socket" && areas[k].rom.name == base + "c.bin"
                  && (|c.rom.value.roms| == 2 ==> areas[k + 1].name == "rom2_socket" && areas[k + 1].rom.name == base + "d.bin"))
  {
    TextsOrder(c.metadata);
    if c.rom.Some? {
      RomsErrorIff(c.pcb, c.rom.value.roms);
    }
  }


  /** The images `write_rpk` writes, before its documents: the `rom` area's
      chips, then the GROM area. */
  function ImageMembers(c: CartView, base: string): seq<Member>
    requires c.rom.Some? ==> RomsError(c.pcb, c.rom.value.roms).None?
  {
    (if c.rom.Some? then RomMembers(base, c.pcb, c.rom.value) else [])
    + (if c.grom.Some? then [Member(base + "g.bin", Binary(c.grom.value.data))] else [])
  }

  /** The archive `write_rpk` writes, member by member in write order, or
      the exception it raises on the `rom` area. */
  function WriteRpk(c: CartView, h: Hashes): (r: Result<seq<Member>>)
    ensures r.Err? <==> c.rom.Some? && RomsError(c.pcb, c.rom.value.roms).Some?
    ensures r.Err? ==> Some(r.error) == RomsError(c.pcb, c.rom.value.roms)
  {
    if c.rom.Some? && RomsError(c.pcb, c.rom.value.roms).Some? then Err(RomsError(c.pcb, c.rom.value.roms).value)
    else
      var base := BaseName(c);
      Ok(ImageMembers(c, base) + [Member("layout.xml", LayoutXml(LayoutOf(c, base))),
                                  Member("meta-inf.xml", MetaInfXml(MetaInf(c.metadata))),
                                  Member("softlist.xml", SoftlistXml(SoftlistOf(c, base, h)))])
  }

  /** The image written under `path`, if any. */
  predicate HasImage(ms: seq<Member>, path: string, data: Bytes)
  {
    exists i :: 0 <= i < |ms| && ms[i] == Member(path, Binary(data))
  }

  /** The images `write_rpk` writes: `c.bin`, `d.bin` for a second chip and
      `g.bin` for a GROM area. */
  lemma WrittenImages(c: CartView, h: Hashes)
    requires WriteRpk(c, h).Ok?
    ensures var ms := WriteRpk(c, h).value;
            var base := BaseName(c);
            && (c.grom.Some? ==> HasImage(ms, base + "g.bin", c.grom.value.data))
            && (c.rom.Some? ==> HasImage(ms, base + "c.bin", ChipImage(c.pcb, c.rom.value, 0)))
            && (c.rom.Some? && |c.rom.value.roms| == 2 ==> HasImage(ms, base + "d.bin", ChipImage(c.pcb, c.rom.value, 1)))
  {
    if c.grom.Some? {
      GromImageWritten(c, h);
    }
    if c.rom.Some? {
      RomImagesWritten(c, h);
    }
  }

  lemma GromImageWritten(c: CartView, h: Hashes)
    requires WriteRpk(c, h).Ok? && c.grom.Some?
    ensures HasImage(WriteRpk(c, h).value, BaseName(c) + "g.bin", c.grom.value.data)
  {
    var ms := WriteRpk(c, h).value;
    var base := BaseName(c);
    var roms := if c.rom.Some? then RomMembers(base, c.pcb, c.rom.value) else [];
    assert ms[|roms|] == Member(base + "g.bin", Binary(c.grom.value.data));
  }

  lemma RomImagesWritten(c: CartView, h: Hashes)
    requires WriteRpk(c, h).Ok? && c.rom.Some?
    ensures HasImage(WriteRpk(c, h).value, BaseName(c) + "c.bin", ChipImage(c.pcb, c.rom.value, 0))
    ensures |c.rom.value.roms| == 2 ==> HasImage(WriteRpk(c, h).value, BaseName(c) + "d.bin", ChipImage(c.pcb, c.rom.value, 1))
  {
    var ms := WriteRpk(c, h).value;
    var roms := RomMembers(BaseName(c), c.pcb, c.rom.value);
    assert ms[0] == roms[0];
    if |c.rom.value.roms| == 2 {
      assert ms[1] == roms[1];
    }
  }


  /** The number of images `write_rpk` writes: one per `rom` chip and one
      for a GROM area. */
  function ImageCount(c: CartView): nat
  {
    (if c.rom.Some? then |c.rom.value.roms| else 0) + (if c.grom.Some? then 1 else 0)
  }

  /** After the images, the archive holds `layout.xml`, `meta-inf.xml` and
      `softlist.xml` built from the cartridge, in that order, and nothing
      else. */
  lemma WrittenDocuments(c: CartView, h: Hashes)
    requires WriteRpk(c, h).Ok?
    ensures var ms := WriteRpk(c, h).value;
            var n := ImageCount(c);
            && |ms| == n + 3
            && ms[..n] == ImageMembers(c, BaseName(c))
            && ms[n] == Member("layout.xml", LayoutXml(LayoutOf(c, BaseName(c))))
            && ms[n + 1] == Member("meta-inf.xml", MetaInfXml(MetaInf(c.metadata)))
            && ms[n + 2] == Member("softlist.xml", SoftlistXml(SoftlistOf(c, BaseName(c), h)))
  {
    var base := BaseName(c);
    ImageMembersNamed(c, base);
    var pre := ImageMembers(c, base);
    var docs := [Member("layout.xml", LayoutXml(LayoutOf(c, base))),
                 Member("meta-inf.xml", MetaInfXml(MetaInf(c.metadata))),
                 Member("softlist.xml", SoftlistXml(SoftlistOf(c, base, h)))];
    assert WriteRpk(c, h).value == pre + docs;
    assert (pre + docs)[..|pre|] == pre;
  }

  /** The images are one per `rom` chip and one for a GROM area, each named
      `c.bin`, `d.bin` or `g.bin` after the base name. */
  lemma ImageMembersNamed(c: CartView, base: string)
    requires c.rom.Some? ==> RomsError(c.pcb, c.rom.value.roms).None?
    ensures var ms := ImageMembers(c, base);
            && |ms| == ImageCount(c)
            && forall i :: 0 <= i < |ms| ==>
                 ms[i].body.Binary? && ms[i].path in {base + "c.bin", base + "d.bin", base + "g.bin"}
  {
    var roms: seq<Member> := if c.rom.Some? then RomMembers(base, c.pcb, c.rom.value) else [];
    var grom := if c.grom.Some? then [Member(base + "g.bin", Binary(c.grom.value.data))] else [];
    assert ImageMembers(c, base) == roms + grom;
    forall i | 0 <= i < |roms + grom|
      ensures (roms + grom)[i].body.Binary? && (roms + grom)[i].path in {base + "c.bin", base + "d.bin", base + "g.bin"}
    {
      if i < |roms| {
        assert (roms + grom)[i] == roms[i];
      } else {
        assert (roms + grom)[i] == grom[i - |roms|];
      }
    }
  }

  /** Every image `layout.xml` names is in the archive. */
  lemma LayoutFilesWritten(c: CartView, h: Hashes)
    requires WriteRpk(c, h).Ok?
    ensures forall r :: r in LayoutOf(c, BaseName(c)).resources ==> exists d :: HasImage(WriteRpk(c, h).value, r.file, d)
  {
    WrittenImages(c, h);
    var ms := WriteRpk(c, h).value;
    var base := BaseName(c);
    var g := if c.grom.Some? then [Resource("gromimage", base + "g.bin")] else [];
    var r1 := if c.rom.Some? then [Resource("romimage", base + "c.bin")] else [];
    var r2 := if c.rom.Some? && |c.rom.value.roms| == 2 then [Resource("rom2image", base + "d.bin")] else [];
    assert LayoutOf(c, base).resources == g + r1 + r2;
    forall r: Resource | r in g + r1 + r2
      ensures exists d :: HasImage(ms, r.file, d)
    {
      if r in g {
        assert HasImage(ms, r.file, c.grom.value.data);
      } else if r in r1 {
        assert HasImage(ms, r.file, ChipImage(c.pcb, c.rom.value, 0));
      } else {
        assert r in r2;
        assert HasImage(ms, r.file, ChipImage(c.pcb, c.rom.value, 1));
      }
    }
  }

  /** Chip entry `a` names an image of `ms` whose length its sizes read
      back as, through `int(_, 0)`, and whose digests it records. */
  ghost predicate Describes(ms: seq<Member>, a: SoftArea, h: Hashes)
  {
    exists d :: && HasImage(ms, a.rom.name, d)
                && ParseInt(a.size) == Ok(|d|) && ParseInt(a.rom.size) == Ok(|d|)
                && a.rom.crc == h.crc32(d) && a.rom.sha1 == h.sha1(d)
  }

  lemma EntryDescribes(ms: seq<Member>, socket: string, name: string, d: Bytes, h: Hashes)
    requires HasImage(ms, name, d)
    ensures Describes(ms, AreaEntry(socket, name, d, h), h)
  {
    Hex4RoundTrip(|d|);
  }

  /** Every chip of the software list entry describes an image in the archive. */
  lemma SoftlistImagesWritten(c: CartView, h: Hashes)
    requires WriteRpk(c, h).Ok?
    ensures forall a :: a in SoftAreas(c, BaseName(c), h) ==> Describes(WriteRpk(c, h).value, a, h)
  {
    WrittenImages(c, h);
    AreasDescribeImages(c, h, WriteRpk(c, h).value);
  }

  /** An archive holding the images describes every chip of the entry. */
  lemma AreasDescribeImages(c: CartView, h: Hashes, ms: seq<Member>)
    requires c.rom.Some? ==> RomsError(c.pcb, c.rom.value.roms).None?
    requires c.grom.Some? ==> HasImage(ms, BaseName(c) + "g.bin", c.grom.value.data)
    requires c.rom.Some? ==> HasImage(ms, BaseName(c) + "c.bin", ChipImage(c.pcb, c.rom.value, 0))
    requires c.rom.Some? && |c.rom.value.roms| == 2 ==> HasImage(ms, BaseName(c) + "d.bin", ChipImage(c.pcb, c.rom.value, 1))
    ensures forall a :: a in SoftAreas(c, BaseName(c), h) ==> Describes(ms, a, h)
  {
    var base := BaseName(c);
    var g := if c.grom.Some? then [AreaEntry("grom_socket", base + "g.bin", c.grom.value.data, h)] else [];
    var r := if c.rom.Some? then [AreaEntry("rom_socket", base + "c.bin", ChipImage(c.pcb, c.rom.value, 0), h)] else [];
    var r2 := if c.rom.Some? && |c.rom.value.roms| == 2
              then [AreaEntry("rom2_socket", base + "d.bin", ChipImage(c.pcb, c.rom.value, 1), h)] else [];
    assert SoftAreas(c, base, h) == g + r + r2;
    forall a | a in g + r + r2
      ensures Describes(ms, a, h)
    {
      if a in g {
        EntryDescribes(ms, "grom_socket", base + "g.bin", c.grom.value.data, h);
      } else if a in r {
        EntryDescribes(ms, "rom_socket", base + "c.bin", ChipImage(c.pcb, c.rom.value, 0), h);
      } else {
        assert a in r2;
        EntryDescribes(ms, "rom2_socket", base + "d.bin", ChipImage(c.pcb, c.rom.value, 1), h);
      }
    }
  }

  /** The `info` elements of the software list entry are the info keys
      other than `description`, `year` and `publisher`, in sorted order,
      with their values. */
  lemma SoftlistInfos(c: CartView, h: Hashes)
    requires c.rom.Some? ==> RomsError(c.pcb, c.rom.value.roms).None?
    ensures var infos := SoftlistOf(c, BaseName(c), h).infos;
            && Sorted(Keys(infos))
            && (forall i :: 0 <= i < |infos| ==> infos[i].0 !in TextKeys && Get(c.metadata, infos[i].0) == Some(infos[i].1))
            && (forall k :: Get(c.metadata, k).Some? && k !in TextKeys ==> k in Keys(infos))
  {
    var md := c.metadata;
    var keys := Sort(Keys(md));
    InfosSorted(md, keys);
    forall k | Get(md, k).Some? && k !in TextKeys
      ensures k in Keys(Infos(md, keys))
    {
      var j :| 0 <= j < |md| && md[j] == (k, Get(md, k).value);
      assert Keys(md)[j] == k;
      assert k in multiset(Keys(md));
      InfosComplete(md, keys, k);
    }
  }
}
