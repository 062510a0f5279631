/** `CartXmlContentHandler`: the SAX handler that reads the `ti99_cart`
    software list. Its input is modelled as a sequence of start-element,
    end-element and character events with attribute maps. */
module CatalogHandler {
  import opened Common
  import opened Roms
  import opened Metadata
  import opened DataAreas
  import opened Cartridges
  import opened IntLiterals

  datatype Event =
    | Start(name: string, attrs: map<string, string>)
    | End(name: string)
    | Chars(text: string)

  /** `attrs[key]`, which raises `KeyError` on a missing attribute. */
  function Attr(attrs: map<string, string>, key: string): (r: Result<string>)
    ensures r.Ok? <==> key in attrs
    ensures r.Ok? ==> r.value == attrs[key]
    ensures r.Err? ==> r.error == MissingAttribute(key)
  {
    if key in attrs then Ok(attrs[key]) else Err(MissingAttribute(key))
  }

  /** `int(attrs[key], 0)`. */
  function IntAttr(attrs: map<string, string>, key: string): (r: Result<int>)
    ensures key !in attrs ==> r == Err(MissingAttribute(key))
    ensures key in attrs ==> r == ParseInt(attrs[key])
  {
    match Attr(attrs, key)
    case Err(e) => Err(e)
    case Ok(s) => ParseInt(s)
  }

  /** Elements inside a `software` element whose start does nothing. */
  const TextElements: set<string> := {"description", "year", "publisher"}

  /** What a start tag asks of the handler, once its attributes are read. */
  datatype Action =
    | NewSoftware(name: string)
    | Ignore
    | SetInfo(key: string, value: string)
    | SetPcb(value: string)
    | OpenDataarea(socket: string, size: int)
    | AddChip(rom: Rom)
    | Fail(error: Error)

  /** The dispatch of `startElement(name, attrs)`, given whether a
      `software` element and a `dataarea` element are open. Attributes are
      read in the order the source reads them, so the first missing or
      malformed one is the one reported. */
  function StartAction(name: string, attrs: map<string, string>, inSoftware: bool, inDataarea: bool): (a: Action)
    ensures name == "software" ==> a == if "name" in attrs then NewSoftware(attrs["name"]) else Fail(MissingAttribute("name"))
    ensures name != "software" && (!inSoftware || name in TextElements) ==> a == Ignore
    ensures a.NewSoftware? ==> name == "software" && "name" in attrs && a.name == attrs["name"]
    ensures a.Fail? ==> !a.error.MissingPcb?
    ensures a.SetInfo? ==> name == "info" && "name" in attrs && "value" in attrs && a.key == attrs["name"] && a.value == attrs["value"]
    ensures a.SetPcb? ==> name == "feature" && "name" in attrs && "value" in attrs && attrs["name"] == "pcb" && a.value == attrs["value"]
    ensures a.OpenDataarea? ==> name == "dataarea" && "name" in attrs && "size" in attrs && a.socket == attrs["name"] && ParseInt(attrs["size"]) == Ok(a.size)
    ensures a.AddChip? ==>
              && name == "rom" && inDataarea
              && "name" in attrs && "size" in attrs && "crc" in attrs && "sha1" in attrs && "offset" in attrs
              && a.rom.name == attrs["name"] && a.rom.crc == attrs["crc"] && a.rom.sha1 == attrs["sha1"]
              && ParseInt(attrs["size"]) == Ok(a.rom.size) && ParseInt(attrs["offset"]) == Ok(a.rom.offset)
    ensures name == "rom" && inSoftware && !inDataarea ==> a == Fail(RomOutsideDataarea)
    ensures name == "part" && inSoftware ==>
              a == (if "name" !in attrs then Fail(MissingAttribute("name"))
                    else if attrs["name"] != "cart" then Fail(BadPart)
                    else if "interface" !in attrs then Fail(MissingAttribute("interface"))
                    else if attrs["interface"] != "ti99_cart" then Fail(BadPart)
                    else Ignore)
    ensures name == "info" && inSoftware ==>
              a == (if "name" !in attrs then Fail(MissingAttribute("name"))
                    else if "value" !in attrs then Fail(MissingAttribute("value"))
                    else SetInfo(attrs["name"], attrs["value"]))
    ensures name == "feature" && inSoftware ==>
              a == (if "name" !in attrs then Fail(MissingAttribute("name"))
                    else if attrs["name"] != "pcb" then Fail(UnknownFeature(attrs["name"]))
                    else if "value" !in attrs then Fail(MissingAttribute("value"))
                    else SetPcb(attrs["value"]))
    ensures name == "dataarea" && inSoftware ==>
              a == (if "name" !in attrs then Fail(MissingAttribute("name"))
                    else if "size" !in attrs then Fail(MissingAttribute("size"))
                    else if ParseInt(attrs["size"]).Err? then Fail(ParseInt(attrs["size"]).error)
                    else OpenDataarea(attrs["name"], ParseInt(attrs["size"]).value))
    ensures name == "rom" && inSoftware && inDataarea ==>
              a == (if "name" !in attrs then Fail(MissingAttribute("name"))
                    else if "size" !in attrs then Fail(MissingAttribute("size"))
                    else if ParseInt(attrs["size"]).Err? then Fail(ParseInt(attrs["size"]).error)
                    else if "crc" !in attrs then Fail(MissingAttribute("crc"))
                    else if "sha1" !in attrs then Fail(MissingAttribute("sha1"))
                    else if "offset" !in attrs then Fail(MissingAttribute("offset"))
                    else if ParseInt(attrs["offset"]).Err? then Fail(ParseInt(attrs["offset"]).error)
                    else AddChip(Rom(attrs["name"], ParseInt(attrs["size"]).value, attrs["crc"], attrs["sha1"],
                                     ParseInt(attrs["offset"]).value)))
    ensures inSoftware && name !in TextElements + {"software", "info", "part", "feature", "dataarea", "rom"} ==>
              a == Fail(UnknownElement(name))
  {
    if name == "software" then
      match Attr(attrs, "name")
      case Err(e) => Fail(e)
      case Ok(n) => NewSoftware(n)
    else if !inSoftware || name in TextElements then Ignore
    else if name == "info" then
      match (Attr(attrs, "name"), Attr(attrs, "value"))
      case (Err(e), _) => Fail(e)
      case (Ok(_), Err(e)) => Fail(e)
      case (Ok(k), Ok(v)) => SetInfo(k, v)
    else if name == "part" then
      match Attr(attrs, "name")
      case Err(e) => Fail(e)
      case Ok(n) =>
        if n != "cart" then Fail(BadPart)
        else match Attr(attrs, "interface")
          case Err(e) => Fail(e)
          case Ok(i) => if i != "ti99_cart" then Fail(BadPart) else Ignore
    else if name == "feature" then
      match Attr(attrs, "name")
      case Err(e) => Fail(e)
      case Ok(n) =>
        if n != "pcb" then Fail(UnknownFeature(n))
        else match Attr(attrs, "value")
          case Err(e) => Fail(e)
          case Ok(v) => SetPcb(v)
    else if name == "dataarea" then
      match (Attr(attrs, "name"), IntAttr(attrs, "size"))
      case (Err(e), _) => Fail(e)
      case (Ok(_), Err(e)) => Fail(e)
      case (Ok(n), Ok(s)) => OpenDataarea(n, s)
    else if name == "rom" then
      if !inDataarea then Fail(RomOutsideDataarea)
      else
        match (Attr(attrs, "name"), IntAttr(attrs, "size"), Attr(attrs, "crc"), Attr(attrs, "sha1"), IntAttr(attrs, "offset"))
        case (Err(e), _, _, _, _) => Fail(e)
        case (Ok(_), Err(e), _, _, _) => Fail(e)
        case (Ok(_), Ok(_), Err(e), _, _) => Fail(e)
        case (Ok(_), Ok(_), Ok(_), Err(e), _) => Fail(e)
        case (Ok(_), Ok(_), Ok(_), Ok(_), Err(e)) => Fail(e)
        case (Ok(n), Ok(s), Ok(c), Ok(h), Ok(o)) => AddChip(Rom(n, s, c, h, o))
    else Fail(UnknownElement(name))
  }

  /** A chip tag whose attributes are complete and well formed is handed to
      `add_rom` as written, and a missing `name` is reported before any
      other attribute. */
  lemma ChipAttributes(attrs: map<string, string>, n: string, s: nat, c: string, h: string, o: nat)
    requires attrs == map["name" := n, "size" := Hex4(s), "crc" := c, "sha1" := h, "offset" := Hex4(o)]
    ensures StartAction("rom", attrs, true, true) == AddChip(Rom(n, s, c, h, o))
    ensures StartAction("rom", attrs - {"name"}, true, true) == Fail(MissingAttribute("name"))
  {
    Hex4RoundTrip(s);
    Hex4RoundTrip(o);
  }

  /** Cartridge `c`, if any, has the fields it had before. */
  twostate predicate CartKept(c: Cartridge?)
    reads c
  {
    c != null ==> c.metadata == old(c.metadata) && c.pcb == old(c.pcb) && c.dataareas == old(c.dataareas) && c.order == old(c.order)
  }

  /** Data area `d`, if any, has the chips and buffer it had before. */
  twostate predicate AreaKept(d: DataArea?)
    reads d
  {
    d != null ==> d.roms == old(d.roms) && d.data == old(d.data)
  }

  /** The outcome of `get_dataarea(socket, size)` on cartridge `c` for the
      kind `k` of a `dataarea` tag: the area `da` it hands back, the
      cartridge's areas afterwards, and the error it raises, if any; `oda`
      is the data area open before. */
  twostate predicate Opened(k: string, size: int, c: Cartridge, oda: DataArea?, new da: DataArea?, new err: Option<Error>)
    reads c, da
  {
    var areas := old(c.dataareas);
    var g := k == "grom" && old(c.pcb) != Some("gromemu");
    && c.metadata == old(c.metadata) && c.pcb == old(c.pcb)
    && (k !in Kinds ==> err == Some(UnknownDataarea(k)))
    && (k in Kinds && k in areas ==> err == if areas[k].size != size then Some(RedeclaredDataarea(k)) else None)
    && (k in Kinds && k !in areas ==> err == CapacityError(size, g))
    && (err.Some? ==> da == oda && c.dataareas == areas && c.order == old(c.order))
    && (err.None? && k in areas ==> da == areas[k] && c.dataareas == areas && c.order == old(c.order))
    && (err.None? && k !in areas ==>
          && da != null && fresh(da) && da.size == size && da.grom == g && da.roms == [] && da.data == null
          && c.dataareas == areas[k := da] && c.order == old(c.order) + [k])
  }

  /** The effect of start-tag action `a` on the open cartridge and data
      area: `osw` and `oda` before, `sw` and `da` after, and the error raised. */
  twostate predicate Applied(a: Action, osw: Cartridge?, oda: DataArea?, new sw: Cartridge?, new da: DataArea?, new err: Option<Error>)
    reads osw, oda, sw, da
  {
    match a
    case Fail(e) => err == Some(e) && sw == osw && da == oda && CartKept(osw) && AreaKept(oda)
    case Ignore => err.None? && sw == osw && da == oda && CartKept(osw) && AreaKept(oda)
    case NewSoftware(n) =>
      && err.None? && sw != null && fresh(sw) && da == oda && CartKept(osw) && AreaKept(oda)
      && sw.name == n && sw.metadata == [] && sw.pcb == None && sw.dataareas == map[] && sw.order == []
    case SetInfo(k, v) =>
      && err.None? && osw != null && sw == osw && da == oda && AreaKept(oda)
      && sw.metadata == Put(old(osw.metadata), k, v)
      && sw.pcb == old(osw.pcb) && sw.dataareas == old(osw.dataareas) && sw.order == old(osw.order)
    case SetPcb(v) =>
      && err.None? && osw != null && sw == osw && da == oda && AreaKept(oda)
      && sw.pcb == Some(v)
      && sw.metadata == old(osw.metadata) && sw.dataareas == old(osw.dataareas) && sw.order == old(osw.order)
    case OpenDataarea(socket, size) =>
      osw != null && sw == osw && AreaKept(oda) && Opened(SocketKind(socket), size, osw, oda, da, err)
    case AddChip(rom) =>
      && oda != null && sw == osw && da == oda && CartKept(osw) && da.data == old(oda.data)
      && err == RomError(old(oda.roms), da.size, da.grom, rom)
      && da.roms == if err.None? then old(oda.roms) + [rom] else old(oda.roms)
  }

  class CartXmlContentHandler {
    /** The finished cartridges, by name. */
    var softwarelist: map<string, Cartridge>
    /** The open `software` element, if any. */
    var software: Cartridge?
    /** The data area of the last `dataarea` start tag, until its end tag. */
    var dataarea: DataArea?
    /** The text collected since the last start tag, or `None` after an end tag. */
    var content: Option<string>
    /** The finished cartridges and their data areas. */
    ghost var closed: set<object>
    /** Every object the handler has created or reached. */
    ghost var Repr: set<object>

    /** The objects the handler may reach. */
    ghost function Footprint(): set<object>
      reads this, software
    {
      {this} + closed
      + (if software != null then {software} + software.dataareas.Values else {})
      + (if dataarea != null then {dataarea} else {})
    }

    /** Every finished cartridge is well formed, has a PCB type and is filed
        under its own name. */
    ghost predicate ClosedValid()
      reads this, closed
    {
      forall n :: n in softwarelist ==>
        && softwarelist[n] in closed && softwarelist[n].dataareas.Values <= closed
        && softwarelist[n].Valid() && softwarelist[n].pcb.Some? && softwarelist[n].name == n
    }

    /** The open cartridge and the open data area are well formed and share
        nothing with the finished ones. */
    ghost predicate OpenValid()
      reads this, software, Footprint()
    {
      && (software != null ==>
            && software !in closed && software.Valid()
            && forall a :: a in software.dataareas.Values ==> a !in closed)
      && (dataarea != null ==> dataarea !in closed && dataarea.Valid())
    }

    ghost predicate Valid()
      reads this, software, Footprint()
    {
      Footprint() <= Repr && ClosedValid() && OpenValid()
    }

    /** `startDocument`. */
    constructor ()
      ensures Valid() && fresh(Repr)
      ensures softwarelist == map[] && software == null && dataarea == null && content == None
    {
      softwarelist := map[];
      software := null;
      dataarea := null;
      content := None;
      closed := {};
      Repr := {this};
    }

    /** `startElement(name, attrs)`: the collected text restarts, then the
        tag's action runs. */
    method StartElement(name: string, attrs: map<string, string>) returns (err: Option<Error>)
      requires Valid()
      modifies this, software, dataarea
      ensures Valid() && fresh(Repr - old(Repr))
      ensures content == Some("") && softwarelist == old(softwarelist)
      ensures Applied(StartAction(name, attrs, old(software) != null, old(dataarea) != null),
                      old(software), old(dataarea), software, dataarea, err)
      ensures err.Some? ==> !err.value.MissingPcb?
    {
      SetContent(Some(""));
      var a := StartAction(name, attrs, software != null, dataarea != null);
      err := Apply(a);
    }

    /** The effect of one start-tag action. */
    method Apply(a: Action) returns (err: Option<Error>)
      requires Valid()
      requires (a.SetInfo? || a.SetPcb? || a.OpenDataarea?) ==> software != null
      requires a.AddChip? ==> dataarea != null
      modifies this, software, dataarea
      ensures Valid() && fresh(Repr - old(Repr))
      ensures content == old(content) && softwarelist == old(softwarelist)
      ensures Applied(a, old(software), old(dataarea), software, dataarea, err)
      ensures err.Some? && err.value.MissingPcb? ==> a == Fail(err.value)
    {
      match a {
        case Fail(e) =>
          err := Some(e);
        case Ignore =>
          err := None;
        case NewSoftware(n) =>
          StartSoftware(n);
          err := None;
        case SetInfo(k, v) =>
          SetInfo(k, v);
          err := None;
        case SetPcb(v) =>
          SetPcb(v);
          err := None;
        case OpenDataarea(socket, size) =>
          err := OpenDataarea(socket, size);
        case AddChip(rom) =>
          err := AddChip(rom);
      }
    }

    /** The text collected so far becomes `c`. */
    method SetContent(c: Option<string>)
      requires Valid()
      modifies this
      ensures Valid() && Repr == old(Repr)
      ensures content == c
      ensures softwarelist == old(softwarelist) && software == old(software) && dataarea == old(dataarea)
    {
      content := c;
    }

    /** A `software` tag: a new cartridge becomes the open one. */
    method StartSoftware(name: string)
      requires Valid()
      modifies this
      ensures Valid() && fresh(Repr - old(Repr))
      ensures software != null && fresh(software)
      ensures software.name == name && software.metadata == [] && software.pcb == None && software.dataareas == map[]
      ensures software.order == []
      ensures softwarelist == old(softwarelist) && dataarea == old(dataarea) && content == old(content)
    {
      software := new Cartridge(name);
      Repr := Repr + {software};
    }

    /** The end of a `dataarea` element. */
    method CloseDataarea()
      requires Valid()
      modifies this
      ensures Valid() && Repr == old(Repr)
      ensures dataarea == null
      ensures softwarelist == old(softwarelist) && software == old(software) && content == old(content)
    {
      dataarea := null;
    }

    /** An `info` tag inside a `software` element. */
    method SetInfo(key: string, value: string)
      requires Valid() && software != null
      modifies software
      ensures Valid() && Repr == old(Repr)
      ensures software.metadata == Put(old(software.metadata), key, value)
      ensures software.pcb == old(software.pcb) && software.dataareas == old(software.dataareas)
      ensures software.order == old(software.order)
    {
      software.SetMetadata(key, value);
    }

    /** A `feature name="pcb"` tag inside a `software` element. */
    method SetPcb(value: string)
      requires Valid() && software != null
      modifies software
      ensures Valid() && Repr == old(Repr)
      ensures software.pcb == Some(value)
      ensures software.metadata == old(software.metadata) && software.dataareas == old(software.dataareas)
      ensures software.order == old(software.order)
    {
      software.SetPcb(value);
    }

    /** A `dataarea` tag inside a `software` element: `get_dataarea` with
        the declared size, which becomes the open data area. */
    method OpenDataarea(socket: string, size: int) returns (err: Option<Error>)
      requires Valid() && software != null
      modifies this, software
      ensures Valid() && fresh(Repr - old(Repr))
      ensures software == old(software) && softwarelist == old(softwarelist) && content == old(content)
      ensures Opened(SocketKind(socket), size, software, old(dataarea), dataarea, err)
    {
      assert software.dataareas.Values <= Repr;
      var r := software.GetDataarea(socket, Some(size));
      Adopt(SocketKind(socket), r);
      err := if r.Err? then Some(r.error) else None;
    }

    /** After `get_dataarea` for kind `k` returned `r`: the handler takes in
        the open cartridge's data areas, and a returned area becomes the
        open one. */
    method Adopt(k: string, r: Result<Option<DataArea>>)
      requires software != null && ClosedValid() && OpenValid()
      requires Footprint() <= Repr + software.dataareas.Values
      requires r.Ok? ==> r.value.Some? && k in software.dataareas && r.value.value == software.dataareas[k]
      modifies this
      ensures Valid() && Repr == old(Repr) + old(software.dataareas.Values)
      ensures dataarea == if r.Ok? then r.value.value else old(dataarea)
      ensures software == old(software) && softwarelist == old(softwarelist) && content == old(content)
    {
      Grow();
      if r.Ok? {
        Focus(k);
      }
    }

    /** The handler takes in the data areas of the open cartridge, which
        `get_dataarea` may have added to. */
    ghost method Grow()
      requires software != null && ClosedValid() && OpenValid()
      requires Footprint() <= Repr + software.dataareas.Values
      modifies this
      ensures Valid()
      ensures Repr == old(Repr) + old(software.dataareas.Values)
      ensures software == old(software) && dataarea == old(dataarea)
      ensures softwarelist == old(softwarelist) && content == old(content) && closed == old(closed)
    {
      Repr := Repr + software.dataareas.Values;
    }

    /** The data area of kind `k` of the open cartridge becomes the open one. */
    method Focus(k: string)
      requires Valid() && software != null && k in software.dataareas
      modifies this
      ensures Valid() && Repr == old(Repr)
      ensures dataarea == old(software.dataareas[k])
      ensures software == old(software) && softwarelist == old(softwarelist) && content == old(content)
    {
      var a := software.dataareas[k];
      assert a in software.dataareas.Values;
      dataarea := a;
    }

    /** A `rom` tag inside a `dataarea` element: `add_rom` on the open data area. */
    method AddChip(rom: Rom) returns (err: Option<Error>)
      requires Valid() && dataarea != null
      modifies dataarea
      ensures Valid() && Repr == old(Repr) && dataarea.data == old(dataarea.data)
      ensures err == RomError(old(dataarea.roms), dataarea.size, dataarea.grom, rom)
      ensures dataarea.roms == if err.None? then old(dataarea.roms) + [rom] else old(dataarea.roms)
    {
      err := dataarea.AddRom(rom);
    }

    /** The effect of `endElement(name)`: outside a `software` element
        nothing but the collected text changes; the end of a `software`
        element files the open cartridge, which must have a PCB type; the
        end of a text element records its collected text (the empty string
        when a nested element cut it short); the end of a `dataarea`
        element closes it. The open cartridge and data area are otherwise
        kept, and the collected text is dropped unless an error is raised. */
    twostate predicate Ended(name: string, sw: Cartridge?, oda: DataArea?, new err: Option<Error>)
      requires sw == old(software) && oda == old(dataarea)
      reads this, software, sw, oda
    {
      && AreaKept(oda)
      && (err.None? ==> content == None)
      && (err.Some? ==> content == old(content))
      && (sw == null ==> err.None? && software == null && dataarea == oda &&
                         softwarelist == old(softwarelist))
      && (sw != null && name == "software" ==>
            && CartKept(sw)
            && (err.Some? <==> old(sw.pcb).None?)
            && (err.Some? ==> err == Some(MissingPcb(sw.name)) && software == sw && dataarea == oda &&
                              softwarelist == old(softwarelist))
            && (err.None? ==> software == null && dataarea == null && softwarelist == old(softwarelist)[sw.name := sw]))
      && (sw != null && name in TextElements ==>
            && err.None? && software == sw && dataarea == oda && softwarelist == old(softwarelist)
            && sw.metadata == Put(old(sw.metadata), name, if old(content).Some? then old(content).value else "")
            && sw.pcb == old(sw.pcb) && sw.dataareas == old(sw.dataareas) && sw.order == old(sw.order))
      && (sw != null && name == "dataarea" ==>
            err.None? && CartKept(sw) && software == sw && dataarea == null && softwarelist == old(softwarelist))
      && (sw != null && name != "software" && name != "dataarea" && name !in TextElements ==>
            err.None? && CartKept(sw) && software == sw && dataarea == oda && softwarelist == old(softwarelist))
    }

    /** `endElement(name)`. */
    method EndElement(name: string) returns (err: Option<Error>)
      requires Valid()
      modifies this, software
      ensures Valid() && fresh(Repr - old(Repr))
      ensures Ended(name, old(software), old(dataarea), err)
    {
      err := None;
      if software != null {
        if name == "software" {
          if software.pcb.None? {
            return Some(MissingPcb(software.name));
          }
          CloseSoftware();
        } else if name in TextElements {
          SetInfo(name, if content.Some? then content.value else "");
        } else if name == "dataarea" {
          CloseDataarea();
        }
      }
      SetContent(None);
    }

    /** The end of a `software` element that has a PCB type: the cartridge
        is filed under its name. */
    method CloseSoftware()
      requires Valid() && software != null && software.pcb.Some?
      modifies this
      ensures Valid() && Repr == old(Repr)
      ensures softwarelist == old(softwarelist)[old(software.name) := old(software)]
      ensures software == null && dataarea == null && content == old(content)
    {
      var s := software;
      Detach();
      File(s);
    }

    /** The open cartridge and data area are let go. */
    method Detach()
      requires Valid()
      modifies this
      ensures Valid() && Repr == old(Repr)
      ensures software == null && dataarea == null
      ensures softwarelist == old(softwarelist) && closed == old(closed) && content == old(content)
    {
      software := null;
      dataarea := null;
    }

    /** Cartridge `s`, already let go, joins the finished ones. */
    method File(s: Cartridge)
      requires Valid() && software == null && dataarea == null
      requires s !in closed && s in Repr && s.dataareas.Values <= Repr
      requires s.Valid() && s.pcb.Some? && forall a :: a in s.dataareas.Values ==> a !in closed
      modifies this
      ensures Valid() && Repr == old(Repr)
      ensures softwarelist == old(softwarelist)[s.name := s]
      ensures software == null && dataarea == old(dataarea) && content == old(content)
    {
      closed := closed + {s} + s.dataareas.Values;
      softwarelist := softwarelist[s.name := s];
    }

    /** `characters(text)`: collected only after a start tag. */
    method Characters(text: string)
      requires Valid()
      modifies this
      ensures Valid() && Repr == old(Repr)
      ensures content == if old(content).Some? then Some(old(content).value + text) else None
      ensures softwarelist == old(softwarelist) && software == old(software) && dataarea == old(dataarea)
    {
      if content.Some? {
        content := Some(content.value + text);
      }
    }

    /** Feed one event to the handler: a character event never fails and
        only extends the collected text. */
    method Handle(e: Event) returns (err: Option<Error>)
      requires Valid()
      modifies this, software, dataarea
      ensures Valid() && fresh(Repr - old(Repr))
      ensures e.Start? ==>
                && content == Some("") && softwarelist == old(softwarelist)
                && Applied(StartAction(e.name, e.attrs, old(software) != null, old(dataarea) != null),
                           old(software), old(dataarea), software, dataarea, err)
      ensures e.End? ==> Ended(e.name, old(software), old(dataarea), err)
      ensures e.Chars? ==>
                && err.None? && softwarelist == old(softwarelist) && software == old(software) && dataarea == old(dataarea)
                && CartKept(software) && AreaKept(dataarea)
                && content == if old(content).Some? then Some(old(content).value + e.text) else None
      ensures err.Some? ==> (e.Start? && !err.value.MissingPcb?) || (e == End("software") && err.value.MissingPcb?)
      ensures err.None? ==> forall n :: n in softwarelist ==> n in old(softwarelist) || (old(software) != null && n == old(software).name)
      ensures err.None? && software != null && software != old(software) ==>
                e.Start? && e.name == "software" && "name" in e.attrs && software.name == e.attrs["name"]
    {
      match e {
        case Start(n, attrs) => err := StartElement(n, attrs);
        case End(n) => err := EndElement(n);
        case Chars(t) => Characters(t); err := None;
      }
    }
  }

  /** The `name` attributes of the `software` start tags among `events`. */
  ghost function SoftwareNames(events: seq<Event>): set<string>
  {
    if events == [] then {}
    else
      var e := events[|events| - 1];
      SoftwareNames(events[..|events| - 1]) +
      (if e.Start? && e.name == "software" && "name" in e.attrs then {e.attrs["name"]} else {})
  }

  /** A name is collected exactly when some `software` start tag carries it. */
  lemma {:induction false} SoftwareNamesDeclared(events: seq<Event>, n: string)
    ensures n in SoftwareNames(events) <==>
              exists j :: 0 <= j < |events| && events[j].Start? && events[j].name == "software" &&
                          "name" in events[j].attrs && events[j].attrs["name"] == n
  {
    if events != [] {
      var m := |events| - 1;
      var init := events[..m];
      SoftwareNamesDeclared(init, n);
      if n in SoftwareNames(init) {
        var j :| 0 <= j < |init| && init[j].Start? && init[j].name == "software" &&
                 "name" in init[j].attrs && init[j].attrs["name"] == n;
        assert events[j] == init[j];
      }
      if exists j :: 0 <= j < |events| && events[j].Start? && events[j].name == "software" &&
                     "name" in events[j].attrs && events[j].attrs["name"] == n {
        var j :| 0 <= j < |events| && events[j].Start? && events[j].name == "software" &&
                 "name" in events[j].attrs && events[j].attrs["name"] == n;
        if j < m {
          assert init[j] == events[j];
        }
      }
    }
  }

  /** `xml.sax.parse(document, handler)` over the document's events: the
      software list, or the first exception a handler method raises. Every
      cartridge filed is named by the `name` attribute of a `software` start
      tag. An exception stops the parse at event `at`: a start tag, or the
      end of a `software` element without a PCB type. */
  method ParseCatalog(events: seq<Event>) returns (r: Result<map<string, Cartridge>>, ghost at: nat)
    ensures r.Ok? ==> forall n :: n in r.value ==>
              r.value[n].Valid() && r.value[n].pcb.Some? && r.value[n].name == n && n in SoftwareNames(events)
    ensures r.Err? ==> at < |events|
    ensures r.Err? && r.error.MissingPcb? ==> events[at] == End("software")
    ensures r.Err? && !r.error.MissingPcb? ==> events[at].Start?
    ensures r.Err? ==>
              exists j :: 0 <= j < |events| && (events[j].Start? || (events[j] == End("software") && r.error.MissingPcb?))
  {
    at := 0;
    var h := new CartXmlContentHandler();
    var i := 0;
    while i < |events|
      invariant 0 <= i <= |events|
      invariant h.Valid()
      invariant fresh(h.Repr)
      invariant h.softwarelist.Keys <= SoftwareNames(events[..i])
      invariant h.software != null ==> h.software.name in SoftwareNames(events[..i])
    {
      var e := events[i];
      assert events[..i + 1][..i] == events[..i];
      var err := h.Handle(e);
      if err.Some? {
        assert e == events[i] && (e.Start? || (e == End("software") && err.value.MissingPcb?));
        return Err(err.value), i;
      }
      i := i + 1;
    }
    assert events[..i] == events;
    assert h.ClosedValid();
    return Ok(h.softwarelist), 0;
  }
}
