# zip2rpk, modelled in Dafny

`zip2rpk.py` converts a TI-99/4A cartridge dump into an RPK package for
MAME-style emulators. It reads the software list `ti99_cart.xml` with a SAX
content handler, which builds one `Cartridge` per `<software>` entry. Each
cartridge holds metadata, a PCB type and its data areas (`rom`, `grom`,
`ram`, `nvram`). Each data area declares the ROM chips (name, size, CRC32,
SHA-1, offset) that must be loaded from the cartridge's zip archive. Loading
checks every chip's length and hashes and copies it into the area's image.
For GROM areas it then rebuilds the last 0x800 bytes of every 8 KiB bank: the
console reads them back as the OR of the two 0x800-byte blocks before them,
and it warns when a dump got that "garbage" wrong. `write_rpk` then checks
the `rom` area's chip layout against the PCB type. It writes the chip images
plus three XML documents: `layout.xml`, `meta-inf.xml` and a one-entry
`softlist.xml`.

The model follows the program's structure:

| file | module | models |
|---|---|---|
| common.dfy | Common | bytes, `Option`/`Result`, one `Error` constructor per exception the program raises, hash functions as parameters |
| checks.dfy | Checks | `check_data` |
| roms.dfy | Roms | chip records, area capacity rules, `add_rom`'s range, GROM and overlap rules |
| loading.dfy | Loading | the chip-copy loop of `DataArea.load_from_zip` as a function on byte sequences |
| grom.dfy | Grom | the bank-tail reconstruction of `GromDataArea.load_from_zip` / `update_garbage` as functions, with their properties |
| data_area.dfy | DataAreas | class `DataArea`: `add_rom`, `load_from_zip`, `update_garbage` as methods over an `array<bv8>` image |
| metadata.dfy | Metadata | the metadata dict as an insertion-ordered association list |
| cartridge.dfy | Cartridges | class `Cartridge`: `set_metadata`, `set_pcb`, `get_dataarea`, `load_from_zip` |
| int_literal.dfy | IntLiterals | the subset of `int(x, 0)` the catalogue uses, and `"0x%04x"` formatting |
| catalog_handler.dfy | CatalogHandler | class `CartXmlContentHandler` as a state machine over SAX events |
| sorting.dfy | Sorting | `sorted()` on strings (code-point order) |
| packager.dfy | Packager | `write_rpk` as pure functions from a snapshot of a loaded cartridge to the archive members it writes |

`GromDataArea` is not a subclass here. `DataArea` has a `grom` flag, and
each method takes the GROM path when the flag is set. An exception becomes
an `Err`/`Some(error)` result that names it. The stderr warning of
`update_garbage` becomes a `repaired` / `fixed` out-parameter. A zip archive
is a map from member names to bytes. CRC32 and SHA-1 are the functions in a
`Hashes` value, so every property holds for any hash function.

## Model

| member | source | states |
|---|---|---|
| Checks.CheckData | zip2rpk.py:17-26 | no error exactly when length, SHA-1 and CRC32 all match; otherwise the first failing check in the order length, SHA-1, CRC32, with the values it reports |
| Roms.CapacityError | zip2rpk.py:30-32 | an area size is rejected exactly when it is outside 0..0x10000, or, for a GROM area, when size mod 0x2000 is not 0 or 0x1800 or size exceeds 0xa000; the GROM rule is checked first |
| Roms.GromCapacities | zip2rpk.py:59-62 | the GROM sizes accepted are exactly 0, 0x1800, 0x2000, 0x3800, ... 0x9800, 0xa000 |
| Roms.RomError | zip2rpk.py:36-68 | a chip is accepted exactly when it fits [0, size) and overlaps no earlier chip (GROM: size 0x1800 or a multiple of 0x2000, 0x2000-aligned offset, checked first); the error is the first failing test's: "Invalid GROM size", then "Invalid GROM offset" with the offset, then "outside range", then "Overlapping roms" naming the first declared chip it overlaps |
| Roms.OverlapIsIntersection | zip2rpk.py:42-43 | the two-sided overlap test is symmetric and, for non-empty chips, holds exactly when the chips share a byte |
| Roms.NotOverlappingIsDisjoint | zip2rpk.py:42-43 | chips that pass the overlap test share no byte |
| Roms.FirstOverlap | zip2rpk.py:41-45 | the first earlier chip the new one overlaps, or none when it overlaps none |
| Roms.FindOverlap | zip2rpk.py:41-45 | the loop over `self.roms` finds the first overlapping chip, or reports that there is none |
| Roms.AcceptedKeepsWellFormed | zip2rpk.py:37-46 | appending an accepted chip keeps every chip inside the area, every pair disjoint and every GROM chip aligned |
| Roms.DeclarationOrderIrrelevant | zip2rpk.py:41-46 | two chips are both accepted in one declaration order exactly when they are in the other |
| Roms.WellFormedChipsDisjoint | zip2rpk.py:41-46 | in an area built by `add_rom`, no byte belongs to two chips |
| Loading.Zeros | zip2rpk.py:51 | `bytearray(size)`: `size` zero bytes |
| Loading.Splice | zip2rpk.py:55 | slice assignment: the bytes land at the offset and everything else is kept |
| Loading.ChipError | zip2rpk.py:53-54 | a chip loads exactly when its member exists and passes `check_data`; a missing member is reported as such |
| Loading.LoadRoms | zip2rpk.py:51-55 | the image loads exactly when every chip checks out, keeps the area's length, and otherwise fails with the first failing chip's error |
| Loading.LoadedChipHoldsMember | zip2rpk.py:52-55 | after loading, each chip's byte range holds exactly that chip's zip member |
| Loading.LoadedOutsideChips | zip2rpk.py:51-55 | bytes no chip covers stay zero |
| Grom.WindowStart | zip2rpk.py:74 | the bank start of a byte is 0x2000-aligned and the byte lies inside that bank |
| Grom.SourcesOutsideTails | zip2rpk.py:85 | the two bytes a tail byte is rebuilt from lie in the same bank and outside any tail |
| Grom.Fix | zip2rpk.py:84-89 | rebuilding the tails of a set of banks keeps the image length |
| Grom.TailRepairedFix | zip2rpk.py:84-89 | a full pass of the `update_garbage` loop over one bank equals rebuilding that bank's tail |
| Grom.Degarbled | zip2rpk.py:71-78 | the GROM load pass keeps the image length |
| Grom.WindowFitsCapacity | zip2rpk.py:75-78 | whenever `o+0x1800 < len(data)` holds, the whole bank fits the area, so the garbage size is always 0x800 |
| Grom.WindowHasChipData | zip2rpk.py:74-82 | every bank the load loop visits has at least 0x1800 chip bytes from its start, so `update_garbage`'s RuntimeError cannot occur |
| Grom.FixAddWindow | zip2rpk.py:73-78 | repairing one more bank composes with the banks already repaired |
| Grom.FixIsDegarbled | zip2rpk.py:71-78 | repairing exactly the banks the load loop visits gives the loaded GROM image |
| Grom.DegarbledConsistent | zip2rpk.py:84-89 | in the loaded image every rebuilt tail byte equals the OR of its two source bytes |
| Grom.DegarbledKeepsOthers | zip2rpk.py:73-89 | bytes outside the tails of visited banks are unchanged |
| Grom.PartialBankUntouched | zip2rpk.py:75 | in an area ending in a 0x1800-byte bank, that last bank is never altered |
| Grom.DegarbledIdempotent | zip2rpk.py:71-89 | repairing an already repaired image changes nothing |
| Grom.DegarbledUnchangedIff | zip2rpk.py:86-89 | the repair leaves the image unchanged exactly when every visited tail already holds the right garbage |
| Grom.RepairedWindowExtend | zip2rpk.py:73-76 | the banks visited after one more chip are the earlier ones plus that chip's banks below the area end |
| Grom.RepairWarningExtend | zip2rpk.py:86-88 | the warning after one more chip is the earlier warning or a wrong tail byte inside that chip |
| Grom.FreshBankFlag | zip2rpk.py:86-88 | the `fixed` flag for a bank not yet repaired is a wrong tail byte of the chip in that bank |
| Grom.ChipWindowsApart | zip2rpk.py:74 | the banks of one chip are 0x2000 apart |
| Grom.WarningsBelowNextBank | zip2rpk.py:74-78 | a chip's warnings up to the next bank are those before this bank plus those in it |
| Grom.OwnBankNotEarlier | zip2rpk.py:73-76 | a well-formed chip's banks are not visited by earlier chips |
| DataAreas.DataArea.constructor | zip2rpk.py:30-35 | a capacity `CapacityError` accepts (including the GROM rule of `GromDataArea.__init__`) gives an empty, unloaded area of that size |
| DataAreas.DataArea.Create | zip2rpk.py:59-62 | `DataArea(size)` / `GromDataArea(size)`: fails exactly when `CapacityError` rejects the size, with that error (the GROM rule first); otherwise a fresh, empty, unloaded area of that size and kind |
| DataAreas.DataArea.AddRom | zip2rpk.py:37-46 | the chip is appended exactly when `RomError` accepts it (for a GROM area, after the checks of `GromDataArea.add_rom`); otherwise the area is unchanged |
| DataAreas.DataArea.LoadFromZip | zip2rpk.py:48-55 | a second load fails and changes nothing; otherwise the image is `LoadRoms` of zeros (for a GROM area, then `Degarbled`, the repair pass of `GromDataArea.load_from_zip`), any chip error is the first one, and the warning is raised exactly for a wrong tail byte inside a chip |
| DataAreas.DataArea.CopyChips | zip2rpk.py:51-55 | the copy loop leaves `LoadRoms`' image in the buffer, or stops at its error |
| DataAreas.DataArea.RepairGrom | zip2rpk.py:73-78 | the loop over chips and banks leaves `Degarbled` of the loaded image and warns exactly on `RepairWarning` |
| DataAreas.DataArea.RepairChip | zip2rpk.py:73-78 | one chip's banks are repaired and its warning computed |
| DataAreas.DataArea.RepairBank | zip2rpk.py:74-78 | one bank is repaired (or skipped past the area end) and its warning computed |
| DataAreas.DataArea.UpdateGarbage | zip2rpk.py:80-92 | the bank's tail is replaced by its garbage; `fixed` is set exactly when a wrong byte lies below `offs + datasize` |
| Metadata.Get | zip2rpk.py:248-249 | dict lookup: absent exactly when no entry has the key; otherwise an entry's value |
| Metadata.Put | zip2rpk.py:102-103 | assignment overwrites an existing key in place, or appends a new one |
| Metadata.PutSemantics | zip2rpk.py:102-103 | after `metadata[k] = v`, keys stay distinct, `k` maps to `v` and other keys are unchanged |
| Metadata.PutGet | zip2rpk.py:102-103 | reading back an assigned key gives its value; other keys are unchanged |
| Metadata.PutDistinct | zip2rpk.py:102-103 | assignment never duplicates a key |
| Metadata.Keys | zip2rpk.py:259 | `metadata.keys()` in insertion order |
| Cartridges.SocketKind | zip2rpk.py:109-110 | `name[:-7]` when the name ends in `_socket`, else the name |
| Cartridges.SocketSpellings | zip2rpk.py:109-111 | `X_socket` and `X` name the same area |
| Cartridges.AreaLoadError | zip2rpk.py:48-55 | a loaded area fails with "loaded twice"; otherwise it fails exactly when some chip fails |
| Cartridges.AreaWarning | zip2rpk.py:90-92 | only a GROM area whose chips all load can warn |
| Cartridges.FirstLoadError | zip2rpk.py:125-127 | loading all areas fails exactly when some area fails, with the first failing area's error |
| Cartridges.FirstLoadErrorPrefix | zip2rpk.py:125-127 | once an error occurs, later areas do not change it |
| Cartridges.LoadStepOk | zip2rpk.py:126-127 | a successful area extends the loop's success and warnings |
| Cartridges.LoadStepErr | zip2rpk.py:126-127 | a failing area fixes the result, and only earlier warnings were printed |
| Cartridges.LoadAll | zip2rpk.py:125-127 | with no error, the warnings are those of all areas |
| Cartridges.Cartridge.constructor | zip2rpk.py:96-100 | a named cartridge with no metadata, no PCB and no areas |
| Cartridges.Cartridge.SetMetadata | zip2rpk.py:102-103 | metadata becomes `Put(old, key, value)`, nothing else changes |
| Cartridges.Cartridge.SetPcb | zip2rpk.py:105-106 | the PCB is set, nothing else changes |
| Cartridges.Cartridge.GetDataarea | zip2rpk.py:108-123 | unknown kinds fail; an existing area is returned unless redeclared with another size; a missing area gives none without a size, else a fresh area (GROM unless the PCB is `gromemu`) or the size error |
| Cartridges.Cartridge.States | zip2rpk.py:125-126 | the areas' states in dict order |
| Cartridges.Cartridge.LoadFromZip | zip2rpk.py:125-127 | the result is the first area error, the warnings are those printed before it, and without error every area holds its loaded image; no chip list changes; on error, the areas before the failing one are loaded, the failing one has its buffer, and the later ones are as they were |
| Cartridges.Cartridge.LoadAreas | zip2rpk.py:125-127 | the loop over the areas in dict order stops at the first error; the areas it passed are loaded, the one it stopped at has its buffer, the rest are unchanged, and the warnings are those of the areas passed |
| Cartridges.Cartridge.LoadArea | zip2rpk.py:126-127 | one area is loaded and later areas are untouched |
| IntLiterals.DigitValue | zip2rpk.py:158 | a hex digit's value is below 16, a decimal digit's below 10 |
| IntLiterals.ParseUnsigned | zip2rpk.py:158 | accepts exactly `0x`/`0X` followed by hex digits, or decimal digits without a leading zero (all zeros allowed) |
| IntLiterals.ParseInt | zip2rpk.py:158 | an optional sign, then `ParseUnsigned`; the sign fixes the result's sign; failure is `InvalidLiteral` |
| IntLiterals.HexChar | zip2rpk.py:266 | a hex digit with the given value |
| IntLiterals.HexDigits | zip2rpk.py:266 | hex digits without a leading zero whose value is the number |
| IntLiterals.Hex4 | zip2rpk.py:266 | `"0x%04x"` has the hex prefix and at least four digits |
| IntLiterals.LeadingZeros | zip2rpk.py:266 | zero padding does not change a numeral's value |
| IntLiterals.ZerosValue | zip2rpk.py:266 | a run of zeros is worth 0 |
| IntLiterals.Hex4RoundTrip | zip2rpk.py:266 | `int("0x%04x" % n, 0) == n`: sizes written to the softlist read back unchanged |
| CatalogHandler.Attr | zip2rpk.py:141 | `attrs[key]`, or a KeyError exactly when the attribute is missing |
| CatalogHandler.IntAttr | zip2rpk.py:158 | `int(attrs[key], 0)`, or the KeyError |
| CatalogHandler.StartAction | zip2rpk.py:138-167 | the decision `startElement` takes for each element name and context, in both directions: new software, ignored text elements, info, part, feature (`UnknownFeature` for a name other than `pcb`), dataarea, rom inside and outside a data area, unknown element; a missing or malformed attribute is the first one the source reads |
| CatalogHandler.ChipAttributes | zip2rpk.py:159-165 | a `rom` element written with `0x%04x` sizes yields exactly that chip; a missing name fails |
| CatalogHandler.CartXmlContentHandler.constructor | zip2rpk.py:132-136 | `startDocument`: empty software list, no open software, data area or content |
| CatalogHandler.CartXmlContentHandler.StartElement | zip2rpk.py:138-167 | content is reset, then the handler's state changes as `StartAction` says (`Applied`): a fresh empty cartridge; one metadata entry or the PCB set with the other fields kept; `get_dataarea`'s area opened, with the error values, an existing area returned, or a fresh empty area added in dict order; a chip appended with the buffer kept; or the error with nothing changed |
| CatalogHandler.CartXmlContentHandler.Apply | zip2rpk.py:140-165 | carries out one decision of `startElement`, with the effect `Applied` states |
| CatalogHandler.CartXmlContentHandler.SetInfo | zip2rpk.py:145-146 | `info` sets one metadata entry; PCB, data areas and their order are kept |
| CatalogHandler.CartXmlContentHandler.SetPcb | zip2rpk.py:151-155 | `feature name="pcb"` sets the PCB; metadata, data areas and their order are kept |
| CatalogHandler.CartXmlContentHandler.OpenDataarea | zip2rpk.py:156-158 | `get_dataarea(name, size)` as `Opened` states: unknown kind, redeclared size or capacity error leave the open area and the cartridge's areas as they were; otherwise the existing area, or a fresh empty one of that size (GROM unless the PCB is `gromemu`) added last, becomes the open area |
| CatalogHandler.CartXmlContentHandler.AddChip | zip2rpk.py:159-165 | `rom` goes to the current area's `add_rom`: appended exactly when `RomError` accepts it; the buffer is kept |
| CatalogHandler.CartXmlContentHandler.EndElement | zip2rpk.py:169-182 | as `Ended` states: closing `software` files the cartridge under its name with its fields kept, or fails without a PCB and changes nothing; text elements store their content; closing `dataarea` forgets the area; outside a `software` element nothing changes; content is cleared unless an error is raised |
| CatalogHandler.CartXmlContentHandler.CloseSoftware | zip2rpk.py:175-177 | the cartridge is added under its name and the open software and area are cleared |
| CatalogHandler.CartXmlContentHandler.Characters | zip2rpk.py:184-186 | text is appended only while content is being collected |
| CatalogHandler.CartXmlContentHandler.Handle | zip2rpk.py:138-186 | a start tag acts as `StartElement`, an end tag as `EndElement`, character data as `Characters` and never fails; a start tag never raises the missing-PCB error, and every other error comes from a `software` end tag without a PCB; a newly filed name is the name of the cartridge that was open, and a newly opened cartridge is named by the tag's `name` attribute |
| CatalogHandler.ParseCatalog | zip2rpk.py:138-182 | every cartridge in a successfully parsed list is filed under its own name, has a PCB, and is named by the `name` attribute of some `software` start tag; a failure is raised by event `at`: a missing-PCB error by a `software` end tag, any other error by a start tag |
| CatalogHandler.SoftwareNamesDeclared | zip2rpk.py:140-141 | a name is among the collected names exactly when some `software` start tag carries it as its `name` attribute |
| Sorting.BelowTotal | zip2rpk.py:259 | string `<` is irreflexive, total and asymmetric |
| Sorting.BelowTransitive | zip2rpk.py:259 | string `<` is transitive |
| Sorting.Insert | zip2rpk.py:259 | inserting into a sorted list keeps it sorted and adds exactly one element |
| Sorting.Sort | zip2rpk.py:259 | `sorted()` returns a sorted permutation of its input |
| Sorting.SortedUnique | zip2rpk.py:259 | there is only one sorted permutation, so `Sort` is `sorted()` |
| Packager.AreaViewOf | zip2rpk.py:192-193 | the snapshot of a loaded area holds its chips and image |
| Packager.CartViewOf | zip2rpk.py:189-193 | the snapshot of a cartridge keeps its name, metadata and PCB, and has a `rom`/`grom` image exactly when the cartridge has that area |
| Packager.BaseName | zip2rpk.py:190-191 | the cartridge name without a serial; otherwise the serial lower-cased with all whitespace removed, so it has no whitespace and no upper case |
| Packager.LowerChar | zip2rpk.py:191 | ASCII `lower()`: an upper-case letter becomes the letter 32 code points above, other characters are kept |
| Packager.Lower | zip2rpk.py:191 | `lower()` character by character |
| Packager.Squash | zip2rpk.py:191 | `''.join(s.split())` has no whitespace and only characters of `s` |
| Packager.SquashOne | zip2rpk.py:191 | `split()`/`join` drops a single whitespace character and keeps any other |
| Packager.SquashAppend | zip2rpk.py:191 | squashing a concatenation squashes each part, so the result is the string's non-whitespace characters in order |
| Packager.SquashKeeps | zip2rpk.py:191 | a string without whitespace is kept |
| Packager.SquashLower | zip2rpk.py:191 | squashing keeps a lower-case string lower case |
| Packager.BaseNameNormal | zip2rpk.py:190-191 | a serial-derived base name has no whitespace and no upper case, and normalising it again changes nothing |
| Packager.PcbType | zip2rpk.py:228 | `paged` exactly for PCBs starting with `paged`, else the PCB itself |
| Packager.PcbTypeIdempotent | zip2rpk.py:228 | mapping the PCB type twice is mapping it once |
| Packager.ChipLimit | zip2rpk.py:208 | 0x2000, or 0x4000 on `mbx` |
| Packager.ChipRuleError | zip2rpk.py:206-211 | the chips from `i` on pass exactly when each is within the limit and sits at offset `j * 0x2000`; otherwise the error belongs to the first chip that breaks a rule, "rom too large" when its size is over the limit (size is tested first), else "wrong rom offset" |
| Packager.ChipRuleTooLarge | zip2rpk.py:206-211 | the error is "rom too large" exactly when the first chip that breaks a rule is over the size limit |
| Packager.RomsError | zip2rpk.py:197-211 | a bad paged12k layout is reported first, then a wrong chip count; once both pass, the result is the per-chip rule check from the first chip |
| Packager.RomsErrorIff | zip2rpk.py:197-211 | the rom area passes all checks exactly when it meets the stated rules (`RomsAccepted`) |
| Packager.SliceBound | zip2rpk.py:213-219 | a Python slice bound clamps to the length |
| Packager.PySlice | zip2rpk.py:213-219 | Python slicing agrees with Dafny slicing on in-range bounds and never grows |
| Packager.ChipImage | zip2rpk.py:212-219 | on `paged12k` (with a 16 KiB image) 8 KiB: the first 4 KiB then bytes 0x2000-0x3000 for the first chip or 0x3000-0x4000 for the second; otherwise exactly the bytes the chip occupies |
| Packager.Paged12kImages | zip2rpk.py:212-217 | each paged12k image is 0x2000 bytes: the common first 4 KiB and the chip's own bank half |
| Packager.ChipImageIsMember | zip2rpk.py:218-219 | outside paged12k, the written image is the chip's zip member |
| Packager.LoadedRomImages | zip2rpk.py:218-219 | for a cartridge loaded from a zip, each written rom image is that chip's member |
| Packager.RomMembers | zip2rpk.py:207-225 | `c.bin` and, for a second chip, `d.bin`, with their images |
| Packager.MetaTexts | zip2rpk.py:246-249 | one element per present key, under the mapped tag, with its value, and nothing else |
| Packager.MetaInf | zip2rpk.py:245-251 | the `meta-inf` elements: the present text keys under their tags, and a `status` exactly when a version is set |
| Packager.MetaTextsAppend | zip2rpk.py:246-249 | the tags are handled one after the other: the elements of a concatenation of tag lists are those of each part in order |
| Packager.MetaTextsFour | zip2rpk.py:246-249 | for four tags, the elements are each tag's element (when its key is set) in tag order |
| Packager.MetaTagsOrder | zip2rpk.py:246-249 | the text children of `meta-inf` are name, year, dist, number, each once and exactly when its key is set |
| Packager.MetaInfOrder | zip2rpk.py:245-251 | `meta-inf` holds name, year, dist, number (each exactly when set), then the `status` exactly when a version is set |
| Packager.Texts | zip2rpk.py:256-258 | the text elements come from present keys with their values |
| Packager.TextsAppend | zip2rpk.py:256-258 | the keys are handled one after the other: the elements of a concatenation of key lists are those of each part in order |
| Packager.TextsOrder | zip2rpk.py:256-258 | the text elements are description, year, publisher, each once and exactly when set, with its value |
| Packager.Infos | zip2rpk.py:259-261 | the info elements are present non-text keys with their values |
| Packager.InfosComplete | zip2rpk.py:259-261 | every present non-text key gets an info element |
| Packager.InfosSorted | zip2rpk.py:259-261 | info elements come out in sorted key order |
| Packager.WriteRpk | zip2rpk.py:189-294 | fails exactly when the `rom` area breaks a layout rule, with that error; the members a successful run writes are stated by `WrittenDocuments`, `ImageMembersNamed` and `WrittenImages` |
| Packager.LayoutDeclares | zip2rpk.py:228-241 | `layout.xml` names the entry and the board type, declares the GROM image, the first and the second ROM image exactly when they exist, and every socket uses a declared image |
| Packager.AreaEntry | zip2rpk.py:264-284 | a `dataarea` entry carries its socket, the image's member name, the same size string on area and chip, and the image's CRC32 and SHA-1 |
| Packager.SoftlistShape | zip2rpk.py:255-284 | the entry has the cartridge's name, the `cart` part on `ti99_cart` with the PCB feature, a comment exactly when a description is set, the text elements in order, and one data area per image written: GROM, then the first and second ROM images with their member names |
| Packager.WrittenImages | zip2rpk.py:224-227 | each area's image is in the archive under its name |
| Packager.LayoutFilesWritten | zip2rpk.py:233-241 | every file the layout names is an image in the archive |
| Packager.EntryDescribes | zip2rpk.py:264-284 | a softlist entry made from a written image describes it: name, size read back by `int(x, 0)`, CRC32, SHA-1, offset 0 |
| Packager.WrittenDocuments | zip2rpk.py:224-294 | a successful archive is the images followed by exactly `layout.xml`, `meta-inf.xml` and `softlist.xml`, each built from the cartridge by `LayoutOf`, `MetaInf` and `SoftlistOf` |
| Packager.ImageMembersNamed | zip2rpk.py:212-227 | one image per `rom` chip and one for a GROM area, all binary, named `c.bin`, `d.bin` or `g.bin` after the base name |
| Packager.SoftlistImagesWritten | zip2rpk.py:264-284 | every `dataarea` entry of the softlist describes an image in the archive |
| Packager.SoftlistInfos | zip2rpk.py:255-261 | the softlist's info elements are sorted, carry the metadata's values, and cover every non-text key |

## Left out

- Command line, files and archives: `main`, argument parsing and reading/writing zip files are not modelled; the archive read is a map from member names to bytes, and the archive written is the list of members in write order.
- XML: tokenising `ti99_cart.xml` and serialising the three documents (indentation, declaration, escaping) are not modelled. The input is a sequence of start/end/character events, and the output documents are structured records.
- Hashes: CRC32 and SHA-1 are uninterpreted functions supplied by the caller.
- Console output: the "incorrect garbage" warning is the `repaired` / `fixed` flag; the "loaded ok" / "written ok" messages are not modelled.
- Partial output: when `write_rpk` raises after writing some members, the model returns only the error, not the members already written.
- DataAreas.DataArea.UpdateGarbage: requires `datasize >= 0x1800` and a whole bank instead of raising RuntimeError, because the load loop never calls it otherwise (Grom.WindowHasChipData, Grom.WindowFitsCapacity). The garbage size the source writes for a partial bank, `self.data-(o+0x1800)` (zip2rpk.py:78), subtracts an int from a bytearray and would raise TypeError; that branch is never reached for the same reason, so the model has no counterpart for it.
- IntLiterals.ParseInt: only the literal forms the catalogue uses (decimal, `0x`/`0X` hex, a sign) are accepted; octal, binary and underscores of Python's `int(x, 0)` are rejected, and surrounding whitespace, which `int` strips (`int(" 0x10 ", 0) == 16`), gives `InvalidLiteral`.
- Packager.LowerChar: `lower()` and `split()` are ASCII-only; non-ASCII case mapping and whitespace are not modelled.
- Cartridges.Cartridge.GetDataarea: follows the code, which accepts only `rom`, `grom`, `ram` and `nvram`, so `rom2_socket` is an unknown data area (zip2rpk.py:111).
- Cartridges.Cartridge.SetMetadata: its contract states the update through `Put`; the dict semantics are proved separately in Metadata.PutSemantics.
- Python dict order: kept explicitly as the `order` field of `Cartridge` and as the order of the metadata association list.
- CatalogHandler.CartXmlContentHandler.EndElement: when a text element's content is None (its text was interrupted by a nested element), the stored metadata value is the empty string rather than Python's None.
- CatalogHandler.ParseCatalog: states that every filed name was declared, not that every declared name is filed. A `software` element is filed only at its end tag, and a later `software` start tag drops one left open; the event sequence is not required to be well-formed XML, so the converse would hold only under a nesting condition that is not modelled.
- Packager.WriteRpk: works on a snapshot (`CartViewOf`) of a cartridge whose areas are all loaded. Calling `write_rpk` on an unloaded area (which raises TypeError in the source) is not modelled.
