/** Shared vocabulary of the cartridge model: bytes, the failure wrappers, the
    error taxonomy of zip2rpk.py and the two digest functions it calls. */
module Common {

  /** A byte of a ROM image; bit-vector so that GROM repair can use `|`. */
  type Byte = bv8
  type Bytes = seq<Byte>

  datatype Option<+T> = None | Some(value: T)

  /** Every exception zip2rpk.py raises on the modelled paths becomes an `Err`. */
  datatype Result<+T> = Ok(value: T) | Err(error: Error)

  /** The exceptions of zip2rpk.py, one constructor per `raise` (or per
      implicit `KeyError`/`ValueError`), carrying the values the message shows. */
  datatype Error =
    // DataArea / GromDataArea construction and add_rom (ValueError)
    | InvalidDataareaSize(size: int)
    | InvalidGromDataareaSize(size: int)
    | RomOutsideRange(name: string, size: int)
    | OverlappingRoms(name: string, other: string)
    | InvalidGromSize(size: int)
    | InvalidGromOffset(offset: int)
    | DataareaLoadedTwice
    // zip.read of an absent member (KeyError)
    | MissingMember(name: string)
    // check_data (BadDataError)
    | WrongLength(name: string, length: int, size: int)
    | WrongSha1(name: string, actual: string, expected: string)
    | WrongCrc32(name: string, actual: string, expected: string)
    // Cartridge.get_dataarea (ValueError)
    | UnknownDataarea(name: string)
    | RedeclaredDataarea(name: string)
    // CartXmlContentHandler (KeyError on attrs, ValueError from int(), SyntaxError)
    | MissingAttribute(key: string)
    | InvalidLiteral(text: string)
    | BadPart
    | UnknownFeature(name: string)
    | RomOutsideDataarea
    | UnknownElement(name: string)
    | MissingPcb(cartridge: string)
    // write_rpk (ValueError)
    | InvalidPaged12k
    | InvalidRomCount
    | RomTooLarge
    | WrongRomOffset

  /** The two foreign digests: `"%08x" % zlib.crc32(data)` and
      `hashlib.sha1(data).digest().hex()`. They are parameters of the model,
      so nothing is assumed about them beyond being functions of the bytes. */
  datatype Hashes = Hashes(crc32: Bytes -> string, sha1: Bytes -> string)

  /** A zip archive read by member name. */
  type Archive = map<string, Bytes>
}
