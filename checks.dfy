/** `check_data`: a chip dump is accepted only if its length, SHA-1 and CRC-32
    all match the catalog, tested in that order. */
module Checks {
  import opened Common

  /** The first failing test, or `None` when the dump is accepted. */
  function CheckData(name: string, data: Bytes, size: int, crc: string, sha1: string, h: Hashes): (r: Option<Error>)
    ensures r.None? <==> |data| == size && h.sha1(data) == sha1 && h.crc32(data) == crc
    ensures |data| != size ==> r == Some(WrongLength(name, |data|, size))
    ensures |data| == size && h.sha1(data) != sha1 ==> r == Some(WrongSha1(name, h.sha1(data), sha1))
    ensures |data| == size && h.sha1(data) == sha1 && h.crc32(data) != crc ==>
              r == Some(WrongCrc32(name, h.crc32(data), crc))
  {
    if |data| != size then Some(WrongLength(name, |data|, size))
    else if h.sha1(data) != sha1 then Some(WrongSha1(name, h.sha1(data), sha1))
    else if h.crc32(data) != crc then Some(WrongCrc32(name, h.crc32(data), crc))
    else None
  }
}
