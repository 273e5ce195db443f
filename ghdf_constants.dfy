/** The format-wide constants of `GHDF.java`: the 16-byte signature that starts
    every document, the version the v1 reader and writer handle, and the file
    extension. Multi-byte integers are little-endian (`GHDF.ENDIANNESS`), which
    the `Bytes` module encodes. */
module GhdfConstants {
  import opened Bytes

  const SIGNATURE: seq<byte> :=
    [102, 37, 143, 181, 3, 205, 123, 185, 148, 157, 98, 177, 178, 151, 43, 170]

  const VERSION: int := 1

  const EXTENSION: string := ".ghdf"
}
