/**
 * One directory record of a WAD file (`Entry::read`): a fixed layout of
 * 24 bytes, followed for major versions 2 and 3 by an 8-byte checksum.
 *
 *   offset  size  field
 *        0     8  path hash (u64)
 *        8     4  data offset (u32)
 *       12     4  compressed size (i32)
 *       16     4  uncompressed size (i32)
 *       20     1  data format discriminant
 *       21     1  duplicate flag (set exactly when the byte is 1)
 *       22     2  reserved, read and discarded
 *       24   0/8  checksum, tagged by (major, minor)
 */
module Entries {
  import opened WadTypes
  import opened BinaryReader

  lemma SliceOfSlice(s: seq<u8>, i: nat, j: nat, k: nat, l: nat)
    requires i <= j <= |s| && k <= l <= j - i
    ensures s[i..j][k..l] == s[i + k..i + l]
  {
    assert |s[i..j][k..l]| == |s[i + k..i + l]|;
    forall t | 0 <= t < l - k
      ensures s[i..j][k..l][t] == s[i + k..i + l][t]
    {
      assert s[i..j][k..l][t] == s[i..j][k + t] == s[i + k + t];
    }
  }

  datatype EntryDataFormat = Raw | GZip | FileRedirection | Zstd | Unknown

  /** The `repr(u8)` discriminant of each format: its position in the declaration. */
  function Discriminant(f: EntryDataFormat): (b: u8)
    ensures b <= 4
  {
    match f
    case Raw => 0
    case GZip => 1
    case FileRedirection => 2
    case Zstd => 3
    case Unknown => 4
  }

  /** Checked byte-to-format conversion: no byte outside 0..4 falls back to `Unknown`. */
  function FormatFromByte(b: u8): (r: Result<EntryDataFormat>)
    ensures r.Ok? <==> b <= 4
    ensures r.Ok? ==> Discriminant(r.value) == b
    ensures r.Err? ==> r.error == UnknownEntryDataFormat(b)
  {
    if b == 0 then Ok(Raw)
    else if b == 1 then Ok(GZip)
    else if b == 2 then Ok(FileRedirection)
    else if b == 3 then Ok(Zstd)
    else if b == 4 then Ok(Unknown)
    else Err(UnknownEntryDataFormat(b))
  }

  lemma FormatRoundTrip(f: EntryDataFormat)
    ensures FormatFromByte(Discriminant(f)) == Ok(f)
  {
  }

  datatype EntryDataChecksum = Sha256(bytes: seq<u8>) | XxHash3(bytes: seq<u8>) | None

  /** The checksum bytes a record carries: 8 from major version 2 on, none before. */
  function ChecksumSize(major: u8): nat
  {
    if major >= 2 then 8 else 0
  }

  /** The number of bytes one record occupies in a file of the given major version. */
  function RecordSize(major: u8): (n: nat)
    ensures n == (if major < 2 then 24 else 32)
  {
    24 + ChecksumSize(major)
  }

  /**
   * The checksum tag of a record: chosen by the version alone, never by the
   * bytes, which it carries unchanged.
   */
  function ChecksumFor(major: u8, minor: u8, bytes: seq<u8>): (c: EntryDataChecksum)
    ensures c.None? <==> major < 2
    ensures c.XxHash3? <==> major == 3 && minor == 1
    ensures c.Sha256? <==> major >= 2 && !(major == 3 && minor == 1)
    ensures !c.None? ==> c.bytes == bytes
  {
    if major >= 2 then
      if major == 3 && minor == 1 then XxHash3(bytes) else Sha256(bytes)
    else
      None
  }

  function ChecksumBytes(c: EntryDataChecksum): seq<u8>
  {
    match c
    case None => []
    case Sha256(b) => b
    case XxHash3(b) => b
  }

  datatype Entry = Entry(
    xxhash: u64,
    dataOffset: u32,
    compressedSize: i32,
    uncompressedSize: i32,
    dataFormat: EntryDataFormat,
    dataChecksum: EntryDataChecksum,
    isDuplicated: bool)

  /**
   * The record that a run of bytes describes, read field by field from the
   * layout table above: the reference against which `ReadEntry` is proved.
   */
  function EntryLayout(b: seq<u8>, major: u8, minor: u8): Entry
    requires |b| == RecordSize(major) && b[20] <= 4
  {
    Pow256Widths();
    Entry(
      LittleEndian(b[..8]),
      LittleEndian(b[8..12]),
      I32FromBits(LittleEndian(b[12..16])),
      I32FromBits(LittleEndian(b[16..20])),
      FormatFromByte(b[20]).value,
      ChecksumFor(major, minor, b[24..]),
      b[21] == 1)
  }

  /**
   * The record at `pos`, as the layout describes it: a format byte outside 0..4
   * is refused as soon as it is present; otherwise the whole record must be
   * there, and it occupies `RecordSize(major)` bytes.
   */
  function EntryAt(data: seq<u8>, pos: nat, major: u8, minor: u8): (r: Result<Parsed<Entry>>)
    ensures r.Ok? <==> pos + RecordSize(major) <= |data| && data[pos + 20] <= 4
    ensures r.Ok? ==> r.value.next == pos + RecordSize(major)
    ensures r.Err? ==> r.error == IoError || (pos + 20 < |data| && r.error == UnknownEntryDataFormat(data[pos + 20]))
  {
    if pos + 20 < |data| && data[pos + 20] > 4 then Err(UnknownEntryDataFormat(data[pos + 20]))
    else if pos + RecordSize(major) <= |data| then
      Ok(Parsed(EntryLayout(data[pos..pos + RecordSize(major)], major, minor), pos + RecordSize(major)))
    else Err(IoError)
  }

  /**
   * `Entry::read`: decodes one record at `pos`, advancing a cursor field by
   * field and stopping at the first read that runs off the end or the first
   * bad format byte; it gives exactly the record `EntryAt` describes.
   */
  method ReadEntry(data: seq<u8>, pos: nat, major: u8, minor: u8) returns (r: Result<Parsed<Entry>>)
    ensures r == EntryAt(data, pos, major, minor)
  {
    var xxhash :- ReadU64(data, pos);
    var dataOffset :- ReadU32(data, xxhash.next);
    var compressedSize :- ReadI32(data, dataOffset.next);
    var uncompressedSize :- ReadI32(data, compressedSize.next);
    var formatByte :- ReadU8(data, uncompressedSize.next);
    var dataFormat :- FormatFromByte(formatByte.value);
    var duplicated :- ReadU8(data, formatByte.next);
    var reserved :- ReadU16(data, duplicated.next);
    var checksum :- ReadBytes(data, reserved.next, ChecksumSize(major));
    var n := pos + RecordSize(major);
    SliceOfSlice(data, pos, n, 0, 8);
    SliceOfSlice(data, pos, n, 8, 12);
    SliceOfSlice(data, pos, n, 12, 16);
    SliceOfSlice(data, pos, n, 16, 20);
    SliceOfSlice(data, pos, n, 24, RecordSize(major));
    r := Ok(Parsed(
      Entry(
        xxhash.value,
        dataOffset.value,
        compressedSize.value,
        uncompressedSize.value,
        dataFormat,
        ChecksumFor(major, minor, checksum.value),
        duplicated.value == 1),
      checksum.next));
  }

  /**
   * The format byte of a record is decoded by the checked conversion: a byte
   * above 4 fails with that byte and never falls back to `Unknown`.
   */
  lemma EntryFormat(data: seq<u8>, pos: nat, major: u8, minor: u8)
    requires pos + 20 < |data|
    ensures var r := EntryAt(data, pos, major, minor);
            (r.Err? && r.error.UnknownEntryDataFormat?) <==> data[pos + 20] > 4
    ensures var r := EntryAt(data, pos, major, minor);
            r.Err? && r.error.UnknownEntryDataFormat? ==> r.error.format == data[pos + 20]
    ensures var r := EntryAt(data, pos, major, minor);
            r.Ok? ==> FormatFromByte(data[pos + 20]) == Ok(r.value.value.dataFormat)
  {
  }

  /**
   * Record size, checksum and duplicate flag: without a checksum block before
   * major 2 (24 bytes), otherwise the 8 bytes at offset 24 (32 bytes) tagged
   * `XxHash3` exactly for version 3.1 and `Sha256` for every other version;
   * the flag is set exactly when its byte is 1.
   */
  lemma EntryChecksum(data: seq<u8>, pos: nat, major: u8, minor: u8)
    requires EntryAt(data, pos, major, minor).Ok?
    ensures var e := EntryAt(data, pos, major, minor).value;
            e.value.isDuplicated <==> data[pos + 21] == 1
    ensures var e := EntryAt(data, pos, major, minor).value;
            major < 2 ==> e.next == pos + 24 && e.value.dataChecksum == None
    ensures var e := EntryAt(data, pos, major, minor).value;
            major >= 2 ==>
              e.next == pos + 32
              && (e.value.dataChecksum == XxHash3(data[pos + 24..pos + 32]) <==> major == 3 && minor == 1)
              && (e.value.dataChecksum == Sha256(data[pos + 24..pos + 32]) <==> !(major == 3 && minor == 1))
  {
    if major >= 2 {
      SliceOfSlice(data, pos, pos + 32, 24, 32);
    }
  }

  /** A record whose checksum has the tag and width its file version gives it. */
  predicate FitsVersion(e: Entry, major: u8, minor: u8)
  {
    |ChecksumBytes(e.dataChecksum)| == ChecksumSize(major) &&
    e.dataChecksum == ChecksumFor(major, minor, ChecksumBytes(e.dataChecksum))
  }

  /** The bytes of one record, reserved bytes zero and the duplicate flag 0 or 1. */
  function EncodeEntry(e: Entry, major: u8): (b: seq<u8>)
    requires |ChecksumBytes(e.dataChecksum)| == ChecksumSize(major)
    ensures |b| == RecordSize(major)
  {
    Pow256Widths();
    ToLittleEndian(e.xxhash, 8) + ToLittleEndian(e.dataOffset, 4)
    + ToLittleEndian(I32ToBits(e.compressedSize), 4) + ToLittleEndian(I32ToBits(e.uncompressedSize), 4)
    + [Discriminant(e.dataFormat), if e.isDuplicated then 1 else 0, 0, 0]
    + ChecksumBytes(e.dataChecksum)
  }

  /** The layout reads every record of the right shape back from its encoding. */
  lemma EncodeEntryRoundTrip(e: Entry, major: u8, minor: u8)
    requires FitsVersion(e, major, minor)
    ensures var b := EncodeEntry(e, major); b[20] <= 4 && EntryLayout(b, major, minor) == e
  {
    Pow256Widths();
    var b := EncodeEntry(e, major);
    assert b[..8] == ToLittleEndian(e.xxhash, 8);
    assert b[8..12] == ToLittleEndian(e.dataOffset, 4);
    assert b[12..16] == ToLittleEndian(I32ToBits(e.compressedSize), 4);
    assert b[16..20] == ToLittleEndian(I32ToBits(e.uncompressedSize), 4);
    assert b[24..] == ChecksumBytes(e.dataChecksum);
    FormatRoundTrip(e.dataFormat);
  }

  /** Decoding a record's encoding at any position gives the record back. */
  lemma ReadEntryRoundTrip(data: seq<u8>, pos: nat, e: Entry, major: u8, minor: u8)
    requires FitsVersion(e, major, minor)
    requires pos + RecordSize(major) <= |data|
    requires data[pos..pos + RecordSize(major)] == EncodeEntry(e, major)
    ensures EntryAt(data, pos, major, minor) == Ok(Parsed(e, pos + RecordSize(major)))
  {
    EncodeEntryRoundTrip(e, major, minor);
    assert data[pos + 20] == EncodeEntry(e, major)[20];
  }

  /** A record is decoded from its own bytes only: whatever follows it is not read. */
  lemma ReadEntryPrefix(data: seq<u8>, data': seq<u8>, pos: nat, major: u8, minor: u8, q: nat)
    requires EntryAt(data, pos, major, minor).Ok?
    requires EntryAt(data, pos, major, minor).value.next <= q <= |data'|
    requires q <= |data| && data'[..q] == data[..q]
    ensures EntryAt(data', pos, major, minor) == EntryAt(data, pos, major, minor)
  {
    var n := pos + RecordSize(major);
    assert data'[pos..n] == data'[..q][pos..n] == data[..q][pos..n] == data[pos..n];
    assert data'[pos + 20] == data'[pos..n][20];
  }
}
