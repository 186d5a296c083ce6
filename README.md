# WAD archive header and directory decoder

A Dafny model of the decoder that opens a League of Legends WAD archive
(`src/wad.rs`). The decoder reads the container header and the table of
contents into a directory keyed by path hash. It never reads the payload.

The header has these fields, in order:

- the magic `"RW"`;
- a major and a minor version byte (majors 0 to 3 are accepted);
- a signature blob. For major 2 it is `83 - L` bytes after a length byte `L`. For major 3 it is 256 bytes. For majors 0 and 1 it is empty;
- a reserved u64;
- two legacy u16 fields, for majors 1 and 2 only;
- a u32 entry count `N`.

`N` directory records follow. Each record has a fixed 24-byte part: hash, offset, two signed sizes, a format byte, a duplicate flag and two reserved bytes. From major 2 on, an 8-byte checksum follows, tagged `XxHash3` for version 3.1 and `Sha256` otherwise. Records are inserted under their hash, insert-or-fail: a repeated hash ends the decode with `DuplicateEntry`.

Files:

- `types.dfy` (`WadTypes`) holds the fixed-width integer types, the error kinds (`WadError`) and the `Result` type. `:-` on `Result` plays the part of Rust's `?`.
- `reader.dfy` (`BinaryReader`) models the byte reader as a bounds-checked cursor over a `seq<u8>`. Each read takes a position and returns the value and the next position. Running past the end gives `IoError`. Integers are read little-endian. The reader's source is not part of this model, so little-endian byte order is an assumption.
- `entry.dfy` (`Entries`) covers `Entry::read`:
  - `EntryAt` describes a record by its byte layout;
  - `ReadEntry` reads the record field by field with a cursor and is proved equal to `EntryAt`;
  - `EncodeEntry` is an encoder, used to prove a round trip.
- `wad.dfy` (`WadFile`) covers `Wad::read`:
  - `Decode` is the specification, built from `ReadHeader` and `BuildDirectory`;
  - `ReadHeaderFields` and `Read` are the step-by-step methods, proved to compute `ReadHeader` and `Decode`;
  - the lemmas relate the directory to the plain sequence of records that `ReadRecords` reads.

A record with a checksum is 32 bytes, because the code reads 8 checksum bytes after the 24 fixed bytes.

Decoding is deterministic, because `Decode` is a function of the input bytes.

## Model

| member | source | states |
|---|---|---|
| `BinaryReader.LittleEndian` | src/wad.rs:131-134 | The value of an n-byte little-endian field is below 256^n. It therefore fits the u16/u32/u64 the reader returns. |
| `BinaryReader.ToLittleEndian` | src/wad.rs:131-134 | The n-byte encoding of any value below 256^n has n bytes, and it decodes back to that value. |
| `BinaryReader.LittleEndianRoundTrip` | src/wad.rs:131-134 | Re-encoding a decoded field gives back its bytes, so distinct byte runs of one width decode to distinct values. |
| `BinaryReader.I32FromBits` | src/wad.rs:133-134 | `read_i32` as two's complement: the result is negative exactly when the top bit is set, and it is congruent to the bit pattern modulo 2^32. |
| `BinaryReader.I32ToBits` | src/wad.rs:133-134 | The inverse of the signed reading: the sizes keep their sign as read. |
| `BinaryReader.ReadBytes` | src/wad.rs:97-99 | A read of `count` bytes succeeds exactly when that many bytes remain. It then returns them and advances the cursor by `count`. Otherwise it fails with `IoError`. The checksum reads at src/wad.rs:145-147 use it too. |
| `BinaryReader.ReadU8` | src/wad.rs:88-89 | A byte read succeeds exactly when a byte remains, returns the byte at the cursor and advances by 1. Otherwise it fails with `IoError`. It is also used for the length byte (96) and the format and duplicate bytes (135, 139). |
| `BinaryReader.ReadU16` | src/wad.rs:106-107 | A u16 consumes 2 bytes and is their little-endian value. It fails with `IoError` exactly when fewer than 2 bytes remain. It is also used for the reserved field at 141. |
| `BinaryReader.ReadU32` | src/wad.rs:110 | A u32 consumes 4 bytes and is their little-endian value. It fails with `IoError` exactly when fewer than 4 bytes remain. It is also used for the data offset at 132. |
| `BinaryReader.ReadU64` | src/wad.rs:103 | A u64 consumes 8 bytes and is their little-endian value. It fails with `IoError` exactly when fewer than 8 bytes remain. It is also used for the hash at 131. |
| `BinaryReader.ReadI32` | src/wad.rs:133-134 | A signed size consumes 4 bytes and is their two's-complement little-endian value. It fails with `IoError` exactly when fewer than 4 bytes remain. |
| `Entries.FormatFromByte` | src/wad.rs:59-67 | The checked conversion succeeds exactly for bytes 0 to 4, and it yields the format whose discriminant is that byte. Any other byte fails with `UnknownEntryDataFormat` carrying the byte. |
| `Entries.FormatRoundTrip` | src/wad.rs:59-67 | Every format is recovered from its own `repr(u8)` discriminant. |
| `Entries.RecordSize` | src/wad.rs:131-151 | A record is 24 bytes for majors below 2 and 32 bytes from major 2 on. |
| `Entries.ChecksumFor` | src/wad.rs:143-151 | The checksum tag depends only on the version: `None` exactly for majors below 2, `XxHash3` exactly for 3.1, `Sha256` for every other major of 2 or more. A tagged checksum carries the bytes unchanged. |
| `Entries.EntryAt` | src/wad.rs:126-162 | The reference definition of one record, by byte layout; `ReadEntry` is proved equal to it and the entry lemmas are about it. It succeeds exactly when the whole record is present and its format byte is at most 4, and it then consumes `RecordSize` bytes. Otherwise the error is `IoError` or `UnknownEntryDataFormat` of the format byte. |
| `Entries.ReadEntry` | src/wad.rs:126-162 | Reading the record field by field, stopping at the first failed read or bad format byte, gives exactly the result that the layout (`EntryAt`) describes. |
| `Entries.EntryFormat` | src/wad.rs:135-138 | Once the format byte is present, the record fails with `UnknownEntryDataFormat` exactly when that byte is above 4, and the error carries the byte. A decoded record's format is the conversion of that byte. Nothing falls back to `Unknown`. |
| `Entries.EntryChecksum` | src/wad.rs:139-151 | Before major 2 a decoded record ends 24 bytes on and has checksum `None`. From major 2 it ends 32 bytes on, and its checksum is bytes 24..32, tagged `XxHash3` exactly for 3.1 and `Sha256` otherwise. `isDuplicated` holds exactly when byte 21 is 1. |
| `Entries.EncodeEntry` | src/wad.rs:131-151 | The encoding of a record has exactly the record size of its version. |
| `Entries.EncodeEntryRoundTrip` | src/wad.rs:126-162 | The layout decodes the encoding of any record back to that record, provided its checksum has its version's tag and width. |
| `Entries.ReadEntryRoundTrip` | src/wad.rs:126-162 | Wherever a record's encoding sits in the input, decoding at that position yields the record and moves the cursor by the record size. |
| `Entries.ReadEntryPrefix` | src/wad.rs:126-162 | A record is decoded from its own bytes only: two inputs that agree up to the record's end decode it alike. |
| `WadFile.SignatureLengthWraps` | src/wad.rs:94-97 | As written, `83 - L` on a 64-bit `usize` wraps for every `L > 83` to at least 2^64 - 172 (2^64 - 1 for `L = 84`). For `L <= 83` it is the intended length. |
| `WadFile.SignatureLength` | src/wad.rs:94-97 | The guarded size is `83 - L` exactly when `L <= 83`, and there it agrees with the source's value. Otherwise it is the error `InvalidSignatureLength(L)`. |
| `WadFile.ReadSignature` | src/wad.rs:94-101 | The signature is empty and reads nothing for majors 0 and 1. For major 3 it is the next 256 bytes. For major 2 it is the `83 - L` bytes after the length byte `L`, and `L <= 83`. A failure is `IoError`, or `InvalidSignatureLength(L)` for major 2. |
| `WadFile.SkipLegacyToc` | src/wad.rs:105-108 | The legacy fields take 4 bytes for majors 1 and 2 and none otherwise. Skipping them fails with `IoError` exactly when those bytes are missing. |
| `WadFile.ReadHeader` | src/wad.rs:82-110 | The reference definition of the header, which `ReadHeaderFields` is proved equal to and the header lemmas are about. A header that reads has the input's version bytes with major at most 3, and its first record starts inside the input. A failure is `IoError`, `InvalidSignature`, `UnsupportedVersion` or `InvalidSignatureLength`. |
| `WadFile.BuildDirectory` | src/wad.rs:111-119 | The reference definition of the insert-or-fail directory build, which `Read`'s loop is proved against and the directory lemmas are about. A successful build keeps every key of the map it started from, with its entry unchanged. |
| `WadFile.RecordsSpan` | src/wad.rs:112-113 | `i` consecutive records occupy `i` times the record size of the version. |
| `WadFile.Decode` | src/wad.rs:82-122 | The reference definition of `Wad::read`, which `Read` is proved equal to and the decode lemmas are about. A header that fails to read is the decode's failure. A successful decode carries the header's signature. |
| `WadFile.DecodeChecksMagicFirst` | src/wad.rs:83-86 | An input shorter than 2 bytes fails with `IoError`. Otherwise, if the first two bytes are not `"RW"`, the decode fails with `InvalidSignature` carrying them, whatever follows. |
| `WadFile.DecodeChecksVersion` | src/wad.rs:88-92 | After a good magic, every major above 3 fails with `UnsupportedVersion(major, minor)`, whatever the rest of the input. With a major of 3 or less, the decode never fails on the version, whatever the minor. |
| `WadFile.BuildDirectoryErrors` | src/wad.rs:112-118 | The directory build fails only with `IoError`, `UnknownEntryDataFormat` or `DuplicateEntry`. |
| `WadFile.DecodeChecksSignatureLength` | src/wad.rs:94-97 | A major-2 header whose length byte is above 83 is refused with `InvalidSignatureLength`. |
| `WadFile.HeaderLayout` | src/wad.rs:94-110 | Where each header field lies in a decoded header. The signature is the `83 - L` bytes after `L` (with `L <= 83`) for major 2, bytes 4..260 for major 3, and empty for majors 0 and 1. The 4 legacy bytes follow the reserved u64 exactly for majors 1 and 2. The entry count is the u32 right after them, and the first record starts right after the count. |
| `WadFile.HeaderReads` | src/wad.rs:82-110 | The converse of `HeaderLayout`. Well-formed header bytes always read: the magic `"RW"`, a major of at most 3 with any minor, a length byte of at most 83 for major 2, and enough bytes through the entry count. The header then has the signature and count at the positions `HeaderLayout` names. With a count of 0 the decode is that signature with an empty directory. |
| `WadFile.ReadHeaderFields` | src/wad.rs:82-110 | The cursor-advancing header reader computes exactly the header specification `ReadHeader`, including which error it stops at. |
| `WadFile.ReadRecords` | src/wad.rs:112-113 | Reading `n` records in a row yields `n` records and advances by `n` record sizes. |
| `WadFile.BuildDirectoryReads` | src/wad.rs:110-119 | A successful build has read its `n` records, and their hashes are pairwise distinct and absent from the map it started with. |
| `WadFile.BuildDirectoryContents` | src/wad.rs:110-119 | A successful build keeps the starting map and stores every record it read under that record's hash. Its keys are exactly the starting keys plus the records' hashes. |
| `WadFile.BuildDirectorySize` | src/wad.rs:110-119 | A successful build adds exactly `n` entries: no record overwrites another. |
| `WadFile.BuildDirectoryFromRecords` | src/wad.rs:110-119 | Conversely, `n` readable records whose hashes are distinct and new always build. |
| `WadFile.BuildDirectoryStep` | src/wad.rs:112-118 | A record whose hash is not yet a key is inserted, and the build continues at the next record. |
| `WadFile.ReadRecordsPrefix` | src/wad.rs:112-113 | Records are read from their own bytes: inputs that agree up to the last record's end read the same records. |
| `WadFile.DuplicateStopsBuild` | src/wad.rs:112-118 | If record `j` repeats a hash already present and the records before it do not, the build fails with `DuplicateEntry` carrying that hash. |
| `WadFile.RecordErrorStopsBuild` | src/wad.rs:112-113 | If record `j` fails to read and the records before it read with distinct, new hashes, the build fails with record `j`'s own error, unchanged. |
| `WadFile.ReadHeaderPrefix` | src/wad.rs:83-110 | The header is read from its own bytes: inputs that agree up to the first record read the same header. |
| `WadFile.DecodeAfterHeader` | src/wad.rs:110-121 | Once the header is read, the decode's result is the directory build's result, paired with the header's signature. |
| `WadFile.DecodeDirectory` | src/wad.rs:110-121 | A decode succeeds exactly when the header reads, all `entry_count` records read, and their hashes are distinct. The directory then has exactly `entry_count` entries. Every key is the `xxhash` of its entry, and each record is stored under its own hash. |
| `WadFile.DecodeStopsAtDuplicate` | src/wad.rs:112-118 | When record `j` repeats an earlier record's hash and the earlier records are distinct, the decode fails with `DuplicateEntry` of that hash. The same holds for every input that agrees up to the end of record `j`, so no later record is read. |
| `WadFile.DecodeStopsAtBadRecord` | src/wad.rs:112-113 | When record `j` fails to read and the records before it are distinct, the decode fails with that record's error. In particular, a format byte above 4 gives `UnknownEntryDataFormat` of that byte. |
| `WadFile.Read` | src/wad.rs:82-122 | The cursor-advancing decode computes exactly `Decode`: it reads the header, then the records one at a time, failing at the first duplicate. Its loop keeps three facts: the map has `i` entries, each keyed by its own hash, and the cursor is at the start of record `i`. |

## Left out

- `Wad::mount_from_path` and `BinaryReader::from_location` (src/wad.rs:76-80) open a file. The model starts from the file's bytes as a sequence.
- The reader itself is not part of this model. It is a cursor over a sequence, assumed little-endian. Its failures are all "ran past the end" (`IoError`, which carries no detail); seek errors and other I/O faults are not modelled.
- `read_string(2)` (src/wad.rs:83) decodes text in the reader. The model compares the two raw bytes against `0x52 0x57` and carries the bytes, not a `String`, in `InvalidSignature`. Its behaviour on bytes that are not valid UTF-8 is not modelled.
- `HashMap::with_capacity(entry_count)` (src/wad.rs:111) pre-sizes the map from the unchecked count. The model has no memory limit, so it does not capture the allocation failure, and the abort, that a very large count can cause before any record is read. For such an input the model gives `IoError` once the records run out.
- The `getset` getters and the `thiserror` message strings (src/wad.rs:13-25, 39-57) have no behaviour to verify.
- The unit test (src/wad.rs:171-178) opens a file at a fixed path outside any repository.
- The payload is not decompressed, and file redirections are not resolved; the code does neither. The `Sha256` checksum holds the 8 bytes the code reads, not a full digest.
- `InvalidSignatureLength` is not in the source. See Findings: the model refuses a version-2 length byte above 83 instead of underflowing.

## Findings

| source | as written | input that shows it | evidently intended | confidence | as-written member | corrected member |
|---|---|---|---|---|---|---|
| src/wad.rs:96-97 | `br.read_bytes(83 - length)` with `length` a `usize` from an unchecked byte | bytes `52 57 02 00 54 …` (major 2, length byte 84): `83 - 84` panics in a debug build and wraps to 2^64 - 1 in a release build | a length byte above 83 is refused as malformed input | not executed; medium (the format may never carry such a byte) | `WadFile.SignatureLengthWraps` | `WadFile.SignatureLength` |
