/**
 * `Wad::read`: the WAD container header and the directory build.
 *
 * The header is: the magic "RW", a major and a minor version byte, a signature
 * blob whose size the major version decides, a reserved u64, two legacy u16
 * fields for majors 1 and 2 only, and a u32 entry count. The directory is then
 * that many records, each inserted under its path hash; a second record with a
 * hash already present ends the decode.
 *
 * `Decode` is the specification (a function over the bytes), `Read` the
 * cursor-advancing method with its loop, proved to compute `Decode`.
 */
module WadFile {
  import opened WadTypes
  import opened BinaryReader
  import opened Entries

  datatype Wad = Wad(signature: seq<u8>, entries: map<u64, Entry>)

  /** What the header tells the directory build, and where the first record starts. */
  datatype Header = Header(major: u8, minor: u8, signature: seq<u8>, entryCount: u32, tocStart: nat)

  /** "RW" */
  const Magic: seq<u8> := [0x52, 0x57]

  /** The version 2 signature size `83 - length` as the source computes it on a 64-bit `usize`. */
  function SignatureLengthAsWritten(length: u8): u64
  {
    (83 - length) % 0x1_0000_0000_0000_0000
  }

  /**
   * For a length byte above 83 the as-written size wraps to within 172 of 2^64:
   * a read no real input can satisfy (in a debug build the subtraction panics).
   */
  lemma SignatureLengthWraps(length: u8)
    ensures length <= 83 ==> SignatureLengthAsWritten(length) + length == 83
    ensures length > 83 ==> SignatureLengthAsWritten(length) >= 0x1_0000_0000_0000_0000 - 172
    ensures SignatureLengthAsWritten(84) == 0xFFFF_FFFF_FFFF_FFFF
  {
  }

  /** The version 2 signature size with the subtraction guarded. */
  function SignatureLength(length: u8): (r: Result<nat>)
    ensures r.Ok? <==> length <= 83
    ensures r.Ok? ==> r.value + length == 83 && r.value == SignatureLengthAsWritten(length)
    ensures r.Err? ==> r.error == InvalidSignatureLength(length)
  {
    if length <= 83 then Ok(83 - length) else Err(InvalidSignatureLength(length))
  }

  /** The signature blob: length-prefixed for major 2, 256 bytes for major 3, empty otherwise. */
  function ReadSignature(data: seq<u8>, pos: nat, major: u8): (r: Result<Parsed<seq<u8>>>)
    ensures r.Ok? && major == 2 ==> pos < |data| && data[pos] <= 83 && r.value.next == pos + 84 - data[pos] <= |data|
                                    && r.value.value == data[pos + 1..r.value.next]
    ensures r.Ok? && major == 3 ==> pos + 256 <= |data| && r.value == Parsed(data[pos..pos + 256], pos + 256)
    ensures major != 2 && major != 3 ==> r == Ok(Parsed([], pos))
    ensures r.Err? ==> r.error == IoError || (major == 2 && pos < |data| && r.error == InvalidSignatureLength(data[pos]))
  {
    if major == 2 then
      var length :- ReadU8(data, pos);
      var size :- SignatureLength(length.value);
      ReadBytes(data, length.next, size)
    else if major == 3 then
      ReadBytes(data, pos, 256)
    else
      Ok(Parsed([], pos))
  }

  /** The number of bytes of the legacy table-of-contents fields a major version carries. */
  function LegacyTocSize(major: u8): nat
  {
    if major == 1 || major == 2 then 4 else 0
  }

  /** The legacy table-of-contents offset and record size, present for majors 1 and 2 and discarded. */
  function SkipLegacyToc(data: seq<u8>, pos: nat, major: u8): (r: Result<nat>)
    ensures r.Ok? <==> LegacyTocSize(major) == 0 || pos + LegacyTocSize(major) <= |data|
    ensures r.Ok? ==> r.value == pos + LegacyTocSize(major)
    ensures r.Err? ==> r.error == IoError
  {
    if major == 1 || major == 2 then
      var tocStartOffset :- ReadU16(data, pos);
      var tocFileEntrySize :- ReadU16(data, tocStartOffset.next);
      Ok(tocFileEntrySize.next)
    else
      Ok(pos)
  }

  /** The header, read in order from the start of the input. */
  function ReadHeader(data: seq<u8>): (r: Result<Header>)
    ensures r.Ok? ==> |data| >= 4 && r.value.major == data[2] <= 3 && r.value.minor == data[3]
                      && r.value.tocStart <= |data|
    ensures r.Err? ==> r.error.IoError? || r.error.InvalidSignature? || r.error.UnsupportedVersion?
                       || r.error.InvalidSignatureLength?
  {
    var magic :- ReadBytes(data, 0, 2);
    if magic.value != Magic then Err(InvalidSignature(magic.value))
    else
      var major :- ReadU8(data, magic.next);
      var minor :- ReadU8(data, major.next);
      if major.value > 3 then Err(UnsupportedVersion(major.value, minor.value))
      else
        var signature :- ReadSignature(data, minor.next, major.value);
        var reserved :- ReadU64(data, signature.next);
        var countAt :- SkipLegacyToc(data, reserved.next, major.value);
        var count :- ReadU32(data, countAt);
        Ok(Header(major.value, minor.value, signature.value, count.value, count.next))
  }

  /**
   * Reads `n` more records from `pos` into `acc`, insert-or-fail: a record whose
   * hash is already a key ends the build with `DuplicateEntry` before the next
   * record is read.
   */
  function BuildDirectory(data: seq<u8>, pos: nat, major: u8, minor: u8, n: nat, acc: map<u64, Entry>)
    : (r: Result<map<u64, Entry>>)
    ensures r.Ok? ==> acc.Keys <= r.value.Keys && forall k | k in acc :: r.value[k] == acc[k]
    decreases n
  {
    if n == 0 then Ok(acc)
    else
      var entry :- EntryAt(data, pos, major, minor);
      if entry.value.xxhash in acc then Err(DuplicateEntry(entry.value.xxhash))
      else BuildDirectory(data, entry.next, major, minor, n - 1, acc[entry.value.xxhash := entry.value])
  }

  /** One step of the build: a fresh record is inserted and the build goes on after it. */
  lemma BuildDirectoryStep(data: seq<u8>, pos: nat, major: u8, minor: u8, n: nat, acc: map<u64, Entry>)
    requires n > 0
    requires EntryAt(data, pos, major, minor).Ok?
    requires EntryAt(data, pos, major, minor).value.value.xxhash !in acc
    ensures var e := EntryAt(data, pos, major, minor).value;
            BuildDirectory(data, pos, major, minor, n, acc)
            == BuildDirectory(data, e.next, major, minor, n - 1, acc[e.value.xxhash := e.value])
  {
  }

  /** The bytes that `i` consecutive records occupy: `i * RecordSize(major)`. */
  function RecordsSpan(i: nat, major: u8): (n: nat)
    ensures n == i * RecordSize(major)
  {
    if i == 0 then 0 else RecordsSpan(i - 1, major) + RecordSize(major)
  }

  /** The whole decode: the header, then the directory of `entryCount` records. */
  function Decode(data: seq<u8>): (r: Result<Wad>)
    ensures r.Ok? ==> ReadHeader(data).Ok? && r.value.signature == ReadHeader(data).value.signature
    ensures ReadHeader(data).Err? ==> r == Err(ReadHeader(data).error)
  {
    var header :- ReadHeader(data);
    var entries :- BuildDirectory(data, header.tocStart, header.major, header.minor, header.entryCount, map[]);
    Ok(Wad(header.signature, entries))
  }

  // ---------------------------------------------------------------------------
  // The header

  /** The magic is checked first: nothing after the first two bytes decides a mismatch. */
  lemma DecodeChecksMagicFirst(data: seq<u8>)
    ensures |data| < 2 ==> Decode(data) == Err(IoError)
    ensures |data| >= 2 && data[..2] != Magic ==> Decode(data) == Err(InvalidSignature(data[..2]))
  {
  }

  /**
   * Every major version above 3 is refused with both version bytes, whatever the
   * rest of the input; the minor byte is never bounded, so with a supported major
   * the decode never fails on the version.
   */
  lemma DecodeChecksVersion(data: seq<u8>)
    requires |data| >= 4 && data[..2] == Magic
    ensures data[2] > 3 ==> Decode(data) == Err(UnsupportedVersion(data[2], data[3]))
    ensures data[2] <= 3 ==> !(Decode(data).Err? && Decode(data).error.UnsupportedVersion?)
  {
    if data[2] <= 3 && ReadHeader(data).Ok? {
      BuildDirectoryNeverVersionError(data, ReadHeader(data).value);
    }
  }

  lemma BuildDirectoryNeverVersionError(data: seq<u8>, h: Header)
    ensures var b := BuildDirectory(data, h.tocStart, h.major, h.minor, h.entryCount, map[]);
            !(b.Err? && b.error.UnsupportedVersion?)
  {
    BuildDirectoryErrors(data, h.tocStart, h.major, h.minor, h.entryCount, map[]);
  }

  /** The build fails only by running off the end, a bad format byte or a duplicate hash. */
  lemma {:induction false} BuildDirectoryErrors(data: seq<u8>, pos: nat, major: u8, minor: u8, n: nat, acc: map<u64, Entry>)
    ensures var b := BuildDirectory(data, pos, major, minor, n, acc);
            b.Err? ==> b.error.IoError? || b.error.UnknownEntryDataFormat? || b.error.DuplicateEntry?
    decreases n
  {
    if n > 0 {
      var e := EntryAt(data, pos, major, minor);
      if e.Ok? && e.value.value.xxhash !in acc {
        BuildDirectoryErrors(data, e.value.next, major, minor, n - 1, acc[e.value.value.xxhash := e.value.value]);
      }
    }
  }

  /** A version 2 length byte above 83 is refused rather than wrapped. */
  lemma DecodeChecksSignatureLength(data: seq<u8>)
    requires |data| >= 5 && data[..2] == Magic && data[2] == 2 && data[4] > 83
    ensures Decode(data) == Err(InvalidSignatureLength(data[4]))
  {
  }

  /**
   * Where each header field of a decoded file lies: the signature is the
   * `83 - L` bytes after the length byte `L` for major 2, the 256 bytes after the
   * version for major 3 and empty for majors 0 and 1; the reserved u64 follows
   * it, then the two legacy u16 fields exactly when the major is 1 or 2, then
   * the entry count, and the first record right after the count.
   */
  lemma HeaderLayout(data: seq<u8>)
    requires ReadHeader(data).Ok?
    ensures var h := ReadHeader(data).value;
            |data| >= 4 && data[..2] == Magic && h.major == data[2] <= 3 && h.minor == data[3]
    ensures var h := ReadHeader(data).value;
            (h.major == 2 ==> |data| > 4 && data[4] <= 83 && |h.signature| == 83 - data[4]
                              && h.signature == data[5..5 + |h.signature|])
            && (h.major == 3 ==> h.signature == data[4..260])
            && (h.major < 2 ==> h.signature == [])
    ensures var h := ReadHeader(data).value;
            var signatureEnd := if h.major == 2 then 5 + |h.signature| else 4 + |h.signature|;
            var countAt := signatureEnd + 8 + LegacyTocSize(h.major);
            h.tocStart == countAt + 4 <= |data|
            && h.entryCount == LittleEndian(data[countAt..countAt + 4])
  {
  }

  /** Where the signature of a header ends: after `83 - L` bytes and `L` for major 2, 256 bytes for major 3. */
  function SignatureEnd(data: seq<u8>): int
    requires |data| >= 4 && (data[2] == 2 ==> |data| > 4)
  {
    if data[2] == 2 then 88 - data[4] as int else if data[2] == 3 then 260 else 4
  }

  /**
   * Conversely, a header whose bytes are well formed reads: the magic "RW", a
   * major of at most 3 (any minor), a length byte of at most 83 for major 2, and
   * enough bytes through the entry count. The signature and the count are the
   * bytes at the positions `HeaderLayout` names; with a count of 0 the decode is
   * an empty directory.
   */
  lemma HeaderReads(data: seq<u8>)
    requires |data| >= 4 && data[..2] == Magic && data[2] <= 3
    requires data[2] == 2 ==> |data| > 4 && data[4] <= 83
    requires SignatureEnd(data) + 8 + LegacyTocSize(data[2]) + 4 <= |data|
    ensures var countAt := SignatureEnd(data) + 8 + LegacyTocSize(data[2]);
            var signature := if data[2] == 2 then data[5..SignatureEnd(data)]
                             else if data[2] == 3 then data[4..260] else [];
            ReadHeader(data)
            == Ok(Header(data[2], data[3], signature, ReadU32(data, countAt).value.value, countAt + 4))
    ensures var countAt := SignatureEnd(data) + 8 + LegacyTocSize(data[2]);
            LittleEndian(data[countAt..countAt + 4]) == 0 ==> Decode(data) == Ok(Wad(ReadHeader(data).value.signature, map[]))
  {
    Pow256Widths();
  }

  // ---------------------------------------------------------------------------
  // The directory

  /**
   * Reads `n` consecutive records from `pos` with no uniqueness check: the
   * reference for what the directory build reads.
   */
  function ReadRecords(data: seq<u8>, pos: nat, major: u8, minor: u8, n: nat): (r: Result<Parsed<seq<Entry>>>)
    ensures r.Ok? ==> |r.value.value| == n && r.value.next == pos + RecordsSpan(n, major)
    ensures r.Ok? && n > 0 ==> r.value.next <= |data|
    decreases n
  {
    if n == 0 then Ok(Parsed([], pos))
    else
      var first :- EntryAt(data, pos, major, minor);
      var rest :- ReadRecords(data, first.next, major, minor, n - 1);
      Ok(Parsed([first.value] + rest.value, rest.next))
  }

  predicate DistinctHashes(es: seq<Entry>)
  {
    forall i, j | 0 <= i < j < |es| :: es[i].xxhash != es[j].xxhash
  }

  function HashSet(es: seq<Entry>): set<u64>
  {
    set i | 0 <= i < |es| :: es[i].xxhash
  }

  /** A build that succeeds has read `n` records whose hashes are distinct and new to `acc`. */
  lemma {:induction false} BuildDirectoryReads(data: seq<u8>, pos: nat, major: u8, minor: u8, n: nat, acc: map<u64, Entry>)
    requires BuildDirectory(data, pos, major, minor, n, acc).Ok?
    ensures ReadRecords(data, pos, major, minor, n).Ok?
    ensures var es := ReadRecords(data, pos, major, minor, n).value.value;
            DistinctHashes(es) && forall i | 0 <= i < |es| :: es[i].xxhash !in acc
    decreases n
  {
    if n > 0 {
      var first := EntryAt(data, pos, major, minor).value;
      var h := first.value.xxhash;
      var acc' := acc[h := first.value];
      BuildDirectoryReads(data, first.next, major, minor, n - 1, acc');
      var rest := ReadRecords(data, first.next, major, minor, n - 1).value.value;
      var es := [first.value] + rest;
      assert ReadRecords(data, pos, major, minor, n).value.value == es;
      forall i | 0 <= i < |es| ensures es[i].xxhash !in acc {
        if i > 0 { assert es[i] == rest[i - 1]; }
      }
      forall i, j | 0 <= i < j < |es| ensures es[i].xxhash != es[j].xxhash {
        assert es[j] == rest[j - 1];
        if i > 0 { assert es[i] == rest[i - 1]; }
      }
    }
  }

  /**
   * A build that succeeds keeps `acc`, adds each record it read under its own
   * hash, and nothing else; every record adds one entry.
   */
  lemma {:induction false} BuildDirectoryContents(data: seq<u8>, pos: nat, major: u8, minor: u8, n: nat, acc: map<u64, Entry>)
    requires BuildDirectory(data, pos, major, minor, n, acc).Ok?
    ensures ReadRecords(data, pos, major, minor, n).Ok?
    ensures var m := BuildDirectory(data, pos, major, minor, n, acc).value;
            var es := ReadRecords(data, pos, major, minor, n).value.value;
            m.Keys == acc.Keys + HashSet(es)
            && (forall i | 0 <= i < |es| :: m[es[i].xxhash] == es[i])
            && (forall k | k in acc :: m[k] == acc[k])
    decreases n
  {
    if n > 0 {
      var first := EntryAt(data, pos, major, minor).value;
      var h := first.value.xxhash;
      var acc' := acc[h := first.value];
      BuildDirectoryContents(data, first.next, major, minor, n - 1, acc');
      var rest := ReadRecords(data, first.next, major, minor, n - 1).value.value;
      var es := [first.value] + rest;
      assert ReadRecords(data, pos, major, minor, n).value.value == es;
      assert HashSet(es) == {h} + HashSet(rest) by {
        forall k | k in HashSet(es) ensures k in {h} + HashSet(rest) {
          var i :| 0 <= i < |es| && es[i].xxhash == k;
          if i > 0 { assert es[i] == rest[i - 1]; }
        }
        forall k | k in HashSet(rest) ensures k in HashSet(es) {
          var i :| 0 <= i < |rest| && rest[i].xxhash == k;
          assert es[i + 1] == rest[i];
        }
        assert es[0].xxhash == h;
      }
      BuildDirectoryReads(data, pos, major, minor, n, acc);
      forall i | 0 <= i < |es|
        ensures BuildDirectory(data, pos, major, minor, n, acc).value[es[i].xxhash] == es[i]
      {
        if i > 0 { assert es[i] == rest[i - 1]; }
      }
    }
  }

  /** A build that succeeds adds exactly `n` entries: no record replaces another. */
  lemma {:induction false} BuildDirectorySize(data: seq<u8>, pos: nat, major: u8, minor: u8, n: nat, acc: map<u64, Entry>)
    requires BuildDirectory(data, pos, major, minor, n, acc).Ok?
    ensures |BuildDirectory(data, pos, major, minor, n, acc).value| == |acc| + n
    decreases n
  {
    if n > 0 {
      var first := EntryAt(data, pos, major, minor).value;
      var h := first.value.xxhash;
      var acc' := acc[h := first.value];
      assert h !in acc;
      assert |acc'| == |acc| + 1;
      assert BuildDirectory(data, pos, major, minor, n, acc) == BuildDirectory(data, first.next, major, minor, n - 1, acc');
      BuildDirectorySize(data, first.next, major, minor, n - 1, acc');
    }
  }

  /** Conversely, `n` readable records with distinct hashes new to `acc` always build. */
  lemma {:induction false} BuildDirectoryFromRecords(data: seq<u8>, pos: nat, major: u8, minor: u8, n: nat, acc: map<u64, Entry>)
    requires ReadRecords(data, pos, major, minor, n).Ok?
    requires var es := ReadRecords(data, pos, major, minor, n).value.value;
             DistinctHashes(es) && forall i | 0 <= i < |es| :: es[i].xxhash !in acc
    ensures BuildDirectory(data, pos, major, minor, n, acc).Ok?
    decreases n
  {
    if n > 0 {
      var first := EntryAt(data, pos, major, minor).value;
      var rest := ReadRecords(data, first.next, major, minor, n - 1).value.value;
      var es := ReadRecords(data, pos, major, minor, n).value.value;
      assert es == [first.value] + rest;
      assert es[0] == first.value;
      var acc' := acc[first.value.xxhash := first.value];
      forall i | 0 <= i < |rest| ensures rest[i].xxhash !in acc' {
        assert rest[i] == es[i + 1];
        assert es[0].xxhash != es[i + 1].xxhash;
      }
      forall i, j | 0 <= i < j < |rest| ensures rest[i].xxhash != rest[j].xxhash {
        assert rest[i] == es[i + 1] && rest[j] == es[j + 1];
      }
      BuildDirectoryFromRecords(data, first.next, major, minor, n - 1, acc');
    }
  }

  /** Records are read from their own bytes: the input past them is never looked at. */
  lemma {:induction false} ReadRecordsPrefix(data: seq<u8>, data': seq<u8>, pos: nat, major: u8, minor: u8, n: nat, q: nat)
    requires ReadRecords(data, pos, major, minor, n).Ok?
    requires ReadRecords(data, pos, major, minor, n).value.next <= q <= |data|
    requires q <= |data'| && data'[..q] == data[..q]
    ensures ReadRecords(data', pos, major, minor, n) == ReadRecords(data, pos, major, minor, n)
    decreases n
  {
    if n > 0 {
      var e := EntryAt(data, pos, major, minor);
      var rest := ReadRecords(data, e.value.next, major, minor, n - 1);
      assert e.Ok? && rest.Ok?;
      assert e.value.next <= rest.value.next == ReadRecords(data, pos, major, minor, n).value.next;
      ReadEntryPrefix(data, data', pos, major, minor, q);
      ReadRecordsPrefix(data, data', e.value.next, major, minor, n - 1, q);
    }
  }

  /**
   * Insert-or-fail: when record `j` repeats the hash of an earlier record (or of
   * a key already in `acc`) and the records before it do not, the build fails
   * with `DuplicateEntry` carrying that hash, having read no record after `j`.
   */
  lemma {:induction false} DuplicateStopsBuild(
    data: seq<u8>, pos: nat, major: u8, minor: u8, es: seq<Entry>, q: nat, j: nat, n: nat, acc: map<u64, Entry>)
    requires j < n
    requires ReadRecords(data, pos, major, minor, j + 1) == Ok(Parsed(es, q))
    requires DistinctHashes(es[..j]) && forall i | 0 <= i < j :: es[i].xxhash !in acc
    requires es[j].xxhash in acc || exists i | 0 <= i < j :: es[i].xxhash == es[j].xxhash
    ensures BuildDirectory(data, pos, major, minor, n, acc) == Err(DuplicateEntry(es[j].xxhash))
    decreases j
  {
    var first := EntryAt(data, pos, major, minor).value;
    var rest := ReadRecords(data, first.next, major, minor, j).value;
    assert es == [first.value] + rest.value && q == rest.next;
    if j > 0 {
      var h := first.value.xxhash;
      assert h == es[..j][0].xxhash;
      var acc' := acc[h := first.value];
      assert BuildDirectory(data, pos, major, minor, n, acc)
          == BuildDirectory(data, first.next, major, minor, n - 1, acc');
      forall i | 0 <= i < j - 1 ensures rest.value[i].xxhash !in acc' {
        assert rest.value[i] == es[..j][i + 1];
      }
      var before := rest.value[..j - 1];
      forall a, b | 0 <= a < b < |before| ensures before[a].xxhash != before[b].xxhash {
        assert before[a] == es[..j][a + 1] && before[b] == es[..j][b + 1];
      }
      if es[j].xxhash !in acc {
        var i :| 0 <= i < j && es[i].xxhash == es[j].xxhash;
        if i > 0 { assert rest.value[i - 1] == es[i]; }
      }
      assert rest.value[j - 1] == es[j];
      DuplicateStopsBuild(data, first.next, major, minor, rest.value, q, j - 1, n - 1, acc');
    }
  }

  /**
   * A record that fails to read ends the build with that record's own error,
   * once the records before it have been inserted: `?` passes it on unchanged.
   */
  lemma {:induction false} RecordErrorStopsBuild(
    data: seq<u8>, pos: nat, major: u8, minor: u8, es: seq<Entry>, q: nat, j: nat, n: nat, acc: map<u64, Entry>)
    requires j < n
    requires ReadRecords(data, pos, major, minor, j) == Ok(Parsed(es, q))
    requires DistinctHashes(es) && forall i | 0 <= i < j :: es[i].xxhash !in acc
    requires EntryAt(data, q, major, minor).Err?
    ensures BuildDirectory(data, pos, major, minor, n, acc) == Err(EntryAt(data, q, major, minor).error)
    decreases j
  {
    if j > 0 {
      var first := EntryAt(data, pos, major, minor).value;
      var rest := ReadRecords(data, first.next, major, minor, j - 1).value;
      assert es == [first.value] + rest.value && q == rest.next;
      var acc' := acc[first.value.xxhash := first.value];
      assert first.value == es[0];
      assert BuildDirectory(data, pos, major, minor, n, acc)
          == BuildDirectory(data, first.next, major, minor, n - 1, acc');
      forall i | 0 <= i < j - 1 ensures rest.value[i].xxhash !in acc' {
        assert rest.value[i] == es[i + 1];
      }
      forall a, b | 0 <= a < b < |rest.value| ensures rest.value[a].xxhash != rest.value[b].xxhash {
        assert rest.value[a] == es[a + 1] && rest.value[b] == es[b + 1];
      }
      RecordErrorStopsBuild(data, first.next, major, minor, rest.value, q, j - 1, n - 1, acc');
    }
  }

  /** Two inputs that agree on their first `q` bytes agree on every read that ends by `q`. */
  lemma AgreeBelow(data: seq<u8>, data': seq<u8>, q: nat)
    requires q <= |data| && q <= |data'| && data'[..q] == data[..q]
    ensures forall a, b | 0 <= a <= b <= q :: data'[a..b] == data[a..b]
    ensures forall a | 0 <= a < q :: data'[a] == data[a]
  {
    forall a, b | 0 <= a <= b <= q ensures data'[a..b] == data[a..b] {
      SliceOfSlice(data', 0, q, a, b);
      SliceOfSlice(data, 0, q, a, b);
    }
    forall a | 0 <= a < q ensures data'[a] == data[a] {
      assert data'[a] == data'[..q][a];
    }
  }

  lemma ReadSignaturePrefix(data: seq<u8>, data': seq<u8>, pos: nat, major: u8, q: nat)
    requires ReadSignature(data, pos, major).Ok? && ReadSignature(data, pos, major).value.next <= q
    requires q <= |data| && q <= |data'| && data'[..q] == data[..q]
    ensures ReadSignature(data', pos, major) == ReadSignature(data, pos, major)
  {
    AgreeBelow(data, data', q);
    if major == 2 {
      assert data'[pos] == data[pos];
    }
  }

  lemma SkipLegacyTocPrefix(data: seq<u8>, data': seq<u8>, pos: nat, major: u8, q: nat)
    requires SkipLegacyToc(data, pos, major).Ok? && SkipLegacyToc(data, pos, major).value <= q
    requires q <= |data| && q <= |data'| && data'[..q] == data[..q]
    ensures SkipLegacyToc(data', pos, major) == SkipLegacyToc(data, pos, major)
  {
    AgreeBelow(data, data', q);
  }

  /** The header assembled from its parts, once each part is known to read. */
  lemma ReadHeaderFromParts(data: seq<u8>, signature: Parsed<seq<u8>>, countAt: nat)
    requires |data| >= 4 && data[..2] == Magic && data[2] <= 3
    requires ReadSignature(data, 4, data[2]) == Ok(signature)
    requires SkipLegacyToc(data, signature.next + 8, data[2]) == Ok(countAt)
    requires signature.next + 8 <= countAt && countAt + 4 <= |data|
    ensures ReadHeader(data)
         == Ok(Header(data[2], data[3], signature.value, ReadU32(data, countAt).value.value, countAt + 4))
  {
    Pow256Widths();
  }

  /** The header is read from its own bytes: the input past the entry count is never looked at. */
  lemma ReadHeaderPrefix(data: seq<u8>, data': seq<u8>, q: nat)
    requires ReadHeader(data).Ok? && ReadHeader(data).value.tocStart <= q <= |data|
    requires q <= |data'| && data'[..q] == data[..q]
    ensures ReadHeader(data') == ReadHeader(data)
  {
    var h := ReadHeader(data).value;
    var signature := ReadSignature(data, 4, h.major).value;
    var countAt := SkipLegacyToc(data, signature.next + 8, h.major).value;
    AgreeBelow(data, data', q);
    assert data'[..2] == data[..2] && data'[2] == data[2];
    ReadSignaturePrefix(data, data', 4, h.major, q);
    SkipLegacyTocPrefix(data, data', signature.next + 8, h.major, q);
    ReadHeaderFromParts(data, signature, countAt);
    ReadHeaderFromParts(data', signature, countAt);
  }

  // ---------------------------------------------------------------------------
  // The whole decode

  /**
   * A decode succeeds exactly when the header reads, its `entryCount` records
   * read, and their hashes are distinct. The directory then has exactly
   * `entryCount` entries, each stored under its own hash, one per record.
   */
  lemma DecodeDirectory(data: seq<u8>)
    ensures Decode(data).Ok? <==>
              ReadHeader(data).Ok?
              && var h := ReadHeader(data).value;
                 var rs := ReadRecords(data, h.tocStart, h.major, h.minor, h.entryCount);
                 rs.Ok? && DistinctHashes(rs.value.value)
    ensures Decode(data).Ok? ==>
              var h := ReadHeader(data).value;
              var w := Decode(data).value;
              var es := ReadRecords(data, h.tocStart, h.major, h.minor, h.entryCount).value.value;
              w.signature == h.signature
              && |w.entries| == h.entryCount
              && (forall k | k in w.entries :: w.entries[k].xxhash == k)
              && w.entries.Keys == HashSet(es)
              && (forall i | 0 <= i < |es| :: w.entries[es[i].xxhash] == es[i])
  {
    if ReadHeader(data).Ok? {
      var h := ReadHeader(data).value;
      var b := BuildDirectory(data, h.tocStart, h.major, h.minor, h.entryCount, map[]);
      var rs := ReadRecords(data, h.tocStart, h.major, h.minor, h.entryCount);
      if b.Ok? {
        BuildDirectoryReads(data, h.tocStart, h.major, h.minor, h.entryCount, map[]);
        BuildDirectoryContents(data, h.tocStart, h.major, h.minor, h.entryCount, map[]);
        BuildDirectorySize(data, h.tocStart, h.major, h.minor, h.entryCount, map[]);
        var es := rs.value.value;
        forall k | k in b.value ensures b.value[k].xxhash == k {
          var i :| 0 <= i < |es| && es[i].xxhash == k;
        }
      } else if rs.Ok? && DistinctHashes(rs.value.value) {
        BuildDirectoryFromRecords(data, h.tocStart, h.major, h.minor, h.entryCount, map[]);
      }
    }
  }

  /** Once the header is read, the decode is the directory build from the first record on. */
  lemma DecodeAfterHeader(data: seq<u8>, h: Header)
    requires ReadHeader(data) == Ok(h)
    ensures var b := BuildDirectory(data, h.tocStart, h.major, h.minor, h.entryCount, map[]);
            Decode(data) == if b.Ok? then Ok(Wad(h.signature, b.value)) else Err(b.error)
  {
  }

  /**
   * When record `j` of the directory repeats the hash of an earlier one, and the
   * records before it are distinct, the decode fails with `DuplicateEntry` of
   * that hash, for every input that agrees up to the end of record `j`: no later
   * record is read.
   */
  lemma DecodeStopsAtDuplicate(data: seq<u8>, data': seq<u8>, h: Header, es: seq<Entry>, q: nat, j: nat)
    requires ReadHeader(data) == Ok(h)
    requires j < h.entryCount && ReadRecords(data, h.tocStart, h.major, h.minor, j + 1) == Ok(Parsed(es, q))
    requires DistinctHashes(es[..j]) && exists i | 0 <= i < j :: es[i].xxhash == es[j].xxhash
    requires q <= |data'| && data'[..q] == data[..q]
    ensures Decode(data') == Err(DuplicateEntry(es[j].xxhash))
  {
    ReadHeaderPrefix(data, data', q);
    ReadRecordsPrefix(data, data', h.tocStart, h.major, h.minor, j + 1, q);
    DuplicateStopsBuild(data', h.tocStart, h.major, h.minor, es, q, j, h.entryCount, map[]);
    DecodeAfterHeader(data', h);
  }

  /**
   * When record `j` of the directory fails to read, and the records before it
   * read with distinct hashes, the decode fails with that record's error; in
   * particular a format byte above 4 gives `UnknownEntryDataFormat` of that byte.
   */
  lemma DecodeStopsAtBadRecord(data: seq<u8>, h: Header, es: seq<Entry>, q: nat, j: nat)
    requires ReadHeader(data) == Ok(h)
    requires j < h.entryCount && ReadRecords(data, h.tocStart, h.major, h.minor, j) == Ok(Parsed(es, q))
    requires DistinctHashes(es)
    ensures EntryAt(data, q, h.major, h.minor).Err? ==> Decode(data) == Err(EntryAt(data, q, h.major, h.minor).error)
    ensures q + 20 < |data| && data[q + 20] > 4 ==> Decode(data) == Err(UnknownEntryDataFormat(data[q + 20]))
  {
    if EntryAt(data, q, h.major, h.minor).Err? {
      RecordErrorStopsBuild(data, h.tocStart, h.major, h.minor, es, q, j, h.entryCount, map[]);
      DecodeAfterHeader(data, h);
    }
  }

  /** The header part of `Wad::read`, advancing one cursor field by field. */
  method ReadHeaderFields(data: seq<u8>) returns (r: Result<Header>)
    ensures r == ReadHeader(data)
  {
    var magic :- ReadBytes(data, 0, 2);
    if magic.value != Magic {
      return Err(InvalidSignature(magic.value));
    }

    var major :- ReadU8(data, magic.next);
    var minor :- ReadU8(data, major.next);
    if major.value > 3 {
      return Err(UnsupportedVersion(major.value, minor.value));
    }
    var pos := minor.next;

    var signature: seq<u8> := [];
    if major.value == 2 {
      var length :- ReadU8(data, pos);
      var size :- SignatureLength(length.value);
      var blob :- ReadBytes(data, length.next, size);
      signature, pos := blob.value, blob.next;
    } else if major.value == 3 {
      var blob :- ReadBytes(data, pos, 256);
      signature, pos := blob.value, blob.next;
    }
    assert ReadSignature(data, minor.next, major.value) == Ok(Parsed(signature, pos));

    var reserved :- ReadU64(data, pos);
    pos := reserved.next;

    if major.value == 1 || major.value == 2 {
      var tocStartOffset :- ReadU16(data, pos);
      var tocFileEntrySize :- ReadU16(data, tocStartOffset.next);
      pos := tocFileEntrySize.next;
    }
    assert SkipLegacyToc(data, reserved.next, major.value) == Ok(pos);

    var count :- ReadU32(data, pos);
    return Ok(Header(major.value, minor.value, signature, count.value, count.next));
  }

  /**
   * `Wad::read`: the header, then one record per iteration, each inserted into
   * the directory unless its hash is already a key.
   */
  method Read(data: seq<u8>) returns (r: Result<Wad>)
    ensures r == Decode(data)
  {
    var header :- ReadHeaderFields(data);
    var major, minor := header.major, header.minor;

    var entries: map<u64, Entry> := map[];
    var pos := header.tocStart;
    var i: nat := 0;
    while i < header.entryCount
      invariant i <= header.entryCount
      invariant pos == header.tocStart + RecordsSpan(i, major)
      invariant |entries| == i
      invariant forall h | h in entries :: entries[h].xxhash == h
      invariant BuildDirectory(data, pos, major, minor, header.entryCount - i, entries)
             == BuildDirectory(data, header.tocStart, major, minor, header.entryCount, map[])
    {
      var entry :- ReadEntry(data, pos, major, minor);
      if entry.value.xxhash in entries {
        return Err(DuplicateEntry(entry.value.xxhash));
      }
      BuildDirectoryStep(data, pos, major, minor, header.entryCount - i, entries);
      entries := entries[entry.value.xxhash := entry.value];
      pos := entry.next;
      i := i + 1;
    }
    return Ok(Wad(header.signature, entries));
  }
}
