/**
 * The byte-stream reader the decoder runs on, reduced to a bounds-checked
 * cursor over a byte sequence. Every read takes the cursor position and gives
 * back the value and the position after it, or `IoError` when fewer bytes
 * remain than it needs. Integers are little-endian.
 */
module BinaryReader {
  import opened WadTypes

  function Pow256(n: nat): (p: nat)
    ensures p > 0
  {
    if n == 0 then 1 else 256 * Pow256(n - 1)
  }

  lemma Pow256Widths()
    ensures Pow256(1) == 0x100 && Pow256(2) == 0x1_0000
    ensures Pow256(4) == 0x1_0000_0000 && Pow256(8) == 0x1_0000_0000_0000_0000
  {
    assert Pow256(2) == 256 * Pow256(1);
    assert Pow256(4) == 256 * (256 * Pow256(2));
    assert Pow256(8) == 256 * (256 * (256 * (256 * Pow256(4))));
  }

  /** The unsigned value of a little-endian byte run. */
  function LittleEndian(b: seq<u8>): (v: nat)
    ensures v < Pow256(|b|)
  {
    if b == [] then 0 else b[0] + 256 * LittleEndian(b[1..])
  }

  /** The `width`-byte little-endian encoding of `v`; reading it back gives `v`. */
  function ToLittleEndian(v: nat, width: nat): (b: seq<u8>)
    requires v < Pow256(width)
    ensures |b| == width && LittleEndian(b) == v
  {
    if width == 0 then []
    else
      var rest := ToLittleEndian(v / 256, width - 1);
      assert ([v % 256] + rest)[1..] == rest;
      [v % 256] + rest
  }

  /** Encoding a decoded run gives back the run: no two runs of one width share a value. */
  lemma {:induction false} LittleEndianRoundTrip(b: seq<u8>)
    ensures ToLittleEndian(LittleEndian(b), |b|) == b
  {
    if b != [] {
      var v := LittleEndian(b);
      var tail := LittleEndian(b[1..]);
      assert v == b[0] + 256 * tail;
      assert v % 256 == b[0] && v / 256 == tail;
      LittleEndianRoundTrip(b[1..]);
      assert b == [b[0]] + b[1..];
    }
  }

  /** Two's-complement reading of a 32-bit pattern, as `read_i32` does. */
  function I32FromBits(u: u32): (x: i32)
    ensures x < 0 <==> u >= 0x8000_0000
    ensures x % 0x1_0000_0000 == u
  {
    if u < 0x8000_0000 then u else u - 0x1_0000_0000
  }

  /** The 32-bit pattern of a signed value; the inverse of `I32FromBits`. */
  function I32ToBits(x: i32): (u: u32)
    ensures I32FromBits(u) == x
  {
    if x >= 0 then x else x + 0x1_0000_0000
  }

  function ReadBytes(data: seq<u8>, pos: nat, count: nat): (r: Result<Parsed<seq<u8>>>)
    ensures r.Ok? <==> pos + count <= |data|
    ensures r.Ok? ==> r.value == Parsed(data[pos..pos + count], pos + count)
    ensures r.Err? ==> r.error == IoError
  {
    if pos + count <= |data| then Ok(Parsed(data[pos..pos + count], pos + count)) else Err(IoError)
  }

  function ReadU8(data: seq<u8>, pos: nat): (r: Result<Parsed<u8>>)
    ensures r.Ok? <==> pos < |data|
    ensures r.Ok? ==> r.value == Parsed(data[pos], pos + 1)
    ensures r.Err? ==> r.error == IoError
  {
    if pos < |data| then Ok(Parsed(data[pos], pos + 1)) else Err(IoError)
  }

  function ReadU16(data: seq<u8>, pos: nat): (r: Result<Parsed<u16>>)
    ensures r.Ok? <==> pos + 2 <= |data|
    ensures r.Ok? ==> r.value == Parsed(LittleEndian(data[pos..pos + 2]), pos + 2)
    ensures r.Err? ==> r.error == IoError
  {
    var b :- ReadBytes(data, pos, 2);
    Pow256Widths();
    Ok(Parsed(LittleEndian(b.value), b.next))
  }

  function ReadU32(data: seq<u8>, pos: nat): (r: Result<Parsed<u32>>)
    ensures r.Ok? <==> pos + 4 <= |data|
    ensures r.Ok? ==> r.value == Parsed(LittleEndian(data[pos..pos + 4]), pos + 4)
    ensures r.Err? ==> r.error == IoError
  {
    var b :- ReadBytes(data, pos, 4);
    Pow256Widths();
    Ok(Parsed(LittleEndian(b.value), b.next))
  }

  function ReadI32(data: seq<u8>, pos: nat): (r: Result<Parsed<i32>>)
    ensures r.Ok? <==> pos + 4 <= |data|
    ensures r.Ok? ==> r.value == Parsed(I32FromBits(ReadU32(data, pos).value.value), pos + 4)
    ensures r.Err? ==> r.error == IoError
  {
    var u :- ReadU32(data, pos);
    Ok(Parsed(I32FromBits(u.value), u.next))
  }

  function ReadU64(data: seq<u8>, pos: nat): (r: Result<Parsed<u64>>)
    ensures r.Ok? <==> pos + 8 <= |data|
    ensures r.Ok? ==> r.value == Parsed(LittleEndian(data[pos..pos + 8]), pos + 8)
    ensures r.Err? ==> r.error == IoError
  {
    var b :- ReadBytes(data, pos, 8);
    Pow256Widths();
    Ok(Parsed(LittleEndian(b.value), b.next))
  }
}
