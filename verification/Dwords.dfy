// Little-endian 32-bit words in byte sequences.
module Dwords {
  import opened Bytes

  const DWORD: nat := 0x1_0000_0000

  // Byte j, low to high, of a word.
  function ByteOf(w: nat, j: nat): byte {
    if j == 0 then w % 256 else if j == 1 then w / 256 % 256 else if j == 2 then w / 256 / 256 % 256 else w / 256 / 256 / 256 % 256
  }

  /** The bytes of a sequence of words, as memcpy of an array of dword_t lays them out. */
  function ToBytes(ws: seq<nat>): (b: seq<byte>)
    ensures |b| == 4 * |ws|
  {
    seq(4 * |ws|, i requires 0 <= i < 4 * |ws| => ByteOf(ws[i / 4], i % 4))
  }

  function Join(b0: byte, b1: byte, b2: byte, b3: byte): (w: nat)
    ensures w < DWORD
  {
    b0 as int + 256 * (b1 as int + 256 * (b2 as int + 256 * (b3 as int)))
  }

  /** The word at word position k of a byte sequence. */
  function WordAt(b: seq<byte>, k: nat): (w: nat)
    requires 4 * k + 4 <= |b|
    ensures w < DWORD
  {
    Join(b[4 * k], b[4 * k + 1], b[4 * k + 2], b[4 * k + 3])
  }

  /** The lowest byte comes first. */
  lemma LittleEndian(b: seq<byte>, k: nat)
    requires 4 * k + 4 <= |b|
    ensures WordAt(b, k) == b[4 * k] as int + 0x100 * b[4 * k + 1] as int + 0x1_0000 * b[4 * k + 2] as int + 0x100_0000 * b[4 * k + 3] as int
  {
  }

  lemma ByteSum(w: nat)
    requires w < DWORD
    ensures Join(ByteOf(w, 0), ByteOf(w, 1), ByteOf(w, 2), ByteOf(w, 3)) == w
  {
  }

  lemma DwordRoundTrip(ws: seq<nat>, k: nat)
    requires k < |ws| && ws[k] < DWORD
    ensures WordAt(ToBytes(ws), k) == ws[k]
  {
    ByteSum(ws[k]);
    var b := ToBytes(ws);
    assert b[4 * k] == ByteOf(ws[k], 0) && b[4 * k + 1] == ByteOf(ws[k], 1);
    assert b[4 * k + 2] == ByteOf(ws[k], 2) && b[4 * k + 3] == ByteOf(ws[k], 3);
    hide ByteOf, ToBytes, Join;
  }
}
