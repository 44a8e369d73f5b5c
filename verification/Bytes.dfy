/** Bytes, machine words and little-endian numbers. */
module Bytes {
  import opened Powers

  type Byte = x: int | 0 <= x < 0x100
  type Word32 = x: int | 0 <= x < 0x1_0000_0000
  type Word64 = x: int | 0 <= x < 0x1_0000_0000_0000_0000

  /** The low `count` bytes of a number, least significant first. */
  function LittleEndian(value: nat, count: nat): (r: seq<Byte>)
    ensures |r| == count
  {
    if count == 0 then [] else [value % 0x100] + LittleEndian(value / 0x100, count - 1)
  }

  /** Bytes read as a little-endian number. */
  function LittleEndianValue(bytes: seq<Byte>): nat
  {
    if bytes == [] then 0 else bytes[0] + 0x100 * LittleEndianValue(bytes[1..])
  }

  /** A number that fits is read back from its bytes. */
  lemma {:induction false} LittleEndianBack(value: nat, count: nat)
    requires value < Pow2(8 * count)
    ensures LittleEndianValue(LittleEndian(value, count)) == value
    decreases count
  {
    hide Pow2;
    if count == 0 {
      FirstPower();
    } else {
      Pow2Plus8(8 * (count - 1));
      LittleEndianBack(value / 0x100, count - 1);
      assert LittleEndian(value, count)[1..] == LittleEndian(value / 0x100, count - 1);
    }
  }

  lemma FirstPower()
    ensures Pow2(0) == 1
  {
  }

  /** Bytes are read as a number below 256 to the power of their count, and written back as they were. */
  lemma {:induction false} BytesBack(bytes: seq<Byte>)
    ensures LittleEndianValue(bytes) < Pow2(8 * |bytes|) && LittleEndian(LittleEndianValue(bytes), |bytes|) == bytes
  {
    hide Pow2;
    if bytes == [] {
      FirstPower();
    } else {
      BytesBack(bytes[1..]);
      Pow2Plus8(8 * |bytes[1..]|);
      assert [bytes[0]] + bytes[1..] == bytes;
    }
  }

  /** Byte k of a little-endian number is its bits 8k to 8k + 7. */
  lemma {:induction false} LittleEndianByte(value: nat, count: nat, k: nat)
    requires k < count
    ensures LittleEndian(value, count)[k] == Shr(value, 8 * k) % 0x100
    decreases k
  {
    hide Pow2, Shl;
    if k > 0 {
      LittleEndianByte(value / 0x100, count - 1, k - 1);
      Shl8(value / 0x100);
      Pow2Bytes();
      DivideUnique(value, 8, value / 0x100, value % 0x100);
      ShrAdd(value, 8, 8 * (k - 1));
    }
  }

  function ZeroBytes(n: nat): (r: seq<Byte>)
    ensures |r| == n
  {
    seq<Byte>(n, i => 0)
  }
}
