/** The compiler byte-swap intrinsics (`_byteswap_ushort`, `_byteswap_ulong`,
    `_byteswap_uint64` from MSVC; `__bswap_16`, `__bswap_32`, `__bswap_64`
    from `<byteswap.h>`). Both families act on the numeric value of an
    unsigned integer; they are written here as the shift-and-mask
    expressions that define them, and are proved to reverse the object
    representation of that value on a host of either byte order. */
module Intrinsics {
  import opened Bytes
  import opened Scalars

  /** `__bswap_16` / `_byteswap_ushort`. */
  function Bswap16(x: bv16): bv16
  {
    (x >> 8) | (x << 8)
  }

  /** `__bswap_32` / `_byteswap_ulong`. */
  function Bswap32(x: bv32): bv32
  {
    ((x & 0xff00_0000) >> 24) | ((x & 0x00ff_0000) >> 8)
    | ((x & 0x0000_ff00) << 8) | ((x & 0x0000_00ff) << 24)
  }

  /** `__bswap_64` / `_byteswap_uint64`. */
  function Bswap64(x: bv64): bv64
  {
    ((x & 0xff00_0000_0000_0000) >> 56) | ((x & 0x00ff_0000_0000_0000) >> 40)
    | ((x & 0x0000_ff00_0000_0000) >> 24) | ((x & 0x0000_00ff_0000_0000) >> 8)
    | ((x & 0x0000_0000_ff00_0000) << 8) | ((x & 0x0000_0000_00ff_0000) << 24)
    | ((x & 0x0000_0000_0000_ff00) << 40) | ((x & 0x0000_0000_0000_00ff) << 56)
  }

  /** Two bytes placed by significance, least significant first. */
  function Pack16(b0: byte, b1: byte): bv16
  {
    ((b1 as bv16) << 8) | (b0 as bv16)
  }

  /** Four bytes placed by significance, least significant first. */
  function Pack32(b0: byte, b1: byte, b2: byte, b3: byte): bv32
  {
    ((b3 as bv32) << 24) | ((b2 as bv32) << 16) | ((b1 as bv32) << 8) | (b0 as bv32)
  }

  /** Eight bytes placed by significance, least significant first. */
  function Pack64(b0: byte, b1: byte, b2: byte, b3: byte, b4: byte, b5: byte, b6: byte, b7: byte): bv64
  {
    ((b7 as bv64) << 56) | ((b6 as bv64) << 48) | ((b5 as bv64) << 40) | ((b4 as bv64) << 32)
    | ((b3 as bv64) << 24) | ((b2 as bv64) << 16) | ((b1 as bv64) << 8) | (b0 as bv64)
  }

  /** The value of a `uint16_t` whose representation is `b` on a host with
      byte order `order`. */
  function Load16(order: ByteOrder, b: seq<byte>): bv16
    requires |b| == 2
  {
    match order
    case LittleEndian => Pack16(b[0], b[1])
    case BigEndian => Pack16(b[1], b[0])
  }

  /** The representation of the `uint16_t` value `x` on a host with byte
      order `order`. */
  function Store16(order: ByteOrder, x: bv16): (b: seq<byte>)
    ensures |b| == 2 && Load16(order, b) == x
  {
    match order
    case LittleEndian => [(x & 0xff) as byte, ((x >> 8) & 0xff) as byte]
    case BigEndian => [((x >> 8) & 0xff) as byte, (x & 0xff) as byte]
  }

  /** The value of a `uint32_t` whose representation is `b`. */
  function Load32(order: ByteOrder, b: seq<byte>): bv32
    requires |b| == 4
  {
    match order
    case LittleEndian => Pack32(b[0], b[1], b[2], b[3])
    case BigEndian => Pack32(b[3], b[2], b[1], b[0])
  }

  /** The representation of the `uint32_t` value `x`. */
  function Store32(order: ByteOrder, x: bv32): (b: seq<byte>)
    ensures |b| == 4 && Load32(order, b) == x
  {
    match order
    case LittleEndian =>
      [(x & 0xff) as byte, ((x >> 8) & 0xff) as byte,
       ((x >> 16) & 0xff) as byte, ((x >> 24) & 0xff) as byte]
    case BigEndian =>
      [((x >> 24) & 0xff) as byte, ((x >> 16) & 0xff) as byte,
       ((x >> 8) & 0xff) as byte, (x & 0xff) as byte]
  }

  /** The value of a `uint64_t` whose representation is `b`. */
  function Load64(order: ByteOrder, b: seq<byte>): bv64
    requires |b| == 8
  {
    match order
    case LittleEndian => Pack64(b[0], b[1], b[2], b[3], b[4], b[5], b[6], b[7])
    case BigEndian => Pack64(b[7], b[6], b[5], b[4], b[3], b[2], b[1], b[0])
  }

  /** The representation of the `uint64_t` value `x`. */
  function Store64(order: ByteOrder, x: bv64): (b: seq<byte>)
    ensures |b| == 8 && Load64(order, b) == x
  {
    match order
    case LittleEndian =>
      [(x & 0xff) as byte, ((x >> 8) & 0xff) as byte,
       ((x >> 16) & 0xff) as byte, ((x >> 24) & 0xff) as byte,
       ((x >> 32) & 0xff) as byte, ((x >> 40) & 0xff) as byte,
       ((x >> 48) & 0xff) as byte, ((x >> 56) & 0xff) as byte]
    case BigEndian =>
      [((x >> 56) & 0xff) as byte, ((x >> 48) & 0xff) as byte,
       ((x >> 40) & 0xff) as byte, ((x >> 32) & 0xff) as byte,
       ((x >> 24) & 0xff) as byte, ((x >> 16) & 0xff) as byte,
       ((x >> 8) & 0xff) as byte, (x & 0xff) as byte]
  }

  /** The reversal of a 2-byte representation, written out. */
  lemma Reverse2(b: seq<byte>)
    requires |b| == 2
    ensures Reverse(b) == [b[1], b[0]]
  {
    var r, d := Reverse(b), [b[1], b[0]];
    forall k | 0 <= k < 2 ensures r[k] == d[k] {
      ReverseAt(b, k);
    }
  }

  /** The reversal of a 4-byte representation, written out. */
  lemma Reverse4(b: seq<byte>)
    requires |b| == 4
    ensures Reverse(b) == [b[3], b[2], b[1], b[0]]
  {
    var r, d := Reverse(b), [b[3], b[2], b[1], b[0]];
    forall k | 0 <= k < 4 ensures r[k] == d[k] {
      ReverseAt(b, k);
    }
  }

  /** The reversal of an 8-byte representation, written out. */
  lemma Reverse8(b: seq<byte>)
    requires |b| == 8
    ensures Reverse(b) == [b[7], b[6], b[5], b[4], b[3], b[2], b[1], b[0]]
  {
    var lo, hi := b[..4], b[4..];
    assert b == lo + hi;
    ReverseAppend(lo, hi);
    Reverse4(lo);
    Reverse4(hi);
  }

  /** `ByteSwap<uint16_t>::apply` on a representation: load the value,
      apply the intrinsic, store the result. It reverses the two bytes. */
  lemma Swap16Reverses(order: ByteOrder, b: seq<byte>)
    requires |b| == 2
    ensures Store16(order, Bswap16(Load16(order, b))) == Reverse(b)
  {
    Reverse2(b);
    Bswap16Packed(b[0], b[1]);
    Bswap16Packed(b[1], b[0]);
    StorePacked16(b[1], b[0]);
  }

  /** `ByteSwap<uint32_t>::apply` reverses the four bytes. */
  lemma Swap32Reverses(order: ByteOrder, b: seq<byte>)
    requires |b| == 4
    ensures Store32(order, Bswap32(Load32(order, b))) == Reverse(b)
  {
    Reverse4(b);
    Bswap32Packed(b[0], b[1], b[2], b[3]);
    Bswap32Packed(b[3], b[2], b[1], b[0]);
    StorePacked32(b[3], b[2], b[1], b[0]);
  }

  /** `ByteSwap<uint64_t>::apply` reverses the eight bytes. */
  lemma Swap64Reverses(order: ByteOrder, b: seq<byte>)
    requires |b| == 8
    ensures Store64(order, Bswap64(Load64(order, b))) == Reverse(b)
  {
    Reverse8(b);
    Bswap64Packed(b[0], b[1], b[2], b[3], b[4], b[5], b[6], b[7]);
    Bswap64Packed(b[7], b[6], b[5], b[4], b[3], b[2], b[1], b[0]);
    StorePacked64(b[7], b[6], b[5], b[4], b[3], b[2], b[1], b[0]);
  }

  /** Storing the value loaded from a 2-byte representation gives the
      representation back: values and representations are in one-to-one
      correspondence. */
  lemma StoreLoad16(order: ByteOrder, b: seq<byte>)
    requires |b| == 2
    ensures Store16(order, Load16(order, b)) == b
  {
    assert b == [b[0], b[1]];
    StorePacked16(b[0], b[1]);
  }

  /** The same correspondence for 4-byte representations. */
  lemma StoreLoad32(order: ByteOrder, b: seq<byte>)
    requires |b| == 4
    ensures Store32(order, Load32(order, b)) == b
  {
    assert b == [b[0], b[1], b[2], b[3]];
    StorePacked32(b[0], b[1], b[2], b[3]);
  }

  /** The same correspondence for 8-byte representations. */
  lemma StoreLoad64(order: ByteOrder, b: seq<byte>)
    requires |b| == 8
    ensures Store64(order, Load64(order, b)) == b
  {
    assert b == [b[0], b[1], b[2], b[3], b[4], b[5], b[6], b[7]];
    StorePacked64(b[0], b[1], b[2], b[3], b[4], b[5], b[6], b[7]);
  }

  /** The value that bytes `b0`, `b1` have in a representation of either
      byte order is stored as those bytes again. */
  lemma StorePacked16(b0: byte, b1: byte)
    ensures Store16(LittleEndian, Pack16(b0, b1)) == [b0, b1]
    ensures Store16(BigEndian, Pack16(b1, b0)) == [b0, b1]
  {
    Unpack16(b0, b1);
    Unpack16(b1, b0);
  }

  /** The same for four bytes. */
  lemma StorePacked32(b0: byte, b1: byte, b2: byte, b3: byte)
    ensures Store32(LittleEndian, Pack32(b0, b1, b2, b3)) == [b0, b1, b2, b3]
    ensures Store32(BigEndian, Pack32(b3, b2, b1, b0)) == [b0, b1, b2, b3]
  {
    Unpack32(b0, b1, b2, b3);
    Unpack32(b3, b2, b1, b0);
  }

  /** The same for eight bytes. */
  lemma StorePacked64(b0: byte, b1: byte, b2: byte, b3: byte, b4: byte, b5: byte, b6: byte, b7: byte)
    ensures Store64(LittleEndian, Pack64(b0, b1, b2, b3, b4, b5, b6, b7)) == [b0, b1, b2, b3, b4, b5, b6, b7]
    ensures Store64(BigEndian, Pack64(b7, b6, b5, b4, b3, b2, b1, b0)) == [b0, b1, b2, b3, b4, b5, b6, b7]
  {
    Unpack64(b0, b1, b2, b3, b4, b5, b6, b7);
    Unpack64(b7, b6, b5, b4, b3, b2, b1, b0);
  }

  /** Each byte of a packed 16-bit value is recovered by shift and mask. */
  lemma Unpack16(b0: byte, b1: byte)
    ensures var x := Pack16(b0, b1);
      (x & 0xff) as byte == b0 && ((x >> 8) & 0xff) as byte == b1
  {
  }

  /** Each byte of a packed 32-bit value is recovered by shift and mask. */
  lemma Unpack32(b0: byte, b1: byte, b2: byte, b3: byte)
    ensures var x := Pack32(b0, b1, b2, b3);
      (x & 0xff) as byte == b0 && ((x >> 8) & 0xff) as byte == b1
      && ((x >> 16) & 0xff) as byte == b2 && ((x >> 24) & 0xff) as byte == b3
  {
  }

  /** Each byte of a packed 64-bit value is recovered by shift and mask. */
  lemma Unpack64(b0: byte, b1: byte, b2: byte, b3: byte, b4: byte, b5: byte, b6: byte, b7: byte)
    ensures var x := Pack64(b0, b1, b2, b3, b4, b5, b6, b7);
      (x & 0xff) as byte == b0 && ((x >> 8) & 0xff) as byte == b1
      && ((x >> 16) & 0xff) as byte == b2 && ((x >> 24) & 0xff) as byte == b3
      && ((x >> 32) & 0xff) as byte == b4 && ((x >> 40) & 0xff) as byte == b5
      && ((x >> 48) & 0xff) as byte == b6 && ((x >> 56) & 0xff) as byte == b7
  {
  }

  /** `Bswap16` exchanges the places of the two bytes of a value. */
  lemma Bswap16Packed(b0: byte, b1: byte)
    ensures Bswap16(Pack16(b0, b1)) == Pack16(b1, b0)
  {
  }

  /** `Bswap32` puts the four bytes of a value in the opposite places. */
  lemma Bswap32Packed(b0: byte, b1: byte, b2: byte, b3: byte)
    ensures Bswap32(Pack32(b0, b1, b2, b3)) == Pack32(b3, b2, b1, b0)
  {
  }

  /** `Bswap64` puts the eight bytes of a value in the opposite places. */
  lemma Bswap64Packed(b0: byte, b1: byte, b2: byte, b3: byte, b4: byte, b5: byte, b6: byte, b7: byte)
    ensures Bswap64(Pack64(b0, b1, b2, b3, b4, b5, b6, b7)) == Pack64(b7, b6, b5, b4, b3, b2, b1, b0)
  {
  }

  /** Read as big-endian, the reversed 2-byte representation has the value
      the original has when read as little-endian. */
  lemma LoadReversed16(b: seq<byte>)
    requires |b| == 2
    ensures Load16(BigEndian, Reverse(b)) == Load16(LittleEndian, b)
  {
    Reverse2(b);
  }

  /** The same for 4-byte representations. */
  lemma LoadReversed32(b: seq<byte>)
    requires |b| == 4
    ensures Load32(BigEndian, Reverse(b)) == Load32(LittleEndian, b)
  {
    Reverse4(b);
  }

  /** The same for 8-byte representations. */
  lemma LoadReversed64(b: seq<byte>)
    requires |b| == 8
    ensures Load64(BigEndian, Reverse(b)) == Load64(LittleEndian, b)
  {
    Reverse8(b);
  }
}
