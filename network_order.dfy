/** Host/network byte-order conversion: `safe_pun`, the
    `NetworkByteOrderTraits` for integers and for `double` (including hosts
    whose floating-point word order differs from their integer byte order),
    and the public `hton` / `ntoh`. Network order is big-endian. */
module NetworkOrder {
  import opened Bytes
  import opened Scalars
  import opened ByteSwap
  import Intrinsics

  /** The facts about the build target the conversions depend on: the
      integer byte order, whether `__FLOAT_WORD_ORDER` differs from
      `__BYTE_ORDER` (`OSVR_FLOAT_ORDER_MIXED`), and the intrinsics. */
  datatype Platform = Platform(order: ByteOrder, floatWordOrderMixed: bool, toolchain: Toolchain)

  // ---------------------------------------------------------------------
  // safe_pun

  /** The value of type `dest` whose representation is that of `src`. */
  function Pun(dest: ScalarType, src: Scalar): Scalar
    requires src.Valid() && dest.Size() == src.ty.Size()
  {
    Scalar(dest, src.image)
  }

  /** `safe_pun<Dest>(src)`: `memcpy` of `sizeof(src)` bytes into a local
      `Dest`, which is returned. The sizes must agree (the static assertion
      of the source). */
  method SafePun(dest: ScalarType, src: Scalar) returns (ret: Scalar)
    requires src.Valid() && dest.Size() == src.ty.Size()
    ensures ret.Valid() && ret.ty == dest && ret.image == src.image
    ensures ret == Pun(dest, src)
  {
    var buf := new byte[dest.Size()];
    Memcpy(buf, 0, src.image, 0, |src.image|);
    assert buf[..] == src.image;
    ret := Scalar(dest, buf[..]);
  }

  /** Punning to a type of the same size and back is the identity on every
      bit pattern. */
  lemma PunRoundTrip(u: ScalarType, src: Scalar)
    requires src.Valid() && u.Size() == src.ty.Size()
    ensures Pun(u, src).Valid()
    ensures Pun(src.ty, Pun(u, src)) == src
  {
  }

  // ---------------------------------------------------------------------
  // NetworkByteOrderTraits for integral types

  /** `NetworkByteOrderTraits<T>::hton` for an integral `T`:
      `NoOpHostNetworkConversion` on a big-endian host,
      `IntegerByteOrderSwap` (that is, `integerByteSwap`) on a
      little-endian one. The unqualified call in `IntegerByteOrderSwap` is
      read as calling the `integerByteSwap` template declared after it. */
  function IntegralHton(pf: Platform, v: Scalar): Scalar
    requires v.Valid() && v.ty.Integral?
  {
    match pf.order
    case BigEndian => v
    case LittleEndian => Scalar(v.ty, IntegerByteSwap(pf.toolchain, pf.order, v.ty.kind, v.image))
  }

  /** `NetworkByteOrderTraits<T>::ntoh` for an integral `T`: the identity
      on a big-endian host; `IntegerByteOrderSwap::ntoh`, which calls its
      `hton`, on a little-endian one. */
  function IntegralNtoh(pf: Platform, v: Scalar): Scalar
    requires v.Valid() && v.ty.Integral?
  {
    match pf.order
    case BigEndian => v
    case LittleEndian => IntegralHton(pf, v)
  }

  // ---------------------------------------------------------------------
  // NetworkByteOrderTraits<double>

  /** `TypePunByteOrder<double, uint64_t>::hton`: pun to `uint64_t`,
      convert with the integer traits, pun back. Its `ntoh` calls it. */
  function TypePunHton(pf: Platform, v: Scalar): Scalar
    requires v.Valid() && v.ty == Double
  {
    Pun(Double, IntegralHton(pf, Pun(Integral(UInt64), v)))
  }

  /** `NetworkByteOrderTraits<double>::hton`: the type-punning conversion,
      followed on a mixed-order host by the exchange of the two 4-byte
      words. Its `ntoh` calls it. */
  function DoubleHton(pf: Platform, v: Scalar): Scalar
    requires v.Valid() && v.ty == Double
  {
    var converted := TypePunHton(pf, v);
    if pf.floatWordOrderMixed then Scalar(Double, SwapWords(converted.image)) else converted
  }

  /** The mixed-order `hton` as written: convert the byte order, then
      `memcpy` the second word to the front of a local buffer and the first
      word behind it. */
  method MixedOrderDoubleHton(pf: Platform, v: Scalar) returns (ret: Scalar)
    requires v.Valid() && v.ty == Double && pf.floatWordOrderMixed
    ensures ret == DoubleHton(pf, v)
  {
    var src := TypePunHton(pf, v);
    var wordSize := 8 / 2;
    var buf := new byte[8];
    Memcpy(buf, 0, src.image, wordSize, wordSize);
    assert buf[..4] == src.image[4..];
    Memcpy(buf, wordSize, src.image, 0, wordSize);
    assert buf[..4] == src.image[4..] && buf[4..] == src.image[..4];
    assert buf[..] == buf[..4] + buf[4..];
    ret := Scalar(Double, buf[..]);
  }

  // ---------------------------------------------------------------------
  // Public entry points

  /** `hton(v)`: host to network (big-endian) order. The result has the
      type, and so the size, of the argument. */
  function Hton(pf: Platform, v: Scalar): (r: Scalar)
    requires v.Valid()
    ensures r.Valid() && r.ty == v.ty
  {
    match v.ty
    case Integral(_) => IntegralHton(pf, v)
    case Double => DoubleHton(pf, v)
  }

  /** `ntoh(v)`: network to host order. */
  function Ntoh(pf: Platform, v: Scalar): (r: Scalar)
    requires v.Valid()
    ensures r.Valid() && r.ty == v.ty
  {
    match v.ty
    case Integral(_) => IntegralNtoh(pf, v)
    case Double => DoubleHton(pf, v)
  }

  // ---------------------------------------------------------------------
  // Properties

  /** The integer traits are the identity on a big-endian host and reverse
      the representation on a little-endian one, whatever the toolchain. */
  lemma IntegralHtonByOrder(pf: Platform, v: Scalar)
    requires v.Valid() && v.ty.Integral?
    ensures IntegralHton(pf, v).ty == v.ty
    ensures IntegralHton(pf, v).image == if pf.order == LittleEndian then Reverse(v.image) else v.image
  {
    if pf.order == LittleEndian {
      IntegerByteSwapReverses(pf.toolchain, pf.order, v.ty.kind, v.image);
    }
  }

  /** The type-punning conversion of a `double` moves its bytes exactly as
      the integer conversion moves those of the `uint64_t` with the same
      bits. */
  lemma TypePunHtonByOrder(pf: Platform, v: Scalar)
    requires v.Valid() && v.ty == Double
    ensures TypePunHton(pf, v).ty == Double
    ensures TypePunHton(pf, v).image == if pf.order == LittleEndian then Reverse(v.image) else v.image
  {
    IntegralHtonByOrder(pf, Pun(Integral(UInt64), v));
  }

  /** On every platform and for every supported type, `ntoh` is `hton`. */
  lemma NtohIsHton(pf: Platform, v: Scalar)
    requires v.Valid()
    ensures Ntoh(pf, v) == Hton(pf, v)
  {
  }

  /** Every conversion is an involution, so `ntoh` undoes `hton` and
      `hton` undoes `ntoh`, on every bit pattern of every supported type,
      including the patterns of signed zeros, infinities and NaNs. */
  lemma RoundTrip(pf: Platform, v: Scalar)
    requires v.Valid()
    ensures Hton(pf, Hton(pf, v)) == v
    ensures Ntoh(pf, Hton(pf, v)) == v
    ensures Hton(pf, Ntoh(pf, v)) == v
  {
    var w := Hton(pf, v);
    NtohIsHton(pf, v);
    ReverseInvolutive(v.image);
    match v.ty
    case Integral(_) =>
      IntegralHtonByOrder(pf, v);
      IntegralHtonByOrder(pf, w);
    case Double =>
      TypePunHtonByOrder(pf, v);
      TypePunHtonByOrder(pf, w);
      if pf.floatWordOrderMixed {
        var t := TypePunHton(pf, v).image;
        SwapWordsInvolutive(t);
        if pf.order == LittleEndian {
          SwapWordsReverseCommute(SwapWords(t));
        }
      }
  }

  /** On a big-endian host the integer conversions are the identity. */
  lemma BigEndianIntegersUnchanged(pf: Platform, v: Scalar)
    requires v.Valid() && v.ty.Integral? && pf.order == BigEndian
    ensures Hton(pf, v) == v && Ntoh(pf, v) == v
  {
  }

  /** On a little-endian host both integer conversions are
      `integerByteSwap`, which reverses the representation. */
  lemma LittleEndianIntegersReversed(pf: Platform, v: Scalar)
    requires v.Valid() && v.ty.Integral? && pf.order == LittleEndian
    ensures Hton(pf, v).image == IntegerByteSwap(pf.toolchain, pf.order, v.ty.kind, v.image)
    ensures Hton(pf, v).image == Reverse(v.image)
    ensures Ntoh(pf, v) == Hton(pf, v)
  {
    IntegralHtonByOrder(pf, v);
  }

  /** `int8_t` and `uint8_t` values are unchanged by both conversions on
      every platform. */
  lemma OneByteUnchanged(pf: Platform, v: Scalar)
    requires v.Valid() && v.ty.Integral? && v.ty.Size() == 1
    ensures Hton(pf, v) == v && Ntoh(pf, v) == v
  {
    IntegralHtonByOrder(pf, v);
    assert v.image == [v.image[0]];
    assert Reverse(v.image) == Reverse(v.image[1..]) + [v.image[0]];
  }

  /** A signed and an unsigned integer of the same width and bit pattern
      are converted to the same bit pattern. */
  lemma SignednessParity(pf: Platform, k: IntKind, image: seq<byte>)
    requires |image| == k.Size()
    ensures Hton(pf, Scalar(Integral(k), image)).image == Hton(pf, Scalar(Integral(k.OppositeSign()), image)).image
  {
    IntegralHtonByOrder(pf, Scalar(Integral(k), image));
    IntegralHtonByOrder(pf, Scalar(Integral(k.OppositeSign()), image));
  }

  /** Without the word-order anomaly a `double` is converted exactly as the
      `uint64_t` with the same representation. */
  lemma DoubleConvertsAsUInt64(pf: Platform, v: Scalar)
    requires v.Valid() && v.ty == Double && !pf.floatWordOrderMixed
    ensures Hton(pf, v).image == Hton(pf, Scalar(Integral(UInt64), v.image)).image
  {
    TypePunHtonByOrder(pf, v);
    IntegralHtonByOrder(pf, Scalar(Integral(UInt64), v.image));
  }

  /** With the word-order anomaly on a little-endian host, converting a
      `double` reverses the bytes within each 4-byte word and keeps the
      words in place. */
  lemma MixedDoubleOnLittleEndian(pf: Platform, v: Scalar)
    requires v.Valid() && v.ty == Double && pf.floatWordOrderMixed && pf.order == LittleEndian
    ensures Hton(pf, v).image == ReverseWithinWords(v.image)
    ensures Ntoh(pf, v) == Hton(pf, v)
  {
    TypePunHtonByOrder(pf, v);
    SwapWordsOfReverse(v.image);
  }

  /** The network representation of an integer is the big-endian
      representation of its value on the host. */
  lemma IntegerWireIsBigEndian(pf: Platform, v: Scalar)
    requires v.Valid() && v.ty.Integral?
    ensures v.ty.Size() == 1 ==> Hton(pf, v).image == v.image
    ensures v.ty.Size() == 2 ==> Intrinsics.Load16(BigEndian, Hton(pf, v).image) == Intrinsics.Load16(pf.order, v.image)
    ensures v.ty.Size() == 4 ==> Intrinsics.Load32(BigEndian, Hton(pf, v).image) == Intrinsics.Load32(pf.order, v.image)
    ensures v.ty.Size() == 8 ==> Intrinsics.Load64(BigEndian, Hton(pf, v).image) == Intrinsics.Load64(pf.order, v.image)
  {
    IntegralHtonByOrder(pf, v);
    match v.ty.Size()
    case 1 => OneByteUnchanged(pf, v);
    case 2 => Intrinsics.LoadReversed16(v.image);
    case 4 => Intrinsics.LoadReversed32(v.image);
    case 8 => Intrinsics.LoadReversed64(v.image);
  }

  /** The IEEE-754 bit pattern of the `double` whose representation is
      `image`. On a host whose floating-point word order differs from its
      byte order, the two 4-byte words of a `double` are stored in the
      order opposite to the integer byte order. The pattern is only ever
      read as 64 bits; no floating-point value is computed. */
  function DoubleBits(pf: Platform, image: seq<byte>): bv64
    requires |image| == 8
  {
    Intrinsics.Load64(pf.order, if pf.floatWordOrderMixed then SwapWords(image) else image)
  }

  /** The network representation of a `double` is the big-endian
      representation of its bit pattern, on hosts of both byte orders, with
      and without the word-order anomaly. */
  lemma DoubleWireIsBigEndian(pf: Platform, v: Scalar)
    requires v.Valid() && v.ty == Double
    ensures Intrinsics.Load64(BigEndian, Hton(pf, v).image) == DoubleBits(pf, v.image)
  {
    TypePunHtonByOrder(pf, v);
    if pf.order == LittleEndian {
      if pf.floatWordOrderMixed {
        SwapWordsReverseCommute(v.image);
        Intrinsics.LoadReversed64(SwapWords(v.image));
      } else {
        Intrinsics.LoadReversed64(v.image);
      }
    }
  }

  /** The `uint32_t` stored as 0A 0B 0C 0D on a little-endian host is sent
      as 0D 0C 0B 0A, and read back unchanged. */
  lemma KnownVectorUInt32(tc: Toolchain)
    ensures var pf := Platform(LittleEndian, false, tc);
            var v := Scalar(Integral(UInt32), [0x0A, 0x0B, 0x0C, 0x0D]);
            Hton(pf, v).image == [0x0D, 0x0C, 0x0B, 0x0A] && Ntoh(pf, Hton(pf, v)) == v
  {
    var pf := Platform(LittleEndian, false, tc);
    var v := Scalar(Integral(UInt32), [0x0A, 0x0B, 0x0C, 0x0D]);
    LittleEndianIntegersReversed(pf, v);
    Intrinsics.Reverse4(v.image);
    RoundTrip(pf, v);
  }

  /** On a little-endian host with mixed word order, the `double` whose bit
      pattern is 0x0102030405060708 is stored as 04 03 02 01 08 07 06 05
      (high word first, each word little-endian) and sent as
      01 02 03 04 05 06 07 08. */
  lemma KnownVectorMixedDouble(tc: Toolchain)
    ensures var pf := Platform(LittleEndian, true, tc);
            var v := Scalar(Double, [0x04, 0x03, 0x02, 0x01, 0x08, 0x07, 0x06, 0x05]);
            DoubleBits(pf, v.image) == 0x0102_0304_0506_0708
            && Hton(pf, v).image == [0x01, 0x02, 0x03, 0x04, 0x05, 0x06, 0x07, 0x08]
  {
    var pf := Platform(LittleEndian, true, tc);
    var v := Scalar(Double, [0x04, 0x03, 0x02, 0x01, 0x08, 0x07, 0x06, 0x05]);
    var lo, hi := v.image[..4], v.image[4..];
    assert lo == [0x04, 0x03, 0x02, 0x01] && hi == [0x08, 0x07, 0x06, 0x05];
    MixedDoubleOnLittleEndian(pf, v);
    Intrinsics.Reverse4(lo);
    Intrinsics.Reverse4(hi);
    DoubleWireIsBigEndian(pf, v);
  }
}
