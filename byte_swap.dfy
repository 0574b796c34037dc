/** Byte swapping of fixed-width integers: the `ByteSwap<T>` strategies the
    toolchain provides, the portable fallback `genericByteSwap`, and
    `integerByteSwap`, which picks one of three `integerByteSwapImpl`
    overloads by which strategies exist for `T` and for the integer of the
    same width and opposite signedness. */
module ByteSwap {
  import opened Bytes
  import opened Scalars
  import Intrinsics

  datatype Option<T> = None | Some(value: T)

  /** Which byte-swap intrinsics the build has: MSVC's `_byteswap_*`
      (`OSVR_HAVE_MSC_BYTESWAPS`), `<byteswap.h>`'s `__bswap_*`
      (`OSVR_HAVE_BYTESWAP_H`), or neither. */
  datatype Toolchain = MsvcIntrinsics | ByteswapHeader | Portable

  /** `ByteSwap<T>` is explicitly specialized (derives from
      `boost::true_type`): always for the two 1-byte integers, and for the
      three wider unsigned integers when the toolchain has intrinsics. */
  predicate IsSpecialized(tc: Toolchain, k: IntKind)
  {
    k == UInt8 || k == Int8 || (!tc.Portable? && (k == UInt16 || k == UInt32 || k == UInt64))
  }

  /** `ByteSwap<T>::apply` for a specialized `T`, on the representation `v`
      of its argument: `NoOpFunction` for 1-byte integers, otherwise the
      intrinsic applied to the value `v` holds on a host of byte order
      `order`. The MSVC and `<byteswap.h>` intrinsics compute the same
      function. */
  function Apply(tc: Toolchain, order: ByteOrder, k: IntKind, v: seq<byte>): seq<byte>
    requires IsSpecialized(tc, k) && |v| == k.Size()
  {
    match k
    case UInt8 | Int8 => v
    case UInt16 => Intrinsics.Store16(order, Intrinsics.Bswap16(Intrinsics.Load16(order, v)))
    case UInt32 => Intrinsics.Store32(order, Intrinsics.Bswap32(Intrinsics.Load32(order, v)))
    case UInt64 => Intrinsics.Store64(order, Intrinsics.Bswap64(Intrinsics.Load64(order, v)))
  }

  /** Every specialized strategy reverses the representation; for 1-byte
      integers that leaves it unchanged. */
  lemma ApplyReverses(tc: Toolchain, order: ByteOrder, k: IntKind, v: seq<byte>)
    requires IsSpecialized(tc, k) && |v| == k.Size()
    ensures Apply(tc, order, k, v) == Reverse(v)
    ensures k.Size() == 1 ==> Apply(tc, order, k, v) == v
  {
    match k
    case UInt8 | Int8 =>
      assert v == [v[0]];
      assert Reverse(v) == Reverse(v[1..]) + [v[0]];
    case UInt16 => Intrinsics.Swap16Reverses(order, v);
    case UInt32 => Intrinsics.Swap32Reverses(order, v);
    case UInt64 => Intrinsics.Swap64Reverses(order, v);
  }

  /** `genericByteSwap`: fills a local buffer byte by byte from the far end
      of the argument, and returns that buffer. */
  method GenericByteSwap(v: seq<byte>) returns (r: seq<byte>)
    ensures r == Reverse(v)
  {
    var ret := new byte[|v|];
    for i := 0 to |v|
      invariant forall j :: 0 <= j < i ==> ret[j] == v[|v| - 1 - j]
    {
      ret[i] := v[|v| - 1 - i];
    }
    r := ret[..];
    forall k | 0 <= k < |v|
      ensures r[k] == Reverse(v)[k]
    {
      ReverseAt(v, k);
    }
  }

  /** `genericByteSwap` as it is written: the buffer is filled, but control
      then reaches the end of a function returning `T` without a `return`
      statement, so no value reaches the caller (`None`). The ghost
      `filled` is the discarded buffer. */
  method GenericByteSwapAsWritten(v: seq<byte>) returns (result: Option<seq<byte>>, ghost filled: seq<byte>)
    ensures result.None?
    ensures filled == Reverse(v)
  {
    var ret := new byte[|v|];
    for i := 0 to |v|
      invariant forall j :: 0 <= j < i ==> ret[j] == v[|v| - 1 - j]
    {
      ret[i] := v[|v| - 1 - i];
    }
    filled := ret[..];
    forall k | 0 <= k < |v|
      ensures filled[k] == Reverse(v)[k]
    {
      ReverseAt(v, k);
    }
    result := None;
  }

  /** The three overloads of `integerByteSwapImpl`. */
  datatype SwapPath =
    | ExactMatch          // enable_if<ByteSwapper>
    | OppositeSignedness  // disable_if<ByteSwapper>, enable_if<OppositeByteSwapper>
    | NoSpecialization    // disable_if<ByteSwapper>, disable_if<OppositeByteSwapper>

  /** The overload that `enable_if`/`disable_if` leave viable for `T`. */
  function SelectPath(tc: Toolchain, k: IntKind): SwapPath
  {
    if IsSpecialized(tc, k) then ExactMatch
    else if IsSpecialized(tc, k.OppositeSign()) then OppositeSignedness
    else NoSpecialization
  }

  /** `integerByteSwap(v)` for an integer of kind `k` whose representation
      is `v`. On the opposite-signedness path the value is converted with
      `static_cast` to the integer of the same width and other signedness,
      swapped, and converted back; for same-width integers these
      conversions keep the two's-complement bit pattern, so the
      representation passes through unchanged. The fallback path is
      `genericByteSwap`, whose result `GenericByteSwap` proves to be
      `Reverse(v)`. */
  function IntegerByteSwap(tc: Toolchain, order: ByteOrder, k: IntKind, v: seq<byte>): seq<byte>
    requires |v| == k.Size()
  {
    match SelectPath(tc, k)
    case ExactMatch => Apply(tc, order, k, v)
    case OppositeSignedness => Apply(tc, order, k.OppositeSign(), v)
    case NoSpecialization => Reverse(v)
  }

  /** The three paths agree: wherever the exact strategy or the
      opposite-signedness strategy exists, it yields what the generic
      fallback yields, the reversed representation. */
  lemma PathsAgree(tc: Toolchain, order: ByteOrder, k: IntKind, v: seq<byte>)
    requires |v| == k.Size()
    ensures IsSpecialized(tc, k) ==> Apply(tc, order, k, v) == Reverse(v)
    ensures IsSpecialized(tc, k.OppositeSign()) ==> Apply(tc, order, k.OppositeSign(), v) == Reverse(v)
  {
    if IsSpecialized(tc, k) {
      ApplyReverses(tc, order, k, v);
    }
    if IsSpecialized(tc, k.OppositeSign()) {
      ApplyReverses(tc, order, k.OppositeSign(), v);
    }
  }

  /** Whichever overload is chosen, `integerByteSwap` reverses the
      representation, on every toolchain and host byte order. */
  lemma IntegerByteSwapReverses(tc: Toolchain, order: ByteOrder, k: IntKind, v: seq<byte>)
    requires |v| == k.Size()
    ensures IntegerByteSwap(tc, order, k, v) == Reverse(v)
  {
    PathsAgree(tc, order, k, v);
  }

  /** Swapping twice restores every representation, for every width. */
  lemma IntegerByteSwapInvolutive(tc: Toolchain, order: ByteOrder, k: IntKind, v: seq<byte>)
    requires |v| == k.Size()
    ensures IntegerByteSwap(tc, order, k, IntegerByteSwap(tc, order, k, v)) == v
  {
    IntegerByteSwapReverses(tc, order, k, v);
    IntegerByteSwapReverses(tc, order, k, Reverse(v));
    ReverseInvolutive(v);
  }

  /** A signed and an unsigned integer of the same width with the same bit
      pattern are swapped to the same bit pattern, although their
      overloads may differ. */
  lemma SignednessParity(tc: Toolchain, order: ByteOrder, k: IntKind, v: seq<byte>)
    requires |v| == k.Size()
    ensures IntegerByteSwap(tc, order, k, v) == IntegerByteSwap(tc, order, k.OppositeSign(), v)
  {
    IntegerByteSwapReverses(tc, order, k, v);
    IntegerByteSwapReverses(tc, order, k.OppositeSign(), v);
  }

  /** With intrinsics, the signed 2-, 4- and 8-byte integers take the
      opposite-signedness overload; without them every integer wider than
      one byte reaches `genericByteSwap`. */
  lemma PathSelection(tc: Toolchain, k: IntKind)
    requires k.Size() > 1
    ensures tc.Portable? <==> SelectPath(tc, k) == NoSpecialization
    ensures !tc.Portable? ==> (SelectPath(tc, k) == OppositeSignedness <==> k.IsSigned())
  {
  }
}
