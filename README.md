# Host/network byte-order conversion, modelled in Dafny

This project models the byte-order conversion engine of OSVR-Core
(`inc/osvr/Common/Endianness.h`). The engine converts fixed-width scalars
between host order and network order, which is big-endian. The scalars are
the eight fixed-width integers and `double`. The model proves that the
conversions are involutions and that the wire representation is big-endian.

A value is modelled by its object representation: the `sizeof(T)` bytes it
occupies in memory, in host order (`Scalars.Scalar`). The facts the build
decides at compile time are parameters (`NetworkOrder.Platform`):

- the host's integer byte order;
- whether the floating-point word order differs from it (`OSVR_FLOAT_ORDER_MIXED`);
- which byte-swap intrinsics the toolchain has (`ByteSwap.Toolchain`).

Modules, leaves first:

- `Bytes` (`bytes.dfy`) holds the reference reversal `Reverse`, the word exchange `SwapWords` and a `memcpy` loop.
- `Scalars` (`scalars.dfy`) holds the integer kinds, their sizes and signedness, and the opposite-signedness type.
- `Intrinsics` (`intrinsics.dfy`) defines `__bswap_16/32/64` and `_byteswap_*` by shift and mask on bit-vectors. It converts between an unsigned value and its representation in either byte order, and proves that each intrinsic reverses the representation.
- `ByteSwap` (`byte_swap.dfy`) models the `ByteSwap<T>` specialisations and `genericByteSwap`, the overload choice of `integerByteSwapImpl`, and `integerByteSwap`.
- `NetworkOrder` (`network_order.dfy`) models `safe_pun`, the `NetworkByteOrderTraits` for integers, for `double` and for mixed-order `double`, and the public `hton` and `ntoh`.

Template dispatch appears as explicit case splits. Sizes are requirements:
`|image| == sizeof(T)` and, for `safe_pun`, equal sizes. The loops of
`genericByteSwap`, `safe_pun` and the mixed-order `hton` are methods over
arrays. Each is proved equal to the function that the pure code paths use.

## Model

| member | source | states |
|---|---|---|
| `Bytes.ReverseAt` | inc/osvr/Common/Endianness.h:138-143 | byte `i` of the reversed representation is input byte `sizeof(T) - 1 - i` |
| `Bytes.ReverseInvolutive` | inc/osvr/Common/Endianness.h:112-143 | reversing a representation twice restores every byte, for every width |
| `Bytes.SwapWordsInvolutive` | inc/osvr/Common/Endianness.h:344-357 | exchanging the two halves of an even-length representation twice restores it |
| `Bytes.SwapWordsOfReverse` | inc/osvr/Common/Endianness.h:345-356 | a full reversal followed by the word exchange reverses the bytes within each word and keeps the words in place |
| `Bytes.Memcpy` | inc/osvr/Common/Endianness.h:350-354 | `memcpy` copies `n` bytes verbatim to the given offset and leaves the rest of the destination unchanged |
| `Scalars.IntKind.OppositeSign` | inc/osvr/Common/Endianness.h:306-310 | the opposite-signedness type has the same size and the other signedness |
| `Intrinsics.Store16` | inc/osvr/Common/Endianness.h:127-129 | the representation stored for a `uint16_t` value loads back as that value, in either byte order |
| `Intrinsics.Store32` | inc/osvr/Common/Endianness.h:131-133 | the representation stored for a `uint32_t` value loads back as that value |
| `Intrinsics.Store64` | inc/osvr/Common/Endianness.h:134-136 | the representation stored for a `uint64_t` value loads back as that value |
| `Intrinsics.StoreLoad16` | inc/osvr/Common/Endianness.h:127-129 | storing the value loaded from a 2-byte representation gives the representation back, so values and representations correspond one to one |
| `Intrinsics.StoreLoad32` | inc/osvr/Common/Endianness.h:131-133 | the same one-to-one correspondence for 4-byte representations |
| `Intrinsics.StoreLoad64` | inc/osvr/Common/Endianness.h:134-136 | the same one-to-one correspondence for 8-byte representations |
| `Intrinsics.Swap16Reverses` | inc/osvr/Common/Endianness.h:112-129 | `_byteswap_ushort` / `__bswap_16`, applied to the value a representation holds, reverses the representation on either host order |
| `Intrinsics.Swap32Reverses` | inc/osvr/Common/Endianness.h:118-133 | `_byteswap_ulong` / `__bswap_32` reverses the four bytes of the representation |
| `Intrinsics.Swap64Reverses` | inc/osvr/Common/Endianness.h:121-136 | `_byteswap_uint64` / `__bswap_64` reverses the eight bytes of the representation |
| `Intrinsics.LoadReversed32` | inc/osvr/Common/Endianness.h:326-330 | the reversed representation read big-endian has the value of the original read little-endian (ABCD versus DCBA) |
| `ByteSwap.ApplyReverses` | inc/osvr/Common/Endianness.h:100-136 | every explicit `ByteSwap<T>::apply` reverses the representation; for `int8_t` and `uint8_t` it returns it unchanged |
| `ByteSwap.GenericByteSwap` | inc/osvr/Common/Endianness.h:138-144 | the fallback returns a buffer of the same size whose byte `i` is input byte `sizeof(T) - 1 - i`, with the missing return supplied |
| `ByteSwap.GenericByteSwapAsWritten` | inc/osvr/Common/Endianness.h:138-144 | as written, the buffer is filled with the reversed bytes but no value is returned |
| `ByteSwap.PathsAgree` | inc/osvr/Common/Endianness.h:147-179 | wherever the exact or the opposite-signedness swapper exists, it yields the generic fallback's result, the reversed representation |
| `ByteSwap.PathSelection` | inc/osvr/Common/Endianness.h:147-179 | with intrinsics, the signed 2-, 4- and 8-byte integers take the opposite-signedness overload; without them, every integer wider than one byte reaches `genericByteSwap` |
| `ByteSwap.IntegerByteSwapReverses` | inc/osvr/Common/Endianness.h:301-318 | `integerByteSwap` reverses the representation on every toolchain and host order, whichever overload is chosen |
| `ByteSwap.IntegerByteSwapInvolutive` | inc/osvr/Common/Endianness.h:301-318 | `integerByteSwap` applied twice restores the value, for every width |
| `ByteSwap.SignednessParity` | inc/osvr/Common/Endianness.h:158-167 | a signed and an unsigned integer of equal width with the same bits swap to the same bits |
| `NetworkOrder.SafePun` | inc/osvr/Common/Endianness.h:184-191 | `safe_pun` returns a value of the destination type whose representation is the source's, byte for byte |
| `NetworkOrder.PunRoundTrip` | inc/osvr/Common/Endianness.h:184-191 | punning to a type of the same size and back is the identity on every bit pattern |
| `NetworkOrder.MixedOrderDoubleHton` | inc/osvr/Common/Endianness.h:345-356 | the mixed-order `hton` is the type-punning conversion followed by exchanging the two 4-byte words |
| `NetworkOrder.Hton` | inc/osvr/Common/Endianness.h:370-373 | `hton` keeps the type and so the size of its argument |
| `NetworkOrder.Ntoh` | inc/osvr/Common/Endianness.h:365-368 | `ntoh` keeps the type and so the size of its argument |
| `NetworkOrder.IntegralHtonByOrder` | inc/osvr/Common/Endianness.h:320-331 | integer traits are the identity on a big-endian host and reverse the representation on a little-endian one |
| `NetworkOrder.TypePunHtonByOrder` | inc/osvr/Common/Endianness.h:207-221 | pun to `uint64_t`, convert, pun back moves a `double`'s bytes as the integer conversion moves a `uint64_t`'s |
| `NetworkOrder.NtohIsHton` | inc/osvr/Common/Endianness.h:195-221 | for every supported type and platform, `ntoh` equals `hton` |
| `NetworkOrder.RoundTrip` | inc/osvr/Common/Endianness.h:365-373 | `hton` is an involution and `ntoh(hton(v)) == v == hton(ntoh(v))` for every bit pattern of every supported type, mixed-order doubles included |
| `NetworkOrder.BigEndianIntegersUnchanged` | inc/osvr/Common/Endianness.h:320-324 | on a big-endian host, integer `hton` and `ntoh` are the identity |
| `NetworkOrder.LittleEndianIntegersReversed` | inc/osvr/Common/Endianness.h:326-330 | on a little-endian host, integer `hton` is `integerByteSwap`, which is full reversal, and `ntoh` equals it |
| `NetworkOrder.OneByteUnchanged` | inc/osvr/Common/Endianness.h:100-110 | `int8_t` and `uint8_t` values are unchanged by both conversions on every platform |
| `NetworkOrder.SignednessParity` | inc/osvr/Common/Endianness.h:301-318 | through `hton`, signed and unsigned integers with the same width and bits give the same bits |
| `NetworkOrder.DoubleConvertsAsUInt64` | inc/osvr/Common/Endianness.h:359-362 | without the word-order anomaly, a `double` converts exactly as the `uint64_t` with the same representation |
| `NetworkOrder.MixedDoubleOnLittleEndian` | inc/osvr/Common/Endianness.h:340-358 | with the anomaly on a little-endian host, conversion reverses the bytes within each 4-byte word and keeps the words in place; `ntoh` equals it |
| `NetworkOrder.IntegerWireIsBigEndian` | inc/osvr/Common/Endianness.h:370-373 | the network representation of every integer is the big-endian representation of its host value |
| `NetworkOrder.DoubleWireIsBigEndian` | inc/osvr/Common/Endianness.h:340-362 | the network representation of every `double` is the big-endian representation of its 64-bit pattern, with and without the word-order anomaly |
| `NetworkOrder.KnownVectorUInt32` | inc/osvr/Common/Endianness.h:326-330 | on a little-endian host, where the integer traits are `IntegerByteOrderSwap` (lines 201-204) and `hton` dispatches to them (lines 370-373), the `uint32_t` stored as 0A 0B 0C 0D is sent as 0D 0C 0B 0A and reads back unchanged |
| `NetworkOrder.KnownVectorMixedDouble` | inc/osvr/Common/Endianness.h:340-358 | on a mixed-order little-endian host, the `double` with bits 0x0102030405060708, stored as 04 03 02 01 08 07 06 05, is sent as 01 02 … 08 |

## Left out

- Platform detection is a parameter, not derived (lines 28-79 decide it with Boost.Predef and `__FLOAT_WORD_ORDER`). The model covers all combinations of byte order, word-order anomaly and intrinsics.
- `osvr/Common/ConfigByteSwapping.h` is not part of this model. Whether `<byteswap.h>` exists is the `Toolchain` parameter.
- The intrinsics are foreign calls. They are given their documented shift-and-mask definitions. Both intrinsic families compute the same function, so one definition per width serves both.
- `float` conversion is compiled out (lines 333-338). No `float` type is modelled.
- Doubles are 8-byte patterns only. No floating-point value is computed.
- These are on no conversion path, so they are not modelled: `ByteOrderNoOp` (92-94), `Factorial`, `ByteOrders`, `Permutations`, `SwapHalves` and `LocalByteOrder` (223-291).
- Types without a traits specialisation are rejected at compile time. Such types cannot be expressed in the model, so the rejection has no counterpart.
- Only the eight fixed-width integer types are modelled. The model does not follow how `bool`, the `char` types, or `long long` (where it is a distinct type from `int64_t`) choose an overload.
- `static_cast` between same-width integers of opposite signedness keeps the two's-complement bit pattern. The model passes the representation through unchanged and does not model signed numeric values.
- NetworkOrder.IntegralHton: treats the unqualified call `integerByteSwap(v)` in `IntegerByteOrderSwap::hton` (line 202) as a call of the template declared later, at line 301. Under two-phase name lookup a conforming compiler does not find that later declaration for a fundamental `T`, since argument-dependent lookup adds no namespaces for it. So only a permissive compiler builds the little-endian integer traits as written; the model follows that reading.
- `inc/osvr/Common/InterfaceCallbacks.h` stores and invokes user callbacks and has no byte-order logic, so it is not part of this model.

## Findings

| source | as written | input that shows it | evidently intended | confidence | as-written member | corrected member |
|---|---|---|---|---|---|---|
| inc/osvr/Common/Endianness.h:138-144 | `genericByteSwap` fills `ret` with the reversed bytes, then reaches the end of a function returning `T` with no `return` statement. The returned value is undefined behaviour. | A build with neither intrinsic family: a direct call of the public `integerByteSwap<uint32_t>` (lines 301-318) on the value stored as 0A 0B 0C 0D selects the overload at line 178 and so reaches this function, and so does every integer wider than one byte (`ByteSwap.PathSelection`). | `return ret;` gives 0D 0C 0B 0A. | high, not executed | `ByteSwap.GenericByteSwapAsWritten` | `ByteSwap.GenericByteSwap` |
