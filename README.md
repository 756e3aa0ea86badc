# Byte-order conversions (base/sys_byteorder.h)

This project models Chromium's `base/sys_byteorder.h` in Dafny, as vendored in naiveproxy. The header is a small library of pure functions on fixed-width unsigned integers:

- `ByteSwap` reverses the bytes of a 16, 32 or 64-bit value. `ByteSwapUintPtrT` does the same at the width of `uintptr_t`.
- `ByteSwapToLE16/32/64` convert host order to little-endian.
- `NetToHost16/32/64` convert network (big-endian) order to host order.
- `HostToNet16/32/64` convert host order to network order.

In the header, each conversion is `return x;` or `return numerics::ByteSwap(x);`. The build flag `ARCH_CPU_LITTLE_ENDIAN` picks which one. `base::ByteSwap` itself also forwards to `numerics::ByteSwap`.

Files:

- `bytes.dfy` (module `Bytes`) treats an n-byte value as n base-256 digits. It defines:
  - the little-endian and big-endian encodings and their decoders;
  - byte-sequence reversal;
  - `ByteAt(x, i) = (x / 256^i) % 256`, the arithmetic meaning of "byte i".

  It proves that the encodings round-trip and that big-endian order is little-endian order reversed.
- `sys_byteorder.dfy` (module `SysByteOrder`) models the header.
  - The integer types are `uint16`, `uint32` and `uint64`, which are bounded subsets of `int`.
  - `ARCH_CPU_LITTLE_ENDIAN` becomes a parameter `host: Endianness`, so every function and lemma covers both build configurations.
  - The width of `uintptr_t` becomes a parameter `width: PointerWidth` (32 or 64 bits). A `uintptr_t` value is a `uint64`, and `ByteSwapUintPtrT` requires it to be below 2^32 when the width is 32.
  - `NativeBytes(v, n, host)` models host memory. It gives the bytes that a host with that byte order stores for the n-byte value `v`, lowest address first.
  - The conversions are specified in terms of `NativeBytes`:
    - `ByteSwapToLE` returns a value that the host stores as the little-endian bytes of `x`.
    - `HostToNet` returns a value that the host stores as the big-endian bytes of `x`.
    - `NetToHost` returns the value whose big-endian bytes are how the host stores `x`.

  The `LayoutDetermines` lemmas prove that these layout contracts fully determine each conversion.

Byte reversal itself is implemented in `base/numerics/byte_conversions.h`, which is not part of this model. `ByteSwapN` defines it from the header's own comment: the value with all its bytes swapped, which reverses the endianness. It splits the value into its n little-endian bytes, reverses them, and recombines them.

## Model

| member | source | states |
|---|---|---|
| SysByteOrder.ByteSwapN | src/base/sys_byteorder.h:25 | The n-byte value with its n bytes in reverse order; the result is below 256^n |
| SysByteOrder.ByteSwapNReversesBytes | src/base/sys_byteorder.h:25 | At any width n, byte k of the swapped value is byte n-1-k of the input, for every k < n |
| SysByteOrder.ByteSwapNLittleEndian | src/base/sys_byteorder.h:25 | Swapping reverses the endianness: the little-endian bytes of the swapped value are the big-endian bytes of the input |
| SysByteOrder.ByteSwapNBigEndian | src/base/sys_byteorder.h:25 | The big-endian bytes of the swapped value are the little-endian bytes of the input |
| SysByteOrder.ByteSwapNInvolution | src/base/sys_byteorder.h:25 | At any width, swapping twice gives back every input |
| SysByteOrder.ByteSwapNFixedPoint | src/base/sys_byteorder.h:25 | The swap leaves x unchanged if and only if the bytes of x form a palindrome |
| SysByteOrder.ByteSwapNUniform | src/base/sys_byteorder.h:25 | A value whose bytes are all equal is a fixed point of the swap |
| SysByteOrder.ByteSwap16 | src/base/sys_byteorder.h:25-30 | The 16-bit result is (x mod 256)·256 + x div 256, and its byte k is byte 1-k of x |
| SysByteOrder.ByteSwap32 | src/base/sys_byteorder.h:32-35 | The 32-bit result has byte k equal to byte 3-k of x, for k in 0..3 |
| SysByteOrder.ByteSwap64 | src/base/sys_byteorder.h:37-40 | The 64-bit result has byte k equal to byte 7-k of x, for k in 0..7 |
| SysByteOrder.ByteSwapUintPtrT | src/base/sys_byteorder.h:42-45 | At pointer width 32 it equals ByteSwap32, and at pointer width 64 it equals ByteSwap64 |
| SysByteOrder.ByteSwapInvolution | src/base/sys_byteorder.h:25-40 | ByteSwap16, ByteSwap32 and ByteSwap64 are each their own inverse on every input |
| SysByteOrder.ByteSwap16FixedPoints | src/base/sys_byteorder.h:27-30 | ByteSwap16(x) == x if and only if the two bytes of x are equal; 0 and 0xFFFF are fixed points |
| SysByteOrder.ByteSwap32FixedPoints | src/base/sys_byteorder.h:32-35 | ByteSwap32(x) == x if and only if the bytes of x form a palindrome; 0 and 0xFFFFFFFF are fixed points |
| SysByteOrder.ByteSwap64FixedPoints | src/base/sys_byteorder.h:37-40 | ByteSwap64(x) == x if and only if the bytes of x form a palindrome; 0 and all-ones are fixed points |
| SysByteOrder.ByteSwapExamples | src/base/sys_byteorder.h:27-35 | 0x1234 becomes 0x3412 and 0x12345678 becomes 0x78563412; 0x11222211 is unchanged |
| SysByteOrder.ByteSwap64Example | src/base/sys_byteorder.h:37-40 | 0x1122334455667788 becomes 0x8877665544332211 |
| SysByteOrder.ByteSwapToLE16 | src/base/sys_byteorder.h:47-55 | Whatever the host order, the host stores the result as the little-endian bytes of x |
| SysByteOrder.ByteSwapToLE32 | src/base/sys_byteorder.h:56-62 | Whatever the host order, the host stores the result as the little-endian bytes of x |
| SysByteOrder.ByteSwapToLE64 | src/base/sys_byteorder.h:63-69 | Whatever the host order, the host stores the result as the little-endian bytes of x |
| SysByteOrder.ByteSwapToLEInvolution | src/base/sys_byteorder.h:47-69 | On either host, ByteSwapToLE16, ByteSwapToLE32 and ByteSwapToLE64 are each their own inverse, so each is a bijection |
| SysByteOrder.NetToHost16 | src/base/sys_byteorder.h:71-79 | The way the host stores x is the network (big-endian) encoding of the result |
| SysByteOrder.NetToHost32 | src/base/sys_byteorder.h:80-86 | The way the host stores x is the network (big-endian) encoding of the result |
| SysByteOrder.NetToHost64 | src/base/sys_byteorder.h:87-93 | The way the host stores x is the network (big-endian) encoding of the result |
| SysByteOrder.HostToNet16 | src/base/sys_byteorder.h:95-103 | Whatever the host order, the host stores the result as the network (big-endian) bytes of x |
| SysByteOrder.HostToNet32 | src/base/sys_byteorder.h:104-110 | Whatever the host order, the host stores the result as the network (big-endian) bytes of x |
| SysByteOrder.HostToNet64 | src/base/sys_byteorder.h:111-117 | Whatever the host order, the host stores the result as the network (big-endian) bytes of x |
| SysByteOrder.LayoutDetermines16 | src/base/sys_byteorder.h:47-103 | For 16-bit values, r is each conversion of x if and only if the host stores r (or x, for NetToHost) in the byte order that conversion promises |
| SysByteOrder.LayoutDetermines32 | src/base/sys_byteorder.h:56-110 | The same if-and-only-if for the 32-bit conversions |
| SysByteOrder.LayoutDetermines64 | src/base/sys_byteorder.h:63-117 | The same if-and-only-if for the 64-bit conversions |
| SysByteOrder.NetHostRoundTrip16 | src/base/sys_byteorder.h:73-103 | On either host, HostToNet16 equals NetToHost16, and each undoes the other |
| SysByteOrder.NetHostRoundTrip32 | src/base/sys_byteorder.h:80-110 | On either host, HostToNet32 equals NetToHost32, and each undoes the other |
| SysByteOrder.NetHostRoundTrip64 | src/base/sys_byteorder.h:87-117 | On either host, HostToNet64 equals NetToHost64, and each undoes the other |
| SysByteOrder.ConversionsByHost | src/base/sys_byteorder.h:49-93 | On a little-endian host, ByteSwapToLE is the identity and NetToHost is ByteSwap. On a big-endian host it is the other way round |

These members support the proofs and need no row:

- `Bytes`: encoding round trips, injectivity, reversal lemmas, and division facts.
- `SysByteOrder`: `NativeBytes`, `NativeBytesInjective`, `AllOnesBytes`, `WidthBounds`, and the two example helpers.

At 16 bits, ByteSwap changes every value whose two bytes differ. At 32 and 64 bits this is not so: any value whose bytes form a palindrome, such as 0x11222211, stays the same. `ByteSwap16FixedPoints`, `ByteSwap32FixedPoints`, `ByteSwap64FixedPoints` and `ByteSwapExamples` prove the exact condition.

## Left out

- The implementation of `numerics::ByteSwap` (src/base/sys_byteorder.h:16): `base/numerics/byte_conversions.h` is not part of this model. Byte reversal is defined from its documented meaning instead, so how it is computed (shifts, masks or a compiler intrinsic) is not modelled.
- `constexpr`, inlining, and the expectation that a swap compiles to a single instruction: these are about performance and compile-time evaluation, and have no functional content.
- Host byte-order detection in `build/build_config.h`: the flag `ARCH_CPU_LITTLE_ENDIAN` is an explicit parameter, and every result holds for both values.
- The MSVC-only `<stdlib.h>` include (src/base/sys_byteorder.h:19-21) and the trailing `#undef constexpr` (src/base/sys_byteorder.h:121): these are compiler plumbing with no behaviour.
- Concurrency: every function is stateless, so there is nothing to model.
