/**
  Byte-order conversions of base/sys_byteorder.h.

  The header offers ByteSwap for 16, 32 and 64-bit values and for uintptr_t,
  and three families of conditional conversions (ByteSwapToLE, NetToHost,
  HostToNet), each of which is either the identity or ByteSwap depending on
  whether the build target is little-endian. Here the build flag
  ARCH_CPU_LITTLE_ENDIAN is the parameter `host`, so both build
  configurations are verified, and the width of uintptr_t is the parameter
  `width`.

  What the conversions mean is stated against a model of host memory:
  NativeBytes(v, n, host) is the sequence of bytes, lowest address first,
  that a host of the given byte order stores for the n-byte value v.
 */
module SysByteOrder {
  import opened Bytes

  type uint16 = x: int | 0 <= x < 0x1_0000
  type uint32 = x: int | 0 <= x < 0x1_0000_0000
  type uint64 = x: int | 0 <= x < 0x1_0000_0000_0000_0000

  /** The byte order of the build target (ARCH_CPU_LITTLE_ENDIAN defined or not). */
  datatype Endianness = LittleEndian | BigEndian

  /** The width of uintptr_t on the build target. */
  datatype PointerWidth = Pointer32 | Pointer64 {
    function ByteCount(): nat {
      if Pointer32? then 4 else 8
    }
  }

  /** The bytes of the n-byte value v in memory order on a host of byte order `host`. */
  function NativeBytes(v: nat, n: nat, host: Endianness): (bs: seq<Byte>)
    ensures |bs| == n
  {
    match host
    case LittleEndian => LittleEndianBytes(v, n)
    case BigEndian => BigEndianBytes(v, n)
  }

  /** A host stores distinct n-byte values as distinct byte sequences. */
  lemma NativeBytesInjective(a: nat, b: nat, n: nat, host: Endianness)
    requires a < Pow256(n) && b < Pow256(n)
    requires NativeBytes(a, n, host) == NativeBytes(b, n, host)
    ensures a == b
  {
    match host
    case LittleEndian => LittleEndianInjective(a, b, n);
    case BigEndian => BigEndianInjective(a, b, n);
  }

  // ---------------------------------------------------------------------------
  // Byte reversal at any width (the templated numerics::ByteSwap)

  /** The n-byte value x with its n bytes in the opposite order. */
  function ByteSwapN(x: nat, n: nat): (r: nat)
    requires x < Pow256(n)
    ensures r < Pow256(n)
  {
    FromLittleEndian(Reverse(LittleEndianBytes(x, n)))
  }

  /** The little-endian bytes of the swapped value are the big-endian bytes of x. */
  lemma ByteSwapNLittleEndian(x: nat, n: nat)
    requires x < Pow256(n)
    ensures LittleEndianBytes(ByteSwapN(x, n), n) == BigEndianBytes(x, n)
  {
    LittleEndianOfValue(Reverse(LittleEndianBytes(x, n)));
    BigEndianIsReversedLittleEndian(x, n);
  }

  /** The big-endian bytes of the swapped value are the little-endian bytes of x. */
  lemma ByteSwapNBigEndian(x: nat, n: nat)
    requires x < Pow256(n)
    ensures BigEndianBytes(ByteSwapN(x, n), n) == LittleEndianBytes(x, n)
  {
    var y := ByteSwapN(x, n);
    ByteSwapNLittleEndian(x, n);
    BigEndianIsReversedLittleEndian(y, n);
    BigEndianIsReversedLittleEndian(x, n);
    ReverseReverse(LittleEndianBytes(x, n));
  }

  /** Byte k of the swapped value is byte n - 1 - k of x. */
  lemma ByteSwapNReversesBytes(x: nat, n: nat)
    requires x < Pow256(n)
    ensures forall k :: 0 <= k < n ==> ByteAt(ByteSwapN(x, n), k) == ByteAt(x, n - 1 - k)
  {
    var y := ByteSwapN(x, n);
    ByteSwapNLittleEndian(x, n);
    BigEndianIsReversedLittleEndian(x, n);
    forall k | 0 <= k < n
      ensures ByteAt(y, k) == ByteAt(x, n - 1 - k)
    {
      LittleEndianBytesAt(y, n, k);
      ReverseAt(LittleEndianBytes(x, n), k);
      LittleEndianBytesAt(x, n, n - 1 - k);
    }
  }

  /** Swapping twice gives back the original value. */
  lemma ByteSwapNInvolution(x: nat, n: nat)
    requires x < Pow256(n)
    ensures ByteSwapN(ByteSwapN(x, n), n) == x
  {
    var y := ByteSwapN(x, n);
    ByteSwapNLittleEndian(y, n);
    ByteSwapNBigEndian(x, n);
    LittleEndianInjective(ByteSwapN(y, n), x, n);
  }

  /** x is left unchanged by the swap exactly when its bytes read the same in both directions. */
  lemma ByteSwapNFixedPoint(x: nat, n: nat)
    requires x < Pow256(n)
    ensures ByteSwapN(x, n) == x <==> forall k :: 0 <= k < n ==> ByteAt(x, k) == ByteAt(x, n - 1 - k)
  {
    ByteSwapNReversesBytes(x, n);
    if forall k :: 0 <= k < n ==> ByteAt(x, k) == ByteAt(x, n - 1 - k) {
      var y := ByteSwapN(x, n);
      forall k | 0 <= k < n
        ensures LittleEndianBytes(y, n)[k] == LittleEndianBytes(x, n)[k]
      {
        LittleEndianBytesAt(y, n, k);
        LittleEndianBytesAt(x, n, k);
      }
      LittleEndianInjective(y, x, n);
    }
  }

  /** Every byte of the largest n-byte value is 0xFF. */
  lemma {:induction false} AllOnesBytes(n: nat)
    ensures LittleEndianBytes(Pow256(n) - 1, n) == seq(n, _ => 255)
  {
    if n > 0 {
      DivModUnique(Pow256(n) - 1, 256, Pow256(n - 1) - 1, 255);
      AllOnesBytes(n - 1);
    }
  }

  /** The number of values of each width of the header. */
  lemma WidthBounds()
    ensures Pow256(2) == 0x1_0000
    ensures Pow256(4) == 0x1_0000_0000
    ensures Pow256(8) == 0x1_0000_0000_0000_0000
  {
  }

  /** A value whose bytes are all equal is a fixed point of the swap. */
  lemma ByteSwapNUniform(x: nat, n: nat)
    requires x < Pow256(n)
    requires forall k :: 0 <= k < n ==> LittleEndianBytes(x, n)[k] == LittleEndianBytes(x, n)[0]
    ensures ByteSwapN(x, n) == x
  {
    forall k | 0 <= k < n
      ensures ByteAt(x, k) == ByteAt(x, n - 1 - k)
    {
      LittleEndianBytesAt(x, n, k);
      LittleEndianBytesAt(x, n, n - 1 - k);
    }
    ByteSwapNFixedPoint(x, n);
  }

  // ---------------------------------------------------------------------------
  // ByteSwap

  function ByteSwap16(x: uint16): (r: uint16)
    ensures r == x % 256 * 256 + x / 256
    ensures forall k :: 0 <= k < 2 ==> ByteAt(r, k) == ByteAt(x, 1 - k)
  {
    ByteSwapNReversesBytes(x, 2);
    WidthBounds();
    var le := LittleEndianBytes(x, 2);
    assert x / 256 < 256;
    assert le[1..] == LittleEndianBytes(x / 256, 1) == [x / 256];
    assert Reverse(le) == [x / 256, x % 256] by {
      assert Reverse(le[1..]) == [x / 256];
    }
    assert FromLittleEndian([x % 256]) == x % 256;
    ByteSwapN(x, 2)
  }

  function ByteSwap32(x: uint32): (r: uint32)
    ensures forall k :: 0 <= k < 4 ==> ByteAt(r, k) == ByteAt(x, 3 - k)
  {
    ByteSwapNReversesBytes(x, 4);
    ByteSwapN(x, 4)
  }

  function ByteSwap64(x: uint64): (r: uint64)
    ensures forall k :: 0 <= k < 8 ==> ByteAt(r, k) == ByteAt(x, 7 - k)
  {
    ByteSwapNReversesBytes(x, 8);
    ByteSwapN(x, 8)
  }

  /** ByteSwap at the width of uintptr_t, which is 32 or 64 bits. */
  function ByteSwapUintPtrT(x: uint64, width: PointerWidth): (r: uint64)
    requires width == Pointer32 ==> x < 0x1_0000_0000
    ensures width == Pointer32 ==> r == ByteSwap32(x)
    ensures width == Pointer64 ==> r == ByteSwap64(x)
  {
    WidthBounds();
    ByteSwapN(x, width.ByteCount())
  }

  /** ByteSwap is its own inverse at every width. */
  lemma ByteSwapInvolution(x16: uint16, x32: uint32, x64: uint64)
    ensures ByteSwap16(ByteSwap16(x16)) == x16
    ensures ByteSwap32(ByteSwap32(x32)) == x32
    ensures ByteSwap64(ByteSwap64(x64)) == x64
  {
    ByteSwapNInvolution(x16, 2);
    ByteSwapNInvolution(x32, 4);
    ByteSwapNInvolution(x64, 8);
  }

  /** A 16-bit value is a fixed point of ByteSwap exactly when its two bytes are equal. */
  lemma ByteSwap16FixedPoints(x: uint16)
    ensures ByteSwap16(x) == x <==> x % 256 == x / 256
    ensures ByteSwap16(0) == 0 && ByteSwap16(0xFFFF) == 0xFFFF
  {
  }

  /** A 32-bit value is a fixed point of ByteSwap exactly when its bytes form a palindrome. */
  lemma ByteSwap32FixedPoints(x: uint32)
    ensures ByteSwap32(x) == x <==> forall k :: 0 <= k < 4 ==> ByteAt(x, k) == ByteAt(x, 3 - k)
    ensures ByteSwap32(0) == 0 && ByteSwap32(0xFFFF_FFFF) == 0xFFFF_FFFF
  {
    WidthBounds();
    ByteSwapNFixedPoint(x, 4);
    ByteSwapNUniform(0, 4);
    AllOnesBytes(4);
    ByteSwapNUniform(0xFFFF_FFFF, 4);
  }

  /** A 64-bit value is a fixed point of ByteSwap exactly when its bytes form a palindrome. */
  lemma ByteSwap64FixedPoints(x: uint64)
    ensures ByteSwap64(x) == x <==> forall k :: 0 <= k < 8 ==> ByteAt(x, k) == ByteAt(x, 7 - k)
    ensures ByteSwap64(0) == 0 && ByteSwap64(0xFFFF_FFFF_FFFF_FFFF) == 0xFFFF_FFFF_FFFF_FFFF
  {
    WidthBounds();
    ByteSwapNFixedPoint(x, 8);
    ByteSwapNUniform(0, 8);
    AllOnesBytes(8);
    ByteSwapNUniform(0xFFFF_FFFF_FFFF_FFFF, 8);
  }

  /**
    The worked examples of byte reversal at 16 and 32 bits, and a 32-bit value
    with unequal bytes that the swap leaves unchanged.
   */
  lemma ByteSwapExamples()
    ensures ByteSwap16(0x1234) == 0x3412
    ensures ByteSwap32(0x1234_5678) == 0x7856_3412
    ensures ByteSwap32(0x1122_2211) == 0x1122_2211
  {
  }

  /** The worked example of byte reversal at 64 bits. */
  lemma ByteSwap64Example()
    ensures ByteSwap64(0x1122_3344_5566_7788) == 0x8877_6655_4433_2211
  {
    var x, y := 0x1122_3344_5566_7788, 0x8877_6655_4433_2211;
    WidthBounds();
    ByteSwapNLittleEndian(x, 8);
    ExampleBigEndian();
    ExampleLittleEndian();
    LittleEndianInjective(ByteSwapN(x, 8), y, 8);
  }

  lemma ExampleBigEndian()
    ensures BigEndianBytes(0x1122_3344_5566_7788, 8) == [0x11, 0x22, 0x33, 0x44, 0x55, 0x66, 0x77, 0x88]
  {
    assert BigEndianBytes(0x11, 1) == [0x11];
    assert BigEndianBytes(0x1122, 2) == [0x11, 0x22];
    assert BigEndianBytes(0x11_2233, 3) == [0x11, 0x22, 0x33];
    assert BigEndianBytes(0x1122_3344, 4) == [0x11, 0x22, 0x33, 0x44];
    assert BigEndianBytes(0x11_2233_4455, 5) == [0x11, 0x22, 0x33, 0x44, 0x55];
    assert BigEndianBytes(0x1122_3344_5566, 6) == [0x11, 0x22, 0x33, 0x44, 0x55, 0x66];
    assert BigEndianBytes(0x11_2233_4455_6677, 7) == [0x11, 0x22, 0x33, 0x44, 0x55, 0x66, 0x77];
  }

  lemma ExampleLittleEndian()
    ensures LittleEndianBytes(0x8877_6655_4433_2211, 8) == [0x11, 0x22, 0x33, 0x44, 0x55, 0x66, 0x77, 0x88]
  {
    assert LittleEndianBytes(0x88, 1) == [0x88];
    assert LittleEndianBytes(0x8877, 2) == [0x77, 0x88];
    assert LittleEndianBytes(0x88_7766, 3) == [0x66, 0x77, 0x88];
    assert LittleEndianBytes(0x8877_6655, 4) == [0x55, 0x66, 0x77, 0x88];
    assert LittleEndianBytes(0x88_7766_5544, 5) == [0x44, 0x55, 0x66, 0x77, 0x88];
    assert LittleEndianBytes(0x8877_6655_4433, 6) == [0x33, 0x44, 0x55, 0x66, 0x77, 0x88];
    assert LittleEndianBytes(0x88_7766_5544_3322, 7) == [0x22, 0x33, 0x44, 0x55, 0x66, 0x77, 0x88];
  }

  // ---------------------------------------------------------------------------
  // Host order to little-endian

  function ByteSwapToLE16(x: uint16, host: Endianness): (r: uint16)
    ensures NativeBytes(r, 2, host) == LittleEndianBytes(x, 2)
  {
    if host == LittleEndian then x else (ByteSwapNBigEndian(x, 2); ByteSwap16(x))
  }

  function ByteSwapToLE32(x: uint32, host: Endianness): (r: uint32)
    ensures NativeBytes(r, 4, host) == LittleEndianBytes(x, 4)
  {
    if host == LittleEndian then x else (ByteSwapNBigEndian(x, 4); ByteSwap32(x))
  }

  function ByteSwapToLE64(x: uint64, host: Endianness): (r: uint64)
    ensures NativeBytes(r, 8, host) == LittleEndianBytes(x, 8)
  {
    if host == LittleEndian then x else (ByteSwapNBigEndian(x, 8); ByteSwap64(x))
  }

  /** ByteSwapToLE is its own inverse on either host, at every width. */
  lemma ByteSwapToLEInvolution(x16: uint16, x32: uint32, x64: uint64, host: Endianness)
    ensures ByteSwapToLE16(ByteSwapToLE16(x16, host), host) == x16
    ensures ByteSwapToLE32(ByteSwapToLE32(x32, host), host) == x32
    ensures ByteSwapToLE64(ByteSwapToLE64(x64, host), host) == x64
  {
    ByteSwapInvolution(x16, x32, x64);
  }

  // ---------------------------------------------------------------------------
  // Network (big-endian) order to host order

  function NetToHost16(x: uint16, host: Endianness): (r: uint16)
    ensures NativeBytes(x, 2, host) == BigEndianBytes(r, 2)
  {
    if host == LittleEndian then (ByteSwapNBigEndian(x, 2); ByteSwap16(x)) else x
  }

  function NetToHost32(x: uint32, host: Endianness): (r: uint32)
    ensures NativeBytes(x, 4, host) == BigEndianBytes(r, 4)
  {
    if host == LittleEndian then (ByteSwapNBigEndian(x, 4); ByteSwap32(x)) else x
  }

  function NetToHost64(x: uint64, host: Endianness): (r: uint64)
    ensures NativeBytes(x, 8, host) == BigEndianBytes(r, 8)
  {
    if host == LittleEndian then (ByteSwapNBigEndian(x, 8); ByteSwap64(x)) else x
  }

  // ---------------------------------------------------------------------------
  // Host order to network (big-endian) order

  function HostToNet16(x: uint16, host: Endianness): (r: uint16)
    ensures NativeBytes(r, 2, host) == BigEndianBytes(x, 2)
  {
    if host == LittleEndian then (ByteSwapNLittleEndian(x, 2); ByteSwap16(x)) else x
  }

  function HostToNet32(x: uint32, host: Endianness): (r: uint32)
    ensures NativeBytes(r, 4, host) == BigEndianBytes(x, 4)
  {
    if host == LittleEndian then (ByteSwapNLittleEndian(x, 4); ByteSwap32(x)) else x
  }

  function HostToNet64(x: uint64, host: Endianness): (r: uint64)
    ensures NativeBytes(r, 8, host) == BigEndianBytes(x, 8)
  {
    if host == LittleEndian then (ByteSwapNLittleEndian(x, 8); ByteSwap64(x)) else x
  }

  // ---------------------------------------------------------------------------
  // What the conversions are on each build configuration, and why

  /**
    The memory layout determines the 16-bit conversions: r is the result of
    each conversion of x exactly when the host stores the two values in the
    byte orders the conversion promises.
   */
  lemma LayoutDetermines16(x: uint16, r: uint16, host: Endianness)
    ensures r == ByteSwapToLE16(x, host) <==> NativeBytes(r, 2, host) == LittleEndianBytes(x, 2)
    ensures r == HostToNet16(x, host) <==> NativeBytes(r, 2, host) == BigEndianBytes(x, 2)
    ensures r == NetToHost16(x, host) <==> NativeBytes(x, 2, host) == BigEndianBytes(r, 2)
  {
    WidthBounds();
    if NativeBytes(r, 2, host) == LittleEndianBytes(x, 2) {
      NativeBytesInjective(r, ByteSwapToLE16(x, host), 2, host);
    }
    if NativeBytes(r, 2, host) == BigEndianBytes(x, 2) {
      NativeBytesInjective(r, HostToNet16(x, host), 2, host);
    }
    if NativeBytes(x, 2, host) == BigEndianBytes(r, 2) {
      BigEndianInjective(r, NetToHost16(x, host), 2);
    }
  }

  /** HostToNet16 and NetToHost16 are one function on either host, and each undoes the other. */
  lemma NetHostRoundTrip16(x: uint16, host: Endianness)
    ensures HostToNet16(x, host) == NetToHost16(x, host)
    ensures NetToHost16(HostToNet16(x, host), host) == x
    ensures HostToNet16(NetToHost16(x, host), host) == x
  {
    WidthBounds();
    ByteSwapNInvolution(x, 2);
  }

  /**
    The memory layout determines the 32-bit conversions: r is the result of
    each conversion of x exactly when the host stores the two values in the
    byte orders the conversion promises.
   */
  lemma LayoutDetermines32(x: uint32, r: uint32, host: Endianness)
    ensures r == ByteSwapToLE32(x, host) <==> NativeBytes(r, 4, host) == LittleEndianBytes(x, 4)
    ensures r == HostToNet32(x, host) <==> NativeBytes(r, 4, host) == BigEndianBytes(x, 4)
    ensures r == NetToHost32(x, host) <==> NativeBytes(x, 4, host) == BigEndianBytes(r, 4)
  {
    WidthBounds();
    if NativeBytes(r, 4, host) == LittleEndianBytes(x, 4) {
      NativeBytesInjective(r, ByteSwapToLE32(x, host), 4, host);
    }
    if NativeBytes(r, 4, host) == BigEndianBytes(x, 4) {
      NativeBytesInjective(r, HostToNet32(x, host), 4, host);
    }
    if NativeBytes(x, 4, host) == BigEndianBytes(r, 4) {
      BigEndianInjective(r, NetToHost32(x, host), 4);
    }
  }

  /** HostToNet32 and NetToHost32 are one function on either host, and each undoes the other. */
  lemma NetHostRoundTrip32(x: uint32, host: Endianness)
    ensures HostToNet32(x, host) == NetToHost32(x, host)
    ensures NetToHost32(HostToNet32(x, host), host) == x
    ensures HostToNet32(NetToHost32(x, host), host) == x
  {
    WidthBounds();
    ByteSwapNInvolution(x, 4);
  }

  /**
    The memory layout determines the 64-bit conversions: r is the result of
    each conversion of x exactly when the host stores the two values in the
    byte orders the conversion promises.
   */
  lemma LayoutDetermines64(x: uint64, r: uint64, host: Endianness)
    ensures r == ByteSwapToLE64(x, host) <==> NativeBytes(r, 8, host) == LittleEndianBytes(x, 8)
    ensures r == HostToNet64(x, host) <==> NativeBytes(r, 8, host) == BigEndianBytes(x, 8)
    ensures r == NetToHost64(x, host) <==> NativeBytes(x, 8, host) == BigEndianBytes(r, 8)
  {
    WidthBounds();
    if NativeBytes(r, 8, host) == LittleEndianBytes(x, 8) {
      NativeBytesInjective(r, ByteSwapToLE64(x, host), 8, host);
    }
    if NativeBytes(r, 8, host) == BigEndianBytes(x, 8) {
      NativeBytesInjective(r, HostToNet64(x, host), 8, host);
    }
    if NativeBytes(x, 8, host) == BigEndianBytes(r, 8) {
      BigEndianInjective(r, NetToHost64(x, host), 8);
    }
  }

  /** HostToNet64 and NetToHost64 are one function on either host, and each undoes the other. */
  lemma NetHostRoundTrip64(x: uint64, host: Endianness)
    ensures HostToNet64(x, host) == NetToHost64(x, host)
    ensures NetToHost64(HostToNet64(x, host), host) == x
    ensures HostToNet64(NetToHost64(x, host), host) == x
  {
    WidthBounds();
    ByteSwapNInvolution(x, 8);
  }

  /**
    On a little-endian host ByteSwapToLE is a no-op and the network
    conversions swap; on a big-endian host it is the other way round.
   */
  lemma ConversionsByHost(x16: uint16, x32: uint32, x64: uint64)
    ensures ByteSwapToLE16(x16, LittleEndian) == x16 && NetToHost16(x16, LittleEndian) == ByteSwap16(x16)
    ensures ByteSwapToLE32(x32, LittleEndian) == x32 && NetToHost32(x32, LittleEndian) == ByteSwap32(x32)
    ensures ByteSwapToLE64(x64, LittleEndian) == x64 && NetToHost64(x64, LittleEndian) == ByteSwap64(x64)
    ensures ByteSwapToLE16(x16, BigEndian) == ByteSwap16(x16) && NetToHost16(x16, BigEndian) == x16
    ensures ByteSwapToLE32(x32, BigEndian) == ByteSwap32(x32) && NetToHost32(x32, BigEndian) == x32
    ensures ByteSwapToLE64(x64, BigEndian) == ByteSwap64(x64) && NetToHost64(x64, BigEndian) == x64
  {
  }
}
