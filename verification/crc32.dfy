/** CRC-32 with the IEEE (ISO 3309 / ITU-T V.42) polynomial, as section 5.5 of
    the PNG Specification (W3C Second Edition, ISO/IEC 15948) defines it and as
    Go's `crc32.ChecksumIEEE` computes it: reflected polynomial 0xEDB88320,
    register preset to all ones, result complemented. */
module Crc32 {
  import opened Bytes

  const Polynomial: bv32 := 0xEDB8_8320

  /** One bit of the reflected shift register. */
  function Shift(c: bv32): bv32 {
    if c & 1 == 1 then (c >> 1) ^ Polynomial else c >> 1
  }

  function Shifts(c: bv32, n: nat): bv32
    decreases n
  {
    if n == 0 then c else Shifts(Shift(c), n - 1)
  }

  /** Feed one byte into the register. */
  function Update(c: bv32, b: byte): bv32 {
    Shifts(c ^ b as bv32, 8)
  }

  /** The register after feeding `s`, front to back, starting from `c`. */
  function Register(c: bv32, s: seq<byte>): bv32
    decreases |s|
  {
    if s == [] then c else Register(Update(c, s[0]), s[1..])
  }

  /** `crc32.ChecksumIEEE`. */
  function Checksum(s: seq<byte>): bv32 {
    Register(0xFFFF_FFFF, s) ^ 0xFFFF_FFFF
  }

  // ---------------------------------------------------------------------
  // Properties

  /** The check value of the CRC-32/IEEE catalogue entry. */
  lemma CheckValue()
    ensures Checksum([0x31, 0x32, 0x33, 0x34, 0x35, 0x36, 0x37, 0x38, 0x39]) == 0xCBF4_3926
  {
    assert Update(0xFFFF_FFFF, 0x31) == 0x7C23_1048;
    assert Update(0x7C23_1048, 0x32) == 0xB0AC_BB32;
    assert Update(0xB0AC_BB32, 0x33) == 0x77B7_9C2D;
    assert Update(0x77B7_9C2D, 0x34) == 0x641C_1F5C;
    assert Update(0x641C_1F5C, 0x35) == 0x340A_C5E3;
    assert Update(0x340A_C5E3, 0x36) == 0xF68D_2C9E;
    assert Update(0xF68D_2C9E, 0x37) == 0xAFFC_9660;
    assert Update(0xAFFC_9660, 0x38) == 0x651F_2550;
    assert Update(0x651F_2550, 0x39) == 0x340B_C6D9;
  }

  /** The checksum of no bytes is zero. */
  lemma EmptyChecksum()
    ensures Checksum([]) == 0
  {}

  /** The checksum of the four bytes "IEND": the CRC field every PNG file's
      final chunk carries, since that chunk has no data. */
  lemma IendChecksum()
    ensures Checksum([0x49, 0x45, 0x4E, 0x44]) == 0xAE42_6082
  {
    assert Update(0xFFFF_FFFF, 0x49) == 0x22FD_E946;
    assert Update(0x22FD_E946, 0x45) == 0x992B_AC53;
    assert Update(0x992B_AC53, 0x4E) == 0x639F_4775;
    assert Update(0x639F_4775, 0x44) == 0x51BD_9F7D;
  }

  lemma {:induction false} RegisterConcat(c: bv32, a: seq<byte>, b: seq<byte>)
    ensures Register(c, a + b) == Register(Register(c, a), b)
    decreases |a|
  {
    if a == [] {
      assert a + b == b;
    } else {
      assert (a + b)[0] == a[0];
      assert (a + b)[1..] == a[1..] + b;
      RegisterConcat(Update(c, a[0]), a[1..], b);
    }
  }

  /** One shift loses no information: the feedback bit shows up in bit 31. */
  lemma ShiftInjective(x: bv32, y: bv32)
    requires x != y
    ensures Shift(x) != Shift(y)
  {
    if x & 1 == y & 1 {
      assert x >> 1 != y >> 1;
    } else {
      assert Shift(x) >> 31 == x & 1;
      assert Shift(y) >> 31 == y & 1;
    }
  }

  lemma {:induction false} ShiftsInjective(x: bv32, y: bv32, n: nat)
    requires x != y
    ensures Shifts(x, n) != Shifts(y, n)
    decreases n
  {
    if n > 0 {
      ShiftInjective(x, y);
      ShiftsInjective(Shift(x), Shift(y), n - 1);
    }
  }

  /** Two different bytes fed into the same register leave different registers. */
  lemma UpdateInjective(c: bv32, a: byte, b: byte)
    requires a != b
    ensures Update(c, a) != Update(c, b)
  {
    ShiftsInjective(c ^ a as bv32, c ^ b as bv32, 8);
  }

  /** Feeding the same bytes into different registers leaves different registers. */
  lemma {:induction false} RegisterInjective(x: bv32, y: bv32, s: seq<byte>)
    requires x != y
    ensures Register(x, s) != Register(y, s)
    decreases |s|
  {
    if s != [] {
      ShiftsInjective(x ^ s[0] as bv32, y ^ s[0] as bv32, 8);
      RegisterInjective(Update(x, s[0]), Update(y, s[0]), s[1..]);
    }
  }

  /** The register after `s` is the register after byte `i`, fed the rest. */
  lemma RegisterAt(c: bv32, s: seq<byte>, i: nat)
    requires i < |s|
    ensures Register(c, s) == Register(Update(Register(c, s[..i]), s[i]), s[i + 1..])
  {
    assert s == s[..i] + ([s[i]] + s[i + 1..]);
    RegisterConcat(c, s[..i], [s[i]] + s[i + 1..]);
    assert ([s[i]] + s[i + 1..])[1..] == s[i + 1..];
  }

  /** Changing any one byte of the input changes the checksum. */
  lemma SingleByteChangeDetected(s: seq<byte>, i: nat, b: byte)
    requires i < |s| && s[i] != b
    ensures Checksum(s[i := b]) != Checksum(s)
  {
    var t := s[i := b];
    assert t[..i] == s[..i] && t[i + 1..] == s[i + 1..];
    RegisterAt(0xFFFF_FFFF, s, i);
    RegisterAt(0xFFFF_FFFF, t, i);
    var c := Register(0xFFFF_FFFF, s[..i]);
    UpdateInjective(c, s[i], b);
    RegisterInjective(Update(c, s[i]), Update(c, b), s[i + 1..]);
  }
}
