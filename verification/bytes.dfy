/** Byte-level vocabulary shared by the decoder and the verifiers: the byte
    type, Go's `int32`, line-ending bytes, and `encoding/binary.BigEndian`. */
module Bytes {

  type byte = bv8

  /** Go's `int32`. */
  type Int32 = x: int | -0x8000_0000 <= x < 0x8000_0000

  const LF: byte := 0x0A
  const CR: byte := 0x0D

  /** Number of line-feed bytes in `s`: the `lfDetection` counter of the
      header loop. */
  function CountLF(s: seq<byte>): (n: nat)
    ensures n <= |s|
    ensures n == 0 <==> forall i | 0 <= i < |s| :: s[i] != LF
    decreases |s|
  {
    if s == [] then 0 else (if s[0] == LF then 1 else 0) + CountLF(s[1..])
  }

  lemma {:induction false} CountLFConcat(a: seq<byte>, b: seq<byte>)
    ensures CountLF(a + b) == CountLF(a) + CountLF(b)
    decreases |a|
  {
    if a == [] {
      assert a + b == b;
    } else {
      assert (a + b)[0] == a[0];
      assert (a + b)[1..] == a[1..] + b;
      CountLFConcat(a[1..], b);
    }
  }

  lemma AppendAssociative<T>(a: seq<T>, b: seq<T>, c: seq<T>)
    ensures a + (b + c) == (a + b) + c
  {}

  /** `n` zero bytes: the contents of a fresh `make([]byte, n)`. */
  function Zeros(n: nat): (z: seq<byte>)
    ensures |z| == n
    ensures forall i | 0 <= i < n :: z[i] == 0
    decreases n
  {
    if n == 0 then [] else [0] + Zeros(n - 1)
  }

  // ---------------------------------------------------------------------
  // uint32, big-endian

  /** `binary.BigEndian.Uint32`: no two words decode alike, since each is
      the encoding of its value. */
  function DecodeUint32(b: seq<byte>): (x: bv32)
    requires |b| == 4
    ensures EncodeUint32(x) == b
  {
    (b[0] as bv32 << 24) | (b[1] as bv32 << 16) | (b[2] as bv32 << 8) | b[3] as bv32
  }

  /** `binary.BigEndian.PutUint32`. */
  function EncodeUint32(x: bv32): (b: seq<byte>)
    ensures |b| == 4
  {
    [(x >> 24) as byte, ((x >> 16) & 0xFF) as byte, ((x >> 8) & 0xFF) as byte, (x & 0xFF) as byte]
  }

  lemma Uint32RoundTrip(x: bv32)
    ensures DecodeUint32(EncodeUint32(x)) == x
  {}

  lemma Uint32BytesRoundTrip(b: seq<byte>)
    requires |b| == 4
    ensures EncodeUint32(DecodeUint32(b)) == b
  {}

  // ---------------------------------------------------------------------
  // int32, big-endian two's complement

  /** The byte whose unsigned value is `d`, counting up from zero. */
  function ByteOf(d: nat): byte
    requires d < 256
  {
    if d == 0 then 0 else ByteOf(d - 1) + 1
  }

  lemma Succ(b: byte)
    requires b as int < 255
    ensures (b + 1) as int == b as int + 1
  {}

  lemma {:induction false} ByteOfValue(d: nat)
    requires d < 256
    ensures ByteOf(d) as int == d
  {
    if d > 0 {
      ByteOfValue(d - 1);
      Succ(ByteOf(d - 1));
    }
  }

  lemma Pred(b: byte)
    requires b != 0
    ensures (b - 1) as int == b as int - 1
  {}

  lemma {:induction false} ValueOfByte(b: byte)
    ensures ByteOf(b as int) == b
    decreases b as int
  {
    if b != 0 {
      Pred(b);
      ValueOfByte(b - 1);
    }
  }

  /** The unsigned value of four digits in base 256, most significant first. */
  function Pack(x0: int, x1: int, x2: int, x3: int): int {
    ((x0 * 256 + x1) * 256 + x2) * 256 + x3
  }

  lemma Split256(q: int, r: int)
    requires 0 <= r < 256
    ensures (q * 256 + r) / 256 == q && (q * 256 + r) % 256 == r
  {}

  /** The digits of a packed value come back out by repeated division. */
  lemma Unpack(x0: int, x1: int, x2: int, x3: int)
    requires 0 <= x0 < 256 && 0 <= x1 < 256 && 0 <= x2 < 256 && 0 <= x3 < 256
    ensures var u := Pack(x0, x1, x2, x3);
            && 0 <= u < 0x1_0000_0000
            && u / 256 / 256 / 256 == x0 && u / 256 / 256 % 256 == x1
            && u / 256 % 256 == x2 && u % 256 == x3
  {
    Split256((x0 * 256 + x1) * 256 + x2, x3);
    Split256(x0 * 256 + x1, x2);
    Split256(x0, x1);
  }

  /** A value below 2^32 is the packing of its own digits. */
  lemma Repack(u: int)
    requires 0 <= u < 0x1_0000_0000
    ensures 0 <= u / 256 / 256 / 256 < 256
    ensures u == Pack(u / 256 / 256 / 256, u / 256 / 256 % 256, u / 256 % 256, u % 256)
  {
    var q1 := u / 256;
    var q2 := q1 / 256;
    assert u == q1 * 256 + u % 256;
    assert q1 == q2 * 256 + q1 % 256;
    assert q2 == q2 / 256 * 256 + q2 % 256;
  }

  /** The unsigned value of four big-endian bytes. */
  function Unsigned32(b: seq<byte>): (u: int)
    requires |b| == 4
    ensures 0 <= u < 0x1_0000_0000
  {
    Unpack(b[0] as int, b[1] as int, b[2] as int, b[3] as int);
    Pack(b[0] as int, b[1] as int, b[2] as int, b[3] as int)
  }

  /** `binary.Read` into an `int32` with `binary.BigEndian`. */
  function DecodeInt32(b: seq<byte>): (n: Int32)
    requires |b| == 4
    ensures n < 0 <==> b[0] >= 0x80
  {
    var u := Unsigned32(b);
    if u < 0x8000_0000 then u else u - 0x1_0000_0000
  }

  /** The four big-endian digits of an unsigned value below 2^32. */
  function Digits(u: int): (b: seq<byte>)
    requires 0 <= u < 0x1_0000_0000
    ensures |b| == 4
  {
    Repack(u);
    [ByteOf(u / 256 / 256 / 256), ByteOf(u / 256 / 256 % 256), ByteOf(u / 256 % 256), ByteOf(u % 256)]
  }

  /** The four bytes `binary.Write` produces for an `int32`. */
  function EncodeInt32(n: Int32): (b: seq<byte>)
    ensures |b| == 4
  {
    Digits(if n < 0 then n + 0x1_0000_0000 else n)
  }

  /** The digits of a value pack back to it. */
  lemma DigitsValue(u: int)
    requires 0 <= u < 0x1_0000_0000
    ensures Unsigned32(Digits(u)) == u
  {
    Repack(u);
    var b := Digits(u);
    ByteOfValue(u / 256 / 256 / 256);
    ByteOfValue(u / 256 / 256 % 256);
    ByteOfValue(u / 256 % 256);
    ByteOfValue(u % 256);
    assert b[0] as int == u / 256 / 256 / 256 && b[1] as int == u / 256 / 256 % 256;
    assert b[2] as int == u / 256 % 256 && b[3] as int == u % 256;
  }

  /** Four bytes are the digits of their value. */
  lemma ValueDigits(b: seq<byte>)
    requires |b| == 4
    ensures Digits(Unsigned32(b)) == b
  {
    Unpack(b[0] as int, b[1] as int, b[2] as int, b[3] as int);
    ValueOfByte(b[0]);
    ValueOfByte(b[1]);
    ValueOfByte(b[2]);
    ValueOfByte(b[3]);
  }

  lemma Int32RoundTrip(n: Int32)
    ensures DecodeInt32(EncodeInt32(n)) == n
  {
    var u := if n < 0 then n + 0x1_0000_0000 else n;
    DigitsValue(u);
  }

  /** The unsigned reading of the bytes of an `int32` is its value modulo 2^32. */
  lemma Int32Unsigned(b: seq<byte>)
    requires |b| == 4
    ensures var n: int := DecodeInt32(b);
            Unsigned32(b) == if n < 0 then n + 0x1_0000_0000 else n
  {}

  lemma Int32BytesRoundTrip(b: seq<byte>)
    requires |b| == 4
    ensures EncodeInt32(DecodeInt32(b)) == b
  {
    Int32Unsigned(b);
    ValueDigits(b);
  }
}
