/**
 Bytes, powers of two and the base-128 numbers of the Protocol Buffers wire
 format (Protocol Buffers Encoding, "Base 128 Varints").
 */
module Wire {
  type Byte = b: int | 0 <= b < 256

  /** What is left of a parse: either nothing, or a value and the unread bytes. */
  datatype Parse<+T> = Fail | Ok(value: T, rest: seq<Byte>)

  datatype Option<+T> = None | Some(value: T)

  const TWO31: int := 0x8000_0000
  const TWO32: int := 0x1_0000_0000
  const TWO63: int := 0x8000_0000_0000_0000
  const TWO64: int := 0x1_0000_0000_0000_0000

  function Pow2(n: nat): (p: nat)
    ensures p >= 1
  {
    if n == 0 then 1 else 2 * Pow2(n - 1)
  }

  lemma {:induction false} Pow2Add(a: nat, b: nat)
    ensures Pow2(a + b) == Pow2(a) * Pow2(b)
  {
    if a > 0 {
      Pow2Add(a - 1, b);
    }
  }

  lemma Pow2Values()
    ensures Pow2(7) == 128 && Pow2(28) == 0x1000_0000 && Pow2(31) == TWO31 && Pow2(32) == TWO32
    ensures Pow2(63) == TWO63 && Pow2(64) == TWO64
  {
    assert Pow2(7) == 128;
    Pow2Add(7, 7);
    Pow2Add(14, 14);
    assert Pow2(28) == 0x1000_0000;
    assert Pow2(31) == 8 * Pow2(28);
    assert Pow2(32) == 2 * Pow2(31);
    Pow2Add(32, 31);
    Pow2Add(32, 32);
  }

  /** `x << n` before any truncation. */
  function Shl(x: nat, n: nat): nat {
    if n == 0 then x else 2 * Shl(x, n - 1)
  }

  lemma {:induction false} ShlIs(x: nat, n: nat)
    ensures Shl(x, n) == x * Pow2(n)
  {
    if n > 0 {
      ShlIs(x, n - 1);
    }
  }

  /** `result |= (byte & 0x7F) << shift` in an unsigned word of the given modulus. The bits
      of `result` from `shift` upwards are still zero, so the bitwise or is a sum. */
  function OrShifted(result: nat, low7: nat, shift: nat, modulus: nat): nat
    requires modulus > 0
  {
    (result + Shl(low7, shift)) % modulus
  }

  /** The number that a sequence of base-128 digits stands for, least significant digit
      first; the top bit of each byte is not part of the digit. */
  function Base128(s: seq<Byte>): nat {
    if s == [] then 0 else s[0] % 128 + 128 * Base128(s[1..])
  }

  lemma {:induction false} Base128Append(s: seq<Byte>, b: Byte)
    ensures Base128(s + [b]) == Base128(s) + (b % 128) * Pow2(7 * |s|)
  {
    if s == [] {
      assert s + [b] == [b];
      assert Base128([b]) == b % 128 + 128 * Base128([b][1..]);
    } else {
      Base128Append(s[1..], b);
      assert (s + [b])[1..] == s[1..] + [b];
      Pow2Add(7, 7 * |s[1..]|);
      assert Pow2(7) == 128;
      assert Pow2(7 * |s|) == 128 * Pow2(7 * |s[1..]|);
      var p := Pow2(7 * |s[1..]|);
      assert 128 * ((b % 128) * p) == (b % 128) * (128 * p);
    }
  }

  lemma {:induction false} Base128Bound(s: seq<Byte>)
    ensures Base128(s) < Pow2(7 * |s|)
  {
    if s != [] {
      Base128Bound(s[1..]);
      Pow2Add(7, 7 * |s[1..]|);
      assert Pow2(7) == 128;
    }
  }

  /** The bytes of an unsigned number, least significant first. */
  function LittleEndian(v: nat, n: nat): (s: seq<Byte>)
    ensures |s| == n
  {
    if n == 0 then [] else [v % 256] + LittleEndian(v / 256, n - 1)
  }

  function FromLittleEndian(s: seq<Byte>): nat {
    if s == [] then 0 else s[0] + 256 * FromLittleEndian(s[1..])
  }

  lemma {:induction false} LittleEndianRoundTrip(v: nat, n: nat)
    requires v < Pow2(8 * n)
    ensures FromLittleEndian(LittleEndian(v, n)) == v
  {
    if n > 0 {
      assert 8 * n == 8 + 8 * (n - 1);
      Pow2Add(8, 8 * (n - 1));
      assert Pow2(8) == 256 by { Pow2Add(4, 4); assert Pow2(4) == 16; }
      LittleEndianRoundTrip(v / 256, n - 1);
      assert LittleEndian(v, n)[1..] == LittleEndian(v / 256, n - 1);
    }
  }
}
