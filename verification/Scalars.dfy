/**
 The scalar decoders on any bytes, in plain numbers: exactly what they accept,
 and the value that they store.
 */
module Scalars {
  import opened Wire
  import opened Varint
  import opened Schema
  import opened Decode

  // -------------------------------------------------------------- integers

  /** n is in the range of a signed integer whose least value is -half. */
  predicate Fits(n: int, half: int) {
    -half <= n < half
  }

  /** n is u in two's complement with a least value of -half. */
  ghost predicate TwosComplement(u: int, half: int, n: int) {
    Fits(n, half) && exists q: int {:trigger q * half} :: n - u == 2 * (q * half)
  }

  lemma SignedIsTwos(u: int, half: int)
    requires half > 0
    ensures TwosComplement(u, half, Signed(u, half))
  {
    var q := u / (2 * half);
    assert u == 2 * (q * half) + u % (2 * half);
    var n := Signed(u, half);
    var p := if u % (2 * half) < half then -q else -q - 1;
    assert p * half == if u % (2 * half) < half then -(q * half) else -(q * half) - half;
    assert n - u == 2 * (p * half);
  }

  lemma OnlyOne(u: int, half: int, m: int, n: int)
    requires half > 0 && TwosComplement(u, half, m) && TwosComplement(u, half, n)
    ensures m == n
  {
    var a :| m - u == 2 * (a * half);
    var b :| n - u == 2 * (b * half);
    assert m - n == 2 * ((a - b) * half);
    MulAtLeast(a - b, half);
  }

  /** The least value of a member of one, two, four or eight bytes, without its sign. */
  lemma Halves(dataSize: nat)
    requires dataSize in {1, 2, 4, 8}
    ensures HalfRange(dataSize) == Pow2(8 * dataSize - 1)
  {
    Pow2Values();
    assert Pow2(8) == 256 by { Pow2Add(4, 4); assert Pow2(4) == 16; }
    Pow2Add(8, 7);
  }

  /** `pb_dec_varint`: a member of eight bytes takes every varint, as does one of four bytes, which sees
      the low 32 bits; a smaller one takes it when these bits, with their sign, fit. */
  lemma VarintExactly(f: Field, s: seq<Byte>, n: int)
    requires f.ltype.LVarint? && f.dataSize in {1, 2, 4, 8} && DecodeVarint(s).Ok?
    requires TwosComplement(DecodeVarint(s).value, if f.dataSize == 8 then Pow2(63) else Pow2(31), n)
    ensures var p, half := DecodeVarint(s), Pow2(8 * f.dataSize - 1);
            DecodeScalar(f, s) == if Fits(n, half) then Ok(IntV(n), p.rest) else Fail
  {
    NarrowExactly(DecodeVarint(s).value, f.dataSize, n);
    assert Narrow(f, DecodeVarint(s).value) == NarrowVarint(DecodeVarint(s).value, f.dataSize);
  }

  lemma NarrowExactly(v: nat, dataSize: nat, n: int)
    requires dataSize in {1, 2, 4, 8} && TwosComplement(v, if dataSize == 8 then Pow2(63) else Pow2(31), n)
    ensures NarrowVarint(v, dataSize) == if Fits(n, Pow2(8 * dataSize - 1)) then Some(n) else None
  {
    Halves(dataSize);
    Pow2Values();
    var wide := if dataSize == 8 then TWO63 else TWO31;
    SignedIsTwos(v, wide);
    OnlyOne(v, wide, Signed(v, wide), n);
    SignedIs(n, HalfRange(dataSize));
  }

  /** `pb_dec_uvarint`: accepted when the number fits the member. */
  lemma UnsignedExactly(f: Field, s: seq<Byte>)
    requires f.ltype.LUVarint? && f.dataSize in {1, 2, 4, 8} && DecodeVarint(s).Ok?
    ensures var p := DecodeVarint(s);
            DecodeScalar(f, s) == if p.value < 2 * Pow2(8 * f.dataSize - 1) then Ok(IntV(p.value), p.rest) else Fail
  {
    Halves(f.dataSize);
    var v, m := DecodeVarint(s).value, 2 * HalfRange(f.dataSize);
    if v < m {
      SmallRemainder(v, m);
    } else {
      assert v % m < m;
    }
  }

  /** `pb_dec_svarint`: 0, 1, 2, 3, ... stand for 0, -1, 1, -2, ...; accepted when the number fits. */
  lemma ZigZagExactly(f: Field, s: seq<Byte>)
    requires f.ltype.LSVarint? && f.dataSize in {1, 2, 4, 8} && DecodeVarint(s).Ok?
    ensures var p, half := DecodeVarint(s), Pow2(8 * f.dataSize - 1);
            var n := if p.value % 2 == 0 then p.value / 2 else -1 - p.value / 2;
            DecodeScalar(f, s) == if Fits(n, half) then Ok(IntV(n), p.rest) else Fail
  {
    Halves(f.dataSize);
    UnZigZagIs(DecodeVarint(s).value);
    SignedIs(UnZigZag(DecodeVarint(s).value), HalfRange(f.dataSize));
  }

  lemma UnZigZagIs(v: nat)
    requires v < TWO64
    ensures UnZigZag(v) == if v % 2 == 0 then v / 2 else -1 - v / 2
  {
    if v % 2 == 1 {
      SignedOf64(TWO64 - 1 - v / 2);
    } else {
      SignedOf64(v / 2);
    }
  }

  // ---------------------------------------------------------- other scalars

  /** `pb_dec_bool`: every number but zero is true. */
  lemma BoolExactly(f: Field, s: seq<Byte>)
    requires f.ltype.LBool?
    ensures var p := DecodeVarint32(s);
            DecodeScalar(f, s) == if p.Ok? then Ok(BoolV(if p.value == 0 then false else true), p.rest) else Fail
  {
  }

  /** The number with these digits to the base of 256, least significant first. */
  function FourDigits(a: int, b: int, c: int, d: int): int {
    a + 0x100 * b + 0x1_0000 * c + 0x100_0000 * d
  }

  /** Four or eight bytes, the least significant one first. */
  lemma FixedExactly(f: Field, s: seq<Byte>)
    requires f.ltype.LFixed32? || f.ltype.LFixed64?
    ensures f.ltype.LFixed32? ==>
              DecodeScalar(f, s)
              == if |s| < 4 then Fail
                 else Ok(IntV(FourDigits(s[0], s[1], s[2], s[3])), s[4..])
    ensures f.ltype.LFixed64? ==>
              DecodeScalar(f, s)
              == if |s| < 8 then Fail
                 else Ok(IntV(FourDigits(s[0], s[1], s[2], s[3])
                              + 0x1_0000_0000 * FourDigits(s[4], s[5], s[6], s[7])), s[8..])
  {
    if |s| >= 4 {
      FourBytes(s[..4]);
    }
    if |s| >= 8 {
      EightBytes(s[..8]);
    }
  }

  lemma FourBytes(b: seq<Byte>)
    requires |b| >= 4
    ensures FromLittleEndian(b)
         == FourDigits(b[0], b[1], b[2], b[3]) + 0x1_0000_0000 * FromLittleEndian(b[4..])
    ensures |b| == 4 ==> FromLittleEndian(b[4..]) == 0
  {
    var b1, b2, b3 := b[1..], b[2..], b[3..];
    assert b1[1..] == b2 && b2[1..] == b3 && b3[1..] == b[4..];
    assert FromLittleEndian(b) == b[0] + 256 * FromLittleEndian(b1);
    assert FromLittleEndian(b1) == b[1] + 256 * FromLittleEndian(b2);
    assert FromLittleEndian(b2) == b[2] + 256 * FromLittleEndian(b3);
    assert FromLittleEndian(b3) == b[3] + 256 * FromLittleEndian(b[4..]);
  }

  lemma EightBytes(b: seq<Byte>)
    requires |b| == 8
    ensures FromLittleEndian(b)
         == FourDigits(b[0], b[1], b[2], b[3]) + 0x1_0000_0000 * FourDigits(b[4], b[5], b[6], b[7])
  {
    FourBytes(b);
    FourBytes(b[4..]);
  }

  /** The number of bytes before the first NUL, or of all of them. */
  predicate EndsAtNul(data: seq<Byte>, text: seq<Byte>) {
    && text <= data && (forall k :: 0 <= k < |text| ==> text[k] != 0)
    && (|text| < |data| ==> data[|text|] == 0)
  }

  lemma {:induction false} CStringEnds(data: seq<Byte>)
    ensures EndsAtNul(data, CString(data))
  {
    if data != [] && data[0] != 0 {
      CStringEnds(data[1..]);
    }
  }

  /** Byte arrays and strings: accepted when they fit the buffer, a string with its terminator; and a
      string ends for the program at its first NUL. */
  lemma BlobExactly(f: Field, s: seq<Byte>)
    requires f.ltype.LBytes? || f.ltype.LString?
    ensures var p, q := Delimited(s), DecodeScalar(f, s);
            && (q.Ok? <==> p.Ok? && |p.value| + (if f.ltype.LBytes? then SIZE_BYTES else 1) <= f.dataSize)
            && (q.Ok? ==> q.rest == p.rest && q.value.BytesV?
                          && if f.ltype.LBytes? then q.value.data == p.value else EndsAtNul(p.value, q.value.data))
  {
    if Delimited(s).Ok? {
      CStringEnds(Delimited(s).value);
    }
  }

  /** `pb_dec_fixed_length_bytes`: exactly that many bytes, or none, which stand for zeros. */
  lemma FixedLengthExactly(f: Field, s: seq<Byte>)
    requires f.ltype.LFixedLengthBytes?
    ensures var p, q := Delimited(s), DecodeScalar(f, s);
            && (q.Ok? <==> p.Ok? && (|p.value| == f.dataSize || |p.value| == 0))
            && (q.Ok? ==> q.rest == p.rest && q.value.BytesV? && |q.value.data| == f.dataSize
                          && forall k :: 0 <= k < f.dataSize ==>
                             q.value.data[k] == if p.value == [] then 0 else p.value[k])
  {
    ZerosAre(f.dataSize);
  }

  /** A value with its length in front: accepted when the length is readable and so many bytes are there. */
  lemma DelimitedExactly(s: seq<Byte>)
    ensures var n, p := DecodeVarint32(s), Delimited(s);
            && (p.Ok? <==> n.Ok? && n.value <= |n.rest|)
            && (p.Ok? ==> |p.value| == n.value && p.value + p.rest == n.rest)
  {
  }
}
