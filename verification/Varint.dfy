/**
 Varints, zigzag integers and tags: what the readers of pb_decode.c accept and
 return, what the writers of pb_encode.c produce, and how the two relate.
 The stream methods that loop over single bytes are proved against these
 functions in `InputStream` and `OutputStream`.
 */
module Varint {
  import opened Wire

  // ---------------------------------------------------------------- writing

  /** Seven bits a byte, least significant first, top bit set on all but the last. */
  function EncodeVarint(v: nat): (s: seq<Byte>)
    ensures |s| >= 1
  {
    if v < 128 then [v] else [128 + v % 128] + EncodeVarint(v / 128)
  }

  /** The unsigned 64-bit word of an integer. */
  function Word64(v: int): nat { v % TWO64 }

  /** The cast to the signed integer type whose least value is -half. */
  function Signed(v: int, half: int): int
    requires half > 0
  {
    var w := v % (2 * half);
    if w < half then w else w - 2 * half
  }

  lemma MulAtLeast(d: int, m: int)
    requires m > 0
    ensures d >= 1 ==> d * m >= m
    ensures d <= -1 ==> d * m <= -m
  {
  }

  /** A quotient and a remainder are the only ones. */
  lemma QuotientAndRemainder(v: nat, m: nat, q: int, r: int)
    requires m > 0 && v == q * m + r && 0 <= r < m
    ensures v / m == q && v % m == r
  {
    var d := v / m - q;
    assert d * m == r - v % m;
    MulAtLeast(d, m);
  }

  lemma SmallRemainder(v: nat, m: nat)
    requires v < m
    ensures v % m == v
  {
  }

  lemma ModShift(v: int, m: int)
    requires 0 < m && -m <= v < m
    ensures v % m == if v < 0 then v + m else v
  {
    var q := v / m + 1;
    MulAtLeast(q, m);
    assert q * m == v + m - v % m;
  }

  /** The cast keeps exactly the numbers of its type. */
  lemma SignedIs(v: int, half: int)
    requires half > 0
    ensures -half <= Signed(v, half) < half
    ensures Signed(v, half) == v <==> -half <= v < half
  {
    assert 0 <= v % (2 * half) < 2 * half;
    if -half <= v < half {
      ModShift(v, 2 * half);
    }
  }

  /** `value < 0 ? ~((uint64_t)value << 1) : (uint64_t)value << 1` */
  function ZigZag(v: int): nat {
    if v < 0 then TWO64 - 1 - Word64(2 * Word64(v)) else Word64(2 * Word64(v))
  }

  /** `(int64_t)(value & 1 ? ~(value >> 1) : value >> 1)` */
  function UnZigZag(u: nat): int
    requires u < TWO64
  {
    if u % 2 == 1 then Signed(TWO64 - 1 - u / 2, TWO63) else Signed(u / 2, TWO63)
  }

  // ---------------------------------------------------------------- reading

  /** Bytes up to and including the first one without its top bit; 0 when there is none. */
  function VarintLen(s: seq<Byte>): (n: nat)
    ensures n <= |s|
  {
    if s == [] then 0
    else if s[0] < 128 then 1
    else var n := VarintLen(s[1..]); if n == 0 then 0 else n + 1
  }

  function DecodeVarint(s: seq<Byte>): (p: Parse<nat>)
    ensures p.Ok? ==> |p.rest| < |s| && p.value < TWO64
  {
    var n := VarintLen(s);
    if 0 < n <= 10 then Ok(Base128(s[..n]) % TWO64, s[n..]) else Fail
  }

  function SkipVarint(s: seq<Byte>): (p: Parse<()>)
    ensures p.Ok? ==> |p.rest| < |s|
  {
    var n := VarintLen(s);
    if n > 0 then Ok((), s[n..]) else Fail
  }

  /** One more byte of a 32-bit varint is refused when its bits do not fit and do not
      continue the sign of a negative number. */
  predicate Overflows(b: Byte, bitpos: nat, result: nat) {
    && b % 128 != 0
    && (result / TWO31 == 0 || b != (if bitpos < 63 then 255 else 1))
  }

  /** The result after one more byte at bit position `bitpos`; None for an overflow. The
      byte at position 28 may keep only four of its bits when it is the last one. */
  function Varint32Byte(b: Byte, bitpos: nat, result: nat): (r: Option<nat>)
    requires result < TWO32
    ensures r.Some? ==> r.value < TWO32
  {
    if bitpos >= 32 then
      if Overflows(b, bitpos, result) then None else Some(result)
    else if bitpos + 7 == 35 && b < 128 && (b / 16) % 8 != 0 then None
    else
      Some(OrShifted(result, b % 128, bitpos, TWO32))
  }

  /** The second and later bytes of a 32-bit varint. */
  function Varint32Tail(s: seq<Byte>, bitpos: nat, result: nat): (p: Parse<nat>)
    requires result < TWO32
    ensures p.Ok? ==> |p.rest| < |s| && p.value < TWO32
  {
    if s == [] then Fail
    else
      match Varint32Byte(s[0], bitpos, result)
      case None => Fail
      case Some(result') => if s[0] >= 128 then Varint32Tail(s[1..], bitpos + 7, result') else Ok(result', s[1..])
  }

  function DecodeVarint32(s: seq<Byte>): (p: Parse<nat>)
    ensures p.Ok? ==> |p.rest| < |s| && p.value < TWO32
  {
    if s == [] then Fail
    else if s[0] < 128 then Ok(s[0], s[1..])
    else Varint32Tail(s[1..], 7, s[0] % 128)
  }

  // ----------------------------------------------- what a read depends on

  lemma {:induction false} VarintLenLocal(s: seq<Byte>, t: seq<Byte>)
    requires VarintLen(s) > 0
    ensures VarintLen(s[..VarintLen(s)] + t) == VarintLen(s)
  {
    var n := VarintLen(s);
    if s[0] >= 128 {
      VarintLenLocal(s[1..], t);
      assert (s[..n] + t)[1..] == s[1..][..n - 1] + t;
    }
  }

  /** A varint is read from its own bytes only. */
  lemma DecodeVarintLocal(s: seq<Byte>, t: seq<Byte>)
    requires DecodeVarint(s).Ok?
    ensures var p := DecodeVarint(s); var c := s[..|s| - |p.rest|];
            s == c + p.rest && DecodeVarint(c + t) == Ok(p.value, t) && SkipVarint(s) == Ok((), p.rest)
  {
    var n := VarintLen(s);
    VarintLenLocal(s, t);
    assert (s[..n] + t)[..n] == s[..n];
    assert (s[..n] + t)[n..] == t;
  }

  lemma SkipVarintLocal(s: seq<Byte>, t: seq<Byte>)
    requires SkipVarint(s).Ok?
    ensures var p := SkipVarint(s); var c := s[..|s| - |p.rest|];
            s == c + p.rest && SkipVarint(c + t) == Ok((), t)
  {
    var n := VarintLen(s);
    VarintLenLocal(s, t);
    assert (s[..n] + t)[n..] == t;
  }

  lemma {:induction false} Varint32TailLocal(s: seq<Byte>, bitpos: nat, result: nat, t: seq<Byte>)
    requires result < TWO32
    requires Varint32Tail(s, bitpos, result).Ok?
    ensures var p := Varint32Tail(s, bitpos, result); var n := |s| - |p.rest|;
            n == VarintLen(s) && s == s[..n] + p.rest && Varint32Tail(s[..n] + t, bitpos, result) == Ok(p.value, t)
  {
    var p := Varint32Tail(s, bitpos, result);
    var n := |s| - |p.rest|;
    assert (s[..n] + t)[0] == s[0];
    var result' := Varint32Byte(s[0], bitpos, result).value;
    if s[0] >= 128 {
      Varint32TailLocal(s[1..], bitpos + 7, result', t);
      assert (s[..n] + t)[1..] == s[1..][..n - 1] + t;
    } else {
      assert (s[..n] + t)[1..] == t;
    }
  }

  lemma DecodeVarint32Local(s: seq<Byte>, t: seq<Byte>)
    requires DecodeVarint32(s).Ok?
    ensures var p := DecodeVarint32(s); var c := s[..|s| - |p.rest|];
            s == c + p.rest && DecodeVarint32(c + t) == Ok(p.value, t) && SkipVarint(s) == Ok((), p.rest)
  {
    var p := DecodeVarint32(s);
    var n := |s| - |p.rest|;
    if s[0] >= 128 {
      Varint32TailLocal(s[1..], 7, s[0] % 128, t);
      assert (s[..n] + t)[1..] == s[1..][..n - 1] + t;
    } else {
      assert (s[..n] + t)[1..] == t;
    }
    assert s[n..] == p.rest;
  }

  // --------------------------------------------------- 64-bit round trips

  lemma {:induction false} EncodeVarintLen(v: nat, t: seq<Byte>)
    ensures VarintLen(EncodeVarint(v) + t) == |EncodeVarint(v)|
    ensures Base128(EncodeVarint(v)) == v
  {
    var e := EncodeVarint(v);
    if v >= 128 {
      EncodeVarintLen(v / 128, t);
      assert e[1..] == EncodeVarint(v / 128);
      assert (e + t)[1..] == EncodeVarint(v / 128) + t;
    } else {
      assert Base128([v]) == v % 128 + 128 * Base128([v][1..]);
    }
  }

  /** k bytes hold exactly the values below 2^(7k). */
  lemma {:induction false} EncodeVarintSize(v: nat, k: nat)
    requires k >= 1
    ensures |EncodeVarint(v)| <= k <==> v < Pow2(7 * k)
  {
    if k == 1 {
      Pow2Values();
    } else {
      SevenMore(k);
      EncodeVarintSize(v / 128, k - 1);
      DivBound(v, Pow2(7 * (k - 1)));
    }
  }

  lemma SevenMore(k: nat)
    requires k >= 1
    ensures Pow2(7 * k) == 128 * Pow2(7 * (k - 1)) && Pow2(7 * k) >= 128
  {
    assert 7 * k == 7 + 7 * (k - 1);
    Pow2Add(7, 7 * (k - 1));
    assert Pow2(7) == 128 by {
      Pow2Values();
    }
  }

  lemma DivBound(v: nat, p: nat)
    ensures v / 128 < p <==> v < 128 * p
  {
  }

  lemma EncodeVarintAtMostTen(v: nat)
    requires v < TWO64
    ensures |EncodeVarint(v)| <= 10
  {
    Pow2Values();
    Pow2Add(64, 6);
    EncodeVarintSize(v, 10);
  }

  /** Any value below 2^64, whatever follows it. */
  lemma VarintRoundTrip(v: nat, t: seq<Byte>)
    requires v < TWO64
    ensures |EncodeVarint(v)| <= 10
    ensures DecodeVarint(EncodeVarint(v) + t) == Ok(v, t)
  {
    var e := EncodeVarint(v);
    EncodeVarintAtMostTen(v);
    EncodeVarintLen(v, t);
    assert (e + t)[..|e|] == e;
    assert (e + t)[|e|..] == t;
  }

  /** No encoding is a prefix of another one. */
  lemma VarintPrefixFree(a: nat, b: nat)
    requires EncodeVarint(a) <= EncodeVarint(b)
    ensures a == b
  {
    var t := EncodeVarint(b)[|EncodeVarint(a)|..];
    assert EncodeVarint(b) == EncodeVarint(a) + t;
    EncodeVarintLen(a, t);
    EncodeVarintLen(b, []);
    assert EncodeVarint(b) + [] == EncodeVarint(b);
    assert EncodeVarint(a) == EncodeVarint(b);
    EncodeVarintLen(a, []);
  }

  /** The reader returns the base-128 number of the bytes up to the terminator, modulo 2^64,
      and succeeds exactly when one of the first ten bytes that are there is a terminator. */
  lemma VarintAccepts(s: seq<Byte>)
    ensures DecodeVarint(s).Ok? <==> exists i :: 0 <= i < |s| && i < 10 && s[i] < 128
    ensures DecodeVarint(s).Ok? ==>
              exists i :: 0 <= i < |s| && i < 10 && s[i] < 128 && (forall j :: 0 <= j < i ==> s[j] >= 128)
                          && DecodeVarint(s) == Ok(Base128(s[..i + 1]) % TWO64, s[i + 1..])
  {
    FirstTerminator(s);
    var n := VarintLen(s);
    if 0 < n <= 10 {
      assert s[n - 1] < 128 && s[..n - 1 + 1] == s[..n];
    }
  }

  lemma {:induction false} FirstTerminator(s: seq<Byte>)
    ensures var n := VarintLen(s);
            if n == 0 then forall j :: 0 <= j < |s| ==> s[j] >= 128
            else s[n - 1] < 128 && forall j :: 0 <= j < n - 1 ==> s[j] >= 128
  {
    if s != [] && s[0] >= 128 {
      FirstTerminator(s[1..]);
      assert forall j :: 1 <= j < |s| ==> s[j] == s[1..][j - 1];
    }
  }

  lemma Word64Of(v: int)
    requires -TWO64 <= v < TWO64
    ensures Word64(v) == if v < 0 then v + TWO64 else v
  {
  }

  lemma SignedOf64(u: nat)
    requires u < TWO64
    ensures Signed(u, TWO63) == if u < TWO63 then u else u - TWO64
  {
  }

  lemma ZigZagRoundTrip(v: int)
    requires -TWO63 <= v < TWO63
    ensures ZigZag(v) == (if v < 0 then -2 * v - 1 else 2 * v)
    ensures ZigZag(v) < TWO64 && UnZigZag(ZigZag(v)) == v
  {
    Word64Of(v);
    Word64Of(2 * v);
    if v < 0 {
      assert 2 * Word64(v) == (2 * v + TWO64) + TWO64;
      assert Word64(2 * Word64(v)) == 2 * v + TWO64;
      SignedOf64(TWO64 - 1 - ZigZag(v) / 2);
    } else {
      SignedOf64(v);
    }
  }

  /** Zigzag integers, every int64. */
  lemma SvarintRoundTrip(v: int, t: seq<Byte>)
    requires -TWO63 <= v < TWO63
    ensures var p := DecodeVarint(EncodeVarint(ZigZag(v)) + t);
            p.Ok? && p.rest == t && UnZigZag(p.value) == v
  {
    ZigZagRoundTrip(v);
    VarintRoundTrip(ZigZag(v), t);
  }

  lemma SignedWord64(v: int)
    requires -TWO63 <= v < TWO63
    ensures Word64(v) < TWO64 && Signed(Word64(v), TWO63) == v
  {
  }

  // ------------------------------ the 32-bit reader on 64-bit encodings

  /** The remaining digits `w`, from bit `bitpos` >= 35 on, only continue the sign. */
  predicate HighOk(w: nat, bitpos: nat, result: nat) {
    if w < 128 then bitpos >= 63 && result / TWO31 != 0 && w == 1
    else (w % 128 == 0 || (bitpos < 63 && result / TWO31 != 0 && w % 128 == 127)) && HighOk(w / 128, bitpos + 7, result)
  }

  lemma {:induction false} HighTail(w: nat, bitpos: nat, result: nat, t: seq<Byte>)
    requires w >= 1 && bitpos >= 35 && result < TWO32
    ensures Varint32Tail(EncodeVarint(w) + t, bitpos, result)
            == if HighOk(w, bitpos, result) then Ok(result, t) else Fail
  {
    var s := EncodeVarint(w) + t;
    if w < 128 {
      assert s[1..] == t;
    } else {
      assert s[1..] == EncodeVarint(w / 128) + t;
      HighTail(w / 128, bitpos + 7, result, t);
    }
  }

  lemma EncodeCons(v: nat, d: nat, w: nat, t: seq<Byte>)
    requires d < 128 && v == d + 128 * w
    ensures EncodeVarint(v) + t == if w == 0 then [d] + t else [128 + d] + (EncodeVarint(w) + t)
  {
    assert v / 128 == w && v % 128 == d;
  }

  lemma TailCons(b: Byte, t: seq<Byte>, bitpos: nat, result: nat)
    requires result < TWO32
    ensures Varint32Tail([b] + t, bitpos, result)
            == match Varint32Byte(b, bitpos, result)
               case None => Fail
               case Some(result') => if b >= 128 then Varint32Tail(t, bitpos + 7, result') else Ok(result', t)
  {
    assert ([b] + t)[1..] == t;
  }

  lemma LowPowers()
    ensures Pow2(7) == 0x80 && Pow2(14) == 0x4000 && Pow2(21) == 0x20_0000
  {
    Pow2Values();
    Pow2Add(7, 7);
    Pow2Add(14, 7);
  }

  /** A byte at bit position 7, 14 or 21. */
  lemma LowByte(b: Byte, bitpos: nat, p: nat, result: nat)
    requires (bitpos == 7 && p == 0x80) || (bitpos == 14 && p == 0x4000) || (bitpos == 21 && p == 0x20_0000)
    requires result < p
    ensures Varint32Byte(b, bitpos, result) == Some(result + (b % 128) * p)
  {
    var d := b % 128;
    LowPowers();
    ShlIs(d, bitpos);
    LowByteFits(d, p, result);
    SmallRemainder(result + d * p, TWO32);
    assert OrShifted(result, d, bitpos, TWO32) == result + d * p;
  }

  lemma LowByteFits(d: nat, p: nat, result: nat)
    requires p == 0x80 || p == 0x4000 || p == 0x20_0000
    requires result < p && d < 128
    ensures result + d * p < TWO32
  {
  }

  /** A byte at bit position 28: four of its bits are kept, and more are an error when it
      is the last byte. */
  lemma Byte28(b: Byte, result: nat)
    requires result < 0x1000_0000
    ensures Varint32Byte(b, 28, result) == if 16 <= b < 128 then None else Some(result + (b % 16) * 0x1000_0000)
  {
    Pow2Values();
    ShlIs(b % 128, 28);
    Low28Mod(b % 128, result);
    LowFour(b);
  }

  lemma LowFour(b: nat)
    ensures (b % 128) % 16 == b % 16
  {
  }

  lemma Low28Mod(d: nat, result: nat)
    requires result < 0x1000_0000
    ensures (result + d * 0x1000_0000) % TWO32 == result + d % 16 * 0x1000_0000
  {
    assert result + d * 0x1000_0000 == (result + d % 16 * 0x1000_0000) + (d / 16) * TWO32;
  }

  /** The digit d at bit position 28 and the digits w above it; x is the 32-bit result. */
  lemma LowTail28(v: nat, d: nat, w: nat, result: nat, x: nat, t: seq<Byte>)
    requires v == d + 128 * w && d < 128 && v >= 1 && result < 0x1000_0000 && x == result + (d % 16) * 0x1000_0000
    ensures x < TWO32
    ensures Varint32Tail(EncodeVarint(v) + t, 28, result)
            == if (w == 0 && d < 16) || (w > 0 && HighOk(w, 35, x)) then Ok(x, t) else Fail
  {
    EncodeCons(v, d, w, t);
    if w == 0 {
      Byte28(d, result);
      TailCons(d, t, 28, result);
    } else {
      Byte28(128 + d, result);
      assert (128 + d) % 16 == d % 16;
      TailCons(128 + d, EncodeVarint(w) + t, 28, result);
      HighTail(w, 35, x, t);
    }
  }

  /** One digit d below the digits w, at bit position 7, 14 or 21. */
  lemma LowTail(v: nat, d: nat, w: nat, bitpos: nat, p: nat, result: nat, t: seq<Byte>)
    requires (bitpos == 7 && p == 0x80) || (bitpos == 14 && p == 0x4000) || (bitpos == 21 && p == 0x20_0000)
    requires v == d + 128 * w && d < 128 && v >= 1 && result < p
    ensures Varint32Tail(EncodeVarint(v) + t, bitpos, result)
            == if w == 0 then Ok(result + d * p, t) else Varint32Tail(EncodeVarint(w) + t, bitpos + 7, result + d * p)
  {
    EncodeCons(v, d, w, t);
    if w == 0 {
      LowDigit(d, d, bitpos, p, result);
      TailStep(d, t, bitpos, result, result + d * p);
    } else {
      LowDigit(128 + d, d, bitpos, p, result);
      TailStep(128 + d, EncodeVarint(w) + t, bitpos, result, result + d * p);
    }
  }

  lemma LowDigit(b: Byte, d: nat, bitpos: nat, p: nat, result: nat)
    requires (bitpos == 7 && p == 0x80) || (bitpos == 14 && p == 0x4000) || (bitpos == 21 && p == 0x20_0000)
    requires result < p && d < 128 && (b == d || b == 128 + d)
    ensures Varint32Byte(b, bitpos, result) == Some(result + d * p)
    ensures result + d * p < 128 * p
  {
    QuotientAndRemainder(b, 128, if b == d then 0 else 1, d);
    LowByte(b, bitpos, p, result);
  }

  lemma TailStep(b: Byte, t: seq<Byte>, bitpos: nat, result: nat, next: nat)
    requires result < TWO32 && Varint32Byte(b, bitpos, result) == Some(next)
    ensures Varint32Tail([b] + t, bitpos, result) == if b >= 128 then Varint32Tail(t, bitpos + 7, next) else Ok(next, t)
  {
    TailCons(b, t, bitpos, result);
  }

  const TWO35: int := 0x8_0000_0000

  /** The 64-bit words, besides those below 2^32, whose encoding the 32-bit reader takes:
      bit 31 and bit 63 are set, and each of the four digits between bit 35 and bit 62
      is all zeros or all ones. */
  predicate SignExtension(v: nat) {
    var w := v / TWO35;
    && v >= TWO63
    && (v / TWO31) % 2 == 1
    && (w % 128 == 0 || w % 128 == 127)
    && ((w / 0x80) % 128 == 0 || (w / 0x80) % 128 == 127)
    && ((w / 0x4000) % 128 == 0 || (w / 0x4000) % 128 == 127)
    && ((w / 0x20_0000) % 128 == 0 || (w / 0x20_0000) % 128 == 127)
  }

  lemma HighOkFlat(w: nat, result: nat)
    requires w < 0x2000_0000
    ensures HighOk(w, 35, result) <==>
            && (w % 128 == 0 || (result / TWO31 != 0 && w % 128 == 127))
            && ((w / 0x80) % 128 == 0 || (result / TWO31 != 0 && (w / 0x80) % 128 == 127))
            && ((w / 0x4000) % 128 == 0 || (result / TWO31 != 0 && (w / 0x4000) % 128 == 127))
            && ((w / 0x20_0000) % 128 == 0 || (result / TWO31 != 0 && (w / 0x20_0000) % 128 == 127))
            && w / 0x1000_0000 == 1 && result / TWO31 != 0
  {
    var w1, w2, w3, w4 := w / 128, w / 128 / 128, w / 128 / 128 / 128, w / 128 / 128 / 128 / 128;
    assert w2 == w / 0x4000 && w3 == w / 0x20_0000 && w4 == w / 0x1000_0000;
    assert HighOk(w4, 63, result) <==> w4 == 1 && result / TWO31 != 0;
    assert HighOk(w3, 56, result) <==>
      w3 >= 128 && (w3 % 128 == 0 || (result / TWO31 != 0 && w3 % 128 == 127)) && HighOk(w4, 63, result);
    assert HighOk(w2, 49, result) <==>
      w2 >= 128 && (w2 % 128 == 0 || (result / TWO31 != 0 && w2 % 128 == 127)) && HighOk(w3, 56, result);
    assert HighOk(w1, 42, result) <==>
      w1 >= 128 && (w1 % 128 == 0 || (result / TWO31 != 0 && w1 % 128 == 127)) && HighOk(w2, 49, result);
  }

  /** The digits at bit positions 7, 14 and 21, below the digits w. */
  lemma Varint32LowDigits(w1: nat, w2: nat, w3: nat, w: nat, d0: nat, d1: nat, d2: nat, d3: nat, t: seq<Byte>)
    requires d0 < 128 && d1 < 128 && d2 < 128 && d3 < 128 && w1 >= 1
    requires w1 == d1 + 128 * w2 && w2 == d2 + 128 * w3 && w3 == d3 + 128 * w
    ensures var r := d0 + d1 * 0x80 + d2 * 0x4000 + d3 * 0x20_0000;
            Varint32Tail(EncodeVarint(w1) + t, 7, d0)
            == if w == 0 then Ok(r, t) else Varint32Tail(EncodeVarint(w) + t, 28, r)
  {
    var r2 := d0 + d1 * 0x80;
    LowTail(w1, d1, w2, 7, 0x80, d0, t);
    if w2 == 0 {
      assert d2 == 0 && d3 == 0 && w == 0;
    } else {
      Varint32MidDigits(w2, w3, w, r2, d2, d3, t);
    }
  }

  lemma Varint32MidDigits(w2: nat, w3: nat, w: nat, r2: nat, d2: nat, d3: nat, t: seq<Byte>)
    requires d2 < 128 && d3 < 128 && w2 >= 1 && r2 < 0x4000
    requires w2 == d2 + 128 * w3 && w3 == d3 + 128 * w
    ensures var r := r2 + d2 * 0x4000 + d3 * 0x20_0000;
            Varint32Tail(EncodeVarint(w2) + t, 14, r2)
            == if w == 0 then Ok(r, t) else Varint32Tail(EncodeVarint(w) + t, 28, r)
  {
    LowTail(w2, d2, w3, 14, 0x4000, r2, t);
    if w3 == 0 {
      assert d3 == 0 && w == 0;
    } else {
      LowTail(w3, d3, w, 21, 0x20_0000, r2 + d2 * 0x4000, t);
    }
  }

  lemma HighOkSign(v: nat)
    requires v < TWO64
    ensures HighOk(v / TWO35, 35, v % TWO32) <==> SignExtension(v)
  {
    HighOkFlat(v / TWO35, v % TWO32);
    assert (v % TWO32) / TWO31 == (v / TWO31) % 2;
    assert v / TWO35 / 0x1000_0000 == 1 <==> v >= TWO63;
  }

  lemma LowBits(v: nat, r: nat, d: nat, w: nat)
    requires r < 0x1000_0000 && d < 128 && v == r + d * 0x1000_0000 + w * TWO35
    ensures v % TWO32 == r + (d % 16) * 0x1000_0000
    ensures v / TWO35 == w
    ensures w == 0 && d < 16 <==> v < TWO32
  {
    var q, e := d / 16, d % 16;
    assert d == 16 * q + e;
    LowBitsSplit(v, r, q, e, w);
  }

  lemma LowBitsSplit(v: nat, r: nat, q: nat, e: nat, w: nat)
    requires r < 0x1000_0000 && e < 16 && q < 8 && v == r + (16 * q + e) * 0x1000_0000 + w * TWO35
    ensures v % TWO32 == r + e * 0x1000_0000
    ensures v / TWO35 == w
    ensures w == 0 && 16 * q + e < 16 <==> v < TWO32
  {
    assert v == (r + e * 0x1000_0000) + (q + 8 * w) * TWO32;
  }

  /** The 32-bit reader applied to the 64-bit encoding of any v: it accepts exactly the
      values below 2^32, and the words from 2^63 up that look like a sign-extended 32-bit
      negative; it returns v modulo 2^32. */
  lemma Varint32OfVarint(v: nat, t: seq<Byte>)
    requires v < TWO64
    ensures DecodeVarint32(EncodeVarint(v) + t)
            == if v < TWO32 || SignExtension(v) then Ok(v % TWO32, t) else Fail
  {
    var d0, w1 := Digit(v);
    var d1, w2 := Digit(w1);
    var d2, w3 := Digit(w2);
    var d3, w4 := Digit(w3);
    var d4, w5 := Digit(w4);
    Varint32OfDigits(v, w1, w2, w3, w4, w5, d0, d1, d2, d3, d4, t);
  }

  /** One of those words that extends no sign: bits 31 and 63 alone. It is taken for 2^31. */
  lemma NoSignButTaken(t: seq<Byte>)
    ensures var v := TWO63 + TWO31;
            && TWO32 <= v < TWO64 - TWO31
            && DecodeVarint32(EncodeVarint(v) + t) == Ok(TWO31, t)
  {
    var v := TWO63 + TWO31;
    assert v / TWO35 == 0x1000_0000 && v / TWO31 == 0x1_0000_0001 && v % TWO32 == TWO31;
    Varint32OfVarint(v, t);
  }

  lemma Digit(v: nat) returns (d: nat, w: nat)
    ensures d < 128 && v == d + 128 * w
  {
    d, w := v % 128, v / 128;
  }

  lemma Varint32OfDigits(v: nat, w1: nat, w2: nat, w3: nat, w4: nat, w5: nat,
                         d0: nat, d1: nat, d2: nat, d3: nat, d4: nat, t: seq<Byte>)
    requires v < TWO64 && d0 < 128 && d1 < 128 && d2 < 128 && d3 < 128 && d4 < 128
    requires v == d0 + 128 * w1 && w1 == d1 + 128 * w2 && w2 == d2 + 128 * w3 && w3 == d3 + 128 * w4
    requires w4 == d4 + 128 * w5
    ensures DecodeVarint32(EncodeVarint(v) + t)
            == if v < TWO32 || SignExtension(v) then Ok(v % TWO32, t) else Fail
  {
    Varint32First(v, d0, w1, t);
    if w1 == 0 {
      assert v < 128 && v % TWO32 == v;
    } else {
      Varint32LowDigits(w1, w2, w3, w4, d0, d1, d2, d3, t);
      Varint32HighDigits(v, w4, d0 + d1 * 0x80 + d2 * 0x4000 + d3 * 0x20_0000, d4, w5, t);
    }
  }

  lemma Varint32First(v: nat, d: nat, w: nat, t: seq<Byte>)
    requires d < 128 && v == d + 128 * w
    ensures DecodeVarint32(EncodeVarint(v) + t)
            == if w == 0 then Ok(d, t) else Varint32Tail(EncodeVarint(w) + t, 7, d)
  {
    EncodeCons(v, d, w, t);
    if w == 0 {
      DecodeVarint32Cons(d, t);
    } else {
      DecodeVarint32Cons(128 + d, EncodeVarint(w) + t);
      assert (128 + d) % 128 == d;
    }
  }

  lemma Varint32HighDigits(v: nat, u: nat, r: nat, d: nat, w: nat, t: seq<Byte>)
    requires u == d + 128 * w && d < 128
    requires r < 0x1000_0000 && v == r + u * 0x1000_0000 && v < TWO64
    ensures (if u == 0 then Ok(r, t) else Varint32Tail(EncodeVarint(u) + t, 28, r))
            == if v < TWO32 || SignExtension(v) then Ok(v % TWO32, t) else Fail
  {
    LowBits(v, r, d, w);
    assert HighOk(w, 35, v % TWO32) <==> SignExtension(v) by { HighOkSign(v); }
    assert w == 0 ==> !HighOk(w, 35, v % TWO32);
    if u > 0 {
      LowTail28(u, d, w, r, v % TWO32, t);
    }
  }

  lemma DecodeVarint32Cons(b: Byte, t: seq<Byte>)
    ensures DecodeVarint32([b] + t) == if b < 128 then Ok(b, t) else Varint32Tail(t, 7, b % 128)
  {
    assert ([b] + t)[1..] == t;
  }

  /** Below 2^63, where an encoding is canonical for the 32-bit reader too: accepted
      exactly when the value fits. */
  lemma Varint32Canonical(v: nat, t: seq<Byte>)
    requires v < TWO63
    ensures DecodeVarint32(EncodeVarint(v) + t) == if v < TWO32 then Ok(v, t) else Fail
  {
    assert !SignExtension(v) by {
      SmallIsNoExtension(v);
    }
    if v < TWO32 {
      SmallRemainder(v, TWO32);
    }
    Varint32OfVarint(v, t);
  }

  lemma SmallIsNoExtension(v: nat)
    requires v < TWO63
    ensures !SignExtension(v)
  {
  }

  lemma SignedOf32(u: nat)
    requires u < TWO32
    ensures Signed(u, TWO31) == if u < TWO31 then u else u - TWO32
  {
  }

  lemma NegativeIsSignExtension(v: nat)
    requires TWO64 - TWO31 <= v < TWO64
    ensures SignExtension(v) && v % TWO32 == v - (TWO64 - TWO32)
  {
    assert v / TWO35 == 0x1FFF_FFFF;
    assert v / TWO31 == 0x1_FFFF_FFFF;
  }

  /** A negative 32-bit integer is written as ten bytes and read back modulo 2^32. */
  lemma Varint32Negative(v: nat, t: seq<Byte>)
    requires TWO64 - TWO31 <= v < TWO64
    ensures DecodeVarint32(EncodeVarint(v) + t) == Ok(v % TWO32, t)
    ensures Signed(v % TWO32, TWO31) == v - TWO64
  {
    assert SignExtension(v) && v % TWO32 == v - (TWO64 - TWO32) by { NegativeIsSignExtension(v); }
    assert DecodeVarint32(EncodeVarint(v) + t) == Ok(v % TWO32, t) by { Varint32OfVarint(v, t); }
    SignedOf32(v % TWO32);
  }

  // ------------------------------------------------------------------- tags

  /** What the reader of a record's key finds: a field number and a wire type, the zero
      byte that ends a null-terminated message, the end of the data, or nonsense. */
  datatype TagResult =
    | Tag(number: nat, wireType: nat, rest: seq<Byte>)
    | ZeroTag(rest: seq<Byte>)
    | EndOfData
    | BadTag

  function DecodeTag(s: seq<Byte>): (r: TagResult)
    ensures r.Tag? ==> |r.rest| < |s| && r.number < 0x2000_0000 && r.wireType < 8
    ensures r.ZeroTag? ==> |r.rest| < |s|
    ensures s != [] ==> !r.EndOfData?
  {
    if s == [] then EndOfData
    else
      match DecodeVarint32(s)
      case Fail => BadTag
      case Ok(v, rest) => if v == 0 then ZeroTag(rest) else Tag(v / 8, v % 8, rest)
  }

  function EncodeTag(number: nat, wireType: nat): (s: seq<Byte>)
    ensures |s| >= 1
  {
    EncodeVarint(number * 8 + wireType)
  }

  lemma TagRoundTrip(number: nat, wireType: nat, t: seq<Byte>)
    requires 0 < number < 0x2000_0000 && wireType < 8
    ensures DecodeTag(EncodeTag(number, wireType) + t) == Tag(number, wireType, t)
  {
    var v := number * 8 + wireType;
    Varint32Canonical(v, t);
  }

  lemma DecodeTagLocal(s: seq<Byte>, t: seq<Byte>)
    requires DecodeTag(s).Tag? || DecodeTag(s).ZeroTag?
    ensures var r := DecodeTag(s); var c := s[..|s| - |r.rest|];
            s == c + r.rest && c != [] && DecodeTag(c + t) == r.(rest := t)
  {
    DecodeVarint32Local(s, t);
  }

  /** A zero byte where a key is expected. */
  lemma ZeroByteIsZeroTag(t: seq<Byte>)
    ensures DecodeTag([0] + t) == ZeroTag(t)
  {
    assert ([0] + t)[1..] == t;
  }
}
