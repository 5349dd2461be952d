/**
 `pb_istream_t` over a memory buffer, and the readers of pb_decode.c that move
 it byte by byte.
 */
module InputStream {
  import opened Wire
  import opened Varint
  import opened Decode

  class IStream {
    // The caller's buffer, which is never written.
    const source: seq<Byte>
    // `state`: where the next byte is read.
    var pos: nat
    var bytesLeft: nat

    ghost predicate Valid()
      reads this
    {
      pos + bytesLeft <= |source|
    }

    /** The bytes that can still be read. */
    ghost function Rest(): (s: seq<Byte>)
      reads this
      requires Valid()
      ensures |s| == bytesLeft
    {
      source[pos..pos + bytesLeft]
    }

    /** Where the stream ends in its buffer; reading never moves it. */
    ghost function End(): nat
      reads this
    {
      pos + bytesLeft
    }

    constructor FromBuffer(buf: seq<Byte>)
      ensures Valid() && source == buf && pos == 0 && Rest() == buf
    {
      source := buf;
      pos, bytesLeft := 0, |buf|;
    }

    constructor Window(buf: seq<Byte>, at: nat, size: nat)
      requires at + size <= |buf|
      ensures Valid() && source == buf && pos == at && bytesLeft == size
    {
      source := buf;
      pos, bytesLeft := at, size;
    }

    /** `pb_readbyte` */
    method ReadByte() returns (ok: bool, b: Byte)
      requires Valid()
      modifies this
      ensures Valid() && End() == old(End())
      ensures ok <==> old(Rest()) != []
      ensures ok ==> b == old(Rest())[0] && Rest() == old(Rest())[1..]
      ensures !ok ==> Rest() == old(Rest()) && bytesLeft == 0
    {
      if bytesLeft == 0 {
        return false, 0;
      }
      b := source[pos];
      pos := pos + 1;
      bytesLeft := bytesLeft - 1;
      ok := true;
    }

    /** `pb_read` */
    method Read(count: nat) returns (ok: bool, data: seq<Byte>)
      requires Valid()
      modifies this
      ensures Valid() && End() == old(End())
      ensures ok <==> Take(count, old(Rest())).Ok?
      ensures ok ==> data == Take(count, old(Rest())).value && Rest() == Take(count, old(Rest())).rest
      ensures !ok ==> Rest() == old(Rest())
    {
      if count == 0 {
        assert Rest()[..0] == [] && Rest()[0..] == Rest();
        return true, [];
      }
      if bytesLeft < count {
        return false, [];
      }
      data := source[pos..pos + count];
      assert data == Rest()[..count];
      pos := pos + count;
      bytesLeft := bytesLeft - count;
      ok := true;
    }

    /** `pb_decode_varint32_eof` */
    method DecodeVarint32Eof() returns (ok: bool, dest: nat, eof: bool)
      requires Valid()
      modifies this
      ensures Valid() && End() == old(End())
      ensures ok <==> DecodeVarint32(old(Rest())).Ok?
      ensures ok ==> dest == DecodeVarint32(old(Rest())).value && Rest() == DecodeVarint32(old(Rest())).rest
      ensures eof <==> old(Rest()) == []
    {
      ghost var s := Rest();
      dest, eof := 0, false;
      var b: Byte;
      ok, b := ReadByte();
      if !ok {
        return false, 0, bytesLeft == 0;
      }
      if b < 128 {
        dest := b;
        return;
      }
      var bitpos: nat := 7;
      var result: nat := b % 128;
      while b >= 128
        invariant Valid() && End() == old(End()) && ok && result < TWO32
        invariant b >= 128 ==> DecodeVarint32(s) == Varint32Tail(Rest(), bitpos, result)
        invariant b < 128 ==>
                    DecodeVarint32(s) == if bitpos == 35 && (b / 16) % 8 != 0 then Fail else Ok(result, Rest())
        decreases bytesLeft, b
      {
        ok, b := ReadByte();
        if !ok {
          return false, 0, false;
        }
        if bitpos >= 32 {
          if Overflows(b, bitpos, result) {
            return false, 0, false;
          }
        } else {
          result := OrShifted(result, b % 128, bitpos, TWO32);
        }
        bitpos := bitpos + 7;
      }
      if bitpos == 35 && (b / 16) % 8 != 0 {
        return false, 0, false;
      }
      dest := result;
    }

    /** `pb_decode_varint` */
    method DecodeVarint64() returns (ok: bool, dest: nat)
      requires Valid()
      modifies this
      ensures Valid() && End() == old(End())
      ensures ok <==> DecodeVarint(old(Rest())).Ok?
      ensures ok ==> dest == DecodeVarint(old(Rest())).value && Rest() == DecodeVarint(old(Rest())).rest
    {
      ghost var s := Rest();
      ghost var k := 0;
      var b: Byte := 128;
      var bitpos: nat := 0;
      dest, ok := 0, true;
      while b >= 128
        invariant Valid() && End() == old(End()) && ok
        invariant k <= |s| && k <= 10 && bitpos == 7 * k && Rest() == s[k..]
        invariant dest == Base128(s[..k]) % TWO64
        invariant if b >= 128 then forall j :: 0 <= j < k ==> s[j] >= 128
                  else k > 0 && s[k - 1] < 128 && forall j :: 0 <= j < k - 1 ==> s[j] >= 128
        decreases |s| - k, b
      {
        if bitpos >= 64 {
          NoTerminator(s, k);
          return false, 0;
        }
        ok, b := ReadByte();
        if !ok {
          NoTerminator(s, k);
          return false, 0;
        }
        OrDigit(s, k);
        dest := OrShifted(dest, b % 128, bitpos, TWO64);
        bitpos := bitpos + 7;
        k := k + 1;
      }
      TerminatorAt(s, k - 1);
    }

    /** `pb_skip_varint` */
    method SkipVarintBytes() returns (ok: bool)
      requires Valid()
      modifies this
      ensures Valid() && End() == old(End())
      ensures ok <==> SkipVarint(old(Rest())).Ok?
      ensures ok ==> Rest() == SkipVarint(old(Rest())).rest
    {
      ghost var s := Rest();
      ghost var k := 0;
      var b: Byte := 128;
      ok := true;
      while b >= 128
        invariant Valid() && End() == old(End()) && ok
        invariant k <= |s| && Rest() == s[k..]
        invariant if b >= 128 then forall j :: 0 <= j < k ==> s[j] >= 128
                  else k > 0 && s[k - 1] < 128 && forall j :: 0 <= j < k - 1 ==> s[j] >= 128
        decreases |s| - k, b
      {
        var data;
        ok, data := Read(1);
        if !ok {
          NoTerminator(s, k);
          return;
        }
        b := data[0];
        k := k + 1;
      }
      TerminatorAt(s, k - 1);
    }

    /** `pb_skip_string` */
    method SkipString() returns (ok: bool)
      requires Valid()
      modifies this
      ensures Valid() && End() == old(End())
      ensures ok <==> Delimited(old(Rest())).Ok?
      ensures ok ==> Rest() == Delimited(old(Rest())).rest
    {
      var length, eof, data;
      ok, length, eof := DecodeVarint32Eof();
      if ok {
        ok, data := Read(length);
      }
    }

    /** `pb_decode_tag` */
    method ReadTag() returns (ok: bool, wireType: nat, tag: nat, eof: bool)
      requires Valid()
      modifies this
      ensures Valid() && End() == old(End())
      ensures match DecodeTag(old(Rest()))
              case Tag(number, wt, rest) => ok && tag == number && wireType == wt && Rest() == rest
              case ZeroTag(rest) => !ok && eof && Rest() == rest
              case EndOfData => !ok && eof
              case BadTag => !ok && !eof
    {
      wireType, tag := 0, 0;
      var temp;
      ok, temp, eof := DecodeVarint32Eof();
      if !ok {
        return;
      }
      if temp == 0 {
        return false, 0, 0, true;
      }
      tag, wireType := temp / 8, temp % 8;
    }

    /** `pb_skip_field` */
    method SkipValue(wireType: nat) returns (ok: bool)
      requires Valid()
      modifies this
      ensures Valid() && End() == old(End())
      ensures ok <==> SkipField(wireType, old(Rest())).Ok?
      ensures ok ==> Rest() == SkipField(wireType, old(Rest())).rest
    {
      var data;
      if wireType == WT_VARINT {
        ok := SkipVarintBytes();
      } else if wireType == WT_64BIT {
        ok, data := Read(8);
      } else if wireType == WT_STRING {
        ok := SkipString();
      } else if wireType == WT_32BIT {
        ok, data := Read(4);
      } else {
        ok := false;
      }
    }

    /** `pb_make_string_substream`: the bytes of the value now belong to the substream, and
        this stream is about to continue behind them. */
    method MakeSubstream() returns (ok: bool, sub: IStream)
      requires Valid()
      modifies this
      ensures fresh(sub) && sub.Valid() && sub.source == source
      ensures ok <==> Delimited(old(Rest())).Ok?
      ensures ok ==> sub.Rest() == Delimited(old(Rest())).value && sub.pos == pos
      ensures ok ==> sub.End() + bytesLeft == old(End())
      ensures ok ==> source[sub.End()..sub.End() + bytesLeft] == Delimited(old(Rest())).rest
      ensures !ok ==> Valid() && End() == old(End())
    {
      var size, eof;
      ok, size, eof := DecodeVarint32Eof();
      if !ok || bytesLeft < size {
        sub := new IStream.Window(source, pos, 0);
        return false, sub;
      }
      ghost var rest := Rest();
      sub := new IStream.Window(source, pos, size);
      bytesLeft := bytesLeft - size;
      assert sub.Rest() == rest[..size];
      assert source[sub.End()..sub.End() + bytesLeft] == rest[size..];
    }

    /** `pb_close_string_substream`: whatever the substream left unread is skipped. */
    method CloseSubstream(sub: IStream) returns (ok: bool)
      requires sub != this && sub.Valid() && sub.source == source && sub.End() + bytesLeft <= |source|
      modifies this, sub
      ensures ok && Valid() && pos == old(sub.End()) && bytesLeft == old(bytesLeft)
      ensures Rest() == source[old(sub.End())..old(sub.End()) + bytesLeft]
    {
      if sub.bytesLeft != 0 {
        var data;
        ok, data := sub.Read(sub.bytesLeft);
        if !ok {
          return;
        }
      }
      pos := sub.pos;
      ok := true;
    }
  }

  // ------------------------------------------------------ about the loops

  lemma TerminatorAt(s: seq<Byte>, i: nat)
    requires i < |s| && s[i] < 128 && forall j :: 0 <= j < i ==> s[j] >= 128
    ensures VarintLen(s) == i + 1
  {
    FirstTerminator(s);
    var n := VarintLen(s);
    if n > 0 {
      assert !(n - 1 < i) && !(i < n - 1);
    }
  }

  /** No terminator among the first k bytes, and k is ten or the end of the data. */
  lemma NoTerminator(s: seq<Byte>, k: nat)
    requires k <= |s| && forall j :: 0 <= j < k ==> s[j] >= 128
    ensures VarintLen(s) == 0 || VarintLen(s) > k
  {
    FirstTerminator(s);
  }

  lemma ModAdd(a: nat, b: nat, m: nat)
    requires m > 0
    ensures (a % m + b) % m == (a + b) % m
  {
    var q := a / m;
    assert a + b == q * m + (a % m + b);
    ModMultiple(a % m + b, q, m);
  }

  lemma {:induction false} ModMultiple(x: nat, q: nat, m: nat)
    requires m > 0
    ensures (q * m + x) % m == x % m
  {
    if q > 0 {
      ModMultiple(x, q - 1, m);
      assert q * m + x == ((q - 1) * m + x) + m;
      ModPlusOne((q - 1) * m + x, m);
    }
  }

  lemma ModPlusOne(y: nat, m: nat)
    requires m > 0
    ensures (y + m) % m == y % m
  {
    QuotientAndRemainder(y + m, m, y / m + 1, y % m);
  }

  /** One more digit of the base-128 number. */
  lemma OrDigit(s: seq<Byte>, k: nat)
    requires k < |s|
    ensures OrShifted(Base128(s[..k]) % TWO64, s[k] % 128, 7 * k, TWO64) == Base128(s[..k + 1]) % TWO64
  {
    assert s[..k + 1] == s[..k] + [s[k]];
    Base128Append(s[..k], s[k]);
    ShlIs(s[k] % 128, 7 * k);
    ModAdd(Base128(s[..k]), Shl(s[k] % 128, 7 * k), TWO64);
  }
}
