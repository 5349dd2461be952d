/**
 What a stream of records means to the decoder: a record is read from its own
 bytes only, and a run over a sequence of records is a fold over it.
 */
module Records {
  import opened Wire
  import opened Varint
  import opened Schema
  import opened Decode

  // ------------------------------------- every reader reads its own bytes

  ghost predicate Local<T>(s: seq<Byte>, p: Parse<T>, t: seq<Byte>, q: Parse<T>) {
    p.Ok? && |p.rest| <= |s| && s == s[..|s| - |p.rest|] + p.rest && q == Ok(p.value, t)
  }

  /** The bytes that a successful parse has consumed. */
  function Consumed<T>(s: seq<Byte>, p: Parse<T>): seq<Byte>
    requires p.Ok? && |p.rest| <= |s|
  {
    s[..|s| - |p.rest|]
  }

  lemma DelimitedLocal(s: seq<Byte>, t: seq<Byte>)
    requires Delimited(s).Ok?
    ensures Local(s, Delimited(s), t, Delimited(Consumed(s, Delimited(s)) + t))
    ensures SkipField(WT_STRING, s) == Ok((), Delimited(s).rest)
  {
    var p := Delimited(s);
    var q := DecodeVarint32(s);
    var c := s[..|s| - |q.rest|];
    DecodeVarint32Local(s, p.value + t);
    assert Consumed(s, p) == c + p.value;
    assert Consumed(s, p) + t == c + (p.value + t);
    assert (p.value + t)[..|p.value|] == p.value;
    assert (p.value + t)[|p.value|..] == t;
  }

  lemma DelimitedRoundTrip(body: seq<Byte>, t: seq<Byte>)
    requires |body| < TWO32
    ensures Delimited(EncodeVarint(|body|) + (body + t)) == Ok(body, t)
  {
    Varint32Canonical(|body|, body + t);
    assert (body + t)[..|body|] == body && (body + t)[|body|..] == t;
  }

  lemma TakeLocal(n: nat, s: seq<Byte>, t: seq<Byte>)
    requires Take(n, s).Ok?
    ensures Local(s, Take(n, s), t, Take(n, Consumed(s, Take(n, s)) + t))
  {
    assert Consumed(s, Take(n, s)) == s[..n];
    assert (s[..n] + t)[..n] == s[..n];
    assert (s[..n] + t)[n..] == t;
  }

  lemma SkipLocal(wireType: nat, s: seq<Byte>, t: seq<Byte>)
    requires SkipField(wireType, s).Ok?
    ensures Local(s, SkipField(wireType, s), t, SkipField(wireType, Consumed(s, SkipField(wireType, s)) + t))
  {
    if wireType == WT_VARINT {
      SkipVarintLocal(s, t);
    } else if wireType == WT_STRING {
      DelimitedLocal(s, t);
    } else {
      var n := if wireType == WT_64BIT then 8 else 4;
      assert (s[..n] + t)[n..] == t;
    }
  }

  lemma ScalarLocal(f: Field, s: seq<Byte>, t: seq<Byte>)
    requires DecodeScalar(f, s).Ok?
    ensures Local(s, DecodeScalar(f, s), t, DecodeScalar(f, Consumed(s, DecodeScalar(f, s)) + t))
  {
    match f.ltype
    case LBool => DecodeVarint32Local(s, t);
    case LVarint => DecodeVarintLocal(s, t);
    case LUVarint => DecodeVarintLocal(s, t);
    case LSVarint => DecodeVarintLocal(s, t);
    case LFixed32 => TakeLocal(4, s, t);
    case LFixed64 => TakeLocal(8, s, t);
    case LBytes => DelimitedLocal(s, t);
    case LString => DelimitedLocal(s, t);
    case LFixedLengthBytes => DelimitedLocal(s, t);
    case LSubmessage =>
    case LExtension =>
  }

  lemma ValueLocal(f: Field, cur: Value, s: seq<Byte>, t: seq<Byte>)
    requires DecodeValue(f, cur, s).Ok?
    ensures Local(s, DecodeValue(f, cur, s), t, DecodeValue(f, cur, Consumed(s, DecodeValue(f, cur, s)) + t))
  {
    if f.ltype.LSubmessage? {
      DelimitedLocal(s, t);
    } else {
      ScalarLocal(f, s, t);
    }
  }

  lemma StaticLocal(f: Field, wireType: nat, slot: Slot, size: nat, s: seq<Byte>, t: seq<Byte>)
    requires DecodeStatic(f, wireType, slot, size, s).Ok?
    ensures var p := DecodeStatic(f, wireType, slot, size, s);
            Local(s, p, t, DecodeStatic(f, wireType, slot, size, Consumed(s, p) + t))
  {
    if ReadsPacked(f, wireType) {
      DelimitedLocal(s, t);
    } else {
      ValueLocal(f, ValueBefore(f, slot), s, t);
    }
  }

  lemma KnownLocal(fields: seq<Field>, i: nat, wireType: nat, st: State, s: seq<Byte>, t: seq<Byte>)
    requires i < |fields| && DecodeKnown(fields, i, wireType, st, s).Next?
    ensures var r := DecodeKnown(fields, i, wireType, st, s); var c := s[..|s| - |r.rest|];
            s == c + r.rest && DecodeKnown(fields, i, wireType, st, c + t) == Next(r.st, t)
  {
    StaticLocal(fields[i], wireType, SlotAt(st.msg, Offset(fields, i)), CountBefore(fields, i, st), s, t);
  }

  lemma UnknownLocal(fields: seq<Field>, tag: nat, wireType: nat, st: State, s: seq<Byte>, t: seq<Byte>)
    requires DecodeUnknown(fields, tag, wireType, st, s).Next?
    ensures var r := DecodeUnknown(fields, tag, wireType, st, s); var c := s[..|s| - |r.rest|];
            s == c + r.rest && r.st == st && DecodeUnknown(fields, tag, wireType, st, c + t) == Next(st, t)
  {
    if fields == [] && tag == 0 {
      DecodeVarint32Local(s, t);
    } else {
      SkipLocal(wireType, s, t);
    }
  }

  /** What follows the key of a record. */
  function DecodeBody(fields: seq<Field>, st: State, tag: nat, wireType: nat, s: seq<Byte>): (r: Step)
    ensures !r.Stop? && (r.Next? ==> |r.rest| < |s|)
  {
    match FindTag(fields, tag)
    case None => DecodeUnknown(fields, tag, wireType, st, s)
    case Some(i) => DecodeKnown(fields, i, wireType, st, s)
  }

  lemma BodyLocal(fields: seq<Field>, st: State, tag: nat, wireType: nat, s: seq<Byte>, t: seq<Byte>)
    requires DecodeBody(fields, st, tag, wireType, s).Next?
    ensures var r := DecodeBody(fields, st, tag, wireType, s); var c := s[..|s| - |r.rest|];
            s == c + r.rest && DecodeBody(fields, st, tag, wireType, c + t) == Next(r.st, t)
  {
    match FindTag(fields, tag) {
      case None => UnknownLocal(fields, tag, wireType, st, s, t);
      case Some(i) => KnownLocal(fields, i, wireType, st, s, t);
    }
  }

  lemma RecordIsBody(fields: seq<Field>, st: State, s: seq<Byte>)
    requires DecodeTag(s).Tag?
    ensures s != []
    ensures var k := DecodeTag(s); DecodeRecord(fields, st, s) == DecodeBody(fields, st, k.number, k.wireType, k.rest)
  {
  }

  lemma TwoCuts(a: seq<Byte>, b: seq<Byte>, rest: seq<Byte>, t: seq<Byte>)
    ensures var s := a + (b + rest); s[..|s| - |rest|] == a + b && s == (a + b) + rest
    ensures (a + b) + t == a + (b + t)
  {
  }

  /** A record is decoded from its own bytes, whatever comes after it. */
  lemma RecordLocal(fields: seq<Field>, st: State, s: seq<Byte>, t: seq<Byte>)
    requires s != [] && DecodeRecord(fields, st, s).Next?
    ensures var r := DecodeRecord(fields, st, s); var c := s[..|s| - |r.rest|];
            s == c + r.rest && c != [] && DecodeRecord(fields, st, c + t) == Next(r.st, t)
  {
    var r := DecodeRecord(fields, st, s);
    var k := DecodeTag(s);
    var c := s[..|s| - |r.rest|];
    var c1 := s[..|s| - |k.rest|];
    var c2 := k.rest[..|k.rest| - |r.rest|];
    RecordIsBody(fields, st, s);
    BodyLocal(fields, st, k.number, k.wireType, k.rest, t);
    DecodeTagLocal(s, c2 + t);
    TwoCuts(c1, c2, r.rest, t);
    RecordIsBody(fields, st, c + t);
  }

  // ------------------------------------------------------------- merging

  /** Where a run over `a` has used up its input without meeting a zero tag, the run over
      `a + b` goes on with `b`: same final state, same failure. */
  lemma {:induction false} RunConcat(fields: seq<Field>, st: State, a: seq<Byte>, b: seq<Byte>)
    requires var r := DecodeRecords(fields, st, a); r.Done? && !r.zero
    ensures DecodeRecords(fields, st, a + b) == DecodeRecords(fields, DecodeRecords(fields, st, a).st, b)
    decreases |a|
  {
    if a == [] {
      assert a + b == b;
    } else {
      var r := DecodeRecord(fields, st, a);
      RecordLocal(fields, st, a, r.rest + b);
      assert a + b == a[..|a| - |r.rest|] + (r.rest + b);
      RunConcat(fields, r.st, r.rest, b);
    }
  }
}
