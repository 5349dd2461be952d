/**
 Sequences of whole records: the decoder folds over them, records of different
 storage commute, and records of unknown fields leave no trace.
 */
module Frames {
  import opened Wire
  import opened Varint
  import opened Schema
  import opened Decode
  import opened Records

  /** The wire type fits the field: its own one, or the one of packed arrays. */
  predicate Compatible(f: Field, wireType: nat) {
    wireType == WireType(f.ltype) || ReadsPacked(f, wireType)
  }

  /** `r` is one whole record: a key other than the zero tag, and a value that ends where
      its wire type says. */
  ghost predicate Framed(fields: seq<Field>, r: seq<Byte>) {
    && DecodeTag(r).Tag?
    && var k := DecodeTag(r);
    && SkipField(k.wireType, k.rest) == Ok((), [])
    && match FindTag(fields, k.number)
       case None => fields != [] || k.number != 0
       case Some(i) => Compatible(fields[i], k.wireType)
  }

  lemma ScalarExtent(f: Field, s: seq<Byte>)
    requires DecodeScalar(f, s).Ok?
    ensures SkipField(WireType(f.ltype), s) == Ok((), DecodeScalar(f, s).rest)
  {
    match f.ltype
    case LBool => DecodeVarint32Local(s, []);
    case LVarint => DecodeVarintLocal(s, []);
    case LUVarint => DecodeVarintLocal(s, []);
    case LSVarint => DecodeVarintLocal(s, []);
    case LFixed32 =>
    case LFixed64 =>
    case LBytes => DelimitedLocal(s, []);
    case LString => DelimitedLocal(s, []);
    case LFixedLengthBytes => DelimitedLocal(s, []);
    case LSubmessage =>
    case LExtension =>
  }

  /** A value decoder that succeeds stops where a skip by wire type would. */
  lemma StaticExtent(f: Field, wireType: nat, slot: Slot, size: nat, s: seq<Byte>)
    requires Compatible(f, wireType) && DecodeStatic(f, wireType, slot, size, s).Ok?
    ensures SkipField(wireType, s) == Ok((), DecodeStatic(f, wireType, slot, size, s).rest)
  {
    if ReadsPacked(f, wireType) {
      DelimitedLocal(s, []);
    } else if f.ltype.LSubmessage? {
      DelimitedLocal(s, []);
    } else {
      ScalarExtent(f, s);
    }
  }

  lemma BodyExtent(fields: seq<Field>, st: State, tag: nat, wireType: nat, s: seq<Byte>)
    requires DecodeBody(fields, st, tag, wireType, s).Next?
    requires match FindTag(fields, tag)
             case None => fields != [] || tag != 0
             case Some(i) => Compatible(fields[i], wireType)
    ensures SkipField(wireType, s) == Ok((), DecodeBody(fields, st, tag, wireType, s).rest)
  {
    match FindTag(fields, tag) {
      case None =>
      case Some(i) =>
        StaticExtent(fields[i], wireType, SlotAt(st.msg, Offset(fields, i)), CountBefore(fields, i, st), s);
    }
  }

  /** What one whole record does to the decoder; None when it is refused. */
  function Effect(fields: seq<Field>, st: State, r: seq<Byte>): Option<State>
    requires DecodeTag(r).Tag?
  {
    var k := DecodeTag(r);
    var b := DecodeBody(fields, st, k.number, k.wireType, k.rest);
    if b.Next? then Some(b.st) else None
  }

  /** The bytes after a whole record change neither its outcome nor its end. */
  lemma BodyThen(fields: seq<Field>, st: State, tag: nat, wireType: nat, s: seq<Byte>, t: seq<Byte>)
    requires SkipField(wireType, s) == Ok((), [])
    requires match FindTag(fields, tag)
             case None => fields != [] || tag != 0
             case Some(i) => Compatible(fields[i], wireType)
    ensures var b := DecodeBody(fields, st, tag, wireType, s);
            DecodeBody(fields, st, tag, wireType, s + t) == if b.Next? then Next(b.st, t) else Stuck
  {
    var b := DecodeBody(fields, st, tag, wireType, s);
    if b.Next? {
      BodyExtent(fields, st, tag, wireType, s);
      BodyLocal(fields, st, tag, wireType, s, t);
      assert s[..|s| - |b.rest|] == s;
    }
    var b' := DecodeBody(fields, st, tag, wireType, s + t);
    if b'.Next? {
      BodyExtent(fields, st, tag, wireType, s + t);
      SkipLocal(wireType, s, t);
      assert Consumed(s, SkipField(wireType, s)) == s;
      BodyLocal(fields, st, tag, wireType, s + t, []);
      assert (s + t)[..|s|] + [] == s;
    }
  }

  lemma RunCons(fields: seq<Field>, st: State, r: seq<Byte>, t: seq<Byte>)
    requires Framed(fields, r)
    ensures DecodeRecords(fields, st, r + t)
            == match Effect(fields, st, r)
               case None => Failed
               case Some(st') => DecodeRecords(fields, st', t)
  {
    var k := DecodeTag(r);
    DecodeTagLocal(r, k.rest + t);
    assert r + t == r[..|r| - |k.rest|] + (k.rest + t);
    BodyThen(fields, st, k.number, k.wireType, k.rest, t);
    RecordIsBody(fields, st, r + t);
  }

  /** A search for the tag of entry i finds entry i. */
  ghost predicate Found(fields: seq<Field>, i: nat) {
    i < |fields| && 0 < fields[i].tag < 0x2000_0000 && FindTag(fields, fields[i].tag) == Some(i)
  }

  lemma WfFound(fields: seq<Field>, i: nat)
    requires WfSchema(fields) && i < |fields|
    ensures Found(fields, i)
  {
    assert WfField(fields[i]);
    FindTagUnique(fields, i);
  }

  /** The effect of a record of field i is that of its value decoder. */
  lemma KnownEffect(fields: seq<Field>, i: nat, wireType: nat, st: State, s: seq<Byte>)
    requires Found(fields, i) && wireType < 8
    requires Compatible(fields[i], wireType) && SkipField(wireType, s) == Ok((), [])
    ensures var r := EncodeTag(fields[i].tag, wireType) + s; var b := DecodeKnown(fields, i, wireType, st, s);
            Framed(fields, r) && Effect(fields, st, r) == if b.Next? then Some(b.st) else None
  {
    TagRoundTrip(fields[i].tag, wireType, s);
  }

  lemma KnownThen(fields: seq<Field>, i: nat, wireType: nat, st: State, s: seq<Byte>)
    requires Found(fields, i) && wireType < 8
    ensures DecodeRecords(fields, st, EncodeTag(fields[i].tag, wireType) + s)
            == var b := DecodeKnown(fields, i, wireType, st, s);
               if b.Next? then DecodeRecords(fields, b.st, b.rest) else Failed
  {
    TagRoundTrip(fields[i].tag, wireType, s);
    RecordIsBody(fields, st, EncodeTag(fields[i].tag, wireType) + s);
  }

  function Concat(rs: seq<seq<Byte>>): seq<Byte> {
    if rs == [] then [] else rs[0] + Concat(rs[1..])
  }

  lemma {:induction false} ConcatPlus(a: seq<seq<Byte>>, b: seq<seq<Byte>>)
    ensures Concat(a + b) == Concat(a) + Concat(b)
  {
    if a == [] {
      assert a + b == b;
    } else {
      ConcatPlus(a[1..], b);
      ConcatCons(a[0], a[1..] + b);
      assert [a[0]] + (a[1..] + b) == a + b;
      Associative(a[0], Concat(a[1..]), Concat(b));
    }
  }

  lemma ConcatCons(r: seq<Byte>, rs: seq<seq<Byte>>)
    ensures Concat([r] + rs) == r + Concat(rs)
  {
    assert ([r] + rs)[1..] == rs;
  }

  lemma Associative<T>(a: seq<T>, b: seq<T>, c: seq<T>)
    ensures a + (b + c) == (a + b) + c
  {
  }

  ghost predicate AllFramed(fields: seq<Field>, rs: seq<seq<Byte>>) {
    forall i :: 0 <= i < |rs| ==> Framed(fields, rs[i])
  }

  function Fold(fields: seq<Field>, st: State, rs: seq<seq<Byte>>): Option<State>
    requires forall i :: 0 <= i < |rs| ==> DecodeTag(rs[i]).Tag?
    decreases |rs|
  {
    if rs == [] then Some(st)
    else
      match Effect(fields, st, rs[0])
      case None => None
      case Some(st') => Fold(fields, st', rs[1..])
  }

  /** A run over whole records, followed by anything, is a fold over the records. */
  lemma {:induction false} RunIsFold(fields: seq<Field>, st: State, rs: seq<seq<Byte>>, t: seq<Byte>)
    requires AllFramed(fields, rs)
    ensures DecodeRecords(fields, st, Concat(rs) + t)
            == match Fold(fields, st, rs)
               case None => Failed
               case Some(st') => DecodeRecords(fields, st', t)
    decreases |rs|
  {
    if rs == [] {
      assert Concat(rs) + t == t;
    } else {
      var u := Concat(rs[1..]) + t;
      assert Concat(rs) + t == rs[0] + u;
      RunCons(fields, st, rs[0], u);
      match Effect(fields, st, rs[0]) {
        case None =>
        case Some(st') => RunIsFold(fields, st', rs[1..], t);
      }
    }
  }

  // ------------------------------------------------------ unknown fields

  lemma UnknownEffect(fields: seq<Field>, st: State, u: seq<Byte>)
    requires Framed(fields, u) && FindTag(fields, DecodeTag(u).number).None?
    ensures Effect(fields, st, u) == Some(st)
  {
  }

  /** Forward compatibility: a whole record of a field that the schema does not have, put
      between any two records, changes nothing, whatever its wire type. */
  lemma UnknownFieldTransparent(fields: seq<Field>, m: Msg, rs: seq<seq<Byte>>, u: seq<Byte>, t: seq<Byte>)
    requires AllFramed(fields, rs) && Framed(fields, u) && FindTag(fields, DecodeTag(u).number).None?
    ensures DecodeNoinit(fields, Concat(rs) + u + t, m) == DecodeNoinit(fields, Concat(rs) + t, m)
  {
    var st := Start(m);
    RunIsFold(fields, st, rs, u + t);
    RunIsFold(fields, st, rs, t);
    assert Concat(rs) + u + t == Concat(rs) + (u + t);
    match Fold(fields, st, rs) {
      case None =>
      case Some(st') =>
        RunCons(fields, st', u, t);
        UnknownEffect(fields, st', u);
    }
  }

  /** Such a record exists for every one of the four wire types. */
  lemma UnknownRecords(fields: seq<Field>, number: nat, v: nat, eight: seq<Byte>, four: seq<Byte>, data: seq<Byte>)
    requires 0 < number < 0x2000_0000 && FindTag(fields, number).None?
    requires |eight| == 8 && |four| == 4 && |data| < TWO32
    ensures Framed(fields, EncodeTag(number, WT_VARINT) + EncodeVarint(v))
    ensures Framed(fields, EncodeTag(number, WT_64BIT) + eight)
    ensures Framed(fields, EncodeTag(number, WT_STRING) + (EncodeVarint(|data|) + data))
    ensures Framed(fields, EncodeTag(number, WT_32BIT) + four)
  {
    TagRoundTrip(number, WT_VARINT, EncodeVarint(v));
    EncodeVarintLen(v, []);
    assert EncodeVarint(v) + [] == EncodeVarint(v);
    TagRoundTrip(number, WT_64BIT, eight);
    TagRoundTrip(number, WT_STRING, EncodeVarint(|data|) + data);
    Varint32Canonical(|data|, data);
    TagRoundTrip(number, WT_32BIT, four);
  }

  // ----------------------------------------------------- records commute

  /** The storage that a record touches; None for a field that is not in the schema. */
  function Place(fields: seq<Field>, r: seq<Byte>): Option<nat>
    requires DecodeTag(r).Tag?
  {
    match FindTag(fields, DecodeTag(r).number)
    case None => None
    case Some(i) => Some(Offset(fields, i))
  }

  predicate IsFixedCount(fields: seq<Field>, r: seq<Byte>)
    requires DecodeTag(r).Tag?
  {
    match FindTag(fields, DecodeTag(r).number)
    case None => false
    case Some(i) => FixedCount(fields[i])
  }

  /** A record outside fixed-count arrays reads and writes the state only at its place. */
  lemma EffectAtPlace(fields: seq<Field>, st: State, st': State, r: seq<Byte>)
    requires DecodeTag(r).Tag? && !IsFixedCount(fields, r)
    requires Place(fields, r).Some? ==>
               SlotAt(st.msg, Place(fields, r).value) == SlotAt(st'.msg, Place(fields, r).value)
    ensures Effect(fields, st, r).Some? <==> Effect(fields, st', r).Some?
    ensures Effect(fields, st, r).Some? && Place(fields, r).None? ==>
              Effect(fields, st, r) == Some(st) && Effect(fields, st', r) == Some(st')
    ensures Effect(fields, st, r).Some? && Place(fields, r).Some? ==>
              var k := Place(fields, r).value;
              var e, e' := Effect(fields, st, r).value, Effect(fields, st', r).value;
              var i := FindTag(fields, DecodeTag(r).number).value;
              k in e.msg && k in e'.msg && e.msg[k] == e'.msg[k]
              && e == st.(msg := st.msg[k := e.msg[k]], seen := See(fields, i, st.seen))
              && e' == st'.(msg := st'.msg[k := e.msg[k]], seen := See(fields, i, st'.seen))
  {
  }

  lemma FoldTwo(fields: seq<Field>, st: State, a: seq<Byte>, b: seq<Byte>)
    requires DecodeTag(a).Tag? && DecodeTag(b).Tag?
    ensures Fold(fields, st, [a, b])
            == match Effect(fields, st, a) case None => None case Some(st') => Effect(fields, st', b)
  {
    assert [a, b][1..] == [b] && [b][1..] == [];
    match Effect(fields, st, a) {
      case None =>
      case Some(st') =>
        assert Fold(fields, st', [b])
            == match Effect(fields, st', b) case None => None case Some(e) => Fold(fields, e, [b][1..]);
    }
  }

  lemma EffectsCommute(fields: seq<Field>, st: State, a: seq<Byte>, b: seq<Byte>)
    requires DecodeTag(a).Tag? && DecodeTag(b).Tag?
    requires !IsFixedCount(fields, a) && !IsFixedCount(fields, b)
    requires Place(fields, a).None? || Place(fields, a) != Place(fields, b)
    ensures Fold(fields, st, [a, b]) == Fold(fields, st, [b, a])
  {
    FoldTwo(fields, st, a, b);
    FoldTwo(fields, st, b, a);
    var ea := Effect(fields, st, a);
    var eb := Effect(fields, st, b);
    EffectAtPlace(fields, st, st, a);
    EffectAtPlace(fields, st, st, b);
    if ea.Some? {
      EffectAtPlace(fields, st, ea.value, b);
    }
    if eb.Some? {
      EffectAtPlace(fields, st, eb.value, a);
    }
    if ea.Some? && eb.Some? && Place(fields, a).Some? && Place(fields, b).Some? {
      var ka, kb := Place(fields, a).value, Place(fields, b).value;
      var va, vb := ea.value.msg[ka], eb.value.msg[kb];
      assert st.msg[ka := va][kb := vb] == st.msg[kb := vb][ka := va];
      var i, j := FindTag(fields, DecodeTag(a).number).value, FindTag(fields, DecodeTag(b).number).value;
      assert See(fields, j, See(fields, i, st.seen)) == See(fields, i, See(fields, j, st.seen));
    }
  }

  lemma {:induction false} FoldPlus(fields: seq<Field>, st: State, a: seq<seq<Byte>>, b: seq<seq<Byte>>)
    requires AllFramed(fields, a) && AllFramed(fields, b)
    ensures AllFramed(fields, a + b)
    ensures Fold(fields, st, a + b)
            == match Fold(fields, st, a) case None => None case Some(st') => Fold(fields, st', b)
    decreases |a|
  {
    if a == [] {
      assert a + b == b;
    } else {
      assert (a + b)[1..] == a[1..] + b;
      match Effect(fields, st, a[0]) {
        case None =>
        case Some(st') => FoldPlus(fields, st', a[1..], b);
      }
    }
  }

  /** Swapping two neighbouring whole records of different storage, neither of a fixed-count
      array, changes neither success nor the struct nor what is left of the stream. */
  lemma RecordsCommute(fields: seq<Field>, m: Msg, rs: seq<seq<Byte>>, a: seq<Byte>, b: seq<Byte>, t: seq<Byte>)
    requires AllFramed(fields, rs) && Framed(fields, a) && Framed(fields, b)
    requires !IsFixedCount(fields, a) && !IsFixedCount(fields, b)
    requires Place(fields, a).None? || Place(fields, a) != Place(fields, b)
    ensures DecodeNoinit(fields, Concat(rs) + a + b + t, m) == DecodeNoinit(fields, Concat(rs) + b + a + t, m)
  {
    var st := Start(m);
    PairRun(fields, st, rs, a, b, t);
    PairRun(fields, st, rs, b, a, t);
    match Fold(fields, st, rs) {
      case None =>
      case Some(st') => EffectsCommute(fields, st', a, b);
    }
  }

  lemma PairBytes(before: seq<Byte>, a: seq<Byte>, b: seq<Byte>, t: seq<Byte>)
    ensures before + a + b + t == before + (Concat([a, b]) + t)
  {
    assert [a, b][1..] == [b] && [b][1..] == [];
    assert Concat([b]) == b + Concat([]) == b;
    assert Concat([a, b]) == a + b;
  }

  lemma PairRun(fields: seq<Field>, st: State, rs: seq<seq<Byte>>, a: seq<Byte>, b: seq<Byte>, t: seq<Byte>)
    requires AllFramed(fields, rs) && Framed(fields, a) && Framed(fields, b)
    ensures DecodeRecords(fields, st, Concat(rs) + a + b + t)
            == match Fold(fields, st, rs)
               case None => Failed
               case Some(st') =>
                 match Fold(fields, st', [a, b])
                 case None => Failed
                 case Some(st'') => DecodeRecords(fields, st'', t)
  {
    var ab := [a, b];
    PairBytes(Concat(rs), a, b, t);
    RunIsFold(fields, st, rs, Concat(ab) + t);
    match Fold(fields, st, rs) {
      case None =>
      case Some(st') => RunIsFold(fields, st', ab, t);
    }
  }

  /** Different tags and different unions mean different storage. */
  lemma DifferentTagsDifferentPlaces(fields: seq<Field>, a: seq<Byte>, b: seq<Byte>)
    requires WfSchema(fields) && DecodeTag(a).Tag? && DecodeTag(b).Tag?
    requires DecodeTag(a).number != DecodeTag(b).number
    requires var i := FindTag(fields, DecodeTag(a).number);
             i.Some? ==> !fields[i.value].htype.Oneof?
    ensures Place(fields, a).None? || Place(fields, a) != Place(fields, b)
  {
    OffsetsApart(fields);
    match (FindTag(fields, DecodeTag(a).number), FindTag(fields, DecodeTag(b).number)) {
      case (Some(i), Some(j)) => assert Shares(fields, i, j) <==> Offset(fields, i) == Offset(fields, j);
      case _ =>
    }
  }
}
