/**
 Decoding what was encoded: the same message, up to absent optional members,
 which are back at their defaults.
 */
module RoundTrip {
  import opened Wire
  import opened Varint
  import opened Schema
  import opened Decode
  import opened Records
  import opened Frames
  import opened Packed
  import opened Typed
  import opened Encode

  // ------------------------------------------------ messages that can be sent

  /** Everything that is written has been initialised, and every length fits its 32 bits. */
  ghost predicate ReadyValue(f: Field, v: Value)
    decreases f, 0
  {
    f.ltype.LSubmessage? ==>
      v.MsgV? && ReadyMsg(f.sub, v.slots)
      && (var body := EncodeMessage(f.sub, v.slots); body.Some? ==> |body.value| < TWO32)
  }

  ghost predicate ReadySlot(f: Field, slot: Slot)
    decreases f, 1
  {
    Present(f, slot) ==>
      if f.htype.Repeated? then
        && (forall k :: 0 <= k < |Items(slot)| ==> !Items(slot)[k].Indeterminate? && ReadyValue(f, Items(slot)[k]))
        && (Packable(f.ltype) ==> var body := EncodePacked(f, Items(slot)); body.Some? ==> |body.value| < TWO32)
      else ReadyValue(f, Current(slot))
  }

  ghost predicate ReadyMsg(fields: seq<Field>, m: Msg)
    decreases fields, 2
  {
    forall i :: 0 <= i < |fields| ==> ReadySlot(fields[i], SlotAt(m, Offset(fields, i)))
  }

  // ------------------------------------------------------ what is received

  function SentValue(f: Field, v: Value): Value
    decreases f, 0
  {
    if f.ltype.LSubmessage? then MsgV(Sent(f.sub, Struct(v), |f.sub|)) else v
  }

  function SentItems(f: Field, items: seq<Value>): (r: seq<Value>)
    ensures |r| == |items|
    decreases f, 1, |items|
  {
    if items == [] then [] else [SentValue(f, items[0])] + SentItems(f, items[1..])
  }

  function SentSlot(f: Field, slot: Slot): Slot
    decreases f, 2
  {
    match f.htype
    case Required => Plain(SentValue(f, Current(slot)))
    case Optional =>
      if f.sizeOffset != 0 then Flagged(true, SentValue(f, Current(slot))) else Plain(SentValue(f, Current(slot)))
    case Repeated => Many(SentItems(f, Items(slot)))
    case Oneof => OneOf(f.tag, SentValue(f, Current(slot)))
  }

  /** A struct at its defaults, but for the present ones among the first n fields of m. */
  function Sent(fields: seq<Field>, m: Msg, n: nat): Msg
    requires n <= |fields|
    decreases fields, 3, n
  {
    if n == 0 then DefaultMsg(fields)
    else
      var prev := Sent(fields, m, n - 1);
      var f, slot := fields[n - 1], SlotAt(m, Offset(fields, n - 1));
      if Present(f, slot) then prev[Offset(fields, n - 1) := SentSlot(f, slot)] else prev
  }

  function Received(fields: seq<Field>, m: Msg): Msg {
    Sent(fields, m, |fields|)
  }

  // --------------------------------------------------------------- scalars

  lemma IntRoundTrip(f: Field, i: int, t: seq<Byte>)
    requires f.ltype.LVarint? || f.ltype.LUVarint? || f.ltype.LSVarint?
    requires TypedScalar(f, IntV(i)) && HalfRange(f.dataSize) > 0
    ensures var u := if f.ltype.LSVarint? then ZigZag(i) else Word64(i);
            u < TWO64 && Narrow(f, u) == Some(i) && DecodeInt(f, EncodeVarint(u) + t) == Ok(IntV(i), t)
  {
    var u := if f.ltype.LSVarint? then ZigZag(i) else Word64(i);
    assert u < TWO64 && Narrow(f, u) == Some(i) by {
      NarrowRoundTrip(f, i);
    }
    VarintRoundTrip(u, t);
  }

  lemma NarrowRoundTrip(f: Field, i: int)
    requires f.ltype.LVarint? || f.ltype.LUVarint? || f.ltype.LSVarint?
    requires TypedScalar(f, IntV(i)) && HalfRange(f.dataSize) > 0
    ensures var u := if f.ltype.LSVarint? then ZigZag(i) else Word64(i);
            u < TWO64 && Narrow(f, u) == Some(i)
  {
    var half := HalfRange(f.dataSize);
    assert half <= TWO63;
    if f.ltype.LSVarint? {
      ZigZagRoundTrip(i);
      SignedIs(i, half);
    } else if f.ltype.LVarint? {
      Word64Of(i);
      NarrowWord(i, f.dataSize);
    } else {
      Word64Of(i);
      SmallRemainder(i, 2 * half);
    }
  }

  lemma NarrowWord(i: int, dataSize: nat)
    requires HalfRange(dataSize) > 0 && -(HalfRange(dataSize) as int) <= i < HalfRange(dataSize)
    ensures NarrowVarint(Word64(i), dataSize) == Some(i)
  {
    var half := HalfRange(dataSize);
    SignedIs(i, half);
    if dataSize == 8 {
      SignedWord64(i);
    } else {
      assert -TWO31 <= i < TWO31;
      Word64Of(i);
      assert Signed(Word64(i), TWO31) == i by {
        LowWord(i);
      }
    }
  }

  lemma LowWord(i: int)
    requires -TWO31 <= i < TWO31
    ensures Signed(Word64(i), TWO31) == i
  {
    Word64Of(i);
    if i < 0 {
      assert Word64(i) == (i + TWO32) + (TWO32 - 1) * TWO32;
    }
  }

  lemma BlobRoundTrip(f: Field, data: seq<Byte>, t: seq<Byte>)
    requires f.ltype.LBytes? || f.ltype.LString? || f.ltype.LFixedLengthBytes?
    requires WfField(f) && TypedScalar(f, BytesV(data))
    ensures EncodeScalar(f, BytesV(data)) == Some(Prefixed(data))
    ensures DecodeScalar(f, Prefixed(data) + t) == Ok(BytesV(data), t)
  {
    BlobEncodes(f, data);
    PrefixedReads(data, t);
    BlobDecodes(f, data, Prefixed(data) + t, t);
  }

  lemma PrefixedReads(data: seq<Byte>, t: seq<Byte>)
    requires |data| < TWO32
    ensures Delimited(Prefixed(data) + t) == Ok(data, t)
  {
    DelimitedRoundTrip(data, t);
    assert Prefixed(data) + t == EncodeVarint(|data|) + (data + t);
  }

  lemma BlobDecodes(f: Field, data: seq<Byte>, s: seq<Byte>, t: seq<Byte>)
    requires f.ltype.LBytes? || f.ltype.LString? || f.ltype.LFixedLengthBytes?
    requires f.dataSize > 0 && TypedScalar(f, BytesV(data)) && Delimited(s) == Ok(data, t)
    ensures DecodeScalar(f, s) == Ok(BytesV(data), t)
  {
  }

  lemma BlobEncodes(f: Field, data: seq<Byte>)
    requires f.ltype.LBytes? || f.ltype.LString? || f.ltype.LFixedLengthBytes?
    requires WfField(f) && TypedScalar(f, BytesV(data))
    ensures EncodeScalar(f, BytesV(data)) == Some(Prefixed(data))
  {
  }

  lemma ScalarRoundTrip(f: Field, v: Value, t: seq<Byte>)
    requires WfField(f) && TypedScalar(f, v)
    ensures EncodeScalar(f, v).Some?
    ensures DecodeScalar(f, EncodeScalar(f, v).value + t) == Ok(v, t)
  {
    match f.ltype
    case LBool => Varint32Canonical(if v.b then 1 else 0, t);
    case LVarint => IntRoundTrip(f, v.i, t);
    case LUVarint => IntRoundTrip(f, v.i, t);
    case LSVarint => IntRoundTrip(f, v.i, t);
    case LFixed32 => FixedRoundTrip(v.i, 4, t);
    case LFixed64 => FixedRoundTrip(v.i, 8, t);
    case LBytes => BlobRoundTrip(f, v.data, t);
    case LString => BlobRoundTrip(f, v.data, t);
    case LFixedLengthBytes => BlobRoundTrip(f, v.data, t);
  }

  /** The encoder writes a string that fills its buffer without a terminator, or the part of it
      in the buffer; the decoder takes it back exactly when there was room for the terminator. */
  lemma UnterminatedString(f: Field, data: seq<Byte>, t: seq<Byte>)
    requires f.ltype.LString? && WfField(f) && 0 !in data
    ensures EncodeScalar(f, BytesV(data)).Some?
    ensures DecodeScalar(f, EncodeScalar(f, BytesV(data)).value + t) ==
            if |data| < f.dataSize then Ok(BytesV(data), t) else Fail
  {
    var sent := StringPart(f, data);
    PrefixedReads(sent, t);
  }

  lemma FixedRoundTrip(v: nat, n: nat, t: seq<Byte>)
    requires (n == 4 && v < TWO32) || (n == 8 && v < TWO64)
    ensures Take(n, LittleEndian(v, n) + t) == Ok(LittleEndian(v, n), t) && FromLittleEndian(LittleEndian(v, n)) == v
  {
    Pow2Values();
    LittleEndianRoundTrip(v, n);
    var s := LittleEndian(v, n) + t;
    assert s[..n] == LittleEndian(v, n) && s[n..] == t;
  }

  // ---------------------------------------------------------------- arrays

  function StoreAll(items: seq<Value>, size: nat, vs: seq<Value>): seq<Value>
    decreases |vs|
  {
    if vs == [] then items else StoreAll(Store(items, size, vs[0]), size + 1, vs[1..])
  }

  lemma {:induction false} StoreAllIs(items: seq<Value>, size: nat, vs: seq<Value>)
    requires size <= |items|
    ensures |items| == size ==> StoreAll(items, size, vs) == items + vs
    ensures |items| == size + |vs| ==> StoreAll(items, size, vs) == items[..size] + vs
    decreases |vs|
  {
    if vs == [] {
      assert items + vs == items;
      assert |items| == size ==> items[..size] + vs == items;
    } else {
      var items' := Store(items, size, vs[0]);
      StoreAllIs(items', size + 1, vs[1..]);
      if |items| == size {
        assert items' + vs[1..] == items + vs;
      } else if |items| == size + |vs| {
        assert items'[..size + 1] == items[..size] + [vs[0]];
        assert items'[..size + 1] + vs[1..] == items[..size] + vs;
      }
    }
  }

  ghost predicate AllTyped(f: Field, vs: seq<Value>) {
    forall k {:trigger TypedScalar(f, vs[k])} :: 0 <= k < |vs| ==> TypedScalar(f, vs[k])
  }

  lemma {:induction false} PackedRoundTrip(f: Field, base: seq<Value>, size: nat, vs: seq<Value>)
    requires WfField(f) && Packable(f.ltype) && size + |vs| <= f.arraySize
    requires AllTyped(f, vs)
    ensures EncodePacked(f, vs).Some?
    ensures DecodePacked(f, base, size, EncodePacked(f, vs).value) == Some((StoreAll(base, size, vs), size + |vs|))
    decreases |vs|
  {
    if vs == [] {
      PackedNothing(f, base, size, vs);
    } else {
      AllTypedCons(f, vs);
      PackedRoundTrip(f, Store(base, size, vs[0]), size + 1, vs[1..]);
      PackedLonger(f, base, size, vs);
    }
  }

  lemma PackedLonger(f: Field, base: seq<Value>, size: nat, vs: seq<Value>)
    requires WfField(f) && vs != [] && TypedScalar(f, vs[0]) && EncodePacked(f, vs[1..]).Some? && size < f.arraySize
    requires DecodePacked(f, Store(base, size, vs[0]), size + 1, EncodePacked(f, vs[1..]).value)
             == Some((StoreAll(Store(base, size, vs[0]), size + 1, vs[1..]), size + |vs|))
    ensures EncodePacked(f, vs).Some?
    ensures DecodePacked(f, base, size, EncodePacked(f, vs).value) == Some((StoreAll(base, size, vs), size + |vs|))
  {
    PackedCons(f, base, size, vs);
    StoreAllCons(base, size, vs);
  }

  lemma PackedNothing(f: Field, base: seq<Value>, size: nat, vs: seq<Value>)
    requires vs == []
    ensures EncodePacked(f, vs) == Some([]) && DecodePacked(f, base, size, []) == Some((base, size))
    ensures StoreAll(base, size, vs) == base
  {
  }

  lemma AllTypedCons(f: Field, vs: seq<Value>)
    requires AllTyped(f, vs) && vs != []
    ensures TypedScalar(f, vs[0]) && AllTyped(f, vs[1..])
  {
    assert TypedScalar(f, vs[0]);
    forall k | 0 <= k < |vs[1..]|
      ensures TypedScalar(f, vs[1..][k])
    {
      assert TypedScalar(f, vs[k + 1]);
    }
  }

  lemma StoreAllCons(base: seq<Value>, size: nat, vs: seq<Value>)
    requires vs != []
    ensures StoreAll(base, size, vs) == StoreAll(Store(base, size, vs[0]), size + 1, vs[1..])
  {
  }

  lemma PackedCons(f: Field, base: seq<Value>, size: nat, vs: seq<Value>)
    requires WfField(f) && vs != [] && TypedScalar(f, vs[0]) && EncodePacked(f, vs[1..]).Some? && size < f.arraySize
    ensures EncodePacked(f, vs).Some?
    ensures DecodePacked(f, base, size, EncodePacked(f, vs).value)
            == DecodePacked(f, Store(base, size, vs[0]), size + 1, EncodePacked(f, vs[1..]).value)
  {
    var tail := EncodePacked(f, vs[1..]).value;
    ScalarRoundTrip(f, vs[0], tail);
    var whole := EncodeScalar(f, vs[0]).value + tail;
    assert EncodePacked(f, vs) == Some(whole) && DecodeScalar(f, whole) == Ok(vs[0], tail);
  }

  lemma {:induction false} SentScalars(f: Field, items: seq<Value>)
    requires !f.ltype.LSubmessage?
    ensures SentItems(f, items) == items
    decreases |items|
  {
    if items != [] {
      SentScalars(f, items[1..]);
    }
  }

  lemma StaticValue(f: Field, slot: Slot, size: nat, s: seq<Byte>, v: Value, t: seq<Byte>)
    requires !(f.htype.Repeated? && Packable(f.ltype)) && (f.htype.Repeated? ==> size < f.arraySize)
    requires DecodeValue(f, ValueBefore(f, slot), s) == Ok(v, t)
    ensures DecodeStatic(f, WireType(f.ltype), slot, size, s)
            == Ok((SlotAfter(f, slot, size, v), if f.htype.Repeated? then size + 1 else size), t)
  {
  }

  ghost predicate Sendable(f: Field, v: Value) {
    TypedValue(f, v) && ReadyValue(f, v)
  }

  /** An array element in a record of its own. */
  lemma ItemStep(fields: seq<Field>, i: nat, st: State, v: Value, t: seq<Byte>)
    requires Found(fields, i) && fields[i].htype.Repeated? && !Packable(fields[i].ltype)
    requires WfField(fields[i]) && Sendable(fields[i], v)
    requires !Blocked(fields, i, st) && CountBefore(fields, i, st) < fields[i].arraySize
    ensures EncodeValue(fields[i], v).Some?
    ensures var size := CountBefore(fields, i, st);
            var items := Store(StateItems(fields, i, st), size, SentValue(fields[i], v));
            DecodeRecords(fields, st, TagOf(fields[i]) + (EncodeValue(fields[i], v).value + t))
            == DecodeRecords(fields, Update(fields, i, st, Many(items), size + 1), t)
    decreases fields[i], 1
  {
    ValueRoundTrip(fields[i], v, Indeterminate, t);
    ItemRecord(fields, i, st, SentValue(fields[i], v), EncodeValue(fields[i], v).value + t, t);
  }

  lemma ItemRecord(fields: seq<Field>, i: nat, st: State, v: Value, s: seq<Byte>, t: seq<Byte>)
    requires Found(fields, i) && fields[i].htype.Repeated? && !Packable(fields[i].ltype)
    requires !Blocked(fields, i, st) && CountBefore(fields, i, st) < fields[i].arraySize
    requires DecodeValue(fields[i], Indeterminate, s) == Ok(v, t)
    ensures var size := CountBefore(fields, i, st);
            DecodeRecords(fields, st, TagOf(fields[i]) + s)
            == DecodeRecords(fields,
              Update(fields, i, st, Many(Store(StateItems(fields, i, st), size, v)), size + 1), t)
  {
    var size, items := CountBefore(fields, i, st), StateItems(fields, i, st);
    ElementValue(fields[i], SlotAt(st.msg, Offset(fields, i)), size, s, v, t);
    StaticThen(fields, i, WireType(fields[i].ltype), st, s, Many(Store(items, size, v)), size + 1, t);
  }

  lemma ElementValue(f: Field, slot: Slot, size: nat, s: seq<Byte>, v: Value, t: seq<Byte>)
    requires f.htype.Repeated? && !Packable(f.ltype) && size < f.arraySize
             && DecodeValue(f, Indeterminate, s) == Ok(v, t)
    ensures DecodeStatic(f, WireType(f.ltype), slot, size, s) == Ok((Many(Store(Items(slot), size, v)), size + 1), t)
  {
    StaticValue(f, slot, size, s, v, t);
  }

  lemma Regroup<T>(a: seq<T>, b: seq<T>, c: seq<T>, t: seq<T>)
    ensures ((a + b) + c) + t == a + (b + (c + t))
  {
  }

  lemma ItemsBytes(f: Field, vs: seq<Value>, t: seq<Byte>)
    requires vs != [] && EncodeValue(f, vs[0]).Some? && EncodeItems(f, vs[1..]).Some?
    ensures EncodeItems(f, vs).Some?
    ensures EncodeItems(f, vs).value + t
            == TagOf(f) + (EncodeValue(f, vs[0]).value + (EncodeItems(f, vs[1..]).value + t))
  {
    Regroup(TagOf(f), EncodeValue(f, vs[0]).value, EncodeItems(f, vs[1..]).value, t);
  }

  lemma SentCons(f: Field, vs: seq<Value>)
    requires vs != []
    ensures SentItems(f, vs)[0] == SentValue(f, vs[0]) && SentItems(f, vs)[1..] == SentItems(f, vs[1..])
  {
  }

  lemma UpdateAgain(fields: seq<Field>, i: nat, st: State, slot: Slot, count: nat, items: seq<Value>, n: nat)
    requires i < |fields| && fields[i].htype.Repeated?
    ensures Update(fields, i, Update(fields, i, st, slot, count), Many(items), n)
            == Update(fields, i, st, Many(items), n)
  {
    UpdateTwice(fields, i, st, slot, count);
    var r := Some((items, n));
    assert AfterAppend(fields, i, Update(fields, i, st, slot, count), r) == AfterAppend(fields, i, st, r);
  }

  /** The decoder after storing the values vs in array i, from the given count on. */
  function AfterItems(fields: seq<Field>, i: nat, st: State, base: seq<Value>, size: nat, vs: seq<Value>): State
    requires i < |fields|
  {
    Update(fields, i, st, Many(StoreAll(base, size, SentItems(fields[i], vs))), size + |vs|)
  }

  /** The array after the first of the values vs, and after all of them. */
  lemma ItemsUpdate(fields: seq<Field>, i: nat, st: State, base: seq<Value>, size: nat, vs: seq<Value>)
    requires i < |fields| && fields[i].htype.Repeated? && vs != []
    ensures var items := Store(base, size, SentValue(fields[i], vs[0]));
            AfterItems(fields, i, Update(fields, i, st, Many(items), size + 1), items, size + 1, vs[1..])
            == AfterItems(fields, i, st, base, size, vs)
  {
    var f := fields[i];
    var items := Store(base, size, SentValue(f, vs[0]));
    SentCons(f, vs);
    var all := StoreAll(items, size + 1, SentItems(f, vs[1..]));
    assert all == StoreAll(base, size, SentItems(f, vs));
    UpdateAgain(fields, i, st, Many(items), size + 1, all, size + |vs|);
  }

  ghost predicate AllSendable(f: Field, vs: seq<Value>) {
    forall k {:trigger Sendable(f, vs[k])} :: 0 <= k < |vs| ==> Sendable(f, vs[k])
  }

  lemma {:induction false} ItemsFromAt(fields: seq<Field>, i: nat, st: State, base: seq<Value>, size: nat,
                                       vs: seq<Value>, t: seq<Byte>)
    requires Found(fields, i) && fields[i].htype.Repeated? && !Packable(fields[i].ltype) && WfField(fields[i])
    requires AllSendable(fields[i], vs)
    requires At(fields, i, st, base, size) && size + |vs| <= fields[i].arraySize
    ensures EncodeItems(fields[i], vs).Some?
    ensures DecodeRecords(fields, st, EncodeItems(fields[i], vs).value + t)
            == DecodeRecords(fields, AfterItems(fields, i, st, base, size, vs), t)
    decreases fields[i], 2, |vs|, 2
  {
    AtCount(fields, i, st, base, size);
    if vs == [] {
      assert EncodeItems(fields[i], vs).value + t == t;
      assert AfterItems(fields, i, st, base, size, vs) == st;
    } else {
      ItemsFromAnywhere(fields, i, st, vs, t);
    }
  }

  /** The decoder after the first of the values vs, without the others. */
  function AfterFirst(fields: seq<Field>, i: nat, st: State, vs: seq<Value>): State
    requires i < |fields| && vs != []
  {
    var size := CountBefore(fields, i, st);
    Update(fields, i, st, Many(Store(StateItems(fields, i, st), size, SentValue(fields[i], vs[0]))), size + 1)
  }

  lemma FirstStep(fields: seq<Field>, i: nat, st: State, vs: seq<Value>, t: seq<Byte>)
    requires Found(fields, i) && fields[i].htype.Repeated? && !Packable(fields[i].ltype) && WfField(fields[i])
    requires vs != [] && AllSendable(fields[i], vs)
    requires !Blocked(fields, i, st) && CountBefore(fields, i, st) < fields[i].arraySize
    ensures EncodeValue(fields[i], vs[0]).Some?
    ensures DecodeRecords(fields, st, TagOf(fields[i]) + (EncodeValue(fields[i], vs[0]).value + t))
            == DecodeRecords(fields, AfterFirst(fields, i, st, vs), t)
    decreases fields[i], 2, 0, 0
  {
    assert Sendable(fields[i], vs[0]);
    ItemStep(fields, i, st, vs[0], t);
  }

  /** The decoder is at the array with the first of the values stored. */
  lemma AtFirst(fields: seq<Field>, i: nat, st: State, vs: seq<Value>)
    requires i < |fields| && fields[i].htype.Repeated? && vs != []
    requires FixedCount(fields[i]) || |StateItems(fields, i, st)| == CountBefore(fields, i, st)
    ensures var size := CountBefore(fields, i, st);
            var items := Store(StateItems(fields, i, st), size, SentValue(fields[i], vs[0]));
            At(fields, i, AfterFirst(fields, i, st, vs), items, size + 1)
  {
  }

  lemma FirstThenRest(fields: seq<Field>, i: nat, st: State, vs: seq<Value>)
    requires i < |fields| && fields[i].htype.Repeated? && vs != []
    ensures var base, size := StateItems(fields, i, st), CountBefore(fields, i, st);
            AfterItems(fields, i, AfterFirst(fields, i, st, vs), Store(base, size, SentValue(fields[i], vs[0])),
              size + 1, vs[1..])
            == AfterItems(fields, i, st, base, size, vs)
  {
    ItemsUpdate(fields, i, st, StateItems(fields, i, st), CountBefore(fields, i, st), vs);
  }

  lemma OthersSendable(f: Field, vs: seq<Value>)
    requires vs != [] && AllSendable(f, vs)
    ensures AllSendable(f, vs[1..])
  {
    forall k | 0 <= k < |vs[1..]|
      ensures Sendable(f, vs[1..][k])
    {
      assert Sendable(f, vs[k + 1]);
    }
  }

  /** All values but the first. */
  lemma {:induction false} ItemsRest(fields: seq<Field>, i: nat, st: State, vs: seq<Value>, t: seq<Byte>)
    requires Found(fields, i) && fields[i].htype.Repeated? && !Packable(fields[i].ltype) && WfField(fields[i])
    requires vs != [] && AllSendable(fields[i], vs)
    requires !Blocked(fields, i, st)
    requires FixedCount(fields[i]) || |StateItems(fields, i, st)| == CountBefore(fields, i, st)
    requires CountBefore(fields, i, st) + |vs| <= fields[i].arraySize
    ensures EncodeItems(fields[i], vs[1..]).Some?
    ensures DecodeRecords(fields, AfterFirst(fields, i, st, vs), EncodeItems(fields[i], vs[1..]).value + t)
            == DecodeRecords(fields,
              AfterItems(fields, i, st, StateItems(fields, i, st), CountBefore(fields, i, st), vs), t)
    decreases fields[i], 2, |vs|, 0
  {
    var base, size := StateItems(fields, i, st), CountBefore(fields, i, st);
    var items := Store(base, size, SentValue(fields[i], vs[0]));
    AtFirst(fields, i, st, vs);
    OthersSendable(fields[i], vs);
    ItemsFromAt(fields, i, AfterFirst(fields, i, st, vs), items, size + 1, vs[1..], t);
    FirstThenRest(fields, i, st, vs);
  }

  lemma {:induction false} ItemsFromAnywhere(fields: seq<Field>, i: nat, st: State, vs: seq<Value>, t: seq<Byte>)
    requires Found(fields, i) && fields[i].htype.Repeated? && !Packable(fields[i].ltype) && WfField(fields[i])
    requires vs != [] && AllSendable(fields[i], vs)
    requires !Blocked(fields, i, st)
    requires FixedCount(fields[i]) || |StateItems(fields, i, st)| == CountBefore(fields, i, st)
    requires CountBefore(fields, i, st) + |vs| <= fields[i].arraySize
    ensures EncodeItems(fields[i], vs).Some?
    ensures DecodeRecords(fields, st, EncodeItems(fields[i], vs).value + t)
            == DecodeRecords(fields,
              AfterItems(fields, i, st, StateItems(fields, i, st), CountBefore(fields, i, st), vs), t)
    decreases fields[i], 2, |vs|, 1
  {
    ItemsRest(fields, i, st, vs, t);
    FirstStep(fields, i, st, vs, EncodeItems(fields[i], vs[1..]).value + t);
    ItemsBytes(fields[i], vs, t);
  }

  // ---------------------------------------------------------------- fields

  lemma {:induction false} ValueRoundTrip(f: Field, v: Value, before: Value, t: seq<Byte>)
    requires WfField(f) && Sendable(f, v)
    requires f.ltype.LSubmessage? && !f.htype.Repeated? ==> before == MsgV(DefaultMsg(f.sub))
    ensures EncodeValue(f, v).Some?
    ensures DecodeValue(f, before, EncodeValue(f, v).value + t) == Ok(SentValue(f, v), t)
    decreases f, 0
  {
    if f.ltype.LSubmessage? {
      MessageRoundTrip(f.sub, v.slots);
      var body := EncodeMessage(f.sub, v.slots).value;
      SubmessageDecodes(f, v.slots, body, before, t);
    } else {
      ScalarRoundTrip(f, v, t);
    }
  }

  lemma SubmessageDecodes(f: Field, m: Msg, body: seq<Byte>, before: Value, t: seq<Byte>)
    requires f.ltype.LSubmessage? && |body| < TWO32 && EncodeMessage(f.sub, m) == Some(body)
    requires !f.htype.Repeated? ==> before == MsgV(DefaultMsg(f.sub))
    requires DecodeMessage(f.sub, body) == Ok(Received(f.sub, m), [])
    ensures EncodeValue(f, MsgV(m)) == Some(Prefixed(body))
    ensures DecodeValue(f, before, Prefixed(body) + t) == Ok(SentValue(f, MsgV(m)), t)
  {
    PrefixedReads(body, t);
    StructDecodes(f, m, body, before, Prefixed(body) + t, t);
  }

  lemma StructDecodes(f: Field, m: Msg, body: seq<Byte>, before: Value, s: seq<Byte>, t: seq<Byte>)
    requires f.ltype.LSubmessage? && DecodeMessage(f.sub, body) == Ok(Received(f.sub, m), [])
    requires !f.htype.Repeated? ==> before == MsgV(DefaultMsg(f.sub))
    requires Delimited(s) == Ok(body, t)
    ensures DecodeValue(f, before, s) == Ok(SentValue(f, MsgV(m)), t)
  {
  }

  /** The decoder between fields n - 1 and n of the message m. */
  ghost predicate Mid(fields: seq<Field>, m: Msg, st: State, n: nat)
    requires n <= |fields|
  {
    && st.msg == Sent(fields, m, n)
    && FixedDone(fields, st) && (st.fixedAt.Some? ==> st.fixedAt.value < n)
    && forall k :: k in st.seen <==> 0 <= k < RequiredBefore(fields, n) && k < MAX_REQUIRED
  }

  /** Before its own record, the storage of a field is at its default. */
  lemma {:induction false} SentBefore(fields: seq<Field>, m: Msg, n: nat, i: nat)
    requires Apart(fields) && n <= i < |fields| && !fields[i].htype.Oneof?
    ensures SlotAt(Sent(fields, m, n), Offset(fields, i)) == DefaultSlot(fields[i])
    decreases n
  {
    DefaultsAt(fields, |fields|, i);
    if n > 0 {
      SentBefore(fields, m, n - 1, i);
      assert !Shares(fields, n - 1, i);
    }
  }

  /** The decoder after the records of field i of m. */
  function AfterField(fields: seq<Field>, m: Msg, i: nat, st: State): State
    requires i < |fields|
  {
    var f, slot := fields[i], SlotAt(m, Offset(fields, i));
    if Present(f, slot) then
      Update(fields, i, st, SentSlot(f, slot), CountBefore(fields, i, st) + |Items(slot)|)
    else st
  }

  lemma SeenUpdate(fields: seq<Field>, i: nat, seen: set<nat>)
    requires i < |fields| && forall k :: k in seen <==> 0 <= k < RequiredBefore(fields, i) && k < MAX_REQUIRED
    ensures forall k :: k in See(fields, i, seen) <==> 0 <= k < RequiredBefore(fields, i + 1) && k < MAX_REQUIRED
  {
  }

  lemma MidUpdate(fields: seq<Field>, m: Msg, st: State, i: nat, count: nat)
    requires i < |fields| && Mid(fields, m, st, i)
    requires Present(fields[i], SlotAt(m, Offset(fields, i)))
    requires FixedCount(fields[i]) ==> count == fields[i].arraySize
    ensures Mid(fields, m, Update(fields, i, st, SentSlot(fields[i], SlotAt(m, Offset(fields, i))), count), i + 1)
  {
    SeenUpdate(fields, i, st.seen);
  }

  /** One record of a field that is not an array, at a state that expects it. */
  lemma SingleDecodes(fields: seq<Field>, i: nat, st: State, v: Value, t: seq<Byte>)
    requires Found(fields, i) && WfField(fields[i]) && !fields[i].htype.Repeated? && Sendable(fields[i], v)
    requires fields[i].ltype.LSubmessage? ==>
               ValueBefore(fields[i], SlotAt(st.msg, Offset(fields, i))) == MsgV(DefaultMsg(fields[i].sub))
    ensures EncodeValue(fields[i], v).Some?
    ensures var slot := SlotAt(st.msg, Offset(fields, i)); var size := CountBefore(fields, i, st);
            DecodeRecords(fields, st, TagOf(fields[i]) + EncodeValue(fields[i], v).value + t)
            == DecodeRecords(fields,
              Update(fields, i, st, SlotAfter(fields[i], slot, size, SentValue(fields[i], v)), size), t)
    decreases fields[i], 1
  {
    var f := fields[i];
    var slot, size := SlotAt(st.msg, Offset(fields, i)), CountBefore(fields, i, st);
    ValueRoundTrip(f, v, ValueBefore(f, slot), t);
    var e := EncodeValue(f, v).value;
    assert TagOf(f) + e + t == TagOf(f) + (e + t);
    StaticValue(f, slot, size, e + t, SentValue(f, v), t);
    StaticThen(fields, i, WireType(f.ltype), st, e + t, SlotAfter(f, slot, size, SentValue(f, v)), size, t);
  }

  lemma DefaultBefore(f: Field, slot: Slot)
    requires f.ltype.LSubmessage? && !f.htype.Repeated? && (f.htype.Oneof? || slot == DefaultSlot(f))
    ensures ValueBefore(f, slot) == MsgV(DefaultMsg(f.sub))
  {
  }

  lemma SingleFieldStep(fields: seq<Field>, m: Msg, i: nat, st: State, t: seq<Byte>)
    requires Found(fields, i) && Apart(fields) && WfField(fields[i]) && !fields[i].htype.Repeated?
    requires Mid(fields, m, st, i)
    requires TypedSlot(fields[i], SlotAt(m, Offset(fields, i))) && ReadySlot(fields[i], SlotAt(m, Offset(fields, i)))
    ensures EncodeField(fields[i], SlotAt(m, Offset(fields, i))).Some?
    ensures Mid(fields, m, AfterField(fields, m, i, st), i + 1)
    ensures DecodeRecords(fields, st, EncodeField(fields[i], SlotAt(m, Offset(fields, i))).value + t)
            == DecodeRecords(fields, AfterField(fields, m, i, st), t)
    decreases fields[i], 2
  {
    var f, slot := fields[i], SlotAt(m, Offset(fields, i));
    if Present(f, slot) {
      if !f.htype.Oneof? {
        SentBefore(fields, m, i, i);
      }
      if f.ltype.LSubmessage? {
        DefaultBefore(f, SlotAt(st.msg, Offset(fields, i)));
      }
      SingleDecodes(fields, i, st, Current(slot), t);
      MidUpdate(fields, m, st, i, CountBefore(fields, i, st));
    } else {
      assert [] + t == t;
    }
  }

  /** All the records of an array, from a state at which it may start. */
  lemma ArrayDecodes(fields: seq<Field>, i: nat, st: State, vs: seq<Value>, t: seq<Byte>)
    requires Found(fields, i) && fields[i].htype.Repeated? && WfField(fields[i])
    requires vs != [] && AllSendable(fields[i], vs)
    requires Packable(fields[i].ltype) ==> var body := EncodePacked(fields[i], vs); body.Some? ==> |body.value| < TWO32
    requires !Blocked(fields, i, st)
    requires FixedCount(fields[i]) || |StateItems(fields, i, st)| == CountBefore(fields, i, st)
    requires CountBefore(fields, i, st) + |vs| <= fields[i].arraySize
    ensures EncodeArray(fields[i], vs).Some?
    ensures DecodeRecords(fields, st, EncodeArray(fields[i], vs).value + t)
            == DecodeRecords(fields,
              AfterItems(fields, i, st, StateItems(fields, i, st), CountBefore(fields, i, st), vs), t)
    decreases fields[i], 3
  {
    if Packable(fields[i].ltype) {
      PackedDecodes(fields, i, st, vs, t);
    } else {
      ItemsFromAnywhere(fields, i, st, vs, t);
    }
  }

  lemma PackedBytes(f: Field, vs: seq<Value>)
    requires vs != [] && |vs| <= f.arraySize && Packable(f.ltype) && EncodePacked(f, vs).Some?
    ensures EncodeArray(f, vs) == Some(EncodeTag(f.tag, WT_STRING) + Prefixed(EncodePacked(f, vs).value))
  {
  }

  lemma AllTypedScalars(f: Field, vs: seq<Value>)
    requires Packable(f.ltype) && AllSendable(f, vs)
    ensures AllTyped(f, vs)
  {
    forall k | 0 <= k < |vs| ensures TypedScalar(f, vs[k]) {
      assert Sendable(f, vs[k]);
    }
  }

  lemma PackedElements(f: Field, base: seq<Value>, size: nat, vs: seq<Value>)
    requires WfField(f) && Packable(f.ltype) && AllSendable(f, vs) && size + |vs| <= f.arraySize
    ensures EncodePacked(f, vs).Some?
    ensures DecodePacked(f, base, size, EncodePacked(f, vs).value) == Some((StoreAll(base, size, vs), size + |vs|))
  {
    AllTypedScalars(f, vs);
    PackedRoundTrip(f, base, size, vs);
  }

  lemma AfterScalars(fields: seq<Field>, i: nat, st: State, base: seq<Value>, size: nat, vs: seq<Value>)
    requires i < |fields| && !fields[i].ltype.LSubmessage?
    ensures AfterItems(fields, i, st, base, size, vs)
            == Update(fields, i, st, Many(StoreAll(base, size, vs)), size + |vs|)
  {
    SentScalars(fields[i], vs);
  }

  lemma PackedDecodes(fields: seq<Field>, i: nat, st: State, vs: seq<Value>, t: seq<Byte>)
    requires Found(fields, i) && fields[i].htype.Repeated? && WfField(fields[i]) && Packable(fields[i].ltype)
    requires vs != [] && AllSendable(fields[i], vs)
    requires var body := EncodePacked(fields[i], vs); body.Some? ==> |body.value| < TWO32
    requires !Blocked(fields, i, st) && CountBefore(fields, i, st) + |vs| <= fields[i].arraySize
    ensures EncodeArray(fields[i], vs).Some?
    ensures DecodeRecords(fields, st, EncodeArray(fields[i], vs).value + t)
            == DecodeRecords(fields,
              AfterItems(fields, i, st, StateItems(fields, i, st), CountBefore(fields, i, st), vs), t)
  {
    var f, base, size := fields[i], StateItems(fields, i, st), CountBefore(fields, i, st);
    PackedElements(f, base, size, vs);
    PackedBytes(f, vs);
    PackedDecodesTo(fields, i, st, vs, EncodePacked(f, vs).value, StoreAll(base, size, vs), t);
    AfterScalars(fields, i, st, base, size, vs);
  }

  lemma PackedDecodesTo(fields: seq<Field>, i: nat, st: State, vs: seq<Value>, body: seq<Byte>, all: seq<Value>,
                        t: seq<Byte>)
    requires Found(fields, i) && fields[i].htype.Repeated? && Packable(fields[i].ltype) && |body| < TWO32
    requires !Blocked(fields, i, st)
    requires EncodeArray(fields[i], vs) == Some(EncodeTag(fields[i].tag, WT_STRING) + Prefixed(body))
    requires DecodePacked(fields[i], StateItems(fields, i, st), CountBefore(fields, i, st), body)
             == Some((all, CountBefore(fields, i, st) + |vs|))
    ensures DecodeRecords(fields, st, EncodeArray(fields[i], vs).value + t)
            == DecodeRecords(fields, Update(fields, i, st, Many(all), CountBefore(fields, i, st) + |vs|), t)
  {
    PackedStep(fields, i, st, body, StateItems(fields, i, st), CountBefore(fields, i, st), all, |vs|, t);
  }

  lemma ArrayStep(fields: seq<Field>, m: Msg, i: nat, st: State, t: seq<Byte>)
    requires Found(fields, i) && Apart(fields) && WfField(fields[i]) && fields[i].htype.Repeated?
    requires Mid(fields, m, st, i)
    requires TypedSlot(fields[i], SlotAt(m, Offset(fields, i))) && ReadySlot(fields[i], SlotAt(m, Offset(fields, i)))
    ensures EncodeField(fields[i], SlotAt(m, Offset(fields, i))).Some?
    ensures Mid(fields, m, AfterField(fields, m, i, st), i + 1)
    ensures DecodeRecords(fields, st, EncodeField(fields[i], SlotAt(m, Offset(fields, i))).value + t)
            == DecodeRecords(fields, AfterField(fields, m, i, st), t)
    decreases fields[i], 5
  {
    if Items(SlotAt(m, Offset(fields, i))) == [] {
      assert [] + t == t;
    } else {
      FilledArrayStep(fields, m, i, st, t);
    }
  }

  lemma FilledArrayStep(fields: seq<Field>, m: Msg, i: nat, st: State, t: seq<Byte>)
    requires Found(fields, i) && Apart(fields) && WfField(fields[i]) && fields[i].htype.Repeated?
    requires Mid(fields, m, st, i)
    requires TypedSlot(fields[i], SlotAt(m, Offset(fields, i))) && ReadySlot(fields[i], SlotAt(m, Offset(fields, i)))
    requires Items(SlotAt(m, Offset(fields, i))) != []
    ensures EncodeField(fields[i], SlotAt(m, Offset(fields, i))).Some?
    ensures Mid(fields, m, AfterField(fields, m, i, st), i + 1)
    ensures DecodeRecords(fields, st, EncodeField(fields[i], SlotAt(m, Offset(fields, i))).value + t)
            == DecodeRecords(fields, AfterField(fields, m, i, st), t)
    decreases fields[i], 4
  {
    var f, slot := fields[i], SlotAt(m, Offset(fields, i));
    var vs := Items(slot);
    SentBefore(fields, m, i, i);
    FreshArray(fields, i, st);
    FreshStore(fields, i, st, slot);
    ArrayDecodes(fields, i, st, vs, t);
    MidUpdate(fields, m, st, i, CountBefore(fields, i, st) + |vs|);
  }

  lemma FreshStore(fields: seq<Field>, i: nat, st: State, slot: Slot)
    requires i < |fields| && fields[i].htype.Repeated? && CountBefore(fields, i, st) == 0
    requires |StateItems(fields, i, st)| == if FixedCount(fields[i]) then fields[i].arraySize else 0
    requires FixedCount(fields[i]) ==> |Items(slot)| == fields[i].arraySize
    ensures Many(StoreAll(StateItems(fields, i, st), 0, SentItems(fields[i], Items(slot)))) == SentSlot(fields[i], slot)
  {
    var base := StateItems(fields, i, st);
    StoreAllIs(base, 0, SentItems(fields[i], Items(slot)));
    assert base[..0] == [];
  }

  lemma PackedStep(fields: seq<Field>, i: nat, st: State, body: seq<Byte>, base: seq<Value>, size: nat,
                   items: seq<Value>, n: nat, t: seq<Byte>)
    requires Found(fields, i) && fields[i].htype.Repeated? && Packable(fields[i].ltype) && |body| < TWO32
    requires !Blocked(fields, i, st) && base == StateItems(fields, i, st) && size == CountBefore(fields, i, st)
    requires DecodePacked(fields[i], base, size, body) == Some((items, size + n))
    ensures DecodeRecords(fields, st, (EncodeTag(fields[i].tag, WT_STRING) + Prefixed(body)) + t)
            == DecodeRecords(fields, Update(fields, i, st, Many(items), size + n), t)
  {
    var s := EncodeVarint(|body|) + (body + t);
    assert (EncodeTag(fields[i].tag, WT_STRING) + Prefixed(body)) + t == EncodeTag(fields[i].tag, WT_STRING) + s;
    DelimitedRoundTrip(body, t);
    StaticThen(fields, i, WT_STRING, st, s, Many(items), size + n, t);
  }

  /** An array that no record has touched yet: count zero, and the previous fixed one full. */
  lemma FreshArray(fields: seq<Field>, i: nat, st: State)
    requires i < |fields| && fields[i].htype.Repeated? && WfField(fields[i]) && FixedDone(fields, st)
    requires SlotAt(st.msg, Offset(fields, i)) == DefaultSlot(fields[i])
    requires st.fixedAt != Some(i)
    ensures !Blocked(fields, i, st) && CountBefore(fields, i, st) == 0
    ensures |StateItems(fields, i, st)| == if FixedCount(fields[i]) then fields[i].arraySize else 0
  {
  }

  lemma FieldStep(fields: seq<Field>, m: Msg, i: nat, st: State, t: seq<Byte>)
    requires Found(fields, i) && Apart(fields) && WfField(fields[i])
    requires Mid(fields, m, st, i)
    requires TypedSlot(fields[i], SlotAt(m, Offset(fields, i))) && ReadySlot(fields[i], SlotAt(m, Offset(fields, i)))
    ensures EncodeField(fields[i], SlotAt(m, Offset(fields, i))).Some?
    ensures Mid(fields, m, AfterField(fields, m, i, st), i + 1)
    ensures DecodeRecords(fields, st, EncodeField(fields[i], SlotAt(m, Offset(fields, i))).value + t)
            == DecodeRecords(fields, AfterField(fields, m, i, st), t)
    decreases fields[i], 6
  {
    if fields[i].htype.Repeated? {
      ArrayStep(fields, m, i, st, t);
    } else {
      SingleFieldStep(fields, m, i, st, t);
    }
  }

  lemma FieldsBytes(fields: seq<Field>, m: Msg, i: nat, t: seq<Byte>)
    requires i < |fields| && EncodeField(fields[i], SlotAt(m, Offset(fields, i))).Some?
             && EncodeFields(fields, m, i + 1).Some?
    ensures EncodeFields(fields, m, i).Some?
    ensures EncodeFields(fields, m, i).value + t
            == EncodeField(fields[i], SlotAt(m, Offset(fields, i))).value + (EncodeFields(fields, m, i + 1).value + t)
  {
  }

  /** The bytes of field i and of those behind it. */
  lemma FieldFirst(fields: seq<Field>, m: Msg, i: nat, st: State, t: seq<Byte>)
    requires Found(fields, i) && Apart(fields) && WfField(fields[i]) && Mid(fields, m, st, i)
    requires TypedSlot(fields[i], SlotAt(m, Offset(fields, i))) && ReadySlot(fields[i], SlotAt(m, Offset(fields, i)))
    requires EncodeFields(fields, m, i + 1).Some?
    ensures EncodeFields(fields, m, i).Some?
    ensures DecodeRecords(fields, st, EncodeFields(fields, m, i).value + t)
            == DecodeRecords(fields, AfterField(fields, m, i, st), EncodeFields(fields, m, i + 1).value + t)
    decreases fields[i], 7
  {
    FieldStep(fields, m, i, st, EncodeFields(fields, m, i + 1).value + t);
    FieldsBytes(fields, m, i, t);
  }

  lemma {:induction false} FieldsRoundTrip(fields: seq<Field>, m: Msg, i: nat, st: State, t: seq<Byte>)
    returns (st': State)
    requires WfSchema(fields) && Apart(fields) && i <= |fields| && TypedMsg(fields, m) && ReadyMsg(fields, m)
    requires Mid(fields, m, st, i)
    ensures EncodeFields(fields, m, i).Some?
    ensures Mid(fields, m, st', |fields|)
    ensures DecodeRecords(fields, st, EncodeFields(fields, m, i).value + t) == DecodeRecords(fields, st', t)
    decreases fields, |fields| - i
  {
    if i == |fields| {
      st' := st;
      assert [] + t == t;
    } else {
      WfFound(fields, i);
      FieldStep(fields, m, i, st, []);
      st' := FieldsRoundTrip(fields, m, i + 1, AfterField(fields, m, i, st), t);
      FieldFirst(fields, m, i, st, t);
    }
  }

  /** The round trip: for every well-formed static schema, at any depth, and every struct of
      it that is ready to be sent, `pb_encode` succeeds, and `pb_decode` accepts its bytes,
      uses all of them and returns the message with absent members at their defaults. */
  lemma {:induction false} MessageRoundTrip(fields: seq<Field>, m: Msg)
    requires WfSchema(fields) && TypedMsg(fields, m) && ReadyMsg(fields, m)
    ensures EncodeMessage(fields, m).Some?
    ensures DecodeMessage(fields, EncodeMessage(fields, m).value) == Ok(Received(fields, m), [])
    decreases fields, |fields| + 1
  {
    OffsetsApart(fields);
    var st' := FieldsRoundTrip(fields, m, 0, Start(DefaultMsg(fields)), []);
    var e := EncodeMessage(fields, m).value;
    assert e + [] == e;
    assert Complete(fields, st');
  }
}
