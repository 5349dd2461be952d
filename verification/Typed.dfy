/**
 Memory shape: decoding keeps every member within its type, its buffer and its
 array, on any input.
 */
module Typed {
  import opened Wire
  import opened Varint
  import opened Schema
  import opened Decode
  import opened Records

  ghost predicate TypedValue(f: Field, v: Value)
    decreases f, 0
  {
    if f.ltype.LSubmessage? then v.MsgV? && TypedMsg(f.sub, v.slots) else TypedScalar(f, v)
  }

  /** The storage of a field: counts are at most the array size, and only a fixed-count array
      may hold places that nothing has written yet. */
  ghost predicate TypedSlot(f: Field, slot: Slot)
    decreases f, 1
  {
    match f.htype
    case Required => slot.Plain? && TypedValue(f, slot.v)
    case Optional => (if f.sizeOffset != 0 then slot.Flagged? else slot.Plain?) && TypedValue(f, slot.v)
    case Repeated =>
      && slot.Many?
      && (if f.sizeOffset != 0 then |slot.items| <= f.arraySize else |slot.items| == f.arraySize)
      && forall k :: 0 <= k < |slot.items| ==>
                       TypedValue(f, slot.items[k]) || (FixedCount(f) && slot.items[k].Indeterminate?)
    case Oneof => slot.NoneOf? || (slot.OneOf? && (slot.which == f.tag ==> TypedValue(f, slot.v)))
  }

  /** A struct of the schema: exactly its storage, each member of its type. */
  ghost predicate TypedMsg(fields: seq<Field>, m: Msg)
    decreases fields, 2
  {
    && m.Keys == Keys(fields, |fields|)
    && forall i :: 0 <= i < |fields| ==> TypedSlot(fields[i], SlotAt(m, Offset(fields, i)))
  }

  lemma {:induction false} PackedCount(f: Field, items: seq<Value>, size: nat, body: seq<Byte>)
    requires size <= f.arraySize && DecodePacked(f, items, size, body).Some?
    ensures DecodePacked(f, items, size, body).value.1 <= f.arraySize
    ensures |items| == size ==>
            |DecodePacked(f, items, size, body).value.0| == DecodePacked(f, items, size, body).value.1
    ensures |items| == f.arraySize ==> |DecodePacked(f, items, size, body).value.0| == f.arraySize
    decreases |body|
  {
    if body != [] {
      var p := DecodeScalar(f, body);
      PackedCount(f, Store(items, size, p.value), size + 1, p.rest);
    }
  }

  lemma ScalarTyped(f: Field, s: seq<Byte>)
    requires WfField(f) && DecodeScalar(f, s).Ok?
    ensures TypedScalar(f, DecodeScalar(f, s).value)
  {
    match f.ltype
    case LBool =>
    case LVarint => IntTyped(f, DecodeVarint(s).value);
    case LUVarint => IntTyped(f, DecodeVarint(s).value);
    case LSVarint => IntTyped(f, DecodeVarint(s).value);
    case LFixed32 => LittleEndianBound(s[..4]);
    case LFixed64 => LittleEndianBound(s[..8]);
    case LBytes =>
    case LString =>
    case LFixedLengthBytes =>
  }

  lemma IntTyped(f: Field, v: nat)
    requires v < TWO64 && Narrow(f, v).Some?
    requires f.ltype.LVarint? || f.ltype.LUVarint? || f.ltype.LSVarint?
    ensures TypedScalar(f, IntV(Narrow(f, v).value))
  {
    var half := HalfRange(f.dataSize);
    SignedIs(v, TWO63);
    SignedIs(v, TWO31);
    if f.ltype.LVarint? {
      SignedIs(Narrow(f, v).value, half);
    } else if f.ltype.LSVarint? {
      SignedIs(UnZigZag(v), half);
    }
  }

  lemma {:induction false} LittleEndianBound(s: seq<Byte>)
    requires |s| <= 8
    ensures FromLittleEndian(s) < Pow2(8 * |s|)
    ensures Pow2(32) == TWO32 && Pow2(64) == TWO64
  {
    Pow2Values();
    if s != [] {
      LittleEndianBound(s[1..]);
      Pow2Add(8, 8 * |s[1..]|);
      assert Pow2(8) == 256 by { Pow2Add(4, 4); assert Pow2(4) == 16; }
    }
  }

  // ------------------------------------------------------------ defaults

  lemma {:induction false} UndefinedAll(n: nat)
    ensures forall k :: 0 <= k < n ==> Undefined(n)[k].Indeterminate?
  {
    if n > 0 {
      UndefinedAll(n - 1);
    }
  }

  lemma {:induction false} DefaultValueTyped(f: Field)
    requires WfField(f)
    ensures TypedValue(f, DefaultValue(f))
    decreases f, 0
  {
    if f.ltype.LSubmessage? {
      DefaultMsgTyped(f.sub);
    }
  }

  /** What `pb_message_set_to_defaults` leaves behind is a struct of the schema. */
  lemma {:induction false} DefaultMsgTyped(fields: seq<Field>)
    requires WfSchema(fields)
    ensures TypedMsg(fields, DefaultMsg(fields))
    decreases fields, 2
  {
    OffsetsApart(fields);
    forall i | 0 <= i < |fields|
      ensures TypedSlot(fields[i], SlotAt(DefaultMsg(fields), Offset(fields, i)))
    {
      DefaultsAt(fields, |fields|, i);
      DefaultSlotTyped(fields[i]);
    }
  }

  lemma {:induction false} DefaultSlotTyped(f: Field)
    requires WfField(f)
    ensures TypedSlot(f, DefaultSlot(f))
    decreases f, 1
  {
    DefaultValueTyped(f);
    UndefinedAll(f.arraySize);
  }

  // ------------------------------------------------------------ decoding

  ghost predicate TypedItems(f: Field, items: seq<Value>) {
    forall k :: 0 <= k < |items| ==> TypedValue(f, items[k]) || (FixedCount(f) && items[k].Indeterminate?)
  }

  lemma StoreTyped(f: Field, items: seq<Value>, size: nat, v: Value)
    requires TypedItems(f, items) && TypedValue(f, v)
    ensures TypedItems(f, Store(items, size, v))
  {
  }

  lemma {:induction false} PackedTyped(f: Field, items: seq<Value>, size: nat, body: seq<Byte>)
    requires WfField(f) && Packable(f.ltype) && TypedItems(f, items) && DecodePacked(f, items, size, body).Some?
    ensures TypedItems(f, DecodePacked(f, items, size, body).value.0)
    decreases |body|
  {
    if body != [] {
      var p := DecodeScalar(f, body);
      ScalarTyped(f, body);
      StoreTyped(f, items, size, p.value);
      PackedTyped(f, Store(items, size, p.value), size + 1, p.rest);
    }
  }

  /** The counter of an array agrees with its storage and its size. */
  predicate CountFits(f: Field, slot: Slot, size: nat) {
    f.htype.Repeated? ==>
      && size <= f.arraySize
      && (if FixedCount(f) then |Items(slot)| == f.arraySize else |Items(slot)| == size)
  }

  lemma {:induction false} ValueTyped(f: Field, cur: Value, s: seq<Byte>)
    requires WfField(f) && DecodeValue(f, cur, s).Ok?
    requires f.ltype.LSubmessage? && !f.htype.Repeated? ==> TypedValue(f, cur)
    ensures TypedValue(f, DecodeValue(f, cur, s).value)
    decreases |s|, 0
  {
    if f.ltype.LSubmessage? {
      DefaultMsgTyped(f.sub);
      var before := if f.htype.Repeated? then DefaultMsg(f.sub) else Struct(cur);
      DecodeKeepsTyped(f.sub, Delimited(s).value, before);
    } else {
      ScalarTyped(f, s);
    }
  }

  lemma {:induction false} StaticTyped(f: Field, wireType: nat, slot: Slot, size: nat, s: seq<Byte>)
    requires WfField(f) && TypedSlot(f, slot) && CountFits(f, slot, size)
    requires DecodeStatic(f, wireType, slot, size, s).Ok?
    ensures var (slot', size') := DecodeStatic(f, wireType, slot, size, s).value;
            TypedSlot(f, slot') && CountFits(f, slot', size')
              && (f.htype.Oneof? ==> slot'.OneOf? && slot'.which == f.tag)
    decreases |s|, 1
  {
    if ReadsPacked(f, wireType) {
      var body := Delimited(s).value;
      PackedCount(f, Items(slot), size, body);
      PackedTyped(f, Items(slot), size, body);
    } else {
      DefaultValueTyped(f);
      ValueTyped(f, ValueBefore(f, slot), s);
      if f.htype.Repeated? {
        StoreTyped(f, Items(slot), size, DecodeValue(f, Indeterminate, s).value);
      }
    }
  }

  ghost predicate TypedState(fields: seq<Field>, st: State) {
    && TypedMsg(fields, st.msg)
    && (st.fixedAt.Some? ==>
          st.fixedAt.value < |fields| && st.fixedCount <= fields[st.fixedAt.value].arraySize)
  }

  lemma SlotUpdateTyped(fields: seq<Field>, m: Msg, i: nat, slot: Slot)
    requires WfSchema(fields) && i < |fields| && TypedMsg(fields, m)
    requires TypedSlot(fields[i], slot) && (fields[i].htype.Oneof? ==> slot.OneOf? && slot.which == fields[i].tag)
    ensures TypedMsg(fields, m[Offset(fields, i) := slot])
  {
    OffsetsApart(fields);
    var m' := m[Offset(fields, i) := slot];
    assert m'.Keys == m.Keys;
    forall j | 0 <= j < |fields|
      ensures TypedSlot(fields[j], SlotAt(m', Offset(fields, j)))
    {
      if j != i && Shares(fields, i, j) {
        assert WfField(fields[i]) && WfField(fields[j]);
      }
    }
  }

  lemma {:induction false} KnownTyped(fields: seq<Field>, i: nat, wireType: nat, st: State, s: seq<Byte>)
    requires WfSchema(fields) && i < |fields| && TypedState(fields, st)
    requires DecodeKnown(fields, i, wireType, st, s).Next?
    ensures TypedState(fields, DecodeKnown(fields, i, wireType, st, s).st)
    decreases |s|, 2
  {
    var f, slot, size := fields[i], SlotAt(st.msg, Offset(fields, i)), CountBefore(fields, i, st);
    assert WfField(f) && TypedSlot(f, slot);
    StaticTyped(f, wireType, slot, size, s);
    SlotUpdateTyped(fields, st.msg, i, DecodeStatic(f, wireType, slot, size, s).value.0);
  }

  lemma {:induction false} RunTyped(fields: seq<Field>, st: State, s: seq<Byte>)
    requires WfSchema(fields) && TypedState(fields, st) && DecodeRecords(fields, st, s).Done?
    ensures TypedState(fields, DecodeRecords(fields, st, s).st)
    decreases |s|, 3
  {
    if s != [] {
      var r := DecodeRecord(fields, st, s);
      if r.Next? {
        var k := DecodeTag(s);
        RecordIsBody(fields, st, s);
        match FindTag(fields, k.number) {
          case None =>
          case Some(i) => KnownTyped(fields, i, k.wireType, st, k.rest);
        }
        RunTyped(fields, r.st, r.rest);
      }
    }
  }

  /** Any input that decodes leaves a struct of the schema: every integer in the range of its
      member, every string and byte array within its buffer, every count at most the array
      size, and so on in every submessage. */
  lemma {:induction false} DecodeKeepsTyped(fields: seq<Field>, s: seq<Byte>, m: Msg)
    requires WfSchema(fields) && TypedMsg(fields, m) && DecodeNoinit(fields, s, m).Ok?
    ensures TypedMsg(fields, DecodeNoinit(fields, s, m).value)
    decreases |s|, 4
  {
    RunTyped(fields, Start(m), s);
  }
}
