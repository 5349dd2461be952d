/**
 The decoder as pb_decode.c runs it: over a stream that moves, into a struct
 that is updated in place, proved against the functions of `Decode`.
 */
module Decoder {
  import opened Wire
  import opened Varint
  import opened Schema
  import opened Decode
  import opened Records
  import opened InputStream
  import opened FieldIterator
  import opened Merge
  import Bits

  /** The destination struct. */
  class Message {
    var slots: Msg

    constructor (slots: Msg)
      ensures this.slots == slots
    {
      this.slots := slots;
    }
  }

  /** `pb_dec_bool` */
  method DecBool(stream: IStream, f: Field) returns (ok: bool, v: Value)
    requires stream.Valid() && f.ltype.LBool?
    modifies stream
    ensures stream.Valid() && stream.End() == old(stream.End())
    ensures ok <==> DecodeScalar(f, old(stream.Rest())).Ok?
    ensures ok ==> Ok(v, stream.Rest()) == DecodeScalar(f, old(stream.Rest()))
  {
    var value, eof;
    ok, value, eof := stream.DecodeVarint32Eof();
    v := BoolV(value != 0);
  }

  /** `pb_dec_varint` */
  method DecVarint(stream: IStream, f: Field) returns (ok: bool, v: Value)
    requires stream.Valid() && f.ltype.LVarint?
    modifies stream
    ensures stream.Valid() && stream.End() == old(stream.End())
    ensures ok <==> DecodeScalar(f, old(stream.Rest())).Ok?
    ensures ok ==> Ok(v, stream.Rest()) == DecodeScalar(f, old(stream.Rest()))
  {
    var value;
    v := Indeterminate;
    ok, value := stream.DecodeVarint64();
    if !ok {
      return;
    }
    var svalue := if f.dataSize == 8 then Signed(value, TWO63) else Signed(value, TWO31);
    var clamped;
    if f.dataSize == 8 {
      clamped := Signed(svalue, TWO63);
    } else if f.dataSize == 4 {
      clamped := Signed(svalue, TWO31);
    } else if f.dataSize == 2 {
      clamped := Signed(svalue, 0x8000);
    } else if f.dataSize == 1 {
      clamped := Signed(svalue, 0x80);
    } else {
      return false, v;
    }
    v := IntV(clamped);
    ok := clamped == svalue;
  }

  /** `pb_dec_uvarint` */
  method DecUvarint(stream: IStream, f: Field) returns (ok: bool, v: Value)
    requires stream.Valid() && f.ltype.LUVarint?
    modifies stream
    ensures stream.Valid() && stream.End() == old(stream.End())
    ensures ok <==> DecodeScalar(f, old(stream.Rest())).Ok?
    ensures ok ==> Ok(v, stream.Rest()) == DecodeScalar(f, old(stream.Rest()))
  {
    var value;
    v := Indeterminate;
    ok, value := stream.DecodeVarint64();
    if !ok {
      return;
    }
    var clamped;
    if f.dataSize == 8 {
      clamped := value % TWO64;
    } else if f.dataSize == 4 {
      clamped := value % TWO32;
    } else if f.dataSize == 2 {
      clamped := value % 0x1_0000;
    } else if f.dataSize == 1 {
      clamped := value % 0x100;
    } else {
      return false, v;
    }
    v := IntV(clamped);
    ok := clamped == value;
  }

  /** `pb_dec_svarint` */
  method DecSvarint(stream: IStream, f: Field) returns (ok: bool, v: Value)
    requires stream.Valid() && f.ltype.LSVarint?
    modifies stream
    ensures stream.Valid() && stream.End() == old(stream.End())
    ensures ok <==> DecodeScalar(f, old(stream.Rest())).Ok?
    ensures ok ==> Ok(v, stream.Rest()) == DecodeScalar(f, old(stream.Rest()))
  {
    var u;
    v := Indeterminate;
    ok, u := stream.DecodeVarint64();
    if !ok {
      return;
    }
    var value := UnZigZag(u);
    SignedIs(value, TWO63);
    var clamped;
    if f.dataSize == 8 {
      clamped := value;
    } else if f.dataSize == 4 {
      clamped := Signed(value, TWO31);
    } else if f.dataSize == 2 {
      clamped := Signed(value, 0x8000);
    } else if f.dataSize == 1 {
      clamped := Signed(value, 0x80);
    } else {
      return false, v;
    }
    UnZigZagBound(u);
    v := IntV(clamped);
    ok := clamped == value;
  }

  lemma UnZigZagBound(u: nat)
    requires u < TWO64
    ensures -TWO63 <= UnZigZag(u) < TWO63
  {
    SignedIs(TWO64 - 1 - u / 2, TWO63);
    SignedIs(u / 2, TWO63);
  }

  /** `pb_decode_fixed32` and `pb_decode_fixed64` */
  method DecFixed(stream: IStream, f: Field) returns (ok: bool, v: Value)
    requires stream.Valid() && (f.ltype.LFixed32? || f.ltype.LFixed64?)
    modifies stream
    ensures stream.Valid() && stream.End() == old(stream.End())
    ensures ok <==> DecodeScalar(f, old(stream.Rest())).Ok?
    ensures ok ==> Ok(v, stream.Rest()) == DecodeScalar(f, old(stream.Rest()))
  {
    var bytes;
    ok, bytes := stream.Read(if f.ltype.LFixed32? then 4 else 8);
    v := if ok then IntV(FromLittleEndian(bytes)) else Indeterminate;
  }

  /** `pb_dec_bytes` */
  method DecBytes(stream: IStream, f: Field) returns (ok: bool, v: Value)
    requires stream.Valid() && f.ltype.LBytes? && f.dataSize <= SIZE_MAX
    modifies stream
    ensures stream.Valid() && stream.End() == old(stream.End())
    ensures ok <==> DecodeScalar(f, old(stream.Rest())).Ok?
    ensures ok ==> Ok(v, stream.Rest()) == DecodeScalar(f, old(stream.Rest()))
  {
    var size, eof, data;
    v := Indeterminate;
    ok, size, eof := stream.DecodeVarint32Eof();
    if !ok {
      return;
    }
    if size > SIZE_MAX {
      return false, v;
    }
    var allocSize := size + SIZE_BYTES;
    if allocSize > f.dataSize {
      return false, v;
    }
    ok, data := stream.Read(size);
    v := BytesV(data);
  }

  lemma TerminatorRoom(size: nat)
    requires size < TWO32
    ensures (size + 1) % TWO32 == if size == TWO32 - 1 then 0 else size + 1
  {
  }

  /** `pb_dec_string`; the room for the terminator is computed in 32 bits. */
  method DecString(stream: IStream, f: Field) returns (ok: bool, v: Value)
    requires stream.Valid() && f.ltype.LString? && f.dataSize <= SIZE_MAX
    modifies stream
    ensures stream.Valid() && stream.End() == old(stream.End())
    ensures ok <==> DecodeScalar(f, old(stream.Rest())).Ok?
    ensures ok ==> Ok(v, stream.Rest()) == DecodeScalar(f, old(stream.Rest()))
  {
    var size, eof, data;
    v := Indeterminate;
    ok, size, eof := stream.DecodeVarint32Eof();
    if !ok {
      return;
    }
    var allocSize := (size + 1) % TWO32;
    TerminatorRoom(size);
    if allocSize < size {
      return false, v;
    }
    if allocSize > f.dataSize {
      return false, v;
    }
    ok, data := stream.Read(size);
    v := BytesV(CString(data));
  }

  /** `pb_dec_fixed_length_bytes` */
  method DecFixedLengthBytes(stream: IStream, f: Field) returns (ok: bool, v: Value)
    requires stream.Valid() && f.ltype.LFixedLengthBytes? && f.dataSize <= SIZE_MAX
    modifies stream
    ensures stream.Valid() && stream.End() == old(stream.End())
    ensures ok <==> DecodeScalar(f, old(stream.Rest())).Ok?
    ensures ok ==> Ok(v, stream.Rest()) == DecodeScalar(f, old(stream.Rest()))
  {
    var size, eof, data;
    v := Indeterminate;
    ok, size, eof := stream.DecodeVarint32Eof();
    if !ok {
      return;
    }
    if size > SIZE_MAX {
      return false, v;
    }
    if size == 0 {
      assert stream.Rest()[..0] == [] && stream.Rest()[0..] == stream.Rest();
      return true, BytesV(Zeros(f.dataSize));
    }
    if size != f.dataSize {
      return false, v;
    }
    ok, data := stream.Read(f.dataSize);
    v := BytesV(data);
  }

  /** The dispatch through PB_DECODERS, other than for submessages. */
  method DecScalar(stream: IStream, f: Field) returns (ok: bool, v: Value)
    requires stream.Valid() && f.dataSize <= SIZE_MAX && !f.ltype.LSubmessage? && !f.ltype.LExtension?
    modifies stream
    ensures stream.Valid() && stream.End() == old(stream.End())
    ensures ok <==> DecodeScalar(f, old(stream.Rest())).Ok?
    ensures ok ==> Ok(v, stream.Rest()) == DecodeScalar(f, old(stream.Rest()))
  {
    match f.ltype
    case LBool => ok, v := DecBool(stream, f);
    case LVarint => ok, v := DecVarint(stream, f);
    case LUVarint => ok, v := DecUvarint(stream, f);
    case LSVarint => ok, v := DecSvarint(stream, f);
    case LFixed32 => ok, v := DecFixed(stream, f);
    case LFixed64 => ok, v := DecFixed(stream, f);
    case LBytes => ok, v := DecBytes(stream, f);
    case LString => ok, v := DecString(stream, f);
    case LFixedLengthBytes => ok, v := DecFixedLengthBytes(stream, f);
  }

  /** `pb_dec_submessage`: the bytes of the submessage become a stream of their own, and what
      it leaves unread is skipped. */
  method DecSubmessage(stream: IStream, f: Field, cur: Value) returns (ok: bool, v: Value)
    requires stream.Valid() && WfField(f) && f.ltype.LSubmessage?
    modifies stream
    ensures stream.Valid() && stream.End() <= old(stream.End())
    ensures ok <==> DecodeValue(f, cur, old(stream.Rest())).Ok?
    ensures ok ==> Ok(v, stream.Rest()) == DecodeValue(f, cur, old(stream.Rest())) && stream.End() == old(stream.End())
    decreases stream.bytesLeft, 0
  {
    v := Indeterminate;
    SubmessageValue(f, cur, stream.Rest());
    var sub;
    ok, sub := stream.MakeSubstream();
    if !ok {
      return;
    }
    var status, item;
    status, item := DecStruct(sub, f, cur);
    ok := stream.CloseSubstream(sub);
    if !ok {
      return;
    }
    return status, MsgV(item);
  }

  /** Its middle part, on the substream. */
  method DecStruct(sub: IStream, f: Field, cur: Value) returns (status: bool, slots: Msg)
    requires sub.Valid() && WfField(f) && f.ltype.LSubmessage?
    modifies sub
    ensures sub.Valid() && sub.End() <= old(sub.End())
    ensures var p := DecodeNoinit(f.sub, old(sub.Rest()), if f.htype.Repeated? then DefaultMsg(f.sub) else Struct(cur));
            (status <==> p.Ok?) && (status ==> slots == p.value && sub.End() == old(sub.End()))
    decreases sub.bytesLeft, 9
  {
    var item := new Message(if f.htype.Repeated? then map[] else Struct(cur));
    if f.htype.Repeated? {
      status := DecodeInto(sub, f.sub, item);
    } else {
      status := DecodeNoinitInto(sub, f.sub, item);
    }
    slots := item.slots;
  }

  lemma SubmessageValue(f: Field, cur: Value, s: seq<Byte>)
    requires f.ltype.LSubmessage?
    ensures Delimited(s).Fail? ==> DecodeValue(f, cur, s).Fail?
    ensures Delimited(s).Ok? ==>
              var p := DecodeNoinit(f.sub, Delimited(s).value,
                if f.htype.Repeated? then DefaultMsg(f.sub) else Struct(cur));
              DecodeValue(f, cur, s) == if p.Ok? then Ok(MsgV(p.value), Delimited(s).rest) else Fail
  {
  }

  method DecValue(stream: IStream, f: Field, cur: Value) returns (ok: bool, v: Value)
    requires stream.Valid() && WfField(f)
    modifies stream
    ensures stream.Valid() && stream.End() <= old(stream.End())
    ensures ok <==> DecodeValue(f, cur, old(stream.Rest())).Ok?
    ensures ok ==> Ok(v, stream.Rest()) == DecodeValue(f, cur, old(stream.Rest())) && stream.End() == old(stream.End())
    decreases stream.bytesLeft, 1
  {
    if f.ltype.LSubmessage? {
      ok, v := DecSubmessage(stream, f, cur);
    } else {
      ok, v := DecScalar(stream, f);
    }
  }

  /** The loop over a packed array: items go to the array while there is room. */
  method DecPackedItems(sub: IStream, f: Field, dest: Message, key: nat, size0: nat) returns (status: bool, size: nat)
    requires sub.Valid() && f.dataSize <= SIZE_MAX && Packable(f.ltype)
    requires key in dest.slots && dest.slots[key].Many?
    modifies sub, dest
    ensures sub.Valid() && sub.End() == old(sub.End())
    ensures var r := DecodePacked(f, old(dest.slots)[key].items, size0, old(sub.Rest()));
            && (status && sub.bytesLeft == 0 <==> r.Some?)
            && (r.Some? ==> size == r.value.1 && dest.slots == old(dest.slots)[key := Many(r.value.0)])
    ensures !status || sub.bytesLeft == 0 || size >= f.arraySize
  {
    size, status := size0, true;
    ghost var m := dest.slots;
    var items := dest.slots[key].items;
    assert m[key := Many(items)] == m;
    while sub.bytesLeft > 0 && size < f.arraySize
      invariant sub.Valid() && sub.End() == old(sub.End()) && status
      invariant dest.slots == m[key := Many(items)]
      invariant DecodePacked(f, m[key].items, size0, old(sub.Rest())) == DecodePacked(f, items, size, sub.Rest())
      decreases sub.bytesLeft
    {
      var v;
      status, v := DecScalar(sub, f);
      if !status {
        return;
      }
      items := Store(items, size, v);
      dest.slots := dest.slots[key := Many(items)];
      size := size + 1;
    }
  }

  /** The packed part of `decode_static_field`. */
  method DecPackedArray(stream: IStream, f: Field, dest: Message, key: nat, size0: nat) returns (ok: bool, size: nat)
    requires stream.Valid() && f.dataSize <= SIZE_MAX && Packable(f.ltype)
    modifies stream, dest
    ensures stream.Valid() && stream.End() <= old(stream.End())
    ensures var d := Delimited(old(stream.Rest()));
            var r := if d.Ok? then DecodePacked(f, Items(SlotAt(old(dest.slots), key)), size0, d.value) else None;
            && (ok <==> r.Some?)
            && (ok ==> stream.Rest() == d.rest && stream.End() == old(stream.End()) && size == r.value.1
                       && dest.slots == old(dest.slots)[key := Many(r.value.0)])
  {
    size := size0;
    var sub;
    ok, sub := stream.MakeSubstream();
    if !ok {
      return;
    }
    dest.slots := dest.slots[key := Many(Items(SlotAt(dest.slots, key)))];
    var status;
    status, size := DecPackedItems(sub, f, dest, key, size);
    if sub.bytesLeft != 0 {
      return false, size;
    }
    ok := stream.CloseSubstream(sub);
    if ok {
      ok := status;
    }
  }

  /** `decode_static_field`; the count of a fixed-count array comes and goes separately. */
  method DecodeStaticField(stream: IStream, wireType: nat, iter: FieldIter, dest: Message, fixedCount: nat)
    returns (ok: bool, count: nat)
    requires stream.Valid() && iter.Valid() && iter.base == 0 && WfSchema(iter.fields) && iter.fields != []
    modifies stream, dest
    ensures stream.Valid() && stream.End() <= old(stream.End())
    ensures var f := iter.fields[iter.pos]; var key := Offset(iter.fields, iter.pos);
            var slot := SlotAt(old(dest.slots), key);
            var p := DecodeStatic(f, wireType, slot, if FixedCount(f) then fixedCount else |Items(slot)|,
              old(stream.Rest()));
            && (ok <==> p.Ok?)
            && (ok ==> stream.Rest() == p.rest && stream.End() == old(stream.End())
                       && dest.slots == old(dest.slots)[key := p.value.0]
                       && count == (if FixedCount(f) then p.value.1 else fixedCount))
    decreases stream.bytesLeft, 3
  {
    var f := iter.fields[iter.pos];
    assert WfField(f);
    ok, count := DecodeStaticAt(stream, wireType, f, iter.pData, dest, fixedCount);
  }

  method DecodeStaticAt(stream: IStream, wireType: nat, f: Field, key: nat, dest: Message, fixedCount: nat)
    returns (ok: bool, count: nat)
    requires stream.Valid() && WfField(f)
    modifies stream, dest
    ensures stream.Valid() && stream.End() <= old(stream.End())
    ensures var slot := SlotAt(old(dest.slots), key);
            var p := DecodeStatic(f, wireType, slot, if FixedCount(f) then fixedCount else |Items(slot)|,
              old(stream.Rest()));
            && (ok <==> p.Ok?)
            && (ok ==> stream.Rest() == p.rest && stream.End() == old(stream.End())
                       && dest.slots == old(dest.slots)[key := p.value.0]
                       && count == (if FixedCount(f) then p.value.1 else fixedCount))
    decreases stream.bytesLeft, 2
  {
    if f.htype.Repeated? && wireType == WT_STRING && Packable(f.ltype) {
      var place := if FixedCount(f) then fixedCount else |Items(SlotAt(dest.slots, key))|;
      ok, place := DecPackedArray(stream, f, dest, key, place);
      count := if FixedCount(f) then place else fixedCount;
    } else {
      ok, count := DecodeOneValue(stream, f, key, dest, fixedCount);
    }
  }

  /** One value: the next element of an array, or the only one of another field. */
  method DecodeOneValue(stream: IStream, f: Field, key: nat, dest: Message, fixedCount: nat)
    returns (ok: bool, count: nat)
    requires stream.Valid() && WfField(f)
    modifies stream, dest
    ensures stream.Valid() && stream.End() <= old(stream.End())
    ensures var slot := SlotAt(old(dest.slots), key);
            var size := if FixedCount(f) then fixedCount else |Items(slot)|;
            var p := DecodeValue(f, ValueBefore(f, slot), old(stream.Rest()));
            && (ok <==> p.Ok? && (f.htype.Repeated? ==> size < f.arraySize))
            && (ok ==> stream.Rest() == p.rest && stream.End() == old(stream.End())
                       && dest.slots == old(dest.slots)[key := SlotAfter(f, slot, size, p.value)]
                       && count == if FixedCount(f) then size + 1 else fixedCount)
    decreases stream.bytesLeft, 2, 0
  {
    ghost var slot := SlotAt(dest.slots, key);
    var place := if FixedCount(f) then fixedCount else |Items(SlotAt(dest.slots, key))|;
    count := if FixedCount(f) then fixedCount + 1 else fixedCount;
    if f.htype.Repeated? {
      if place >= f.arraySize {
        return false, count;
      }
    } else {
      MarkPresent(f, dest, key);
    }
    var v;
    var cur := if f.htype.Repeated? then Indeterminate else Current(SlotAt(dest.slots, key));
    assert cur == ValueBefore(f, slot);
    ok, v := DecValue(stream, f, cur);
    if ok {
      StoreValue(f, dest, key, place, v);
    }
  }

  /** What is written before the value: the `has_` flag, or the `which_` member together with
      the defaults of a submessage in a union. */
  method MarkPresent(f: Field, dest: Message, key: nat)
    requires !f.htype.Repeated? && f.atype.Static?
    modifies dest
    ensures Current(SlotAt(dest.slots, key)) == ValueBefore(f, SlotAt(old(dest.slots), key))
    ensures || dest.slots == old(dest.slots)
            || (key in dest.slots && dest.slots == old(dest.slots)[key := dest.slots[key]])
  {
    if f.htype.Optional? && f.sizeOffset != 0 {
      dest.slots := dest.slots[key := Flagged(true, Current(SlotAt(dest.slots, key)))];
    } else if f.htype.Oneof? {
      dest.slots := dest.slots[key := OneOf(f.tag, Current(SlotAt(dest.slots, key)))];
      if f.ltype.LSubmessage? {
        dest.slots := dest.slots[key := OneOf(f.tag, MsgV(DefaultMsg(f.sub)))];
      }
    }
  }

  /** The new value at the data pointer, beside the size member set before. */
  method StoreValue(f: Field, dest: Message, key: nat, place: nat, v: Value)
    modifies dest
    ensures dest.slots == old(dest.slots)[key := SlotAfter(f, SlotAt(old(dest.slots), key), place, v)]
  {
    match f.htype
    case Required => dest.slots := dest.slots[key := Plain(v)];
    case Optional => dest.slots := dest.slots[key := if f.sizeOffset != 0 then Flagged(true, v) else Plain(v)];
    case Repeated => dest.slots := dest.slots[key := Many(Store(Items(SlotAt(dest.slots, key)), place, v))];
    case Oneof => dest.slots := dest.slots[key := OneOf(f.tag, v)];
  }

  /** `pb_message_set_to_defaults` */
  method SetToDefaults(fields: seq<Field>, dest: Message)
    modifies dest
    ensures dest.slots == old(dest.slots) + DefaultMsg(fields)
  {
    var iter := new FieldIter(fields, 0);
    if fields == [] {
      assert dest.slots + DefaultMsg(fields) == dest.slots;
      return;
    }
    ghost var m := dest.slots;
    var more := true;
    while more
      invariant iter.Valid() && fresh(iter)
      invariant iter.fields == fields && iter.base == 0
      invariant more ==> dest.slots == m + Defaults(fields, iter.pos)
      invariant !more ==> dest.slots == m + Defaults(fields, |fields|)
      decreases if more then |fields| - iter.pos else 0
    {
      more := SetFieldToDefault(iter, dest, m);
    }
  }

  /** `pb_field_set_to_default` and the step to the next field. */
  method SetFieldToDefault(iter: FieldIter, dest: Message, ghost m: Msg) returns (more: bool)
    requires iter.Valid() && iter.base == 0 && iter.fields != [] && dest.slots == m + Defaults(iter.fields, iter.pos)
    modifies iter, dest
    ensures iter.Valid()
    ensures more ==> iter.pos == old(iter.pos) + 1 && dest.slots == m + Defaults(iter.fields, iter.pos)
    ensures !more ==> dest.slots == m + Defaults(iter.fields, |iter.fields|)
  {
    PlusDefault(m, iter.fields, iter.pos);
    dest.slots := dest.slots[iter.pData := DefaultSlot(iter.fields[iter.pos])];
    more := iter.Next();
  }

  lemma PlusDefault(m: Msg, fields: seq<Field>, i: nat)
    requires i < |fields|
    ensures (m + Defaults(fields, i))[Offset(fields, i) := DefaultSlot(fields[i])] == m + Defaults(fields, i + 1)
  {
  }

  /** `pb_decode` */
  method DecodeInto(stream: IStream, fields: seq<Field>, dest: Message) returns (ok: bool)
    requires stream.Valid() && WfSchema(fields) && dest.slots.Keys <= Keys(fields, |fields|)
    modifies stream, dest
    ensures stream.Valid() && stream.End() <= old(stream.End())
    ensures var p := DecodeMessage(fields, old(stream.Rest()));
            && (ok <==> p.Ok?)
            && (ok ==> dest.slots == p.value && stream.Rest() == p.rest && stream.End() == old(stream.End()))
    decreases stream.bytesLeft, 8
  {
    SetToDefaults(fields, dest);
    assert dest.slots == DefaultMsg(fields);
    ok := DecodeNoinitInto(stream, fields, dest);
  }

  /** The size pointer of a fixed-count array while it is turned to the decoder's own counter,
      which is no part of the struct. */
  const COUNTER: int := -1

  /** `pb_decode_delimited` */
  method DecodeDelimitedInto(stream: IStream, fields: seq<Field>, dest: Message) returns (ok: bool)
    requires stream.Valid() && WfSchema(fields) && dest.slots.Keys <= Keys(fields, |fields|)
    modifies stream, dest
    ensures stream.Valid() && stream.End() <= old(stream.End())
    ensures var p := DecodeDelimited(fields, old(stream.Rest()));
            && (ok <==> p.Ok?)
            && (ok ==> dest.slots == p.value && stream.Rest() == p.rest && stream.End() == old(stream.End()))
  {
    var sub, status;
    ok, sub := stream.MakeSubstream();
    if !ok {
      return;
    }
    status := DecodeInto(sub, fields, dest);
    ok := stream.CloseSubstream(sub);
    if ok {
      ok := status;
    }
  }

  /** The words of the bit map stand for the set of required fields seen. */
  ghost predicate SeenWords(words: array<nat>, fields: seq<Field>, seen: set<nat>)
    reads words
  {
    && words.Length == 2
    && words[0] == Bits.Word(seen, 0, 32) && words[1] == Bits.Word(seen, 32, 32)
    && forall k :: k in seen ==> k < RequiredBefore(fields, |fields|) && k < MAX_REQUIRED
  }

  /** The loop of `pb_decode_noinit`, up to the end of the data or a zero tag. */
  method DecodeLoop(stream: IStream, fields: seq<Field>, dest: Message, iter: FieldIter, words: array<nat>)
    returns (ok: bool, at: Option<nat>, count: nat, ghost seen: set<nat>)
    requires stream.Valid() && WfSchema(fields) && iter.fields == fields && AtRest(iter, None)
    requires SeenWords(words, fields, {})
    modifies stream, dest, iter, words
    ensures stream.Valid() && stream.End() <= old(stream.End())
    ensures AtRest(iter, at) && SeenWords(words, fields, seen)
    ensures var r := DecodeRecords(fields, Start(old(dest.slots)), old(stream.Rest()));
            && (ok <==> r.Done?)
            && (ok ==> r.st == State(dest.slots, seen, at, count) && r.rest == stream.Rest())
            && (ok ==> stream.End() == old(stream.End()))
    decreases stream.bytesLeft, 6
  {
    ok, at, count, seen := true, None, 0, {};
    ghost var all := DecodeRecords(fields, Start(dest.slots), stream.Rest());
    while stream.bytesLeft > 0
      invariant ok && stream.Valid() && stream.End() == old(stream.End()) && stream.bytesLeft <= old(stream.bytesLeft)
      invariant AtRest(iter, at) && SeenWords(words, fields, seen)
      invariant all == DecodeRecords(fields, State(dest.slots, seen, at, count), stream.Rest())
      decreases stream.bytesLeft
    {
      var wireType, tag, eof;
      ok, wireType, tag, eof := stream.ReadTag();
      if !ok {
        ok := eof;
        return;
      }
      ok, at, count, seen := DecodeOne(stream, fields, dest, iter, words, tag, wireType, at, count, seen);
      if !ok {
        return;
      }
    }
  }

  /** `pb_decode_noinit` */
  method DecodeNoinitInto(stream: IStream, fields: seq<Field>, dest: Message) returns (ok: bool)
    requires stream.Valid() && WfSchema(fields)
    modifies stream, dest
    ensures stream.Valid() && stream.End() <= old(stream.End())
    ensures var p := DecodeNoinit(fields, old(stream.Rest()), old(dest.slots));
            && (ok <==> p.Ok?)
            && (ok ==> dest.slots == p.value && stream.Rest() == p.rest && stream.End() == old(stream.End()))
    decreases stream.bytesLeft, 7
  {
    var words := new nat[2](_ => 0);
    var iter := new FieldIter(fields, 0);
    Bits.WordOfEmpty(0, 32);
    Bits.WordOfEmpty(32, 32);
    var fixedAt, fixedCount;
    ghost var seen;
    ok, fixedAt, fixedCount, seen := DecodeLoop(stream, fields, dest, iter, words);
    if !ok {
      return;
    }
    // The last fixed-count array must be full.
    if fixedAt.Some? && fixedCount != fields[fixedAt.value].arraySize {
      return false;
    }
    ok := CheckRequired(iter, words, seen);
  }

  /** Between two records: the size pointer of an array is its own, or the counter of the
      fixed-count array that is being filled. */
  ghost predicate AtRest(iter: FieldIter, fixedAt: Option<nat>)
    reads iter
  {
    && iter.Valid() && iter.base == 0
    && (fixedAt.Some? ==> fixedAt.value < |iter.fields|)
    && (iter.fields != [] && iter.fields[iter.pos].htype.Repeated? ==>
          || iter.pSize == iter.pData + iter.fields[iter.pos].sizeOffset
          || (FixedCount(iter.fields[iter.pos]) && iter.pSize == COUNTER && fixedAt == Some(iter.pos)))
  }

  /** One record behind its tag. */
  method DecodeOne(stream: IStream, fields: seq<Field>, dest: Message, iter: FieldIter, words: array<nat>,
                   tag: nat, wireType: nat, fixedAt: Option<nat>, fixedCount: nat, ghost seen: set<nat>)
    returns (ok: bool, at: Option<nat>, count: nat, ghost seen': set<nat>)
    requires stream.Valid() && WfSchema(fields) && iter.fields == fields && AtRest(iter, fixedAt)
    requires SeenWords(words, fields, seen)
    modifies stream, dest, iter, words
    ensures stream.Valid() && stream.End() <= old(stream.End())
    ensures iter.fields == fields && AtRest(iter, at) && SeenWords(words, fields, seen')
    ensures var r := DecodeBody(fields, State(old(dest.slots), seen, fixedAt, fixedCount), tag, wireType,
            old(stream.Rest()));
            && (ok <==> r.Next?)
            && (ok ==> r == Next(State(dest.slots, seen', at, count), stream.Rest()))
            && (ok ==> stream.End() == old(stream.End()))
    decreases stream.bytesLeft, 5
  {
    at, count, seen' := fixedAt, fixedCount, seen;
    var found;
    ghost var steps;
    found, steps := iter.Find(tag);
    if !found {
      assert FindTag(fields, tag).None?;
      ok := stream.SkipValue(wireType);
      return;
    }
    if fields == [] {
      // The terminator of an empty table reads as a bool outside the struct.
      var v, eof;
      ok, v, eof := stream.DecodeVarint32Eof();
      return;
    }
    FoundIsUnique(fields, iter.pos, tag);
    ok, at, count, seen' := DecodeFound(stream, fields, dest, iter, words, wireType, fixedAt, fixedCount, seen);
  }

  /** The same for the field at which the iterator stands. */
  method DecodeFound(stream: IStream, fields: seq<Field>, dest: Message, iter: FieldIter, words: array<nat>,
                     wireType: nat, fixedAt: Option<nat>, fixedCount: nat, ghost seen: set<nat>)
    returns (ok: bool, at: Option<nat>, count: nat, ghost seen': set<nat>)
    requires stream.Valid() && WfSchema(fields) && fields != [] && iter.fields == fields && AtRest(iter, fixedAt)
    requires SeenWords(words, fields, seen)
    modifies stream, dest, iter, words
    ensures stream.Valid() && stream.End() <= old(stream.End())
    ensures iter.fields == fields && AtRest(iter, at) && SeenWords(words, fields, seen')
    ensures var r := DecodeKnown(fields, old(iter.pos), wireType, State(old(dest.slots), seen, fixedAt, fixedCount),
            old(stream.Rest()));
            && (ok <==> r.Next?)
            && (ok ==> r == Next(State(dest.slots, seen', at, count), stream.Rest()))
            && (ok ==> stream.End() == old(stream.End()))
    decreases stream.bytesLeft, 4
  {
    seen' := seen;
    ok, at, count := ChooseCounter(iter, fixedAt, fixedCount);
    if !ok {
      return;
    }
    seen' := MarkSeen(fields, iter, words, seen);
    ok, count := DecodeStaticField(stream, wireType, iter, dest, count);
  }

  /** The bit of a required field. */
  method MarkSeen(fields: seq<Field>, iter: FieldIter, words: array<nat>, ghost seen: set<nat>)
    returns (ghost seen': set<nat>)
    requires iter.Valid() && fields != [] && iter.fields == fields && SeenWords(words, fields, seen)
    modifies words
    ensures seen' == See(fields, iter.pos, seen) && SeenWords(words, fields, seen')
  {
    seen' := seen;
    if fields[iter.pos].htype.Required? && iter.requiredIndex < MAX_REQUIRED {
      WordsStep(words, fields, iter.pos, seen);
      words[iter.requiredIndex / 32] := Bits.SetBit(words[iter.requiredIndex / 32], iter.requiredIndex % 32);
      seen' := seen + {iter.requiredIndex};
    }
  }

  /** A fixed-count array has no count in the struct: its size pointer is turned to the
      decoder's counter, which starts again at zero for another array. */
  method ChooseCounter(iter: FieldIter, fixedAt: Option<nat>, fixedCount: nat)
    returns (ok: bool, at: Option<nat>, count: nat)
    requires AtRest(iter, fixedAt) && iter.fields != []
    modifies iter
    ensures iter.pos == old(iter.pos) && iter.pData == old(iter.pData) && iter.requiredIndex == old(iter.requiredIndex)
    ensures var i := iter.pos; var fixed := FixedCount(iter.fields[i]);
            && (ok <==> !(&& fixed && fixedAt != Some(i) && fixedAt.Some?
                          && fixedCount != iter.fields[fixedAt.value].arraySize))
            && (ok && fixed ==> at == Some(i) && count == if fixedAt == Some(i) then fixedCount else 0)
            && (!(ok && fixed) ==> at == fixedAt && count == fixedCount)
    ensures AtRest(iter, at)
  {
    ok, at, count := true, fixedAt, fixedCount;
    if iter.fields[iter.pos].htype.Repeated? && iter.pSize == iter.pData {
      if fixedAt != Some(iter.pos) {
        if fixedAt.Some? && fixedCount != iter.fields[fixedAt.value].arraySize {
          return false, at, count;
        }
        at, count := Some(iter.pos), 0;
      }
      iter.pSize := COUNTER;
    }
  }

  lemma WordsStep(words: array<nat>, fields: seq<Field>, i: nat, seen: set<nat>)
    requires SeenWords(words, fields, seen) && i < |fields| && fields[i].htype.Required?
             && RequiredBefore(fields, i) < MAX_REQUIRED
    ensures var k := RequiredBefore(fields, i);
            && k < RequiredBefore(fields, |fields|)
            && Bits.SetBit(words[k / 32], k % 32) == Bits.Word(seen + {k}, 32 * (k / 32), 32)
            && words[1 - k / 32] == Bits.Word(seen + {k}, 32 - 32 * (k / 32), 32)
  {
    var k := RequiredBefore(fields, i);
    RequiredMonotone(fields, i, |fields|);
    Bits.SetBitIs(seen, 32 * (k / 32), 32, k % 32);
    Bits.WordElsewhere(seen, 32 - 32 * (k / 32), 32, k);
  }

  /** The last check of `pb_decode_noinit`: the iterator is moved to the end of the table to
      count its required fields, and that many bits are compared, whole words first. */
  method CheckRequired(iter: FieldIter, words: array<nat>, ghost seen: set<nat>) returns (ok: bool)
    requires iter.Valid() && SeenWords(words, iter.fields, seen)
    modifies iter
    ensures ok <==> forall k :: 0 <= k < Checked(iter.fields) ==> k in seen
  {
    var count := iter.requiredIndex;
    var lastRequired := iter.fields != [] && iter.fields[iter.pos].htype.Required?;
    ghost var last: nat := iter.pos;
    var more := iter.Next();
    while more
      invariant iter.Valid()
      invariant iter.fields != [] ==>
                  && last < |iter.fields| && count == RequiredBefore(iter.fields, last)
                  && lastRequired == iter.fields[last].htype.Required?
                  && (if more then iter.pos == last + 1 else last == |iter.fields| - 1)
      invariant iter.fields == [] ==> !more && count == 0 && !lastRequired
      decreases if more then |iter.fields| - iter.pos else 0
    {
      count := iter.requiredIndex;
      lastRequired := iter.fields[iter.pos].htype.Required?;
      last := iter.pos;
      more := iter.Next();
    }
    if lastRequired {
      count := count + 1;
    }
    if count > MAX_REQUIRED {
      count := MAX_REQUIRED;
    }
    assert count == Checked(iter.fields);
    WordsTell(words, iter.fields, seen);
    ok := CompareWords(words, count);
  }

  /** Whole words first, then the remaining bits. */
  method CompareWords(words: array<nat>, count: nat) returns (ok: bool)
    requires words.Length == 2 && count <= MAX_REQUIRED
    ensures ok <==> && (forall j :: 0 <= j < count / 32 ==> words[j] == Bits.LowBits(32))
                    && (count % 32 != 0 ==> words[count / 32] == Bits.LowBits(count % 32))
  {
    var i := 0;
    while i < count / 32
      invariant 0 <= i <= count / 32
      invariant forall j :: 0 <= j < i ==> words[j] == Bits.LowBits(32)
    {
      if words[i] != Bits.LowBits(32) {
        return false;
      }
      i := i + 1;
    }
    ok := count % 32 == 0 || words[count / 32] == Bits.LowBits(count % 32);
  }

  /** The word comparison holds exactly when every checked field has been seen. */
  lemma WordsTell(words: array<nat>, fields: seq<Field>, seen: set<nat>)
    requires SeenWords(words, fields, seen)
    ensures var c := Checked(fields);
            (forall k :: 0 <= k < c ==> k in seen) <==>
            && (forall j :: 0 <= j < c / 32 ==> words[j] == Bits.LowBits(32))
            && (c % 32 != 0 ==> words[c / 32] == Bits.LowBits(c % 32))
  {
    var c := Checked(fields);
    Bits.WordBound(seen, 0, 32);
    Bits.WordBound(seen, 32, 32);
    if c < 32 {
      Bits.WordLow(seen, 0, c, 32);
      Bits.WordBound(seen, 0, c);
    } else if 32 < c < 64 {
      Bits.WordLow(seen, 32, c - 32, 32);
      Bits.WordBound(seen, 32, c - 32);
    }
  }
}
