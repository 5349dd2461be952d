/**
 The encoder as pb_encode.c runs it: over a stream that only counts or that
 writes into a buffer, proved against the functions of `Encode`.
 */
module Encoder {
  import opened Wire
  import opened Varint
  import opened Schema
  import opened Decode
  import opened Encode
  import opened OutputStream
  import opened FieldIterator

  /** `pb_encode_varint` */
  method PutVarint(s: OStream, value: nat) returns (r: Status)
    requires s.Valid() && value < TWO64
    modifies s, s.buf
    ensures s.Valid() && Wrote(s.Room(), Some(EncodeVarint(value)), r, old(s.Now()), s.Now())
  {
    if value < 128 {
      r := s.Write([value]);
      return;
    }
    var buffer := VarintBytes(value);
    r := s.Write(buffer);
  }

  /** The loop that fills the ten-byte buffer. */
  method VarintBytes(value: nat) returns (bytes: seq<Byte>)
    requires 128 <= value < TWO64
    ensures bytes == EncodeVarint(value)
  {
    var buffer := new Byte[10](_ => 0);
    var v: nat := value;
    var i := 0;
    EncodeVarintAtMostTen(value);
    while v > 0
      invariant 0 <= i <= 10
      invariant v > 0 ==> EncodeVarint(value) == buffer[..i] + EncodeVarint(v)
      invariant v == 0 ==> i > 0 && buffer[i - 1] >= 128
      invariant v == 0 ==> EncodeVarint(value) == buffer[..i - 1] + [buffer[i - 1] - 128]
      decreases v
    {
      assert |EncodeVarint(v)| >= 1;
      ghost var done := buffer[..i];
      buffer[i] := v % 128 + 128;
      assert buffer[..i] == done && buffer[..i + 1] == done + [v % 128 + 128];
      if v >= 128 {
        assert EncodeVarint(v) == [v % 128 + 128] + EncodeVarint(v / 128);
        assert done + ([v % 128 + 128] + EncodeVarint(v / 128)) == (done + [v % 128 + 128]) + EncodeVarint(v / 128);
      }
      v := v / 128;
      i := i + 1;
    }
    buffer[i - 1] := buffer[i - 1] - 128;
    bytes := buffer[..i];
    assert bytes == buffer[..i - 1] + [buffer[i - 1]];
  }

  /** `pb_encode_svarint` */
  method PutSvarint(s: OStream, value: int) returns (r: Status)
    requires s.Valid()
    modifies s, s.buf
    ensures s.Valid() && Wrote(s.Room(), Some(EncodeVarint(ZigZag(value))), r, old(s.Now()), s.Now())
  {
    var zigzagged;
    if value < 0 {
      zigzagged := TWO64 - 1 - Word64(2 * Word64(value));
    } else {
      zigzagged := Word64(2 * Word64(value));
    }
    r := PutVarint(s, zigzagged);
  }

  /** `pb_encode_tag` */
  method PutTag(s: OStream, wireType: nat, number: nat) returns (r: Status)
    requires s.Valid() && number < 0x2000_0000 && wireType < 8
    modifies s, s.buf
    ensures s.Valid() && Wrote(s.Room(), Some(EncodeTag(number, wireType)), r, old(s.Now()), s.Now())
  {
    r := PutVarint(s, number * 8 + wireType);
  }

  /** `pb_encode_string` */
  method PutString(s: OStream, data: seq<Byte>) returns (r: Status)
    requires s.Valid() && |data| < TWO64
    modifies s, s.buf
    ensures s.Valid() && Wrote(s.Room(), Some(Prefixed(data)), r, old(s.Now()), s.Now())
  {
    ghost var s0 := s.Now();
    var length: Option<seq<Byte>> := Some(EncodeVarint(|data|));
    r := PutVarint(s, |data|);
    assert Both(length, Some(data)) == Some(Prefixed(data));
    if r != Fine {
      Fails(s.Room(), length, Some(data), r, s0, s.Now());
      return;
    }
    ghost var s1 := s.Now();
    r := s.Write(data);
    Then(s.Room(), length, Some(data), r, s0, s1, s.Now());
  }

  /** What the members of a struct hold is shorter than 2^64 bytes. */
  predicate Small(v: Value) {
    v.BytesV? ==> |v.data| < TWO64
  }

  /** The loop of `pb_enc_string`: the length of a string, at most its buffer. */
  method StringLength(f: Field, data: seq<Byte>) returns (size: nat)
    ensures size <= |data| && data[..size] == StringPart(f, data)
  {
    size := 0;
    while size < f.dataSize && size < |data| && data[size] != 0
      invariant size <= |data| && size <= f.dataSize && 0 !in data[..size]
    {
      assert data[..size + 1] == data[..size] + [data[size]];
      size := size + 1;
    }
    CStringIs(data, size);
  }

  /** The prefix without NULs that a NUL, the end of the data or any cut ends. */
  lemma {:induction false} CStringIs(data: seq<Byte>, size: nat)
    requires size <= |data| && 0 !in data[..size]
    ensures |CString(data)| >= size && CString(data)[..size] == data[..size]
    ensures size == |data| || data[size] == 0 ==> CString(data) == data[..size]
  {
    if size > 0 {
      assert data[..size][0] == data[0];
      assert data[1..][..size - 1] == data[..size][1..];
      CStringIs(data[1..], size - 1);
      assert data[..size] == [data[0]] + data[1..][..size - 1];
      assert CString(data)[..size] == [data[0]] + CString(data[1..])[..size - 1];
    }
  }

  /** The dispatch through PB_ENCODERS, other than for submessages. A member that does not
      hold a value of its type does not occur in a struct. */
  method PutScalar(s: OStream, f: Field, v: Value) returns (r: Status)
    requires s.Valid() && Small(v)
    modifies s, s.buf
    ensures s.Valid() && Wrote(s.Room(), EncodeScalar(f, v), r, old(s.Now()), s.Now())
  {
    if f.ltype.LBool? && v.BoolV? {
      r := PutVarint(s, if v.b then 1 else 0);
    } else if (f.ltype.LVarint? || f.ltype.LUVarint?) && v.IntV? && f.dataSize in {1, 2, 4, 8} {
      r := PutVarint(s, Word64(v.i));
    } else if f.ltype.LSVarint? && v.IntV? && f.dataSize in {1, 2, 4, 8} {
      r := PutSvarint(s, v.i);
    } else if f.ltype.LFixed32? && v.IntV? && v.i >= 0 {
      r := s.Write(LittleEndian(v.i, 4));
    } else if f.ltype.LFixed64? && v.IntV? && v.i >= 0 {
      r := s.Write(LittleEndian(v.i, 8));
    } else if f.ltype.LBytes? && v.BytesV? && |v.data| + SIZE_BYTES <= f.dataSize {
      r := PutString(s, v.data);
    } else if f.ltype.LString? && v.BytesV? {
      var size := StringLength(f, v.data);
      r := PutString(s, v.data[..size]);
    } else if f.ltype.LFixedLengthBytes? && v.BytesV? && |v.data| == f.dataSize {
      r := PutString(s, v.data);
    } else {
      r := Invalid;
    }
  }

  // ----------------------------------------------------- proto3 presence

  /** `pb_check_proto3_default_value` */
  method CheckDefault(f: Field, slot: Slot) returns (b: bool)
    ensures b == IsDefault(f, slot)
    decreases f, 0
  {
    if f.htype.Required? {
      return false;
    } else if f.htype.Repeated? {
      return f.sizeOffset != 0 && |Items(slot)| == 0;
    } else if f.htype.Oneof? {
      return Which(slot) == 0;
    } else if f.sizeOffset != 0 {
      return !(slot.Flagged? && slot.has);
    }
    var v := Current(slot);
    if f.ltype.LBytes? {
      return v.BytesV? && |v.data| == 0;
    } else if f.ltype.LString? {
      return v.BytesV? && (|v.data| == 0 || v.data[0] == 0);
    } else if f.ltype.LFixedLengthBytes? {
      return f.dataSize == 0;
    } else if f.ltype.LSubmessage? {
      b := CheckAllDefault(f.sub, Struct(v));
      return;
    }
    b := v == IntV(0) || v == BoolV(false);
  }

  /** Its loop over the fields of a submessage. */
  method CheckAllDefault(fields: seq<Field>, m: Msg) returns (b: bool)
    ensures b == AllDefault(fields, m, 0)
    decreases fields, 1
  {
    if fields == [] {
      return true;
    }
    var iter := new FieldIter(fields, 0);
    var more := true;
    while more
      invariant iter.Valid() && fresh(iter) && iter.fields == fields && iter.base == 0
      invariant AllDefault(fields, m, 0) == AllDefault(fields, m, if more then iter.pos else |fields|)
      decreases if more then |fields| - iter.pos else 0
    {
      var isDefault := CheckDefault(fields[iter.pos], SlotAt(m, iter.pData));
      if !isDefault {
        return false;
      }
      more := iter.Next();
    }
    b := true;
  }

  // ------------------------------------------------------ sizes of structs

  /** Everything that is measured fits the 64 bits of `size_t`. */
  ghost predicate SizedValue(f: Field, v: Value)
    decreases f, 0
  {
    && Small(v)
    && (f.ltype.LSubmessage? ==>
          && SizedMsg(f.sub, Struct(v))
          && (var body := EncodeMessage(f.sub, Struct(v)); body.Some? ==> |body.value| < TWO64))
  }

  ghost predicate SizedItems(f: Field, items: seq<Value>)
    decreases f, 1
  {
    forall k {:trigger SizedValue(f, items[k])} :: 0 <= k < |items| ==> SizedValue(f, items[k])
  }

  ghost predicate AllSmall(items: seq<Value>) {
    forall k {:trigger Small(items[k])} :: 0 <= k < |items| ==> Small(items[k])
  }

  lemma SizedElements(f: Field, items: seq<Value>)
    requires SizedItems(f, items)
    ensures AllSmall(items)
  {
    forall k | 0 <= k < |items|
      ensures Small(items[k])
    {
      assert SizedValue(f, items[k]);
    }
  }

  /** Fixed-width elements, whose size is not measured, are integers. */
  predicate WholeItems(f: Field, items: seq<Value>) {
    f.ltype.LFixed32? || f.ltype.LFixed64? ==> forall k :: 0 <= k < |items| ==> items[k].IntV? && items[k].i >= 0
  }

  /** Only what is written is measured: nothing is asked of absent members. */
  ghost predicate SizedSlot(f: Field, slot: Slot)
    decreases f, 2
  {
    Present(f, slot) ==>
      if f.htype.Repeated? then
        && SizedItems(f, Items(slot)) && WholeItems(f, Items(slot))
        && (Packable(f.ltype) ==> var body := EncodePacked(f, Items(slot)); body.Some? ==> |body.value| < TWO64)
      else SizedValue(f, Current(slot))
  }

  ghost predicate SizedMsg(fields: seq<Field>, m: Msg)
    decreases fields, 3
  {
    forall i {:trigger SizedSlot(fields[i], SlotAt(m, Offset(fields, i)))} :: 0 <= i < |fields| ==>
      SizedSlot(fields[i], SlotAt(m, Offset(fields, i)))
  }

  // --------------------------------------------------------------- fields

  lemma BothAssoc(a: Option<seq<Byte>>, b: Option<seq<Byte>>, c: Option<seq<Byte>>)
    ensures Both(Both(a, b), c) == Both(a, Both(b, c))
  {
    if a.Some? && b.Some? && c.Some? {
      assert a.value + b.value + c.value == a.value + (b.value + c.value);
    }
  }

  lemma BothNothing(a: Option<seq<Byte>>)
    ensures Both(Some([]), a) == a
  {
    if a.Some? {
      assert [] + a.value == a.value;
    }
  }

  /** One more encoder after those of `done`, with `rest` still to come: when it fails, the
      whole fails. */
  lemma Advance(w: Window, done: Option<seq<Byte>>, one: Option<seq<Byte>>, rest: Option<seq<Byte>>,
                r: Status, s0: Snap, s1: Snap, s2: Snap)
    requires Wrote(w, done, Fine, s0, s1) && Wrote(w, one, r, s1, s2)
    ensures r == Fine ==> Wrote(w, Both(done, one), Fine, s0, s2)
    ensures r != Fine ==> Wrote(w, Both(done, Both(one, rest)), r, s0, s2)
    ensures Both(Both(done, one), rest) == Both(done, Both(one, rest))
  {
    Then(w, done, one, r, s0, s1, s2);
    BothAssoc(done, one, rest);
    if r != Fine {
      Fails(w, Both(done, one), rest, r, s0, s2);
    }
  }

  method PutValue(s: OStream, f: Field, v: Value) returns (r: Status)
    requires s.Valid() && WfField(f) && SizedValue(f, v)
    modifies s, s.buf
    ensures s.Valid() && Wrote(s.Room(), EncodeValue(f, v), r, old(s.Now()), s.Now())
    decreases f, 0
  {
    if f.ltype.LSubmessage? {
      r := PutSubmessage(s, f.sub, Struct(v));
    } else {
      r := PutScalar(s, f, v);
    }
  }

  function Submessage(fields: seq<Field>, m: Msg): Option<seq<Byte>> {
    match EncodeMessage(fields, m)
    case None => None
    case Some(body) => Some(Prefixed(body))
  }

  /** `pb_encode_submessage`: a first pass only counts, a second one writes into a window of
      just that size. */
  method PutSubmessage(s: OStream, fields: seq<Field>, m: Msg) returns (r: Status)
    requires s.Valid() && WfSchema(fields) && SizedMsg(fields, m)
    requires var body := EncodeMessage(fields, m); body.Some? ==> |body.value| < TWO64
    modifies s, s.buf
    ensures s.Valid() && Wrote(s.Room(), Submessage(fields, m), r, old(s.Now()), s.Now())
    decreases fields, 4
  {
    var sizing := new OStream.Sizing();
    r := PutMessage(sizing, fields, m);
    if r != Fine {
      return;
    }
    var size := sizing.written;
    ghost var body := EncodeMessage(fields, m).value;
    ghost var length: Option<seq<Byte>> := Some(EncodeVarint(|body|));
    assert Both(length, Some(body)) == Submessage(fields, m);
    ghost var s0 := s.Now();
    r := PutVarint(s, size);
    if r != Fine {
      Fails(s.Room(), length, Some(body), r, s0, s.Now());
      return;
    }
    ghost var s1 := s.Now();
    r := PutBody(s, fields, m, size);
    Then(s.Room(), length, Some(body), r, s0, s1, s.Now());
  }

  /** The part of `pb_encode_submessage` behind the length. */
  method PutBody(s: OStream, fields: seq<Field>, m: Msg, size: nat) returns (r: Status)
    requires s.Valid() && WfSchema(fields) && SizedMsg(fields, m)
    requires EncodeMessage(fields, m).Some? && size == |EncodeMessage(fields, m).value|
    modifies s, s.buf
    ensures s.Valid() && Wrote(s.Room(), EncodeMessage(fields, m), r, old(s.Now()), s.Now())
    decreases fields, 3
  {
    if s.buf == null {
      r := s.Count(size);
      return;
    }
    if s.written + size > s.maxSize {
      return StreamFull;
    }
    var sub := new OStream.From(s.buf, s.start + s.written, size);
    r := PutMessage(sub, fields, m);
    s.written := s.written + sub.written;
    if sub.written != size {
      return SizeChanged;
    }
  }

  /** `encode_basic_field` for a field that is no array. */
  method PutTagged(s: OStream, f: Field, v: Value) returns (r: Status)
    requires s.Valid() && WfField(f) && SizedValue(f, v)
    modifies s, s.buf
    ensures s.Valid() && Wrote(s.Room(), Both(Some(TagOf(f)), EncodeValue(f, v)), r, old(s.Now()), s.Now())
    decreases f, 1
  {
    ghost var s0 := s.Now();
    r := PutTag(s, WireType(f.ltype), f.tag);
    if r != Fine {
      Fails(s.Room(), Some(TagOf(f)), EncodeValue(f, v), r, s0, s.Now());
      return;
    }
    ghost var s1 := s.Now();
    r := PutValue(s, f, v);
    Then(s.Room(), Some(TagOf(f)), EncodeValue(f, v), r, s0, s1, s.Now());
  }

  lemma ItemsFrom(f: Field, items: seq<Value>, i: nat)
    requires i < |items|
    ensures EncodeItems(f, items[i..]) ==
            Both(Both(Some(TagOf(f)), EncodeValue(f, items[i])), EncodeItems(f, items[i + 1..]))
  {
    assert items[i..][1..] == items[i + 1..] && items[i..][0] == items[i];
  }

  /** The part of `encode_array` for elements that each carry a tag. */
  method PutItems(s: OStream, f: Field, items: seq<Value>) returns (r: Status)
    requires s.Valid() && WfField(f) && SizedItems(f, items)
    modifies s, s.buf
    ensures s.Valid() && Wrote(s.Room(), EncodeItems(f, items), r, old(s.Now()), s.Now())
    decreases f, 2
  {
    ghost var s0 := s.Now();
    ghost var done: Option<seq<Byte>> := Some([]);
    BothNothing(EncodeItems(f, items));
    var i := 0;
    r := Fine;
    while i < |items|
      invariant 0 <= i <= |items| && s.Valid() && r == Fine
      invariant done.Some? && Wrote(s.Room(), done, Fine, s0, s.Now())
      invariant EncodeItems(f, items) == Both(done, EncodeItems(f, items[i..]))
    {
      ghost var one := Both(Some(TagOf(f)), EncodeValue(f, items[i]));
      ghost var rest := EncodeItems(f, items[i + 1..]);
      ItemsFrom(f, items, i);
      assert SizedValue(f, items[i]);
      ghost var s1 := s.Now();
      r := PutTagged(s, f, items[i]);
      Advance(s.Room(), done, one, rest, r, s0, s1, s.Now());
      if r != Fine {
        return;
      }
      done := Both(done, one);
      i := i + 1;
    }
    assert items[|items|..] == [];
  }

  // --------------------------------------------------------------- arrays

  /** The size that `encode_array` assumes for fixed-width elements without encoding them. */
  lemma {:induction false} FixedWidth(f: Field, items: seq<Value>)
    requires f.ltype.LFixed32? || f.ltype.LFixed64?
    requires forall k :: 0 <= k < |items| ==> items[k].IntV? && items[k].i >= 0
    ensures EncodePacked(f, items).Some?
    ensures |EncodePacked(f, items).value| == (if f.ltype.LFixed32? then 4 else 8) * |items|
  {
    if items != [] {
      FixedWidth(f, items[1..]);
      assert items[0].IntV?;
    }
  }

  lemma PackedFrom(f: Field, items: seq<Value>, i: nat)
    requires i < |items|
    ensures EncodePacked(f, items[i..]) == Both(EncodeScalar(f, items[i]), EncodePacked(f, items[i + 1..]))
  {
    assert items[i..][1..] == items[i + 1..] && items[i..][0] == items[i];
  }

  /** The element loops of `encode_array` for packed arrays. */
  method PutElements(s: OStream, f: Field, items: seq<Value>) returns (r: Status)
    requires s.Valid() && AllSmall(items)
    modifies s, s.buf
    ensures s.Valid() && Wrote(s.Room(), EncodePacked(f, items), r, old(s.Now()), s.Now())
  {
    ghost var s0 := s.Now();
    ghost var done: Option<seq<Byte>> := Some([]);
    BothNothing(EncodePacked(f, items));
    var i := 0;
    r := Fine;
    while i < |items|
      invariant 0 <= i <= |items| && s.Valid() && r == Fine
      invariant done.Some? && Wrote(s.Room(), done, Fine, s0, s.Now())
      invariant EncodePacked(f, items) == Both(done, EncodePacked(f, items[i..]))
    {
      ghost var one := EncodeScalar(f, items[i]);
      ghost var rest := EncodePacked(f, items[i + 1..]);
      PackedFrom(f, items, i);
      assert Small(items[i]);
      ghost var s1 := s.Now();
      r := PutScalar(s, f, items[i]);
      Advance(s.Room(), done, one, rest, r, s0, s1, s.Now());
      if r != Fine {
        return;
      }
      done := Both(done, one);
      i := i + 1;
    }
    assert items[|items|..] == [];
  }

  /** The bytes of a packed array behind its tag. */
  function PackedBody(f: Field, items: seq<Value>): Option<seq<Byte>> {
    match EncodePacked(f, items)
    case None => None
    case Some(body) => Some(Prefixed(body))
  }

  /** The size of a packed array: known for fixed-width elements, else found by a pass that
      only counts. */
  method PackedSize(f: Field, items: seq<Value>) returns (r: Status, size: nat)
    requires WfField(f) && SizedItems(f, items) && WholeItems(f, items)
    ensures r == Fine || r == Invalid
    ensures r == Fine <==> EncodePacked(f, items).Some?
    ensures r == Fine ==> size == |EncodePacked(f, items).value|
  {
    r, size := Fine, 0;
    SizedElements(f, items);
    if f.ltype.LFixed32? {
      size := 4 * |items|;
      FixedWidth(f, items);
    } else if f.ltype.LFixed64? {
      size := 8 * |items|;
      FixedWidth(f, items);
    } else {
      var sizing := new OStream.Sizing();
      r := PutElements(sizing, f, items);
      size := sizing.written;
      if r != Fine {
        r := Invalid;
      }
    }
  }

  /** The part of `encode_array` for packed arrays. */
  method PutPacked(s: OStream, f: Field, items: seq<Value>) returns (r: Status)
    requires s.Valid() && WfField(f) && SizedItems(f, items) && WholeItems(f, items)
    requires EncodePacked(f, items).Some? ==> |EncodePacked(f, items).value| < TWO64
    modifies s, s.buf
    ensures s.Valid() && Wrote(s.Room(), PackedBody(f, items), r, old(s.Now()), s.Now())
  {
    SizedElements(f, items);
    var size;
    r, size := PackedSize(f, items);
    if r != Fine {
      return;
    }
    ghost var body := EncodePacked(f, items);
    ghost var length: Option<seq<Byte>> := Some(EncodeVarint(size));
    assert Both(length, body) == PackedBody(f, items);
    ghost var s0 := s.Now();
    r := PutVarint(s, size);
    if r != Fine {
      Fails(s.Room(), length, body, r, s0, s.Now());
      return;
    }
    ghost var s1 := s.Now();
    if s.buf == null {
      r := s.Count(size);
    } else {
      r := PutElements(s, f, items);
    }
    Then(s.Room(), length, body, r, s0, s1, s.Now());
  }

  /** `encode_array` */
  method PutArray(s: OStream, f: Field, items: seq<Value>) returns (r: Status)
    requires s.Valid() && WfField(f) && SizedItems(f, items) && WholeItems(f, items)
    requires Packable(f.ltype) && EncodePacked(f, items).Some? ==> |EncodePacked(f, items).value| < TWO64
    modifies s, s.buf
    ensures s.Valid() && Wrote(s.Room(), EncodeArray(f, items), r, old(s.Now()), s.Now())
    decreases f, 3
  {
    if |items| == 0 {
      return Fine;
    }
    if |items| > f.arraySize {
      return Invalid;
    }
    if !Packable(f.ltype) {
      r := PutItems(s, f, items);
      return;
    }
    ghost var tag: Option<seq<Byte>> := Some(EncodeTag(f.tag, WT_STRING));
    ghost var body := PackedBody(f, items);
    assert Both(tag, body) == EncodeArray(f, items);
    ghost var s0 := s.Now();
    r := PutTag(s, WT_STRING, f.tag);
    if r != Fine {
      Fails(s.Room(), tag, body, r, s0, s.Now());
      return;
    }
    ghost var s1 := s.Now();
    r := PutPacked(s, f, items);
    Then(s.Room(), tag, body, r, s0, s1, s.Now());
  }

  // ------------------------------------------------------------- messages

  /** The test of `encode_basic_field`, for a field that is no array. */
  method IsPresent(f: Field, slot: Slot) returns (present: bool)
    requires !f.htype.Repeated?
    ensures present == Present(f, slot)
  {
    present := true;
    if f.htype.Oneof? {
      present := Which(slot) == f.tag;
    } else if f.htype.Optional? && f.sizeOffset != 0 {
      present := slot.Flagged? && slot.has;
    } else if f.htype.Optional? {
      var isDefault := CheckDefault(f, slot);
      present := !isDefault;
    }
  }

  /** `encode_basic_field` */
  method PutField(s: OStream, f: Field, slot: Slot) returns (r: Status)
    requires s.Valid() && WfField(f) && SizedSlot(f, slot)
    modifies s, s.buf
    ensures s.Valid() && Wrote(s.Room(), EncodeField(f, slot), r, old(s.Now()), s.Now())
    decreases f, 4
  {
    if f.htype.Repeated? {
      r := PutArray(s, f, Items(slot));
      return;
    }
    var present := IsPresent(f, slot);
    if !present {
      return Fine;
    }
    r := PutTagged(s, f, Current(slot));
  }

  /** The first n fields. */
  function EncodeFirst(fields: seq<Field>, m: Msg, n: nat): Option<seq<Byte>>
    requires n <= |fields|
  {
    if n == 0 then Some([])
    else Both(EncodeFirst(fields, m, n - 1), EncodeField(fields[n - 1], SlotAt(m, Offset(fields, n - 1))))
  }

  lemma {:induction false} FirstAndRest(fields: seq<Field>, m: Msg, n: nat)
    requires n <= |fields|
    ensures Both(EncodeFirst(fields, m, n), EncodeFields(fields, m, n)) == EncodeMessage(fields, m)
  {
    if n == 0 {
      BothNothing(EncodeMessage(fields, m));
    } else {
      FirstAndRest(fields, m, n - 1);
      BothAssoc(EncodeFirst(fields, m, n - 1), EncodeField(fields[n - 1], SlotAt(m, Offset(fields, n - 1))),
                EncodeFields(fields, m, n));
    }
  }

  lemma FirstIsAll(fields: seq<Field>, m: Msg)
    ensures EncodeFirst(fields, m, |fields|) == EncodeMessage(fields, m)
  {
    FirstAndRest(fields, m, |fields|);
    var all := EncodeFirst(fields, m, |fields|);
    if all.Some? {
      assert all.value + [] == all.value;
    }
  }

  /** One round of the loop of `pb_encode`. */
  method PutNext(s: OStream, fields: seq<Field>, m: Msg, i: nat, pData: int, ghost s0: Snap) returns (r: Status)
    requires s.Valid() && WfSchema(fields) && SizedMsg(fields, m) && i < |fields| && pData == Offset(fields, i)
    requires Wrote(s.Room(), EncodeFirst(fields, m, i), Fine, s0, s.Now())
    modifies s, s.buf
    ensures s.Valid()
    ensures r == Fine ==> Wrote(s.Room(), EncodeFirst(fields, m, i + 1), Fine, s0, s.Now())
    ensures r != Fine ==> Wrote(s.Room(), EncodeMessage(fields, m), r, s0, s.Now())
    decreases fields, 0
  {
    ghost var s1 := s.Now();
    var slot := SlotAt(m, pData);
    assert SizedSlot(fields[i], slot);
    r := PutField(s, fields[i], slot);
    FirstAndRest(fields, m, i);
    Advance(s.Room(), EncodeFirst(fields, m, i), EncodeField(fields[i], slot), EncodeFields(fields, m, i + 1),
            r, s0, s1, s.Now());
  }

  /** One round of the loop of `pb_encode`, with the step of the iterator. */
  method PutAndStep(s: OStream, fields: seq<Field>, m: Msg, iter: FieldIter, ghost s0: Snap)
    returns (r: Status, more: bool)
    requires s.Valid() && WfSchema(fields) && SizedMsg(fields, m) && fields != []
    requires iter.Valid() && iter.fields == fields && iter.base == 0
    requires Wrote(s.Room(), EncodeFirst(fields, m, iter.pos), Fine, s0, s.Now())
    modifies s, s.buf, iter
    ensures s.Valid() && iter.Valid()
    ensures r == Fine ==> more == (old(iter.pos) + 1 < |fields|) && iter.pos == if more then old(iter.pos) + 1 else 0
    ensures r == Fine ==> Wrote(s.Room(), EncodeFirst(fields, m, old(iter.pos) + 1), Fine, s0, s.Now())
    ensures r != Fine ==> Wrote(s.Room(), EncodeMessage(fields, m), r, s0, s.Now())
    decreases fields, 1
  {
    r := PutNext(s, fields, m, iter.pos, iter.pData, s0);
    more := false;
    if r == Fine {
      more := iter.Next();
    }
  }

  /** `pb_encode`: into a buffer it succeeds exactly when the encoding exists and fits; the
      bytes are then the ones of `EncodeMessage` and nothing else in the buffer changes. */
  method PutMessage(s: OStream, fields: seq<Field>, m: Msg) returns (r: Status)
    requires s.Valid() && WfSchema(fields) && SizedMsg(fields, m)
    modifies s, s.buf
    ensures s.Valid() && Wrote(s.Room(), EncodeMessage(fields, m), r, old(s.Now()), s.Now())
    decreases fields, 2
  {
    var iter := new FieldIter(fields, 0);
    if fields == [] {
      return Fine;
    }
    FirstIsAll(fields, m);
    ghost var s0, n := s.Now(), 0;
    var more := true;
    while more
      invariant s.Valid() && iter.Valid() && fresh(iter) && iter.fields == fields && iter.base == 0
      invariant n == if more then iter.pos else |fields|
      invariant Wrote(s.Room(), EncodeFirst(fields, m, n), Fine, s0, s.Now())
      decreases if more then |fields| - iter.pos else 0
    {
      r, more := PutAndStep(s, fields, m, iter, s0);
      if r != Fine {
        return;
      }
      n := n + 1;
    }
    r := Fine;
  }

  /** `pb_get_encoded_size` */
  method GetEncodedSize(fields: seq<Field>, m: Msg) returns (ok: bool, size: nat)
    requires WfSchema(fields) && SizedMsg(fields, m)
    ensures ok <==> EncodeMessage(fields, m).Some?
    ensures ok ==> size == |EncodeMessage(fields, m).value|
  {
    var sizing := new OStream.Sizing();
    var r := PutMessage(sizing, fields, m);
    ok, size := r == Fine, sizing.written;
  }

  /** `pb_encode_delimited` */
  method PutDelimited(s: OStream, fields: seq<Field>, m: Msg) returns (r: Status)
    requires s.Valid() && WfSchema(fields) && SizedMsg(fields, m)
    requires var body := EncodeMessage(fields, m); body.Some? ==> |body.value| < TWO64
    modifies s, s.buf
    ensures s.Valid() && Wrote(s.Room(), Submessage(fields, m), r, old(s.Now()), s.Now())
  {
    r := PutSubmessage(s, fields, m);
  }

  /** `pb_encode_nullterminated` */
  method PutNullTerminated(s: OStream, fields: seq<Field>, m: Msg) returns (r: Status)
    requires s.Valid() && WfSchema(fields) && SizedMsg(fields, m)
    modifies s, s.buf
    ensures s.Valid() && Wrote(s.Room(), Both(EncodeMessage(fields, m), Some([0])), r, old(s.Now()), s.Now())
  {
    ghost var s0 := s.Now();
    r := PutMessage(s, fields, m);
    if r != Fine {
      Fails(s.Room(), EncodeMessage(fields, m), Some([0]), r, s0, s.Now());
      return;
    }
    ghost var s1 := s.Now();
    r := s.Write([0]);
    Then(s.Room(), EncodeMessage(fields, m), Some([0]), r, s0, s1, s.Now());
  }
}
