/**
 What pb_encode.c writes, as functions from a struct to bytes. None stands for
 the errors that do not depend on the room in the stream: a member that is not
 of its type, a count above the array size, a byte array longer than its buffer.
 */
module Encode {
  import opened Wire
  import opened Varint
  import opened Schema
  import opened Decode

  function Prefixed(data: seq<Byte>): seq<Byte> {
    EncodeVarint(|data|) + data
  }

  /** `pb_enc_string` stops at the first NUL, or at the end of the buffer. */
  function StringPart(f: Field, data: seq<Byte>): seq<Byte> {
    var d := CString(data);
    if |d| > f.dataSize then d[..f.dataSize] else d
  }

  /** The encoders of PB_ENCODERS other than the one for submessages. */
  function EncodeScalar(f: Field, v: Value): Option<seq<Byte>> {
    match f.ltype
    case LBool => if v.BoolV? then Some(EncodeVarint(if v.b then 1 else 0)) else None
    case LVarint => if v.IntV? && HalfRange(f.dataSize) != 0 then Some(EncodeVarint(Word64(v.i))) else None
    case LUVarint => if v.IntV? && HalfRange(f.dataSize) != 0 then Some(EncodeVarint(Word64(v.i))) else None
    case LSVarint => if v.IntV? && HalfRange(f.dataSize) != 0 then Some(EncodeVarint(ZigZag(v.i))) else None
    case LFixed32 => if v.IntV? && v.i >= 0 then Some(LittleEndian(v.i, 4)) else None
    case LFixed64 => if v.IntV? && v.i >= 0 then Some(LittleEndian(v.i, 8)) else None
    case LBytes => if v.BytesV? && |v.data| + SIZE_BYTES <= f.dataSize then Some(Prefixed(v.data)) else None
    case LString => if v.BytesV? then Some(Prefixed(StringPart(f, v.data))) else None
    case LFixedLengthBytes => if v.BytesV? && |v.data| == f.dataSize then Some(Prefixed(v.data)) else None
    case LSubmessage => None
    case LExtension => None
  }

  function Which(slot: Slot): nat {
    if slot.OneOf? then slot.which else 0
  }

  /** `pb_check_proto3_default_value` */
  predicate IsDefault(f: Field, slot: Slot)
    decreases f, 1
  {
    match f.htype
    case Required => false
    case Repeated => f.sizeOffset != 0 && Items(slot) == []
    case Oneof => Which(slot) == 0
    case Optional => if f.sizeOffset != 0 then !(slot.Flagged? && slot.has) else IsZero(f, Current(slot))
  }

  predicate IsZero(f: Field, v: Value)
    decreases f, 0
  {
    match f.ltype
    case LBytes => v.BytesV? && v.data == []
    case LString => v.BytesV? && CString(v.data) == []
    case LFixedLengthBytes => f.dataSize == 0
    case LSubmessage => AllDefault(f.sub, Struct(v), 0)
    case _ => v == IntV(0) || v == BoolV(false)
  }

  predicate AllDefault(fields: seq<Field>, m: Msg, i: nat)
    requires i <= |fields|
    decreases fields, |fields| - i
  {
    i == |fields| || (IsDefault(fields[i], SlotAt(m, Offset(fields, i))) && AllDefault(fields, m, i + 1))
  }

  /** Whether the encoder writes the field. */
  predicate Present(f: Field, slot: Slot) {
    match f.htype
    case Required => true
    case Optional => !IsDefault(f, slot)
    case Repeated => Items(slot) != []
    case Oneof => Which(slot) == f.tag
  }

  function Both(a: Option<seq<Byte>>, b: Option<seq<Byte>>): Option<seq<Byte>> {
    if a.Some? && b.Some? then Some(a.value + b.value) else None
  }

  function EncodeValue(f: Field, v: Value): Option<seq<Byte>>
    decreases f, 0
  {
    if f.ltype.LSubmessage? then
      match EncodeFields(f.sub, Struct(v), 0)
      case None => None
      case Some(body) => Some(Prefixed(body))
    else EncodeScalar(f, v)
  }

  function TagOf(f: Field): seq<Byte> {
    EncodeTag(f.tag, WireType(f.ltype))
  }

  /** The elements of a packed array. */
  function EncodePacked(f: Field, items: seq<Value>): Option<seq<Byte>>
    decreases |items|
  {
    if items == [] then Some([]) else Both(EncodeScalar(f, items[0]), EncodePacked(f, items[1..]))
  }

  /** The elements of any other array, each with its own tag. */
  function EncodeItems(f: Field, items: seq<Value>): Option<seq<Byte>>
    decreases f, 1, |items|
  {
    if items == [] then Some([])
    else Both(Both(Some(TagOf(f)), EncodeValue(f, items[0])), EncodeItems(f, items[1..]))
  }

  /** `encode_array` */
  function EncodeArray(f: Field, items: seq<Value>): Option<seq<Byte>>
    decreases f, 2
  {
    if items == [] then Some([])
    else if |items| > f.arraySize then None
    else if Packable(f.ltype) then
      match EncodePacked(f, items)
      case None => None
      case Some(body) => Some(EncodeTag(f.tag, WT_STRING) + Prefixed(body))
    else EncodeItems(f, items)
  }

  /** `encode_basic_field` */
  function EncodeField(f: Field, slot: Slot): Option<seq<Byte>>
    decreases f, 3
  {
    if f.htype.Repeated? then EncodeArray(f, Items(slot))
    else if !Present(f, slot) then Some([])
    else Both(Some(TagOf(f)), EncodeValue(f, Current(slot)))
  }

  /** `pb_encode` from field i on. */
  function EncodeFields(fields: seq<Field>, m: Msg, i: nat): Option<seq<Byte>>
    requires i <= |fields|
    decreases fields, |fields| - i
  {
    if i == |fields| then Some([])
    else Both(EncodeField(fields[i], SlotAt(m, Offset(fields, i))), EncodeFields(fields, m, i + 1))
  }

  /** `pb_encode` */
  function EncodeMessage(fields: seq<Field>, m: Msg): Option<seq<Byte>> {
    EncodeFields(fields, m, 0)
  }
}
