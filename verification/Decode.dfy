/**
 What pb_decode.c computes, as functions from the bytes of a stream to a struct
 and the bytes left. The stream methods in `Decoder` are proved against them.
 */
module Decode {
  import opened Wire
  import opened Varint
  import opened Schema

  const WT_VARINT: nat := 0
  const WT_64BIT: nat := 1
  const WT_STRING: nat := 2
  const WT_32BIT: nat := 5

  /** A length and that many bytes; both the substreams of the decoder and its strings. */
  function Delimited(s: seq<Byte>): (p: Parse<seq<Byte>>)
    ensures p.Ok? ==> |p.value| + |p.rest| < |s|
  {
    match DecodeVarint32(s)
    case Fail => Fail
    case Ok(size, rest) => if |rest| < size then Fail else Ok(rest[..size], rest[size..])
  }

  function Take(n: nat, s: seq<Byte>): (p: Parse<seq<Byte>>) {
    if |s| < n then Fail else Ok(s[..n], s[n..])
  }

  /** `pb_skip_field`: the extent of a value is decided by its wire type alone. */
  function SkipField(wireType: nat, s: seq<Byte>): (p: Parse<()>)
    ensures p.Ok? ==> |p.rest| < |s|
  {
    if wireType == WT_VARINT then SkipVarint(s)
    else if wireType == WT_64BIT then (if |s| < 8 then Fail else Ok((), s[8..]))
    else if wireType == WT_STRING then
      match Delimited(s)
      case Fail => Fail
      case Ok(_, rest) => Ok((), rest)
    else if wireType == WT_32BIT then (if |s| < 4 then Fail else Ok((), s[4..]))
    else Fail
  }

  // -------------------------------------------------------------- scalars

  /** `pb_dec_varint`: members of 32 bits and less see only the low 32 bits, sign first. */
  function NarrowVarint(v: nat, dataSize: nat): Option<int> {
    var half := HalfRange(dataSize);
    var wide := if dataSize == 8 then Signed(v, TWO63) else Signed(v, TWO31);
    if half == 0 || Signed(wide, half) != wide then None else Some(wide)
  }

  function NarrowUnsigned(v: nat, dataSize: nat): Option<int> {
    var half := HalfRange(dataSize);
    if half == 0 || v % (2 * half) != v then None else Some(v)
  }

  function NarrowSvarint(v: nat, dataSize: nat): Option<int>
    requires v < TWO64
  {
    var half := HalfRange(dataSize);
    var wide := UnZigZag(v);
    if half == 0 || Signed(wide, half) != wide then None else Some(wide)
  }

  function Narrow(f: Field, v: nat): Option<int>
    requires v < TWO64
  {
    if f.ltype.LVarint? then NarrowVarint(v, f.dataSize)
    else if f.ltype.LUVarint? then NarrowUnsigned(v, f.dataSize)
    else NarrowSvarint(v, f.dataSize)
  }

  /** The bytes before the first NUL. */
  function CString(s: seq<Byte>): (r: seq<Byte>)
    ensures r <= s && 0 !in r
    ensures 0 !in s ==> r == s
  {
    if s == [] || s[0] == 0 then [] else [s[0]] + CString(s[1..])
  }

  predicate FitsMember(f: Field, size: nat) {
    if f.ltype.LBytes? then size + SIZE_BYTES <= f.dataSize
    else if f.ltype.LString? then size + 1 <= f.dataSize
    else size == 0 || size == f.dataSize
  }

  function BlobValue(f: Field, data: seq<Byte>): Value {
    if f.ltype.LString? then BytesV(CString(data))
    else if f.ltype.LFixedLengthBytes? && data == [] then BytesV(Zeros(f.dataSize))
    else BytesV(data)
  }

  /** The decoders of PB_DECODERS other than the one for submessages. */
  function DecodeScalar(f: Field, s: seq<Byte>): (p: Parse<Value>)
    ensures p.Ok? ==> |p.rest| < |s|
  {
    match f.ltype
    case LBool =>
      (match DecodeVarint32(s) case Fail => Fail case Ok(v, rest) => Ok(BoolV(v != 0), rest))
    case LVarint => DecodeInt(f, s)
    case LUVarint => DecodeInt(f, s)
    case LSVarint => DecodeInt(f, s)
    case LFixed32 =>
      (match Take(4, s) case Fail => Fail case Ok(b, rest) => Ok(IntV(FromLittleEndian(b)), rest))
    case LFixed64 =>
      (match Take(8, s) case Fail => Fail case Ok(b, rest) => Ok(IntV(FromLittleEndian(b)), rest))
    case LBytes => DecodeBlob(f, s)
    case LString => DecodeBlob(f, s)
    case LFixedLengthBytes => DecodeBlob(f, s)
    case LSubmessage => Fail
    case LExtension => Fail
  }

  function DecodeInt(f: Field, s: seq<Byte>): (p: Parse<Value>)
    ensures p.Ok? ==> |p.rest| < |s|
  {
    match DecodeVarint(s)
    case Fail => Fail
    case Ok(v, rest) =>
      match Narrow(f, v)
      case None => Fail
      case Some(i) => Ok(IntV(i), rest)
  }

  function DecodeBlob(f: Field, s: seq<Byte>): (p: Parse<Value>)
    ensures p.Ok? ==> |p.rest| < |s|
  {
    match Delimited(s)
    case Fail => Fail
    case Ok(data, rest) => if FitsMember(f, |data|) then Ok(BlobValue(f, data), rest) else Fail
  }

  // ------------------------------------------------------- slots and runs

  /** Array item `size`: the next one of a counted array, or a place in a fixed one. */
  function Store(items: seq<Value>, size: nat, v: Value): seq<Value> {
    if size < |items| then items[size := v] else items + [v]
  }

  /** The value at the data pointer of a slot. */
  function Current(slot: Slot): Value {
    match slot
    case Plain(v) => v
    case Flagged(_, v) => v
    case OneOf(_, v) => v
    case _ => Indeterminate
  }

  function Struct(v: Value): Msg {
    if v.MsgV? then v.slots else map[]
  }

  function Items(slot: Slot): seq<Value> {
    if slot.Many? then slot.items else []
  }

  function SlotAt(m: Msg, key: nat): Slot {
    if key in m then m[key] else NoneOf
  }

  /** The elements of a packed record: all its bytes must fit the array. */
  function DecodePacked(f: Field, items: seq<Value>, size: nat, body: seq<Byte>): (r: Option<(seq<Value>, nat)>)
    decreases |body|
  {
    if body == [] then Some((items, size))
    else if size >= f.arraySize then None
    else
      match DecodeScalar(f, body)
      case Fail => None
      case Ok(v, rest) => DecodePacked(f, Store(items, size, v), size + 1, rest)
  }

  /** The decoder state between two records: the struct, the required fields seen so far by
      index, and the fixed-count array being filled with its element count. */
  datatype State = State(msg: Msg, seen: set<nat>, fixedAt: Option<nat>, fixedCount: nat)

  function Start(m: Msg): State {
    State(m, {}, None, 0)
  }

  /** The value decoder of a field; `cur` is what is at the data pointer. A submessage in an
      array is set to its defaults first, any other one is merged into. */
  function DecodeValue(f: Field, cur: Value, s: seq<Byte>): (p: Parse<Value>)
    ensures p.Ok? ==> |p.rest| < |s|
    decreases |s|, 0
  {
    if f.ltype.LSubmessage? then
      match Delimited(s)
      case Fail => Fail
      case Ok(body, rest) =>
        var before := if f.htype.Repeated? then DefaultMsg(f.sub) else Struct(cur);
        match DecodeNoinit(f.sub, body, before)
        case Fail => Fail
        case Ok(m, _) => Ok(MsgV(m), rest)
    else DecodeScalar(f, s)
  }

  /** What a value decoder finds at the data pointer: the member as it is, a new array item,
      or a union member that has just been set to its defaults, as is a submessage behind a pointer. */
  function ValueBefore(f: Field, slot: Slot): Value {
    match f.htype
    case Required => if Renewed(f) then MsgV(DefaultMsg(f.sub)) else Current(slot)
    case Optional => if Renewed(f) then MsgV(DefaultMsg(f.sub)) else Current(slot)
    case Repeated => Indeterminate
    case Oneof => if f.ltype.LSubmessage? then MsgV(DefaultMsg(f.sub)) else Current(slot)
  }

  /** Every record of it gets a new block. */
  predicate Renewed(f: Field) {
    f.atype.Pointer? && f.ltype.LSubmessage?
  }

  function SlotAfter(f: Field, slot: Slot, size: nat, v: Value): Slot {
    match f.htype
    case Required => Plain(v)
    case Optional => if f.sizeOffset != 0 then Flagged(true, v) else Plain(v)
    case Repeated => Many(Store(Items(slot), size, v))
    case Oneof => OneOf(f.tag, v)
  }

  predicate ReadsPacked(f: Field, wireType: nat) {
    f.htype.Repeated? && wireType == WT_STRING && Packable(f.ltype)
  }

  /** `decode_static_field`; `size` is the array count, which a fixed-count field keeps
      outside the struct. */
  function DecodeStatic(f: Field, wireType: nat, slot: Slot, size: nat, s: seq<Byte>): (p: Parse<(Slot, nat)>)
    ensures p.Ok? ==> |p.rest| < |s|
    decreases |s|, 1
  {
    if ReadsPacked(f, wireType) then
      match Delimited(s)
      case Fail => Fail
      case Ok(body, rest) =>
        match DecodePacked(f, Items(slot), size, body)
        case None => Fail
        case Some((items, n)) => Ok((Many(items), n), rest)
    else if f.htype.Repeated? && size >= f.arraySize then Fail
    else
      match DecodeValue(f, ValueBefore(f, slot), s)
      case Fail => Fail
      case Ok(v, rest) => Ok((SlotAfter(f, slot, size, v), if f.htype.Repeated? then size + 1 else size), rest)
  }

  /** A fixed-count array may only be left once it is full. */
  predicate FixedDone(fields: seq<Field>, st: State) {
    st.fixedAt.Some? && st.fixedAt.value < |fields| ==> st.fixedCount == fields[st.fixedAt.value].arraySize
  }

  /** The element count with which a record of field i starts. */
  function CountBefore(fields: seq<Field>, i: nat, st: State): nat
    requires i < |fields|
  {
    if !FixedCount(fields[i]) then |Items(SlotAt(st.msg, Offset(fields, i)))|
    else if st.fixedAt == Some(i) then st.fixedCount
    else 0
  }

  function See(fields: seq<Field>, i: nat, seen: set<nat>): set<nat>
    requires i < |fields|
  {
    if fields[i].htype.Required? && RequiredBefore(fields, i) < MAX_REQUIRED then seen + {RequiredBefore(fields, i)}
    else seen
  }

  /** The state after a record of field i whose decoder returned the given slot and count. */
  function Update(fields: seq<Field>, i: nat, st: State, slot: Slot, count: nat): State
    requires i < |fields|
  {
    var fixed := FixedCount(fields[i]);
    State(st.msg[Offset(fields, i) := slot], See(fields, i, st.seen),
          if fixed then Some(i) else st.fixedAt, if fixed then count else st.fixedCount)
  }

  datatype Step = Stuck | Stop(rest: seq<Byte>) | Next(st: State, rest: seq<Byte>)

  /** The value of a record whose tag is in the schema. */
  function DecodeKnown(fields: seq<Field>, i: nat, wireType: nat, st: State, s: seq<Byte>): (r: Step)
    requires i < |fields|
    ensures !r.Stop? && (r.Next? ==> |r.rest| < |s|)
    decreases |s|, 2
  {
    if FixedCount(fields[i]) && st.fixedAt != Some(i) && !FixedDone(fields, st) then Stuck
    else
      match DecodeStatic(fields[i], wireType, SlotAt(st.msg, Offset(fields, i)), CountBefore(fields, i, st), s)
      case Fail => Stuck
      case Ok((slot, count), rest) => Next(Update(fields, i, st, slot, count), rest)
  }

  /** The value of a record whose tag is not in the schema. In an empty table the search for
      field number 0 stops at the terminator, which reads as a bool. */
  function DecodeUnknown(fields: seq<Field>, tag: nat, wireType: nat, st: State, s: seq<Byte>): (r: Step)
    ensures !r.Stop? && (r.Next? ==> |r.rest| < |s|)
  {
    if fields == [] && tag == 0 then
      match DecodeVarint32(s) case Fail => Stuck case Ok(_, rest) => Next(st, rest)
    else
      match SkipField(wireType, s) case Fail => Stuck case Ok(_, rest) => Next(st, rest)
  }

  /** One round of the loop of `pb_decode_noinit`. */
  function DecodeRecord(fields: seq<Field>, st: State, s: seq<Byte>): (r: Step)
    requires s != []
    ensures r.Next? ==> |r.rest| < |s|
    ensures r.Stop? ==> |r.rest| < |s|
    decreases |s|, 3
  {
    match DecodeTag(s)
    case BadTag => Stuck
    case EndOfData => Stuck
    case ZeroTag(rest) => Stop(rest)
    case Tag(tag, wireType, rest) =>
      match FindTag(fields, tag)
      case None => DecodeUnknown(fields, tag, wireType, st, rest)
      case Some(i) => DecodeKnown(fields, i, wireType, st, rest)
  }

  /** How a run over the records of a stream ends; `zero` when a zero tag ended it. */
  datatype Run = Failed | Done(st: State, rest: seq<Byte>, zero: bool)

  function DecodeRecords(fields: seq<Field>, st: State, s: seq<Byte>): (r: Run)
    ensures r.Done? ==> |r.rest| <= |s|
    decreases |s|, 4
  {
    if s == [] then Done(st, [], false)
    else
      match DecodeRecord(fields, st, s)
      case Stuck => Failed
      case Stop(rest) => Done(st, rest, true)
      case Next(st', rest) => DecodeRecords(fields, st', rest)
  }

  /** The required fields that are checked: the first 64. */
  function Checked(fields: seq<Field>): nat {
    var n := RequiredBefore(fields, |fields|);
    if n > MAX_REQUIRED then MAX_REQUIRED else n
  }

  /** The two checks after the last record. */
  predicate Complete(fields: seq<Field>, st: State) {
    FixedDone(fields, st) && forall k :: 0 <= k < Checked(fields) ==> k in st.seen
  }

  /** `pb_decode_noinit` on the struct m. */
  function DecodeNoinit(fields: seq<Field>, s: seq<Byte>, m: Msg): (p: Parse<Msg>)
    ensures p.Ok? ==> |p.rest| <= |s|
    decreases |s|, 5
  {
    match DecodeRecords(fields, Start(m), s)
    case Failed => Fail
    case Done(st, rest, _) => if Complete(fields, st) then Ok(st.msg, rest) else Fail
  }

  /** `pb_decode` */
  function DecodeMessage(fields: seq<Field>, s: seq<Byte>): Parse<Msg> {
    DecodeNoinit(fields, s, DefaultMsg(fields))
  }

  /** `pb_decode_delimited` */
  function DecodeDelimited(fields: seq<Field>, s: seq<Byte>): Parse<Msg> {
    match Delimited(s)
    case Fail => Fail
    case Ok(body, rest) =>
      match DecodeMessage(fields, body)
      case Fail => Fail
      case Ok(m, _) => Ok(m, rest)
  }
}
