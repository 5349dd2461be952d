/**
 Field descriptors (`pb_field_t`), the storage of a message struct, and the
 simple prefix sums and counts that the field iterator of pb_common.c computes
 step by step.
 */
module Schema {
  import opened Wire

  type SizeWidth = w: nat | w == 1 || w == 2 || w == 4 witness 1
  type PointerWidth = w: nat | w == 4 || w == 8 witness 8

  /** `sizeof(pb_size_t)`: 1, 2 or 4, chosen when the library is built. */
  const SIZE_BYTES: SizeWidth
  /** `PB_SIZE_MAX` */
  const SIZE_MAX: nat := if SIZE_BYTES == 1 then 0xFF else if SIZE_BYTES == 2 then 0xFFFF else 0xFFFF_FFFF
  const POINTER_BYTES: PointerWidth
  /** `PB_MAX_REQUIRED_FIELDS` */
  const MAX_REQUIRED: nat := 64

  datatype LType =
    | LBool | LVarint | LUVarint | LSVarint | LFixed32 | LFixed64
    | LBytes | LString | LSubmessage | LExtension | LFixedLengthBytes

  datatype HType = Required | Optional | Repeated | Oneof

  datatype AType = Static | Pointer | Callback

  /** One entry of a descriptor table, without the terminator that ends the table. `sub` and
      `init` stand for `ptr`: the fields of a submessage, or the default of another field. */
  datatype Field = Field(
    tag: nat, ltype: LType, htype: HType, atype: AType,
    dataOffset: nat, sizeOffset: int, dataSize: nat, arraySize: nat,
    sub: seq<Field>, init: Option<Value>)

  /** What a struct member holds. Integers are the signed or unsigned number in the member;
      a string is its bytes before the first NUL. Storage that nothing has initialised is
      Indeterminate. */
  datatype Value =
    | BoolV(b: bool)
    | IntV(i: int)
    | BytesV(data: seq<Byte>)
    | MsgV(slots: Msg)
    | Indeterminate

  /** The storage behind one data pointer together with its size member: a plain value, a
      value with its `has_` flag, an array cut at its count (or whole, for a fixed count),
      or a union with its `which_` member. */
  datatype Slot =
    | Plain(v: Value)
    | Flagged(has: bool, v: Value)
    | Many(items: seq<Value>)
    | NoneOf
    | OneOf(which: nat, v: Value)

  /** A struct: its storage by data offset. */
  type Msg = map<nat, Slot>

  predicate Packable(t: LType) {
    t.LBool? || t.LVarint? || t.LUVarint? || t.LSVarint? || t.LFixed32? || t.LFixed64?
  }

  /** The wire type that `pb_encode_tag_for_field` writes. */
  function WireType(t: LType): (w: nat)
    ensures w < 8
  {
    match t
    case LBool => 0
    case LVarint => 0
    case LUVarint => 0
    case LSVarint => 0
    case LFixed32 => 5
    case LFixed64 => 1
    case _ => 2
  }

  /** Optional without a `has_` member: a proto3 field. */
  predicate Singular(f: Field) {
    f.htype.Optional? && f.sizeOffset == 0
  }

  /** Repeated without a `_count` member. */
  predicate FixedCount(f: Field) {
    f.htype.Repeated? && f.sizeOffset == 0
  }

  // -------------------------------------------------- offsets and counts

  /** Entry i shares the storage of entry i - 1: both are in the same union. */
  predicate Continues(fields: seq<Field>, i: nat)
    requires i < |fields|
  {
    i > 0 && fields[i - 1].htype.Oneof? && fields[i].htype.Oneof? && fields[i].dataOffset == SIZE_MAX
  }

  /** Bytes that a field takes in the struct. */
  function Extent(f: Field): nat {
    if f.atype.Static? && f.htype.Repeated? then f.dataSize * f.arraySize
    else if f.atype.Pointer? then POINTER_BYTES
    else f.dataSize
  }

  function Offset(fields: seq<Field>, i: nat): nat
    requires i < |fields|
  {
    if i == 0 then fields[0].dataOffset
    else if Continues(fields, i) then Offset(fields, i - 1)
    else Offset(fields, i - 1) + Extent(fields[i - 1]) + fields[i].dataOffset
  }

  /** Required fields among the first n. */
  function RequiredBefore(fields: seq<Field>, n: nat): (c: nat)
    requires n <= |fields|
    ensures c <= n
  {
    if n == 0 then 0 else RequiredBefore(fields, n - 1) + if fields[n - 1].htype.Required? then 1 else 0
  }

  predicate Matches(f: Field, tag: nat) {
    f.tag == tag && !f.ltype.LExtension?
  }

  function FindTag(fields: seq<Field>, tag: nat): (r: Option<nat>)
    ensures r.Some? ==> r.value < |fields| && Matches(fields[r.value], tag)
    ensures r.None? ==> forall i :: 0 <= i < |fields| ==> !Matches(fields[i], tag)
  {
    if fields == [] then None
    else
      var n := |fields| - 1;
      match FindTag(fields[..n], tag)
      case Some(i) => Some(i)
      case None => if Matches(fields[n], tag) then Some(n) else None
  }

  ghost predicate DistinctTags(fields: seq<Field>) {
    forall i, j :: 0 <= i < j < |fields| && !fields[i].ltype.LExtension? && !fields[j].ltype.LExtension?
                   ==> fields[i].tag != fields[j].tag
  }

  lemma FindTagUnique(fields: seq<Field>, i: nat)
    requires DistinctTags(fields) && i < |fields| && !fields[i].ltype.LExtension?
    ensures FindTag(fields, fields[i].tag) == Some(i)
  {
    assert Matches(fields[i], fields[i].tag);
  }

  // ------------------------------------------------- well-formed schemas

  /** Half the range of the integer member of `dataSize` bytes; 0 for an invalid size. */
  function HalfRange(dataSize: nat): nat {
    if dataSize == 8 then TWO63
    else if dataSize == 4 then TWO31
    else if dataSize == 2 then 0x8000
    else if dataSize == 1 then 0x80
    else 0
  }

  /** The value is one that the member of a field other than a submessage can hold: in the
      range of its integer type, within its buffer, its string terminated by a NUL. */
  predicate TypedScalar(f: Field, v: Value) {
    var half := HalfRange(f.dataSize);
    match f.ltype
    case LBool => v.BoolV?
    case LVarint => v.IntV? && -(half as int) <= v.i < half
    case LSVarint => v.IntV? && -(half as int) <= v.i < half
    case LUVarint => v.IntV? && 0 <= v.i < 2 * half
    case LFixed32 => v.IntV? && 0 <= v.i < TWO32
    case LFixed64 => v.IntV? && 0 <= v.i < TWO64
    case LBytes => v.BytesV? && |v.data| + SIZE_BYTES <= f.dataSize
    case LString => v.BytesV? && |v.data| < f.dataSize && 0 !in v.data
    case LFixedLengthBytes => v.BytesV? && |v.data| == f.dataSize
    case LSubmessage => false
    case LExtension => false
  }

  /** What the generator guarantees about one entry of a static schema. */
  ghost predicate WfField(f: Field)
    decreases f, 0
  {
    && 0 < f.tag < 0x2000_0000 && f.tag <= SIZE_MAX
    && f.atype.Static? && !f.ltype.LExtension?
    && 0 < f.dataSize <= SIZE_MAX && f.arraySize <= SIZE_MAX
    && (f.htype.Required? ==> f.sizeOffset == 0)
    && (f.htype.Oneof? ==> f.sizeOffset != 0)
    && (f.htype.Repeated? ==> f.arraySize > 0)
    && (f.ltype.LBool? ==> f.dataSize == 1)
    && (f.ltype.LFixed32? ==> f.dataSize == 4)
    && (f.ltype.LFixed64? ==> f.dataSize == 8)
    && (f.ltype.LVarint? || f.ltype.LUVarint? || f.ltype.LSVarint? ==> f.dataSize in {1, 2, 4, 8})
    && (f.ltype.LBytes? ==> f.dataSize >= SIZE_BYTES)
    && (Singular(f) ==> f.init.None?)
    && (f.init.Some? && !f.ltype.LSubmessage? ==> TypedScalar(f, f.init.value))
    && (f.ltype.LSubmessage? ==> WfSchema(f.sub))
  }

  /** A static schema without extensions; an empty one is allowed. */
  ghost predicate WfSchema(fields: seq<Field>)
    decreases fields, 1
  {
    DistinctTags(fields) && forall i {:trigger WfField(fields[i])} :: 0 <= i < |fields| ==> WfField(fields[i])
  }

  lemma {:induction false} OffsetMonotone(fields: seq<Field>, i: nat, j: nat)
    requires WfSchema(fields) && i <= j < |fields|
    ensures Offset(fields, i) <= Offset(fields, j)
    ensures i < j && Offset(fields, i) == Offset(fields, j) ==>
              fields[i].htype.Oneof? && fields[j].htype.Oneof?
  {
    if i < j {
      OffsetMonotone(fields, i, j - 1);
      var f := fields[j - 1];
      assert WfField(f);
      if f.htype.Repeated? {
        ProductPositive(f.dataSize, f.arraySize);
      }
    }
  }

  lemma ProductPositive(a: nat, b: nat)
    requires a > 0 && b > 0
    ensures a * b > 0
  {
  }

  predicate Shares(fields: seq<Field>, i: nat, j: nat)
    requires i < |fields| && j < |fields|
  {
    Offset(fields, i) == Offset(fields, j)
  }

  /** Two entries have the same data pointer only when they are in one union. */
  ghost predicate Apart(fields: seq<Field>) {
    forall i, j :: 0 <= i < |fields| && 0 <= j < |fields| && i != j && Shares(fields, i, j) ==>
                     fields[i].htype.Oneof? && fields[j].htype.Oneof?
  }

  lemma OffsetsApart(fields: seq<Field>)
    requires WfSchema(fields)
    ensures Apart(fields)
  {
    forall i, j | 0 <= i < |fields| && 0 <= j < |fields| && i != j && Shares(fields, i, j)
      ensures fields[i].htype.Oneof? && fields[j].htype.Oneof?
    {
      if i < j {
        OffsetMonotone(fields, i, j);
      } else {
        OffsetMonotone(fields, j, i);
      }
    }
  }

  /** A field is behind the one before it, with its own gap; only inside one union, which the greatest offset
      marks, both are at the same place. */
  lemma NextOffset(fields: seq<Field>, i: nat)
    requires 0 < i < |fields|
    ensures var f, g := fields[i - 1], fields[i];
            var size := if f.atype.Pointer? then POINTER_BYTES
                        else if f.atype.Static? && f.htype.Repeated? then f.dataSize * f.arraySize else f.dataSize;
            if f.htype.Oneof? && g.htype.Oneof? && g.dataOffset == SIZE_MAX then Shares(fields, i, i - 1)
            else Offset(fields, i) == Offset(fields, i - 1) + size + g.dataOffset
  {
  }

  // ------------------------------------------------------------ defaults

  function Zeros(n: nat): (s: seq<Byte>)
    ensures |s| == n
  {
    if n == 0 then [] else [0] + Zeros(n - 1)
  }

  lemma {:induction false} ZerosAre(n: nat)
    ensures forall k :: 0 <= k < n ==> Zeros(n)[k] == 0
  {
    if n > 0 {
      ZerosAre(n - 1);
    }
  }

  function DefaultValue(f: Field): Value
    decreases f, 0
  {
    if f.ltype.LSubmessage? then MsgV(Defaults(f.sub, |f.sub|))
    else if f.init.Some? then f.init.value
    else
      match f.ltype
      case LBool => BoolV(false)
      case LBytes => BytesV([])
      case LString => BytesV([])
      case LFixedLengthBytes => BytesV(Zeros(f.dataSize))
      case _ => IntV(0)
  }

  function Undefined(n: nat): (s: seq<Value>)
    ensures |s| == n
  {
    if n == 0 then [] else [Indeterminate] + Undefined(n - 1)
  }

  function DefaultSlot(f: Field): Slot
    decreases f, 1
  {
    match f.htype
    case Required => Plain(DefaultValue(f))
    case Optional => if f.sizeOffset != 0 then Flagged(false, DefaultValue(f)) else Plain(DefaultValue(f))
    case Repeated => if f.sizeOffset != 0 then Many([]) else Many(Undefined(f.arraySize))
    case Oneof => NoneOf
  }

  /** The data pointers of the first n fields. */
  function Keys(fields: seq<Field>, n: nat): (s: set<nat>)
    requires n <= |fields|
    ensures forall i :: 0 <= i < n ==> Offset(fields, i) in s
  {
    if n == 0 then {} else Keys(fields, n - 1) + {Offset(fields, n - 1)}
  }

  /** The storage of the first n fields after `pb_message_set_to_defaults`. */
  function Defaults(fields: seq<Field>, n: nat): (m: Msg)
    requires n <= |fields|
    ensures m.Keys == Keys(fields, n)
    decreases fields, n
  {
    if n == 0 then map[] else Defaults(fields, n - 1)[Offset(fields, n - 1) := DefaultSlot(fields[n - 1])]
  }

  function DefaultMsg(fields: seq<Field>): (m: Msg)
    ensures m.Keys == Keys(fields, |fields|)
  {
    Defaults(fields, |fields|)
  }

  lemma {:induction false} DefaultsAt(fields: seq<Field>, n: nat, i: nat)
    requires Apart(fields) && i < n <= |fields|
    ensures Offset(fields, i) in Defaults(fields, n) && Defaults(fields, n)[Offset(fields, i)] == DefaultSlot(fields[i])
  {
    if i < n - 1 {
      DefaultsAt(fields, n - 1, i);
      if Shares(fields, i, n - 1) {
        assert DefaultSlot(fields[i]) == NoneOf == DefaultSlot(fields[n - 1]);
      }
    }
  }
}
