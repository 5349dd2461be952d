/**
 Exactly which structs can be encoded, whether or not a decoder could have made
 them: the errors of pb_encode.c other than a full stream.
 */
module Encodable {
  import opened Wire
  import opened Varint
  import opened Schema
  import opened Decode
  import opened Encode

  /** The value can be written: it is one of its member, integers have a size that there is, a byte array fits its
      buffer, one of a fixed length has just this length; and so in a submessage. */
  ghost predicate ValueFits(f: Field, v: Value)
    decreases f, 0
  {
    match f.ltype
    case LBool => v.BoolV?
    case LVarint => v.IntV? && f.dataSize in {1, 2, 4, 8}
    case LUVarint => v.IntV? && f.dataSize in {1, 2, 4, 8}
    case LSVarint => v.IntV? && f.dataSize in {1, 2, 4, 8}
    case LFixed32 => v.IntV? && v.i >= 0
    case LFixed64 => v.IntV? && v.i >= 0
    case LBytes => v.BytesV? && |v.data| + SIZE_BYTES <= f.dataSize
    case LString => v.BytesV?
    case LFixedLengthBytes => v.BytesV? && |v.data| == f.dataSize
    case LSubmessage => AllFit(f.sub, Struct(v))
    case LExtension => false
  }

  /** A member can be written, or is not: an array has at most as many elements as its size. */
  ghost predicate SlotFits(f: Field, slot: Slot)
    decreases f, 1
  {
    if f.htype.Repeated? then
      Items(slot) == []
      || (|Items(slot)| <= f.arraySize && forall k {:trigger Items(slot)[k]} :: 0 <= k < |Items(slot)|
                                                                           ==> ValueFits(f, Items(slot)[k]))
    else Present(f, slot) ==> ValueFits(f, Current(slot))
  }

  ghost predicate AllFit(fields: seq<Field>, m: Msg)
    decreases fields, 2
  {
    forall i {:trigger fields[i]} :: 0 <= i < |fields| ==> SlotFits(fields[i], SlotAt(m, Offset(fields, i)))
  }

  lemma Sizes(n: nat)
    ensures HalfRange(n) != 0 <==> n in {1, 2, 4, 8}
  {
  }

  lemma {:induction false} ValueEncodes(f: Field, v: Value)
    ensures EncodeValue(f, v).Some? <==> ValueFits(f, v)
    decreases f, 0
  {
    Sizes(f.dataSize);
    if f.ltype.LSubmessage? {
      FieldsEncode(f.sub, Struct(v), 0);
    }
  }

  lemma {:induction false} PackedEncodes(f: Field, vs: seq<Value>)
    requires !f.ltype.LSubmessage?
    ensures EncodePacked(f, vs).Some? <==> forall k {:trigger vs[k]} :: 0 <= k < |vs| ==> ValueFits(f, vs[k])
    decreases f, 1, |vs|
  {
    if vs != [] {
      ValueEncodes(f, vs[0]);
      PackedEncodes(f, vs[1..]);
      HeadAndTail(f, vs);
    }
  }

  lemma HeadAndTail(f: Field, vs: seq<Value>)
    requires vs != []
    ensures (forall k {:trigger vs[k]} :: 0 <= k < |vs| ==> ValueFits(f, vs[k]))
       <==> ValueFits(f, vs[0]) && forall k {:trigger vs[1..][k]} :: 0 <= k < |vs[1..]| ==> ValueFits(f, vs[1..][k])
  {
    var rest := vs[1..];
    if ValueFits(f, vs[0]) && forall k {:trigger rest[k]} :: 0 <= k < |rest| ==> ValueFits(f, rest[k]) {
      forall k | 0 <= k < |vs|
        ensures ValueFits(f, vs[k])
      {
        if k > 0 {
          assert vs[k] == rest[k - 1];
        }
      }
    }
  }

  lemma {:induction false} ItemsEncode(f: Field, vs: seq<Value>)
    ensures EncodeItems(f, vs).Some? <==> forall k {:trigger vs[k]} :: 0 <= k < |vs| ==> ValueFits(f, vs[k])
    decreases f, 1, |vs|
  {
    if vs != [] {
      ValueEncodes(f, vs[0]);
      ItemsEncode(f, vs[1..]);
      HeadAndTail(f, vs);
    }
  }

  lemma {:induction false} FieldEncodes(f: Field, slot: Slot)
    ensures EncodeField(f, slot).Some? <==> SlotFits(f, slot)
    decreases f, 2
  {
    if f.htype.Repeated? {
      if Packable(f.ltype) {
        PackedEncodes(f, Items(slot));
      } else {
        ItemsEncode(f, Items(slot));
      }
    } else {
      ValueEncodes(f, Current(slot));
    }
  }

  lemma {:induction false} FieldsEncode(fields: seq<Field>, m: Msg, n: nat)
    requires n <= |fields|
    ensures EncodeFields(fields, m, n).Some?
       <==> forall i {:trigger fields[i]} :: n <= i < |fields| ==> SlotFits(fields[i], SlotAt(m, Offset(fields, i)))
    decreases fields, |fields| - n
  {
    if n < |fields| {
      FieldEncodes(fields[n], SlotAt(m, Offset(fields, n)));
      FieldsEncode(fields, m, n + 1);
    }
  }

  /** `pb_encode` into a stream that is large enough succeeds exactly when all that is present can be
      written. */
  lemma EncodesExactly(fields: seq<Field>, m: Msg)
    ensures EncodeMessage(fields, m).Some? <==> AllFit(fields, m)
  {
    FieldsEncode(fields, m, 0);
  }
}
