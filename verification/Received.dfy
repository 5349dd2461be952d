/**
 What arrives at the other end: which members are as they were sent, when the
 whole struct is, and how messages are framed in a longer stream.
 */
module Received {
  import opened Wire
  import opened Varint
  import opened Schema
  import opened Decode
  import opened Records
  import opened Typed
  import opened Encode
  import RT = RoundTrip

  // ------------------------------------------------- present and absent members

  lemma {:induction false} SentKeys(fields: seq<Field>, m: Msg, n: nat)
    requires n <= |fields|
    ensures RT.Sent(fields, m, n).Keys == Keys(fields, |fields|)
    decreases n
  {
    if n > 0 {
      SentKeys(fields, m, n - 1);
      assert Offset(fields, n - 1) in Keys(fields, |fields|);
    }
  }

  ghost predicate DistinctPair(fields: seq<Field>, i: nat, j: nat)
    requires i < |fields| && j < |fields|
  {
    i != j ==> fields[i].tag != fields[j].tag
  }

  /** A present member arrives as sent. */
  lemma {:induction false} ReceivedPresent(fields: seq<Field>, m: Msg, n: nat, i: nat)
    requires Apart(fields) && i < n <= |fields| && Present(fields[i], SlotAt(m, Offset(fields, i)))
    requires forall j :: 0 <= j < |fields| ==> DistinctPair(fields, i, j)
    ensures SlotAt(RT.Sent(fields, m, n), Offset(fields, i)) == RT.SentSlot(fields[i], SlotAt(m, Offset(fields, i)))
    decreases n
  {
    if i < n - 1 {
      ReceivedPresent(fields, m, n - 1, i);
      assert DistinctPair(fields, i, n - 1);
      if Shares(fields, i, n - 1) {
        assert fields[i].htype.Oneof? && fields[n - 1].htype.Oneof?;
      }
    }
  }

  /** Storage of which no member is present arrives at its default. */
  lemma {:induction false} ReceivedAbsent(fields: seq<Field>, m: Msg, n: nat, k: nat)
    requires n <= |fields| && k in Keys(fields, |fields|)
    requires forall i {:trigger Present(fields[i], SlotAt(m, k))} ::
               0 <= i < n && Offset(fields, i) == k ==> !Present(fields[i], SlotAt(m, k))
    ensures SlotAt(RT.Sent(fields, m, n), k) == DefaultMsg(fields)[k]
    decreases n
  {
    if n > 0 {
      var f := fields[n - 1];
      ReceivedAbsent(fields, m, n - 1, k);
      assert Offset(fields, n - 1) == k ==> !Present(f, SlotAt(m, k));
      SentSkips(fields, m, n, k);
    }
  }

  lemma SentSkips(fields: seq<Field>, m: Msg, n: nat, k: nat)
    requires 0 < n <= |fields|
    requires Offset(fields, n - 1) == k ==> !Present(fields[n - 1], SlotAt(m, k))
    ensures SlotAt(RT.Sent(fields, m, n), k) == SlotAt(RT.Sent(fields, m, n - 1), k)
  {
  }

  // ------------------------------------------------------ what is written

  /** A proto3 member that is no submessage is left out exactly when it is at the default that
      the receiver restores; only fixed-length byte arrays are always sent. */
  lemma LeftOutIsDefault(f: Field, v: Value)
    requires WfField(f) && Singular(f) && TypedScalar(f, v)
    ensures !Present(f, Plain(v)) <==> v == DefaultValue(f) && !f.ltype.LFixedLengthBytes?
  {
    assert Present(f, Plain(v)) == !IsZero(f, v);
    if v.BytesV? {
      assert v == BytesV(v.data);
    } else if v.BoolV? {
      assert v == BoolV(v.b);
    } else {
      assert v == IntV(v.i);
    }
  }

  /** Something of a member is written: always for a required one, by its `has_` flag for an optional one that
      has one, for an array with elements, for a union with an active member; and for a proto3 member
      when it is not zero, false or empty. */
  ghost predicate Written(f: Field, slot: Slot)
    decreases f, 1
  {
    match f.htype
    case Required => true
    case Optional => if f.sizeOffset != 0 then slot.Flagged? && slot.has else WrittenValue(f, Current(slot))
    case Repeated => Items(slot) != []
    case Oneof => slot.OneOf? && slot.which != 0
  }

  /** A proto3 submessage is written when something in it is, a byte array of a fixed length always. */
  ghost predicate WrittenValue(f: Field, v: Value)
    decreases f, 0
  {
    if f.ltype.LSubmessage? then v.MsgV? && SomeWritten(f.sub, v.slots)
    else f.ltype.LFixedLengthBytes? || (v != IntV(0) && v != BoolV(false) && v != BytesV([]))
  }

  ghost predicate SomeWritten(fields: seq<Field>, m: Msg)
    decreases fields, 2
  {
    exists i {:trigger fields[i]} :: 0 <= i < |fields| && Written(fields[i], SlotAt(m, Offset(fields, i)))
  }

  lemma {:induction false} AllDefaultIs(fields: seq<Field>, m: Msg, n: nat)
    requires n <= |fields|
    ensures AllDefault(fields, m, n)
       <==> forall i {:trigger fields[i]} :: n <= i < |fields| ==> IsDefault(fields[i], SlotAt(m, Offset(fields, i)))
    decreases |fields| - n
  {
    if n < |fields| {
      AllDefaultIs(fields, m, n + 1);
    }
  }

  lemma {:induction false} DefaultIsUnwritten(f: Field, slot: Slot)
    requires WfField(f) && TypedSlot(f, slot)
    ensures IsDefault(f, slot) <==> !Written(f, slot)
    decreases f, 1
  {
    if Singular(f) {
      ZeroIsUnwritten(f, slot.v);
    }
  }

  lemma {:induction false} ZeroIsUnwritten(f: Field, v: Value)
    requires WfField(f) && TypedValue(f, v)
    ensures IsZero(f, v) <==> !WrittenValue(f, v)
    decreases f, 0
  {
    if f.ltype.LSubmessage? {
      NothingWritten(f.sub, v.slots);
    } else if v.BytesV? {
      assert v == BytesV(v.data);
    } else if v.BoolV? {
      assert v == BoolV(v.b);
    } else {
      assert v == IntV(v.i);
    }
  }

  /** A struct is all default exactly when nothing in it is written. */
  lemma {:induction false} NothingWritten(fields: seq<Field>, m: Msg)
    requires WfSchema(fields) && TypedMsg(fields, m)
    ensures AllDefault(fields, m, 0) <==> !SomeWritten(fields, m)
    decreases fields, 2
  {
    AllDefaultIs(fields, m, 0);
    forall i | 0 <= i < |fields|
      ensures IsDefault(fields[i], SlotAt(m, Offset(fields, i))) <==> !Written(fields[i], SlotAt(m, Offset(fields, i)))
    {
      assert WfField(fields[i]) && TypedSlot(fields[i], SlotAt(m, Offset(fields, i)));
      DefaultIsUnwritten(fields[i], SlotAt(m, Offset(fields, i)));
    }
  }

  /** Exactly which members the encoder writes. */
  lemma PresentIsWritten(f: Field, slot: Slot)
    requires WfField(f) && TypedSlot(f, slot)
    ensures Present(f, slot) <==> if f.htype.Oneof? then slot.OneOf? && slot.which == f.tag else Written(f, slot)
  {
    DefaultIsUnwritten(f, slot);
  }

  // ----------------------------------------------------- member by member

  lemma AllDistinct(fields: seq<Field>, i: nat)
    requires WfSchema(fields) && i < |fields|
    ensures forall j :: 0 <= j < |fields| ==> DistinctPair(fields, i, j)
  {
    forall j | 0 <= j < |fields|
      ensures DistinctPair(fields, i, j)
    {
      assert WfField(fields[i]) && WfField(fields[j]);
    }
  }

  /** A value at the other end: submessages arrive member by member, everything else as it is. */
  function Arrived(f: Field, v: Value): Value {
    if f.ltype.LSubmessage? then MsgV(RT.Received(f.sub, Struct(v))) else v
  }

  lemma {:induction false} ItemsArrive(f: Field, items: seq<Value>)
    ensures forall k :: 0 <= k < |items| ==> RT.SentItems(f, items)[k] == Arrived(f, items[k])
  {
    if items != [] {
      ItemsArrive(f, items[1..]);
    }
  }

  /** What arrives of a member that is not in a union. */
  ghost predicate ArrivesAs(f: Field, slot: Slot, got: Slot) {
    match f.htype
    case Required => got == Plain(Arrived(f, Current(slot)))
    case Optional =>
      if f.sizeOffset != 0 then
        slot.Flagged? && got == if slot.has then Flagged(true, Arrived(f, slot.v)) else Flagged(false, DefaultValue(f))
      else if f.ltype.LSubmessage? && !WrittenValue(f, Current(slot)) then got == Plain(DefaultValue(f))
      else got == Plain(Arrived(f, Current(slot)))
    case Repeated =>
      && got.Many? && |got.items| == |Items(slot)|
      && forall k :: 0 <= k < |got.items| ==> got.items[k] == Arrived(f, Items(slot)[k])
    case Oneof => false
  }

  lemma AbsentDefault(fields: seq<Field>, m: Msg, i: nat)
    requires WfSchema(fields) && i < |fields| && !fields[i].htype.Oneof?
    requires !Present(fields[i], SlotAt(m, Offset(fields, i)))
    ensures SlotAt(RT.Received(fields, m), Offset(fields, i)) == DefaultSlot(fields[i])
  {
    OffsetsApart(fields);
    var k := Offset(fields, i);
    forall j | 0 <= j < |fields| && Offset(fields, j) == k
      ensures !Present(fields[j], SlotAt(m, k))
    {
      assert j != i ==> Shares(fields, i, j);
    }
    SentKeys(fields, m, |fields|);
    ReceivedAbsent(fields, m, |fields|, k);
    DefaultsAt(fields, |fields|, i);
  }

  /** What the receiver gets of every member outside unions: an optional one with a `has_` flag is there exactly when
      it was there at the sender; a proto3 one always has the value of the sender. */
  lemma MemberArrives(fields: seq<Field>, m: Msg, i: nat)
    requires WfSchema(fields) && TypedMsg(fields, m) && i < |fields| && !fields[i].htype.Oneof?
    ensures ArrivesAs(fields[i], SlotAt(m, Offset(fields, i)), SlotAt(RT.Received(fields, m), Offset(fields, i)))
  {
    var f, slot := fields[i], SlotAt(m, Offset(fields, i));
    assert WfField(f) && TypedSlot(f, slot);
    PresentIsWritten(f, slot);
    ItemsArrive(f, Items(slot));
    if Present(f, slot) {
      OffsetsApart(fields);
      AllDistinct(fields, i);
      ReceivedPresent(fields, m, |fields|, i);
    } else {
      AbsentDefault(fields, m, i);
      if Singular(f) && !f.ltype.LSubmessage? {
        LeftOutIsDefault(f, slot.v);
      }
    }
  }

  /** And of a union: its active member, which is entry j. */
  lemma UnionArrives(fields: seq<Field>, m: Msg, i: nat, j: nat)
    requires WfSchema(fields) && i < |fields| && j < |fields| && fields[j].htype.Oneof? && Shares(fields, i, j)
    requires SlotAt(m, Offset(fields, i)).OneOf? && SlotAt(m, Offset(fields, i)).which == fields[j].tag
    ensures var slot := SlotAt(m, Offset(fields, i));
            SlotAt(RT.Received(fields, m), Offset(fields, i)) == OneOf(slot.which, Arrived(fields[j], slot.v))
  {
    OffsetsApart(fields);
    AllDistinct(fields, j);
    ReceivedPresent(fields, m, |fields|, j);
  }

  /** Or nothing, when no member is active that the schema has. */
  lemma UnionAbsent(fields: seq<Field>, m: Msg, i: nat)
    requires WfSchema(fields) && i < |fields| && fields[i].htype.Oneof?
    requires forall j :: 0 <= j < |fields| && Shares(fields, i, j)
                         ==> Which(SlotAt(m, Offset(fields, i))) != fields[j].tag
    ensures SlotAt(RT.Received(fields, m), Offset(fields, i)) == NoneOf
  {
    OffsetsApart(fields);
    var k := Offset(fields, i);
    forall j | 0 <= j < |fields| && Offset(fields, j) == k
      ensures !Present(fields[j], SlotAt(m, k))
    {
      assert Shares(fields, i, j);
    }
    SentKeys(fields, m, |fields|);
    ReceivedAbsent(fields, m, |fields|, k);
    DefaultsAt(fields, |fields|, i);
  }

  // ------------------------------------------------------- the same struct

  /** Absent members are at their defaults, the active member of each union is one of the
      schema, and so in every submessage. */
  ghost predicate CanonicalValue(f: Field, v: Value)
    decreases f, 0
  {
    f.ltype.LSubmessage? ==> v.MsgV? && Canonical(f.sub, v.slots)
  }

  ghost predicate CanonicalSlot(f: Field, slot: Slot)
    decreases f, 1
  {
    match f.htype
    case Required => CanonicalValue(f, Current(slot))
    case Optional =>
      if f.sizeOffset != 0 then slot.Flagged?
        && if slot.has then CanonicalValue(f, slot.v) else slot.v == DefaultValue(f)
      else CanonicalValue(f, Current(slot))
    case Repeated => forall k :: 0 <= k < |Items(slot)| ==> CanonicalValue(f, Items(slot)[k])
    case Oneof => slot.OneOf? && slot.which == f.tag ==> CanonicalValue(f, slot.v)
  }

  ghost predicate KnownMember(fields: seq<Field>, i: nat, slot: Slot)
    requires i < |fields|
  {
    slot.OneOf? ==>
      exists j :: && 0 <= j < |fields| && Shares(fields, i, j)
                  && fields[j].htype.Oneof? && fields[j].tag == slot.which
  }

  ghost predicate Canonical(fields: seq<Field>, m: Msg)
    decreases fields, 2
  {
    forall i {:trigger KnownMember(fields, i, SlotAt(m, Offset(fields, i)))} :: 0 <= i < |fields| ==>
      CanonicalSlot(fields[i], SlotAt(m, Offset(fields, i))) && KnownMember(fields, i, SlotAt(m, Offset(fields, i)))
  }

  lemma {:induction false} SentValueSame(f: Field, v: Value)
    requires WfField(f) && TypedValue(f, v) && CanonicalValue(f, v)
    ensures RT.SentValue(f, v) == v
    decreases f, 0
  {
    if f.ltype.LSubmessage? {
      ReceivedIsSent(f.sub, v.slots);
    }
  }

  lemma {:induction false} SentItemsSame(f: Field, vs: seq<Value>)
    requires WfField(f)
    requires forall k :: 0 <= k < |vs| ==> (TypedValue(f, vs[k]) || vs[k].Indeterminate?) && CanonicalValue(f, vs[k])
    ensures RT.SentItems(f, vs) == vs
    decreases f, 1, |vs|
  {
    if vs != [] {
      if !vs[0].Indeterminate? {
        SentValueSame(f, vs[0]);
      }
      SentItemsSame(f, vs[1..]);
    }
  }

  lemma {:induction false} SentSlotSame(f: Field, slot: Slot)
    requires WfField(f) && TypedSlot(f, slot) && CanonicalSlot(f, slot) && Present(f, slot)
    ensures RT.SentSlot(f, slot) == slot
    decreases f, 2
  {
    if f.htype.Repeated? {
      SentItemsSame(f, slot.items);
    } else {
      SentValueSame(f, Current(slot));
    }
  }

  /** A canonical struct arrives unchanged. */
  lemma {:induction false} ReceivedIsSent(fields: seq<Field>, m: Msg)
    requires WfSchema(fields) && TypedMsg(fields, m) && Canonical(fields, m)
    ensures RT.Received(fields, m) == m
    decreases fields, 3
  {
    OffsetsApart(fields);
    SentKeys(fields, m, |fields|);
    var r := RT.Received(fields, m);
    forall k | k in Keys(fields, |fields|)
      ensures r[k] == m[k]
    {
      var i := KeyOf(fields, |fields|, k);
      SlotSame(fields, m, i);
    }
  }

  lemma {:induction false} KeyOf(fields: seq<Field>, n: nat, k: nat) returns (i: nat)
    requires n <= |fields| && k in Keys(fields, n)
    ensures i < n && Offset(fields, i) == k
  {
    if Offset(fields, n - 1) == k {
      i := n - 1;
    } else {
      i := KeyOf(fields, n - 1, k);
    }
  }

  lemma {:induction false} PresentSame(fields: seq<Field>, m: Msg, i: nat)
    requires WfSchema(fields) && Apart(fields) && TypedMsg(fields, m) && Canonical(fields, m) && i < |fields|
    requires Present(fields[i], SlotAt(m, Offset(fields, i)))
    ensures SlotAt(RT.Received(fields, m), Offset(fields, i)) == SlotAt(m, Offset(fields, i))
    decreases fields, 1
  {
    AllDistinct(fields, i);
    ReceivedPresent(fields, m, |fields|, i);
    assert KnownMember(fields, i, SlotAt(m, Offset(fields, i)));
    assert WfField(fields[i]) && TypedSlot(fields[i], SlotAt(m, Offset(fields, i)));
    SentSlotSame(fields[i], SlotAt(m, Offset(fields, i)));
  }

  lemma {:induction false} SlotSame(fields: seq<Field>, m: Msg, i: nat)
    requires WfSchema(fields) && Apart(fields) && TypedMsg(fields, m) && Canonical(fields, m) && i < |fields|
    ensures SlotAt(RT.Received(fields, m), Offset(fields, i)) == SlotAt(m, Offset(fields, i))
    decreases fields, 2
  {
    var f, slot := fields[i], SlotAt(m, Offset(fields, i));
    assert KnownMember(fields, i, slot) && CanonicalSlot(f, slot) && TypedSlot(f, slot);
    if Present(f, slot) {
      PresentSame(fields, m, i);
    } else if slot.OneOf? {
      var j :| 0 <= j < |fields| && Shares(fields, i, j) && fields[j].htype.Oneof? && fields[j].tag == slot.which;
      PresentSame(fields, m, j);
    } else {
      if Singular(f) {
        assert WfField(f);
        UnwrittenIsDefault(f, slot.v);
      }
      AbsentSame(fields, m, i);
    }
  }

  predicate SameAt(fields: seq<Field>, a: Msg, b: Msg, i: nat)
    requires i < |fields|
  {
    SlotAt(a, Offset(fields, i)) == SlotAt(b, Offset(fields, i))
  }

  lemma SameStorage(fields: seq<Field>, a: Msg, b: Msg)
    requires a.Keys == b.Keys == Keys(fields, |fields|)
    requires forall i :: 0 <= i < |fields| ==> SameAt(fields, a, b, i)
    ensures a == b
  {
    forall k | k in a
      ensures a[k] == b[k]
    {
      var i := KeyOf(fields, |fields|, k);
      assert SameAt(fields, a, b, i);
    }
  }

  /** A canonical struct of which nothing is written is at its defaults. */
  lemma {:induction false} DefaultIsAll(fields: seq<Field>, m: Msg)
    requires WfSchema(fields) && TypedMsg(fields, m) && Canonical(fields, m) && AllDefault(fields, m, 0)
    ensures m == DefaultMsg(fields)
    decreases fields, 2
  {
    forall i | 0 <= i < |fields|
      ensures SameAt(fields, m, DefaultMsg(fields), i)
    {
      AtDefault(fields, m, i);
    }
    SameStorage(fields, m, DefaultMsg(fields));
  }

  lemma {:induction false} AtDefault(fields: seq<Field>, m: Msg, i: nat)
    requires WfSchema(fields) && TypedMsg(fields, m) && Canonical(fields, m) && AllDefault(fields, m, 0) && i < |fields|
    ensures SameAt(fields, m, DefaultMsg(fields), i)
    decreases fields, 1
  {
    var f, slot := fields[i], SlotAt(m, Offset(fields, i));
    assert KnownMember(fields, i, slot) && WfField(f) && TypedSlot(f, slot);
    AllDefaultIs(fields, m, 0);
    OffsetsApart(fields);
    DefaultsAt(fields, |fields|, i);
    if Singular(f) {
      UnwrittenIsDefault(f, slot.v);
    } else {
      ActiveMember(fields, i, slot);
    }
  }

  lemma ActiveMember(fields: seq<Field>, i: nat, slot: Slot)
    requires WfSchema(fields) && i < |fields| && KnownMember(fields, i, slot)
    ensures slot.OneOf? ==> slot.which != 0
  {
    forall j | 0 <= j < |fields|
      ensures fields[j].tag != 0
    {
      assert WfField(fields[j]);
    }
  }

  lemma {:induction false} UnwrittenIsDefault(f: Field, v: Value)
    requires WfField(f) && Singular(f) && TypedValue(f, v) && CanonicalValue(f, v) && IsZero(f, v)
    ensures v == DefaultValue(f)
    decreases f, 0
  {
    if f.ltype.LSubmessage? {
      DefaultIsAll(f.sub, v.slots);
    } else {
      LeftOutIsDefault(f, v);
    }
  }

  lemma AbsentSame(fields: seq<Field>, m: Msg, i: nat)
    requires WfSchema(fields) && Apart(fields) && i < |fields|
    requires var slot := SlotAt(m, Offset(fields, i));
             !Present(fields[i], slot) && !slot.OneOf? && TypedSlot(fields[i], slot) && CanonicalSlot(fields[i], slot)
             && (Singular(fields[i]) ==> slot == DefaultSlot(fields[i]))
    ensures SlotAt(RT.Received(fields, m), Offset(fields, i)) == SlotAt(m, Offset(fields, i))
  {
    var k := Offset(fields, i);
    forall j | 0 <= j < |fields| && Offset(fields, j) == k
      ensures !Present(fields[j], SlotAt(m, k))
    {
      assert WfField(fields[j]);
      assert j != i ==> Shares(fields, i, j);
    }
    ReceivedAbsent(fields, m, |fields|, k);
    DefaultsAt(fields, |fields|, i);
    assert WfField(fields[i]);
  }

  /** The round trip on canonical structs: the very same struct. */
  lemma ExactRoundTrip(fields: seq<Field>, m: Msg)
    requires WfSchema(fields) && TypedMsg(fields, m) && RT.ReadyMsg(fields, m) && Canonical(fields, m)
    ensures EncodeMessage(fields, m).Some?
    ensures DecodeMessage(fields, EncodeMessage(fields, m).value) == Ok(m, [])
  {
    RT.MessageRoundTrip(fields, m);
    ReceivedIsSent(fields, m);
  }

  // --------------------------------------------------------------- framing

  /** A message whose encoding is below 2^32 bytes. */
  ghost predicate Deliverable(fields: seq<Field>, m: Msg) {
    && TypedMsg(fields, m) && RT.ReadyMsg(fields, m)
    && (EncodeMessage(fields, m).Some? ==> |EncodeMessage(fields, m).value| < TWO32)
  }

  ghost predicate AllDeliverable(fields: seq<Field>, ms: seq<Msg>) {
    forall k {:trigger Deliverable(fields, ms[k])} :: 0 <= k < |ms| ==> Deliverable(fields, ms[k])
  }

  /** `pb_encode_delimited` of one message after another. */
  function WriteDelimited(fields: seq<Field>, ms: seq<Msg>): Option<seq<Byte>> {
    if ms == [] then Some([])
    else
      match EncodeMessage(fields, ms[0])
      case None => None
      case Some(body) => Both(Some(Prefixed(body)), WriteDelimited(fields, ms[1..]))
  }

  /** n calls of `pb_decode_delimited`. */
  function ReadDelimited(fields: seq<Field>, n: nat, s: seq<Byte>): Parse<seq<Msg>> {
    if n == 0 then Ok([], s)
    else
      match DecodeDelimited(fields, s)
      case Fail => Fail
      case Ok(m, rest) =>
        match ReadDelimited(fields, n - 1, rest)
        case Fail => Fail
        case Ok(ms, rest') => Ok([m] + ms, rest')
  }

  function AllReceived(fields: seq<Field>, ms: seq<Msg>): seq<Msg> {
    if ms == [] then [] else [RT.Received(fields, ms[0])] + AllReceived(fields, ms[1..])
  }

  lemma OneDelimited(fields: seq<Field>, m: Msg, t: seq<Byte>)
    requires WfSchema(fields) && Deliverable(fields, m)
    ensures EncodeMessage(fields, m).Some?
    ensures DecodeDelimited(fields, Prefixed(EncodeMessage(fields, m).value) + t) == Ok(RT.Received(fields, m), t)
  {
    RT.MessageRoundTrip(fields, m);
    FramedDecodes(fields, EncodeMessage(fields, m).value, RT.Received(fields, m), t);
  }

  lemma FramedDecodes(fields: seq<Field>, body: seq<Byte>, m: Msg, t: seq<Byte>)
    requires |body| < TWO32 && DecodeMessage(fields, body) == Ok(m, [])
    ensures DecodeDelimited(fields, Prefixed(body) + t) == Ok(m, t)
  {
    DelimitedRoundTrip(body, t);
    assert Prefixed(body) + t == EncodeVarint(|body|) + (body + t);
  }

  /** Any number of messages written one after the other with their lengths is read back, in
      order, whatever follows them. */
  lemma {:induction false} DelimitedMessages(fields: seq<Field>, ms: seq<Msg>, t: seq<Byte>)
    requires WfSchema(fields) && AllDeliverable(fields, ms)
    ensures WriteDelimited(fields, ms).Some?
    ensures ReadDelimited(fields, |ms|, WriteDelimited(fields, ms).value + t) == Ok(AllReceived(fields, ms), t)
    decreases |ms|
  {
    if ms == [] {
      assert [] + t == t;
    } else {
      assert Deliverable(fields, ms[0]);
      assert AllDeliverable(fields, ms[1..]) by {
        forall k | 0 <= k < |ms[1..]|
          ensures Deliverable(fields, ms[1..][k])
        {
          assert Deliverable(fields, ms[k + 1]);
        }
      }
      DelimitedMessages(fields, ms[1..], t);
      OneMore(fields, ms[0], |ms[1..]|, WriteDelimited(fields, ms[1..]).value, AllReceived(fields, ms[1..]), t);
    }
  }

  lemma OneMore(fields: seq<Field>, m: Msg, n: nat, w: seq<Byte>, ms: seq<Msg>, t: seq<Byte>)
    requires WfSchema(fields) && Deliverable(fields, m) && ReadDelimited(fields, n, w + t) == Ok(ms, t)
    ensures EncodeMessage(fields, m).Some?
    ensures ReadDelimited(fields, n + 1, Prefixed(EncodeMessage(fields, m).value) + w + t)
            == Ok([RT.Received(fields, m)] + ms, t)
  {
    OneDelimited(fields, m, w + t);
    var e := Prefixed(EncodeMessage(fields, m).value);
    assert (e + w) + t == e + (w + t);
    ReadCons(fields, n, e + (w + t), RT.Received(fields, m), w + t, ms, t);
  }

  lemma ReadCons(fields: seq<Field>, n: nat, s: seq<Byte>, m: Msg, u: seq<Byte>, ms: seq<Msg>, t: seq<Byte>)
    requires DecodeDelimited(fields, s) == Ok(m, u) && ReadDelimited(fields, n, u) == Ok(ms, t)
    ensures ReadDelimited(fields, n + 1, s) == Ok([m] + ms, t)
  {
  }

  /** `pb_encode_nullterminated`: the zero byte ends the message, whatever follows it. */
  lemma NullTerminated(fields: seq<Field>, m: Msg, t: seq<Byte>)
    requires WfSchema(fields) && TypedMsg(fields, m) && RT.ReadyMsg(fields, m)
    ensures EncodeMessage(fields, m).Some?
    ensures DecodeMessage(fields, EncodeMessage(fields, m).value + [0] + t) == Ok(RT.Received(fields, m), t)
  {
    OffsetsApart(fields);
    var st' := RT.FieldsRoundTrip(fields, m, 0, Start(DefaultMsg(fields)), [0] + t);
    var e := EncodeMessage(fields, m).value;
    assert e + [0] + t == e + ([0] + t);
    ZeroByteIsZeroTag(t);
    assert DecodeRecords(fields, st', [0] + t) == Done(st', t, true);
    assert Complete(fields, st');
  }
}
