/**
 A packed record and the same elements as single records: one array either way.
 */
module Packed {
  import opened Wire
  import opened Varint
  import opened Schema
  import opened Decode
  import opened Records
  import opened Frames

  /** One packed record holding the given encoded elements. */
  function PackedRecord(f: Field, elems: seq<seq<Byte>>): seq<Byte> {
    EncodeTag(f.tag, WT_STRING) + (EncodeVarint(|Concat(elems)|) + Concat(elems))
  }

  function SingleRecord(f: Field, e: seq<Byte>): seq<Byte> {
    EncodeTag(f.tag, WireType(f.ltype)) + e
  }

  /** One record for each element. */
  function SingleRecords(f: Field, elems: seq<seq<Byte>>): seq<Byte> {
    if elems == [] then [] else SingleRecord(f, elems[0]) + SingleRecords(f, elems[1..])
  }

  /** `e` is the whole encoding of some value of the field. */
  predicate Element(f: Field, e: seq<Byte>) {
    DecodeScalar(f, e).Ok? && DecodeScalar(f, e).rest == []
  }

  ghost predicate Elements(f: Field, elems: seq<seq<Byte>>) {
    forall k :: 0 <= k < |elems| ==> Element(f, elems[k])
  }

  function Append(f: Field, items: seq<Value>, size: nat, elems: seq<seq<Byte>>): Option<(seq<Value>, nat)>
    decreases |elems|
  {
    if elems == [] then Some((items, size))
    else if size >= f.arraySize then None
    else
      match DecodeScalar(f, elems[0])
      case Fail => None
      case Ok(v, _) => Append(f, Store(items, size, v), size + 1, elems[1..])
  }

  lemma {:induction false} PackedIsAppend(f: Field, items: seq<Value>, size: nat, elems: seq<seq<Byte>>)
    requires Elements(f, elems)
    ensures DecodePacked(f, items, size, Concat(elems)) == Append(f, items, size, elems)
    decreases |elems|
  {
    if elems != [] {
      var e, u := elems[0], Concat(elems[1..]);
      ScalarLocal(f, e, u);
      assert Consumed(e, DecodeScalar(f, e)) == e;
      assert Concat(elems) == e + u;
      var v := DecodeScalar(f, e).value;
      PackedIsAppend(f, Store(items, size, v), size + 1, elems[1..]);
    }
  }

  /** The decoder is in the middle of array i, which holds the items with the given count. */
  ghost predicate At(fields: seq<Field>, i: nat, st: State, items: seq<Value>, size: nat)
    requires i < |fields|
  {
    && Offset(fields, i) in st.msg && st.msg[Offset(fields, i)] == Many(items)
    && (if FixedCount(fields[i]) then st.fixedAt == Some(i) && st.fixedCount == size else |items| == size)
  }

  /** The table lists a repeated scalar at i, and a search for its tag finds it. */
  ghost predicate Lists(fields: seq<Field>, i: nat) {
    Found(fields, i) && fields[i].htype.Repeated? && Packable(fields[i].ltype)
  }

  /** A fixed-count array of another field is still incomplete. */
  predicate Blocked(fields: seq<Field>, i: nat, st: State)
    requires i < |fields|
  {
    FixedCount(fields[i]) && st.fixedAt != Some(i) && !FixedDone(fields, st)
  }

  /** A record of field i whose value decoder succeeds. */
  lemma StaticThen(fields: seq<Field>, i: nat, wireType: nat, st: State, s: seq<Byte>, slot: Slot, n: nat, t: seq<Byte>)
    requires Found(fields, i) && wireType < 8 && !Blocked(fields, i, st)
    requires DecodeStatic(fields[i], wireType, SlotAt(st.msg, Offset(fields, i)), CountBefore(fields, i, st), s)
             == Ok((slot, n), t)
    ensures DecodeRecords(fields, st, EncodeTag(fields[i].tag, wireType) + s)
            == DecodeRecords(fields, Update(fields, i, st, slot, n), t)
  {
    KnownThen(fields, i, wireType, st, s);
  }

  function AfterAppend(fields: seq<Field>, i: nat, st: State, r: Option<(seq<Value>, nat)>): Option<State>
    requires i < |fields|
  {
    match r
    case None => None
    case Some((items, n)) => Some(Update(fields, i, st, Many(items), n))
  }

  function StateItems(fields: seq<Field>, i: nat, st: State): seq<Value>
    requires i < |fields|
  {
    Items(SlotAt(st.msg, Offset(fields, i)))
  }

  lemma SingleEffect(fields: seq<Field>, i: nat, st: State, e: seq<Byte>)
    requires Lists(fields, i) && Element(fields[i], e)
    ensures Framed(fields, SingleRecord(fields[i], e))
    ensures var size := CountBefore(fields, i, st);
            Effect(fields, st, SingleRecord(fields[i], e))
            == if Blocked(fields, i, st) || size >= fields[i].arraySize then None
               else Some(Update(fields, i, st,
                 Many(Store(StateItems(fields, i, st), size, DecodeScalar(fields[i], e).value)), size + 1))
  {
    var f := fields[i];
    ScalarExtent(f, e);
    KnownEffect(fields, i, WireType(f.ltype), st, e);
    assert DecodeValue(f, Indeterminate, e) == DecodeScalar(f, e);
  }

  lemma PackedEffect(fields: seq<Field>, i: nat, st: State, elems: seq<seq<Byte>>)
    requires Lists(fields, i) && Elements(fields[i], elems) && |Concat(elems)| < TWO32
    ensures Framed(fields, PackedRecord(fields[i], elems))
    ensures Effect(fields, st, PackedRecord(fields[i], elems))
            == if Blocked(fields, i, st) then None
               else AfterAppend(fields, i, st,
                 Append(fields[i], StateItems(fields, i, st), CountBefore(fields, i, st), elems))
  {
    var body := Concat(elems);
    var s := EncodeVarint(|body|) + body;
    PackedStatic(fields[i], SlotAt(st.msg, Offset(fields, i)), CountBefore(fields, i, st), elems);
    KnownEffect(fields, i, WT_STRING, st, s);
  }

  lemma PackedStatic(f: Field, slot: Slot, size: nat, elems: seq<seq<Byte>>)
    requires f.htype.Repeated? && Packable(f.ltype) && Elements(f, elems) && |Concat(elems)| < TWO32
    ensures var s := EncodeVarint(|Concat(elems)|) + Concat(elems);
            SkipField(WT_STRING, s) == Ok((), [])
            && DecodeStatic(f, WT_STRING, slot, size, s)
               == match Append(f, Items(slot), size, elems)
                  case None => Fail
                  case Some((items, n)) => Ok((Many(items), n), [])
  {
    var body := Concat(elems);
    DelimitedRoundTrip(body, []);
    assert body + [] == body;
    PackedIsAppend(f, Items(slot), size, elems);
  }

  lemma AtCount(fields: seq<Field>, i: nat, st: State, items: seq<Value>, size: nat)
    requires i < |fields| && fields[i].htype.Repeated? && At(fields, i, st, items, size)
    ensures CountBefore(fields, i, st) == size && StateItems(fields, i, st) == items && !Blocked(fields, i, st)
    ensures Update(fields, i, st, Many(items), size) == st
    ensures forall v :: At(fields, i, Update(fields, i, st, Many(Store(items, size, v)), size + 1),
            Store(items, size, v), size + 1)
  {
    assert st.msg[Offset(fields, i) := Many(items)] == st.msg;
  }

  /** The state after a single record holding the element e. */
  function AfterSingle(fields: seq<Field>, i: nat, st: State, e: seq<Byte>): State
    requires i < |fields| && Element(fields[i], e)
  {
    var size := CountBefore(fields, i, st);
    Update(fields, i, st, Many(Store(StateItems(fields, i, st), size, DecodeScalar(fields[i], e).value)), size + 1)
  }

  lemma SingleThen(fields: seq<Field>, i: nat, st: State, elems: seq<seq<Byte>>, t: seq<Byte>)
    requires Lists(fields, i) && elems != [] && Elements(fields[i], elems)
    ensures DecodeRecords(fields, st, SingleRecords(fields[i], elems) + t)
            == if Blocked(fields, i, st) || CountBefore(fields, i, st) >= fields[i].arraySize then Failed
               else DecodeRecords(fields, AfterSingle(fields, i, st, elems[0]),
                 SingleRecords(fields[i], elems[1..]) + t)
  {
    var f := fields[i];
    var u := SingleRecords(f, elems[1..]) + t;
    assert SingleRecords(f, elems) + t == SingleRecord(f, elems[0]) + u;
    SingleEffect(fields, i, st, elems[0]);
    RunCons(fields, st, SingleRecord(f, elems[0]), u);
  }

  lemma {:induction false} SinglesAreAppend(fields: seq<Field>, i: nat, st: State, items: seq<Value>, size: nat,
                                            elems: seq<seq<Byte>>, t: seq<Byte>)
    requires Lists(fields, i) && Elements(fields[i], elems) && At(fields, i, st, items, size)
    ensures DecodeRecords(fields, st, SingleRecords(fields[i], elems) + t)
            == match AfterAppend(fields, i, st, Append(fields[i], items, size, elems))
               case None => Failed
               case Some(st') => DecodeRecords(fields, st', t)
    decreases |elems|, 2
  {
    AtCount(fields, i, st, items, size);
    if elems == [] {
      assert SingleRecords(fields[i], elems) + t == t;
    } else {
      SinglesFromAnywhere(fields, i, st, elems, t);
    }
  }

  lemma UpdateTwice(fields: seq<Field>, i: nat, st: State, slot: Slot, count: nat)
    requires i < |fields| && fields[i].htype.Repeated?
    ensures forall r :: AfterAppend(fields, i, Update(fields, i, st, slot, count), r) == AfterAppend(fields, i, st, r)
  {
    forall r
      ensures AfterAppend(fields, i, Update(fields, i, st, slot, count), r) == AfterAppend(fields, i, st, r)
    {
      var k := Offset(fields, i);
      if r.Some? {
        assert st.msg[k := slot][k := Many(r.value.0)] == st.msg[k := Many(r.value.0)];
      }
    }
  }

  /** For elements of a repeated scalar field that each decode on their own: one packed record
      and the sequence of single records leave the decoder in the same state, or are both
      refused because the array is too small. */
  lemma PackedIsUnpacked(fields: seq<Field>, i: nat, st: State, elems: seq<seq<Byte>>, t: seq<Byte>)
    requires WfSchema(fields) && i < |fields| && fields[i].htype.Repeated? && Packable(fields[i].ltype)
    requires elems != [] && Elements(fields[i], elems) && |Concat(elems)| < TWO32
    ensures DecodeRecords(fields, st, PackedRecord(fields[i], elems) + t)
            == DecodeRecords(fields, st, SingleRecords(fields[i], elems) + t)
  {
    WfFound(fields, i);
    PackedEffect(fields, i, st, elems);
    RunCons(fields, st, PackedRecord(fields[i], elems), t);
    SinglesFromAnywhere(fields, i, st, elems, t);
  }

  lemma {:induction false} SinglesFromAnywhere(fields: seq<Field>, i: nat, st: State, elems: seq<seq<Byte>>,
                                               t: seq<Byte>)
    requires Lists(fields, i) && elems != [] && Elements(fields[i], elems)
    ensures var e := if Blocked(fields, i, st) then None
                     else AfterAppend(fields, i, st,
                       Append(fields[i], StateItems(fields, i, st), CountBefore(fields, i, st), elems));
            DecodeRecords(fields, st, SingleRecords(fields[i], elems) + t)
            == match e case None => Failed case Some(st') => DecodeRecords(fields, st', t)
    decreases |elems|, 1
  {
    SingleThen(fields, i, st, elems, t);
    if !Blocked(fields, i, st) && CountBefore(fields, i, st) < fields[i].arraySize {
      SinglesAfterFirst(fields, i, st, elems, t);
    }
  }

  lemma {:induction false} SinglesAfterFirst(fields: seq<Field>, i: nat, st: State, elems: seq<seq<Byte>>, t: seq<Byte>)
    requires Lists(fields, i) && elems != [] && Elements(fields[i], elems)
    requires CountBefore(fields, i, st) < fields[i].arraySize
    requires FixedCount(fields[i]) || |StateItems(fields, i, st)| == CountBefore(fields, i, st)
    ensures DecodeRecords(fields, AfterSingle(fields, i, st, elems[0]), SingleRecords(fields[i], elems[1..]) + t)
            == match AfterAppend(fields, i, st,
              Append(fields[i], StateItems(fields, i, st), CountBefore(fields, i, st), elems))
               case None => Failed
               case Some(st') => DecodeRecords(fields, st', t)
    decreases |elems|, 0
  {
    var size := CountBefore(fields, i, st);
    var items' := Store(StateItems(fields, i, st), size, DecodeScalar(fields[i], elems[0]).value);
    var st' := AfterSingle(fields, i, st, elems[0]);
    var r := Append(fields[i], items', size + 1, elems[1..]);
    assert AfterAppend(fields, i, st', r) == AfterAppend(fields, i, st, r) by {
      UpdateTwice(fields, i, st, Many(items'), size + 1);
    }
    SinglesAreAppend(fields, i, st', items', size + 1, elems[1..], t);
  }
}
