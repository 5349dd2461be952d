/**
 What any bytes leave in a struct, member by member, in terms of the records
 that were read: the last value wins, arrays collect, submessages take in one
 record after the other, and the rest is at its default.
 */
module History {
  import opened Wire
  import opened Varint
  import opened Schema
  import opened Decode
  import opened Records
  import opened Frames
  import opened Merge
  import opened Typed

  // --------------------------------------------------------------- records

  /** A record that was read: its key, and the bytes of its value. */
  datatype Rec = Rec(number: nat, wireType: nat, value: seq<Byte>)

  /** The bytes that the first record of a run has behind its key. */
  function FirstRec(fields: seq<Field>, st: State, s: seq<Byte>): Rec
    requires s != [] && DecodeTag(s).Tag? && DecodeRecord(fields, st, s).Next?
  {
    var k, r := DecodeTag(s), DecodeRecord(fields, st, s);
    RecordIsBody(fields, st, s);
    Rec(k.number, k.wireType, k.rest[..|k.rest| - |r.rest|])
  }

  /** All records of a run, in order. */
  function Read(fields: seq<Field>, st: State, s: seq<Byte>): seq<Rec>
    decreases |s|
  {
    if s == [] || !DecodeTag(s).Tag? || !DecodeRecord(fields, st, s).Next? then []
    else
      var r := DecodeRecord(fields, st, s);
      [FirstRec(fields, st, s)] + Read(fields, r.st, r.rest)
  }

  /** Those with a field number. */
  function With(number: nat, rs: seq<Rec>): seq<Rec> {
    if rs == [] then []
    else (if rs[0].number == number then [rs[0]] else []) + With(number, rs[1..])
  }

  function Numbers(rs: seq<Rec>): seq<nat> {
    if rs == [] then [] else [rs[0].number] + Numbers(rs[1..])
  }

  lemma {:induction false} NumbersRead(fields: seq<Field>, st: State, s: seq<Byte>)
    ensures Numbers(Read(fields, st, s)) == TagsRead(fields, st, s)
    decreases |s|
  {
    if s != [] && DecodeTag(s).Tag? && DecodeRecord(fields, st, s).Next? {
      var r := DecodeRecord(fields, st, s);
      NumbersRead(fields, r.st, r.rest);
      assert Read(fields, st, s)[1..] == Read(fields, r.st, r.rest);
    }
  }

  lemma {:induction false} WithSome(number: nat, rs: seq<Rec>)
    ensures With(number, rs) != [] <==> number in Numbers(rs)
  {
    if rs != [] {
      WithSome(number, rs[1..]);
    }
  }

  /** The storage of entry i. */
  function At(fields: seq<Field>, i: nat, st: State): Slot
    requires i < |fields|
  {
    SlotAt(st.msg, Offset(fields, i))
  }

  /** The first record of a run that is decoded: nothing changes for an unknown field; for a known one the
      decoder of its value has used exactly its bytes. */
  lemma FirstStep(fields: seq<Field>, st: State, s: seq<Byte>)
    requires s != [] && DecodeRecord(fields, st, s).Next?
    ensures DecodeTag(s).Tag?
    ensures var rec, st' := FirstRec(fields, st, s), DecodeRecord(fields, st, s).st;
            match FindTag(fields, rec.number)
            case None => st' == st
            case Some(j) =>
              var p := DecodeStatic(fields[j], rec.wireType, At(fields, j, st), CountBefore(fields, j, st), rec.value);
              p.Ok? && p.rest == [] && st' == Update(fields, j, st, p.value.0, p.value.1)
              && !(FixedCount(fields[j]) && st.fixedAt != Some(j) && !FixedDone(fields, st))
  {
    var k, r := DecodeTag(s), DecodeRecord(fields, st, s);
    RecordIsBody(fields, st, s);
    match FindTag(fields, k.number) {
      case None =>
        UnknownLocal(fields, k.number, k.wireType, st, k.rest, []);
      case Some(j) =>
        StaticLocal(fields[j], k.wireType, At(fields, j, st), CountBefore(fields, j, st), k.rest, []);
        var value := FirstRec(fields, st, s).value;
        assert value + [] == value;
    }
  }

  lemma NextHasTag(fields: seq<Field>, st: State, s: seq<Byte>)
    requires s != [] && DecodeRecord(fields, st, s).Next?
    ensures DecodeTag(s).Tag?
  {
  }

  /** A record of another field leaves the storage of entry i alone. */
  lemma OtherStep(fields: seq<Field>, st: State, s: seq<Byte>, i: nat)
    requires Apart(fields) && i < |fields| && !fields[i].htype.Oneof? && FindTag(fields, fields[i].tag) == Some(i)
    requires s != [] && DecodeRecord(fields, st, s).Next? && DecodeTag(s).Tag?
    requires FirstRec(fields, st, s).number != fields[i].tag
    ensures At(fields, i, DecodeRecord(fields, st, s).st) == At(fields, i, st)
  {
    FirstStep(fields, st, s);
    match FindTag(fields, FirstRec(fields, st, s).number) {
      case None =>
      case Some(j) => assert !Shares(fields, i, j);
    }
  }

  /** One record on. */
  lemma ReadStep(fields: seq<Field>, st: State, s: seq<Byte>, number: nat)
    requires s != [] && DecodeRecord(fields, st, s).Next? && DecodeTag(s).Tag?
    ensures var rec, r := FirstRec(fields, st, s), DecodeRecord(fields, st, s);
            With(number, Read(fields, st, s))
            == (if rec.number == number then [rec] else []) + With(number, Read(fields, r.st, r.rest))
  {
    var r := DecodeRecord(fields, st, s);
    assert Read(fields, st, s)[1..] == Read(fields, r.st, r.rest);
  }

  // -------------------------------------------------------- single members

  /** What a member holds after a value: a `has_` flag is set. */
  predicate Holds(f: Field, slot: Slot, v: Value) {
    if f.htype.Optional? && f.sizeOffset != 0 then slot == Flagged(true, v) else slot == Plain(v)
  }

  /** A member that is no array, no union and no submessage. */
  predicate SingleScalar(f: Field) {
    (f.htype.Required? || f.htype.Optional?) && !f.ltype.LSubmessage?
  }

  lemma ScalarStep(fields: seq<Field>, st: State, s: seq<Byte>, i: nat)
    requires i < |fields| && SingleScalar(fields[i]) && FindTag(fields, fields[i].tag) == Some(i)
    requires s != [] && DecodeRecord(fields, st, s).Next? && DecodeTag(s).Tag?
    requires FirstRec(fields, st, s).number == fields[i].tag
    ensures var p := DecodeScalar(fields[i], FirstRec(fields, st, s).value);
            p.Ok? && p.rest == [] && Holds(fields[i], At(fields, i, DecodeRecord(fields, st, s).st), p.value)
  {
    FirstStep(fields, st, s);
  }

  function Newest(rs: seq<Rec>): Rec
    requires rs != []
  {
    rs[|rs| - 1]
  }

  lemma NewestCons(rec: Rec, rs: seq<Rec>)
    ensures [rec] + rs != [] && Newest([rec] + rs) == if rs == [] then rec else Newest(rs)
  {
  }

  /** A single scalar holds the value of the last record of its field; without one it is as before. */
  lemma {:induction false} LastOneWins(fields: seq<Field>, st: State, s: seq<Byte>, i: nat)
    requires Apart(fields) && i < |fields| && SingleScalar(fields[i]) && FindTag(fields, fields[i].tag) == Some(i)
    requires DecodeRecords(fields, st, s).Done?
    ensures var rs := With(fields[i].tag, Read(fields, st, s)); var slot := At(fields, i,
            DecodeRecords(fields, st, s).st);
            if rs == [] then slot == At(fields, i, st)
            else var p := DecodeScalar(fields[i], Newest(rs).value);
                 p.Ok? && p.rest == [] && Holds(fields[i], slot, p.value)
    decreases |s|
  {
    if s != [] && DecodeRecord(fields, st, s).Next? {
      var f, r := fields[i], DecodeRecord(fields, st, s);
      NextHasTag(fields, st, s);
      ReadStep(fields, st, s, f.tag);
      var rec, more := FirstRec(fields, st, s), With(f.tag, Read(fields, r.st, r.rest));
      LastOneWins(fields, r.st, r.rest, i);
      if rec.number != f.tag {
        OtherStep(fields, st, s, i);
        assert [] + more == more;
      } else {
        ScalarStep(fields, st, s, i);
        NewestCons(rec, more);
      }
    } else if s != [] {
      StopReadsNothing(fields, st, s);
    }
  }

  lemma StopReadsNothing(fields: seq<Field>, st: State, s: seq<Byte>)
    requires s != [] && !DecodeRecord(fields, st, s).Next?
    ensures Read(fields, st, s) == []
  {
  }

  // ----------------------------------------------------------------- arrays

  /** The value of a record that is not packed. A submessage in an array or in a union is decoded by itself. */
  function OneValue(f: Field, s: seq<Byte>): Value {
    if f.ltype.LSubmessage? then
      match Delimited(s)
      case Fail => Indeterminate
      case Ok(body, _) => (match DecodeMessage(f.sub, body) case Fail => Indeterminate case Ok(m, _) => MsgV(m))
    else
      match DecodeScalar(f, s) case Fail => Indeterminate case Ok(v, _) => v
  }

  /** The elements of a packed record. */
  function Elements(f: Field, body: seq<Byte>): seq<Value>
    decreases |body|
  {
    if body == [] then []
    else match DecodeScalar(f, body) case Fail => [] case Ok(v, rest) => [v] + Elements(f, rest)
  }

  function ValuesOf(f: Field, rec: Rec): seq<Value> {
    if rec.wireType == 2 && Packable(f.ltype) then
      match Delimited(rec.value) case Fail => [] case Ok(body, _) => Elements(f, body)
    else [OneValue(f, rec.value)]
  }

  /** The values of all records of an array, in order. */
  function AllValues(f: Field, rs: seq<Rec>): seq<Value> {
    if rs == [] then [] else ValuesOf(f, rs[0]) + AllValues(f, rs[1..])
  }

  /** Values written from place n on, over what is there. */
  function Placed(items: seq<Value>, n: nat, vs: seq<Value>): seq<Value>
    requires n <= |items|
  {
    items[..n] + vs + if n + |vs| <= |items| then items[n + |vs|..] else []
  }

  lemma {:induction false} PackedIsElements(f: Field, items: seq<Value>, n: nat, body: seq<Byte>)
    requires n <= |items| && DecodePacked(f, items, n, body).Some?
    ensures DecodePacked(f, items, n, body).value == (Placed(items, n, Elements(f, body)), n + |Elements(f, body)|)
    ensures Elements(f, body) != [] ==> n + |Elements(f, body)| <= f.arraySize
    decreases |body|
  {
    if body != [] {
      var p := DecodeScalar(f, body);
      var more := Elements(f, p.rest);
      PackedIsElements(f, Store(items, n, p.value), n + 1, p.rest);
      assert Elements(f, body) == [p.value] + more;
      PlacedCons(items, n, p.value, more);
    } else {
      PlacedNone(items, n);
    }
  }

  lemma PlacedNone(items: seq<Value>, n: nat)
    requires n <= |items|
    ensures Placed(items, n, []) == items
  {
  }

  lemma PlacedCons(items: seq<Value>, n: nat, v: Value, vs: seq<Value>)
    requires n <= |items|
    ensures Placed(Store(items, n, v), n + 1, vs) == Placed(items, n, [v] + vs)
  {
  }

  lemma PlacedOne(items: seq<Value>, n: nat, v: Value)
    requires n <= |items|
    ensures Placed(items, n, [v]) == Store(items, n, v)
  {
  }

  lemma ItemValue(f: Field, s: seq<Byte>)
    requires f.htype.Repeated? && DecodeValue(f, Indeterminate, s).Ok?
    ensures DecodeValue(f, Indeterminate, s).value == OneValue(f, s)
  {
  }

  /** One record of an array. */
  lemma ArrayStatic(f: Field, rec: Rec, slot: Slot, n: nat)
    requires f.htype.Repeated? && n <= |Items(slot)|
    requires var p := DecodeStatic(f, rec.wireType, slot, n, rec.value); p.Ok? && p.rest == []
    ensures var p, vs := DecodeStatic(f, rec.wireType, slot, n, rec.value).value, ValuesOf(f, rec);
            p == (Many(Placed(Items(slot), n, vs)), n + |vs|) && (vs != [] ==> n + |vs| <= f.arraySize)
  {
    if ReadsPacked(f, rec.wireType) {
      PackedIsElements(f, Items(slot), n, Delimited(rec.value).value);
    } else {
      ItemValue(f, rec.value);
      PlacedOne(Items(slot), n, OneValue(f, rec.value));
    }
  }

  predicate CountedArray(f: Field) {
    f.htype.Repeated? && f.sizeOffset != 0
  }

  lemma PlacedLast(items: seq<Value>, vs: seq<Value>)
    ensures Placed(items, |items|, vs) == items + vs
  {
  }

  lemma CountedStep(fields: seq<Field>, st: State, s: seq<Byte>, i: nat)
    requires i < |fields| && CountedArray(fields[i]) && FindTag(fields, fields[i].tag) == Some(i)
    requires s != [] && DecodeRecord(fields, st, s).Next? && DecodeTag(s).Tag?
    requires FirstRec(fields, st, s).number == fields[i].tag
    ensures At(fields, i, DecodeRecord(fields, st, s).st)
         == Many(Items(At(fields, i, st)) + ValuesOf(fields[i], FirstRec(fields, st, s)))
  {
    FirstStep(fields, st, s);
    var f, rec, slot := fields[i], FirstRec(fields, st, s), At(fields, i, st);
    ArrayStatic(f, rec, slot, |Items(slot)|);
    PlacedLast(Items(slot), ValuesOf(f, rec));
  }

  lemma Associative<T>(a: seq<T>, b: seq<T>, c: seq<T>)
    ensures a + (b + c) == (a + b) + c
  {
  }

  lemma AllValuesCons(f: Field, rec: Rec, rs: seq<Rec>)
    ensures AllValues(f, [rec] + rs) == ValuesOf(f, rec) + AllValues(f, rs)
  {
    assert ([rec] + rs)[1..] == rs;
  }

  /** An array with a count has collected the values of its records, packed or not. */
  lemma {:induction false} ArraysCollect(fields: seq<Field>, st: State, s: seq<Byte>, i: nat)
    requires Apart(fields) && i < |fields| && CountedArray(fields[i]) && FindTag(fields, fields[i].tag) == Some(i)
    requires DecodeRecords(fields, st, s).Done? && At(fields, i, st).Many?
    ensures var vs := AllValues(fields[i], With(fields[i].tag, Read(fields, st, s)));
            At(fields, i, DecodeRecords(fields, st, s).st) == Many(At(fields, i, st).items + vs)
    decreases |s|
  {
    var f, items := fields[i], At(fields, i, st).items;
    if s != [] && DecodeRecord(fields, st, s).Next? {
      var r := DecodeRecord(fields, st, s);
      NextHasTag(fields, st, s);
      var rec, more := FirstRec(fields, st, s), With(f.tag, Read(fields, r.st, r.rest));
      ReadStep(fields, st, s, f.tag);
      if rec.number != f.tag {
        OtherStep(fields, st, s, i);
        assert [] + more == more;
      } else {
        CountedStep(fields, st, s, i);
        AllValuesCons(f, rec, more);
        Associative(items, ValuesOf(f, rec), AllValues(f, more));
      }
      ArraysCollect(fields, r.st, r.rest, i);
    } else {
      if s != [] {
        StopReadsNothing(fields, st, s);
      }
      assert items + [] == items;
    }
  }

  // ---------------------------------------------------- arrays without a count

  function LastOf<T>(n: nat, s: seq<T>): seq<T>
    requires n <= |s|
  {
    s[|s| - n..]
  }

  /** How many places of array i have been written since it was begun. */
  function Filled(i: nat, st: State): nat {
    if st.fixedAt == Some(i) then st.fixedCount else 0
  }

  ghost predicate FixedAtI(fields: seq<Field>, i: nat, st: State) {
    && i < |fields| && FixedCount(fields[i]) && At(fields, i, st).Many?
       && |At(fields, i, st).items| == fields[i].arraySize
    && Filled(i, st) <= fields[i].arraySize && FindTag(fields, fields[i].tag) == Some(i)
  }

  lemma FixedStep(fields: seq<Field>, st: State, s: seq<Byte>, i: nat)
    requires FixedAtI(fields, i, st)
    requires s != [] && DecodeRecord(fields, st, s).Next? && DecodeTag(s).Tag?
    requires FirstRec(fields, st, s).number == fields[i].tag
    ensures var n, vs, st' := Filled(i, st), ValuesOf(fields[i], FirstRec(fields, st, s)),
            DecodeRecord(fields, st, s).st;
            && n + |vs| <= fields[i].arraySize && FixedAtI(fields, i, st') && Filled(i, st') == n + |vs|
            && At(fields, i, st').items[..n + |vs|] == At(fields, i, st).items[..n] + vs
            && st'.fixedAt == Some(i) && (st.fixedAt == Some(i) || FixedDone(fields, st))
  {
    FirstStep(fields, st, s);
    ArrayStatic(fields[i], FirstRec(fields, st, s), At(fields, i, st), Filled(i, st));
  }

  lemma OtherFixedStep(fields: seq<Field>, st: State, s: seq<Byte>, i: nat)
    requires Apart(fields) && FixedAtI(fields, i, st)
    requires s != [] && DecodeRecord(fields, st, s).Next? && DecodeTag(s).Tag?
    requires FirstRec(fields, st, s).number != fields[i].tag
    ensures var st' := DecodeRecord(fields, st, s).st;
            && At(fields, i, st') == At(fields, i, st) && FixedAtI(fields, i, st')
            && (st'.fixedAt == Some(i) ==> st.fixedAt == Some(i) && st'.fixedCount == st.fixedCount)
            && (st.fixedAt == Some(i) && st'.fixedAt != Some(i) ==> st.fixedCount == fields[i].arraySize)
  {
    FirstStep(fields, st, s);
    OtherStep(fields, st, s, i);
  }

  /** What array i of n places holds after the values vs: the last n of all that was written. */
  predicate Holding(items: seq<Value>, n: nat, before: seq<Value>, vs: seq<Value>) {
    |before| + |vs| >= n && items == LastOf(n, before + vs)
  }

  lemma HoldingMore(items: seq<Value>, n: nat, before: seq<Value>, later: seq<Value>, vs: seq<Value>,
                    more: seq<Value>)
    requires later == before + vs && Holding(items, n, later, more)
    ensures Holding(items, n, before, vs + more)
  {
    Associative(before, vs, more);
  }

  lemma AllFilled(n: nat, items: seq<Value>)
    requires |items| == n
    ensures Holding(items, n, items[..n], [])
  {
    assert items[..n] == items && items + [] == items;
  }

  lemma FilledBefore(after: seq<Value>, f: Field, items: seq<Value>, rs: seq<Rec>)
    requires |items| == f.arraySize
    requires if rs == [] then after == items else Holding(after, f.arraySize, [], AllValues(f, rs))
    ensures Holding(after, f.arraySize, items, AllValues(f, rs))
  {
    var vs := AllValues(f, rs);
    if rs == [] {
      AllFilled(f.arraySize, items);
      assert items[..f.arraySize] == items;
    } else {
      assert [] + vs == vs;
      LastOfLonger(f.arraySize, items, vs);
    }
  }

  lemma LastOfLonger(n: nat, a: seq<Value>, b: seq<Value>)
    requires n <= |b|
    ensures LastOf(n, a + b) == LastOf(n, b)
  {
  }

  /** What array i of a fixed number of places holds after more records: as before without any; otherwise
      what was written last, and each of its places has been written. */
  ghost predicate Fills(fields: seq<Field>, i: nat, st: State, rs: seq<Rec>, after: Slot)
    requires FixedAtI(fields, i, st)
  {
    var before := At(fields, i, st).items;
    if st.fixedAt != Some(i) && rs == [] then after == Many(before)
    else after.Many? && Holding(after.items, fields[i].arraySize, before[..Filled(i, st)], AllValues(fields[i], rs))
  }

  lemma FillsOther(fields: seq<Field>, st: State, s: seq<Byte>, i: nat, rs: seq<Rec>, after: Slot)
    requires Apart(fields) && FixedAtI(fields, i, st)
    requires s != [] && DecodeRecord(fields, st, s).Next? && DecodeTag(s).Tag?
    requires FirstRec(fields, st, s).number != fields[i].tag
    requires FixedAtI(fields, i, DecodeRecord(fields, st, s).st)
             && Fills(fields, i, DecodeRecord(fields, st, s).st, rs, after)
    ensures Fills(fields, i, st, rs, after)
  {
    var f, items, st' := fields[i], At(fields, i, st).items, DecodeRecord(fields, st, s).st;
    OtherFixedStep(fields, st, s, i);
    if st.fixedAt == Some(i) && st'.fixedAt != Some(i) {
      assert items[..f.arraySize] == items && items[..0] == [];
      FilledBefore(after.items, f, items, rs);
    }
  }

  lemma FillsOwn(fields: seq<Field>, st: State, s: seq<Byte>, i: nat, rs: seq<Rec>, after: Slot)
    requires FixedAtI(fields, i, st)
    requires s != [] && DecodeRecord(fields, st, s).Next? && DecodeTag(s).Tag?
    requires FirstRec(fields, st, s).number == fields[i].tag
    requires FixedAtI(fields, i, DecodeRecord(fields, st, s).st)
             && Fills(fields, i, DecodeRecord(fields, st, s).st, rs, after)
    ensures Fills(fields, i, st, [FirstRec(fields, st, s)] + rs, after)
  {
    var f, rec := fields[i], FirstRec(fields, st, s);
    FixedStep(fields, st, s, i);
    AllValuesCons(f, rec, rs);
    HoldingMore(after.items, f.arraySize, At(fields, i, st).items[..Filled(i, st)],
                At(fields, i, DecodeRecord(fields, st, s).st).items[..Filled(i, DecodeRecord(fields, st, s).st)],
                ValuesOf(f, rec), AllValues(f, rs));
  }

  /** An array of a fixed number of places holds the values that were written last, and each of its places
      has been written, if there was any record of it. */
  lemma {:induction false} FixedArraysFill(fields: seq<Field>, st: State, s: seq<Byte>, i: nat)
    requires Apart(fields) && FixedAtI(fields, i, st)
    requires var r := DecodeRecords(fields, st, s); r.Done? && FixedDone(fields, r.st)
    ensures Fills(fields, i, st, With(fields[i].tag, Read(fields, st, s)),
                  At(fields, i, DecodeRecords(fields, st, s).st))
    decreases |s|
  {
    if s != [] && DecodeRecord(fields, st, s).Next? {
      var r, after := DecodeRecord(fields, st, s), At(fields, i, DecodeRecords(fields, st, s).st);
      NextHasTag(fields, st, s);
      ReadStep(fields, st, s, fields[i].tag);
      var rec, more := FirstRec(fields, st, s), With(fields[i].tag, Read(fields, r.st, r.rest));
      if rec.number != fields[i].tag {
        OtherFixedStep(fields, st, s, i);
        FixedArraysFill(fields, r.st, r.rest, i);
        FillsOther(fields, st, s, i, more, after);
        assert [] + more == more;
      } else {
        FixedStep(fields, st, s, i);
        FixedArraysFill(fields, r.st, r.rest, i);
        FillsOwn(fields, st, s, i, more, after);
      }
    } else {
      if s != [] {
        StopReadsNothing(fields, st, s);
      }
      AllFilled(fields[i].arraySize, At(fields, i, st).items);
    }
  }

  // ------------------------------------------------------------ submessages

  /** The bytes of a submessage. */
  function Body(rec: Rec): seq<Byte> {
    match Delimited(rec.value) case Fail => [] case Ok(body, _) => body
  }

  /** A submessage after the records that were decoded into it, one after the other. */
  function Fed(fields: seq<Field>, m: Msg, rs: seq<Rec>): Msg
    decreases |rs|
  {
    if rs == [] then m
    else match DecodeNoinit(fields, Body(rs[0]), m) case Fail => m case Ok(m', _) => Fed(fields, m', rs[1..])
  }

  predicate SingleMessage(f: Field) {
    (f.htype.Required? || f.htype.Optional?) && f.ltype.LSubmessage? && f.atype.Static?
  }

  lemma MessageStep(fields: seq<Field>, st: State, s: seq<Byte>, i: nat)
    requires i < |fields| && SingleMessage(fields[i]) && FindTag(fields, fields[i].tag) == Some(i)
    requires s != [] && DecodeRecord(fields, st, s).Next? && DecodeTag(s).Tag?
    requires FirstRec(fields, st, s).number == fields[i].tag
    ensures var f, rec := fields[i], FirstRec(fields, st, s);
            var p := DecodeNoinit(f.sub, Body(rec), Struct(Current(At(fields, i, st))));
            p.Ok? && Holds(f, At(fields, i, DecodeRecord(fields, st, s).st), MsgV(p.value))
  {
    FirstStep(fields, st, s);
  }

  lemma FedCons(fields: seq<Field>, m: Msg, rec: Rec, rs: seq<Rec>)
    requires DecodeNoinit(fields, Body(rec), m).Ok?
    ensures Fed(fields, m, [rec] + rs) == Fed(fields, DecodeNoinit(fields, Body(rec), m).value, rs)
  {
    assert ([rec] + rs)[1..] == rs;
  }

  /** A single submessage takes in all its records, each on top of what it holds. */
  lemma {:induction false} SubmessagesMerge(fields: seq<Field>, st: State, s: seq<Byte>, i: nat)
    requires Apart(fields) && i < |fields| && SingleMessage(fields[i]) && FindTag(fields, fields[i].tag) == Some(i)
    requires DecodeRecords(fields, st, s).Done?
    ensures var rs := With(fields[i].tag, Read(fields, st, s)); var slot := At(fields, i,
            DecodeRecords(fields, st, s).st);
            if rs == [] then slot == At(fields, i, st)
            else Holds(fields[i], slot, MsgV(Fed(fields[i].sub, Struct(Current(At(fields, i, st))), rs)))
    decreases |s|
  {
    if s != [] && DecodeRecord(fields, st, s).Next? {
      var f, r := fields[i], DecodeRecord(fields, st, s);
      NextHasTag(fields, st, s);
      var rec, more := FirstRec(fields, st, s), With(f.tag, Read(fields, r.st, r.rest));
      ReadStep(fields, st, s, f.tag);
      SubmessagesMerge(fields, r.st, r.rest, i);
      if rec.number != f.tag {
        OtherStep(fields, st, s, i);
        assert [] + more == more;
      } else {
        MessageStep(fields, st, s, i);
        FedCons(f.sub, Struct(Current(At(fields, i, st))), rec, more);
      }
    } else if s != [] {
      StopReadsNothing(fields, st, s);
    }
  }

  // ----------------------------------------------------------------- unions

  /** The last record of a member of the union at a data offset. */
  function LastAt(fields: seq<Field>, key: nat, rs: seq<Rec>): Option<Rec> {
    if rs == [] then None
    else
      match LastAt(fields, key, rs[1..])
      case Some(rec) => Some(rec)
      case None =>
        match FindTag(fields, rs[0].number)
        case Some(j) => if Offset(fields, j) == key then Some(rs[0]) else None
        case None => None
  }

  lemma UnionStep(fields: seq<Field>, st: State, s: seq<Byte>, i: nat)
    requires Apart(fields) && i < |fields| && fields[i].htype.Oneof?
    requires s != [] && DecodeRecord(fields, st, s).Next? && DecodeTag(s).Tag?
    ensures var rec, slot := FirstRec(fields, st, s), At(fields, i, DecodeRecord(fields, st, s).st);
            var j := FindTag(fields, rec.number);
            if j.Some? && Offset(fields, j.value) == Offset(fields, i) then
              slot == OneOf(fields[j.value].tag, OneValue(fields[j.value], rec.value))
            else slot == At(fields, i, st)
  {
    FirstStep(fields, st, s);
    var rec := FirstRec(fields, st, s);
    match FindTag(fields, rec.number) {
      case None =>
      case Some(j) =>
        if Shares(fields, j, i) {
          assert fields[j].htype.Oneof?;
          UnionValue(fields[j], rec, At(fields, j, st), CountBefore(fields, j, st));
        }
    }
  }

  /** A member of a union starts from defaults, whatever was in the union before. */
  lemma UnionValue(f: Field, rec: Rec, slot: Slot, n: nat)
    requires f.htype.Oneof? && DecodeStatic(f, rec.wireType, slot, n, rec.value).Ok?
    ensures DecodeStatic(f, rec.wireType, slot, n, rec.value).value.0 == OneOf(f.tag, OneValue(f, rec.value))
    ensures f.ltype.LSubmessage? ==> DecodeMessage(f.sub, Body(rec)).Ok?
                                     && OneValue(f, rec.value) == MsgV(DecodeMessage(f.sub, Body(rec)).value)
  {
  }

  /** A union holds the last one of its members that was read, and nothing of the others. */
  lemma {:induction false} LastMemberWins(fields: seq<Field>, st: State, s: seq<Byte>, i: nat)
    requires Apart(fields) && i < |fields| && fields[i].htype.Oneof? && DecodeRecords(fields, st, s).Done?
    ensures var rec := LastAt(fields, Offset(fields, i), Read(fields, st, s));
            var slot := At(fields, i, DecodeRecords(fields, st, s).st);
            if rec.None? then slot == At(fields, i, st)
            else
              FindTag(fields, rec.value.number).Some?
              && var f := fields[FindTag(fields, rec.value.number).value];
              slot == OneOf(f.tag, OneValue(f, rec.value.value))
    decreases |s|
  {
    if s != [] && DecodeRecord(fields, st, s).Next? {
      var r := DecodeRecord(fields, st, s);
      NextHasTag(fields, st, s);
      UnionStep(fields, st, s, i);
      assert Read(fields, st, s)[1..] == Read(fields, r.st, r.rest);
      LastMemberWins(fields, r.st, r.rest, i);
    } else if s != [] {
      StopReadsNothing(fields, st, s);
    }
  }

  // --------------------------------------------------------------- defaults

  /** A member that nothing has been written to: not present, and its value the declared one, or zero,
      false or empty; and so in a submessage. */
  ghost predicate Pristine(f: Field, slot: Slot)
    decreases f, 1
  {
    match f.htype
    case Required => slot.Plain? && PristineValue(f, slot.v)
    case Optional =>
      if f.sizeOffset != 0 then slot.Flagged? && !slot.has && PristineValue(f, slot.v)
      else slot.Plain? && PristineValue(f, slot.v)
    case Repeated =>
      && slot.Many?
      && if f.sizeOffset != 0 then slot.items == []
         else |slot.items| == f.arraySize && forall k :: 0 <= k < |slot.items| ==> slot.items[k] == Indeterminate
    case Oneof => slot == NoneOf
  }

  ghost predicate PristineValue(f: Field, v: Value)
    decreases f, 0
  {
    if f.ltype.LSubmessage? then v.MsgV? && PristineMsg(f.sub, v.slots)
    else if f.init.Some? then v == f.init.value
    else
      match f.ltype
      case LBool => v == BoolV(false)
      case LBytes => v == BytesV([])
      case LString => v == BytesV([])
      case LFixedLengthBytes => v.BytesV? && |v.data| == f.dataSize && forall k :: 0 <= k < |v.data| ==> v.data[k] == 0
      case _ => v == IntV(0)
  }

  ghost predicate PristineMsg(fields: seq<Field>, m: Msg)
    decreases fields, 2
  {
    && m.Keys == Keys(fields, |fields|)
    && forall i {:trigger fields[i]} :: 0 <= i < |fields| ==> Pristine(fields[i], SlotAt(m, Offset(fields, i)))
  }

  /** That is what `pb_message_set_to_defaults` leaves. */
  lemma {:induction false} DefaultsArePristine(fields: seq<Field>)
    requires WfSchema(fields)
    ensures PristineMsg(fields, DefaultMsg(fields))
    decreases fields, 2
  {
    OffsetsApart(fields);
    forall i | 0 <= i < |fields|
      ensures Pristine(fields[i], SlotAt(DefaultMsg(fields), Offset(fields, i)))
    {
      DefaultsAt(fields, |fields|, i);
      assert WfField(fields[i]);
      DefaultIsPristine(fields[i]);
    }
  }

  lemma {:induction false} DefaultIsPristine(f: Field)
    requires WfField(f)
    ensures Pristine(f, DefaultSlot(f)) && PristineValue(f, DefaultValue(f))
    decreases f, 1
  {
    if f.ltype.LSubmessage? {
      DefaultsArePristine(f.sub);
    }
    ZerosAre(f.dataSize);
    UndefinedAll(f.arraySize);
  }

  // ---------------------------------------------------------------- results

  /** What a member holds at the end, from the records of its field and what it held before. */
  ghost predicate Explained(fields: seq<Field>, i: nat, before: Slot, rs: seq<Rec>, slot: Slot)
    requires i < |fields|
  {
    var f := fields[i];
    var own := With(f.tag, rs);
    match f.htype
    case Oneof =>
      (match LastAt(fields, Offset(fields, i), rs)
       case None => slot == before
       case Some(rec) =>
         var j := FindTag(fields, rec.number);
         j.Some? && slot == OneOf(rec.number, OneValue(fields[j.value], rec.value)))
    case Repeated =>
      && before.Many?
      && if f.sizeOffset != 0 then slot == Many(before.items + AllValues(f, own))
         else if own == [] then slot == before
         else |AllValues(f, own)| >= f.arraySize && slot == Many(LastOf(f.arraySize, AllValues(f, own)))
    case _ =>
      if own == [] then slot == before
      else if f.ltype.LSubmessage? then Holds(f, slot, MsgV(Fed(f.sub, Struct(Current(before)), own)))
      else DecodeScalar(f, Newest(own).value).Ok? && Holds(f, slot, DecodeScalar(f, Newest(own).value).value)
  }

  /** `pb_decode_noinit` on any bytes: what every member of the struct holds then. */
  lemma DecodingExplained(fields: seq<Field>, s: seq<Byte>, m: Msg, i: nat)
    requires WfSchema(fields) && TypedMsg(fields, m) && DecodeNoinit(fields, s, m).Ok? && i < |fields|
    ensures Explained(fields, i, SlotAt(m, Offset(fields, i)), Read(fields, Start(m), s),
                      SlotAt(DecodeNoinit(fields, s, m).value, Offset(fields, i)))
  {
    OffsetsApart(fields);
    WfFound(fields, i);
    var f, st := fields[i], Start(m);
    assert WfField(f) && TypedSlot(f, At(fields, i, st));
    match f.htype {
      case Oneof => LastMemberWins(fields, st, s, i);
      case Repeated =>
        if f.sizeOffset != 0 {
          ArraysCollect(fields, st, s, i);
        } else {
          FixedArraysFill(fields, st, s, i);
          var vs := AllValues(f, With(f.tag, Read(fields, st, s)));
          assert At(fields, i, st).items[..0] + vs == vs;
        }
      case _ =>
        if f.ltype.LSubmessage? {
          SubmessagesMerge(fields, st, s, i);
        } else {
          LastOneWins(fields, st, s, i);
        }
    }
  }

  /** `pb_decode` on any bytes: an optional member with a `has_` flag is present exactly when a record with
      its number was read, and every member without a record is at its default. */
  lemma PresentIsRead(fields: seq<Field>, s: seq<Byte>, i: nat)
    requires WfSchema(fields) && DecodeMessage(fields, s).Ok? && i < |fields|
    ensures var f, slot := fields[i], SlotAt(DecodeMessage(fields, s).value, Offset(fields, i));
            var tags := TagsRead(fields, Start(DefaultMsg(fields)), s);
            && (f.htype.Optional? && f.sizeOffset != 0 ==> slot.Flagged? && (slot.has <==> f.tag in tags))
            && (!f.htype.Oneof? && f.tag !in tags ==> Pristine(f, slot))
            && (f.htype.Oneof? && (forall j :: 0 <= j < |fields| && Shares(fields, i, j) ==> fields[j].tag !in tags)
                ==> slot == NoneOf)
  {
    var m, f := DefaultMsg(fields), fields[i];
    var rs := Read(fields, Start(m), s);
    DefaultMsgTyped(fields);
    DefaultsArePristine(fields);
    OffsetsApart(fields);
    WfFound(fields, i);
    NumbersRead(fields, Start(m), s);
    WithSome(f.tag, rs);
    DecodingExplained(fields, s, m, i);
    assert Pristine(f, SlotAt(m, Offset(fields, i)));
    if f.htype.Oneof? && LastAt(fields, Offset(fields, i), rs).Some? {
      var j := LastIsRead(fields, Offset(fields, i), rs);
      assert Shares(fields, i, j);
    }
    if CountedArray(f) && With(f.tag, rs) == [] {
      assert SlotAt(m, Offset(fields, i)).items + [] == SlotAt(m, Offset(fields, i)).items;
    }
  }

  lemma {:induction false} LastIsRead(fields: seq<Field>, key: nat, rs: seq<Rec>) returns (j: nat)
    requires LastAt(fields, key, rs).Some?
    ensures j < |fields| && Offset(fields, j) == key && fields[j].tag in Numbers(rs)
  {
    if LastAt(fields, key, rs[1..]).Some? {
      j := LastIsRead(fields, key, rs[1..]);
    } else {
      j := FindTag(fields, rs[0].number).value;
    }
  }

  // ------------------------------------------------- submessages in pieces

  /** A record of submessage field f. */
  function MessageRecord(f: Field, body: seq<Byte>): seq<Byte> {
    EncodeTag(f.tag, WT_STRING) + (EncodeVarint(|body|) + body)
  }

  /** The decoder once the member holds m. */
  function WithMember(fields: seq<Field>, i: nat, st: State, m: Msg): State
    requires i < |fields|
  {
    var f := fields[i];
    var slot := if f.htype.Optional? && f.sizeOffset != 0 then Flagged(true, MsgV(m)) else Plain(MsgV(m));
    State(st.msg[Offset(fields, i) := slot], See(fields, i, st.seen), st.fixedAt, st.fixedCount)
  }

  /** One record is decoded into what the member holds. */
  lemma MessageEffect(fields: seq<Field>, i: nat, st: State, body: seq<Byte>, t: seq<Byte>)
    requires Found(fields, i) && SingleMessage(fields[i]) && |body| < TWO32
    ensures var p := DecodeNoinit(fields[i].sub, body, Struct(Current(At(fields, i, st))));
            DecodeRecords(fields, st, MessageRecord(fields[i], body) + t)
            == if p.Ok? then DecodeRecords(fields, WithMember(fields, i, st, p.value), t) else Failed
  {
    var f, s := fields[i], EncodeVarint(|body|) + (body + t);
    assert MessageRecord(f, body) + t == EncodeTag(f.tag, WT_STRING) + s;
    DelimitedRoundTrip(body, t);
    KnownThen(fields, i, WT_STRING, st, s);
    MessageValue(f, At(fields, i, st), CountBefore(fields, i, st), s, body, t);
  }

  lemma MessageValue(f: Field, slot: Slot, n: nat, s: seq<Byte>, body: seq<Byte>, t: seq<Byte>)
    requires SingleMessage(f) && Delimited(s) == Ok(body, t)
    ensures var p := DecodeNoinit(f.sub, body, Struct(Current(slot)));
            var q := DecodeStatic(f, WT_STRING, slot, n, s);
            if p.Ok? then q.Ok? && q.rest == t && q.value.1 == n && Holds(f, q.value.0, MsgV(p.value)) else q.Fail?
  {
  }

  lemma WithMemberTwice(fields: seq<Field>, i: nat, st: State, a: Msg, b: Msg)
    requires i < |fields|
    ensures WithMember(fields, i, WithMember(fields, i, st, a), b) == WithMember(fields, i, st, b)
    ensures Struct(Current(At(fields, i, WithMember(fields, i, st, a)))) == a
  {
  }

  /** The law of embedded messages. A submessage sent in two records, a and then b, is the submessage
      with the bytes a + b, whatever the member held before and whatever follows; except in the one situation
      in which a + b is refused, that the last fixed-count array in a is the first one in b. */
  lemma SubmessageInPieces(fields: seq<Field>, i: nat, st: State, a: seq<Byte>, b: seq<Byte>, t: seq<Byte>)
    requires WfSchema(fields) && i < |fields| && SingleMessage(fields[i]) && |a + b| < TWO32
    requires var m := Struct(Current(At(fields, i, st)));
             && DecodeNoinit(fields[i].sub, a, m).Ok? && !DecodeRecords(fields[i].sub, Start(m), a).zero
             && DecodeNoinit(fields[i].sub, b, DecodeNoinit(fields[i].sub, a, m).value).Ok?
    ensures var f, m := fields[i], Struct(Current(At(fields, i, st)));
            var last := LastArray(f.sub, TagsRead(f.sub, Start(m), a));
            var first := FirstArray(f.sub, TagsRead(f.sub, Start(DecodeNoinit(f.sub, a, m).value), b));
            DecodeRecords(fields, st, MessageRecord(f, a + b) + t)
            == if last.Some? && first == last then Failed
               else DecodeRecords(fields, st, MessageRecord(f, a) + (MessageRecord(f, b) + t))
  {
    var f, m := fields[i], Struct(Current(At(fields, i, st)));
    assert WfField(f);
    WfFound(fields, i);
    MergeExact(f.sub, a, b, m);
    MessageEffect(fields, i, st, a + b, t);
    MessageEffect(fields, i, st, a, MessageRecord(f, b) + t);
    var after := DecodeNoinit(f.sub, a, m).value;
    MessageEffect(fields, i, WithMember(fields, i, st, after), b, t);
    WithMemberTwice(fields, i, st, after, DecodeNoinit(f.sub, b, after).value);
  }

  /** Behind a pointer it is not: there the second record replaces the first, whatever both are. */
  lemma PointerReplaced(fields: seq<Field>, i: nat, st: State, a: seq<Byte>, b: seq<Byte>, t: seq<Byte>)
    requires Found(fields, i) && Renewed(fields[i]) && (fields[i].htype.Required? || fields[i].htype.Optional?)
    requires |a| < TWO32 && |b| < TWO32 && DecodeMessage(fields[i].sub, a).Ok?
    ensures DecodeRecords(fields, st, MessageRecord(fields[i], a) + (MessageRecord(fields[i], b) + t))
         == DecodeRecords(fields, st, MessageRecord(fields[i], b) + t)
  {
    var f := fields[i];
    var p, q := DecodeMessage(f.sub, a), DecodeMessage(f.sub, b);
    RenewedEffect(fields, i, st, a, MessageRecord(f, b) + t);
    RenewedEffect(fields, i, WithMember(fields, i, st, p.value), b, t);
    RenewedEffect(fields, i, st, b, t);
    if q.Ok? {
      WithMemberTwice(fields, i, st, p.value, q.value);
    }
  }

  lemma RenewedEffect(fields: seq<Field>, i: nat, st: State, body: seq<Byte>, t: seq<Byte>)
    requires Found(fields, i) && Renewed(fields[i]) && (fields[i].htype.Required? || fields[i].htype.Optional?)
    requires |body| < TWO32
    ensures var p := DecodeMessage(fields[i].sub, body);
            DecodeRecords(fields, st, MessageRecord(fields[i], body) + t)
            == if p.Ok? then DecodeRecords(fields, WithMember(fields, i, st, p.value), t) else Failed
  {
    var f, s := fields[i], EncodeVarint(|body|) + (body + t);
    assert MessageRecord(f, body) + t == EncodeTag(f.tag, WT_STRING) + s;
    DelimitedRoundTrip(body, t);
    KnownThen(fields, i, WT_STRING, st, s);
    RenewedValue(f, At(fields, i, st), CountBefore(fields, i, st), s, body, t);
  }

  lemma RenewedValue(f: Field, slot: Slot, n: nat, s: seq<Byte>, body: seq<Byte>, t: seq<Byte>)
    requires Renewed(f) && (f.htype.Required? || f.htype.Optional?) && Delimited(s) == Ok(body, t)
    ensures var p := DecodeMessage(f.sub, body);
            var q := DecodeStatic(f, WT_STRING, slot, n, s);
            if p.Ok? then q.Ok? && q.rest == t && q.value.1 == n && Holds(f, q.value.0, MsgV(p.value)) else q.Fail?
  {
  }
}
