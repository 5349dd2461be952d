/**
 Inputs at which `pb_decode` does not leave the heap as it should: a block that
 is lost although decoding succeeds, and a stale pointer that is freed.
 */
module HeapWitnesses {
  import opened Wire
  import opened Varint
  import opened Schema
  import opened Blocks
  import opened Storage
  import opened HeapDecode
  import opened Shapes
  import opened HeapLaws
  import Decode

  // -------------------------------------------------------- stale pointers

  /** A counted array of submessages in place. */
  predicate CountedArray(f: Field) {
    f.atype.Static? && f.ltype.LSubmessage? && f.htype.Repeated? && !FixedCount(f)
  }

  /** After any records that decode, the key of a counted array of submessages in place and then the
      end of the data: the next element is counted, but not set to its defaults, and the release of
      the struct frees what it points to, together with everything else in use. */
  lemma UnreadAfter(fields: seq<Field>, i: nat, wireType: nat, cs: seq<Cell>, s: seq<Byte>, h: Heap, st: Memory,
                    t: seq<Byte>)
    requires Before(fields, cs) && Blank(h) && i < |fields| && CountedArray(fields[i])
    requires RecordsInto(fields, Memory(DefaultCells(fields, cs), {}, None, 0, h), s) == RecordsInto(fields, st, t)
    requires SoundAll(fields, st.cs, true) && st.cs[i].Array? && st.cs[i].count < fields[i].arraySize
    requires DecodeTag(t) == Tag(fields[i].tag, wireType, [])
    ensures st.cs[i].spare != []
    ensures var r, next := MessageInto(fields, cs, s, h), st.cs[i].spare[0];
            && !r.ok && r.h.lost == st.h.lost
            && r.h.stolen == st.h.stolen + (Own(st.cs, false) + OwnCell(next, false))
            && r.h.wrecked == (st.h.wrecked || AnyWild(st.cs) || HasWild(next))
            && (Untouched(h, r.h) <==> !r.h.wrecked && r.h.stolen == r.h.lost)
  {
    var f, c := fields[i], st.cs[i];
    assert HeapField(f) && Sound(f, c, true) && SoundArray(f, c);
    DefaultsSound(fields, cs, true);
    assert Forgotten(fields, cs) == multiset{};
    assert h.(lost := h.lost + Forgotten(fields, cs)) == h;
    KeyOnly(fields, i, wireType, st, t);
    CountedOwn(f, c);
    OwnUpdate(st.cs, i, CountNext(f, c), false);
    OwnSplit(st.cs, i, false);
    WildUpdate(st.cs, i, CountNext(f, c));
    WildSplit(st.cs, i);
    var ds := st.cs[i := CountNext(f, c)];
    assert NoinitInto(fields, DefaultCells(fields, cs), s, h) == Outs(false, ds, [], st.h);
    assert MessageInto(fields, cs, s, h).h == ReleasedAll(st.h, ds);
    UntouchedExactly(fields, cs, s, h);
  }

  lemma CountedOwn(f: Field, c: Cell)
    requires CountedArray(f) && c.Array? && c.count < f.arraySize && c.spare != []
    ensures OwnCell(CountNext(f, c), false) == OwnCell(c, false) + OwnCell(c.spare[0], false)
    ensures HasWild(CountNext(f, c)) == (HasWild(c) || HasWild(c.spare[0]))
  {
    OwnMore(c.items, c.spare[0], false);
    WildMore(c.items, c.spare[0]);
  }

  lemma KeyOnly(fields: seq<Field>, i: nat, wireType: nat, st: Memory, t: seq<Byte>)
    requires DistinctTags(fields) && i < |fields| == |st.cs| && CountedArray(fields[i])
    requires st.cs[i].Array? && st.cs[i].count == |st.cs[i].items| < fields[i].arraySize && st.cs[i].spare != []
    requires DecodeTag(t) == Tag(fields[i].tag, wireType, [])
    ensures RecordsInto(fields, st, t).Failed?
    ensures var st' := RecordsInto(fields, st, t).st;
            st'.cs == st.cs[i := CountNext(fields[i], st.cs[i])] && st'.h == st.h
  {
    FindTagUnique(fields, i);
    KeyKnown(fields, i, wireType, st);
    assert RecordInto(fields, st, t) == KnownInto(fields, i, wireType, st, []);
  }

  lemma KeyKnown(fields: seq<Field>, i: nat, wireType: nat, st: Memory)
    requires i < |fields| == |st.cs| && CountedArray(fields[i])
    requires st.cs[i].Array? && st.cs[i].count == |st.cs[i].items| < fields[i].arraySize && st.cs[i].spare != []
    ensures var r := KnownInto(fields, i, wireType, st, []);
            r.Stuck? && r.st.cs == st.cs[i := CountNext(fields[i], st.cs[i])] && r.st.h == st.h
  {
    var c, d := st.cs[i], CountNext(fields[i], st.cs[i]);
    var item := ItemAt(d, c.count);
    assert d.items[c.count := item] == d.items;
    assert PutItem(d, c.count, item) == d;
    assert StructInto(fields[i].sub, true, item, [], st.h) == Out(false, item, [], st.h);
  }

  /** In particular at the beginning: the key alone leaves the heap untouched exactly when the first
      element has no pointers from before the call, and neither have the elements of arrays of a fixed
      count, which are always released. */
  lemma UnreadElement(fields: seq<Field>, i: nat, wireType: nat, cs: seq<Cell>, s: seq<Byte>, h: Heap)
    requires Before(fields, cs) && Blank(h) && i < |fields| && CountedArray(fields[i]) && fields[i].arraySize > 0
    requires DecodeTag(s) == Tag(fields[i].tag, wireType, [])
    ensures var ds, r := DefaultCells(fields, cs), MessageInto(fields, cs, s, h);
            && ds[i].Array? && ds[i].spare != [] && !r.ok
            && (Untouched(h, r.h) <==>
                  && Own(ds, false) + OwnCell(ds[i].spare[0], false) == multiset{}
                  && !AnyWild(ds) && !HasWild(ds[i].spare[0]))
  {
    var ds := DefaultCells(fields, cs);
    DefaultsSound(fields, cs, true);
    assert HeapField(fields[i]) && Sound(fields[i], cs[i], false) && Sound(fields[i], ds[i], true);
    FirstIsNext(fields[i], cs[i]);
    assert ds[i] == DefaultCell(fields[i], cs[i]);
    UnreadAfter(fields, i, wireType, cs, s, h, Memory(ds, {}, None, 0, h), s);
  }

  lemma FirstIsNext(f: Field, c: Cell)
    requires CountedArray(f) && SoundArray(f, c) && f.arraySize > 0
    ensures var d := DefaultCell(f, c); d.Array? && d.count == 0 && d.spare != []
  {
  }

  // --------------------------------------------- any element of an array

  /** Records of n elements without any data. */
  function Empties(number: nat, n: nat): seq<Byte> {
    if n == 0 then [] else EncodeTag(number, Decode.WT_STRING) + ([0] + Empties(number, n - 1))
  }

  /** An element without data is at its defaults. */
  lemma EmptyElement(fields: seq<Field>, c: Cell, t: seq<Byte>, h: Heap)
    requires HeapSchema(fields) && SoundStruct(fields, c, false) && OwnCell(c, true) == multiset{}
    requires Decode.Checked(fields) == 0
    ensures StructInto(fields, true, c, [0] + t, h) == Out(true, Struct(DefaultCells(fields, c.members)), t, h)
  {
    ZeroLength(t);
    NoData(fields, c.members, h);
  }

  lemma ZeroLength(t: seq<Byte>)
    ensures Decode.Delimited([0] + t) == Ok([], t)
  {
    assert ([0] + t)[1..] == t;
  }

  lemma NoData(fields: seq<Field>, cs: seq<Cell>, h: Heap)
    requires Own(cs, true) == multiset{} && Decode.Checked(fields) == 0
    ensures MessageInto(fields, cs, [], h) == Outs(true, DefaultCells(fields, cs), [], h)
  {
    assert Forgotten(fields, cs) == multiset{};
    assert h.(lost := h.lost + Forgotten(fields, cs)) == h;
  }

  /** One record of this kind. */
  lemma EmptyRead(fields: seq<Field>, i: nat, st: Memory, t: seq<Byte>) returns (st': Memory)
    requires HeapSchema(fields) && SoundAll(fields, st.cs, true) && i < |fields| && CountedArray(fields[i])
    requires Decode.Checked(fields[i].sub) == 0 && st.cs[i].Array? && st.cs[i].count < fields[i].arraySize
    ensures KnownInto(fields, i, Decode.WT_STRING, st, [0] + t) == Next(st', t) && st'.h == st.h
    ensures |st'.cs| == |st.cs| && st'.cs[i].Array? && st'.cs[i].count == st.cs[i].count + 1
    ensures st.cs[i].spare != [] && st'.cs[i].spare == st.cs[i].spare[1..]
  {
    var f, c := fields[i], st.cs[i];
    assert HeapField(f) && Sound(f, c, true) && SoundArray(f, c);
    ElementThere(f, c, st.fixedCount);
    EmptySum(OwnCell(c.spare[0], true), Own(c.spare[1..], true));
    EmptyElement(f.sub, c.spare[0], t, st.h);
    var item, d := Struct(DefaultCells(f.sub, c.spare[0].members)), CountNext(f, c);
    assert d == Array(c.count + 1, c.items + [c.spare[0]], c.spare[1..]) && ItemAt(d, c.count) == c.spare[0];
    assert ElementInto(f, c, st.fixedCount, [0] + t, st.h)
        == Fielded(true, PutItem(d, c.count, item), st.fixedCount, t, st.h);
    assert !Restarts(fields, i, st);
    assert FieldInto(f, Decode.WT_STRING, c, st.fixedCount, [0] + t, st.h)
        == ElementInto(f, c, st.fixedCount, [0] + t, st.h);
    st' := Memory(st.cs[i := PutItem(d, c.count, item)], Decode.See(fields, i, st.seen), st.fixedAt, st.fixedCount,
      st.h);
  }

  lemma {:induction false} EmptiesRead(fields: seq<Field>, i: nat, st: Memory, n: nat, t: seq<Byte>)
    returns (st': Memory)
    requires HeapSchema(fields) && SoundAll(fields, st.cs, true) && i < |fields| && CountedArray(fields[i])
    requires 0 < fields[i].tag < 0x2000_0000 && Decode.Checked(fields[i].sub) == 0
    requires st.cs[i].Array? && st.cs[i].count + n <= fields[i].arraySize
    ensures RecordsInto(fields, st, Empties(fields[i].tag, n) + t) == RecordsInto(fields, st', t)
    ensures SoundAll(fields, st'.cs, true) && st'.h == st.h
    ensures st'.cs[i].Array? && st'.cs[i].count == st.cs[i].count + n
    ensures n <= |st.cs[i].spare| && st'.cs[i].spare == st.cs[i].spare[n..]
    decreases n
  {
    st' := st;
    if n == 0 {
      assert [] + t == t;
    } else {
      var key, later := EncodeTag(fields[i].tag, Decode.WT_STRING), Empties(fields[i].tag, n - 1);
      var s := Empties(fields[i].tag, n) + t;
      assert s == key + ([0] + (later + t));
      TagRoundTrip(fields[i].tag, Decode.WT_STRING, [0] + (later + t));
      FindTagUnique(fields, i);
      var next := EmptyRead(fields, i, st, later + t);
      assert RecordInto(fields, st, s) == Next(next, later + t);
      RecordSound(fields, st, s);
      st' := EmptiesRead(fields, i, next, n - 1, t);
    }
  }

  /** The same, and the key of one more. */
  function Unread(number: nat, k: nat): seq<Byte> {
    Empties(number, k) + EncodeTag(number, Decode.WT_STRING)
  }

  /** That storage must be clean. Let element k of a counted array in place have a pointer from before
      the call in use, and let such elements be allowed to have no data: the records of k of them and
      the key of one more do not leave the heap untouched, whatever the allocator does. */
  lemma StaleElement(fields: seq<Field>, cs: seq<Cell>, i: nat, k: nat, h: Heap)
    requires Before(fields, cs) && Blank(h) && i < |fields| && CountedArray(fields[i]) && k < fields[i].arraySize
    requires 0 < fields[i].tag < 0x2000_0000 && Decode.Checked(fields[i].sub) == 0
    ensures var c := DefaultCells(fields, cs)[i];
            c.Array? && k < |c.spare| && (OwnCell(c.spare[k], false) != multiset{} || HasWild(c.spare[k])
              ==> !Untouched(h, MessageInto(fields, cs, Unread(fields[i].tag, k), h).h))
  {
    var ds, f, s := DefaultCells(fields, cs), fields[i], Unread(fields[i].tag, k);
    DefaultsSound(fields, cs, true);
    assert HeapField(f) && Sound(f, cs[i], false) && Sound(f, ds[i], true);
    FirstIsNext(f, cs[i]);
    assert ds[i] == DefaultCell(f, cs[i]);
    var key := EncodeTag(f.tag, Decode.WT_STRING);
    TagRoundTrip(f.tag, Decode.WT_STRING, []);
    assert key + [] == key;
    var st := EmptiesRead(fields, i, Memory(ds, {}, None, 0, h), k, key);
    UnreadAfter(fields, i, Decode.WT_STRING, cs, s, h, st, key);
    var old', new' := Own(st.cs, false), OwnCell(ds[i].spare[k], false);
    if old' + new' == multiset{} {
      EmptySum(old', new');
    }
  }

  // ------------------------------------------------------- concrete schemas

  /** One bool behind a pointer. */
  function Holder(): seq<Field> {
    [Field(1, LBool, Optional, Pointer, 0, 0, 1, 0, [], None)]
  }

  /** An array in place of one such element, with or without a count of its own. */
  function HolderArray(sizeOffset: int): Field {
    Field(1, LSubmessage, Repeated, Static, 0, sizeOffset, POINTER_BYTES, 1, Holder(), None)
  }

  lemma HolderSchema()
    ensures HeapSchema(Holder()) && HeapField(HolderArray(0)) && HeapField(HolderArray(-1))
  {
    assert HeapField(Holder()[0]);
  }

  lemma KeyRead(number: nat, wireType: nat, t: seq<Byte>)
    requires 0 < number < 16 && wireType < 8
    ensures DecodeTag([number * 8 + wireType] + t) == Tag(number, wireType, t)
  {
    var s := [number * 8 + wireType] + t;
    assert s[1..] == t;
    assert DecodeVarint32(s) == Ok(number * 8 + wireType, t);
  }

  /** A struct whose array holds a pointer from before, and as data the single byte of the
      key. If the pointer is to a live block, this block is freed; if not, that is a fault. */
  lemma StaleFreed(id: nat, h: Heap)
    requires Blank(h)
    ensures var fields, cs := [HolderArray(-1)], [Array(0, [], [Struct([Link(Some(Block(id, false, 0, [])))])])];
            var r := MessageInto(fields, cs, [10], h);
            && Before(fields, cs) && !r.ok
            && (id in h.live ==> !r.h.fault && r.h.live == h.live - {id})
            && (id !in h.live ==> r.h.fault)
  {
    var stale := Struct([Link(Some(Block(id, false, 0, [])))]);
    var fields, cs := [HolderArray(-1)], [Array(0, [], [stale])];
    HolderSchema();
    assert HeapField(fields[0]);
    StaleStorage(id);
    KeyRead(1, 2, []);
    assert [10] + [] == [10];
    var ds := DefaultCells(fields, cs);
    assert ds == [Array(0, [], [stale])] by {
      assert ForeignAll([]) + [stale] == [stale];
    }
    var h' := h.(lost := h.lost + Forgotten(fields, cs));
    var d := CountNext(fields[0], ds[0]);
    assert d == Array(1, [stale], []) by {
      assert [] + [stale] == [stale];
    }
    KeyOnly(fields, 0, 2, Memory(ds, {}, None, 0, h'), [10]);
    assert ds[0 := d] == [d];
    StaleOwned(id);
    assert MessageInto(fields, cs, [10], h).h == Released(h', multiset{}, multiset{id}, false);
    assert multiset{id} <= multiset(h.live) <==> id in h.live;
    assert multiset{} + multiset{id} == multiset{id};
  }

  lemma StaleStorage(id: nat)
    ensures var stale := Struct([Link(Some(Block(id, false, 0, [])))]);
            && SoundAll([HolderArray(-1)], [Array(0, [], [stale])], false)
            && Own([Array(0, [], [stale])], true) == multiset{}
  {
    var p := Link(Some(Block(id, false, 0, [])));
    var stale := Struct([p]);
    assert Sound(Holder()[0], p, false);
    assert SoundAll(Holder(), [p], false);
    assert SoundStruct(Holder(), stale, false);
    OwnOne(stale, true);
    OwnOne(p, true);
    OwnOne(Array(0, [], [stale]), true);
    assert SoundArray(HolderArray(-1), Array(0, [], [stale]));
    assert Sound(HolderArray(-1), Array(0, [], [stale]), false);
  }

  lemma StaleOwned(id: nat)
    ensures var d := Array(1, [Struct([Link(Some(Block(id, false, 0, [])))])], []);
            Own([d], true) == multiset{} && Own([d], false) == multiset{id} && !AnyWild([d])
  {
    var p := Link(Some(Block(id, false, 0, [])));
    OwnOne(p, true);
    OwnOne(p, false);
    OwnOne(Struct([p]), true);
    OwnOne(Struct([p]), false);
    OwnOne(Array(1, [Struct([p])], []), true);
    OwnOne(Array(1, [Struct([p])], []), false);
    WildOne(p);
    WildOne(Struct([p]));
    WildOne(Array(1, [Struct([p])], []));
  }

  // ----------------------------------------------------------- lost blocks

  /** A fixed-count array of one element that holds a pointer, and a fixed-count array of one bool. */
  function TwoArrays(): seq<Field> {
    [HolderArray(0), Field(2, LBool, Repeated, Static, 0, 0, 1, 1, [], None)]
  }

  lemma TwoArraysSchema()
    ensures HeapSchema(TwoArrays())
  {
    HolderSchema();
    assert HeapField(TwoArrays()[0]) && HeapField(TwoArrays()[1]);
  }

  /** Storage for them, with pointer p in the element. */
  function Cells(p: Cell): seq<Cell> {
    [Array(0, [Struct([p])], []), Inline(0)]
  }

  lemma BoolRead(f: Field, t: seq<Byte>)
    requires f.ltype.LBool?
    ensures Decode.DecodeScalar(f, [1] + t) == Ok(BoolV(true), t)
  {
    assert ([1] + t)[1..] == t;
    assert DecodeVarint32([1] + t) == Ok(1, t);
  }

  /** The bool behind the pointer gets block q. */
  lemma HolderRead(h: Heap, q: nat, later: seq<Option<nat>>)
    requires h.script == [Some(q)] + later && q !in h.live
    ensures NoinitInto(Holder(), [Link(None)], [8, 1], h)
            == Outs(true, [NewBlock(q, 0, [])], [], h.(live := h.live + {q}, script := later))
  {
    var h' := h.(live := h.live + {q}, script := later);
    var f, st := Holder()[0], Memory([Link(None)], {}, None, 0, h);
    KeyRead(1, 0, [1]);
    assert [8] + [1] == [8, 1];
    BoolRead(f, []);
    assert [1] + [] == [1];
    HolderSchema();
    FindTagUnique(Holder(), 0);
    assert Moved(h, Link(None), 1, 1, 0) == (true, NewBlock(q, 0, []), h');
    assert FieldInto(f, 0, Link(None), 0, [1], h) == Fielded(true, NewBlock(q, 0, []), 0, [], h');
    assert [Link(None)][0 := NewBlock(q, 0, [])] == [NewBlock(q, 0, [])];
    var st' := Memory([NewBlock(q, 0, [])], {}, None, 0, h');
    assert RecordInto(Holder(), st, [8, 1]) == Next(st', []);
    assert RecordsInto(Holder(), st', []) == Done(st', []);
    assert RequiredBefore(Holder(), 1) == RequiredBefore(Holder(), 0);
  }

  /** The element gets block q, and what it held is lost. */
  lemma ElementRead(p: Cell, h: Heap, q: nat, later: seq<Option<nat>>, t: seq<Byte>)
    requires p.Link? && h.script == [Some(q)] + later && q !in h.live
    ensures StructInto(Holder(), true, Struct([p]), [2, 8, 1] + t, h)
            == Out(true, Struct([NewBlock(q, 0, [])]), t,
                   h.(live := h.live + {q}, script := later, lost := h.lost + OwnCell(p, true)))
  {
    var s := [2, 8, 1] + t;
    assert s[1..] == [8, 1] + t && ([8, 1] + t)[..2] == [8, 1] && ([8, 1] + t)[2..] == t;
    assert DecodeVarint32(s) == Ok(2, [8, 1] + t);
    assert Decode.Delimited(s) == Ok([8, 1], t);
    OwnOne(p, true);
    OwnOne(Link(None), true);
    assert DefaultCells(Holder(), [p]) == [Link(None)];
    assert Forgotten(Holder(), [p]) == OwnCell(p, true);
    HolderRead(h.(lost := h.lost + OwnCell(p, true)), q, later);
  }

  /** A record of the first array. */
  function WithBlock(p: Cell, st: Memory, q: nat, later: seq<Option<nat>>): Memory {
    Memory(Cells(NewBlock(q, 0, [])), st.seen, Some(0), 1,
           Begin(HolderArray(0), Cells(p)[0], st.h).(
             live := st.h.live + {q}, script := later, lost := st.h.lost + OwnCell(p, true)))
  }

  lemma ElementStep(p: Cell, h: Heap, q: nat, later: seq<Option<nat>>, t: seq<Byte>)
    requires p.Link? && h.script == [Some(q)] + later && q !in h.live
    ensures FieldInto(HolderArray(0), 2, Cells(p)[0], 0, [2, 8, 1] + t, h)
            == Fielded(true, Cells(NewBlock(q, 0, []))[0], 1, t,
                       h.(live := h.live + {q}, script := later, lost := h.lost + OwnCell(p, true)))
  {
    var f, c, s := HolderArray(0), Cells(p)[0], [2, 8, 1] + t;
    ElementRead(p, h, q, later, t);
    var r := StructInto(Holder(), true, Struct([p]), s, h);
    assert CountNext(f, c) == c && PlaceOf(f, c, 0) == 0;
    assert ItemAt(c, 0) == Struct([p]);
    assert [Struct([p])][0 := r.c] == [r.c];
    assert PutItem(c, 0, r.c) == Cells(NewBlock(q, 0, []))[0];
    assert ElementInto(f, c, 0, s, h) == Fielded(true, PutItem(c, 0, r.c), 1, t, r.h);
  }

  lemma ArrayKnown(p: Cell, st: Memory, q: nat, later: seq<Option<nat>>, t: seq<Byte>)
    requires p.Link? && st.cs == Cells(p) && st.fixedAt != Some(0) && Decode.FixedDone(TwoArrays(), Progress(st))
    requires st.h.script == [Some(q)] + later && q !in st.h.live
    ensures KnownInto(TwoArrays(), 0, 2, st, [2, 8, 1] + t) == Next(WithBlock(p, st, q, later), t)
  {
    var h := Begin(HolderArray(0), Cells(p)[0], st.h);
    ElementStep(p, h, q, later, t);
    assert st.cs[0 := Cells(NewBlock(q, 0, []))[0]] == Cells(NewBlock(q, 0, []));
    assert Decode.See(TwoArrays(), 0, st.seen) == st.seen;
  }

  lemma ArrayRead(p: Cell, st: Memory, q: nat, later: seq<Option<nat>>, t: seq<Byte>)
    requires p.Link? && st.cs == Cells(p) && st.fixedAt != Some(0) && Decode.FixedDone(TwoArrays(), Progress(st))
    requires st.h.script == [Some(q)] + later && q !in st.h.live
    ensures RecordInto(TwoArrays(), st, [10, 2, 8, 1] + t) == Next(WithBlock(p, st, q, later), t)
  {
    var s := [2, 8, 1] + t;
    ArrayKnown(p, st, q, later, t);
    KeyRead(1, 2, s);
    assert [10] + s == [10, 2, 8, 1] + t;
    TwoArraysSchema();
    FindTagUnique(TwoArrays(), 0);
  }

  /** A record of the second array. */
  lemma FlagKnown(p: Cell, st: Memory, t: seq<Byte>)
    requires st.cs == Cells(p) && st.fixedAt == Some(0) && st.fixedCount == 1
    ensures KnownInto(TwoArrays(), 1, 0, st, [1] + t) == Next(st.(fixedAt := Some(1), fixedCount := 1), t)
  {
    var f := TwoArrays()[1];
    BoolRead(f, t);
    assert PlainItems(f, 0, 0, [1] + t) == Placed(true, 1, t);
    assert FieldInto(f, 0, Inline(0), 0, [1] + t, st.h) == Fielded(true, Inline(0), 1, t, st.h);
    assert Decode.FixedDone(TwoArrays(), Progress(st));
    assert !Doomed(f, Inline(0), 0) && Begin(f, Inline(0), st.h) == st.h;
    assert st.cs[1 := Inline(0)] == st.cs;
    assert Decode.See(TwoArrays(), 1, st.seen) == st.seen;
  }

  lemma FlagRead(p: Cell, st: Memory, t: seq<Byte>)
    requires st.cs == Cells(p) && st.fixedAt == Some(0) && st.fixedCount == 1
    ensures RecordInto(TwoArrays(), st, [16, 1] + t) == Next(st.(fixedAt := Some(1), fixedCount := 1), t)
  {
    FlagKnown(p, st, t);
    KeyRead(2, 0, [1] + t);
    assert [16] + ([1] + t) == [16, 1] + t;
    TwoArraysSchema();
    FindTagUnique(TwoArrays(), 1);
  }

  lemma Finished(st: Memory)
    requires st.fixedAt == Some(0) && st.fixedCount == 1
    ensures RecordsInto(TwoArrays(), st, []) == Done(st, []) && Decode.Complete(TwoArrays(), Progress(st))
  {
    assert RequiredBefore(TwoArrays(), 2) == RequiredBefore(TwoArrays(), 1) == RequiredBefore(TwoArrays(), 0);
  }

  /** The first array, the second, and the first again, into zeroed storage: `pb_decode` succeeds,
      and block x, allocated for the first element, is still live after `pb_release`. */
  lemma BlockLost(x: nat, y: nat, live: set<nat>)
    requires x != y && x !in live && y !in live
    ensures var fields, cs := TwoArrays(), ZeroCells(TwoArrays());
            var s: seq<Byte> := [10, 2, 8, 1] + ([16, 1] + [10, 2, 8, 1]);
            var h := NewHeap(live, [Some(x), Some(y)]);
            && Before(fields, cs) && Clean(fields, cs) && Blank(h)
            && MessageInto(fields, cs, s, h).ok && MessageInto(fields, cs, s, h).h.lost == multiset{x}
            && Whole(fields, cs, s, h).h.live == live + {x}
  {
    var fields, zs := TwoArrays(), ZeroCells(TwoArrays());
    var again: seq<Byte> := [10, 2, 8, 1];
    var rest := [16, 1] + again;
    var h := NewHeap(live, [Some(x), Some(y)]);
    TwoArraysSchema();
    ZerosClean(fields);
    ZeroArrays();
    assert again + rest == [10, 2, 8, 1] + ([16, 1] + [10, 2, 8, 1]);
    BothRead(x, y, h);
    var st := LastState(x, y, h);
    Finished(st);
    LostIs(x, y, h, st, again + rest);
  }

  /** The decoder after the three records. */
  function LastState(x: nat, y: nat, h: Heap): Memory {
    var st := WithBlock(Link(None), Memory(Cells(Link(None)), {}, None, 0, h), x, [Some(y)]);
    WithBlock(NewBlock(x, 0, []), st.(fixedAt := Some(1), fixedCount := 1), y, [])
  }

  lemma BothRead(x: nat, y: nat, h: Heap)
    requires x != y && x !in h.live && y !in h.live && h.script == [Some(x), Some(y)]
    ensures var s: seq<Byte> := [10, 2, 8, 1] + ([16, 1] + [10, 2, 8, 1]);
            RecordsInto(TwoArrays(), Memory(Cells(Link(None)), {}, None, 0, h), s)
              == RecordsInto(TwoArrays(), LastState(x, y, h), [])
  {
    var fields, p := TwoArrays(), NewBlock(x, 0, []);
    var again: seq<Byte> := [10, 2, 8, 1];
    var rest := [16, 1] + again;
    var st0 := Memory(Cells(Link(None)), {}, None, 0, h);
    assert [Some(x)] + [Some(y)] == [Some(x), Some(y)] && [Some(y)] + [] == [Some(y)];
    var st1 := WithBlock(Link(None), st0, x, [Some(y)]);
    var st2 := st1.(fixedAt := Some(1), fixedCount := 1);
    ArrayRead(Link(None), st0, x, [Some(y)], rest);
    FlagRead(p, st1, again);
    ArrayRead(p, st2, y, [], []);
    assert again + [] == again;
    OneRound(st0, again + rest, st1, rest);
    OneRound(st1, rest, st2, again);
    OneRound(st2, again, LastState(x, y, h), []);
  }

  lemma OneRound(st: Memory, s: seq<Byte>, st': Memory, t: seq<Byte>)
    requires s != [] && RecordInto(TwoArrays(), st, s) == Next(st', t)
    ensures RecordsInto(TwoArrays(), st, s) == RecordsInto(TwoArrays(), st', t)
  {
  }

  lemma ZeroArrays()
    ensures ZeroCells(TwoArrays()) == Cells(Link(None))
            && DefaultCells(TwoArrays(), Cells(Link(None))) == Cells(Link(None))
  {
    assert ZeroCells(Holder()) == [Link(None)];
    assert seq(1, _ => Struct(ZeroCells(Holder()))) == [Struct([Link(None)])];
    assert ZeroCell(HolderArray(0)) == Array(0, [Struct([Link(None)])], []);
    assert [Link(None)][0 := Link(None)] == [Link(None)];
    assert OverwrittenStruct(Holder(), [Link(None)]) == [Link(None)];
    assert [Struct([Link(None)])][0 := Struct([Link(None)])] == [Struct([Link(None)])];
    assert OverwrittenFirst(Holder(), [Struct([Link(None)])]) == [Struct([Link(None)])];
  }

  lemma LastOwned(p: Cell, y: nat)
    requires p == NewBlock(y, 0, [])
    ensures Own(Cells(p), true) == multiset{y} && Own(Cells(p), false) == multiset{} && !AnyWild(Cells(p))
  {
    OwnOne(p, true);
    OwnOne(p, false);
    OwnOne(Struct([p]), true);
    OwnOne(Struct([p]), false);
    WildOne(p);
    WildOne(Struct([p]));
    WildOne(Inline(0));
    assert Cells(p)[1..] == [Inline(0)];
    OwnOne(Inline(0), true);
    OwnOne(Inline(0), false);
  }

  lemma LostIs(x: nat, y: nat, h: Heap, st: Memory, s: seq<Byte>)
    requires x != y && x !in h.live && y !in h.live && h.lost == multiset{}
    requires RecordsInto(TwoArrays(), Memory(Cells(Link(None)), {}, None, 0, h), s) == Done(st, [])
    requires Decode.Complete(TwoArrays(), Progress(st)) && st == LastState(x, y, h)
    ensures var fields, cs := TwoArrays(), ZeroCells(TwoArrays());
            && MessageInto(fields, cs, s, h).ok && MessageInto(fields, cs, s, h).h.lost == multiset{x}
            && Whole(fields, cs, s, h).h.live == h.live + {x}
  {
    var fields, zs := TwoArrays(), Cells(Link(None));
    ZeroArrays();
    assert Forgotten(fields, zs) == multiset{};
    assert h.(lost := h.lost + Forgotten(fields, zs)) == h;
    assert NoinitInto(fields, zs, s, h) == Outs(true, st.cs, [], st.h);
    assert MessageInto(fields, zs, s, h) == Outs(true, st.cs, [], st.h);
    LastHeap(x, y, h);
    LastOwned(NewBlock(y, 0, []), y);
    OneReleased(st.h, y);
  }

  lemma LastHeap(x: nat, y: nat, h: Heap)
    requires h.lost == multiset{}
    ensures var st := LastState(x, y, h);
            st.cs == Cells(NewBlock(y, 0, [])) && st.h.live == h.live + {x} + {y} && st.h.lost == multiset{x}
  {
    assert OwnCell(NewBlock(x, 0, []), true) == multiset{x};
  }

  lemma OneReleased(h: Heap, y: nat)
    ensures Released(h, multiset{y}, multiset{}, false).live == h.live - {y}
  {
    assert forall z :: z in multiset{y} + multiset{} <==> z == y;
  }
}
