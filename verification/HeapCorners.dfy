/**
 Two corners of the code with PB_ENABLE_MALLOC: the zero count that defaults
 write over the first element of a fixed-count array, and the count of an array
 that has as many elements as a count can tell.
 */
module HeapCorners {
  import opened Wire
  import opened Varint
  import opened Schema
  import opened Blocks
  import opened Storage
  import opened HeapDecode
  import opened HeapLaws
  import opened HeapWitnesses
  import Decode

  // --------------------------------------------------- overwritten pointers

  /** A fixed-count array of one element, which begins with a pointer. */
  function Inner(): seq<Field> {
    [HolderArray(0)]
  }

  function ArrayOf(p: Cell): Cell {
    Array(0, [Struct([p])], [])
  }

  /** A fixed-count array of one such struct, and a fixed-count array of one bool. */
  function Nested(): seq<Field> {
    [Field(1, LSubmessage, Repeated, Static, 0, 0, POINTER_BYTES, 1, Inner(), None), TwoArrays()[1]]
  }

  /** Storage for them. */
  function Outer(p: Cell): seq<Cell> {
    [Array(0, [Struct([ArrayOf(p)])], []), Inline(0)]
  }

  lemma NestedSchema()
    ensures HeapSchema(Inner()) && HeapSchema(Nested())
  {
    HolderSchema();
    assert HeapField(Inner()[0]);
    TwoArraysSchema();
    assert HeapField(TwoArrays()[1]);
    assert HeapField(Nested()[0]) && HeapField(Nested()[1]);
  }

  /** Defaults write over the pointer of the first element. */
  lemma InnerDefaults(p: Cell)
    ensures DefaultCells(Inner(), [ArrayOf(p)]) == [ArrayOf(OverwrittenPointer(p))]
  {
    var q := OverwrittenPointer(p);
    assert [p][0 := q] == [q];
    assert OverwrittenStruct(Holder(), [p]) == [q];
    assert [Struct([p])][0 := Struct([q])] == [Struct([q])];
    assert OverwrittenFirst(Holder(), [Struct([p])]) == [Struct([q])];
    assert DefaultCell(HolderArray(0), ArrayOf(p)) == ArrayOf(q);
  }

  lemma InnerOwns(p: Cell)
    ensures Own([ArrayOf(p)], true) == OwnCell(p, true) && Own([ArrayOf(p)], false) == OwnCell(p, false)
    ensures AnyWild([ArrayOf(p)]) == HasWild(p)
  {
    OwnOne(p, true);
    OwnOne(p, false);
    OwnOne(Struct([p]), true);
    OwnOne(Struct([p]), false);
    OwnOne(ArrayOf(p), true);
    OwnOne(ArrayOf(p), false);
    WildOne(p);
    WildOne(Struct([p]));
    WildOne(ArrayOf(p));
  }

  lemma NoneRequired(fields: seq<Field>)
    requires fields == Inner() || fields == Nested()
    ensures RequiredBefore(fields, |fields|) == 0
  {
    assert RequiredBefore(fields, 0) == 0;
    assert RequiredBefore(fields, 1) == 0;
  }

  lemma InnerKnown(st: Memory, q: nat, later: seq<Option<nat>>)
    requires st.cs == [ArrayOf(Link(None))] && st.fixedAt.None? && st.h.script == [Some(q)] + later && q !in st.h.live
    ensures KnownInto(Inner(), 0, 2, st, [2, 8, 1])
            == Next(Memory([ArrayOf(NewBlock(q, 0, []))], st.seen, Some(0), 1,
                           st.h.(live := st.h.live + {q}, script := later)), [])
  {
    var c, d := ArrayOf(Link(None)), ArrayOf(NewBlock(q, 0, []));
    NotDoomed();
    assert Begin(HolderArray(0), c, st.h) == st.h;
    ElementStep(Link(None), st.h, q, later, []);
    assert [2, 8, 1] + [] == [2, 8, 1] && Cells(Link(None))[0] == c && Cells(NewBlock(q, 0, []))[0] == d;
    assert st.h.lost + OwnCell(Link(None), true) == st.h.lost;
    assert [c][0 := d] == [d] && Decode.See(Inner(), 0, st.seen) == st.seen;
  }

  /** The element of the inner array gets block q. */
  lemma InnerRead(h: Heap, q: nat, later: seq<Option<nat>>)
    requires h.script == [Some(q)] + later && q !in h.live
    ensures NoinitInto(Inner(), [ArrayOf(Link(None))], [10, 2, 8, 1], h)
            == Outs(true, [ArrayOf(NewBlock(q, 0, []))], [], h.(live := h.live + {q}, script := later))
  {
    var st := Memory([ArrayOf(Link(None))], {}, None, 0, h);
    InnerKnown(st, q, later);
    KeyRead(1, 2, [2, 8, 1]);
    assert [10] + [2, 8, 1] == [10, 2, 8, 1];
    NestedSchema();
    FindTagUnique(Inner(), 0);
    var r := RecordInto(Inner(), st, [10, 2, 8, 1]);
    assert r == KnownInto(Inner(), 0, 2, st, [2, 8, 1]);
    InnerDone(r.st);
    assert RecordsInto(Inner(), st, [10, 2, 8, 1]) == Done(r.st, []);
  }

  lemma InnerDone(st: Memory)
    requires st.fixedAt == Some(0) && st.fixedCount == 1
    ensures RecordsInto(Inner(), st, []) == Done(st, []) && Decode.Complete(Inner(), Progress(st))
  {
    NoneRequired(Inner());
  }

  lemma NotDoomed()
    ensures !Doomed(HolderArray(0), ArrayOf(Link(None)), 0)
  {
    var item := Struct([Link(None)]);
    OwnOne(Link(None), true);
    EmptyForgets(item);
    forall k | 0 <= k < |[item]|
      ensures !Forgets(Holder(), [item][k])
    {
      assert [item][k] == item;
    }
  }

  lemma EmptyForgets(item: Cell)
    requires Own(Members(item), true) == multiset{}
    ensures !Forgets(Holder(), item)
  {
  }

  lemma DelimitedRead(body: seq<Byte>, t: seq<Byte>)
    requires |body| < 128
    ensures Decode.Delimited([|body|] + (body + t)) == Ok(body, t)
  {
    var s := [|body|] + (body + t);
    assert s[1..] == body + t && (body + t)[..|body|] == body && (body + t)[|body|..] == t;
    assert DecodeVarint32(s) == Ok(|body|, body + t);
  }

  lemma InnerMessage(h: Heap, q: nat, later: seq<Option<nat>>)
    requires h.script == [Some(q)] + later && q !in h.live
    ensures MessageInto(Inner(), [ArrayOf(Link(None))], [10, 2, 8, 1], h)
            == Outs(true, [ArrayOf(NewBlock(q, 0, []))], [], h.(live := h.live + {q}, script := later))
  {
    var cs := [ArrayOf(Link(None))];
    InnerDefaults(Link(None));
    assert Forgotten(Inner(), cs) == multiset{};
    assert h.(lost := h.lost + Forgotten(Inner(), cs)) == h;
    InnerRead(h, q, later);
  }

  /** A record of the outer array that brings an element of the inner one. */
  lemma FilledElement(h: Heap, q: nat, later: seq<Option<nat>>, t: seq<Byte>)
    requires h.script == [Some(q)] + later && q !in h.live
    ensures StructInto(Inner(), true, Struct([ArrayOf(Link(None))]), [4, 10, 2, 8, 1] + t, h)
            == Out(true, Struct([ArrayOf(NewBlock(q, 0, []))]), t, h.(live := h.live + {q}, script := later))
  {
    var body: seq<Byte> := [10, 2, 8, 1];
    DelimitedRead(body, t);
    assert [4] + (body + t) == [4, 10, 2, 8, 1] + t;
    InnerMessage(h, q, later);
  }

  /** An empty one: the element is set to its defaults, and nothing else. */
  lemma EmptyElement(p: Cell, h: Heap, t: seq<Byte>)
    ensures StructInto(Inner(), true, Struct([ArrayOf(p)]), [0] + t, h)
            == Out(true, Struct([ArrayOf(OverwrittenPointer(p))]), t,
                   h.(lost := h.lost + (OwnCell(p, true) - OwnCell(OverwrittenPointer(p), true))))
  {
    var ds := [ArrayOf(OverwrittenPointer(p))];
    DelimitedRead([], t);
    assert [0] + ([] + t) == [0] + t;
    InnerDefaults(p);
    InnerOwns(p);
    InnerOwns(OverwrittenPointer(p));
    var h' := h.(lost := h.lost + (OwnCell(p, true) - OwnCell(OverwrittenPointer(p), true)));
    var st := Memory(ds, {}, None, 0, h');
    assert RecordsInto(Inner(), st, []) == Done(st, []);
    NoneRequired(Inner());
    assert NoinitInto(Inner(), ds, [], h') == Outs(true, ds, [], h');
  }

  /** The decoder after a record of the outer array that left pointer q in it and heap h. */
  function AfterOuter(q: Cell, st: Memory, h: Heap): Memory {
    Memory(Outer(q), st.seen, Some(0), 1, h)
  }

  lemma OuterKnown(p: Cell, q: Cell, st: Memory, s: seq<Byte>, h: Heap, t: seq<Byte>)
    requires st.cs == Outer(p) && st.fixedAt != Some(0) && Decode.FixedDone(Nested(), Progress(st))
    requires StructInto(Inner(), true, Struct([ArrayOf(p)]), s, Begin(Nested()[0], Outer(p)[0], st.h))
             == Out(true, Struct([ArrayOf(q)]), t, h)
    ensures RecordInto(Nested(), st, [10] + s) == Next(AfterOuter(q, st, h), t)
  {
    var f, c, h0 := Nested()[0], Outer(p)[0], Begin(Nested()[0], Outer(p)[0], st.h);
    var item := Struct([ArrayOf(q)]);
    assert CountNext(f, c) == c && PlaceOf(f, c, 0) == 0 && ItemAt(c, 0) == Struct([ArrayOf(p)]);
    assert [Struct([ArrayOf(p)])][0 := item] == [item];
    assert PutItem(c, 0, item) == Outer(q)[0];
    assert ElementInto(f, c, 0, s, h0) == Fielded(true, Outer(q)[0], 1, t, h);
    assert FieldInto(f, 2, c, 0, s, h0) == Fielded(true, Outer(q)[0], 1, t, h);
    assert st.cs[0 := Outer(q)[0]] == Outer(q);
    assert Decode.See(Nested(), 0, st.seen) == st.seen;
    assert KnownInto(Nested(), 0, 2, st, s) == Next(AfterOuter(q, st, h), t);
    KeyRead(1, 2, s);
    NestedSchema();
    FindTagUnique(Nested(), 0);
  }

  lemma OuterFlagKnown(p: Cell, st: Memory, t: seq<Byte>)
    requires st.cs == Outer(p) && st.fixedAt == Some(0) && st.fixedCount == 1
    ensures KnownInto(Nested(), 1, 0, st, [1] + t) == Next(st.(fixedAt := Some(1), fixedCount := 1), t)
  {
    var f := Nested()[1];
    BoolRead(f, t);
    assert PlainItems(f, 0, 0, [1] + t) == Placed(true, 1, t);
    assert FieldInto(f, 0, Inline(0), 0, [1] + t, st.h) == Fielded(true, Inline(0), 1, t, st.h);
    assert !Doomed(f, Inline(0), 0) && Begin(f, Inline(0), st.h) == st.h;
    assert st.cs[1 := Inline(0)] == st.cs;
    assert Decode.See(Nested(), 1, st.seen) == st.seen;
  }

  lemma OuterFlag(p: Cell, st: Memory, t: seq<Byte>)
    requires st.cs == Outer(p) && st.fixedAt == Some(0) && st.fixedCount == 1
    ensures RecordInto(Nested(), st, [16, 1] + t) == Next(st.(fixedAt := Some(1), fixedCount := 1), t)
  {
    OuterFlagKnown(p, st, t);
    KeyRead(2, 0, [1] + t);
    assert [16] + ([1] + t) == [16, 1] + t;
    NestedSchema();
    FindTagUnique(Nested(), 1);
  }

  /** What the defaults of the inner array do to a pointer to block x. */
  predicate Survives(x: nat) {
    SIZE_BYTES < POINTER_BYTES && x in ROUND
  }

  lemma Overwriting(x: nat)
    ensures var p := NewBlock(x, 0, []);
            var q := OverwrittenPointer(p);
            && OwnCell(p, true) == multiset{x} && OwnCell(p, false) == multiset{} && !HasWild(p)
            && (Survives(x) ==> q == p)
            && (!Survives(x) ==> OwnCell(q, true) == multiset{} && OwnCell(q, false) == multiset{})
            && (!Survives(x) ==> (HasWild(q) <==> SIZE_BYTES < POINTER_BYTES))
  {
  }

  lemma OuterOwns(p: Cell)
    ensures Own(Outer(p), true) == OwnCell(p, true) && Own(Outer(p), false) == OwnCell(p, false)
    ensures AnyWild(Outer(p)) == HasWild(p)
  {
    var s, c := Struct([ArrayOf(p)]), Outer(p)[0];
    InnerOwns(p);
    OwnOne(s, true);
    OwnOne(s, false);
    WildOne(s);
    assert Outer(p)[1..] == [Inline(0)];
    OwnOne(Inline(0), true);
    OwnOne(Inline(0), false);
    WildOne(Inline(0));
    assert OwnCell(c, true) == Own([s], true) && OwnCell(c, false) == Own([s], false) && HasWild(c) == AnyWild([s]);
  }

  lemma OuterDefaults()
    ensures ZeroCells(Nested()) == Outer(Link(None)) && DefaultCells(Nested(), Outer(Link(None))) == Outer(Link(None))
  {
    assert ZeroCells(Holder()) == [Link(None)];
    assert seq(1, _ => Struct(ZeroCells(Holder()))) == [Struct([Link(None)])];
    assert ZeroCell(HolderArray(0)) == ArrayOf(Link(None));
    assert ZeroCells(Inner()) == [ArrayOf(Link(None))];
    assert seq(1, _ => Struct(ZeroCells(Inner()))) == [Struct([ArrayOf(Link(None))])];
    assert ZeroCell(Nested()[0]) == Outer(Link(None))[0];
    InnerDefaults(Link(None));
    assert OverwrittenFirst(Holder(), [Struct([Link(None)])]) == [Struct([Link(None)])] by {
      assert [Link(None)][0 := Link(None)] == [Link(None)];
      assert [Struct([Link(None)])][0 := Struct([Link(None)])] == [Struct([Link(None)])];
    }
    var c := ArrayOf(Link(None));
    assert Overwritten(HolderArray(0), c) == c;
    assert [c][0 := c] == [c] && OverwrittenStruct(Inner(), [c]) == [c];
    assert [Struct([c])][0 := Struct([c])] == [Struct([c])];
    assert DefaultCell(Nested()[0], Outer(Link(None))[0]) == Outer(Link(None))[0];
  }

  /** The heap after the element has been filled with block x, and after it has been set to defaults. */
  function FilledHeap(x: nat, h: Heap): Heap {
    Begin(Nested()[0], Outer(Link(None))[0], h).(live := h.live + {x}, script := [])
  }

  function EmptiedHeap(x: nat, h: Heap): Heap {
    var p := NewBlock(x, 0, []);
    var h' := Begin(Nested()[0], Outer(p)[0], h);
    h'.(lost := h'.lost + (OwnCell(p, true) - OwnCell(OverwrittenPointer(p), true)))
  }

  lemma FirstRecord(x: nat, st: Memory, t: seq<Byte>)
    requires st.cs == Outer(Link(None)) && st.fixedAt.None? && st.h.script == [Some(x)] && x !in st.h.live
    ensures RecordInto(Nested(), st, [10, 4, 10, 2, 8, 1] + t)
            == Next(AfterOuter(NewBlock(x, 0, []), st, FilledHeap(x, st.h)), t)
  {
    OneAnswer(x);
    FilledElement(Begin(Nested()[0], Outer(Link(None))[0], st.h), x, [], t);
    OuterKnown(Link(None), NewBlock(x, 0, []), st, [4, 10, 2, 8, 1] + t, FilledHeap(x, st.h), t);
    FirstBytes(t);
  }

  lemma OneAnswer(x: nat)
    ensures [Some(x)] + [] == [Some(x)]
  {
  }

  lemma FirstBytes(t: seq<Byte>)
    ensures [10] + ([4, 10, 2, 8, 1] + t) == [10, 4, 10, 2, 8, 1] + t
  {
  }

  lemma LastRecord(x: nat, st: Memory)
    requires st.cs == Outer(NewBlock(x, 0, [])) && st.fixedAt == Some(1) && st.fixedCount == 1
    ensures RecordInto(Nested(), st, [10, 0])
            == Next(AfterOuter(OverwrittenPointer(NewBlock(x, 0, [])), st, EmptiedHeap(x, st.h)), [])
  {
    var p := NewBlock(x, 0, []);
    EmptyElement(p, Begin(Nested()[0], Outer(p)[0], st.h), []);
    assert [0] + [] == [0] && [10] + [0] == [10, 0];
    OuterKnown(p, OverwrittenPointer(p), st, [0], EmptiedHeap(x, st.h), []);
  }

  lemma ThreeRecords(x: nat, h: Heap) returns (st: Memory)
    requires h.script == [Some(x)] && x !in h.live
    ensures var s: seq<Byte> := [10, 4, 10, 2, 8, 1] + ([16, 1] + [10, 0]);
            RecordsInto(Nested(), Memory(Outer(Link(None)), {}, None, 0, h), s) == Done(st, [])
    ensures Decode.Complete(Nested(), Progress(st))
    ensures st.cs == Outer(OverwrittenPointer(NewBlock(x, 0, []))) && st.h == EmptiedHeap(x, FilledHeap(x, h))
  {
    var last: seq<Byte> := [10, 0];
    var st0 := Memory(Outer(Link(None)), {}, None, 0, h);
    FirstRecord(x, st0, [16, 1] + last);
    var st1 := AfterOuter(NewBlock(x, 0, []), st0, FilledHeap(x, h));
    OuterFlag(NewBlock(x, 0, []), st1, last);
    var st2 := st1.(fixedAt := Some(1), fixedCount := 1);
    LastRecord(x, st2);
    st := AfterOuter(OverwrittenPointer(NewBlock(x, 0, [])), st2, EmptiedHeap(x, st2.h));
    Follow(st0, [10, 4, 10, 2, 8, 1] + ([16, 1] + last), st1, [16, 1] + last);
    Follow(st1, [16, 1] + last, st2, last);
    Follow(st2, last, st, []);
    NoneRequired(Nested());
  }

  lemma Follow(st: Memory, s: seq<Byte>, st': Memory, t: seq<Byte>)
    requires s != [] && RecordInto(Nested(), st, s) == Next(st', t)
    ensures RecordsInto(Nested(), st, s) == RecordsInto(Nested(), st', t)
  {
  }

  /** The first array with a pointer in its element, the second, and the first again with an empty
      element, into zeroed storage: `pb_decode` succeeds. The zero count that the defaults of the
      empty element write lies over the pointer, unless its address ends in zeros anyway. Then the
      block stays live for good; and `pb_release` frees a pointer to nowhere, unless a count is as
      wide as a pointer, so that nothing is left of it. */
  lemma PointerOverwritten(x: nat, live: set<nat>)
    requires x !in live
    ensures var fields, cs, h := Nested(), ZeroCells(Nested()), NewHeap(live, [Some(x)]);
            var s: seq<Byte> := [10, 4, 10, 2, 8, 1] + ([16, 1] + [10, 0]);
            var r, h' := MessageInto(fields, cs, s, h), Whole(fields, cs, s, h).h;
            && Before(fields, cs) && Clean(fields, cs) && Blank(h) && r.ok
            && (Survives(x) ==> Untouched(h, h'))
            && (!Survives(x) ==> h'.live == live + {x} && r.h.lost == multiset{x})
            && (!Survives(x) ==> (h'.fault <==> SIZE_BYTES < POINTER_BYTES))
  {
    var fields, zs, h := Nested(), ZeroCells(Nested()), NewHeap(live, [Some(x)]);
    var s: seq<Byte> := [10, 4, 10, 2, 8, 1] + ([16, 1] + [10, 0]);
    NestedSchema();
    ZerosClean(fields);
    OuterDefaults();
    var st := ThreeRecords(x, h);
    assert Forgotten(fields, zs) == multiset{};
    assert h.(lost := h.lost + Forgotten(fields, zs)) == h;
    assert NoinitInto(fields, zs, s, h) == Outs(true, st.cs, [], st.h);
    OverwrittenRelease(x, st.h, live);
    OuterOwns(OverwrittenPointer(NewBlock(x, 0, [])));
    assert Whole(fields, zs, s, h).h == ReleasedAll(st.h, st.cs);
  }

  lemma OverwrittenRelease(x: nat, h: Heap, live: set<nat>)
    requires x !in live && h == EmptiedHeap(x, FilledHeap(x, NewHeap(live, [Some(x)])))
    ensures var q := OverwrittenPointer(NewBlock(x, 0, []));
            var h' := Released(h, OwnCell(q, true), OwnCell(q, false), HasWild(q));
            && (Survives(x) ==> !h'.fault && h'.live == live)
            && (!Survives(x) ==> h'.live == live + {x} && h.lost == multiset{x})
            && (!Survives(x) ==> (h'.fault <==> SIZE_BYTES < POINTER_BYTES))
  {
    Overwriting(x);
    var q := OverwrittenPointer(NewBlock(x, 0, []));
    var freed := OwnCell(q, true) + OwnCell(q, false);
    if Survives(x) {
      assert forall z :: z in freed <==> z == x;
      assert multiset{x} <= multiset(h.live);
    } else {
      assert freed == multiset{};
      assert multiset{x} - multiset{} == multiset{x};
    }
  }

  // ------------------------------------------------------- counts that wrap

  /** An array with a count, of as many elements as the count can tell. */
  function Longest(): Field {
    Field(1, LSubmessage, Repeated, Static, SIZE_BYTES, 0 - (SIZE_BYTES as int), POINTER_BYTES, SIZE_MAX, Holder(),
      None)
  }

  /** n records of it, each with a bool in its element. */
  function Elements(n: nat): seq<Byte> {
    if n == 0 then [] else [10, 2, 8, 1] + Elements(n - 1)
  }

  function Answers(ids: seq<nat>): (script: seq<Option<nat>>)
    ensures |script| == |ids|
  {
    seq(|ids|, k requires 0 <= k < |ids| => Some(ids[k]))
  }

  /** Elements that hold these blocks. */
  function Holding(ids: seq<nat>): (cs: seq<Cell>)
    ensures |cs| == |ids|
  {
    seq(|ids|, k requires 0 <= k < |ids| => Struct([NewBlock(ids[k], 0, [])]))
  }

  function Blanks(n: nat): seq<Cell> {
    seq(n, _ => Struct([Link(None)]))
  }

  /** The decoder after k of the records. */
  function Filled(ids: seq<nat>, k: nat, live: set<nat>): Memory
    requires k <= |ids|
  {
    Memory([Array(k, Holding(ids[..k]), Blanks(|ids| - k))], {}, None, 0,
           NewHeap(live + (set i | i in ids[..k]), Answers(ids[k..])))
  }

  predicate NewIds(ids: seq<nat>, live: set<nat>) {
    |ids| == SIZE_MAX && (forall i, j :: 0 <= i < j < |ids| ==> ids[i] != ids[j]) && forall i :: i in ids ==> i !in live
  }

  lemma LongestSchema()
    ensures HeapSchema([Longest()])
  {
    HolderSchema();
    assert HeapField([Longest()][0]);
  }

  /** One more record. */
  lemma FillOne(ids: seq<nat>, k: nat, live: set<nat>, t: seq<Byte>)
    requires NewIds(ids, live) && k < |ids|
    ensures RecordInto([Longest()], Filled(ids, k, live), [10, 2, 8, 1] + t) == Next(Filled(ids, k + 1, live), t)
  {
    FillNext(ids, k, live, t);
    KeyRead(1, 2, [2, 8, 1] + t);
    assert [10] + ([2, 8, 1] + t) == [10, 2, 8, 1] + t;
    LongestSchema();
    FindTagUnique([Longest()], 0);
  }

  lemma FillNext(ids: seq<nat>, k: nat, live: set<nat>, t: seq<Byte>)
    requires NewIds(ids, live) && k < |ids|
    ensures KnownInto([Longest()], 0, 2, Filled(ids, k, live), [2, 8, 1] + t) == Next(Filled(ids, k + 1, live), t)
  {
    var h := Filled(ids, k, live).h;
    assert h.script == [Some(ids[k])] + Answers(ids[k + 1..]);
    assert ids[k] !in h.live;
    ElementRead(Link(None), h, ids[k], Answers(ids[k + 1..]), t);
    FillKnown(ids, k, live, [2, 8, 1] + t, t);
  }

  /** What one more does to storage and to the set of live blocks. */
  lemma FillSteps(ids: seq<nat>, k: nat, live: set<nat>)
    requires k < |ids|
    ensures var c := Filled(ids, k, live).cs[0];
            && c.items + [Struct([NewBlock(ids[k], 0, [])])] == Holding(ids[..k + 1])
            && c.spare != [] && c.spare[0] == Struct([Link(None)]) && c.spare[1..] == Blanks(|ids| - (k + 1))
            && Filled(ids, k, live).h.live + {ids[k]} == Filled(ids, k + 1, live).h.live
  {
    assert ids[..k + 1] == ids[..k] + [ids[k]];
  }

  lemma FillKnown(ids: seq<nat>, k: nat, live: set<nat>, s: seq<Byte>, t: seq<Byte>)
    requires NewIds(ids, live) && k < |ids|
    requires var h := Filled(ids, k, live).h;
             StructInto(Holder(), true, Struct([Link(None)]), s, h)
             == Out(true, Struct([NewBlock(ids[k], 0, [])]), t,
                    h.(live := h.live + {ids[k]}, script := Answers(ids[k + 1..]), lost := h.lost + multiset{}))
    ensures KnownInto([Longest()], 0, 2, Filled(ids, k, live), s) == Next(Filled(ids, k + 1, live), t)
  {
    var h, h' := Filled(ids, k, live).h, Filled(ids, k + 1, live).h;
    var c, c' := Filled(ids, k, live).cs[0], Filled(ids, k + 1, live).cs[0];
    FillSteps(ids, k, live);
    assert h.lost + multiset{} == h.lost;
    FillElement(c, k, ids[k], s, h, h', t);
    assert PutItem(CountNext(Longest(), c), k, Struct([NewBlock(ids[k], 0, [])])) == c';
    assert [c][0 := c'] == [c'] && Decode.See([Longest()], 0, {}) == {};
  }

  lemma FillElement(c: Cell, k: nat, q: nat, s: seq<Byte>, h: Heap, h': Heap, t: seq<Byte>)
    requires c.Array? && c.count == |c.items| == k < SIZE_MAX && c.spare != [] && c.spare[0] == Struct([Link(None)])
    requires StructInto(Holder(), true, Struct([Link(None)]), s, h) == Out(true, Struct([NewBlock(q, 0, [])]), t, h')
    ensures var d, item := CountNext(Longest(), c), Struct([NewBlock(q, 0, [])]);
            && PutItem(d, k, item) == Array(k + 1, c.items + [item], c.spare[1..])
            && FieldInto(Longest(), 2, c, 0, s, h) == Fielded(true, PutItem(d, k, item), 0, t, h')
  {
    CountedNext(c, k, Struct([NewBlock(q, 0, [])]));
    CountedElement(Longest(), 2, c, s, h);
  }

  lemma CountedElement(f: Field, wireType: nat, c: Cell, s: seq<Byte>, h: Heap)
    requires CountedArray(f) && c.Array? && c.count < f.arraySize
    ensures var r := StructInto(f.sub, true, ItemAt(CountNext(f, c), c.count), s, h);
            FieldInto(f, wireType, c, 0, s, h) == Fielded(r.ok, PutItem(CountNext(f, c), c.count, r.c), 0, r.rest, r.h)
  {
    var r := StructInto(f.sub, true, ItemAt(CountNext(f, c), c.count), s, h);
    assert ElementInto(f, c, 0, s, h) == Fielded(r.ok, PutItem(CountNext(f, c), c.count, r.c), 0, r.rest, r.h);
  }

  lemma CountedNext(c: Cell, k: nat, item: Cell)
    requires c.Array? && c.count == |c.items| == k < SIZE_MAX && c.spare != []
    ensures var d := CountNext(Longest(), c);
            && ItemAt(d, k) == c.spare[0]
            && PutItem(d, k, item) == Array(k + 1, c.items + [item], c.spare[1..])
  {
    var d := CountNext(Longest(), c);
    assert d == Array(k + 1, c.items + [c.spare[0]], c.spare[1..]);
    assert d.items[k := item] == c.items + [item];
  }

  lemma {:induction false} FillAll(ids: seq<nat>, k: nat, live: set<nat>, t: seq<Byte>)
    requires NewIds(ids, live) && k <= |ids|
    ensures RecordsInto([Longest()], Filled(ids, k, live), Elements(|ids| - k) + t)
            == RecordsInto([Longest()], Filled(ids, |ids|, live), t)
    decreases |ids| - k
  {
    if k == |ids| {
      assert Elements(0) + t == t;
    } else {
      var rest := Elements(|ids| - (k + 1)) + t;
      assert Elements(|ids| - k) + t == [10, 2, 8, 1] + rest;
      FillOne(ids, k, live, rest);
      FillAll(ids, k + 1, live, t);
    }
  }

  lemma {:induction false} HoldingOwns(ids: seq<nat>)
    ensures Own(Holding(ids), true) == multiset(ids)
  {
    if ids != [] {
      var p := NewBlock(ids[0], 0, []);
      assert Holding(ids)[1..] == Holding(ids[1..]);
      HoldingOwns(ids[1..]);
      OwnOne(p, true);
      assert OwnCell(Holding(ids)[0], true) == multiset{ids[0]};
      assert ids == [ids[0]] + ids[1..];
    }
  }

  /** One record too many: the count goes from its maximum to zero before the overflow is noticed, and
      all elements drop out of use. */
  lemma OneTooMany(ids: seq<nat>, live: set<nat>)
    requires NewIds(ids, live)
    ensures var st, r := Filled(ids, |ids|, live), RecordInto([Longest()], Filled(ids, |ids|, live), [10, 2, 8, 1]);
            r.Stuck? && r.st.cs == [Emptied(st.cs[0])] && r.st.h.live == st.h.live && !r.st.h.fault
            && r.st.h.lost == multiset(ids) && r.st.h.stolen == multiset{} && !r.st.h.wrecked
  {
    var f, st := Longest(), Filled(ids, |ids|, live);
    var c := st.cs[0];
    assert ids[..|ids|] == ids;
    HoldingOwns(ids);
    assert Wraps(f, c);
    KeyRead(1, 2, [2, 8, 1]);
    assert [10] + [2, 8, 1] == [10, 2, 8, 1];
    LongestSchema();
    FindTagUnique([f], 0);
    assert FieldInto(f, 2, c, 0, [2, 8, 1], st.h) == Fielded(false, Emptied(c), 0, [], CountedHeap(f, c, st.h));
    assert [c][0 := Emptied(c)] == [Emptied(c)];
    assert multiset{} + multiset(ids) == multiset(ids);
  }

  /** One record more than the longest array has elements, into zeroed storage: `pb_decode` fails, as
      it should, but `pb_release` then finds a count of zero, and every block stays live for good. */
  lemma CountWraps(ids: seq<nat>, live: set<nat>)
    requires NewIds(ids, live)
    ensures var fields, cs, h := [Longest()], ZeroCells([Longest()]), NewHeap(live, Answers(ids));
            var s := Elements(SIZE_MAX) + [10, 2, 8, 1];
            var r := MessageInto(fields, cs, s, h);
            && Before(fields, cs) && Clean(fields, cs) && Blank(h)
            && !r.ok && !r.h.fault && r.h.lost == multiset(ids) && r.h.live == live + (set i | i in ids)
  {
    var fields, zs, h := [Longest()], ZeroCells([Longest()]), NewHeap(live, Answers(ids));
    var s := Elements(SIZE_MAX) + [10, 2, 8, 1];
    LongestSchema();
    ZerosClean(fields);
    LongestDefaults();
    var st := AllAndOneMore(ids, live);
    assert Forgotten(fields, zs) == multiset{};
    assert h.(lost := h.lost + Forgotten(fields, zs)) == h;
    assert NoinitInto(fields, zs, s, h) == Outs(false, st.cs, [], st.h);
    ReleasedOfNone(st.h, st.cs);
  }

  lemma AllAndOneMore(ids: seq<nat>, live: set<nat>) returns (st: Memory)
    requires NewIds(ids, live)
    ensures var st0 := Memory([Array(0, [], Blanks(SIZE_MAX))], {}, None, 0, NewHeap(live, Answers(ids)));
            RecordsInto([Longest()], st0, Elements(SIZE_MAX) + [10, 2, 8, 1]) == Failed(st)
    ensures Own(st.cs, true) == multiset{} && Own(st.cs, false) == multiset{} && !AnyWild(st.cs)
    ensures st.h.live == live + (set i | i in ids) && st.h.lost == multiset(ids) && !st.h.fault
  {
    FilledFirst(ids, live);
    FillAll(ids, 0, live, [10, 2, 8, 1]);
    OneTooMany(ids, live);
    st := RecordInto([Longest()], Filled(ids, |ids|, live), [10, 2, 8, 1]).st;
    EmptiedOwns(Filled(ids, |ids|, live).cs[0]);
    assert ids[..|ids|] == ids;
  }

  lemma LongestDefaults()
    ensures ZeroCells([Longest()]) == [Array(0, [], Blanks(SIZE_MAX))]
    ensures DefaultCells([Longest()], ZeroCells([Longest()])) == ZeroCells([Longest()])
  {
    assert ZeroCells(Holder()) == [Link(None)];
    assert seq(SIZE_MAX, _ => Struct(ZeroCells(Holder()))) == Blanks(SIZE_MAX);
    assert ForeignAll([]) + Blanks(SIZE_MAX) == Blanks(SIZE_MAX);
  }

  lemma FilledFirst(ids: seq<nat>, live: set<nat>)
    requires NewIds(ids, live)
    ensures Filled(ids, 0, live) == Memory([Array(0, [], Blanks(SIZE_MAX))], {}, None, 0, NewHeap(live, Answers(ids)))
  {
    assert ids[..0] == [] && ids[0..] == ids && Holding([]) == [];
    assert live + (set i | i in ids[..0]) == live;
  }

  lemma EmptiedOwns(c: Cell)
    requires c.Array?
    ensures Own([Emptied(c)], true) == multiset{} && Own([Emptied(c)], false) == multiset{} && !AnyWild([Emptied(c)])
  {
    OwnOne(Emptied(c), true);
    OwnOne(Emptied(c), false);
    WildOne(Emptied(c));
  }

  lemma ReleasedOfNone(h: Heap, cs: seq<Cell>)
    requires Own(cs, true) == multiset{} && Own(cs, false) == multiset{} && !AnyWild(cs)
    ensures ReleasedAll(h, cs).live == h.live && ReleasedAll(h, cs).fault == h.fault
    ensures ReleasedAll(h, cs).lost == h.lost
  {
    var none: multiset<nat> := multiset{};
    assert none + none == none;
  }
}
