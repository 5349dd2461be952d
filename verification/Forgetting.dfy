/**
 When decoding loses blocks: only when a fixed-count array is begun whose
 elements hold blocks of the run already, and then always.
 */
module Forgetting {
  import opened Wire
  import opened Varint
  import opened Schema
  import opened Blocks
  import opened Storage
  import opened HeapDecode
  import opened Shapes
  import Decode

  // ------------------------------------------------------------ two heaps

  /** Blocks stay lost, and no block is lost unless an array was begun whose elements forget one or
      the count of an array of blocks went back to zero. */
  predicate Grew(h: Heap, h': Heap) {
    && h.lost <= h'.lost && (h.begun ==> h'.begun) && (h.wrapped ==> h'.wrapped)
    && (h'.lost != h.lost ==> h'.begun || h'.wrapped)
    && (h'.wrapped ==> h.wrapped || h'.lost != h.lost)
  }

  /** After a success no count went back to zero, and nothing of the kind was begun without a loss; and
      with a steady schema neither happened at all. */
  predicate Tracked(ok: bool, steady: bool, h: Heap, h': Heap) {
    && Grew(h, h')
    && (ok ==> h'.wrapped == h.wrapped && (h'.begun ==> h.begun || h'.lost != h.lost))
    && (steady ==> h'.begun == h.begun && h'.wrapped == h.wrapped)
  }

  predicate SameRecord(h: Heap, h': Heap) {
    h'.lost == h.lost && h'.begun == h.begun && h'.wrapped == h.wrapped
  }

  lemma TrackedFrom(ok: bool, steady: bool, h: Heap, h1: Heap, h2: Heap)
    requires SameRecord(h, h1) && Tracked(ok, steady, h1, h2)
    ensures Tracked(ok, steady, h, h2)
  {
  }

  /** Forgetting some blocks first. */
  lemma TrackedLoss(ok: bool, steady: bool, h: Heap, more: multiset<nat>, h2: Heap)
    requires (more != multiset{} ==> h.begun) && Tracked(ok, steady, h.(lost := h.lost + more), h2)
    ensures Tracked(ok, steady, h, h2) && (more != multiset{} ==> h2.lost != h.lost)
  {
    var lost := h.lost + more;
    assert h.lost <= lost <= h2.lost;
    if more != multiset{} {
      var x :| x in more;
      assert h2.lost[x] >= lost[x] > h.lost[x];
    } else {
      assert lost == h.lost;
    }
  }

  // --------------------------------------------------------------- schemas

  /** No pointers anywhere. */
  ghost predicate PointerFree(fields: seq<Field>)
    decreases fields
  {
    forall i {:trigger fields[i]} :: 0 <= i < |fields| ==>
      fields[i].atype.Static? && (fields[i].ltype.LSubmessage? ==> PointerFree(fields[i].sub))
  }

  /** The elements have no pointers in arrays of a fixed count, and in arrays of as many elements as a
      count can tell. */
  ghost predicate Steady(fields: seq<Field>)
    decreases fields, 1
  {
    forall i {:trigger SteadyField(fields[i])} :: 0 <= i < |fields| ==> SteadyField(fields[i])
  }

  ghost predicate SteadyField(f: Field)
    decreases f, 0
  {
    f.ltype.LSubmessage? ==>
      && Steady(f.sub)
      && (f.atype.Static? && f.htype.Repeated? && (FixedCount(f) || f.arraySize == SIZE_MAX) ==> PointerFree(f.sub))
  }

  lemma {:induction false} PointerFreeCell(f: Field, c: Cell)
    requires f.atype.Static? && (f.ltype.LSubmessage? ==> PointerFree(f.sub)) && Sound(f, c, false)
    ensures OwnsNone(c, true)
    decreases f, 0
  {
    if f.ltype.LSubmessage? {
      if f.htype.Repeated? {
        PointerFreeStructs(f.sub, c.items);
      } else {
        PointerFreeOwns(f.sub, c.members);
      }
    }
  }

  lemma {:induction false} PointerFreeOwns(fields: seq<Field>, cs: seq<Cell>)
    requires PointerFree(fields) && SoundAll(fields, cs, false)
    ensures Own(cs, true) == multiset{}
    decreases fields, 0
  {
    forall i | 0 <= i < |cs|
      ensures OwnsNone(cs[i], true)
    {
      assert Sound(fields[i], cs[i], false);
      PointerFreeCell(fields[i], cs[i]);
    }
    NoneOwned(cs, true);
  }

  lemma {:induction false} PointerFreeStructs(fields: seq<Field>, cs: seq<Cell>)
    requires PointerFree(fields) && SoundStructs(fields, cs)
    ensures AllOwnNone(cs, true) && Own(cs, true) == multiset{}
    decreases fields, 1
  {
    forall k | 0 <= k < |cs|
      ensures OwnsNone(cs[k], true)
    {
      assert SoundStruct(fields, cs[k], false);
      PointerFreeOwns(fields, cs[k].members);
    }
    NoneOwned(cs, true);
  }

  // -------------------------------------------------------------- elements

  lemma NothingForgotten(fields: seq<Field>, c: Cell)
    requires c.Struct? && OwnCell(c, true) == multiset{}
    ensures !Forgets(fields, c)
  {
  }

  /** An array of pointer-free elements forgets nothing. */
  lemma FreeNotDoomed(f: Field, c: Cell, n: nat)
    requires f.ltype.LSubmessage? && PointerFree(f.sub) && SoundArray(f, c)
    ensures !Doomed(f, c, n)
  {
    PointerFreeStructs(f.sub, c.items);
    forall k | n <= k < |c.items|
      ensures !Forgets(f.sub, c.items[k])
    {
      assert OwnsNone(c.items[k], true) && SoundStruct(f.sub, c.items[k], false);
      NothingForgotten(f.sub, c.items[k]);
    }
  }

  /** One element on: either this one forgets a block, or a later one does. */
  lemma DoomedStep(f: Field, c: Cell, n: nat, item: Cell)
    requires f.atype.Static? && f.ltype.LSubmessage? && c.Array? && n < |c.items|
    ensures Doomed(f, c, n) <==> Forgets(f.sub, c.items[n]) || Doomed(f, PutItem(c, n, item), n + 1)
  {
    var items, items' := c.items, c.items[n := item];
    assert forall k :: n + 1 <= k < |items| ==> items'[k] == items[k];
    if SomeForgets(f.sub, items, n) {
      var k :| n <= k < |items| && Forgets(f.sub, items[k]);
      assert k > n ==> Forgets(f.sub, items'[k]);
    }
    if SomeForgets(f.sub, items', n + 1) {
      var k :| n + 1 <= k < |items'| && Forgets(f.sub, items'[k]);
      assert Forgets(f.sub, items[k]);
    }
  }

  // ----------------------------------------------- what defaults forget

  /** A zero count written over the beginning of the struct of this field, its first one, hits a
      pointer that is not NULL, unless its address ends in zeros anyway, or a count beside which
      there are blocks. */
  predicate Hit(f: Field, c: Cell)
    decreases f, 0
  {
    if f.atype.Pointer? then
      if f.htype.Repeated? then f.dataOffset + f.sizeOffset == 0 && Own(ItemsOf(c), true) != multiset{}
      else f.dataOffset == 0 && OwnCell(c, true) != multiset{} && OverwrittenPointer(c) != c
    else if !f.ltype.LSubmessage? then false
    else if f.htype.Repeated? && !FixedCount(f) then
      f.dataOffset + f.sizeOffset == 0 && OwnCell(c, true) != multiset{}
    else if f.dataOffset != 0 then false
    else if !f.htype.Repeated? then HitStruct(f.sub, Members(c))
    else c.Array? && HitFirst(f.sub, c.items)
  }

  predicate HitStruct(fields: seq<Field>, cs: seq<Cell>)
    decreases fields, 1
  {
    fields != [] && cs != [] && Hit(fields[0], cs[0])
  }

  predicate HitFirst(fields: seq<Field>, items: seq<Cell>)
    decreases fields, 2
  {
    items != [] && HitStruct(fields, Members(items[0]))
  }

  /** Setting a field to its default forgets a block: behind a pointer, in an array that has a count,
      or at the beginning of a fixed-count array. */
  predicate Drops(f: Field, c: Cell)
    decreases f, 0
  {
    if f.atype.Pointer? then OwnCell(c, true) != multiset{}
    else if !f.ltype.LSubmessage? || (f.htype.Repeated? && !c.Array?) then false
    else if !f.htype.Repeated? then SomeDrops(f.sub, Members(c))
    else if FixedCount(f) then HitFirst(f.sub, c.items)
    else OwnCell(c, true) != multiset{}
  }

  predicate SomeDrops(fields: seq<Field>, cs: seq<Cell>)
    decreases fields, 1
  {
    exists i {:trigger fields[i]} :: 0 <= i < |fields| && i < |cs| && Drops(fields[i], cs[i])
  }

  predicate Differs(c: Cell, d: Cell) {
    OwnCell(d, true) != OwnCell(c, true)
  }

  predicate SomeDiffer(cs: seq<Cell>, ds: seq<Cell>)
    requires |cs| == |ds|
  {
    exists k {:trigger Differs(cs[k], ds[k])} :: 0 <= k < |cs| && Differs(cs[k], ds[k])
  }

  lemma SumOfTwo(a: multiset<nat>, b: multiset<nat>, a': multiset<nat>, b': multiset<nat>)
    requires a' <= a && b' <= b
    ensures a' + b' == a + b <==> a' == a && b' == b
  {
    if a' + b' == a + b {
      forall x
        ensures a'[x] == a[x] && b'[x] == b[x]
      {
        assert (a' + b')[x] == (a + b)[x];
      }
    }
  }

  lemma {:induction false} SumDiffers(cs: seq<Cell>, ds: seq<Cell>, deep: bool)
    requires AllShrink(cs, ds, deep)
    ensures Own(ds, true) <= Own(cs, true) && (Own(ds, true) != Own(cs, true) <==> SomeDiffer(cs, ds))
  {
    if cs != [] {
      assert Shrinks(cs[0], ds[0], deep);
      forall k | 0 <= k < |cs[1..]|
        ensures Shrinks(cs[1..][k], ds[1..][k], deep)
      {
        assert Shrinks(cs[k + 1], ds[k + 1], deep);
      }
      SumDiffers(cs[1..], ds[1..], deep);
      SumOfTwo(OwnCell(cs[0], true), Own(cs[1..], true), OwnCell(ds[0], true), Own(ds[1..], true));
      DiffersCons(cs, ds);
    }
  }

  lemma DiffersCons(cs: seq<Cell>, ds: seq<Cell>)
    requires |cs| == |ds| > 0
    ensures SomeDiffer(cs, ds) <==> Differs(cs[0], ds[0]) || SomeDiffer(cs[1..], ds[1..])
  {
    if SomeDiffer(cs, ds) {
      var k :| 0 <= k < |cs| && Differs(cs[k], ds[k]);
      assert k > 0 ==> Differs(cs[1..][k - 1], ds[1..][k - 1]);
    }
    if SomeDiffer(cs[1..], ds[1..]) {
      var k :| 0 <= k < |cs[1..]| && Differs(cs[1..][k], ds[1..][k]);
      assert Differs(cs[k + 1], ds[k + 1]);
    }
  }

  lemma {:induction false} HitExactly(f: Field, c: Cell)
    requires Sound(f, c, false)
    ensures Differs(c, Overwritten(f, c)) <==> Hit(f, c)
    decreases f, 0
  {
    if f.atype.Pointer? {
      if f.htype.Repeated? {
        UncountedDiffers(c);
      } else {
        PointerDiffers(c);
      }
    } else if f.ltype.LSubmessage? {
      if !f.htype.Repeated? {
        HitStructExactly(f.sub, c.members);
      } else if FixedCount(f) {
        HitFirstExactly(f.sub, c.items);
      } else {
        EmptiedDiffers(c);
      }
    }
  }

  lemma UncountedDiffers(c: Cell)
    requires c.Link? || c.Wild?
    ensures Differs(c, Uncounted(c)) <==> Own(ItemsOf(c), true) != multiset{}
  {
    if c.Link? && c.block.Some? {
      var b := c.block.value;
      var id := if b.ours then multiset{b.id} else multiset{};
      SumOfTwo(id, Own(b.items, true), id, multiset{});
      assert OwnCell(c, true) == id + Own(b.items, true);
      assert OwnCell(Uncounted(c), true) == id + multiset{};
    }
  }

  lemma PointerDiffers(c: Cell)
    requires c.Link? || c.Wild?
    ensures Differs(c, OverwrittenPointer(c)) <==> OwnCell(c, true) != multiset{} && OverwrittenPointer(c) != c
  {
  }

  lemma EmptiedDiffers(c: Cell)
    requires c.Array?
    ensures Differs(c, Emptied(c)) <==> OwnCell(c, true) != multiset{}
  {
    assert Own([], true) == multiset{};
  }

  lemma OneDiffers(cs: seq<Cell>, d: Cell)
    requires cs != [] && Shrinks(cs[0], d, true)
    ensures Own(cs[0 := d], true) != Own(cs, true) <==> Differs(cs[0], d)
  {
    assert cs[0 := d][1..] == cs[1..];
    SumOfTwo(OwnCell(cs[0], true), Own(cs[1..], true), OwnCell(d, true), Own(cs[1..], true));
  }

  lemma {:induction false} HitStructExactly(fields: seq<Field>, cs: seq<Cell>)
    requires SoundAll(fields, cs, false)
    ensures Own(OverwrittenStruct(fields, cs), true) != Own(cs, true) <==> HitStruct(fields, cs)
    decreases fields, 1
  {
    if cs != [] {
      assert Sound(fields[0], cs[0], false);
      OverwrittenSound(fields[0], cs[0], true);
      HitExactly(fields[0], cs[0]);
      OneDiffers(cs, Overwritten(fields[0], cs[0]));
    }
  }

  lemma {:induction false} HitFirstExactly(fields: seq<Field>, items: seq<Cell>)
    requires SoundStructs(fields, items)
    ensures Own(OverwrittenFirst(fields, items), true) != Own(items, true) <==> HitFirst(fields, items)
    decreases fields, 2
  {
    if items != [] {
      assert SoundStruct(fields, items[0], false);
      HitStructExactly(fields, items[0].members);
      OverwrittenStructSound(fields, items[0].members, true);
      OneDiffers(items, Struct(OverwrittenStruct(fields, items[0].members)));
    }
  }

  lemma {:induction false} DropsExactly(f: Field, c: Cell)
    requires Sound(f, c, false)
    ensures Differs(c, DefaultCell(f, c)) <==> Drops(f, c)
    decreases f, 0
  {
    if !f.atype.Pointer? && f.ltype.LSubmessage? {
      if !f.htype.Repeated? {
        MembersDrop(f.sub, c.members);
      } else if FixedCount(f) {
        HitFirstExactly(f.sub, c.items);
      } else {
        EmptiedDiffers(c);
      }
    }
  }

  lemma {:induction false} MembersDrop(fields: seq<Field>, cs: seq<Cell>)
    requires SoundAll(fields, cs, false)
    ensures Own(DefaultCells(fields, cs), true) != Own(cs, true) <==> SomeDrops(fields, cs)
    ensures Own(DefaultCells(fields, cs), true) <= Own(cs, true)
    decreases fields, 1
  {
    var ds := DefaultCells(fields, cs);
    forall i | 0 <= i < |cs|
      ensures Shrinks(cs[i], ds[i], true) && (Differs(cs[i], ds[i]) <==> Drops(fields[i], cs[i]))
    {
      assert Sound(fields[i], cs[i], false);
      DefaultSound(fields[i], cs[i], true);
      DropsExactly(fields[i], cs[i]);
    }
    SumDiffers(cs, ds, true);
  }

  /** Exactly when setting an element to its defaults forgets a block: when one of its fields drops
      one. */
  lemma ForgetsExactly(fields: seq<Field>, c: Cell)
    requires SoundStruct(fields, c, false)
    ensures Forgets(fields, c) <==> SomeDrops(fields, c.members)
  {
    MembersDrop(fields, c.members);
    var own, own' := Own(c.members, true), Own(DefaultCells(fields, c.members), true);
    if own - own' == multiset{} {
      forall x
        ensures own'[x] == own[x]
      {
        assert (own - own')[x] == 0;
      }
    }
  }

  // ---------------------------------------------------------- submessages

  lemma {:induction false} StructTracked(fields: seq<Field>, repeated: bool, c: Cell, s: seq<Byte>, h: Heap)
    requires HeapSchema(fields) && SoundStruct(fields, c, !repeated) && (repeated && Forgets(fields, c) ==> h.begun)
    ensures var r := StructInto(fields, repeated, c, s, h);
            && Tracked(r.ok, Steady(fields), h, r.h)
            && (r.ok && repeated && Forgets(fields, c) ==> r.h.lost != h.lost)
    decreases |s|, 0
  {
    var p := Decode.Delimited(s);
    if p.Ok? {
      if repeated {
        MessageTracked(fields, c.members, p.value, h);
      } else {
        NoinitTracked(fields, c.members, p.value, h);
      }
    }
  }

  /** The element that is decoded next may forget a block only when the count is fixed. */
  lemma NextForgets(f: Field, c: Cell, fixedCount: nat)
    requires f.htype.Repeated? && f.arraySize <= SIZE_MAX && SoundArray(f, c)
    requires PlaceOf(f, c, fixedCount) < f.arraySize
    ensures var item := ItemAt(CountNext(f, c), PlaceOf(f, c, fixedCount));
            Forgets(f.sub, item) ==> FixedCount(f) && item == c.items[fixedCount]
  {
    ElementThere(f, c, fixedCount);
    if !FixedCount(f) {
      EmptySum(OwnCell(c.spare[0], true), Own(c.spare[1..], true));
      NothingForgotten(f.sub, ItemAt(CountNext(f, c), PlaceOf(f, c, fixedCount)));
    }
  }

  /** What field f has still to forget before and after one record of it. */
  predicate StillDoomed(f: Field, c: Cell, n: nat, h: Heap, c': Cell, n': nat, h': Heap) {
    && (Doomed(f, c', n') ==> Doomed(f, c, n))
    && (Doomed(f, c, n) ==> Doomed(f, c', n') || h'.lost != h.lost)
  }

  lemma {:induction false} ElementTracked(f: Field, c: Cell, fixedCount: nat, s: seq<Byte>, h: Heap)
    requires HeapField(f) && f.atype.Static? && f.ltype.LSubmessage? && f.htype.Repeated? && Sound(f, c, true)
    requires FixedCount(f) && Doomed(f, c, fixedCount) ==> h.begun
    ensures var r := ElementInto(f, c, fixedCount, s, h);
            && Tracked(r.ok, SteadyField(f), h, r.h)
            && (r.ok && FixedCount(f) ==> StillDoomed(f, c, fixedCount, h, r.c, r.count, r.h))
    decreases |s|, 1
  {
    var place, d := PlaceOf(f, c, fixedCount), CountNext(f, c);
    if place < f.arraySize {
      ElementThere(f, c, fixedCount);
      NextForgets(f, c, fixedCount);
      var item := ItemAt(d, place);
      var r := StructInto(f.sub, true, item, s, h);
      if FixedCount(f) {
        DoomedStep(f, c, fixedCount, r.c);
      }
      StructTracked(f.sub, true, item, s, h);
      LessSteady(r.ok, f, h, r.h);
    } else {
      WrapTracked(f, c, h);
    }
  }

  lemma LessSteady(ok: bool, f: Field, h: Heap, h': Heap)
    requires f.ltype.LSubmessage? && Tracked(ok, Steady(f.sub), h, h')
    ensures Tracked(ok, SteadyField(f), h, h')
  {
  }

  /** The count of a full array. */
  lemma WrapTracked(f: Field, c: Cell, h: Heap)
    requires HeapField(f) && f.atype.Static? && f.ltype.LSubmessage? && f.htype.Repeated? && Sound(f, c, true)
    ensures Tracked(false, SteadyField(f), h, CountedHeap(f, c, h))
  {
    if Wraps(f, c) {
      if SteadyField(f) {
        PointerFreeStructs(f.sub, c.items);
      }
      LostMore(h.lost, OwnCell(c, true));
    }
  }

  lemma LostMore(lost: multiset<nat>, more: multiset<nat>)
    ensures lost <= lost + more && (lost + more != lost <==> more != multiset{})
  {
    if more != multiset{} {
      var x :| x in more;
      assert (lost + more)[x] > lost[x];
    }
  }

  lemma {:induction false} InPlaceTracked(f: Field, wireType: nat, c: Cell, fixedCount: nat, s: seq<Byte>, h: Heap)
    requires HeapField(f) && f.atype.Static? && Sound(f, c, true)
             && (FixedCount(f) && Doomed(f, c, fixedCount) ==> h.begun)
    ensures var r := InPlaceInto(f, wireType, c, fixedCount, s, h);
            && Tracked(r.ok, SteadyField(f), h, r.h) && (r.ok && !FixedCount(f) ==> r.count == fixedCount)
            && (r.ok && FixedCount(f) ==> StillDoomed(f, c, fixedCount, h, r.c, r.count, r.h))
    decreases |s|, 2
  {
    if f.ltype.LSubmessage? {
      if f.htype.Repeated? {
        ElementTracked(f, c, fixedCount, s, h);
      } else {
        StructTracked(f.sub, false, c, s, h);
      }
    }
  }

  // ------------------------------------------------------- pointer fields

  lemma AllocateSame(h: Heap, p: Option<nat>, dataSize: nat, arraySize: nat)
    ensures SameRecord(h, AllocateField(h, p, dataSize, arraySize).1)
  {
  }

  lemma MovedSame(h: Heap, c: Cell, dataSize: nat, arraySize: nat, count: nat)
    ensures SameRecord(h, Moved(h, c, dataSize, arraySize, count).2)
  {
    AllocateSame(h, IdOf(c), dataSize, arraySize);
    assert Moved(h, c, dataSize, arraySize, count).2 == AllocateField(h, IdOf(c), dataSize, arraySize).1;
  }

  lemma {:induction false} PackedSame(f: Field, c: Cell, capacity: nat, body: seq<Byte>, h: Heap)
    ensures SameRecord(h, PackedLoop(f, c, capacity, body, h).2)
    decreases |body|
  {
    if body != [] {
      var n' := NextCapacity(capacity, |body|, f.dataSize);
      MovedSame(h, c, f.dataSize, n', CountOf(c));
      var (room, d, n, h') := GrowInto(f, c, capacity, |body|, h);
      assert h' == h || h' == Moved(h, c, f.dataSize, n', CountOf(c)).2;
      assert SameRecord(h, h');
      PackedRest(f, d, room, n, body, h');
    }
  }

  lemma {:induction false} PackedRest(f: Field, d: Cell, room: bool, n: nat, body: seq<Byte>, h: Heap)
    requires body != []
    ensures var p := Decode.DecodeScalar(f, body);
            room && p.Ok? ==> SameRecord(h, PackedLoop(f, Counted(d), n, p.rest, h).2)
    decreases |body|, 0
  {
    var p := Decode.DecodeScalar(f, body);
    if room && p.Ok? {
      PackedSame(f, Counted(d), n, p.rest, h);
    }
  }

  lemma BlobSame(f: Field, c: Cell, s: seq<Byte>, h: Heap)
    ensures SameRecord(h, BlobInto(f, c, s, h).h)
  {
    var r, room := BlobInto(f, c, s, h), BlobRoom(f, s);
    if room.Some? {
      MovedSame(h, c, room.value, 1, 0);
      assert r.h == Moved(h, c, room.value, 1, 0).2;
    } else {
      assert r.h == h;
    }
  }

  lemma ScalarSame(f: Field, c: Cell, size: nat, count: nat, s: seq<Byte>, h: Heap)
    ensures SameRecord(h, ScalarInto(f, Moved(h, c, f.dataSize, size, count), s).h)
  {
    MovedSame(h, c, f.dataSize, size, count);
    assert ScalarInto(f, Moved(h, c, f.dataSize, size, count), s).h == Moved(h, c, f.dataSize, size, count).2;
  }

  lemma SameTracked(ok: bool, steady: bool, h: Heap, h': Heap)
    requires SameRecord(h, h')
    ensures Tracked(ok, steady, h, h')
  {
  }

  lemma {:induction false} NewStructTracked(f: Field, s: seq<Byte>, h: Heap)
    requires HeapField(f) && f.ltype.LSubmessage?
    ensures var r := NewStructInto(f, s, h); Tracked(r.ok, SteadyField(f), h, r.h)
    decreases |s|, 1
  {
    var (q, h') := AllocateField(h, None, f.dataSize, 1);
    var r, steady := NewStructInto(f, s, h), SteadyField(f);
    if q.Some? {
      InitialSound(f.sub);
      StructTracked(f.sub, false, Initial(f.sub), s, h');
      assert r.h == StructInto(f.sub, false, Initial(f.sub), s, h').h;
      TrackedFrom(r.ok, steady, h, h', r.h);
    } else {
      SameTracked(r.ok, steady, h, h');
    }
  }

  lemma {:induction false} PointerTracked(f: Field, c: Cell, s: seq<Byte>, h: Heap)
    requires HeapField(f) && f.atype.Pointer? && !f.htype.Repeated?
    ensures var r := PointerInto(f, c, s, h); Tracked(r.ok, SteadyField(f), h, r.h)
    decreases |s|, 2
  {
    var r, steady := PointerInto(f, c, s, h), SteadyField(f);
    if f.ltype.LSubmessage? {
      var h' := if IdOf(c).Some? then ReleasedCell(h, c) else h;
      NewStructTracked(f, s, h');
      TrackedFrom(r.ok, steady, h, h', r.h);
    } else {
      BlobSame(f, c, s, h);
      ScalarSame(f, c, 1, 0, s, h);
      SameTracked(r.ok, steady, h, r.h);
    }
  }

  lemma {:induction false} ItemTracked(f: Field, s: seq<Byte>, h: Heap)
    requires HeapField(f)
    ensures var r := ItemInto(f, s, h); Tracked(r.ok, SteadyField(f), h, r.h)
    decreases |s|, 1
  {
    if f.ltype.LSubmessage? {
      InitialSound(f.sub);
      HeldStruct(f.sub, Initial(f.sub));
      NothingForgotten(f.sub, Initial(f.sub));
      StructTracked(f.sub, true, Initial(f.sub), s, h);
    } else {
      BlobSame(f, Link(None), s, h);
      SameTracked(ItemInto(f, s, h).ok, SteadyField(f), h, ItemInto(f, s, h).h);
    }
  }

  lemma {:induction false} GrownTracked(f: Field, c: Cell, s: seq<Byte>, h: Heap)
    requires HeapField(f)
    ensures var r := GrownInto(f, c, s, h); Tracked(r.ok, SteadyField(f), h, r.h)
    decreases |s|, 2
  {
    var (q, h') := AllocateField(h, IdOf(c), f.dataSize, CountOf(c) + 1);
    AllocateSame(h, IdOf(c), f.dataSize, CountOf(c) + 1);
    var r := GrownInto(f, c, s, h);
    if q.Some? {
      ItemTracked(f, s, h');
      var item := ItemInto(f, s, h');
      assert r.h == item.h && r.ok == item.ok;
      TrackedFrom(item.ok, SteadyField(f), h, h', item.h);
    } else {
      assert r.h == h';
      SameTracked(r.ok, SteadyField(f), h, h');
    }
  }

  lemma {:induction false} OneMoreTracked(f: Field, c: Cell, s: seq<Byte>, h: Heap)
    requires HeapField(f)
    ensures var r := OneMoreInto(f, c, s, h); Tracked(r.ok, SteadyField(f), h, r.h)
    decreases |s|, 3
  {
    var r, steady := OneMoreInto(f, c, s, h), SteadyField(f);
    if CountOf(c) != SIZE_MAX && (f.ltype.LSubmessage? || BlobArray(f)) {
      GrownTracked(f, c, s, h);
    } else {
      ScalarSame(f, c, CountOf(c) + 1, CountOf(c) + 1, s, h);
      SameTracked(r.ok, steady, h, r.h);
    }
  }

  lemma {:induction false} FieldTracked(f: Field, wireType: nat, c: Cell, fixedCount: nat, s: seq<Byte>, h: Heap)
    requires HeapField(f) && Sound(f, c, true) && (FixedCount(f) && Doomed(f, c, fixedCount) ==> h.begun)
    ensures var r := FieldInto(f, wireType, c, fixedCount, s, h);
            && Tracked(r.ok, SteadyField(f), h, r.h) && (r.ok && !FixedCount(f) ==> r.count == fixedCount)
            && (r.ok && FixedCount(f) ==> StillDoomed(f, c, fixedCount, h, r.c, r.count, r.h))
    decreases |s|, 4
  {
    if f.atype.Static? {
      InPlaceTracked(f, wireType, c, fixedCount, s, h);
    } else if !f.htype.Repeated? {
      PointerTracked(f, c, s, h);
    } else if wireType == Decode.WT_STRING && Packable(f.ltype) {
      var p := Decode.Delimited(s);
      if p.Ok? {
        PackedSame(f, c, CountOf(c), p.value, h);
      }
    } else {
      OneMoreTracked(f, c, s, h);
    }
  }

  // -------------------------------------------------------------- messages

  ghost predicate FixedAtField(fields: seq<Field>, st: Memory) {
    st.fixedAt.Some? ==> st.fixedAt.value < |fields| && FixedCount(fields[st.fixedAt.value])
  }

  /** The array that is being filled has still something to forget. */
  predicate Pending(fields: seq<Field>, st: Memory) {
    && st.fixedAt.Some? && st.fixedAt.value < |fields| && st.fixedAt.value < |st.cs|
    && Doomed(fields[st.fixedAt.value], st.cs[st.fixedAt.value], st.fixedCount)
  }

  predicate NoneBegun(h: Heap, h': Heap) {
    h'.begun == h.begun && h'.wrapped == h.wrapped
  }

  /** A run from heap h0 up to here. */
  ghost predicate Follows(fields: seq<Field>, h0: Heap, st: Memory) {
    && FixedAtField(fields, st) && Grew(h0, st.h)
    && (Pending(fields, st) ==> st.h.begun)
    && (st.h.begun ==> h0.begun || st.h.lost != h0.lost || Pending(fields, st)) && st.h.wrapped == h0.wrapped
    && (Steady(fields) ==> st.h.begun == h0.begun)
  }

  lemma NothingPending(fields: seq<Field>, st: Memory)
    requires HeapSchema(fields) && SoundAll(fields, st.cs, true) && FixedAtField(fields, st)
             && Decode.FixedDone(fields, Progress(st))
    ensures !Pending(fields, st)
  {
    if st.fixedAt.Some? {
      var f := fields[st.fixedAt.value];
      assert HeapField(f) && Sound(f, st.cs[st.fixedAt.value], true);
      if f.atype.Static? && f.ltype.LSubmessage? {
        assert SoundArray(f, st.cs[st.fixedAt.value]);
      }
    }
  }

  /** The array is begun. */
  lemma Begun(fields: seq<Field>, i: nat, st: Memory)
    requires HeapSchema(fields) && SoundAll(fields, st.cs, true) && i < |fields| && FixedCount(fields[i])
    ensures Steady(fields) ==> !Doomed(fields[i], st.cs[i], 0)
  {
    var f, c := fields[i], st.cs[i];
    assert HeapField(f) && Sound(f, c, true);
    if Steady(fields) && f.atype.Static? && f.ltype.LSubmessage? {
      assert SteadyField(f);
      FreeNotDoomed(f, c, 0);
    }
  }

  /** A record of a field that is not a fixed-count array. */
  lemma FollowsOther(fields: seq<Field>, h0: Heap, i: nat, st: Memory, st': Memory, ok: bool)
    requires Follows(fields, h0, st) && i < |fields| && !FixedCount(fields[i]) && i < |st.cs|
    requires |st'.cs| == |st.cs| && st'.cs == st.cs[i := st'.cs[i]] && st'.fixedAt == st.fixedAt
    requires ok ==> st'.fixedCount == st.fixedCount
    requires Tracked(ok, SteadyField(fields[i]), st.h, st'.h)
    ensures Grew(h0, st'.h) && (Steady(fields) ==> NoneBegun(h0, st'.h))
    ensures ok ==> Follows(fields, h0, st')
  {
    assert Steady(fields) ==> SteadyField(fields[i]);
    GrewTwice(h0, st.h, st'.h);
  }

  /** A record of a fixed-count array, from state st with that array chosen. */
  lemma FollowsFixed(fields: seq<Field>, h0: Heap, i: nat, st: Memory, st': Memory, ok: bool)
    requires Follows(fields, h0, st) && i < |fields| && i < |st.cs| == |st'.cs| && st.fixedAt == st'.fixedAt == Some(i)
    requires Tracked(ok, SteadyField(fields[i]), st.h, st'.h)
    requires ok ==> StillDoomed(fields[i], st.cs[i], st.fixedCount, st.h, st'.cs[i], st'.fixedCount, st'.h)
    ensures Grew(h0, st'.h) && (Steady(fields) ==> NoneBegun(h0, st'.h))
    ensures ok ==> Follows(fields, h0, st')
  {
    var f := fields[i];
    assert Steady(fields) ==> SteadyField(f);
    assert Pending(fields, st) == Doomed(f, st.cs[i], st.fixedCount);
    assert Pending(fields, st') == Doomed(f, st'.cs[i], st'.fixedCount);
    GrewTwice(h0, st.h, st'.h);
  }

  lemma GrewTwice(h0: Heap, h1: Heap, h2: Heap)
    requires Grew(h0, h1) && Grew(h1, h2)
    ensures Grew(h0, h2) && (h1.lost != h0.lost ==> h2.lost != h0.lost) && (h2.lost != h1.lost ==> h2.lost != h0.lost)
  {
    if h2.lost == h0.lost {
      assert h1.lost <= h0.lost;
    }
  }

  /** A fixed-count array is begun when nothing is pending. */
  lemma FollowsBegin(fields: seq<Field>, h0: Heap, i: nat, st: Memory)
    requires HeapSchema(fields) && SoundAll(fields, st.cs, true) && i < |fields| && FixedCount(fields[i])
    requires Follows(fields, h0, st) && Decode.FixedDone(fields, Progress(st))
    ensures Follows(fields, h0, Memory(st.cs, st.seen, Some(i), 0, Begin(fields[i], st.cs[i], st.h)))
  {
    NothingPending(fields, st);
    Begun(fields, i, st);
  }

  lemma {:induction false} KnownTracked(fields: seq<Field>, i: nat, wireType: nat, st: Memory, s: seq<Byte>, h0: Heap)
    requires HeapSchema(fields) && SoundAll(fields, st.cs, true) && i < |fields| && Follows(fields, h0, st)
    ensures var r := KnownInto(fields, i, wireType, st, s);
            && Grew(h0, r.st.h) && (Steady(fields) ==> NoneBegun(h0, r.st.h))
            && (r.Next? ==> Follows(fields, h0, r.st))
    decreases |s|, 5
  {
    var fresh' := Restarts(fields, i, st);
    if !fresh' || Decode.FixedDone(fields, Progress(st)) {
      var f, c := fields[i], st.cs[i];
      assert HeapField(f) && Sound(f, c, true);
      var count, h := if fresh' then 0 else st.fixedCount, if fresh' then Begin(f, c, st.h) else st.h;
      var chosen := if fresh' then Memory(st.cs, st.seen, Some(i), 0, h) else st;
      if fresh' {
        FollowsBegin(fields, h0, i, st);
      }
      FieldTracked(f, wireType, c, count, s, h);
      var r := KnownInto(fields, i, wireType, st, s);
      if FixedCount(f) {
        FollowsFixed(fields, h0, i, chosen, r.st, r.Next?);
      } else {
        FollowsOther(fields, h0, i, st, r.st, r.Next?);
      }
    }
  }

  lemma {:induction false} RecordTracked(fields: seq<Field>, st: Memory, s: seq<Byte>, h0: Heap)
    requires HeapSchema(fields) && SoundAll(fields, st.cs, true) && Follows(fields, h0, st)
    ensures var r := RecordInto(fields, st, s);
            && Grew(h0, After(r, st).h) && (Steady(fields) ==> NoneBegun(h0, After(r, st).h))
            && (r.Next? ==> Follows(fields, h0, r.st))
    decreases |s|, 6
  {
    var t := DecodeTag(s);
    if t.Tag? && FindTag(fields, t.number).Some? {
      KnownTracked(fields, FindTag(fields, t.number).value, t.wireType, st, t.rest, h0);
    }
  }

  lemma {:induction false} RecordsTracked(fields: seq<Field>, st: Memory, s: seq<Byte>, h0: Heap)
    requires HeapSchema(fields) && SoundAll(fields, st.cs, true) && Follows(fields, h0, st)
    ensures var r := RecordsInto(fields, st, s);
            && Grew(h0, r.st.h) && (Steady(fields) ==> NoneBegun(h0, r.st.h))
            && (r.Done? ==> Follows(fields, h0, r.st))
    decreases |s|, 7
  {
    if s != [] {
      RecordTracked(fields, st, s, h0);
      RecordSound(fields, st, s);
      var r := RecordInto(fields, st, s);
      if r.Next? {
        RecordsTracked(fields, r.st, r.rest, h0);
      }
    }
  }

  /** `pb_decode_noinit`: blocks are lost exactly when an array is begun whose elements forget one. */
  lemma {:induction false} NoinitTracked(fields: seq<Field>, cs: seq<Cell>, s: seq<Byte>, h: Heap)
    requires HeapSchema(fields) && SoundAll(fields, cs, true)
    ensures var r := NoinitInto(fields, cs, s, h); Tracked(r.ok, Steady(fields), h, r.h)
    decreases |s|, 8
  {
    var st := Memory(cs, {}, None, 0, h);
    RecordsTracked(fields, st, s, h);
    RecordsSound(fields, st, s);
    var r := RecordsInto(fields, st, s);
    if r.Done? && Decode.Complete(fields, Progress(r.st)) {
      NothingPending(fields, r.st);
    }
  }

  lemma {:induction false} MessageTracked(fields: seq<Field>, cs: seq<Cell>, s: seq<Byte>, h: Heap)
    requires HeapSchema(fields) && SoundAll(fields, cs, false) && (Forgotten(fields, cs) != multiset{} ==> h.begun)
    ensures var r := MessageInto(fields, cs, s, h);
            Tracked(r.ok, Steady(fields), h, r.h) && (Forgotten(fields, cs) != multiset{} ==> r.h.lost != h.lost)
    decreases |s|, 9
  {
    var ds, h' := DefaultCells(fields, cs), h.(lost := h.lost + Forgotten(fields, cs));
    DefaultsSound(fields, cs, true);
    NoinitTracked(fields, ds, s, h');
    var r := NoinitInto(fields, ds, s, h');
    TrackedLoss(r.ok, Steady(fields), h, Forgotten(fields, cs), r.h);
  }
}
