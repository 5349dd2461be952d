/**
 The account of the blocks of the heap over a run of the decoder with
 PB_ENABLE_MALLOC: which are live, which are lost, and when something is freed
 that should not be, for any bytes, any storage and any allocator.
 */
module Accounts {
  import opened Wire
  import opened Varint
  import opened Schema
  import opened Blocks
  import opened Storage
  import opened HeapDecode
  import opened Shapes
  import Decode

  // --------------------------------------------------------------- the law

  /** Nothing has gone wrong: every live block is known from before the run or owned by storage, or
      it is lost; and stale pointers in our blocks are to lost blocks that have not been freed. */
  predicate Holds(h: Heap, known: multiset<nat>, loose: multiset<nat>) {
    || Ruined(h)
    || (&& !h.wrecked && !h.fault && h.stolen + loose <= h.lost
        && multiset(h.live) + h.stolen == known + h.lost)
  }

  /** A pointer to nowhere has been freed, after the block to which it was a pointer was lost. */
  predicate Ruined(h: Heap) {
    h.wrecked && h.fault && h.lost != multiset{}
  }

  /** After a failure stale pointers from before the run may have been freed too. */
  predicate Broken(h: Heap, known: multiset<nat>) {
    || (h.wrecked && h.fault)
    || (&& !h.wrecked && (h.stolen <= h.lost ==> !h.fault)
        && (!h.fault ==> multiset(h.live) + h.stolen == known + h.lost))
  }

  predicate Balanced(ok: bool, h: Heap, known: multiset<nat>, loose: multiset<nat>) {
    if ok then Holds(h, known, loose) else Broken(h, known)
  }

  lemma HoldsIsBroken(h: Heap, known: multiset<nat>, loose: multiset<nat>)
    requires Holds(h, known, loose)
    ensures Broken(h, known)
  {
  }

  lemma LooseMeansLost(h: Heap, known: multiset<nat>, loose: multiset<nat>, part: multiset<nat>)
    requires Holds(h, known, loose + part) && part != multiset{}
    ensures h.lost != multiset{}
  {
    var x :| x in part;
    if !Ruined(h) {
      assert (h.stolen + (loose + part))[x] <= h.lost[x];
    }
  }

  function Ids(p: Option<nat>): multiset<nat> {
    if p.Some? then multiset{p.value} else multiset{}
  }

  lemma ReallocHolds(h: Heap, p: Option<nat>, known: multiset<nat>, loose: multiset<nat>)
    requires Holds(h, known + Ids(p), loose)
    ensures var (q, h') := Realloc(h, p); Holds(h', known + Ids(if q.Some? then q else p), loose)
  {
    var (q, h') := Realloc(h, p);
    var live := multiset(h.live);
    if Ruined(h) {
      return;
    }
    if p.Some? {
      assert (live + h.stolen)[p.value] == (known + Ids(p) + h.lost)[p.value];
      assert h.stolen[p.value] <= (h.stolen + loose)[p.value] <= h.lost[p.value];
      assert p.value in live;
    }
    if q.Some? {
      forall x
        ensures (multiset(h'.live) + h'.stolen)[x] == ((known + Ids(q)) + h'.lost)[x]
      {
        assert (live + h.stolen)[x] == ((known + Ids(p)) + h.lost)[x];
        assert multiset(h'.live)[x] == live[x] - Ids(p)[x] + Ids(q)[x];
      }
    }
  }

  /** Blocks of ours and stale pointers in them are freed without a fault; pointers to nowhere are
      not. */
  lemma ReleaseHolds(h: Heap, known: multiset<nat>, ours: multiset<nat>, stale: multiset<nat>, wild: bool,
                     loose: multiset<nat>)
    requires Holds(h, known + ours, loose + stale) && (wild ==> h.lost != multiset{})
    ensures Holds(Released(h, ours, stale, wild), known, loose)
  {
    if !Ruined(h) && !wild {
      ReleaseCounts(h, known, ours, stale, loose);
    }
  }

  lemma ReleaseCounts(h: Heap, known: multiset<nat>, ours: multiset<nat>, stale: multiset<nat>, loose: multiset<nat>)
    requires !h.wrecked && !h.fault && h.stolen + (loose + stale) <= h.lost
    requires multiset(h.live) + h.stolen == (known + ours) + h.lost
    ensures Holds(Released(h, ours, stale, false), known, loose)
  {
    var h' := Released(h, ours, stale, false);
    var freed, live := ours + stale, multiset(h.live);
    forall x
      ensures freed[x] <= live[x] && multiset(h'.live)[x] == live[x] - freed[x]
      ensures (multiset(h'.live) + h'.stolen)[x] == (known + h'.lost)[x]
      ensures (h'.stolen + loose)[x] <= h'.lost[x]
    {
      assert (live + h.stolen)[x] == ((known + ours) + h.lost)[x];
      assert (h.stolen + (loose + stale))[x] <= h.lost[x];
    }
  }

  lemma ReleaseBroken(h: Heap, known: multiset<nat>, ours: multiset<nat>, stale: multiset<nat>, wild: bool)
    requires Broken(h, known + ours)
    ensures Broken(Released(h, ours, stale, wild), known)
  {
    if !wild && !(h.wrecked && h.fault) {
      BrokenCounts(h, known, ours, stale);
    }
  }

  lemma BrokenCounts(h: Heap, known: multiset<nat>, ours: multiset<nat>, stale: multiset<nat>)
    requires !h.wrecked && (h.stolen <= h.lost ==> !h.fault)
    requires !h.fault ==> multiset(h.live) + h.stolen == (known + ours) + h.lost
    ensures Broken(Released(h, ours, stale, false), known)
  {
    var h' := Released(h, ours, stale, false);
    var freed, live := ours + stale, multiset(h.live);
    if h'.stolen <= h'.lost {
      forall x
        ensures h.stolen[x] <= h.lost[x]
      {
        assert h'.stolen[x] <= h'.lost[x];
      }
      assert live + h.stolen == (known + ours) + h.lost;
      forall x
        ensures freed[x] <= live[x]
      {
        assert (live + h.stolen)[x] == ((known + ours) + h.lost)[x];
        assert (h.stolen + stale)[x] <= h.lost[x];
      }
    }
    if !h'.fault {
      forall x
        ensures (multiset(h'.live) + h'.stolen)[x] == (known + h'.lost)[x]
      {
        assert freed[x] <= live[x];
        assert (live + h.stolen)[x] == ((known + ours) + h.lost)[x];
      }
    }
  }

  /** What storage forgets is lost, and what was stale or has been forgotten is no more than before. */
  lemma ForgetHolds(h: Heap, known: multiset<nat>, loose: multiset<nat>, own: multiset<nat>, stale: multiset<nat>,
                    own': multiset<nat>, stale': multiset<nat>)
    requires Holds(h, known + own, loose + stale)
    requires own' <= own && stale' + own' <= stale + own
    ensures Holds(h.(lost := h.lost + (own - own')), known + own', loose + stale')
  {
    var h' := h.(lost := h.lost + (own - own'));
    if Ruined(h) {
      Nonempty(h.lost, own - own');
      return;
    }
    forall x
      ensures (h'.stolen + (loose + stale'))[x] <= h'.lost[x]
      ensures (multiset(h'.live) + h'.stolen)[x] == ((known + own') + h'.lost)[x]
    {
      assert own'[x] <= own[x] && (stale' + own')[x] <= (stale + own)[x];
      assert (h.stolen + (loose + stale))[x] <= h.lost[x];
      assert (multiset(h.live) + h.stolen)[x] == ((known + own) + h.lost)[x];
    }
  }

  /** The law for some storage and what lies around it. */
  predicate Kept(ok: bool, deep: bool, h: Heap, c: Cell, known: multiset<nat>, loose: multiset<nat>) {
    Balanced(ok || deep, h, known + OwnCell(c, true), loose + Loose(c, deep))
  }

  predicate KeptAll(ok: bool, deep: bool, h: Heap, cs: seq<Cell>, known: multiset<nat>, loose: multiset<nat>) {
    Balanced(ok || deep, h, known + Own(cs, true), loose + LooseAll(cs, deep))
  }

  // -------------------------------------------------------------- pointers

  lemma PlainOwns(c: Cell, deep: bool)
    requires PlainHeld(c)
    ensures OwnCell(c, true) == Ids(IdOf(c)) && Loose(c, deep) == multiset{}
  {
  }

  lemma PlainKept(h: Heap, c: Cell, known: multiset<nat>, loose: multiset<nat>, deep: bool)
    requires PlainHeld(c)
    ensures Kept(true, deep, h, c, known, loose) <==> Holds(h, known + Ids(IdOf(c)), loose)
  {
    PlainOwns(c, deep);
    assert loose + multiset{} == loose;
  }

  lemma MovedAccount(h: Heap, c: Cell, dataSize: nat, size: nat, count: nat, known: multiset<nat>,
                     loose: multiset<nat>, deep: bool)
    requires PlainHeld(c) && Kept(true, deep, h, c, known, loose)
    ensures var (_, d, h') := Moved(h, c, dataSize, size, count); PlainHeld(d) && Kept(true, deep, h', d, known, loose)
  {
    var (_, d, h') := Moved(h, c, dataSize, size, count);
    PlainKept(h, c, known, loose, deep);
    ReallocHolds(h, IdOf(c), known, loose);
    PlainKept(h', d, known, loose, deep);
  }

  lemma ScalarAccount(f: Field, c: Cell, size: nat, count: nat, s: seq<Byte>, h: Heap, known: multiset<nat>,
                      loose: multiset<nat>, deep: bool)
    requires PlainHeld(c) && Kept(true, deep, h, c, known, loose)
    ensures var r := ScalarInto(f, Moved(h, c, f.dataSize, size, count), s); Kept(true, deep, r.h, r.c, known, loose)
  {
    MovedAccount(h, c, f.dataSize, size, count, known, loose, deep);
    var m := Moved(h, c, f.dataSize, size, count);
    var r := ScalarInto(f, m, s);
    assert r.c == m.1 && r.h == m.2;
  }

  lemma BlobAccount(f: Field, c: Cell, s: seq<Byte>, h: Heap, known: multiset<nat>, loose: multiset<nat>, deep: bool)
    requires PlainHeld(c) && Kept(true, deep, h, c, known, loose)
    ensures var r := BlobInto(f, c, s, h); Kept(true, deep, r.h, r.c, known, loose)
  {
    var r, room := BlobInto(f, c, s, h), BlobRoom(f, s);
    if room.Some? {
      var m := Moved(h, c, room.value, 1, 0);
      assert r.c == m.1 && r.h == m.2;
      MovedAccount(h, c, room.value, 1, 0, known, loose, deep);
    } else {
      assert r.c == c && r.h == h;
    }
  }

  lemma GrowAccount(f: Field, c: Cell, capacity: nat, left: nat, h: Heap, known: multiset<nat>, loose: multiset<nat>,
                    deep: bool)
    requires PlainHeld(c) && Kept(true, deep, h, c, known, loose)
    ensures var (_, d, _, h') := GrowInto(f, c, capacity, left, h); Kept(true, deep, h', d, known, loose)
  {
    MovedAccount(h, c, f.dataSize, NextCapacity(capacity, left, f.dataSize), CountOf(c), known, loose, deep);
  }

  lemma {:induction false} PackedLoopAccount(f: Field, c: Cell, capacity: nat, body: seq<Byte>, h: Heap,
                                             known: multiset<nat>, loose: multiset<nat>, deep: bool)
    requires PlainHeld(c) && Kept(true, deep, h, c, known, loose)
    ensures var (_, d, h') := PackedLoop(f, c, capacity, body, h); Kept(true, deep, h', d, known, loose)
    decreases |body|
  {
    if body != [] {
      GrowAccount(f, c, capacity, |body|, h, known, loose, deep);
      GrowSound(f, c, capacity, |body|, h);
      var (room, d, n, h') := GrowInto(f, c, capacity, |body|, h);
      var p := Decode.DecodeScalar(f, body);
      if room && p.Ok? {
        PlainKept(h', d, known, loose, deep);
        PlainKept(h', Counted(d), known, loose, deep);
        PackedLoopAccount(f, Counted(d), n, p.rest, h', known, loose, deep);
      }
    }
  }

  lemma PackedAccount(f: Field, c: Cell, s: seq<Byte>, h: Heap, known: multiset<nat>, loose: multiset<nat>, deep: bool)
    requires PlainHeld(c) && Kept(true, deep, h, c, known, loose)
    ensures var r := PackedInto(f, c, s, h); Kept(true, deep, r.h, r.c, known, loose)
  {
    var p := Decode.Delimited(s);
    if p.Ok? {
      PackedLoopAccount(f, c, CountOf(c), p.value, h, known, loose, deep);
    }
  }

  // ---------------------------------------------------------- submessages

  lemma {:induction false} StructAccount(fields: seq<Field>, repeated: bool, c: Cell, s: seq<Byte>, h: Heap,
                                         known: multiset<nat>, loose: multiset<nat>, deep: bool)
    requires HeapSchema(fields) && SoundStruct(fields, c, !repeated) && Kept(true, deep, h, c, known, loose)
    ensures var r := StructInto(fields, repeated, c, s, h); Kept(r.ok, deep, r.h, r.c, known, loose)
    decreases |s|, 0
  {
    var p := Decode.Delimited(s);
    if p.Ok? {
      if repeated {
        MessageAccount(fields, c.members, p.value, h, known, loose, deep);
      } else {
        NoinitAccount(fields, c.members, p.value, h, known, loose, deep);
      }
    } else {
      HoldsIsBroken(h, known + OwnCell(c, true), loose + Loose(c, deep));
    }
  }

  /** Counting an element brings no block of ours into use. */
  lemma CountNextOwns(f: Field, c: Cell, deep: bool)
    requires f.htype.Repeated? && SoundArray(f, c) && !Wraps(f, c)
    ensures OwnCell(CountNext(f, c), true) == OwnCell(c, true) && Loose(CountNext(f, c), deep) == Loose(c, deep)
  {
    if !FixedCount(f) && c.count < f.arraySize {
      var next, later := c.spare[0], c.spare[1..];
      EmptySum(OwnCell(next, true), Own(later, true));
      NothingInside(next);
      OwnMore(c.items, next, true);
      LooseMore(c.items, next, deep);
    }
  }

  /** What lies around an element of an array. */
  function Beside(c: Cell, place: nat, deep: bool): multiset<nat>
    requires c.Array? && place < |c.items|
  {
    LooseOthers(c.items, place, deep) + if deep then LooseAll(c.spare, deep) else multiset{}
  }

  lemma ElementShare(c: Cell, place: nat, item: Cell, h: Heap, ok: bool, known: multiset<nat>, loose: multiset<nat>,
                     deep: bool)
    requires c.Array? && place < |c.items|
    ensures Kept(ok, deep, h, PutItem(c, place, item), known, loose)
            <==> Kept(ok, deep, h, item, known + Others(c.items, place, true), loose + Beside(c, place, deep))
  {
    OwnUpdate(c.items, place, item, true);
    LooseUpdate(c.items, place, item, deep);
    var d := PutItem(c, place, item);
    assert known + OwnCell(d, true) == known + Others(c.items, place, true) + OwnCell(item, true);
    assert loose + Loose(d, deep) == loose + Beside(c, place, deep) + Loose(item, deep);
  }

  lemma SameItem(c: Cell, place: nat)
    requires c.Array? && place < |c.items|
    ensures PutItem(c, place, ItemAt(c, place)) == c
  {
  }

  lemma {:induction false} ElementAccount(f: Field, c: Cell, fixedCount: nat, s: seq<Byte>, h: Heap,
                                          known: multiset<nat>, loose: multiset<nat>, deep: bool)
    requires HeapField(f) && f.ltype.LSubmessage? && f.htype.Repeated? && SoundArray(f, c)
             && Kept(true, deep, h, c, known, loose)
    ensures var r := ElementInto(f, c, fixedCount, s, h); Kept(r.ok, deep, r.h, r.c, known, loose)
    decreases |s|, 1
  {
    var place, d := PlaceOf(f, c, fixedCount), CountNext(f, c);
    if Wraps(f, c) {
      WrapAccount(f, c, h, known, loose, deep);
    } else {
      CountNextOwns(f, c, deep);
      assert Kept(true, deep, h, d, known, loose);
    }
    if place < f.arraySize {
      ElementThere(f, c, fixedCount);
      var item := ItemAt(d, place);
      var others, around := known + Others(d.items, place, true), loose + Beside(d, place, deep);
      SameItem(d, place);
      ElementShare(d, place, item, h, true, known, loose, deep);
      StructAccount(f.sub, true, item, s, h, others, around, deep);
      var r := StructInto(f.sub, true, item, s, h);
      ElementShare(d, place, r.c, r.h, r.ok, known, loose, deep);
    } else {
      HoldsIsBroken(CountedHeap(f, c, h), known + OwnCell(d, true), loose + Loose(d, deep));
    }
  }

  /** A count that goes from its maximum to zero loses the blocks of all elements. */
  lemma WrapAccount(f: Field, c: Cell, h: Heap, known: multiset<nat>, loose: multiset<nat>, deep: bool)
    requires f.htype.Repeated? && SoundArray(f, c) && Wraps(f, c) && Kept(true, deep, h, c, known, loose)
    ensures Kept(true, deep, CountedHeap(f, c, h), CountNext(f, c), known, loose)
  {
    var d := Emptied(c);
    EmptiedSound(f, c, deep);
    assert OwnCell(d, true) == multiset{} && OwnCell(c, true) - OwnCell(d, true) == OwnCell(c, true);
    ForgetHolds(h, known, loose, OwnCell(c, true), Loose(c, deep), OwnCell(d, true), Loose(d, deep));
  }

  lemma {:induction false} InPlaceAccount(f: Field, wireType: nat, c: Cell, fixedCount: nat, s: seq<Byte>, h: Heap,
                                          known: multiset<nat>, loose: multiset<nat>, deep: bool)
    requires HeapField(f) && f.atype.Static? && Sound(f, c, true) && Kept(true, deep, h, c, known, loose)
    ensures var r := InPlaceInto(f, wireType, c, fixedCount, s, h); Kept(r.ok, deep, r.h, r.c, known, loose)
    decreases |s|, 2
  {
    HoldsIsBroken(h, known + OwnCell(c, true), loose + Loose(c, deep));
    if f.ltype.LSubmessage? {
      if f.htype.Repeated? {
        ElementAccount(f, c, fixedCount, s, h, known, loose, deep);
      } else {
        StructAccount(f.sub, false, c, s, h, known, loose, deep);
      }
    }
  }

  // ------------------------------------------------------- pointer fields

  lemma BlockKept(ok: bool, deep: bool, h: Heap, q: nat, count: nat, items: seq<Cell>, known: multiset<nat>,
                  loose: multiset<nat>)
    ensures Kept(ok, deep, h, NewBlock(q, count, items), known, loose)
            <==> Balanced(ok || deep, h, known + multiset{q} + Own(items, true), loose + LooseAll(items, true))
  {
    var c := NewBlock(q, count, items);
    assert known + OwnCell(c, true) == known + multiset{q} + Own(items, true);
    assert Loose(c, deep) == LooseAll(items, true);
  }

  lemma HoldsLess(h: Heap, known: multiset<nat>, loose: multiset<nat>, less: multiset<nat>)
    requires Holds(h, known, loose) && less <= loose
    ensures Holds(h, known, less)
  {
  }

  lemma {:induction false} NewStructAccount(f: Field, s: seq<Byte>, h: Heap, known: multiset<nat>,
                                            loose: multiset<nat>, deep: bool)
    requires HeapField(f) && f.ltype.LSubmessage? && Holds(h, known, loose)
    ensures var r := NewStructInto(f, s, h); Kept(true, deep, r.h, r.c, known, loose)
    decreases |s|, 1
  {
    var (q, h') := AllocateField(h, None, f.dataSize, 1);
    assert known + Ids(None) == known;
    ReallocHolds(h, None, known, loose);
    if q.Some? {
      InitialSound(f.sub);
      var item, mine := Initial(f.sub), known + multiset{q.value};
      assert mine + OwnCell(item, true) == mine && loose + Loose(item, true) == loose;
      StructAccount(f.sub, false, item, s, h', mine, loose, true);
      var r := StructInto(f.sub, false, item, s, h');
      OwnOne(r.c, true);
      LooseOne(r.c, true);
      BlockKept(true, deep, r.h, q.value, 0, [r.c], known, loose);
    } else {
      PlainKept(h', Link(None), known, loose, deep);
    }
  }

  /** The release of a duplicate. */
  lemma OldBlockReleased(c: Cell, h: Heap, known: multiset<nat>, loose: multiset<nat>, deep: bool)
    requires c.Link? && (c.block.Some? ==> c.block.value.ours) && Kept(true, deep, h, c, known, loose)
    ensures Holds(if IdOf(c).Some? then ReleasedCell(h, c) else h, known, loose)
  {
    if c.block.Some? {
      StaleAreLoose(c.block.value.items);
      WildAreLoose(c.block.value.items);
      if HasWild(c) {
        LooseMeansLost(h, known + OwnCell(c, true), loose, Loose(c, deep));
      }
      HoldsLess(h, known + OwnCell(c, true), loose + Loose(c, deep), loose + OwnCell(c, false));
      ReleaseHolds(h, known, OwnCell(c, true), OwnCell(c, false), HasWild(c), loose);
    } else {
      PlainKept(h, c, known, loose, deep);
      assert known + Ids(None) == known;
    }
  }

  lemma {:induction false} PointerAccount(f: Field, c: Cell, s: seq<Byte>, h: Heap, known: multiset<nat>,
                                          loose: multiset<nat>, deep: bool)
    requires HeapField(f) && f.atype.Pointer? && !f.htype.Repeated? && Sound(f, c, true)
             && Kept(true, deep, h, c, known, loose)
    ensures var r := PointerInto(f, c, s, h); Kept(true, deep, r.h, r.c, known, loose)
    decreases |s|, 2
  {
    if f.ltype.LSubmessage? {
      OldBlockReleased(c, h, known, loose, deep);
      NewStructAccount(f, s, if IdOf(c).Some? then ReleasedCell(h, c) else h, known, loose, deep);
    } else {
      PlainSound(f, c);
      BlobAccount(f, c, s, h, known, loose, deep);
      ScalarAccount(f, c, 1, 0, s, h, known, loose, deep);
    }
  }

  lemma {:induction false} ItemAccount(f: Field, s: seq<Byte>, h: Heap, known: multiset<nat>, loose: multiset<nat>)
    requires HeapField(f) && f.htype.Repeated? && (f.ltype.LSubmessage? || BlobArray(f)) && Holds(h, known, loose)
    ensures var r := ItemInto(f, s, h); Kept(true, true, r.h, r.c, known, loose)
    decreases |s|, 1
  {
    if f.ltype.LSubmessage? {
      InitialSound(f.sub);
      HeldStruct(f.sub, Initial(f.sub));
      var item := Initial(f.sub);
      assert known + OwnCell(item, true) == known && loose + Loose(item, true) == loose;
      StructAccount(f.sub, true, item, s, h, known, loose, true);
    } else {
      assert known + Ids(None) == known;
      PlainKept(h, Link(None), known, loose, true);
      BlobAccount(f, Link(None), s, h, known, loose, true);
    }
  }

  /** The block of an array with its items beside it. */
  lemma LinkShare(c: Cell, h: Heap, known: multiset<nat>, loose: multiset<nat>, deep: bool)
    requires c.Link? && (c.block.Some? ==> c.block.value.ours)
    ensures Kept(true, deep, h, c, known, loose)
            <==> Holds(h, known + Own(ItemsOf(c), true) + Ids(IdOf(c)), loose + LooseAll(ItemsOf(c), true))
  {
    assert known + OwnCell(c, true) == known + Own(ItemsOf(c), true) + Ids(IdOf(c));
    assert Loose(c, deep) == LooseAll(ItemsOf(c), true);
  }

  lemma GrownKept(items: seq<Cell>, item: Cell, q: nat, count: nat, h: Heap, known: multiset<nat>,
                  loose: multiset<nat>, deep: bool)
    requires Kept(true, true, h, item, known + Own(items, true) + multiset{q}, loose + LooseAll(items, true))
    ensures Kept(true, deep, h, NewBlock(q, count, items + [item]), known, loose)
  {
    OwnMore(items, item, true);
    LooseMore(items, item, true);
    BlockKept(true, deep, h, q, count, items + [item], known, loose);
    InBetween(known, multiset{q}, Own(items, true), OwnCell(item, true));
    assert loose + (LooseAll(items, true) + Loose(item, true)) == loose + LooseAll(items, true) + Loose(item, true);
  }

  lemma InBetween(a: multiset<nat>, b: multiset<nat>, c: multiset<nat>, d: multiset<nat>)
    ensures a + b + (c + d) == a + c + b + d
  {
  }

  /** The block of an array is asked for again, for one more item. */
  lemma GrowRequest(f: Field, c: Cell, h: Heap, known: multiset<nat>, loose: multiset<nat>, deep: bool)
    requires f.dataSize > 0 && c.Link? && (c.block.Some? ==> c.block.value.ours) && Kept(true, deep, h, c, known, loose)
    ensures var (q, h') := AllocateField(h, IdOf(c), f.dataSize, CountOf(c) + 1);
            if q.Some? then
              Holds(h', known + Own(ItemsOf(c), true) + multiset{q.value}, loose + LooseAll(ItemsOf(c), true))
            else Kept(true, deep, h', c, known, loose)
  {
    LinkShare(c, h, known, loose, deep);
    ReallocHolds(h, IdOf(c), known + Own(ItemsOf(c), true), loose + LooseAll(ItemsOf(c), true));
    LinkShare(c, AllocateField(h, IdOf(c), f.dataSize, CountOf(c) + 1).1, known, loose, deep);
  }

  lemma {:induction false} GrownAccount(f: Field, c: Cell, s: seq<Byte>, h: Heap, known: multiset<nat>,
                                        loose: multiset<nat>, deep: bool)
    requires HeapField(f) && f.atype.Pointer? && f.htype.Repeated? && Sound(f, c, true)
             && (f.ltype.LSubmessage? || BlobArray(f))
    requires Kept(true, deep, h, c, known, loose)
    ensures var r := GrownInto(f, c, s, h); Kept(true, deep, r.h, r.c, known, loose)
    decreases |s|, 2
  {
    GrowRequest(f, c, h, known, loose, deep);
    var (q, h') := AllocateField(h, IdOf(c), f.dataSize, CountOf(c) + 1);
    if q.Some? {
      var items := ItemsOf(c);
      ItemAccount(f, s, h', known + Own(items, true) + multiset{q.value}, loose + LooseAll(items, true));
      var r := ItemInto(f, s, h');
      GrownKept(items, r.c, q.value, CountOf(c) + 1, r.h, known, loose, deep);
    }
  }

  lemma {:induction false} OneMoreAccount(f: Field, c: Cell, s: seq<Byte>, h: Heap, known: multiset<nat>,
                                          loose: multiset<nat>, deep: bool)
    requires HeapField(f) && f.atype.Pointer? && f.htype.Repeated? && Sound(f, c, true)
             && Kept(true, deep, h, c, known, loose)
    ensures var r := OneMoreInto(f, c, s, h); Kept(true, deep, r.h, r.c, known, loose)
    decreases |s|, 3
  {
    if CountOf(c) == SIZE_MAX {
    } else if f.ltype.LSubmessage? || BlobArray(f) {
      GrownAccount(f, c, s, h, known, loose, deep);
    } else {
      PlainSound(f, c);
      ScalarAccount(f, c, CountOf(c) + 1, CountOf(c) + 1, s, h, known, loose, deep);
    }
  }

  lemma {:induction false} FieldAccount(f: Field, wireType: nat, c: Cell, fixedCount: nat, s: seq<Byte>, h: Heap,
                                        known: multiset<nat>, loose: multiset<nat>, deep: bool)
    requires HeapField(f) && Sound(f, c, true) && Kept(true, deep, h, c, known, loose)
    ensures var r := FieldInto(f, wireType, c, fixedCount, s, h); Kept(r.ok, deep, r.h, r.c, known, loose)
    decreases |s|, 4
  {
    if f.atype.Static? {
      InPlaceAccount(f, wireType, c, fixedCount, s, h, known, loose, deep);
    } else {
      if !f.htype.Repeated? {
        PointerAccount(f, c, s, h, known, loose, deep);
      } else if wireType == Decode.WT_STRING && Packable(f.ltype) {
        PlainSound(f, c);
        PackedAccount(f, c, s, h, known, loose, deep);
      } else {
        OneMoreAccount(f, c, s, h, known, loose, deep);
      }
      var r := FieldInto(f, wireType, c, fixedCount, s, h);
      HoldsIsBroken(r.h, known + OwnCell(r.c, true), loose + Loose(r.c, deep));
    }
  }

  // -------------------------------------------------------------- messages

  lemma MemberShare(cs: seq<Cell>, i: nat, c: Cell, h: Heap, ok: bool, known: multiset<nat>, loose: multiset<nat>,
                    deep: bool)
    requires i < |cs|
    ensures KeptAll(ok, deep, h, cs[i := c], known, loose)
            <==> Kept(ok, deep, h, c, known + Others(cs, i, true), loose + LooseOthers(cs, i, deep))
  {
    OwnUpdate(cs, i, c, true);
    LooseUpdate(cs, i, c, deep);
    assert known + Own(cs[i := c], true) == known + Others(cs, i, true) + OwnCell(c, true);
    assert loose + LooseAll(cs[i := c], deep) == loose + LooseOthers(cs, i, deep) + Loose(c, deep);
  }

  lemma {:induction false} KnownAccount(fields: seq<Field>, i: nat, wireType: nat, st: Memory, s: seq<Byte>,
                                        known: multiset<nat>, loose: multiset<nat>, deep: bool)
    requires HeapSchema(fields) && SoundAll(fields, st.cs, true) && i < |fields|
             && KeptAll(true, deep, st.h, st.cs, known, loose)
    ensures var r := KnownInto(fields, i, wireType, st, s); KeptAll(r.Next?, deep, r.st.h, r.st.cs, known, loose)
    decreases |s|, 5
  {
    var fresh' := Restarts(fields, i, st);
    if fresh' && !Decode.FixedDone(fields, Progress(st)) {
      HoldsIsBroken(st.h, known + Own(st.cs, true), loose + LooseAll(st.cs, deep));
    } else {
      assert HeapField(fields[i]) && Sound(fields[i], st.cs[i], true);
      var f, c, others, around := fields[i], st.cs[i], known + Others(st.cs, i, true),
        loose + LooseOthers(st.cs, i, deep);
      var count, h := if fresh' then 0 else st.fixedCount, if fresh' then Begin(f, c, st.h) else st.h;
      assert st.cs[i := c] == st.cs;
      MemberShare(st.cs, i, c, st.h, true, known, loose, deep);
      FieldAccount(f, wireType, c, count, s, h, others, around, deep);
      var r := FieldInto(f, wireType, c, count, s, h);
      MemberShare(st.cs, i, r.c, r.h, r.ok, known, loose, deep);
    }
  }

  lemma {:induction false} RecordAccount(fields: seq<Field>, st: Memory, s: seq<Byte>, known: multiset<nat>,
                                         loose: multiset<nat>, deep: bool)
    requires HeapSchema(fields) && SoundAll(fields, st.cs, true) && KeptAll(true, deep, st.h, st.cs, known, loose)
    ensures var r := RecordInto(fields, st, s); var st' := After(r, st);
            KeptAll(!r.Stuck?, deep, st'.h, st'.cs, known, loose)
    decreases |s|, 6
  {
    var t := DecodeTag(s);
    if t.Tag? && FindTag(fields, t.number).Some? {
      KnownAccount(fields, FindTag(fields, t.number).value, t.wireType, st, t.rest, known, loose, deep);
    } else {
      HoldsIsBroken(st.h, known + Own(st.cs, true), loose + LooseAll(st.cs, deep));
    }
  }

  lemma {:induction false} RecordsAccount(fields: seq<Field>, st: Memory, s: seq<Byte>, known: multiset<nat>,
                                          loose: multiset<nat>, deep: bool)
    requires HeapSchema(fields) && SoundAll(fields, st.cs, true) && KeptAll(true, deep, st.h, st.cs, known, loose)
    ensures var r := RecordsInto(fields, st, s); KeptAll(r.Done?, deep, r.st.h, r.st.cs, known, loose)
    decreases |s|, 7
  {
    if s != [] {
      RecordAccount(fields, st, s, known, loose, deep);
      RecordSound(fields, st, s);
      var r := RecordInto(fields, st, s);
      if r.Next? {
        RecordsAccount(fields, r.st, r.rest, known, loose, deep);
      }
    }
  }

  /** `pb_decode_noinit` keeps the law. */
  lemma {:induction false} NoinitAccount(fields: seq<Field>, cs: seq<Cell>, s: seq<Byte>, h: Heap, known: multiset<nat>,
                                         loose: multiset<nat>, deep: bool)
    requires HeapSchema(fields) && SoundAll(fields, cs, true) && KeptAll(true, deep, h, cs, known, loose)
    ensures var r := NoinitInto(fields, cs, s, h); KeptAll(r.ok, deep, r.h, r.cs, known, loose)
    decreases |s|, 8
  {
    var st := Memory(cs, {}, None, 0, h);
    RecordsAccount(fields, st, s, known, loose, deep);
    var r := RecordsInto(fields, st, s);
    if r.Done? {
      HoldsIsBroken(r.st.h, known + Own(r.st.cs, true), loose + LooseAll(r.st.cs, deep));
    }
  }

  /** What `pb_release` does after a failure. */
  lemma FailureKept(fields: seq<Field>, cs: seq<Cell>, h: Heap, known: multiset<nat>, loose: multiset<nat>, deep: bool)
    requires SoundAll(fields, cs, false) && KeptAll(false, deep, h, cs, known, loose)
    ensures KeptAll(false, deep, ReleasedAll(h, cs), Cleared(fields, cs), known, loose)
  {
    ClearedSound(fields, cs);
    var ds := Cleared(fields, cs);
    assert known + Own(ds, true) == known;
    if deep {
      WildAreLoose(cs);
      if AnyWild(cs) {
        LooseMeansLost(h, known + Own(cs, true), loose, LooseAll(cs, true));
      }
      HoldsLess(h, known + Own(cs, true), loose + LooseAll(cs, true), loose + LooseAll(ds, true) + Own(cs, false));
      ReleaseHolds(h, known, Own(cs, true), Own(cs, false), AnyWild(cs), loose + LooseAll(ds, true));
    } else {
      ReleaseBroken(h, known, Own(cs, true), Own(cs, false), AnyWild(cs));
    }
  }

  /** `pb_decode` keeps the law, inside of a run and as the whole of it. */
  lemma {:induction false} MessageAccount(fields: seq<Field>, cs: seq<Cell>, s: seq<Byte>, h: Heap,
                                          known: multiset<nat>, loose: multiset<nat>, deep: bool)
    requires HeapSchema(fields) && SoundAll(fields, cs, false) && KeptAll(true, deep, h, cs, known, loose)
    ensures var r := MessageInto(fields, cs, s, h); KeptAll(r.ok, deep, r.h, r.cs, known, loose)
    decreases |s|, 9
  {
    var ds, h' := DefaultCells(fields, cs), h.(lost := h.lost + Forgotten(fields, cs));
    DefaultsSound(fields, cs, deep);
    ForgetHolds(h, known, loose, Own(cs, true), LooseAll(cs, deep), Own(ds, true), LooseAll(ds, deep));
    NoinitAccount(fields, ds, s, h', known, loose, deep);
    NoinitSound(fields, ds, s, h');
    var r := NoinitInto(fields, ds, s, h');
    if !r.ok {
      FailureKept(fields, r.cs, r.h, known, loose, deep);
    }
  }
}
