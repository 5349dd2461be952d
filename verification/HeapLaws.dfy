/**
 What `pb_decode` and `pb_release` together leave of the heap: the results, and
 the inputs at which they are not what one would want.
 */
module HeapLaws {
  import opened Wire
  import opened Varint
  import opened Schema
  import opened Blocks
  import opened Storage
  import opened HeapDecode
  import opened Shapes
  import opened Accounts
  import opened Forgetting

  /** The record of a heap before a run. */
  predicate Blank(h: Heap) {
    !h.fault && h.lost == multiset{} && h.stolen == multiset{} && !h.wrecked && !h.begun && !h.wrapped
  }

  /** Storage before a run: of the right kind, and without pointers to blocks of the run. */
  ghost predicate Before(fields: seq<Field>, cs: seq<Cell>) {
    HeapSchema(fields) && SoundAll(fields, cs, false) && Own(cs, true) == multiset{}
  }

  /** The elements of its arrays have no pointers; what the pointers outside of arrays are does
      not matter. */
  predicate Clean(fields: seq<Field>, cs: seq<Cell>) {
    LooseAll(DefaultCells(fields, cs), true) == multiset{}
  }

  /** `pb_decode`, and `pb_release` after a success. */
  function Whole(fields: seq<Field>, cs: seq<Cell>, s: seq<Byte>, h: Heap): Outs {
    var r := MessageInto(fields, cs, s, h);
    if r.ok then Outs(true, Cleared(fields, r.cs), r.rest, ReleasedAll(r.h, r.cs)) else r
  }

  /** The heap is as if nothing had happened. */
  predicate Untouched(h: Heap, h': Heap) {
    !h'.fault && h'.live == h.live
  }

  // ------------------------------------------------------------- accounts

  lemma SameSet(a: set<nat>, b: set<nat>)
    requires multiset(a) == multiset(b)
    ensures a == b
  {
    forall x
      ensures x in a <==> x in b
    {
      assert x in a <==> x in multiset(a);
      assert x in b <==> x in multiset(b);
    }
  }

  lemma BlankKept(fields: seq<Field>, cs: seq<Cell>, h: Heap, deep: bool)
    requires Before(fields, cs) && Blank(h) && (deep ==> LooseAll(cs, true) == multiset{})
    ensures KeptAll(true, deep, h, cs, multiset(h.live), multiset{})
  {
    NothingInsideAll(cs);
    assert multiset(h.live) + Own(cs, true) == multiset(h.live);
  }

  /** `pb_decode` from storage of any kind, clean or not. After a success every live block was live
      before, or the struct owns it, or it is lost, unless a pointer to nowhere has been freed; after
      a failure the struct owns nothing. */
  lemma DecodeAccount(fields: seq<Field>, cs: seq<Cell>, s: seq<Byte>, h: Heap)
    requires Before(fields, cs) && Blank(h)
    ensures var r := MessageInto(fields, cs, s, h);
            && (r.ok && !r.h.wrecked ==>
                  && !r.h.fault && r.h.stolen <= r.h.lost
                  && multiset(r.h.live) + r.h.stolen == multiset(h.live) + Own(r.cs, true) + r.h.lost)
            && (r.ok && r.h.wrecked ==> r.h.fault && r.h.lost != multiset{})
            && (!r.ok ==> Own(r.cs, true) == multiset{} && Own(r.cs, false) == multiset{} && !AnyWild(r.cs))
            && (!r.ok ==> Broken(r.h, multiset(h.live)))
  {
    BlankKept(fields, cs, h, false);
    MessageAccount(fields, cs, s, h, multiset(h.live), multiset{}, false);
    var r := MessageInto(fields, cs, s, h);
    if !r.ok {
      FailedOwnsNothing(fields, cs, s, h);
      assert multiset(h.live) + Own(r.cs, true) == multiset(h.live);
    }
  }

  lemma FailedOwnsNothing(fields: seq<Field>, cs: seq<Cell>, s: seq<Byte>, h: Heap)
    requires HeapSchema(fields) && SoundAll(fields, cs, false)
    ensures var r := MessageInto(fields, cs, s, h);
            !r.ok ==> Own(r.cs, true) == multiset{} && Own(r.cs, false) == multiset{} && !AnyWild(r.cs)
  {
    var ds, h' := DefaultCells(fields, cs), h.(lost := h.lost + Forgotten(fields, cs));
    DefaultsSound(fields, cs, true);
    NoinitSound(fields, ds, s, h');
    var r := NoinitInto(fields, ds, s, h');
    SoundAtLeast(fields, r.cs, r.ok);
    ClearedSound(fields, r.cs);
  }

  lemma WholeBroken(fields: seq<Field>, cs: seq<Cell>, s: seq<Byte>, h: Heap)
    requires Before(fields, cs) && Blank(h)
    ensures Broken(Whole(fields, cs, s, h).h, multiset(h.live))
  {
    DecodeAccount(fields, cs, s, h);
    var r := MessageInto(fields, cs, s, h);
    if r.ok {
      assert Broken(r.h, multiset(h.live) + Own(r.cs, true));
      ReleaseBroken(r.h, multiset(h.live), Own(r.cs, true), Own(r.cs, false), AnyWild(r.cs));
    }
  }

  /** For any schema, storage, bytes and allocator: `pb_decode`, with `pb_release` after a success,
      leaves the heap untouched exactly when no pointer to nowhere was freed and the stale pointers
      that were freed are to the blocks that were lost; in particular when there are none of either. */
  lemma UntouchedExactly(fields: seq<Field>, cs: seq<Cell>, s: seq<Byte>, h: Heap)
    requires Before(fields, cs) && Blank(h)
    ensures var h' := Whole(fields, cs, s, h).h; Untouched(h, h') <==> !h'.wrecked && h'.stolen == h'.lost
  {
    WholeBroken(fields, cs, s, h);
    var h' := Whole(fields, cs, s, h).h;
    if !h'.wrecked {
      SameLive(h.live, h');
    }
  }

  lemma SameLive(live: set<nat>, h: Heap)
    requires !h.wrecked && Broken(h, multiset(live))
    ensures !h.fault && h.live == live <==> h.stolen == h.lost
  {
    var before, after := multiset(live), multiset(h.live);
    if !h.fault && h.live == live {
      forall x
        ensures h.stolen[x] == h.lost[x]
      {
        assert (after + h.stolen)[x] == (before + h.lost)[x];
      }
    } else if h.stolen == h.lost {
      forall x
        ensures after[x] == before[x]
      {
        assert (after + h.stolen)[x] == (before + h.lost)[x];
      }
      SameSet(h.live, live);
    }
  }

  /** After a success a block is lost exactly when a fixed-count array was begun whose elements
      would forget one. After a failure that is one reason; the only other one is a count that went
      from its maximum to zero, which always loses a block. With a steady schema none is lost. */
  lemma LostExactly(fields: seq<Field>, cs: seq<Cell>, s: seq<Byte>, h: Heap)
    requires Before(fields, cs) && Blank(h)
    ensures var r := MessageInto(fields, cs, s, h);
            && (r.ok ==> !r.h.wrapped && (r.h.lost != multiset{} <==> r.h.begun))
            && (r.h.lost != multiset{} ==> r.h.begun || r.h.wrapped)
            && (r.h.wrapped ==> r.h.lost != multiset{})
            && (Steady(fields) ==> r.h.lost == multiset{} && !r.h.begun && !r.h.wrapped)
  {
    assert Forgotten(fields, cs) == multiset{};
    MessageTracked(fields, cs, s, h);
  }

  // ----------------------------------------------------------------- clean

  /** From defaults on clean storage the law holds whether or not the run succeeds. */
  lemma CleanDecode(fields: seq<Field>, cs: seq<Cell>, s: seq<Byte>, h: Heap)
    requires Before(fields, cs) && Blank(h) && Clean(fields, cs)
    ensures var r := MessageInto(fields, cs, s, h);
            KeptAll(true, true, r.h, r.cs, multiset(h.live), multiset{}) && SoundAll(fields, r.cs, false)
  {
    var ds := DefaultCells(fields, cs);
    DefaultsSound(fields, cs, true);
    assert Own(ds, true) == multiset{};
    assert Forgotten(fields, cs) == multiset{};
    var h' := h.(lost := h.lost + Forgotten(fields, cs));
    assert h' == h;
    HeldAllSound(fields, ds);
    BlankKept(fields, ds, h, true);
    NoinitAccount(fields, ds, s, h, multiset(h.live), multiset{}, true);
    NoinitSound(fields, ds, s, h);
    var r := NoinitInto(fields, ds, s, h);
    MessageSound(fields, cs, s, h);
    SoundAtLeast(fields, MessageInto(fields, cs, s, h).cs, MessageInto(fields, cs, s, h).ok);
    SoundAtLeast(fields, r.cs, r.ok);
    if !r.ok {
      FailureKept(fields, r.cs, r.h, multiset(h.live), multiset{}, true);
    }
  }

  /** From clean storage nothing is ever freed that is not live, and no block from before the call
      is freed, unless a pointer to nowhere is freed; the heap can only have lost blocks of the run
      besides. A pointer to nowhere is freed only after its block was lost. */
  lemma CleanWhole(fields: seq<Field>, cs: seq<Cell>, s: seq<Byte>, h: Heap)
    requires Before(fields, cs) && Blank(h) && Clean(fields, cs)
    ensures var r := Whole(fields, cs, s, h);
            && SoundAll(fields, r.cs, false) && Own(r.cs, true) == multiset{}
            && (r.h.wrecked ==> r.h.fault && r.h.lost != multiset{})
            && (!r.h.wrecked ==> !r.h.fault && r.h.stolen + LooseAll(r.cs, true) <= r.h.lost)
            && (!r.h.wrecked ==> multiset(r.h.live) + r.h.stolen == multiset(h.live) + r.h.lost)
  {
    CleanDecode(fields, cs, s, h);
    FailedOwnsNothing(fields, cs, s, h);
    var r := MessageInto(fields, cs, s, h);
    var known := multiset(h.live);
    assert multiset{} + LooseAll(r.cs, true) == LooseAll(r.cs, true);
    if r.ok {
      ReleasedClean(fields, r.cs, r.h, known);
    } else {
      assert known + Own(r.cs, true) == known;
    }
  }

  /** `pb_release` of a struct whose stale pointers are to lost blocks. */
  lemma ReleasedClean(fields: seq<Field>, cs: seq<Cell>, h: Heap, known: multiset<nat>)
    requires SoundAll(fields, cs, false) && Holds(h, known + Own(cs, true), LooseAll(cs, true))
    ensures var ds := Cleared(fields, cs);
            SoundAll(fields, ds, false) && Own(ds, true) == multiset{}
              && Holds(ReleasedAll(h, cs), known, LooseAll(ds, true))
  {
    var ds := Cleared(fields, cs);
    ClearedSound(fields, cs);
    WildAreLoose(cs);
    if AnyWild(cs) {
      assert multiset{} + LooseAll(cs, true) == LooseAll(cs, true);
      LooseMeansLost(h, known + Own(cs, true), multiset{}, LooseAll(cs, true));
    }
    HoldsLess(h, known + Own(cs, true), LooseAll(cs, true), LooseAll(ds, true) + Own(cs, false));
    ReleaseHolds(h, known, Own(cs, true), Own(cs, false), AnyWild(cs), LooseAll(ds, true));
  }

  lemma StaysClean(fields: seq<Field>, cs: seq<Cell>)
    requires SoundAll(fields, cs, false) && Own(cs, true) == multiset{} && LooseAll(cs, true) == multiset{}
    ensures Clean(fields, cs)
  {
    DefaultsSound(fields, cs, true);
    EmptySum(LooseAll(DefaultCells(fields, cs), true), Own(DefaultCells(fields, cs), true));
  }

  /** Clean storage, no array begun whose elements forget a block, and no count beyond its maximum: the
      heap is untouched, whatever the bytes are and whichever allocations fail, and the storage is
      clean again. */
  lemma CleanUntouched(fields: seq<Field>, cs: seq<Cell>, s: seq<Byte>, h: Heap)
    requires Before(fields, cs) && Blank(h) && Clean(fields, cs)
    ensures var r := Whole(fields, cs, s, h);
            && (!r.h.begun && !r.h.wrapped ==> Untouched(h, r.h) && Blank(r.h))
            && (!r.h.begun && !r.h.wrapped ==> Before(fields, r.cs) && Clean(fields, r.cs))
  {
    var r := Whole(fields, cs, s, h);
    if !r.h.begun && !r.h.wrapped {
      LostExactly(fields, cs, s, h);
      CleanWhole(fields, cs, s, h);
      assert r.h.lost == MessageInto(fields, cs, s, h).h.lost == multiset{};
      EmptySum(r.h.stolen, LooseAll(r.cs, true));
      assert multiset(r.h.live) + multiset{} == multiset(r.h.live) && multiset(h.live) + multiset{} == multiset(h.live);
      SameSet(r.h.live, h.live);
      StaysClean(fields, r.cs);
    }
  }

  /** Any number of messages into the same struct, each released before the next. */
  function Many(fields: seq<Field>, cs: seq<Cell>, inputs: seq<seq<Byte>>, h: Heap): Heap
    decreases |inputs|
  {
    if inputs == [] then h
    else var r := Whole(fields, cs, inputs[0], h); Many(fields, r.cs, inputs[1..], r.h)
  }

  /** With a steady schema and a clean struct, for instance a zeroed one, the heap is untouched
      after any number of messages. */
  lemma {:induction false} ManyUntouched(fields: seq<Field>, cs: seq<Cell>, inputs: seq<seq<Byte>>, h: Heap)
    requires Before(fields, cs) && Blank(h) && Clean(fields, cs) && Steady(fields)
    ensures Untouched(h, Many(fields, cs, inputs, h))
    decreases |inputs|
  {
    if inputs != [] {
      var r := Whole(fields, cs, inputs[0], h);
      LostExactly(fields, cs, inputs[0], h);
      CleanUntouched(fields, cs, inputs[0], h);
      ManyUntouched(fields, r.cs, inputs[1..], r.h);
    }
  }

  /** Zeroed storage is clean. */
  lemma ZerosClean(fields: seq<Field>)
    requires HeapSchema(fields)
    ensures Before(fields, ZeroCells(fields)) && Clean(fields, ZeroCells(fields))
  {
    var zs := ZeroCells(fields);
    ZerosSound(fields);
    HeldAllSound(fields, zs);
    StaysClean(fields, zs);
  }
}
