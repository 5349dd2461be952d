/**
 The decoder as pb_decode.c runs it with PB_ENABLE_MALLOC: pointers that are
 allocated, moved and freed while the stream is read, proved against the
 functions of `HeapDecode`. Schemas are without unions and extensions.
 */
module Malloc {
  import opened Wire
  import opened Schema
  import opened InputStream
  import opened FieldIterator
  import opened Blocks
  import opened Storage
  import opened HeapDecode
  import opened Shapes
  import opened HeapLaws
  import Forgetting
  import Decode
  import Decoder
  import Bits

  // ---------------------------------------------------------------- heap

  /** The allocator, which answers from a script, and the record of the run. */
  class Allocator {
    var live: set<nat>
    var fault: bool
    var script: seq<Option<nat>>
    ghost var lost: multiset<nat>
    ghost var stolen: multiset<nat>
    ghost var wrecked: bool
    ghost var begun: bool
    ghost var wrapped: bool

    ghost function Now(): Heap
      reads this
    {
      Heap(live, fault, script, lost, stolen, wrecked, begun, wrapped)
    }

    constructor (live: set<nat>, script: seq<Option<nat>>)
      ensures Now() == NewHeap(live, script)
    {
      this.live, this.script, fault := live, script, false;
      lost, stolen, wrecked, begun, wrapped := multiset{}, multiset{}, false, false, false;
    }

    /** `pb_realloc` */
    method Realloc(p: Option<nat>) returns (q: Option<nat>)
      modifies this
      ensures (q, Now()) == HeapDecode.Realloc(old(Now()), p)
    {
      if p.Some? && p.value !in live {
        fault := true;
      }
      q := None;
      if script != [] {
        var answer := script[0];
        script := script[1..];
        var others := if p.Some? then live - {p.value} else live;
        if answer.Some? && answer.value !in others {
          live := others + {answer.value};
          q := answer;
        }
      }
    }

    /** `pb_free` of the block behind a pointer. */
    method Free(id: nat, ghost ours: bool)
      modifies this
      ensures Now() == Released(old(Now()), if ours then multiset{id} else multiset{},
                                if ours then multiset{} else multiset{id}, false)
    {
      ghost var freed := (if ours then multiset{id} else multiset{}) + (if ours then multiset{} else multiset{id});
      assert freed == multiset{id};
      assert freed <= multiset(live) <==> id in live;
      if id !in live {
        fault := true;
      }
      live := live - {id};
      stolen := stolen + if ours then multiset{} else multiset{id};
    }

    /** `pb_free` of a pointer to nowhere, or a walk over what seems to lie behind it. */
    method FreeNowhere()
      modifies this
      ensures Now() == Released(old(Now()), multiset{}, multiset{}, true)
    {
      ReleasedNothing(Now());
      fault := true;
      wrecked := true;
    }
  }

  /** `allocate_field` */
  method AllocateField(heap: Allocator, p: Option<nat>, dataSize: nat, arraySize: nat) returns (q: Option<nat>)
    modifies heap
    ensures (q, heap.Now()) == HeapDecode.AllocateField(old(heap.Now()), p, dataSize, arraySize)
  {
    if dataSize == 0 || arraySize == 0 {
      return None;
    }
    q := heap.Realloc(p);
  }

  // --------------------------------------------------------------- release

  lemma ReleasedNothing(h: Heap)
    ensures Released(h, multiset{}, multiset{}, false) == h
    ensures Released(h, multiset{}, multiset{}, true) == h.(fault := true, wrecked := true)
  {
    var none: multiset<nat> := multiset{};
    assert none + none == none;
    assert (set x | x in h.live && x !in none + none) == h.live;
  }

  /** Two releases are the release of all the blocks: each of them once, with a fault exactly when
      they are not all live or a pointer is to nowhere. */
  lemma ReleasedTwice(h: Heap, a: multiset<nat>, b: multiset<nat>, v: bool, c: multiset<nat>, d: multiset<nat>, w: bool)
    ensures Released(Released(h, a, b, v), c, d, w) == Released(h, a + c, b + d, v || w)
  {
    var h1, live := Released(h, a, b, v), multiset(h.live);
    var first, second, all := a + b, c + d, (a + c) + (b + d);
    assert forall x :: all[x] == first[x] + second[x];
    assert h1.live == set x | x in h.live && first[x] == 0;
    assert Released(h1, c, d, w).live == Released(h, a + c, b + d, v || w).live;
    if all <= live {
      forall x
        ensures first[x] <= live[x] && second[x] <= multiset(h1.live)[x]
      {
        assert all[x] <= live[x] <= 1;
      }
    } else if first <= live {
      var x :| all[x] > live[x];
      assert first[x] <= live[x];
      assert second[x] > multiset(h1.live)[x];
    }
    assert (h.stolen + b) + d == h.stolen + (b + d);
  }

  /** One more of the cells. */
  lemma ReleasedMore(h: Heap, cs: seq<Cell>, k: nat)
    requires k < |cs|
    ensures ReleasedCell(ReleasedAll(h, cs[..k]), cs[k]) == ReleasedAll(h, cs[..k + 1])
  {
    assert cs[..k + 1] == cs[..k] + [cs[k]];
    OwnMore(cs[..k], cs[k], true);
    OwnMore(cs[..k], cs[k], false);
    WildMore(cs[..k], cs[k]);
    ReleasedTwice(h, Own(cs[..k], true), Own(cs[..k], false), AnyWild(cs[..k]),
                  OwnCell(cs[k], true), OwnCell(cs[k], false), HasWild(cs[k]));
  }

  lemma ReleasedNone(h: Heap, cs: seq<Cell>)
    ensures ReleasedAll(h, cs[..0]) == h
  {
    ReleasedNothing(h);
  }

  /** The loop over the elements of `pb_release_single_field` */
  method ReleaseItems(heap: Allocator, fields: seq<Field>, items: seq<Cell>) returns (items': seq<Cell>)
    requires HeapSchema(fields) && SoundStructs(fields, items)
    modifies heap
    ensures heap.Now() == ReleasedAll(old(heap.Now()), items) && items' == ClearedStructs(fields, items)
    decreases fields, 2
  {
    items' := [];
    var k := 0;
    ReleasedNone(heap.Now(), items);
    while k < |items|
      invariant 0 <= k <= |items| && items' == ClearedStructs(fields, items)[..k]
      invariant heap.Now() == ReleasedAll(old(heap.Now()), items[..k])
    {
      assert SoundStruct(fields, items[k], false);
      ReleasedMore(old(heap.Now()), items, k);
      var members := Release(heap, fields, items[k].members);
      items' := items' + [Struct(members)];
      k := k + 1;
    }
    assert items[..|items|] == items;
  }

  /** The loop over the entries of a string or byte array. */
  method ReleaseEntries(heap: Allocator, items: seq<Cell>)
    requires PlainPointers(items)
    modifies heap
    ensures heap.Now() == ReleasedAll(old(heap.Now()), items)
  {
    var k := 0;
    ReleasedNone(heap.Now(), items);
    while k < |items|
      invariant 0 <= k <= |items|
      invariant heap.Now() == ReleasedAll(old(heap.Now()), items[..k])
    {
      assert PlainPointer(items[k]);
      ReleasedMore(old(heap.Now()), items, k);
      ReleasePlain(heap, items[k]);
      k := k + 1;
    }
    assert items[..|items|] == items;
  }

  method ReleasePlain(heap: Allocator, c: Cell)
    requires PlainPointer(c)
    modifies heap
    ensures heap.Now() == ReleasedCell(old(heap.Now()), c)
  {
    ReleasedNothing(heap.Now());
    if c.block.Some? {
      ItemsThenBlock(heap.Now(), c.block.value);
      heap.Free(c.block.value.id, c.block.value.ours);
    }
  }

  /** The block of a pointer, after whatever it points to. */
  method ReleaseBlock(heap: Allocator, f: Field, b: Block)
    requires HeapField(f) && SoundBlock(f, b)
    modifies heap
    ensures heap.Now() == ReleasedCell(old(heap.Now()), Link(Some(b)))
    decreases f, 2
  {
    if f.ltype.LSubmessage? {
      var items := ReleaseItems(heap, f.sub, b.items);
    } else if BlobArray(f) {
      ReleaseEntries(heap, b.items);
    } else {
      ReleasedNothing(heap.Now());
    }
    ItemsThenBlock(old(heap.Now()), b);
    heap.Free(b.id, b.ours);
  }

  lemma ItemsThenBlock(h: Heap, b: Block)
    ensures Released(ReleasedAll(h, b.items), if b.ours then multiset{b.id} else multiset{},
                     if b.ours then multiset{} else multiset{b.id}, false)
            == ReleasedCell(h, Link(Some(b)))
  {
    var ours := if b.ours then multiset{b.id} else multiset{};
    var stale := if b.ours then multiset{} else multiset{b.id};
    ReleasedTwice(h, Own(b.items, true), Own(b.items, false), AnyWild(b.items), ours, stale, false);
    assert OwnCell(Link(Some(b)), true) == Own(b.items, true) + ours;
    assert OwnCell(Link(Some(b)), false) == Own(b.items, false) + stale;
  }

  /** `pb_release_single_field` */
  method ReleaseField(heap: Allocator, f: Field, c: Cell) returns (c': Cell)
    requires HeapField(f) && Sound(f, c, false)
    modifies heap
    ensures heap.Now() == ReleasedCell(old(heap.Now()), c) && c' == ClearedCell(f, c)
    decreases f, 3
  {
    if f.atype.Pointer? {
      if c.Wild? {
        heap.FreeNowhere();
      } else if c.block.Some? {
        ReleaseBlock(heap, f, c.block.value);
      } else {
        ReleasedNothing(heap.Now());
      }
      return Link(None);
    }
    if !f.ltype.LSubmessage? {
      ReleasedNothing(heap.Now());
      return c;
    }
    if !f.htype.Repeated? {
      var members := Release(heap, f.sub, c.members);
      return Struct(members);
    }
    // As many elements as are counted; a count above the array size is one of a failed decode.
    var items := ReleaseItems(heap, f.sub, c.items);
    c' := Array(c.count, items, c.spare);
  }

  /** `pb_release`: the blocks that the struct owns and the stale pointers in use are freed, and no
      others, each of them once; with a fault exactly when they are not all live. */
  method Release(heap: Allocator, fields: seq<Field>, cs: seq<Cell>) returns (cs': seq<Cell>)
    requires HeapSchema(fields) && SoundAll(fields, cs, false)
    modifies heap
    ensures heap.Now() == ReleasedAll(old(heap.Now()), cs) && cs' == Cleared(fields, cs)
    decreases fields, 1
  {
    ReleasedNone(heap.Now(), cs);
    if fields == [] {
      assert cs[..0] == cs;
      return cs;
    }
    cs' := [];
    var iter := new FieldIter(fields, 0);
    var more := true;
    ghost var n := 0;
    while more
      invariant iter.Valid() && fresh(iter) && iter.fields == fields && n == if more then iter.pos else |fields|
      invariant cs' == Cleared(fields, cs)[..n]
      invariant heap.Now() == ReleasedAll(old(heap.Now()), cs[..n])
      decreases if more then |fields| - iter.pos else 0
    {
      assert HeapField(fields[iter.pos]) && Sound(fields[iter.pos], cs[iter.pos], false);
      ReleasedMore(old(heap.Now()), cs, iter.pos);
      var c := ReleaseField(heap, fields[iter.pos], cs[iter.pos]);
      cs' := cs' + [c];
      n := n + 1;
      more := iter.Next();
    }
    assert cs[..|fields|] == cs;
  }

  // --------------------------------------------------------- plain pointers

  /** `allocate_field` for the block of plain data behind a pointer. */
  method MoveBlock(heap: Allocator, c: Cell, dataSize: nat, arraySize: nat, count: nat) returns (ok: bool, c': Cell)
    modifies heap
    ensures (ok, c', heap.Now()) == Moved(old(heap.Now()), c, dataSize, arraySize, count)
  {
    var q := AllocateField(heap, IdOf(c), dataSize, arraySize);
    ok := q.Some?;
    c' := if ok then NewBlock(q.value, count, []) else c;
  }

  /** The part of `pb_dec_bytes` and `pb_dec_string` for pointers. */
  method DecodeBlob(stream: IStream, heap: Allocator, f: Field, c: Cell) returns (ok: bool, c': Cell)
    requires stream.Valid() && (f.ltype.LString? || f.ltype.LBytes?)
    modifies stream, heap
    ensures stream.Valid() && stream.End() == old(stream.End())
    ensures var r := BlobInto(f, c, old(stream.Rest()), old(heap.Now()));
            && ok == r.ok && c' == r.c && heap.Now() == r.h
            && (ok ==> stream.Rest() == r.rest)
  {
    c' := c;
    var size, eof, data;
    ok, size, eof := stream.DecodeVarint32Eof();
    if !ok {
      return;
    }
    var allocSize;
    if f.ltype.LString? {
      allocSize := (size + 1) % TWO32;
    } else {
      if size > SIZE_MAX {
        return false, c';
      }
      allocSize := size + SIZE_BYTES;
    }
    if allocSize < size {
      return false, c';
    }
    ok, c' := MoveBlock(heap, c, allocSize, 1, 0);
    if !ok {
      return;
    }
    ok, data := stream.Read(size);
  }

  /** A scalar behind a pointer, or behind the new end of an array. */
  method DecodeBehind(stream: IStream, heap: Allocator, f: Field, c: Cell, size: nat, count: nat)
    returns (ok: bool, c': Cell)
    requires stream.Valid() && f.dataSize <= SIZE_MAX && !f.ltype.LSubmessage? && !f.ltype.LExtension?
    modifies stream, heap
    ensures stream.Valid() && stream.End() == old(stream.End())
    ensures var r := ScalarInto(f, Moved(old(heap.Now()), c, f.dataSize, size, count), old(stream.Rest()));
            && ok == r.ok && c' == r.c && heap.Now() == r.h
            && (ok ==> stream.Rest() == r.rest)
  {
    var v;
    ok, c' := MoveBlock(heap, c, f.dataSize, size, count);
    if ok {
      ok, v := Decoder.DecScalar(stream, f);
    }
  }

  /** `decode_pointer_field` for a packed array: the block grows by a guess at what is left. */
  method DecodePackedBlock(stream: IStream, heap: Allocator, f: Field, c: Cell) returns (ok: bool, c': Cell)
    requires stream.Valid() && f.dataSize <= SIZE_MAX && Packable(f.ltype)
    modifies stream, heap
    ensures stream.Valid() && stream.End() <= old(stream.End())
    ensures var r := PackedInto(f, c, old(stream.Rest()), old(heap.Now()));
            && ok == r.ok && c' == r.c && heap.Now() == r.h
            && (ok ==> stream.Rest() == r.rest && stream.End() == old(stream.End()))
  {
    c' := c;
    var sub, status;
    ok, sub := stream.MakeSubstream();
    if !ok {
      return;
    }
    status, c' := DecodePackedItems(sub, heap, f, c);
    ok := stream.CloseSubstream(sub);
    if ok {
      ok := status;
    }
  }

  /** Its loop. */
  method DecodePackedItems(sub: IStream, heap: Allocator, f: Field, c: Cell) returns (status: bool, c': Cell)
    requires sub.Valid() && f.dataSize <= SIZE_MAX && Packable(f.ltype)
    modifies sub, heap
    ensures sub.Valid() && sub.End() == old(sub.End())
    ensures (status, c', heap.Now()) == PackedLoop(f, c, CountOf(c), old(sub.Rest()), old(heap.Now()))
  {
    ghost var all := PackedLoop(f, c, CountOf(c), sub.Rest(), heap.Now());
    c', status := c, true;
    var capacity := CountOf(c);
    while sub.bytesLeft > 0
      invariant sub.Valid() && sub.End() == old(sub.End()) && status
      invariant all == PackedLoop(f, c', capacity, sub.Rest(), heap.Now())
      decreases sub.bytesLeft
    {
      status, c', capacity := GrowBlock(heap, f, c', capacity, sub.bytesLeft);
      if !status {
        return;
      }
      var v;
      status, v := Decoder.DecScalar(sub, f);
      if !status {
        return;
      }
      c' := Counted(c');
    }
  }

  /** Room for one more entry. */
  method GrowBlock(heap: Allocator, f: Field, c: Cell, capacity: nat, bytesLeft: nat)
    returns (ok: bool, c': Cell, capacity': nat)
    modifies heap
    ensures (ok, c', capacity', heap.Now()) == GrowInto(f, c, capacity, bytesLeft, old(heap.Now()))
  {
    ok, c', capacity' := true, c, capacity;
    if CountOf(c) == SIZE_MAX {
      return false, c', capacity';
    }
    if CountOf(c) + 1 > capacity {
      capacity' := NextCapacity(capacity, bytesLeft, f.dataSize);
      ok, c' := MoveBlock(heap, c, f.dataSize, capacity', CountOf(c));
    }
  }

  // ---------------------------------------------------------- submessages

  /** `pb_dec_submessage` */
  method DecodeStruct(stream: IStream, heap: Allocator, fields: seq<Field>, repeated: bool, c: Cell)
    returns (ok: bool, c': Cell)
    requires stream.Valid() && HeapSchema(fields) && SoundStruct(fields, c, !repeated)
    modifies stream, heap
    ensures stream.Valid() && stream.End() <= old(stream.End())
    ensures var r := StructInto(fields, repeated, c, old(stream.Rest()), old(heap.Now()));
            && ok == r.ok && c' == r.c && heap.Now() == r.h
            && (ok ==> stream.Rest() == r.rest && stream.End() == old(stream.End()))
    decreases stream.bytesLeft, 0
  {
    c' := c;
    var sub, status, members;
    ok, sub := stream.MakeSubstream();
    if !ok {
      return;
    }
    if repeated {
      status, members := DecodeHeap(sub, heap, fields, c.members);
    } else {
      status, members := DecodeHeapNoinit(sub, heap, fields, c.members);
    }
    c' := Struct(members);
    ok := stream.CloseSubstream(sub);
    if ok {
      ok := status;
    }
  }

  /** The part of `decode_static_field` for arrays of submessages: the count goes up first, then
      the element is set to its defaults and decoded. */
  method DecodeElement(stream: IStream, heap: Allocator, f: Field, c: Cell, fixedCount: nat)
    returns (ok: bool, c': Cell, count: nat)
    requires stream.Valid() && HeapField(f) && f.ltype.LSubmessage? && f.htype.Repeated? && SoundArray(f, c)
    modifies stream, heap
    ensures stream.Valid() && stream.End() <= old(stream.End())
    ensures var r := ElementInto(f, c, fixedCount, old(stream.Rest()), old(heap.Now()));
            && ok == r.ok && c' == r.c && heap.Now() == r.h
            && (ok ==> count == r.count && stream.Rest() == r.rest && stream.End() == old(stream.End()))
    decreases stream.bytesLeft, 1
  {
    var place := if FixedCount(f) then fixedCount else c.count;
    count := if FixedCount(f) then Succ(fixedCount) else fixedCount;
    c' := CountNext(f, c);
    if place >= f.arraySize {
      if Wraps(f, c) {
        heap.lost := heap.lost + OwnCell(c, true);
        heap.wrapped := heap.wrapped || OwnCell(c, true) != multiset{};
      }
      return false, c', count;
    }
    ElementThere(f, c, fixedCount);
    var item;
    ok, item := DecodeStruct(stream, heap, f.sub, true, c'.items[place]);
    c' := Array(c'.count, c'.items[place := item], c'.spare);
  }

  /** `decode_static_field` */
  method DecodeInPlace(stream: IStream, heap: Allocator, wireType: nat, f: Field, c: Cell, fixedCount: nat)
    returns (ok: bool, c': Cell, count: nat)
    requires stream.Valid() && HeapField(f) && f.atype.Static? && Sound(f, c, true)
    modifies stream, heap
    ensures stream.Valid() && stream.End() <= old(stream.End())
    ensures var r := InPlaceInto(f, wireType, c, fixedCount, old(stream.Rest()), old(heap.Now()));
            && ok == r.ok && c' == r.c && heap.Now() == r.h
            && (ok ==> count == r.count && stream.Rest() == r.rest && stream.End() == old(stream.End()))
    decreases stream.bytesLeft, 2
  {
    c', count := c, fixedCount;
    if f.ltype.LSubmessage? {
      if f.htype.Repeated? {
        ok, c', count := DecodeElement(stream, heap, f, c, fixedCount);
      } else {
        ok, c' := DecodeStruct(stream, heap, f.sub, false, c);
      }
      return;
    }
    if !f.htype.Repeated? {
      var v;
      ok, v := Decoder.DecScalar(stream, f);
      return;
    }
    var place := if FixedCount(f) then fixedCount else c.count;
    ok, place := DecodeItems(stream, wireType, f, place);
    if FixedCount(f) {
      count := place;
    } else {
      c' := Inline(place);
    }
  }

  /** Its part for arrays without pointers. */
  method DecodeItems(stream: IStream, wireType: nat, f: Field, place0: nat) returns (ok: bool, place: nat)
    requires stream.Valid() && f.dataSize <= SIZE_MAX && !f.ltype.LSubmessage? && !f.ltype.LExtension?
    modifies stream
    ensures stream.Valid() && stream.End() <= old(stream.End())
    ensures var r := PlainItems(f, wireType, place0, old(stream.Rest()));
            && ok == r.ok && place == r.count
            && (ok ==> stream.Rest() == r.rest && stream.End() == old(stream.End()))
  {
    place := place0;
    var v;
    if !(wireType == Decode.WT_STRING && Packable(f.ltype)) {
      ok := place < f.arraySize;
      place := Succ(place);
      if ok {
        ok, v := Decoder.DecScalar(stream, f);
      }
      return;
    }
    var sub, status;
    ok, sub := stream.MakeSubstream();
    if !ok {
      return;
    }
    status, place := DecodePlaces(sub, f, place0);
    if sub.bytesLeft != 0 {
      return false, place;
    }
    ok := stream.CloseSubstream(sub);
    if ok {
      ok := status;
    }
  }

  /** The loop over a packed array in place. */
  method DecodePlaces(sub: IStream, f: Field, place0: nat) returns (status: bool, place: nat)
    requires sub.Valid() && f.dataSize <= SIZE_MAX && !f.ltype.LSubmessage? && !f.ltype.LExtension?
    modifies sub
    ensures sub.Valid() && sub.End() == old(sub.End())
    ensures var (ok, n) := PackedPlaces(f, place0, old(sub.Rest())); place == n && ok == (status && sub.bytesLeft == 0)
  {
    place, status := place0, true;
    ghost var all := PackedPlaces(f, place0, sub.Rest());
    while sub.bytesLeft > 0 && place < f.arraySize
      invariant sub.Valid() && sub.End() == old(sub.End()) && status
      invariant all == PackedPlaces(f, place, sub.Rest())
      decreases sub.bytesLeft
    {
      var v;
      status, v := Decoder.DecScalar(sub, f);
      if !status {
        return;
      }
      place := place + 1;
    }
  }

  // ------------------------------------------------------- pointer fields

  /** A submessage in a block of its own. */
  method DecodeNewStruct(stream: IStream, heap: Allocator, f: Field) returns (ok: bool, c: Cell)
    requires stream.Valid() && HeapField(f) && f.ltype.LSubmessage?
    modifies stream, heap
    ensures stream.Valid() && stream.End() <= old(stream.End())
    ensures var r := NewStructInto(f, old(stream.Rest()), old(heap.Now()));
            && ok == r.ok && c == r.c && heap.Now() == r.h
            && (ok ==> stream.Rest() == r.rest && stream.End() == old(stream.End()))
    decreases stream.bytesLeft, 1
  {
    c := Link(None);
    var q, item;
    q := AllocateField(heap, None, f.dataSize, 1);
    if q.None? {
      return false, c;
    }
    InitialSound(f.sub);
    ok, item := DecodeStruct(stream, heap, f.sub, false, Initial(f.sub));
    c := NewBlock(q.value, 0, [item]);
  }

  /** `decode_pointer_field` for a required or optional field. */
  method DecodePointer(stream: IStream, heap: Allocator, f: Field, c0: Cell) returns (ok: bool, c: Cell)
    requires stream.Valid() && HeapField(f) && f.atype.Pointer? && !f.htype.Repeated? && Sound(f, c0, true)
    modifies stream, heap
    ensures stream.Valid() && stream.End() <= old(stream.End())
    ensures var r := PointerInto(f, c0, old(stream.Rest()), old(heap.Now()));
            && ok == r.ok && c == r.c && heap.Now() == r.h
            && (ok ==> stream.Rest() == r.rest && stream.End() == old(stream.End()))
    decreases stream.bytesLeft, 2
  {
    c := c0;
    if f.ltype.LSubmessage? {
      if c.block.Some? {
        // A duplicate: the old allocation goes first.
        c := ReleaseField(heap, f, c);
      }
      ok, c := DecodeNewStruct(stream, heap, f);
    } else if f.ltype.LString? || f.ltype.LBytes? {
      ok, c := DecodeBlob(stream, heap, f, c);
    } else {
      ok, c := DecodeBehind(stream, heap, f, c, 1, 0);
    }
  }

  /** `initialize_pointer_field` and the decoder of one item of an array. */
  method DecodeItem(stream: IStream, heap: Allocator, f: Field) returns (ok: bool, item: Cell)
    requires stream.Valid() && HeapField(f) && (f.ltype.LSubmessage? || BlobArray(f))
    modifies stream, heap
    ensures stream.Valid() && stream.End() <= old(stream.End())
    ensures var r := ItemInto(f, old(stream.Rest()), old(heap.Now()));
            && ok == r.ok && item == r.c && heap.Now() == r.h
            && (ok ==> stream.Rest() == r.rest && stream.End() == old(stream.End()))
    decreases stream.bytesLeft, 1
  {
    if f.ltype.LSubmessage? {
      InitialSound(f.sub);
      HeldStruct(f.sub, Initial(f.sub));
      ok, item := DecodeStruct(stream, heap, f.sub, true, Initial(f.sub));
    } else {
      ok, item := DecodeBlob(stream, heap, f, Link(None));
    }
  }

  /** One more submessage, string or byte array: the array grows by one, then the item is
      initialised and decoded. */
  method DecodeGrown(stream: IStream, heap: Allocator, f: Field, c: Cell) returns (ok: bool, c': Cell)
    requires stream.Valid() && HeapField(f) && (f.ltype.LSubmessage? || BlobArray(f))
    modifies stream, heap
    ensures stream.Valid() && stream.End() <= old(stream.End())
    ensures var r := GrownInto(f, c, old(stream.Rest()), old(heap.Now()));
            && ok == r.ok && c' == r.c && heap.Now() == r.h
            && (ok ==> stream.Rest() == r.rest && stream.End() == old(stream.End()))
    decreases stream.bytesLeft, 2
  {
    var q, item;
    q := AllocateField(heap, IdOf(c), f.dataSize, CountOf(c) + 1);
    if q.None? {
      return false, c;
    }
    ok, item := DecodeItem(stream, heap, f);
    c' := NewBlock(q.value, CountOf(c) + 1, ItemsOf(c) + [item]);
  }

  /** `decode_pointer_field` for one more item of an array. */
  method DecodeOneMore(stream: IStream, heap: Allocator, f: Field, c: Cell) returns (ok: bool, c': Cell)
    requires stream.Valid() && HeapField(f) && f.atype.Pointer? && f.htype.Repeated?
    modifies stream, heap
    ensures stream.Valid() && stream.End() <= old(stream.End())
    ensures var r := OneMoreInto(f, c, old(stream.Rest()), old(heap.Now()));
            && ok == r.ok && c' == r.c && heap.Now() == r.h
            && (ok ==> stream.Rest() == r.rest && stream.End() == old(stream.End()))
    decreases stream.bytesLeft, 3
  {
    if CountOf(c) == SIZE_MAX {
      return false, c;
    }
    if f.ltype.LSubmessage? || BlobArray(f) {
      ok, c' := DecodeGrown(stream, heap, f, c);
    } else {
      ok, c' := DecodeBehind(stream, heap, f, c, CountOf(c) + 1, CountOf(c) + 1);
    }
  }

  // -------------------------------------------------------------- messages

  /** `decode_field` */
  method DecodeField(stream: IStream, heap: Allocator, wireType: nat, f: Field, c: Cell, fixedCount: nat)
    returns (ok: bool, c': Cell, count: nat)
    requires stream.Valid() && HeapField(f) && Sound(f, c, true)
    modifies stream, heap
    ensures stream.Valid() && stream.End() <= old(stream.End())
    ensures var r := FieldInto(f, wireType, c, fixedCount, old(stream.Rest()), old(heap.Now()));
            && ok == r.ok && c' == r.c && heap.Now() == r.h
            && (ok ==> count == r.count && stream.Rest() == r.rest && stream.End() == old(stream.End()))
    decreases stream.bytesLeft, 4
  {
    count := fixedCount;
    if f.atype.Static? {
      ok, c', count := DecodeInPlace(stream, heap, wireType, f, c, fixedCount);
    } else if !f.htype.Repeated? {
      ok, c' := DecodePointer(stream, heap, f, c);
    } else if wireType == Decode.WT_STRING && Packable(f.ltype) {
      ok, c' := DecodePackedBlock(stream, heap, f, c);
    } else {
      ok, c' := DecodeOneMore(stream, heap, f, c);
    }
  }

  /** The counter of a fixed-count array, which begins at zero for another array. */
  method ChooseArray(heap: Allocator, fields: seq<Field>, cs: seq<Cell>, iter: FieldIter, fixedAt: Option<nat>,
                     fixedCount: nat, ghost seen: set<nat>)
    returns (ok: bool, at: Option<nat>, count: nat)
    requires Decoder.AtRest(iter, fixedAt) && iter.fields == fields && fields != [] && |cs| == |fields|
    modifies heap, iter
    ensures iter.pos == old(iter.pos) && Decoder.AtRest(iter, at)
    ensures var i, st := iter.pos, Memory(cs, seen, fixedAt, fixedCount, old(heap.Now()));
            && ok == !(Restarts(fields, i, st) && !Decode.FixedDone(fields, Progress(st)))
            && (!ok ==> heap.Now() == st.h)
            && (ok ==> at == (if FixedCount(fields[i]) then Some(i) else fixedAt)
                       && count == (if Restarts(fields, i, st) then 0 else fixedCount)
                       && heap.Now() == if Restarts(fields, i, st) then Begin(fields[i], cs[i], st.h) else st.h)
  {
    ok, at, count := Decoder.ChooseCounter(iter, fixedAt, fixedCount);
    if ok && FixedCount(fields[iter.pos]) && fixedAt != Some(iter.pos) {
      heap.begun := heap.begun || Doomed(fields[iter.pos], cs[iter.pos], 0);
    }
  }

  /** The field at which the iterator stands. */
  method DecodeFound(stream: IStream, heap: Allocator, fields: seq<Field>, cs: seq<Cell>, iter: FieldIter,
                     words: array<nat>, wireType: nat, fixedAt: Option<nat>, fixedCount: nat, ghost seen: set<nat>)
    returns (ok: bool, cs': seq<Cell>, at: Option<nat>, count: nat, ghost seen': set<nat>)
    requires stream.Valid() && HeapSchema(fields) && SoundAll(fields, cs, true) && fields != []
    requires iter.fields == fields && Decoder.AtRest(iter, fixedAt) && Decoder.SeenWords(words, fields, seen)
    modifies stream, heap, iter, words
    ensures stream.Valid() && stream.End() <= old(stream.End())
    ensures Decoder.AtRest(iter, at) && Decoder.SeenWords(words, fields, seen')
    ensures var r := KnownInto(fields, old(iter.pos), wireType,
            Memory(cs, seen, fixedAt, fixedCount, old(heap.Now())), old(stream.Rest()));
            && ok == r.Next? && cs' == r.st.cs && heap.Now() == r.st.h
            && (ok ==> r.st == Memory(cs', seen', at, count, heap.Now())
                       && stream.Rest() == r.rest && stream.End() == old(stream.End()))
    decreases stream.bytesLeft, 5
  {
    cs', seen' := cs, seen;
    ok, at, count := ChooseArray(heap, fields, cs, iter, fixedAt, fixedCount, seen);
    if !ok {
      return;
    }
    var i := iter.pos;
    seen' := Decoder.MarkSeen(fields, iter, words, seen);
    assert HeapField(fields[i]) && Sound(fields[i], cs[i], true);
    var c;
    ok, c, count := DecodeField(stream, heap, wireType, fields[i], cs[i], count);
    cs' := cs[i := c];
  }

  /** One record behind its tag. */
  method DecodeRecordInto(stream: IStream, heap: Allocator, fields: seq<Field>, cs: seq<Cell>, iter: FieldIter,
                          words: array<nat>,
                          tag: nat, wireType: nat, fixedAt: Option<nat>, fixedCount: nat, ghost seen: set<nat>)
    returns (ok: bool, cs': seq<Cell>, at: Option<nat>, count: nat, ghost seen': set<nat>)
    requires stream.Valid() && HeapSchema(fields) && SoundAll(fields, cs, true)
    requires iter.fields == fields && Decoder.AtRest(iter, fixedAt) && Decoder.SeenWords(words, fields, seen)
    modifies stream, heap, iter, words
    ensures stream.Valid() && stream.End() <= old(stream.End())
    ensures Decoder.AtRest(iter, at) && Decoder.SeenWords(words, fields, seen')
    ensures var r := BodyInto(fields, tag, wireType, Memory(cs, seen, fixedAt, fixedCount, old(heap.Now())),
            old(stream.Rest()));
            && ok == r.Next? && cs' == r.st.cs && heap.Now() == r.st.h
            && (ok ==> r.st == Memory(cs', seen', at, count, heap.Now())
                       && stream.Rest() == r.rest && stream.End() == old(stream.End()))
    decreases stream.bytesLeft, 6
  {
    cs', at, count, seen' := cs, fixedAt, fixedCount, seen;
    var found;
    ghost var steps;
    found, steps := iter.Find(tag);
    if !found {
      assert FindTag(fields, tag).None?;
      ok := stream.SkipValue(wireType);
      return;
    }
    if fields == [] {
      // The terminator of an empty table reads as a bool outside the struct.
      var v, eof;
      ok, v, eof := stream.DecodeVarint32Eof();
      return;
    }
    FoundIsUnique(fields, iter.pos, tag);
    ok, cs', at, count, seen' :=
      DecodeFound(stream, heap, fields, cs, iter, words, wireType, fixedAt, fixedCount, seen);
  }

  /** The loop of `pb_decode_noinit`, up to the end of the data or a zero tag. */
  method DecodeRecords(stream: IStream, heap: Allocator, fields: seq<Field>, cs: seq<Cell>, iter: FieldIter,
                       words: array<nat>)
    returns (ok: bool, cs': seq<Cell>, at: Option<nat>, count: nat, ghost seen: set<nat>)
    requires stream.Valid() && HeapSchema(fields) && SoundAll(fields, cs, true)
    requires iter.fields == fields && Decoder.AtRest(iter, None) && Decoder.SeenWords(words, fields, {})
    modifies stream, heap, iter, words
    ensures stream.Valid() && stream.End() <= old(stream.End())
    ensures Decoder.AtRest(iter, at) && Decoder.SeenWords(words, fields, seen)
    ensures var r := RecordsInto(fields, Memory(cs, {}, None, 0, old(heap.Now())), old(stream.Rest()));
            && ok == r.Done? && cs' == r.st.cs && heap.Now() == r.st.h
            && (ok ==> r.st == Memory(cs', seen, at, count, heap.Now())
                       && stream.Rest() == r.rest && stream.End() == old(stream.End()))
    decreases stream.bytesLeft, 7
  {
    ok, cs', at, count, seen := true, cs, None, 0, {};
    ghost var all := RecordsInto(fields, Memory(cs, {}, None, 0, heap.Now()), stream.Rest());
    while stream.bytesLeft > 0
      invariant ok && stream.Valid() && stream.End() == old(stream.End()) && stream.bytesLeft <= old(stream.bytesLeft)
      invariant Decoder.AtRest(iter, at) && Decoder.SeenWords(words, fields, seen)
      invariant SoundAll(fields, cs', true)
      invariant all == RecordsInto(fields, Memory(cs', seen, at, count, heap.Now()), stream.Rest())
      decreases stream.bytesLeft
    {
      RecordSound(fields, Memory(cs', seen, at, count, heap.Now()), stream.Rest());
      var wireType, tag, eof;
      ok, wireType, tag, eof := stream.ReadTag();
      if !ok {
        ok := eof;
        return;
      }
      ok, cs', at, count, seen :=
        DecodeRecordInto(stream, heap, fields, cs', iter, words, tag, wireType, at, count, seen);
      if !ok {
        return;
      }
    }
  }

  /** `pb_decode_noinit` */
  method DecodeHeapNoinit(stream: IStream, heap: Allocator, fields: seq<Field>, cs: seq<Cell>)
    returns (ok: bool, cs': seq<Cell>)
    requires stream.Valid() && HeapSchema(fields) && SoundAll(fields, cs, true)
    modifies stream, heap
    ensures stream.Valid() && stream.End() <= old(stream.End())
    ensures var r := NoinitInto(fields, cs, old(stream.Rest()), old(heap.Now()));
            && ok == r.ok && cs' == r.cs && heap.Now() == r.h
            && (ok ==> stream.Rest() == r.rest && stream.End() == old(stream.End()))
    decreases stream.bytesLeft, 8
  {
    var words := new nat[2](_ => 0);
    var iter := new FieldIter(fields, 0);
    Bits.WordOfEmpty(0, 32);
    Bits.WordOfEmpty(32, 32);
    var fixedAt, fixedCount;
    ghost var seen;
    ok, cs', fixedAt, fixedCount, seen := DecodeRecords(stream, heap, fields, cs, iter, words);
    if !ok {
      return;
    }
    if fixedAt.Some? && fixedCount != fields[fixedAt.value].arraySize {
      return false, cs';
    }
    ok := Decoder.CheckRequired(iter, words, seen);
  }

  /** `pb_decode`: defaults, which forget the pointers of the struct, the records, and the release
      of what a failed run has allocated. */
  method DecodeHeap(stream: IStream, heap: Allocator, fields: seq<Field>, cs: seq<Cell>)
    returns (ok: bool, cs': seq<Cell>)
    requires stream.Valid() && HeapSchema(fields) && SoundAll(fields, cs, false)
    modifies stream, heap
    ensures stream.Valid() && stream.End() <= old(stream.End())
    ensures var r := MessageInto(fields, cs, old(stream.Rest()), old(heap.Now()));
            && ok == r.ok && cs' == r.cs && heap.Now() == r.h
            && (ok ==> stream.Rest() == r.rest && stream.End() == old(stream.End()))
    decreases stream.bytesLeft, 9
  {
    DefaultsSound(fields, cs, true);
    heap.lost := heap.lost + Forgotten(fields, cs);
    var ds := DefaultCells(fields, cs);
    NoinitSound(fields, ds, stream.Rest(), heap.Now());
    ok, cs' := DecodeHeapNoinit(stream, heap, fields, ds);
    if !ok {
      cs' := Release(heap, fields, cs');
    }
  }

  /** `pb_decode` with a new allocator record, and `pb_release` unless that has already happened. */
  method DecodeAndRelease(stream: IStream, heap: Allocator, fields: seq<Field>, cs: seq<Cell>)
    returns (ok: bool, cs': seq<Cell>)
    requires stream.Valid() && Before(fields, cs) && Blank(heap.Now())
    modifies stream, heap
    ensures Untouched(old(heap.Now()), heap.Now()) <==> !heap.wrecked && heap.stolen == heap.lost
    ensures ok ==> !heap.wrapped && (heap.lost != multiset{} <==> heap.begun)
    ensures heap.lost != multiset{} ==> heap.begun || heap.wrapped
    ensures Forgetting.Steady(fields) ==> heap.lost == multiset{} && !heap.begun && !heap.wrapped
    ensures Clean(fields, cs) && !heap.wrecked ==> !heap.fault && old(heap.live) <= heap.live
    ensures Clean(fields, cs) && !heap.begun && !heap.wrapped ==> Untouched(old(heap.Now()), heap.Now())
    ensures Clean(fields, cs) && !heap.begun && !heap.wrapped ==> Before(fields, cs') && Clean(fields, cs')
  {
    ghost var s, h := stream.Rest(), heap.Now();
    MessageSound(fields, cs, s, h);
    ok, cs' := DecodeHeap(stream, heap, fields, cs);
    if ok {
      HeldAllSound(fields, cs');
      cs' := Release(heap, fields, cs');
    }
    ghost var r := Whole(fields, cs, s, h);
    assert heap.Now() == r.h && cs' == r.cs;
    UntouchedExactly(fields, cs, s, h);
    LostExactly(fields, cs, s, h);
    if Clean(fields, cs) {
      CleanWhole(fields, cs, s, h);
      CleanUntouched(fields, cs, s, h);
      if !r.h.wrecked {
        assert r.h.stolen <= r.h.stolen + LooseAll(r.cs, true);
        NothingStolen(h.live, r.h);
      }
    }
  }

  lemma NothingStolen(live: set<nat>, h: Heap)
    requires h.stolen <= h.lost && multiset(h.live) + h.stolen == multiset(live) + h.lost
    ensures live <= h.live
  {
    forall x | x in live
      ensures x in h.live
    {
      assert (multiset(h.live) + h.stolen)[x] == (multiset(live) + h.lost)[x];
      assert h.stolen[x] <= h.lost[x];
    }
  }
}
