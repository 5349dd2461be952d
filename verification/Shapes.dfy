/**
 Decoding keeps storage of the kind that its fields describe, whatever the
 bytes are and whatever the allocator answers.
 */
module Shapes {
  import opened Wire
  import opened Varint
  import opened Schema
  import opened Blocks
  import opened Storage
  import opened HeapDecode
  import Decode

  // ------------------------------------------------------------- pointers

  /** A pointer to plain data that is NULL or ours. */
  predicate PlainHeld(c: Cell) {
    PlainPointer(c) && (c.block.Some? ==> c.block.value.ours)
  }

  lemma PlainSound(f: Field, c: Cell)
    requires f.atype.Pointer? && !f.ltype.LSubmessage? && !BlobArray(f)
    ensures Sound(f, c, true) <==> PlainHeld(c)
  {
  }

  lemma BlobSound(f: Field, c: Cell, s: seq<Byte>, h: Heap)
    requires PlainHeld(c)
    ensures PlainHeld(BlobInto(f, c, s, h).c)
  {
  }

  lemma ScalarSound(f: Field, c: Cell, size: nat, count: nat, s: seq<Byte>, h: Heap)
    requires PlainHeld(c)
    ensures PlainHeld(ScalarInto(f, Moved(h, c, f.dataSize, size, count), s).c)
  {
  }

  lemma GrowSound(f: Field, c: Cell, capacity: nat, bytesLeft: nat, h: Heap)
    requires PlainHeld(c)
    ensures PlainHeld(GrowInto(f, c, capacity, bytesLeft, h).1)
  {
  }

  lemma {:induction false} PackedLoopSound(f: Field, c: Cell, capacity: nat, body: seq<Byte>, h: Heap)
    requires PlainHeld(c)
    ensures PlainHeld(PackedLoop(f, c, capacity, body, h).1)
    decreases |body|
  {
    if body != [] {
      GrowSound(f, c, capacity, |body|, h);
      var (room, d, n, h') := GrowInto(f, c, capacity, |body|, h);
      var p := Decode.DecodeScalar(f, body);
      if room && p.Ok? {
        PackedLoopSound(f, Counted(d), n, p.rest, h');
      }
    }
  }

  lemma PackedSound(f: Field, c: Cell, s: seq<Byte>, h: Heap)
    requires PlainHeld(c)
    ensures PlainHeld(PackedInto(f, c, s, h).c)
  {
    var p := Decode.Delimited(s);
    if p.Ok? {
      PackedLoopSound(f, c, CountOf(c), p.value, h);
    }
  }

  // --------------------------------------------------------------- arrays

  lemma CountNextSound(f: Field, c: Cell)
    requires f.htype.Repeated? && f.arraySize <= SIZE_MAX && SoundArray(f, c)
    ensures SoundArray(f, CountNext(f, c))
  {
    if !FixedCount(f) && c.count < f.arraySize {
      FewerStructs(f.sub, c.spare);
      MoreStructs(f.sub, c.items, c.spare[0]);
      EmptySum(OwnCell(c.spare[0], true), Own(c.spare[1..], true));
    } else if Wraps(f, c) {
      EmptiedSound(f, c, true);
    }
  }

  /** The element that is decoded next is there. */
  lemma ElementThere(f: Field, c: Cell, fixedCount: nat)
    requires f.htype.Repeated? && f.arraySize <= SIZE_MAX && SoundArray(f, c)
    requires PlaceOf(f, c, fixedCount) < f.arraySize
    ensures PlaceOf(f, c, fixedCount) < |CountNext(f, c).items|
    ensures SoundStruct(f.sub, ItemAt(CountNext(f, c), PlaceOf(f, c, fixedCount)), false)
  {
    CountNextSound(f, c);
    var d, place := CountNext(f, c), PlaceOf(f, c, fixedCount);
    assert SoundStruct(f.sub, d.items[place], false);
  }

  lemma PutItemSound(f: Field, c: Cell, place: nat, item: Cell)
    requires SoundArray(f, c) && SoundStruct(f.sub, item, false)
    ensures SoundArray(f, PutItem(c, place, item))
  {
    if place < |c.items| {
      StructPut(f.sub, c.items, place, item);
    }
  }

  // ---------------------------------------------------------- submessages

  lemma {:induction false} StructSound(fields: seq<Field>, repeated: bool, c: Cell, s: seq<Byte>, h: Heap)
    requires HeapSchema(fields) && SoundStruct(fields, c, !repeated)
    ensures var r := StructInto(fields, repeated, c, s, h); SoundStruct(fields, r.c, !repeated && r.ok)
    decreases |s|, 0
  {
    var p := Decode.Delimited(s);
    if p.Ok? {
      if repeated {
        MessageSound(fields, c.members, p.value, h);
        var r := MessageInto(fields, c.members, p.value, h);
        SoundAtLeast(fields, r.cs, r.ok);
      } else {
        NoinitSound(fields, c.members, p.value, h);
      }
    } else {
      SoundAtLeast(fields, c.members, !repeated);
    }
  }

  lemma SoundAtLeast(fields: seq<Field>, cs: seq<Cell>, held: bool)
    requires SoundAll(fields, cs, held)
    ensures SoundAll(fields, cs, false)
  {
    if held {
      HeldAllSound(fields, cs);
    }
  }

  lemma {:induction false} ElementSound(f: Field, c: Cell, fixedCount: nat, s: seq<Byte>, h: Heap)
    requires HeapField(f) && f.ltype.LSubmessage? && f.htype.Repeated? && SoundArray(f, c)
    ensures var r := ElementInto(f, c, fixedCount, s, h);
            SoundArray(f, r.c) && (r.ok && !FixedCount(f) ==> r.c.count <= f.arraySize)
    decreases |s|, 1
  {
    var place, d := PlaceOf(f, c, fixedCount), CountNext(f, c);
    CountNextSound(f, c);
    if place < f.arraySize {
      ElementThere(f, c, fixedCount);
      StructSound(f.sub, true, ItemAt(d, place), s, h);
      PutItemSound(f, d, place, StructInto(f.sub, true, ItemAt(d, place), s, h).c);
    }
  }

  lemma {:induction false} InPlaceSound(f: Field, wireType: nat, c: Cell, fixedCount: nat, s: seq<Byte>, h: Heap)
    requires HeapField(f) && f.atype.Static? && Sound(f, c, true)
    ensures var r := InPlaceInto(f, wireType, c, fixedCount, s, h); Sound(f, r.c, r.ok)
    decreases |s|, 2
  {
    if f.ltype.LSubmessage? {
      if f.htype.Repeated? {
        ElementSound(f, c, fixedCount, s, h);
      } else {
        StructSound(f.sub, false, c, s, h);
      }
    }
  }

  lemma {:induction false} NewStructSound(f: Field, s: seq<Byte>, h: Heap)
    requires HeapField(f) && f.atype.Pointer? && f.ltype.LSubmessage? && !f.htype.Repeated?
    ensures Sound(f, NewStructInto(f, s, h).c, true)
    decreases |s|, 1
  {
    var (q, h') := AllocateField(h, None, f.dataSize, 1);
    if q.Some? {
      InitialSound(f.sub);
      StructSound(f.sub, false, Initial(f.sub), s, h');
      var r := StructInto(f.sub, false, Initial(f.sub), s, h');
      SoundAtLeast(f.sub, r.c.members, r.ok);
      assert SoundStruct(f.sub, r.c, false);
    }
  }

  lemma {:induction false} PointerSound(f: Field, c: Cell, s: seq<Byte>, h: Heap)
    requires HeapField(f) && f.atype.Pointer? && !f.htype.Repeated? && Sound(f, c, true)
    ensures Sound(f, PointerInto(f, c, s, h).c, true)
    decreases |s|, 2
  {
    if f.ltype.LSubmessage? {
      NewStructSound(f, s, if IdOf(c).Some? then ReleasedCell(h, c) else h);
    } else {
      PlainSound(f, c);
      PlainSound(f, PointerInto(f, c, s, h).c);
      BlobSound(f, c, s, h);
      ScalarSound(f, c, 1, 0, s, h);
    }
  }

  lemma {:induction false} ItemSound(f: Field, s: seq<Byte>, h: Heap)
    requires HeapField(f) && f.htype.Repeated? && (f.ltype.LSubmessage? || BlobArray(f))
    ensures var item := ItemInto(f, s, h).c;
            if f.ltype.LSubmessage? then SoundStruct(f.sub, item, false) else PlainHeld(item)
    decreases |s|, 1
  {
    if f.ltype.LSubmessage? {
      InitialSound(f.sub);
      HeldStruct(f.sub, Initial(f.sub));
      StructSound(f.sub, true, Initial(f.sub), s, h);
    } else {
      BlobSound(f, Link(None), s, h);
    }
  }

  lemma MoreItems(f: Field, c: Cell, q: nat, item: Cell)
    requires f.atype.Pointer? && f.htype.Repeated? && Sound(f, c, true) && (f.ltype.LSubmessage? || BlobArray(f))
    requires if f.ltype.LSubmessage? then SoundStruct(f.sub, item, false) else PlainPointer(item)
    ensures Sound(f, NewBlock(q, CountOf(c) + 1, ItemsOf(c) + [item]), true)
  {
    var items, more := ItemsOf(c), ItemsOf(c) + [item];
    if f.ltype.LSubmessage? {
      MoreStructs(f.sub, items, item);
    } else {
      assert PlainPointers(items);
      forall k | 0 <= k < |more|
        ensures PlainPointer(more[k])
      {
        if k < |items| {
          assert PlainPointer(items[k]);
        }
      }
    }
  }

  lemma {:induction false} GrownSound(f: Field, c: Cell, s: seq<Byte>, h: Heap)
    requires HeapField(f) && f.atype.Pointer? && f.htype.Repeated? && Sound(f, c, true)
             && (f.ltype.LSubmessage? || BlobArray(f))
    ensures Sound(f, GrownInto(f, c, s, h).c, true)
    decreases |s|, 2
  {
    var (q, h') := AllocateField(h, IdOf(c), f.dataSize, CountOf(c) + 1);
    if q.Some? {
      ItemSound(f, s, h');
      MoreItems(f, c, q.value, ItemInto(f, s, h').c);
    }
  }

  lemma {:induction false} OneMoreSound(f: Field, c: Cell, s: seq<Byte>, h: Heap)
    requires HeapField(f) && f.atype.Pointer? && f.htype.Repeated? && Sound(f, c, true)
    ensures Sound(f, OneMoreInto(f, c, s, h).c, true)
    decreases |s|, 3
  {
    if f.ltype.LSubmessage? || BlobArray(f) {
      GrownSound(f, c, s, h);
    } else {
      PlainSound(f, c);
      ScalarSound(f, c, CountOf(c) + 1, CountOf(c) + 1, s, h);
      PlainSound(f, OneMoreInto(f, c, s, h).c);
    }
  }

  lemma {:induction false} FieldSound(f: Field, wireType: nat, c: Cell, fixedCount: nat, s: seq<Byte>, h: Heap)
    requires HeapField(f) && Sound(f, c, true)
    ensures var r := FieldInto(f, wireType, c, fixedCount, s, h); Sound(f, r.c, r.ok)
    decreases |s|, 4
  {
    if f.atype.Static? {
      InPlaceSound(f, wireType, c, fixedCount, s, h);
    } else {
      PointersSound(f, wireType, c, s, h);
      HeldIsSound(f, FieldInto(f, wireType, c, fixedCount, s, h).c);
    }
  }

  lemma PointersSound(f: Field, wireType: nat, c: Cell, s: seq<Byte>, h: Heap)
    requires HeapField(f) && f.atype.Pointer? && Sound(f, c, true)
    ensures Sound(f, FieldInto(f, wireType, c, 0, s, h).c, true)
    decreases |s|, 4, 0
  {
    if !f.htype.Repeated? {
      PointerSound(f, c, s, h);
    } else if wireType == Decode.WT_STRING && Packable(f.ltype) {
      PlainSound(f, c);
      PackedSound(f, c, s, h);
      PlainSound(f, PackedInto(f, c, s, h).c);
    } else {
      OneMoreSound(f, c, s, h);
    }
  }

  // -------------------------------------------------------------- messages

  /** The storage after one round, however it ends. */
  function After(r: Turn, st: Memory): Memory {
    if r.Stop? then st else r.st
  }

  lemma {:induction false} KnownSound(fields: seq<Field>, i: nat, wireType: nat, st: Memory, s: seq<Byte>)
    requires HeapSchema(fields) && SoundAll(fields, st.cs, true) && i < |fields|
    ensures var r := KnownInto(fields, i, wireType, st, s); SoundAll(fields, r.st.cs, r.Next?)
    decreases |s|, 5
  {
    var fresh' := Restarts(fields, i, st);
    if !fresh' || Decode.FixedDone(fields, Progress(st)) {
      assert HeapField(fields[i]) && Sound(fields[i], st.cs[i], true);
      var count, h := if fresh' then 0 else st.fixedCount, if fresh' then Begin(fields[i], st.cs[i], st.h) else st.h;
      FieldSound(fields[i], wireType, st.cs[i], count, s, h);
      var r := FieldInto(fields[i], wireType, st.cs[i], count, s, h);
      if !r.ok {
        HeldAllSound(fields, st.cs);
      }
      CellPut(fields, st.cs, i, r.c, r.ok);
    } else {
      HeldAllSound(fields, st.cs);
    }
  }

  lemma {:induction false} RecordSound(fields: seq<Field>, st: Memory, s: seq<Byte>)
    requires HeapSchema(fields) && SoundAll(fields, st.cs, true)
    ensures var r := RecordInto(fields, st, s); SoundAll(fields, After(r, st).cs, !r.Stuck?)
    decreases |s|, 6
  {
    var t := DecodeTag(s);
    if t.Tag? && FindTag(fields, t.number).Some? {
      KnownSound(fields, FindTag(fields, t.number).value, t.wireType, st, t.rest);
    } else {
      HeldAllSound(fields, st.cs);
    }
  }

  lemma {:induction false} RecordsSound(fields: seq<Field>, st: Memory, s: seq<Byte>)
    requires HeapSchema(fields) && SoundAll(fields, st.cs, true)
    ensures var r := RecordsInto(fields, st, s); SoundAll(fields, r.st.cs, r.Done?)
    decreases |s|, 7
  {
    if s != [] {
      RecordSound(fields, st, s);
      var r := RecordInto(fields, st, s);
      if r.Next? {
        RecordsSound(fields, r.st, r.rest);
      }
    }
  }

  lemma {:induction false} NoinitSound(fields: seq<Field>, cs: seq<Cell>, s: seq<Byte>, h: Heap)
    requires HeapSchema(fields) && SoundAll(fields, cs, true)
    ensures var r := NoinitInto(fields, cs, s, h); SoundAll(fields, r.cs, r.ok)
    decreases |s|, 8
  {
    var r := RecordsInto(fields, Memory(cs, {}, None, 0, h), s);
    RecordsSound(fields, Memory(cs, {}, None, 0, h), s);
    SoundAtLeast(fields, r.st.cs, r.Done?);
  }

  /** After `pb_decode`, whether it succeeds or not, storage is sound; after a success its pointers
      outside of arrays are NULL or to blocks of the run, and its counts within the sizes. */
  lemma {:induction false} MessageSound(fields: seq<Field>, cs: seq<Cell>, s: seq<Byte>, h: Heap)
    requires HeapSchema(fields) && SoundAll(fields, cs, false)
    ensures var r := MessageInto(fields, cs, s, h); SoundAll(fields, r.cs, r.ok)
    decreases |s|, 9
  {
    DefaultsSound(fields, cs, true);
    var ds, h' := DefaultCells(fields, cs), h.(lost := h.lost + Forgotten(fields, cs));
    NoinitSound(fields, ds, s, h');
    var r := NoinitInto(fields, ds, s, h');
    if !r.ok {
      ClearedSound(fields, r.cs);
    }
  }
}
