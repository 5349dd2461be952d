/**
 The variant that allocates against the one that does not: on the same bytes
 they accept the same messages and store the same number of items everywhere,
 as far as memory goes.
 */
module HeapAgrees {
  import opened Wire
  import opened Varint
  import opened Schema
  import opened Blocks
  import opened Storage
  import opened HeapDecode
  import opened Shapes
  import opened Forgetting
  import opened HeapLaws
  import D = Decode
  import Records
  import T = Typed

  // ---------------------------------------------------------------- schemas

  /** The field without the limits that a block of its own lifts: arrays as long as a count can tell, strings
      and byte arrays as long as their length can be added to. */
  function Unbounded(f: Field): Field
    decreases f, 0
  {
    var size :=
      if f.atype.Pointer? && f.ltype.LString? then TWO32 - 1
      else if f.atype.Pointer? && f.ltype.LBytes? then SIZE_MAX + SIZE_BYTES
      else f.dataSize;
    var items := if f.atype.Pointer? && f.htype.Repeated? then SIZE_MAX else f.arraySize;
    f.(dataSize := size, arraySize := items, sub := UnboundedAll(f.sub))
  }

  function UnboundedAll(fields: seq<Field>): (gs: seq<Field>)
    ensures |gs| == |fields| && forall i :: 0 <= i < |fields| ==> gs[i] == Unbounded(fields[i])
    decreases fields, 1
  {
    seq(|fields|, i requires 0 <= i < |fields| => Unbounded(fields[i]))
  }

  /** Arrays in place have room for at least one element. */
  ghost predicate Sized(fields: seq<Field>)
    decreases fields, 1
  {
    forall i {:trigger SizedField(fields[i])} :: 0 <= i < |fields| ==> SizedField(fields[i])
  }

  ghost predicate SizedField(f: Field)
    decreases f, 0
  {
    (f.atype.Static? && f.htype.Repeated? ==> f.arraySize > 0) && (f.ltype.LSubmessage? ==> Sized(f.sub))
  }

  lemma {:induction false} SameOffset(fields: seq<Field>, i: nat)
    requires i < |fields|
    ensures Offset(UnboundedAll(fields), i) == Offset(fields, i)
  {
    if i > 0 {
      SameOffset(fields, i - 1);
      var f, g := fields[i - 1], UnboundedAll(fields)[i - 1];
      assert Extent(g) == Extent(f);
    }
  }

  lemma {:induction false} Ascends(fields: seq<Field>, i: nat, j: nat)
    requires HeapSchema(fields) && Sized(fields) && i < j < |fields|
    ensures Offset(fields, i) < Offset(fields, j)
  {
    var f := fields[j - 1];
    assert HeapField(f) && SizedField(f) && HeapField(fields[j]);
    if f.atype.Static? && f.htype.Repeated? {
      ProductPositive(f.dataSize, f.arraySize);
    }
    if i < j - 1 {
      Ascends(fields, i, j - 1);
    }
  }

  lemma AllApart(fields: seq<Field>, i: nat, j: nat)
    requires HeapSchema(fields) && Sized(fields) && i < |fields| && j < |fields| && i != j
    ensures Offset(fields, i) != Offset(fields, j)
  {
    if i < j {
      Ascends(fields, i, j);
    } else {
      Ascends(fields, j, i);
    }
  }

  lemma {:induction false} SameTag(fields: seq<Field>, tag: nat)
    ensures FindTag(UnboundedAll(fields), tag) == FindTag(fields, tag)
  {
    if fields != [] {
      var n := |fields| - 1;
      SameTag(fields[..n], tag);
      assert UnboundedAll(fields)[..n] == UnboundedAll(fields[..n]);
    }
  }

  lemma {:induction false} SameRequired(fields: seq<Field>, n: nat)
    requires n <= |fields|
    ensures RequiredBefore(UnboundedAll(fields), n) == RequiredBefore(fields, n)
  {
    if n > 0 {
      SameRequired(fields, n - 1);
    }
  }

  lemma UnboundedApart(fields: seq<Field>)
    requires HeapSchema(fields) && Sized(fields)
    ensures Apart(UnboundedAll(fields))
  {
    forall i, j | 0 <= i < |fields| && 0 <= j < |fields| && i != j
      ensures !Shares(UnboundedAll(fields), i, j)
    {
      SameOffset(fields, i);
      SameOffset(fields, j);
      AllApart(fields, i, j);
    }
  }

  lemma DefaultHere(fields: seq<Field>, i: nat)
    requires Apart(UnboundedAll(fields)) && i < |fields|
    ensures D.SlotAt(DefaultMsg(UnboundedAll(fields)), Offset(fields, i)) == DefaultSlot(Unbounded(fields[i]))
  {
    SameOffset(fields, i);
    DefaultsAt(UnboundedAll(fields), |fields|, i);
  }

  // ------------------------------------------------------- storage and values

  /** Storage and a struct with as many items in every array, and with the same members present. */
  ghost predicate Like(f: Field, c: Cell, slot: Slot)
    decreases f, 1
  {
    if f.atype.Pointer? then
      if f.htype.Repeated? then
        && c.Link? && slot.Many? && CountOf(c) == |slot.items| <= SIZE_MAX
        && (f.ltype.LSubmessage? ==> LikeItems(f.sub, ItemsOf(c), slot.items))
      else
        && c.Link? && (f.htype.Optional? && f.sizeOffset != 0 ==> slot.Flagged? && (slot.has <==> c.block.Some?))
        && (f.ltype.LSubmessage? && c.block.Some? ==> LikeItems(f.sub, ItemsOf(c), [D.Current(slot)]))
    else if !f.ltype.LSubmessage? then
      f.htype.Repeated? ==> slot.Many? && (!FixedCount(f) ==> c == Inline(|slot.items|))
    else if !f.htype.Repeated? then LikeAll(f.sub, Members(c), D.Struct(D.Current(slot)))
    else
      && c.Array? && slot.Many? && |c.items| == |slot.items| && (!FixedCount(f) ==> c.count == |slot.items|)
      && LikePlaces(f.sub, c.items, slot.items)
  }

  ghost predicate LikeAll(fields: seq<Field>, cs: seq<Cell>, m: Msg)
    decreases fields, 2
  {
    |cs| == |fields|
    && forall i {:trigger fields[i]} :: 0 <= i < |fields| ==> Like(fields[i], cs[i], D.SlotAt(m, Offset(fields, i)))
  }

  ghost predicate LikeItem(fields: seq<Field>, c: Cell, v: Value)
    decreases fields, 3
  {
    LikeAll(fields, Members(c), D.Struct(v))
  }

  ghost predicate LikeItems(fields: seq<Field>, cs: seq<Cell>, vs: seq<Value>)
    decreases fields, 4
  {
    |cs| == |vs| && forall k {:trigger LikeItem(fields, cs[k], vs[k])} :: 0 <= k < |cs| ==>
      LikeItem(fields, cs[k], vs[k])
  }

  /** The places of an array of a fixed count that have been written. */
  ghost predicate LikePlaces(fields: seq<Field>, cs: seq<Cell>, vs: seq<Value>)
    decreases fields, 4
  {
    |cs| == |vs|
    && forall k {:trigger LikeItem(fields, cs[k], vs[k])} ::
      0 <= k < |cs| && vs[k].MsgV? ==> LikeItem(fields, cs[k], vs[k])
  }

  lemma LikeStored(fields: seq<Field>, cs: seq<Cell>, vs: seq<Value>, k: nat, c: Cell, v: Value)
    requires LikePlaces(fields, cs, vs) && k < |cs| && LikeItem(fields, c, v)
    ensures LikePlaces(fields, cs[k := c], vs[k := v])
  {
    var ds, ws := cs[k := c], vs[k := v];
    forall j | 0 <= j < |ds| && ws[j].MsgV?
      ensures LikeItem(fields, ds[j], ws[j])
    {
      if j != k {
        assert LikeItem(fields, cs[j], vs[j]);
      }
    }
  }

  lemma LikeMorePlaces(fields: seq<Field>, cs: seq<Cell>, vs: seq<Value>, c: Cell, v: Value)
    requires LikePlaces(fields, cs, vs) && LikeItem(fields, c, v)
    ensures LikePlaces(fields, cs + [c], vs + [v])
  {
    var ds, ws := cs + [c], vs + [v];
    forall j | 0 <= j < |ds| && ws[j].MsgV?
      ensures LikeItem(fields, ds[j], ws[j])
    {
      if j < |cs| {
        assert LikeItem(fields, cs[j], vs[j]);
      }
    }
  }

  lemma LikeMore(fields: seq<Field>, cs: seq<Cell>, vs: seq<Value>, c: Cell, v: Value)
    requires LikeItems(fields, cs, vs) && LikeItem(fields, c, v)
    ensures LikeItems(fields, cs + [c], vs + [v])
  {
    var ds, ws := cs + [c], vs + [v];
    forall j | 0 <= j < |ds|
      ensures LikeItem(fields, ds[j], ws[j])
    {
      if j < |cs| {
        assert LikeItem(fields, cs[j], vs[j]);
      }
    }
  }

  lemma LikePut(fields: seq<Field>, cs: seq<Cell>, m: Msg, i: nat, c: Cell, slot: Slot)
    requires HeapSchema(fields) && Sized(fields) && LikeAll(fields, cs, m) && i < |fields| && Like(fields[i], c, slot)
    ensures LikeAll(fields, cs[i := c], m[Offset(fields, i) := slot])
  {
    forall j | 0 <= j < |fields|
      ensures Like(fields[j], cs[i := c][j], D.SlotAt(m[Offset(fields, i) := slot], Offset(fields, j)))
    {
      if j != i {
        AllApart(fields, i, j);
        assert Like(fields[j], cs[j], D.SlotAt(m, Offset(fields, j)));
      }
    }
  }

  /** Storage and struct at their defaults. */
  lemma {:induction false} DefaultsLike(fields: seq<Field>, cs: seq<Cell>)
    requires HeapSchema(fields) && Sized(fields) && SoundAll(fields, cs, false)
    ensures LikeAll(fields, DefaultCells(fields, cs), DefaultMsg(UnboundedAll(fields)))
    decreases fields, 2
  {
    UnboundedApart(fields);
    forall i | 0 <= i < |fields|
      ensures Like(fields[i], DefaultCells(fields, cs)[i],
                   D.SlotAt(DefaultMsg(UnboundedAll(fields)), Offset(fields, i)))
    {
      DefaultHere(fields, i);
      assert HeapField(fields[i]) && SizedField(fields[i]) && Sound(fields[i], cs[i], false);
      DefaultLike(fields[i], cs[i]);
    }
  }

  lemma {:induction false} DefaultLike(f: Field, c: Cell)
    requires HeapField(f) && SizedField(f) && Sound(f, c, false)
    ensures Like(f, DefaultCell(f, c), DefaultSlot(Unbounded(f)))
    decreases f, 1
  {
    if f.atype.Static? && f.ltype.LSubmessage? {
      if !f.htype.Repeated? {
        DefaultsLike(f.sub, c.members);
      } else if FixedCount(f) {
        T.UndefinedAll(f.arraySize);
        OverwrittenArraySound(f, c, true);
      }
    }
  }

  // -------------------------------------------------------- the allocator

  /** Every request will be granted: the answers to come are names of blocks that are not live, all
      different. */
  ghost predicate Granting(h: Heap) {
    && (forall k {:trigger h.script[k]} :: 0 <= k < |h.script| ==> h.script[k].Some? && h.script[k].value !in h.live)
    && (forall j, k {:trigger h.script[j], h.script[k]} :: 0 <= j < k < |h.script| ==> h.script[j] != h.script[k])
  }

  /** So many requests at most have been made since. */
  ghost predicate Pays(h: Heap, h': Heap, n: int) {
    Granting(h') && |h'.script| + n >= |h.script|
  }

  lemma Granted(h: Heap, p: Option<nat>, dataSize: nat, arraySize: nat)
    requires Granting(h) && h.script != [] && dataSize > 0 && arraySize > 0
    ensures var (q, h') := AllocateField(h, p, dataSize, arraySize); q.Some? && Pays(h, h', 1)
  {
    var (q, h') := AllocateField(h, p, dataSize, arraySize);
    assert h.script[0].Some?;
    forall k | 0 <= k < |h'.script|
      ensures h'.script[k].Some? && h'.script[k].value !in h'.live
    {
      assert h'.script[k] == h.script[k + 1];
    }
    forall j, k | 0 <= j < k < |h'.script|
      ensures h'.script[j] != h'.script[k]
    {
      assert h'.script[j] == h.script[j + 1] && h'.script[k] == h.script[k + 1];
    }
  }

  lemma PaysTwice(h: Heap, h1: Heap, h2: Heap, m: int, n: int)
    requires Pays(h, h1, m) && Pays(h1, h2, n)
    ensures Pays(h, h2, m + n)
  {
  }

  // -------------------------------------------------------------- plain data

  lemma SameScalar(f: Field, s: seq<Byte>)
    requires !(f.atype.Pointer? && (f.ltype.LString? || f.ltype.LBytes?))
    ensures D.DecodeScalar(Unbounded(f), s) == D.DecodeScalar(f, s)
  {
  }

  /** The room for the block can be computed exactly when the length is one that an unbounded member takes. */
  lemma RoomFits(f: Field, s: seq<Byte>)
    requires f.atype.Pointer? && (f.ltype.LString? || f.ltype.LBytes?)
    ensures BlobRoom(f, s).Some? <==> DecodeVarint32(s).Ok? && D.FitsMember(Unbounded(f), DecodeVarint32(s).value)
    ensures BlobRoom(f, s).Some? ==> BlobRoom(f, s).value > 0
  {
  }

  lemma BlobScalar(f: Field, s: seq<Byte>)
    requires f.atype.Pointer? && (f.ltype.LString? || f.ltype.LBytes?)
    ensures var p, q := D.DecodeScalar(Unbounded(f), s), D.Delimited(s);
            && (p.Ok? <==> q.Ok? && D.FitsMember(Unbounded(f), DecodeVarint32(s).value)) && (p.Ok? ==> p.rest == q.rest)
  {
  }

  /** A string or byte array in a block of its own. */
  lemma BlobAgrees(f: Field, c: Cell, s: seq<Byte>, h: Heap)
    requires f.atype.Pointer? && (f.ltype.LString? || f.ltype.LBytes?)
    ensures var r, p := BlobInto(f, c, s, h), D.DecodeScalar(Unbounded(f), s);
            && (r.ok ==> p.Ok? && p.rest == r.rest && r.c.Link? && r.c.block.Some?)
            && (p.Ok? && Granting(h) && h.script != [] ==> r.ok && Pays(h, r.h, 1))
  {
    RoomFits(f, s);
    BlobScalar(f, s);
    var room := BlobRoom(f, s);
    if room.Some? && Granting(h) && h.script != [] {
      Granted(h, IdOf(c), room.value, 1);
    }
  }

  lemma {:induction false} PlacesAgree(f: Field, items: seq<Value>, place: nat, body: seq<Byte>)
    requires f.atype.Static?
    ensures var (ok, n) := PackedPlaces(f, place, body); var p := D.DecodePacked(Unbounded(f), items, place, body);
            (ok <==> p.Some?) && (ok ==> n == p.value.1 && (|items| == place ==> |p.value.0| == n))
    decreases |body|
  {
    if body != [] && place < f.arraySize {
      SameScalar(f, body);
      var p := D.DecodeScalar(f, body);
      if p.Ok? {
        PlacesAgree(f, D.Store(items, place, p.value), place + 1, p.rest);
      }
    }
  }

  /** An array of plain data in place. */
  lemma PlainAgrees(f: Field, wireType: nat, items: seq<Value>, place: nat, s: seq<Byte>)
    requires f.atype.Static? && f.htype.Repeated? && !f.ltype.LSubmessage? && f.arraySize <= SIZE_MAX
    ensures var r := PlainItems(f, wireType, place, s);
            var p := D.DecodeStatic(Unbounded(f), wireType, Many(items), place, s);
            && (r.ok <==> p.Ok?)
            && (r.ok ==> p.rest == r.rest && p.value.1 == r.count && p.value.0.Many?
                         && (|items| == place ==> |p.value.0.items| == r.count))
  {
    SameScalar(f, s);
    if wireType == D.WT_STRING && Packable(f.ltype) {
      if D.Delimited(s).Ok? {
        PlacesAgree(f, items, place, D.Delimited(s).value);
      }
    }
  }

  // ----------------------------------------- arrays of plain data in a block

  /** A block of plain data is moved. */
  lemma MovedAgrees(h: Heap, c: Cell, dataSize: nat, arraySize: nat, count: nat)
    requires c.Link? && dataSize > 0 && arraySize > 0
    ensures var (ok, d, h') := Moved(h, c, dataSize, arraySize, count);
            && (ok ==> d.Link? && d.block.Some? && CountOf(d) == count)
            && (Granting(h) && h.script != [] ==> ok && Pays(h, h', 1))
  {
    if Granting(h) && h.script != [] {
      Granted(h, IdOf(c), dataSize, arraySize);
    }
  }

  /** Some room for another entry. */
  lemma RoomFor(f: Field, c: Cell, capacity: nat, bytesLeft: nat, h: Heap) returns (n: nat)
    ensures n > 0
    ensures var (ok, d, h') := Moved(h, c, f.dataSize, n, CountOf(c));
            GrowInto(f, c, capacity, bytesLeft, h)
            == if CountOf(c) == SIZE_MAX then (false, c, capacity, h)
               else if CountOf(c) + 1 <= capacity then (true, c, capacity, h)
               else (ok, d, n, h')
    ensures n > capacity
  {
    n := NextCapacity(capacity, bytesLeft, f.dataSize);
  }

  /** Another entry of a packed array in a block. */
  lemma GrowAgrees(f: Field, c: Cell, capacity: nat, bytesLeft: nat, h: Heap)
    requires c.Link? && f.dataSize > 0 && CountOf(c) <= capacity && (CountOf(c) < capacity ==> c.block.Some?)
    ensures var (room, d, n, h') := GrowInto(f, c, capacity, bytesLeft, h);
            && (room ==> CountOf(c) != SIZE_MAX && d.Link? && d.block.Some? && CountOf(d) == CountOf(c) < n)
            && (CountOf(c) != SIZE_MAX && Granting(h) && h.script != [] ==> room && Pays(h, h', 1))
  {
    var n := RoomFor(f, c, capacity, bytesLeft, h);
    MovedAgrees(h, c, f.dataSize, n, CountOf(c));
  }

  /** The loop over a packed array, whose block grows on the way. */
  lemma {:induction false} PackedLoopAgrees(f: Field, c: Cell, capacity: nat, items: seq<Value>, body: seq<Byte>,
                                            h: Heap)
    requires f.atype.Pointer? && f.htype.Repeated? && Packable(f.ltype) && f.dataSize > 0
    requires c.Link? && CountOf(c) == |items| <= capacity && (CountOf(c) < capacity ==> c.block.Some?)
    requires |items| <= SIZE_MAX
    ensures var (ok, d, h') := PackedLoop(f, c, capacity, body, h);
            var p := D.DecodePacked(Unbounded(f), items, |items|, body);
            && (ok ==> p.Some? && p.value.1 == |p.value.0| == CountOf(d) <= SIZE_MAX && d.Link?)
            && (p.Some? && Granting(h) && |h.script| >= |body| ==> ok && Pays(h, h', |body|))
    decreases |body|, 0
  {
    if body != [] {
      GrowAgrees(f, c, capacity, |body|, h);
      SameScalar(f, body);
      var (room, d, n, h') := GrowInto(f, c, capacity, |body|, h);
      var p := D.DecodeScalar(f, body);
      if room && p.Ok? {
        LoopOn(f, d, n, items, p.value, p.rest, h');
      }
    }
  }

  lemma {:induction false} LoopOn(f: Field, d: Cell, n: nat, items: seq<Value>, v: Value, body: seq<Byte>, h: Heap)
    requires f.atype.Pointer? && f.htype.Repeated? && Packable(f.ltype) && f.dataSize > 0
    requires d.Link? && d.block.Some? && CountOf(d) == |items| < n && |items| < SIZE_MAX
    ensures var (ok, e, h') := PackedLoop(f, Counted(d), n, body, h);
            var p := D.DecodePacked(Unbounded(f), D.Store(items, |items|, v), |items| + 1, body);
            && (ok ==> p.Some? && p.value.1 == |p.value.0| == CountOf(e) <= SIZE_MAX && e.Link?)
            && (p.Some? && Granting(h) && |h.script| >= |body| ==> ok && Pays(h, h', |body|))
    decreases |body|, 1
  {
    PackedLoopAgrees(f, Counted(d), n, items + [v], body, h);
  }

  /** An array of scalars in a block: a packed record, or one more item. */
  lemma PackedAgrees(f: Field, c: Cell, items: seq<Value>, s: seq<Byte>, h: Heap)
    requires f.atype.Pointer? && f.htype.Repeated? && Packable(f.ltype) && f.dataSize > 0
    requires c.Link? && CountOf(c) == |items| <= SIZE_MAX
    ensures var r, p := PackedInto(f, c, s, h), D.DecodeStatic(Unbounded(f), D.WT_STRING, Many(items), |items|, s);
            && (r.ok ==> p.Ok? && p.rest == r.rest && Like(f, r.c, p.value.0))
            && (p.Ok? && Granting(h) && |h.script| >= |s| ==> r.ok && Pays(h, r.h, |s| - |r.rest|))
  {
    var q := D.Delimited(s);
    if q.Ok? {
      PackedLoopAgrees(f, c, CountOf(c), items, q.value, h);
    }
  }

  /** One scalar behind a pointer, or behind the new end of an array. */
  lemma ScalarAgrees(f: Field, c: Cell, size: nat, count: nat, s: seq<Byte>, h: Heap)
    requires c.Link? && f.dataSize > 0 && size > 0 && !(f.atype.Pointer? && (f.ltype.LString? || f.ltype.LBytes?))
    ensures var r, p := ScalarInto(f, Moved(h, c, f.dataSize, size, count), s), D.DecodeScalar(Unbounded(f), s);
            && (r.ok ==> p.Ok? && p.rest == r.rest && r.c.Link? && r.c.block.Some? && CountOf(r.c) == count)
            && (p.Ok? && Granting(h) && h.script != [] ==> r.ok && Pays(h, r.h, 1))
  {
    SameScalar(f, s);
    MovedAgrees(h, c, f.dataSize, size, count);
  }

  // ------------------------------------------------------------ submessages

  /** The two decoders on a message: what the one that allocates accepts the other one accepts, with as
      many items everywhere; and with an allocator that grants every request the other way round. */
  ghost predicate MessagesAgree(fields: seq<Field>, s: seq<Byte>, h: Heap, r: Outs, p: Parse<Msg>) {
    && (r.ok ==> p.Ok? && p.rest == r.rest && LikeAll(fields, r.cs, p.value))
    && (p.Ok? && Granting(h) && |h.script| >= 2 * |s| ==> r.ok && Pays(h, r.h, 2 * (|s| - |r.rest|)))
  }

  /** A submessage: decoded by itself into an element, or into what is there. */
  ghost predicate StructsAgree(fields: seq<Field>, s: seq<Byte>, h: Heap, r: Out, p: Parse<Value>) {
    && (r.ok ==> p.Ok? && p.rest == r.rest && p.value.MsgV? && LikeItem(fields, r.c, p.value))
    && (p.Ok? && Granting(h) && |h.script| >= 2 * |s| - 2 ==> r.ok && Pays(h, r.h, 2 * (|s| - |r.rest|) - 2))
  }

  /** One value of a field. */
  ghost predicate FieldsAgree(f: Field, s: seq<Byte>, h: Heap, r: Fielded, p: Parse<(Slot, nat)>) {
    && (r.ok ==> p.Ok? && p.rest == r.rest && Like(f, r.c, p.value.0) && (FixedCount(f) ==> p.value.1 == r.count))
    && (p.Ok? && Granting(h) && |h.script| >= 2 * |s| ==> r.ok && Pays(h, r.h, 2 * (|s| - |r.rest|)))
  }

  /** The count with which a value decoder starts. */
  function CountHere(f: Field, slot: Slot, fixedCount: nat): nat {
    if FixedCount(f) then fixedCount else |D.Items(slot)|
  }

  /** A field that is no array. */
  lemma SingleStatic(f: Field, wireType: nat, slot: Slot, n: nat, s: seq<Byte>)
    requires !f.htype.Repeated?
    ensures var p := D.DecodeValue(f, D.ValueBefore(f, slot), s);
            D.DecodeStatic(f, wireType, slot, n, s)
            == if p.Ok? then Ok((D.SlotAfter(f, slot, n, p.value), n), p.rest) else Fail
  {
  }

  /** An item of an array. */
  lemma ItemStatic(f: Field, wireType: nat, slot: Slot, n: nat, s: seq<Byte>)
    requires f.htype.Repeated? && !D.ReadsPacked(f, wireType)
    ensures var p := D.DecodeValue(f, Indeterminate, s);
            D.DecodeStatic(f, wireType, slot, n, s)
            == if n < f.arraySize && p.Ok? then Ok((Many(D.Store(D.Items(slot), n, p.value)), n + 1), p.rest) else Fail
  {
  }

  lemma {:induction false} StructAgrees(f: Field, c: Cell, cur: Value, s: seq<Byte>, h: Heap)
    requires HeapField(f) && SizedField(f) && f.ltype.LSubmessage? && SoundStruct(f.sub, c, !f.htype.Repeated?)
    requires !f.htype.Repeated? ==> LikeItem(f.sub, c, cur)
    ensures StructsAgree(f.sub, s, h, StructInto(f.sub, f.htype.Repeated?, c, s, h),
            D.DecodeValue(Unbounded(f), cur, s))
    decreases |s|, 0
  {
    var q := D.Delimited(s);
    if q.Ok? {
      if f.htype.Repeated? {
        MessageAgrees(f.sub, c.members, q.value, h);
      } else {
        NoinitAgrees(f.sub, c.members, D.Struct(cur), q.value, h);
      }
    }
  }

  /** An element of an array in place. */
  lemma {:induction false} ElementAgrees(f: Field, wireType: nat, c: Cell, slot: Slot, fixedCount: nat, s: seq<Byte>,
                                         h: Heap)
    requires HeapField(f) && SizedField(f) && f.atype.Static? && f.ltype.LSubmessage? && f.htype.Repeated?
    requires Sound(f, c, true) && Like(f, c, slot)
    ensures FieldsAgree(f, s, h, ElementInto(f, c, fixedCount, s, h),
                        D.DecodeStatic(Unbounded(f), wireType, slot, CountHere(f, slot, fixedCount), s))
    decreases |s|, 1
  {
    var place, d := PlaceOf(f, c, fixedCount), CountNext(f, c);
    assert place == CountHere(f, slot, fixedCount);
    ItemStatic(Unbounded(f), wireType, slot, place, s);
    if place < f.arraySize {
      ElementThere(f, c, fixedCount);
      var item := ItemAt(d, place);
      StructAgrees(f, item, Indeterminate, s, h);
      ElementPut(f, c, slot, place, StructInto(f.sub, true, item, s, h), D.DecodeValue(Unbounded(f), Indeterminate, s));
    }
  }

  /** Where the new element goes. */
  lemma ElementPut(f: Field, c: Cell, slot: Slot, place: nat, r: Out, p: Parse<Value>)
    requires HeapField(f) && f.atype.Static? && f.ltype.LSubmessage? && f.htype.Repeated?
    requires Sound(f, c, true) && Like(f, c, slot) && place < f.arraySize
    requires FixedCount(f) || place == c.count
    requires r.ok ==> p.Ok? && LikeItem(f.sub, r.c, p.value)
    ensures r.ok ==> Like(f, PutItem(CountNext(f, c), place, r.c), Many(D.Store(slot.items, place, p.value)))
  {
    if r.ok {
      if FixedCount(f) {
        LikeStored(f.sub, c.items, slot.items, place, r.c, p.value);
      } else {
        LikeMorePlaces(f.sub, c.items, slot.items, r.c, p.value);
        assert PutItem(CountNext(f, c), place, r.c) == Array(c.count + 1, c.items + [r.c], c.spare[1..]);
      }
    }
  }

  /** A field in place. */
  lemma {:induction false} InPlaceAgrees(f: Field, wireType: nat, c: Cell, slot: Slot, fixedCount: nat, s: seq<Byte>,
                                         h: Heap)
    requires HeapField(f) && SizedField(f) && f.atype.Static? && Sound(f, c, true) && Like(f, c, slot)
    ensures FieldsAgree(f, s, h, InPlaceInto(f, wireType, c, fixedCount, s, h),
                        D.DecodeStatic(Unbounded(f), wireType, slot, CountHere(f, slot, fixedCount), s))
    decreases |s|, 2
  {
    if f.ltype.LSubmessage? {
      if f.htype.Repeated? {
        ElementAgrees(f, wireType, c, slot, fixedCount, s, h);
      } else {
        SingleStatic(Unbounded(f), wireType, slot, CountHere(f, slot, fixedCount), s);
        StructAgrees(f, c, D.Current(slot), s, h);
      }
    } else {
      InPlacePlain(f, wireType, c, slot, fixedCount, s, h);
    }
  }

  /** Plain data in place needs no memory. */
  lemma InPlacePlain(f: Field, wireType: nat, c: Cell, slot: Slot, fixedCount: nat, s: seq<Byte>, h: Heap)
    requires HeapField(f) && f.atype.Static? && !f.ltype.LSubmessage? && Sound(f, c, true) && Like(f, c, slot)
    ensures FieldsAgree(f, s, h, InPlaceInto(f, wireType, c, fixedCount, s, h),
                        D.DecodeStatic(Unbounded(f), wireType, slot, CountHere(f, slot, fixedCount), s))
  {
    if f.htype.Repeated? {
      PlainAgrees(f, wireType, slot.items, CountHere(f, slot, fixedCount), s);
    } else {
      SingleStatic(Unbounded(f), wireType, slot, CountHere(f, slot, fixedCount), s);
      SameScalar(f, s);
    }
  }

  /** A value behind a pointer. */
  ghost predicate ValuesAgree(f: Field, s: seq<Byte>, h: Heap, r: Out, p: Parse<Value>) {
    && (r.ok ==> p.Ok? && p.rest == r.rest && r.c.Link? && r.c.block.Some?
                 && (f.ltype.LSubmessage? ==> LikeItems(f.sub, ItemsOf(r.c), [p.value])))
    && (p.Ok? && Granting(h) && |h.script| >= 2 * |s| ==> r.ok && Pays(h, r.h, 2 * (|s| - |r.rest|)))
  }

  /** A submessage in a block of its own: a new one, from defaults. */
  lemma {:induction false} NewStructAgrees(f: Field, s: seq<Byte>, h: Heap)
    requires HeapField(f) && SizedField(f) && f.atype.Pointer? && f.ltype.LSubmessage? && !f.htype.Repeated?
    ensures ValuesAgree(f, s, h, NewStructInto(f, s, h),
                        D.DecodeValue(Unbounded(f), MsgV(DefaultMsg(UnboundedAll(f.sub))), s))
    decreases |s|, 1
  {
    var (q, h') := AllocateField(h, None, f.dataSize, 1);
    if Granting(h) && h.script != [] {
      Granted(h, None, f.dataSize, 1);
    }
    if q.Some? {
      InitialSound(f.sub);
      InitialLike(f.sub);
      StructAgrees(f, Initial(f.sub), MsgV(DefaultMsg(UnboundedAll(f.sub))), s, h');
    }
  }

  lemma InitialLike(fields: seq<Field>)
    requires HeapSchema(fields) && Sized(fields)
    ensures LikeItem(fields, Initial(fields), MsgV(DefaultMsg(UnboundedAll(fields))))
  {
    ZerosSound(fields);
    HeldAllSound(fields, ZeroCells(fields));
    DefaultsLike(fields, ZeroCells(fields));
  }

  lemma ReleasedGrants(h: Heap, c: Cell)
    requires Granting(h)
    ensures Pays(h, ReleasedCell(h, c), 0)
  {
  }

  /** A submessage that is there already is released. */
  lemma {:induction false} RenewedAgrees(f: Field, c: Cell, s: seq<Byte>, h: Heap)
    requires HeapField(f) && SizedField(f) && f.atype.Pointer? && f.ltype.LSubmessage? && !f.htype.Repeated?
    ensures ValuesAgree(f, s, h, PointerInto(f, c, s, h),
                        D.DecodeValue(Unbounded(f), MsgV(DefaultMsg(UnboundedAll(f.sub))), s))
    decreases |s|, 2
  {
    var h' := if IdOf(c).Some? then ReleasedCell(h, c) else h;
    if Granting(h) {
      ReleasedGrants(h, c);
    }
    NewStructAgrees(f, s, h');
  }

  /** Everything else is decoded into the same block, or where it is moved. */
  lemma MovedOrNew(f: Field, c: Cell, s: seq<Byte>, h: Heap)
    requires HeapField(f) && f.atype.Pointer? && !f.ltype.LSubmessage? && !f.htype.Repeated? && c.Link?
    ensures ValuesAgree(f, s, h, PointerInto(f, c, s, h), D.DecodeScalar(Unbounded(f), s))
  {
    if f.ltype.LString? || f.ltype.LBytes? {
      BlobAgrees(f, c, s, h);
    } else {
      ScalarAgrees(f, c, 1, 0, s, h);
    }
  }

  /** A required or optional field behind a pointer. */
  lemma {:induction false} PointerAgrees(f: Field, wireType: nat, c: Cell, slot: Slot, n: nat, s: seq<Byte>, h: Heap)
    requires HeapField(f) && SizedField(f) && f.atype.Pointer? && !f.htype.Repeated? && Like(f, c, slot)
    ensures var r := PointerInto(f, c, s, h);
            FieldsAgree(f, s, h, Fielded(r.ok, r.c, n, r.rest, r.h),
                        D.DecodeStatic(Unbounded(f), wireType, slot, n, s))
    decreases |s|, 3
  {
    SingleStatic(Unbounded(f), wireType, slot, n, s);
    if f.ltype.LSubmessage? {
      RenewedAgrees(f, c, s, h);
    } else {
      MovedOrNew(f, c, s, h);
    }
  }

  /** One item of an array in a block. */
  lemma {:induction false} ItemAgrees(f: Field, s: seq<Byte>, h: Heap)
    requires HeapField(f) && SizedField(f) && f.atype.Pointer? && f.htype.Repeated?
    requires f.ltype.LSubmessage? || BlobArray(f)
    ensures var r, p := ItemInto(f, s, h), D.DecodeValue(Unbounded(f), Indeterminate, s);
            && (r.ok ==> p.Ok? && p.rest == r.rest && (f.ltype.LSubmessage? ==> LikeItem(f.sub, r.c, p.value)))
            && (p.Ok? && Granting(h) && |h.script| >= 2 * |s| - 1 ==> r.ok && Pays(h, r.h, 2 * (|s| - |r.rest|) - 1))
    decreases |s|, 1
  {
    if f.ltype.LSubmessage? {
      InitialSound(f.sub);
      HeldStruct(f.sub, Initial(f.sub));
      StructAgrees(f, Initial(f.sub), Indeterminate, s, h);
    } else {
      BlobAgrees(f, Link(None), s, h);
    }
  }

  /** One more submessage, string or byte array. */
  lemma {:induction false} GrownAgrees(f: Field, c: Cell, slot: Slot, s: seq<Byte>, h: Heap)
    requires HeapField(f) && SizedField(f) && f.atype.Pointer? && f.htype.Repeated?
    requires (f.ltype.LSubmessage? || BlobArray(f)) && Like(f, c, slot) && CountOf(c) != SIZE_MAX
    ensures var r, p := GrownInto(f, c, s, h), D.DecodeValue(Unbounded(f), Indeterminate, s);
            && (r.ok ==> p.Ok? && p.rest == r.rest && Like(f, r.c, Many(slot.items + [p.value])))
            && (p.Ok? && Granting(h) && |h.script| >= 2 * |s| ==> r.ok && Pays(h, r.h, 2 * (|s| - |r.rest|)))
    decreases |s|, 2
  {
    var (q, h') := AllocateField(h, IdOf(c), f.dataSize, CountOf(c) + 1);
    if Granting(h) && h.script != [] {
      Granted(h, IdOf(c), f.dataSize, CountOf(c) + 1);
    }
    if q.Some? {
      ItemAgrees(f, s, h');
      var r, p := ItemInto(f, s, h'), D.DecodeValue(Unbounded(f), Indeterminate, s);
      if r.ok && f.ltype.LSubmessage? {
        LikeMore(f.sub, ItemsOf(c), slot.items, r.c, p.value);
      }
    }
  }

  /** One more item of an array in a block. */
  lemma {:induction false} OneMoreAgrees(f: Field, c: Cell, slot: Slot, s: seq<Byte>, h: Heap)
    requires HeapField(f) && SizedField(f) && f.atype.Pointer? && f.htype.Repeated? && Like(f, c, slot)
    ensures var r, p := OneMoreInto(f, c, s, h), D.DecodeValue(Unbounded(f), Indeterminate, s);
            && (r.ok ==> p.Ok? && p.rest == r.rest && CountOf(c) != SIZE_MAX)
            && (r.ok ==> Like(f, r.c, Many(slot.items + [p.value])))
            && (p.Ok? && CountOf(c) != SIZE_MAX && Granting(h) && |h.script| >= 2 * |s|
                ==> r.ok && Pays(h, r.h, 2 * (|s| - |r.rest|)))
    decreases |s|, 3
  {
    if CountOf(c) != SIZE_MAX {
      if f.ltype.LSubmessage? || BlobArray(f) {
        GrownAgrees(f, c, slot, s, h);
      } else {
        ScalarAgrees(f, c, CountOf(c) + 1, CountOf(c) + 1, s, h);
      }
    }
  }

  /** An array in a block. */
  lemma {:induction false} PointersAgree(f: Field, wireType: nat, c: Cell, slot: Slot, s: seq<Byte>, h: Heap)
    requires HeapField(f) && SizedField(f) && f.atype.Pointer? && f.htype.Repeated? && Like(f, c, slot)
    ensures var r := if wireType == D.WT_STRING
            && Packable(f.ltype) then PackedInto(f, c, s, h) else OneMoreInto(f, c, s, h);
            FieldsAgree(f, s, h, Fielded(r.ok, r.c, 0, r.rest, r.h),
                        D.DecodeStatic(Unbounded(f), wireType, slot, |slot.items|, s))
    decreases |s|, 4
  {
    if wireType == D.WT_STRING && Packable(f.ltype) {
      PackedAgrees(f, c, slot.items, s, h);
    } else {
      OneMoreAgrees(f, c, slot, s, h);
      ItemStatic(Unbounded(f), wireType, slot, |slot.items|, s);
      var p := D.DecodeValue(Unbounded(f), Indeterminate, s);
      if p.Ok? {
        assert D.Store(slot.items, |slot.items|, p.value) == slot.items + [p.value];
      }
    }
  }

  lemma {:induction false} FieldAgrees(f: Field, wireType: nat, c: Cell, slot: Slot, fixedCount: nat, s: seq<Byte>,
                                       h: Heap)
    requires HeapField(f) && SizedField(f) && Sound(f, c, true) && Like(f, c, slot)
    ensures FieldsAgree(f, s, h, FieldInto(f, wireType, c, fixedCount, s, h),
                        D.DecodeStatic(Unbounded(f), wireType, slot, CountHere(f, slot, fixedCount), s))
    decreases |s|, 5
  {
    if f.atype.Static? {
      InPlaceAgrees(f, wireType, c, slot, fixedCount, s, h);
    } else if !f.htype.Repeated? {
      PointerAgrees(f, wireType, c, slot, CountHere(f, slot, fixedCount), s, h);
    } else {
      PointersAgree(f, wireType, c, slot, s, h);
    }
  }

  // --------------------------------------------------------------- messages

  /** The decoders between two records. */
  ghost predicate LikeState(fields: seq<Field>, st: Memory, x: D.State) {
    && LikeAll(fields, st.cs, x.msg) && st.seen == x.seen && st.fixedAt == x.fixedAt
    && (st.fixedAt.Some? ==> st.fixedCount == x.fixedCount)
  }

  lemma SameProgress(fields: seq<Field>, st: Memory, x: D.State)
    requires HeapSchema(fields) && LikeState(fields, st, x) && FixedAtField(fields, st)
    ensures D.FixedDone(UnboundedAll(fields), x) == D.FixedDone(fields, Progress(st))
    ensures D.Complete(UnboundedAll(fields), x) == D.Complete(fields, Progress(st))
  {
    SameRequired(fields, |fields|);
    if st.fixedAt.Some? {
      assert HeapField(fields[st.fixedAt.value]);
    }
  }

  /** One record. */
  ghost predicate TurnsAgree(fields: seq<Field>, s: seq<Byte>, h: Heap, r: Turn, p: D.Step) {
    && (r.Next? ==> p.Next? && p.rest == r.rest && LikeState(fields, r.st, p.st) && FixedAtField(fields, r.st))
    && (r.Stop? <==> p.Stop?) && (r.Stop? ==> r.rest == p.rest)
    && (p.Next? && Granting(h) && |h.script| >= 2 * |s| ==> r.Next? && Pays(h, r.st.h, 2 * (|s| - |r.rest|)))
  }

  lemma CountKept(f: Field, wireType: nat, c: Cell, fixedCount: nat, s: seq<Byte>, h: Heap)
    requires !FixedCount(f)
    ensures var r := FieldInto(f, wireType, c, fixedCount, s, h); r.ok ==> r.count == fixedCount
  {
    if f.atype.Static? {
      assert FieldInto(f, wireType, c, fixedCount, s, h) == InPlaceInto(f, wireType, c, fixedCount, s, h);
      if f.ltype.LSubmessage? && f.htype.Repeated? {
        assert ElementInto(f, c, fixedCount, s, h).count == fixedCount;
      }
    }
  }

  /** The decoders after a record of field i. */
  lemma LikeUpdate(fields: seq<Field>, i: nat, st: Memory, x: D.State, c: Cell, slot: Slot, count: nat, n: nat, h: Heap)
    requires HeapSchema(fields) && Sized(fields) && i < |fields| && LikeState(fields, st, x) && FixedAtField(fields, st)
    requires Like(fields[i], c, slot) && if FixedCount(fields[i]) then count == n else count == st.fixedCount
    ensures var at := if FixedCount(fields[i]) then Some(i) else st.fixedAt;
            var st' := Memory(st.cs[i := c], D.See(fields, i, st.seen), at, count, h);
            LikeState(fields, st', D.Update(UnboundedAll(fields), i, x, slot, n)) && FixedAtField(fields, st')
  {
    SameOffset(fields, i);
    SameRequired(fields, i);
    LikePut(fields, st.cs, x.msg, i, c, slot);
  }

  /** The count with which a record starts. */
  lemma SameCount(fields: seq<Field>, i: nat, st: Memory, x: D.State)
    requires i < |fields| && LikeState(fields, st, x)
    ensures D.CountBefore(UnboundedAll(fields), i, x)
         == CountHere(fields[i], D.SlotAt(x.msg, Offset(fields, i)),
           if Restarts(fields, i, st) then 0 else st.fixedCount)
  {
    SameOffset(fields, i);
  }

  /** A known record without its allocator. */
  lemma KnownStatic(fields: seq<Field>, i: nat, wireType: nat, st: Memory, x: D.State, s: seq<Byte>)
    requires HeapSchema(fields) && i < |fields| && LikeState(fields, st, x) && FixedAtField(fields, st)
    ensures var fresh', slot := Restarts(fields, i, st), D.SlotAt(x.msg, Offset(fields, i));
            var count := CountHere(fields[i], slot, if fresh' then 0 else st.fixedCount);
            var p := D.DecodeStatic(Unbounded(fields[i]), wireType, slot, count, s);
            D.DecodeKnown(UnboundedAll(fields), i, wireType, x, s)
            == if (fresh' && !D.FixedDone(fields, Progress(st))) || p.Fail? then D.Stuck
               else D.Next(D.Update(UnboundedAll(fields), i, x, p.value.0, p.value.1), p.rest)
  {
    SameProgress(fields, st, x);
    SameOffset(fields, i);
    SameCount(fields, i, st, x);
  }

  lemma {:induction false} KnownAgrees(fields: seq<Field>, i: nat, wireType: nat, st: Memory, x: D.State, s: seq<Byte>)
    requires HeapSchema(fields) && Sized(fields) && SoundAll(fields, st.cs, true) && i < |fields|
    requires LikeState(fields, st, x) && FixedAtField(fields, st)
    ensures TurnsAgree(fields, s, st.h, KnownInto(fields, i, wireType, st, s),
                       D.DecodeKnown(UnboundedAll(fields), i, wireType, x, s))
    decreases |s|, 6
  {
    var fresh' := Restarts(fields, i, st);
    KnownStatic(fields, i, wireType, st, x, s);
    if !fresh' || D.FixedDone(fields, Progress(st)) {
      var f, c, slot := fields[i], st.cs[i], D.SlotAt(x.msg, Offset(fields, i));
      assert HeapField(f) && SizedField(f) && Sound(f, c, true) && Like(f, c, slot);
      var count, h := if fresh' then 0 else st.fixedCount, if fresh' then Begin(f, c, st.h) else st.h;
      FieldAgrees(f, wireType, c, slot, count, s, h);
      var r, p := FieldInto(f, wireType, c, count, s, h),
        D.DecodeStatic(Unbounded(f), wireType, slot, CountHere(f, slot, count), s);
      KnownIs(fields, i, wireType, st, s, r);
      if r.ok {
        KnownOn(fields, i, wireType, st, x, s, r, p);
      }
      BeginGrants(f, c, st.h);
    }
  }

  lemma KnownIs(fields: seq<Field>, i: nat, wireType: nat, st: Memory, s: seq<Byte>, r: Fielded)
    requires i < |fields| && i < |st.cs| && (!Restarts(fields, i, st) || D.FixedDone(fields, Progress(st)))
    requires var fresh' := Restarts(fields, i, st);
             r == FieldInto(fields[i], wireType, st.cs[i], if fresh' then 0 else st.fixedCount, s,
                            if fresh' then Begin(fields[i], st.cs[i], st.h) else st.h)
    ensures var at := if FixedCount(fields[i]) then Some(i) else st.fixedAt;
            var st' := Memory(st.cs[i := r.c], D.See(fields, i, st.seen), at, r.count, r.h);
            KnownInto(fields, i, wireType, st, s) == if r.ok then Next(st', r.rest) else Stuck(st')
  {
  }

  lemma BeginGrants(f: Field, c: Cell, h: Heap)
    ensures Granting(h) <==> Granting(Begin(f, c, h))
  {
  }

  lemma KnownOn(fields: seq<Field>, i: nat, wireType: nat, st: Memory, x: D.State, s: seq<Byte>, r: Fielded,
                p: Parse<(Slot, nat)>)
    requires HeapSchema(fields) && Sized(fields) && i < |fields| && i < |st.cs|
    requires LikeState(fields, st, x) && FixedAtField(fields, st)
    requires var fresh' := Restarts(fields, i, st);
             r == FieldInto(fields[i], wireType, st.cs[i], if fresh' then 0 else st.fixedCount, s,
                            if fresh' then Begin(fields[i], st.cs[i], st.h) else st.h)
    requires r.ok && p.Ok? && Like(fields[i], r.c, p.value.0) && (FixedCount(fields[i]) ==> p.value.1 == r.count)
    ensures var at := if FixedCount(fields[i]) then Some(i) else st.fixedAt;
            var st' := Memory(st.cs[i := r.c], D.See(fields, i, st.seen), at, r.count, r.h);
            LikeState(fields, st', D.Update(UnboundedAll(fields), i, x, p.value.0, p.value.1))
              && FixedAtField(fields, st')
  {
    if !FixedCount(fields[i]) {
      CountKept(fields[i], wireType, st.cs[i], st.fixedCount, s, st.h);
    }
    LikeUpdate(fields, i, st, x, r.c, p.value.0, r.count, p.value.1, r.h);
  }

  lemma {:induction false} BodyAgrees(fields: seq<Field>, tag: nat, wireType: nat, st: Memory, x: D.State, s: seq<Byte>)
    requires HeapSchema(fields) && Sized(fields) && SoundAll(fields, st.cs, true)
    requires LikeState(fields, st, x) && FixedAtField(fields, st)
    ensures TurnsAgree(fields, s, st.h, BodyInto(fields, tag, wireType, st, s),
                       Records.DecodeBody(UnboundedAll(fields), x, tag, wireType, s))
    decreases |s|, 7
  {
    SameTag(fields, tag);
    if FindTag(fields, tag).Some? {
      KnownAgrees(fields, FindTag(fields, tag).value, wireType, st, x, s);
    }
  }

  lemma {:induction false} RecordAgrees(fields: seq<Field>, st: Memory, x: D.State, s: seq<Byte>)
    requires HeapSchema(fields) && Sized(fields) && SoundAll(fields, st.cs, true) && s != []
    requires LikeState(fields, st, x) && FixedAtField(fields, st)
    ensures TurnsAgree(fields, s, st.h, RecordInto(fields, st, s), D.DecodeRecord(UnboundedAll(fields), x, s))
    decreases |s|, 8
  {
    var t := DecodeTag(s);
    if t.Tag? {
      Records.RecordIsBody(UnboundedAll(fields), x, s);
      BodyAgrees(fields, t.number, t.wireType, st, x, t.rest);
    }
  }

  /** A run of them. */
  ghost predicate RunsAgree(fields: seq<Field>, s: seq<Byte>, h: Heap, r: Run, p: D.Run) {
    && (r.Done? ==> p.Done? && p.rest == r.rest && LikeState(fields, r.st, p.st) && FixedAtField(fields, r.st))
    && (p.Done? && Granting(h) && |h.script| >= 2 * |s| ==> r.Done? && Pays(h, r.st.h, 2 * (|s| - |r.rest|)))
  }

  lemma {:induction false} RecordsAgree(fields: seq<Field>, st: Memory, x: D.State, s: seq<Byte>)
    requires HeapSchema(fields) && Sized(fields) && SoundAll(fields, st.cs, true)
    requires LikeState(fields, st, x) && FixedAtField(fields, st)
    ensures RunsAgree(fields, s, st.h, RecordsInto(fields, st, s), D.DecodeRecords(UnboundedAll(fields), x, s))
    decreases |s|, 9
  {
    if s != [] {
      RecordAgrees(fields, st, x, s);
      RecordSound(fields, st, s);
      var r, p := RecordInto(fields, st, s), D.DecodeRecord(UnboundedAll(fields), x, s);
      if r.Next? && p.Next? {
        RecordsAgree(fields, r.st, p.st, r.rest);
      }
    }
  }

  lemma {:induction false} NoinitAgrees(fields: seq<Field>, cs: seq<Cell>, m: Msg, s: seq<Byte>, h: Heap)
    requires HeapSchema(fields) && Sized(fields) && SoundAll(fields, cs, true) && LikeAll(fields, cs, m)
    ensures MessagesAgree(fields, s, h, NoinitInto(fields, cs, s, h), D.DecodeNoinit(UnboundedAll(fields), s, m))
    decreases |s|, 10
  {
    var st := Memory(cs, {}, None, 0, h);
    RecordsAgree(fields, st, D.Start(m), s);
    var r, p := RecordsInto(fields, st, s), D.DecodeRecords(UnboundedAll(fields), D.Start(m), s);
    if r.Done? && p.Done? {
      SameProgress(fields, r.st, p.st);
    }
  }

  /** `pb_decode` with malloc and without, on any bytes, any storage and any allocator: what the first accepts the
      second accepts, with the same bytes left and as many items in every array; and when the
      allocator grants every request, of which there are at most two for a byte, the other way round. */
  lemma {:induction false} MessageAgrees(fields: seq<Field>, cs: seq<Cell>, s: seq<Byte>, h: Heap)
    requires HeapSchema(fields) && Sized(fields) && SoundAll(fields, cs, false)
    ensures MessagesAgree(fields, s, h, MessageInto(fields, cs, s, h), D.DecodeMessage(UnboundedAll(fields), s))
    decreases |s|, 11
  {
    var ds, h' := DefaultCells(fields, cs), h.(lost := h.lost + Forgotten(fields, cs));
    DefaultsSound(fields, cs, true);
    DefaultsLike(fields, cs);
    NoinitAgrees(fields, ds, DefaultMsg(UnboundedAll(fields)), s, h');
  }

  // ------------------------------------------------------ how many requests

  /** A body of n values of four or eight bytes. */
  predicate FixedBody(f: Field, body: seq<Byte>, n: nat) {
    (f.ltype.LFixed32? && f.dataSize == 4 && |body| == 4 * n) || (f.ltype.LFixed64? && f.dataSize == 8
      && |body| == 8 * n)
  }

  /** With enough room nothing is requested. */
  lemma {:induction false} EnoughRoom(f: Field, c: Cell, capacity: nat, body: seq<Byte>, n: nat, h: Heap)
    requires FixedBody(f, body, n) && c.Link? && c.block.Some? && CountOf(c) + n <= capacity
             && CountOf(c) + n <= SIZE_MAX
    ensures var (ok, d, h') := PackedLoop(f, c, capacity, body, h); ok && h' == h && CountOf(d) == CountOf(c) + n
    decreases n
  {
    if n > 0 {
      var p := D.DecodeScalar(f, body);
      EnoughRoom(f, Counted(c), capacity, p.rest, n - 1, h);
    }
  }

  /** The guess at the entries to come is right for values of a fixed size, so that one request is enough for
      all of them. */
  lemma GuessIsRight(f: Field, body: seq<Byte>, n: nat, capacity: nat)
    requires FixedBody(f, body, n) && n > 0 && capacity + n < SIZE_MAX
    ensures NextCapacity(capacity, |body|, f.dataSize) == capacity + n
  {
    if f.ltype.LFixed32? {
      assert (4 * n - 1) / 4 == n - 1;
    } else {
      assert (8 * n - 1) / 8 == n - 1;
    }
  }
}
