/**
 Which orders of records make decoding lose blocks: those in which a
 fixed-count array is begun, then another one, and then the first one again.
 */
module HeapOrder {
  import opened Wire
  import opened Varint
  import opened Schema
  import opened Blocks
  import opened Storage
  import opened HeapDecode
  import opened Shapes
  import opened Forgetting
  import opened HeapLaws
  import Decode
  import Merge

  // ---------------------------------------------------------------- orders

  /** The field numbers of the records of a run, in order, up to a record that does not decode. */
  function TagsInto(fields: seq<Field>, st: Memory, s: seq<Byte>): seq<nat>
    decreases |s|
  {
    if s == [] || !DecodeTag(s).Tag? then []
    else
      var r := RecordInto(fields, st, s);
      [DecodeTag(s).number] + if r.Next? then TagsInto(fields, r.st, r.rest) else []
  }

  predicate IsArray(fields: seq<Field>, i: nat, tag: nat) {
    Merge.FixedArray(fields, tag) == Some(i)
  }

  predicate IsOther(fields: seq<Field>, i: nat, tag: nat) {
    Merge.FixedArray(fields, tag).Some? && !IsArray(fields, i, tag)
  }

  predicate Occurs(fields: seq<Field>, i: nat, tags: seq<nat>) {
    exists j {:trigger tags[j]} :: 0 <= j < |tags| && IsArray(fields, i, tags[j])
  }

  /** Fixed-count array i, another one, and array i again. */
  predicate AgainAt(fields: seq<Field>, i: nat, tags: seq<nat>, j: nat, k: nat, l: nat) {
    j < k < l < |tags| && IsArray(fields, i, tags[j]) && IsOther(fields, i, tags[k]) && IsArray(fields, i, tags[l])
  }

  predicate BegunAgain(fields: seq<Field>, i: nat, tags: seq<nat>) {
    exists j, k, l :: 0 <= j < k < l < |tags| && AgainAt(fields, i, tags, j, k, l)
  }

  lemma {:induction false} LastMore(fields: seq<Field>, tags: seq<nat>, tag: nat)
    ensures Merge.LastArray(fields, tags + [tag])
         == if Merge.FixedArray(fields, tag).Some? then Merge.FixedArray(fields, tag) else Merge.LastArray(fields, tags)
  {
    if tags == [] {
      assert [] + [tag] == [tag] && [tag][1..] == [];
    } else {
      assert (tags + [tag])[0] == tags[0] && (tags + [tag])[1..] == tags[1..] + [tag];
      LastMore(fields, tags[1..], tag);
    }
  }

  /** Behind the last record of a fixed-count array there is none. */
  lemma {:induction false} LastIs(fields: seq<Field>, tags: seq<nat>) returns (m: nat)
    ensures Merge.LastArray(fields, tags).Some? ==>
              m < |tags| && Merge.FixedArray(fields, tags[m]) == Merge.LastArray(fields, tags)
    ensures forall n :: 0 <= n < |tags| && (Merge.LastArray(fields, tags).None? || n > m)
                        ==> Merge.FixedArray(fields, tags[n]).None?
  {
    m := 0;
    if tags != [] {
      var k := LastIs(fields, tags[1..]);
      m := if Merge.LastArray(fields, tags[1..]).Some? then k + 1 else 0;
      forall n | 0 <= n < |tags| && (Merge.LastArray(fields, tags).None? || n > m)
        ensures Merge.FixedArray(fields, tags[n]).None?
      {
        if n > 0 {
          assert tags[1..][n - 1] == tags[n];
        }
      }
    }
  }

  lemma OccursMore(fields: seq<Field>, i: nat, tags: seq<nat>, tag: nat)
    ensures Occurs(fields, i, tags + [tag]) <==> Occurs(fields, i, tags) || IsArray(fields, i, tag)
  {
    var more := tags + [tag];
    assert more[|tags|] == tag;
    forall j | 0 <= j < |tags|
      ensures more[j] == tags[j]
    {
    }
  }

  /** Exactly when one more record begins array i again. */
  lemma AgainMore(fields: seq<Field>, i: nat, tags: seq<nat>, tag: nat)
    ensures BegunAgain(fields, i, tags + [tag])
       <==> BegunAgain(fields, i, tags)
            || (IsArray(fields, i, tag) && Occurs(fields, i, tags) && Merge.LastArray(fields, tags) != Some(i))
  {
    if BegunAgain(fields, i, tags + [tag]) {
      AgainBefore(fields, i, tags, tag);
    }
    if BegunAgain(fields, i, tags) {
      AgainStays(fields, i, tags, [tag]);
    }
    if IsArray(fields, i, tag) && Occurs(fields, i, tags) && Merge.LastArray(fields, tags) != Some(i) {
      AgainNow(fields, i, tags, tag);
    }
  }

  lemma AgainBefore(fields: seq<Field>, i: nat, tags: seq<nat>, tag: nat)
    requires BegunAgain(fields, i, tags + [tag])
    ensures BegunAgain(fields, i, tags)
            || (IsArray(fields, i, tag) && Occurs(fields, i, tags) && Merge.LastArray(fields, tags) != Some(i))
  {
    var more := tags + [tag];
    var j, k, l :| 0 <= j < k < l < |more| && AgainAt(fields, i, more, j, k, l);
    assert more[j] == tags[j] && more[k] == tags[k] && (l < |tags| ==> more[l] == tags[l]);
    if l < |tags| {
      assert AgainAt(fields, i, tags, j, k, l);
    } else if Merge.LastArray(fields, tags) == Some(i) {
      var m := LastIs(fields, tags);
      assert AgainAt(fields, i, tags, j, k, m);
    }
  }

  lemma AgainNow(fields: seq<Field>, i: nat, tags: seq<nat>, tag: nat)
    requires IsArray(fields, i, tag) && Occurs(fields, i, tags) && Merge.LastArray(fields, tags) != Some(i)
    ensures BegunAgain(fields, i, tags + [tag])
  {
    var m := LastIs(fields, tags);
    var j :| 0 <= j < |tags| && IsArray(fields, i, tags[j]);
    assert j < m;
    assert AgainAt(fields, i, tags + [tag], j, m, |tags|);
  }

  lemma AgainStays(fields: seq<Field>, i: nat, tags: seq<nat>, more: seq<nat>)
    requires BegunAgain(fields, i, tags)
    ensures BegunAgain(fields, i, tags + more)
  {
    var j, k, l :| 0 <= j < k < l < |tags| && AgainAt(fields, i, tags, j, k, l);
    assert AgainAt(fields, i, tags + more, j, k, l);
  }

  // ------------------------------------------------- nothing begun twice

  /** Fixed-count arrays of elements with pointers are in the message itself only. */
  ghost predicate Shallow(fields: seq<Field>) {
    forall i {:trigger fields[i]} :: 0 <= i < |fields| && fields[i].ltype.LSubmessage? ==> Steady(fields[i].sub)
  }

  /** The elements of a fixed-count array have pointers. */
  ghost predicate Keeps(f: Field) {
    f.atype.Static? && FixedCount(f) && f.ltype.LSubmessage? && !PointerFree(f.sub)
  }

  ghost predicate SomeAgain(fields: seq<Field>, tags: seq<nat>) {
    exists i {:trigger fields[i]} :: 0 <= i < |fields| && Keeps(fields[i]) && BegunAgain(fields, i, tags)
  }

  lemma ElementCalm(f: Field, c: Cell, fixedCount: nat, s: seq<Byte>, h: Heap)
    requires HeapField(f) && f.atype.Static? && f.ltype.LSubmessage? && f.htype.Repeated? && Sound(f, c, true)
    requires Steady(f.sub) && (FixedCount(f) ==> !Doomed(f, c, fixedCount))
    ensures ElementInto(f, c, fixedCount, s, h).h.begun == h.begun
  {
    var place, d := PlaceOf(f, c, fixedCount), CountNext(f, c);
    if place < f.arraySize {
      ElementThere(f, c, fixedCount);
      NextForgets(f, c, fixedCount);
      StructTracked(f.sub, true, ItemAt(d, place), s, h);
    }
  }

  /** A record of a field from which nothing is left to forget. */
  lemma FieldCalm(f: Field, wireType: nat, c: Cell, fixedCount: nat, s: seq<Byte>, h: Heap)
    requires HeapField(f) && Sound(f, c, true) && (f.ltype.LSubmessage? ==> Steady(f.sub))
    requires FixedCount(f) ==> !Doomed(f, c, fixedCount)
    ensures var r := FieldInto(f, wireType, c, fixedCount, s, h);
            && r.h.begun == h.begun && (r.ok && !FixedCount(f) ==> r.count == fixedCount)
            && (r.ok && FixedCount(f) ==> !Doomed(f, r.c, r.count))
  {
    FieldTracked(f, wireType, c, fixedCount, s, h);
    if f.atype.Static? && f.ltype.LSubmessage? && f.htype.Repeated? {
      ElementCalm(f, c, fixedCount, s, h);
    } else {
      assert SteadyField(f);
    }
  }

  /** What no record of its own has touched is still as it was before the run. */
  ghost predicate Untold(fields: seq<Field>, ds: seq<Cell>, tags: seq<nat>, cs: seq<Cell>) {
    |cs| == |ds| && forall i {:trigger cs[i]} ::
      0 <= i < |fields| && i < |ds| && FixedCount(fields[i]) && !Occurs(fields, i, tags) ==> cs[i] == ds[i]
  }

  ghost predicate Quiet(fields: seq<Field>, ds: seq<Cell>, tags: seq<nat>, st: Memory) {
    && FixedAtField(fields, st) && st.fixedAt == Merge.LastArray(fields, tags) && Untold(fields, ds, tags, st.cs)
    && !st.h.begun && !Pending(fields, st)
  }

  /** An array without blocks of ours has nothing to forget. */
  lemma EmptyNotDoomed(f: Field, c: Cell)
    requires OwnsNone(c, true)
    ensures !Doomed(f, c, 0)
  {
    if f.atype.Static? && f.ltype.LSubmessage? && c.Array? {
      NoneOwned(c.items, true);
      forall k | 0 <= k < |c.items|
        ensures !Forgets(f.sub, c.items[k])
      {
        assert OwnsNone(c.items[k], true);
        assert Own(Members(c.items[k]), true) == multiset{};
      }
    }
  }

  /** Array i is begun: for the first time, or its elements have no pointers. */
  lemma BeginQuiet(fields: seq<Field>, ds: seq<Cell>, tags: seq<nat>, st: Memory, i: nat, tag: nat)
    requires HeapSchema(fields) && SoundAll(fields, st.cs, true) && AllOwnNone(ds, true)
    requires i < |fields| && IsArray(fields, i, tag) && Quiet(fields, ds, tags, st) && Restarts(fields, i, st)
    requires Keeps(fields[i]) ==> !BegunAgain(fields, i, tags + [tag])
    ensures !Doomed(fields[i], st.cs[i], 0)
  {
    var f, c := fields[i], st.cs[i];
    AgainMore(fields, i, tags, tag);
    assert HeapField(f) && Sound(f, c, true);
    if f.atype.Static? && f.ltype.LSubmessage? && PointerFree(f.sub) {
      FreeNotDoomed(f, c, 0);
    } else if Keeps(f) {
      assert c == ds[i] && OwnsNone(ds[i], true);
      EmptyNotDoomed(f, c);
    }
  }

  lemma UntoldMore(fields: seq<Field>, ds: seq<Cell>, tags: seq<nat>, cs: seq<Cell>, i: nat, c: Cell, tag: nat)
    requires Untold(fields, ds, tags, cs) && i < |fields| && i < |cs|
    requires FixedCount(fields[i]) ==> IsArray(fields, i, tag)
    ensures Untold(fields, ds, tags + [tag], cs[i := c])
  {
    forall k | 0 <= k < |fields| && k < |ds| && FixedCount(fields[k]) && !Occurs(fields, k, tags + [tag])
      ensures cs[i := c][k] == ds[k]
    {
      OccursMore(fields, k, tags, tag);
      assert cs[k] == ds[k];
    }
  }

  lemma KnownQuiet(fields: seq<Field>, ds: seq<Cell>, tags: seq<nat>, st: Memory, i: nat, tag: nat, wireType: nat,
                   s: seq<Byte>)
    requires HeapSchema(fields) && Shallow(fields) && SoundAll(fields, st.cs, true) && AllOwnNone(ds, true)
    requires FindTag(fields, tag) == Some(i) && Quiet(fields, ds, tags, st) && !SomeAgain(fields, tags + [tag])
    ensures var r := KnownInto(fields, i, wireType, st, s);
            !r.st.h.begun && (r.Next? ==> Quiet(fields, ds, tags + [tag], r.st))
  {
    LastMore(fields, tags, tag);
    var fresh' := Restarts(fields, i, st);
    if !fresh' || Decode.FixedDone(fields, Progress(st)) {
      var f, c := fields[i], st.cs[i];
      assert HeapField(f) && Sound(f, c, true);
      if fresh' {
        BeginQuiet(fields, ds, tags, st, i, tag);
      }
      var count, h := if fresh' then 0 else st.fixedCount, if fresh' then Begin(f, c, st.h) else st.h;
      FieldCalm(f, wireType, c, count, s, h);
      UntoldMore(fields, ds, tags, st.cs, i, FieldInto(f, wireType, c, count, s, h).c, tag);
    }
  }

  lemma RecordQuiet(fields: seq<Field>, ds: seq<Cell>, tags: seq<nat>, st: Memory, s: seq<Byte>)
    requires HeapSchema(fields) && Shallow(fields) && SoundAll(fields, st.cs, true) && AllOwnNone(ds, true)
    requires DecodeTag(s).Tag? && Quiet(fields, ds, tags, st) && !SomeAgain(fields, tags + [DecodeTag(s).number])
    ensures var r := RecordInto(fields, st, s);
            !After(r, st).h.begun && (r.Next? ==> Quiet(fields, ds, tags + [DecodeTag(s).number], r.st))
  {
    var t := DecodeTag(s);
    var i := FindTag(fields, t.number);
    if i.Some? {
      KnownQuiet(fields, ds, tags, st, i.value, t.number, t.wireType, t.rest);
    } else {
      LastMore(fields, tags, t.number);
      forall k | 0 <= k < |fields| && k < |ds| && FixedCount(fields[k]) && !Occurs(fields, k, tags + [t.number])
        ensures st.cs[k] == ds[k]
      {
        OccursMore(fields, k, tags, t.number);
      }
    }
  }

  lemma {:induction false} RecordsQuiet(fields: seq<Field>, ds: seq<Cell>, tags: seq<nat>, st: Memory, s: seq<Byte>)
    requires HeapSchema(fields) && Shallow(fields) && SoundAll(fields, st.cs, true) && AllOwnNone(ds, true)
    requires Quiet(fields, ds, tags, st) && !SomeAgain(fields, tags + TagsInto(fields, st, s))
    ensures !RecordsInto(fields, st, s).st.h.begun
    decreases |s|
  {
    if s != [] && DecodeTag(s).Tag? {
      var tag, r := DecodeTag(s).number, RecordInto(fields, st, s);
      var later := if r.Next? then TagsInto(fields, r.st, r.rest) else [];
      assert tags + TagsInto(fields, st, s) == tags + [tag] + later;
      forall i | 0 <= i < |fields| && Keeps(fields[i])
        ensures !BegunAgain(fields, i, tags + [tag])
      {
        if BegunAgain(fields, i, tags + [tag]) {
          AgainStays(fields, i, tags + [tag], later);
        }
      }
      RecordQuiet(fields, ds, tags, st, s);
      RecordSound(fields, st, s);
      if r.Next? {
        RecordsQuiet(fields, ds, tags + [tag], r.st, r.rest);
      }
    }
  }

  // ----------------------------------------------------- arrays begun again

  /** A required field whose value is a block, or a submessage with one. */
  ghost predicate Carrier(f: Field)
    decreases f, 0
  {
    f.htype.Required? && (f.atype.Pointer? || (f.atype.Static? && f.ltype.LSubmessage? && Carries(f.sub)))
  }

  /** Whatever decodes as this message has a block, because a required field does which is checked. */
  ghost predicate Carries(fields: seq<Field>)
    decreases fields, 1
  {
    exists q {:trigger fields[q]} ::
      0 <= q < |fields| && Carrier(fields[q]) && RequiredBefore(fields, q) < MAX_REQUIRED
  }

  lemma PointerHolds(f: Field, c: Cell, s: seq<Byte>, h: Heap)
    requires f.atype.Pointer? && PointerInto(f, c, s, h).ok
    ensures Drops(f, PointerInto(f, c, s, h).c)
  {
    var d := PointerInto(f, c, s, h).c;
    assert d.Link? && d.block.Some? && d.block.value.ours;
    assert d.block.value.id in OwnCell(d, true);
  }

  lemma {:induction false} CarrierHolds(f: Field, wireType: nat, c: Cell, count: nat, s: seq<Byte>, h: Heap)
    requires HeapField(f) && Sound(f, c, true) && Carrier(f) && FieldInto(f, wireType, c, count, s, h).ok
    ensures Drops(f, FieldInto(f, wireType, c, count, s, h).c)
    decreases |s|, 1
  {
    if f.atype.Pointer? {
      PointerHolds(f, c, s, h);
    } else {
      StructHolds(f.sub, c, s, h);
      assert FieldInto(f, wireType, c, count, s, h).c == StructInto(f.sub, false, c, s, h).c;
    }
  }

  lemma {:induction false} StructHolds(fields: seq<Field>, c: Cell, s: seq<Byte>, h: Heap)
    requires HeapSchema(fields) && SoundStruct(fields, c, true) && Carries(fields)
             && StructInto(fields, false, c, s, h).ok
    ensures SomeDrops(fields, Members(StructInto(fields, false, c, s, h).c))
    decreases |s|, 0
  {
    var p := Decode.Delimited(s);
    if p.Ok? {
      NoinitHolds(fields, c.members, p.value, h);
    }
  }

  /** Every carrier that has been seen has its block. */
  ghost predicate Loaded(fields: seq<Field>, cs: seq<Cell>, seen: set<nat>) {
    |cs| == |fields| && forall q {:trigger fields[q]} ::
      0 <= q < |fields| && Carrier(fields[q]) && RequiredBefore(fields, q) in seen ==> Drops(fields[q], cs[q])
  }

  lemma SeenOnce(fields: seq<Field>, i: nat, q: nat)
    requires i < |fields| && q < |fields| && fields[i].htype.Required? && fields[q].htype.Required?
    ensures RequiredBefore(fields, i) == RequiredBefore(fields, q) <==> i == q
  {
    if i < q {
      Merge.RequiredMonotone(fields, i, q);
    } else if q < i {
      Merge.RequiredMonotone(fields, q, i);
    }
  }

  lemma {:induction false} KnownLoads(fields: seq<Field>, i: nat, wireType: nat, st: Memory, s: seq<Byte>)
    requires HeapSchema(fields) && SoundAll(fields, st.cs, true) && Loaded(fields, st.cs, st.seen)
    requires i < |fields| && KnownInto(fields, i, wireType, st, s).Next?
    ensures var r := KnownInto(fields, i, wireType, st, s); Loaded(fields, r.st.cs, r.st.seen)
    decreases |s|, 2
  {
    var f, c, fresh' := fields[i], st.cs[i], Restarts(fields, i, st);
    assert HeapField(f) && Sound(f, c, true);
    var count, h := if fresh' then 0 else st.fixedCount, if fresh' then Begin(f, c, st.h) else st.h;
    var d := FieldInto(f, wireType, c, count, s, h).c;
    if Carrier(f) {
      CarrierHolds(f, wireType, c, count, s, h);
    }
    LoadedMore(fields, st.cs, st.seen, i, d);
  }

  lemma LoadedMore(fields: seq<Field>, cs: seq<Cell>, seen: set<nat>, i: nat, d: Cell)
    requires Loaded(fields, cs, seen) && i < |fields| && (Carrier(fields[i]) ==> Drops(fields[i], d))
    ensures Loaded(fields, cs[i := d], Decode.See(fields, i, seen))
  {
    forall q | 0 <= q < |fields| && Carrier(fields[q]) && RequiredBefore(fields, q) in Decode.See(fields, i, seen)
      ensures Drops(fields[q], cs[i := d][q])
    {
      if q != i && fields[i].htype.Required? {
        SeenOnce(fields, i, q);
      }
    }
  }

  lemma {:induction false} RecordLoads(fields: seq<Field>, st: Memory, s: seq<Byte>)
    requires HeapSchema(fields) && SoundAll(fields, st.cs, true) && Loaded(fields, st.cs, st.seen)
    ensures var r := RecordInto(fields, st, s); r.Next? ==> Loaded(fields, r.st.cs, r.st.seen)
    decreases |s|, 3
  {
    var t := DecodeTag(s);
    if t.Tag? && FindTag(fields, t.number).Some? {
      var i := FindTag(fields, t.number).value;
      if KnownInto(fields, i, t.wireType, st, t.rest).Next? {
        KnownLoads(fields, i, t.wireType, st, t.rest);
      }
    }
  }

  lemma {:induction false} RecordsLoad(fields: seq<Field>, st: Memory, s: seq<Byte>)
    requires HeapSchema(fields) && SoundAll(fields, st.cs, true) && Loaded(fields, st.cs, st.seen)
    ensures var r := RecordsInto(fields, st, s); r.Done? ==> Loaded(fields, r.st.cs, r.st.seen)
    decreases |s|, 4
  {
    if s != [] {
      RecordLoads(fields, st, s);
      RecordSound(fields, st, s);
      var r := RecordInto(fields, st, s);
      if r.Next? {
        RecordsLoad(fields, r.st, r.rest);
      }
    }
  }

  /** A message that carries a block has one that defaults would forget, once it is decoded. */
  lemma {:induction false} NoinitHolds(fields: seq<Field>, cs: seq<Cell>, s: seq<Byte>, h: Heap)
    requires HeapSchema(fields) && SoundAll(fields, cs, true) && Carries(fields) && NoinitInto(fields, cs, s, h).ok
    ensures SomeDrops(fields, NoinitInto(fields, cs, s, h).cs)
    decreases |s|, 5
  {
    var st := Memory(cs, {}, None, 0, h);
    RecordsLoad(fields, st, s);
    var q :| 0 <= q < |fields| && Carrier(fields[q]) && RequiredBefore(fields, q) < MAX_REQUIRED;
    assert RequiredBefore(fields, q + 1) == RequiredBefore(fields, q) + 1;
    Merge.RequiredMonotone(fields, q + 1, |fields|);
    var last := RecordsInto(fields, st, s).st;
    assert RequiredBefore(fields, q) in last.seen;
    assert Drops(fields[q], last.cs[q]);
  }

  /** The array has elements with blocks, once they are decoded. */
  ghost predicate Bearing(f: Field) {
    f.atype.Static? && FixedCount(f) && f.ltype.LSubmessage? && Carries(f.sub)
  }

  predicate FirstForgets(f: Field, c: Cell) {
    c.Array? && c.items != [] && Forgets(f.sub, c.items[0])
  }

  lemma ElementForgets(f: Field, c: Cell, s: seq<Byte>, h: Heap)
    requires HeapField(f) && Bearing(f) && SoundStruct(f.sub, c, false) && StructInto(f.sub, true, c, s, h).ok
    ensures Forgets(f.sub, StructInto(f.sub, true, c, s, h).c)
  {
    var body, h' := Decode.Delimited(s).value, h.(lost := h.lost + Forgotten(f.sub, c.members));
    DefaultsSound(f.sub, c.members, true);
    NoinitHolds(f.sub, DefaultCells(f.sub, c.members), body, h');
    StructSound(f.sub, true, c, s, h);
    ForgetsExactly(f.sub, StructInto(f.sub, true, c, s, h).c);
  }

  /** After a record of the array its first element has something to forget. */
  lemma BearingHolds(f: Field, wireType: nat, c: Cell, count: nat, s: seq<Byte>, h: Heap)
    requires HeapField(f) && Sound(f, c, true) && Bearing(f) && FieldInto(f, wireType, c, count, s, h).ok
    requires count == 0 || FirstForgets(f, c)
    ensures FirstForgets(f, FieldInto(f, wireType, c, count, s, h).c)
  {
    var r := ElementInto(f, c, count, s, h);
    assert FieldInto(f, wireType, c, count, s, h) == r;
    ElementThere(f, c, count);
    assert CountNext(f, c) == c && ItemAt(c, count) == c.items[count];
    ElementForgets(f, c.items[count], s, h);
    assert r.c.items == c.items[count := StructInto(f.sub, true, c.items[count], s, h).c];
  }

  /** What the arrays hold after a record of field i. */
  ghost predicate ArraysHeavy(fields: seq<Field>, tags: seq<nat>, cs: seq<Cell>, begun: bool) {
    |cs| == |fields| && forall i {:trigger fields[i]} :: 0 <= i < |fields| && Bearing(fields[i]) ==>
      && (Occurs(fields, i, tags) ==> FirstForgets(fields[i], cs[i]))
      && (BegunAgain(fields, i, tags) ==> begun)
  }

  ghost predicate Heavy(fields: seq<Field>, tags: seq<nat>, st: Memory) {
    && FixedAtField(fields, st) && st.fixedAt == Merge.LastArray(fields, tags)
    && (Pending(fields, st) ==> st.h.begun) && ArraysHeavy(fields, tags, st.cs, st.h.begun)
  }

  lemma LastOccurs(fields: seq<Field>, tags: seq<nat>, i: nat)
    requires Merge.LastArray(fields, tags) == Some(i)
    ensures Occurs(fields, i, tags)
  {
    var m := LastIs(fields, tags);
    assert IsArray(fields, i, tags[m]);
  }

  lemma ArraysMore(fields: seq<Field>, tags: seq<nat>, cs: seq<Cell>, begun: bool, i: nat, tag: nat, d: Cell,
                   begun': bool)
    requires ArraysHeavy(fields, tags, cs, begun) && i < |fields| && FindTag(fields, tag) == Some(i)
             && (begun ==> begun')
    requires Bearing(fields[i]) ==> FirstForgets(fields[i], d)
    requires Bearing(fields[i]) && BegunAgain(fields, i, tags + [tag]) ==> begun'
    ensures ArraysHeavy(fields, tags + [tag], cs[i := d], begun')
  {
    forall k | 0 <= k < |fields| && Bearing(fields[k])
      ensures Occurs(fields, k, tags + [tag]) ==> FirstForgets(fields[k], cs[i := d][k])
      ensures BegunAgain(fields, k, tags + [tag]) ==> begun'
    {
      OccursMore(fields, k, tags, tag);
      AgainMore(fields, k, tags, tag);
    }
  }

  /** A record of field i. */
  lemma KnownHeavy(fields: seq<Field>, tags: seq<nat>, st: Memory, i: nat, tag: nat, wireType: nat, s: seq<Byte>)
    requires HeapSchema(fields) && SoundAll(fields, st.cs, true) && Heavy(fields, tags, st)
    requires FindTag(fields, tag) == Some(i) && KnownInto(fields, i, wireType, st, s).Next?
    ensures Heavy(fields, tags + [tag], KnownInto(fields, i, wireType, st, s).st)
  {
    var f, c, fresh', r := fields[i], st.cs[i], Restarts(fields, i, st), KnownInto(fields, i, wireType, st, s);
    assert HeapField(f) && Sound(f, c, true);
    var count, h := if fresh' then 0 else st.fixedCount, if fresh' then Begin(f, c, st.h) else st.h;
    KnownTracked(fields, i, wireType, st, s, st.h);
    LastMore(fields, tags, tag);
    if Bearing(f) {
      BearingBegun(fields, tags, st, i);
      BearingHolds(f, wireType, c, count, s, h);
      BearingAgainBegun(fields, tags, st, i, tag, wireType, s);
    }
    ArraysMore(fields, tags, st.cs, st.h.begun, i, tag, FieldInto(f, wireType, c, count, s, h).c, r.st.h.begun);
  }

  lemma BearingAgainBegun(fields: seq<Field>, tags: seq<nat>, st: Memory, i: nat, tag: nat, wireType: nat, s: seq<Byte>)
    requires HeapSchema(fields) && SoundAll(fields, st.cs, true) && Heavy(fields, tags, st)
    requires i < |fields| && Bearing(fields[i]) && KnownInto(fields, i, wireType, st, s).Next?
    ensures BegunAgain(fields, i, tags + [tag]) ==> KnownInto(fields, i, wireType, st, s).st.h.begun
  {
    AgainMore(fields, i, tags, tag);
    if BegunAgain(fields, i, tags) {
      KnownTracked(fields, i, wireType, st, s, st.h);
    } else if BegunAgain(fields, i, tags + [tag]) {
      BearingBegun(fields, tags, st, i);
      BegunStays(fields, i, wireType, st, s);
    }
  }

  /** An array of such elements that is begun again is doomed, and one that goes on has its first element. */
  lemma BearingBegun(fields: seq<Field>, tags: seq<nat>, st: Memory, i: nat)
    requires Heavy(fields, tags, st) && i < |fields| && Bearing(fields[i])
    ensures !Restarts(fields, i, st) ==> FirstForgets(fields[i], st.cs[i])
    ensures Restarts(fields, i, st) && Occurs(fields, i, tags) ==> Doomed(fields[i], st.cs[i], 0)
  {
    if !Restarts(fields, i, st) {
      LastOccurs(fields, tags, i);
    } else if Occurs(fields, i, tags) {
      assert Forgets(fields[i].sub, st.cs[i].items[0]);
    }
  }

  lemma BegunStays(fields: seq<Field>, i: nat, wireType: nat, st: Memory, s: seq<Byte>)
    requires HeapSchema(fields) && SoundAll(fields, st.cs, true) && i < |fields|
    requires KnownInto(fields, i, wireType, st, s).Next? && FixedCount(fields[i])
    requires Restarts(fields, i, st) && Doomed(fields[i], st.cs[i], 0)
    ensures KnownInto(fields, i, wireType, st, s).st.h.begun
  {
    var f, c := fields[i], st.cs[i];
    assert HeapField(f) && Sound(f, c, true);
    FieldTracked(f, wireType, c, 0, s, Begin(f, c, st.h));
  }

  lemma RecordHeavy(fields: seq<Field>, tags: seq<nat>, st: Memory, s: seq<Byte>)
    requires HeapSchema(fields) && SoundAll(fields, st.cs, true) && Heavy(fields, tags, st)
    requires DecodeTag(s).Tag? && RecordInto(fields, st, s).Next?
    ensures Heavy(fields, tags + [DecodeTag(s).number], RecordInto(fields, st, s).st)
  {
    var t := DecodeTag(s);
    if FindTag(fields, t.number).Some? {
      KnownHeavy(fields, tags, st, FindTag(fields, t.number).value, t.number, t.wireType, t.rest);
    } else {
      LastMore(fields, tags, t.number);
      forall k | 0 <= k < |fields|
        ensures Occurs(fields, k, tags + [t.number]) == Occurs(fields, k, tags)
        ensures BegunAgain(fields, k, tags + [t.number]) == BegunAgain(fields, k, tags)
      {
        OccursMore(fields, k, tags, t.number);
        AgainMore(fields, k, tags, t.number);
      }
    }
  }

  lemma OnlyTagsGoOn(fields: seq<Field>, st: Memory, s: seq<Byte>)
    requires !RecordInto(fields, st, s).Stuck?
    ensures RecordInto(fields, st, s).Next? <==> DecodeTag(s).Tag?
  {
  }

  lemma Prepend(tags: seq<nat>, tag: nat, more: seq<nat>)
    ensures tags + ([tag] + more) == tags + [tag] + more && tags + [] == tags
  {
  }

  lemma {:induction false} RecordsHeavy(fields: seq<Field>, tags: seq<nat>, st: Memory, s: seq<Byte>)
    requires HeapSchema(fields) && SoundAll(fields, st.cs, true) && Heavy(fields, tags, st)
    requires RecordsInto(fields, st, s).Done?
    ensures Heavy(fields, tags + TagsInto(fields, st, s), RecordsInto(fields, st, s).st)
    decreases |s|
  {
    var r := RecordInto(fields, st, s);
    if s != [] && r.Next? {
      RecordHeavy(fields, tags, st, s);
      RecordSound(fields, st, s);
      RecordsHeavy(fields, tags + [DecodeTag(s).number], r.st, r.rest);
      OnlyTagsGoOn(fields, st, s);
      Prepend(tags, DecodeTag(s).number, TagsInto(fields, r.st, r.rest));
    } else {
      if s != [] {
        OnlyTagsGoOn(fields, st, s);
      }
      Prepend(tags, 0, []);
    }
  }

  // --------------------------------------------------------------- results

  /** The field numbers of the records that `pb_decode` meets. */
  function TagsMet(fields: seq<Field>, cs: seq<Cell>, s: seq<Byte>, h: Heap): seq<nat> {
    TagsInto(fields, Memory(DefaultCells(fields, cs), {}, None, 0, h), s)
  }

  ghost predicate BearingAgain(fields: seq<Field>, tags: seq<nat>) {
    exists i {:trigger fields[i]} :: 0 <= i < |fields| && Bearing(fields[i]) && BegunAgain(fields, i, tags)
  }

  /** Before the first record. */
  lemma AtStart(fields: seq<Field>, cs: seq<Cell>, s: seq<Byte>, h: Heap)
    requires Before(fields, cs) && Blank(h)
    ensures var ds := DefaultCells(fields, cs);
            && SoundAll(fields, ds, true) && AllOwnNone(ds, true)
               && [] + TagsMet(fields, cs, s, h) == TagsMet(fields, cs, s, h)
            && h.(lost := h.lost + Forgotten(fields, cs)) == h
  {
    var ds := DefaultCells(fields, cs);
    DefaultsSound(fields, cs, true);
    NoneOwned(ds, true);
    assert Own(ds, true) == multiset{} && Forgotten(fields, cs) == multiset{};
  }

  /** When no array whose elements have pointers is begun again, nothing is forgotten; whatever the bytes
      are otherwise, and whether or not they decode. */
  lemma NoneAgain(fields: seq<Field>, cs: seq<Cell>, s: seq<Byte>, h: Heap)
    requires Before(fields, cs) && Blank(h) && Shallow(fields) && !SomeAgain(fields, TagsMet(fields, cs, s, h))
    ensures !MessageInto(fields, cs, s, h).h.begun
  {
    var ds := DefaultCells(fields, cs);
    AtStart(fields, cs, s, h);
    RecordsQuiet(fields, ds, [], Memory(ds, {}, None, 0, h), s);
  }

  lemma StartsLight(fields: seq<Field>, st: Memory)
    requires |st.cs| == |fields| && st.fixedAt == None
    ensures Heavy(fields, [], st)
  {
  }

  lemma RunBegun(fields: seq<Field>, st: Memory, s: seq<Byte>)
    requires HeapSchema(fields) && SoundAll(fields, st.cs, true) && st.fixedAt == None
    requires RecordsInto(fields, st, s).Done? && BearingAgain(fields, TagsInto(fields, st, s))
    ensures RecordsInto(fields, st, s).st.h.begun
  {
    var tags := TagsInto(fields, st, s);
    StartsLight(fields, st);
    RecordsHeavy(fields, [], st, s);
    assert [] + tags == tags;
    var i :| 0 <= i < |fields| && Bearing(fields[i]) && BegunAgain(fields, i, tags);
  }

  lemma HeapOfRun(fields: seq<Field>, cs: seq<Cell>, s: seq<Byte>, h: Heap)
    requires h.(lost := h.lost + Forgotten(fields, cs)) == h && MessageInto(fields, cs, s, h).ok
    ensures var r := RecordsInto(fields, Memory(DefaultCells(fields, cs), {}, None, 0, h), s);
            r.Done? && MessageInto(fields, cs, s, h).h == r.st.h
  {
  }

  /** When an array whose elements have blocks is begun again and decoding succeeds, one is lost. */
  lemma AgainLoses(fields: seq<Field>, cs: seq<Cell>, s: seq<Byte>, h: Heap)
    requires Before(fields, cs) && Blank(h) && MessageInto(fields, cs, s, h).ok
    requires BearingAgain(fields, TagsMet(fields, cs, s, h))
    ensures MessageInto(fields, cs, s, h).h.lost != multiset{}
  {
    AtStart(fields, cs, s, h);
    HeapOfRun(fields, cs, s, h);
    RunBegun(fields, Memory(DefaultCells(fields, cs), {}, None, 0, h), s);
    LostExactly(fields, cs, s, h);
  }

  /** For messages whose fixed-count arrays have elements that have no pointers, or that cannot be decoded
      without a block: after a success a block is lost exactly when the records of an array with blocks
      come before and after those of another fixed-count array. */
  lemma LostByOrder(fields: seq<Field>, cs: seq<Cell>, s: seq<Byte>, h: Heap)
    requires Before(fields, cs) && Blank(h) && Shallow(fields) && MessageInto(fields, cs, s, h).ok
    requires forall i {:trigger fields[i]} :: 0 <= i < |fields| && Keeps(fields[i]) ==> Bearing(fields[i])
    ensures MessageInto(fields, cs, s, h).h.lost != multiset{} <==> SomeAgain(fields, TagsMet(fields, cs, s, h))
  {
    LostExactly(fields, cs, s, h);
    if SomeAgain(fields, TagsMet(fields, cs, s, h)) {
      AgainLoses(fields, cs, s, h);
    } else {
      NoneAgain(fields, cs, s, h);
    }
  }

  /** Clean storage, and records that begin no array with pointers again: the heap is untouched and the
      storage is clean again, unless a count went back to zero. */
  lemma OrderUntouched(fields: seq<Field>, cs: seq<Cell>, s: seq<Byte>, h: Heap)
    requires Before(fields, cs) && Blank(h) && Shallow(fields) && Clean(fields, cs)
    requires !SomeAgain(fields, TagsMet(fields, cs, s, h))
    ensures var r := Whole(fields, cs, s, h);
            r.h.wrapped || (Untouched(h, r.h) && Before(fields, r.cs) && Clean(fields, r.cs))
  {
    NoneAgain(fields, cs, s, h);
    CleanUntouched(fields, cs, s, h);
  }
}
