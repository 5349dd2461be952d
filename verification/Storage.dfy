/**
 What defaults, zeros and releases make of storage, and the stale pointers in
 it: those to blocks that are not ours.
 */
module Storage {
  import opened Wire
  import opened Schema
  import opened Blocks

  // --------------------------------------------------------- stale pointers

  /** The stale pointers in blocks of ours, wherever they are there; with `deep`, those outside
      of our blocks too. */
  function Loose(c: Cell, deep: bool): multiset<nat> {
    match c
    case Inline(_) => multiset{}
    case Struct(members) => LooseAll(members, deep)
    case Array(_, items, spare) => LooseAll(items, deep) + if deep then LooseAll(spare, deep) else multiset{}
    case Link(block) =>
      if block.None? then multiset{}
      else if block.value.ours then LooseAll(block.value.items, true)
      else if deep then multiset{block.value.id} + LooseAll(block.value.items, true)
      else multiset{}
    case Wild(was) => if deep then multiset{was} else multiset{}
  }

  function LooseAll(cs: seq<Cell>, deep: bool): multiset<nat> {
    if cs == [] then multiset{} else Loose(cs[0], deep) + LooseAll(cs[1..], deep)
  }

  lemma {:induction false} LooseConcat(a: seq<Cell>, b: seq<Cell>, deep: bool)
    ensures LooseAll(a + b, deep) == LooseAll(a, deep) + LooseAll(b, deep)
  {
    if a == [] {
      assert a + b == b;
    } else {
      assert (a + b)[0] == a[0] && (a + b)[1..] == a[1..] + b;
      LooseConcat(a[1..], b, deep);
    }
  }

  /** All but cell i. */
  function LooseOthers(cs: seq<Cell>, i: nat, deep: bool): multiset<nat>
    requires i < |cs|
  {
    LooseAll(cs[..i], deep) + LooseAll(cs[i + 1..], deep)
  }

  lemma LooseOne(c: Cell, deep: bool)
    ensures LooseAll([c], deep) == Loose(c, deep)
  {
    assert [c][0] == c && [c][1..] == [];
  }

  lemma LooseMore(cs: seq<Cell>, c: Cell, deep: bool)
    ensures LooseAll(cs + [c], deep) == LooseAll(cs, deep) + Loose(c, deep)
  {
    LooseConcat(cs, [c], deep);
    LooseOne(c, deep);
  }

  lemma LooseAround(a: seq<Cell>, c: Cell, b: seq<Cell>, deep: bool)
    ensures LooseAll(a + ([c] + b), deep) == LooseAll(a, deep) + LooseAll(b, deep) + Loose(c, deep)
  {
    assert ([c] + b)[0] == c && ([c] + b)[1..] == b;
    LooseConcat(a, [c] + b, deep);
  }

  lemma LooseSplit(cs: seq<Cell>, i: nat, deep: bool)
    requires i < |cs|
    ensures LooseAll(cs, deep) == LooseOthers(cs, i, deep) + Loose(cs[i], deep)
  {
    LooseAround(cs[..i], cs[i], cs[i + 1..], deep);
    Reassembled(cs, i);
  }

  lemma LooseUpdate(cs: seq<Cell>, i: nat, c: Cell, deep: bool)
    requires i < |cs|
    ensures LooseAll(cs[i := c], deep) == LooseOthers(cs, i, deep) + Loose(c, deep)
  {
    var ds := cs[i := c];
    LooseSplit(ds, i, deep);
    assert ds[..i] == cs[..i] && ds[i + 1..] == cs[i + 1..];
  }

  /** What is in use and not ours is among them. */
  lemma {:induction false} StaleIsLoose(c: Cell)
    ensures OwnCell(c, false) <= Loose(c, true)
    decreases c, 0
  {
    match c
    case Inline(_) =>
    case Struct(members) => StaleAreLoose(members);
    case Array(_, items, _) => StaleAreLoose(items);
    case Link(block) =>
      if block.Some? {
        StaleAreLoose(block.value.items);
      }
    case Wild(_) =>
  }

  lemma {:induction false} StaleAreLoose(cs: seq<Cell>)
    ensures Own(cs, false) <= LooseAll(cs, true)
    decreases cs, 1
  {
    if cs != [] {
      StaleIsLoose(cs[0]);
      StaleAreLoose(cs[1..]);
    }
  }

  /** So are pointers to nowhere. */
  lemma {:induction false} WildIsLoose(c: Cell)
    ensures HasWild(c) ==> Loose(c, true) != multiset{}
    decreases c, 0
  {
    match c
    case Inline(_) =>
    case Struct(members) => WildAreLoose(members);
    case Array(_, items, spare) =>
      WildAreLoose(items);
      Nonempty(LooseAll(items, true), LooseAll(spare, true));
    case Link(block) =>
      if block.Some? {
        WildAreLoose(block.value.items);
        Nonempty(LooseAll(block.value.items, true), multiset{block.value.id});
      }
    case Wild(was) => assert was in Loose(c, true);
  }

  lemma {:induction false} WildAreLoose(cs: seq<Cell>)
    ensures AnyWild(cs) ==> LooseAll(cs, true) != multiset{}
    decreases cs, 1
  {
    if cs != [] {
      WildIsLoose(cs[0]);
      WildAreLoose(cs[1..]);
      Nonempty(Loose(cs[0], true), LooseAll(cs[1..], true));
    }
  }

  lemma Nonempty(a: multiset<nat>, b: multiset<nat>)
    ensures a != multiset{} || b != multiset{} ==> a + b != multiset{} && b + a != multiset{}
  {
    if a + b == multiset{} {
      EmptySum(a, b);
    }
    assert a + b == b + a;
  }

  /** Without a block of ours there is nothing in our blocks. */
  lemma {:induction false} NothingInside(c: Cell)
    ensures OwnCell(c, true) == multiset{} ==> Loose(c, false) == multiset{}
    decreases c, 0
  {
    match c
    case Inline(_) =>
    case Struct(members) => NothingInsideAll(members);
    case Array(_, items, _) => NothingInsideAll(items);
    case Link(block) =>
      if block.Some? && block.value.ours {
        assert block.value.id in OwnCell(c, true);
      }
    case Wild(_) =>
  }

  lemma {:induction false} NothingInsideAll(cs: seq<Cell>)
    ensures Own(cs, true) == multiset{} ==> LooseAll(cs, false) == multiset{}
    decreases cs, 1
  {
    if cs != [] {
      NothingInside(cs[0]);
      NothingInsideAll(cs[1..]);
      if Own(cs, true) == multiset{} {
        EmptySum(OwnCell(cs[0], true), Own(cs[1..], true));
      }
    }
  }

  // --------------------------------------------------------------- foreign

  /** The same pointers, none of which is ours any more. */
  function ForeignCell(c: Cell): Cell {
    match c
    case Inline(_) => c
    case Struct(members) => Struct(ForeignAll(members))
    case Array(count, items, spare) => Array(count, ForeignAll(items), ForeignAll(spare))
    case Link(block) =>
      if block.None? then c
      else Link(Some(Block(block.value.id, false, block.value.count, ForeignAll(block.value.items))))
    case Wild(_) => c
  }

  function ForeignAll(cs: seq<Cell>): (ds: seq<Cell>)
    ensures |ds| == |cs|
  {
    seq(|cs|, k requires 0 <= k < |cs| => ForeignCell(cs[k]))
  }

  lemma {:induction false} ForeignMine(c: Cell)
    ensures OwnCell(ForeignCell(c), true) == multiset{}
    decreases c, 0
  {
    match c
    case Inline(_) =>
    case Struct(members) => ForeignAllMine(members);
    case Array(_, items, _) => ForeignAllMine(items);
    case Link(block) =>
      if block.Some? {
        ForeignAllMine(block.value.items);
      }
    case Wild(_) =>
  }

  lemma {:induction false} ForeignAllMine(cs: seq<Cell>)
    ensures Own(ForeignAll(cs), true) == multiset{}
    decreases cs, 1
  {
    if cs != [] {
      assert ForeignAll(cs)[1..] == ForeignAll(cs[1..]);
      ForeignMine(cs[0]);
      ForeignAllMine(cs[1..]);
    }
  }

  /** From c to d no block of ours is new, and whatever is stale now was stale before or ours. */
  predicate Shrinks(c: Cell, d: Cell, deep: bool) {
    && OwnCell(d, true) <= OwnCell(c, true)
    && Loose(d, deep) + OwnCell(d, true) <= Loose(c, deep) + OwnCell(c, true)
  }

  predicate AllShrink(cs: seq<Cell>, ds: seq<Cell>, deep: bool) {
    |cs| == |ds| && forall k {:trigger Shrinks(cs[k], ds[k], deep)} :: 0 <= k < |cs| ==> Shrinks(cs[k], ds[k], deep)
  }

  lemma AddBounds(a: multiset<nat>, b: multiset<nat>, c: multiset<nat>, d: multiset<nat>,
                  a': multiset<nat>, b': multiset<nat>, c': multiset<nat>, d': multiset<nat>)
    requires a + b <= c + d && a' + b' <= c' + d'
    ensures (a + a') + (b + b') <= (c + c') + (d + d')
  {
    forall x
      ensures ((a + a') + (b + b'))[x] <= ((c + c') + (d + d'))[x]
    {
      assert (a + b)[x] <= (c + d)[x] && (a' + b')[x] <= (c' + d')[x];
    }
  }

  lemma {:induction false} SumShrinks(cs: seq<Cell>, ds: seq<Cell>, deep: bool)
    requires AllShrink(cs, ds, deep)
    ensures Own(ds, true) <= Own(cs, true)
    ensures LooseAll(ds, deep) + Own(ds, true) <= LooseAll(cs, deep) + Own(cs, true)
  {
    if cs != [] {
      assert Shrinks(cs[0], ds[0], deep);
      forall k | 0 <= k < |cs[1..]|
        ensures Shrinks(cs[1..][k], ds[1..][k], deep)
      {
        assert Shrinks(cs[k + 1], ds[k + 1], deep);
      }
      SumShrinks(cs[1..], ds[1..], deep);
      AddBounds(Loose(ds[0], deep), OwnCell(ds[0], true), Loose(cs[0], deep), OwnCell(cs[0], true),
                LooseAll(ds[1..], deep), Own(ds[1..], true), LooseAll(cs[1..], deep), Own(cs[1..], true));
    }
  }

  lemma {:induction false} ForeignSound(f: Field, c: Cell)
    requires Sound(f, c, false)
    ensures Sound(f, ForeignCell(c), false) && Shrinks(c, ForeignCell(c), true)
    decreases f, 0
  {
    ForeignMine(c);
    if f.atype.Pointer? {
      if c.Link? && c.block.Some? {
        ForeignBlock(f, c.block.value);
      }
    } else if f.ltype.LSubmessage? {
      if f.htype.Repeated? {
        ForeignStructs(f.sub, c.items);
        ForeignStructs(f.sub, c.spare);
        ForeignAllMine(c.spare);
        AddBounds(LooseAll(ForeignAll(c.items), true), Own(ForeignAll(c.items), true),
                  LooseAll(c.items, true), Own(c.items, true),
                  LooseAll(ForeignAll(c.spare), true), multiset{}, LooseAll(c.spare, true), multiset{});
      } else {
        ForeignMembers(f.sub, c.members);
      }
    }
  }

  lemma {:induction false} ForeignBlock(f: Field, b: Block)
    requires SoundBlock(f, b)
    ensures SoundBlock(f, Block(b.id, false, b.count, ForeignAll(b.items)))
    ensures LooseAll(ForeignAll(b.items), true) <= LooseAll(b.items, true) + Own(b.items, true)
    decreases f, 0, 0
  {
    ForeignAllMine(b.items);
    if f.ltype.LSubmessage? {
      ForeignStructs(f.sub, b.items);
    } else if BlobArray(f) {
      ForeignPlain(b.items);
    }
  }

  lemma PlainForeign(c: Cell)
    requires PlainPointer(c)
    ensures PlainPointer(ForeignCell(c)) && Shrinks(c, ForeignCell(c), true)
  {
    assert ForeignAll([]) == [];
  }

  lemma ForeignPlain(cs: seq<Cell>)
    requires PlainPointers(cs)
    ensures PlainPointers(ForeignAll(cs))
    ensures LooseAll(ForeignAll(cs), true) + Own(ForeignAll(cs), true) <= LooseAll(cs, true) + Own(cs, true)
  {
    var ds := ForeignAll(cs);
    forall k | 0 <= k < |cs|
      ensures PlainPointer(ds[k]) && Shrinks(cs[k], ds[k], true)
    {
      assert PlainPointer(cs[k]);
      PlainForeign(cs[k]);
      assert ds[k] == ForeignCell(cs[k]);
    }
    SumShrinks(cs, ds, true);
  }

  lemma {:induction false} ForeignStructs(fields: seq<Field>, cs: seq<Cell>)
    requires SoundStructs(fields, cs)
    ensures SoundStructs(fields, ForeignAll(cs))
    ensures LooseAll(ForeignAll(cs), true) + Own(ForeignAll(cs), true) <= LooseAll(cs, true) + Own(cs, true)
    decreases fields, 2
  {
    var ds := ForeignAll(cs);
    forall k | 0 <= k < |cs|
      ensures SoundStruct(fields, ds[k], false) && Shrinks(cs[k], ds[k], true)
    {
      assert SoundStruct(fields, cs[k], false);
      ForeignMembers(fields, cs[k].members);
      assert ds[k] == ForeignCell(cs[k]) == Struct(ForeignAll(cs[k].members));
    }
    SumShrinks(cs, ds, true);
  }

  lemma {:induction false} ForeignMembers(fields: seq<Field>, cs: seq<Cell>)
    requires SoundAll(fields, cs, false)
    ensures SoundAll(fields, ForeignAll(cs), false)
    ensures Own(ForeignAll(cs), true) <= Own(cs, true)
    ensures LooseAll(ForeignAll(cs), true) + Own(ForeignAll(cs), true) <= LooseAll(cs, true) + Own(cs, true)
    decreases fields, 1
  {
    var ds := ForeignAll(cs);
    forall k | 0 <= k < |cs|
      ensures Sound(fields[k], ds[k], false) && Shrinks(cs[k], ds[k], true)
    {
      assert Sound(fields[k], cs[k], false);
      ForeignSound(fields[k], cs[k]);
      assert ds[k] == ForeignCell(cs[k]);
    }
    SumShrinks(cs, ds, true);
  }

  // ------------------------------------------------------------- overwriting

  /** A pointer whose first bytes have been overwritten by a zero count. */
  function OverwrittenPointer(c: Cell): Cell {
    if !c.Link? || c.block.None? then c
    else if SIZE_BYTES >= POINTER_BYTES then Link(None)
    else if c.block.value.id in ROUND then c
    else Wild(c.block.value.id)
  }

  /** A pointer beside which the count has become zero. */
  function Uncounted(c: Cell): Cell {
    if c.Link? && c.block.Some? then Link(Some(Block(c.block.value.id, c.block.value.ours, 0, []))) else c
  }

  /** An array in place whose count has become zero: the elements stay as they are, but none is in
      use any more. */
  function Emptied(c: Cell): Cell {
    if c.Array? then Array(0, [], ForeignAll(c.items) + c.spare) else c
  }

  /** The first field of a struct over whose first bytes a zero count is written: it hits a pointer
      or a count that lies there, possibly that of a submessage or of an array in place. */
  function Overwritten(f: Field, c: Cell): Cell
    decreases f, 0
  {
    if f.atype.Pointer? then
      if f.htype.Repeated? then (if f.dataOffset + f.sizeOffset == 0 then Uncounted(c) else c)
      else if f.dataOffset == 0 then OverwrittenPointer(c)
      else c
    else if f.htype.Repeated? && !FixedCount(f) then
      if f.dataOffset + f.sizeOffset != 0 then c
      else if f.ltype.LSubmessage? then Emptied(c)
      else Inline(0)
    else if !f.ltype.LSubmessage? || f.dataOffset != 0 then c
    else if !f.htype.Repeated? then Struct(OverwrittenStruct(f.sub, Members(c)))
    else if c.Array? then Array(c.count, OverwrittenFirst(f.sub, c.items), c.spare)
    else c
  }

  function OverwrittenStruct(fields: seq<Field>, cs: seq<Cell>): (ds: seq<Cell>)
    ensures |ds| == |cs|
    decreases fields, 1
  {
    if fields == [] || cs == [] then cs else cs[0 := Overwritten(fields[0], cs[0])]
  }

  function OverwrittenFirst(fields: seq<Field>, items: seq<Cell>): (ds: seq<Cell>)
    ensures |ds| == |items|
    decreases fields, 2
  {
    if items == [] then items else items[0 := Struct(OverwrittenStruct(fields, Members(items[0])))]
  }

  lemma UncountedSound(f: Field, c: Cell, deep: bool)
    requires f.atype.Pointer? && f.htype.Repeated? && Sound(f, c, false)
    ensures Sound(f, Uncounted(c), false) && Shrinks(c, Uncounted(c), deep)
  {
  }

  lemma OverwrittenPointerSound(f: Field, c: Cell, deep: bool)
    requires f.atype.Pointer? && Sound(f, c, false)
    ensures Sound(f, OverwrittenPointer(c), false) && Shrinks(c, OverwrittenPointer(c), deep)
  {
    if c.Link? && c.block.Some? {
      PointerGone(c.block.value, deep);
    }
  }

  lemma PointerGone(b: Block, deep: bool)
    ensures Shrinks(Link(Some(b)), Link(None), deep) && Shrinks(Link(Some(b)), Wild(b.id), deep)
  {
    var id, own, loose := multiset{b.id}, Own(b.items, true), LooseAll(b.items, true);
    assert id + multiset{} == id;
    if b.ours {
      assert OwnCell(Link(Some(b)), true) == id + own && Loose(Link(Some(b)), deep) == loose;
      assert id <= loose + (id + own);
    } else {
      assert id <= (id + loose) + own;
    }
  }

  lemma AllSpareSound(fields: seq<Field>, items: seq<Cell>, spare: seq<Cell>)
    requires SoundStructs(fields, items) && SoundStructs(fields, spare) && Own(spare, true) == multiset{}
    ensures var all := ForeignAll(items) + spare; SoundStructs(fields, all) && Own(all, true) == multiset{}
  {
    ForeignStructs(fields, items);
    ForeignAllMine(items);
    BothStructs(fields, ForeignAll(items), spare);
    OwnConcat(ForeignAll(items), spare, true);
  }

  lemma EmptiedShrinks(fields: seq<Field>, items: seq<Cell>, spare: seq<Cell>)
    requires SoundStructs(fields, items)
    ensures LooseAll(ForeignAll(items) + spare, true) <= LooseAll(items, true) + LooseAll(spare, true)
            + Own(items, true)
  {
    ForeignStructs(fields, items);
    LooseConcat(ForeignAll(items), spare, true);
    var l, o, l', o', s := LooseAll(items, true), Own(items, true), LooseAll(ForeignAll(items), true),
      Own(ForeignAll(items), true), LooseAll(spare, true);
    AddBounds(l', o', l, o, s, multiset{}, s, multiset{});
    assert l' + s <= (l' + s) + (o' + multiset{});
    assert (l + s) + (o + multiset{}) == l + s + o;
  }

  lemma EmptiedSound(f: Field, c: Cell, deep: bool)
    requires f.htype.Repeated? && !FixedCount(f) && SoundArray(f, c)
    ensures SoundArray(f, Emptied(c)) && Shrinks(c, Emptied(c), deep)
  {
    AllSpareSound(f.sub, c.items, c.spare);
    EmptiedShrinks(f.sub, c.items, c.spare);
  }

  lemma {:induction false} OverwrittenSound(f: Field, c: Cell, deep: bool)
    requires Sound(f, c, false)
    ensures Sound(f, Overwritten(f, c), false) && Shrinks(c, Overwritten(f, c), deep)
    decreases f, 0
  {
    if f.atype.Pointer? {
      if f.htype.Repeated? {
        UncountedSound(f, c, deep);
      } else {
        OverwrittenPointerSound(f, c, deep);
      }
    } else if f.ltype.LSubmessage? {
      if !f.htype.Repeated? {
        OverwrittenStructSound(f.sub, c.members, deep);
      } else if FixedCount(f) {
        OverwrittenArraySound(f, c, deep);
      } else {
        EmptiedSound(f, c, deep);
      }
    }
  }

  lemma {:induction false} OverwrittenStructSound(fields: seq<Field>, cs: seq<Cell>, deep: bool)
    requires SoundAll(fields, cs, false)
    ensures var ds := OverwrittenStruct(fields, cs);
            && SoundAll(fields, ds, false) && Own(ds, true) <= Own(cs, true)
            && LooseAll(ds, deep) + Own(ds, true) <= LooseAll(cs, deep) + Own(cs, true)
    decreases fields, 1
  {
    if cs != [] {
      var d := Overwritten(fields[0], cs[0]);
      assert Sound(fields[0], cs[0], false);
      OverwrittenSound(fields[0], cs[0], deep);
      CellPut(fields, cs, 0, d, false);
      PutShrinks(cs, 0, d, deep);
    }
  }

  lemma PutShrinks(cs: seq<Cell>, k: nat, d: Cell, deep: bool)
    requires k < |cs| && Shrinks(cs[k], d, deep)
    ensures Own(cs[k := d], true) <= Own(cs, true)
    ensures LooseAll(cs[k := d], deep) + Own(cs[k := d], true) <= LooseAll(cs, deep) + Own(cs, true)
  {
    forall j | 0 <= j < |cs|
      ensures Shrinks(cs[j], cs[k := d][j], deep)
    {
    }
    SumShrinks(cs, cs[k := d], deep);
  }

  lemma {:induction false} OverwrittenFirstSound(fields: seq<Field>, items: seq<Cell>, deep: bool)
    requires SoundStructs(fields, items)
    ensures var ds := OverwrittenFirst(fields, items);
            && SoundStructs(fields, ds) && Own(ds, true) <= Own(items, true)
            && LooseAll(ds, deep) + Own(ds, true) <= LooseAll(items, deep) + Own(items, true)
    decreases fields, 2
  {
    if items != [] {
      var item := Struct(OverwrittenStruct(fields, Members(items[0])));
      assert SoundStruct(fields, items[0], false);
      OverwrittenStructSound(fields, items[0].members, deep);
      StructPut(fields, items, 0, item);
      PutShrinks(items, 0, item, deep);
    }
  }

  lemma {:induction false} OverwrittenArraySound(f: Field, c: Cell, deep: bool)
    requires f.htype.Repeated? && FixedCount(f) && SoundArray(f, c)
    ensures var d := Array(c.count, OverwrittenFirst(f.sub, c.items), c.spare);
            SoundArray(f, d) && Shrinks(c, d, deep)
    decreases f, 0, 0
  {
    OverwrittenFirstSound(f.sub, c.items, deep);
    ItemsShrink(c.count, c.items, OverwrittenFirst(f.sub, c.items), c.spare, deep);
  }

  lemma ItemsShrink(n: nat, items: seq<Cell>, items': seq<Cell>, spare: seq<Cell>, deep: bool)
    requires Own(items', true) <= Own(items, true)
    requires LooseAll(items', deep) + Own(items', true) <= LooseAll(items, deep) + Own(items, true)
    ensures Shrinks(Array(n, items, spare), Array(n, items', spare), deep)
  {
    var rest := if deep then LooseAll(spare, deep) else multiset{};
    AddBounds(LooseAll(items', deep), Own(items', true), LooseAll(items, deep), Own(items, true),
              rest, multiset{}, rest, multiset{});
    assert Own(items', true) + multiset{} == Own(items', true) && Own(items, true) + multiset{} == Own(items, true);
  }

  // -------------------------------------------------------------- defaults

  /** `pb_field_set_to_default`: pointers become NULL without being freed, and counts become zero while
      the elements stay as they are. An array of a fixed count has no count: the zero is written
      over the beginning of its first element, and all elements stay in use. */
  function DefaultCell(f: Field, c: Cell): Cell
    decreases f, 0
  {
    if f.atype.Pointer? then Link(None)
    else if !f.ltype.LSubmessage? then Inline(0)
    else if !f.htype.Repeated? then Struct(DefaultCells(f.sub, Members(c)))
    else if !c.Array? then c
    else if FixedCount(f) then Array(c.count, OverwrittenFirst(f.sub, c.items), c.spare)
    else Emptied(c)
  }

  /** `pb_message_set_to_defaults` */
  function DefaultCells(fields: seq<Field>, cs: seq<Cell>): (ds: seq<Cell>)
    ensures |ds| == |cs|
    decreases fields, 1
  {
    seq(|cs|, i requires 0 <= i < |cs| => if i < |fields| then DefaultCell(fields[i], cs[i]) else cs[i])
  }

  lemma {:induction false} DefaultSound(f: Field, c: Cell, deep: bool)
    requires Sound(f, c, false)
    ensures Sound(f, DefaultCell(f, c), true) && Shrinks(c, DefaultCell(f, c), deep)
    decreases f, 0
  {
    if !f.atype.Pointer? && f.ltype.LSubmessage? {
      if !f.htype.Repeated? {
        DefaultsSound(f.sub, c.members, deep);
      } else if FixedCount(f) {
        OverwrittenArraySound(f, c, deep);
      } else {
        EmptiedSound(f, c, deep);
      }
    }
  }

  /** Setting sound storage to defaults leaves pointers outside of arrays NULL, and what it
      forgets is stale from then on. */
  lemma {:induction false} DefaultsSound(fields: seq<Field>, cs: seq<Cell>, deep: bool)
    requires SoundAll(fields, cs, false)
    ensures var ds := DefaultCells(fields, cs);
            && SoundAll(fields, ds, true) && Own(ds, true) <= Own(cs, true)
            && LooseAll(ds, deep) + Own(ds, true) <= LooseAll(cs, deep) + Own(cs, true)
    decreases fields, 1
  {
    var ds := DefaultCells(fields, cs);
    forall i | 0 <= i < |ds|
      ensures Sound(fields[i], ds[i], true) && Shrinks(cs[i], ds[i], deep)
    {
      assert Sound(fields[i], cs[i], false);
      DefaultSound(fields[i], cs[i], deep);
    }
    SumShrinks(cs, ds, deep);
  }

  // ----------------------------------------------------------------- zeros

  /** Storage that `memset` has filled with zeros. */
  function ZeroCell(f: Field): Cell
    decreases f, 0
  {
    if f.atype.Pointer? then Link(None)
    else if !f.ltype.LSubmessage? then Inline(0)
    else if !f.htype.Repeated? then Struct(ZeroCells(f.sub))
    else
      var zs := seq(f.arraySize, _ => Struct(ZeroCells(f.sub)));
      if FixedCount(f) then Array(0, zs, []) else Array(0, [], zs)
  }

  function ZeroCells(fields: seq<Field>): (cs: seq<Cell>)
    ensures |cs| == |fields|
    decreases fields, 1
  {
    seq(|fields|, i requires 0 <= i < |fields| => ZeroCell(fields[i]))
  }

  /** No pointers at all. */
  predicate Empty(c: Cell) {
    OwnCell(c, true) == multiset{} && Loose(c, true) == multiset{}
  }

  predicate AllEmpty(cs: seq<Cell>) {
    forall k {:trigger Empty(cs[k])} :: 0 <= k < |cs| ==> Empty(cs[k])
  }

  lemma {:induction false} EmptySums(cs: seq<Cell>)
    requires AllEmpty(cs)
    ensures Own(cs, true) == multiset{} && LooseAll(cs, true) == multiset{}
  {
    if cs != [] {
      assert Empty(cs[0]);
      forall k | 0 <= k < |cs[1..]|
        ensures Empty(cs[1..][k])
      {
        assert Empty(cs[k + 1]);
      }
      EmptySums(cs[1..]);
    }
  }

  lemma {:induction false} ZeroSound(f: Field)
    ensures Sound(f, ZeroCell(f), true) && Empty(ZeroCell(f))
    decreases f, 0
  {
    if !f.atype.Pointer? && f.ltype.LSubmessage? {
      ZerosSound(f.sub);
      if f.htype.Repeated? {
        var z := Struct(ZeroCells(f.sub));
        var zs := seq(f.arraySize, _ => z);
        HeldStruct(f.sub, z);
        assert Empty(z);
        EmptySums(zs);
        assert forall k :: 0 <= k < |zs| ==> zs[k] == z;
        assert zs == seq(f.arraySize, _ => Struct(ZeroCells(f.sub)));
      }
    }
  }

  /** Zeroed storage is sound at every depth and has no pointers. */
  lemma {:induction false} ZerosSound(fields: seq<Field>)
    ensures SoundAll(fields, ZeroCells(fields), true)
    ensures Own(ZeroCells(fields), true) == multiset{} && LooseAll(ZeroCells(fields), true) == multiset{}
    decreases fields, 1
  {
    var zs := ZeroCells(fields);
    forall i | 0 <= i < |zs|
      ensures Sound(fields[i], zs[i], true) && Empty(zs[i])
    {
      ZeroSound(fields[i]);
    }
    EmptySums(zs);
  }

  /** `initialize_pointer_field` for a submessage: zeros, then defaults. */
  function Initial(fields: seq<Field>): Cell {
    Struct(DefaultCells(fields, ZeroCells(fields)))
  }

  lemma InitialSound(fields: seq<Field>)
    ensures SoundStruct(fields, Initial(fields), true) && Empty(Initial(fields))
  {
    var zs := ZeroCells(fields);
    ZerosSound(fields);
    HeldAllSound(fields, zs);
    DefaultsSound(fields, zs, true);
    EmptySum(LooseAll(DefaultCells(fields, zs), true), Own(DefaultCells(fields, zs), true));
  }

  // --------------------------------------------------------------- release

  /** Storage after `pb_release_single_field`: pointers are NULL, and the elements of an array stay
      counted. */
  function ClearedCell(f: Field, c: Cell): Cell
    decreases f, 0
  {
    if f.atype.Pointer? then Link(None)
    else if !f.ltype.LSubmessage? then c
    else if !f.htype.Repeated? then Struct(Cleared(f.sub, Members(c)))
    else if c.Array? then Array(c.count, ClearedStructs(f.sub, c.items), c.spare)
    else c
  }

  function ClearedStructs(fields: seq<Field>, cs: seq<Cell>): (ds: seq<Cell>)
    ensures |ds| == |cs|
    decreases fields, 2
  {
    seq(|cs|, k requires 0 <= k < |cs| => Struct(Cleared(fields, Members(cs[k]))))
  }

  function Cleared(fields: seq<Field>, cs: seq<Cell>): (ds: seq<Cell>)
    ensures |ds| == |cs|
    decreases fields, 1
  {
    seq(|cs|, i requires 0 <= i < |cs| => if i < |fields| then ClearedCell(fields[i], cs[i]) else cs[i])
  }

  /** From c to d all pointers have become NULL, and nothing else has changed: counts and plain data in place stay. */
  ghost predicate Freed(f: Field, c: Cell, d: Cell)
    decreases f, 0
  {
    if f.atype.Pointer? then d == Link(None)
    else if !f.ltype.LSubmessage? then d == c
    else if !f.htype.Repeated? then d.Struct? && FreedAll(f.sub, Members(c), d.members)
    else
      c.Array? ==>
        && d.Array? && d.count == c.count && d.spare == c.spare && |d.items| == |c.items|
        && forall k {:trigger d.items[k]} :: 0 <= k < |d.items| ==>
          d.items[k].Struct? && FreedAll(f.sub, Members(c.items[k]), d.items[k].members)
  }

  ghost predicate FreedAll(fields: seq<Field>, cs: seq<Cell>, ds: seq<Cell>)
    decreases fields, 1
  {
    |ds| == |cs| && forall i {:trigger fields[i]} :: 0 <= i < |fields| && i < |cs| ==> Freed(fields[i], cs[i], ds[i])
  }

  lemma {:induction false} ClearedFreed(f: Field, c: Cell)
    ensures Freed(f, c, ClearedCell(f, c))
    decreases f, 0
  {
    if !f.atype.Pointer? && f.ltype.LSubmessage? {
      if !f.htype.Repeated? {
        AllFreed(f.sub, Members(c));
      } else if c.Array? {
        forall k | 0 <= k < |c.items|
          ensures FreedAll(f.sub, Members(c.items[k]), Cleared(f.sub, Members(c.items[k])))
        {
          AllFreed(f.sub, Members(c.items[k]));
        }
      }
    }
  }

  /** That is what `pb_release` does to storage, at every depth. */
  lemma {:induction false} AllFreed(fields: seq<Field>, cs: seq<Cell>)
    ensures FreedAll(fields, cs, Cleared(fields, cs))
    decreases fields, 1
  {
    forall i | 0 <= i < |fields| && i < |cs|
      ensures Freed(fields[i], cs[i], ClearedCell(fields[i], cs[i]))
    {
      ClearedFreed(fields[i], cs[i]);
    }
  }

  /** From c to d everything in use has gone; what is stale in d was stale in c, and not in use. */
  predicate Releases(c: Cell, d: Cell) {
    && OwnCell(d, true) == multiset{} && OwnCell(d, false) == multiset{} && !HasWild(d)
    && Loose(d, true) + OwnCell(c, false) <= Loose(c, true)
  }

  predicate AllRelease(cs: seq<Cell>, ds: seq<Cell>) {
    |cs| == |ds| && forall k {:trigger Releases(cs[k], ds[k])} :: 0 <= k < |cs| ==> Releases(cs[k], ds[k])
  }

  lemma {:induction false} SumReleases(cs: seq<Cell>, ds: seq<Cell>)
    requires AllRelease(cs, ds)
    ensures Own(ds, true) == multiset{} && Own(ds, false) == multiset{} && !AnyWild(ds)
    ensures LooseAll(ds, true) + Own(cs, false) <= LooseAll(cs, true)
  {
    if cs != [] {
      assert Releases(cs[0], ds[0]);
      forall k | 0 <= k < |cs[1..]|
        ensures Releases(cs[1..][k], ds[1..][k])
      {
        assert Releases(cs[k + 1], ds[k + 1]);
      }
      SumReleases(cs[1..], ds[1..]);
    }
  }

  lemma {:induction false} ClearedCellSound(f: Field, c: Cell)
    requires Sound(f, c, false)
    ensures Sound(f, ClearedCell(f, c), false) && Releases(c, ClearedCell(f, c))
    decreases f, 0
  {
    if f.atype.Pointer? {
      StaleIsLoose(c);
    } else if f.ltype.LSubmessage? {
      if f.htype.Repeated? {
        ClearedStructsSound(f.sub, c.items);
      } else {
        ClearedSound(f.sub, c.members);
      }
    }
  }

  lemma {:induction false} ClearedStructsSound(fields: seq<Field>, cs: seq<Cell>)
    requires SoundStructs(fields, cs)
    ensures var ds := ClearedStructs(fields, cs);
            && SoundStructs(fields, ds)
            && Own(ds, true) == multiset{} && Own(ds, false) == multiset{} && !AnyWild(ds)
            && LooseAll(ds, true) + Own(cs, false) <= LooseAll(cs, true)
    decreases fields, 2
  {
    var ds := ClearedStructs(fields, cs);
    forall k | 0 <= k < |cs|
      ensures SoundStruct(fields, ds[k], false) && Releases(cs[k], ds[k])
    {
      assert SoundStruct(fields, cs[k], false);
      ClearedSound(fields, cs[k].members);
    }
    SumReleases(cs, ds);
  }

  /** A released struct is sound, nothing in use points anywhere, and no pointer is new. */
  lemma {:induction false} ClearedSound(fields: seq<Field>, cs: seq<Cell>)
    requires SoundAll(fields, cs, false)
    ensures var ds := Cleared(fields, cs);
            && SoundAll(fields, ds, false)
            && Own(ds, true) == multiset{} && Own(ds, false) == multiset{} && !AnyWild(ds)
            && LooseAll(ds, true) + Own(cs, false) <= LooseAll(cs, true)
    decreases fields, 1
  {
    var ds := Cleared(fields, cs);
    forall i | 0 <= i < |cs|
      ensures Sound(fields[i], ds[i], false) && Releases(cs[i], ds[i])
    {
      assert Sound(fields[i], cs[i], false);
      ClearedCellSound(fields[i], cs[i]);
    }
    SumReleases(cs, ds);
  }
}
