/**
 Storage as the heap sees it in the variant with PB_ENABLE_MALLOC: which blocks
 a struct points to, and what defaults, zeros and releases make of it. Schemas
 are without unions and extensions.
 */
module Blocks {
  import opened Wire
  import opened Schema

  /** The blocks whose address ends in as many zero bytes as a count has: a zero count written over
      a pointer to one of them leaves it as it was. Which these are is up to the allocator. */
  const ROUND: set<nat>

  /** Data in place with its count if it is an array, a submessage in place, an array of
      submessages in place cut at its count, a pointer to a block, or what is left of a pointer to
      a block once some of its bytes have been overwritten: the address of no block. */
  datatype Cell =
    | Inline(count: nat)
    | Struct(members: seq<Cell>)
    | Array(count: nat, items: seq<Cell>, spare: seq<Cell>)
    | Link(block: Option<Block>)
    | Wild(was: nat)

  /** A block with the count beside its pointer. It holds plain data, or submessages, or the
      pointers of an array of strings or byte arrays. It is `ours` when the run that is being
      looked at has allocated it and still knows it; a pointer that was in memory before, or
      that is left over in a part of an array that is not in use, is not. */
  datatype Block = Block(id: nat, ours: bool, count: nat, items: seq<Cell>)

  // --------------------------------------------------------------- owners

  /** The blocks that storage points to, directly or through other blocks: those that are ours,
      or those that are not. What is in an array behind its count does not matter. */
  function OwnCell(c: Cell, ours: bool): multiset<nat> {
    match c
    case Inline(_) => multiset{}
    case Struct(members) => Own(members, ours)
    case Array(_, items, _) => Own(items, ours)
    case Link(block) =>
      if block.None? then multiset{}
      else (if block.value.ours == ours then multiset{block.value.id} else multiset{}) + Own(block.value.items, ours)
    case Wild(_) => multiset{}
  }

  function Own(cs: seq<Cell>, ours: bool): multiset<nat> {
    if cs == [] then multiset{} else OwnCell(cs[0], ours) + Own(cs[1..], ours)
  }

  lemma {:induction false} OwnConcat(a: seq<Cell>, b: seq<Cell>, ours: bool)
    ensures Own(a + b, ours) == Own(a, ours) + Own(b, ours)
  {
    if a == [] {
      assert a + b == b;
    } else {
      assert (a + b)[0] == a[0] && (a + b)[1..] == a[1..] + b;
      OwnConcat(a[1..], b, ours);
    }
  }

  /** All but cell i. */
  function Others(cs: seq<Cell>, i: nat, ours: bool): multiset<nat>
    requires i < |cs|
  {
    Own(cs[..i], ours) + Own(cs[i + 1..], ours)
  }

  lemma OwnCons(c: Cell, cs: seq<Cell>, ours: bool)
    ensures Own([c] + cs, ours) == OwnCell(c, ours) + Own(cs, ours)
  {
    assert ([c] + cs)[0] == c && ([c] + cs)[1..] == cs;
  }

  lemma OwnOne(c: Cell, ours: bool)
    ensures Own([c], ours) == OwnCell(c, ours)
  {
    OwnCons(c, [], ours);
    assert [c] + [] == [c];
  }

  lemma OwnMore(cs: seq<Cell>, c: Cell, ours: bool)
    ensures Own(cs + [c], ours) == Own(cs, ours) + OwnCell(c, ours)
  {
    OwnConcat(cs, [c], ours);
    OwnOne(c, ours);
  }

  lemma OwnAround(a: seq<Cell>, c: Cell, b: seq<Cell>, ours: bool)
    ensures Own(a + ([c] + b), ours) == Own(a, ours) + Own(b, ours) + OwnCell(c, ours)
  {
    OwnCons(c, b, ours);
    OwnConcat(a, [c] + b, ours);
  }

  lemma Reassembled(cs: seq<Cell>, i: nat)
    requires i < |cs|
    ensures cs[..i] + ([cs[i]] + cs[i + 1..]) == cs
  {
  }

  lemma OwnSplit(cs: seq<Cell>, i: nat, ours: bool)
    requires i < |cs|
    ensures Own(cs, ours) == Others(cs, i, ours) + OwnCell(cs[i], ours)
  {
    OwnAround(cs[..i], cs[i], cs[i + 1..], ours);
    Reassembled(cs, i);
  }

  lemma OwnUpdate(cs: seq<Cell>, i: nat, c: Cell, ours: bool)
    requires i < |cs|
    ensures Own(cs[i := c], ours) == Others(cs, i, ours) + OwnCell(c, ours)
  {
    var ds := cs[i := c];
    OwnSplit(ds, i, ours);
    assert ds[..i] == cs[..i] && ds[i + 1..] == cs[i + 1..];
  }

  lemma EmptySum(a: multiset<nat>, b: multiset<nat>)
    requires a + b == multiset{}
    ensures a == multiset{} && b == multiset{}
  {
    assert |a + b| == |a| + |b|;
  }

  /** A pointer to nowhere is in use: releasing it is a fault. */
  predicate HasWild(c: Cell) {
    match c
    case Inline(_) => false
    case Struct(members) => AnyWild(members)
    case Array(_, items, _) => AnyWild(items)
    case Link(block) => block.Some? && AnyWild(block.value.items)
    case Wild(_) => true
  }

  predicate AnyWild(cs: seq<Cell>) {
    cs != [] && (HasWild(cs[0]) || AnyWild(cs[1..]))
  }

  lemma {:induction false} WildConcat(a: seq<Cell>, b: seq<Cell>)
    ensures AnyWild(a + b) == (AnyWild(a) || AnyWild(b))
  {
    if a == [] {
      assert a + b == b;
    } else {
      assert (a + b)[0] == a[0] && (a + b)[1..] == a[1..] + b;
      WildConcat(a[1..], b);
    }
  }

  lemma WildMore(cs: seq<Cell>, c: Cell)
    ensures AnyWild(cs + [c]) == (AnyWild(cs) || HasWild(c))
  {
    WildConcat(cs, [c]);
    assert [c][0] == c && [c][1..] == [];
  }

  lemma WildOne(c: Cell)
    ensures AnyWild([c]) == HasWild(c)
  {
    assert [c][0] == c && [c][1..] == [];
  }

  /** Whether there is one among all but cell i. */
  predicate WildOthers(cs: seq<Cell>, i: nat)
    requires i < |cs|
  {
    AnyWild(cs[..i]) || AnyWild(cs[i + 1..])
  }

  lemma WildSplit(cs: seq<Cell>, i: nat)
    requires i < |cs|
    ensures AnyWild(cs) == (WildOthers(cs, i) || HasWild(cs[i]))
  {
    WildMore(cs[..i], cs[i]);
    WildConcat(cs[..i] + [cs[i]], cs[i + 1..]);
    assert (cs[..i] + [cs[i]]) + cs[i + 1..] == cs;
  }

  lemma WildUpdate(cs: seq<Cell>, i: nat, c: Cell)
    requires i < |cs|
    ensures AnyWild(cs[i := c]) == (WildOthers(cs, i) || HasWild(c))
  {
    var ds := cs[i := c];
    WildSplit(ds, i);
    assert ds[..i] == cs[..i] && ds[i + 1..] == cs[i + 1..];
  }

  /** No blocks of a kind. */
  predicate OwnsNone(c: Cell, ours: bool) {
    OwnCell(c, ours) == multiset{}
  }

  predicate AllOwnNone(cs: seq<Cell>, ours: bool) {
    forall k {:trigger OwnsNone(cs[k], ours)} :: 0 <= k < |cs| ==> OwnsNone(cs[k], ours)
  }

  lemma {:induction false} NoneOwned(cs: seq<Cell>, ours: bool)
    ensures Own(cs, ours) == multiset{} <==> AllOwnNone(cs, ours)
  {
    if cs != [] {
      NoneOwned(cs[1..], ours);
      if AllOwnNone(cs, ours) {
        assert OwnsNone(cs[0], ours);
        assert AllOwnNone(cs[1..], ours) by {
          forall k | 0 <= k < |cs[1..]|
            ensures OwnsNone(cs[1..][k], ours)
          {
            assert OwnsNone(cs[k + 1], ours);
          }
        }
      }
      if Own(cs, ours) == multiset{} {
        EmptySum(OwnCell(cs[0], ours), Own(cs[1..], ours));
        forall k | 0 <= k < |cs|
          ensures OwnsNone(cs[k], ours)
        {
          if k > 0 {
            assert OwnsNone(cs[1..][k - 1], ours);
          }
        }
      }
    }
  }

  // --------------------------------------------------------------- schemas

  ghost predicate HeapField(f: Field)
    decreases f, 0
  {
    && (f.atype.Static? || f.atype.Pointer?) && !f.htype.Oneof? && !f.ltype.LExtension?
    && 0 < f.dataSize <= SIZE_MAX && f.arraySize <= SIZE_MAX
    && (f.htype.Repeated? ==> f.sizeOffset <= 0) && (f.atype.Pointer? && f.htype.Repeated? ==> f.sizeOffset < 0)
    && (f.ltype.LSubmessage? ==> HeapSchema(f.sub))
  }

  ghost predicate HeapSchema(fields: seq<Field>)
    decreases fields, 1
  {
    DistinctTags(fields) && forall i {:trigger HeapField(fields[i])} :: 0 <= i < |fields| ==> HeapField(fields[i])
  }

  /** An array of pointers to strings or byte arrays. */
  predicate BlobArray(f: Field) {
    f.htype.Repeated? && (f.ltype.LString? || f.ltype.LBytes?)
  }

  // ------------------------------------------------------------ kinds of cells

  /** A pointer to a block of plain data, or NULL. */
  predicate PlainPointer(c: Cell) {
    c.Link? && (c.block.Some? ==> c.block.value.items == [])
  }

  predicate PlainPointers(cs: seq<Cell>) {
    forall k {:trigger PlainPointer(cs[k])} :: 0 <= k < |cs| ==> PlainPointer(cs[k])
  }

  function IdOf(c: Cell): Option<nat> {
    if c.Link? && c.block.Some? then Some(c.block.value.id) else None
  }

  function CountOf(c: Cell): nat {
    if c.Link? && c.block.Some? then c.block.value.count else 0
  }

  function ItemsOf(c: Cell): seq<Cell> {
    if c.Link? && c.block.Some? then c.block.value.items else []
  }

  function Members(c: Cell): seq<Cell> {
    if c.Struct? then c.members else []
  }

  /** Elements that are in use: the count may be one above the array size, after a failed decode. */
  function InUse(f: Field, count: nat): nat {
    if FixedCount(f) || count > f.arraySize then f.arraySize else count
  }

  /** A submessage. It is `held` when its own pointers, those outside of arrays, are NULL or ours, and
      the counts of its arrays are within their sizes. */
  ghost predicate SoundStruct(fields: seq<Field>, c: Cell, held: bool)
    decreases fields, 2, c
  {
    c.Struct? && SoundAll(fields, c.members, held)
  }

  ghost predicate SoundStructs(fields: seq<Field>, cs: seq<Cell>)
    decreases fields, 3, cs
  {
    forall k {:trigger SoundStruct(fields, cs[k], false)} :: 0 <= k < |cs| ==> SoundStruct(fields, cs[k], false)
  }

  /** The storage is of the kind that the field describes, and an array holds no block of ours
      behind its count. */
  ghost predicate Sound(f: Field, c: Cell, held: bool)
    decreases f, 1
  {
    if f.atype.Pointer? then
      || (c.Wild? && !held)
      || (c.Link? && (c.block.Some? ==> (held ==> c.block.value.ours) && SoundBlock(f, c.block.value)))
    else if !f.ltype.LSubmessage? then c.Inline?
    else if !f.htype.Repeated? then SoundStruct(f.sub, c, held)
    else SoundArray(f, c) && (held && !FixedCount(f) ==> c.count <= f.arraySize)
  }

  ghost predicate SoundArray(f: Field, c: Cell)
    decreases f, 0
  {
    && c.Array? && c.count <= SIZE_MAX && |c.items| == InUse(f, c.count) && |c.items| + |c.spare| == f.arraySize
    && SoundStructs(f.sub, c.items) && SoundStructs(f.sub, c.spare)
    && Own(c.spare, true) == multiset{}
  }

  ghost predicate SoundBlock(f: Field, b: Block)
    decreases f, 0
  {
    if f.ltype.LSubmessage? then SoundStructs(f.sub, b.items) && |b.items| == (if f.htype.Repeated? then b.count else 1)
    else if BlobArray(f) then |b.items| == b.count && PlainPointers(b.items)
    else b.items == []
  }

  ghost predicate SoundAll(fields: seq<Field>, cs: seq<Cell>, held: bool)
    decreases fields, 1
  {
    |cs| == |fields| &&
    forall i {:trigger Sound(fields[i], cs[i], held)} :: 0 <= i < |cs| ==> Sound(fields[i], cs[i], held)
  }

  lemma CellPut(fields: seq<Field>, cs: seq<Cell>, i: nat, c: Cell, held: bool)
    requires SoundAll(fields, cs, held) && i < |cs| && Sound(fields[i], c, held)
    ensures SoundAll(fields, cs[i := c], held)
  {
    var ds := cs[i := c];
    forall j | 0 <= j < |ds|
      ensures Sound(fields[j], ds[j], held)
    {
      assert Sound(fields[j], cs[j], held);
    }
  }

  lemma StructPut(fields: seq<Field>, cs: seq<Cell>, k: nat, c: Cell)
    requires SoundStructs(fields, cs) && k < |cs| && SoundStruct(fields, c, false)
    ensures SoundStructs(fields, cs[k := c])
  {
    var ds := cs[k := c];
    forall j | 0 <= j < |ds|
      ensures SoundStruct(fields, ds[j], false)
    {
      assert SoundStruct(fields, cs[j], false);
    }
  }

  lemma BothStructs(fields: seq<Field>, a: seq<Cell>, b: seq<Cell>)
    requires SoundStructs(fields, a) && SoundStructs(fields, b)
    ensures SoundStructs(fields, a + b)
  {
    forall k | 0 <= k < |a + b|
      ensures SoundStruct(fields, (a + b)[k], false)
    {
      if k < |a| {
        assert SoundStruct(fields, a[k], false);
      } else {
        assert SoundStruct(fields, b[k - |a|], false);
      }
    }
  }

  lemma MoreStructs(fields: seq<Field>, items: seq<Cell>, item: Cell)
    requires SoundStructs(fields, items) && SoundStruct(fields, item, false)
    ensures SoundStructs(fields, items + [item])
  {
    BothStructs(fields, items, [item]);
  }

  lemma FewerStructs(fields: seq<Field>, items: seq<Cell>)
    requires SoundStructs(fields, items) && items != []
    ensures SoundStruct(fields, items[0], false) && SoundStructs(fields, items[1..])
  {
    var rest := items[1..];
    assert SoundStruct(fields, items[0], false);
    forall k | 0 <= k < |rest|
      ensures SoundStruct(fields, rest[k], false)
    {
      assert SoundStruct(fields, items[k + 1], false);
    }
  }

  /** Storage that is held is sound storage of any kind. */
  lemma {:induction false} HeldIsSound(f: Field, c: Cell)
    requires Sound(f, c, true)
    ensures Sound(f, c, false)
    decreases f, 1
  {
    if !f.atype.Pointer? && f.ltype.LSubmessage? && !f.htype.Repeated? {
      HeldAllSound(f.sub, c.members);
    }
  }

  lemma {:induction false} HeldAllSound(fields: seq<Field>, cs: seq<Cell>)
    requires SoundAll(fields, cs, true)
    ensures SoundAll(fields, cs, false)
    decreases fields, 1
  {
    forall i | 0 <= i < |cs|
      ensures Sound(fields[i], cs[i], false)
    {
      assert Sound(fields[i], cs[i], true);
      HeldIsSound(fields[i], cs[i]);
    }
  }

  lemma HeldStruct(fields: seq<Field>, c: Cell)
    requires SoundStruct(fields, c, true)
    ensures SoundStruct(fields, c, false)
  {
    HeldAllSound(fields, c.members);
  }
}
