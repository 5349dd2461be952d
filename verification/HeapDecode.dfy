/**
 What pb_decode.c does to storage and to the heap when it is built with
 PB_ENABLE_MALLOC, as functions of the bytes, of what was there before, and of
 the answers of the allocator. The methods of `Malloc` are proved against them.
 */
module HeapDecode {
  import opened Wire
  import opened Varint
  import opened Schema
  import opened Blocks
  import opened Storage
  import Decode

  // ------------------------------------------------------------------ heap

  /** The heap: the blocks that are live, whether something was freed or reallocated that was
      not, and what the allocator will answer to the requests to come. The rest is a record of
      the run: blocks that were ours and to which no pointer is kept any more, stale pointers
      that have been freed, whether a pointer to nowhere was freed, whether a fixed-count array was
      begun whose elements would forget a block, and whether the count of an array of blocks went
      from its maximum to zero. */
  datatype Heap = Heap(live: set<nat>, fault: bool, script: seq<Option<nat>>,
                       lost: multiset<nat>, stolen: multiset<nat>, wrecked: bool, begun: bool, wrapped: bool)

  /** Before a run. */
  function NewHeap(live: set<nat>, script: seq<Option<nat>>): Heap {
    Heap(live, false, script, multiset{}, multiset{}, false, false, false)
  }

  /** `pb_realloc`: it fails, moves the block or leaves it where it is. An answer that is the
      name of another live block counts as a refusal, as does the end of the script. */
  function Realloc(h: Heap, p: Option<nat>): (Option<nat>, Heap) {
    var rest := if p.Some? then h.live - {p.value} else h.live;
    var fault := h.fault || (p.Some? && p.value !in h.live);
    if h.script == [] then (None, h.(fault := fault))
    else
      var answer, later := h.script[0], h.script[1..];
      if answer.None? || answer.value in rest then (None, h.(fault := fault, script := later))
      else (answer, h.(live := rest + {answer.value}, fault := fault, script := later))
  }

  /** `allocate_field`, where an overflow of the size is one more refusal. */
  function AllocateField(h: Heap, p: Option<nat>, dataSize: nat, arraySize: nat): (Option<nat>, Heap) {
    if dataSize == 0 || arraySize == 0 then (None, h) else Realloc(h, p)
  }

  /** Freeing some blocks of ours and some stale pointers, each of them once, and possibly pointers to
      nowhere. */
  function Released(h: Heap, ours: multiset<nat>, stale: multiset<nat>, wild: bool): Heap {
    h.(live := (set x | x in h.live && x !in ours + stale),
       fault := h.fault || wild || !(ours + stale <= multiset(h.live)),
       stolen := h.stolen + stale, wrecked := h.wrecked || wild)
  }

  function ReleasedCell(h: Heap, c: Cell): Heap {
    Released(h, OwnCell(c, true), OwnCell(c, false), HasWild(c))
  }

  function ReleasedAll(h: Heap, cs: seq<Cell>): Heap {
    Released(h, Own(cs, true), Own(cs, false), AnyWild(cs))
  }

  // --------------------------------------------------------------- results

  datatype Out = Out(ok: bool, c: Cell, rest: seq<Byte>, h: Heap)

  /** The same with the counter of a fixed-count array. */
  datatype Fielded = Fielded(ok: bool, c: Cell, count: nat, rest: seq<Byte>, h: Heap)

  datatype Outs = Outs(ok: bool, cs: seq<Cell>, rest: seq<Byte>, h: Heap)

  datatype Placed = Placed(ok: bool, count: nat, rest: seq<Byte>)

  /** The decoder between two records. */
  datatype Memory = Memory(cs: seq<Cell>, seen: set<nat>, fixedAt: Option<nat>, fixedCount: nat, h: Heap)

  datatype Turn = Stuck(st: Memory) | Stop(rest: seq<Byte>) | Next(st: Memory, rest: seq<Byte>)

  datatype Run = Failed(st: Memory) | Done(st: Memory, rest: seq<Byte>)

  /** What the checks of `pb_decode_noinit` depend on. */
  function Progress(st: Memory): Decode.State {
    Decode.State(map[], st.seen, st.fixedAt, st.fixedCount)
  }

  /** One more in a count of type `pb_size_t`. */
  function Succ(n: nat): (m: nat)
    ensures m <= SIZE_MAX && (n < SIZE_MAX ==> m == n + 1) && (n == SIZE_MAX ==> m == 0)
  {
    (n + 1) % (SIZE_MAX + 1)
  }

  function NewBlock(q: nat, count: nat, items: seq<Cell>): Cell {
    Link(Some(Block(q, true, count, items)))
  }

  // ------------------------------------------------------------ plain data

  /** The loop of `decode_static_field` over a packed array. */
  function PackedPlaces(f: Field, place: nat, body: seq<Byte>): (bool, nat)
    decreases |body|
  {
    if body == [] then (true, place)
    else if place >= f.arraySize then (false, place)
    else
      match Decode.DecodeScalar(f, body)
      case Fail => (false, place)
      case Ok(_, rest) => PackedPlaces(f, place + 1, rest)
  }

  /** `decode_static_field` for an array other than of submessages. */
  function PlainItems(f: Field, wireType: nat, place: nat, s: seq<Byte>): (r: Placed)
    ensures r.ok ==> |r.rest| < |s|
  {
    if wireType == Decode.WT_STRING && Packable(f.ltype) then
      match Decode.Delimited(s)
      case Fail => Placed(false, place, [])
      case Ok(body, rest) => var (ok, n) := PackedPlaces(f, place, body); Placed(ok, n, rest)
    else if place >= f.arraySize then Placed(false, Succ(place), [])
    else
      match Decode.DecodeScalar(f, s)
      case Fail => Placed(false, Succ(place), [])
      case Ok(_, rest) => Placed(true, Succ(place), rest)
  }

  /** `allocate_field` for a block of plain data: the pointer, old or new, and the heap. */
  function Moved(h: Heap, c: Cell, dataSize: nat, arraySize: nat, count: nat): (bool, Cell, Heap) {
    var (q, h') := AllocateField(h, IdOf(c), dataSize, arraySize);
    if q.None? then (false, c, h') else (true, NewBlock(q.value, count, []), h')
  }

  /** The size of the block for a string or byte array, which includes the terminator or the count. */
  function BlobRoom(f: Field, s: seq<Byte>): Option<nat> {
    match DecodeVarint32(s)
    case Fail => None
    case Ok(size, _) =>
      var room := if f.ltype.LString? then (size + 1) % TWO32 else size + SIZE_BYTES;
      if room < size || (f.ltype.LBytes? && size > SIZE_MAX) then None else Some(room)
  }

  /** The pointer cases of `pb_dec_bytes` and `pb_dec_string`: the block is allocated as soon as
      the length is known. */
  function BlobInto(f: Field, c: Cell, s: seq<Byte>, h: Heap): (r: Out)
    ensures r.ok ==> |r.rest| < |s|
  {
    if BlobRoom(f, s).None? then Out(false, c, [], h)
    else
      var (ok, d, h') := Moved(h, c, BlobRoom(f, s).value, 1, 0);
      match Decode.Delimited(s)
      case Fail => Out(false, d, [], h')
      case Ok(_, rest) => Out(ok, d, rest, h')
  }

  /** One scalar behind a pointer, or behind the new end of an array. */
  function ScalarInto(f: Field, moved: (bool, Cell, Heap), s: seq<Byte>): (r: Out)
    ensures r.ok ==> |r.rest| < |s|
  {
    match Decode.DecodeScalar(f, s)
    case Fail => Out(false, moved.1, [], moved.2)
    case Ok(_, rest) => Out(moved.0, moved.1, rest, moved.2)
  }

  /** The guess at the number of entries to come, by which the block of a packed array grows. */
  function NextCapacity(capacity: nat, bytesLeft: nat, dataSize: nat): (n: nat)
    ensures n > capacity
  {
    if bytesLeft == 0 || dataSize == 0 then capacity + 1
    else
      var remain := (bytesLeft - 1) / dataSize + 1;
      if remain < SIZE_MAX - capacity then capacity + remain else capacity + 1
  }

  /** Room for one more entry of a packed array, of which `capacity` fit into the block. */
  function GrowInto(f: Field, c: Cell, capacity: nat, bytesLeft: nat, h: Heap): (bool, Cell, nat, Heap) {
    if CountOf(c) == SIZE_MAX then (false, c, capacity, h)
    else if CountOf(c) + 1 <= capacity then (true, c, capacity, h)
    else
      var n := NextCapacity(capacity, bytesLeft, f.dataSize);
      var (ok, d, h') := Moved(h, c, f.dataSize, n, CountOf(c));
      (ok, d, n, h')
  }

  function Counted(c: Cell): Cell {
    if c.Link? && c.block.Some? then Link(Some(c.block.value.(count := c.block.value.count + 1))) else c
  }

  /** The loop of `decode_pointer_field` over a packed array. */
  function PackedLoop(f: Field, c: Cell, capacity: nat, body: seq<Byte>, h: Heap): (bool, Cell, Heap)
    decreases |body|
  {
    if body == [] then (true, c, h)
    else
      var (room, d, n, h') := GrowInto(f, c, capacity, |body|, h);
      if !room then (false, d, h')
      else
        match Decode.DecodeScalar(f, body)
        case Fail => (false, d, h')
        case Ok(_, more) => PackedLoop(f, Counted(d), n, more, h')
  }

  function PackedInto(f: Field, c: Cell, s: seq<Byte>, h: Heap): (r: Out)
    ensures r.ok ==> |r.rest| < |s|
  {
    match Decode.Delimited(s)
    case Fail => Out(false, c, [], h)
    case Ok(body, rest) => var (ok, d, h') := PackedLoop(f, c, CountOf(c), body, h); Out(ok, d, rest, h')
  }

  // ----------------------------------------------------------- submessages

  /** `pb_dec_submessage` */
  function StructInto(fields: seq<Field>, repeated: bool, c: Cell, s: seq<Byte>, h: Heap): (r: Out)
    ensures r.ok ==> |r.rest| < |s|
    decreases |s|, 0
  {
    match Decode.Delimited(s)
    case Fail => Out(false, c, [], h)
    case Ok(body, rest) =>
      var r := if repeated then MessageInto(fields, Members(c), body, h) else NoinitInto(fields, Members(c), body, h);
      Out(r.ok, Struct(r.cs), rest, r.h)
  }

  /** The count of a full array goes up once more before the overflow is noticed, and from its maximum
      to zero. */
  predicate Wraps(f: Field, c: Cell) {
    c.Array? && !FixedCount(f) && c.count >= f.arraySize && Succ(c.count) == 0
  }

  /** An array of submessages once the count has gone up: the next element is in use now. */
  function CountNext(f: Field, c: Cell): Cell {
    if !c.Array? || FixedCount(f) then c
    else if c.count < f.arraySize && c.spare != [] then Array(c.count + 1, c.items + [c.spare[0]], c.spare[1..])
    else if Wraps(f, c) then Emptied(c)
    else Array(Succ(c.count), c.items, c.spare)
  }

  function CountedHeap(f: Field, c: Cell, h: Heap): Heap {
    if Wraps(f, c) then
      h.(lost := h.lost + OwnCell(c, true), wrapped := h.wrapped || OwnCell(c, true) != multiset{})
    else h
  }

  /** The place of the next element. */
  function PlaceOf(f: Field, c: Cell, fixedCount: nat): nat {
    if FixedCount(f) then fixedCount else if c.Array? || c.Inline? then c.count else 0
  }

  function ItemAt(c: Cell, place: nat): Cell {
    if c.Array? && place < |c.items| then c.items[place] else c
  }

  function PutItem(c: Cell, place: nat, item: Cell): Cell {
    if c.Array? && place < |c.items| then Array(c.count, c.items[place := item], c.spare) else c
  }

  /** `decode_static_field` for an array of submessages: the element is counted first. */
  function ElementInto(f: Field, c: Cell, fixedCount: nat, s: seq<Byte>, h: Heap): (r: Fielded)
    ensures r.ok ==> |r.rest| < |s|
    decreases |s|, 1
  {
    var place, d := PlaceOf(f, c, fixedCount), CountNext(f, c);
    var count := if FixedCount(f) then Succ(fixedCount) else fixedCount;
    if place >= f.arraySize then Fielded(false, d, count, [], CountedHeap(f, c, h))
    else
      var r := StructInto(f.sub, true, ItemAt(d, place), s, h);
      Fielded(r.ok, PutItem(d, place, r.c), count, r.rest, r.h)
  }

  /** `decode_static_field` */
  function InPlaceInto(f: Field, wireType: nat, c: Cell, fixedCount: nat, s: seq<Byte>, h: Heap): (r: Fielded)
    ensures r.ok ==> |r.rest| < |s|
    decreases |s|, 2
  {
    if f.ltype.LSubmessage? then
      if f.htype.Repeated? then ElementInto(f, c, fixedCount, s, h)
      else var r := StructInto(f.sub, false, c, s, h); Fielded(r.ok, r.c, fixedCount, r.rest, r.h)
    else if f.htype.Repeated? then
      var p := PlainItems(f, wireType, PlaceOf(f, c, fixedCount), s);
      if FixedCount(f) then Fielded(p.ok, c, p.count, p.rest, h)
      else Fielded(p.ok, Inline(p.count), fixedCount, p.rest, h)
    else
      match Decode.DecodeScalar(f, s)
      case Fail => Fielded(false, c, fixedCount, [], h)
      case Ok(_, rest) => Fielded(true, c, fixedCount, rest, h)
  }

  /** A submessage in a block of its own. */
  function NewStructInto(f: Field, s: seq<Byte>, h: Heap): (r: Out)
    ensures r.ok ==> |r.rest| < |s|
    decreases |s|, 1
  {
    var (q, h') := AllocateField(h, None, f.dataSize, 1);
    if q.None? then Out(false, Link(None), [], h')
    else
      var r := StructInto(f.sub, false, Initial(f.sub), s, h');
      Out(r.ok, NewBlock(q.value, 0, [r.c]), r.rest, r.h)
  }

  /** `decode_pointer_field` for a required or optional field. A submessage that is there
      already is released first. */
  function PointerInto(f: Field, c: Cell, s: seq<Byte>, h: Heap): (r: Out)
    ensures r.ok ==> |r.rest| < |s|
    decreases |s|, 2
  {
    if f.ltype.LSubmessage? then NewStructInto(f, s, if IdOf(c).Some? then ReleasedCell(h, c) else h)
    else if f.ltype.LString? || f.ltype.LBytes? then BlobInto(f, c, s, h)
    else ScalarInto(f, Moved(h, c, f.dataSize, 1, 0), s)
  }

  /** `initialize_pointer_field` and the decoder of one item of an array. */
  function ItemInto(f: Field, s: seq<Byte>, h: Heap): (r: Out)
    ensures r.ok ==> |r.rest| < |s|
    decreases |s|, 1
  {
    if f.ltype.LSubmessage? then StructInto(f.sub, true, Initial(f.sub), s, h) else BlobInto(f, Link(None), s, h)
  }

  /** One more submessage, string or byte array at the end of an array. */
  function GrownInto(f: Field, c: Cell, s: seq<Byte>, h: Heap): (r: Out)
    ensures r.ok ==> |r.rest| < |s|
    decreases |s|, 2
  {
    var (q, h') := AllocateField(h, IdOf(c), f.dataSize, CountOf(c) + 1);
    if q.None? then Out(false, c, [], h')
    else
      var r := ItemInto(f, s, h');
      Out(r.ok, NewBlock(q.value, CountOf(c) + 1, ItemsOf(c) + [r.c]), r.rest, r.h)
  }

  /** `decode_pointer_field` for one more item of an array. */
  function OneMoreInto(f: Field, c: Cell, s: seq<Byte>, h: Heap): (r: Out)
    ensures r.ok ==> |r.rest| < |s|
    decreases |s|, 3
  {
    if CountOf(c) == SIZE_MAX then Out(false, c, [], h)
    else if f.ltype.LSubmessage? || BlobArray(f) then GrownInto(f, c, s, h)
    else ScalarInto(f, Moved(h, c, f.dataSize, CountOf(c) + 1, CountOf(c) + 1), s)
  }

  /** `decode_field` */
  function FieldInto(f: Field, wireType: nat, c: Cell, fixedCount: nat, s: seq<Byte>, h: Heap): (r: Fielded)
    ensures r.ok ==> |r.rest| < |s|
    decreases |s|, 4
  {
    if f.atype.Static? then InPlaceInto(f, wireType, c, fixedCount, s, h)
    else
      var r :=
        if !f.htype.Repeated? then PointerInto(f, c, s, h)
        else if wireType == Decode.WT_STRING && Packable(f.ltype) then PackedInto(f, c, s, h)
        else OneMoreInto(f, c, s, h);
      Fielded(r.ok, r.c, fixedCount, r.rest, r.h)
  }

  // -------------------------------------------------------------- messages

  /** The blocks that are ours in an element and to which no pointer is left once the element
      is set to its defaults. */
  function Forgotten(fields: seq<Field>, cs: seq<Cell>): multiset<nat> {
    Own(cs, true) - Own(DefaultCells(fields, cs), true)
  }

  predicate Forgets(fields: seq<Field>, c: Cell) {
    Forgotten(fields, Members(c)) != multiset{}
  }

  /** Some element from place n on. */
  predicate SomeForgets(fields: seq<Field>, items: seq<Cell>, n: nat) {
    exists k {:trigger Forgets(fields, items[k])} :: n <= k < |items| && Forgets(fields, items[k])
  }

  /** The same for field f if it is an array of submessages in place. */
  predicate Doomed(f: Field, c: Cell, n: nat) {
    f.atype.Static? && f.ltype.LSubmessage? && c.Array? && SomeForgets(f.sub, c.items, n)
  }

  /** A fixed-count array is begun from its first element. */
  function Begin(f: Field, c: Cell, h: Heap): Heap {
    h.(begun := h.begun || Doomed(f, c, 0))
  }

  predicate Restarts(fields: seq<Field>, i: nat, st: Memory)
    requires i < |fields|
  {
    FixedCount(fields[i]) && st.fixedAt != Some(i)
  }

  /** The value of a record of field i. */
  function KnownInto(fields: seq<Field>, i: nat, wireType: nat, st: Memory, s: seq<Byte>): (r: Turn)
    requires i < |fields|
    ensures !r.Stop? && (r.Next? ==> |r.rest| < |s|)
    decreases |s|, 5
  {
    if i >= |st.cs| || (Restarts(fields, i, st) && !Decode.FixedDone(fields, Progress(st))) then Stuck(st)
    else
      var f := fields[i];
      var fresh' := Restarts(fields, i, st);
      var r := FieldInto(f, wireType, st.cs[i], if fresh' then 0 else st.fixedCount, s,
                         if fresh' then Begin(f, st.cs[i], st.h) else st.h);
      var st' := Memory(st.cs[i := r.c], Decode.See(fields, i, st.seen),
        if FixedCount(f) then Some(i) else st.fixedAt, r.count, r.h);
      if r.ok then Next(st', r.rest) else Stuck(st')
  }

  /** One record behind its tag. */
  function BodyInto(fields: seq<Field>, tag: nat, wireType: nat, st: Memory, s: seq<Byte>): (r: Turn)
    ensures !r.Stop? && (r.Next? ==> |r.rest| < |s|)
    decreases |s|, 6
  {
    match FindTag(fields, tag)
    case Some(i) => KnownInto(fields, i, wireType, st, s)
    case None =>
      if fields == [] && tag == 0 then
        match DecodeVarint32(s) case Fail => Stuck(st) case Ok(_, rest) => Next(st, rest)
      else
        match Decode.SkipField(wireType, s) case Fail => Stuck(st) case Ok(_, rest) => Next(st, rest)
  }

  /** One round of the loop of `pb_decode_noinit`. */
  function RecordInto(fields: seq<Field>, st: Memory, s: seq<Byte>): (r: Turn)
    ensures r.Next? ==> |r.rest| < |s|
    ensures r.Stop? ==> |r.rest| < |s|
    decreases |s|, 7
  {
    match DecodeTag(s)
    case BadTag => Stuck(st)
    case EndOfData => Stuck(st)
    case ZeroTag(rest) => Stop(rest)
    case Tag(tag, wireType, rest) => BodyInto(fields, tag, wireType, st, rest)
  }

  function RecordsInto(fields: seq<Field>, st: Memory, s: seq<Byte>): (r: Run)
    ensures r.Done? ==> |r.rest| <= |s|
    decreases |s|, 8
  {
    if s == [] then Done(st, [])
    else
      match RecordInto(fields, st, s)
      case Stuck(st') => Failed(st')
      case Stop(rest) => Done(st, rest)
      case Next(st', rest) => RecordsInto(fields, st', rest)
  }

  /** `pb_decode_noinit` */
  function NoinitInto(fields: seq<Field>, cs: seq<Cell>, s: seq<Byte>, h: Heap): (r: Outs)
    ensures r.ok ==> |r.rest| <= |s|
    decreases |s|, 9
  {
    match RecordsInto(fields, Memory(cs, {}, None, 0, h), s)
    case Failed(st) => Outs(false, st.cs, [], st.h)
    case Done(st, rest) => if Decode.Complete(fields, Progress(st)) then Outs(true, st.cs, rest, st.h)
      else Outs(false, st.cs, [], st.h)
  }

  /** `pb_decode`: from defaults, and what a failed run has allocated is released. */
  function MessageInto(fields: seq<Field>, cs: seq<Cell>, s: seq<Byte>, h: Heap): (r: Outs)
    ensures r.ok ==> |r.rest| <= |s|
    decreases |s|, 10
  {
    var r := NoinitInto(fields, DefaultCells(fields, cs), s, h.(lost := h.lost + Forgotten(fields, cs)));
    if r.ok then r else Outs(false, Cleared(fields, r.cs), [], ReleasedAll(r.h, r.cs))
  }
}
