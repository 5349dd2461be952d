/**
 Merging two messages by concatenating their bytes, and the check of required
 fields against what the input really holds.
 */
module Merge {
  import opened Wire
  import opened Varint
  import opened Schema
  import opened Decode
  import opened Records

  /** The field numbers of the records of a run, in order. */
  function TagsRead(fields: seq<Field>, st: State, s: seq<Byte>): seq<nat>
    decreases |s|
  {
    if s == [] then []
    else
      var r := DecodeRecord(fields, st, s);
      if r.Next? && DecodeTag(s).Tag? then [DecodeTag(s).number] + TagsRead(fields, r.st, r.rest) else []
  }

  // ------------------------------------------------------ required fields

  lemma {:induction false} RequiredMonotone(fields: seq<Field>, i: nat, j: nat)
    requires i <= j <= |fields|
    ensures RequiredBefore(fields, i) <= RequiredBefore(fields, j)
    ensures i < j && fields[i].htype.Required? ==> RequiredBefore(fields, i) < RequiredBefore(fields, j)
  {
    if i < j {
      RequiredMonotone(fields, i, j - 1);
    }
  }

  /** Every index below the number of required fields belongs to one of them. */
  lemma {:induction false} RequiredAt(fields: seq<Field>, n: nat, k: nat) returns (i: nat)
    requires n <= |fields| && k < RequiredBefore(fields, n)
    ensures i < n && fields[i].htype.Required? && RequiredBefore(fields, i) == k
  {
    if RequiredBefore(fields, n - 1) == k {
      i := n - 1;
    } else {
      i := RequiredAt(fields, n - 1, k);
    }
  }

  /** Field i is the required field with index k. */
  predicate RequiredIs(fields: seq<Field>, i: nat, k: nat)
    requires i < |fields|
  {
    fields[i].htype.Required? && RequiredBefore(fields, i) == k && k < MAX_REQUIRED
  }

  ghost predicate SeenIn(fields: seq<Field>, k: nat, tags: seq<nat>) {
    exists i :: 0 <= i < |fields| && RequiredIs(fields, i, k) && FindTag(fields, fields[i].tag) == Some(i)
      && fields[i].tag in tags
  }

  /** The decoder has seen exactly the required fields that were in the input. */
  lemma {:induction false} SeenIsRead(fields: seq<Field>, st: State, s: seq<Byte>, k: nat)
    requires DecodeRecords(fields, st, s).Done?
    ensures k in DecodeRecords(fields, st, s).st.seen <==> k in st.seen || SeenIn(fields, k, TagsRead(fields, st, s))
    decreases |s|
  {
    if s != [] {
      var r := DecodeRecord(fields, st, s);
      if r.Next? {
        var tag := DecodeTag(s).number;
        SeenIsRead(fields, r.st, r.rest, k);
        var rest := TagsRead(fields, r.st, r.rest);
        assert TagsRead(fields, st, s) == [tag] + rest;
        SeenStep(fields, st, s, k);
        if SeenIn(fields, k, [tag] + rest) {
          var i :| 0 <= i < |fields| && RequiredIs(fields, i, k) && FindTag(fields, fields[i].tag) == Some(i)
                    && fields[i].tag in [tag] + rest;
          assert fields[i].tag == tag || fields[i].tag in rest;
        }
        if k in r.st.seen && k !in st.seen {
          var i := FindTag(fields, tag).value;
          assert RequiredIs(fields, i, k) && fields[i].tag in [tag] + rest;
        }
        if SeenIn(fields, k, rest) {
          var i :| 0 <= i < |fields| && RequiredIs(fields, i, k) && FindTag(fields, fields[i].tag) == Some(i)
                    && fields[i].tag in rest;
          assert fields[i].tag in [tag] + rest;
        }
      }
    }
  }

  lemma SeenStep(fields: seq<Field>, st: State, s: seq<Byte>, k: nat)
    requires s != [] && DecodeRecord(fields, st, s).Next?
    ensures var i := FindTag(fields, DecodeTag(s).number);
            k in DecodeRecord(fields, st, s).st.seen <==> k in st.seen || (i.Some? && RequiredIs(fields, i.value, k))
  {
    RecordIsBody(fields, st, s);
  }

  /** Exactly when `pb_decode_noinit` succeeds: every record is accepted, the last
      fixed-count array is full, and each of the first 64 required fields of the schema is in
      the input, in any order and any number of times. */
  lemma RequiredFieldsExact(fields: seq<Field>, s: seq<Byte>, m: Msg)
    requires WfSchema(fields)
    ensures var r := DecodeRecords(fields, Start(m), s);
            DecodeNoinit(fields, s, m).Ok? <==>
            && r.Done?
            && FixedDone(fields, r.st)
            && forall i :: 0 <= i < |fields| && fields[i].htype.Required? && RequiredBefore(fields, i) < MAX_REQUIRED
                           ==> fields[i].tag in TagsRead(fields, Start(m), s)
  {
    var r := DecodeRecords(fields, Start(m), s);
    var tags := TagsRead(fields, Start(m), s);
    if r.Done? {
      forall k | 0 <= k < Checked(fields)
        ensures k in r.st.seen <==> SeenIn(fields, k, tags)
      {
        SeenIsRead(fields, Start(m), s, k);
      }
      forall i | 0 <= i < |fields| && fields[i].htype.Required? && RequiredBefore(fields, i) < MAX_REQUIRED
        ensures RequiredBefore(fields, i) < Checked(fields)
        ensures SeenIn(fields, RequiredBefore(fields, i), tags) <==> fields[i].tag in tags
      {
        RequiredMonotone(fields, i, |fields|);
        assert WfField(fields[i]);
        FindTagUnique(fields, i);
        SeenInOne(fields, i, RequiredBefore(fields, i), tags);
      }
      forall k | 0 <= k < Checked(fields)
        ensures exists i :: 0 <= i < |fields| && RequiredIs(fields, i, k) && (k in r.st.seen <==> fields[i].tag in tags)
      {
        var i := RequiredAt(fields, |fields|, k);
        assert RequiredIs(fields, i, k);
      }
    }
  }

  lemma RequiredIsUnique(fields: seq<Field>, i: nat, j: nat, k: nat)
    requires i < |fields| && j < |fields| && RequiredIs(fields, i, k) && RequiredIs(fields, j, k)
    ensures i == j
  {
    if i < j {
      RequiredMonotone(fields, i, j);
    } else {
      RequiredMonotone(fields, j, i);
    }
  }

  lemma SeenInOne(fields: seq<Field>, i: nat, k: nat, tags: seq<nat>)
    requires i < |fields| && RequiredIs(fields, i, k) && FindTag(fields, fields[i].tag) == Some(i)
    ensures SeenIn(fields, k, tags) <==> fields[i].tag in tags
  {
    if SeenIn(fields, k, tags) {
      var j :| 0 <= j < |fields| && RequiredIs(fields, j, k) && FindTag(fields, fields[j].tag) == Some(j)
                && fields[j].tag in tags;
      RequiredIsUnique(fields, i, j, k);
    }
  }

  // ------------------------------------------------------------- merging

  /** The first record of a fixed-count array in a run, by field index. */
  function FirstFixed(fields: seq<Field>, st: State, s: seq<Byte>): Option<nat>
    decreases |s|
  {
    if s == [] then None
    else
      var r := DecodeRecord(fields, st, s);
      if !r.Next? || !DecodeTag(s).Tag? then None
      else
        match FindTag(fields, DecodeTag(s).number)
        case Some(i) => if FixedCount(fields[i]) then Some(i) else FirstFixed(fields, r.st, r.rest)
        case None => FirstFixed(fields, r.st, r.rest)
  }

  /** The same decoder but for the required fields it has seen. */
  predicate SameButSeen(x: State, y: State) {
    x.msg == y.msg && x.fixedAt == y.fixedAt && (x.fixedAt.Some? ==> x.fixedCount == y.fixedCount)
  }

  ghost predicate SameRuns(x: Run, y: Run) {
    if y.Done? then x.Done? && x.rest == y.rest && SameButSeen(x.st, y.st) && y.st.seen <= x.st.seen else x.Failed?
  }

  lemma StepSameButSeen(fields: seq<Field>, x: State, y: State, s: seq<Byte>)
    requires s != [] && SameButSeen(x, y) && y.seen <= x.seen
    ensures var p := DecodeRecord(fields, x, s); var q := DecodeRecord(fields, y, s);
            if q.Next? then p.Next? && p.rest == q.rest && SameButSeen(p.st, q.st) && q.st.seen <= p.st.seen else p == q
  {
  }

  lemma {:induction false} RunSameButSeen(fields: seq<Field>, x: State, y: State, s: seq<Byte>)
    requires SameButSeen(x, y) && y.seen <= x.seen
    ensures SameRuns(DecodeRecords(fields, x, s), DecodeRecords(fields, y, s))
    decreases |s|
  {
    if s != [] {
      StepSameButSeen(fields, x, y, s);
      var p, q := DecodeRecord(fields, x, s), DecodeRecord(fields, y, s);
      if q.Next? {
        RunSameButSeen(fields, p.st, q.st, q.rest);
      }
    }
  }

  /** x has a full fixed-count array i behind it, y has none. */
  ghost predicate FullAgainstNone(fields: seq<Field>, x: State, y: State) {
    && x.msg == y.msg && y.seen <= x.seen && y.fixedAt.None?
    && FixedDone(fields, x) && x.fixedAt.Some? && x.fixedAt.value < |fields|
  }

  lemma StepFullAgainstNone(fields: seq<Field>, x: State, y: State, s: seq<Byte>)
    requires s != [] && FullAgainstNone(fields, x, y)
    requires var k := DecodeTag(s);
             k.Tag? ==> FindTag(fields, k.number).None? || FindTag(fields, k.number) != x.fixedAt
    ensures var p := DecodeRecord(fields, x, s); var q := DecodeRecord(fields, y, s);
            if !q.Next? then p == q
            else
              && p.Next? && p.rest == q.rest
              && var i := FindTag(fields, DecodeTag(s).number);
              if i.Some? && FixedCount(fields[i.value]) then SameButSeen(p.st, q.st) && q.st.seen <= p.st.seen
              else FullAgainstNone(fields, p.st, q.st) && p.st.fixedAt == x.fixedAt
  {
  }

  /** As long as b does not go on with the same array, the full array is no hindrance. */
  lemma {:induction false} RunFullAgainstNone(fields: seq<Field>, x: State, y: State, s: seq<Byte>)
    requires FullAgainstNone(fields, x, y)
    requires FixedCount(fields[x.fixedAt.value]) && fields[x.fixedAt.value].arraySize > 0
    requires FirstFixed(fields, y, s) != x.fixedAt
    ensures var p := DecodeRecords(fields, x, s); var q := DecodeRecords(fields, y, s);
            if q.Done? then p.Done? && p.rest == q.rest && p.st.msg == q.st.msg && q.st.seen <= p.st.seen
                            && (FixedDone(fields, p.st) <==> FixedDone(fields, q.st))
            else p.Failed?
    decreases |s|
  {
    if s != [] {
      var p, q := DecodeRecord(fields, x, s), DecodeRecord(fields, y, s);
      var k := DecodeTag(s);
      if k.Tag? && FindTag(fields, k.number).Some? && FindTag(fields, k.number) == x.fixedAt {
        assert !q.Next?;
        SameFieldStuck(fields, x, y, s);
      } else {
        StepFullAgainstNone(fields, x, y, s);
        if q.Next? {
          var i := FindTag(fields, k.number);
          if i.Some? && FixedCount(fields[i.value]) {
            RunSameButSeen(fields, p.st, q.st, q.rest);
          } else {
            RunFullAgainstNone(fields, p.st, q.st, q.rest);
          }
        }
      }
    }
  }

  /** A full array refuses every element, and takes an empty packed record. */
  lemma SameFieldStuck(fields: seq<Field>, x: State, y: State, s: seq<Byte>)
    requires s != [] && x.msg == y.msg && DecodeTag(s).Tag? && x.fixedAt.Some? && x.fixedAt.value < |fields|
    requires FindTag(fields, DecodeTag(s).number) == x.fixedAt && FixedCount(fields[x.fixedAt.value])
    requires FixedDone(fields, x) && fields[x.fixedAt.value].arraySize > 0
    requires y.fixedAt.None? || (y.fixedAt == x.fixedAt && y.fixedCount == 0)
    ensures var p := DecodeRecord(fields, x, s); var q := DecodeRecord(fields, y, s);
            p.Next? ==> q.Next? && p.rest == q.rest && Stalled(fields, p.st, q.st) && p.st.fixedAt == x.fixedAt
  {
    RecordIsBody(fields, x, s);
    RecordIsBody(fields, y, s);
    var i := x.fixedAt.value;
    var k := DecodeTag(s);
    assert SlotAt(x.msg, Offset(fields, i)) == SlotAt(y.msg, Offset(fields, i));
    FullStatic(fields[i], k.wireType, SlotAt(x.msg, Offset(fields, i)), k.rest);
  }

  lemma FullStatic(f: Field, wireType: nat, slot: Slot, s: seq<Byte>)
    requires FixedCount(f) && f.arraySize > 0
    ensures var p := DecodeStatic(f, wireType, slot, f.arraySize, s); var q := DecodeStatic(f, wireType, slot, 0, s);
            p.Ok? ==> q.Ok? && p.rest == q.rest && p.value == (q.value.0, f.arraySize) && q.value.1 == 0
  {
    if ReadsPacked(f, wireType) && Delimited(s).Ok? {
      var body := Delimited(s).value;
      if body != [] {
        assert DecodePacked(f, Items(slot), f.arraySize, body).None?;
      }
    }
  }

  /** Both runs stand at array i, x with all its elements and y with none. */
  ghost predicate Stalled(fields: seq<Field>, x: State, y: State) {
    && x.msg == y.msg && x.fixedAt == y.fixedAt
    && x.fixedAt.Some? && x.fixedAt.value < |fields| && FixedCount(fields[x.fixedAt.value])
    && x.fixedCount == fields[x.fixedAt.value].arraySize > 0 && y.fixedCount == 0
  }

  lemma StepStalled(fields: seq<Field>, x: State, y: State, s: seq<Byte>)
    requires s != [] && Stalled(fields, x, y)
    ensures var p := DecodeRecord(fields, x, s); var q := DecodeRecord(fields, y, s);
            p.Next? && q.Next? ==> p.rest == q.rest && Stalled(fields, p.st, q.st)
    ensures var p := DecodeRecord(fields, x, s); var q := DecodeRecord(fields, y, s);
            (p.Stop? <==> q.Stop?) && (q.Stuck? || p.Stuck? || p == q || p.Next?)
  {
    var k := DecodeTag(s);
    if k.Tag? && FindTag(fields, k.number) == x.fixedAt {
      SameFieldStuck(fields, x, y, s);
    }
  }

  /** Whatever comes, one of the two runs fails or ends with its array incomplete. */
  lemma {:induction false} RunStalled(fields: seq<Field>, x: State, y: State, s: seq<Byte>)
    requires Stalled(fields, x, y)
    ensures var p := DecodeRecords(fields, x, s); var q := DecodeRecords(fields, y, s);
            q.Done? && FixedDone(fields, q.st) ==> p.Failed?
    decreases |s|
  {
    if s != [] {
      StepStalled(fields, x, y, s);
      var p, q := DecodeRecord(fields, x, s), DecodeRecord(fields, y, s);
      if p.Next? && q.Next? {
        RunStalled(fields, p.st, q.st, q.rest);
      }
    }
  }

  lemma {:induction false} RunIntoFull(fields: seq<Field>, x: State, y: State, s: seq<Byte>)
    requires FullAgainstNone(fields, x, y) && FixedCount(fields[x.fixedAt.value])
    requires fields[x.fixedAt.value].arraySize > 0 && FirstFixed(fields, y, s) == x.fixedAt
    ensures var p := DecodeRecords(fields, x, s); var q := DecodeRecords(fields, y, s);
            q.Done? && FixedDone(fields, q.st) ==> p.Failed?
    decreases |s|
  {
    var p, q := DecodeRecord(fields, x, s), DecodeRecord(fields, y, s);
    var k := DecodeTag(s);
    if FindTag(fields, k.number) == x.fixedAt {
      SameFieldStuck(fields, x, y, s);
      if p.Next? {
        RunStalled(fields, p.st, q.st, q.rest);
      }
    } else {
      StepFullAgainstNone(fields, x, y, s);
      RunIntoFull(fields, p.st, q.st, q.rest);
    }
  }

  lemma {:induction false} FixedAtIsFixed(fields: seq<Field>, st: State, s: seq<Byte>)
    requires DecodeRecords(fields, st, s).Done?
    requires st.fixedAt.Some? ==> st.fixedAt.value < |fields| && FixedCount(fields[st.fixedAt.value])
    ensures var at := DecodeRecords(fields, st, s).st.fixedAt;
            at.Some? ==> at.value < |fields| && FixedCount(fields[at.value])
    decreases |s|
  {
    if s != [] && DecodeRecord(fields, st, s).Next? {
      var r := DecodeRecord(fields, st, s);
      RecordIsBody(fields, st, s);
      FixedAtIsFixed(fields, r.st, r.rest);
    }
  }

  /** The fixed-count array with a tag. */
  function FixedArray(fields: seq<Field>, tag: nat): Option<nat> {
    match FindTag(fields, tag)
    case Some(i) => if FixedCount(fields[i]) then Some(i) else None
    case None => None
  }

  /** The first and the last fixed-count array among tags. */
  function FirstArray(fields: seq<Field>, tags: seq<nat>): Option<nat> {
    if tags == [] then None
    else if FixedArray(fields, tags[0]).Some? then FixedArray(fields, tags[0])
    else FirstArray(fields, tags[1..])
  }

  function LastArray(fields: seq<Field>, tags: seq<nat>): Option<nat> {
    if tags == [] then None
    else if LastArray(fields, tags[1..]).Some? then LastArray(fields, tags[1..])
    else FixedArray(fields, tags[0])
  }

  lemma {:induction false} FirstArrayRead(fields: seq<Field>, st: State, s: seq<Byte>)
    ensures FirstFixed(fields, st, s) == FirstArray(fields, TagsRead(fields, st, s))
    decreases |s|
  {
    if s != [] && DecodeRecord(fields, st, s).Next? && DecodeTag(s).Tag? {
      var r := DecodeRecord(fields, st, s);
      var tags := TagsRead(fields, st, s);
      assert tags[0] == DecodeTag(s).number && tags[1..] == TagsRead(fields, r.st, r.rest);
      FirstArrayRead(fields, r.st, r.rest);
    }
  }

  lemma {:induction false} LastArrayRead(fields: seq<Field>, st: State, s: seq<Byte>)
    requires DecodeRecords(fields, st, s).Done?
    ensures var last := LastArray(fields, TagsRead(fields, st, s));
            DecodeRecords(fields, st, s).st.fixedAt == if last.Some? then last else st.fixedAt
    decreases |s|
  {
    if s != [] && DecodeRecord(fields, st, s).Next? {
      var r := DecodeRecord(fields, st, s);
      var tags := TagsRead(fields, st, s);
      RecordIsBody(fields, st, s);
      assert tags[0] == DecodeTag(s).number && tags[1..] == TagsRead(fields, r.st, r.rest);
      LastArrayRead(fields, r.st, r.rest);
      ArrayOfRecord(fields, st, s);
    }
  }

  lemma ArrayOfRecord(fields: seq<Field>, st: State, s: seq<Byte>)
    requires s != [] && DecodeRecord(fields, st, s).Next? && DecodeTag(s).Tag?
    ensures var i := FixedArray(fields, DecodeTag(s).number);
            DecodeRecord(fields, st, s).st.fixedAt == if i.Some? then i else st.fixedAt
  {
  }

  /** Merging. When `a` decodes into a struct without meeting a zero tag and `b` then decodes
      into the result, `a + b` decodes to the same struct and leaves the same bytes -- except
      in exactly one situation, in which it is refused: the last fixed-count array in `a` is
      also the first one in `b`, for the decoder then counts on in a full array. */
  lemma MergeExact(fields: seq<Field>, a: seq<Byte>, b: seq<Byte>, m: Msg)
    requires WfSchema(fields)
    requires DecodeNoinit(fields, a, m).Ok? && !DecodeRecords(fields, Start(m), a).zero
    requires DecodeNoinit(fields, b, DecodeNoinit(fields, a, m).value).Ok?
    ensures var after := DecodeNoinit(fields, a, m).value;
            var last := LastArray(fields, TagsRead(fields, Start(m), a));
            var first := FirstArray(fields, TagsRead(fields, Start(after), b));
            DecodeNoinit(fields, a + b, m)
            == if last.Some? && first == last then Fail else DecodeNoinit(fields, b, after)
  {
    var x := DecodeRecords(fields, Start(m), a).st;
    var y := Start(x.msg);
    LastArrayRead(fields, Start(m), a);
    FirstArrayRead(fields, y, b);
    RunConcat(fields, Start(m), a, b);
    FixedAtIsFixed(fields, Start(m), a);
    if x.fixedAt.None? {
      RunSameButSeen(fields, x, y, b);
    } else {
      assert WfField(fields[x.fixedAt.value]);
      if FirstFixed(fields, y, b) == x.fixedAt {
        RunIntoFull(fields, x, y, b);
      } else {
        RunFullAgainstNone(fields, x, y, b);
      }
    }
  }

  /** One fixed-count array of one bool. */
  function OneFlag(): seq<Field> {
    [Field(1, LBool, Repeated, Static, 0, 0, 1, 1, [], None)]
  }

  /** How many elements it has got. */
  function Flags(st: State): nat {
    if st.fixedAt.Some? then st.fixedCount else 0
  }

  function WithFlag(st: State): State {
    Update(OneFlag(), 0, st, Many(Store(Items(SlotAt(st.msg, 0)), Flags(st), BoolV(true))), Flags(st) + 1)
  }

  lemma FlagRecord(st: State, t: seq<Byte>)
    requires st.fixedAt.None? || st.fixedAt == Some(0)
    ensures DecodeRecord(OneFlag(), st, [8, 1] + t) == if Flags(st) >= 1 then Stuck else Next(WithFlag(st), t)
  {
    var s, f := [8, 1] + t, OneFlag()[0];
    assert s[1..] == [1] + t && ([1] + t)[1..] == t;
    assert DecodeVarint32(s) == Ok(8, [1] + t) && DecodeVarint32([1] + t) == Ok(1, t);
    assert DecodeTag(s) == Tag(1, 0, [1] + t);
    assert OneFlag()[..0] == [];
    assert FindTag(OneFlag(), 1) == Some(0);
    assert CountBefore(OneFlag(), 0, st) == Flags(st);
    FlagValue(f, SlotAt(st.msg, 0), Flags(st), [1] + t, t);
  }

  lemma FlagValue(f: Field, slot: Slot, n: nat, s: seq<Byte>, t: seq<Byte>)
    requires f == OneFlag()[0] && DecodeVarint32(s) == Ok(1, t)
    ensures DecodeStatic(f, 0, slot, n, s)
            == if n >= 1 then Fail else Ok((Many(Store(Items(slot), n, BoolV(true))), n + 1), t)
  {
    assert DecodeScalar(f, s) == Ok(BoolV(true), t);
    assert DecodeValue(f, Indeterminate, s) == Ok(BoolV(true), t);
  }

  /** The situation exists: a message with the one element of a fixed-count array decodes, and
      decodes again into the result, but twice in a row it is refused. */
  lemma MergeRefused(m: Msg)
    ensures WfSchema(OneFlag())
    ensures var one: seq<Byte> := [8, 1];
            && DecodeNoinit(OneFlag(), one, m).Ok?
            && DecodeNoinit(OneFlag(), one, DecodeNoinit(OneFlag(), one, m).value).Ok?
            && DecodeNoinit(OneFlag(), one + one, m) == Fail
  {
    assert WfField(OneFlag()[0]);
    FlagDecodes(m);
    FlagDecodes(DecodeNoinit(OneFlag(), [8, 1], m).value);
    var one: seq<Byte> := [8, 1];
    FlagRecord(Start(m), one);
    var st := WithFlag(Start(m));
    FlagRecord(st, []);
    assert one + [] == one;
    assert DecodeRecord(OneFlag(), st, one) == Stuck;
    assert DecodeRecords(OneFlag(), st, one) == Failed;
  }

  lemma FlagDecodes(m: Msg)
    ensures DecodeNoinit(OneFlag(), [8, 1], m).Ok?
  {
    FlagRecord(Start(m), []);
    assert [8, 1] + [] == [8, 1];
    var st := DecodeRecord(OneFlag(), Start(m), [8, 1]).st;
    assert DecodeRecords(OneFlag(), st, []) == Done(st, [], false);
    assert RequiredBefore(OneFlag(), 1) == RequiredBefore(OneFlag(), 0);
  }
}
