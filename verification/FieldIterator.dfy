/**
 The cyclic field iterator of pb_common.c, which computes data pointers and the
 index of required fields step by step, against the prefix sums of `Schema`.
 */
module FieldIterator {
  import opened Wire
  import opened Schema

  /** Offset of the size member of entry i from its data pointer: inside a union it is the
      one of the first member, for the iterator does not move there. */
  function SizeOffset(fields: seq<Field>, i: nat): int
    requires i < |fields|
  {
    if Continues(fields, i) then SizeOffset(fields, i - 1) else fields[i].sizeOffset
  }

  /** When the members of each union agree on their `which_` member, so does the iterator. */
  lemma {:induction false} SizeOffsetAgrees(fields: seq<Field>, i: nat)
    requires i < |fields|
    requires forall j :: 0 < j < |fields| && Continues(fields, j) ==> fields[j].sizeOffset == fields[j - 1].sizeOffset
    ensures SizeOffset(fields, i) == fields[i].sizeOffset
  {
    if Continues(fields, i) {
      SizeOffsetAgrees(fields, i - 1);
    }
  }

  class FieldIter {
    // `start` of the table, and the address of the struct it describes.
    const fields: seq<Field>
    const base: int
    var pos: nat
    var requiredIndex: nat
    var pData: int
    var pSize: int

    /** The iterator stands on an entry, or on the terminator of an empty table, and its
        data pointer and index are the ones of that entry. The size pointer of a fixed-count
        array is free: the decoder turns it to a counter outside the struct. */
    ghost predicate Valid()
      reads this
    {
      if fields == [] then pos == 0 && requiredIndex == 0 && pData == base
      else
        && pos < |fields|
        && requiredIndex == RequiredBefore(fields, pos)
        && pData == base + Offset(fields, pos)
        && (FixedCount(fields[pos]) || pSize == pData + SizeOffset(fields, pos))
    }

    /** The iterator has just arrived: the size pointer of an array is its own one too. */
    ghost predicate Arrived()
      reads this
    {
      Valid() && (fields != [] && fields[pos].htype.Repeated? ==> pSize == pData + fields[pos].sizeOffset)
    }

    /** `pb_field_iter_begin` */
    constructor (fields: seq<Field>, base: int)
      ensures this.fields == fields && this.base == base
      ensures Arrived() && pos == 0
    {
      this.fields, this.base := fields, base;
      pos, requiredIndex := 0, 0;
      pData := if fields == [] then base else base + fields[0].dataOffset;
      pSize := if fields == [] then base else base + fields[0].dataOffset + fields[0].sizeOffset;
    }

    method Begin() returns (nonEmpty: bool)
      modifies this
      ensures Arrived() && pos == 0
      ensures nonEmpty <==> fields != []
    {
      pos, requiredIndex, pData := 0, 0, base;
      if fields != [] {
        pData := pData + fields[0].dataOffset;
      }
      pSize := if fields == [] then pData else pData + fields[0].sizeOffset;
      nonEmpty := fields != [];
    }

    /** `pb_field_iter_next`: one entry on, or back to the start after the last one. */
    method Next() returns (more: bool)
      requires Valid()
      modifies this
      ensures Valid() && (fields != [] ==> Arrived())
      ensures more <==> old(pos) + 1 < |fields|
      ensures pos == if more then old(pos) + 1 else 0
    {
      if fields == [] {
        return false;
      }
      var prev := fields[pos];
      pos := pos + 1;
      if pos == |fields| {
        more := Begin();
        return false;
      }
      var prevSize := prev.dataSize;
      if prev.htype.Oneof? && fields[pos].htype.Oneof? && fields[pos].dataOffset == SIZE_MAX {
        return true;
      } else if prev.atype.Static? && prev.htype.Repeated? {
        prevSize := prevSize * prev.arraySize;
      } else if prev.atype.Pointer? {
        prevSize := POINTER_BYTES;
      }
      if prev.htype.Required? {
        requiredIndex := requiredIndex + 1;
      }
      pData := pData + prevSize + fields[pos].dataOffset;
      pSize := pData + fields[pos].sizeOffset;
      more := true;
    }

    /** `pb_field_iter_find`, from wherever the iterator stands: it succeeds exactly when some
        field other than an extension has the tag, takes at most one lap, and is back at its
        start when it fails. In an empty table it stops at the terminator for tag 0. */
    method Find(tag: nat) returns (found: bool, ghost steps: nat)
      requires Valid()
      modifies this
      ensures Valid()
      ensures found && fields != [] ==> Matches(fields[pos], tag)
      ensures found <==> (exists i :: 0 <= i < |fields| && Matches(fields[i], tag)) || (fields == [] && tag == 0)
      ensures steps <= |fields| || steps == 1
      ensures !found ==> pos == old(pos) && (fields != [] ==> Arrived())
      ensures steps == 0 ==> pos == old(pos) && pSize == old(pSize)
      ensures steps > 0 && fields != [] ==> Arrived()
    {
      var start := pos;
      var n := |fields|;
      steps := 0;
      found := if fields == [] then tag == 0 else Matches(fields[pos], tag);
      if found {
        return;
      }
      var more := Next();
      steps := 1;
      while pos != start
        invariant Valid() && (n > 0 ==> Arrived()) && (n == 0 ==> pos == start)
        invariant if n == 0 then steps == 1 else 1 <= steps <= n
        invariant n > 0 ==> pos == if start + steps < n then start + steps else start + steps - n
        invariant forall i :: start <= i < n && i < start + steps ==> !Matches(fields[i], tag)
        invariant n > 0 && start + steps >= n ==> forall i :: 0 <= i < pos ==> !Matches(fields[i], tag)
        invariant n > 0 ==> !Matches(fields[start], tag)
        decreases n - steps
      {
        if Matches(fields[pos], tag) {
          return true, steps;
        }
        more := Next();
        steps := steps + 1;
      }
      found := false;
    }
  }

  /** With distinct tags the place where a search ends does not depend on where it began: it
      is the one entry that `FindTag` names. */
  lemma FoundIsUnique(fields: seq<Field>, pos: nat, tag: nat)
    requires DistinctTags(fields) && pos < |fields| && Matches(fields[pos], tag)
    ensures FindTag(fields, tag) == Some(pos)
  {
    FindTagUnique(fields, pos);
  }
}
