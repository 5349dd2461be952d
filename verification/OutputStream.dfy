/**
 `pb_ostream_t`: a window of a memory buffer, or a stream without one that only
 counts, and what it means that an encoder has run on it.
 */
module OutputStream {
  import opened Wire
  import opened Encode

  /** How an encoder ends: `SizeChanged` is the error "submsg size changed". */
  datatype Status = Fine | StreamFull | Invalid | SizeChanged

  /** The room of a stream: none that matters for a sizing stream, else `max` bytes of the
      buffer from `start` on. */
  datatype Window = Counting | Bounded(start: nat, max: nat)

  /** The buffer as a whole and the number of bytes written. */
  datatype Snap = Snap(image: seq<Byte>, written: nat)

  /** The bytes of `data` stand at place p. */
  predicate Holds(image: seq<Byte>, p: nat, data: seq<Byte>) {
    p + |data| <= |image| && forall k :: 0 <= k < |data| ==> image[p + k] == data[k]
  }

  /** Nothing has changed but bytes from place `lo` up to place `hi`. */
  predicate SameOutside(a: seq<Byte>, b: seq<Byte>, lo: nat, hi: nat) {
    |a| == |b| && forall k :: 0 <= k < |a| && !(lo <= k < hi) ==> a[k] == b[k]
  }

  predicate Fits(w: Window, before: Snap, n: nat) {
    w.Counting? || before.written + n <= w.max
  }

  /** What an encoder leaves of the buffer: on success the bytes e at the old end of what was
      written, else anything in the room that was left. */
  predicate Left(w: Window, e: Option<seq<Byte>>, before: Snap, after: Snap)
    requires w.Bounded?
  {
    && before.written <= after.written <= w.max && w.start + w.max <= |before.image|
    && SameOutside(before.image, after.image, w.start + before.written,
       w.start + if e.Some? then after.written else w.max)
    && (e.Some? ==> Holds(after.image, w.start + before.written, e.value))
  }

  /** An encoder of the bytes e has taken a stream from one state to another: it succeeds
      exactly when the bytes exist and fit, then they and no others are added, and it never
      finds that a submessage has changed its size. */
  predicate Wrote(w: Window, e: Option<seq<Byte>>, r: Status, before: Snap, after: Snap) {
    && r != SizeChanged
    && (r == Fine <==> e.Some? && Fits(w, before, |e.value|))
    && (r == Fine ==> after.written == before.written + |e.value|)
    && (w.Bounded? ==> Left(w, if r == Fine then e else None, before, after))
  }

  /** Two encoders one after the other, the second one only after success. */
  lemma Then(w: Window, a: Option<seq<Byte>>, b: Option<seq<Byte>>, r: Status, s0: Snap, s1: Snap, s2: Snap)
    requires Wrote(w, a, Fine, s0, s1) && Wrote(w, b, r, s1, s2)
    ensures Wrote(w, Both(a, b), r, s0, s2)
  {
    if r == Fine && w.Bounded? {
      HoldsBoth(s1.image, s2.image, w.start + s0.written, w.start + s1.written, w.start + s2.written, a.value, b.value);
    }
  }

  lemma HoldsBoth(i: seq<Byte>, j: seq<Byte>, p: nat, q: nat, hi: nat, a: seq<Byte>, b: seq<Byte>)
    requires Holds(i, p, a) && q == p + |a| && Holds(j, q, b) && SameOutside(i, j, q, hi)
    ensures Holds(j, p, a + b)
  {
    forall k | 0 <= k < |a + b|
      ensures j[p + k] == (a + b)[k]
    {
      if k < |a| {
        assert i[p + k] == a[k];
      } else {
        assert j[q + (k - |a|)] == b[k - |a|];
      }
    }
  }

  /** When the first encoder fails, so do both. */
  lemma Fails(w: Window, a: Option<seq<Byte>>, b: Option<seq<Byte>>, r: Status, s0: Snap, s1: Snap)
    requires Wrote(w, a, r, s0, s1) && r != Fine
    ensures Wrote(w, Both(a, b), r, s0, s1)
  {
  }

  lemma HoldsSlice(a: seq<Byte>, p: nat, data: seq<Byte>)
    requires Holds(a, p, data)
    ensures a[p..p + |data|] == data
  {
    forall k | 0 <= k < |data|
      ensures a[p..p + |data|][k] == data[k]
    {
      assert a[p + k] == data[k];
    }
  }

  lemma SameSlices(a: seq<Byte>, b: seq<Byte>, lo: nat, hi: nat)
    requires SameOutside(a, b, lo, hi) && lo <= hi <= |a|
    ensures a[..lo] == b[..lo] && a[hi..] == b[hi..]
  {
    forall k | 0 <= k < lo
      ensures a[k] == b[k]
    {
    }
    forall k | 0 <= k < |a| - hi
      ensures a[hi..][k] == b[hi..][k]
    {
      assert a[hi + k] == b[hi + k];
    }
  }

  /** The buffer after success, cut in three. */
  lemma WroteBytes(w: Window, e: Option<seq<Byte>>, before: Snap, after: Snap)
    requires Wrote(w, e, Fine, before, after) && w.Bounded?
    ensures after.image[w.start + before.written..w.start + after.written] == e.value
    ensures after.image[..w.start + before.written] == before.image[..w.start + before.written]
    ensures after.image[w.start + after.written..] == before.image[w.start + after.written..]
  {
    HoldsSlice(after.image, w.start + before.written, e.value);
    SameSlices(before.image, after.image, w.start + before.written, w.start + after.written);
  }

  /** The loop of `buf_write` */
  method CopyBytes(buf: array<Byte>, p: nat, data: seq<Byte>)
    requires p + |data| <= buf.Length
    modifies buf
    ensures SameOutside(old(buf[..]), buf[..], p, p + |data|) && Holds(buf[..], p, data)
  {
    var i := 0;
    while i < |data|
      invariant 0 <= i <= |data|
      invariant forall k :: 0 <= k < i ==> buf[p + k] == data[k]
      invariant forall k :: (0 <= k < p || p + i <= k < buf.Length) ==> buf[k] == old(buf[k])
    {
      buf[p + i] := data[i];
      i := i + 1;
    }
  }

  class OStream {
    // The buffer; null in a sizing stream (`callback == NULL`).
    const buf: array?<Byte>
    // Where the window starts, and `max_size`.
    const start: nat
    const maxSize: nat
    // `bytes_written`; `state` is start + written.
    var written: nat

    ghost predicate Valid()
      reads this
    {
      buf != null ==> written <= maxSize && start + maxSize <= buf.Length
    }

    ghost function Room(): Window {
      if buf == null then Counting else Bounded(start, maxSize)
    }

    ghost function Now(): Snap
      reads this, buf
    {
      Snap(if buf == null then [] else buf[..], written)
    }

    /** `pb_ostream_from_buffer`, and the substream of `pb_encode_submessage`. */
    constructor From(buf: array<Byte>, start: nat, maxSize: nat)
      requires start + maxSize <= buf.Length
      ensures Valid() && this.buf == buf && this.start == start && this.maxSize == maxSize && written == 0
    {
      this.buf, this.start, this.maxSize, written := buf, start, maxSize, 0;
    }

    /** `PB_OSTREAM_SIZING` */
    constructor Sizing()
      ensures Valid() && buf == null && written == 0
    {
      buf, start, maxSize, written := null, 0, 0, 0;
    }

    /** `pb_write` */
    method Write(data: seq<Byte>) returns (r: Status)
      requires Valid()
      modifies this, buf
      ensures Valid() && Wrote(Room(), Some(data), r, old(Now()), Now())
    {
      if |data| > 0 && buf != null {
        if written + |data| > maxSize {
          return StreamFull;
        }
        CopyBytes(buf, start + written, data);
      }
      written := written + |data|;
      r := Fine;
    }

    /** `pb_write` without data, which only a sizing stream allows: it counts like writing any n
        bytes. */
    method Count(n: nat) returns (r: Status)
      requires Valid() && buf == null
      modifies this
      ensures Valid() && r == Fine && written == old(written) + n
      ensures forall data: seq<Byte> :: |data| == n ==> Wrote(Room(), Some(data), r, old(Now()), Now())
    {
      written := written + n;
      r := Fine;
    }
  }
}
