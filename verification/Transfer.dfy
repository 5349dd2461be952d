/**
 Both halves joined: the encoder runs into a memory buffer and the decoder over
 the bytes that it has written there.
 */
module Transfer {
  import opened Wire
  import opened Schema
  import opened Decode
  import opened Encode
  import opened Typed
  import opened InputStream
  import opened OutputStream
  import RT = RoundTrip
  import E = Encoder
  import D = Decoder
  import R = Received

  // ------------------------------------ what can be sent can also be measured

  lemma {:induction false} ReadyValueSized(f: Field, v: Value)
    requires WfField(f) && TypedValue(f, v) && RT.ReadyValue(f, v)
    ensures E.SizedValue(f, v)
    decreases f, 0
  {
    if f.ltype.LSubmessage? {
      ReadyIsSized(f.sub, v.slots);
    }
  }

  lemma {:induction false} ReadySlotSized(f: Field, slot: Slot)
    requires WfField(f) && TypedSlot(f, slot) && RT.ReadySlot(f, slot)
    ensures E.SizedSlot(f, slot)
    decreases f, 2
  {
    if Present(f, slot) {
      if f.htype.Repeated? {
        ReadyItemsSized(f, Items(slot));
      } else {
        ReadyValueSized(f, Current(slot));
      }
    }
  }

  lemma {:induction false} ReadyItemsSized(f: Field, items: seq<Value>)
    requires WfField(f)
    requires forall k :: 0 <= k < |items| ==> TypedValue(f, items[k]) && RT.ReadyValue(f, items[k])
    ensures E.SizedItems(f, items) && E.WholeItems(f, items)
    decreases f, 1
  {
    forall k | 0 <= k < |items|
      ensures E.SizedValue(f, items[k])
    {
      ReadyValueSized(f, items[k]);
    }
  }

  /** Every typed struct that is ready to be sent meets what the encoder asks, whatever its
      absent members hold. */
  lemma {:induction false} ReadyIsSized(fields: seq<Field>, m: Msg)
    requires WfSchema(fields) && TypedMsg(fields, m) && RT.ReadyMsg(fields, m)
    ensures E.SizedMsg(fields, m)
    decreases fields, 3
  {
    forall i | 0 <= i < |fields|
      ensures E.SizedSlot(fields[i], SlotAt(m, Offset(fields, i)))
    {
      assert WfField(fields[i]);
      assert TypedSlot(fields[i], SlotAt(m, Offset(fields, i)));
      assert RT.ReadySlot(fields[i], SlotAt(m, Offset(fields, i)));
      ReadySlotSized(fields[i], SlotAt(m, Offset(fields, i)));
    }
  }

  lemma Cut(s: seq<Byte>, n: nat)
    requires n <= |s|
    ensures s == s[0..n] + s[n..]
  {
  }

  // ------------------------------------------------------------ end to end

  /** `pb_encode` into a buffer and `pb_decode` from the bytes written: the encoder succeeds
      exactly when the encoding fits, and then the decoder succeeds and finds the message, with
      absent members at their defaults. */
  method Transfer(fields: seq<Field>, m: Msg, buf: array<Byte>) returns (r: Status, ok: bool, received: Msg)
    requires WfSchema(fields) && TypedMsg(fields, m) && RT.ReadyMsg(fields, m)
    modifies buf
    ensures EncodeMessage(fields, m).Some?
    ensures r == Fine <==> |EncodeMessage(fields, m).value| <= buf.Length
    ensures r == Fine ==> ok && received == RT.Received(fields, m)
  {
    ReadyIsSized(fields, m);
    RT.MessageRoundTrip(fields, m);
    var out := new OStream.From(buf, 0, buf.Length);
    ghost var before := out.Now();
    r := E.PutMessage(out, fields, m);
    ok, received := false, map[];
    if r != Fine {
      return;
    }
    WroteBytes(out.Room(), EncodeMessage(fields, m), before, out.Now());
    var stream := new IStream.FromBuffer(buf[..out.written]);
    assert stream.Rest() == EncodeMessage(fields, m).value;
    var dest := new D.Message(map[]);
    ok := D.DecodeInto(stream, fields, dest);
    received := dest.slots;
  }

  /** The same with the length in front, as `pb_encode_delimited` and `pb_decode_delimited` do it,
      for messages whose encoding is below 2^32 bytes; and the reader stops behind the message. */
  method TransferDelimited(fields: seq<Field>, m: Msg, buf: array<Byte>)
    returns (r: Status, ok: bool, received: Msg, left: nat)
    requires WfSchema(fields) && R.Deliverable(fields, m)
    modifies buf
    ensures EncodeMessage(fields, m).Some?
    ensures r == Fine <==> |Prefixed(EncodeMessage(fields, m).value)| <= buf.Length
    ensures r == Fine ==> ok && received == RT.Received(fields, m)
    ensures r == Fine ==> left == buf.Length - |Prefixed(EncodeMessage(fields, m).value)|
  {
    ReadyIsSized(fields, m);
    RT.MessageRoundTrip(fields, m);
    var out := new OStream.From(buf, 0, buf.Length);
    ghost var before := out.Now();
    r := E.PutDelimited(out, fields, m);
    ok, received, left := false, map[], 0;
    if r != Fine {
      return;
    }
    WroteBytes(out.Room(), E.Submessage(fields, m), before, out.Now());
    Cut(buf[..], out.written);
    R.OneDelimited(fields, m, buf[..][out.written..]);
    var stream := new IStream.FromBuffer(buf[..]);
    var dest := new D.Message(map[]);
    ok := D.DecodeDelimitedInto(stream, fields, dest);
    received, left := dest.slots, stream.bytesLeft;
  }
}
