/**
 Messages with their bytes: the examples of the Protocol Buffers encoding, and
 one for each of the other kinds of members.
 */
module Golden {
  import opened Wire
  import opened Varint
  import opened Schema
  import opened Decode
  import opened Encode

  /** An optional member with a `has_` flag, as the only one of its message. */
  function Only(number: nat, ltype: LType, dataSize: nat, sub: seq<Field>): seq<Field> {
    [Field(number, ltype, Optional, Static, 1, -1, dataSize, 0, sub, None)]
  }

  function Array(number: nat, ltype: LType, dataSize: nat): seq<Field> {
    [Field(number, ltype, Repeated, Static, 2, -2, dataSize, 4, [], None)]
  }

  lemma OneField(fields: seq<Field>, slot: Slot)
    requires |fields| == 1
    ensures EncodeMessage(fields, map[fields[0].dataOffset := slot]) == EncodeField(fields[0], slot)
  {
    var m := map[fields[0].dataOffset := slot];
    assert EncodeFields(fields, m, 1) == Some([]);
    var e := EncodeField(fields[0], slot);
    if e.Some? {
      assert e.value + [] == e.value;
    }
  }

  /** 150 takes two bytes. */
  lemma TwoDigits(v: nat)
    requires 128 <= v < 0x4000
    ensures EncodeVarint(v) == [128 + v % 128, v / 128]
  {
    assert EncodeVarint(v / 128) == [v / 128];
  }

  /** Field 1 with the number 150: 08 96 01. */
  lemma Number150()
    ensures EncodeMessage(Only(1, LVarint, 4, []), map[1 := Flagged(true, IntV(150))]) == Some([0x08, 0x96, 0x01])
  {
    var f := Only(1, LVarint, 4, [])[0];
    OneField([f], Flagged(true, IntV(150)));
    TwoDigits(150);
    assert EncodeTag(1, 0) == [8];
    assert Word64(150) == 150;
    assert [8] + [0x96, 0x01] == [0x08, 0x96, 0x01];
  }

  /** Field 2 with the string "testing": 12 07 and its letters. */
  lemma Testing()
    ensures var text := [0x74, 0x65, 0x73, 0x74, 0x69, 0x6e, 0x67];
            EncodeMessage(Only(2, LString, 16, []), map[1 := Flagged(true, BytesV(text))]) == Some([0x12, 0x07] + text)
  {
    Text([0x74, 0x65, 0x73, 0x74, 0x69, 0x6e, 0x67]);
  }

  lemma Text(text: seq<Byte>)
    requires |text| <= 16 && 0 !in text
    ensures EncodeMessage(Only(2, LString, 16, []), map[1 := Flagged(true, BytesV(text))])
            == Some([0x12, |text|] + text)
  {
    var f := Only(2, LString, 16, [])[0];
    OneField([f], Flagged(true, BytesV(text)));
    assert EncodeTag(2, 2) == [0x12];
    assert Prefixed(text) == [|text|] + text;
    assert [0x12] + ([|text|] + text) == [0x12, |text|] + text;
  }

  /** Field 3 with the first of these messages in it: 1a 03 08 96 01. */
  lemma Embedded()
    ensures var inner := map[1 := Flagged(true, IntV(150))];
            EncodeMessage(Only(3, LSubmessage, 8, Only(1, LVarint, 4, [])), map[1 := Flagged(true, MsgV(inner))])
            == Some([0x1a, 0x03, 0x08, 0x96, 0x01])
  {
    var f, inner := Only(3, LSubmessage, 8, Only(1, LVarint, 4, []))[0], map[1 := Flagged(true, IntV(150))];
    var body := [0x08, 0x96, 0x01];
    OneField([f], Flagged(true, MsgV(inner)));
    Number150();
    assert EncodeTag(3, 2) == [0x1a];
    assert Prefixed(body) == [3] + body;
    assert EncodeValue(f, MsgV(inner)) == Some([3] + body);
    assert [0x1a] + ([3] + body) == [0x1a, 0x03, 0x08, 0x96, 0x01];
  }

  /** Field 4 with the packed numbers 3, 270 and 12: 22 04 03 8e 02 0c. */
  lemma PackedNumbers()
    ensures EncodeMessage(Array(4, LVarint, 4), map[2 := Many([IntV(3), IntV(270), IntV(12)])])
         == Some([0x22, 0x04, 0x03, 0x8e, 0x02, 0x0c])
  {
    var f, vs := Array(4, LVarint, 4)[0], [IntV(3), IntV(270), IntV(12)];
    OneField([f], Many(vs));
    TwoDigits(270);
    assert Word64(3) == 3 && Word64(270) == 270 && Word64(12) == 12;
    assert vs[1..] == [IntV(270), IntV(12)] && vs[1..][1..] == [IntV(12)] && [IntV(12)][1..] == [];
    assert EncodePacked(f, [IntV(12)]) == Some([12] + []);
    assert [12] + [] == [12];
    assert EncodePacked(f, vs[1..]) == Some([0x8e, 0x02] + [0x0c]);
    assert EncodePacked(f, vs) == Some([3] + ([0x8e, 0x02] + [0x0c]));
    var body := [0x03, 0x8e, 0x02, 0x0c];
    assert [3] + ([0x8e, 0x02] + [0x0c]) == body;
    assert Prefixed(body) == [4] + body;
    assert EncodeTag(4, 2) == [0x22];
    assert [0x22] + ([4] + body) == [0x22, 0x04, 0x03, 0x8e, 0x02, 0x0c];
  }

  /** Two byte arrays in field 5, each with its own key: 2a 01 ff 2a 00. */
  lemma ByteArrays()
    ensures EncodeMessage(Array(5, LBytes, 16), map[2 := Many([BytesV([0xff]), BytesV([])])])
         == Some([0x2a, 0x01, 0xff, 0x2a, 0x00])
  {
    var f, vs := Array(5, LBytes, 16)[0], [BytesV([0xff]), BytesV([])];
    OneField([f], Many(vs));
    assert vs[1..] == [BytesV([])] && [BytesV([])][1..] == [];
    assert EncodeTag(5, 2) == [0x2a];
    assert Prefixed([0xff]) == [1] + [0xff] && Prefixed([]) == [0] + [];
    assert EncodeItems(f, [BytesV([])]) == Some([0x2a] + ([0] + []) + []);
    assert [0x2a] + ([0] + []) + [] == [0x2a, 0x00];
    assert EncodeItems(f, vs) == Some([0x2a] + ([1] + [0xff]) + [0x2a, 0x00]);
    assert [0x2a] + ([1] + [0xff]) + [0x2a, 0x00] == [0x2a, 0x01, 0xff, 0x2a, 0x00];
  }

  /** Field 6 with -2 as a zigzag number: 30 03. */
  lemma MinusTwo()
    ensures EncodeMessage(Only(6, LSVarint, 4, []), map[1 := Flagged(true, IntV(-2))]) == Some([0x30, 0x03])
  {
    OneField(Only(6, LSVarint, 4, []), Flagged(true, IntV(-2)));
    ZigZagRoundTrip(-2);
    assert EncodeTag(6, 0) == [0x30] && [0x30] + [3] == [0x30, 0x03];
  }

  /** Field 7 with 1 in four bytes: 3d 01 00 00 00. */
  lemma OneInFourBytes()
    ensures EncodeMessage(Only(7, LFixed32, 4, []), map[1 := Flagged(true, IntV(1))]) == Some([0x3d, 1, 0, 0, 0])
  {
    OneField(Only(7, LFixed32, 4, []), Flagged(true, IntV(1)));
    assert EncodeTag(7, 5) == [0x3d];
    assert LittleEndian(0, 1) == [0] + LittleEndian(0, 0) == [0];
    assert LittleEndian(0, 2) == [0] + LittleEndian(0, 1) == [0, 0];
    assert LittleEndian(0, 3) == [0] + LittleEndian(0, 2) == [0, 0, 0];
    assert LittleEndian(1, 4) == [1] + LittleEndian(0, 3) == [1, 0, 0, 0];
    assert [0x3d] + [1, 0, 0, 0] == [0x3d, 1, 0, 0, 0];
  }

  /** True in field 8: 40 01. */
  lemma True()
    ensures EncodeMessage(Only(8, LBool, 1, []), map[1 := Flagged(true, BoolV(true))]) == Some([0x40, 0x01])
  {
    OneField(Only(8, LBool, 1, []), Flagged(true, BoolV(true)));
    assert EncodeTag(8, 0) == [0x40] && [0x40] + [1] == [0x40, 0x01];
  }
}
