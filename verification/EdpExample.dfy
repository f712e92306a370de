/** A frame of edp_send() in full: the display frame of "First chassis", slot 0, port 3,
    sequence number 0. */
module EdpExample {
  import opened Bytes
  import opened Tlv
  import opened Checksum
  import opened Edp
  import opened EdpLayout

  const ID: seq<byte> := [0x5e, 0x10, 0x8e, 0xe7, 0x84, 0xad]
  const FIRST: Sender :=
    Sender(ID, ID, [0x46, 0x69, 0x72, 0x73, 0x74, 0x20, 0x63, 0x68, 0x61, 0x73, 0x73, 0x69, 0x73], 0, 3, [])

  const DISPLAY_FIELD: seq<byte> :=
    [0x99, 0x01, 0x00, 0x12, 0x46, 0x69, 0x72, 0x73, 0x74, 0x20, 0x63, 0x68, 0x61, 0x73, 0x73, 0x69,
     0x73, 0x00]
  const INFO_FIELD: seq<byte> :=
    [0x99, 0x02, 0x00, 0x24, 0x00, 0x00, 0x00, 0x03] + [0x00, 0x00, 0x00, 0x00, 0x00, 0x00, 0x00, 0x00]
    + [0x07, 0x06, 0x04, 0x63, 0xff, 0xff, 0xff, 0xff]
    + [0x00, 0x00, 0x00, 0x00, 0x00, 0x00, 0x00, 0x00, 0x00, 0x00, 0x00, 0x00]
  const NULL_FIELD: seq<byte> := [0x99, 0x00, 0x00, 0x04]

  /** The EDP header, before the checksum is filled in. */
  const HEADER: seq<byte> :=
    [0x01, 0x00, 0x00, 0x4a, 0x00, 0x00, 0x00, 0x00, 0x00, 0x00, 0x5e, 0x10, 0x8e, 0xe7, 0x84, 0xad]

  lemma {:induction false} FirstDisplay()
    ensures Field(0x9901, FIRST.name + [0]) == DISPLAY_FIELD
  {
  }

  lemma {:induction false} FirstInfo()
    ensures InfoField(0, 3) == INFO_FIELD
  {
    var a, b, c, d: seq<byte>, e: seq<byte> :=
      [0, 0, 0, 3], [0, 0, 0, 0, 0, 0, 0, 0], [7, 6, 4, 99], [0xff, 0xff, 0xff, 0xff],
      [0, 0, 0, 0, 0, 0, 0, 0, 0, 0, 0, 0];
    assert |a + b + c + d + e| == 32;
    assert InfoField(0, 3) == [0x99, 0x02, 0x00, 0x24] + (a + b + c + d + e);
    assert [0x99, 0x02, 0x00, 0x24] + a == [0x99, 0x02, 0x00, 0x24, 0x00, 0x00, 0x00, 0x03];
    assert c + d == [0x07, 0x06, 0x04, 0x63, 0xff, 0xff, 0xff, 0xff];
    assert [0x99, 0x02, 0x00, 0x24] + (a + b + c + d + e) == ([0x99, 0x02, 0x00, 0x24] + a) + b + (c + d) + e;
  }

  // ---------- The checksum ----------

  lemma {:induction false} HeaderTotal()
    ensures |HEADER| == 16 && Total(HEADER, false) == 0x172ee
  {
    hide Sum;
    var s := HEADER;
    SumZero(s, false);
    FourWords(s, 0, false);
    assert Sum(s, 4, false) == 0x14a;
    FourWords(s, 4, false);
    assert Sum(s, 8, false) == 0x172ee;
  }

  lemma {:induction false} DisplayTotal()
    ensures |DISPLAY_FIELD| == 18 && Total(DISPLAY_FIELD, false) == 0x37153
  {
    hide Sum;
    var s := DISPLAY_FIELD;
    SumZero(s, false);
    FourWords(s, 0, false);
    assert Sum(s, 4, false) == 0x151ef;
    FourWords(s, 4, false);
    assert Sum(s, 8, false) == 0x2fe53;
    SumNext(s, 8, false);
  }

  lemma {:induction false} InfoTotal()
    ensures |INFO_FIELD| == 36 && Total(INFO_FIELD, false) == 0x2a490
  {
    hide Total;
    var a, b: seq<byte>, c: seq<byte>, d: seq<byte> :=
      [0x99, 0x02, 0x00, 0x24, 0x00, 0x00, 0x00, 0x03], [0, 0, 0, 0, 0, 0, 0, 0],
      [0x07, 0x06, 0x04, 0x63, 0xff, 0xff, 0xff, 0xff], [0, 0, 0, 0, 0, 0, 0, 0, 0, 0, 0, 0];
    EightByteTotal(a, false);
    EightByteTotal(b, false);
    EightByteTotal(c, false);
    EightByteTotal(d[..8], false);
    assert d == d[..8] + [0, 0, 0, 0];
    FourByteTotal([0, 0, 0, 0], false);
    TotalAppend(d[..8], [0, 0, 0, 0], false);
    TotalAppend(a, b, false);
    TotalAppend(a + b, c, false);
    TotalAppend(a + b + c, d, false);
  }

  lemma {:induction false} NullTotal()
    ensures |NULL_FIELD| == 4 && Total(NULL_FIELD, false) == 0x9904
  {
    hide Sum;
    var s := NULL_FIELD;
    SumZero(s, false);
    SumNext(s, 0, false);
    SumNext(s, 1, false);
  }

  lemma {:induction false} FirstChecksum()
    ensures var s := HEADER + (DISPLAY_FIELD + INFO_FIELD + NULL_FIELD);
      |s| == 74 && ChecksumOf(s, false) == 0x22de
  {
    hide Total, ChecksumOf;
    var h, a, b, c := HEADER, DISPLAY_FIELD, INFO_FIELD, NULL_FIELD;
    HeaderTotal();
    DisplayTotal();
    InfoTotal();
    NullTotal();
    assert h + (a + b + c) == h + (a + (b + c));
    TotalAppend(b, c, false);
    TotalAppend(a, b + c, false);
    TotalAppend(h, a + (b + c), false);
    assert Total(h + (a + b + c), false) == 0x821d5;
    ChecksumFromTotal(h + (a + b + c), false);
  }

  // ---------- The frame ----------

  lemma {:induction false} FirstPacket(sum: seq<byte>)
    requires |sum| == 2
    ensures Packet(FIRST, 0, 0, 74, sum) ==
      [0x01, 0x00, 0x00, 0x4a] + sum + [0x00, 0x00, 0x00, 0x00] + ID + (DISPLAY_FIELD + INFO_FIELD + NULL_FIELD)
  {
    hide TlvsOf, Wire;
    FirstFields();
    hide BE16;
    var t := DISPLAY_FIELD + INFO_FIELD + NULL_FIELD;
    Numbers();
    assert Packet(FIRST, 0, 0, 74, sum) == [1, 0] + BE16(74) + sum + BE16(0) + BE16(0) + ID + t;
  }

  lemma {:induction false} Numbers()
    ensures [1, 0] + BE16(74) == [0x01, 0x00, 0x00, 0x4a] && BE16(0) + BE16(0) == [0x00, 0x00, 0x00, 0x00]
  {
  }

  lemma {:induction false} FirstFields()
    ensures Wire(TlvsOf(FIRST, 0)) == DISPLAY_FIELD + INFO_FIELD + NULL_FIELD
  {
    hide TlvsOf, Wire, Field, InfoField;
    FieldsAre(FIRST, 0);
    FirstDisplay();
    FirstInfo();
  }

  lemma {:induction false} HeaderBytes()
    ensures [0x01, 0x00, 0x00, 0x4a] + [0, 0] + [0x00, 0x00, 0x00, 0x00] + ID == HEADER
  {
  }

  lemma {:induction false} FirstFront()
    ensures Front(FIRST, 82) == [0x00, 0xe0, 0x2b, 0x00, 0x00, 0x00, 0x5e, 0x10, 0x8e, 0xe7, 0x84, 0xad, 0x00, 0x52]
                               + [0xaa, 0xaa, 0x03, 0x00, 0xe0, 0x2b, 0x00, 0xbb]
    ensures LE(0x22de, 2) == [0xde, 0x22]
  {
    assert LE(0x22de, 2) == [0xde] + LE(0x22, 1) && LE(0x22, 1) == [0x22] + LE(0, 0);
  }

  /** The 96 bytes of the frame. */
  lemma {:induction false} FirstFrame()
    ensures FrameOf(FIRST, 0, 0) ==
      [0x00, 0xe0, 0x2b, 0x00, 0x00, 0x00, 0x5e, 0x10, 0x8e, 0xe7, 0x84, 0xad, 0x00, 0x52]
      + [0xaa, 0xaa, 0x03, 0x00, 0xe0, 0x2b, 0x00, 0xbb]
      + ([0x01, 0x00, 0x00, 0x4a] + [0xde, 0x22] + [0x00, 0x00, 0x00, 0x00] + ID
         + (DISPLAY_FIELD + INFO_FIELD + NULL_FIELD))
  {
    hide ChecksumOf, Front, Packet, LE, TlvsOf, Wire;
    FirstFields();
    HeaderBytes();
    FirstFront();
    FirstPacket([0, 0]);
    FirstPacket([0xde, 0x22]);
    FirstChecksum();
  }
}
