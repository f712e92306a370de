/** A frame of cdp_send() in full: version 1, with the name "First chassis", the port
    "FastEthernet 1/5", the description "Chassis description" and the platform "Linux". */
module CdpExample {
  import opened Bytes
  import opened Tlv
  import opened Checksum
  import opened Cdp
  import opened CdpLayout

  const FIRST: Sender :=
    Sender([0x5e, 0x10, 0x8e, 0xe7, 0x84, 0xad], 180,
           Some([0x46, 0x69, 0x72, 0x73, 0x74, 0x20, 0x63, 0x68, 0x61, 0x73, 0x73, 0x69, 0x73]),
           [IPv4([172, 17, 142, 37])],
           Some([0x46, 0x61, 0x73, 0x74, 0x45, 0x74, 0x68, 0x65, 0x72, 0x6e, 0x65, 0x74, 0x20, 0x31, 0x2f, 0x35]),
           {Router}, 0,
           Some([0x43, 0x68, 0x61, 0x73, 0x73, 0x69, 0x73, 0x20, 0x64, 0x65, 0x73, 0x63, 0x72, 0x69, 0x70, 0x74,
                 0x69, 0x6f, 0x6e]),
           [0x4c, 0x69, 0x6e, 0x75, 0x78], None)

  const NAME_TLV: seq<byte> :=
    [0x00, 0x01, 0x00, 0x11, 0x46, 0x69, 0x72, 0x73, 0x74, 0x20, 0x63, 0x68, 0x61, 0x73, 0x73, 0x69,
     0x73]
  const ADDRESS_TLV: seq<byte> :=
    [0x00, 0x02, 0x00, 0x11, 0x00, 0x00, 0x00, 0x01, 0x01, 0x01, 0xcc, 0x00, 0x04, 0xac, 0x11, 0x8e,
     0x25]
  const PORT_TLV: seq<byte> :=
    [0x00, 0x03, 0x00, 0x14, 0x46, 0x61, 0x73, 0x74, 0x45, 0x74, 0x68, 0x65, 0x72, 0x6e, 0x65, 0x74,
     0x20, 0x31, 0x2f, 0x35]
  const CAPABILITY_TLV: seq<byte> :=
    [0x00, 0x04, 0x00, 0x08, 0x00, 0x00, 0x00, 0x11]
  const SOFTWARE_TLV: seq<byte> :=
    [0x00, 0x05, 0x00, 0x17, 0x43, 0x68, 0x61, 0x73, 0x73, 0x69, 0x73, 0x20, 0x64, 0x65, 0x73, 0x63,
     0x72, 0x69, 0x70, 0x74, 0x69, 0x6f, 0x6e]
  const PLATFORM_TLV: seq<byte> :=
    [0x00, 0x06, 0x00, 0x09, 0x4c, 0x69, 0x6e, 0x75, 0x78]

  const TLVS: seq<byte> := NAME_TLV + ADDRESS_TLV + PORT_TLV + CAPABILITY_TLV + SOFTWARE_TLV + PLATFORM_TLV

  lemma {:induction false} NameField()
    ensures Field(1, Text(FIRST.name)) == NAME_TLV
  {
  }

  lemma {:induction false} PortField()
    ensures Field(3, Text(FIRST.portDescr)) == PORT_TLV
  {
  }

  lemma {:induction false} SoftwareField()
    ensures Field(5, Text(FIRST.descr)) == SOFTWARE_TLV
  {
  }

  lemma {:induction false} PlatformField()
    ensures Field(6, FIRST.platform) == PLATFORM_TLV
  {
  }

  lemma {:induction false} FirstAddress()
    ensures AddressField(FIRST.mgmt) == ADDRESS_TLV
  {
    var mgmt := FIRST.mgmt;
    assert Count(mgmt, 0) == 0 && Count(mgmt, 1) == 1;
    assert Entries(mgmt, 0) == [] && Entries(mgmt, 1) == [0x01, 0x01, 0xcc, 0x00, 0x04] + [172, 17, 142, 37];
  }

  lemma {:induction false} FirstFields()
    ensures Fields(FIRST, V1) == TLVS && |TLVS| == 94
  {
    hide Field, AddressField;
    NameField();
    PortField();
    SoftwareField();
    PlatformField();
    FirstAddress();
    FirstCapability();
    assert Router in FIRST.caps && Bridge !in FIRST.caps;
    assert VlanField(0, V1) == [] && PowerField(None, V1) == [];
  }

  lemma {:induction false} FirstCapability()
    ensures Field(4, [0, 0, 0, 0x11]) == CAPABILITY_TLV
  {
  }

  // ---------- The checksum ----------

  lemma {:induction false} HeaderTotal()
    ensures Total([0x01, 0xb4, 0x00, 0x00], true) == 0x1b4
  {
  }

  lemma {:induction false} NameAndAddressTotal()
    ensures |NAME_TLV + ADDRESS_TLV| == 34 && Total(NAME_TLV + ADDRESS_TLV, true) == 0x42859
  {
    hide Sum;
    var s := NAME_TLV + ADDRESS_TLV;
    SumZero(s, true);
    FourWords(s, 0, true);
    assert Sum(s, 4, true) == 0xb8ee;
    FourWords(s, 4, true);
    assert Sum(s, 8, true) == 0x26552;
    FourWords(s, 8, true);
    assert Sum(s, 12, true) == 0x2eb52;
    FourWords(s, 12, true);
    assert Sum(s, 16, true) == 0x39a34;
    SumNext(s, 16, true);
  }

  lemma {:induction false} PortTotal()
    ensures |PORT_TLV| == 20 && Total(PORT_TLV, true) == 0x28f0d
  {
    hide Sum;
    var s := PORT_TLV;
    SumZero(s, true);
    FourWords(s, 0, true);
    assert Sum(s, 4, true) == 0xb9ec;
    FourWords(s, 4, true);
    assert Sum(s, 8, true) == 0x23fa7;
    SumNext(s, 8, true);
    SumNext(s, 9, true);
  }

  lemma {:induction false} CapabilityTotal()
    ensures |CAPABILITY_TLV| == 8 && Total(CAPABILITY_TLV, true) == 0x1d
  {
    hide Sum;
    var s := CAPABILITY_TLV;
    SumZero(s, true);
    FourWords(s, 0, true);
    assert Sum(s, 4, true) == 0x1d;
  }

  lemma {:induction false} DescriptionTotal()
    ensures |SOFTWARE_TLV + PLATFORM_TLV| == 32 && Total(SOFTWARE_TLV + PLATFORM_TLV, true) == 0x50bc6
  {
    hide Sum;
    var s := SOFTWARE_TLV + PLATFORM_TLV;
    SumZero(s, true);
    FourWords(s, 0, true);
    assert Sum(s, 4, true) == 0xa4f7;
    FourWords(s, 4, true);
    assert Sum(s, 8, true) == 0x26348;
    FourWords(s, 8, true);
    assert Sum(s, 12, true) == 0x41d94;
    FourWords(s, 12, true);
    assert Sum(s, 16, true) == 0x50bc6;
  }

  lemma {:induction false} FirstChecksum()
    ensures ChecksumOf([0x01, 0xb4, 0x00, 0x00] + TLVS, true) == 0xf73a
  {
    hide Total, ChecksumOf;
    var h, a, b: seq<byte>, c := [0x01, 0xb4, 0x00, 0x00], NAME_TLV + ADDRESS_TLV, PORT_TLV, CAPABILITY_TLV;
    var d := SOFTWARE_TLV + PLATFORM_TLV;
    HeaderTotal();
    NameAndAddressTotal();
    PortTotal();
    CapabilityTotal();
    DescriptionTotal();
    assert h + TLVS == h + (a + (b + (c + d)));
    TotalAppend(c, d, true);
    TotalAppend(b, c + d, true);
    TotalAppend(a, b + (c + d), true);
    TotalAppend(h, a + (b + (c + d)), true);
    assert Total(h + TLVS, true) == 0xbc4fd;
    ChecksumFromTotal(h + TLVS, true);
  }

  // ---------- The frame ----------

  /** The 120 bytes of the frame. */
  lemma {:induction false} FirstFrame()
    ensures FrameOf(FIRST, V1) ==
      [0x01, 0x00, 0x0c, 0xcc, 0xcc, 0xcc, 0x5e, 0x10, 0x8e, 0xe7, 0x84, 0xad, 0x00, 0x6a]
      + [0xaa, 0xaa, 0x03, 0x00, 0x00, 0x0c, 0x20, 0x00] + [0x01, 0xb4, 0x3a, 0xf7] + TLVS
  {
    hide ChecksumOf, Ethernet, Llc, Body, LE;
    FirstChecksum();
    FirstBody([0x00, 0x00]);
    FirstBody([0x3a, 0xf7]);
    FirstHeaders();
  }

  lemma {:induction false} FirstBody(sum: seq<byte>)
    requires |sum| == 2
    ensures Body(FIRST, V1, sum) == [0x01, 0xb4] + sum + TLVS && |Body(FIRST, V1, sum)| == 98
    ensures sum == [0x00, 0x00] ==> Body(FIRST, V1, sum) == [0x01, 0xb4, 0x00, 0x00] + TLVS
    ensures sum == [0x3a, 0xf7] ==> Body(FIRST, V1, sum) == [0x01, 0xb4, 0x3a, 0xf7] + TLVS
  {
    hide Fields, TlvsOf;
    FieldsAre(FIRST, V1);
    FirstFields();
  }

  lemma {:induction false} FirstHeaders()
    ensures Ethernet(FIRST, V1, 106) ==
      [0x01, 0x00, 0x0c, 0xcc, 0xcc, 0xcc, 0x5e, 0x10, 0x8e, 0xe7, 0x84, 0xad, 0x00, 0x6a]
    ensures Llc(V1) == [0xaa, 0xaa, 0x03, 0x00, 0x00, 0x0c, 0x20, 0x00]
    ensures LE(0xf73a, 2) == [0x3a, 0xf7]
  {
    assert LE(0xf73a, 2) == [0x3a] + LE(0xf7, 1) && LE(0xf7, 1) == [0xf7] + LE(0, 0);
  }
}
