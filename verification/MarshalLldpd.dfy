/** The descriptors of src/lldpd-structs.h, with 64-bit pointers, 802.1, 802.3 and
    LLDP-MED extensions enabled and OVSDB disabled. */
module MarshalLldpd {
  import opened Marshal
  import opened MarshalHeap

  const STRING := 0
  const FSTRING := 1
  const PPVID := 2
  const VLAN := 3
  const PI := 4
  const MED_POLICY := 5
  const MED_LOC := 6
  const MED_POWER := 7
  const DOT3_POWER := 8
  const MGMT := 9
  const CHASSIS := 10
  const PORT := 11
  const PORT_SET := 12
  const CONFIG := 13
  const HARDWARE := 14
  const INTERFACE := 15
  const INTERFACE_LIST := 16
  const NEIGHBOR_CHANGE := 17

  // The kinds of fields the descriptor macros declare.

  function Ptr(at: nat, mi: nat): Field { Field(at, 0, Pointer, mi) }

  function Str(at: nat): Field { Field(at, 0, Pointer, STRING) }

  function FStr(at: nat, len: nat): Field { Field(at, len, Pointer, FSTRING) }

  function Sub(at: nat, mi: nat): Field { Field(at, 0, Substruct, mi) }

  function Skip(at: nat): Field { Field(at, 0, Ignore, 0) }

  const PPVID_FIELDS: seq<Field> := [Ptr(0, PPVID), Skip(8)]
  const VLAN_FIELDS: seq<Field> := [Ptr(0, VLAN), Skip(8), Str(16)]
  const PI_FIELDS: seq<Field> := [Ptr(0, PI), Skip(8), FStr(16, 24)]
  const MED_LOC_FIELDS: seq<Field> := [FStr(8, 16)]
  const MGMT_FIELDS: seq<Field> := [Ptr(0, MGMT), Skip(8)]
  const CHASSIS_FIELDS: seq<Field> := [
    Skip(0), Skip(8), FStr(24, 32), Str(40), Str(48), Ptr(64, MGMT), Skip(72),
    Str(88), Str(96), Str(104), Str(112), Str(120), Str(128), Str(136)]
  const PORT_FIELDS: seq<Field> := [
    Ptr(0, PORT), Skip(8), Ptr(16, CHASSIS), Skip(40), FStr(56, 64), Str(72),
    Sub(176, MED_LOC), Sub(200, MED_LOC), Sub(224, MED_LOC),
    Ptr(256, VLAN), Skip(264), Ptr(272, PPVID), Skip(280), Ptr(288, PI), Skip(296)]
  const PORT_SET_FIELDS: seq<Field> :=
    [Str(0), Ptr(8, MED_POLICY), Ptr(16, MED_LOC), Ptr(24, MED_POWER), Ptr(32, DOT3_POWER)]
  const CONFIG_FIELDS: seq<Field> := [Str(24), Str(32), Str(40), Str(64), Str(48), Str(56)]
  const HARDWARE_FIELDS: seq<Field> :=
    [Skip(0), Skip(8), Skip(40), Skip(48), Skip(16), Sub(184, PORT), Ptr(488, PORT), Skip(496)]
  const INTERFACE_FIELDS: seq<Field> := [Ptr(0, INTERFACE), Skip(8), Str(16)]
  const INTERFACE_LIST_FIELDS: seq<Field> := [Ptr(0, INTERFACE), Skip(8)]
  const NEIGHBOR_CHANGE_FIELDS: seq<Field> := [Str(0), Ptr(16, PORT)]

  const TABLE: Table := [
    NullString,
    FixedString,
    Struct(24, PPVID_FIELDS),
    Struct(32, VLAN_FIELDS),
    Struct(32, PI_FIELDS),
    Struct(8, []),
    Struct(24, MED_LOC_FIELDS),
    Struct(6, []),
    Struct(14, []),
    Struct(56, MGMT_FIELDS),
    Struct(144, CHASSIS_FIELDS),
    Struct(304, PORT_FIELDS),
    Struct(40, PORT_SET_FIELDS),
    Struct(112, CONFIG_FIELDS),
    Struct(512, HARDWARE_FIELDS),
    Struct(24, INTERFACE_FIELDS),
    Struct(16, INTERFACE_LIST_FIELDS),
    Struct(24, NEIGHBOR_CHANGE_FIELDS)
  ]

  // ---------- Layout ----------

  /** One row of a table is fit for marshalling. */
  predicate GoodRow(T: Table, size: nat, fs: seq<Field>)
  {
    && (forall i :: 0 <= i < |fs| ==> Fits(T, size, fs[i]))
    && (forall i, j :: 0 <= i < |fs| && 0 <= j < |fs| && i != j ==> Clear(T, fs[i], fs[j]))
  }

  /** Where field f, and the length after it if it has one, end. */
  function EndOf(T: Table, f: Field): nat
  {
    if f.offset2 > 0 then f.offset2 + INT else f.offset + Extent(T, f)
  }

  /** Fields in the order of the structure. */
  predicate InOrder(T: Table, fs: seq<Field>)
  {
    forall i :: 0 <= i < |fs| ==>
      && (fs[i].offset2 > 0 ==> fs[i].offset + Extent(T, fs[i]) <= fs[i].offset2)
      && (i + 1 < |fs| ==> EndOf(T, fs[i]) <= fs[i + 1].offset)
  }

  lemma {:induction false} LaterStarts(T: Table, fs: seq<Field>, i: nat, j: nat)
    requires InOrder(T, fs) && i < j < |fs|
    ensures EndOf(T, fs[i]) <= fs[j].offset && fs[i].offset + Extent(T, fs[i]) <= EndOf(T, fs[i])
    decreases j - i
  {
    hide Extent;
    if i + 1 < j {
      LaterStarts(T, fs, i + 1, j);
      assert fs[i + 1].offset <= EndOf(T, fs[i + 1]);
    }
  }

  /** Then no two of them overlap. */
  lemma {:induction false} OrderedRow(T: Table, size: nat, fs: seq<Field>)
    requires InOrder(T, fs) && forall i :: 0 <= i < |fs| ==> Fits(T, size, fs[i])
    ensures GoodRow(T, size, fs)
  {
    hide InOrder, Fits, Extent;
    forall i, j | 0 <= i < |fs| && 0 <= j < |fs| && i != j ensures Clear(T, fs[i], fs[j]) {
      if i < j {
        LaterStarts(T, fs, i, j);
      } else {
        LaterStarts(T, fs, j, i);
        AfterLength(T, fs, i);
      }
    }
  }

  /** The order in which a descriptor lists the fields does not matter. */
  lemma {:induction false} Reordered(T: Table, size: nat, fs: seq<Field>, inOrder: seq<Field>, place: seq<nat>)
    requires GoodRow(T, size, inOrder) && |place| == |fs|
    requires forall i :: 0 <= i < |fs| ==> place[i] < |inOrder| && fs[i] == inOrder[place[i]]
    requires forall i, j :: 0 <= i < j < |fs| ==> place[i] != place[j]
    ensures GoodRow(T, size, fs)
  {
    hide Fits, Clear;
  }

  lemma {:induction false} AfterLength(T: Table, fs: seq<Field>, i: nat)
    requires InOrder(T, fs) && i < |fs|
    ensures fs[i].offset2 > 0 ==> fs[i].offset <= fs[i].offset2
  {
  }

  lemma {:induction false} GoodRows(T: Table)
    requires forall m :: 0 <= m < |T| ==> GoodRow(T, Size(T[m]), FieldsOf(T, m))
    ensures GoodTable(T)
  {
    hide Fits, Clear;
  }

  /** What the fields of the table refer to. */
  predicate Links(T: Table)
  {
    && |T| == 18 && T[STRING].NullString? && T[FSTRING].FixedString? && (forall m :: 2 <= m < 18 ==> T[m].Struct?)
    && T[MED_LOC].bytes == 24 && T[PORT].bytes == 304
  }

  // ---------- Rows ----------

  lemma {:induction false} PpvidRow(T: Table)
    requires Links(T)
    ensures GoodRow(T, 24, PPVID_FIELDS)
  {
    OrderedRow(T, 24, PPVID_FIELDS);
  }

  lemma {:induction false} VlanRow(T: Table)
    requires Links(T)
    ensures GoodRow(T, 32, VLAN_FIELDS)
  {
    OrderedRow(T, 32, VLAN_FIELDS);
  }

  lemma {:induction false} PiRow(T: Table)
    requires Links(T)
    ensures GoodRow(T, 32, PI_FIELDS)
  {
    OrderedRow(T, 32, PI_FIELDS);
  }

  lemma {:induction false} MedLocRow(T: Table)
    requires Links(T)
    ensures GoodRow(T, 24, MED_LOC_FIELDS)
  {
    OrderedRow(T, 24, MED_LOC_FIELDS);
  }

  lemma {:induction false} MgmtRow(T: Table)
    requires Links(T)
    ensures GoodRow(T, 56, MGMT_FIELDS)
  {
    OrderedRow(T, 56, MGMT_FIELDS);
  }

  lemma {:induction false} ChassisRow(T: Table)
    requires Links(T)
    ensures GoodRow(T, 144, CHASSIS_FIELDS)
  {
    OrderedRow(T, 144, CHASSIS_FIELDS);
  }

  lemma {:induction false} PortRow(T: Table)
    requires Links(T)
    ensures GoodRow(T, 304, PORT_FIELDS)
  {
    OrderedRow(T, 304, PORT_FIELDS);
  }

  lemma {:induction false} PortSetRow(T: Table)
    requires Links(T)
    ensures GoodRow(T, 40, PORT_SET_FIELDS)
  {
    OrderedRow(T, 40, PORT_SET_FIELDS);
  }

  lemma {:induction false} ConfigRow(T: Table)
    requires Links(T)
    ensures GoodRow(T, 112, CONFIG_FIELDS)
  {
    var inOrder := [Str(24), Str(32), Str(40), Str(48), Str(56), Str(64)];
    OrderedRow(T, 112, inOrder);
    Reordered(T, 112, CONFIG_FIELDS, inOrder, [0, 1, 2, 5, 3, 4]);
  }

  lemma {:induction false} HardwareRow(T: Table)
    requires Links(T)
    ensures GoodRow(T, 512, HARDWARE_FIELDS)
  {
    var inOrder := [Skip(0), Skip(8), Skip(16), Skip(40), Skip(48), Sub(184, PORT), Ptr(488, PORT), Skip(496)];
    OrderedRow(T, 512, inOrder);
    Reordered(T, 512, HARDWARE_FIELDS, inOrder, [0, 1, 3, 4, 2, 5, 6, 7]);
  }

  lemma {:induction false} InterfaceRow(T: Table)
    requires Links(T)
    ensures GoodRow(T, 24, INTERFACE_FIELDS)
  {
    OrderedRow(T, 24, INTERFACE_FIELDS);
  }

  lemma {:induction false} InterfaceListRow(T: Table)
    requires Links(T)
    ensures GoodRow(T, 16, INTERFACE_LIST_FIELDS)
  {
    OrderedRow(T, 16, INTERFACE_LIST_FIELDS);
  }

  lemma {:induction false} NeighborChangeRow(T: Table)
    requires Links(T)
    ensures GoodRow(T, 24, NEIGHBOR_CHANGE_FIELDS)
  {
    OrderedRow(T, 24, NEIGHBOR_CHANGE_FIELDS);
  }

  lemma {:induction false} TableLinks()
    ensures Links(TABLE)
  {
  }

  lemma {:induction false} RowGood(m: nat)
    requires m < |TABLE|
    ensures GoodRow(TABLE, Size(TABLE[m]), FieldsOf(TABLE, m))
  {
    hide GoodRow, Links;
    TableLinks();
    if m <= FSTRING || m in {MED_POLICY, MED_POWER, DOT3_POWER} {
      NoFields(TABLE, Size(TABLE[m]));
    }
    if m == PPVID { PpvidRow(TABLE); }
    if m == VLAN { VlanRow(TABLE); }
    if m == PI { PiRow(TABLE); }
    if m == MED_LOC { MedLocRow(TABLE); }
    if m == MGMT { MgmtRow(TABLE); }
    if m == CHASSIS { ChassisRow(TABLE); }
    if m == PORT { PortRow(TABLE); }
    if m == PORT_SET { PortSetRow(TABLE); }
    if m == CONFIG { ConfigRow(TABLE); }
    if m == HARDWARE { HardwareRow(TABLE); }
    if m == INTERFACE { InterfaceRow(TABLE); }
    if m == INTERFACE_LIST { InterfaceListRow(TABLE); }
    if m == NEIGHBOR_CHANGE { NeighborChangeRow(TABLE); }
  }

  lemma {:induction false} NoFields(T: Table, size: nat)
    ensures GoodRow(T, size, [])
  {
  }

  /** The descriptors of lldpd meet what the theorems ask of a table: no substructure
      at offset 0, no two fields that overlap, lengths outside the fields. */
  lemma {:induction false} DescriptorsGood()
    ensures GoodTable(TABLE)
  {
    hide GoodRow, GoodTable;
    forall m: nat | m < |TABLE| ensures GoodRow(TABLE, Size(TABLE[m]), FieldsOf(TABLE, m)) {
      RowGood(m);
    }
    GoodRows(TABLE);
  }
}
