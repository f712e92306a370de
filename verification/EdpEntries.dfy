/** What a received EDP frame does to each neighbour and each chassis, told from their
    fields. */
module EdpEntries {
  import opened Bytes
  import opened Edp
  import opened EdpNeighbors
  import opened EdpStore

  /** Entry k was learnt with EDP, from a chassis with this MAC address. */
  predicate From(n: Neighbors, k: nat, id: seq<byte>)
  {
    k < |n.ports| && n.ports[k].edp && n.ports[k].chassis < |n.chassis| &&
      var c := n.chassis[n.ports[k].chassis];
      c.mac && c.id == id
  }

  /** The first one. */
  predicate FirstFrom(n: Neighbors, k: nat, id: seq<byte>)
  {
    From(n, k, id) && forall j :: 0 <= j < k ==> !From(n, j, id)
  }

  // ---------- VLAN frames ----------

  /** The addresses at these positions. */
  function At(s: seq<seq<byte>>, at: seq<nat>): (r: seq<seq<byte>>)
    requires forall k :: 0 <= k < |at| ==> at[k] < |s|
    ensures |r| == |at|
  {
    seq(|at|, k requires 0 <= k < |at| => s[at[k]])
  }

  /** The addresses of a frame that are kept: in order, those that do not come again. */
  lemma {:induction false} AddressesKept(s: seq<seq<byte>>, i: nat) returns (at: seq<nat>)
    requires i <= |s|
    ensures (forall k :: 0 <= k < |at| ==> i <= at[k] < |s|) && forall j, k :: 0 <= j < k < |at| ==> at[j] < at[k]
    ensures LastOnes(s, i) == At(s, at)
    ensures forall j: nat :: j in at <==> i <= j < |s| && s[j] !in s[j + 1..]
    decreases |s| - i
  {
    hide At, LastOnes;
    LastOnesStep(s, i);
    if i == |s| {
      at := [];
      assert At(s, at) == [];
    } else {
      at := AddressesKept(s, i + 1);
      if s[i] !in s[i + 1..] {
        AtFirst(s, i, at);
        at := [i] + at;
      }
    }
  }

  lemma {:induction false} LastOnesStep(s: seq<seq<byte>>, i: nat)
    ensures LastOnes(s, i) == if i >= |s| then [] else if s[i] in s[i + 1..] then LastOnes(s, i + 1)
      else [s[i]] + LastOnes(s, i + 1)
  {
  }

  lemma {:induction false} AtFirst(s: seq<seq<byte>>, i: nat, at: seq<nat>)
    requires i < |s| && forall k :: 0 <= k < |at| ==> at[k] < |s|
    ensures At(s, [i] + at) == [s[i]] + At(s, at)
  {
  }

  lemma {:induction false} FromIs(n: Neighbors, k: nat, id: seq<byte>)
    requires k < |n.ports|
    ensures Matches(n, k, id) <==> From(n, k, id)
  {
  }

  /** The first entry from this chassis has got the VLANs, any other one from it has lost its
      own, and the rest of the entries are as they were; the addresses have gone to the
      chassis of the first. */
  ghost predicate Given(n: Neighbors, id: seq<byte>, vlans: seq<Vlan>, mgmt: seq<seq<byte>>, r: Neighbors)
  {
    && |r.ports| == |n.ports| && |r.chassis| == |n.chassis|
    && (forall k: nat :: k < |n.ports| ==>
          r.ports[k] == if FirstFrom(n, k, id) then n.ports[k].(vlans := vlans)
                        else if From(n, k, id) then n.ports[k].(vlans := []) else n.ports[k])
    && (forall c: nat :: c < |n.chassis| ==>
          r.chassis[c] == if exists k: nat :: FirstFrom(n, k, id) && n.ports[k].chassis == c
                          then n.chassis[c].(mgmt := n.chassis[c].mgmt + LastOnes(mgmt)) else n.chassis[c])
  }

  /** What a VLAN frame does. */
  lemma {:induction false} VlanFrameMeans(n: Neighbors, frame: seq<byte>)
    requires Decode(frame).MoreVlans?
    ensures var o := Decode(frame);
      Given(n, o.id, o.vlans, o.mgmt, After(n, frame))
  {
    hide Decode, Attach, LastOnes, Given;
    var o := Decode(frame);
    AttachGives(n, o.id, o.vlans, o.mgmt);
  }

  lemma {:induction false} AttachGives(n: Neighbors, id: seq<byte>, vlans: seq<Vlan>, mgmt: seq<seq<byte>>)
    ensures Given(n, id, vlans, mgmt, Attach(n, 0, id, vlans, mgmt))
  {
    hide Attach, LastOnes;
    AttachIs(n, 0, id, vlans, mgmt);
    forall k: nat | k < |n.ports| ensures Matches(n, k, id) <==> From(n, k, id) {
      FromIs(n, k, id);
    }
    var f := First(n, 0, id);
    if f < |n.ports| {
      MatchesChassis(n, f, id);
    }
    hide Matches, From;
    forall k: nat ensures FirstFrom(n, k, id) <==> k == f && f < |n.ports| {
      OnlyFirst(n, f, k, id);
    }
  }

  lemma {:induction false} OnlyFirst(n: Neighbors, f: nat, k: nat, id: seq<byte>)
    requires f <= |n.ports| && (f < |n.ports| ==> From(n, f, id)) && forall j: nat :: j < f ==> !From(n, j, id)
    ensures FirstFrom(n, k, id) <==> k == f && f < |n.ports|
  {
  }

  /** Any other frame leaves what is known alone, unless it describes a port. */
  lemma {:induction false} OtherFrame(n: Neighbors, frame: seq<byte>, limit: nat)
    requires Decode(frame).Malformed?
    ensures After(n, frame) == n && Learn(n, frame, limit) == n
  {
    hide Decode;
  }

  // ---------- Display frames ----------

  /** Entry k is for this port of that chassis. */
  predicate For(n: Neighbors, k: nat, id: seq<byte>, slot: nat, port: nat)
  {
    From(n, k, id) && n.ports[k].slot == slot && n.ports[k].port == port
  }

  predicate FirstFor(n: Neighbors, k: nat, id: seq<byte>, slot: nat, port: nat)
  {
    For(n, k, id, slot, port) && forall j :: 0 <= j < k ==> !For(n, j, id, slot, port)
  }

  /** The entries learnt with EDP. */
  function Learnt(s: seq<Known>, k: nat): set<nat>
    requires k <= |s|
  {
    set i: nat | i < k && s[i].edp
  }

  lemma {:induction false} CountIs(s: seq<Known>, k: nat)
    requires k <= |s|
    ensures Count(s, k) == |Learnt(s, k)|
  {
    if k == 0 {
      assert Learnt(s, 0) == {};
    } else {
      CountIs(s, k - 1);
      assert Learnt(s, k) == Learnt(s, k - 1) + if s[k - 1].edp then {k - 1} else {};
    }
  }

  /** Chassis c is the first learnt with EDP that has this MAC address. */
  predicate FirstSystem(n: Neighbors, c: nat, id: seq<byte>)
  {
    && c < |n.chassis| && n.chassis[c].edp && n.chassis[c].mac && n.chassis[c].id == id
    && forall d :: 0 <= d < c ==> !(n.chassis[d].edp && n.chassis[d].mac && n.chassis[d].id == id)
  }

  /** Where the chassis described goes: over that of the entry replaced, or the one of that
      system, or at the end. */
  ghost predicate Place(n: Neighbors, c: nat, id: seq<byte>, slot: nat, port: nat)
  {
    if exists k: nat :: FirstFor(n, k, id, slot, port)
    then exists k: nat :: FirstFor(n, k, id, slot, port) && n.ports[k].chassis == c
    else if exists d: nat :: FirstSystem(n, d, id) then FirstSystem(n, c, id)
    else c == |n.chassis|
  }

  /** The chassis described is at c, and no other chassis has changed. */
  ghost predicate ChassisPut(n: Neighbors, o: Outcome, c: nat, r: Neighbors)
    requires o.NewPort?
  {
    && |r.chassis| == (if c < |n.chassis| then |n.chassis| else |n.chassis| + 1)
    && c < |r.chassis| && r.chassis[c] == Chassis(true, true, o.id, o.mgmt)
    && forall d: nat :: d < |n.chassis| && d != c ==> r.chassis[d] == n.chassis[d]
  }

  /** There is an entry for the port described. */
  ghost predicate Met(n: Neighbors, o: Outcome)
    requires o.NewPort?
  {
    exists k: nat :: FirstFor(n, k, o.id, o.info.slot, o.info.port)
  }

  /** The entry for the port described is at the end; the one it had is not there any more,
      and the other entries are, as they were. */
  ghost predicate EntryPut(n: Neighbors, o: Outcome, c: nat, r: Neighbors)
    requires o.NewPort?
  {
    var entry := Known(true, c, o.info.slot, o.info.port, o.vlans);
    && (!Met(n, o) ==> r.ports == n.ports + [entry])
    && (forall k: nat :: k < |n.ports| && FirstFor(n, k, o.id, o.info.slot, o.info.port) ==>
          r.ports == n.ports[..k] + n.ports[k + 1..] + [entry])
  }

  /** What a display frame does: nothing if the port has no entry and the limit is reached. */
  lemma {:induction false} DisplayFrameMeans(n: Neighbors, frame: seq<byte>, limit: nat) returns (c: nat)
    requires Decode(frame).NewPort?
    ensures var o, r := Decode(frame), Learn(n, frame, limit);
      if !Met(n, o) && limit > 0 && |Learnt(n.ports, |n.ports|)| >= limit then r == n
      else Place(n, c, o.id, o.info.slot, o.info.port) && EntryPut(n, o, c, r) && ChassisPut(n, o, c, r)
  {
    hide Decode, After, FindPort, FindChassis, Store, Place, EntryPut, ChassisPut, Count, FirstFor;
    var o := Decode(frame);
    c := Home(n, o);
    CountIs(n.ports, |n.ports|);
    FoundFor(n, o);
    var f := FindPort(n, 0, o);
    assert f < |n.ports| ==> FirstFor(n, f, o.id, o.info.slot, o.info.port);
    StorePuts(n, o);
  }

  lemma {:induction false} StorePuts(n: Neighbors, o: Outcome)
    requires o.NewPort?
    ensures var c, r := Home(n, o), Store(n, o);
      Place(n, c, o.id, o.info.slot, o.info.port) && EntryPut(n, o, c, r) && ChassisPut(n, o, c, r)
  {
    hide FindPort, FindChassis, FirstFor, FirstSystem;
    FoundFor(n, o);
    FoundSystem(n, o);
    var f := FindPort(n, 0, o);
    if f < |n.ports| {
      assert FirstFor(n, f, o.id, o.info.slot, o.info.port);
    } else {
      var c := FindChassis(n.chassis, 0, o.id);
      assert c < |n.chassis| ==> FirstSystem(n, c, o.id);
    }
  }

  /** The entry found is the first for the port. */
  lemma {:induction false} FoundFor(n: Neighbors, o: Outcome)
    requires o.NewPort?
    ensures var f := FindPort(n, 0, o);
      forall k: nat :: FirstFor(n, k, o.id, o.info.slot, o.info.port) <==> k == f && f < |n.ports|
  {
    hide FindPort;
    var f := FindPort(n, 0, o);
    forall k: nat | k < |n.ports| ensures SamePort(n, k, o) <==> For(n, k, o.id, o.info.slot, o.info.port) {
      FromIs(n, k, o.id);
    }
    hide SamePort, For;
    forall k: nat ensures FirstFor(n, k, o.id, o.info.slot, o.info.port) <==> k == f && f < |n.ports| {
      assert For(n, k, o.id, o.info.slot, o.info.port) ==> k < |n.ports| by {
        ForEntry(n, k, o.id, o.info.slot, o.info.port);
      }
    }
  }

  lemma {:induction false} ForEntry(n: Neighbors, k: nat, id: seq<byte>, slot: nat, port: nat)
    ensures For(n, k, id, slot, port) ==> k < |n.ports|
  {
  }

  lemma {:induction false} FoundSystem(n: Neighbors, o: Outcome)
    requires o.NewPort?
    ensures var c := FindChassis(n.chassis, 0, o.id);
      forall d: nat :: FirstSystem(n, d, o.id) <==> d == c && c < |n.chassis|
  {
    hide FindChassis;
    var c := FindChassis(n.chassis, 0, o.id);
    forall d: nat ensures FirstSystem(n, d, o.id) <==> d == c && c < |n.chassis| {
      assert d < c ==> !SameSystem(n.chassis[d], o.id);
    }
  }
}
