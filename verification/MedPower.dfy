/** Choice of the reference port for LLDP-MED power (agent_h_local_med_power() of
    src/daemon/agent.c). */
module MedPower {
  import opened Bytes

  datatype DeviceType = Pse | Pd | Other

  /** How many of the first n ports have the given type. */
  function Count(ports: seq<DeviceType>, n: nat, d: DeviceType): nat
    requires n <= |ports|
  {
    if n == 0 then 0 else Count(ports, n - 1, d) + if ports[n - 1] == d then 1 else 0
  }

  /** The other of the two types that are counted. */
  function Opposite(d: DeviceType): DeviceType
  {
    match d
    case Pse => Pd
    case Pd => Pse
    case Other => Other
  }

  /** Port k gave its type the lead, and the other type has not taken it since. */
  ghost predicate Leads(ports: seq<DeviceType>, n: nat, k: nat)
    requires n <= |ports|
  {
    && k < n && ports[k] != Other
    && Count(ports, k + 1, ports[k]) == Count(ports, k + 1, Opposite(ports[k])) + 1
    && forall i :: k < i <= n ==> Count(ports, i, ports[k]) >= Count(ports, i, Opposite(ports[k]))
  }

  lemma {:induction false} CountNext(ports: seq<DeviceType>, n: nat)
    requires n < |ports|
    ensures Count(ports, n + 1, Pse) == Count(ports, n, Pse) + if ports[n] == Pse then 1 else 0
    ensures Count(ports, n + 1, Pd) == Count(ports, n, Pd) + if ports[n] == Pd then 1 else 0
  {
  }

  lemma {:induction false} CountZero(ports: seq<DeviceType>)
    ensures Count(ports, 0, Pse) == 0 && Count(ports, 0, Pd) == 0
  {
  }

  lemma {:induction false} LeadsOn(ports: seq<DeviceType>, n: nat, k: nat)
    requires n < |ports| && Leads(ports, n, k)
    requires Count(ports, n + 1, ports[k]) >= Count(ports, n + 1, Opposite(ports[k]))
    ensures Leads(ports, n + 1, k)
  {
  }

  lemma {:induction false} LeadsStart(ports: seq<DeviceType>, n: nat)
    requires n < |ports| && ports[n] != Other
    requires Count(ports, n, ports[n]) == Count(ports, n, Opposite(ports[n]))
    ensures Leads(ports, n + 1, n)
  {
  }

  lemma {:induction false} LeadsNow(ports: seq<DeviceType>, n: nat, k: nat)
    requires n <= |ports| && Leads(ports, n, k)
    ensures k < n && ports[k] != Other && Count(ports, n, ports[k]) >= Count(ports, n, Opposite(ports[k]))
  {
  }

  /** One pass with one counter picks a port of the majority type whenever the two
      types differ in number, and none only if no port has either type. */
  method Reference(ports: seq<DeviceType>) returns (power: Option<nat>)
    ensures power.Some? ==> power.value < |ports| && Leads(ports, |ports|, power.value)
    ensures power.Some? && Count(ports, |ports|, Pse) > Count(ports, |ports|, Pd) ==> ports[power.value] == Pse
    ensures power.Some? && Count(ports, |ports|, Pse) < Count(ports, |ports|, Pd) ==> ports[power.value] == Pd
    ensures power.None? <==> forall i :: 0 <= i < |ports| ==> ports[i] == Other
  {
    hide Leads, Count;
    CountZero(ports);
    var pse := 0;
    power := None;
    var n := 0;
    while n < |ports|
      invariant n <= |ports| && pse == Count(ports, n, Pse) - Count(ports, n, Pd)
      invariant power.Some? ==> power.value < n && Leads(ports, n, power.value)
      invariant power.None? ==> pse == 0 && forall i :: 0 <= i < n ==> ports[i] == Other
    {
      ghost var before := power;
      CountNext(ports, n);
      if power.Some? {
        LeadsNow(ports, n, power.value);
      }
      if ports[n] == Pse {
        pse := pse + 1;
        if pse == 1 {
          LeadsStart(ports, n);
          power := Some(n);
        }
      } else if ports[n] == Pd {
        pse := pse - 1;
        if pse == -1 {
          LeadsStart(ports, n);
          power := Some(n);
        }
      }
      if power.Some? && power == before {
        LeadsOn(ports, n, power.value);
      }
      n := n + 1;
    }
    if power.Some? {
      LeadsNow(ports, n, power.value);
    }
  }
}
