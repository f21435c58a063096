/** Publishing container ports: duplicate checks, host port allocation on macOS, and the binding
    map sent to Docker on Linux. */
module Ports {
  import Bytes
  import opened Decimal
  import opened Options

  datatype Proto = Tcp | Udp | Sctp

  datatype ContainerPort = ContainerPort(proto: Proto, number: nat)

  /** A requested mapping; host port 0 asks for any free port. */
  datatype Mapping = Mapping(host: nat, port: ContainerPort)

  ghost predicate DistinctPorts(ms: seq<Mapping>) {
    forall i, j :: 0 <= i < j < |ms| ==> ms[i].port != ms[j].port
  }

  ghost predicate DistinctHosts(ms: seq<Mapping>) {
    forall i, j :: 0 <= i < j < |ms| ==> ms[i].host != ms[j].host
  }

  ghost predicate Maps(ms: seq<Mapping>, p: ContainerPort) {
    exists i :: 0 <= i < |ms| && ms[i].port == p
  }

  datatype DuplicateCheck = NoDuplicate | Duplicate(port: ContainerPort, previous: nat, host: nat)

  /** Refuses two mappings of one container port and names the first such pair. */
  method RejectDuplicateMappedPorts(ms: seq<Mapping>) returns (r: DuplicateCheck)
    ensures r.NoDuplicate? <==> DistinctPorts(ms)
    ensures r.Duplicate? ==>
              exists i, j :: 0 <= i < j < |ms|
                && ms[i] == Mapping(r.previous, r.port) && ms[j] == Mapping(r.host, r.port) && DistinctPorts(ms[..j])
  {
    hide DistinctPorts, Maps;
    var seen: map<ContainerPort, nat> := map[];
    NothingSeen(ms);
    for k := 0 to |ms|
      invariant DistinctPorts(ms[..k]) && SeenAre(seen, ms[..k])
    {
      var m := ms[k];
      assert ms[..k + 1] == ms[..k] + [m];
      SeenMore(seen, ms[..k], m);
      if m.port in seen {
        ghost var i :| 0 <= i < |ms[..k]| && ms[..k][i] == Mapping(seen[m.port], m.port);
        assert ms[i] == ms[..k][i];
        RepeatedNotDistinct(ms, i, k);
        return Duplicate(m.port, seen[m.port], m.host);
      }
      seen := seen[m.port := m.host];
    }
    assert ms[..|ms|] == ms;
    r := NoDuplicate;
  }

  lemma RepeatedNotDistinct(ms: seq<Mapping>, i: nat, j: nat)
    requires i < j < |ms| && ms[i].port == ms[j].port
    ensures !DistinctPorts(ms)
  {
  }

  /** `seen` maps every container port of `ms` to the host port it is mapped to, and no other. */
  ghost predicate SeenAre(seen: map<ContainerPort, nat>, ms: seq<Mapping>) {
    && (forall i :: 0 <= i < |ms| ==> ms[i].port in seen)
    && (forall p :: p in seen ==> exists i :: 0 <= i < |ms| && ms[i] == Mapping(seen[p], p))
  }

  lemma NothingSeen(ms: seq<Mapping>)
    ensures DistinctPorts(ms[..0]) && SeenAre(map[], ms[..0])
  {
  }

  lemma SeenMore(seen: map<ContainerPort, nat>, ms: seq<Mapping>, m: Mapping)
    requires SeenAre(seen, ms) && DistinctPorts(ms)
    ensures m.port in seen ==> exists i :: 0 <= i < |ms| && ms[i] == Mapping(seen[m.port], m.port)
    ensures m.port !in seen ==> DistinctPorts(ms + [m]) && SeenAre(seen[m.port := m.host], ms + [m])
  {
    var ms' := ms + [m];
    assert ms'[|ms|] == m;
    var seen' := seen[m.port := m.host];
    forall p | p in seen && p != m.port ensures exists i :: 0 <= i < |ms'| && ms'[i] == Mapping(seen'[p], p) {
      var i :| 0 <= i < |ms| && ms[i] == Mapping(seen[p], p);
      assert ms'[i] == ms[i];
    }
  }

  /* ---- macOS ---- */

  const MAX_TRIES: nat := 64

  /** The draw at which an allocation succeeds: the first of at most `tries` draws that is new. */
  function FirstNew(draws: nat -> Option<nat>, at: nat, taken: set<nat>, tries: nat): (r: Option<nat>)
    ensures r.Some? ==> at <= r.value < at + tries && draws(r.value).Some? && draws(r.value).value !in taken
    decreases tries
  {
    if tries == 0 then None
    else
      match draws(at)
      case None => None
      case Some(p) => if p !in taken then Some(at) else FirstNew(draws, at + 1, taken, tries - 1)
  }

  /** Draw `n` gives a port, but one that is taken. */
  ghost predicate Wasted(draws: nat -> Option<nat>, n: nat, taken: set<nat>) {
    draws(n).Some? && draws(n).value in taken
  }

  /** The successful draw is the first one that is not wasted, if it comes in time and works. */
  lemma {:induction false} FirstNewIsFirst(draws: nat -> Option<nat>, at: nat, taken: set<nat>, tries: nat, n: nat)
    ensures FirstNew(draws, at, taken, tries) == Some(n) <==>
              && at <= n < at + tries && draws(n).Some? && draws(n).value !in taken
              && forall j :: at <= j < n ==> Wasted(draws, j, taken)
    decreases tries
  {
    if tries > 0 && Wasted(draws, at, taken) {
      FirstNewIsFirst(draws, at + 1, taken, tries - 1, n);
    } else if n > at {
      assert tries > 0 ==> !Wasted(draws, at, taken);
    }
  }

  /** Draws free ports from the operating system until one is new; gives up after 64 draws or when
      a draw fails. */
  method AllocateUniqueFreeHostPort(draws: nat -> Option<nat>, at: nat, taken: set<nat>)
    returns (r: Option<nat>, next: nat, taken': set<nat>)
    ensures r == None <==> FirstNew(draws, at, taken, MAX_TRIES) == None
    ensures r == None ==> taken' == taken
    ensures r.Some? ==> at < next && FirstNew(draws, at, taken, MAX_TRIES) == Some(next - 1)
                        && r == draws(next - 1) && r.value !in taken && taken' == taken + {r.value}
  {
    next, taken' := at, taken;
    for k := 0 to MAX_TRIES
      invariant taken' == taken && next == at + k
      invariant FirstNew(draws, at, taken, MAX_TRIES) == FirstNew(draws, next, taken, MAX_TRIES - k)
    {
      var candidate := draws(next);
      next := next + 1;
      if candidate == None {
        return None, next, taken;
      }
      if candidate.value !in taken {
        return candidate, next, taken + {candidate.value};
      }
    }
    r := None;
  }

  /** The requests in order: each keeps its explicit host port, which must be new, or gets the
      next new draw. `next` counts the draws made. */
  datatype Allocation = Done(ports: seq<Mapping>, next: nat) | Clash | Dry

  function Hosts(ports: seq<Mapping>): set<nat> {
    set i | 0 <= i < |ports| :: ports[i].host
  }

  function Place(ports: seq<Mapping>, next: nat, m: Mapping, draws: nat -> Option<nat>): Allocation {
    if m.host != 0 then
      if m.host in Hosts(ports) then Clash else Done(ports + [m], next)
    else
      match FirstNew(draws, next, Hosts(ports), MAX_TRIES)
      case None => Dry
      case Some(at) => Done(ports + [Mapping(draws(at).value, m.port)], at + 1)
  }

  function Configure(requests: seq<Mapping>, draws: nat -> Option<nat>): Allocation {
    if requests == [] then Done([], 0)
    else
      var front := Configure(requests[..|requests| - 1], draws);
      if front.Done? then Place(front.ports, front.next, requests[|requests| - 1], draws) else front
  }

  /** The mapped ports and then every exposed port that is not there yet, asking for any host
      port. */
  function WithExposed(mapped: seq<Mapping>, exposed: seq<ContainerPort>): seq<Mapping> {
    if exposed == [] then mapped
    else
      var front, p := WithExposed(mapped, exposed[..|exposed| - 1]), exposed[|exposed| - 1];
      if exists i :: 0 <= i < |front| && front[i].port == p then front else front + [Mapping(0, p)]
  }

  ghost predicate DrawnBefore(draws: nat -> Option<nat>, next: nat, h: nat) {
    exists n :: 0 <= n < next && draws(n) == Some(h)
  }

  /** `ports` configures `requests`: the same container ports in order, explicit host ports kept
      and, in place of 0, ports that were drawn. */
  ghost predicate Keeps(ports: seq<Mapping>, requests: seq<Mapping>, draws: nat -> Option<nat>, next: nat) {
    && |ports| == |requests|
    && forall i :: 0 <= i < |requests| ==>
         && ports[i].port == requests[i].port
         && (if requests[i].host != 0 then ports[i].host == requests[i].host
             else DrawnBefore(draws, next, ports[i].host))
  }

  lemma {:induction false} ConfigureKeeps(requests: seq<Mapping>, draws: nat -> Option<nat>)
    ensures var c := Configure(requests, draws);
            c.Done? ==> Keeps(c.ports, requests, draws, c.next) && DistinctHosts(c.ports)
    decreases |requests|
  {
    if requests != [] && Configure(requests, draws).Done? {
      var k := |requests| - 1;
      ConfigureKeeps(requests[..k], draws);
      var front := Configure(requests[..k], draws);
      hide FirstNew, Hosts;
      HostsHave(front.ports);
      PlaceKeeps(front.ports, front.next, requests[..k], requests[k], draws);
      assert requests == requests[..k] + [requests[k]];
    }
  }

  lemma HostsHave(ports: seq<Mapping>)
    ensures forall i :: 0 <= i < |ports| ==> ports[i].host in Hosts(ports)
  {
  }

  lemma PlaceKeeps(ports: seq<Mapping>, next: nat, requests: seq<Mapping>, m: Mapping, draws: nat -> Option<nat>)
    requires Keeps(ports, requests, draws, next) && DistinctHosts(ports)
    ensures var c := Place(ports, next, m, draws);
            c.Done? ==> Keeps(c.ports, requests + [m], draws, c.next) && DistinctHosts(c.ports)
  {
    hide FirstNew;
    var c := Place(ports, next, m, draws);
    if c.Done? {
      HostsHave(ports);
      hide Hosts;
      forall i | 0 <= i < |ports| && requests[i].host == 0 ensures DrawnBefore(draws, c.next, ports[i].host) {
        assert DrawnBefore(draws, next, ports[i].host);
      }
    }
  }

  /** Request `k` asks for an explicit host port that an earlier request got, by asking for it or
      by a draw that was made. */
  ghost predicate ClashAt(requests: seq<Mapping>, draws: nat -> Option<nat>, k: nat) {
    && k < |requests| && requests[k].host != 0
    && var c := Configure(requests[..k], draws);
       c.Done? && requests[k].host in Hosts(c.ports)
  }

  /** Request `k` leaves the choice open, and of the next 64 draws none is new before one fails. */
  ghost predicate DryAt(requests: seq<Mapping>, draws: nat -> Option<nat>, k: nat) {
    && k < |requests| && requests[k].host == 0
    && var c := Configure(requests[..k], draws);
       c.Done? && FirstNew(draws, c.next, Hosts(c.ports), 64) == None
  }

  /** Each kind of failure happens exactly when some request has its cause. */
  lemma {:induction false} ConfigureFailsIff(requests: seq<Mapping>, draws: nat -> Option<nat>)
    ensures Configure(requests, draws).Clash? <==> exists k :: ClashAt(requests, draws, k)
    ensures Configure(requests, draws).Dry? <==> exists k :: DryAt(requests, draws, k)
    decreases |requests|
  {
    hide FirstNew, Hosts;
    if requests != [] {
      var n := |requests| - 1;
      var front := requests[..n];
      ConfigureFailsIff(front, draws);
      forall k | 0 <= k < n
        ensures ClashAt(requests, draws, k) <==> ClashAt(front, draws, k)
        ensures DryAt(requests, draws, k) <==> DryAt(front, draws, k)
      {
        assert front[..k] == requests[..k];
      }
      if k :| ClashAt(front, draws, k) {
        assert ClashAt(requests, draws, k);
      }
      if k :| DryAt(front, draws, k) {
        assert DryAt(requests, draws, k);
      }
      if Configure(front, draws).Done? {
        assert Configure(requests, draws).Clash? <==> ClashAt(requests, draws, n);
        assert Configure(requests, draws).Dry? <==> DryAt(requests, draws, n);
      }
    }
  }

  /** How each request is served: an explicit host port costs no draw; otherwise the draws are looked
      at in order from where the last request stopped, at most 64 of them, and the first port that
      no earlier request got is taken. */
  lemma {:induction false} ServedInOrder(requests: seq<Mapping>, draws: nat -> Option<nat>, k: nat)
    requires k < |requests| && Configure(requests, draws).Done?
    ensures Configure([], draws) == Done([], 0)
    ensures Configure(requests[..k], draws).Done? && Configure(requests[..k + 1], draws).Done?
    ensures var c, c' := Configure(requests[..k], draws), Configure(requests[..k + 1], draws);
            && |c'.ports| == |c.ports| + 1 && c'.ports[..|c.ports|] == c.ports
            && var m, at := c'.ports[|c.ports|], c'.next - 1;
               if requests[k].host != 0 then c'.next == c.next && m == requests[k]
               else
                 && c.next <= at < c.next + 64 && draws(at) == Some(m.host) && m.port == requests[k].port
                 && m.host !in Hosts(c.ports) && forall j :: c.next <= j < at ==> Wasted(draws, j, Hosts(c.ports))
    decreases |requests|
  {
    hide FirstNew, Place, Hosts, Wasted;
    var n := |requests| - 1;
    if k < n {
      ServedInOrder(requests[..n], draws, k);
      hide Configure;
      assert requests[..n][..k] == requests[..k] && requests[..n][..k + 1] == requests[..k + 1];
    } else {
      var c := Configure(requests[..k], draws);
      assert requests[..k + 1] == requests;
      assert Configure(requests, draws) == Place(c.ports, c.next, requests[k], draws);
      hide Configure;
      PlacedInOrder(c.ports, c.next, requests[k], draws);
    }
  }

  lemma PlacedInOrder(ports: seq<Mapping>, next: nat, m: Mapping, draws: nat -> Option<nat>)
    requires Place(ports, next, m, draws).Done?
    ensures var c' := Place(ports, next, m, draws);
            && |c'.ports| == |ports| + 1 && c'.ports[..|ports|] == ports
            && var q, at := c'.ports[|ports|], c'.next - 1;
               if m.host != 0 then c'.next == next && q == m
               else
                 && next <= at < next + 64 && draws(at) == Some(q.host) && q.port == m.port
                 && q.host !in Hosts(ports) && forall j :: next <= j < at ==> Wasted(draws, j, Hosts(ports))
  {
    if m.host == 0 {
      var at := FirstNew(draws, next, Hosts(ports), MAX_TRIES).value;
      FirstNewIsFirst(draws, next, Hosts(ports), MAX_TRIES, at);
    }
    hide FirstNew, Hosts;
  }

  /** With explicit host ports only, the draws play no part. */
  lemma {:induction false} ExplicitOnly(requests: seq<Mapping>, draws: nat -> Option<nat>)
    requires forall i :: 0 <= i < |requests| ==> requests[i].host != 0
    ensures Configure(requests, draws) == if DistinctHosts(requests) then Done(requests, 0) else Clash
    decreases |requests|
  {
    if requests != [] {
      var n := |requests| - 1;
      var front, m := requests[..n], requests[n];
      ExplicitOnly(front, draws);
      assert front + [m] == requests;
      HostsLast(front, m);
    }
  }

  lemma HostsLast(front: seq<Mapping>, m: Mapping)
    ensures DistinctHosts(front + [m]) <==> DistinctHosts(front) && m.host !in Hosts(front)
    ensures Hosts(front + [m]) == Hosts(front) + {m.host}
  {
    var all := front + [m];
    assert all[|front|] == m;
    assert forall i :: 0 <= i < |front| ==> all[i] == front[i];
    if m.host in Hosts(front) {
      var i :| 0 <= i < |front| && front[i].host == m.host;
      assert all[i].host == all[|front|].host;
    }
    forall h | h in Hosts(front) ensures h in Hosts(all) {
      var i :| 0 <= i < |front| && front[i].host == h;
      assert all[i].host == h;
    }
  }

  datatype PortsResult =
    | Configured(ports: seq<Mapping>)
    | SctpUnsupported | DuplicateContainerPort | DuplicateHostPort | NoFreePort

  predicate HasSctp(mapped: seq<Mapping>, exposed: seq<ContainerPort>) {
    || (exists i :: 0 <= i < |mapped| && mapped[i].port.proto == Sctp)
    || (exists i :: 0 <= i < |exposed| && exposed[i].proto == Sctp)
  }

  function ResultOf(c: Allocation): PortsResult {
    match c
    case Done(ports, _) => Configured(ports)
    case Clash => DuplicateHostPort
    case Dry => NoFreePort
  }

  /** The mapped ports, with host port 0 replaced by a fresh one. */
  method ConfigureMapped(mapped: seq<Mapping>, draws: nat -> Option<nat>)
    returns (r: PortsResult, next: nat, taken: set<nat>)
    ensures r == ResultOf(Configure(mapped, draws))
    ensures r.Configured? ==> Configure(mapped, draws) == Done(r.ports, next) && taken == Hosts(r.ports)
  {
    hide FirstNew;
    var ports: seq<Mapping> := [];
    next, taken := 0, {};
    for k := 0 to |mapped|
      invariant Configure(mapped[..k], draws) == Done(ports, next) && taken == Hosts(ports)
    {
      var m := mapped[k];
      var host := m.host;
      ConfigureFirst(mapped, k, draws);
      if m.host == 0 {
        var drawn;
        drawn, next, taken := AllocateUniqueFreeHostPort(draws, next, taken);
        if drawn == None {
          return NoFreePort, next, taken;
        }
        host := drawn.value;
      } else {
        if m.host in taken {
          return DuplicateHostPort, next, taken;
        }
        taken := taken + {m.host};
      }
      HostsLast(ports, Mapping(host, m.port));
      ports := ports + [Mapping(host, m.port)];
    }
    assert mapped[..|mapped|] == mapped;
    r := Configured(ports);
  }

  /** The requests up to and including number `k`; a failure among them is final. */
  lemma {:induction false} ConfigureFirst(requests: seq<Mapping>, k: nat, draws: nat -> Option<nat>)
    requires k < |requests|
    ensures var c := Configure(requests[..k], draws);
            && (c.Done? ==> Configure(requests[..k + 1], draws) == Place(c.ports, c.next, requests[k], draws))
            && (!Configure(requests[..k + 1], draws).Done? ==>
                  Configure(requests, draws) == Configure(requests[..k + 1], draws))
    decreases |requests|
  {
    hide Place;
    assert requests[..k + 1][..k] == requests[..k];
    if k + 1 == |requests| {
      assert requests[..k + 1] == requests;
    } else {
      var front := requests[..|requests| - 1];
      ConfigureFirst(front, k, draws);
      assert front[..k] == requests[..k] && front[..k + 1] == requests[..k + 1];
    }
  }

  /** The port section of the macOS container configuration: the mapped ports and then the exposed
      ones, configured in order. */
  method BuildPorts(mapped: seq<Mapping>, exposed: seq<ContainerPort>, draws: nat -> Option<nat>)
    returns (r: PortsResult)
    ensures r == if HasSctp(mapped, exposed) then SctpUnsupported
                 else if !DistinctPorts(mapped) then DuplicateContainerPort
                 else ResultOf(Configure(WithExposed(mapped, exposed), draws))
    ensures r.SctpUnsupported? <==>
              (exists m :: m in mapped && m.port.proto == Sctp) || (exists p :: p in exposed && p.proto == Sctp)
    ensures r.DuplicateContainerPort? <==> !r.SctpUnsupported? && !DistinctPorts(mapped)
    ensures r.DuplicateHostPort? ==> Configure(WithExposed(mapped, exposed), draws).Clash?
    ensures r.NoFreePort? ==> Configure(WithExposed(mapped, exposed), draws).Dry?
    ensures r.Configured? ==>
              var c := Configure(WithExposed(mapped, exposed), draws); c.Done? && r.ports == c.ports
  {
    hide FirstNew, Configure, Hosts, WithExposed;
    if HasSctp(mapped, exposed) {
      return SctpUnsupported;
    }
    var check := RejectDuplicateMappedPorts(mapped);
    if check.Duplicate? {
      return DuplicateContainerPort;
    }
    var next, taken;
    r, next, taken := ConfigureMapped(mapped, draws);
    NothingExposed(mapped, exposed);
    if !r.Configured? {
      FailureIsFinal(mapped, exposed, 0, draws);
      return;
    }
    var ports := r.ports;
    for k := 0 to |exposed|
      invariant Configure(WithExposed(mapped, exposed[..k]), draws) == Done(ports, next) && taken == Hosts(ports)
    {
      var p := exposed[k];
      ExposedStep(mapped, exposed, k, draws);
      if exists i :: 0 <= i < |ports| && ports[i].port == p {
        continue;
      }
      var drawn;
      drawn, next, taken := AllocateUniqueFreeHostPort(draws, next, taken);
      if drawn == None {
        FailureIsFinal(mapped, exposed, k + 1, draws);
        return NoFreePort;
      }
      HostsLast(ports, Mapping(drawn.value, p));
      ports := ports + [Mapping(drawn.value, p)];
    }
    assert exposed[..|exposed|] == exposed;
    r := Configured(ports);
  }

  lemma NothingExposed(mapped: seq<Mapping>, exposed: seq<ContainerPort>)
    ensures WithExposed(mapped, exposed[..0]) == mapped
  {
  }

  /** One exposed port: skipped if its container port is configured already, otherwise placed. */
  lemma ExposedStep(mapped: seq<Mapping>, exposed: seq<ContainerPort>, k: nat, draws: nat -> Option<nat>)
    requires k < |exposed| && Configure(WithExposed(mapped, exposed[..k]), draws).Done?
    ensures var c := Configure(WithExposed(mapped, exposed[..k]), draws);
            var c' := Configure(WithExposed(mapped, exposed[..k + 1]), draws);
            if exists i :: 0 <= i < |c.ports| && c.ports[i].port == exposed[k] then c' == c
            else c' == Place(c.ports, c.next, Mapping(0, exposed[k]), draws)
  {
    var before, p := WithExposed(mapped, exposed[..k]), exposed[k];
    assert exposed[..k + 1][..k] == exposed[..k];
    ConfigureKeeps(before, draws);
    assert (before + [Mapping(0, p)])[..|before|] == before;
    hide Place;
    SamePortFound(Configure(before, draws).ports, before, p);
  }

  lemma SamePortFound(ports: seq<Mapping>, requests: seq<Mapping>, p: ContainerPort)
    requires |ports| == |requests| && forall i :: 0 <= i < |requests| ==> ports[i].port == requests[i].port
    ensures (exists i :: 0 <= i < |ports| && ports[i].port == p)
       <==> (exists i :: 0 <= i < |requests| && requests[i].port == p)
  {
    if i :| 0 <= i < |ports| && ports[i].port == p {
      assert requests[i].port == p;
    }
    if i :| 0 <= i < |requests| && requests[i].port == p {
      assert ports[i].port == p;
    }
  }

  lemma {:induction false} FailureIsFinal(mapped: seq<Mapping>, exposed: seq<ContainerPort>, k: nat,
                                          draws: nat -> Option<nat>)
    requires k <= |exposed| && !Configure(WithExposed(mapped, exposed[..k]), draws).Done?
    ensures Configure(WithExposed(mapped, exposed), draws) == Configure(WithExposed(mapped, exposed[..k]), draws)
    decreases |exposed|
  {
    if k == |exposed| {
      assert exposed[..k] == exposed;
    } else {
      var front, p := exposed[..|exposed| - 1], exposed[|exposed| - 1];
      assert front[..k] == exposed[..k];
      FailureIsFinal(mapped, front, k, draws);
      var before := WithExposed(mapped, front);
      assert (before + [Mapping(0, p)])[..|before|] == before;
    }
  }

  /** Distinct ports that are exactly the mapped ones and the exposed ones. */
  ghost predicate Merged(ports: seq<Mapping>, mapped: seq<Mapping>, exposed: seq<ContainerPort>) {
    DistinctPorts(ports) && forall p :: Maps(ports, p) <==> Maps(mapped, p) || p in exposed
  }

  /** On success host ports are pairwise distinct, container ports are pairwise distinct, exactly
      the mapped and the exposed ports are there, explicit host ports were kept and every other
      one was drawn. */
  lemma BuiltPorts(mapped: seq<Mapping>, exposed: seq<ContainerPort>, draws: nat -> Option<nat>)
    requires DistinctPorts(mapped)
    ensures var c := Configure(WithExposed(mapped, exposed), draws);
            c.Done? ==>
              && DistinctHosts(c.ports) && Merged(c.ports, mapped, exposed)
              && |mapped| <= |c.ports| && Keeps(c.ports[..|mapped|], mapped, draws, c.next)
              && forall i :: |mapped| <= i < |c.ports| ==> DrawnBefore(draws, c.next, c.ports[i].host)
  {
    var requests := WithExposed(mapped, exposed);
    var c := Configure(requests, draws);
    ConfigureKeeps(requests, draws);
    WithExposedMerges(mapped, exposed);
    hide Configure, WithExposed;
    if c.Done? {
      SamePorts(c.ports, requests, mapped, exposed);
    }
  }

  lemma SamePorts(ports: seq<Mapping>, requests: seq<Mapping>, mapped: seq<Mapping>, exposed: seq<ContainerPort>)
    requires |ports| == |requests| && forall i :: 0 <= i < |requests| ==> ports[i].port == requests[i].port
    requires Merged(requests, mapped, exposed)
    ensures Merged(ports, mapped, exposed)
  {
    forall p ensures Maps(ports, p) <==> Maps(requests, p) {
      if Maps(ports, p) {
        var i :| 0 <= i < |ports| && ports[i].port == p;
        assert requests[i].port == p;
      }
      if Maps(requests, p) {
        var i :| 0 <= i < |requests| && requests[i].port == p;
        assert ports[i].port == p;
      }
    }
  }

  /** The requests: the mapped ports first, then exposed ports with host port 0, each container
      port once. */
  lemma {:induction false} WithExposedMerges(mapped: seq<Mapping>, exposed: seq<ContainerPort>)
    requires DistinctPorts(mapped)
    ensures var requests := WithExposed(mapped, exposed);
            && Merged(requests, mapped, exposed) && mapped <= requests
            && forall i :: |mapped| <= i < |requests| ==> requests[i].host == 0
    decreases |exposed|
  {
    if exposed != [] {
      var front, p := exposed[..|exposed| - 1], exposed[|exposed| - 1];
      WithExposedMerges(mapped, front);
      var before := WithExposed(mapped, front);
      assert exposed == front + [p];
      if Maps(before, p) {
        MergedAlready(before, mapped, front, p);
      } else {
        MergedMore(before, mapped, front, Mapping(0, p));
      }
    }
  }

  lemma MergedAlready(ports: seq<Mapping>, mapped: seq<Mapping>, exposed: seq<ContainerPort>, p: ContainerPort)
    requires Merged(ports, mapped, exposed) && Maps(ports, p)
    ensures Merged(ports, mapped, exposed + [p])
  {
  }

  lemma MergedMore(ports: seq<Mapping>, mapped: seq<Mapping>, exposed: seq<ContainerPort>, m: Mapping)
    requires Merged(ports, mapped, exposed) && !Maps(ports, m.port)
    ensures Merged(ports + [m], mapped, exposed + [m.port])
  {
    var ports' := ports + [m];
    forall p ensures Maps(ports', p) <==> Maps(ports, p) || p == m.port {
      assert ports'[|ports|] == m;
      if Maps(ports, p) {
        var i :| 0 <= i < |ports| && ports[i].port == p;
        assert ports'[i].port == p;
      }
    }
    assert forall i :: 0 <= i < |ports| ==> ports[i].port != m.port;
  }

  /* ---- Linux ---- */

  /** Exposed ports without a mapping are added with host port 0. */
  method MergeExposed(mapped: seq<Mapping>, exposed: seq<ContainerPort>) returns (ports: seq<Mapping>)
    requires DistinctPorts(mapped)
    ensures ports == WithExposed(mapped, exposed)
    ensures Merged(ports, mapped, exposed) && mapped <= ports
    ensures forall i :: |mapped| <= i < |ports| ==> ports[i].host == 0
  {
    ports := mapped;
    for k := 0 to |exposed|
      invariant ports == WithExposed(mapped, exposed[..k])
    {
      var p := exposed[k];
      assert exposed[..k + 1][..k] == exposed[..k];
      if exists i :: 0 <= i < |ports| && ports[i].port == p {
        continue;
      }
      ports := ports + [Mapping(0, p)];
    }
    assert exposed[..|exposed|] == exposed;
    WithExposedMerges(mapped, exposed);
  }

  function ProtoText(p: Proto): string {
    match p case Tcp => "tcp" case Udp => "udp" case Sctp => "sctp"
  }

  /** `{number}/{protocol}` */
  function Key(p: ContainerPort): string {
    Text(p.number) + "/" + ProtoText(p.proto)
  }

  /** The keys in full. */
  lemma KeyIs(p: ContainerPort)
    ensures p.proto.Tcp? ==> Key(p) == Text(p.number) + "/tcp"
    ensures p.proto.Udp? ==> Key(p) == Text(p.number) + "/udp"
    ensures p.proto.Sctp? ==> Key(p) == Text(p.number) + "/sctp"
    ensures (forall i :: 0 <= i < |Text(p.number)| ==> 48 <= Text(p.number)[i] as int <= 57)
            && NumberOf(Text(p.number)) == p.number
  {
    TextReadsBack(p.number);
    hide Text, NumberOf;
    Bytes.Assoc(Text(p.number), "/", ProtoText(p.proto));
    assert "/" + "tcp" == "/tcp" && "/" + "udp" == "/udp" && "/" + "sctp" == "/sctp";
  }

  lemma SlashSeparates(a: string, b: string, x: string, y: string)
    requires '/' !in a && '/' !in b && a + "/" + x == b + "/" + y
    ensures a == b && x == y
  {
    var s := a + "/" + x;
    assert s[|a|] == '/' && s[|b|] == '/';
    assert forall i :: 0 <= i < |a| ==> s[i] == a[i] && s[i] != '/';
    assert forall i :: 0 <= i < |b| ==> s[i] == b[i] && s[i] != '/';
    assert |a| == |b|;
    assert a == s[..|a|] == b && x == s[|a| + 1..] == y;
  }

  lemma KeyIsInjective(p: ContainerPort, q: ContainerPort)
    requires Key(p) == Key(q)
    ensures p == q
  {
    SlashSeparates(Text(p.number), Text(q.number), ProtoText(p.proto), ProtoText(q.proto));
    TextIsInjective(p.number, q.number);
    assert |"tcp"| == 3 && "tcp"[0] == 't' && "udp"[0] == 'u' && |"sctp"| == 4;
  }

  /** The binding map after inserting the mappings one by one; a later one replaces an earlier
      one under the same key. */
  function Bindings(ms: seq<Mapping>): map<string, string> {
    if ms == [] then map[]
    else Bindings(ms[..|ms| - 1])[Key(ms[|ms| - 1].port) := Text(ms[|ms| - 1].host)]
  }

  method BuildPortBindings(ms: seq<Mapping>) returns (bindings: map<string, string>)
    ensures bindings == Bindings(ms)
  {
    bindings := map[];
    for k := 0 to |ms|
      invariant bindings == Bindings(ms[..k])
    {
      assert ms[..k + 1][..k] == ms[..k];
      bindings := bindings[Key(ms[k].port) := Text(ms[k].host)];
    }
    assert ms[..|ms|] == ms;
  }

  lemma {:induction false} BindingsKeys(ms: seq<Mapping>, p: ContainerPort)
    ensures Key(p) in Bindings(ms) <==> Maps(ms, p)
  {
    if ms != [] {
      var front, last := ms[..|ms| - 1], ms[|ms| - 1];
      BindingsKeys(front, p);
      if Key(p) == Key(last.port) {
        KeyIsInjective(p, last.port);
      }
      MapsLast(ms, p);
    }
  }

  lemma MapsLast(ms: seq<Mapping>, p: ContainerPort)
    requires ms != []
    ensures Maps(ms, p) <==> Maps(ms[..|ms| - 1], p) || ms[|ms| - 1].port == p
  {
    if Maps(ms, p) {
      var i :| 0 <= i < |ms| && ms[i].port == p;
      assert i < |ms| - 1 ==> ms[..|ms| - 1][i].port == p;
    }
    if Maps(ms[..|ms| - 1], p) {
      var i :| 0 <= i < |ms| - 1 && ms[..|ms| - 1][i].port == p;
      assert ms[i].port == p;
    }
  }

  /** The binding map loses a mapping exactly when two mappings name the same container port;
      otherwise every mapping is in it with its own host port. */
  lemma {:induction false} NothingLostIff(ms: seq<Mapping>)
    ensures |Bindings(ms)| <= |ms|
    ensures |Bindings(ms)| == |ms| <==> DistinctPorts(ms)
    ensures DistinctPorts(ms) ==>
              forall i :: 0 <= i < |ms| ==>
                Key(ms[i].port) in Bindings(ms) && Bindings(ms)[Key(ms[i].port)] == Text(ms[i].host)
    decreases |ms|
  {
    if ms != [] {
      var front, last := ms[..|ms| - 1], ms[|ms| - 1];
      NothingLostIff(front);
      BindingsKeys(front, last.port);
      hide Key, Text, Maps;
      DistinctLast(ms);
      if DistinctPorts(ms) {
        forall i | 0 <= i < |front|
          ensures Key(ms[i].port) in Bindings(ms) && Bindings(ms)[Key(ms[i].port)] == Text(ms[i].host)
        {
          assert front[i] == ms[i];
          if Key(ms[i].port) == Key(last.port) {
            KeyIsInjective(ms[i].port, last.port);
          }
        }
      }
    }
  }

  lemma DistinctLast(ms: seq<Mapping>)
    requires ms != []
    ensures DistinctPorts(ms) <==> DistinctPorts(ms[..|ms| - 1]) && !Maps(ms[..|ms| - 1], ms[|ms| - 1].port)
  {
    var front, last := ms[..|ms| - 1], ms[|ms| - 1];
    assert forall i :: 0 <= i < |front| ==> front[i] == ms[i];
    if DistinctPorts(front) && !Maps(front, last.port) {
      assert forall i :: 0 <= i < |front| ==> ms[i].port != last.port;
    }
    if Maps(front, last.port) {
      var i :| 0 <= i < |front| && front[i].port == last.port;
      assert ms[i].port == ms[|ms| - 1].port;
    }
  }

  /** The Linux path end to end: either two mappings name one container port and are refused, or
      every mapping and every exposed port reaches Docker. */
  method LinuxBindings(mapped: seq<Mapping>, exposed: seq<ContainerPort>)
    returns (ok: bool, bindings: map<string, string>)
    ensures ok <==> DistinctPorts(mapped)
    ensures ok ==> forall i :: 0 <= i < |mapped| ==>
                     Key(mapped[i].port) in bindings && bindings[Key(mapped[i].port)] == Text(mapped[i].host)
    ensures ok ==> forall p :: Key(p) in bindings <==> Maps(mapped, p) || p in exposed
  {
    hide Key, Text;
    var check := RejectDuplicateMappedPorts(mapped);
    if check.Duplicate? {
      return false, map[];
    }
    var ports := MergeExposed(mapped, exposed);
    bindings := BuildPortBindings(ports);
    NothingLostIff(ports);
    forall p ensures Key(p) in bindings <==> Maps(mapped, p) || p in exposed {
      BindingsKeys(ports, p);
    }
    ok := true;
  }
}
