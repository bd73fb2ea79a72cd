/** internal/reconciler/ipv6.go with the sysctl steps of internal/namespaces/ipv6.go: the
    guard of an upstream device goes in before its forwarding bit, and it goes out after. */
module Ipv6Path {
  import opened Text
  import opened Schedule
  import N = Netfilter
  import R = AccessRules
  import C = AccessCompile
  import F = RestoreFile
  import K = CompileCorrect
  import P = Fingerprint
  import T = CompiledText
  import A = AccessTheorems
  import W = ChainWriter
  import X = Coexistence
  import opened HostTables

  /** What ReadIPv6Host reads. */
  datatype Facts = Facts(upstreams: seq<string>, prefixes: seq<C.Prefix>, forceForwarding: bool, forwarding: bool)

  /** What one tick reads from the configuration file. */
  datatype Input = Input(access: R.RuleSet, devices: map<string, string>, ports: map<string, nat>, ipv6: bool)

  datatype Mode = Off | ForceForwarding | AllForwarding

  /** union: the values of a, then each value of b that a does not hold. */
  function Union(a: seq<string>, b: seq<string>): seq<string> {
    if b == [] then a
    else
      var front := Union(a, b[..|b| - 1]);
      if b[|b| - 1] in front then front else front + [b[|b| - 1]]
  }

  lemma {:induction false} UnionElements(a: seq<string>, b: seq<string>)
    ensures forall d :: d in Union(a, b) <==> d in a || d in b
  {
    if b != [] {
      UnionElements(a, b[..|b| - 1]);
      assert b == b[..|b| - 1] + [b[|b| - 1]];
    }
  }

  function ModeOf(facts: Facts, ipv6: bool): Mode {
    if facts.upstreams == [] then Off
    else if facts.forceForwarding then ForceForwarding
    else if ipv6 then AllForwarding
    else Off
  }

  function GuardedOf(facts: Facts, ipv6: bool, forced: seq<string>): seq<string> {
    if ModeOf(facts, ipv6) == ForceForwarding && !facts.forwarding then Union(forced, facts.upstreams) else []
  }

  function TopologyOf(input: Input, facts: Facts, forced: seq<string>): C.TopologyIPv6 {
    C.TopologyIPv6(input.devices, input.ports, facts.prefixes, GuardedOf(facts, input.ipv6, forced))
  }

  /** The rules of one tick can be written and read back. */
  predicate Readable(input: Input, facts: Facts, forced: seq<string>) {
    && T.PlainDevices(input.devices)
    && (forall q :: q in facts.prefixes ==> q.Cidr? && |q.address| == 16)
    && (forall d :: d in facts.upstreams ==> P.PlainText(d))
    && (forall d :: d in forced ==> P.PlainText(d))
  }

  // ----- safety of one host state

  /** Every packet from the device to a device outside the namespaces is dropped by the
      forward chain. */
  ghost predicate GuardHolds(s: HostState, device: string) {
    C.FORWARD_CHAIN in s.chains &&
    forall p: N.Packet :: p.input == device && !N.IsNamespaceDevice(p.output) ==>
      N.Walk(s.chains[C.FORWARD_CHAIN], p) == N.Dropped
  }

  /** No upstream device forwards for the daemon without its guard and a jump that leads
      FORWARD to it. */
  ghost predicate Safe(s: HostState) {
    forall d :: d in s.ours && !N.IsNamespaceDevice(d) ==> GuardHolds(s, d) && Jumps(s.forward, C.FORWARD_CHAIN)
  }

  /** No upstream device forwards for the daemon. */
  predicate NoneOpen(ours: set<string>) {
    forall d :: d in ours ==> N.IsNamespaceDevice(d)
  }

  ghost predicate AllSafe(states: seq<HostState>) {
    forall s :: s in states ==> Safe(s)
  }

  /** Every upstream device that forwards for the daemon is in the list. */
  predicate Covered(ours: set<string>, list: seq<string>) {
    forall d :: d in ours && !N.IsNamespaceDevice(d) ==> d in list
  }

  /** The written IPv6 chain guards exactly the devices of its guard list. */
  lemma GuardExactly(s: HostState, input: Input, topo: C.TopologyIPv6, mark: string, device: string)
    requires R.ValidSet(input.access, topo.devices.Keys) && C.RangesOf(topo.prefixes).Some?
    requires C.FORWARD_CHAIN in s.chains
    requires s.chains[C.FORWARD_CHAIN] == F.LiveForward(C.CompiledV6(input.access, topo, A.Closing(input.access.mode)), mark)
    requires !N.IsNamespaceDevice(device)
    ensures GuardHolds(s, device) <==> device in topo.guarded
  {
    C.InListing(topo.devices);
    var tail := A.Closing(input.access.mode);
    var ids := Listing(topo.devices.Keys);
    var private := C.PRIVATE_V6 + C.RangesOf(topo.prefixes).value;
    var out := C.CompiledV6(input.access, topo, tail).out;
    forall p: N.Packet | p.input == device && !N.IsNamespaceDevice(p.output)
      ensures N.Walk(s.chains[C.FORWARD_CHAIN], p) == if device in topo.guarded then N.Dropped else N.Returned
    {
      K.ForwardVerdict(input.access, ids, topo.devices, topo.ports, private, topo.guarded, tail, out, mark, p);
    }
    var probe := N.Packet(device, "", [], "", 0, "", false, false, false);
    assert probe.input == device && !N.IsNamespaceDevice(probe.output);
  }

  /** On a safe host FORWARD itself drops every packet from an upstream device that forwards
      for the daemon to a device outside the namespaces, when no rule above the jump of the
      daemon decides about the packet; that is so for every packet when the jump is first. */
  lemma SafeHostDropsGuarded(s: HostState, effect: X.Effect, policy: N.Verdict, p: N.Packet)
    requires Safe(s) && p.input in s.ours && !N.IsNamespaceDevice(p.input) && !N.IsNamespaceDevice(p.output)
    requires forall rule :: rule in W.PlacementIn(s.forward, ForwardJump).above ==> X.Passes(rule, s.chains, effect, p)
    ensures X.Decide(s.forward, s.chains, effect, policy, p) == N.Dropped
  {
    assert GuardHolds(s, p.input);
    X.FirstJumpDecides(s.forward, ForwardJump, s.chains, effect, policy, p);
  }

  /** After a write of the chains the host is safe exactly when the guard list covers every
      upstream device that forwards for the daemon, and FORWARD jumps to the guards if there
      is such a device. */
  lemma SafeExactlyWhenCovered(s: HostState, input: Input, topo: C.TopologyIPv6, mark: string)
    requires R.ValidSet(input.access, topo.devices.Keys) && C.RangesOf(topo.prefixes).Some?
    requires C.FORWARD_CHAIN in s.chains
    requires s.chains[C.FORWARD_CHAIN] == F.LiveForward(C.CompiledV6(input.access, topo, A.Closing(input.access.mode)), mark)
    ensures Safe(s) <==> Covered(s.ours, topo.guarded) && (NoneOpen(s.ours) || Jumps(s.forward, C.FORWARD_CHAIN))
  {
    forall d | d in s.ours && !N.IsNamespaceDevice(d)
      ensures GuardHolds(s, d) <==> d in topo.guarded
    {
      GuardExactly(s, input, topo, mark, d);
    }
  }

  /** The same chains and FORWARD rules, and no device that s does not forward. */
  predicate Below(t: HostState, s: HostState) {
    t.chains == s.chains && t.forward == s.forward && t.ours <= s.ours
  }

  lemma SafetyDependsOn(s: HostState, t: HostState)
    requires Below(t, s)
    ensures Safe(s) ==> Safe(t)
  {
    if Safe(s) {
      forall d | d in t.ours && !N.IsNamespaceDevice(d)
        ensures GuardHolds(t, d)
      {
        assert GuardHolds(s, d);
      }
    }
  }

  // ----- which sysctl commands ran

  /** The devices that the enable loop writes, in order: each one that was off. */
  function Opened(upstreams: seq<string>, on: set<string>): seq<string> {
    if upstreams == [] then []
    else
      var front, last := Opened(upstreams[..|upstreams| - 1], on), upstreams[|upstreams| - 1];
      if last in on || last in Elements(front) then front else front + [last]
  }

  /** The enable loop stops in front of device n: every command before it succeeded, and the
      read of device n failed, or the device was off and its write failed. */
  predicate EnableStops(upstreams: seq<string>, on: set<string>, n: nat, faults: seq<bool>)
    requires n <= |upstreams|
  {
    var written := Opened(upstreams[..n], on);
    var k := n + |written|;
    && NoFaults(faults, k)
    && (n < |upstreams| ==> FaultAt(faults, k) || (upstreams[n] !in on + Elements(written) && FaultAt(faults, k + 1)))
  }

  function EnableCost(upstreams: seq<string>, n: nat, written: nat, faults: seq<bool>): nat {
    n + written + if n >= |upstreams| then 0 else if FaultAt(faults, n + written) then 1 else 2
  }

  /** The enable loop took the host from s to t and left this schedule. */
  predicate EnableRan(s: HostState, t: HostState, upstreams: seq<string>, n: nat, faults: seq<bool>, left: seq<bool>) {
    n <= |upstreams| &&
    var written := Opened(upstreams[..n], s.forwarding);
    && EnableStops(upstreams, s.forwarding, n, faults)
    && t == s.(forwarding := s.forwarding + Elements(written), ours := s.ours + Elements(written))
    && left == Rest(faults, EnableCost(upstreams, n, |written|, faults))
  }

  /** The devices whose own command succeeds, one command for each device. */
  function Succeeding(devices: seq<string>, faults: seq<bool>): set<string> {
    set i | 0 <= i < |devices| && !FaultAt(faults, i) :: devices[i]
  }

  lemma SucceedingNext(devices: seq<string>, i: nat, faults: seq<bool>)
    requires i < |devices|
    ensures Succeeding(devices[..i + 1], faults) == Succeeding(devices[..i], faults) + if FaultAt(faults, i) then {} else {devices[i]}
  {
    var few, more := devices[..i], devices[..i + 1];
    forall d
      ensures d in Succeeding(more, faults) <==> d in Succeeding(few, faults) || (!FaultAt(faults, i) && d == devices[i])
    {
      if k :| 0 <= k < |more| && !FaultAt(faults, k) && more[k] == d {
        assert k < i ==> few[k] == d;
      }
      if k :| 0 <= k < |few| && !FaultAt(faults, k) && few[k] == d {
        assert more[k] == d;
      }
      assert more[i] == devices[i];
    }
  }

  lemma OpenedNext(upstreams: seq<string>, i: nat, on: set<string>)
    requires i < |upstreams|
    ensures var front := Opened(upstreams[..i], on);
      Opened(upstreams[..i + 1], on) == if upstreams[i] in on || upstreams[i] in Elements(front) then front else front + [upstreams[i]]
  {
    assert upstreams[..i + 1][..i] == upstreams[..i];
  }

  /** The first i devices are on in t, no command failed, and changed names those that were
      off in s. */
  predicate EnabledTo(s: HostState, t: HostState, faults: seq<bool>, left: seq<bool>, upstreams: seq<string>, i: nat, changed: seq<string>)
    requires i <= |upstreams|
  {
    && changed == Opened(upstreams[..i], s.forwarding)
    && t == s.(forwarding := s.forwarding + Elements(changed), ours := s.ours + Elements(changed))
    && NoFaults(faults, i + |changed|)
    && left == Rest(faults, i + |changed|)
  }

  lemma ReadStops(s: HostState, t: HostState, faults: seq<bool>, left: seq<bool>, upstreams: seq<string>, i: nat, changed: seq<string>)
    requires i < |upstreams| && EnabledTo(s, t, faults, left, upstreams, i, changed)
    ensures FaultAt(left, 0) ==>
      EnableStops(upstreams, s.forwarding, i, faults) && Rest(left, 1) == Rest(faults, EnableCost(upstreams, i, |changed|, faults))
  {
    RestOfRest(faults, i + |changed|, 1);
  }

  lemma AlreadyOn(s: HostState, t: HostState, faults: seq<bool>, left: seq<bool>, upstreams: seq<string>, i: nat, changed: seq<string>)
    requires i < |upstreams| && EnabledTo(s, t, faults, left, upstreams, i, changed)
    ensures !FaultAt(left, 0) && upstreams[i] in t.forwarding ==> EnabledTo(s, t, faults, Rest(left, 1), upstreams, i + 1, changed)
  {
    OpenedNext(upstreams, i, s.forwarding);
    NoFaultsNext(faults, i + |changed|);
    RestOfRest(faults, i + |changed|, 1);
  }

  lemma WriteStops(s: HostState, t: HostState, faults: seq<bool>, left: seq<bool>, upstreams: seq<string>, i: nat, changed: seq<string>)
    requires i < |upstreams| && EnabledTo(s, t, faults, left, upstreams, i, changed)
    ensures !FaultAt(left, 0) && upstreams[i] !in t.forwarding && FaultAt(left, 1) ==>
      EnableStops(upstreams, s.forwarding, i, faults) && Rest(Rest(left, 1), 1) == Rest(faults, EnableCost(upstreams, i, |changed|, faults))
  {
    var k := i + |changed|;
    RestOfRest(left, 1, 1);
    RestOfRest(faults, k, 2);
    assert FaultAt(left, 0) == FaultAt(faults, k) && FaultAt(left, 1) == FaultAt(faults, k + 1);
    assert upstreams[i] !in t.forwarding <==> upstreams[i] !in s.forwarding + Elements(changed);
  }

  lemma TurnedOn(s: HostState, t: HostState, faults: seq<bool>, left: seq<bool>, upstreams: seq<string>, i: nat, changed: seq<string>)
    requires i < |upstreams| && EnabledTo(s, t, faults, left, upstreams, i, changed)
    requires !FaultAt(left, 0) && upstreams[i] !in t.forwarding && !FaultAt(left, 1)
    ensures var d := upstreams[i];
      EnabledTo(s, t.(forwarding := t.forwarding + {d}, ours := t.ours + {d}), faults, Rest(Rest(left, 1), 1), upstreams, i + 1, changed + [d])
  {
    var d := upstreams[i];
    OpenedNext(upstreams, i, s.forwarding);
    assert changed + [d] == Opened(upstreams[..i + 1], s.forwarding);
    TwoMore(faults, i + |changed|);
    OneMoreOn(s, changed, d);
  }

  lemma OneMoreOn(s: HostState, changed: seq<string>, d: string)
    ensures s.forwarding + Elements(changed + [d]) == s.forwarding + Elements(changed) + {d}
    ensures s.ours + Elements(changed + [d]) == s.ours + Elements(changed) + {d}
  {
    ElementsNext(changed, d);
  }

  lemma TwoMore(faults: seq<bool>, k: nat)
    ensures var left := Rest(faults, k);
      && Rest(Rest(left, 1), 1) == Rest(faults, k + 2)
      && (NoFaults(faults, k) && !FaultAt(left, 0) && !FaultAt(left, 1) ==> NoFaults(faults, k + 2))
  {
    NoFaultsNext(faults, k);
    NoFaultsNext(faults, k + 1);
    RestOfRest(Rest(faults, k), 1, 1);
    RestOfRest(faults, k, 2);
  }

  lemma ElementsNext(devices: seq<string>, d: string)
    ensures Elements(devices + [d]) == Elements(devices) + {d}
  {
  }

  /** The enable loop turns on every device in front of the stop, and writes no other one. */
  lemma {:induction false} OpenedExactly(upstreams: seq<string>, on: set<string>)
    ensures forall d :: d in Opened(upstreams, on) <==> d in upstreams && d !in on
  {
    if upstreams != [] {
      OpenedExactly(upstreams[..|upstreams| - 1], on);
      assert upstreams == upstreams[..|upstreams| - 1] + [upstreams[|upstreams| - 1]];
    }
  }

  /** The compiled set of one tick of a process that recorded the devices of forced. */
  ghost function WantedBy(input: Input, facts: Facts, forced: seq<string>): C.Compiled
    requires C.RangesOf(facts.prefixes).Some?
  {
    C.CompiledV6(input.access, TopologyOf(input, facts, forced), A.Closing(input.access.mode))
  }

  /** Whatever the marker, the written forward chain gives back every packet that touches no
      namespace device. */
  ghost predicate LeavesTheOperatorAlone(c: C.Compiled) {
    forall mark: string, p: N.Packet :: !("vh" <= p.input) && !("vh" <= p.output) ==>
      N.Walk(F.LiveForward(c, mark), p) == N.Returned
  }

  /** The written forward chain drops what comes from a recorded or a current upstream and goes
      to a device outside the namespaces, and it gives back the rest of the host's own traffic. */
  ghost predicate GuardsTheUpstreams(c: C.Compiled, forced: seq<string>, upstreams: seq<string>) {
    forall mark: string, p: N.Packet :: !("vh" <= p.output) ==>
      var verdict := N.Walk(F.LiveForward(c, mark), p);
      && (p.input in forced || p.input in upstreams ==> verdict == N.Dropped)
      && (p.input !in forced && p.input !in upstreams && !("vh" <= p.input) ==> verdict == N.Returned)
  }

  /** The guard of a tick, packet by packet: a host that forwards already, or a tick of another
      mode, gets no guard at all. */
  lemma WantedGuards(input: Input, facts: Facts, forced: seq<string>)
    requires C.RangesOf(facts.prefixes).Some? && R.ValidSet(input.access, input.devices.Keys)
    ensures facts.forwarding || !facts.forceForwarding || facts.upstreams == [] ==>
      LeavesTheOperatorAlone(WantedBy(input, facts, forced))
    ensures !facts.forwarding && facts.forceForwarding && facts.upstreams != [] ==>
      GuardsTheUpstreams(WantedBy(input, facts, forced), forced, facts.upstreams)
  {
    var topo, tail := TopologyOf(input, facts, forced), A.Closing(input.access.mode);
    C.InListing(topo.devices);
    var private := C.PRIVATE_V6 + C.RangesOf(topo.prefixes).value;
    var c := WantedBy(input, facts, forced);
    UnionElements(forced, facts.upstreams);
    forall mark: string, p: N.Packet | !("vh" <= p.output)
      ensures var verdict := N.Walk(F.LiveForward(c, mark), p);
        && (p.input in topo.guarded ==> verdict == N.Dropped)
        && (p.input !in topo.guarded && !("vh" <= p.input) ==> verdict == N.Returned)
    {
      K.ForwardVerdict(input.access, Listing(topo.devices.Keys), topo.devices, topo.ports, private, topo.guarded, tail, c.out, mark, p);
    }
  }

  /** Behind such a chain FORWARD decides as the operator's rules alone. */
  lemma ForwardIsTheOperators(s: HostState, c: C.Compiled, mark: string, effect: X.Effect, policy: N.Verdict, p: N.Packet)
    requires LeavesTheOperatorAlone(c)
    requires C.FORWARD_CHAIN in s.chains && s.chains[C.FORWARD_CHAIN] == F.LiveForward(c, mark)
    requires forall chain :: DaemonJump(chain) in s.forward ==> chain == C.FORWARD_CHAIN
    requires !("vh" <= p.input) && !("vh" <= p.output)
    ensures X.Decide(s.forward, s.chains, effect, policy, p) == X.Decide(Operators(s.forward), s.chains, effect, policy, p)
  {
    X.JumpsThatReturnDoNotShow(s.forward, s.chains, effect, policy, p);
  }

  /** What one tick of a run started with, and the host behind it: forced holds the devices that
      the process has recorded, and faults the schedule. */
  datatype TickRun = TickRun(input: Input, facts: Facts, forced: seq<string>, before: HostState, faults: seq<bool>, after: HostState)

  datatype Plan = Plan(mode: Mode, compiled: C.Compiled)

  /** The state of the IPv6 step: the writer of the IPv6 chains and forcedUpstreams. */
  class Ipv6 {
    const writer: W.Writer
    var forced: seq<string>

    constructor (writer: W.Writer)
      ensures this.writer == writer && forced == []
    {
      this.writer, forced := writer, [];
    }

    ghost predicate Ready()
      reads this, writer.host
    {
      writer.Sound() && writer.bytes == 16 && writer.Honest(writer.host.state)
    }

    ghost function Wanted(input: Input, facts: Facts): C.Compiled
      requires C.RangesOf(facts.prefixes).Some?
      reads this
    {
      WantedBy(input, facts, forced)
    }

    /** planIPv6, after the host read. failed states a compile error. */
    method PlanIPv6(input: Input, facts: Facts) returns (failed: bool, plan: Plan)
      requires Readable(input, facts, forced)
      ensures C.RangesOf(facts.prefixes).Some?
      ensures !failed ==> plan.mode == ModeOf(facts, input.ipv6)
      ensures !failed && plan.mode != Off ==>
        R.ValidSet(input.access, input.devices.Keys) && plan.compiled == Wanted(input, facts)
      ensures failed <==> ModeOf(facts, input.ipv6) != Off && !R.ValidSet(input.access, input.devices.Keys)
      ensures !failed ==> (plan.mode == ForceForwarding <==> facts.upstreams != [] && facts.forceForwarding)
      ensures !failed ==> (plan.mode == AllForwarding <==> facts.upstreams != [] && !facts.forceForwarding && input.ipv6)
      ensures failed <==> facts.upstreams != [] && (facts.forceForwarding || input.ipv6) && !R.ValidSet(input.access, input.devices.Keys)
      ensures !failed && plan.mode != Off && (facts.forwarding || !facts.forceForwarding) ==> LeavesTheOperatorAlone(plan.compiled)
      ensures !failed && plan.mode == ForceForwarding && !facts.forwarding ==> GuardsTheUpstreams(plan.compiled, forced, facts.upstreams)
    {
      T.RangesFamily(facts.prefixes, 16);
      var mode := ModeOf(facts, input.ipv6);
      plan := Plan(mode, C.Compiled([], [], []));
      if mode == Off {
        return false, plan;
      }
      var guarded := [];
      if mode == ForceForwarding && !facts.forwarding {
        guarded := Union(forced, facts.upstreams);
      }
      var tail := C.TailForMode(R.EffectiveMode(input.access));
      if tail.None? {
        return true, plan;
      }
      var r := C.CompileIPv6(input.access, C.TopologyIPv6(input.devices, input.ports, facts.prefixes, guarded), tail.value);
      if r.Err? {
        return true, plan;
      }
      WantedGuards(input, facts, forced);
      return false, Plan(mode, r.value);
    }

    /** One device of the enable loop. */
    method EnableOne(upstreams: seq<string>, i: nat, changed: seq<string>, ghost s: HostState, ghost faults: seq<bool>)
      returns (stopped: bool, more: seq<string>)
      requires i < |upstreams| && EnabledTo(s, writer.host.state, faults, writer.host.faults, upstreams, i, changed)
      modifies writer.host
      ensures !stopped ==> EnabledTo(s, writer.host.state, faults, writer.host.faults, upstreams, i + 1, more)
      ensures stopped ==> more == changed && writer.host.state == old(writer.host.state)
      ensures stopped ==> EnableStops(upstreams, s.forwarding, i, faults)
      ensures stopped ==> writer.host.faults == Rest(faults, EnableCost(upstreams, i, |changed|, faults))
      ensures Below(old(writer.host.state), writer.host.state)
      ensures old(writer.host.history) <= writer.host.history <= old(writer.host.history) + [writer.host.state]
    {
      var host := writer.host;
      ghost var t, left := host.state, host.faults;
      ReadStops(s, t, faults, left, upstreams, i, changed);
      AlreadyOn(s, t, faults, left, upstreams, i, changed);
      WriteStops(s, t, faults, left, upstreams, i, changed);
      var ok, on := host.ReadForwarding(upstreams[i]);
      if !ok {
        return true, changed;
      }
      if on {
        return false, changed;
      }
      var done := host.SetForwarding(upstreams[i], true);
      if !done {
        return true, changed;
      }
      TurnedOn(s, t, faults, left, upstreams, i, changed);
      return false, changed + [upstreams[i]];
    }

    /** EnableForceForwarding: one read and at most one write for each device, in order. The
        first command that fails ends the loop, with the n devices before it on. */
    method EnableForceForwarding(upstreams: seq<string>) returns (failed: bool, changed: seq<string>, ghost n: nat)
      modifies writer.host
      ensures n <= |upstreams| && (failed <==> n < |upstreams|)
      ensures changed == Opened(upstreams[..n], old(writer.host.state).forwarding)
      ensures EnableRan(old(writer.host.state), writer.host.state, upstreams, n, old(writer.host.faults), writer.host.faults)
      ensures old(writer.host.history) <= writer.host.history
      ensures forall i :: |old(writer.host.history)| <= i < |writer.host.history| ==> Below(writer.host.history[i], writer.host.state)
    {
      changed := [];
      var host := writer.host;
      ghost var s0, f, h0 := host.state, host.faults, host.history;
      RestOfNone(f);
      for i := 0 to |upstreams|
        invariant EnabledTo(s0, host.state, f, host.faults, upstreams, i, changed)
        invariant h0 <= host.history
        invariant forall k :: |h0| <= k < |host.history| ==> Below(host.history[k], host.state)
      {
        var stopped;
        stopped, changed := EnableOne(upstreams, i, changed, s0, f);
        if stopped {
          return true, changed, i;
        }
      }
      failed, n := false, |upstreams|;
    }

    /** The forwarding step of EnsureIPv6Path on the host side device of each namespace: a
        step that fails does not stop the next one. */
    method EnsurePaths(veths: seq<string>)
      requires forall v :: v in veths ==> N.IsNamespaceDevice(v)
      modifies writer.host
      ensures writer.host.state == AfterOpen(old(writer.host.state), veths, old(writer.host.faults))
      ensures forall i :: 0 <= i < |veths| && !FaultAt(old(writer.host.faults), i) ==>
        veths[i] in writer.host.state.forwarding && veths[i] in writer.host.state.ours
      ensures writer.host.faults == Rest(old(writer.host.faults), |veths|)
      ensures old(writer.host.history) <= writer.host.history
      ensures forall i :: |old(writer.host.history)| <= i < |writer.host.history| ==> Below(writer.host.history[i], writer.host.state)
    {
      var host := writer.host;
      ghost var s0, f := host.state, host.faults;
      RestOfNone(f);
      for i := 0 to |veths|
        invariant host.state == AfterOpen(s0, veths[..i], f)
        invariant host.faults == Rest(f, i)
        invariant old(host.history) <= host.history
        invariant forall k :: |old(host.history)| <= k < |host.history| ==> Below(host.history[k], host.state)
      {
        OpenNext(s0, veths, i, f);
        RestOfRest(f, i, 1);
        var _ := host.SetForwarding(veths[i], true);
      }
      assert veths[..|veths|] == veths;
    }

    /** The state after the forwarding step of these devices. */
    function AfterOpen(s: HostState, devices: seq<string>, faults: seq<bool>): HostState {
      s.(forwarding := s.forwarding + Succeeding(devices, faults), ours := s.ours + Succeeding(devices, faults))
    }

    lemma OpenNext(s: HostState, devices: seq<string>, i: nat, faults: seq<bool>)
      requires i < |devices|
      ensures var t := AfterOpen(s, devices[..i], faults);
        AfterOpen(s, devices[..i + 1], faults) ==
        if FaultAt(faults, i) then t else t.(forwarding := t.forwarding + {devices[i]}, ours := t.ours + {devices[i]})
    {
      SucceedingNext(devices, i, faults);
    }

    /** applyIPv6, with the result of ReadIPv6Host in facts, on a host whose all.forwarding is
        0 and stays 0. wrote states that the chains were written or confirmed.

        Every state that the tick passes through is safe when the guard list of the tick covers
        the devices that forward for the daemon before it. The tick keeps that cover, unless an
        enable step failed part way; partial states that. When the cover is missing and the
        chains are held or written, the host is unsafe at the end, so the condition is exact. */
    method Tick(input: Input, facts: Facts, veths: seq<string>) returns (wrote: bool, partial: bool, ghost n: nat, ghost k: nat)
      requires Ready() && Readable(input, facts, forced)
      requires !facts.forwarding && (facts.forceForwarding || !input.ipv6)
      requires forall v :: v in veths ==> N.IsNamespaceDevice(v)
      modifies this, writer.host
      ensures Ready() && C.RangesOf(facts.prefixes).Some?
      ensures old(writer.host.history) <= writer.host.history
      ensures Safe(old(writer.host.state)) && Covered(old(writer.host.state).ours, Union(old(forced), facts.upstreams)) ==>
        Safe(writer.host.state) && AllSafe(writer.host.history[|old(writer.host.history)|..])
      ensures Covered(old(writer.host.state).ours, old(forced)) && !partial ==> Covered(writer.host.state.ours, forced)
      ensures wrote && !Covered(old(writer.host.state).ours, Union(old(forced), facts.upstreams)) ==> !Safe(writer.host.state)
      ensures Safe(old(writer.host.state)) ==>
        (Safe(writer.host.state) && AllSafe(writer.host.history[|old(writer.host.history)|..]) <==>
         Kept(TickRun(input, facts, old(forced), old(writer.host.state), old(writer.host.faults), writer.host.state)))
      ensures wrote <==>
        ModeOf(facts, input.ipv6) != Off && R.ValidSet(input.access, input.devices.Keys)
        && !writer.ApplyFails(old(writer.host.state), old(Wanted(input, facts)), old(writer.host.faults))
      ensures !wrote ==> !partial && forced == old(forced) && writer.host.state.ours == old(writer.host.state).ours
      ensures k == writer.ApplyCost(old(writer.host.state), old(Wanted(input, facts)), old(writer.host.faults))
      ensures wrote ==> n <= |facts.upstreams|
      ensures wrote ==> EnableStops(facts.upstreams, old(writer.host.state).forwarding, n, Rest(old(writer.host.faults), k))
      ensures partial <==> wrote && n < |facts.upstreams| && Opened(facts.upstreams[..n], old(writer.host.state).forwarding) != []
      ensures wrote ==> forced == if n < |facts.upstreams| then old(forced) else Union(old(forced), facts.upstreams)
      ensures wrote && n < |facts.upstreams| ==>
        EnableRan(writer.AppliedUnder(old(writer.host.state), old(Wanted(input, facts)), old(writer.host.faults)), writer.host.state,
                  facts.upstreams, n, Rest(old(writer.host.faults), k), writer.host.faults)
      ensures wrote && n == |facts.upstreams| ==> forall d :: d in facts.upstreams ==> d in writer.host.state.forwarding && d in forced
      ensures old(writer.host.faults) == [] ==> !partial && writer.host.faults == []
      ensures wrote && old(writer.host.faults) == [] ==> forall v :: v in veths ==> v in writer.host.state.forwarding
    {
      var host := writer.host;
      ghost var s0, f0, h0 := host.state, host.faults, host.history;
      T.RangesFamily(facts.prefixes, 16);
      UnionElements(forced, facts.upstreams);
      partial, n := false, 0;
      k := writer.ApplyCost(s0, Wanted(input, facts), f0);
      wrote := WritePlan(input, facts);
      if !wrote {
        return;
      }
      ghost var h1 := host.history;
      partial, n := OpenForwarding(input, facts, TopologyOf(input, facts, forced), Wanted(input, facts), veths);
      W.SplitHistory(h0, h1, host.history);
    }

    /** The part of applyIPv6 that plans and writes the chains. */
    method WritePlan(input: Input, facts: Facts) returns (wrote: bool)
      requires Ready() && Readable(input, facts, forced)
      requires !facts.forwarding && (facts.forceForwarding || !input.ipv6)
      modifies writer.host
      ensures Ready() && C.RangesOf(facts.prefixes).Some?
      ensures old(writer.host.history) <= writer.host.history
      ensures writer.host.state.ours == old(writer.host.state).ours && writer.host.state.forwarding == old(writer.host.state).forwarding
      ensures wrote <==>
        ModeOf(facts, input.ipv6) != Off && R.ValidSet(input.access, input.devices.Keys)
        && !writer.ApplyFails(old(writer.host.state), Wanted(input, facts), old(writer.host.faults))
      ensures wrote ==> writer.host.state == writer.AppliedUnder(old(writer.host.state), Wanted(input, facts), old(writer.host.faults))
      ensures wrote ==>
        writer.host.faults == Rest(old(writer.host.faults), writer.ApplyCost(old(writer.host.state), Wanted(input, facts), old(writer.host.faults)))
      ensures wrote ==> writer.Held(writer.host.state, Wanted(input, facts)) && Jumps(writer.host.state.forward, C.FORWARD_CHAIN)
      ensures wrote ==> GuardedOf(facts, input.ipv6, forced) == Union(forced, facts.upstreams)
      ensures old(writer.host.faults) == [] ==> writer.host.faults == []
      ensures Safe(old(writer.host.state)) && Covered(old(writer.host.state).ours, Union(forced, facts.upstreams)) ==>
        Safe(writer.host.state) && AllSafe(writer.host.history[|old(writer.host.history)|..])
      ensures Safe(old(writer.host.state)) ==>
        (Safe(writer.host.state) && AllSafe(writer.host.history[|old(writer.host.history)|..]) <==>
         Kept(TickRun(input, facts, forced, old(writer.host.state), old(writer.host.faults), writer.host.state)))
    {
      ghost var h0 := writer.host.history;
      T.RangesFamily(facts.prefixes, 16);
      UnionElements(forced, facts.upstreams);
      var failed, plan := PlanIPv6(input, facts);
      if failed || plan.mode == Off {
        assert writer.host.history[|h0|..] == [];
        return false;
      }
      ghost var topo := TopologyOf(input, facts, forced);
      T.CompiledV6Serializable(input.access, topo, A.Closing(input.access.mode), writer.text);
      failed := WriteIPv6(input, topo, plan.compiled);
      return !failed;
    }

    /** The tick comes to hold the chains of its plan: it has a mode and a valid rule set, and both
        reads and the write succeed. The jumps may fail all the same. */
    ghost predicate HoldsChains(l: TickRun)
      requires C.RangesOf(l.facts.prefixes).Some?
    {
      && ModeOf(l.facts, l.input.ipv6) != Off && R.ValidSet(l.input.access, l.input.devices.Keys)
      && !W.WriteFails(writer.Matching(l.before, WantedBy(l.input, l.facts, l.forced)), l.faults)
    }

    /** A tick that comes to hold its chains guards every upstream device that already forwards
        for the daemon. */
    ghost predicate Kept(l: TickRun) {
      C.RangesOf(l.facts.prefixes).Some? && (HoldsChains(l) ==> Covered(l.before.ours, Union(l.forced, l.facts.upstreams)))
    }

    /** The write of the IPv6 chains and their jumps. */
    method WriteIPv6(input: Input, ghost topo: C.TopologyIPv6, c: C.Compiled) returns (failed: bool)
      requires Ready() && P.Serializable(c, writer.text, 16)
      requires R.ValidSet(input.access, topo.devices.Keys) && C.RangesOf(topo.prefixes).Some?
      requires c == C.CompiledV6(input.access, topo, A.Closing(input.access.mode))
      modifies writer.host
      ensures Ready()
      ensures writer.host.state == writer.AppliedUnder(old(writer.host.state), c, old(writer.host.faults))
      ensures writer.host.state.ours == old(writer.host.state).ours && writer.host.state.forwarding == old(writer.host.state).forwarding
      ensures failed <==> writer.ApplyFails(old(writer.host.state), c, old(writer.host.faults))
      ensures writer.host.faults == Rest(old(writer.host.faults), writer.ApplyCost(old(writer.host.state), c, old(writer.host.faults)))
      ensures !failed ==> writer.Held(writer.host.state, c) && Jumps(writer.host.state.forward, C.FORWARD_CHAIN)
      ensures old(writer.host.history) <= writer.host.history
      ensures Safe(old(writer.host.state)) && Covered(old(writer.host.state).ours, topo.guarded) ==>
        Safe(writer.host.state) && AllSafe(writer.host.history[|old(writer.host.history)|..])
      ensures Safe(old(writer.host.state)) && W.WriteFails(writer.Matching(old(writer.host.state), c), old(writer.host.faults)) ==>
        Safe(writer.host.state) && AllSafe(writer.host.history[|old(writer.host.history)|..])
      ensures !Covered(old(writer.host.state).ours, topo.guarded) ==>
        (W.WriteFails(writer.Matching(old(writer.host.state), c), old(writer.host.faults)) || !Safe(writer.host.state))
    {
      ghost var s0, f0, h0 := writer.host.state, writer.host.faults, writer.host.history;
      var applyFailed, _, _ := writer.Apply(c);
      failed := applyFailed;
      ApplyIsSafe(s0, writer.host.state, f0, h0, writer.host.history, input, topo, c);
      AppliedIsHeld(s0, c);
      if !W.WriteFails(writer.Matching(s0, c), f0) {
        SafeExactlyWhenCovered(writer.host.state, input, topo, writer.Mark(c));
      }
    }

    lemma AppliedIsHeld(s: HostState, c: C.Compiled)
      ensures var t := W.Applied(s, c, writer.Mark(c)); writer.Held(t, c) && Jumps(t.forward, C.FORWARD_CHAIN)
    {
      assert C.FORWARD_CHAIN[11] != C.OUT_CHAIN[11];
    }

    /** The part of applyIPv6 behind a successful write of the chains. */
    method OpenForwarding(input: Input, facts: Facts, ghost topo: C.TopologyIPv6, ghost c: C.Compiled, veths: seq<string>) returns (partial: bool, ghost n: nat)
      requires Ready() && forall v :: v in veths ==> N.IsNamespaceDevice(v)
      requires R.ValidSet(input.access, topo.devices.Keys) && C.RangesOf(topo.prefixes).Some?
      requires c == C.CompiledV6(input.access, topo, A.Closing(input.access.mode)) && writer.Held(writer.host.state, c)
      requires Jumps(writer.host.state.forward, C.FORWARD_CHAIN)
      requires facts.forceForwarding || facts.upstreams == []
      requires topo.guarded == Union(forced, facts.upstreams)
      modifies this, writer.host
      ensures writer.host.state.chains == old(writer.host.state).chains
      ensures old(writer.host.history) <= writer.host.history
      ensures Covered(old(writer.host.state).ours, topo.guarded) ==>
        Safe(writer.host.state) && AllSafe(writer.host.history[|old(writer.host.history)|..])
      ensures !Covered(old(writer.host.state).ours, topo.guarded) ==> !Safe(writer.host.state)
      ensures Covered(old(writer.host.state).ours, old(forced)) && !partial ==> Covered(writer.host.state.ours, forced)
      ensures n <= |facts.upstreams| && EnableStops(facts.upstreams, old(writer.host.state).forwarding, n, old(writer.host.faults))
      ensures n < |facts.upstreams| ==>
        EnableRan(old(writer.host.state), writer.host.state, facts.upstreams, n, old(writer.host.faults), writer.host.faults)
      ensures partial <==> n < |facts.upstreams| && Opened(facts.upstreams[..n], old(writer.host.state).forwarding) != []
      ensures forced == if n < |facts.upstreams| then old(forced) else Union(old(forced), facts.upstreams)
      ensures n == |facts.upstreams| ==> forall d :: d in facts.upstreams ==> d in writer.host.state.forwarding && d in forced
      ensures old(writer.host.faults) == [] ==> !partial && writer.host.faults == []
      ensures old(writer.host.faults) == [] ==> forall v :: v in veths ==> v in writer.host.state.forwarding
    {
      var host := writer.host;
      UnionElements(forced, facts.upstreams);
      ghost var s1, h1 := host.state, host.history;
      var enableFailed, changed;
      enableFailed, changed, n := EnableForceForwarding(facts.upstreams);
      ghost var s2, h2 := host.state, host.history;
      OpenedExactly(facts.upstreams[..n], s1.forwarding);
      HeldIsSafeExactly(s2, input, topo, c, h1, h2);
      partial := false;
      if enableFailed {
        partial := changed != [];
        if changed == [] {
          assert Elements(changed) == {};
        } else {
          assert changed[0] in Elements(changed);
        }
        return;
      }
      assert facts.upstreams[..n] == facts.upstreams;
      forced := Union(forced, facts.upstreams);
      EnsurePaths(veths);
      HeldIsSafeExactly(host.state, input, topo, c, h2, host.history);
      W.SplitHistory(h1, h2, host.history);
    }

    /** A host that holds the chains and jumps to them, at the end of steps that only opened devices. */
    lemma HeldIsSafeExactly(s: HostState, input: Input, topo: C.TopologyIPv6, c: C.Compiled, h: seq<HostState>, h': seq<HostState>)
      requires R.ValidSet(input.access, topo.devices.Keys) && C.RangesOf(topo.prefixes).Some?
      requires c == C.CompiledV6(input.access, topo, A.Closing(input.access.mode)) && writer.Held(s, c)
      requires Jumps(s.forward, C.FORWARD_CHAIN)
      requires h <= h' && forall i :: |h| <= i < |h'| ==> Below(h'[i], s)
      ensures Covered(s.ours, topo.guarded) ==> Safe(s) && AllSafe(h'[|h|..])
      ensures !Covered(s.ours, topo.guarded) ==> !Safe(s)
    {
      SafeExactlyWhenCovered(s, input, topo, writer.Mark(c));
      LaterStatesSafe(s, h, h');
    }

    lemma ApplyIsSafe(s0: HostState, s1: HostState, f0: seq<bool>, h0: seq<HostState>, h1: seq<HostState>, input: Input, topo: C.TopologyIPv6, c: C.Compiled)
      requires R.ValidSet(input.access, topo.devices.Keys) && C.RangesOf(topo.prefixes).Some?
      requires c == C.CompiledV6(input.access, topo, A.Closing(input.access.mode))
      requires h0 <= h1 && s1 == writer.AppliedUnder(s0, c, f0)
      requires forall s :: s in h1[|h0|..] ==> writer.OnTheWay(s0, c, s)
      ensures Safe(s0) && Covered(s0.ours, topo.guarded) ==> Safe(s1) && AllSafe(h1[|h0|..])
    {
      if Safe(s0) && Covered(s0.ours, topo.guarded) {
        WayIsSafe(s0, s1, input, topo, c);
        forall s | s in h1[|h0|..]
          ensures Safe(s)
        {
          WayIsSafe(s0, s, input, topo, c);
        }
      }
    }

    lemma WayIsSafe(s0: HostState, s: HostState, input: Input, topo: C.TopologyIPv6, c: C.Compiled)
      requires R.ValidSet(input.access, topo.devices.Keys) && C.RangesOf(topo.prefixes).Some?
      requires c == C.CompiledV6(input.access, topo, A.Closing(input.access.mode))
      requires Safe(s0) && Covered(s0.ours, topo.guarded) && writer.OnTheWay(s0, c, s)
      ensures Safe(s)
    {
      assert C.FORWARD_CHAIN[11] != C.OUT_CHAIN[11];
      if !NoneOpen(s0.ours) {
        assert Jumps(s0.forward, C.FORWARD_CHAIN);
        if s.chains == s0.chains {
          SafetyDependsOn(s0, s);
        } else {
          SafeExactlyWhenCovered(s, input, topo, writer.Mark(c));
        }
      }
    }

    lemma LaterStatesSafe(s: HostState, h: seq<HostState>, h': seq<HostState>)
      requires h <= h'
      requires forall i :: |h| <= i < |h'| ==> Below(h'[i], s)
      ensures Safe(s) ==> AllSafe(h'[|h|..])
    {
      if Safe(s) {
        forall t | t in h'[|h|..]
          ensures Safe(t)
        {
          var i :| 0 <= i < |h'[|h|..]| && h'[|h|..][i] == t;
          assert h'[|h| + i] == t;
          SafetyDependsOn(s, t);
        }
      }
    }

    /** DisableForceForwarding: one command for each device, and a command that fails does not
        stop the next one. */
    method DisableForceForwarding(devices: seq<string>) returns (failed: bool)
      modifies writer.host
      ensures writer.host.state == AfterReset(old(writer.host.state), devices, old(writer.host.faults))
      ensures forall i :: 0 <= i < |devices| && !FaultAt(old(writer.host.faults), i) ==>
        devices[i] !in writer.host.state.forwarding && devices[i] !in writer.host.state.ours
      ensures forall d :: d !in devices ==>
        (d in writer.host.state.forwarding <==> d in old(writer.host.state).forwarding) && (d in writer.host.state.ours <==> d in old(writer.host.state).ours)
      ensures failed <==> !NoFaults(old(writer.host.faults), |devices|)
      ensures writer.host.faults == Rest(old(writer.host.faults), |devices|)
      ensures old(writer.host.history) <= writer.host.history
      ensures forall i :: |old(writer.host.history)| <= i < |writer.host.history| ==> Below(writer.host.history[i], old(writer.host.state))
    {
      var host := writer.host;
      ghost var s0, f := host.state, host.faults;
      RestOfNone(f);
      failed := false;
      for i := 0 to |devices|
        invariant host.state == AfterReset(s0, devices[..i], f)
        invariant failed <==> !NoFaults(f, i)
        invariant host.faults == Rest(f, i)
        invariant old(host.history) <= host.history
        invariant forall k :: |old(host.history)| <= k < |host.history| ==> Below(host.history[k], s0)
      {
        ResetNext(s0, devices, i, f);
        NoFaultsNext(f, i);
        RestOfRest(f, i, 1);
        var ok := host.SetForwarding(devices[i], false);
        failed := failed || !ok;
      }
      assert devices[..|devices|] == devices;
    }

    /** The state after the reset of these devices. */
    function AfterReset(s: HostState, devices: seq<string>, faults: seq<bool>): HostState {
      s.(forwarding := s.forwarding - Succeeding(devices, faults), ours := s.ours - Succeeding(devices, faults))
    }

    lemma ResetNext(s: HostState, devices: seq<string>, i: nat, faults: seq<bool>)
      requires i < |devices|
      ensures var t := AfterReset(s, devices[..i], faults);
        && Below(t, s)
        && AfterReset(s, devices[..i + 1], faults) ==
           if FaultAt(faults, i) then t else t.(forwarding := t.forwarding - {devices[i]}, ours := t.ours - {devices[i]})
    {
      SucceedingNext(devices, i, faults);
    }

    lemma ResetAll(s: HostState, devices: seq<string>, faults: seq<bool>)
      requires NoFaults(faults, |devices|)
      ensures var t := AfterReset(s, devices, faults);
        && (forall d :: d in t.ours <==> d in s.ours && d !in devices)
        && (forall d :: d in t.forwarding <==> d in s.forwarding && d !in devices)
    {
      assert forall d :: d in devices ==> exists i :: 0 <= i < |devices| && devices[i] == d;
    }

    /** The IPv6 end of Shutdown: reset every forced device, and then remove the chains, even
        when a reset failed. */
    method Shutdown() returns (resetFailed: bool, teardownFailed: bool)
      requires Ready()
      modifies writer.host
      ensures old(writer.host.history) <= writer.host.history
      ensures Safe(old(writer.host.state)) && Covered(old(writer.host.state).ours, forced) && !resetFailed ==>
        Safe(writer.host.state) && AllSafe(writer.host.history[|old(writer.host.history)|..])
      ensures Safe(old(writer.host.state)) ==>
        (Safe(writer.host.state) && AllSafe(writer.host.history[|old(writer.host.history)|..]) <==>
         EndsSafe(AfterReset(old(writer.host.state), forced, old(writer.host.faults)), Rest(old(writer.host.faults), |forced|)))
      ensures resetFailed <==> !NoFaults(old(writer.host.faults), |forced|)
      ensures writer.host.state ==
        writer.TornDownUnder(AfterReset(old(writer.host.state), forced, old(writer.host.faults)), Rest(old(writer.host.faults), |forced|))
      ensures !resetFailed ==> forall d :: d in forced ==> d !in writer.host.state.ours && d !in writer.host.state.forwarding
      ensures !teardownFailed ==> (Safe(writer.host.state) <==> NoneOpen(writer.host.state.ours))
    {
      var host := writer.host;
      ghost var s0, h0 := host.state, host.history;
      ghost var f0 := host.faults;
      resetFailed := DisableForceForwarding(forced);
      ghost var s1, f1, h1 := host.state, host.faults, host.history;
      if !resetFailed {
        ResetAll(s0, forced, f0);
        assert Covered(s0.ours, forced) ==> NoneOpen(s1.ours);
      }
      teardownFailed := writer.Teardown();
      if Safe(s0) {
        ShutdownIsSafeExactly(s0, s1, host.state, f1, h0, h1, host.history);
      }
      if !teardownFailed {
        GoneIsSafeExactly(host.state);
      }
    }

    lemma ShutdownIsSafeExactly(s0: HostState, s1: HostState, e: HostState, faults: seq<bool>, h0: seq<HostState>, h1: seq<HostState>, h2: seq<HostState>)
      requires Safe(s0) && Below(s1, s0) && h0 <= h1 <= h2
      requires forall i :: |h0| <= i < |h1| ==> Below(h1[i], s0)
      requires e == writer.TornDownUnder(s1, faults) && W.SameSysctl(e, s1)
      requires forall i :: |h1| <= i < |h2| ==> W.SameSysctl(h2[i], s1) && W.ForwardKept(s1, e, h2[i])
      ensures Safe(e) && AllSafe(h2[|h0|..]) <==> EndsSafe(s1, faults)
    {
      LaterStatesSafe(s0, h0, h1);
      SafetyDependsOn(s0, s1);
      TeardownIsSafeExactly(s1, e, faults, h1, h2);
      assert h2[|h0|..] == h1[|h0|..] + h2[|h1|..];
    }

    /** The teardown of a safe host stays safe: nothing forwards for the daemon any more, or the
        chain keeps its rules because its flush fails, and a jump to it stays. */
    ghost predicate EndsSafe(s: HostState, faults: seq<bool>) {
      NoneOpen(s.ours) || (Jumps(writer.WithoutJumps(s, faults).forward, C.FORWARD_CHAIN) && FaultAt(faults, 2))
    }

    lemma KeptExactly(s: HostState, e: HostState, faults: seq<bool>)
      requires e == writer.TornDownUnder(s, faults) && C.FORWARD_CHAIN in s.chains && s.chains[C.FORWARD_CHAIN] != []
      ensures Jumps(e.forward, C.FORWARD_CHAIN) && W.ChainKept(s, e, C.FORWARD_CHAIN) <==>
        Jumps(writer.WithoutJumps(s, faults).forward, C.FORWARD_CHAIN) && FaultAt(faults, 2)
      ensures e.forward == writer.WithoutJumps(s, faults).forward
      ensures !W.ChainKept(s, e, C.FORWARD_CHAIN) ==> C.FORWARD_CHAIN !in e.chains || e.chains[C.FORWARD_CHAIN] == []
    {
      assert C.FORWARD_CHAIN[11] != C.OUT_CHAIN[11];
    }

    lemma EmptyChainGuardsNothing(s: HostState, d: string)
      requires C.FORWARD_CHAIN in s.chains ==> s.chains[C.FORWARD_CHAIN] == []
      ensures !GuardHolds(s, d)
    {
      var probe := N.Packet(d, "", [], "", 0, "", false, false, false);
      assert probe.input == d && !N.IsNamespaceDevice(probe.output);
    }

    lemma TeardownIsSafeExactly(s: HostState, e: HostState, faults: seq<bool>, h: seq<HostState>, h': seq<HostState>)
      requires Safe(s) && e == writer.TornDownUnder(s, faults) && W.SameSysctl(e, s) && h <= h'
      requires forall i :: |h| <= i < |h'| ==> W.SameSysctl(h'[i], s) && W.ForwardKept(s, e, h'[i])
      ensures Safe(e) && AllSafe(h'[|h|..]) <==> EndsSafe(s, faults)
    {
      StatesWithNoneOpen(s, h, h');
      if d :| d in s.ours && !N.IsNamespaceDevice(d) {
        assert GuardHolds(s, d);
        if s.chains[C.FORWARD_CHAIN] == [] {
          EmptyChainGuardsNothing(s, d);
        }
        KeptExactly(s, e, faults);
        if EndsSafe(s, faults) {
          KeptIsSafe(s, e);
          forall t | t in h'[|h|..]
            ensures Safe(t)
          {
            var i :| 0 <= i < |h'[|h|..]| && h'[|h|..][i] == t;
            assert h'[|h| + i] == t;
            KeptIsSafe(s, t);
          }
        } else if Jumps(e.forward, C.FORWARD_CHAIN) {
          EmptyChainGuardsNothing(e, d);
        }
      }
    }

    lemma KeptIsSafe(s: HostState, t: HostState)
      requires Safe(s) && W.SameSysctl(t, s) && Jumps(t.forward, C.FORWARD_CHAIN) && W.ChainKept(s, t, C.FORWARD_CHAIN)
      ensures Safe(t)
    {
      forall d | d in t.ours && !N.IsNamespaceDevice(d)
        ensures GuardHolds(t, d)
      {
        assert GuardHolds(s, d);
      }
    }

    lemma GoneIsSafeExactly(s: HostState)
      requires C.FORWARD_CHAIN !in s.chains
      ensures Safe(s) <==> NoneOpen(s.ours)
    {
      if d :| d in s.ours && !N.IsNamespaceDevice(d) {
        assert !GuardHolds(s, d);
      }
    }

    lemma StatesWithNoneOpen(s: HostState, h: seq<HostState>, h': seq<HostState>)
      requires h <= h' && forall i :: |h| <= i < |h'| ==> W.SameSysctl(h'[i], s)
      ensures NoneOpen(s.ours) ==> AllSafe(h'[|h|..])
    {
      if NoneOpen(s.ours) {
        forall t | t in h'[|h|..]
          ensures Safe(t)
        {
          var i :| 0 <= i < |h'[|h|..]| && h'[|h|..][i] == t;
          assert h'[|h| + i] == t;
        }
      }
    }

    /** The IPv6 part of Uninstall, which another process runs: it recorded no device, so it
        resets the upstream devices that the host holds now. The host is safe afterwards
        exactly when every device that an earlier daemon opened is still an upstream. */
    method Uninstall(facts: Option<Facts>) returns (resetFailed: bool, teardownFailed: bool)
      requires Ready()
      modifies writer.host
      ensures facts.None? ==> resetFailed
      ensures facts.Some? ==> (resetFailed <==>
        facts.value.forceForwarding && !NoFaults(old(writer.host.faults), |facts.value.upstreams|))
      ensures !teardownFailed && !resetFailed && facts.Some? && facts.value.forceForwarding ==>
        (Safe(writer.host.state) <==> Covered(old(writer.host.state).ours, facts.value.upstreams))
      ensures !teardownFailed && (facts.None? || !facts.value.forceForwarding) ==>
        (Safe(writer.host.state) <==> NoneOpen(old(writer.host.state).ours))
      ensures !teardownFailed ==> C.FORWARD_CHAIN !in writer.host.state.chains && C.OUT_CHAIN !in writer.host.state.chains
    {
      resetFailed := facts.None?;
      ghost var s0, f0 := writer.host.state, writer.host.faults;
      if facts.Some? && facts.value.forceForwarding && |facts.value.upstreams| > 0 {
        resetFailed := DisableForceForwarding(facts.value.upstreams);
        if !resetFailed {
          ResetAll(s0, facts.value.upstreams, f0);
        }
      }
      teardownFailed := writer.Teardown();
    }
  }

  /** One tick of a run: the host read may fail, and the tick then changes nothing. */
  datatype TickInput = TickInput(input: Input, facts: Option<Facts>, veths: seq<string>)

  predicate GoodTick(t: TickInput) {
    && (t.facts.Some? ==>
      && Readable(t.input, t.facts.value, [])
      && !t.facts.value.forwarding && (t.facts.value.forceForwarding || !t.input.ipv6))
    && forall v :: v in t.veths ==> N.IsNamespaceDevice(v)
  }

  /** The ticks of a run follow each other, from the first state to the last one. */
  predicate Linked(log: seq<TickRun>, first: HostState, last: HostState) {
    if log == [] then first == last
    else
      && log[0].before == first && log[|log| - 1].after == last
      && forall i :: 0 < i < |log| ==> log[i].before == log[i - 1].after
  }

  /** The ticks whose host read succeeded. */
  function ReadTicks(ticks: seq<TickInput>): seq<TickInput> {
    if ticks == [] then []
    else
      var front, last := ReadTicks(ticks[..|ticks| - 1]), ticks[|ticks| - 1];
      if last.facts.Some? then front + [last] else front
  }

  /** The log holds exactly these ticks, in order. */
  predicate Follows(log: seq<TickRun>, ticks: seq<TickInput>) {
    |log| == |ticks| && forall i :: 0 <= i < |log| ==> ticks[i].facts == Some(log[i].facts) && ticks[i].input == log[i].input
  }

  /** Every recorded state is safe, and so is the host now and behind every tick. */
  ghost predicate SafeRun(history: seq<HostState>, log: seq<TickRun>, s: HostState) {
    AllSafe(history) && Safe(s) && forall l :: l in log ==> Safe(l.after)
  }

  lemma SafeRunNext(h: seq<HostState>, later: seq<HostState>, log: seq<TickRun>, first: HostState, l: TickRun)
    requires Linked(log, first, l.before) && Safe(first)
    ensures Linked(log + [l], first, l.after)
    ensures SafeRun(h + later, log + [l], l.after) <==> SafeRun(h, log, l.before) && Safe(l.after) && AllSafe(later)
  {
    assert l in log + [l];
    assert forall m :: m in log + [l] <==> m in log || m == l;
    assert log != [] ==> log[|log| - 1] in log;
  }

  /** One tick of a run whose host read succeeded. */
  method RunTick(p: Ipv6, t: TickInput, ghost log: seq<TickRun>, ghost first: HostState) returns (stopped: bool, ghost more: seq<TickRun>)
    requires p.Ready() && GoodTick(t) && t.facts.Some? && forall d :: d in p.forced ==> P.PlainText(d)
    requires Safe(first) && Linked(log, first, p.writer.host.state)
    requires SafeRun(p.writer.host.history, log, p.writer.host.state) <==> forall l :: l in log ==> p.Kept(l)
    modifies p, p.writer.host
    ensures p.Ready() && forall d :: d in p.forced ==> P.PlainText(d)
    ensures Linked(more, first, p.writer.host.state)
    ensures SafeRun(p.writer.host.history, more, p.writer.host.state) <==> forall l :: l in more ==> p.Kept(l)
    ensures more == log + [TickRun(t.input, t.facts.value, old(p.forced), old(p.writer.host.state), old(p.writer.host.faults), p.writer.host.state)]
    ensures Covered(old(p.writer.host.state).ours, old(p.forced)) && !stopped ==> Covered(p.writer.host.state.ours, p.forced)
    ensures Covered(old(p.writer.host.state).ours, old(p.forced)) ==> p.Kept(more[|log|])
    ensures old(p.writer.host.faults) == [] ==> !stopped && p.writer.host.faults == []
  {
    var host := p.writer.host;
    ghost var h0, s0, forced0, f0 := host.history, host.state, p.forced, host.faults;
    UnionElements(p.forced, t.facts.value.upstreams);
    var _, partial, _, _ := p.Tick(t.input, t.facts.value, t.veths);
    stopped := partial;
    ghost var l := TickRun(t.input, t.facts.value, forced0, s0, f0, host.state);
    more := log + [l];
    assert host.history == h0 + host.history[|h0|..];
    SafeRunNext(h0, host.history[|h0|..], log, first, l);
    KeptNext(p, log, l);
  }

  lemma KeptNext(p: Ipv6, log: seq<TickRun>, l: TickRun)
    ensures (forall m :: m in log + [l] ==> p.Kept(m)) <==> (forall m :: m in log ==> p.Kept(m)) && p.Kept(l)
  {
    assert forall m :: m in log + [l] <==> m in log || m == l;
  }

  /** Guard before forwarding, over every run of one process: any number of ticks with any
      facts, rule sets and command failures, then Shutdown. After every single command, each
      upstream device that forwards for the daemon is guarded, exactly when each tick that comes
      to hold its chains covers the devices that forward already, and the shutdown resets every
      such device or fails to remove the guards. So it holds when no enable step failed part way
      and the final reset succeeded. log holds the ticks whose host read succeeded, last the
      host before the shutdown, and left the schedule then. */
  method Run(p: Ipv6, ticks: seq<TickInput>)
    returns (partial: bool, resetFailed: bool, ghost log: seq<TickRun>, ghost last: HostState, ghost left: seq<bool>)
    requires p.Ready() && p.forced == [] && p.writer.host.state.ours == {}
    requires p.writer.host.history == [p.writer.host.state]
    requires forall t :: t in ticks ==> GoodTick(t)
    modifies p, p.writer.host
    ensures Follows(log, ReadTicks(ticks)) && Linked(log, old(p.writer.host.state), last)
    ensures SafeRun(p.writer.host.history, log, p.writer.host.state) <==>
      (forall l :: l in log ==> p.Kept(l)) && p.EndsSafe(p.AfterReset(last, p.forced, left), Rest(left, |p.forced|))
    ensures resetFailed <==> !NoFaults(left, |p.forced|)
    ensures !partial && !resetFailed ==> AllSafe(p.writer.host.history)
    ensures old(p.writer.host.faults) == [] ==> !partial && !resetFailed
  {
    var host := p.writer.host;
    ghost var first := host.state;
    partial, log := RunTicks(p, ticks);
    ghost var h1 := host.history;
    last, left := host.state, host.faults;
    var teardownFailed;
    resetFailed, teardownFailed := p.Shutdown();
    assert host.history == h1 + host.history[|h1|..];
    RunEnds(h1, host.history[|h1|..], log, first, last, host.state);
  }

  /** The ticks of a run. */
  method RunTicks(p: Ipv6, ticks: seq<TickInput>) returns (partial: bool, ghost log: seq<TickRun>)
    requires p.Ready() && p.forced == [] && p.writer.host.state.ours == {}
    requires p.writer.host.history == [p.writer.host.state]
    requires forall t :: t in ticks ==> GoodTick(t)
    modifies p, p.writer.host
    ensures p.Ready()
    ensures Follows(log, ReadTicks(ticks)) && Linked(log, old(p.writer.host.state), p.writer.host.state)
    ensures SafeRun(p.writer.host.history, log, p.writer.host.state) <==> forall l :: l in log ==> p.Kept(l)
    ensures !partial ==> Covered(p.writer.host.state.ours, p.forced) && forall l :: l in log ==> p.Kept(l)
    ensures old(p.writer.host.faults) == [] ==> !partial && p.writer.host.faults == []
  {
    var host := p.writer.host;
    ghost var first := host.state;
    partial, log := false, [];
    for i := 0 to |ticks|
      invariant p.Ready()
      invariant old(host.faults) == [] ==> !partial && host.faults == []
      invariant forall d :: d in p.forced ==> P.PlainText(d)
      invariant Follows(log, ReadTicks(ticks[..i])) && Linked(log, first, host.state)
      invariant SafeRun(host.history, log, host.state) <==> forall l :: l in log ==> p.Kept(l)
      invariant !partial ==> Covered(host.state.ours, p.forced) && forall l :: l in log ==> p.Kept(l)
    {
      assert GoodTick(ticks[i]);
      ReadNext(ticks, i, log);
      if ticks[i].facts.Some? {
        var stopped;
        stopped, log := RunTick(p, ticks[i], log, first);
        partial := partial || stopped;
      }
    }
    assert ticks[..|ticks|] == ticks;
  }

  lemma ReadNext(ticks: seq<TickInput>, i: nat, log: seq<TickRun>)
    requires i < |ticks| && Follows(log, ReadTicks(ticks[..i]))
    ensures ticks[i].facts.None? ==> Follows(log, ReadTicks(ticks[..i + 1]))
    ensures forall l: TickRun :: ticks[i].facts == Some(l.facts) && ticks[i].input == l.input ==> Follows(log + [l], ReadTicks(ticks[..i + 1]))
  {
    assert ticks[..i + 1][..i] == ticks[..i];
  }

  lemma RunEnds(h: seq<HostState>, later: seq<HostState>, log: seq<TickRun>, first: HostState, last: HostState, end: HostState)
    requires Linked(log, first, last) && Safe(first)
    ensures SafeRun(h + later, log, end) <==> SafeRun(h, log, last) && Safe(end) && AllSafe(later)
  {
    assert log != [] ==> log[|log| - 1] in log;
  }

  /** The condition on the enable step is needed. On an empty host the first tick writes the
      chains, turns d0 on and fails at the read of d1, its tenth command, so it records neither
      device. The second tick sees d1 alone and no command fails: it writes chains without the
      guard of d0, which still forwards. */
  method PartialEnableLosesTheGuard(p: Ipv6, input: Input, facts: Facts, d0: string, d1: string)
    requires p.Ready() && p.forced == [] && R.ValidSet(input.access, input.devices.Keys)
    requires facts.upstreams == [d0, d1] && facts.forceForwarding && !facts.forwarding && Readable(input, facts, [])
    requires d0 != d1 && !N.IsNamespaceDevice(d0)
    requires p.writer.host.state == HostState(map[], [], [], {}, {})
    requires TenthFails(p.writer.host.faults)
    modifies p, p.writer.host
    ensures p.Ready() && p.forced == [d1] && !Safe(p.writer.host.state)
  {
    TickThatStops(p, input, facts, d0, d1);
    TickThatForgets(p, input, facts.(upstreams := [d1]), d0, d1);
  }

  /** Nine commands succeed, the tenth fails, and no later one does. */
  predicate TenthFails(faults: seq<bool>) {
    |faults| == 10 && NoFaults(faults, 9) && FaultAt(faults, 9)
  }

  lemma TenthIsTheSecondRead(faults: seq<bool>)
    requires TenthFails(faults)
    ensures NoFaults(faults, 7)
    ensures NoFaults(Rest(faults, 7), 2) && FaultAt(Rest(faults, 7), 2) && Rest(Rest(faults, 7), 3) == []
  {
    RestOfRest(faults, 7, 3);
  }

  method TickThatStops(p: Ipv6, input: Input, facts: Facts, d0: string, d1: string)
    requires p.Ready() && p.forced == [] && R.ValidSet(input.access, input.devices.Keys)
    requires facts.upstreams == [d0, d1] && facts.forceForwarding && !facts.forwarding && Readable(input, facts, [])
    requires d0 != d1 && p.writer.host.state == HostState(map[], [], [], {}, {})
    requires TenthFails(p.writer.host.faults)
    modifies p, p.writer.host
    ensures p.Ready() && p.forced == [] && p.writer.host.state.ours == {d0} && p.writer.host.faults == []
  {
    T.RangesFamily(facts.prefixes, 16);
    ghost var s0, f, c := p.writer.host.state, p.writer.host.faults, p.Wanted(input, facts);
    TenthIsTheSecondRead(f);
    EmptyHostCosts(p.writer, s0, c, f);
    var wrote, _, n, k := p.Tick(input, facts, []);
    StopsBeforeTheSecond(facts.upstreams, d0, d1, n, Rest(f, 7));
    OnlyTheFirst(p.writer.AppliedUnder(s0, c, f), p.writer.host.state, facts.upstreams, d0, f, p.writer.host.faults);
  }

  lemma OnlyTheFirst(s: HostState, t: HostState, upstreams: seq<string>, d0: string, faults: seq<bool>, left: seq<bool>)
    requires TenthFails(faults) && EnableRan(s, t, upstreams, 1, Rest(faults, 7), left)
    requires s.ours == {} && Opened(upstreams[..1], s.forwarding) == [d0] && EnableCost(upstreams, 1, 1, Rest(faults, 7)) == 3
    ensures t.ours == {d0} && left == []
  {
    TenthIsTheSecondRead(faults);
    assert Elements([d0]) == {d0};
  }

  method TickThatForgets(p: Ipv6, input: Input, facts: Facts, d0: string, d1: string)
    requires p.Ready() && p.forced == [] && R.ValidSet(input.access, input.devices.Keys)
    requires facts.upstreams == [d1] && facts.forceForwarding && !facts.forwarding && Readable(input, facts, [])
    requires d0 != d1 && !N.IsNamespaceDevice(d0) && p.writer.host.state.ours == {d0} && p.writer.host.faults == []
    modifies p, p.writer.host
    ensures p.Ready() && p.forced == [d1] && !Safe(p.writer.host.state)
  {
    T.RangesFamily(facts.prefixes, 16);
    UnionElements([], [d1]);
    ghost var s0, c := p.writer.host.state, p.Wanted(input, facts);
    p.writer.SucceedsWithoutFaults(s0, c);
    var _, _, n, _ := p.Tick(input, facts, []);
    assert [d1][..0] == [];
    assert Union([], [d1]) == [d1];
  }

  lemma EmptyHostCosts(w: W.Writer, s: HostState, c: C.Compiled, faults: seq<bool>)
    requires w.Sound() && s == HostState(map[], [], [], {}, {}) && NoFaults(faults, 7)
    ensures !w.ApplyFails(s, c, faults) && w.ApplyCost(s, c, faults) == 7
  {
    assert w.Mark(c) != "";
    assert !w.Matching(s, c);
  }

  lemma StopsBeforeTheSecond(upstreams: seq<string>, d0: string, d1: string, n: nat, faults: seq<bool>)
    requires upstreams == [d0, d1] && d0 != d1 && n <= 2 && EnableStops(upstreams, {}, n, faults)
    requires NoFaults(faults, 2) && FaultAt(faults, 2)
    ensures n == 1 && Opened(upstreams[..1], {}) == [d0] && EnableCost(upstreams, 1, 1, faults) == 3
  {
    assert upstreams[..0] == [];
    OpenedNext(upstreams, 0, {});
    assert Opened(upstreams[..1], {}) == [d0];
    OpenedNext(upstreams, 1, {});
    assert |Opened(upstreams[..2], {})| == 2;
    assert !FaultAt(faults, 0) && !FaultAt(faults, 1);
    assert n != 2 && n != 0;
  }

  /** A failed read of force_forwarding selects the other mode, whose chains hold no guard. */
  lemma FailedProbeLosesTheGuard(s: HostState, input: Input, facts: Facts, forced: seq<string>, mark: string)
    requires R.ValidSet(input.access, input.devices.Keys) && C.RangesOf(facts.prefixes).Some?
    requires facts.upstreams != [] && !facts.forceForwarding && input.ipv6
    requires C.FORWARD_CHAIN in s.chains
    requires s.chains[C.FORWARD_CHAIN] ==
      F.LiveForward(C.CompiledV6(input.access, TopologyOf(input, facts, forced), A.Closing(input.access.mode)), mark)
    ensures Safe(s) <==> NoneOpen(s.ours)
  {
    SafeExactlyWhenCovered(s, input, TopologyOf(input, facts, forced), mark);
  }
}
