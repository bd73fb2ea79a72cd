/** ValidatePublish of internal/config/config.go, and what it guarantees about the compiled
    out chain. */
module PublishedPorts {
  import opened Text
  import N = Netfilter
  import R = AccessRules
  import C = AccessCompile
  import F = RestoreFile
  import K = CompileCorrect
  import A = AccessTheorems

  datatype Tailnet = Tailnet(id: string, publish: seq<string>, hostAccess: bool)

  datatype Failure =
    | HostAccessOff(id: string)
    | BadEntry(id: string, entry: string)
    | Duplicate(id: string, entry: string)
    | Uncovered(id: string, entry: string)

  predicate Covers(access: R.RuleSet, from: string, protocol: string, number: nat) {
    exists r :: r in access.rules && r.from == from && r.to == R.HOST && R.PortsCover(r.ports, protocol, number)
  }

  /** Entry i is one port, it repeats no earlier entry, and a local rule covers it. */
  predicate GoodEntry(tn: Tailnet, access: R.RuleSet, i: nat)
    requires i < |tn.publish|
  {
    && R.ParsePublishPort(tn.publish[i]).Ok?
    && (forall k :: 0 <= k < i ==> R.ParsePublishPort(tn.publish[k]) != R.ParsePublishPort(tn.publish[i]))
    && var p := R.ParsePublishPort(tn.publish[i]).value;
       Covers(access, tn.id, p.protocol, p.low)
  }

  /** The publish list of one tailnet can be forwarded. */
  predicate Publishable(tn: Tailnet, access: R.RuleSet) {
    tn.publish != [] ==> tn.hostAccess && forall i :: 0 <= i < |tn.publish| ==> GoodEntry(tn, access, i)
  }

  /** Some local rule leads from the tailnet to the host on the port. */
  predicate Opened(access: R.RuleSet, id: string, p: R.Port) {
    exists r :: r in access.rules && r.from == id && r.to == "host" && R.PortsCover(r.ports, p.protocol, p.low)
  }

  predicate Repeats(publish: seq<string>, i: nat)
    requires i < |publish|
  {
    exists k :: 0 <= k < i && R.ParsePublishPort(publish[k]) == R.ParsePublishPort(publish[i])
  }

  /** The failure of one entry, if it has one: a bad text, then a repeated port, then a port that no
      rule opens. Without host access the last one is not looked for. */
  predicate FailsWith(tn: Tailnet, access: R.RuleSet, i: nat, failures: seq<Failure>)
    requires i < |tn.publish|
  {
    var entry := tn.publish[i];
    match R.ParsePublishPort(entry)
    case Err(_) => failures == [BadEntry(tn.id, entry)]
    case Ok(p) =>
      if Repeats(tn.publish, i) then failures == [Duplicate(tn.id, entry)]
      else if tn.hostAccess && !Opened(access, tn.id, p) then failures == [Uncovered(tn.id, entry)]
      else failures == []
  }

  /** The loop body for entry i. seen holds the ports of the earlier entries that parse. */
  method ValidateEntry(tn: Tailnet, access: R.RuleSet, i: nat, seen: set<R.Port>) returns (failures: seq<Failure>, seen': set<R.Port>)
    requires i < |tn.publish|
    requires forall port :: port in seen <==> exists k :: 0 <= k < i && R.ParsePublishPort(tn.publish[k]) == Ok(port)
    ensures forall port :: port in seen' <==> exists k :: 0 <= k < i + 1 && R.ParsePublishPort(tn.publish[k]) == Ok(port)
    ensures failures == [] ==> (tn.hostAccess ==> GoodEntry(tn, access, i))
    ensures GoodEntry(tn, access, i) ==> failures == []
    ensures FailsWith(tn, access, i, failures)
  {
    var entry := tn.publish[i];
    var parsed := R.ParsePublishPort(entry);
    if parsed.Err? {
      return [BadEntry(tn.id, entry)], seen;
    }
    var p := parsed.value;
    if p in seen {
      return [Duplicate(tn.id, entry)], seen;
    }
    var covers := R.CoversHost(access, tn.id, p.protocol, p.low);
    failures := if tn.hostAccess && !covers then [Uncovered(tn.id, entry)] else [];
    seen' := seen + {p};
  }

  /** The loop over the entries of one tailnet. */
  method ValidateOne(tn: Tailnet, access: R.RuleSet) returns (failures: seq<Failure>)
    ensures failures == [] <==> Publishable(tn, access)
    ensures HostAccessOff(tn.id) in failures <==> tn.publish != [] && !tn.hostAccess
  {
    failures := [];
    if |tn.publish| == 0 {
      return;
    }
    if !tn.hostAccess {
      failures := failures + [HostAccessOff(tn.id)];
    }
    var seen: set<R.Port> := {};
    for i := 0 to |tn.publish|
      invariant forall port :: port in seen <==> exists k :: 0 <= k < i && R.ParsePublishPort(tn.publish[k]) == Ok(port)
      invariant failures == [] <==> tn.hostAccess && forall k :: 0 <= k < i ==> GoodEntry(tn, access, k)
      invariant HostAccessOff(tn.id) in failures <==> !tn.hostAccess
    {
      var more;
      more, seen := ValidateEntry(tn, access, i, seen);
      failures := failures + more;
    }
  }

  /** Every published entry is one port, no port repeats, and a rule opens each one. */
  predicate PublishesWell(tn: Tailnet, access: R.RuleSet) {
    && tn.hostAccess
    && forall i :: 0 <= i < |tn.publish| ==>
         R.ParsePublishPort(tn.publish[i]).Ok? && !Repeats(tn.publish, i) && Opened(access, tn.id, R.ParsePublishPort(tn.publish[i]).value)
  }

  lemma PublishableMeans(tn: Tailnet, access: R.RuleSet)
    ensures Publishable(tn, access) <==> tn.publish == [] || PublishesWell(tn, access)
  {
    forall i | 0 <= i < |tn.publish|
      ensures GoodEntry(tn, access, i) <==>
        R.ParsePublishPort(tn.publish[i]).Ok? && !Repeats(tn.publish, i) && Opened(access, tn.id, R.ParsePublishPort(tn.publish[i]).value)
    {
    }
  }

  /** ValidatePublish: every failure of every tailnet together. */
  method ValidatePublish(tailnets: seq<Tailnet>, access: R.RuleSet) returns (failures: seq<Failure>)
    ensures failures == [] <==> forall tn :: tn in tailnets ==> Publishable(tn, access)
    ensures failures == [] <==> forall tn :: tn in tailnets ==> tn.publish == [] || PublishesWell(tn, access)
  {
    forall tn
      ensures Publishable(tn, access) <==> tn.publish == [] || PublishesWell(tn, access)
    {
      PublishableMeans(tn, access);
    }
    failures := [];
    for i := 0 to |tailnets|
      invariant failures == [] <==> forall tn :: tn in tailnets[..i] ==> Publishable(tn, access)
    {
      assert tailnets[..i + 1] == tailnets[..i] + [tailnets[i]];
      var more := ValidateOne(tailnets[i], access);
      failures := failures + more;
    }
    assert tailnets[..|tailnets|] == tailnets;
  }

  lemma CoversExactly(access: R.RuleSet, devices: map<string, string>, id: string, p: N.Packet)
    requires R.ValidSet(access, devices.Keys)
    requires A.OneDeviceEach(devices) && id in devices && p.input == devices[id]
    ensures (exists rule :: rule in access.rules && K.AllowsHost(rule, devices, p)) <==> Covers(access, id, p.protocol, p.port)
    ensures K.FromDeclared(devices, p)
  {
    forall rule | rule in access.rules
      ensures K.AllowsHost(rule, devices, p) <==>
        rule.from == id && rule.to == R.HOST && R.PortsCover(rule.ports, p.protocol, p.port)
    {
    }
  }

  /** CoversHost is exact for the compiled chain: a new packet of one namespace to a port of
      the host is accepted in the mode enforce exactly when the rule set covers the port, or it
      is a DNS query to the forwarder. The mode observe accepts it and logs exactly the rest. */
  lemma CoversHostIsReachable(access: R.RuleSet, topo: C.Topology, mark: string, id: string, p: N.Packet)
    requires R.ValidSet(access, topo.devices.Keys) && topo.resolver.Some?
    requires A.OneDeviceEach(topo.devices) && id in topo.devices
    requires p.input == topo.devices[id] && !p.established
    ensures var chain := F.LiveOut(C.CompiledV4(access, topo, A.Closing(access.mode)), mark);
      var open := Covers(access, id, p.protocol, p.port) || K.IsQuery(topo.resolver.value, p);
      && N.Walk(chain, p) == (if open || access.mode == R.OBSERVE then N.Accepted else N.Dropped)
      && (N.Logged(chain, p) <==> access.mode == R.OBSERVE && !open && p.token)
  {
    A.OutCorrectV4(access, topo, mark, p);
    CoversExactly(access, topo.devices, id, p);
  }

  lemma CoversHostIsReachableV6(access: R.RuleSet, topo: C.TopologyIPv6, mark: string, id: string, p: N.Packet)
    requires R.ValidSet(access, topo.devices.Keys) && C.RangesOf(topo.prefixes).Some?
    requires A.OneDeviceEach(topo.devices) && id in topo.devices
    requires p.input == topo.devices[id] && !p.established
    ensures var chain := F.LiveOut(C.CompiledV6(access, topo, A.Closing(access.mode)), mark);
      var open := Covers(access, id, p.protocol, p.port) || K.IsDiscovery(p);
      && N.Walk(chain, p) == (if open || access.mode == R.OBSERVE then N.Accepted else N.Dropped)
      && (N.Logged(chain, p) <==> access.mode == R.OBSERVE && !open && p.token)
  {
    A.OutCorrectV6(access, topo, mark, p);
    CoversExactly(access, topo.devices, id, p);
  }

  /** Published ports are reachable: a configuration that ValidatePublish accepts has no
      published port that the written out chain would drop, in either family. */
  lemma PublishedPortIsReachable(tn: Tailnet, access: R.RuleSet, topo: C.Topology, topo6: C.TopologyIPv6,
                                 mark: string, entry: string, p: N.Packet)
    requires R.ValidSet(access, topo.devices.Keys) && topo.resolver.Some?
    requires topo6.devices == topo.devices && C.RangesOf(topo6.prefixes).Some?
    requires tn.id in topo.devices && Publishable(tn, access) && entry in tn.publish
    requires p.input == topo.devices[tn.id]
    requires R.ParsePublishPort(entry) == Ok(R.Port(p.protocol, p.port, p.port))
    ensures N.Walk(F.LiveOut(C.CompiledV4(access, topo, A.Closing(access.mode)), mark), p) == N.Accepted
    ensures N.Walk(F.LiveOut(C.CompiledV6(access, topo6, A.Closing(access.mode)), mark), p) == N.Accepted
  {
    var port := R.ParsePublishPort(entry).value;
    var i :| 0 <= i < |tn.publish| && tn.publish[i] == entry;
    assert GoodEntry(tn, access, i);
    var rule :| rule in access.rules && rule.from == tn.id && rule.to == R.HOST && R.PortsCover(rule.ports, port.protocol, port.low);
    assert R.ValidRule(rule, topo.devices.Keys);
    assert K.AllowsHost(rule, topo.devices, p);
    A.OutCorrectV4(access, topo, mark, p);
    A.OutCorrectV6(access, topo6, mark, p);
  }
}
