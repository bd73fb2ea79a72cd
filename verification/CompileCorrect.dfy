/** What the written chains do to a packet, for every rule set, topology and packet. */
module CompileCorrect {
  import opened Text
  import N = Netfilter
  import R = AccessRules
  import C = AccessCompile
  import F = RestoreFile

  // ----- the meaning of a rule set, without chains

  /** The packet leaves the namespace of the tailnet that a rule names as its source. */
  predicate Sends(from: string, devices: map<string, string>, p: N.Packet) {
    from != R.HOST && from in devices && devices[from] == p.input
  }

  /** The internet: no namespace device, and no address of an excluded range. */
  predicate ToInternet(private: seq<N.Range>, p: N.Packet) {
    !N.IsNamespaceDevice(p.output) && forall r :: r in private ==> !N.InRange(p.destination, r)
  }

  /** The rule allows the packet to cross the host. */
  predicate AllowsForward(rule: R.Rule, devices: map<string, string>, private: seq<N.Range>, p: N.Packet) {
    && Sends(rule.from, devices, p)
    && rule.to != R.HOST
    && (if rule.to == R.INTERNET then ToInternet(private, p) else rule.to in devices && devices[rule.to] == p.output)
    && R.PortsCover(rule.ports, p.protocol, p.port)
  }

  /** The rule allows the packet to enter the host. */
  predicate AllowsHost(rule: R.Rule, devices: map<string, string>, p: N.Packet) {
    Sends(rule.from, devices, p) && rule.to == R.HOST && R.PortsCover(rule.ports, p.protocol, p.port)
  }

  /** UDP that the host redirected to the port of the tailscaled of that namespace. */
  predicate ToListenPort(devices: map<string, string>, ports: map<string, nat>, p: N.Packet) {
    p.natted && p.protocol == "udp" &&
    exists id :: id in devices && id in ports && devices[id] == p.output && ports[id] == p.port
  }

  predicate FromDeclared(devices: map<string, string>, p: N.Packet) {
    exists id :: id in devices && devices[id] == p.input
  }

  predicate ToResolver(devices: map<string, string>, e: C.Endpoint, p: N.Packet) {
    FromDeclared(devices, p) && IsQuery(e, p)
  }

  predicate Discovers(devices: map<string, string>, p: N.Packet) {
    FromDeclared(devices, p) && IsDiscovery(p)
  }

  predicate Guarded(upstreams: seq<string>, p: N.Packet) {
    p.input in upstreams && !N.IsNamespaceDevice(p.output)
  }

  // ----- which rules the compiler emits

  lemma {:induction false} InAllRules(rules: seq<R.Rule>, chain: string, devices: map<string, string>, private: seq<N.Range>, r: N.Rule)
    ensures r in C.AllRules(rules, chain, devices, private) <==>
      exists rule :: rule in rules && r in C.RulesOf(rule, chain, devices, private)
  {
    if rules != [] {
      var front, last := rules[..|rules| - 1], rules[|rules| - 1];
      InAllRules(front, chain, devices, private, r);
      assert rules == front + [last];
      assert forall rule :: rule in rules <==> rule in front || rule == last;
    }
  }

  lemma {:induction false} InListenRules(ids: seq<string>, devices: map<string, string>, ports: map<string, nat>, r: N.Rule)
    requires forall id :: id in ids ==> id in devices
    ensures r in C.ListenRules(ids, devices, ports) <==>
      exists id :: id in ids && id in ports && r == C.ListenRule(devices[id], ports[id])
  {
    if ids != [] {
      var front, last := ids[..|ids| - 1], ids[|ids| - 1];
      InListenRules(front, devices, ports, r);
      assert ids == front + [last];
      assert forall id :: id in ids <==> id in front || id == last;
    }
  }

  // ----- what one compiled rule matches

  lemma AllHoldConcat(a: seq<N.Match>, b: seq<N.Match>, p: N.Packet)
    ensures N.AllHold(a + b, p) <==> N.AllHold(a, p) && N.AllHold(b, p)
  {
    assert forall m :: m in a + b <==> m in a || m in b;
  }

  lemma AllHold2(a: N.Match, b: N.Match, p: N.Packet)
    ensures N.AllHold([a, b], p) <==> N.Holds(a, p) && N.Holds(b, p)
    ensures N.AllHold([a], p) <==> N.Holds(a, p)
  {
    assert a in [a, b] && b in [a, b] && a in [a];
  }

  lemma AllHoldExclude(ranges: seq<N.Range>, p: N.Packet)
    ensures N.AllHold(C.ExcludeRanges(ranges), p) <==> forall r :: r in ranges ==> !N.InRange(p.destination, r)
  {
    var ms := C.ExcludeRanges(ranges);
    if N.AllHold(ms, p) {
      forall r | r in ranges
        ensures !N.InRange(p.destination, r)
      {
        var i :| 0 <= i < |ranges| && ranges[i] == r;
        assert ms[i] in ms;
        assert N.Holds(ms[i], p);
      }
    }
  }

  /** One alternative: the ends and one port entry. */
  lemma AlternativeHolds(ms: seq<N.Match>, ports: seq<string>, i: nat, p: N.Packet)
    requires i < |ports| && R.ParsePort(ports[i]).Ok?
    ensures N.AllHold(C.WithPorts(ms, ports)[i], p) <==> N.AllHold(ms, p) && R.EntryCovers(ports[i], p.protocol, p.port)
  {
    AllHoldConcat(ms, C.PortMatch(ports[i]), p);
    var port := R.ParsePort(ports[i]).value;
    AllHold2(N.Protocol(port.protocol), N.DestinationPort(port.low, port.high), p);
  }

  lemma WithPortsHolds(ms: seq<N.Match>, ports: seq<string>, p: N.Packet)
    requires forall entry :: entry in ports ==> R.ParsePort(entry).Ok?
    ensures (exists alt :: alt in C.WithPorts(ms, ports) && N.AllHold(alt, p))
       <==> N.AllHold(ms, p) && R.PortsCover(ports, p.protocol, p.port)
  {
    if ports == [] {
      assert C.WithPorts(ms, ports) == [ms];
    } else {
      var alts := C.WithPorts(ms, ports);
      forall i | 0 <= i < |ports|
        ensures N.AllHold(alts[i], p) <==> N.AllHold(ms, p) && R.EntryCovers(ports[i], p.protocol, p.port)
      {
        assert ports[i] in ports;
        AlternativeHolds(ms, ports, i, p);
      }
      if N.AllHold(ms, p) && R.PortsCover(ports, p.protocol, p.port) {
        var entry :| entry in ports && R.EntryCovers(entry, p.protocol, p.port);
        var i :| 0 <= i < |ports| && ports[i] == entry;
        assert alts[i] in alts;
      }
    }
  }

  /** The matches that a rule compiles to, before its ports, are its two ends. */
  predicate EndsMatch(rule: R.Rule, devices: map<string, string>, private: seq<N.Range>, p: N.Packet) {
    && Sends(rule.from, devices, p)
    && (rule.to == R.HOST
        || if rule.to == R.INTERNET then ToInternet(private, p) else rule.to in devices && devices[rule.to] == p.output)
  }

  lemma CompiledEnds(rule: R.Rule, devices: map<string, string>, private: seq<N.Range>, p: N.Packet)
    requires R.ValidRule(rule, devices.Keys)
    ensures C.CompileRule(rule, devices, private).Ok?
    ensures var (chain, ms) := C.CompileRule(rule, devices, private).value;
      && chain == (if rule.from == R.HOST then "" else if rule.to == R.HOST then C.OUT_CHAIN else C.FORWARD_CHAIN)
      && (chain != "" ==> (N.AllHold(ms, p) <==> EndsMatch(rule, devices, private, p)))
  {
    if rule.from != R.HOST {
      var source := devices[rule.from];
      if rule.to == R.HOST {
        AllHold2(N.InDevice(source), N.InDevice(source), p);
      } else if rule.to == R.INTERNET {
        AllHoldConcat([N.InDevice(source), N.NotToNamespace], C.ExcludeRanges(private), p);
        AllHold2(N.InDevice(source), N.NotToNamespace, p);
        AllHoldExclude(private, p);
      } else {
        AllHold2(N.InDevice(source), N.OutDevice(devices[rule.to]), p);
      }
    }
  }

  lemma AcceptEachMatches(chain: string, alts: seq<seq<N.Match>>, p: N.Packet)
    ensures (exists r :: r in C.AcceptEach(chain, alts) && N.Matches(r, p)) <==> exists alt :: alt in alts && N.AllHold(alt, p)
  {
    var rules := C.AcceptEach(chain, alts);
    if exists alt :: alt in alts && N.AllHold(alt, p) {
      var alt :| alt in alts && N.AllHold(alt, p);
      var i :| 0 <= i < |alts| && alts[i] == alt;
      assert rules[i] in rules && N.Matches(rules[i], p);
    }
    assert forall r :: r in rules && N.Matches(r, p) ==> r.matches in alts && N.AllHold(r.matches, p);
  }

  lemma RuleMatches(rule: R.Rule, chain: string, devices: map<string, string>, private: seq<N.Range>, p: N.Packet)
    requires R.ValidRule(rule, devices.Keys)
    requires chain in [C.FORWARD_CHAIN, C.OUT_CHAIN]
    ensures (exists r :: r in C.RulesOf(rule, chain, devices, private) && N.Matches(r, p)) <==>
      if chain == C.FORWARD_CHAIN then AllowsForward(rule, devices, private, p) else AllowsHost(rule, devices, p)
  {
    CompiledEnds(rule, devices, private, p);
    C.RulesOfChain(rule, devices, private);
    var (c, ms) := C.CompileRule(rule, devices, private).value;
    if c == chain {
      AcceptEachMatches(chain, C.WithPorts(ms, rule.ports), p);
      WithPortsHolds(ms, rule.ports, p);
    }
  }

  lemma {:induction false} AllRulesAccept(rules: seq<R.Rule>, chain: string, devices: map<string, string>, private: seq<N.Range>)
    ensures N.AcceptRules(C.AllRules(rules, chain, devices, private))
    ensures F.InChain(C.AllRules(rules, chain, devices, private), chain)
  {
    if rules != [] {
      AllRulesAccept(rules[..|rules| - 1], chain, devices, private);
    }
  }

  predicate SomeRuleAllows(access: R.RuleSet, chain: string, devices: map<string, string>, private: seq<N.Range>, p: N.Packet) {
    if chain == C.FORWARD_CHAIN then exists rule :: rule in access.rules && AllowsForward(rule, devices, private, p)
    else exists rule :: rule in access.rules && AllowsHost(rule, devices, p)
  }

  /** The rules of the operator in one chain accept exactly what the rule set allows. */
  lemma RulesWalk(access: R.RuleSet, chain: string, devices: map<string, string>, private: seq<N.Range>, p: N.Packet)
    requires R.ValidSet(access, devices.Keys)
    requires chain in [C.FORWARD_CHAIN, C.OUT_CHAIN]
    ensures var rules := C.AllRules(access.rules, chain, devices, private);
      && !N.Logged(rules, p)
      && N.Walk(rules, p) ==
         if SomeRuleAllows(access, chain, devices, private, p) then N.Accepted else N.Through
  {
    var rules := C.AllRules(access.rules, chain, devices, private);
    AllRulesAccept(access.rules, chain, devices, private);
    N.WalkAcceptRules(rules, p);
    forall rule | rule in access.rules
      ensures (exists r :: r in C.RulesOf(rule, chain, devices, private) && N.Matches(r, p)) <==>
        if chain == C.FORWARD_CHAIN then AllowsForward(rule, devices, private, p) else AllowsHost(rule, devices, p)
    {
      RuleMatches(rule, chain, devices, private, p);
    }
    forall r
      ensures r in rules <==> exists rule :: rule in access.rules && r in C.RulesOf(rule, chain, devices, private)
    {
      InAllRules(access.rules, chain, devices, private, r);
    }
  }

  lemma EstablishedWalk(chain: string, p: N.Packet)
    ensures var first := [N.Rule(chain, C.ESTABLISHED, N.Accept)];
      && N.Walk(first, p) == (if p.established then N.Accepted else N.Through)
      && !N.Logged(first, p)
  {
    var first := N.Rule(chain, C.ESTABLISHED, N.Accept);
    assert N.StateEstablished in C.ESTABLISHED;
    assert [first][1..] == [];
    assert N.Matches(first, p) <==> p.established;
  }

  lemma ListenWalk(ids: seq<string>, devices: map<string, string>, ports: map<string, nat>, p: N.Packet)
    requires forall id :: id in ids <==> id in devices
    ensures var rules := C.ListenRules(ids, devices, ports);
      && N.Walk(rules, p) == (if ToListenPort(devices, ports, p) then N.Accepted else N.Through)
      && !N.Logged(rules, p)
      && F.InChain(rules, C.FORWARD_CHAIN)
  {
    var rules := C.ListenRules(ids, devices, ports);
    forall r
      ensures r in rules <==> exists id :: id in ids && id in ports && r == C.ListenRule(devices[id], ports[id])
    {
      InListenRules(ids, devices, ports, r);
    }
    assert N.AcceptRules(rules);
    N.WalkAcceptRules(rules, p);
    forall id | id in ids && id in ports
      ensures N.Matches(C.ListenRule(devices[id], ports[id]), p) <==>
        p.natted && p.protocol == "udp" && devices[id] == p.output && ports[id] == p.port
    {
      var ms := C.ListenRule(devices[id], ports[id]).matches;
      assert ms[0] in ms && ms[1] in ms && ms[2] in ms && ms[3] in ms;
    }
    if ToListenPort(devices, ports, p) {
      var id :| id in devices && id in ports && devices[id] == p.output && ports[id] == p.port;
      assert C.ListenRule(devices[id], ports[id]) in rules;
    }
  }

  lemma WalkTwo(a: N.Rule, b: N.Rule, p: N.Packet)
    requires a.target.Accept? && b.target.Accept?
    ensures N.Walk([a, b], p) == if N.Matches(a, p) || N.Matches(b, p) then N.Accepted else N.Through
    ensures !N.Logged([a, b], p)
  {
    assert [a, b][1..] == [b] && [b][1..] == [];
    assert N.Walk([b], p) == (if N.Matches(b, p) then N.Accepted else N.Through) && !N.Logged([b], p);
  }

  predicate FromOneOf(ids: seq<string>, devices: map<string, string>, p: N.Packet)
    requires forall id :: id in ids ==> id in devices
  {
    exists id :: id in ids && devices[id] == p.input
  }

  lemma FromLast(ids: seq<string>, devices: map<string, string>, p: N.Packet)
    requires forall id :: id in ids ==> id in devices
    requires ids != []
    ensures FromOneOf(ids, devices, p) <==> FromOneOf(ids[..|ids| - 1], devices, p) || devices[ids[|ids| - 1]] == p.input
  {
    assert ids == ids[..|ids| - 1] + [ids[|ids| - 1]];
    assert forall id :: id in ids <==> id in ids[..|ids| - 1] || id == ids[|ids| - 1];
  }

  predicate IsQuery(e: C.Endpoint, p: N.Packet) {
    p.destination == e.address && p.port == e.port && (p.protocol == "udp" || p.protocol == "tcp")
  }

  lemma ResolverRuleMatches(device: string, e: C.Endpoint, protocol: string, p: N.Packet)
    ensures N.Matches(C.ResolverRule(device, e, protocol), p) <==>
      device == p.input && p.destination == e.address && p.port == e.port && p.protocol == protocol
  {
    var ms := C.ResolverRule(device, e, protocol).matches;
    assert ms[0] in ms && ms[1] in ms && ms[2] in ms && ms[3] in ms;
  }

  lemma {:induction false} ResolverWalk(ids: seq<string>, devices: map<string, string>, e: C.Endpoint, p: N.Packet)
    requires forall id :: id in ids ==> id in devices
    ensures var rules := C.ResolverRules(ids, devices, e);
      && N.Walk(rules, p) == (if FromOneOf(ids, devices, p) && IsQuery(e, p) then N.Accepted else N.Through)
      && !N.Logged(rules, p)
      && F.InChain(rules, C.OUT_CHAIN)
  {
    if ids != [] {
      var front, d := ids[..|ids| - 1], devices[ids[|ids| - 1]];
      FromLast(ids, devices, p);
      ResolverWalk(front, devices, e, p);
      ResolverRuleMatches(d, e, "udp", p);
      ResolverRuleMatches(d, e, "tcp", p);
      WalkTwo(C.ResolverRule(d, e, "udp"), C.ResolverRule(d, e, "tcp"), p);
      N.WalkConcat(C.ResolverRules(front, devices, e), [C.ResolverRule(d, e, "udp"), C.ResolverRule(d, e, "tcp")], p);
    }
  }

  predicate IsDiscovery(p: N.Packet) {
    p.protocol == "ipv6-icmp" && (p.icmpKind == "neighbour-solicitation" || p.icmpKind == "neighbour-advertisement")
  }

  lemma DiscoveryRuleMatches(device: string, kind: string, p: N.Packet)
    ensures N.Matches(C.DiscoveryRule(device, kind), p) <==>
      device == p.input && p.protocol == "ipv6-icmp" && p.icmpKind == kind
  {
    var ms := C.DiscoveryRule(device, kind).matches;
    assert ms[0] in ms && ms[1] in ms && ms[2] in ms;
  }

  lemma {:induction false} DiscoveryWalk(ids: seq<string>, devices: map<string, string>, p: N.Packet)
    requires forall id :: id in ids ==> id in devices
    ensures var rules := C.DiscoveryRules(ids, devices);
      && N.Walk(rules, p) == (if FromOneOf(ids, devices, p) && IsDiscovery(p) then N.Accepted else N.Through)
      && !N.Logged(rules, p)
      && F.InChain(rules, C.OUT_CHAIN)
  {
    if ids != [] {
      var front, d := ids[..|ids| - 1], devices[ids[|ids| - 1]];
      FromLast(ids, devices, p);
      DiscoveryWalk(front, devices, p);
      DiscoveryRuleMatches(d, C.SOLICITATION, p);
      DiscoveryRuleMatches(d, C.ADVERTISEMENT, p);
      WalkTwo(C.DiscoveryRule(d, C.SOLICITATION), C.DiscoveryRule(d, C.ADVERTISEMENT), p);
      N.WalkConcat(C.DiscoveryRules(front, devices), [C.DiscoveryRule(d, C.SOLICITATION), C.DiscoveryRule(d, C.ADVERTISEMENT)], p);
    }
  }

  /** The tail rules under a chain name, and behind a device match. */
  lemma {:induction false} CloseForwardWalk(tail: C.Tail, p: N.Packet)
    ensures N.Walk(C.CloseForward(tail), p) == N.Walk(tail, p)
    ensures N.Logged(C.CloseForward(tail), p) <==> N.Logged(tail, p)
  {
    if tail != [] {
      CloseForwardWalk(tail[1..], p);
      assert C.CloseForward(tail)[1..] == C.CloseForward(tail[1..]);
    }
  }

  lemma {:induction false} CloseOutWalk(device: string, tail: C.Tail, p: N.Packet)
    ensures N.Walk(C.CloseOut(device, tail), p) == if device == p.input then N.Walk(tail, p) else N.Through
    ensures N.Logged(C.CloseOut(device, tail), p) <==> device == p.input && N.Logged(tail, p)
  {
    if tail != [] {
      CloseOutWalk(device, tail[1..], p);
      assert C.CloseOut(device, tail)[1..] == C.CloseOut(device, tail[1..]);
      AllHoldConcat([N.InDevice(device)], tail[0].matches, p);
      AllHold2(N.InDevice(device), N.InDevice(device), p);
    }
  }

  lemma {:induction false} OutTailsWalk(ids: seq<string>, devices: map<string, string>, tail: C.Tail, p: N.Packet)
    requires forall id :: id in ids ==> id in devices
    ensures var here := exists id :: id in ids && devices[id] == p.input;
      && N.Walk(C.OutTails(ids, devices, tail), p) == (if here then N.Walk(tail, p) else N.Through)
      && (N.Logged(C.OutTails(ids, devices, tail), p) <==> here && N.Logged(tail, p))
      && F.InChain(C.OutTails(ids, devices, tail), C.OUT_CHAIN)
  {
    if ids != [] {
      var front, last := ids[..|ids| - 1], ids[|ids| - 1];
      OutTailsWalk(front, devices, tail, p);
      CloseOutWalk(devices[last], tail, p);
      N.WalkConcat(C.OutTails(front, devices, tail), C.CloseOut(devices[last], tail), p);
      assert ids == front + [last];
      assert forall id :: id in ids <==> id in front || id == last;
    }
  }

  lemma {:induction false} GuardWalk(upstreams: seq<string>, p: N.Packet)
    ensures N.Walk(C.GuardRules(upstreams), p) == if Guarded(upstreams, p) then N.Dropped else N.Through
    ensures !N.Logged(C.GuardRules(upstreams), p)
  {
    if upstreams != [] {
      GuardWalk(upstreams[1..], p);
      assert C.GuardRules(upstreams)[1..] == C.GuardRules(upstreams[1..]);
      AllHold2(N.InDevice(upstreams[0]), N.NotToNamespace, p);
      assert upstreams == [upstreams[0]] + upstreams[1..];
    }
  }

  // ----- the written chains

  /** A packet that some rule of the set allows across the host, or that needs no rule. */
  predicate ForwardOpen(access: R.RuleSet, devices: map<string, string>, ports: map<string, nat>, private: seq<N.Range>, p: N.Packet) {
    p.established || ToListenPort(devices, ports, p)
    || exists rule :: rule in access.rules && AllowsForward(rule, devices, private, p)
  }

  lemma MarkerAndReturnWalk(chain: string, mark: string, p: N.Packet)
    ensures N.Walk([F.Marker(chain, mark)], p) == N.Through && !N.Logged([F.Marker(chain, mark)], p)
    ensures N.Walk([F.RETURN_RULE], p) == if N.TouchesNamespace(p) then N.Through else N.Returned
    ensures !N.Logged([F.RETURN_RULE], p)
  {
    AllHold2(N.NotFromNamespace, N.NotToNamespace, p);
    assert [F.Marker(chain, mark)][1..] == [] && [F.RETURN_RULE][1..] == [];
  }

  /** The forward chain of one family, for every packet. */
  lemma ForwardVerdict(access: R.RuleSet, ids: seq<string>, devices: map<string, string>, ports: map<string, nat>,
                       private: seq<N.Range>, guarded: seq<string>, tail: C.Tail, out: seq<N.Rule>, mark: string, p: N.Packet)
    requires R.ValidSet(access, devices.Keys)
    requires forall id :: id in ids <==> id in devices
    ensures var c := C.Compiled(C.GuardRules(guarded), C.ForwardChain(access, devices, C.ListenRules(ids, devices, ports), private, tail), out);
      && N.Walk(F.LiveForward(c, mark), p) ==
         (if Guarded(guarded, p) then N.Dropped
          else if !N.TouchesNamespace(p) then N.Returned
          else if ForwardOpen(access, devices, ports, private, p) then N.Accepted
          else N.Walk(tail, p))
      && (N.Logged(F.LiveForward(c, mark), p) <==>
          !Guarded(guarded, p) && N.TouchesNamespace(p)
          && !ForwardOpen(access, devices, ports, private, p) && N.Logged(tail, p))
  {
    var listen := C.ListenRules(ids, devices, ports);
    var first := [N.Rule(C.FORWARD_CHAIN, C.ESTABLISHED, N.Accept)];
    var rules := C.AllRules(access.rules, C.FORWARD_CHAIN, devices, private);
    var close := C.CloseForward(tail);
    var forward := C.ForwardChain(access, devices, listen, private, tail);
    EstablishedWalk(C.FORWARD_CHAIN, p);
    ListenWalk(ids, devices, ports, p);
    RulesWalk(access, C.FORWARD_CHAIN, devices, private, p);
    CloseForwardWalk(tail, p);
    N.WalkConcat(first, listen, p);
    N.WalkConcat(first + listen, rules, p);
    N.WalkConcat(first + listen + rules, close, p);
    assert forward == first + listen + rules + close;
    var marker := [F.Marker(C.FORWARD_CHAIN, mark)];
    var guard := C.GuardRules(guarded);
    MarkerAndReturnWalk(C.FORWARD_CHAIN, mark, p);
    GuardWalk(guarded, p);
    N.WalkConcat(marker, guard, p);
    N.WalkConcat(marker + guard, [F.RETURN_RULE], p);
    N.WalkConcat(marker + guard + [F.RETURN_RULE], forward, p);
  }

  /** The out chain of one family: open states the traffic that needs no rule. */
  lemma OutVerdict(access: R.RuleSet, ids: seq<string>, devices: map<string, string>, private: seq<N.Range>, tail: C.Tail,
                   openRules: seq<N.Rule>, open: bool, guard: seq<N.Rule>, forward: seq<N.Rule>, mark: string, p: N.Packet)
    requires R.ValidSet(access, devices.Keys)
    requires forall id :: id in ids <==> id in devices
    requires N.Walk(openRules, p) == (if open then N.Accepted else N.Through) && !N.Logged(openRules, p)
    ensures var c := C.Compiled(guard, forward, C.OutChain(access, ids, devices, openRules, private, tail));
      var accepted := p.established || open || exists rule :: rule in access.rules && AllowsHost(rule, devices, p);
      && N.Walk(F.LiveOut(c, mark), p) ==
         (if accepted then N.Accepted else if FromDeclared(devices, p) then N.Walk(tail, p) else N.Through)
      && (N.Logged(F.LiveOut(c, mark), p) <==> !accepted && FromDeclared(devices, p) && N.Logged(tail, p))
  {
    var first := [N.Rule(C.OUT_CHAIN, C.ESTABLISHED, N.Accept)];
    var rules := C.AllRules(access.rules, C.OUT_CHAIN, devices, private);
    var close := C.OutTails(ids, devices, tail);
    assert C.FORWARD_CHAIN[11] != C.OUT_CHAIN[11];
    EstablishedWalk(C.OUT_CHAIN, p);
    RulesWalk(access, C.OUT_CHAIN, devices, private, p);
    OutTailsWalk(ids, devices, tail, p);
    N.WalkConcat(first, openRules, p);
    N.WalkConcat(first + openRules, rules, p);
    N.WalkConcat(first + openRules + rules, close, p);
    var out := C.OutChain(access, ids, devices, openRules, private, tail);
    assert out == first + openRules + rules + close;
    MarkerAndReturnWalk(C.OUT_CHAIN, mark, p);
    N.WalkConcat([F.Marker(C.OUT_CHAIN, mark)], out, p);
  }
}
