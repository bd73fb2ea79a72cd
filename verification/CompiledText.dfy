/** The compiled set is always a set that the fingerprint reads without ambiguity. */
module CompiledText {
  import opened Text
  import N = Netfilter
  import R = AccessRules
  import C = AccessCompile
  import F = RestoreFile
  import P = Fingerprint

  predicate CleanMatch(m: N.Match, bytes: nat) {
    match m
    case InDevice(device) => P.PlainText(device)
    case OutDevice(device) => P.PlainText(device)
    case Destination(address) => |address| == bytes
    case OutsideRange(range) => |range.low| == bytes && |range.high| == bytes
    case Protocol(protocol) => P.PlainText(protocol)
    case IcmpKind(kind) => P.PlainText(kind)
    case Comment(comment) => P.PlainText(comment)
    case _ => true
  }

  predicate CleanMatches(ms: seq<N.Match>, bytes: nat) {
    forall m :: m in ms ==> CleanMatch(m, bytes)
  }

  predicate CleanRules(rules: seq<N.Rule>, chain: string, bytes: nat) {
    forall r :: r in rules ==> r.chain == chain && CleanMatches(r.matches, bytes)
  }

  lemma ItoaPlain(n: nat)
    ensures P.PlainText(Itoa(n))
  {
    assert forall i :: 0 <= i < |Itoa(n)| ==> IsDigit(Itoa(n)[i]);
  }

  lemma ConcatPlain(a: string, b: string)
    requires P.PlainText(a) && P.PlainText(b)
    ensures P.PlainText(a + b)
  {
  }

  lemma TargetsPlain()
    ensures P.PlainText("ACCEPT") && P.PlainText("DROP") && P.PlainText("RETURN") && P.PlainText("LOG")
    ensures P.PlainText("-A") && P.PlainText("-j")
  {
  }

  lemma PrefixesPlain()
    ensures P.PlainText("--log-prefix") && P.PlainText("hydrascale-would-deny: ")
  {
  }

  lemma ChainsPlain()
    ensures P.PlainText(C.FORWARD_CHAIN) && P.PlainText(C.OUT_CHAIN)
  {
  }

  lemma LiteralsPlain()
    ensures P.PlainText("ACCEPT") && P.PlainText("DROP") && P.PlainText("RETURN") && P.PlainText("LOG")
    ensures P.PlainText("-A") && P.PlainText("-j") && P.PlainText("--log-prefix") && P.PlainText("hydrascale-would-deny: ")
    ensures P.PlainText(C.FORWARD_CHAIN) && P.PlainText(C.OUT_CHAIN)
  {
    TargetsPlain();
    PrefixesPlain();
    ChainsPlain();
  }

  lemma ShortTokensPlain()
    ensures P.PlainText("-i") && P.PlainText("-o") && P.PlainText("!") && P.PlainText("-d") && P.PlainText("-m") && P.PlainText("-p")
    ensures P.PlainText(N.DEVICE_PREFIX + "+")
  {
  }

  lemma RangeTokensPlain()
    ensures P.PlainText("iprange") && P.PlainText("--dst-range") && P.PlainText("--dport") && P.PlainText("--icmpv6-type")
  {
  }

  lemma StateTokensPlain()
    ensures P.PlainText("conntrack") && P.PlainText("--ctstate") && P.PlainText("RELATED,ESTABLISHED") && P.PlainText("DNAT")
  {
  }

  lemma LimitTokensPlain()
    ensures P.PlainText("limit") && P.PlainText("--limit") && P.PlainText("60/minute") && P.PlainText("comment") && P.PlainText("--comment")
  {
  }

  lemma TokensPlain()
    ensures P.PlainText("-i") && P.PlainText("-o") && P.PlainText("!") && P.PlainText("-d") && P.PlainText("-m") && P.PlainText("-p")
    ensures P.PlainText("iprange") && P.PlainText("--dst-range") && P.PlainText("--dport") && P.PlainText("conntrack")
    ensures P.PlainText("--ctstate") && P.PlainText("RELATED,ESTABLISHED") && P.PlainText("DNAT") && P.PlainText("--icmpv6-type")
    ensures P.PlainText("limit") && P.PlainText("--limit") && P.PlainText("60/minute") && P.PlainText("comment") && P.PlainText("--comment")
    ensures P.PlainText(N.DEVICE_PREFIX + "+")
  {
    ShortTokensPlain();
    RangeTokensPlain();
    StateTokensPlain();
    LimitTokensPlain();
  }

  /** The last argument of a match is the only one that is not a literal. */
  lemma LastPlain(m: N.Match, text: P.AddressText, bytes: nat)
    requires P.Faithful(text, bytes) && CleanMatch(m, bytes)
    ensures var args := P.MatchArgs(m, text); P.PlainText(args[|args| - 1])
  {
    TokensPlain();
    match m
    case OutsideRange(range) =>
      assert P.PlainText("-");
      ConcatPlain(text(range.low), "-");
      ConcatPlain(text(range.low) + "-", text(range.high));
    case DestinationPort(low, high) =>
      ItoaPlain(low);
      ItoaPlain(high);
      assert P.PlainText(":");
      ConcatPlain(Itoa(low), ":");
      ConcatPlain(Itoa(low) + ":", Itoa(high));
    case _ =>
  }

  lemma MatchArgsPlain(m: N.Match, text: P.AddressText, bytes: nat)
    requires P.Faithful(text, bytes) && CleanMatch(m, bytes)
    ensures P.PlainArgs(P.MatchArgs(m, text)) && P.OfFamily(m, bytes)
  {
    LastPlain(m, text, bytes);
    TokensPlain();
    var args := P.MatchArgs(m, text);
    assert P.PlainText(args[0]);
    assert |args| > 2 ==> P.PlainText(args[1]);
    assert |args| > 3 ==> P.PlainText(args[2]);
    assert |args| > 4 ==> P.PlainText(args[3]);
    assert |args| <= 5;
  }

  lemma {:induction false} BodyPlain(ms: seq<N.Match>, t: N.Target, text: P.AddressText, bytes: nat)
    requires P.Faithful(text, bytes) && CleanMatches(ms, bytes)
    ensures P.PlainArgs(P.Body(ms, t, text))
  {
    LiteralsPlain();
    if ms != [] {
      MatchArgsPlain(ms[0], text, bytes);
      BodyPlain(ms[1..], t, text, bytes);
    }
  }

  lemma RulePlain(r: N.Rule, text: P.AddressText, bytes: nat)
    requires P.Faithful(text, bytes) && CleanMatches(r.matches, bytes)
    requires r.chain == C.FORWARD_CHAIN || r.chain == C.OUT_CHAIN
    ensures P.PlainArgs(P.Args(r, text)) && P.RuleOfFamily(r, bytes)
  {
    LiteralsPlain();
    BodyPlain(r.matches, r.target, text, bytes);
    forall m | m in r.matches
      ensures P.OfFamily(m, bytes)
    {
      MatchArgsPlain(m, text, bytes);
    }
  }

  lemma CleanIsSerializable(c: C.Compiled, text: P.AddressText, bytes: nat)
    requires P.Faithful(text, bytes) && c.out != []
    requires CleanRules(c.guard, C.FORWARD_CHAIN, bytes) && CleanRules(c.forward, C.FORWARD_CHAIN, bytes) && CleanRules(c.out, C.OUT_CHAIN, bytes)
    ensures P.Serializable(c, text, bytes)
  {
    forall r | r in c.forward + c.out + c.guard
      ensures P.RuleOfFamily(r, bytes) && P.PlainArgs(P.Args(r, text))
    {
      RulePlain(r, text, bytes);
    }
  }

  predicate PlainDevices(devices: map<string, string>) {
    forall id :: id in devices ==> P.PlainText(devices[id])
  }

  predicate RangesOfFamily(ranges: seq<N.Range>, bytes: nat) {
    forall r :: r in ranges ==> |r.low| == bytes && |r.high| == bytes
  }

  lemma RuleMatchClean(rule: R.Rule, devices: map<string, string>, private: seq<N.Range>, bytes: nat)
    requires PlainDevices(devices) && RangesOfFamily(private, bytes)
    ensures C.CompileRule(rule, devices, private).Ok? ==> CleanMatches(C.CompileRule(rule, devices, private).value.1, bytes)
  {
  }

  lemma PortMatchClean(entry: string, bytes: nat)
    ensures CleanMatches(C.PortMatch(entry), bytes)
  {
    R.ParsePortIsPort(entry);
  }

  lemma RulesOfClean(rule: R.Rule, chain: string, devices: map<string, string>, private: seq<N.Range>, bytes: nat)
    requires PlainDevices(devices) && RangesOfFamily(private, bytes)
    ensures CleanRules(C.RulesOf(rule, chain, devices, private), chain, bytes)
  {
    RuleMatchClean(rule, devices, private, bytes);
    if C.CompileRule(rule, devices, private).Ok? {
      var ms := C.CompileRule(rule, devices, private).value.1;
      var alts := C.WithPorts(ms, rule.ports);
      forall i | 0 <= i < |alts|
        ensures CleanMatches(alts[i], bytes)
      {
        if rule.ports != [] {
          PortMatchClean(rule.ports[i], bytes);
        }
      }
    }
  }

  lemma {:induction false} AllRulesClean(rules: seq<R.Rule>, chain: string, devices: map<string, string>, private: seq<N.Range>, bytes: nat)
    requires PlainDevices(devices) && RangesOfFamily(private, bytes)
    ensures CleanRules(C.AllRules(rules, chain, devices, private), chain, bytes)
  {
    if rules != [] {
      AllRulesClean(rules[..|rules| - 1], chain, devices, private, bytes);
      RulesOfClean(rules[|rules| - 1], chain, devices, private, bytes);
    }
  }

  lemma {:induction false} ListenClean(ids: seq<string>, devices: map<string, string>, ports: map<string, nat>, bytes: nat)
    requires forall id :: id in ids ==> id in devices
    requires PlainDevices(devices)
    ensures CleanRules(C.ListenRules(ids, devices, ports), C.FORWARD_CHAIN, bytes)
  {
    if ids != [] {
      assert ids[|ids| - 1] in ids;
      ListenClean(ids[..|ids| - 1], devices, ports, bytes);
      assert P.PlainText("udp");
    }
  }

  lemma DiscoveryRuleClean(device: string, kind: string, bytes: nat)
    requires P.PlainText(device) && kind in [C.SOLICITATION, C.ADVERTISEMENT]
    ensures C.DiscoveryRule(device, kind).chain == C.OUT_CHAIN && CleanMatches(C.DiscoveryRule(device, kind).matches, bytes)
  {
    assert P.PlainText("ipv6-icmp");
    assert P.PlainText(C.SOLICITATION);
    assert P.PlainText(C.ADVERTISEMENT);
  }

  lemma {:induction false} DiscoveryClean(ids: seq<string>, devices: map<string, string>, bytes: nat)
    requires forall id :: id in ids ==> id in devices
    requires PlainDevices(devices)
    ensures CleanRules(C.DiscoveryRules(ids, devices), C.OUT_CHAIN, bytes)
  {
    if ids != [] {
      assert ids[|ids| - 1] in ids;
      DiscoveryClean(ids[..|ids| - 1], devices, bytes);
      var d := devices[ids[|ids| - 1]];
      DiscoveryRuleClean(d, C.SOLICITATION, bytes);
      DiscoveryRuleClean(d, C.ADVERTISEMENT, bytes);
    }
  }

  lemma {:induction false} OutTailsClean(ids: seq<string>, devices: map<string, string>, tail: C.Tail, bytes: nat)
    requires forall id :: id in ids ==> id in devices
    requires PlainDevices(devices) && forall r :: r in tail ==> CleanMatches(r.matches, bytes)
    ensures CleanRules(C.OutTails(ids, devices, tail), C.OUT_CHAIN, bytes)
  {
    if ids != [] {
      assert ids[|ids| - 1] in ids;
      OutTailsClean(ids[..|ids| - 1], devices, tail, bytes);
      var close := C.CloseOut(devices[ids[|ids| - 1]], tail);
      forall i | 0 <= i < |close|
        ensures CleanMatches(close[i].matches, bytes)
      {
        assert tail[i] in tail;
      }
    }
  }

  lemma OutChainClean(access: R.RuleSet, ids: seq<string>, devices: map<string, string>, open: seq<N.Rule>, private: seq<N.Range>, tail: C.Tail, bytes: nat)
    requires forall id :: id in ids ==> id in devices
    requires PlainDevices(devices) && RangesOfFamily(private, bytes) && CleanRules(open, C.OUT_CHAIN, bytes)
    requires forall r :: r in tail ==> CleanMatches(r.matches, bytes)
    ensures CleanRules(C.OutChain(access, ids, devices, open, private, tail), C.OUT_CHAIN, bytes)
  {
    AllRulesClean(access.rules, C.OUT_CHAIN, devices, private, bytes);
    OutTailsClean(ids, devices, tail, bytes);
  }

  lemma TablesFamily()
    ensures RangesOfFamily(C.PRIVATE_V4, 4) && RangesOfFamily(C.PRIVATE_V6, 16)
  {
  }

  lemma {:induction false} ResolverClean(ids: seq<string>, devices: map<string, string>, e: C.Endpoint, bytes: nat)
    requires forall id :: id in ids ==> id in devices
    requires PlainDevices(devices) && |e.address| == bytes
    ensures CleanRules(C.ResolverRules(ids, devices, e), C.OUT_CHAIN, bytes)
  {
    if ids != [] {
      assert ids[|ids| - 1] in ids;
      ResolverClean(ids[..|ids| - 1], devices, e, bytes);
      assert P.PlainText("udp") && P.PlainText("tcp");
    }
  }

  lemma ForwardChainClean(access: R.RuleSet, devices: map<string, string>, listen: seq<N.Rule>, private: seq<N.Range>, tail: C.Tail, bytes: nat)
    requires PlainDevices(devices) && RangesOfFamily(private, bytes) && CleanRules(listen, C.FORWARD_CHAIN, bytes)
    requires forall r :: r in tail ==> CleanMatches(r.matches, bytes)
    ensures CleanRules(C.ForwardChain(access, devices, listen, private, tail), C.FORWARD_CHAIN, bytes)
  {
    AllRulesClean(access.rules, C.FORWARD_CHAIN, devices, private, bytes);
    var close := C.CloseForward(tail);
    forall i | 0 <= i < |close|
      ensures CleanMatches(close[i].matches, bytes)
    {
      assert tail[i] in tail;
    }
  }

  lemma {:induction false} RangesFamily(prefixes: seq<C.Prefix>, bytes: nat)
    requires forall q :: q in prefixes ==> q.Cidr? && |q.address| == bytes
    ensures C.RangesOf(prefixes).Some? && RangesOfFamily(C.RangesOf(prefixes).value, bytes)
  {
    if prefixes != [] {
      assert prefixes[|prefixes| - 1] in prefixes;
      RangesFamily(prefixes[..|prefixes| - 1], bytes);
    }
  }

  lemma TailsClean(tail: C.Tail, bytes: nat)
    requires tail == C.ENFORCE_TAIL || tail == C.OBSERVE_TAIL
    ensures forall r :: r in tail ==> CleanMatches(r.matches, bytes)
  {
  }

  /** Every IPv4 set that Compile returns fits the fingerprint, when no device name holds a
      NUL or a newline. */
  lemma CompiledV4Serializable(access: R.RuleSet, topo: C.Topology, tail: C.Tail, text: P.AddressText)
    requires P.Faithful(text, 4) && PlainDevices(topo.devices) && topo.resolver.Some? && |topo.resolver.value.address| == 4
    requires tail == C.ENFORCE_TAIL || tail == C.OBSERVE_TAIL
    ensures P.Serializable(C.CompiledV4(access, topo, tail), text, 4)
  {
    C.InListing(topo.devices);
    var ids := Listing(topo.devices.Keys);
    TailsClean(tail, 4);
    TablesFamily();
    ListenClean(ids, topo.devices, topo.ports, 4);
    ResolverClean(ids, topo.devices, topo.resolver.value, 4);
    ForwardChainClean(access, topo.devices, C.ListenRules(ids, topo.devices, topo.ports), C.PRIVATE_V4, tail, 4);
    OutChainClean(access, ids, topo.devices, C.ResolverRules(ids, topo.devices, topo.resolver.value), C.PRIVATE_V4, tail, 4);
    CleanIsSerializable(C.CompiledV4(access, topo, tail), text, 4);
  }

  lemma CompiledV6Serializable(access: R.RuleSet, topo: C.TopologyIPv6, tail: C.Tail, text: P.AddressText)
    requires P.Faithful(text, 16) && PlainDevices(topo.devices)
    requires forall q :: q in topo.prefixes ==> q.Cidr? && |q.address| == 16
    requires forall d :: d in topo.guarded ==> P.PlainText(d)
    requires tail == C.ENFORCE_TAIL || tail == C.OBSERVE_TAIL
    ensures C.RangesOf(topo.prefixes).Some?
    ensures P.Serializable(C.CompiledV6(access, topo, tail), text, 16)
  {
    C.InListing(topo.devices);
    var ids := Listing(topo.devices.Keys);
    TailsClean(tail, 16);
    RangesFamily(topo.prefixes, 16);
    var private := C.PRIVATE_V6 + C.RangesOf(topo.prefixes).value;
    TablesFamily();
    ListenClean(ids, topo.devices, topo.ports, 16);
    DiscoveryClean(ids, topo.devices, 16);
    ForwardChainClean(access, topo.devices, C.ListenRules(ids, topo.devices, topo.ports), private, tail, 16);
    OutChainClean(access, ids, topo.devices, C.DiscoveryRules(ids, topo.devices), private, tail, 16);
    CleanIsSerializable(C.CompiledV6(access, topo, tail), text, 16);
  }
}
