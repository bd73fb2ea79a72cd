/** internal/access/compile.go: the compiler from allow rules to the rules of both chains.
    Every function below states the list that one Go function returns; the methods build the
    same list in the loops of the source. */
module AccessCompile {
  import opened Text
  import N = Netfilter
  import R = AccessRules

  const FORWARD_CHAIN := "HYDRASCALE-FWD"
  const OUT_CHAIN := "HYDRASCALE-OUT"

  type Tail = seq<N.Rule>

  /** The rules that close a chain, without the chain name: closing rules carry "". */
  const ENFORCE_TAIL: Tail := [N.Rule("", [], N.Drop)]
  const OBSERVE_TAIL: Tail := [N.Rule("", [N.Limit], N.Log), N.Rule("", [], N.Accept)]

  function TailForMode(mode: string): Option<Tail> {
    if mode == "" || mode == R.ENFORCE then Some(ENFORCE_TAIL)
    else if mode == R.OBSERVE then Some(OBSERVE_TAIL)
    else None
  }

  datatype Endpoint = Endpoint(address: N.Address, port: nat)

  /** resolver is None when net.SplitHostPort refuses the bind address. */
  datatype Topology = Topology(devices: map<string, string>, resolver: Option<Endpoint>, ports: map<string, nat>)

  /** The result of net.ParseCIDR on one host prefix. */
  datatype Prefix = Malformed | Cidr(address: N.Address, ones: nat)

  datatype TopologyIPv6 = TopologyIPv6(
    devices: map<string, string>, ports: map<string, nat>, prefixes: seq<Prefix>, guarded: seq<string>)

  datatype Compiled = Compiled(guard: seq<N.Rule>, forward: seq<N.Rule>, out: seq<N.Rule>)

  datatype Error = InvalidRules | InvalidResolver | InvalidPrefix | NoDevice

  function V4(a: N.Byte, b: N.Byte, c: N.Byte, d: N.Byte): N.Address {
    [a, b, c, d]
  }

  function V6(a: N.Byte, b: N.Byte, fill: N.Byte, last: N.Byte): N.Address {
    [a, b] + seq(13, _ => fill) + [last]
  }

  /** privateRanges. */
  const PRIVATE_V4: seq<N.Range> := [
    N.Range(V4(10, 0, 0, 0), V4(10, 255, 255, 255)),
    N.Range(V4(172, 16, 0, 0), V4(172, 31, 255, 255)),
    N.Range(V4(192, 168, 0, 0), V4(192, 168, 255, 255)),
    N.Range(V4(169, 254, 0, 0), V4(169, 254, 255, 255)),
    N.Range(V4(127, 0, 0, 0), V4(127, 255, 255, 255))
  ]

  /** privateRangesIPv6: fc00::/7, fe80::/10 and ::1. */
  const PRIVATE_V6: seq<N.Range> := [
    N.Range(V6(0xfc, 0, 0, 0), V6(0xfd, 0xff, 0xff, 0xff)),
    N.Range(V6(0xfe, 0x80, 0, 0), V6(0xfe, 0xbf, 0xff, 0xff)),
    N.Range(V6(0, 0, 0, 1), V6(0, 0, 0, 1))
  ]

  /** The number of values that byte i of an address takes under the mask with the given
      number of one bits: 1 for a mask byte 255, 256 for a mask byte 0. The mask byte is
      256 minus this number. */
  function FreeValues(ones: nat, i: nat): (free: nat)
    ensures free in {1, 2, 4, 8, 16, 32, 64, 128, 256}
  {
    if ones >= 8 * i + 8 then 1
    else if ones <= 8 * i then 256
    else
      match ones - 8 * i
      case 1 => 128
      case 2 => 64
      case 3 => 32
      case 4 => 16
      case 5 => 8
      case 6 => 4
      case _ => 2
  }

  /** The byte x & mask, which clears the host bits. */
  function ClearHost(x: N.Byte, free: nat): N.Byte
    requires free in {1, 2, 4, 8, 16, 32, 64, 128, 256}
  {
    x - x % free
  }

  /** The byte x | ^mask, which sets the host bits. */
  function SetHost(x: N.Byte, free: nat): N.Byte
    requires free in {1, 2, 4, 8, 16, 32, 64, 128, 256}
  {
    x - x % free + (free - 1)
  }

  /** The network address that ParseCIDR returns: the address under the mask. */
  function Network(address: N.Address, ones: nat): (n: N.Address)
    ensures |n| == |address|
  {
    seq(|address|, i requires 0 <= i < |address| => ClearHost(address[i], FreeValues(ones, i)))
  }

  /** The last address of the prefix: each byte is ipnet.IP[i] | ^ipnet.Mask[i]. */
  function LastAddress(address: N.Address, ones: nat): (n: N.Address)
    ensures |n| == |address|
  {
    seq(|address|, i requires 0 <= i < |address| => SetHost(Network(address, ones)[i], FreeValues(ones, i)))
  }

  function PrefixRangeOf(address: N.Address, ones: nat): N.Range {
    N.Range(Network(address, ones), LastAddress(address, ones))
  }

  function RangesOf(prefixes: seq<Prefix>): Option<seq<N.Range>> {
    if prefixes == [] then Some([])
    else
      var last := prefixes[|prefixes| - 1];
      match RangesOf(prefixes[..|prefixes| - 1])
      case None => None
      case Some(rs) =>
        if last.Malformed? then None else Some(rs + [PrefixRangeOf(last.address, last.ones)])
  }

  const ESTABLISHED: seq<N.Match> := [N.StateEstablished]

  /** excludeRanges. */
  function ExcludeRanges(ranges: seq<N.Range>): seq<N.Match> {
    seq(|ranges|, i requires 0 <= i < |ranges| => N.OutsideRange(ranges[i]))
  }

  /** compileRule: the chain and the match of one rule. The chain is empty for a rule whose
      source is the host. */
  function CompileRule(rule: R.Rule, devices: map<string, string>, private: seq<N.Range>)
    : Result<(string, seq<N.Match>), Error>
  {
    if rule.from == R.HOST then Ok(("", []))
    else if rule.from !in devices then Err(NoDevice)
    else
      var source := devices[rule.from];
      if rule.to == R.HOST then Ok((OUT_CHAIN, [N.InDevice(source)]))
      else if rule.to == R.INTERNET then
        Ok((FORWARD_CHAIN, [N.InDevice(source), N.NotToNamespace] + ExcludeRanges(private)))
      else if rule.to !in devices then Err(NoDevice)
      else Ok((FORWARD_CHAIN, [N.InDevice(source), N.OutDevice(devices[rule.to])]))
  }

  /** The match of one port entry. An entry that does not parse gives the zero port, as the
      ignored error of parsePort does. */
  function PortMatch(entry: string): seq<N.Match> {
    var p := match R.ParsePort(entry) case Ok(p) => p case Err(_) => R.Port("", 0, 0);
    [N.Protocol(p.protocol), N.DestinationPort(p.low, p.high)]
  }

  /** withPorts. */
  function WithPorts(ms: seq<N.Match>, ports: seq<string>): seq<seq<N.Match>> {
    if ports == [] then [ms] else seq(|ports|, i requires 0 <= i < |ports| => ms + PortMatch(ports[i]))
  }

  function AcceptEach(chain: string, matches: seq<seq<N.Match>>): seq<N.Rule> {
    seq(|matches|, i requires 0 <= i < |matches| => N.Rule(chain, matches[i], N.Accept))
  }

  /** The rules that one allow rule adds to one chain. */
  function RulesOf(rule: R.Rule, chain: string, devices: map<string, string>, private: seq<N.Range>): seq<N.Rule> {
    match CompileRule(rule, devices, private)
    case Err(_) => []
    case Ok((c, ms)) => if c == chain then AcceptEach(chain, WithPorts(ms, rule.ports)) else []
  }

  function AllRules(rules: seq<R.Rule>, chain: string, devices: map<string, string>, private: seq<N.Range>): seq<N.Rule> {
    if rules == [] then []
    else AllRules(rules[..|rules| - 1], chain, devices, private) + RulesOf(rules[|rules| - 1], chain, devices, private)
  }

  function ListenRule(device: string, port: nat): N.Rule {
    N.Rule(FORWARD_CHAIN,
           [N.OutDevice(device), N.Protocol("udp"), N.DestinationPort(port, port), N.StateDNAT], N.Accept)
  }

  /** listenAccepts. */
  function ListenRules(ids: seq<string>, devices: map<string, string>, ports: map<string, nat>): seq<N.Rule>
    requires forall id :: id in ids ==> id in devices
  {
    if ids == [] then []
    else
      var id := ids[|ids| - 1];
      ListenRules(ids[..|ids| - 1], devices, ports) + if id in ports then [ListenRule(devices[id], ports[id])] else []
  }

  function ResolverRule(device: string, e: Endpoint, protocol: string): N.Rule {
    N.Rule(OUT_CHAIN, [N.InDevice(device), N.Destination(e.address), N.Protocol(protocol), N.DestinationPort(e.port, e.port)], N.Accept)
  }

  function ResolverRules(ids: seq<string>, devices: map<string, string>, e: Endpoint): seq<N.Rule>
    requires forall id :: id in ids ==> id in devices
  {
    if ids == [] then []
    else
      var d := devices[ids[|ids| - 1]];
      ResolverRules(ids[..|ids| - 1], devices, e) + [ResolverRule(d, e, "udp"), ResolverRule(d, e, "tcp")]
  }

  function DiscoveryRule(device: string, kind: string): N.Rule {
    N.Rule(OUT_CHAIN, [N.InDevice(device), N.Protocol("ipv6-icmp"), N.IcmpKind(kind)], N.Accept)
  }

  const SOLICITATION := "neighbour-solicitation"
  const ADVERTISEMENT := "neighbour-advertisement"

  function DiscoveryRules(ids: seq<string>, devices: map<string, string>): seq<N.Rule>
    requires forall id :: id in ids ==> id in devices
  {
    if ids == [] then []
    else
      var d := devices[ids[|ids| - 1]];
      DiscoveryRules(ids[..|ids| - 1], devices) + [DiscoveryRule(d, SOLICITATION), DiscoveryRule(d, ADVERTISEMENT)]
  }

  function CloseForward(tail: Tail): seq<N.Rule> {
    seq(|tail|, i requires 0 <= i < |tail| => N.Rule(FORWARD_CHAIN, tail[i].matches, tail[i].target))
  }

  function CloseOut(device: string, tail: Tail): seq<N.Rule> {
    seq(|tail|, i requires 0 <= i < |tail| => N.Rule(OUT_CHAIN, [N.InDevice(device)] + tail[i].matches, tail[i].target))
  }

  function OutTails(ids: seq<string>, devices: map<string, string>, tail: Tail): seq<N.Rule>
    requires forall id :: id in ids ==> id in devices
  {
    if ids == [] then []
    else OutTails(ids[..|ids| - 1], devices, tail) + CloseOut(devices[ids[|ids| - 1]], tail)
  }

  /** The forward chain and the out chain that compile builds for one address family. */
  function ForwardChain(access: R.RuleSet, devices: map<string, string>, listen: seq<N.Rule>, private: seq<N.Range>, tail: Tail): seq<N.Rule> {
    [N.Rule(FORWARD_CHAIN, ESTABLISHED, N.Accept)] + listen
    + AllRules(access.rules, FORWARD_CHAIN, devices, private) + CloseForward(tail)
  }

  function OutChain(access: R.RuleSet, ids: seq<string>, devices: map<string, string>, open: seq<N.Rule>, private: seq<N.Range>, tail: Tail): seq<N.Rule>
    requires forall id :: id in ids ==> id in devices
  {
    [N.Rule(OUT_CHAIN, ESTABLISHED, N.Accept)] + open
    + AllRules(access.rules, OUT_CHAIN, devices, private) + OutTails(ids, devices, tail)
  }

  function GuardRule(upstream: string): N.Rule {
    N.Rule(FORWARD_CHAIN, [N.InDevice(upstream), N.NotToNamespace], N.Drop)
  }

  function GuardRules(upstreams: seq<string>): seq<N.Rule> {
    seq(|upstreams|, i requires 0 <= i < |upstreams| => GuardRule(upstreams[i]))
  }

  lemma InListing(devices: map<string, string>)
    ensures forall id :: id in Listing(devices.Keys) <==> id in devices
  {
    assert forall id :: id in Listing(devices.Keys) <==> id in Elements(Listing(devices.Keys));
  }

  /** The compiled set that Compile returns on a valid input. */
  ghost function CompiledV4(access: R.RuleSet, topo: Topology, tail: Tail): Compiled
    requires topo.resolver.Some?
  {
    InListing(topo.devices);
    var ids := Listing(topo.devices.Keys);
    Compiled(
      [],
      ForwardChain(access, topo.devices, ListenRules(ids, topo.devices, topo.ports), PRIVATE_V4, tail),
      OutChain(access, ids, topo.devices, ResolverRules(ids, topo.devices, topo.resolver.value), PRIVATE_V4, tail))
  }

  ghost function CompiledV6(access: R.RuleSet, topo: TopologyIPv6, tail: Tail): Compiled
    requires RangesOf(topo.prefixes).Some?
  {
    InListing(topo.devices);
    var ids := Listing(topo.devices.Keys);
    var private := PRIVATE_V6 + RangesOf(topo.prefixes).value;
    Compiled(
      GuardRules(topo.guarded),
      ForwardChain(access, topo.devices, ListenRules(ids, topo.devices, topo.ports), private, tail),
      OutChain(access, ids, topo.devices, DiscoveryRules(ids, topo.devices), private, tail))
  }

  /** prefixRange: the byte loop. */
  method PrefixRange(address: N.Address, ones: nat) returns (r: N.Range)
    ensures r == PrefixRangeOf(address, ones)
  {
    var network := Network(address, ones);
    var last := new N.Byte[|network|];
    for i := 0 to |network|
      invariant forall k :: 0 <= k < i ==> last[k] == LastAddress(address, ones)[k]
    {
      last[i] := SetHost(network[i], FreeValues(ones, i));
    }
    assert last[..] == LastAddress(address, ones);
    r := N.Range(network, last[..]);
  }

  method ListenAccepts(ids: seq<string>, devices: map<string, string>, ports: map<string, nat>) returns (rules: seq<N.Rule>)
    requires forall id :: id in ids ==> id in devices
    ensures rules == ListenRules(ids, devices, ports)
  {
    rules := [];
    for i := 0 to |ids|
      invariant rules == ListenRules(ids[..i], devices, ports)
    {
      assert ids[..i + 1][..i] == ids[..i];
      if ids[i] !in ports {
        continue;
      }
      rules := rules + [ListenRule(devices[ids[i]], ports[ids[i]])];
    }
    assert ids[..|ids|] == ids;
  }

  /** The loop over the port matches of one rule. */
  method AppendAccepts(rules: seq<N.Rule>, chain: string, each: seq<seq<N.Match>>) returns (r: seq<N.Rule>)
    ensures r == rules + AcceptEach(chain, each)
  {
    r := rules;
    for k := 0 to |each|
      invariant r == rules + AcceptEach(chain, each)[..k]
    {
      r := r + [N.Rule(chain, each[k], N.Accept)];
    }
    assert AcceptEach(chain, each)[..|each|] == AcceptEach(chain, each);
  }

  lemma AllRulesStep(rules: seq<R.Rule>, i: nat, chain: string, devices: map<string, string>, private: seq<N.Range>)
    requires i < |rules|
    ensures AllRules(rules[..i + 1], chain, devices, private)
         == AllRules(rules[..i], chain, devices, private) + RulesOf(rules[i], chain, devices, private)
  {
    assert rules[..i + 1][..i] == rules[..i];
  }

  /** What one compiled rule adds to each chain. */
  lemma RulesOfChain(rule: R.Rule, devices: map<string, string>, private: seq<N.Range>)
    requires CompileRule(rule, devices, private).Ok?
    ensures var (chain, ms) := CompileRule(rule, devices, private).value;
      && chain in ["", FORWARD_CHAIN, OUT_CHAIN]
      && RulesOf(rule, FORWARD_CHAIN, devices, private) == (if chain == FORWARD_CHAIN then AcceptEach(chain, WithPorts(ms, rule.ports)) else [])
      && RulesOf(rule, OUT_CHAIN, devices, private) == (if chain == OUT_CHAIN then AcceptEach(chain, WithPorts(ms, rule.ports)) else [])
      && FORWARD_CHAIN != OUT_CHAIN && FORWARD_CHAIN != "" && OUT_CHAIN != ""
  {
    assert FORWARD_CHAIN[11] != OUT_CHAIN[11];
  }

  /** The loop body for one rule of the operator: its rules go to the end of one chain. */
  method AppendRule(rule: R.Rule, devices: map<string, string>, private: seq<N.Range>, forward: seq<N.Rule>, out: seq<N.Rule>)
    returns (failed: bool, forward': seq<N.Rule>, out': seq<N.Rule>)
    ensures failed <==> CompileRule(rule, devices, private).Err?
    ensures !failed ==> forward' == forward + RulesOf(rule, FORWARD_CHAIN, devices, private)
    ensures !failed ==> out' == out + RulesOf(rule, OUT_CHAIN, devices, private)
  {
    forward', out' := forward, out;
    var compiled := CompileRule(rule, devices, private);
    if compiled.Err? {
      return true, forward, out;
    }
    RulesOfChain(rule, devices, private);
    var (chain, ms) := compiled.value;
    failed := false;
    if chain != "" {
      var each := WithPorts(ms, rule.ports);
      if chain == FORWARD_CHAIN {
        forward' := AppendAccepts(forward, chain, each);
      } else {
        out' := AppendAccepts(out, chain, each);
      }
    }
  }

  /** The loop over the rules of the operator: both chains grow in the order of the rules. */
  method AppendRules(rules: seq<R.Rule>, devices: map<string, string>, private: seq<N.Range>)
    returns (failed: bool, forward: seq<N.Rule>, out: seq<N.Rule>)
    ensures failed <==> exists rule :: rule in rules && CompileRule(rule, devices, private).Err?
    ensures !failed ==> forward == AllRules(rules, FORWARD_CHAIN, devices, private)
    ensures !failed ==> out == AllRules(rules, OUT_CHAIN, devices, private)
  {
    forward, out := [], [];
    for i := 0 to |rules|
      invariant forall rule :: rule in rules[..i] ==> CompileRule(rule, devices, private).Ok?
      invariant forward == AllRules(rules[..i], FORWARD_CHAIN, devices, private)
      invariant out == AllRules(rules[..i], OUT_CHAIN, devices, private)
    {
      AllRulesStep(rules, i, FORWARD_CHAIN, devices, private);
      AllRulesStep(rules, i, OUT_CHAIN, devices, private);
      failed, forward, out := AppendRule(rules[i], devices, private, forward, out);
      if failed {
        assert rules[i] in rules;
        return;
      }
      assert rules[..i + 1] == rules[..i] + [rules[i]];
    }
    assert rules[..|rules|] == rules;
    failed := false;
  }

  /** The loop over the devices that closes the out chain. */
  method CloseDevices(ids: seq<string>, devices: map<string, string>, tail: Tail) returns (r: seq<N.Rule>)
    requires forall id :: id in ids ==> id in devices
    ensures r == OutTails(ids, devices, tail)
  {
    r := [];
    for i := 0 to |ids|
      invariant r == OutTails(ids[..i], devices, tail)
    {
      assert ids[..i + 1][..i] == ids[..i];
      var closing := CloseOut(devices[ids[i]], tail);
      for k := 0 to |tail|
        invariant r == OutTails(ids[..i], devices, tail) + closing[..k]
      {
        r := r + [N.Rule(OUT_CHAIN, [N.InDevice(devices[ids[i]])] + tail[k].matches, tail[k].target)];
      }
      assert closing[..|tail|] == closing;
    }
    assert ids[..|ids|] == ids;
  }

  /** compile: both chains of one family, or the error of a rule that names no device. */
  method CompileFamily(access: R.RuleSet, ids: seq<string>, devices: map<string, string>,
                       listen: seq<N.Rule>, open: seq<N.Rule>, private: seq<N.Range>, tail: Tail)
    returns (r: Result<Compiled, Error>)
    requires forall id :: id in ids ==> id in devices
    ensures r ==
      if exists rule :: rule in access.rules && CompileRule(rule, devices, private).Err? then Err(NoDevice)
      else Ok(Compiled([], ForwardChain(access, devices, listen, private, tail), OutChain(access, ids, devices, open, private, tail)))
  {
    var failed, forward, out := AppendRules(access.rules, devices, private);
    if failed {
      return Err(NoDevice);
    }
    forward := [N.Rule(FORWARD_CHAIN, ESTABLISHED, N.Accept)] + listen + forward;
    out := [N.Rule(OUT_CHAIN, ESTABLISHED, N.Accept)] + open + out;
    ghost var before := forward;
    for k := 0 to |tail|
      invariant forward == before + CloseForward(tail)[..k]
    {
      forward := forward + [N.Rule(FORWARD_CHAIN, tail[k].matches, tail[k].target)];
    }
    assert CloseForward(tail)[..|tail|] == CloseForward(tail);
    var closing := CloseDevices(ids, devices, tail);
    r := Ok(Compiled([], forward, out + closing));
  }

  /** After Validate, compileRule finds every device. */
  lemma ValidRuleCompiles(rule: R.Rule, devices: map<string, string>, private: seq<N.Range>)
    requires R.ValidRule(rule, devices.Keys)
    ensures CompileRule(rule, devices, private).Ok?
  {
  }

  /** Compile. The order of the checks is the order of the errors. */
  method Compile(access: R.RuleSet, topo: Topology, tail: Tail) returns (r: Result<Compiled, Error>)
    ensures r ==
      if !R.ValidSet(access, topo.devices.Keys) then Err(InvalidRules)
      else if topo.resolver.None? then Err(InvalidResolver)
      else Ok(CompiledV4(access, topo, tail))
  {
    var ids := SortedKeys(topo.devices.Keys);
    SortedListingUnique(ids, Listing(topo.devices.Keys));
    InListing(topo.devices);
    var badMode, badRules := R.Validate(access, topo.devices.Keys);
    if badMode || badRules != [] {
      return Err(InvalidRules);
    }
    if topo.resolver.None? {
      return Err(InvalidResolver);
    }
    var e := topo.resolver.value;
    var dns := [];
    for i := 0 to |ids|
      invariant dns == ResolverRules(ids[..i], topo.devices, e)
    {
      assert ids[..i + 1][..i] == ids[..i];
      dns := dns + [ResolverRule(topo.devices[ids[i]], e, "udp")];
      dns := dns + [ResolverRule(topo.devices[ids[i]], e, "tcp")];
    }
    assert ids[..|ids|] == ids;
    var listen := ListenAccepts(ids, topo.devices, topo.ports);
    r := CompileFamily(access, ids, topo.devices, listen, dns, PRIVATE_V4, tail);
    forall rule | rule in access.rules
      ensures CompileRule(rule, topo.devices, PRIVATE_V4).Ok?
    {
      ValidRuleCompiles(rule, topo.devices, PRIVATE_V4);
    }
  }

  /** CompileIPv6. */
  method CompileIPv6(access: R.RuleSet, topo: TopologyIPv6, tail: Tail) returns (r: Result<Compiled, Error>)
    ensures r ==
      if !R.ValidSet(access, topo.devices.Keys) then Err(InvalidRules)
      else if RangesOf(topo.prefixes).None? then Err(InvalidPrefix)
      else Ok(CompiledV6(access, topo, tail))
  {
    var ids := SortedKeys(topo.devices.Keys);
    SortedListingUnique(ids, Listing(topo.devices.Keys));
    InListing(topo.devices);
    var badMode, badRules := R.Validate(access, topo.devices.Keys);
    if badMode || badRules != [] {
      return Err(InvalidRules);
    }

    var ranges := PRIVATE_V6;
    for i := 0 to |topo.prefixes|
      invariant RangesOf(topo.prefixes[..i]).Some?
      invariant ranges == PRIVATE_V6 + RangesOf(topo.prefixes[..i]).value
    {
      assert topo.prefixes[..i + 1][..i] == topo.prefixes[..i];
      if topo.prefixes[i].Malformed? {
        MalformedPrefix(topo.prefixes, i);
        return Err(InvalidPrefix);
      }
      var range := PrefixRange(topo.prefixes[i].address, topo.prefixes[i].ones);
      ranges := ranges + [range];
    }
    assert topo.prefixes[..|topo.prefixes|] == topo.prefixes;

    var ndp := [];
    for i := 0 to |ids|
      invariant ndp == DiscoveryRules(ids[..i], topo.devices)
    {
      assert ids[..i + 1][..i] == ids[..i];
      ndp := ndp + [DiscoveryRule(topo.devices[ids[i]], SOLICITATION)];
      ndp := ndp + [DiscoveryRule(topo.devices[ids[i]], ADVERTISEMENT)];
    }
    assert ids[..|ids|] == ids;
    var listen := ListenAccepts(ids, topo.devices, topo.ports);
    var c := CompileFamily(access, ids, topo.devices, listen, ndp, ranges, tail);
    forall rule | rule in access.rules
      ensures CompileRule(rule, topo.devices, ranges).Ok?
    {
      ValidRuleCompiles(rule, topo.devices, ranges);
    }
    var guard := [];
    for i := 0 to |topo.guarded|
      invariant guard == GuardRules(topo.guarded)[..i]
    {
      guard := guard + [GuardRule(topo.guarded[i])];
    }
    assert GuardRules(topo.guarded)[..|topo.guarded|] == GuardRules(topo.guarded);
    r := Ok(c.value.(guard := guard));
  }

  lemma {:induction false} MalformedPrefix(prefixes: seq<Prefix>, i: nat)
    requires i < |prefixes| && prefixes[i].Malformed?
    ensures RangesOf(prefixes).None?
    decreases |prefixes|
  {
    if i < |prefixes| - 1 {
      MalformedPrefix(prefixes[..|prefixes| - 1], i);
    }
  }
}
