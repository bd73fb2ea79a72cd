/** What the written chains do to a packet, said in the words of the rule language, of the packet
    and of the addresses alone: every literal stands here as the operator writes it or as the
    kernel prints it. */
module AccessLaws {
  import opened Text
  import N = Netfilter
  import R = AccessRules
  import C = AccessCompile
  import F = RestoreFile
  import K = CompileCorrect
  import A = AccessTheorems
  import P = Fingerprint

  // ----- the addresses that the internet excludes, byte by byte

  /** 10/8, 172.16/12, 192.168/16, 169.254/16 and 127/8. */
  predicate PrivateV4(d: N.Address)
    requires |d| == 4
  {
    || d[0] == 10
    || (d[0] == 172 && 16 <= d[1] <= 31)
    || (d[0] == 192 && d[1] == 168)
    || (d[0] == 169 && d[1] == 254)
    || d[0] == 127
  }

  /** fc00::/7, fe80::/10 and ::1. */
  predicate PrivateV6(d: N.Address)
    requires |d| == 16
  {
    || d[0] == 0xfc || d[0] == 0xfd
    || (d[0] == 0xfe && 0x80 <= d[1] <= 0xbf)
    || (d[15] == 1 && forall i :: 0 <= i < 15 ==> d[i] == 0)
  }

  lemma InOneOf(d: N.Address, ranges: seq<N.Range>)
    ensures A.InSomeRange(d, ranges) <==> exists i :: 0 <= i < |ranges| && N.InRange(d, ranges[i])
  {
  }

  lemma PrefixesAsRanges(d: N.Address, blocks: seq<C.Prefix>, table: seq<N.Range>)
    requires A.OfFamily(blocks, |d|) && C.RangesOf(blocks) == Some(table)
    ensures A.InSomePrefix(d, blocks) <==> exists i :: 0 <= i < |table| && N.InRange(d, table[i])
  {
    A.RangesExact(d, blocks);
    InOneOf(d, table);
  }

  /** A row of the IPv4 table that fixes one byte and bounds the next. */
  lemma RowOfOne(d: N.Address, a: N.Byte, low: N.Byte, high: N.Byte)
    requires |d| == 4
    ensures N.InRange(d, N.Range(C.V4(a, low, 0, 0), C.V4(a, high, 255, 255))) <==> d[0] == a && low <= d[1] <= high
  {
    A.Interval(d, C.V4(a, low, 0, 0), C.V4(a, high, 255, 255), 1);
  }

  lemma RowsInNumbersV4(d: N.Address)
    requires |d| == 4
    ensures (exists i :: 0 <= i < |C.PRIVATE_V4| && N.InRange(d, C.PRIVATE_V4[i])) <==> PrivateV4(d)
  {
    var t := C.PRIVATE_V4;
    RowOfOne(d, 10, 0, 255);
    RowOfOne(d, 172, 16, 31);
    RowOfOne(d, 192, 168, 168);
    RowOfOne(d, 169, 254, 254);
    RowOfOne(d, 127, 0, 255);
    assert N.InRange(d, t[0]) <==> d[0] == 10;
    assert N.InRange(d, t[1]) <==> d[0] == 172 && 16 <= d[1] <= 31;
    assert N.InRange(d, t[2]) <==> d[0] == 192 && d[1] == 168;
    assert N.InRange(d, t[3]) <==> d[0] == 169 && d[1] == 254;
    assert N.InRange(d, t[4]) <==> d[0] == 127;
  }

  /** The excluded blocks of IPv4, in numbers. */
  lemma BlocksInNumbersV4(d: N.Address)
    requires |d| == 4
    ensures A.InSomePrefix(d, A.PRIVATE_BLOCKS_V4) <==> PrivateV4(d)
  {
    A.TablesAreBlocks();
    PrefixesAsRanges(d, A.PRIVATE_BLOCKS_V4, C.PRIVATE_V4);
    RowsInNumbersV4(d);
  }

  lemma UniqueLocal(d: N.Address)
    requires |d| == 16
    ensures N.InRange(d, C.PRIVATE_V6[0]) <==> d[0] == 0xfc || d[0] == 0xfd
  {
    var r := C.PRIVATE_V6[0];
    forall i | 0 <= i < 16
      ensures r.low[i] == (if i == 0 then 0xfc else 0) && r.high[i] == if i == 0 then 0xfd else 0xff
    {
      A.BytesOfV6(0xfc, 0, 0, 0, i);
      A.BytesOfV6(0xfd, 0xff, 0xff, 0xff, i);
    }
    A.Interval(d, r.low, r.high, 0);
  }

  lemma LinkLocal(d: N.Address)
    requires |d| == 16
    ensures N.InRange(d, C.PRIVATE_V6[1]) <==> d[0] == 0xfe && 0x80 <= d[1] <= 0xbf
  {
    var r := C.PRIVATE_V6[1];
    forall i | 0 <= i < 16
      ensures r.low[i] == if i == 0 then 0xfe else if i == 1 then 0x80 else 0
      ensures r.high[i] == if i == 0 then 0xfe else if i == 1 then 0xbf else 0xff
    {
      A.BytesOfV6(0xfe, 0x80, 0, 0, i);
      A.BytesOfV6(0xfe, 0xbf, 0xff, 0xff, i);
    }
    A.Interval(d, r.low, r.high, 1);
  }

  lemma Loopback(d: N.Address)
    requires |d| == 16
    ensures N.InRange(d, C.PRIVATE_V6[2]) <==> d[15] == 1 && forall i :: 0 <= i < 15 ==> d[i] == 0
  {
    var r := C.PRIVATE_V6[2];
    forall i | 0 <= i < 16
      ensures r.low[i] == r.high[i] == if i == 15 then 1 else 0
    {
      A.BytesOfV6(0, 0, 0, 1, i);
    }
    A.Interval(d, r.low, r.high, 16);
  }

  lemma RowsInNumbersV6(d: N.Address)
    requires |d| == 16
    ensures (exists i :: 0 <= i < |C.PRIVATE_V6| && N.InRange(d, C.PRIVATE_V6[i])) <==> PrivateV6(d)
  {
    UniqueLocal(d);
    LinkLocal(d);
    Loopback(d);
    var t := C.PRIVATE_V6;
    assert (exists i :: 0 <= i < |t| && N.InRange(d, t[i])) <==> N.InRange(d, t[0]) || N.InRange(d, t[1]) || N.InRange(d, t[2]);
  }

  /** The excluded blocks of IPv6, in numbers. */
  lemma BlocksInNumbersV6(d: N.Address)
    requires |d| == 16
    ensures A.InSomePrefix(d, A.PRIVATE_BLOCKS_V6) <==> PrivateV6(d)
  {
    A.TablesAreBlocks();
    PrefixesAsRanges(d, A.PRIVATE_BLOCKS_V6, C.PRIVATE_V6);
    RowsInNumbersV6(d);
  }

  // ----- a prefix is its leading bits

  /** Bit b of a byte, counted from the highest. */
  function BitOf(x: N.Byte, b: nat): nat
    requires b < 8
  {
    var weight := [128, 64, 32, 16, 8, 4, 2, 1];
    x / weight[b] % 2
  }

  predicate SameBits(x: N.Byte, y: N.Byte, k: nat)
    requires k <= 8
  {
    forall b :: 0 <= b < k ==> BitOf(x, b) == BitOf(y, b)
  }

  function LeadingBits(ones: nat, i: nat): nat {
    if ones >= 8 * i + 8 then 8 else if ones <= 8 * i then 0 else ones - 8 * i
  }

  lemma FirstBitsOf(x: N.Byte)
    ensures x / 128 == BitOf(x, 0) && x / 64 == 2 * (x / 128) + BitOf(x, 1)
    ensures x / 32 == 2 * (x / 64) + BitOf(x, 2) && x / 16 == 2 * (x / 32) + BitOf(x, 3)
  {
  }

  lemma LastBitsOf(x: N.Byte)
    ensures x / 8 == 2 * (x / 16) + BitOf(x, 4) && x / 4 == 2 * (x / 8) + BitOf(x, 5)
    ensures x / 2 == 2 * (x / 4) + BitOf(x, 6) && x == 2 * (x / 2) + BitOf(x, 7)
  {
  }

  /** One more bit doubles the quotient and adds the bit. */
  lemma NextBit(x: N.Byte, y: N.Byte, k: nat, q: nat, q': nat, r: nat, r': nat)
    requires k < 8 && (SameBits(x, y, k) <==> q == q')
    requires r == 2 * q + BitOf(x, k) && r' == 2 * q' + BitOf(y, k)
    ensures SameBits(x, y, k + 1) <==> r == r'
  {
    assert SameBits(x, y, k + 1) <==> SameBits(x, y, k) && BitOf(x, k) == BitOf(y, k);
    BitBelowTwo(x, k);
    BitBelowTwo(y, k);
  }

  lemma BitBelowTwo(x: N.Byte, k: nat)
    requires k < 8
    ensures 0 <= BitOf(x, k) < 2
  {
  }

  lemma HighBits(x: N.Byte, y: N.Byte)
    ensures SameBits(x, y, 1) <==> x / 128 == y / 128
    ensures SameBits(x, y, 2) <==> x / 64 == y / 64
  {
    FirstBitsOf(x);
    FirstBitsOf(y);
    NextBit(x, y, 0, 0, 0, x / 128, y / 128);
    NextBit(x, y, 1, x / 128, y / 128, x / 64, y / 64);
  }

  lemma MiddleBits(x: N.Byte, y: N.Byte)
    ensures SameBits(x, y, 3) <==> x / 32 == y / 32
    ensures SameBits(x, y, 4) <==> x / 16 == y / 16
  {
    FirstBitsOf(x);
    FirstBitsOf(y);
    HighBits(x, y);
    NextBit(x, y, 2, x / 64, y / 64, x / 32, y / 32);
    NextBit(x, y, 3, x / 32, y / 32, x / 16, y / 16);
  }

  lemma LowBits(x: N.Byte, y: N.Byte)
    ensures SameBits(x, y, 5) <==> x / 8 == y / 8
    ensures SameBits(x, y, 6) <==> x / 4 == y / 4
  {
    LastBitsOf(x);
    LastBitsOf(y);
    MiddleBits(x, y);
    NextBit(x, y, 4, x / 16, y / 16, x / 8, y / 8);
    NextBit(x, y, 5, x / 8, y / 8, x / 4, y / 4);
  }

  lemma LastBits(x: N.Byte, y: N.Byte)
    ensures SameBits(x, y, 7) <==> x / 2 == y / 2
    ensures SameBits(x, y, 8) <==> x == y
  {
    LastBitsOf(x);
    LastBitsOf(y);
    LowBits(x, y);
    NextBit(x, y, 6, x / 4, y / 4, x / 2, y / 2);
    NextBit(x, y, 7, x / 2, y / 2, x, y);
  }

  lemma ClearedLow(x: N.Byte, y: N.Byte)
    ensures C.ClearHost(x, 1) == C.ClearHost(y, 1) <==> x == y
    ensures C.ClearHost(x, 2) == C.ClearHost(y, 2) <==> x / 2 == y / 2
    ensures C.ClearHost(x, 4) == C.ClearHost(y, 4) <==> x / 4 == y / 4
    ensures C.ClearHost(x, 8) == C.ClearHost(y, 8) <==> x / 8 == y / 8
  {
  }

  lemma ClearedHigh(x: N.Byte, y: N.Byte)
    ensures C.ClearHost(x, 16) == C.ClearHost(y, 16) <==> x / 16 == y / 16
    ensures C.ClearHost(x, 32) == C.ClearHost(y, 32) <==> x / 32 == y / 32
    ensures C.ClearHost(x, 64) == C.ClearHost(y, 64) <==> x / 64 == y / 64
    ensures C.ClearHost(x, 128) == C.ClearHost(y, 128) <==> x / 128 == y / 128
    ensures C.ClearHost(x, 256) == C.ClearHost(y, 256)
  {
  }

  /** Clearing the last bits leaves equal bytes exactly when the leading bits agree. */
  lemma ByteWith(x: N.Byte, y: N.Byte, free: nat, k: nat)
    requires k <= 8 && free == [256, 128, 64, 32, 16, 8, 4, 2, 1][k]
    ensures C.ClearHost(x, free) == C.ClearHost(y, free) <==> SameBits(x, y, k)
  {
    HighBits(x, y);
    MiddleBits(x, y);
    LowBits(x, y);
    LastBits(x, y);
    ClearedLow(x, y);
    ClearedHigh(x, y);
  }

  lemma ByteUnderMask(x: N.Byte, y: N.Byte, ones: nat, i: nat)
    ensures C.ClearHost(x, C.FreeValues(ones, i)) == C.ClearHost(y, C.FreeValues(ones, i))
       <==> SameBits(x, y, LeadingBits(ones, i))
  {
    ByteWith(x, y, C.FreeValues(ones, i), LeadingBits(ones, i));
  }

  /** A prefix holds exactly the addresses that share its leading bits: bit b of an address is
      bit b % 8 of byte b / 8. */
  lemma PrefixIsItsLeadingBits(a: N.Address, address: N.Address, ones: nat)
    requires |a| == |address| && ones <= 8 * |a|
    ensures A.InPrefix(a, address, ones) <==>
      forall b :: 0 <= b < ones ==> BitOf(a[b / 8], b % 8) == BitOf(address[b / 8], b % 8)
  {
    forall i | 0 <= i < |a|
      ensures C.ClearHost(a[i], C.FreeValues(ones, i)) == C.ClearHost(address[i], C.FreeValues(ones, i))
         <==> SameBits(a[i], address[i], LeadingBits(ones, i))
    {
      ByteUnderMask(a[i], address[i], ones, i);
    }
    if A.InPrefix(a, address, ones) {
      forall b | 0 <= b < ones
        ensures BitOf(a[b / 8], b % 8) == BitOf(address[b / 8], b % 8)
      {
        assert SameBits(a[b / 8], address[b / 8], LeadingBits(ones, b / 8));
      }
    }
    if forall b :: 0 <= b < ones ==> BitOf(a[b / 8], b % 8) == BitOf(address[b / 8], b % 8) {
      forall i | 0 <= i < |a|
        ensures SameBits(a[i], address[i], LeadingBits(ones, i))
      {
        forall b | 0 <= b < LeadingBits(ones, i)
          ensures BitOf(a[i], b) == BitOf(address[i], b)
        {
          var at := 8 * i + b;
          assert at < ones && at / 8 == i && at % 8 == b;
        }
      }
    }
  }

  // ----- the chains in plain terms

  /** The device name starts with the two letters of every namespace device. */
  predicate OfNamespace(device: string) {
    "vh" <= device
  }

  /** The rule leads from the namespace that the packet comes from to the place it goes to.
      private states whether the destination is an address that the internet excludes. */
  predicate LeadsAcross(rule: R.Rule, devices: map<string, string>, private: bool, p: N.Packet) {
    && rule.from != "host" && rule.from in devices && devices[rule.from] == p.input
    && rule.to != "host"
    && (if rule.to == "internet" then !OfNamespace(p.output) && !private
        else rule.to in devices && devices[rule.to] == p.output)
    && R.PortsCover(rule.ports, p.protocol, p.port)
  }

  predicate LeadsIn(rule: R.Rule, devices: map<string, string>, p: N.Packet) {
    && rule.from != "host" && rule.from in devices && devices[rule.from] == p.input
    && rule.to == "host"
    && R.PortsCover(rule.ports, p.protocol, p.port)
  }

  /** UDP to the port of the tailscaled of the namespace it goes to, after a DNAT. */
  predicate Listened(devices: map<string, string>, ports: map<string, nat>, p: N.Packet) {
    p.natted && p.protocol == "udp" &&
    exists id :: id in devices && id in ports && devices[id] == p.output && ports[id] == p.port
  }

  predicate MayCross(access: R.RuleSet, devices: map<string, string>, ports: map<string, nat>, private: bool, p: N.Packet) {
    p.established || Listened(devices, ports, p)
    || exists rule :: rule in access.rules && LeadsAcross(rule, devices, private, p)
  }

  /** The verdict and the log of a forward chain. */
  predicate ForwardIs(chain: seq<N.Rule>, access: R.RuleSet, guarded: bool, open: bool, p: N.Packet) {
    && N.Walk(chain, p) ==
       (if guarded then N.Dropped
        else if !OfNamespace(p.input) && !OfNamespace(p.output) then N.Returned
        else if open || access.mode == "observe" then N.Accepted
        else N.Dropped)
    && (N.Logged(chain, p) <==>
        !guarded && (OfNamespace(p.input) || OfNamespace(p.output)) && access.mode == "observe" && !open && p.token)
  }

  lemma AcrossIsAllowed(rule: R.Rule, devices: map<string, string>, blocks: seq<C.Prefix>, p: N.Packet)
    ensures A.RuleAllows(rule, devices, blocks, p) <==> LeadsAcross(rule, devices, A.InSomePrefix(p.destination, blocks), p)
  {
  }

  lemma CrossIsOpen(access: R.RuleSet, devices: map<string, string>, ports: map<string, nat>, blocks: seq<C.Prefix>, p: N.Packet)
    ensures A.Open(access, devices, ports, blocks, p) <==>
      MayCross(access, devices, ports, A.InSomePrefix(p.destination, blocks), p)
  {
    forall rule
      ensures A.RuleAllows(rule, devices, blocks, p) <==> LeadsAcross(rule, devices, A.InSomePrefix(p.destination, blocks), p)
    {
      AcrossIsAllowed(rule, devices, blocks, p);
    }
  }

  /** The mode names are the two words of the configuration, and the empty mode enforces. */
  lemma TailOfMode(mode: string)
    ensures C.TailForMode(mode).Some? <==> mode in ["", "enforce", "observe"]
    ensures C.TailForMode(mode).Some? ==> C.TailForMode(mode).value == A.Closing(mode)
    ensures R.EffectiveMode(R.RuleSet(mode, [])) == if mode == "" then "enforce" else mode
    ensures R.ValidMode(mode) <==> mode in ["", "enforce", "observe"]
  {
    assert "enforce"[0] == 'e' && "observe"[0] == 'o';
  }

  /** The forward chain of IPv4, with the tail that the mode of the rule set names. */
  lemma ForwardInPlainTermsV4(access: R.RuleSet, topo: C.Topology, tail: C.Tail, mark: string, p: N.Packet)
    requires R.ValidSet(access, topo.devices.Keys) && topo.resolver.Some? && C.TailForMode(access.mode) == Some(tail)
    requires |p.destination| == 4
    ensures ForwardIs(F.LiveForward(C.CompiledV4(access, topo, tail), mark), access, false,
                      MayCross(access, topo.devices, topo.ports, PrivateV4(p.destination), p), p)
  {
    TailOfMode(access.mode);
    A.ForwardCorrectV4(access, topo, mark, p);
    CrossIsOpen(access, topo.devices, topo.ports, A.PRIVATE_BLOCKS_V4, p);
    BlocksInNumbersV4(p.destination);
  }

  lemma SomePrefixConcat(d: N.Address, a: seq<C.Prefix>, b: seq<C.Prefix>)
    ensures A.InSomePrefix(d, a + b) <==> A.InSomePrefix(d, a) || A.InSomePrefix(d, b)
  {
    assert forall q :: q in a + b <==> q in a || q in b;
  }

  /** The forward chain of IPv6: the guard drops first, and the internet also excludes the
      prefixes of the host. */
  lemma ForwardInPlainTermsV6(access: R.RuleSet, topo: C.TopologyIPv6, tail: C.Tail, mark: string, p: N.Packet)
    requires R.ValidSet(access, topo.devices.Keys) && A.OfFamily(topo.prefixes, 16) && C.TailForMode(access.mode) == Some(tail)
    requires |p.destination| == 16
    ensures C.RangesOf(topo.prefixes).Some?
    ensures var private := PrivateV6(p.destination) || A.InSomePrefix(p.destination, topo.prefixes);
      ForwardIs(F.LiveForward(C.CompiledV6(access, topo, tail), mark), access, p.input in topo.guarded && !OfNamespace(p.output),
                MayCross(access, topo.devices, topo.ports, private, p), p)
  {
    TailOfMode(access.mode);
    A.ForwardCorrectV6(access, topo, mark, p);
    CrossIsOpen(access, topo.devices, topo.ports, A.PRIVATE_BLOCKS_V6 + topo.prefixes, p);
    SomePrefixConcat(p.destination, A.PRIVATE_BLOCKS_V6, topo.prefixes);
    BlocksInNumbersV6(p.destination);
  }

  predicate FromNamespaceOfATailnet(devices: map<string, string>, p: N.Packet) {
    exists id :: id in devices && devices[id] == p.input
  }

  /** The verdict and the log of an out chain. free states the traffic that needs no rule. */
  predicate OutIs(chain: seq<N.Rule>, access: R.RuleSet, devices: map<string, string>, free: bool, p: N.Packet) {
    var declared := FromNamespaceOfATailnet(devices, p);
    var open := p.established || (declared && free) || exists rule :: rule in access.rules && LeadsIn(rule, devices, p);
    && N.Walk(chain, p) ==
       (if open then N.Accepted
        else if !declared then N.Through
        else if access.mode == "observe" then N.Accepted
        else N.Dropped)
    && (N.Logged(chain, p) <==> access.mode == "observe" && !open && declared && p.token)
  }

  lemma InIsAllowed(access: R.RuleSet, devices: map<string, string>, p: N.Packet)
    ensures A.HostOpen(access, devices, p) <==>
      p.established || exists rule :: rule in access.rules && LeadsIn(rule, devices, p)
  {
    forall rule
      ensures K.AllowsHost(rule, devices, p) <==> LeadsIn(rule, devices, p)
    {
    }
  }

  /** The out chain of IPv4: a namespace reaches the DNS forwarder over udp and tcp with no
      rule. */
  lemma OutInPlainTermsV4(access: R.RuleSet, topo: C.Topology, tail: C.Tail, mark: string, p: N.Packet)
    requires R.ValidSet(access, topo.devices.Keys) && topo.resolver.Some? && C.TailForMode(access.mode) == Some(tail)
    ensures var query := p.destination == topo.resolver.value.address && p.port == topo.resolver.value.port && p.protocol in ["udp", "tcp"];
      OutIs(F.LiveOut(C.CompiledV4(access, topo, tail), mark), access, topo.devices, query, p)
  {
    TailOfMode(access.mode);
    A.OutCorrectV4(access, topo, mark, p);
    InIsAllowed(access, topo.devices, p);
  }

  /** The out chain of IPv6: a namespace asks for its gateway and answers for itself with no
      rule, and by these two kinds of message alone. */
  lemma OutInPlainTermsV6(access: R.RuleSet, topo: C.TopologyIPv6, tail: C.Tail, mark: string, p: N.Packet)
    requires R.ValidSet(access, topo.devices.Keys) && C.RangesOf(topo.prefixes).Some? && C.TailForMode(access.mode) == Some(tail)
    ensures var discovery := p.protocol == "ipv6-icmp" && p.icmpKind in ["neighbour-solicitation", "neighbour-advertisement"];
      OutIs(F.LiveOut(C.CompiledV6(access, topo, tail), mark), access, topo.devices, discovery, p)
  {
    TailOfMode(access.mode);
    A.OutCorrectV6(access, topo, mark, p);
    InIsAllowed(access, topo.devices, p);
  }

  /** Neighbor discovery of a tailnet passes in every mode, and in the mode enforce a new
      ICMPv6 message of any other kind is dropped unless a rule with no port list covers it. */
  lemma NeighborDiscoveryPasses(access: R.RuleSet, topo: C.TopologyIPv6, tail: C.Tail, mark: string, id: string, p: N.Packet)
    requires R.ValidSet(access, topo.devices.Keys) && C.RangesOf(topo.prefixes).Some? && C.TailForMode(access.mode) == Some(tail)
    requires id in topo.devices && p.input == topo.devices[id] && p.protocol == "ipv6-icmp"
    ensures var verdict := N.Walk(F.LiveOut(C.CompiledV6(access, topo, tail), mark), p);
      && (p.icmpKind == "neighbour-solicitation" || p.icmpKind == "neighbour-advertisement" ==> verdict == N.Accepted)
      && (p.icmpKind != "neighbour-solicitation" && p.icmpKind != "neighbour-advertisement" && !p.established
          && access.mode in ["", "enforce"] && (forall rule :: rule in access.rules ==> !LeadsIn(rule, topo.devices, p))
          ==> verdict == N.Dropped)
  {
    OutInPlainTermsV6(access, topo, tail, mark, p);
    assert "enforce" != "observe" && "" != "observe" by {
      assert "enforce"[0] == 'e' && "observe"[0] == 'o';
    }
  }

  // ----- the command lines

  lemma BodyOfTwo(a: N.Match, b: N.Match, t: N.Target, text: P.AddressText)
    ensures P.Body([], t, text) == P.TargetArgs(t)
    ensures P.Body([a], t, text) == P.MatchArgs(a, text) + P.TargetArgs(t)
    ensures P.Body([a, b], t, text) == P.MatchArgs(a, text) + (P.MatchArgs(b, text) + P.TargetArgs(t))
  {
    assert [a][1..] == [] && [a, b][1..] == [b] && [b][1..] == [];
    assert P.Body([b], t, text) == P.MatchArgs(b, text) + P.TargetArgs(t);
  }

  lemma BodyOfFour(a: N.Match, b: N.Match, c: N.Match, d: N.Match, t: N.Target, text: P.AddressText)
    ensures P.Body([a, b, c], t, text) == P.MatchArgs(a, text) + (P.MatchArgs(b, text) + (P.MatchArgs(c, text) + P.TargetArgs(t)))
    ensures P.Body([a, b, c, d], t, text)
         == P.MatchArgs(a, text) + (P.MatchArgs(b, text) + (P.MatchArgs(c, text) + (P.MatchArgs(d, text) + P.TargetArgs(t))))
  {
    BodyOfTwo(b, c, t, text);
    BodyOfTwo(c, d, t, text);
    assert [a, b, c][1..] == [b, c] && [a, b, c, d][1..] == [b, c, d] && [b, c, d][1..] == [c, d];
  }

  /** The rules that every host has, as the arguments that iptables-restore reads. */
  lemma FixedRuleTexts(chain: string, device: string, mark: string, text: P.AddressText)
    ensures P.Args(N.Rule(chain, C.ESTABLISHED, N.Accept), text)
         == ["-A", chain, "-m", "conntrack", "--ctstate", "RELATED,ESTABLISHED", "-j", "ACCEPT"]
    ensures P.Args(F.RETURN_RULE, text) == ["-A", "HYDRASCALE-FWD", "!", "-i", "vh+", "!", "-o", "vh+", "-j", "RETURN"]
    ensures P.Args(C.GuardRule(device), text) == ["-A", "HYDRASCALE-FWD", "-i", device, "!", "-o", "vh+", "-j", "DROP"]
    ensures P.Args(F.Marker(chain, mark), text) == ["-A", chain, "-m", "comment", "--comment", "hydrascale:" + mark]
  {
    BodyOfTwo(N.StateEstablished, N.StateEstablished, N.Accept, text);
    BodyOfTwo(N.NotFromNamespace, N.NotToNamespace, N.Return, text);
    BodyOfTwo(N.InDevice(device), N.NotToNamespace, N.Drop, text);
    BodyOfTwo(N.Comment("hydrascale:" + mark), N.Limit, N.NoTarget, text);
    assert "vh" + "+" == "vh+";
  }

  lemma PortTexts(port: nat, high: nat)
    ensures P.PortArgument(port, port) == Itoa(port)
    ensures port < high ==> P.PortArgument(port, high) == Itoa(port) + ":" + Itoa(high)
  {
  }

  /** The rule that lets redirected UDP in to a namespace. */
  lemma ListenRuleText(device: string, port: nat, text: P.AddressText)
    ensures P.Args(C.ListenRule(device, port), text)
         == ["-A", "HYDRASCALE-FWD", "-o", device, "-p", "udp", "--dport", Itoa(port), "-m", "conntrack", "--ctstate", "DNAT", "-j", "ACCEPT"]
  {
    PortTexts(port, port);
    BodyOfFour(N.OutDevice(device), N.Protocol("udp"), N.DestinationPort(port, port), N.StateDNAT, N.Accept, text);
  }

  /** The rule that lets a namespace ask the DNS forwarder. */
  lemma ResolverRuleText(device: string, e: C.Endpoint, protocol: string, text: P.AddressText)
    ensures P.Args(C.ResolverRule(device, e, protocol), text)
         == ["-A", "HYDRASCALE-OUT", "-i", device, "-d", text(e.address), "-p", protocol, "--dport", Itoa(e.port), "-j", "ACCEPT"]
  {
    PortTexts(e.port, e.port);
    BodyOfFour(N.InDevice(device), N.Destination(e.address), N.Protocol(protocol), N.DestinationPort(e.port, e.port), N.Accept, text);
  }

  /** The rule of one kind of neighbor discovery. */
  lemma DiscoveryRuleText(device: string, kind: string, text: P.AddressText)
    ensures P.Args(C.DiscoveryRule(device, kind), text)
         == ["-A", "HYDRASCALE-OUT", "-i", device, "-p", "ipv6-icmp", "--icmpv6-type", kind, "-j", "ACCEPT"]
  {
    BodyOfFour(N.InDevice(device), N.Protocol("ipv6-icmp"), N.IcmpKind(kind), N.Limit, N.Accept, text);
  }

  /** A rule of the operator from one namespace to another with one port entry. */
  lemma OperatorRuleText(chain: string, device: string, to: string, protocol: string, low: nat, high: nat, text: P.AddressText)
    requires low < high
    ensures P.Args(N.Rule(chain, [N.InDevice(device), N.OutDevice(to), N.Protocol(protocol), N.DestinationPort(low, high)], N.Accept), text)
         == ["-A", chain, "-i", device, "-o", to, "-p", protocol, "--dport", Itoa(low) + ":" + Itoa(high), "-j", "ACCEPT"]
  {
    PortTexts(low, high);
    BodyOfFour(N.InDevice(device), N.OutDevice(to), N.Protocol(protocol), N.DestinationPort(low, high), N.Accept, text);
  }

  /** A rule of the operator to the internet that excludes one range. */
  lemma InternetRuleText(chain: string, device: string, range: N.Range, text: P.AddressText)
    ensures P.Args(N.Rule(chain, [N.InDevice(device), N.NotToNamespace, N.OutsideRange(range)], N.Accept), text)
         == ["-A", chain, "-i", device, "!", "-o", "vh+", "-m", "iprange", "!", "--dst-range", text(range.low) + "-" + text(range.high), "-j", "ACCEPT"]
  {
    assert "vh" + "+" == "vh+";
    BodyOfFour(N.InDevice(device), N.NotToNamespace, N.OutsideRange(range), N.Limit, N.Accept, text);
  }

  /** The closing rules of the two modes. */
  lemma ClosingRuleTexts(chain: string, text: P.AddressText)
    ensures |C.ENFORCE_TAIL| == 1 && |C.OBSERVE_TAIL| == 2
    ensures P.Args(N.Rule(chain, C.ENFORCE_TAIL[0].matches, C.ENFORCE_TAIL[0].target), text) == ["-A", chain, "-j", "DROP"]
    ensures P.Args(N.Rule(chain, C.OBSERVE_TAIL[0].matches, C.OBSERVE_TAIL[0].target), text)
         == ["-A", chain, "-m", "limit", "--limit", "60/minute", "-j", "LOG", "--log-prefix", "hydrascale-would-deny: "]
    ensures P.Args(N.Rule(chain, C.OBSERVE_TAIL[1].matches, C.OBSERVE_TAIL[1].target), text) == ["-A", chain, "-j", "ACCEPT"]
  {
    BodyOfTwo(N.Limit, N.Limit, N.Log, text);
    BodyOfTwo(N.Limit, N.Limit, N.Accept, text);
    BodyOfTwo(N.Limit, N.Limit, N.Drop, text);
    assert C.ENFORCE_TAIL[0].matches == [] && C.OBSERVE_TAIL[0].matches == [N.Limit] && C.OBSERVE_TAIL[1].matches == [];
  }

  lemma Regroup(x: string, y: string, z: string)
    ensures x + (y + z) == x + y + z
  {
  }

  lemma {:induction false} RulesBytesConcat(a: seq<seq<string>>, b: seq<seq<string>>)
    ensures P.RulesBytes(a + b) == P.RulesBytes(a) + P.RulesBytes(b)
  {
    if a == [] {
      assert a + b == b;
    } else {
      RulesBytesConcat(a[1..], b);
      assert (a + b)[1..] == a[1..] + b && (a + b)[0] == a[0];
      Regroup(P.ArgsBytes(a[0]), P.RulesBytes(a[1..]), P.RulesBytes(b));
    }
  }

  lemma BytesOfTwo(x: string, y: string)
    ensures P.ArgsBytes([x]) == x + "\0" + "\n"
    ensures P.ArgsBytes([x, y]) == x + "\0" + (y + "\0" + "\n")
  {
    assert [x][1..] == [] && [x, y][1..] == [y] && [y][1..] == [];
    assert P.ArgsBytes([]) == "\n";
    assert P.ArgsBytes([x]) == x + ['\0'] + "\n";
    assert P.ArgsBytes([y]) == y + ['\0'] + "\n";
    assert "\0" == ['\0'];
  }

  /** A zero byte stands behind each argument and a newline behind each rule. */
  lemma HashSeparators(x: string, y: string, z: string)
    ensures P.RulesBytes([[x, y], [z]]) == x + "\0" + (y + "\0" + "\n") + (z + "\0" + "\n")
  {
    BytesOfTwo(x, y);
    BytesOfTwo(z, z);
    assert [[x, y], [z]][1..] == [[z]] && [[z]][1..] == [];
    assert P.RulesBytes([]) == "";
    assert P.RulesBytes([[z]]) == P.ArgsBytes([z]) + "";
  }

  /** The hash reads the forward rules, then the out rules, then the guard. */
  lemma HashReads(c: C.Compiled, text: P.AddressText)
    ensures P.Serialize(c, text)
         == P.RulesBytes(P.AllArgs(c.forward, text)) + (P.RulesBytes(P.AllArgs(c.out, text)) + P.RulesBytes(P.AllArgs(c.guard, text)))
  {
    var f, o, g := P.AllArgs(c.forward, text), P.AllArgs(c.out, text), P.AllArgs(c.guard, text);
    assert P.AllArgs(c.forward + c.out + c.guard, text) == f + (o + g);
    RulesBytesConcat(f, o + g);
    RulesBytesConcat(o, g);
  }
}
