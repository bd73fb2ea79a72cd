/** The main results about the compiled chains, for both families, both modes, every valid
    rule set, every topology and every packet. */
module AccessTheorems {
  import opened Text
  import N = Netfilter
  import R = AccessRules
  import C = AccessCompile
  import F = RestoreFile
  import K = CompileCorrect

  // ----- address prefixes

  /** net.IPNet.Contains: the address under the mask is the network, byte by byte. */
  predicate InPrefix(a: N.Address, address: N.Address, ones: nat) {
    |a| == |address| &&
    forall i :: 0 <= i < |a| ==>
      C.ClearHost(a[i], C.FreeValues(ones, i)) == C.ClearHost(address[i], C.FreeValues(ones, i))
  }

  lemma Times(m: nat, n: nat, size: nat)
    requires m <= n
    ensures m * size <= n * size
  {
    assert n * size - m * size == (n - m) * size;
  }

  /** The start of the block of x, among the blocks of one size. */
  lemma BlockStart(x: nat, size: nat, q: nat)
    requires size > 0 && q * size <= x < q * size + size
    ensures x - x % size == q * size
  {
    var r := x / size;
    assert x == r * size + x % size;
    if r < q {
      Times(r + 1, q, size);
    } else if r > q {
      Times(q + 1, r, size);
    }
  }

  lemma BlockBounds(a: nat, x: nat, size: nat)
    requires size > 0
    ensures a - a % size == x - x % size <==> x - x % size <= a <= x - x % size + (size - 1)
    ensures (x - x % size) % size == 0
  {
    var q := x / size;
    BlockStart(x, size, q);
    if q * size <= a < q * size + size {
      BlockStart(a, size, q);
    }
    BlockStart(q * size, size, q);
  }

  lemma ByteInBlock(a: N.Byte, x: N.Byte, free: nat)
    requires free in {1, 2, 4, 8, 16, 32, 64, 128, 256}
    ensures var low := C.ClearHost(x, free);
      var high := C.SetHost(low, free);
      && (C.ClearHost(a, free) == low <==> low <= a <= high)
      && (free == 1 ==> low == x == high)
      && (free == 256 ==> low == 0 && high == 255)
  {
    BlockBounds(a, x, free);
  }

  lemma {:induction false} ExtremesBound(a: N.Address, low: N.Address, high: N.Address)
    requires |a| == |low| == |high|
    requires forall i :: 0 <= i < |a| ==> low[i] == 0 && high[i] == 255
    ensures N.AtMost(low, a) && N.AtMost(a, high)
  {
    if a != [] {
      ExtremesBound(a[1..], low[1..], high[1..]);
    }
  }

  /** Two ends that agree on k bytes and span every later byte after the next one bound
      exactly the addresses that agree on k bytes and lie between the ends at byte k. */
  lemma {:induction false} Interval(a: N.Address, low: N.Address, high: N.Address, k: nat)
    requires |a| == |low| == |high| && k <= |a|
    requires forall i :: 0 <= i < k ==> low[i] == high[i]
    requires forall i :: k < i < |a| ==> low[i] == 0 && high[i] == 255
    ensures N.AtMost(low, a) && N.AtMost(a, high) <==>
      (forall i :: 0 <= i < k ==> a[i] == low[i]) && (k < |a| ==> low[k] <= a[k] <= high[k])
  {
    if k > 0 {
      var a', low' := a[1..], low[1..];
      Interval(a', low', high[1..], k - 1);
      if forall i :: 0 <= i < k ==> a[i] == low[i] {
        assert forall i :: 0 <= i < k - 1 ==> a'[i] == low'[i];
      }
      if a[0] == low[0] && forall i :: 0 <= i < k - 1 ==> a'[i] == low'[i] {
        assert forall i :: 0 < i < k ==> a[i] == a'[i - 1] && low[i] == low'[i - 1];
      }
    } else if a != [] {
      ExtremesBound(a[1..], low[1..], high[1..]);
    }
  }

  /** An address lies between the two ends that prefixRange prints exactly when the prefix
      contains it, for every address length and every mask. */
  lemma PrefixRangeExact(a: N.Address, address: N.Address, ones: nat)
    requires |a| == |address|
    ensures N.InRange(a, C.PrefixRangeOf(address, ones)) <==> InPrefix(a, address, ones)
  {
    var low, high := C.Network(address, ones), C.LastAddress(address, ones);
    var k := if ones / 8 <= |a| then ones / 8 else |a|;
    forall i | 0 <= i < |a|
      ensures C.ClearHost(a[i], C.FreeValues(ones, i)) == low[i] <==> low[i] <= a[i] <= high[i]
      ensures i < k ==> low[i] == high[i]
      ensures i > k ==> low[i] == 0 && high[i] == 255
    {
      ByteInBlock(a[i], address[i], C.FreeValues(ones, i));
    }
    Interval(a, low, high, k);
    if k < |a| && (forall i :: 0 <= i < k ==> a[i] == low[i]) && low[k] <= a[k] <= high[k] {
      assert forall i :: k < i < |a| ==> low[i] <= a[i] <= high[i];
    }
  }

  predicate InSomePrefix(a: N.Address, prefixes: seq<C.Prefix>) {
    exists q :: q in prefixes && q.Cidr? && InPrefix(a, q.address, q.ones)
  }

  predicate InSomeRange(a: N.Address, ranges: seq<N.Range>) {
    exists r :: r in ranges && N.InRange(a, r)
  }

  predicate OfFamily(prefixes: seq<C.Prefix>, bytes: nat) {
    forall q :: q in prefixes ==> q.Cidr? && |q.address| == bytes
  }

  /** The ranges that the compiler builds from prefixes exclude exactly those prefixes. */
  lemma {:induction false} RangesExact(a: N.Address, prefixes: seq<C.Prefix>)
    requires OfFamily(prefixes, |a|)
    ensures C.RangesOf(prefixes).Some?
    ensures InSomeRange(a, C.RangesOf(prefixes).value) <==> InSomePrefix(a, prefixes)
  {
    if prefixes != [] {
      var front, last := prefixes[..|prefixes| - 1], prefixes[|prefixes| - 1];
      assert last in prefixes && prefixes == front + [last];
      RangesExact(a, front);
      PrefixRangeExact(a, last.address, last.ones);
      var range := C.PrefixRangeOf(last.address, last.ones);
      var ranges := C.RangesOf(front).value;
      assert C.RangesOf(prefixes).value == ranges + [range];
      assert InSomeRange(a, ranges + [range]) <==> InSomeRange(a, ranges) || N.InRange(a, range) by {
        assert forall r :: r in ranges + [range] <==> r in ranges || r == range;
      }
      assert InSomePrefix(a, prefixes) <==> InSomePrefix(a, front) || InPrefix(a, last.address, last.ones) by {
        assert forall q :: q in prefixes <==> q in front || q == last;
      }
    }
  }

  /** RFC 1918 section 3, link-local and loopback. */
  const PRIVATE_BLOCKS_V4: seq<C.Prefix> := [
    C.Cidr(C.V4(10, 0, 0, 0), 8), C.Cidr(C.V4(172, 16, 0, 0), 12), C.Cidr(C.V4(192, 168, 0, 0), 16),
    C.Cidr(C.V4(169, 254, 0, 0), 16), C.Cidr(C.V4(127, 0, 0, 0), 8)
  ]

  /** Unique local, link-local and loopback. */
  const PRIVATE_BLOCKS_V6: seq<C.Prefix> := [
    C.Cidr(C.V6(0xfc, 0, 0, 0), 7), C.Cidr(C.V6(0xfe, 0x80, 0, 0), 10), C.Cidr(C.V6(0, 0, 0, 1), 128)
  ]

  /** The ends of a prefix, read off byte by byte. */
  lemma EndsOf(address: N.Address, ones: nat, last: N.Address)
    requires |address| == |last|
    requires forall i :: 0 <= i < |address| ==> C.ClearHost(address[i], C.FreeValues(ones, i)) == address[i]
    requires forall i :: 0 <= i < |address| ==> C.SetHost(address[i], C.FreeValues(ones, i)) == last[i]
    ensures C.PrefixRangeOf(address, ones) == N.Range(address, last)
  {
    assert C.Network(address, ones) == address;
    assert C.LastAddress(address, ones) == last;
  }

  /** A table of ranges belongs to a list of blocks, row by row. */
  lemma {:induction false} RangesOfTable(blocks: seq<C.Prefix>, table: seq<N.Range>)
    requires |blocks| == |table|
    requires forall i :: 0 <= i < |blocks| ==> blocks[i].Cidr? && C.PrefixRangeOf(blocks[i].address, blocks[i].ones) == table[i]
    ensures C.RangesOf(blocks) == Some(table)
  {
    if blocks != [] {
      RangesOfTable(blocks[..|blocks| - 1], table[..|table| - 1]);
      assert table == table[..|table| - 1] + [table[|table| - 1]];
    }
  }

  /** The ends of an IPv4 prefix, byte by byte. */
  lemma EndsOfV4(a: N.Byte, b: N.Byte, c: N.Byte, d: N.Byte, ones: nat, last: N.Address)
    requires |last| == 4
    requires C.ClearHost(a, C.FreeValues(ones, 0)) == a && C.SetHost(a, C.FreeValues(ones, 0)) == last[0]
    requires C.ClearHost(b, C.FreeValues(ones, 1)) == b && C.SetHost(b, C.FreeValues(ones, 1)) == last[1]
    requires C.ClearHost(c, C.FreeValues(ones, 2)) == c && C.SetHost(c, C.FreeValues(ones, 2)) == last[2]
    requires C.ClearHost(d, C.FreeValues(ones, 3)) == d && C.SetHost(d, C.FreeValues(ones, 3)) == last[3]
    ensures C.PrefixRangeOf(C.V4(a, b, c, d), ones) == N.Range(C.V4(a, b, c, d), last)
  {
    EndsOf(C.V4(a, b, c, d), ones, last);
  }

  lemma RowWithinAByte(a: N.Byte, b: N.Byte)
    requires b % 16 == 0
    ensures C.PrefixRangeOf(C.V4(a, b, 0, 0), 12) == N.Range(C.V4(a, b, 0, 0), C.V4(a, b + 15, 255, 255))
  {
    EndsOfV4(a, b, 0, 0, 12, C.V4(a, b + 15, 255, 255));
  }

  lemma RowOneByte(a: N.Byte)
    ensures C.PrefixRangeOf(C.V4(a, 0, 0, 0), 8) == N.Range(C.V4(a, 0, 0, 0), C.V4(a, 255, 255, 255))
  {
    EndsOfV4(a, 0, 0, 0, 8, C.V4(a, 255, 255, 255));
  }

  lemma RowTwoBytes(a: N.Byte, b: N.Byte)
    ensures C.PrefixRangeOf(C.V4(a, b, 0, 0), 16) == N.Range(C.V4(a, b, 0, 0), C.V4(a, b, 255, 255))
  {
    EndsOfV4(a, b, 0, 0, 16, C.V4(a, b, 255, 255));
  }

  lemma RowsV4()
    ensures C.PrefixRangeOf(C.V4(10, 0, 0, 0), 8) == N.Range(C.V4(10, 0, 0, 0), C.V4(10, 255, 255, 255))
    ensures C.PrefixRangeOf(C.V4(172, 16, 0, 0), 12) == N.Range(C.V4(172, 16, 0, 0), C.V4(172, 31, 255, 255))
    ensures C.PrefixRangeOf(C.V4(192, 168, 0, 0), 16) == N.Range(C.V4(192, 168, 0, 0), C.V4(192, 168, 255, 255))
    ensures C.PrefixRangeOf(C.V4(169, 254, 0, 0), 16) == N.Range(C.V4(169, 254, 0, 0), C.V4(169, 254, 255, 255))
    ensures C.PrefixRangeOf(C.V4(127, 0, 0, 0), 8) == N.Range(C.V4(127, 0, 0, 0), C.V4(127, 255, 255, 255))
  {
    RowOneByte(10);
    RowWithinAByte(172, 16);
    RowTwoBytes(192, 168);
    RowTwoBytes(169, 254);
    RowOneByte(127);
  }

  lemma BytesOfV6(a: N.Byte, b: N.Byte, fill: N.Byte, last: N.Byte, i: nat)
    requires i < 16
    ensures |C.V6(a, b, fill, last)| == 16
    ensures C.V6(a, b, fill, last)[i] == if i == 0 then a else if i == 1 then b else if i == 15 then last else fill
  {
  }

  lemma RowUniqueLocal()
    ensures C.PrefixRangeOf(C.V6(0xfc, 0, 0, 0), 7) == N.Range(C.V6(0xfc, 0, 0, 0), C.V6(0xfd, 0xff, 0xff, 0xff))
  {
    forall i | 0 <= i < 16
      ensures C.ClearHost(C.V6(0xfc, 0, 0, 0)[i], C.FreeValues(7, i)) == C.V6(0xfc, 0, 0, 0)[i]
      ensures C.SetHost(C.V6(0xfc, 0, 0, 0)[i], C.FreeValues(7, i)) == C.V6(0xfd, 0xff, 0xff, 0xff)[i]
    {
      BytesOfV6(0xfc, 0, 0, 0, i);
      BytesOfV6(0xfd, 0xff, 0xff, 0xff, i);
    }
    EndsOf(C.V6(0xfc, 0, 0, 0), 7, C.V6(0xfd, 0xff, 0xff, 0xff));
  }

  lemma RowLinkLocal()
    ensures C.PrefixRangeOf(C.V6(0xfe, 0x80, 0, 0), 10) == N.Range(C.V6(0xfe, 0x80, 0, 0), C.V6(0xfe, 0xbf, 0xff, 0xff))
  {
    forall i | 0 <= i < 16
      ensures C.ClearHost(C.V6(0xfe, 0x80, 0, 0)[i], C.FreeValues(10, i)) == C.V6(0xfe, 0x80, 0, 0)[i]
      ensures C.SetHost(C.V6(0xfe, 0x80, 0, 0)[i], C.FreeValues(10, i)) == C.V6(0xfe, 0xbf, 0xff, 0xff)[i]
    {
      BytesOfV6(0xfe, 0x80, 0, 0, i);
      BytesOfV6(0xfe, 0xbf, 0xff, 0xff, i);
    }
    EndsOf(C.V6(0xfe, 0x80, 0, 0), 10, C.V6(0xfe, 0xbf, 0xff, 0xff));
  }

  /** A prefix of every bit is one address. */
  lemma WholeAddress(address: N.Address)
    ensures C.PrefixRangeOf(address, 8 * |address|) == N.Range(address, address)
  {
    forall i | 0 <= i < |address|
      ensures C.FreeValues(8 * |address|, i) == 1
    {
    }
    EndsOf(address, 8 * |address|, address);
  }

  /** The constant tables of the compiler are the ranges of the blocks. */
  lemma TablesAreBlocks()
    ensures C.RangesOf(PRIVATE_BLOCKS_V4) == Some(C.PRIVATE_V4)
    ensures C.RangesOf(PRIVATE_BLOCKS_V6) == Some(C.PRIVATE_V6)
  {
    RowsV4();
    RangesOfTable(PRIVATE_BLOCKS_V4, C.PRIVATE_V4);
    RowUniqueLocal();
    RowLinkLocal();
    WholeAddress(C.V6(0, 0, 0, 1));
    RangesOfTable(PRIVATE_BLOCKS_V6, C.PRIVATE_V6);
  }

  /** The internet of a rule, in terms of address blocks and not of printed ranges. */
  predicate ToPublic(blocks: seq<C.Prefix>, p: N.Packet) {
    !N.IsNamespaceDevice(p.output) && !InSomePrefix(p.destination, blocks)
  }

  lemma {:induction false} RangesOfConcat(a: seq<C.Prefix>, b: seq<C.Prefix>)
    requires C.RangesOf(a).Some? && C.RangesOf(b).Some?
    ensures C.RangesOf(a + b) == Some(C.RangesOf(a).value + C.RangesOf(b).value)
    decreases |b|
  {
    if b == [] {
      assert a + b == a;
      assert C.RangesOf(a).value + C.RangesOf(b).value == C.RangesOf(a).value;
    } else {
      var s, front := a + b, b[..|b| - 1];
      var last := b[|b| - 1];
      assert s[..|s| - 1] == a + front && s[|s| - 1] == last;
      RangesOfConcat(a, front);
      assert C.RangesOf(front).Some? && last.Cidr?;
      var range := [C.PrefixRangeOf(last.address, last.ones)];
      assert C.RangesOf(b).value == C.RangesOf(front).value + range;
      assert C.RangesOf(s).value == C.RangesOf(a).value + C.RangesOf(front).value + range;
      assert C.RangesOf(a).value + C.RangesOf(front).value + range == C.RangesOf(a).value + (C.RangesOf(front).value + range);
    }
  }

  /** The internet destination excludes exactly the private blocks, and in the IPv6 chains
      the prefixes of the host as well. */
  lemma InternetExact(p: N.Packet, hosts: seq<C.Prefix>)
    ensures |p.destination| == 4 ==> (K.ToInternet(C.PRIVATE_V4, p) <==> ToPublic(PRIVATE_BLOCKS_V4, p))
    ensures |p.destination| == 16 && OfFamily(hosts, 16) ==>
      && C.RangesOf(hosts).Some?
      && (K.ToInternet(C.PRIVATE_V6 + C.RangesOf(hosts).value, p) <==> ToPublic(PRIVATE_BLOCKS_V6 + hosts, p))
  {
    TablesAreBlocks();
    if |p.destination| == 4 {
      RangesExact(p.destination, PRIVATE_BLOCKS_V4);
    }
    if |p.destination| == 16 && OfFamily(hosts, 16) {
      RangesExact(p.destination, hosts);
      RangesOfConcat(PRIVATE_BLOCKS_V6, hosts);
      RangesExact(p.destination, PRIVATE_BLOCKS_V6 + hosts);
    }
  }

  // ----- the closing rules of the two modes

  lemma TailWalk(p: N.Packet)
    ensures N.Walk(C.ENFORCE_TAIL, p) == N.Dropped && !N.Logged(C.ENFORCE_TAIL, p)
    ensures N.Walk(C.OBSERVE_TAIL, p) == N.Accepted
    ensures N.Logged(C.OBSERVE_TAIL, p) <==> p.token
  {
    var t := C.OBSERVE_TAIL;
    assert t[1..][1..] == [] && C.ENFORCE_TAIL[1..] == [];
    K.AllHold2(N.Limit, N.Limit, p);
    assert t[0].matches == [N.Limit] && t[1].matches == [];
    assert N.Walk(t[1..], p) == N.Accepted && !N.Logged(t[1..], p);
  }

  // ----- what the forward chain does

  /** What the rule set allows between endpoints: a new packet of a namespace reaches
      another namespace or the internet because some rule names both ends and its port. */
  predicate RuleAllows(rule: R.Rule, devices: map<string, string>, blocks: seq<C.Prefix>, p: N.Packet) {
    && K.Sends(rule.from, devices, p)
    && rule.to != R.HOST
    && (if rule.to == R.INTERNET then ToPublic(blocks, p) else rule.to in devices && devices[rule.to] == p.output)
    && R.PortsCover(rule.ports, p.protocol, p.port)
  }

  predicate Open(access: R.RuleSet, devices: map<string, string>, ports: map<string, nat>, blocks: seq<C.Prefix>, p: N.Packet) {
    p.established || K.ToListenPort(devices, ports, p)
    || exists rule :: rule in access.rules && RuleAllows(rule, devices, blocks, p)
  }

  function Closing(mode: string): C.Tail {
    if R.EffectiveMode(R.RuleSet(mode, [])) == R.OBSERVE then C.OBSERVE_TAIL else C.ENFORCE_TAIL
  }

  /** Compiler correctness, IPv4 forward chain: a packet that touches no namespace device goes
      back to FORWARD, an open packet is accepted, and every other packet is dropped in the
      mode enforce and accepted in the mode observe. */
  lemma ForwardCorrectV4(access: R.RuleSet, topo: C.Topology, mark: string, p: N.Packet)
    requires R.ValidSet(access, topo.devices.Keys) && topo.resolver.Some?
    requires |p.destination| == 4
    ensures var chain := F.LiveForward(C.CompiledV4(access, topo, Closing(access.mode)), mark);
      var open := Open(access, topo.devices, topo.ports, PRIVATE_BLOCKS_V4, p);
      && N.Walk(chain, p) ==
         (if !N.TouchesNamespace(p) then N.Returned
          else if open || access.mode == R.OBSERVE then N.Accepted
          else N.Dropped)
      && (N.Logged(chain, p) <==> access.mode == R.OBSERVE && N.TouchesNamespace(p) && !open && p.token)
  {
    var tail := Closing(access.mode);
    C.InListing(topo.devices);
    var ids := Listing(topo.devices.Keys);
    var c := C.CompiledV4(access, topo, tail);
    assert C.GuardRules([]) == [];
    K.ForwardVerdict(access, ids, topo.devices, topo.ports, C.PRIVATE_V4, [], tail, c.out, mark, p);
    InternetExact(p, []);
    OpenSame(access, topo.devices, topo.ports, C.PRIVATE_V4, PRIVATE_BLOCKS_V4, p);
    TailWalk(p);
  }

  lemma OpenSame(access: R.RuleSet, devices: map<string, string>, ports: map<string, nat>, private: seq<N.Range>, blocks: seq<C.Prefix>, p: N.Packet)
    requires K.ToInternet(private, p) <==> ToPublic(blocks, p)
    ensures Open(access, devices, ports, blocks, p) <==> K.ForwardOpen(access, devices, ports, private, p)
  {
    forall rule
      ensures RuleAllows(rule, devices, blocks, p) <==> K.AllowsForward(rule, devices, private, p)
    {
    }
  }

  /** Compiler correctness, IPv6 forward chain: the guard of an upstream device drops first. */
  lemma ForwardCorrectV6(access: R.RuleSet, topo: C.TopologyIPv6, mark: string, p: N.Packet)
    requires R.ValidSet(access, topo.devices.Keys) && OfFamily(topo.prefixes, 16)
    requires |p.destination| == 16
    ensures C.RangesOf(topo.prefixes).Some?
    ensures var chain := F.LiveForward(C.CompiledV6(access, topo, Closing(access.mode)), mark);
      var open := Open(access, topo.devices, topo.ports, PRIVATE_BLOCKS_V6 + topo.prefixes, p);
      && N.Walk(chain, p) ==
         (if K.Guarded(topo.guarded, p) then N.Dropped
          else if !N.TouchesNamespace(p) then N.Returned
          else if open || access.mode == R.OBSERVE then N.Accepted
          else N.Dropped)
      && (N.Logged(chain, p) <==>
          access.mode == R.OBSERVE && !K.Guarded(topo.guarded, p) && N.TouchesNamespace(p) && !open && p.token)
  {
    var tail := Closing(access.mode);
    C.InListing(topo.devices);
    InternetExact(p, topo.prefixes);
    var ids := Listing(topo.devices.Keys);
    var private := C.PRIVATE_V6 + C.RangesOf(topo.prefixes).value;
    var c := C.CompiledV6(access, topo, tail);
    K.ForwardVerdict(access, ids, topo.devices, topo.ports, private, topo.guarded, tail, c.out, mark, p);
    OpenSame(access, topo.devices, topo.ports, private, PRIVATE_BLOCKS_V6 + topo.prefixes, p);
    TailWalk(p);
  }

  // ----- what the out chain does

  predicate HostOpen(access: R.RuleSet, devices: map<string, string>, p: N.Packet) {
    p.established || exists rule :: rule in access.rules && K.AllowsHost(rule, devices, p)
  }

  /** The verdict of the out chain, with the traffic that needs no rule. */
  predicate OutVerdictIs(chain: seq<N.Rule>, access: R.RuleSet, devices: map<string, string>, needsNoRule: bool, p: N.Packet) {
    var open := needsNoRule || HostOpen(access, devices, p);
    && N.Walk(chain, p) ==
       (if open then N.Accepted
        else if !K.FromDeclared(devices, p) then N.Through
        else if access.mode == R.OBSERVE then N.Accepted
        else N.Dropped)
    && (N.Logged(chain, p) <==> access.mode == R.OBSERVE && !open && K.FromDeclared(devices, p) && p.token)
  }

  lemma FromListing(ids: seq<string>, devices: map<string, string>, p: N.Packet)
    requires forall id :: id in ids <==> id in devices
    ensures K.FromOneOf(ids, devices, p) <==> K.FromDeclared(devices, p)
  {
  }

  /** Compiler correctness, IPv4 out chain: DNS to the forwarder needs no rule. */
  lemma OutCorrectV4(access: R.RuleSet, topo: C.Topology, mark: string, p: N.Packet)
    requires R.ValidSet(access, topo.devices.Keys) && topo.resolver.Some?
    ensures OutVerdictIs(F.LiveOut(C.CompiledV4(access, topo, Closing(access.mode)), mark),
                         access, topo.devices, K.ToResolver(topo.devices, topo.resolver.value, p), p)
  {
    var tail := Closing(access.mode);
    C.InListing(topo.devices);
    var ids := Listing(topo.devices.Keys);
    var c := C.CompiledV4(access, topo, tail);
    FromListing(ids, topo.devices, p);
    K.ResolverWalk(ids, topo.devices, topo.resolver.value, p);
    K.OutVerdict(access, ids, topo.devices, C.PRIVATE_V4, tail, C.ResolverRules(ids, topo.devices, topo.resolver.value),
                 K.ToResolver(topo.devices, topo.resolver.value, p), c.guard, c.forward, mark, p);
    TailWalk(p);
  }

  /** Compiler correctness, IPv6 out chain: neighbor discovery needs no rule. */
  lemma OutCorrectV6(access: R.RuleSet, topo: C.TopologyIPv6, mark: string, p: N.Packet)
    requires R.ValidSet(access, topo.devices.Keys) && C.RangesOf(topo.prefixes).Some?
    ensures OutVerdictIs(F.LiveOut(C.CompiledV6(access, topo, Closing(access.mode)), mark),
                         access, topo.devices, K.Discovers(topo.devices, p), p)
  {
    var tail := Closing(access.mode);
    C.InListing(topo.devices);
    var ids := Listing(topo.devices.Keys);
    var private := C.PRIVATE_V6 + C.RangesOf(topo.prefixes).value;
    var c := C.CompiledV6(access, topo, tail);
    FromListing(ids, topo.devices, p);
    K.DiscoveryWalk(ids, topo.devices, p);
    K.OutVerdict(access, ids, topo.devices, private, tail, C.DiscoveryRules(ids, topo.devices),
                 K.Discovers(topo.devices, p), c.guard, c.forward, mark, p);
    TailWalk(p);
  }

  // ----- consequences over whole rule sets

  /** A packet that the chain drops because no rule allows it, and no guard rule. */
  predicate DeniedByTail(chain: seq<N.Rule>, guarded: seq<string>, p: N.Packet) {
    N.Walk(chain, p).Dropped? && !K.Guarded(guarded, p)
  }

  /** One chain in the two modes: observe accepts what enforce denies for want of a rule, it
      agrees on every other packet, and it logs exactly the denied ones, within its limit.
      The chain of enforce logs nothing. */
  predicate Refines(observe: seq<N.Rule>, enforce: seq<N.Rule>, guarded: seq<string>, p: N.Packet) {
    && N.Walk(observe, p) == (if DeniedByTail(enforce, guarded, p) then N.Accepted else N.Walk(enforce, p))
    && (N.Logged(observe, p) <==> p.token && DeniedByTail(enforce, guarded, p))
    && !N.Logged(enforce, p)
  }

  /** The mode observe refines the mode enforce, for every packet, in both chains. */
  lemma ObserveRefinesEnforceV6(rules: seq<R.Rule>, topo: C.TopologyIPv6, mark: string, mark': string, p: N.Packet)
    requires R.ValidSet(R.RuleSet(R.ENFORCE, rules), topo.devices.Keys) && OfFamily(topo.prefixes, 16)
    requires |p.destination| == 16
    ensures C.RangesOf(topo.prefixes).Some?
    ensures var enforce := C.CompiledV6(R.RuleSet(R.ENFORCE, rules), topo, C.ENFORCE_TAIL);
      var observe := C.CompiledV6(R.RuleSet(R.OBSERVE, rules), topo, C.OBSERVE_TAIL);
      && Refines(F.LiveForward(observe, mark'), F.LiveForward(enforce, mark), topo.guarded, p)
      && Refines(F.LiveOut(observe, mark'), F.LiveOut(enforce, mark), [], p)
  {
    ForwardCorrectV6(R.RuleSet(R.ENFORCE, rules), topo, mark, p);
    ForwardCorrectV6(R.RuleSet(R.OBSERVE, rules), topo, mark', p);
    OutCorrectV6(R.RuleSet(R.ENFORCE, rules), topo, mark, p);
    OutCorrectV6(R.RuleSet(R.OBSERVE, rules), topo, mark', p);
  }

  lemma ObserveRefinesEnforceV4(rules: seq<R.Rule>, topo: C.Topology, mark: string, mark': string, p: N.Packet)
    requires R.ValidSet(R.RuleSet(R.ENFORCE, rules), topo.devices.Keys) && topo.resolver.Some?
    requires |p.destination| == 4
    ensures var enforce := C.CompiledV4(R.RuleSet(R.ENFORCE, rules), topo, C.ENFORCE_TAIL);
      var observe := C.CompiledV4(R.RuleSet(R.OBSERVE, rules), topo, C.OBSERVE_TAIL);
      && Refines(F.LiveForward(observe, mark'), F.LiveForward(enforce, mark), [], p)
      && Refines(F.LiveOut(observe, mark'), F.LiveOut(enforce, mark), [], p)
  {
    ForwardCorrectV4(R.RuleSet(R.ENFORCE, rules), topo, mark, p);
    ForwardCorrectV4(R.RuleSet(R.OBSERVE, rules), topo, mark', p);
    OutCorrectV4(R.RuleSet(R.ENFORCE, rules), topo, mark, p);
    OutCorrectV4(R.RuleSet(R.OBSERVE, rules), topo, mark', p);
  }

  /** Every packet that one rule set lets through, a rule set of the same mode that holds all
      its rules lets through as well, wherever the rules stand and however often they repeat. */
  lemma MoreRulesAcceptMore(few: R.RuleSet, many: R.RuleSet, topo: C.Topology, mark: string, mark': string, p: N.Packet)
    requires few.mode == many.mode && forall rule :: rule in few.rules ==> rule in many.rules
    requires R.ValidSet(many, topo.devices.Keys) && topo.resolver.Some?
    requires |p.destination| == 4
    ensures var a := C.CompiledV4(few, topo, Closing(few.mode));
      var b := C.CompiledV4(many, topo, Closing(many.mode));
      && (N.Walk(F.LiveForward(a, mark), p).Accepted? ==> N.Walk(F.LiveForward(b, mark'), p).Accepted?)
      && (N.Walk(F.LiveOut(a, mark), p).Accepted? ==> N.Walk(F.LiveOut(b, mark'), p).Accepted?)
  {
    ForwardCorrectV4(few, topo, mark, p);
    ForwardCorrectV4(many, topo, mark', p);
    OutCorrectV4(few, topo, mark, p);
    OutCorrectV4(many, topo, mark', p);
  }

  lemma MoreRulesAcceptMoreV6(few: R.RuleSet, many: R.RuleSet, topo: C.TopologyIPv6, mark: string, mark': string, p: N.Packet)
    requires few.mode == many.mode && forall rule :: rule in few.rules ==> rule in many.rules
    requires R.ValidSet(many, topo.devices.Keys) && OfFamily(topo.prefixes, 16)
    requires |p.destination| == 16
    ensures C.RangesOf(topo.prefixes).Some?
    ensures var a := C.CompiledV6(few, topo, Closing(few.mode));
      var b := C.CompiledV6(many, topo, Closing(many.mode));
      && (N.Walk(F.LiveForward(a, mark), p).Accepted? ==> N.Walk(F.LiveForward(b, mark'), p).Accepted?)
      && (N.Walk(F.LiveOut(a, mark), p).Accepted? ==> N.Walk(F.LiveOut(b, mark'), p).Accepted?)
  {
    ForwardCorrectV6(few, topo, mark, p);
    ForwardCorrectV6(many, topo, mark', p);
    OutCorrectV6(few, topo, mark, p);
    OutCorrectV6(many, topo, mark', p);
  }

  /** Two rule sets with the same rules in any order and any number give every packet the
      same verdict in both chains. */
  lemma OrderAndDuplicatesDoNotShow(one: seq<R.Rule>, other: seq<R.Rule>, topo: C.Topology, mark: string, mark': string, p: N.Packet)
    requires forall rule :: rule in one <==> rule in other
    requires R.ValidSet(R.RuleSet(R.ENFORCE, one), topo.devices.Keys) && topo.resolver.Some?
    requires |p.destination| == 4
    ensures var a := C.CompiledV4(R.RuleSet(R.ENFORCE, one), topo, C.ENFORCE_TAIL);
      var b := C.CompiledV4(R.RuleSet(R.ENFORCE, other), topo, C.ENFORCE_TAIL);
      && N.Walk(F.LiveForward(a, mark), p) == N.Walk(F.LiveForward(b, mark'), p)
      && N.Walk(F.LiveOut(a, mark), p) == N.Walk(F.LiveOut(b, mark'), p)
  {
    ForwardCorrectV4(R.RuleSet(R.ENFORCE, one), topo, mark, p);
    ForwardCorrectV4(R.RuleSet(R.ENFORCE, other), topo, mark', p);
    OutCorrectV4(R.RuleSet(R.ENFORCE, one), topo, mark, p);
    OutCorrectV4(R.RuleSet(R.ENFORCE, other), topo, mark', p);
  }

  lemma OrderAndDuplicatesDoNotShowV6(one: seq<R.Rule>, other: seq<R.Rule>, topo: C.TopologyIPv6, mark: string, mark': string, p: N.Packet)
    requires forall rule :: rule in one <==> rule in other
    requires R.ValidSet(R.RuleSet(R.ENFORCE, one), topo.devices.Keys) && OfFamily(topo.prefixes, 16)
    requires |p.destination| == 16
    ensures C.RangesOf(topo.prefixes).Some?
    ensures var a := C.CompiledV6(R.RuleSet(R.ENFORCE, one), topo, C.ENFORCE_TAIL);
      var b := C.CompiledV6(R.RuleSet(R.ENFORCE, other), topo, C.ENFORCE_TAIL);
      && N.Walk(F.LiveForward(a, mark), p) == N.Walk(F.LiveForward(b, mark'), p)
      && N.Walk(F.LiveOut(a, mark), p) == N.Walk(F.LiveOut(b, mark'), p)
  {
    ForwardCorrectV6(R.RuleSet(R.ENFORCE, one), topo, mark, p);
    ForwardCorrectV6(R.RuleSet(R.ENFORCE, other), topo, mark', p);
    OutCorrectV6(R.RuleSet(R.ENFORCE, one), topo, mark, p);
    OutCorrectV6(R.RuleSet(R.ENFORCE, other), topo, mark', p);
  }

  /** Each tailnet has its own namespace device. */
  predicate OneDeviceEach(devices: map<string, string>) {
    && (forall a, b :: a in devices && b in devices && devices[a] == devices[b] ==> a == b)
    && (forall id :: id in devices ==> N.IsNamespaceDevice(devices[id]))
  }

  /** Some rule names a, b and the port, and a rule can name them at all: the compiler reads
      the two literals first, so the namespace of a tailnet with such an id has no rule. */
  predicate RuleBetween(access: R.RuleSet, a: string, b: string, p: N.Packet) {
    && a != R.HOST && b !in {R.HOST, R.INTERNET}
    && exists rule :: rule in access.rules && rule.from == a && rule.to == b && R.PortsCover(rule.ports, p.protocol, p.port)
  }

  lemma RulesBetween(access: R.RuleSet, devices: map<string, string>, blocks: seq<C.Prefix>, a: string, b: string, p: N.Packet)
    requires R.ValidSet(access, devices.Keys)
    requires OneDeviceEach(devices) && a in devices && b in devices
    requires p.input == devices[a] && p.output == devices[b]
    ensures (exists rule :: rule in access.rules && RuleAllows(rule, devices, blocks, p)) <==> RuleBetween(access, a, b, p)
  {
    forall rule | rule in access.rules
      ensures RuleAllows(rule, devices, blocks, p) <==>
        a != R.HOST && b !in {R.HOST, R.INTERNET} && rule.from == a && rule.to == b && R.PortsCover(rule.ports, p.protocol, p.port)
    {
    }
  }

  /** Isolation: a new packet from namespace a to namespace b crosses the host exactly when a
      rule names a, b and its port, or the mode is observe. */
  lemma NamespacesAreIsolated(access: R.RuleSet, topo: C.Topology, mark: string, a: string, b: string, p: N.Packet)
    requires R.ValidSet(access, topo.devices.Keys) && topo.resolver.Some?
    requires OneDeviceEach(topo.devices) && a in topo.devices && b in topo.devices
    requires |p.destination| == 4 && p.input == topo.devices[a] && p.output == topo.devices[b]
    requires !p.established && !p.natted
    ensures N.Walk(F.LiveForward(C.CompiledV4(access, topo, Closing(access.mode)), mark), p) ==
      if access.mode == R.OBSERVE || RuleBetween(access, a, b, p) then N.Accepted else N.Dropped
  {
    ForwardCorrectV4(access, topo, mark, p);
    RulesBetween(access, topo.devices, PRIVATE_BLOCKS_V4, a, b, p);
  }

  lemma NamespacesAreIsolatedV6(access: R.RuleSet, topo: C.TopologyIPv6, mark: string, a: string, b: string, p: N.Packet)
    requires R.ValidSet(access, topo.devices.Keys) && OfFamily(topo.prefixes, 16)
    requires OneDeviceEach(topo.devices) && a in topo.devices && b in topo.devices
    requires |p.destination| == 16 && p.input == topo.devices[a] && p.output == topo.devices[b]
    requires !p.established && !p.natted
    ensures C.RangesOf(topo.prefixes).Some?
    ensures N.Walk(F.LiveForward(C.CompiledV6(access, topo, Closing(access.mode)), mark), p) ==
      if access.mode == R.OBSERVE || RuleBetween(access, a, b, p) then N.Accepted else N.Dropped
  {
    ForwardCorrectV6(access, topo, mark, p);
    RulesBetween(access, topo.devices, PRIVATE_BLOCKS_V6 + topo.prefixes, a, b, p);
  }

  /** Some rule set of the mode enforce that Validate accepts lets the packet cross. */
  ghost predicate SomeRulesCross(topo: C.Topology, mark: string, p: N.Packet)
    requires topo.resolver.Some?
  {
    exists rules: seq<R.Rule> :: CrossesV4(rules, topo, mark, p)
  }

  ghost predicate CrossesV4(rules: seq<R.Rule>, topo: C.Topology, mark: string, p: N.Packet)
    requires topo.resolver.Some?
  {
    && R.ValidSet(R.RuleSet(R.ENFORCE, rules), topo.devices.Keys)
    && N.Walk(F.LiveForward(C.CompiledV4(R.RuleSet(R.ENFORCE, rules), topo, C.ENFORCE_TAIL), mark), p).Accepted?
  }

  ghost predicate CrossesV6(rules: seq<R.Rule>, topo: C.TopologyIPv6, mark: string, p: N.Packet)
    requires C.RangesOf(topo.prefixes).Some?
  {
    && R.ValidSet(R.RuleSet(R.ENFORCE, rules), topo.devices.Keys)
    && N.Walk(F.LiveForward(C.CompiledV6(R.RuleSet(R.ENFORCE, rules), topo, C.ENFORCE_TAIL), mark), p).Accepted?
  }

  ghost predicate SomeRulesCrossV6(topo: C.TopologyIPv6, mark: string, p: N.Packet)
    requires C.RangesOf(topo.prefixes).Some?
  {
    exists rules: seq<R.Rule> :: CrossesV6(rules, topo, mark, p)
  }

  /** The id is a name that a rule can give a tailnet. */
  predicate Nameable(id: string) {
    id !in {"", R.HOST, R.INTERNET}
  }

  /** The literal wins: rules can open the path from one namespace to another exactly when
      neither tailnet has one of the ids host and internet. */
  lemma LiteralIdsAreCutOffExactly(topo: C.Topology, mark: string, a: string, b: string, p: N.Packet)
    requires topo.resolver.Some?
    requires OneDeviceEach(topo.devices) && a in topo.devices && b in topo.devices
    requires |p.destination| == 4 && p.input == topo.devices[a] && p.output == topo.devices[b]
    requires !p.established && !p.natted
    ensures SomeRulesCross(topo, mark, p) <==> Nameable(a) && Nameable(b) && a != b
  {
    if SomeRulesCross(topo, mark, p) {
      var rules: seq<R.Rule> :| CrossesV4(rules, topo, mark, p);
      NamespacesAreIsolated(R.RuleSet(R.ENFORCE, rules), topo, mark, a, b, p);
    }
    if Nameable(a) && Nameable(b) && a != b {
      var rule := R.Rule(a, b, []);
      assert rule in [rule];
      NamespacesAreIsolated(R.RuleSet(R.ENFORCE, [rule]), topo, mark, a, b, p);
      assert CrossesV4([rule], topo, mark, p);
    }
  }

  lemma LiteralIdsAreCutOffExactlyV6(topo: C.TopologyIPv6, mark: string, a: string, b: string, p: N.Packet)
    requires OfFamily(topo.prefixes, 16) && C.RangesOf(topo.prefixes).Some?
    requires OneDeviceEach(topo.devices) && a in topo.devices && b in topo.devices
    requires |p.destination| == 16 && p.input == topo.devices[a] && p.output == topo.devices[b]
    requires !p.established && !p.natted
    ensures SomeRulesCrossV6(topo, mark, p) <==> Nameable(a) && Nameable(b) && a != b
  {
    if SomeRulesCrossV6(topo, mark, p) {
      var rules: seq<R.Rule> :| CrossesV6(rules, topo, mark, p);
      NamespacesAreIsolatedV6(R.RuleSet(R.ENFORCE, rules), topo, mark, a, b, p);
    }
    if Nameable(a) && Nameable(b) && a != b {
      var rule := R.Rule(a, b, []);
      assert rule in [rule];
      NamespacesAreIsolatedV6(R.RuleSet(R.ENFORCE, [rule]), topo, mark, a, b, p);
      assert CrossesV6([rule], topo, mark, p);
    }
  }
}
