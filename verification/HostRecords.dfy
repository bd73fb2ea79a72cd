/** From the status of one tailnet to the names of its peers and services in the hosts file
    (internal/daemon/daemon.go and internal/hostaccess/peers.go). */
module HostRecords {
  import opened Text
  import opened ServiceRecords

  /** net.ParseIP and serviceLabel. */
  datatype Texts = Texts(parse: ParseIP, labelOf: Namer)

  /** One node of a status. reports holds the service records of its capability map. */
  datatype Node = Node(host: string, ips: seq<string>, reports: seq<Endpoint>)

  /** One tailnet with its status. self holds the service records of the node itself. */
  datatype Tailnet = Tailnet(id: string, self: seq<Endpoint>, nodes: seq<Node>)

  /** The order in which the code meets the parts of one tailnet. groups holds the service
      records of each node, in an order of the nodes of its own. */
  datatype Visit = Visit(id: string, peers: seq<Node>, self: seq<Endpoint>, groups: seq<seq<Endpoint>>)

  // ----- the peers of one tailnet

  function LowerChar(c: char): char {
    if 'A' <= c <= 'Z' then (c as int - 'A' as int + 'a' as int) as char else c
  }

  /** The host name of a peer: ASCII letters in lower case, and a hyphen for each space. */
  function HostName(raw: string): string {
    seq(|raw|, i requires 0 <= i < |raw| => if raw[i] == ' ' then '-' else LowerChar(raw[i]))
  }

  /** The last address of the family counts. */
  function LastOf(ips: seq<string>, family: Family, parse: ParseIP): Option<string> {
    if ips == [] then None
    else if parse(ips[|ips| - 1]) == family then Some(ips[|ips| - 1])
    else LastOf(ips[..|ips| - 1], family, parse)
  }

  datatype Peer = Peer(host: string, v4: Option<string>, v6: Option<string>)

  function PeerOf(n: Node, parse: ParseIP): Peer {
    Peer(HostName(n.host), LastOf(n.ips, V4, parse), LastOf(n.ips, V6, parse))
  }

  function PeersOf(ns: seq<Node>, parse: ParseIP): seq<Peer> {
    if ns == [] then []
    else
      var front, p := PeersOf(ns[..|ns| - 1], parse), PeerOf(ns[|ns| - 1], parse);
      if p.v4.Some? || p.v6.Some? then front + [p] else front
  }

  method ParsePeer(n: Node, parse: ParseIP) returns (p: Peer)
    ensures p == PeerOf(n, parse)
  {
    p := Peer(HostName(n.host), None, None);
    for i := 0 to |n.ips|
      invariant p == Peer(HostName(n.host), LastOf(n.ips[..i], V4, parse), LastOf(n.ips[..i], V6, parse))
    {
      assert n.ips[..i + 1][..i] == n.ips[..i];
      match parse(n.ips[i]) {
        case NoAddress =>
        case V4 => p := p.(v4 := Some(n.ips[i]));
        case V6 => p := p.(v6 := Some(n.ips[i]));
      }
    }
    assert n.ips[..|n.ips|] == n.ips;
  }

  /** The peer loop of ParsePeers, over the nodes in some order. */
  method ParsePeers(ns: seq<Node>, parse: ParseIP) returns (peers: seq<Peer>)
    ensures peers == PeersOf(ns, parse)
  {
    peers := [];
    for i := 0 to |ns|
      invariant peers == PeersOf(ns[..i], parse)
    {
      assert ns[..i + 1][..i] == ns[..i];
      var p := ParsePeer(ns[i], parse);
      if p.v4.Some? || p.v6.Some? {
        peers := peers + [p];
      }
    }
    assert ns[..|ns|] == ns;
  }

  function AddressOf(p: Peer, six: bool): Option<string> {
    if six then p.v6 else p.v4
  }

  function PeerRecords(id: string, peers: seq<Peer>, six: bool): map<string, string> {
    if peers == [] then map[]
    else
      var front, p := PeerRecords(id, peers[..|peers| - 1], six), peers[|peers| - 1];
      if AddressOf(p, six).Some? then front[RecordName(id, p.host) := AddressOf(p, six).value] else front
  }

  /** BuildDNSRecords: a later peer overwrites an earlier one. */
  method BuildDNSRecords(id: string, peers: seq<Peer>) returns (v4: map<string, string>, v6: map<string, string>)
    ensures v4 == PeerRecords(id, peers, false) && v6 == PeerRecords(id, peers, true)
  {
    v4, v6 := map[], map[];
    for i := 0 to |peers|
      invariant v4 == PeerRecords(id, peers[..i], false) && v6 == PeerRecords(id, peers[..i], true)
    {
      assert peers[..i + 1][..i] == peers[..i];
      var name := RecordName(id, peers[i].host);
      if peers[i].v4.Some? {
        v4 := v4[name := peers[i].v4.value];
      }
      if peers[i].v6.Some? {
        v6 := v6[name := peers[i].v6.value];
      }
    }
    assert peers[..|peers|] == peers;
  }

  function FamilyOf(six: bool): Family {
    if six then V6 else V4
  }

  /** The address that the node claims for the name. */
  function Claim(id: string, n: Node, name: string, six: bool, parse: ParseIP): Option<string> {
    if RecordName(id, HostName(n.host)) == name then LastOf(n.ips, FamilyOf(six), parse) else None
  }

  function LastClaim(id: string, ns: seq<Node>, name: string, six: bool, parse: ParseIP): Option<string> {
    if ns == [] then None
    else
      var last := Claim(id, ns[|ns| - 1], name, six, parse);
      if last.Some? then last else LastClaim(id, ns[..|ns| - 1], name, six, parse)
  }

  /** The records of the peers of one tailnet: the last node that claims a name holds it. */
  lemma {:induction false} PeerRecordsExactly(id: string, ns: seq<Node>, name: string, six: bool, parse: ParseIP)
    ensures Find(PeerRecords(id, PeersOf(ns, parse), six), name) == LastClaim(id, ns, name, six, parse)
  {
    if ns != [] {
      var front, p := PeersOf(ns[..|ns| - 1], parse), PeerOf(ns[|ns| - 1], parse);
      PeerRecordsExactly(id, ns[..|ns| - 1], name, six, parse);
      if p.v4.Some? || p.v6.Some? {
        assert (front + [p])[..|front|] == front;
      }
    }
  }

  lemma {:induction false} LastClaimIsAClaim(id: string, ns: seq<Node>, name: string, six: bool, parse: ParseIP)
    ensures var last := LastClaim(id, ns, name, six, parse);
      && (last.Some? ==> exists n :: n in ns && Claim(id, n, name, six, parse) == last)
      && (last.None? ==> forall n :: n in ns ==> Claim(id, n, name, six, parse) == None)
  {
    if ns != [] {
      LastClaimIsAClaim(id, ns[..|ns| - 1], name, six, parse);
      assert ns == ns[..|ns| - 1] + [ns[|ns| - 1]];
    }
  }

  // ----- the services of one tailnet

  /** mergeUnique. */
  function MergeUnique(list: seq<string>, extra: seq<string>): seq<string> {
    if extra == [] then list
    else
      var front, last := MergeUnique(list, extra[..|extra| - 1]), extra[|extra| - 1];
      if last in front then front else front + [last]
  }

  method MergeInto(list: seq<string>, extra: seq<string>) returns (out: seq<string>)
    ensures out == MergeUnique(list, extra)
  {
    var hold := Elements(list);
    out := list;
    for i := 0 to |extra|
      invariant out == MergeUnique(list, extra[..i]) && hold == Elements(out)
    {
      assert extra[..i + 1][..i] == extra[..i];
      if extra[i] !in hold {
        out := out + [extra[i]];
        hold := hold + {extra[i]};
      }
    }
    assert extra[..|extra|] == extra;
  }

  predicate Named(rs: seq<Endpoint>, name: string) {
    exists e :: e in rs && e.name == name
  }

  /** The addresses of every report of one service, in the order of the reports. */
  function MergedAddrs(rs: seq<Endpoint>, name: string): seq<string> {
    if rs == [] then []
    else
      var front, last := rs[..|rs| - 1], rs[|rs| - 1];
      if last.name != name then MergedAddrs(front, name)
      else if Named(front, name) then MergeUnique(MergedAddrs(front, name), last.addrs)
      else last.addrs
  }

  function NamesOf(rs: seq<Endpoint>): set<string> {
    set e | e in rs :: e.name
  }

  /** One record for each service, sorted by its name. */
  ghost function Collected(rs: seq<Endpoint>): seq<Endpoint> {
    var names := Listing(NamesOf(rs));
    seq(|names|, i requires 0 <= i < |names| => Endpoint(names[i], MergedAddrs(rs, names[i])))
  }

  function Flat(groups: seq<seq<Endpoint>>): seq<Endpoint> {
    if groups == [] then [] else groups[0] + Flat(groups[1..])
  }

  /** What CollectServices holds after the reports rs. */
  ghost predicate Collecting(out: seq<Endpoint>, byName: map<string, nat>, rs: seq<Endpoint>) {
    && byName.Keys == NamesOf(rs)
    && (forall n :: n in byName ==> byName[n] < |out| && out[byName[n]] == Endpoint(n, MergedAddrs(rs, n)))
    && (forall i :: 0 <= i < |out| ==> out[i].name in byName && byName[out[i].name] == i)
  }

  lemma NamesNext(rs: seq<Endpoint>, e: Endpoint)
    ensures NamesOf(rs + [e]) == NamesOf(rs) + {e.name}
    ensures Named(rs, e.name) <==> e.name in NamesOf(rs)
    ensures forall n :: n != e.name ==> MergedAddrs(rs + [e], n) == MergedAddrs(rs, n)
    ensures MergedAddrs(rs + [e], e.name) ==
      if e.name in NamesOf(rs) then MergeUnique(MergedAddrs(rs, e.name), e.addrs) else e.addrs
  {
    assert (rs + [e])[..|rs|] == rs;
    forall n
      ensures n in NamesOf(rs + [e]) <==> n in NamesOf(rs) + {e.name}
    {
      assert forall f :: f in rs + [e] <==> f in rs || f == e;
      if n in NamesOf(rs) {
        var f :| f in rs && f.name == n;
        assert f in rs + [e];
      }
      assert e in rs + [e];
    }
  }

  /** The body of CollectServices for one report. */
  method CollectOne(out: seq<Endpoint>, byName: map<string, nat>, e: Endpoint, ghost rs: seq<Endpoint>)
    returns (more: seq<Endpoint>, index: map<string, nat>)
    requires Collecting(out, byName, rs)
    ensures Collecting(more, index, rs + [e])
  {
    NamesNext(rs, e);
    if e.name in byName {
      var i := byName[e.name];
      var merged := MergeInto(out[i].addrs, e.addrs);
      more, index := out[i := Endpoint(e.name, merged)], byName;
    } else {
      more, index := out + [e], byName[e.name := |out|];
    }
  }

  method CollectGroup(out: seq<Endpoint>, byName: map<string, nat>, group: seq<Endpoint>, ghost rs: seq<Endpoint>)
    returns (more: seq<Endpoint>, index: map<string, nat>)
    requires Collecting(out, byName, rs)
    ensures Collecting(more, index, rs + group)
  {
    more, index := out, byName;
    assert rs + group[..0] == rs;
    for i := 0 to |group|
      invariant Collecting(more, index, rs + group[..i])
    {
      assert rs + group[..i + 1] == (rs + group[..i]) + [group[i]];
      more, index := CollectOne(more, index, group[i], rs + group[..i]);
    }
    assert group[..|group|] == group;
  }

  /** The sort by name. No two records share a name. */
  method SortByName(out: seq<Endpoint>, byName: map<string, nat>, ghost rs: seq<Endpoint>) returns (es: seq<Endpoint>)
    requires Collecting(out, byName, rs)
    ensures es == Collected(rs)
  {
    var names := SortedKeys(byName.Keys);
    SortedListingUnique(names, Listing(NamesOf(rs)));
    es := [];
    for i := 0 to |names|
      invariant |es| == i
      invariant forall j :: 0 <= j < i ==> es[j] == Endpoint(names[j], MergedAddrs(rs, names[j]))
    {
      assert names[i] in Elements(names);
      es := es + [out[byName[names[i]]]];
    }
  }

  /** CollectServices over the reports of the node itself and then of every node. */
  method CollectServices(groups: seq<seq<Endpoint>>) returns (es: seq<Endpoint>)
    ensures es == Collected(Flat(groups))
  {
    var out, byName := [], map[];
    ghost var rs := [];
    for k := 0 to |groups|
      invariant rs + Flat(groups[k..]) == Flat(groups)
      invariant Collecting(out, byName, rs)
    {
      out, byName := CollectGroup(out, byName, groups[k], rs);
      assert groups[k..][1..] == groups[k + 1..];
      assert rs + (groups[k] + Flat(groups[k + 1..])) == (rs + groups[k]) + Flat(groups[k + 1..]);
      rs := rs + groups[k];
    }
    assert Flat(groups[|groups|..]) == [] && rs + [] == rs;
    es := SortByName(out, byName, rs);
  }

  /** One family of BuildServiceRecords. */
  function ServiceTable(id: string, ss: seq<Service>, six: bool): map<string, string> {
    if ss == [] then map[]
    else
      var front, s := ServiceTable(id, ss[..|ss| - 1], six), ss[|ss| - 1];
      if s.name != "" && Addresses(s, six) != [] then front[RecordName(id, s.name) := Addresses(s, six)[0]] else front
  }

  function Addresses(s: Service, six: bool): seq<string> {
    if six then s.v6 else s.v4
  }

  method BuildServiceRecords(id: string, ss: seq<Service>) returns (v4: map<string, string>, v6: map<string, string>)
    ensures v4 == ServiceTable(id, ss, false) && v6 == ServiceTable(id, ss, true)
  {
    v4, v6 := map[], map[];
    for i := 0 to |ss|
      invariant v4 == ServiceTable(id, ss[..i], false) && v6 == ServiceTable(id, ss[..i], true)
    {
      assert ss[..i + 1][..i] == ss[..i];
      if ss[i].name == "" {
        continue;
      }
      var name := RecordName(id, ss[i].name);
      if |ss[i].v4| > 0 {
        v4 := v4[name := ss[i].v4[0]];
      }
      if |ss[i].v6| > 0 {
        v6 := v6[name := ss[i].v6[0]];
      }
    }
    assert ss[..|ss|] == ss;
  }

  // ----- which report of a service gives its address

  function FirstOf(addrs: seq<string>, family: Family, parse: ParseIP): Option<string> {
    var found := OfFamily(addrs, family, parse);
    if found == [] then None else Some(found[0])
  }

  lemma FirstOfNext(addrs: seq<string>, a: string, family: Family, parse: ParseIP)
    ensures FirstOf(addrs + [a], family, parse) ==
      if FirstOf(addrs, family, parse).Some? then FirstOf(addrs, family, parse) else if parse(a) == family then Some(a) else None
  {
    assert (addrs + [a])[..|addrs|] == addrs;
  }

  lemma FirstOfMember(addrs: seq<string>, a: string, family: Family, parse: ParseIP)
    requires a in addrs && parse(a) == family
    ensures FirstOf(addrs, family, parse).Some?
  {
    FamilyExactly(addrs, family, parse);
  }

  lemma {:induction false} FirstOfMerge(list: seq<string>, extra: seq<string>, family: Family, parse: ParseIP)
    ensures FirstOf(MergeUnique(list, extra), family, parse) ==
      if FirstOf(list, family, parse).Some? then FirstOf(list, family, parse) else FirstOf(extra, family, parse)
  {
    if extra != [] {
      var front, last := extra[..|extra| - 1], extra[|extra| - 1];
      FirstOfMerge(list, front, family, parse);
      assert extra == front + [last];
      FirstOfNext(front, last, family, parse);
      var merged := MergeUnique(list, front);
      if last in merged {
        if parse(last) == family {
          FirstOfMember(merged, last, family, parse);
        }
      } else {
        FirstOfNext(merged, last, family, parse);
      }
    }
  }

  /** The first report of the service that has an address of the family. */
  function FirstReport(rs: seq<Endpoint>, name: string, family: Family, parse: ParseIP): Option<string> {
    if rs == [] then None
    else if rs[0].name == name && FirstOf(rs[0].addrs, family, parse).Some? then FirstOf(rs[0].addrs, family, parse)
    else FirstReport(rs[1..], name, family, parse)
  }

  lemma {:induction false} FirstReportOfBoth(a: seq<Endpoint>, b: seq<Endpoint>, name: string, family: Family, parse: ParseIP)
    ensures FirstReport(a + b, name, family, parse) ==
      if FirstReport(a, name, family, parse).Some? then FirstReport(a, name, family, parse) else FirstReport(b, name, family, parse)
  {
    if a == [] {
      assert a + b == b;
    } else {
      assert (a + b)[0] == a[0] && (a + b)[1..] == a[1..] + b;
      FirstReportOfBoth(a[1..], b, name, family, parse);
    }
  }

  lemma {:induction false} FirstReportIsAReport(rs: seq<Endpoint>, name: string, family: Family, parse: ParseIP)
    ensures var first := FirstReport(rs, name, family, parse);
      && (first.Some? ==> exists e :: e in rs && e.name == name && FirstOf(e.addrs, family, parse) == first)
      && (first.None? ==> forall e :: e in rs && e.name == name ==> FirstOf(e.addrs, family, parse) == None)
  {
    if rs != [] {
      FirstReportIsAReport(rs[1..], name, family, parse);
      assert rs == [rs[0]] + rs[1..];
    }
  }

  /** The merged record of a service answers under the address of its first such report. */
  lemma {:induction false} MergedAnswersFirst(rs: seq<Endpoint>, name: string, family: Family, parse: ParseIP)
    ensures FirstOf(MergedAddrs(rs, name), family, parse) == FirstReport(rs, name, family, parse)
  {
    if rs != [] {
      var front, last := rs[..|rs| - 1], rs[|rs| - 1];
      MergedAnswersFirst(front, name, family, parse);
      FirstReportOfBoth(front, [last], name, family, parse);
      assert rs == front + [last] && [last][1..] == [];
      if last.name == name {
        FirstOfMerge(MergedAddrs(front, name), last.addrs, family, parse);
        if !Named(front, name) {
          FirstReportIsAReport(front, name, family, parse);
        }
      }
    }
  }

  // ----- which report of a tailnet holds a label

  /** n is the least reported name with the label l, as a byte string. */
  ghost predicate HoldsLabel(rs: seq<Endpoint>, n: string, l: string, name: Namer) {
    && l != "" && name(n) == l && Named(rs, n)
    && forall e :: e in rs && name(e.name) == l ==> e.name == n || Before(n, e.name)
  }

  /** The address of the service that holds the label in a tailnet whose reports are rs. */
  ghost predicate Answers(rs: seq<Endpoint>, l: string, six: bool, texts: Texts, a: string) {
    exists n :: HoldsLabel(rs, n, l, texts.labelOf) && FirstReport(rs, n, FamilyOf(six), texts.parse) == Some(a)
  }

  lemma CollectedAt(rs: seq<Endpoint>, i: nat)
    requires i < |Collected(rs)|
    ensures Collected(rs)[i].name in NamesOf(rs) && Named(rs, Collected(rs)[i].name)
    ensures Collected(rs)[i].addrs == MergedAddrs(rs, Collected(rs)[i].name)
    ensures forall k :: 0 <= k < i ==> Before(Collected(rs)[k].name, Collected(rs)[i].name)
  {
    var names := Listing(NamesOf(rs));
    assert names[i] in Elements(names);
  }

  lemma CollectedIndex(rs: seq<Endpoint>, n: string) returns (i: nat)
    requires Named(rs, n)
    ensures i < |Collected(rs)| && Collected(rs)[i].name == n
  {
    var names := Listing(NamesOf(rs));
    assert n in NamesOf(rs) && n in Elements(names);
    i :| 0 <= i < |names| && names[i] == n;
  }

  /** The first record of a label in the collected list is the least name of that label. */
  lemma FirstOfLabelExactly(rs: seq<Endpoint>, i: nat, name: Namer)
    requires i < |Collected(rs)|
    ensures FirstOfLabel(Collected(rs), i, name) <==> HoldsLabel(rs, Collected(rs)[i].name, name(Collected(rs)[i].name), name)
  {
    var es := Collected(rs);
    var n := es[i].name;
    CollectedAt(rs, i);
    if FirstOfLabel(es, i, name) {
      forall e | e in rs && name(e.name) == name(n)
        ensures e.name == n || Before(n, e.name)
      {
        var j := CollectedIndex(rs, e.name);
        if j > i {
          CollectedAt(rs, j);
        }
      }
    }
    if HoldsLabel(rs, n, name(n), name) {
      forall k | 0 <= k < i
        ensures name(es[k].name) != name(n)
      {
        CollectedAt(rs, k);
        BeforeTotal(es[k].name, n);
        var e :| e in rs && e.name == es[k].name;
      }
    }
  }

  /** One family of the services of a tailnet: an entry is the name and the first address of a
      service, and the service of a name is unique. */
  lemma {:induction false} ServiceTableExactly(id: string, ss: seq<Service>, six: bool, name: string)
    ensures var found := Find(ServiceTable(id, ss, six), name);
      && (found.Some? ==> exists s :: s in ss && s.name != "" && Addresses(s, six) != [] && RecordName(id, s.name) == name && found == Some(Addresses(s, six)[0]))
      && (found.None? ==> forall s :: s in ss && s.name != "" && Addresses(s, six) != [] ==> RecordName(id, s.name) != name)
  {
    if ss != [] {
      ServiceTableExactly(id, ss[..|ss| - 1], six, name);
      assert ss == ss[..|ss| - 1] + [ss[|ss| - 1]];
    }
  }

  lemma LabelOfRecord(id: string, a: string, b: string)
    ensures RecordName(id, a) == RecordName(id, b) <==> a == b
  {
    assert RecordName(id, a)[|id| + 1..] == a && RecordName(id, b)[|id| + 1..] == b;
  }

  function ServicesOf(es: seq<Endpoint>, texts: Texts): seq<Service> {
    Services(es, |es|, texts.labelOf, texts.parse)
  }

  /** A service with an address of the family in the parsed list, and what it answers. */
  lemma ServiceAnswers(rs: seq<Endpoint>, l: string, six: bool, texts: Texts, a: string)
    requires l != ""
    ensures Answers(rs, l, six, texts, a) <==>
      exists s :: s in ServicesOf(Collected(rs), texts) && s.name == l && Addresses(s, six) != [] && Addresses(s, six)[0] == a
  {
    var es := Collected(rs);
    if Answers(rs, l, six, texts, a) {
      var n :| HoldsLabel(rs, n, l, texts.labelOf) && FirstReport(rs, n, FamilyOf(six), texts.parse) == Some(a);
      var i := CollectedIndex(rs, n);
      CollectedAt(rs, i);
      FirstOfLabelExactly(rs, i, texts.labelOf);
      MergedAnswersFirst(rs, n, FamilyOf(six), texts.parse);
      var s := ServiceAt(es, i, texts.labelOf, texts.parse).value;
      InServices(es, |es|, texts.labelOf, texts.parse, s);
      assert s.name == l && Addresses(s, six)[0] == a;
    }
    if s :| s in ServicesOf(es, texts) && s.name == l && Addresses(s, six) != [] && Addresses(s, six)[0] == a {
      InServices(es, |es|, texts.labelOf, texts.parse, s);
      var i :| 0 <= i < |es| && ServiceAt(es, i, texts.labelOf, texts.parse) == Some(s);
      CollectedAt(rs, i);
      FirstOfLabelExactly(rs, i, texts.labelOf);
      MergedAnswersFirst(rs, es[i].name, FamilyOf(six), texts.parse);
      assert HoldsLabel(rs, es[i].name, l, texts.labelOf);
    }
  }

  lemma HolderIsUnique(rs: seq<Endpoint>, m: string, n: string, l: string, name: Namer)
    requires HoldsLabel(rs, m, l, name) && HoldsLabel(rs, n, l, name)
    ensures m == n
  {
    BeforeTotal(m, n);
    var e :| e in rs && e.name == m;
    var f :| f in rs && f.name == n;
  }

  /** The service records of one tailnet: a name answers with the first address among the reports
      of the service that holds its label. */
  lemma ServiceRecordsExactly(id: string, rs: seq<Endpoint>, name: string, six: bool, texts: Texts, a: string)
    ensures Find(ServiceTable(id, ServicesOf(Collected(rs), texts), six), name) == Some(a) <==>
      exists l :: name == RecordName(id, l) && Answers(rs, l, six, texts, a)
  {
    var ss := ServicesOf(Collected(rs), texts);
    ServiceTableExactly(id, ss, six, name);
    if Find(ServiceTable(id, ss, six), name) == Some(a) {
      var s :| s in ss && s.name != "" && Addresses(s, six) != [] && RecordName(id, s.name) == name && Addresses(s, six)[0] == a;
      ServiceAnswers(rs, s.name, six, texts, a);
    }
    if l :| name == RecordName(id, l) && Answers(rs, l, six, texts, a) {
      ServiceAnswers(rs, l, six, texts, a);
      var s :| s in ss && s.name == l && Addresses(s, six) != [] && Addresses(s, six)[0] == a;
      var found := Find(ServiceTable(id, ss, six), name);
      assert found.Some?;
      var t :| t in ss && t.name != "" && Addresses(t, six) != [] && RecordName(id, t.name) == name && found == Some(Addresses(t, six)[0]);
      LabelOfRecord(id, t.name, l);
      ServiceAnswers(rs, l, six, texts, found.value);
      OneAnswer(rs, l, six, texts, a, found.value);
    }
  }

  lemma OneAnswer(rs: seq<Endpoint>, l: string, six: bool, texts: Texts, a: string, b: string)
    requires Answers(rs, l, six, texts, a) && Answers(rs, l, six, texts, b)
    ensures a == b
  {
    var m :| HoldsLabel(rs, m, l, texts.labelOf) && FirstReport(rs, m, FamilyOf(six), texts.parse) == Some(a);
    var n :| HoldsLabel(rs, n, l, texts.labelOf) && FirstReport(rs, n, FamilyOf(six), texts.parse) == Some(b);
    HolderIsUnique(rs, m, n, l, texts.labelOf);
  }
}
