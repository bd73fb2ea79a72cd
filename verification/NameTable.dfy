/** The one table of names in the hosts file, and when the map orders of the daemon show in it
    (syncDNS in internal/hostaccess/hostaccess.go). */
module NameTable {
  import opened Text
  import opened ServiceRecords
  import opened HostRecords

  // ----- the records of every tailnet

  /** The records of one tailnet in one family. */
  datatype Records = Records(peers: map<string, string>, services: map<string, string>)

  /** What a tailnet claims: a peer wins over a service of the same tailnet. */
  function Own(r: Records): map<string, string> {
    r.services + r.peers
  }

  /** The merge of syncDNS: a peer overwrites, and a service takes a free name only. */
  function Merged(all: map<string, string>, r: Records): map<string, string> {
    r.services + (all + r.peers)
  }

  function MergeAll(rs: seq<Records>): map<string, string> {
    if rs == [] then map[] else Merged(MergeAll(rs[..|rs| - 1]), rs[|rs| - 1])
  }

  /** The loop over the active tailnets, in the order of an enumeration. */
  method MergeRecords(rs: seq<Records>) returns (all: map<string, string>)
    ensures all == MergeAll(rs)
  {
    all := map[];
    for i := 0 to |rs|
      invariant all == MergeAll(rs[..i])
    {
      assert rs[..i + 1][..i] == rs[..i];
      all := all + rs[i].peers;
      all := all + map name | name in rs[i].services && name !in all :: rs[i].services[name];
      assert all == Merged(MergeAll(rs[..i]), rs[i]);
    }
    assert rs[..|rs|] == rs;
  }

  /** No two tailnets of the list share a name. */
  predicate NamesApart(rs: seq<Records>) {
    forall i, j :: 0 <= i < j < |rs| ==> Own(rs[i]).Keys !! Own(rs[j]).Keys
  }

  /** When no name is shared, the merge holds every claim and nothing else. */
  lemma {:induction false} MergedExactly(rs: seq<Records>, name: string)
    requires NamesApart(rs)
    ensures forall i :: 0 <= i < |rs| && name in Own(rs[i]) ==> Find(MergeAll(rs), name) == Some(Own(rs[i])[name])
    ensures name in MergeAll(rs) ==> exists i :: 0 <= i < |rs| && name in Own(rs[i])
  {
    if rs != [] {
      var front, last := rs[..|rs| - 1], rs[|rs| - 1];
      MergedExactly(front, name);
      if name in Own(last) {
        assert forall i :: 0 <= i < |front| ==> Own(rs[i]).Keys !! Own(rs[|rs| - 1]).Keys;
        assert name !in MergeAll(front);
      }
    }
  }

  // ----- which tailnet gives an address

  /** The address of the last tailnet whose peer claims the name. */
  function LastPeer(rs: seq<Records>, name: string): Option<string> {
    if rs == [] then None
    else if name in rs[|rs| - 1].peers then Some(rs[|rs| - 1].peers[name])
    else LastPeer(rs[..|rs| - 1], name)
  }

  /** The address of the first tailnet whose service claims the name. */
  function FirstService(rs: seq<Records>, name: string): Option<string> {
    if rs == [] then None
    else
      var before := FirstService(rs[..|rs| - 1], name);
      if before.Some? then before else Find(rs[|rs| - 1].services, name)
  }

  /** A name has the address of the last peer that claims it, and without a peer the address of
      the first service. */
  lemma {:induction false} ValueOfName(rs: seq<Records>, name: string)
    ensures Find(MergeAll(rs), name) == if LastPeer(rs, name).Some? then LastPeer(rs, name) else FirstService(rs, name)
  {
    if rs != [] {
      var front, last := rs[..|rs| - 1], rs[|rs| - 1];
      ValueOfName(front, name);
      assert Find(Merged(MergeAll(front), last), name) ==
        if name in last.peers then Some(last.peers[name])
        else if name in MergeAll(front) then Some(MergeAll(front)[name]) else Find(last.services, name);
    }
  }

  lemma {:induction false} LastPeerIsAPeer(rs: seq<Records>, name: string)
    ensures LastPeer(rs, name).Some? ==> exists r :: r in rs && name in r.peers && LastPeer(rs, name) == Some(r.peers[name])
    ensures LastPeer(rs, name).None? ==> forall r :: r in rs ==> name !in r.peers
  {
    if rs != [] {
      LastPeerIsAPeer(rs[..|rs| - 1], name);
      assert rs == rs[..|rs| - 1] + [rs[|rs| - 1]];
    }
  }

  lemma {:induction false} FirstServiceIsAService(rs: seq<Records>, name: string)
    ensures FirstService(rs, name).Some? ==> exists r :: r in rs && name in r.services && FirstService(rs, name) == Some(r.services[name])
    ensures FirstService(rs, name).None? ==> forall r :: r in rs ==> name !in r.services
  {
    if rs != [] {
      FirstServiceIsAService(rs[..|rs| - 1], name);
      assert rs == rs[..|rs| - 1] + [rs[|rs| - 1]];
    }
  }

  lemma {:induction false} FirstServiceHead(r: Records, rs: seq<Records>, name: string)
    requires name in r.services
    ensures FirstService([r] + rs, name) == Some(r.services[name])
  {
    if rs == [] {
      assert [r] + rs == [r] && [r][..0] == [];
    } else {
      assert ([r] + rs)[..|rs|] == [r] + rs[..|rs| - 1];
      FirstServiceHead(r, rs[..|rs| - 1], name);
    }
  }

  lemma SameFinds(a: map<string, string>, b: map<string, string>)
    requires forall name :: Find(a, name) == Find(b, name)
    ensures a == b
  {
    assert forall name :: name in a <==> Find(a, name).Some?;
    assert forall name :: name in b <==> Find(b, name).Some?;
    assert forall name :: name in a ==> Some(a[name]) == Find(a, name) == Find(b, name) == Some(b[name]);
  }

  // ----- the whole way from the status of each tailnet to the table

  /** What one visit of a tailnet gives in one family. */
  ghost function RecordsOf(v: Visit, six: bool, texts: Texts): Records {
    Records(PeerRecords(v.id, PeersOf(v.peers, texts.parse), six),
            ServiceTable(v.id, ServicesOf(Collected(v.self + Flat(v.groups)), texts), six))
  }

  ghost function AllRecords(vs: seq<Visit>, six: bool, texts: Texts): seq<Records> {
    seq(|vs|, i requires 0 <= i < |vs| => RecordsOf(vs[i], six, texts))
  }

  ghost function Table(vs: seq<Visit>, six: bool, texts: Texts): map<string, string> {
    MergeAll(AllRecords(vs, six, texts))
  }

  /** ParsePeers and both record builders, for one tailnet. */
  method TailnetRecords(v: Visit, texts: Texts) returns (r4: Records, r6: Records)
    ensures r4 == RecordsOf(v, false, texts) && r6 == RecordsOf(v, true, texts)
  {
    var peers := ParsePeers(v.peers, texts.parse);
    var es := CollectServices([v.self] + v.groups);
    assert ([v.self] + v.groups)[1..] == v.groups;
    var ss := ParseServices(es, texts.labelOf, texts.parse);
    var p4, p6 := BuildDNSRecords(v.id, peers);
    var s4, s6 := BuildServiceRecords(v.id, ss);
    r4, r6 := Records(p4, s4), Records(p6, s6);
  }

  lemma AllRecordsNext(vs: seq<Visit>, i: nat, six: bool, texts: Texts)
    requires i < |vs|
    ensures AllRecords(vs[..i + 1], six, texts) == AllRecords(vs[..i], six, texts) + [RecordsOf(vs[i], six, texts)]
  {
  }

  /** Both families of the table, for the order in which the daemon meets everything. */
  method BuildTables(vs: seq<Visit>, texts: Texts) returns (all4: map<string, string>, all6: map<string, string>)
    ensures all4 == Table(vs, false, texts) && all6 == Table(vs, true, texts)
  {
    var rs4, rs6 := [], [];
    for i := 0 to |vs|
      invariant rs4 == AllRecords(vs[..i], false, texts) && rs6 == AllRecords(vs[..i], true, texts)
    {
      AllRecordsNext(vs, i, false, texts);
      AllRecordsNext(vs, i, true, texts);
      var r4, r6 := TailnetRecords(vs[i], texts);
      rs4, rs6 := rs4 + [r4], rs6 + [r6];
    }
    assert vs[..|vs|] == vs;
    all4 := MergeRecords(rs4);
    all6 := MergeRecords(rs6);
  }

  // ----- the orders that the daemon may take

  ghost predicate Shuffled(groups: seq<seq<Endpoint>>, nodes: seq<Node>) {
    exists ns: seq<Node> :: multiset(ns) == multiset(nodes) && SameReports(groups, ns)
  }

  predicate SameReports(groups: seq<seq<Endpoint>>, ns: seq<Node>) {
    |groups| == |ns| && forall i :: 0 <= i < |ns| ==> multiset(groups[i]) == multiset(ns[i].reports)
  }

  /** The daemon may meet the tailnet in this order: the nodes in two orders of their own, and the
      service records of each node in any order. */
  ghost predicate VisitOf(v: Visit, t: Tailnet) {
    && v.id == t.id
    && multiset(v.peers) == multiset(t.nodes)
    && multiset(v.self) == multiset(t.self)
    && Shuffled(v.groups, t.nodes)
  }

  /** The daemon may meet these tailnets in this order. */
  ghost predicate Enumerates(vs: seq<Visit>, ts: seq<Tailnet>) {
    exists us: seq<Tailnet> :: multiset(us) == multiset(ts) && VisitsOf(vs, us)
  }

  ghost predicate VisitsOf(vs: seq<Visit>, us: seq<Tailnet>) {
    |vs| == |us| && forall i :: 0 <= i < |us| ==> VisitOf(vs[i], us[i])
  }

  /** Every order of the tailnets, of their peers and of their service records gives one table. */
  ghost predicate OneTable(ts: seq<Tailnet>, six: bool, texts: Texts) {
    forall vs, ws :: Enumerates(vs, ts) && Enumerates(ws, ts) ==> Table(vs, six, texts) == Table(ws, six, texts)
  }

  // ----- what the status says about a name

  /** Some peer of some tailnet has the name and the address. */
  ghost predicate Claims(ts: seq<Tailnet>, name: string, six: bool, texts: Texts, a: string) {
    exists t, n :: t in ts && n in t.nodes && Claim(t.id, n, name, six, texts.parse) == Some(a)
  }

  function GroupsOf(nodes: seq<Node>): seq<seq<Endpoint>> {
    seq(|nodes|, i requires 0 <= i < |nodes| => nodes[i].reports)
  }

  function Reports(t: Tailnet): seq<Endpoint> {
    t.self + Flat(GroupsOf(t.nodes))
  }

  /** The report may be the first one of its service with an address of the family: any report
      of the node itself, or any report of a peer when the node itself has none. */
  ghost predicate Leads(t: Tailnet, e: Endpoint, family: Family, parse: ParseIP) {
    && FirstOf(e.addrs, family, parse).Some?
    && (e in t.self || (e in Flat(GroupsOf(t.nodes)) && forall f :: f in t.self && f.name == e.name ==> FirstOf(f.addrs, family, parse) == None))
  }

  /** The service of the tailnet that holds the label of the name may answer with the address. */
  ghost predicate Offers(t: Tailnet, name: string, six: bool, texts: Texts, a: string) {
    exists l, e: Endpoint :: name == RecordName(t.id, l) && HoldsLabel(Reports(t), e.name, l, texts.labelOf)
      && Leads(t, e, FamilyOf(six), texts.parse) && FirstOf(e.addrs, FamilyOf(six), texts.parse) == Some(a)
  }

  ghost predicate SomeOffer(ts: seq<Tailnet>, name: string, six: bool, texts: Texts, a: string) {
    exists t :: t in ts && Offers(t, name, six, texts, a)
  }

  /** All peers that claim the name agree, within one tailnet and across tailnets; without a peer
      all services that may answer for it agree. */
  ghost predicate Settled(ts: seq<Tailnet>, name: string, six: bool, texts: Texts) {
    if exists a :: Claims(ts, name, six, texts, a) then
      forall a, b :: Claims(ts, name, six, texts, a) && Claims(ts, name, six, texts, b) ==> a == b
    else
      forall a, b :: SomeOffer(ts, name, six, texts, a) && SomeOffer(ts, name, six, texts, b) ==> a == b
  }

  // ----- one visit

  lemma SameMembers<T>(a: seq<T>, b: seq<T>)
    requires multiset(a) == multiset(b)
    ensures forall x :: x in a <==> x in b
  {
    assert forall x :: x in a <==> x in multiset(a);
    assert forall x :: x in b <==> x in multiset(b);
  }

  lemma {:induction false} FlatOfSame(groups: seq<seq<Endpoint>>, ns: seq<Node>, e: Endpoint)
    requires SameReports(groups, ns)
    ensures e in Flat(groups) <==> exists n :: n in ns && e in n.reports
  {
    if groups != [] {
      FlatOfSame(groups[1..], ns[1..], e);
      SameMembers(groups[0], ns[0].reports);
      assert ns == [ns[0]] + ns[1..];
    }
  }

  lemma ShuffledMembers(groups: seq<seq<Endpoint>>, nodes: seq<Node>, e: Endpoint)
    requires Shuffled(groups, nodes)
    ensures e in Flat(groups) <==> e in Flat(GroupsOf(nodes))
  {
    var ns: seq<Node> :| multiset(ns) == multiset(nodes) && SameReports(groups, ns);
    SameMembers(ns, nodes);
    FlatOfSame(groups, ns, e);
    FlatOfSame(GroupsOf(nodes), nodes, e);
  }

  lemma HoldsLabelSame(rs: seq<Endpoint>, other: seq<Endpoint>, n: string, l: string, name: Namer)
    requires forall e :: e in rs <==> e in other
    ensures HoldsLabel(rs, n, l, name) <==> HoldsLabel(other, n, l, name)
  {
  }

  lemma VisitMembers(v: Visit, t: Tailnet)
    requires VisitOf(v, t)
    ensures forall e :: e in v.self <==> e in t.self
    ensures forall e :: e in Flat(v.groups) <==> e in Flat(GroupsOf(t.nodes))
    ensures forall e :: e in v.self + Flat(v.groups) <==> e in Reports(t)
  {
    SameMembers(v.self, t.self);
    forall e
      ensures e in Flat(v.groups) <==> e in Flat(GroupsOf(t.nodes))
    {
      ShuffledMembers(v.groups, t.nodes, e);
    }
  }

  /** Every visit gives a peer name the address of some peer that claims it. */
  lemma VisitPeers(v: Visit, t: Tailnet, name: string, six: bool, texts: Texts)
    requires VisitOf(v, t)
    ensures var found := Find(RecordsOf(v, six, texts).peers, name);
      && (found.Some? ==> exists n :: n in t.nodes && Claim(t.id, n, name, six, texts.parse) == found)
      && (found.None? ==> forall n :: n in t.nodes ==> Claim(t.id, n, name, six, texts.parse) == None)
  {
    SameMembers(v.peers, t.nodes);
    PeerRecordsExactly(v.id, v.peers, name, six, texts.parse);
    LastClaimIsAClaim(v.id, v.peers, name, six, texts.parse);
  }

  /** The first report of a service leads. */
  lemma FirstLeads(v: Visit, t: Tailnet, n: string, family: Family, parse: ParseIP)
    requires VisitOf(v, t)
    ensures var first := FirstReport(v.self + Flat(v.groups), n, family, parse);
      && (first.Some? ==> exists e: Endpoint :: e.name == n && Leads(t, e, family, parse) && FirstOf(e.addrs, family, parse) == first)
      && (first.None? ==> forall e: Endpoint :: e.name == n ==> !Leads(t, e, family, parse))
  {
    VisitMembers(v, t);
    FirstReportOfBoth(v.self, Flat(v.groups), n, family, parse);
    FirstReportIsAReport(v.self, n, family, parse);
    FirstReportIsAReport(Flat(v.groups), n, family, parse);
  }

  /** Every visit gives a service name an address that the tailnet offers. */
  lemma VisitServices(v: Visit, t: Tailnet, name: string, six: bool, texts: Texts)
    requires VisitOf(v, t)
    ensures var found := Find(RecordsOf(v, six, texts).services, name);
      && (found.Some? ==> Offers(t, name, six, texts, found.value))
      && (found.None? ==> forall a :: !Offers(t, name, six, texts, a))
  {
    var rs := v.self + Flat(v.groups);
    var found := Find(RecordsOf(v, six, texts).services, name);
    VisitMembers(v, t);
    if found.Some? {
      ServiceRecordsExactly(v.id, rs, name, six, texts, found.value);
      var l :| name == RecordName(v.id, l) && Answers(rs, l, six, texts, found.value);
      var n :| HoldsLabel(rs, n, l, texts.labelOf) && FirstReport(rs, n, FamilyOf(six), texts.parse) == found;
      HoldsLabelSame(rs, Reports(t), n, l, texts.labelOf);
      FirstLeads(v, t, n, FamilyOf(six), texts.parse);
    } else if a :| Offers(t, name, six, texts, a) {
      var l, e: Endpoint :| name == RecordName(t.id, l) && HoldsLabel(Reports(t), e.name, l, texts.labelOf)
        && Leads(t, e, FamilyOf(six), texts.parse) && FirstOf(e.addrs, FamilyOf(six), texts.parse) == Some(a);
      HoldsLabelSame(rs, Reports(t), e.name, l, texts.labelOf);
      FirstLeads(v, t, e.name, FamilyOf(six), texts.parse);
      var b := FirstReport(rs, e.name, FamilyOf(six), texts.parse).value;
      ServiceRecordsExactly(v.id, rs, name, six, texts, b);
      assert Answers(rs, l, six, texts, b);
    }
  }

  // ----- a visit for each address

  lemma Moved<T>(ts: seq<T>, i: nat)
    requires i < |ts|
    ensures multiset(ts[..i] + ts[i + 1..] + [ts[i]]) == multiset(ts) == multiset([ts[i]] + (ts[..i] + ts[i + 1..]))
  {
    assert ts == ts[..i] + [ts[i]] + ts[i + 1..];
  }

  lemma GroupsAreShuffled(nodes: seq<Node>)
    ensures Shuffled(GroupsOf(nodes), nodes)
  {
    assert SameReports(GroupsOf(nodes), nodes);
  }

  function AsListed(t: Tailnet): Visit {
    Visit(t.id, t.nodes, t.self, GroupsOf(t.nodes))
  }

  lemma AsListedIsAVisit(t: Tailnet)
    ensures VisitOf(AsListed(t), t)
  {
    GroupsAreShuffled(t.nodes);
  }

  /** Some order of the peers gives the name to any peer that claims it. */
  lemma PeerVisit(t: Tailnet, n: Node, name: string, six: bool, texts: Texts) returns (v: Visit)
    requires n in t.nodes && Claim(t.id, n, name, six, texts.parse).Some?
    ensures VisitOf(v, t) && Find(RecordsOf(v, six, texts).peers, name) == Claim(t.id, n, name, six, texts.parse)
  {
    var i :| 0 <= i < |t.nodes| && t.nodes[i] == n;
    Moved(t.nodes, i);
    v := AsListed(t).(peers := t.nodes[..i] + t.nodes[i + 1..] + [n]);
    AsListedIsAVisit(t);
    PeerRecordsExactly(v.id, v.peers, name, six, texts.parse);
  }

  /** Some order of the reports puts a report of a list at its head. */
  lemma ReportFirst(rs: seq<Endpoint>, e: Endpoint) returns (other: seq<Endpoint>)
    requires e in rs
    ensures multiset(other) == multiset(rs) && other != [] && other[0] == e
  {
    var i :| 0 <= i < |rs| && rs[i] == e;
    Moved(rs, i);
    other := [e] + (rs[..i] + rs[i + 1..]);
  }

  lemma GroupFirst(nodes: seq<Node>, e: Endpoint) returns (groups: seq<seq<Endpoint>>)
    requires e in Flat(GroupsOf(nodes))
    ensures Shuffled(groups, nodes) && Flat(groups) != [] && Flat(groups)[0] == e
  {
    FlatOfSame(GroupsOf(nodes), nodes, e);
    var n :| n in nodes && e in n.reports;
    var rest := NodeFirst(nodes, n);
    var first := ReportFirst(n.reports, e);
    groups := [first] + GroupsOf(rest);
    HeadGroup(first, n, rest);
  }

  lemma NodeFirst(nodes: seq<Node>, n: Node) returns (rest: seq<Node>)
    requires n in nodes
    ensures multiset([n] + rest) == multiset(nodes)
  {
    var i :| 0 <= i < |nodes| && nodes[i] == n;
    Moved(nodes, i);
    rest := nodes[..i] + nodes[i + 1..];
  }

  lemma HeadGroup(first: seq<Endpoint>, n: Node, rest: seq<Node>)
    requires multiset(first) == multiset(n.reports)
    ensures SameReports([first] + GroupsOf(rest), [n] + rest)
    ensures Flat([first] + GroupsOf(rest)) == first + Flat(GroupsOf(rest))
  {
    assert ([first] + GroupsOf(rest))[1..] == GroupsOf(rest);
  }

  /** Some order of the reports lets any leading report give the address of its service. */
  lemma LeadingVisit(t: Tailnet, e: Endpoint, family: Family, parse: ParseIP) returns (v: Visit)
    requires Leads(t, e, family, parse)
    ensures VisitOf(v, t)
    ensures FirstReport(v.self + Flat(v.groups), e.name, family, parse) == FirstOf(e.addrs, family, parse)
  {
    v := AsListed(t);
    AsListedIsAVisit(t);
    if e in t.self {
      var self := ReportFirst(t.self, e);
      v := v.(self := self);
    } else {
      var groups := GroupFirst(t.nodes, e);
      v := v.(groups := groups);
      FirstReportIsAReport(t.self, e.name, family, parse);
    }
    FirstReportOfBoth(v.self, Flat(v.groups), e.name, family, parse);
  }

  lemma ServiceVisit(t: Tailnet, name: string, six: bool, texts: Texts, a: string) returns (v: Visit)
    requires Offers(t, name, six, texts, a)
    ensures VisitOf(v, t) && Find(RecordsOf(v, six, texts).services, name) == Some(a)
  {
    var l, e: Endpoint :| name == RecordName(t.id, l) && HoldsLabel(Reports(t), e.name, l, texts.labelOf)
      && Leads(t, e, FamilyOf(six), texts.parse) && FirstOf(e.addrs, FamilyOf(six), texts.parse) == Some(a);
    v := LeadingVisit(t, e, FamilyOf(six), texts.parse);
    VisitMembers(v, t);
    var rs := v.self + Flat(v.groups);
    HoldsLabelSame(rs, Reports(t), e.name, l, texts.labelOf);
    assert Answers(rs, l, six, texts, a);
    ServiceRecordsExactly(v.id, rs, name, six, texts, a);
  }

  // ----- every order of everything

  /** The address of a name under any order: the one of some peer that claims it, or without a
      peer one that some tailnet offers. */
  lemma TableAddress(vs: seq<Visit>, ts: seq<Tailnet>, name: string, six: bool, texts: Texts)
    requires Enumerates(vs, ts)
    ensures var found := Find(Table(vs, six, texts), name);
      && (found.Some? && (exists a :: Claims(ts, name, six, texts, a)) ==> Claims(ts, name, six, texts, found.value))
      && (found.Some? && !(exists a :: Claims(ts, name, six, texts, a)) ==> SomeOffer(ts, name, six, texts, found.value))
      && (found.None? ==> forall a :: !Claims(ts, name, six, texts, a) && !SomeOffer(ts, name, six, texts, a))
  {
    var us: seq<Tailnet> :| multiset(us) == multiset(ts) && VisitsOf(vs, us);
    SameMembers(us, ts);
    assert forall a :: Claims(us, name, six, texts, a) <==> Claims(ts, name, six, texts, a);
    assert forall a :: SomeOffer(us, name, six, texts, a) <==> SomeOffer(ts, name, six, texts, a);
    AddressOfRecords(AllRecords(vs, six, texts), name);
    PeersOfVisits(vs, us, name, six, texts);
    ServicesOfVisits(vs, us, name, six, texts);
  }

  lemma AddressOfRecords(rs: seq<Records>, name: string)
    ensures var found := Find(MergeAll(rs), name);
      && (found.Some? && (exists r :: r in rs && name in r.peers) ==> exists r :: r in rs && name in r.peers && found == Some(r.peers[name]))
      && (found.Some? && !(exists r :: r in rs && name in r.peers) ==> exists r :: r in rs && name in r.services && found == Some(r.services[name]))
      && (found.None? ==> forall r :: r in rs ==> name !in r.peers && name !in r.services)
  {
    ValueOfName(rs, name);
    LastPeerIsAPeer(rs, name);
    FirstServiceIsAService(rs, name);
  }

  lemma PeersOfVisits(vs: seq<Visit>, us: seq<Tailnet>, name: string, six: bool, texts: Texts)
    requires VisitsOf(vs, us)
    ensures forall r :: r in AllRecords(vs, six, texts) && name in r.peers ==> Claims(us, name, six, texts, r.peers[name])
    ensures (forall r :: r in AllRecords(vs, six, texts) ==> name !in r.peers) ==> forall a :: !Claims(us, name, six, texts, a)
  {
    var rs := AllRecords(vs, six, texts);
    forall i | 0 <= i < |us|
      ensures name in rs[i].peers ==> Claims(us, name, six, texts, rs[i].peers[name])
      ensures name !in rs[i].peers ==> forall n :: n in us[i].nodes ==> Claim(us[i].id, n, name, six, texts.parse) == None
    {
      VisitPeers(vs[i], us[i], name, six, texts);
      if name in rs[i].peers {
        var n :| n in us[i].nodes && Claim(us[i].id, n, name, six, texts.parse) == Some(rs[i].peers[name]);
      }
    }
    if forall r :: r in rs ==> name !in r.peers {
      forall a
        ensures !Claims(us, name, six, texts, a)
      {
        if t, n :| t in us && n in t.nodes && Claim(t.id, n, name, six, texts.parse) == Some(a) {
          var i :| 0 <= i < |us| && us[i] == t;
          assert rs[i] in rs;
        }
      }
    }
  }

  lemma ServicesOfVisits(vs: seq<Visit>, us: seq<Tailnet>, name: string, six: bool, texts: Texts)
    requires VisitsOf(vs, us)
    ensures forall r :: r in AllRecords(vs, six, texts) && name in r.services ==> SomeOffer(us, name, six, texts, r.services[name])
    ensures (forall r :: r in AllRecords(vs, six, texts) ==> name !in r.services) ==> forall a :: !SomeOffer(us, name, six, texts, a)
  {
    var rs := AllRecords(vs, six, texts);
    forall i | 0 <= i < |us|
      ensures name in rs[i].services ==> SomeOffer(us, name, six, texts, rs[i].services[name])
      ensures name !in rs[i].services ==> forall a :: !Offers(us[i], name, six, texts, a)
    {
      VisitServices(vs[i], us[i], name, six, texts);
      assert us[i] in us;
    }
    if forall r :: r in rs ==> name !in r.services {
      forall a
        ensures !SomeOffer(us, name, six, texts, a)
      {
        if t :| t in us && Offers(t, name, six, texts, a) {
          var i :| 0 <= i < |us| && us[i] == t;
          assert rs[i] in rs;
        }
      }
    }
  }

  function Listed(ts: seq<Tailnet>): seq<Visit> {
    seq(|ts|, i requires 0 <= i < |ts| => AsListed(ts[i]))
  }

  /** Any tailnet can come last, and any one can come first, in any order of its own. */
  lemma VisitAtAnEnd(ts: seq<Tailnet>, i: nat, v: Visit) returns (rest: seq<Visit>)
    requires i < |ts| && VisitOf(v, ts[i])
    ensures Enumerates(rest + [v], ts) && Enumerates([v] + rest, ts)
  {
    var others := ts[..i] + ts[i + 1..];
    Moved(ts, i);
    rest := Listed(others);
    ListedAreVisits(others);
    OneMoreVisit(rest, others, v, ts[i]);
    OrderOf(rest + [v], others + [ts[i]], ts);
    OrderOf([v] + rest, [ts[i]] + others, ts);
  }

  lemma OrderOf(vs: seq<Visit>, us: seq<Tailnet>, ts: seq<Tailnet>)
    requires VisitsOf(vs, us) && multiset(us) == multiset(ts)
    ensures Enumerates(vs, ts)
  {
  }

  lemma ListedAreVisits(ts: seq<Tailnet>)
    ensures VisitsOf(Listed(ts), ts)
  {
    forall k | 0 <= k < |ts|
      ensures VisitOf(Listed(ts)[k], ts[k])
    {
      AsListedIsAVisit(ts[k]);
    }
  }

  lemma OneMoreVisit(vs: seq<Visit>, us: seq<Tailnet>, v: Visit, t: Tailnet)
    requires VisitsOf(vs, us) && VisitOf(v, t)
    ensures VisitsOf(vs + [v], us + [t]) && VisitsOf([v] + vs, [t] + us)
  {
  }

  /** Any peer that claims a name has it under some order. */
  lemma ClaimWins(ts: seq<Tailnet>, name: string, six: bool, texts: Texts, a: string) returns (vs: seq<Visit>)
    requires Claims(ts, name, six, texts, a)
    ensures Enumerates(vs, ts) && Find(Table(vs, six, texts), name) == Some(a)
  {
    var t, n :| t in ts && n in t.nodes && Claim(t.id, n, name, six, texts.parse) == Some(a);
    var i :| 0 <= i < |ts| && ts[i] == t;
    var v := PeerVisit(t, n, name, six, texts);
    var rest := VisitAtAnEnd(ts, i, v);
    vs := rest + [v];
    ValueOfName(AllRecords(vs, six, texts), name);
  }

  /** Any address that a tailnet offers for a name without a peer is given under some order. */
  lemma OfferWins(ts: seq<Tailnet>, name: string, six: bool, texts: Texts, a: string) returns (vs: seq<Visit>)
    requires SomeOffer(ts, name, six, texts, a) && !exists b :: Claims(ts, name, six, texts, b)
    ensures Enumerates(vs, ts) && Find(Table(vs, six, texts), name) == Some(a)
  {
    var t :| t in ts && Offers(t, name, six, texts, a);
    var i :| 0 <= i < |ts| && ts[i] == t;
    var v := ServiceVisit(t, name, six, texts, a);
    var rest := VisitAtAnEnd(ts, i, v);
    vs := [v] + rest;
    NoPeerHasIt(vs, ts, name, six, texts);
    AllRecordsHead(v, rest, six, texts);
    HeadServes(RecordsOf(v, six, texts), AllRecords(rest, six, texts), name);
  }

  lemma AllRecordsHead(v: Visit, rest: seq<Visit>, six: bool, texts: Texts)
    ensures AllRecords([v] + rest, six, texts) == [RecordsOf(v, six, texts)] + AllRecords(rest, six, texts)
  {
  }

  lemma HeadServes(r: Records, rest: seq<Records>, name: string)
    requires name in r.services && forall s :: s in [r] + rest ==> name !in s.peers
    ensures Find(MergeAll([r] + rest), name) == Some(r.services[name])
  {
    FirstServiceHead(r, rest, name);
    ValueOfName([r] + rest, name);
    LastPeerIsAPeer([r] + rest, name);
  }

  lemma NoPeerHasIt(vs: seq<Visit>, ts: seq<Tailnet>, name: string, six: bool, texts: Texts)
    requires Enumerates(vs, ts) && !exists b :: Claims(ts, name, six, texts, b)
    ensures forall r :: r in AllRecords(vs, six, texts) ==> name !in r.peers
  {
    var us: seq<Tailnet> :| multiset(us) == multiset(ts) && VisitsOf(vs, us);
    SameMembers(us, ts);
    PeersOfVisits(vs, us, name, six, texts);
    forall r | r in AllRecords(vs, six, texts) && name in r.peers
      ensures Claims(ts, name, six, texts, r.peers[name])
    {
      assert Claims(us, name, six, texts, r.peers[name]);
    }
  }

  lemma OneTableSettles(ts: seq<Tailnet>, name: string, six: bool, texts: Texts)
    requires OneTable(ts, six, texts)
    ensures Settled(ts, name, six, texts)
  {
    if exists a :: Claims(ts, name, six, texts, a) {
      forall a, b | Claims(ts, name, six, texts, a) && Claims(ts, name, six, texts, b)
        ensures a == b
      {
        var vs := ClaimWins(ts, name, six, texts, a);
        var ws := ClaimWins(ts, name, six, texts, b);
        assert Table(vs, six, texts) == Table(ws, six, texts);
      }
    } else {
      forall a, b | SomeOffer(ts, name, six, texts, a) && SomeOffer(ts, name, six, texts, b)
        ensures a == b
      {
        var vs := OfferWins(ts, name, six, texts, a);
        var ws := OfferWins(ts, name, six, texts, b);
        assert Table(vs, six, texts) == Table(ws, six, texts);
      }
    }
  }

  /** The table of the host is the same in every map order of the daemon exactly when, for each
      name, the peers that claim it agree, within one tailnet and across tailnets, or no peer
      claims it and the services that may answer for it agree. */
  lemma OneTableExactly(ts: seq<Tailnet>, six: bool, texts: Texts)
    ensures OneTable(ts, six, texts) <==> forall name :: Settled(ts, name, six, texts)
  {
    if OneTable(ts, six, texts) {
      forall name
        ensures Settled(ts, name, six, texts)
      {
        OneTableSettles(ts, name, six, texts);
      }
    }
    if forall name :: Settled(ts, name, six, texts) {
      forall vs, ws | Enumerates(vs, ts) && Enumerates(ws, ts)
        ensures Table(vs, six, texts) == Table(ws, six, texts)
      {
        forall name
          ensures Find(Table(vs, six, texts), name) == Find(Table(ws, six, texts), name)
        {
          assert Settled(ts, name, six, texts);
          TableAddress(vs, ts, name, six, texts);
          TableAddress(ws, ts, name, six, texts);
        }
        SameFinds(Table(vs, six, texts), Table(ws, six, texts));
      }
    }
  }

  // ----- the exceptions are real, and the plain case

  /** Two nodes of one tailnet with one host name and two addresses: the table follows the order
      of the peers in the status, with one tailnet alone. */
  lemma TwoPeersOneName(id: string, host: string, a: string, b: string, texts: Texts)
    requires texts.parse(a) == texts.parse(b) == V4 && a != b
    ensures !OneTable([Tailnet(id, [], [Node(host, [a], []), Node(host, [b], [])])], false, texts)
  {
    var n, m := Node(host, [a], []), Node(host, [b], []);
    var t := Tailnet(id, [], [n, m]);
    var name := RecordName(id, HostName(host));
    OneIp(a, texts.parse);
    OneIp(b, texts.parse);
    assert t in [t] && n in t.nodes && m in t.nodes;
    assert Claim(t.id, n, name, false, texts.parse) == Some(a) && Claim(t.id, m, name, false, texts.parse) == Some(b);
    assert Claims([t], name, false, texts, a) && Claims([t], name, false, texts, b);
    assert !Settled([t], name, false, texts);
    OneTableExactly([t], false, texts);
  }

  lemma OneIp(a: string, parse: ParseIP)
    requires parse(a) == V4
    ensures LastOf([a], V4, parse) == Some(a) && FirstOf([a], V4, parse) == Some(a)
  {
    assert [a][..0] == [] && OfFamily([a][..0], V4, parse) == [];
  }

  /** One service that two nodes report with two addresses: the merged record starts with the
      address of the node that the daemon meets first. */
  lemma TwoReportsOneService(id: string, service: string, a: string, b: string, texts: Texts)
    requires texts.parse(a) == texts.parse(b) == V4 && a != b && texts.labelOf(service) != ""
    ensures !OneTable([Tailnet(id, [], [Node("x", [], [Endpoint(service, [a])]), Node("y", [], [Endpoint(service, [b])])])], false, texts)
  {
    var e, f := Endpoint(service, [a]), Endpoint(service, [b]);
    var t := Tailnet(id, [], [Node("x", [], [e]), Node("y", [], [f])]);
    OneIp(a, texts.parse);
    OneIp(b, texts.parse);
    TwoGroups(t, e, f);
    assert e in Reports(t) && HoldsLabel(Reports(t), service, texts.labelOf(service), texts.labelOf);
    assert forall n :: n in t.nodes ==> n.ips == [];
    OffersDisagree(t, e, f, false, texts);
  }

  lemma OffersDisagree(t: Tailnet, e: Endpoint, f: Endpoint, six: bool, texts: Texts)
    requires e.name == f.name && HoldsLabel(Reports(t), e.name, texts.labelOf(e.name), texts.labelOf)
    requires Leads(t, e, FamilyOf(six), texts.parse) && Leads(t, f, FamilyOf(six), texts.parse)
    requires FirstOf(e.addrs, FamilyOf(six), texts.parse) != FirstOf(f.addrs, FamilyOf(six), texts.parse)
    requires forall n :: n in t.nodes ==> n.ips == []
    ensures !OneTable([t], six, texts)
  {
    var name := RecordName(t.id, texts.labelOf(e.name));
    var a, b := FirstOf(e.addrs, FamilyOf(six), texts.parse).value, FirstOf(f.addrs, FamilyOf(six), texts.parse).value;
    assert Offers(t, name, six, texts, a) && Offers(t, name, six, texts, b);
    assert t in [t] && SomeOffer([t], name, six, texts, a) && SomeOffer([t], name, six, texts, b);
    assert forall c :: !Claims([t], name, six, texts, c);
    assert !Settled([t], name, six, texts);
    OneTableExactly([t], six, texts);
  }

  lemma TwoGroups(t: Tailnet, e: Endpoint, f: Endpoint)
    requires t == Tailnet(t.id, [], [Node("x", [], [e]), Node("y", [], [f])])
    ensures forall g :: g in Flat(GroupsOf(t.nodes)) <==> g == e || g == f
    ensures Reports(t) == Flat(GroupsOf(t.nodes))
  {
    var gs := GroupsOf(t.nodes);
    assert gs == [[e], [f]];
    assert gs[1..] == [[f]] && [[f]][1..] == [];
    assert Flat([[f]]) == [f] + Flat([]) == [f];
    assert Flat(gs) == [e] + Flat([[f]]) == [e, f];
    assert Reports(t) == [] + Flat(gs);
  }

  predicate ClaimAt(ts: seq<Tailnet>, i: nat, k: nat, name: string, six: bool, texts: Texts) {
    i < |ts| && k < |ts[i].nodes| && Claim(ts[i].id, ts[i].nodes[k], name, six, texts.parse).Some?
  }

  /** No two peers of the host share a name, and each service name has one possible answer. */
  ghost predicate Apart(ts: seq<Tailnet>, six: bool, texts: Texts) {
    && (forall i, j, k, m, name | ClaimAt(ts, i, k, name, six, texts) && ClaimAt(ts, j, m, name, six, texts) :: i == j && k == m)
    && (forall name, a, b :: SomeOffer(ts, name, six, texts, a) && SomeOffer(ts, name, six, texts, b) ==> a == b)
  }

  /** So distinct names give one table. */
  lemma MergeOrderDoesNotShow(ts: seq<Tailnet>, six: bool, texts: Texts)
    requires Apart(ts, six, texts)
    ensures OneTable(ts, six, texts)
  {
    forall name, a, b | Claims(ts, name, six, texts, a) && Claims(ts, name, six, texts, b)
      ensures a == b
    {
      var t, n :| t in ts && n in t.nodes && Claim(t.id, n, name, six, texts.parse) == Some(a);
      var u, p :| u in ts && p in u.nodes && Claim(u.id, p, name, six, texts.parse) == Some(b);
      var i :| 0 <= i < |ts| && ts[i] == t;
      var j :| 0 <= j < |ts| && ts[j] == u;
      var k :| 0 <= k < |ts[i].nodes| && ts[i].nodes[k] == n;
      var m :| 0 <= m < |ts[j].nodes| && ts[j].nodes[m] == p;
      assert ClaimAt(ts, i, k, name, six, texts) && ClaimAt(ts, j, m, name, six, texts);
    }
    forall name
      ensures Settled(ts, name, six, texts)
    {
    }
    OneTableExactly(ts, six, texts);
  }
}
