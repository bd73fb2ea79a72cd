/** The services of one tailnet, the names of its records, and the alias zone
    (internal/hostaccess/peers.go). */
module ServiceRecords {
  import opened Text

  // ----- the services of one tailnet

  datatype Family = NoAddress | V4 | V6

  /** One record of the control server. */
  datatype Endpoint = Endpoint(name: string, addrs: seq<string>)

  /** name is empty when another service holds the label. */
  datatype Service = Service(name: string, raw: string, v4: seq<string>, v6: seq<string>)

  /** serviceLabel. What follows holds for every such function. */
  type Namer = string -> string

  /** net.ParseIP and To4. */
  type ParseIP = string -> Family

  function OfFamily(addrs: seq<string>, family: Family, parse: ParseIP): seq<string> {
    if addrs == [] then []
    else OfFamily(addrs[..|addrs| - 1], family, parse) + if parse(addrs[|addrs| - 1]) == family then [addrs[|addrs| - 1]] else []
  }

  predicate Reachable(e: Endpoint, parse: ParseIP) {
    OfFamily(e.addrs, V4, parse) != [] || OfFamily(e.addrs, V6, parse) != []
  }

  lemma {:induction false} FamilyExactly(addrs: seq<string>, family: Family, parse: ParseIP)
    ensures OfFamily(addrs, family, parse) != [] <==> exists i :: 0 <= i < |addrs| && parse(addrs[i]) == family
  {
    if addrs != [] {
      var front, last := addrs[..|addrs| - 1], |addrs| - 1;
      FamilyExactly(front, family, parse);
      if i :| 0 <= i < |front| && parse(front[i]) == family {
        assert parse(addrs[i]) == family;
      }
      if i :| 0 <= i < |addrs| && parse(addrs[i]) == family {
        assert i < last ==> parse(front[i]) == family;
      }
    }
  }

  /** A record is reachable exactly when one of its entries is an address. */
  lemma ReachableExactly(e: Endpoint, parse: ParseIP)
    ensures Reachable(e, parse) <==> exists i :: 0 <= i < |e.addrs| && parse(e.addrs[i]) != NoAddress
  {
    FamilyExactly(e.addrs, V4, parse);
    FamilyExactly(e.addrs, V6, parse);
  }

  /** Record i is the first one of its label. */
  predicate FirstOfLabel(es: seq<Endpoint>, i: nat, name: Namer)
    requires i < |es|
  {
    name(es[i].name) != "" && forall k :: 0 <= k < i ==> name(es[k].name) != name(es[i].name)
  }

  /** The service that record i gives, if any. */
  function ServiceAt(es: seq<Endpoint>, i: nat, name: Namer, parse: ParseIP): Option<Service>
    requires i < |es|
  {
    if name(es[i].name) == "" || !Reachable(es[i], parse) then None
    else Some(Service(if FirstOfLabel(es, i, name) then name(es[i].name) else "", es[i].name,
                      OfFamily(es[i].addrs, V4, parse), OfFamily(es[i].addrs, V6, parse)))
  }

  function Services(es: seq<Endpoint>, n: nat, name: Namer, parse: ParseIP): seq<Service>
    requires n <= |es|
  {
    if n == 0 then []
    else Services(es, n - 1, name, parse) + match ServiceAt(es, n - 1, name, parse) case Some(s) => [s] case None => []
  }

  method SplitAddresses(addrs: seq<string>, parse: ParseIP) returns (v4: seq<string>, v6: seq<string>)
    ensures v4 == OfFamily(addrs, V4, parse) && v6 == OfFamily(addrs, V6, parse)
  {
    v4, v6 := [], [];
    for i := 0 to |addrs|
      invariant v4 == OfFamily(addrs[..i], V4, parse) && v6 == OfFamily(addrs[..i], V6, parse)
    {
      assert addrs[..i + 1][..i] == addrs[..i];
      match parse(addrs[i]) {
        case NoAddress =>
        case V4 => v4 := v4 + [addrs[i]];
        case V6 => v6 := v6 + [addrs[i]];
      }
    }
    assert addrs[..|addrs|] == addrs;
  }

  /** The labels of the first n records. */
  function Taken(es: seq<Endpoint>, n: nat, name: Namer): set<string>
    requires n <= |es|
  {
    if n == 0 then {}
    else if name(es[n - 1].name) == "" then Taken(es, n - 1, name)
    else Taken(es, n - 1, name) + {name(es[n - 1].name)}
  }

  lemma {:induction false} TakenHolds(es: seq<Endpoint>, n: nat, name: Namer, l: string)
    requires n <= |es|
    ensures l in Taken(es, n, name) <==> l != "" && exists k :: 0 <= k < n && name(es[k].name) == l
  {
    if n > 0 {
      TakenHolds(es, n - 1, name, l);
    }
  }

  lemma TakenExactly(es: seq<Endpoint>, i: nat, name: Namer)
    requires i < |es|
    ensures name(es[i].name) != "" ==> (FirstOfLabel(es, i, name) <==> name(es[i].name) !in Taken(es, i, name))
  {
    TakenHolds(es, i, name, name(es[i].name));
  }

  /** parseServices, up to its sort by name. */
  method ParseServices(es: seq<Endpoint>, name: Namer, parse: ParseIP) returns (out: seq<Service>)
    ensures out == Services(es, |es|, name, parse)
  {
    out := [];
    var taken := {};
    for i := 0 to |es|
      invariant out == Services(es, i, name, parse)
      invariant taken == Taken(es, i, name)
    {
      TakenExactly(es, i, name);
      var held := name(es[i].name);
      if held == "" {
        continue;
      }
      var own := "";
      if held !in taken {
        own := held;
        taken := taken + {held};
      }
      var v4, v6 := SplitAddresses(es[i].addrs, parse);
      if |v4| == 0 && |v6| == 0 {
        continue;
      }
      out := out + [Service(own, es[i].name, v4, v6)];
    }
  }

  lemma {:induction false} InServices(es: seq<Endpoint>, n: nat, name: Namer, parse: ParseIP, s: Service)
    requires n <= |es|
    ensures s in Services(es, n, name, parse) <==> exists i :: 0 <= i < n && ServiceAt(es, i, name, parse) == Some(s)
  {
    if n > 0 {
      InServices(es, n - 1, name, parse, s);
    }
  }

  /** A label names a service of the tailnet exactly when the first record of the label has an
      address. A first record that is dropped for want of an address keeps the label, and then
      no service has it. */
  lemma LabelIsHeldExactly(es: seq<Endpoint>, name: Namer, parse: ParseIP, l: string)
    requires l != ""
    ensures (exists s :: s in Services(es, |es|, name, parse) && s.name == l) <==>
      exists i :: 0 <= i < |es| && name(es[i].name) == l && FirstOfLabel(es, i, name) && Reachable(es[i], parse)
  {
    if s :| s in Services(es, |es|, name, parse) && s.name == l {
      InServices(es, |es|, name, parse, s);
    }
    if i :| 0 <= i < |es| && name(es[i].name) == l && FirstOfLabel(es, i, name) && Reachable(es[i], parse) {
      var s := ServiceAt(es, i, name, parse).value;
      InServices(es, |es|, name, parse, s);
      assert s.name == l;
    }
  }

  /** The exception is real: of two records with one label, the first without an address and
      the second with one, the only service has no name. */
  lemma DroppedRecordTakesTheLabel(name: Namer, parse: ParseIP, one: string, other: string, address: string)
    requires name(one) == name(other) != "" && parse(address) == V4
    ensures Services([Endpoint(one, []), Endpoint(other, [address])], 2, name, parse) == [Service("", other, [address], [])]
  {
    var es := [Endpoint(one, []), Endpoint(other, [address])];
    assert [address][..0] == [] && [address][0] == address;
    assert OfFamily([address], V4, parse) == [address] && OfFamily([address], V6, parse) == [];
    assert ServiceAt(es, 0, name, parse) == None;
    assert !FirstOfLabel(es, 1, name) by {
      assert name(es[0].name) == name(es[1].name);
    }
    assert Services(es, 1, name, parse) == [];
  }

  /** No two services of a tailnet hold one name. */
  lemma ServiceNamesDiffer(es: seq<Endpoint>, name: Namer, parse: ParseIP, i: nat, j: nat)
    requires i < |es| && j < |es| && ServiceAt(es, i, name, parse).Some? && ServiceAt(es, j, name, parse).Some?
    requires ServiceAt(es, i, name, parse).value.name == ServiceAt(es, j, name, parse).value.name != ""
    ensures i == j
  {
  }

  // ----- the records of a tailnet

  /** The name of a peer or of a service in the hosts file. */
  function RecordName(id: string, host: string): string {
    id + "-" + host
  }

  /** Two records share a name exactly when they are one record, or when one tailnet id extends
      the other one by a hyphen and the host name makes up for it. */
  lemma RecordNamesCollideExactly(a: string, x: string, b: string, y: string)
    ensures RecordName(a, x) == RecordName(b, y) <==>
      (a == b && x == y)
      || (exists t :: b == a + "-" + t && x == t + "-" + y)
      || (exists t :: a == b + "-" + t && y == t + "-" + x)
  {
    if RecordName(a, x) == RecordName(b, y) {
      if |a| == |b| {
        assert RecordName(a, x)[..|a|] == a && RecordName(b, y)[..|b|] == b;
        assert RecordName(a, x)[|a| + 1..] == x && RecordName(b, y)[|b| + 1..] == y;
      } else if |a| < |b| {
        Extends(a, x, b, y);
      } else {
        Extends(b, y, a, x);
      }
    }
    if t :| b == a + "-" + t && x == t + "-" + y {
      assert RecordName(b, y) == a + "-" + (t + "-" + y);
    }
    if t :| a == b + "-" + t && y == t + "-" + x {
      assert RecordName(a, x) == b + "-" + (t + "-" + x);
    }
  }

  /** The exception is real: the comment of BuildServiceRecords rules out that the record of one
      tailnet takes the name of a record of another one. */
  lemma TwoTailnetsOneName()
    ensures RecordName("home", "lab-nas") == RecordName("home-lab", "nas") == "home-lab-nas"
  {
  }

  lemma Extends(a: string, x: string, b: string, y: string)
    requires RecordName(a, x) == RecordName(b, y) && |a| < |b|
    ensures exists t :: b == a + "-" + t && x == t + "-" + y
  {
    var n := RecordName(a, x);
    var t := b[|a| + 1..];
    assert n[..|b|] == b;
    assert b[..|a|] == n[..|a|] == a;
    assert b[|a|] == n[|a|] == '-';
    assert b == a + "-" + t;
    assert n[|a| + 1..] == x;
    assert n == (a + "-") + (t + "-" + y);
    assert n[|a| + 1..] == t + "-" + y;
  }

  // ----- the alias zone

  /** The first service of a name with an address of the family. */
  function FirstAddress(ss: seq<Service>, name: string, six: bool): Option<string> {
    if ss == [] then None
    else
      var addrs := if six then ss[0].v6 else ss[0].v4;
      if ss[0].name == name && addrs != [] then Some(addrs[0]) else FirstAddress(ss[1..], name, six)
  }

  function Find(zone: map<string, string>, name: string): Option<string> {
    if name in zone then Some(zone[name]) else None
  }

  /** One family of a zone after the services: a peer keeps its record. */
  ghost predicate ServedBy(before: map<string, string>, after: map<string, string>, ss: seq<Service>, six: bool) {
    forall name :: Find(after, name) ==
      if name in before then Find(before, name) else if name == "" then None else FirstAddress(ss, name, six)
  }

  lemma {:induction false} FirstAddressNext(ss: seq<Service>, s: Service, name: string, six: bool)
    ensures FirstAddress(ss + [s], name, six) ==
      if FirstAddress(ss, name, six).Some? then FirstAddress(ss, name, six) else FirstAddress([s], name, six)
  {
    if ss == [] {
      assert ss + [s] == [s];
    } else {
      assert (ss + [s])[0] == ss[0] && (ss + [s])[1..] == ss[1..] + [s];
      FirstAddressNext(ss[1..], s, name, six);
    }
  }

  lemma {:induction false} FirstAddressExactly(ss: seq<Service>, name: string, six: bool)
    ensures FirstAddress(ss, name, six).Some? <==> exists s :: s in ss && s.name == name && (if six then s.v6 else s.v4) != []
  {
    if ss != [] {
      FirstAddressExactly(ss[1..], name, six);
      assert ss == [ss[0]] + ss[1..];
    }
  }

  /** addServiceAliasRecords. The code looks at one family at a time, so a name of a peer with
      an IPv4 record only answers for that peer in IPv4 and for a service in IPv6 exactly when
      a service of that name has an IPv6 address. */
  method AddServiceAliasRecords(zone4: map<string, string>, zone6: map<string, string>, ss: seq<Service>)
    returns (out4: map<string, string>, out6: map<string, string>)
    ensures ServedBy(zone4, out4, ss, false) && ServedBy(zone6, out6, ss, true)
    ensures forall name :: name != "" && name in zone4 && name !in zone6 ==>
      out4[name] == zone4[name] && (name in out6 <==> exists s :: s in ss && s.name == name && s.v6 != [])
  {
    out4, out6 := zone4, zone6;
    for i := 0 to |ss|
      invariant ServedBy(zone4, out4, ss[..i], false) && ServedBy(zone6, out6, ss[..i], true)
    {
      var s := ss[i];
      assert ss[..i + 1] == ss[..i] + [s] && [s][1..] == [];
      forall name, six
        ensures FirstAddress(ss[..i + 1], name, six) ==
          if FirstAddress(ss[..i], name, six).Some? then FirstAddress(ss[..i], name, six) else FirstAddress([s], name, six)
      {
        FirstAddressNext(ss[..i], s, name, six);
      }
      if s.name == "" {
        continue;
      }
      if |s.v4| > 0 && s.name !in out4 {
        out4 := out4[s.name := s.v4[0]];
      }
      if |s.v6| > 0 && s.name !in out6 {
        out6 := out6[s.name := s.v6[0]];
      }
    }
    assert ss[..|ss|] == ss;
    forall name | name != "" && name in zone4 && name !in zone6
      ensures out4[name] == zone4[name] && (name in out6 <==> exists s :: s in ss && s.name == name && s.v6 != [])
    {
      assert Find(out4, name) == Find(zone4, name);
      assert Find(out6, name) == FirstAddress(ss, name, true);
      FirstAddressExactly(ss, name, true);
    }
  }
}
