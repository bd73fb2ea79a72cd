/** What the names, the labels and the records of the daemon are, position by position and letter
    by letter: each statement can be read off the input alone. */
module NameLaws {
  import opened Text
  import S = SplitDns
  import V = ServiceNames
  import Q = ServiceRecords
  import H = HostRecords
  import T = NameTable
  import N = TailnetNames
  import O = DomainClaims

  // ----- text

  predicate AllSpace(s: string) {
    forall i :: 0 <= i < |s| ==> S.IsSpace(s[i])
  }

  predicate NoSpaceAtEnds(s: string) {
    s != "" ==> !S.IsSpace(s[0]) && !S.IsSpace(s[|s| - 1])
  }

  lemma {:induction false} TrimsTheLeft(a: string, t: string)
    requires AllSpace(a) && (t != "" ==> !S.IsSpace(t[0]))
    ensures S.TrimLeft(a + t) == t
  {
    if a == "" {
      assert a + t == t;
    } else {
      assert (a + t)[0] == a[0] && (a + t)[1..] == a[1..] + t;
      TrimsTheLeft(a[1..], t);
    }
  }

  lemma {:induction false} TrimsTheRight(t: string, b: string)
    requires AllSpace(b) && (t != "" ==> !S.IsSpace(t[|t| - 1]))
    ensures S.TrimRight(t + b) == t
    decreases |b|
  {
    var s := t + b;
    if b == "" {
      assert s == t;
    } else {
      assert s[|s| - 1] == b[|b| - 1] && s[..|s| - 1] == t + b[..|b| - 1];
      TrimsTheRight(t, b[..|b| - 1]);
    }
  }

  lemma {:induction false} TrimsAllSpace(b: string)
    requires AllSpace(b)
    ensures S.TrimLeft(b) == ""
    decreases |b|
  {
    if b != "" {
      TrimsAllSpace(b[1..]);
    }
  }

  /** The trim takes the spaces at both ends and nothing else. */
  lemma TrimExactly(a: string, t: string, b: string)
    requires AllSpace(a) && AllSpace(b) && NoSpaceAtEnds(t)
    ensures S.TrimRight(S.TrimLeft(a + t + b)) == t
  {
    if t == "" {
      assert a + t + b == a + b;
      TrimsAllSpace(a + b);
    } else {
      assert a + t + b == a + (t + b);
      assert (t + b)[0] == t[0];
      TrimsTheLeft(a, t + b);
      TrimsTheRight(t, b);
    }
  }

  lemma SuffixExactly(s: string, suffix: string)
    ensures S.HasSuffix(s, suffix) <==> exists p :: s == p + suffix
  {
    if S.HasSuffix(s, suffix) {
      assert s == s[..|s| - |suffix|] + suffix;
    }
    if p :| s == p + suffix {
      assert s[|p|..] == suffix;
    }
  }

  // ----- DNS names

  predicate LetterOrDigit(c: char) {
    'a' <= c <= 'z' || 'A' <= c <= 'Z' || '0' <= c <= '9'
  }

  /** Position i holds a letter or a digit, or a dot or a hyphen between two of these that are not
      dots: so no label is empty and none starts or ends with a hyphen. */
  predicate GoodAt(s: string, i: nat)
    requires i < |s|
  {
    || LetterOrDigit(s[i])
    || ((s[i] == '.' || s[i] == '-') && 0 < i < |s| - 1 && s[i - 1] != '.' && s[i + 1] != '.')
  }

  predicate DotWithin(s: string, i: nat)
    requires i + 64 <= |s|
  {
    exists k :: i <= k < i + 64 && s[k] == '.'
  }

  /** A name of good labels, and no label has more than 63 characters. */
  predicate DottedLabels(s: string) {
    && s != ""
    && (forall i :: 0 <= i < |s| ==> GoodAt(s, i) && (s[i] == '-' ==> 0 < i < |s| - 1))
    && (forall i :: 0 <= i <= |s| - 64 ==> DotWithin(s, i))
  }

  lemma LabelAlone(s: string)
    requires S.DotIndex(s) == |s|
    ensures S.ValidLabel(s) <==> DottedLabels(s)
  {
    if S.ValidLabel(s) {
      forall i | 0 <= i < |s|
        ensures GoodAt(s, i) && (s[i] == '-' ==> 0 < i < |s| - 1)
      {
      }
    }
    if DottedLabels(s) {
      forall i | 0 <= i < |s|
        ensures LetterOrDigit(s[i]) || (s[i] == '-' && i != 0 && i != |s| - 1)
      {
        assert GoodAt(s, i);
      }
      assert |s| >= 64 ==> DotWithin(s, 0);
    }
  }

  lemma LabelThenRest(s: string, at: nat)
    requires at == S.DotIndex(s) < |s|
    ensures DottedLabels(s) ==> S.ValidLabel(s[..at]) && DottedLabels(s[at + 1..])
  {
    var label', rest := s[..at], s[at + 1..];
    if DottedLabels(s) {
      assert GoodAt(s, at);
      forall i | 0 <= i < at
        ensures LetterOrDigit(label'[i]) || (label'[i] == '-' && i != 0 && i != at - 1)
      {
        assert GoodAt(s, i);
      }
      assert |s| >= 64 ==> DotWithin(s, 0);
      forall i | 0 <= i < |rest|
        ensures GoodAt(rest, i) && (rest[i] == '-' ==> 0 < i < |rest| - 1)
      {
        assert GoodAt(s, at + 1 + i);
      }
      forall i | 0 <= i <= |rest| - 64
        ensures DotWithin(rest, i)
      {
        assert DotWithin(s, at + 1 + i);
        var k :| at + 1 + i <= k < at + 1 + i + 64 && s[k] == '.';
        assert rest[k - at - 1] == '.';
      }
    }
  }

  lemma RestThenLabel(s: string, at: nat)
    requires at == S.DotIndex(s) < |s|
    requires S.ValidLabel(s[..at]) && DottedLabels(s[at + 1..])
    ensures DottedLabels(s)
  {
    var label', rest := s[..at], s[at + 1..];
    assert GoodAt(rest, 0);
    forall i | 0 <= i < |s|
      ensures GoodAt(s, i) && (s[i] == '-' ==> 0 < i < |s| - 1)
    {
      if i < at {
        assert label'[i] == s[i];
      } else if i > at {
        assert GoodAt(rest, i - at - 1);
      } else {
        assert label'[at - 1] == s[at - 1] && rest[0] == s[at + 1];
      }
    }
    forall i | 0 <= i <= |s| - 64
      ensures DotWithin(s, i)
    {
      if i > at {
        assert DotWithin(rest, i - at - 1);
        var k :| i - at - 1 <= k < i - at - 1 + 64 && rest[k] == '.';
        assert s[at + 1 + k] == '.';
      } else {
        assert s[at] == '.';
      }
    }
  }

  /** The label test reads off the whole name at once. */
  lemma {:induction false} ValidLabelsExactly(s: string)
    ensures S.ValidLabels(s) <==> DottedLabels(s)
    decreases |s|
  {
    var at := S.DotIndex(s);
    if at == |s| {
      assert s[..at] == s;
      LabelAlone(s);
    } else {
      ValidLabelsExactly(s[at + 1..]);
      LabelThenRest(s, at);
      if S.ValidLabel(s[..at]) && DottedLabels(s[at + 1..]) {
        RestThenLabel(s, at);
      }
    }
  }

  /** What a reported domain becomes: without the spaces around it and one dot at its end, in lower
      case, when it is a DNS name of at most 253 characters. */
  lemma NormalizeExactly(a: string, t: string, b: string)
    requires AllSpace(a) && AllSpace(b) && NoSpaceAtEnds(t)
    ensures var d := S.Lower(if t != "" && t[|t| - 1] == '.' then t[..|t| - 1] else t);
      var name := if d != "" && d[|d| - 1] == '.' then d[..|d| - 1] else d;
      S.Normalize(a + t + b) == if |name| <= 253 && DottedLabels(name) then Some(d) else None
  {
    TrimExactly(a, t, b);
    NormalizeOf(a + t + b, t, S.Lower(S.TrimDot(t)));
  }

  lemma NormalizeOf(raw: string, t: string, d: string)
    requires S.TrimRight(S.TrimLeft(raw)) == t && d == S.Lower(S.TrimDot(t))
    ensures S.Normalize(raw) == if |S.TrimDot(d)| <= 253 && DottedLabels(S.TrimDot(d)) then Some(d) else None
  {
    ValidLabelsExactly(S.TrimDot(d));
  }

  /** A report is no claim when it names the base zone of MagicDNS or a name below it. */
  lemma ReportExactly(raw: string)
    ensures S.ReportOf(raw).None? <==>
      S.Normalize(raw).None? || S.Normalize(raw).value == "ts.net" || exists p :: S.Normalize(raw).value == p + ".ts.net"
    ensures S.ReportOf(raw).Some? ==> S.ReportOf(raw) == S.Normalize(raw)
  {
    if S.Normalize(raw).Some? {
      SuffixExactly(S.Normalize(raw).value, ".ts.net");
    }
  }

  lemma HoldingsExactly(c: S.Config, id: string)
    requires id in c.active
    ensures var held := S.ViewOf(c)[id];
      && (forall d :: held.suffix == Some(d) <==> c.active[id].suffix != "" && S.Normalize(c.active[id].suffix) == Some(d))
      && (forall d :: held.zone == Some(d) <==>
            c.resolveAliases && id in c.aliases && c.aliases[id] != "" && c.active[id].hostAddress != ""
            && d == S.Lower(c.aliases[id]) + ".ts.internal")
      && |held.reports| == |c.active[id].domains|
      && forall i :: 0 <= i < |held.reports| ==> held.reports[i] == S.ReportOf(c.active[id].domains[i])
  {
  }

  /** An active tailnet names the domain among its split domains. */
  predicate Reported(c: S.Config, id: string, d: string) {
    id in c.active && exists i :: 0 <= i < |c.active[id].domains| && S.ReportOf(c.active[id].domains[i]) == Some(d)
  }

  /** The domain is the MagicDNS suffix of an active tailnet, or the zone of its alias. */
  predicate HeldBy(c: S.Config, id: string, d: string) {
    && id in c.active
    && ((c.active[id].suffix != "" && S.Normalize(c.active[id].suffix) == Some(d))
        || (c.resolveAliases && id in c.aliases && c.aliases[id] != "" && c.active[id].hostAddress != "" && d == S.Lower(c.aliases[id]) + ".ts.internal"))
  }

  /** Which split domains a tailnet keeps, from the configuration and the status alone: the ones
      that it reports, that are no suffix and no alias zone of an active tailnet, and that no active
      tailnet with a lesser id reports. */
  lemma KeepsExactly(c: S.Config, id: string, d: string)
    requires id in c.active
    ensures d in O.Survivors(S.ViewOf(c), id) <==>
      Reported(c, id, d) && (forall other :: !HeldBy(c, other, d)) && forall other :: Reported(c, other, d) ==> other == id || Before(id, other)
  {
    var v := S.ViewOf(c);
    O.SurvivesExactly(v, id, d);
    forall other
      ensures O.Reports(v, other, d) <==> Reported(c, other, d)
      ensures other in v && (v[other].suffix == Some(d) || v[other].zone == Some(d)) <==> HeldBy(c, other, d)
    {
      if other in c.active {
        HoldingsExactly(c, other);
        ReportedExactly(c, other, d);
      }
    }
  }

  lemma ReportedExactly(c: S.Config, id: string, d: string)
    requires id in c.active
    ensures O.Reports(S.ViewOf(c), id, d) <==> Reported(c, id, d)
  {
    var reports, domains := S.ViewOf(c)[id].reports, c.active[id].domains;
    if O.Reports(S.ViewOf(c), id, d) {
      var i :| 0 <= i < |reports| && reports[i] == Some(d);
      assert S.ReportOf(domains[i]) == Some(d);
    }
    if Reported(c, id, d) {
      var i :| 0 <= i < |domains| && S.ReportOf(domains[i]) == Some(d);
      assert reports[i] == Some(d);
    }
  }

  /** What a tailnet is told about a domain that it reports and does not keep. */
  lemma ConflictText(c: O.View, r: O.Result, id: string, m: string)
    requires O.RightReport(c, r) && id in c
    ensures m in r.conflicts[id] <==>
      exists d :: O.Reports(c, id, d) && d !in O.Survivors(c, id) && d in r.owners
        && m == "the split DNS domain " + d + " of " + id + " is claimed by " + r.owners[d]
  {
    assert O.ConflictsOf(c, r.owners, r.conflicts[id], id);
    assert m in r.conflicts[id] <==> O.IsConflict(c, r.owners, m, id);
  }

  // ----- labels

  lemma LowerPlain(s: string)
    requires forall i :: 0 <= i < |s| ==> !('A' <= s[i] <= 'Z')
    ensures S.Lower(s) == s
  {
  }

  lemma PrefixedEnds(l: string, n: string)
    requires V.IsLabel(l) && n == "svc:" + l
    ensures S.TrimLeft(n) == n && S.TrimRight(n) == n
  {
    assert n[0] == 's' && (if l == "" then n[|n| - 1] == ':' else n[|n| - 1] == l[|l| - 1]);
    assert !S.IsSpace(n[0]) && !S.IsSpace(n[|n| - 1]);
  }

  lemma PrefixedStripped(l: string, n: string)
    requires V.IsLabel(l) && n == "svc:" + l
    ensures V.Stripped(n) == l
  {
    PrefixedEnds(l, n);
    forall i | 0 <= i < |n|
      ensures !('A' <= n[i] <= 'Z')
    {
      assert i >= 4 ==> n[i] == l[i - 4];
    }
    LowerPlain(n);
    assert n[..4] == "svc:" && n[4..] == l;
  }

  /** The prefix svc: does not show: a service that is named by a label has this label, and so has
      the service of that name with the prefix. */
  lemma PrefixedLabel(l: string)
    requires V.IsLabel(l)
    ensures V.Label("svc:" + l) == l && V.Label(l) == l
  {
    V.LabelIsPlainText(l);
    V.CollapsedIsFixed(l);
    PrefixedStripped(l, "svc:" + l);
  }

  predicate Joins(c: char) {
    !V.LabelChar(c) && !('A' <= c <= 'Z') && c != ':'
  }

  lemma JoinedIsPlain(x: string, c: char, y: string, n: string)
    requires V.IsLabel(x) && V.IsLabel(y) && x != "" && y != "" && Joins(c) && n == x + [c] + y
    ensures V.Stripped(n) == n
  {
    assert n[0] == x[0] && n[|n| - 1] == y[|y| - 1];
    assert !S.IsSpace(n[0]) && !S.IsSpace(n[|n| - 1]);
    assert S.TrimLeft(n) == n && S.TrimRight(n) == n;
    forall i | 0 <= i < |n|
      ensures n[i] != ':' && !('A' <= n[i] <= 'Z')
    {
      assert i < |x| ==> n[i] == x[i];
      assert i > |x| ==> n[i] == y[i - |x| - 1];
    }
    LowerPlain(n);
    assert "svc:"[3] == ':';
  }

  lemma JoinedIsMapped(x: string, c: char, y: string, n: string, l: string)
    requires V.IsLabel(x) && V.IsLabel(y) && Joins(c) && n == x + [c] + y && l == x + "-" + y
    ensures V.Mapped(n) == l
  {
    forall i | 0 <= i < |n|
      ensures V.Mapped(n)[i] == l[i]
    {
      assert i < |x| ==> n[i] == x[i] == l[i];
      assert i > |x| ==> n[i] == y[i - |x| - 1] == l[i];
    }
  }

  lemma JoinedHasNoTwo(x: string, y: string, l: string)
    requires V.IsLabel(x) && V.IsLabel(y) && x != "" && y != "" && l == x + "-" + y
    ensures V.NoTwo(l)
  {
    forall i: nat | i < |l|
      ensures !V.TwoAt(l, i)
    {
      if i + 1 < |x| {
        assert !V.TwoAt(x, i) && l[i] == x[i] && l[i + 1] == x[i + 1];
      } else if i + 1 == |x| {
        assert l[i] == x[|x| - 1];
      } else if i == |x| {
        assert i + 1 < |l| && l[i + 1] == y[0];
      } else if i + 1 < |l| {
        assert !V.TwoAt(y, i - |x| - 1) && l[i] == y[i - |x| - 1] && l[i + 1] == y[i - |x|];
      }
    }
  }

  /** A name of two labels with one other character between them: the character becomes a hyphen. */
  lemma JoinedLabel(x: string, c: char, y: string)
    requires V.IsLabel(x) && V.IsLabel(y) && x != "" && y != "" && |x| + |y| < 63 && Joins(c)
    ensures V.Label(x + [c] + y) == x + "-" + y
  {
    var n, l := x + [c] + y, x + "-" + y;
    JoinedIsPlain(x, c, y, n);
    JoinedIsMapped(x, c, y, n, l);
    JoinedHasNoTwo(x, y, l);
    assert l[0] == x[0] && l[|l| - 1] == y[|y| - 1];
    assert V.TrimHyphensLeft(l) == l && V.TrimHyphensRight(l) == l;
    V.CollapsedIsFixed(l);
  }

  // ----- the addresses of a record

  /** The first entry of the family is the first address of it. */
  lemma {:induction false} FirstAddressAt(addrs: seq<string>, family: Q.Family, parse: Q.ParseIP, i: nat)
    requires i < |addrs| && parse(addrs[i]) == family && forall k :: 0 <= k < i ==> parse(addrs[k]) != family
    ensures Q.OfFamily(addrs, family, parse) != [] && Q.OfFamily(addrs, family, parse)[0] == addrs[i]
    ensures H.FirstOf(addrs, family, parse) == Some(addrs[i])
  {
    var front := addrs[..|addrs| - 1];
    if i < |front| {
      FirstAddressAt(front, family, parse, i);
    } else {
      Q.FamilyExactly(front, family, parse);
      assert Q.OfFamily(front, family, parse) == [];
    }
  }

  /** The addresses of a family are the entries of it. */
  lemma {:induction false} AddressesExactly(addrs: seq<string>, family: Q.Family, parse: Q.ParseIP)
    ensures forall a :: a in Q.OfFamily(addrs, family, parse) <==> a in addrs && parse(a) == family
  {
    if addrs != [] {
      AddressesExactly(addrs[..|addrs| - 1], family, parse);
      assert addrs == addrs[..|addrs| - 1] + [addrs[|addrs| - 1]];
    }
  }

  /** A peer has the last of its addresses in each family. */
  lemma {:induction false} LastAddressAt(ips: seq<string>, family: Q.Family, parse: Q.ParseIP, i: nat)
    requires i < |ips| && parse(ips[i]) == family && forall k :: i < k < |ips| ==> parse(ips[k]) != family
    ensures H.LastOf(ips, family, parse) == Some(ips[i])
    decreases |ips|
  {
    if i < |ips| - 1 {
      LastAddressAt(ips[..|ips| - 1], family, parse, i);
    }
  }

  lemma {:induction false} NoAddressOf(ips: seq<string>, family: Q.Family, parse: Q.ParseIP)
    requires forall k :: 0 <= k < |ips| ==> parse(ips[k]) != family
    ensures H.LastOf(ips, family, parse) == None
  {
    if ips != [] {
      NoAddressOf(ips[..|ips| - 1], family, parse);
    }
  }

  /** The host name of a peer is its name in lower case, word by word with a hyphen between them. */
  lemma HostNameExactly(x: string, y: string)
    requires ' ' !in x
    ensures H.HostName(x) == S.Lower(x) && H.HostName(x + " " + y) == S.Lower(x) + "-" + H.HostName(y)
  {
    var n, l := H.HostName(x + " " + y), S.Lower(x) + "-" + H.HostName(y);
    forall i | 0 <= i < |x|
      ensures x[i] != ' ' && H.HostName(x)[i] == S.Lower(x)[i]
    {
      assert x[i] in x;
    }
    assert H.HostName(x) == S.Lower(x);
    forall i | 0 <= i < |n|
      ensures n[i] == l[i]
    {
      assert i < |x| ==> (x + " " + y)[i] == x[i];
      assert i > |x| ==> (x + " " + y)[i] == y[i - |x| - 1];
    }
    assert n == l;
  }

  /** The node has an address of the family, and its record has this name. */
  predicate HasRecord(id: string, n: H.Node, name: string, family: Q.Family, parse: Q.ParseIP) {
    id + "-" + H.HostName(n.host) == name && exists k :: 0 <= k < |n.ips| && parse(n.ips[k]) == family
  }

  /** The peer records of a tailnet: the last node that has a record of the name gives it its last
      address of the family. */
  lemma {:induction false} PeerRecordAt(id: string, ns: seq<H.Node>, name: string, six: bool, parse: Q.ParseIP, i: nat, k: nat)
    requires i < |ns| && id + "-" + H.HostName(ns[i].host) == name
    requires forall j :: i < j < |ns| ==> !HasRecord(id, ns[j], name, H.FamilyOf(six), parse)
    requires k < |ns[i].ips| && parse(ns[i].ips[k]) == H.FamilyOf(six)
    requires forall j :: k < j < |ns[i].ips| ==> parse(ns[i].ips[j]) != H.FamilyOf(six)
    ensures Q.Find(H.PeerRecords(id, H.PeersOf(ns, parse), six), name) == Some(ns[i].ips[k])
  {
    H.PeerRecordsExactly(id, ns, name, six, parse);
    LastAddressAt(ns[i].ips, H.FamilyOf(six), parse, k);
    LastClaimAt(id, ns, name, six, parse, i);
  }

  lemma {:induction false} LastClaimAt(id: string, ns: seq<H.Node>, name: string, six: bool, parse: Q.ParseIP, i: nat)
    requires i < |ns| && H.Claim(id, ns[i], name, six, parse).Some?
    requires forall j :: i < j < |ns| ==> !HasRecord(id, ns[j], name, H.FamilyOf(six), parse)
    ensures H.LastClaim(id, ns, name, six, parse) == H.Claim(id, ns[i], name, six, parse)
    decreases |ns|
  {
    if i < |ns| - 1 {
      var last := ns[|ns| - 1];
      assert !HasRecord(id, last, name, H.FamilyOf(six), parse);
      if id + "-" + H.HostName(last.host) == name {
        NoAddressOf(last.ips, H.FamilyOf(six), parse);
      }
      LastClaimAt(id, ns[..|ns| - 1], name, six, parse, i);
    }
  }

  function AddressesOf(s: Q.Service, six: bool): seq<string> {
    if six then s.v6 else s.v4
  }

  /** In an alias zone a name answers with the first address of the first service that holds the name
      and has an address of the family. */
  lemma {:induction false} AliasAddressAt(ss: seq<Q.Service>, name: string, six: bool, i: nat)
    requires i < |ss| && ss[i].name == name && AddressesOf(ss[i], six) != []
    requires forall k :: 0 <= k < i ==> ss[k].name != name || AddressesOf(ss[k], six) == []
    ensures Q.FirstAddress(ss, name, six) == Some(AddressesOf(ss[i], six)[0])
  {
    if i > 0 {
      AliasAddressAt(ss[1..], name, six, i - 1);
    }
  }

  lemma {:induction false} MergeHolds(list: seq<string>, extra: seq<string>, a: string)
    ensures a in H.MergeUnique(list, extra) <==> a in list || a in extra
  {
    if extra != [] {
      var front, last := extra[..|extra| - 1], extra[|extra| - 1];
      MergeHolds(list, front, a);
      MergeHolds(list, front, last);
      assert extra == front + [last];
    }
  }

  /** A merge keeps the first list and puts each new value behind it once, in the order of the
      second list. */
  lemma MergeExactly(list: seq<string>, extra: seq<string>, a: string)
    ensures H.MergeUnique(list, []) == list
    ensures H.MergeUnique(list, extra + [a]) ==
      if a in list || a in extra then H.MergeUnique(list, extra) else H.MergeUnique(list, extra) + [a]
  {
    assert (extra + [a])[..|extra|] == extra;
    MergeHolds(list, extra, a);
  }

  /** A merged service answers with the first address of its first report that has one. */
  lemma {:induction false} ReportAt(rs: seq<Q.Endpoint>, name: string, family: Q.Family, parse: Q.ParseIP, i: nat, k: nat)
    requires i < |rs| && rs[i].name == name && k < |rs[i].addrs| && parse(rs[i].addrs[k]) == family
    requires forall j :: 0 <= j < k ==> parse(rs[i].addrs[j]) != family
    requires forall j, a :: 0 <= j < i && rs[j].name == name && a in rs[j].addrs ==> parse(a) != family
    ensures H.FirstReport(rs, name, family, parse) == Some(rs[i].addrs[k])
    ensures H.FirstOf(H.MergedAddrs(rs, name), family, parse) == Some(rs[i].addrs[k])
  {
    H.MergedAnswersFirst(rs, name, family, parse);
    if i == 0 {
      FirstAddressAt(rs[0].addrs, family, parse, k);
    } else {
      Q.FamilyExactly(rs[0].addrs, family, parse);
      assert rs[0].name == name ==> forall j :: 0 <= j < |rs[0].addrs| ==> rs[0].addrs[j] in rs[0].addrs;
      ReportAt(rs[1..], name, family, parse, i - 1, k);
    }
  }

  // ----- the one table

  lemma {:induction false} LastPeerAt(rs: seq<T.Records>, name: string, i: nat)
    requires i < |rs| && name in rs[i].peers && forall j :: i < j < |rs| ==> name !in rs[j].peers
    ensures T.LastPeer(rs, name) == Some(rs[i].peers[name])
    decreases |rs|
  {
    if i < |rs| - 1 {
      LastPeerAt(rs[..|rs| - 1], name, i);
    }
  }

  lemma {:induction false} FirstServiceAt(rs: seq<T.Records>, name: string, i: nat)
    requires i < |rs| && name in rs[i].services && forall j :: 0 <= j < i ==> name !in rs[j].services
    ensures T.FirstService(rs, name) == Some(rs[i].services[name])
    decreases |rs|
  {
    if i < |rs| - 1 {
      FirstServiceAt(rs[..|rs| - 1], name, i);
    } else {
      T.FirstServiceIsAService(rs[..i], name);
    }
  }

  /** The tailnets in the order of the loop: the last one with a peer of the name decides, and where
      no tailnet has a peer of the name, the first one with a service of it. */
  lemma TableAt(rs: seq<T.Records>, name: string, i: nat)
    requires i < |rs|
    ensures name in rs[i].peers && (forall j :: i < j < |rs| ==> name !in rs[j].peers) ==>
      Q.Find(T.MergeAll(rs), name) == Some(rs[i].peers[name])
    ensures (forall r :: r in rs ==> name !in r.peers) && name in rs[i].services && (forall j :: 0 <= j < i ==> name !in rs[j].services) ==>
      Q.Find(T.MergeAll(rs), name) == Some(rs[i].services[name])
  {
    T.ValueOfName(rs, name);
    T.LastPeerIsAPeer(rs, name);
    if name in rs[i].peers && forall j :: i < j < |rs| ==> name !in rs[j].peers {
      LastPeerAt(rs, name, i);
    }
    if name in rs[i].services && forall j :: 0 <= j < i ==> name !in rs[j].services {
      FirstServiceAt(rs, name, i);
    }
  }

  // ----- the patterns of the configuration

  /** One to 63 characters, the first one a letter or a digit. */
  predicate Starts(s: string) {
    1 <= |s| <= 63 && LetterOrDigit(s[0])
  }

  /** An id holds letters, digits, dots, underscores and hyphens, an alias holds no dot, and a label
      no underscore either; a label ends in a letter or a digit. */
  lemma PatternsExactly(s: string)
    ensures N.IdPattern(s) <==> (Starts(s) && forall i :: 0 <= i < |s| ==> LetterOrDigit(s[i]) || s[i] == '.' || s[i] == '_' || s[i] == '-')
    ensures N.AliasPattern(s) <==> (Starts(s) && forall i :: 0 <= i < |s| ==> LetterOrDigit(s[i]) || s[i] == '_' || s[i] == '-')
    ensures N.LabelPattern(s) <==>
      (Starts(s) && LetterOrDigit(s[|s| - 1]) && forall i :: 0 <= i < |s| ==> LetterOrDigit(s[i]) || s[i] == '-')
  {
    assert "._-"[0] == '.' && "._-"[1] == '_' && "._-"[2] == '-' && "_-"[0] == '_' && "_-"[1] == '-' && "-"[0] == '-';
  }
}
