/** The host routes of a tailnet (internal/hostaccess/routes.go). The checks on the text of a
    destination and the answer of a route probe come from the kernel and from a library, so
    they are functions that the model takes as they are. */
module HostRoutes {
  import opened Text
  import opened Schedule
  import N = Netfilter

  const MAGIC_DNS := "100.100.100.100"

  datatype Route = Route(dev: string, via: string, kernel: bool)

  type Table = map<string, Route>

  /** valid: net.ParseIP or net.ParseCIDR reads the destination. infra: it lies in the infra
      subnet. */
  datatype Texts = Texts(valid: string -> bool, infra: string -> bool)

  // ----- lists of destinations

  /** The first occurrence of each destination. */
  function Once(ds: seq<string>): seq<string> {
    if ds == [] then []
    else
      var front, last := Once(ds[..|ds| - 1]), ds[|ds| - 1];
      if last in front then front else front + [last]
  }

  lemma {:induction false} OnceHoldsEach(ds: seq<string>)
    ensures forall d :: d in Once(ds) <==> d in ds
    ensures forall i, j :: 0 <= i < j < |Once(ds)| ==> Once(ds)[i] != Once(ds)[j]
  {
    if ds != [] {
      OnceHoldsEach(ds[..|ds| - 1]);
      assert ds == ds[..|ds| - 1] + [ds[|ds| - 1]];
    }
  }

  /** mergeRoutes. */
  method MergeRoutes(a: seq<string>, b: seq<string>) returns (result: seq<string>)
    ensures result == Once(a + b)
  {
    result := [];
    var seen := {};
    for i := 0 to |a|
      invariant result == Once(a[..i]) && forall d :: d in seen <==> d in result
    {
      assert a[..i + 1][..i] == a[..i];
      if a[i] !in seen {
        seen, result := seen + {a[i]}, result + [a[i]];
      }
    }
    assert a[..|a|] == a && a + b[..0] == a;
    for i := 0 to |b|
      invariant result == Once(a + b[..i]) && forall d :: d in seen <==> d in result
    {
      var more := a + b[..i + 1];
      assert more[..|more| - 1] == a + b[..i] && more[|more| - 1] == b[i];
      if b[i] !in seen {
        seen, result := seen + {b[i]}, result + [b[i]];
      }
    }
    assert b[..|b|] == b;
  }

  /** The members of ds that are not in other, in order. */
  function Missing(ds: seq<string>, other: seq<string>): seq<string> {
    if ds == [] then []
    else
      var last := ds[|ds| - 1];
      Missing(ds[..|ds| - 1], other) + if last in other then [] else [last]
  }

  lemma {:induction false} MissingExactly(ds: seq<string>, other: seq<string>)
    ensures forall d :: d in Missing(ds, other) <==> d in ds && d !in other
  {
    if ds != [] {
      MissingExactly(ds[..|ds| - 1], other);
      assert ds == ds[..|ds| - 1] + [ds[|ds| - 1]];
    }
  }

  lemma {:induction false} MissingOnce(ds: seq<string>, other: seq<string>)
    requires forall i, j :: 0 <= i < j < |ds| ==> ds[i] != ds[j]
    ensures forall i, j :: 0 <= i < j < |Missing(ds, other)| ==> Missing(ds, other)[i] != Missing(ds, other)[j]
  {
    if ds != [] {
      MissingOnce(ds[..|ds| - 1], other);
      MissingExactly(ds[..|ds| - 1], other);
    }
  }

  lemma EmptyExactly(ds: seq<string>)
    ensures ds == [] <==> forall d :: d !in ds
  {
    assert ds != [] ==> ds[0] in ds;
  }

  /** diffRoutes. */
  method DiffRoutes(desired: seq<string>, actual: seq<string>) returns (toAdd: seq<string>, toRemove: seq<string>)
    ensures toAdd == Missing(desired, actual) && toRemove == Missing(actual, desired)
  {
    var desiredSet, actualSet := Elements(desired), Elements(actual);
    toAdd, toRemove := [], [];
    for i := 0 to |desired|
      invariant toAdd == Missing(desired[..i], actual)
    {
      assert desired[..i + 1][..i] == desired[..i];
      if desired[i] !in actualSet {
        toAdd := toAdd + [desired[i]];
      }
    }
    assert desired[..|desired|] == desired;
    for i := 0 to |actual|
      invariant toRemove == Missing(actual[..i], desired)
    {
      assert actual[..i + 1][..i] == actual[..i];
      if actual[i] !in desiredSet {
        toRemove := toRemove + [actual[i]];
      }
    }
    assert actual[..|actual|] == actual;
  }

  // ----- the filter

  /** The answer of ip route get: an error, or the device, the gateway and the table. */
  datatype Answer = NoRoute | Answer(dev: string, hasVia: bool, table: string)

  /** skipReasonForRoute gives no reason. */
  predicate Writable(a: Answer) {
    a.NoRoute? || N.IsNamespaceDevice(a.dev) || ((a.table == "" || a.table == "main") && a.hasVia)
  }

  function Filtered(ds: seq<string>, texts: Texts, probe: string -> Answer): seq<string> {
    if ds == [] then []
    else
      var last := ds[|ds| - 1];
      Filtered(ds[..|ds| - 1], texts, probe) + if texts.valid(last) && Writable(probe(last)) then [last] else []
  }

  lemma {:induction false} FilteredExactly(ds: seq<string>, texts: Texts, probe: string -> Answer)
    ensures forall d :: d in Filtered(ds, texts, probe) <==> d in ds && texts.valid(d) && Writable(probe(d))
  {
    if ds != [] {
      FilteredExactly(ds[..|ds| - 1], texts, probe);
      assert ds == ds[..|ds| - 1] + [ds[|ds| - 1]];
    }
  }

  /** filterWritableRoutes. */
  method FilterWritable(candidates: seq<string>, texts: Texts, probe: string -> Answer) returns (out: seq<string>)
    ensures out == Filtered(candidates, texts, probe)
  {
    out := [];
    for i := 0 to |candidates|
      invariant out == Filtered(candidates[..i], texts, probe)
    {
      assert candidates[..i + 1][..i] == candidates[..i];
      var dest := candidates[i];
      if !texts.valid(dest) {
        continue;
      }
      var a := probe(dest);
      if a.Answer? && !N.IsNamespaceDevice(a.dev) {
        if a.table != "" && a.table != "main" {
          continue;
        }
        if !a.hasVia {
          continue;
        }
      }
      out := out + [dest];
    }
    assert candidates[..|candidates|] == candidates;
  }

  // ----- one table

  /** The destinations that the parser of the route list leaves out. */
  predicate Hidden(d: string, v6: bool, texts: Texts) {
    || d == "default" || !texts.valid(d)
    || (if v6 then d == "::/0" else d == MAGIC_DNS || texts.infra(d))
  }

  /** parseHostRoutes and parseHostRoutesV6: a line of the route list that counts as a route
      of the device, where an empty device name matches every line. */
  predicate Shown(d: string, r: Route, dev: string, v6: bool, texts: Texts) {
    !Hidden(d, v6, texts) && (dev == "" || r.dev == dev) && !(v6 && r.kernel)
  }

  function At(t: Table, d: string): Option<Route> {
    if d in t then Some(t[d]) else None
  }

  /** One destination after a sync that fails nowhere: a wanted one has a route, a route of the
      device that is not wanted is gone, and every other route stays. */
  function Synced(now: Option<Route>, d: string, wanted: bool, dev: string, via: string, v6: bool, texts: Texts): Option<Route> {
    var mine := now.Some? && Shown(d, now.value, dev, v6, texts);
    if wanted then if mine then now else Some(Route(dev, via, false))
    else if mine then None
    else now
  }

  // ----- what one sync and a second sync do to a table

  /** A table after a sync with the given filtered destinations. */
  ghost predicate SyncedTable(before: Table, after: Table, want: seq<string>, dev: string, via: string, v6: bool, texts: Texts) {
    forall d :: At(after, d) == Synced(At(before, d), d, d in want, dev, via, v6, texts)
  }

  /** A table after a sync in which some commands failed: each destination keeps its route or
      has the one that the sync gives it. */
  ghost predicate PartlySynced(before: Table, after: Table, want: seq<string>, dev: string, via: string, v6: bool, texts: Texts) {
    forall d :: At(after, d) == At(before, d) || At(after, d) == Synced(At(before, d), d, d in want, dev, via, v6, texts)
  }

  /** The destinations that the route list shows for the device. */
  ghost predicate ShowsExactly(t: Table, actual: seq<string>, dev: string, v6: bool, texts: Texts) {
    forall d :: d in actual <==> d in t && Shown(d, t[d], dev, v6, texts)
  }

  /** A destination that a sync of the device leaves alone unless it is wanted: the table holds
      no route to it or the route of another device, or the route list never offers it. In IPv4
      that is the MagicDNS address and the infra subnet, which holds the link of the namespace
      itself; in IPv6 it is a route that the kernel made. */
  predicate LeftAlone(t: Table, d: string, dev: string, v6: bool, texts: Texts) {
    || d !in t || (dev != "" && t[d].dev != dev)
    || d == "default" || !texts.valid(d)
    || (!v6 && (d == "100.100.100.100" || texts.infra(d)))
    || (v6 && (d == "::/0" || t[d].kernel))
  }

  /** No other destination changes, whatever fails. */
  ghost predicate KeepsTheRest(before: Table, after: Table, want: seq<string>, dev: string, v6: bool, texts: Texts) {
    forall d :: d !in want && LeftAlone(before, d, dev, v6, texts) ==> At(after, d) == At(before, d)
  }

  /** Each wanted destination has a route of the device, a new one where the list offered none,
      and each other one that the list offers is gone. */
  ghost predicate Reaches(before: Table, after: Table, want: seq<string>, dev: string, via: string, v6: bool, texts: Texts) {
    && (forall d :: d in want && LeftAlone(before, d, dev, v6, texts) ==> At(after, d) == Some(Route(dev, via, false)))
    && (forall d :: d in want && !LeftAlone(before, d, dev, v6, texts) ==> At(after, d) == At(before, d))
    && (forall d :: d !in want && !LeftAlone(before, d, dev, v6, texts) ==> d !in after)
  }

  lemma SyncInPlainTerms(before: Table, after: Table, want: seq<string>, dev: string, via: string, v6: bool, texts: Texts)
    ensures PartlySynced(before, after, want, dev, via, v6, texts) ==> KeepsTheRest(before, after, want, dev, v6, texts)
    ensures SyncedTable(before, after, want, dev, via, v6, texts) ==> Reaches(before, after, want, dev, via, v6, texts)
  {
    forall d
      ensures d !in want && LeftAlone(before, d, dev, v6, texts) ==> Synced(At(before, d), d, d in want, dev, via, v6, texts) == At(before, d)
      ensures d in want && LeftAlone(before, d, dev, v6, texts) ==> Synced(At(before, d), d, d in want, dev, via, v6, texts) == Some(Route(dev, via, false))
      ensures d in want && !LeftAlone(before, d, dev, v6, texts) ==> Synced(At(before, d), d, d in want, dev, via, v6, texts) == At(before, d)
      ensures d !in want && !LeftAlone(before, d, dev, v6, texts) ==> Synced(At(before, d), d, d in want, dev, via, v6, texts) == None
    {
    }
  }

  /** After a sync the device holds a route to every wanted destination, no route that the list
      shows for it is unwanted, and no other route changed. */
  lemma SyncReachesTheWantedSet(before: Table, after: Table, want: seq<string>, dev: string, via: string, v6: bool, texts: Texts, d: string)
    requires SyncedTable(before, after, want, dev, via, v6, texts) && dev != ""
    ensures d in want ==> d in after && after[d].dev == dev
    ensures d in after && Shown(d, after[d], dev, v6, texts) ==> d in want
    ensures d !in want && (d !in before || before[d].dev != dev || Hidden(d, v6, texts)) ==> At(after, d) == At(before, d)
  {
    assert At(after, d) == Synced(At(before, d), d, d in want, dev, via, v6, texts);
  }

  /** A second sync has nothing to remove, and it has nothing to add exactly when the route list
      shows every wanted destination. A hidden destination is written again in every cycle.
      The keys of a table are texts: the kernel is taken to print a destination as the daemon
      wrote it, which it does for the canonical form. It prints 10.0.0.1 for 10.0.0.1/32. */
  lemma SecondSyncIsIdleExactly(before: Table, after: Table, want: seq<string>, actual: seq<string>, dev: string, via: string, v6: bool, texts: Texts)
    requires SyncedTable(before, after, want, dev, via, v6, texts)
    requires ShowsExactly(after, actual, dev, v6, texts)
    ensures Missing(actual, want) == []
    ensures Missing(want, actual) == [] <==> forall d :: d in want ==> !Hidden(d, v6, texts)
  {
    MissingExactly(actual, want);
    MissingExactly(want, actual);
    forall d
      ensures At(after, d) == Synced(At(before, d), d, d in want, dev, via, v6, texts)
      ensures d in actual <==> d in want && !Hidden(d, v6, texts)
    {
    }
    EmptyExactly(Missing(actual, want));
    EmptyExactly(Missing(want, actual));
  }

  /** Two tailnets reach one table in either order exactly when they have no common wanted
      destination. A common one ends at the device of the tailnet that synced last. */
  lemma TailnetsCommuteExactly(start: Table, a: Table, ab: Table, b: Table, ba: Table, wantA: seq<string>, wantB: seq<string>,
                               devA: string, viaA: string, devB: string, viaB: string, v6: bool, texts: Texts)
    requires devA != "" && devB != "" && devA != devB
    requires SyncedTable(start, a, wantA, devA, viaA, v6, texts) && SyncedTable(a, ab, wantB, devB, viaB, v6, texts)
    requires SyncedTable(start, b, wantB, devB, viaB, v6, texts) && SyncedTable(b, ba, wantA, devA, viaA, v6, texts)
    ensures ab == ba <==> forall d :: !(d in wantA && d in wantB)
    ensures forall d :: d in wantA ==> d in ab && ab[d].dev == (if d in wantB then devB else devA)
    ensures forall d :: d in wantB ==> d in ba && ba[d].dev == (if d in wantA then devA else devB)
  {
    forall d
      ensures !(d in wantA && d in wantB) ==> At(ab, d) == At(ba, d)
      ensures d in wantA ==> At(ab, d).Some? && At(ab, d).value.dev == if d in wantB then devB else devA
      ensures d in wantB ==> At(ba, d).Some? && At(ba, d).value.dev == if d in wantA then devA else devB
    {
      assert At(ab, d) == Synced(Synced(At(start, d), d, d in wantA, devA, viaA, v6, texts), d, d in wantB, devB, viaB, v6, texts);
      assert At(ba, d) == Synced(Synced(At(start, d), d, d in wantB, devB, viaB, v6, texts), d, d in wantA, devA, viaA, v6, texts);
      OneDestination(At(start, d), d, d in wantA, d in wantB, devA, viaA, devB, viaB, v6, texts);
    }
    if d :| d in wantA && d in wantB {
      assert At(ab, d) != At(ba, d);
    } else {
      SameTable(ab, ba);
    }
  }

  lemma OneDestination(now: Option<Route>, d: string, inA: bool, inB: bool, devA: string, viaA: string, devB: string, viaB: string, v6: bool, texts: Texts)
    requires devA != "" && devB != "" && devA != devB
    ensures var ab := Synced(Synced(now, d, inA, devA, viaA, v6, texts), d, inB, devB, viaB, v6, texts);
      var ba := Synced(Synced(now, d, inB, devB, viaB, v6, texts), d, inA, devA, viaA, v6, texts);
      && (!(inA && inB) ==> ab == ba)
      && (inA ==> ab.Some? && ab.value.dev == if inB then devB else devA)
      && (inB ==> ba.Some? && ba.value.dev == if inA then devA else devB)
  {
  }

  lemma SameTable(a: Table, b: Table)
    requires forall d :: At(a, d) == At(b, d)
    ensures a == b
  {
    assert forall d :: d in a <==> At(a, d).Some?;
    assert forall d :: d in b <==> At(b, d).Some?;
    assert forall d :: d in a ==> At(a, d) == At(b, d);
  }

  // ----- the commands

  /** The addresses of one tailnet: wantedV4 and wantedV6 hold its peers and its services, and
      tableV4 and tableV6 hold the accepted routes of table 52, where None is a failed read. */
  datatype Peers = Peers(vethHost: string, vethGateway: string, peersV4: seq<string>, peersV6: seq<string>,
                         servicesV4: seq<string>, servicesV6: seq<string>,
                         tableV4: Option<seq<string>>, tableV6: Option<seq<string>>)

  function OrNone(routes: Option<seq<string>>): seq<string> {
    match routes case Some(ds) => ds case None => []
  }

  /** What SyncHostRoutes wants in one family, before the filter. */
  function Wanted(peers: Peers, v6: bool): seq<string> {
    if v6 then Once(Once(peers.peersV6 + peers.servicesV6) + OrNone(peers.tableV6))
    else Once(Once(peers.peersV4 + peers.servicesV4) + OrNone(peers.tableV4))
  }

  predicate Distinct(ds: seq<string>) {
    forall i, j :: 0 <= i < j < |ds| ==> ds[i] != ds[j]
  }

  /** One command for each destination of ds, in order: a destination whose command succeeds
      holds r, and every other destination is as it was. */
  ghost predicate Stepped(before: Table, after: Table, ds: seq<string>, r: Option<Route>, faults: seq<bool>) {
    && (forall i :: 0 <= i < |ds| ==> At(after, ds[i]) == if FaultAt(faults, i) then At(before, ds[i]) else r)
    && (forall d :: d !in ds ==> At(after, d) == At(before, d))
  }

  lemma SteppedNext(before: Table, t: Table, after: Table, ds: seq<string>, i: nat, r: Option<Route>, faults: seq<bool>)
    requires i < |ds| && Distinct(ds) && Stepped(before, t, ds[..i], r, faults)
    requires forall d :: At(after, d) == if d == ds[i] && !FaultAt(faults, i) then r else At(t, d)
    ensures Stepped(before, after, ds[..i + 1], r, faults)
  {
    var few, more := ds[..i], ds[..i + 1];
    assert ds[i] !in few;
    forall k | 0 <= k < i + 1
      ensures At(after, more[k]) == if FaultAt(faults, k) then At(before, more[k]) else r
    {
      assert more[k] == ds[k] && (k < i ==> few[k] == ds[k]);
    }
    assert more == few + [ds[i]];
  }

  /** One family after both loops of a sync: destination k of the command list ds has the route
      that the sync gives it unless command k fails, every other one is as it was, and the sync
      changes no other one. */
  ghost predicate Changed(before: Table, after: Table, ds: seq<string>, want: seq<string>, dev: string, via: string, v6: bool, texts: Texts, faults: seq<bool>) {
    && (forall k :: 0 <= k < |ds| ==>
          At(after, ds[k]) == if FaultAt(faults, k) then At(before, ds[k]) else Synced(At(before, ds[k]), ds[k], ds[k] in want, dev, via, v6, texts))
    && (forall d :: d !in ds ==> At(after, d) == At(before, d) == Synced(At(before, d), d, d in want, dev, via, v6, texts))
  }

  lemma DiffApart(t: Table, want: seq<string>, actual: seq<string>, dev: string, v6: bool, texts: Texts)
    requires ShowsExactly(t, actual, dev, v6, texts) && Distinct(want) && Distinct(actual)
    ensures Distinct(Missing(want, actual)) && Distinct(Missing(actual, want))
    ensures forall d :: d in Missing(actual, want) ==> d !in Missing(want, actual) && d in t
  {
    MissingExactly(want, actual);
    MissingExactly(actual, want);
    MissingOnce(want, actual);
    MissingOnce(actual, want);
  }

  lemma KeptByAdd(before: Table, after: Table, added: seq<string>, removed: seq<string>, r: Option<Route>, faults: seq<bool>)
    requires Stepped(before, after, added, r, faults)
    requires forall d :: d in removed ==> d !in added && d in before
    ensures forall d :: d in removed ==> d in after
  {
    forall d | d in removed
      ensures d in after
    {
      assert At(after, d) == At(before, d);
    }
  }

  lemma BothLoops(t0: Table, t1: Table, t2: Table, want: seq<string>, actual: seq<string>, dev: string, via: string, v6: bool, texts: Texts, faults: seq<bool>)
    requires ShowsExactly(t0, actual, dev, v6, texts)
    requires Stepped(t0, t1, Missing(want, actual), Some(Route(dev, via, false)), faults)
    requires Stepped(t1, t2, Missing(actual, want), None, Rest(faults, |Missing(want, actual)|))
    ensures Changed(t0, t2, Missing(want, actual) + Missing(actual, want), want, dev, via, v6, texts, faults)
  {
    var add, del := Missing(want, actual), Missing(actual, want);
    var ds := add + del;
    MissingExactly(want, actual);
    MissingExactly(actual, want);
    forall k | 0 <= k < |ds|
      ensures At(t2, ds[k]) == if FaultAt(faults, k) then At(t0, ds[k]) else Synced(At(t0, ds[k]), ds[k], ds[k] in want, dev, via, v6, texts)
    {
      var d := ds[k];
      if k < |add| {
        assert d == add[k] && d in add && d !in del;
      } else {
        assert d == del[k - |add|] && d in del && d !in add;
        assert At(t1, d) == At(t0, d);
      }
    }
    forall d | d !in ds
      ensures At(t2, d) == At(t0, d) == Synced(At(t0, d), d, d in want, dev, via, v6, texts)
    {
      assert d !in add && d !in del;
      assert d in want <==> d in actual;
    }
  }

  /** So each destination keeps its route or has the one that the sync gives it, and without a
      failed command the table is synced. */
  lemma ChangedIsPartlySynced(before: Table, after: Table, ds: seq<string>, want: seq<string>, dev: string, via: string, v6: bool, texts: Texts, faults: seq<bool>)
    requires Changed(before, after, ds, want, dev, via, v6, texts, faults)
    ensures PartlySynced(before, after, want, dev, via, v6, texts)
    ensures NoFaults(faults, |ds|) ==> SyncedTable(before, after, want, dev, via, v6, texts)
  {
    forall d
      ensures At(after, d) == At(before, d) || At(after, d) == Synced(At(before, d), d, d in want, dev, via, v6, texts)
      ensures NoFaults(faults, |ds|) ==> At(after, d) == Synced(At(before, d), d, d in want, dev, via, v6, texts)
    {
      if d in ds {
        var k :| 0 <= k < |ds| && ds[k] == d;
      }
    }
  }

  /** One family of a removal: with a failed read nothing changes, and otherwise one command
      runs for each shown destination. */
  ghost predicate RemovedUnder(before: Table, after: Table, shown: seq<string>, dev: string, v6: bool, texts: Texts, faults: seq<bool>) {
    if FaultAt(faults, 0) then after == before
    else ShowsExactly(before, shown, dev, v6, texts) && Distinct(shown) && Stepped(before, after, shown, None, Rest(faults, 1))
  }

  function RemovalCost(shown: seq<string>, faults: seq<bool>): nat {
    if FaultAt(faults, 0) then 1 else 1 + |shown|
  }

  lemma RemovedIsSynced(before: Table, after: Table, shown: seq<string>, dev: string, v6: bool, texts: Texts, faults: seq<bool>)
    requires RemovedUnder(before, after, shown, dev, v6, texts, faults)
    ensures PartlySynced(before, after, [], dev, "", v6, texts)
    ensures NoFaults(faults, 1 + |shown|) ==> SyncedTable(before, after, [], dev, "", v6, texts)
  {
    forall d
      ensures At(after, d) == At(before, d) || At(after, d) == Synced(At(before, d), d, d in [], dev, "", v6, texts)
      ensures NoFaults(faults, 1 + |shown|) ==> At(after, d) == Synced(At(before, d), d, d in [], dev, "", v6, texts)
    {
      if !FaultAt(faults, 0) && d in shown {
        var k :| 0 <= k < |shown| && shown[k] == d;
        assert FaultAt(Rest(faults, 1), k) <==> FaultAt(faults, 1 + k);
      }
    }
  }

  lemma {:induction false} FilteredOnce(ds: seq<string>, texts: Texts, probe: string -> Answer)
    requires Distinct(ds)
    ensures Distinct(Filtered(ds, texts, probe))
  {
    if ds != [] {
      FilteredOnce(ds[..|ds| - 1], texts, probe);
      FilteredExactly(ds[..|ds| - 1], texts, probe);
    }
  }

  /** A route of the host that a route of the daemon would take the traffic of, or that answers
      before it: one of another table, or a directly connected network of the main table. A
      route on a device of the daemon is not in the way. */
  predicate InTheWay(a: Answer) {
    a.Answer? && !("vh" <= a.dev) && (!a.hasVia || !(a.table == "" || a.table == "main"))
  }

  /** The destinations that a sync writes: every valid and writable address of a peer, of a
      service and of the route table of the namespace, each one once. */
  lemma WantedExactly(peers: Peers, v6: bool, texts: Texts, probe: string -> Answer)
    ensures Distinct(Filtered(Wanted(peers, v6), texts, probe))
    ensures forall d :: d in Filtered(Wanted(peers, v6), texts, probe) <==>
      texts.valid(d) && Writable(probe(d)) &&
      (if v6 then d in peers.peersV6 || d in peers.servicesV6 || d in OrNone(peers.tableV6)
       else d in peers.peersV4 || d in peers.servicesV4 || d in OrNone(peers.tableV4))
    ensures forall d :: d in Filtered(Wanted(peers, v6), texts, probe) ==> !InTheWay(probe(d))
    ensures forall d :: d in Wanted(peers, v6) && texts.valid(d) && !InTheWay(probe(d)) ==> d in Filtered(Wanted(peers, v6), texts, probe)
  {
    var own := if v6 then peers.peersV6 + peers.servicesV6 else peers.peersV4 + peers.servicesV4;
    var accepted := OrNone(if v6 then peers.tableV6 else peers.tableV4);
    OnceHoldsEach(own);
    OnceHoldsEach(Once(own) + accepted);
    FilteredExactly(Wanted(peers, v6), texts, probe);
    FilteredOnce(Wanted(peers, v6), texts, probe);
  }

  /** What one sync wanted, the destinations of its commands, and the schedules that they met. */
  datatype SyncRun = SyncRun(want4: seq<string>, want6: seq<string>, ds4: seq<string>, ds6: seq<string>, faults4: seq<bool>, faults6: seq<bool>)

  predicate Unfailing(run: SyncRun) {
    NoFaults(run.faults4, |run.ds4|) && NoFaults(run.faults6, |run.ds6|)
  }

  class Manager {
    const texts: Texts
    const routeTable: nat
    var v4: Table
    var v6: Table
    var ruleV4: Option<string>
    var ruleV6: Option<string>
    var faults: seq<bool>
    var writes: nat

    constructor (texts: Texts, routeTable: nat, v4: Table, v6: Table, ruleV4: Option<string>, ruleV6: Option<string>, faults: seq<bool>)
      ensures this.texts == texts && this.routeTable == routeTable && this.v4 == v4 && this.v6 == v6
      ensures this.ruleV4 == ruleV4 && this.ruleV6 == ruleV6 && this.faults == faults && writes == 0
    {
      this.texts, this.routeTable, this.v4, this.v6 := texts, routeTable, v4, v6;
      this.ruleV4, this.ruleV6, this.faults, writes := ruleV4, ruleV6, faults, 0;
    }

    function TableOf(six: bool): Table
      reads this
    {
      if six then v6 else v4
    }

    function RuleOf(six: bool): Option<string>
      reads this
    {
      if six then ruleV6 else ruleV4
    }

    method NextFault() returns (fault: bool)
      modifies `faults
      ensures fault == FaultAt(old(faults), 0) && faults == Rest(old(faults), 1)
    {
      fault := false;
      if faults != [] {
        fault, faults := faults[0], faults[1..];
      }
    }

    /** ip route replace. */
    method Replace(six: bool, d: string, r: Route) returns (failed: bool)
      modifies `v4, `v6, `faults, `writes
      ensures TableOf(six) == (if failed then old(TableOf(six)) else old(TableOf(six))[d := r]) && TableOf(!six) == old(TableOf(!six))
      ensures writes == old(writes) + 1
      ensures failed == FaultAt(old(faults), 0) && faults == Rest(old(faults), 1)
    {
      failed := NextFault();
      writes := writes + 1;
      if !failed {
        if six {
          v6 := v6[d := r];
        } else {
          v4 := v4[d := r];
        }
      }
    }

    /** ip route del of a destination that the table holds. */
    method Delete(six: bool, d: string) returns (failed: bool)
      requires d in TableOf(six)
      modifies `v4, `v6, `faults, `writes
      ensures TableOf(six) == (if failed then old(TableOf(six)) else old(TableOf(six)) - {d}) && TableOf(!six) == old(TableOf(!six))
      ensures writes == old(writes) + 1
      ensures failed == FaultAt(old(faults), 0) && faults == Rest(old(faults), 1)
    {
      failed := NextFault();
      writes := writes + 1;
      if !failed {
        if six {
          v6 := v6 - {d};
        } else {
          v4 := v4 - {d};
        }
      }
    }

    /** ip route show through the parser, in any order. */
    method Show(six: bool, dev: string) returns (failed: bool, actual: seq<string>)
      modifies `faults
      ensures !failed ==> ShowsExactly(TableOf(six), actual, dev, six, texts)
      ensures !failed ==> forall d :: d in actual <==> !LeftAlone(TableOf(six), d, dev, six, texts)
      ensures !failed ==> forall i, j :: 0 <= i < j < |actual| ==> actual[i] != actual[j]
      ensures failed == FaultAt(old(faults), 0) && faults == Rest(old(faults), 1)
    {
      failed := NextFault();
      actual := [];
      var t := TableOf(six);
      var todo := t.Keys;
      while todo != {}
        invariant todo <= t.Keys
        invariant forall d :: d in actual <==> d in t && d !in todo && Shown(d, t[d], dev, six, texts)
        invariant forall i, j :: 0 <= i < j < |actual| ==> actual[i] != actual[j]
        decreases todo
      {
        var d :| d in todo;
        todo := todo - {d};
        if Shown(d, t[d], dev, six, texts) {
          actual := actual + [d];
        }
      }
    }

    /** The loop over the destinations to add: one command for each, whatever fails. */
    method AddAll(six: bool, ds: seq<string>, r: Route) returns (failed: bool)
      requires Distinct(ds)
      modifies `v4, `v6, `faults, `writes
      ensures Stepped(old(TableOf(six)), TableOf(six), ds, Some(r), old(faults))
      ensures failed <==> !NoFaults(old(faults), |ds|)
      ensures faults == Rest(old(faults), |ds|)
      ensures TableOf(!six) == old(TableOf(!six)) && writes == old(writes) + |ds|
    {
      failed := false;
      RestOfNone(faults);
      for i := 0 to |ds|
        invariant Stepped(old(TableOf(six)), TableOf(six), ds[..i], Some(r), old(faults))
        invariant failed <==> !NoFaults(old(faults), i)
        invariant faults == Rest(old(faults), i)
        invariant TableOf(!six) == old(TableOf(!six)) && writes == old(writes) + i
      {
        ghost var t := TableOf(six);
        NoFaultsNext(old(faults), i);
        RestOfRest(old(faults), i, 1);
        var f := Replace(six, ds[i], r);
        SteppedNext(old(TableOf(six)), t, TableOf(six), ds, i, Some(r), old(faults));
        failed := failed || f;
      }
      assert ds[..|ds|] == ds;
    }

    /** The loop over the destinations to remove: one command for each, whatever fails. */
    method DeleteAll(six: bool, ds: seq<string>) returns (failed: bool)
      requires forall d :: d in ds ==> d in TableOf(six)
      requires Distinct(ds)
      modifies `v4, `v6, `faults, `writes
      ensures Stepped(old(TableOf(six)), TableOf(six), ds, None, old(faults))
      ensures failed <==> !NoFaults(old(faults), |ds|)
      ensures faults == Rest(old(faults), |ds|)
      ensures TableOf(!six) == old(TableOf(!six)) && writes == old(writes) + |ds|
    {
      failed := false;
      RestOfNone(faults);
      for i := 0 to |ds|
        invariant forall k :: i <= k < |ds| ==> ds[k] in TableOf(six)
        invariant Stepped(old(TableOf(six)), TableOf(six), ds[..i], None, old(faults))
        invariant failed <==> !NoFaults(old(faults), i)
        invariant faults == Rest(old(faults), i)
        invariant TableOf(!six) == old(TableOf(!six)) && writes == old(writes) + i
      {
        ghost var t := TableOf(six);
        NoFaultsNext(old(faults), i);
        RestOfRest(old(faults), i, 1);
        var f := Delete(six, ds[i]);
        SteppedNext(old(TableOf(six)), t, TableOf(six), ds, i, None, old(faults));
        failed := failed || f;
      }
      assert ds[..|ds|] == ds;
    }

    /** The diff of one family, then its two loops: one command for each destination to add
        and then one for each to remove. A command that fails leaves its destination as it
        was, and every other command runs. */
    method Change(six: bool, want: seq<string>, actual: seq<string>, dev: string, via: string) returns (failed: bool, ghost ds: seq<string>)
      requires ShowsExactly(TableOf(six), actual, dev, six, texts)
      requires Distinct(want) && Distinct(actual)
      modifies `v4, `v6, `faults, `writes
      ensures ds == Missing(want, actual) + Missing(actual, want)
      ensures Changed(old(TableOf(six)), TableOf(six), ds, want, dev, via, six, texts, old(faults))
      ensures failed <==> !NoFaults(old(faults), |ds|)
      ensures faults == Rest(old(faults), |ds|)
      ensures TableOf(!six) == old(TableOf(!six)) && writes == old(writes) + |ds|
    {
      var toAdd, toRemove := DiffRoutes(want, actual);
      ds := toAdd + toRemove;
      failed := RunLoops(six, toAdd, toRemove, Route(dev, via, false), want, actual);
    }

    method RunLoops(six: bool, toAdd: seq<string>, toRemove: seq<string>, r: Route, ghost want: seq<string>, ghost actual: seq<string>) returns (failed: bool)
      requires toAdd == Missing(want, actual) && toRemove == Missing(actual, want) && r == Route(r.dev, r.via, false)
      requires ShowsExactly(TableOf(six), actual, r.dev, six, texts)
      requires Distinct(want) && Distinct(actual)
      modifies `v4, `v6, `faults, `writes
      ensures Changed(old(TableOf(six)), TableOf(six), toAdd + toRemove, want, r.dev, r.via, six, texts, old(faults))
      ensures failed <==> !NoFaults(old(faults), |toAdd| + |toRemove|)
      ensures faults == Rest(old(faults), |toAdd| + |toRemove|)
      ensures TableOf(!six) == old(TableOf(!six)) && writes == old(writes) + |toAdd| + |toRemove|
    {
      ghost var t0, f0 := TableOf(six), faults;
      var failedAdd := AddFirst(six, toAdd, toRemove, r, want, actual);
      ghost var t1 := TableOf(six);
      RestOfRest(f0, |toAdd|, |toRemove|);
      NoFaultsSplit(f0, |toAdd|, |toRemove|);
      var failedDelete := DeleteAll(six, toRemove);
      failed := failedAdd || failedDelete;
      BothLoops(t0, t1, TableOf(six), want, actual, r.dev, r.via, six, texts, f0);
    }

    method AddFirst(six: bool, toAdd: seq<string>, ghost toRemove: seq<string>, r: Route, ghost want: seq<string>, ghost actual: seq<string>) returns (failed: bool)
      requires toAdd == Missing(want, actual) && toRemove == Missing(actual, want)
      requires ShowsExactly(TableOf(six), actual, r.dev, six, texts)
      requires Distinct(want) && Distinct(actual)
      modifies `v4, `v6, `faults, `writes
      ensures Stepped(old(TableOf(six)), TableOf(six), toAdd, Some(r), old(faults))
      ensures failed <==> !NoFaults(old(faults), |toAdd|)
      ensures faults == Rest(old(faults), |toAdd|)
      ensures TableOf(!six) == old(TableOf(!six)) && writes == old(writes) + |toAdd|
      ensures Distinct(toRemove) && forall d :: d in toRemove ==> d in TableOf(six)
    {
      ghost var t0, f0 := TableOf(six), faults;
      DiffApart(t0, want, actual, r.dev, six, texts);
      failed := AddAll(six, toAdd, r);
      KeptByAdd(t0, TableOf(six), toAdd, toRemove, Some(r), f0);
    }

    /** ensureHostRouteRule: it adds the rule only where none holds the priority, and it takes
        no rule of another table away. */
    method EnsureRule(six: bool) returns (failed: bool)
      modifies `ruleV4, `ruleV6, `faults
      ensures RuleOf(!six) == old(RuleOf(!six))
      ensures routeTable == 0 ==> !failed && RuleOf(six) == old(RuleOf(six)) && faults == old(faults)
      ensures routeTable != 0 && !failed ==> RuleOf(six) == Some(Itoa(routeTable))
      ensures old(RuleOf(six)).Some? || failed ==> RuleOf(six) == old(RuleOf(six))
      ensures routeTable != 0 ==>
        (failed <==> FaultAt(old(faults), 0) || (if old(RuleOf(six)).None? then FaultAt(old(faults), 1) else old(RuleOf(six)) != Some(Itoa(routeTable))))
      ensures faults == Rest(old(faults), RuleCost(old(RuleOf(six)), old(faults)))
      ensures old(faults) == [] ==> faults == []
    {
      RestOfNone(faults);
      if routeTable == 0 {
        return false;
      }
      RestOfRest(faults, 1, 1);
      failed := NextFault();
      if failed {
        return;
      }
      var rule := RuleOf(six);
      if rule.Some? {
        return rule.value != Itoa(routeTable);
      }
      failed := NextFault();
      if !failed {
        if six {
          ruleV6 := Some(Itoa(routeTable));
        } else {
          ruleV4 := Some(Itoa(routeTable));
        }
      }
    }

    /** The combined destinations of one family, through the filter. */
    method WantedRoutes(peers: Peers, six: bool, probe: string -> Answer) returns (want: seq<string>)
      ensures want == Filtered(Wanted(peers, six), texts, probe) && Distinct(want)
    {
      WantedExactly(peers, six, texts, probe);
      want := MergeRoutes(if six then peers.peersV6 else peers.peersV4, if six then peers.servicesV6 else peers.servicesV4);
      want := MergeRoutes(want, OrNone(if six then peers.tableV6 else peers.tableV4));
      want := FilterWritable(want, texts, probe);
    }

    /** The number of commands of ensureHostRouteRule. */
    function RuleCost(rule: Option<string>, faults: seq<bool>): nat {
      if routeTable == 0 then 0 else if FaultAt(faults, 0) || rule.Some? then 1 else 2
    }

    /** The rule step fails: its read fails, the rule of another table holds the priority, or
        the new rule is not written. */
    predicate RuleFails(rule: Option<string>, faults: seq<bool>) {
      routeTable != 0 &&
      (FaultAt(faults, 0) || if rule.None? then FaultAt(faults, 1) else rule.value != Itoa(routeTable))
    }

    /** SyncHostRoutes. Both rule steps and the routes run whatever happened before them. A
        failed read of a route list changes no route. Otherwise each destination without a
        command and each one whose command succeeds has the route that the sync gives it, and
        every other one keeps its route. left is the schedule behind the rule steps. */
    method SyncHostRoutes(peers: Peers, probeV4: string -> Answer, probeV6: string -> Answer)
      returns (failed: bool, ghost left: seq<bool>, ghost run: SyncRun)
      modifies this
      ensures var next := Rest(old(faults), RuleCost(old(ruleV4), old(faults)));
        left == Rest(next, RuleCost(old(ruleV6), next))
      ensures run.want4 == Filtered(Wanted(peers, false), texts, probeV4) && run.want6 == Filtered(Wanted(peers, true), texts, probeV6)
      ensures run.faults4 == Rest(left, 2) && run.faults6 == Rest(run.faults4, |run.ds4|)
      ensures !NoFaults(left, 2) ==> failed && v4 == old(v4) && v6 == old(v6)
      ensures NoFaults(left, 2) ==> Changed(old(v4), v4, run.ds4, run.want4, peers.vethHost, peers.vethGateway, false, texts, run.faults4)
      ensures NoFaults(left, 2) ==> Changed(old(v6), v6, run.ds6, run.want6, peers.vethHost, "", true, texts, run.faults6)
      ensures failed <==>
        || RuleFails(old(ruleV4), old(faults)) || RuleFails(old(ruleV6), Rest(old(faults), RuleCost(old(ruleV4), old(faults))))
        || !NoFaults(left, 2) || !Unfailing(run)
      ensures !failed && routeTable != 0 ==> ruleV4 == ruleV6 == Some(Itoa(routeTable))
      ensures PartlySynced(old(v4), v4, run.want4, peers.vethHost, peers.vethGateway, false, texts)
      ensures PartlySynced(old(v6), v6, run.want6, peers.vethHost, "", true, texts)
      ensures !failed || old(faults) == [] ==> SyncedTable(old(v4), v4, run.want4, peers.vethHost, peers.vethGateway, false, texts)
      ensures !failed || old(faults) == [] ==> SyncedTable(old(v6), v6, run.want6, peers.vethHost, "", true, texts)
      ensures KeepsTheRest(old(v4), v4, run.want4, peers.vethHost, false, texts)
      ensures KeepsTheRest(old(v6), v6, run.want6, peers.vethHost, true, texts)
      ensures !failed ==> Reaches(old(v4), v4, run.want4, peers.vethHost, peers.vethGateway, false, texts)
      ensures !failed ==> Reaches(old(v6), v6, run.want6, peers.vethHost, "", true, texts)
      ensures old(ruleV4).Some? ==> ruleV4 == old(ruleV4)
      ensures old(ruleV6).Some? ==> ruleV6 == old(ruleV6)
      ensures old(faults) == [] && (routeTable == 0 || old(ruleV4) == old(ruleV6) == None) ==> !failed
    {
      ghost var t4, t6 := v4, v6;
      failed, left, run := RulesAndRoutes(peers, probeV4, probeV6);
      if old(faults) == [] {
        EmptySchedule(left, run);
      }
      if NoFaults(left, 2) {
        RunMeans(t4, v4, t6, v6, run, peers);
      }
      SyncInPlainTerms(t4, v4, run.want4, peers.vethHost, peers.vethGateway, false, texts);
      SyncInPlainTerms(t6, v6, run.want6, peers.vethHost, "", true, texts);
    }

    method RulesAndRoutes(peers: Peers, probeV4: string -> Answer, probeV6: string -> Answer)
      returns (failed: bool, ghost left: seq<bool>, ghost run: SyncRun)
      modifies this
      ensures var next := Rest(old(faults), RuleCost(old(ruleV4), old(faults)));
        left == Rest(next, RuleCost(old(ruleV6), next))
      ensures old(faults) == [] ==> left == []
      ensures run.want4 == Filtered(Wanted(peers, false), texts, probeV4) && run.want6 == Filtered(Wanted(peers, true), texts, probeV6)
      ensures run.faults4 == Rest(left, 2) && run.faults6 == Rest(run.faults4, |run.ds4|)
      ensures !NoFaults(left, 2) ==> failed && v4 == old(v4) && v6 == old(v6)
      ensures NoFaults(left, 2) ==> Changed(old(v4), v4, run.ds4, run.want4, peers.vethHost, peers.vethGateway, false, texts, run.faults4)
      ensures NoFaults(left, 2) ==> Changed(old(v6), v6, run.ds6, run.want6, peers.vethHost, "", true, texts, run.faults6)
      ensures failed <==>
        || RuleFails(old(ruleV4), old(faults)) || RuleFails(old(ruleV6), Rest(old(faults), RuleCost(old(ruleV4), old(faults))))
        || !NoFaults(left, 2) || !Unfailing(run)
      ensures !failed && routeTable != 0 ==> ruleV4 == ruleV6 == Some(Itoa(routeTable))
      ensures old(ruleV4).Some? ==> ruleV4 == old(ruleV4)
      ensures old(ruleV6).Some? ==> ruleV6 == old(ruleV6)
      ensures old(faults) == [] && (routeTable == 0 || old(ruleV4) == old(ruleV6) == None) ==> !failed
    {
      var failedRules := EnsureRules();
      left := faults;
      assert v4 == old(v4) && v6 == old(v6);
      ghost var r4, r6 := ruleV4, ruleV6;
      var failedRoutes;
      failedRoutes, run := SyncRoutes(peers, probeV4, probeV6);
      assert ruleV4 == r4 && ruleV6 == r6;
      failed := failedRules || failedRoutes;
      if old(faults) == [] {
        EmptySchedule(left, run);
      }
    }

    lemma EmptySchedule(left: seq<bool>, run: SyncRun)
      requires left == [] && run.faults4 == Rest(left, 2) && run.faults6 == Rest(run.faults4, |run.ds4|)
      ensures NoFaults(left, 2) && Unfailing(run)
    {
    }

    lemma RunMeans(t4: Table, u4: Table, t6: Table, u6: Table, run: SyncRun, peers: Peers)
      requires Changed(t4, u4, run.ds4, run.want4, peers.vethHost, peers.vethGateway, false, texts, run.faults4)
      requires Changed(t6, u6, run.ds6, run.want6, peers.vethHost, "", true, texts, run.faults6)
      ensures PartlySynced(t4, u4, run.want4, peers.vethHost, peers.vethGateway, false, texts)
      ensures PartlySynced(t6, u6, run.want6, peers.vethHost, "", true, texts)
      ensures Unfailing(run) ==> SyncedTable(t4, u4, run.want4, peers.vethHost, peers.vethGateway, false, texts)
      ensures Unfailing(run) ==> SyncedTable(t6, u6, run.want6, peers.vethHost, "", true, texts)
    {
      ChangedIsPartlySynced(t4, u4, run.ds4, run.want4, peers.vethHost, peers.vethGateway, false, texts, run.faults4);
      ChangedIsPartlySynced(t6, u6, run.ds6, run.want6, peers.vethHost, "", true, texts, run.faults6);
    }

    /** The rule steps of both families. */
    method EnsureRules() returns (failed: bool)
      modifies `ruleV4, `ruleV6, `faults
      ensures var next := Rest(old(faults), RuleCost(old(ruleV4), old(faults)));
        faults == Rest(next, RuleCost(old(ruleV6), next))
      ensures failed <==> RuleFails(old(ruleV4), old(faults)) || RuleFails(old(ruleV6), Rest(old(faults), RuleCost(old(ruleV4), old(faults))))
      ensures !failed && routeTable != 0 ==> ruleV4 == ruleV6 == Some(Itoa(routeTable))
      ensures old(faults) == [] ==> faults == []
      ensures old(ruleV4).Some? ==> ruleV4 == old(ruleV4)
      ensures old(ruleV6).Some? ==> ruleV6 == old(ruleV6)
      ensures old(faults) == [] && (routeTable == 0 || old(ruleV4) == old(ruleV6) == None) ==> !failed
    {
      ghost var r6 := ruleV6;
      var failed4 := EnsureRule(false);
      assert RuleOf(true) == ruleV6 == r6 && RuleOf(false) == ruleV4;
      var failed6 := EnsureRule(true);
      failed := failed4 || failed6;
    }

    /** The route part of SyncHostRoutes: both reads, and then both families, the second one
        whatever happened to the first. */
    method SyncRoutes(peers: Peers, probeV4: string -> Answer, probeV6: string -> Answer) returns (failed: bool, ghost run: SyncRun)
      modifies `v4, `v6, `faults, `writes
      ensures run.want4 == Filtered(Wanted(peers, false), texts, probeV4) && run.want6 == Filtered(Wanted(peers, true), texts, probeV6)
      ensures run.faults4 == Rest(old(faults), 2) && run.faults6 == Rest(run.faults4, |run.ds4|)
      ensures !NoFaults(old(faults), 2) ==> failed && v4 == old(v4) && v6 == old(v6)
      ensures NoFaults(old(faults), 2) ==> Changed(old(v4), v4, run.ds4, run.want4, peers.vethHost, peers.vethGateway, false, texts, run.faults4)
      ensures NoFaults(old(faults), 2) ==> Changed(old(v6), v6, run.ds6, run.want6, peers.vethHost, "", true, texts, run.faults6)
      ensures NoFaults(old(faults), 2) ==> (failed <==> !Unfailing(run))
    {
      ghost var f := faults;
      var wantV4 := WantedRoutes(peers, false, probeV4);
      var wantV6 := WantedRoutes(peers, true, probeV6);
      assert v4 == old(v4) && v6 == old(v6);
      run := SyncRun(wantV4, wantV6, [], [], Rest(f, 2), Rest(f, 2));
      RestOfNone(run.faults4);
      RestOfRest(f, 1, 1);
      NoFaultsNext(f, 0);
      NoFaultsNext(f, 1);
      var unread4, actualV4 := Show(false, peers.vethHost);
      assert v4 == old(v4) && v6 == old(v6);
      if unread4 {
        failed := true;
        return;
      }
      var unread6, actualV6 := Show(true, peers.vethHost);
      assert v4 == old(v4) && v6 == old(v6);
      if unread6 {
        failed := true;
        return;
      }
      failed, run := ChangeBoth(wantV4, wantV6, actualV4, actualV6, peers.vethHost, peers.vethGateway);
    }

    method ChangeBoth(want4: seq<string>, want6: seq<string>, actual4: seq<string>, actual6: seq<string>, dev: string, via: string)
      returns (failed: bool, ghost run: SyncRun)
      requires ShowsExactly(v4, actual4, dev, false, texts) && Distinct(want4) && Distinct(actual4)
      requires ShowsExactly(v6, actual6, dev, true, texts) && Distinct(want6) && Distinct(actual6)
      modifies `v4, `v6, `faults, `writes
      ensures run.want4 == want4 && run.want6 == want6 && run.faults4 == old(faults) && run.faults6 == Rest(run.faults4, |run.ds4|)
      ensures Changed(old(v4), v4, run.ds4, run.want4, dev, via, false, texts, run.faults4)
      ensures Changed(old(v6), v6, run.ds6, run.want6, dev, "", true, texts, run.faults6)
      ensures failed <==> !Unfailing(run)
    {
      ghost var t4, t6, f := v4, v6, faults;
      var f4, f6;
      ghost var ds4, ds6;
      f4, ds4 := Change(false, want4, actual4, dev, via);
      assert TableOf(!false) == v6 && v6 == t6 && TableOf(false) == v4;
      ghost var u4, g := v4, faults;
      f6, ds6 := Change(true, want6, actual6, dev, "");
      assert TableOf(!true) == v4 && v4 == u4 && TableOf(true) == v6;
      failed := f4 || f6;
      run := SyncRun(want4, want6, ds4, ds6, f, g);
    }

    /** One family of RemoveAllHostRoutes. */
    method RemoveShown(six: bool, dev: string) returns (failed: bool, ghost shown: seq<string>)
      modifies `v4, `v6, `faults, `writes
      ensures RemovedUnder(old(TableOf(six)), TableOf(six), shown, dev, six, texts, old(faults))
      ensures failed <==> !NoFaults(old(faults), RemovalCost(shown, old(faults)))
      ensures faults == Rest(old(faults), RemovalCost(shown, old(faults)))
      ensures TableOf(!six) == old(TableOf(!six))
    {
      ghost var f := faults;
      var unread, actual := Show(six, dev);
      shown := actual;
      if unread {
        return true, shown;
      }
      RestOfRest(f, 1, |actual|);
      NoFaultsSplit(f, 1, |actual|);
      NoFaultsNext(f, 0);
      failed := DeleteAll(six, actual);
    }

    /** RemoveAllHostRoutes: a failure in one family does not stop the other, and a command
        that fails does not stop the next one. */
    method RemoveAllHostRoutes(dev: string) returns (failed: bool, ghost shown4: seq<string>, ghost shown6: seq<string>)
      modifies `v4, `v6, `faults, `writes
      ensures RemovedUnder(old(v4), v4, shown4, dev, false, texts, old(faults))
      ensures RemovedUnder(old(v6), v6, shown6, dev, true, texts, Rest(old(faults), RemovalCost(shown4, old(faults))))
      ensures var left := Rest(old(faults), RemovalCost(shown4, old(faults)));
        && (failed <==> !NoFaults(old(faults), RemovalCost(shown4, old(faults))) || !NoFaults(left, RemovalCost(shown6, left)))
        && faults == Rest(left, RemovalCost(shown6, left))
      ensures PartlySynced(old(v4), v4, [], dev, "", false, texts) && PartlySynced(old(v6), v6, [], dev, "", true, texts)
      ensures !failed ==> SyncedTable(old(v4), v4, [], dev, "", false, texts) && SyncedTable(old(v6), v6, [], dev, "", true, texts)
      ensures KeepsTheRest(old(v4), v4, [], dev, false, texts) && KeepsTheRest(old(v6), v6, [], dev, true, texts)
      ensures !failed ==> Reaches(old(v4), v4, [], dev, "", false, texts) && Reaches(old(v6), v6, [], dev, "", true, texts)
    {
      ghost var t4, t6, f := v4, v6, faults;
      var f4, f6;
      f4, shown4 := RemoveShown(false, dev);
      ghost var left := faults;
      f6, shown6 := RemoveShown(true, dev);
      failed := f4 || f6;
      RemovedIsSynced(t4, v4, shown4, dev, false, texts, f);
      RemovedIsSynced(t6, v6, shown6, dev, true, texts, left);
      SyncInPlainTerms(t4, v4, [], dev, "", false, texts);
      SyncInPlainTerms(t6, v6, [], dev, "", true, texts);
    }

    /** removeHostRouteRule: the command names the priority and the table, so a rule of the
        operator at that priority stays; a missing rule is a success. */
    method RemoveRule(six: bool) returns (failed: bool)
      modifies `ruleV4, `ruleV6, `faults
      ensures RuleOf(!six) == old(RuleOf(!six))
      ensures RuleOf(six) == if !failed && old(RuleOf(six)) == Some(Itoa(routeTable)) then None else old(RuleOf(six))
      ensures failed == FaultAt(old(faults), 0) && faults == Rest(old(faults), 1)
    {
      failed := NextFault();
      if !failed && RuleOf(six) == Some(Itoa(routeTable)) {
        if six {
          ruleV6 := None;
        } else {
          ruleV4 := None;
        }
      }
    }

    method Flush(six: bool) returns (failed: bool)
      modifies `v4, `v6, `faults
      ensures TableOf(!six) == old(TableOf(!six)) && TableOf(six) == if failed then old(TableOf(six)) else map[]
      ensures failed == FaultAt(old(faults), 0) && faults == Rest(old(faults), 1)
    {
      failed := NextFault();
      if !failed {
        if six {
          v6 := map[];
        } else {
          v4 := map[];
        }
      }
    }

    /** RemoveHostRouteTable: nothing happens without a route table of the daemon; otherwise
        both rules go before both tables, and every step runs. */
    method RemoveHostRouteTable() returns (failed: bool)
      modifies `ruleV4, `ruleV6, `v4, `v6, `faults
      ensures routeTable == 0 ==>
        !failed && v4 == old(v4) && v6 == old(v6) && ruleV4 == old(ruleV4) && ruleV6 == old(ruleV6) && faults == old(faults)
      ensures routeTable != 0 ==> ruleV4 == if !FaultAt(old(faults), 0) && old(ruleV4) == Some(Itoa(routeTable)) then None else old(ruleV4)
      ensures routeTable != 0 ==> ruleV6 == if !FaultAt(old(faults), 1) && old(ruleV6) == Some(Itoa(routeTable)) then None else old(ruleV6)
      ensures routeTable != 0 ==> v4 == if FaultAt(old(faults), 2) then old(v4) else map[]
      ensures routeTable != 0 ==> v6 == if FaultAt(old(faults), 3) then old(v6) else map[]
      ensures routeTable != 0 ==> (failed <==> !NoFaults(old(faults), 4)) && faults == Rest(old(faults), 4)
    {
      if routeTable == 0 {
        return false;
      }
      FourCommands(faults);
      var f1 := RemoveRule(false);
      var f2 := RemoveRule(true);
      var f3 := Flush(false);
      var f4 := Flush(true);
      failed := f1 || f2 || f3 || f4;
    }
  }
}
