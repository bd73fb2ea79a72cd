/** Who owns a split DNS domain: the two passes of syncDNS over the normalised claims of the
    active tailnets (hostaccess.go). */
module DomainClaims {
  import opened Text

  /** What one tailnet claims: its MagicDNS suffix, its alias zone, and its reported split
      domains in order, where None is a report that names no usable domain. */
  datatype Holdings = Holdings(suffix: Option<string>, zone: Option<string>, reports: seq<Option<string>>)

  type View = map<string, Holdings>

  /** The domain is the MagicDNS suffix or the alias zone of some active tailnet. */
  predicate Reserved(c: View, domain: string) {
    exists id :: id in c && (c[id].suffix == Some(domain) || c[id].zone == Some(domain))
  }

  predicate ReportedIn(reports: seq<Option<string>>, d: string) {
    Some(d) in reports
  }

  predicate Reports(c: View, id: string, d: string) {
    id in c && ReportedIn(c[id].reports, d)
  }

  /** The first report of each domain of a list that nobody took before. */
  function Kept(reports: seq<Option<string>>, taken: set<string>): seq<string> {
    if reports == [] then []
    else
      var front := Kept(reports[..|reports| - 1], taken);
      match reports[|reports| - 1]
      case None => front
      case Some(d) => if d in front || d in taken then front else front + [d]
  }

  lemma {:induction false} KeptExactly(reports: seq<Option<string>>, taken: set<string>, d: string)
    ensures d in Kept(reports, taken) <==> ReportedIn(reports, d) && d !in taken
  {
    if reports != [] {
      var front, last := reports[..|reports| - 1], reports[|reports| - 1];
      KeptExactly(front, taken, d);
      assert reports == front + [last];
    }
  }

  lemma {:induction false} KeptOnce(reports: seq<Option<string>>, taken: set<string>)
    ensures forall i, j :: 0 <= i < j < |Kept(reports, taken)| ==> Kept(reports, taken)[i] != Kept(reports, taken)[j]
  {
    if reports != [] {
      KeptOnce(reports[..|reports| - 1], taken);
    }
  }

  /** What tailnet id finds taken: every reserved name and every report of a lesser id. */
  ghost predicate IsTaken(c: View, id: string, d: string) {
    Reserved(c, d) || exists other :: Before(other, id) && Reports(c, other, d)
  }

  ghost function Taken(c: View, id: string): set<string>
    requires id in c
  {
    set r | r in c[id].reports && r.Some? && IsTaken(c, id, r.value) :: r.value
  }

  /** The surviving split reports of one tailnet. */
  ghost function Survivors(c: View, id: string): seq<string>
    requires id in c
  {
    Kept(c[id].reports, Taken(c, id))
  }

  // ----- what the ownership rule means

  /** A domain survives at exactly one place: the least tailnet that reports it, and only when
      no MagicDNS suffix and no alias zone holds the name. */
  lemma SurvivesExactly(c: View, id: string, d: string)
    requires id in c
    ensures d in Survivors(c, id) <==>
      && Reports(c, id, d) && !Reserved(c, d)
      && forall other :: Reports(c, other, d) ==> other == id || Before(id, other)
  {
    KeptExactly(c[id].reports, Taken(c, id), d);
    if Reports(c, id, d) {
      assert d in Taken(c, id) <==> IsTaken(c, id, d);
      if !IsTaken(c, id, d) {
        forall other | Reports(c, other, d)
          ensures other == id || Before(id, other)
        {
          BeforeTotal(id, other);
        }
      } else if !Reserved(c, d) {
        var other :| Before(other, id) && Reports(c, other, d);
        BeforeTotal(other, id);
        BeforeTotal(id, id);
      }
    }
  }

  /** Two tailnets never keep the same domain, and no tailnet keeps a domain twice. */
  lemma SurvivorsAreDisjoint(c: View, a: string, b: string, d: string)
    requires a in c && b in c
    requires d in Survivors(c, a) && d in Survivors(c, b)
    ensures a == b
    ensures forall i, j :: 0 <= i < j < |Survivors(c, a)| ==> Survivors(c, a)[i] != Survivors(c, a)[j]
  {
    SurvivesExactly(c, a, d);
    SurvivesExactly(c, b, d);
    BeforeTotal(a, b);
    KeptOnce(c[a].reports, Taken(c, a));
  }

  /** A tailnet that reports its own MagicDNS suffix as a split domain loses it, to itself when
      no other tailnet claims the name. */
  lemma OwnSuffixDoesNotSurvive(c: View, id: string, d: string)
    requires id in c && c[id].suffix == Some(d) && Reports(c, id, d)
    ensures forall other :: other in c ==> d !in Survivors(c, other)
    ensures IsTaken(c, id, d)
  {
    forall other | other in c
      ensures d !in Survivors(c, other)
    {
      SurvivesExactly(c, other, d);
    }
  }

  /** A well-formed report that does not survive lost to a reserved name or to a lesser id. */
  lemma EveryReportIsSettled(c: View, id: string, d: string)
    requires Reports(c, id, d)
    ensures d in Survivors(c, id) || IsTaken(c, id, d)
  {
    SurvivesExactly(c, id, d);
    if !IsTaken(c, id, d) {
      forall other | Reports(c, other, d)
        ensures other == id || Before(id, other)
      {
        BeforeTotal(id, other);
      }
    }
  }

  ghost function Earlier(c: View, id: string, d: string): set<string> {
    set other | other in c && Before(other, id) && Reports(c, other, d)
  }

  /** A report that nobody reserves survives somewhere. */
  lemma {:induction false} SomeoneKeeps(c: View, id: string, d: string) returns (owner: string)
    requires Reports(c, id, d) && !Reserved(c, d)
    ensures owner in c && d in Survivors(c, owner)
    decreases Earlier(c, id, d)
  {
    if other :| other in Earlier(c, id, d) {
      forall third | third in Earlier(c, other, d)
        ensures third in Earlier(c, id, d)
      {
        BeforeTransitive(third, other, id);
      }
      BeforeTotal(other, other);
      assert other !in Earlier(c, other, d);
      owner := SomeoneKeeps(c, other, d);
    } else {
      owner := id;
      forall other | Reports(c, other, d)
        ensures other == id || Before(id, other)
      {
        BeforeTotal(id, other);
        assert other !in Earlier(c, id, d);
      }
      SurvivesExactly(c, id, d);
    }
  }

  // ----- the passes

  /** The text of one conflict. */
  function Message(d: string, loser: string, owner: string): string {
    "the split DNS domain " + d + " of " + loser + " is claimed by " + owner
  }

  predicate Claims(c: View, id: string, d: string) {
    id in c && (c[id].suffix == Some(d) || c[id].zone == Some(d))
  }

  predicate ClaimedIn(c: View, ids: seq<string>, d: string) {
    exists id :: id in ids && Claims(c, id, d)
  }

  lemma ClaimedStep(c: View, ids: seq<string>, i: nat, d: string)
    requires i < |ids|
    ensures ClaimedIn(c, ids[..i + 1], d) <==> ClaimedIn(c, ids[..i], d) || Claims(c, ids[i], d)
  {
    assert ids[..i + 1] == ids[..i] + [ids[i]];
    assert forall id :: id in ids[..i + 1] <==> id in ids[..i] || id == ids[i];
  }

  /** Tailnet k of the list is the first one that claims the name. */
  predicate FirstIn(c: View, ids: seq<string>, k: nat, d: string)
    requires k < |ids|
  {
    Claims(c, ids[k], d) && !ClaimedIn(c, ids[..k], d)
  }

  predicate FirstClaimer(c: View, ids: seq<string>, id: string, d: string) {
    exists k :: 0 <= k < |ids| && ids[k] == id && FirstIn(c, ids, k, d)
  }

  /** Pass 1 so far: the names that the listed tailnets reserve, each with its first claimer. */
  ghost predicate ReservedBy(c: View, ids: seq<string>, owner: map<string, string>) {
    && (forall d :: d in owner <==> ClaimedIn(c, ids, d))
    && (forall d :: d in owner ==> owner[d] in c && FirstClaimer(c, ids, owner[d], d))
  }

  lemma FirstStays(c: View, ids: seq<string>, i: nat, id: string, d: string)
    requires i < |ids|
    ensures FirstClaimer(c, ids[..i], id, d) ==> FirstClaimer(c, ids[..i + 1], id, d)
    ensures Claims(c, ids[i], d) && !ClaimedIn(c, ids[..i], d) ==> FirstClaimer(c, ids[..i + 1], ids[i], d)
  {
    var few, more := ids[..i], ids[..i + 1];
    if FirstClaimer(c, few, id, d) {
      var k :| 0 <= k < i && few[k] == id && FirstIn(c, few, k, d);
      assert few[..k] == more[..k] && more[k] == id;
      assert FirstIn(c, more, k, d);
    }
    assert more[..i] == few && more[i] == ids[i];
    if Claims(c, ids[i], d) && !ClaimedIn(c, few, d) {
      assert FirstIn(c, more, i, d);
    }
  }

  /** In a sorted listing of all tailnets the first claimer is the least one. */
  lemma FirstIsLeast(c: View, ids: seq<string>, id: string, d: string)
    requires StrictlySorted(ids) && (forall x :: x in ids <==> x in c) && FirstClaimer(c, ids, id, d)
    ensures HoldsFirst(c, id, d)
  {
    var k :| 0 <= k < |ids| && ids[k] == id && FirstIn(c, ids, k, d);
    forall j | 0 <= j < k
      ensures !Claims(c, ids[j], d)
    {
      assert ids[..k][j] == ids[j];
    }
    forall other | Claims(c, other, d)
      ensures other == id || Before(id, other)
    {
      var j :| 0 <= j < |ids| && ids[j] == other;
    }
  }

  /** The least tailnet whose MagicDNS suffix or alias zone is the name. */
  ghost predicate HoldsFirst(c: View, id: string, d: string) {
    Claims(c, id, d) && forall other :: Claims(c, other, d) ==> other == id || Before(id, other)
  }

  /** The turn of tailnet i: it takes each of its names that nobody holds, and changes nothing else. */
  lemma ReservedNext(c: View, ids: seq<string>, i: nat, owner: map<string, string>, after: map<string, string>)
    requires i < |ids| && ids[i] in c && ReservedBy(c, ids[..i], owner)
    requires forall d :: d in after <==> d in owner || Claims(c, ids[i], d)
    requires forall d :: d in after ==> after[d] == if d in owner then owner[d] else ids[i]
    ensures ReservedBy(c, ids[..i + 1], after)
  {
    forall d
      ensures ClaimedIn(c, ids[..i + 1], d) <==> ClaimedIn(c, ids[..i], d) || Claims(c, ids[i], d)
    {
      ClaimedStep(c, ids, i, d);
    }
    forall d | d in after
      ensures after[d] in c && FirstClaimer(c, ids[..i + 1], after[d], d)
    {
      FirstStays(c, ids, i, after[d], d);
    }
  }

  method Claim(owner: map<string, string>, claim: Option<string>, id: string) returns (r: map<string, string>)
    ensures r == if claim.Some? && claim.value !in owner then owner[claim.value := id] else owner
  {
    r := owner;
    if claim.Some? {
      if claim.value !in owner {
        r := owner[claim.value := id];
      }
    }
  }

  /** The body of the loop for one tailnet. */
  method ClaimBoth(c: View, ids: seq<string>, i: nat, owner: map<string, string>) returns (after: map<string, string>)
    requires i < |ids| && ids[i] in c && ReservedBy(c, ids[..i], owner)
    ensures ReservedBy(c, ids[..i + 1], after)
  {
    var held := c[ids[i]];
    var first := Claim(owner, held.suffix, ids[i]);
    after := Claim(first, held.zone, ids[i]);
    BothClaimed(c, ids[i], owner, first, after);
    ReservedNext(c, ids, i, owner, after);
  }

  lemma BothClaimed(c: View, id: string, owner: map<string, string>, first: map<string, string>, after: map<string, string>)
    requires id in c
    requires first == if c[id].suffix.Some? && c[id].suffix.value !in owner then owner[c[id].suffix.value := id] else owner
    requires after == if c[id].zone.Some? && c[id].zone.value !in first then first[c[id].zone.value := id] else first
    ensures forall d :: d in after <==> d in owner || Claims(c, id, d)
    ensures forall d :: d in after ==> after[d] == if d in owner then owner[d] else id
  {
  }

  /** Pass 1: each active tailnet in sorted order claims its MagicDNS suffix and its alias
      zone, unless an earlier one holds the name. */
  method ClaimReserved(c: View, ids: seq<string>) returns (owner: map<string, string>)
    requires forall id :: id in ids ==> id in c
    ensures ReservedBy(c, ids, owner)
  {
    owner := map[];
    for i := 0 to |ids|
      invariant ReservedBy(c, ids[..i], owner)
    {
      owner := ClaimBoth(c, ids, i, owner);
    }
    assert ids[..|ids|] == ids;
  }

  lemma ReportedStep(reports: seq<Option<string>>, i: nat, d: string)
    requires i < |reports|
    ensures ReportedIn(reports[..i + 1], d) <==> ReportedIn(reports[..i], d) || reports[i] == Some(d)
  {
    assert reports[..i + 1] == reports[..i] + [reports[i]];
  }

  /** The messages of one tailnet name every domain that it reports and somebody else holds. */
  ghost predicate MessagesOf(messages: set<string>, id: string, reports: seq<Option<string>>, owner: map<string, string>) {
    forall m :: m in messages <==> exists d :: ReportedIn(reports, d) && d in owner && m == Message(d, id, owner[d])
  }

  lemma MessagesStep(messages: set<string>, id: string, reports: seq<Option<string>>, i: nat, owner: map<string, string>)
    requires i < |reports| && MessagesOf(messages, id, reports[..i], owner)
    ensures match reports[i]
      case Some(d) => MessagesOf(if d in owner then messages + {Message(d, id, owner[d])} else messages, id, reports[..i + 1], owner)
      case None => MessagesOf(messages, id, reports[..i + 1], owner)
  {
    forall d
      ensures ReportedIn(reports[..i + 1], d) <==> ReportedIn(reports[..i], d) || reports[i] == Some(d)
    {
      ReportedStep(reports, i, d);
    }
  }

  /** The state of pass 2 for one tailnet after some of its reports. */
  datatype Progress = Progress(kept: seq<string>, owner: map<string, string>, seen: set<string>, messages: set<string>)

  ghost predicate InProgress(g: Progress, id: string, reports: seq<Option<string>>, before: map<string, string>) {
    && g.kept == Kept(reports, before.Keys)
    && (forall d :: d in g.owner <==> d in before || d in g.kept)
    && (forall d :: d in g.owner ==> g.owner[d] == if d in before then before[d] else id)
    && (forall d :: d in g.seen <==> ReportedIn(reports, d))
    && MessagesOf(g.messages, id, reports, before)
  }

  /** What one more report does, by its case. */
  function Step(g: Progress, id: string, report: Option<string>): Progress {
    match report
    case None => g
    case Some(d) =>
      if d in g.seen then g
      else if d in g.owner then g.(seen := g.seen + {d}, messages := g.messages + {Message(d, id, g.owner[d])})
      else Progress(g.kept + [d], g.owner[d := id], g.seen + {d}, g.messages)
  }

  lemma StepKept(g: Progress, id: string, reports: seq<Option<string>>, i: nat, before: map<string, string>)
    requires i < |reports| && InProgress(g, id, reports[..i], before)
    ensures var r := Step(g, id, reports[i]);
      && r.kept == Kept(reports[..i + 1], before.Keys)
      && (forall d :: d in r.owner <==> d in before || d in r.kept)
      && (forall d :: d in r.owner ==> r.owner[d] == if d in before then before[d] else id)
  {
    assert reports[..i + 1][..i] == reports[..i];
    if reports[i].Some? {
      KeptExactly(reports[..i], before.Keys, reports[i].value);
    }
  }

  lemma StepSeen(g: Progress, id: string, reports: seq<Option<string>>, i: nat, before: map<string, string>)
    requires i < |reports| && InProgress(g, id, reports[..i], before)
    ensures var r := Step(g, id, reports[i]);
      && (forall d :: d in r.seen <==> ReportedIn(reports[..i + 1], d))
      && MessagesOf(r.messages, id, reports[..i + 1], before)
  {
    forall d
      ensures ReportedIn(reports[..i + 1], d) <==> ReportedIn(reports[..i], d) || reports[i] == Some(d)
    {
      ReportedStep(reports, i, d);
    }
    MessagesStep(g.messages, id, reports, i, before);
    if reports[i].Some? {
      var d := reports[i].value;
      KeptExactly(reports[..i], before.Keys, d);
      if d in g.seen {
        SeenAgain(g.messages, id, reports, i, before, d);
      }
    }
  }

  /** One report: seen stops a second report of the same name. */
  method ClaimOne(g: Progress, id: string, report: Option<string>) returns (r: Progress)
    ensures r == Step(g, id, report)
  {
    if report.None? {
      return g;
    }
    var d := report.value;
    if d in g.seen {
      return g;
    }
    r := g.(seen := g.seen + {d});
    if d in g.owner {
      return r.(messages := g.messages + {Message(d, id, g.owner[d])});
    }
    r := r.(owner := g.owner[d := id], kept := g.kept + [d]);
  }

  /** Pass 2 for one tailnet: the reports that it keeps, and a message for each report that
      somebody else holds. */
  method ClaimDomains(id: string, reports: seq<Option<string>>, owner: map<string, string>) returns (g: Progress)
    ensures InProgress(g, id, reports, owner)
  {
    g := Progress([], owner, {}, {});
    for i := 0 to |reports|
      invariant InProgress(g, id, reports[..i], owner)
    {
      StepKept(g, id, reports, i, owner);
      StepSeen(g, id, reports, i, owner);
      g := ClaimOne(g, id, reports[i]);
    }
    assert reports[..|reports|] == reports;
  }

  /** A second report of a name adds no name, so it adds no message. */
  lemma SeenAgain(messages: set<string>, id: string, reports: seq<Option<string>>, i: nat, owner: map<string, string>, d: string)
    requires i < |reports| && MessagesOf(messages, id, reports[..i], owner)
    requires reports[i] == Some(d) && ReportedIn(reports[..i], d)
    ensures MessagesOf(messages, id, reports[..i + 1], owner)
  {
    var few, more := reports[..i], reports[..i + 1];
    forall other
      ensures ReportedIn(more, other) <==> ReportedIn(few, other)
    {
      ReportedStep(reports, i, other);
    }
    MessagesSame(messages, id, few, more, owner);
  }

  lemma MessagesSame(messages: set<string>, id: string, few: seq<Option<string>>, more: seq<Option<string>>, owner: map<string, string>)
    requires MessagesOf(messages, id, few, owner)
    requires forall d :: ReportedIn(more, d) <==> ReportedIn(few, d)
    ensures MessagesOf(messages, id, more, owner)
  {
  }

  // ----- the whole sync

  predicate SomeReports(c: View, ids: seq<string>, d: string) {
    exists id :: id in ids && Reports(c, id, d)
  }

  lemma SomeReportsStep(c: View, ids: seq<string>, i: nat, d: string)
    requires i < |ids|
    ensures SomeReports(c, ids[..i + 1], d) <==> SomeReports(c, ids[..i], d) || Reports(c, ids[i], d)
  {
    assert ids[..i + 1] == ids[..i] + [ids[i]];
    assert forall id :: id in ids[..i + 1] <==> id in ids[..i] || id == ids[i];
  }

  /** Every owner name after pass 1 and after pass 2 for the listed tailnets. */
  ghost predicate OwnedSoFar(c: View, ids: seq<string>, owner: map<string, string>) {
    && (forall d :: d in owner <==> Reserved(c, d) || SomeReports(c, ids, d))
    && (forall d :: d in owner ==> owner[d] in c)
    && (forall d :: d in owner && !Reserved(c, d) ==> d in Survivors(c, owner[d]))
    && (forall d :: d in owner && Reserved(c, d) ==> HoldsFirst(c, owner[d], d))
  }

  /** A conflict: the tailnet reports a domain that a reserved name or a lesser tailnet holds,
      and owner is that holder. */
  ghost predicate IsConflict(c: View, owners: map<string, string>, m: string, id: string) {
    id in c && exists d :: Reports(c, id, d) && d !in Survivors(c, id) && d in owners && m == Message(d, id, owners[d])
  }

  ghost predicate ConflictsOf(c: View, owners: map<string, string>, messages: set<string>, id: string) {
    forall m :: m in messages <==> IsConflict(c, owners, m, id)
  }

  lemma {:induction false} KeptSame(reports: seq<Option<string>>, s: set<string>, t: set<string>)
    requires forall d :: ReportedIn(reports, d) ==> (d in s <==> d in t)
    ensures Kept(reports, s) == Kept(reports, t)
  {
    if reports != [] {
      var front, last := reports[..|reports| - 1], reports[|reports| - 1];
      assert last in reports;
      assert reports == front + [last];
      KeptSame(front, s, t);
      if last.Some? {
        assert ReportedIn(reports, last.value);
      }
    }
  }

  /** The tailnets before position i of the sorted listing are the lesser ones. */
  lemma EarlierIsLesser(ids: seq<string>, i: nat, other: string)
    requires StrictlySorted(ids) && i < |ids| && other in ids
    ensures other in ids[..i] <==> Before(other, ids[i])
  {
    var k :| 0 <= k < |ids| && ids[k] == other;
    BeforeTotal(other, ids[i]);
    if k < i {
      assert ids[..i][k] == other;
    }
  }

  lemma TakenIsOwned(c: View, ids: seq<string>, i: nat, owner: map<string, string>, d: string)
    requires StrictlySorted(ids) && i < |ids| && forall id :: id in ids <==> id in c
    requires OwnedSoFar(c, ids[..i], owner) && Reports(c, ids[i], d)
    ensures d in Taken(c, ids[i]) <==> d in owner
    ensures d in Taken(c, ids[i]) <==> IsTaken(c, ids[i], d)
  {
    forall other | other in c
      ensures other in ids[..i] <==> Before(other, ids[i])
    {
      EarlierIsLesser(ids, i, other);
    }
  }

  lemma OuterKeeps(c: View, ids: seq<string>, i: nat, owner: map<string, string>, g: Progress)
    requires StrictlySorted(ids) && i < |ids| && forall id :: id in ids <==> id in c
    requires OwnedSoFar(c, ids[..i], owner)
    requires InProgress(g, ids[i], c[ids[i]].reports, owner)
    ensures g.kept == Survivors(c, ids[i])
  {
    var id := ids[i];
    forall d | ReportedIn(c[id].reports, d)
      ensures d in owner <==> d in Taken(c, id)
    {
      TakenIsOwned(c, ids, i, owner, d);
    }
    KeptSame(c[id].reports, owner.Keys, Taken(c, id));
  }

  lemma OwnsMore(c: View, front: seq<string>, more: seq<string>, id: string, owner: map<string, string>, g: Progress)
    requires id in c && OwnedSoFar(c, front, owner) && g.kept == Survivors(c, id)
    requires forall d :: d in g.kept <==> Reports(c, id, d) && d !in owner
    requires forall d :: SomeReports(c, more, d) <==> SomeReports(c, front, d) || Reports(c, id, d)
    requires forall d :: d in g.owner <==> d in owner || d in g.kept
    requires forall d :: d in g.owner ==> g.owner[d] == if d in owner then owner[d] else id
    ensures OwnedSoFar(c, more, g.owner)
  {
  }

  lemma OuterOwns(c: View, ids: seq<string>, i: nat, owner: map<string, string>, g: Progress)
    requires StrictlySorted(ids) && i < |ids| && forall id :: id in ids <==> id in c
    requires OwnedSoFar(c, ids[..i], owner)
    requires InProgress(g, ids[i], c[ids[i]].reports, owner)
    ensures OwnedSoFar(c, ids[..i + 1], g.owner)
  {
    var id, front, more := ids[i], ids[..i], ids[..i + 1];
    OuterKeeps(c, ids, i, owner, g);
    forall d
      ensures d in g.kept <==> Reports(c, id, d) && d !in owner
      ensures SomeReports(c, more, d) <==> SomeReports(c, front, d) || Reports(c, id, d)
    {
      KeptExactly(c[id].reports, owner.Keys, d);
      SomeReportsStep(c, ids, i, d);
    }
    OwnsMore(c, front, more, id, owner, g);
  }

  /** The messages of one tailnet are its conflicts, under the owners after its own turn. */
  lemma OuterConflicts(c: View, ids: seq<string>, i: nat, owner: map<string, string>, g: Progress)
    requires StrictlySorted(ids) && i < |ids| && forall id :: id in ids <==> id in c
    requires OwnedSoFar(c, ids[..i], owner)
    requires InProgress(g, ids[i], c[ids[i]].reports, owner)
    ensures ConflictsOf(c, g.owner, g.messages, ids[i])
  {
    var id := ids[i];
    OuterKeeps(c, ids, i, owner, g);
    forall d | Reports(c, id, d)
      ensures d in owner <==> d !in Survivors(c, id)
      ensures d in g.owner && (d in owner ==> g.owner[d] == owner[d])
    {
      KeptExactly(c[id].reports, owner.Keys, d);
    }
  }

  /** A later owner changes no earlier conflict. */
  lemma ConflictsStay(c: View, owner: map<string, string>, owner': map<string, string>, messages: set<string>, id: string)
    requires ConflictsOf(c, owner, messages, id)
    requires forall d :: d in owner ==> d in owner' && owner'[d] == owner[d]
    requires forall d :: Reports(c, id, d) ==> d in owner
    ensures ConflictsOf(c, owner', messages, id)
  {
    forall m
      ensures IsConflict(c, owner, m, id) <==> IsConflict(c, owner', m, id)
    {
    }
  }

  ghost predicate AllConflicts(c: View, owner: map<string, string>, conflicts: map<string, set<string>>) {
    forall id :: id in conflicts ==> ConflictsOf(c, owner, conflicts[id], id)
  }

  lemma EarlierConflictsStay(c: View, ids: seq<string>, owner: map<string, string>, owner': map<string, string>, conflicts: map<string, set<string>>)
    requires OwnedSoFar(c, ids, owner) && conflicts.Keys == Elements(ids) && AllConflicts(c, owner, conflicts)
    requires forall d :: d in owner ==> d in owner' && owner'[d] == owner[d]
    ensures AllConflicts(c, owner', conflicts)
  {
    forall id | id in conflicts
      ensures ConflictsOf(c, owner', conflicts[id], id)
    {
      assert id in ids;
      ConflictsStay(c, owner, owner', conflicts[id], id);
    }
  }

  datatype Result = Result(surviving: map<string, seq<string>>, conflicts: map<string, set<string>>, owners: map<string, string>)

  ghost predicate HoldsSurvivors(c: View, surviving: map<string, seq<string>>) {
    forall id :: id in surviving ==> id in c && surviving[id] == Survivors(c, id)
  }

  /** The report of one tick is right for every active tailnet, and for no other. */
  ghost predicate RightReport(c: View, r: Result) {
    && r.surviving.Keys == c.Keys && r.conflicts.Keys == c.Keys
    && (forall id :: id in c ==> r.surviving[id] == Survivors(c, id))
    && (forall id :: id in c ==> ConflictsOf(c, r.owners, r.conflicts[id], id))
  }

  /** What the loop over the sorted tailnets keeps. */
  ghost predicate Settled(c: View, ids: seq<string>, r: Result) {
    && OwnedSoFar(c, ids, r.owners)
    && r.surviving.Keys == r.conflicts.Keys == Elements(ids)
    && HoldsSurvivors(c, r.surviving)
    && AllConflicts(c, r.owners, r.conflicts)
  }

  lemma SurvivorsMore(c: View, surviving: map<string, seq<string>>, id: string, kept: seq<string>)
    requires HoldsSurvivors(c, surviving) && id in c && kept == Survivors(c, id)
    ensures HoldsSurvivors(c, surviving[id := kept])
  {
  }

  lemma ConflictsMore(c: View, owner: map<string, string>, conflicts: map<string, set<string>>, id: string, messages: set<string>)
    requires AllConflicts(c, owner, conflicts) && ConflictsOf(c, owner, messages, id)
    ensures AllConflicts(c, owner, conflicts[id := messages])
  {
    var more := conflicts[id := messages];
    forall other | other in more
      ensures ConflictsOf(c, owner, more[other], other)
    {
      if other != id {
        assert more[other] == conflicts[other];
      }
    }
  }

  lemma SettledMore(c: View, front: seq<string>, id: string, r: Result, g: Progress)
    requires Settled(c, front, r) && id in c && g.kept == Survivors(c, id)
    requires OwnedSoFar(c, front + [id], g.owner) && ConflictsOf(c, g.owner, g.messages, id)
    requires forall d :: d in r.owners ==> d in g.owner && g.owner[d] == r.owners[d]
    ensures Settled(c, front + [id], Result(r.surviving[id := g.kept], r.conflicts[id := g.messages], g.owner))
  {
    EarlierConflictsStay(c, front, r.owners, g.owner, r.conflicts);
    SurvivorsMore(c, r.surviving, id, g.kept);
    ConflictsMore(c, g.owner, r.conflicts, id, g.messages);
    assert Elements(front + [id]) == Elements(front) + {id};
  }

  /** The turn of one tailnet. */
  lemma Turn(c: View, ids: seq<string>, i: nat, owner: map<string, string>, g: Progress)
    requires StrictlySorted(ids) && i < |ids| && forall id :: id in ids <==> id in c
    requires OwnedSoFar(c, ids[..i], owner) && InProgress(g, ids[i], c[ids[i]].reports, owner)
    ensures g.kept == Survivors(c, ids[i]) && ConflictsOf(c, g.owner, g.messages, ids[i])
    ensures OwnedSoFar(c, ids[..i] + [ids[i]], g.owner)
    ensures forall d :: d in owner ==> d in g.owner && g.owner[d] == owner[d]
  {
    OuterKeeps(c, ids, i, owner, g);
    OuterConflicts(c, ids, i, owner, g);
    OuterOwns(c, ids, i, owner, g);
    assert ids[..i + 1] == ids[..i] + [ids[i]];
  }

  lemma SettledTurn(c: View, ids: seq<string>, i: nat, r: Result, g: Progress)
    requires StrictlySorted(ids) && i < |ids| && forall id :: id in ids <==> id in c
    requires Settled(c, ids[..i], r) && InProgress(g, ids[i], c[ids[i]].reports, r.owners)
    ensures Settled(c, ids[..i] + [ids[i]], Result(r.surviving[ids[i] := g.kept], r.conflicts[ids[i] := g.messages], g.owner))
  {
    var front := ids[..i];
    Turn(c, ids, i, r.owners, g);
    SettledMore(c, front, ids[i], r, g);
  }

  lemma UpTo(ids: seq<string>, i: nat)
    requires i < |ids|
    ensures ids[..i + 1] == ids[..i] + [ids[i]]
  {
  }

  lemma SettledFirst(c: View, ids: seq<string>, owner: map<string, string>)
    requires StrictlySorted(ids) && ReservedBy(c, ids, owner) && forall id :: id in ids <==> id in c
    ensures Settled(c, [], Result(map[], map[], owner))
  {
    forall d | d in owner
      ensures HoldsFirst(c, owner[d], d)
    {
      FirstIsLeast(c, ids, owner[d], d);
    }
  }

  lemma SettledAtEnd(c: View, ids: seq<string>, r: Result)
    requires Settled(c, ids, r) && forall id :: id in ids <==> id in c
    ensures RightReport(c, r)
    ensures forall d :: d in r.owners <==> Reserved(c, d) || exists id :: Reports(c, id, d)
    ensures forall d :: d in r.owners && !Reserved(c, d) ==> r.owners[d] in c && d in Survivors(c, r.owners[d])
    ensures forall d :: d in r.owners && Reserved(c, d) ==> HoldsFirst(c, r.owners[d], d)
  {
    assert forall id :: id in c.Keys <==> id in Elements(ids);
  }

  /** Both passes over the active tailnets. Each tailnet keeps exactly its Survivors, and every
      report that does not survive has its message, which names the final owner. The loop of
      SortedKeys takes the ids in any order, so no map order reaches the result. */
  method Ownership(c: View) returns (r: Result)
    ensures RightReport(c, r)
    ensures forall d :: d in r.owners <==> Reserved(c, d) || exists id :: Reports(c, id, d)
    ensures forall d :: d in r.owners && !Reserved(c, d) ==> r.owners[d] in c && d in Survivors(c, r.owners[d])
    ensures forall d :: d in r.owners && Reserved(c, d) ==> HoldsFirst(c, r.owners[d], d)
  {
    var ids := SortedKeys(c.Keys);
    assert forall id :: id in ids <==> id in Elements(ids);
    var owner := ClaimReserved(c, ids);
    SettledFirst(c, ids, owner);
    assert ids[..0] == [];
    r := Result(map[], map[], owner);
    for i := 0 to |ids|
      invariant Settled(c, ids[..i], r)
    {
      var id := ids[i];
      var g := ClaimDomains(id, c[id].reports, r.owners);
      SettledTurn(c, ids, i, r, g);
      UpTo(ids, i);
      r := Result(r.surviving[id := g.kept], r.conflicts[id := g.messages], g.owner);
    }
    assert ids[..|ids|] == ids;
    SettledAtEnd(c, ids, r);
  }

  /** One conflict event. */
  datatype Event = Event(id: string, message: string)

  ghost predicate SomeConflict(c: View, owners: map<string, string>, m: string) {
    exists id :: IsConflict(c, owners, m, id)
  }

  /** The messages of the current tick. */
  ghost predicate CurrentMessages(c: View, r: Result, current: set<string>) {
    forall m :: m in current <==> SomeConflict(c, r.owners, m)
  }

  /** The events of one tick, in the order of their messages: one for each novel message, each
      with a tailnet that lost. */
  ghost predicate EventsFor(c: View, r: Result, events: seq<Event>, novel: set<string>) {
    && (forall m :: m in novel <==> exists e :: e in events && e.message == m)
    && (forall e :: e in events ==> IsConflict(c, r.owners, e.message, e.id))
    && (forall i, j :: 0 <= i < j < |events| ==> Before(events[i].message, events[j].message))
  }

  method Current(c: View, r: Result) returns (current: set<string>)
    requires RightReport(c, r)
    ensures CurrentMessages(c, r, current)
  {
    current := {};
    var todo := c.Keys;
    while todo != {}
      invariant todo <= c.Keys
      invariant forall m :: m in current <==> exists id :: id in c && id !in todo && IsConflict(c, r.owners, m, id)
      decreases todo
    {
      var id :| id in todo;
      assert ConflictsOf(c, r.owners, r.conflicts[id], id);
      current := current + r.conflicts[id];
      todo := todo - {id};
    }
  }

  /** The loop over the sorted new conflicts. */
  method EventList(c: View, r: Result, current: set<string>, novel: seq<string>) returns (late: seq<Event>)
    requires RightReport(c, r) && CurrentMessages(c, r, current)
    requires StrictlySorted(novel) && Elements(novel) <= current
    ensures EventsFor(c, r, late, Elements(novel))
  {
    forall k | 0 <= k < |novel|
      ensures SomeConflict(c, r.owners, novel[k])
    {
      assert novel[k] in Elements(novel);
    }
    var ids := Losers(c, r, novel);
    late := seq(|novel|, i requires 0 <= i < |novel| && |ids| == |novel| => Event(ids[i], novel[i]));
    NovelMessages(late, novel);
  }

  method Losers(c: View, r: Result, novel: seq<string>) returns (ids: seq<string>)
    requires RightReport(c, r)
    requires forall k :: 0 <= k < |novel| ==> SomeConflict(c, r.owners, novel[k])
    ensures |ids| == |novel| && LostBy(c, r, novel, ids)
  {
    ids := [];
    for i := 0 to |novel|
      invariant |ids| == i && LostBy(c, r, novel, ids)
    {
      var id := Loser(c, r, novel[i]);
      LostMore(c, r, novel, ids, id);
      ids := ids + [id];
    }
  }

  ghost predicate LostBy(c: View, r: Result, messages: seq<string>, ids: seq<string>) {
    |ids| <= |messages| && forall k :: 0 <= k < |ids| ==> IsConflict(c, r.owners, messages[k], ids[k])
  }

  lemma LostMore(c: View, r: Result, messages: seq<string>, ids: seq<string>, id: string)
    requires LostBy(c, r, messages, ids) && |ids| < |messages| && IsConflict(c, r.owners, messages[|ids|], id)
    ensures LostBy(c, r, messages, ids + [id])
  {
    var more := ids + [id];
    forall k | 0 <= k < |more|
      ensures IsConflict(c, r.owners, messages[k], more[k])
    {
      if k < |ids| {
        assert more[k] == ids[k];
      }
    }
  }

  /** The losing tailnet that a message is keyed with. */
  method Loser(c: View, r: Result, m: string) returns (id: string)
    requires RightReport(c, r) && SomeConflict(c, r.owners, m)
    ensures IsConflict(c, r.owners, m, id)
  {
    LoserExists(c, r, m);
    id :| id in c && m in r.conflicts[id];
    assert ConflictsOf(c, r.owners, r.conflicts[id], id);
  }

  lemma LoserExists(c: View, r: Result, m: string)
    requires RightReport(c, r) && SomeConflict(c, r.owners, m)
    ensures exists id :: id in c && m in r.conflicts[id]
  {
    var id :| IsConflict(c, r.owners, m, id);
    assert ConflictsOf(c, r.owners, r.conflicts[id], id);
  }

  lemma NovelMessages(late: seq<Event>, novel: seq<string>)
    requires |late| == |novel| && forall i :: 0 <= i < |novel| ==> late[i].message == novel[i]
    ensures forall m :: m in Elements(novel) <==> exists e :: e in late && e.message == m
  {
    forall m | m in novel
      ensures exists e :: e in late && e.message == m
    {
      var i :| 0 <= i < |novel| && novel[i] == m;
      assert late[i] in late;
    }
  }
}
