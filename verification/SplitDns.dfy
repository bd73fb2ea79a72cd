/** The split DNS ownership passes of internal/hostaccess/hostaccess.go. */
module SplitDns {
  import opened Text
  import O = DomainClaims

  // ----- names

  predicate IsSpace(c: char) {
    c in ['\t', '\n', '\U{0B}', '\U{0C}', '\r', ' ', '\U{85}', '\U{A0}']
  }

  function TrimLeft(s: string): string {
    if s != [] && IsSpace(s[0]) then TrimLeft(s[1..]) else s
  }

  function TrimRight(s: string): string {
    if s != [] && IsSpace(s[|s| - 1]) then TrimRight(s[..|s| - 1]) else s
  }

  function LowerChar(c: char): char {
    if 'A' <= c <= 'Z' then (c as int - 'A' as int + 'a' as int) as char else c
  }

  /** strings.ToLower on ASCII text. */
  function Lower(s: string): string {
    seq(|s|, i requires 0 <= i < |s| => LowerChar(s[i]))
  }

  /** strings.TrimSuffix(s, "."): one dot at most. */
  function TrimDot(s: string): string {
    if s != [] && s[|s| - 1] == '.' then s[..|s| - 1] else s
  }

  function DotIndex(s: string): (i: nat)
    ensures i <= |s| && (i < |s| ==> s[i] == '.')
    ensures forall k :: 0 <= k < i ==> s[k] != '.'
  {
    if s == [] || s[0] == '.' then 0 else 1 + DotIndex(s[1..])
  }

  predicate ValidLabel(l: string) {
    1 <= |l| <= 63 &&
    forall i :: 0 <= i < |l| ==>
      'a' <= l[i] <= 'z' || 'A' <= l[i] <= 'Z' || '0' <= l[i] <= '9' || (l[i] == '-' && i != 0 && i != |l| - 1)
  }

  /** Every label between the dots is valid. */
  predicate ValidLabels(s: string) {
    var i := DotIndex(s);
    ValidLabel(s[..i]) && (i < |s| ==> ValidLabels(s[i + 1..]))
  }

  /** validDNSName. A trailing dot is permitted. */
  predicate ValidDNSName(d: string) {
    var s := TrimDot(d);
    s != "" && |s| <= 253 && ValidLabels(s)
  }

  /** normalizeSplitDomain. */
  function Normalize(raw: string): Option<string> {
    var domain := Lower(TrimDot(TrimRight(TrimLeft(raw))));
    if ValidDNSName(domain) then Some(domain) else None
  }

  predicate HasSuffix(s: string, suffix: string) {
    |suffix| <= |s| && s[|s| - |suffix|..] == suffix
  }

  /** The reserved base zone of MagicDNS, as the code compares it. */
  predicate InBaseZone(domain: string) {
    domain == "ts.net" || HasSuffix(domain, ".ts.net")
  }

  function ZoneName(alias: string): string {
    Lower(alias) + ".ts.internal"
  }

  // ----- the claims

  /** The fields of TailnetPeers that decide ownership. */
  datatype Peers = Peers(suffix: string, hostAddress: string, domains: seq<string>)

  datatype Config = Config(active: map<string, Peers>, aliases: map<string, string>, resolveAliases: bool)

  function SuffixClaim(c: Config, id: string): Option<string>
    requires id in c.active
  {
    if c.active[id].suffix != "" then Normalize(c.active[id].suffix) else None
  }

  function ZoneClaim(c: Config, id: string): Option<string>
    requires id in c.active
  {
    if c.resolveAliases && id in c.aliases && c.aliases[id] != "" && c.active[id].hostAddress != ""
    then Some(ZoneName(c.aliases[id])) else None
  }

  /** The domain that one reported value names, when the value is a usable claim. */
  function ReportOf(raw: string): Option<string> {
    match Normalize(raw)
    case None => None
    case Some(d) => if InBaseZone(d) then None else Some(d)
  }

  /** The claims of the active tailnets, with every name in normal form. */
  function ViewOf(c: Config): (v: O.View)
    ensures v.Keys == c.active.Keys
    ensures forall id :: id in v ==> v[id].suffix == SuffixClaim(c, id) && v[id].zone == ZoneClaim(c, id)
    ensures forall id :: id in v ==> |v[id].reports| == |c.active[id].domains|
    ensures forall id, i :: id in v && 0 <= i < |v[id].reports| ==> v[id].reports[i] == ReportOf(c.active[id].domains[i])
  {
    map id | id in c.active :: O.Holdings(SuffixClaim(c, id), ZoneClaim(c, id), ReportsOf(c.active[id].domains))
  }

  function ReportsOf(domains: seq<string>): (r: seq<Option<string>>) {
    seq(|domains|, i requires 0 <= i < |domains| => ReportOf(domains[i]))
  }

  // ----- the trailing dot

  /** The name as a DNS name: a trailing dot says nothing. */
  predicate NamesBaseZone(domain: string) {
    InBaseZone(TrimDot(domain))
  }

  lemma LowerKeepsDots(s: string)
    ensures |Lower(s)| == |s| && forall i :: 0 <= i < |s| ==> (Lower(s)[i] == '.' <==> s[i] == '.')
  {
  }

  lemma EndsInTwoDots(s: string)
    ensures HasSuffix(s, "..") <==> |s| >= 2 && s[|s| - 1] == '.' && s[|s| - 2] == '.'
  {
    if |s| >= 2 {
      assert s[|s| - 2..] == [s[|s| - 2], s[|s| - 1]];
    }
  }

  /** The exception is real: a report of ts.net with two dots survives as the name ts.net. */
  lemma TwoDotsEscapeTheBaseZone()
    ensures var c := Config(map["a" := Peers("", "", ["ts.net.."])], map[], false);
      "ts.net." in O.Survivors(ViewOf(c), "a") && NamesBaseZone("ts.net.")
  {
    var raw := "ts.net..";
    assert TrimLeft(raw) == raw && TrimRight(raw) == raw;
    assert TrimDot(raw) == "ts.net.";
    assert Lower("ts.net.") == "ts.net.";
    assert TrimDot("ts.net.") == "ts.net";
    TsNetLabels();
    BaseZoneEndsInT("ts.net.");
    assert ReportOf(raw) == Some("ts.net.");
    var c := Config(map["a" := Peers("", "", [raw])], map[], false);
    var v := ViewOf(c);
    assert v["a"].reports[0] == Some("ts.net.");
    assert v["a"].suffix.None? && v["a"].zone.None?;
    O.SurvivesExactly(v, "a", "ts.net.");
  }

  lemma BaseZoneEndsInT(d: string)
    ensures InBaseZone(d) ==> d != [] && d[|d| - 1] == 't'
  {
    if HasSuffix(d, ".ts.net") {
      assert d[|d| - 1] == d[|d| - 7..][6];
    }
  }

  lemma TsNetLabels()
    ensures ValidLabels("ts.net")
  {
    var s := "ts.net";
    assert DotIndex(s) == 2;
    assert s[..2] == "ts" && s[3..] == "net";
    assert DotIndex("net") == 3;
    assert "net"[..3] == "net";
  }

  /** The fields of Manager that syncDNS keeps across ticks. */
  class Manager {
    var config: Config
    var report: O.Result
    var reportedConflicts: set<string>
    var events: seq<O.Event>

    constructor (config: Config)
      ensures this.config == config && reportedConflicts == {} && events == []
    {
      this.config, report, reportedConflicts, events := config, O.Result(map[], map[], map[]), {}, [];
    }

    /** The ownership part of syncDNS: the report is right for every active tailnet, and an
        event goes out for exactly the messages that the previous tick did not hold. */
    method SyncSplit()
      modifies `report, `reportedConflicts, `events
      ensures O.RightReport(ViewOf(config), report)
      ensures O.CurrentMessages(ViewOf(config), report, reportedConflicts)
      ensures old(events) <= events
      ensures O.EventsFor(ViewOf(config), report, events[|old(events)|..], reportedConflicts - old(reportedConflicts))
    {
      var v := ViewOf(config);
      report := O.Ownership(v);
      var current := O.Current(v, report);
      var novel := SortedKeys(current - reportedConflicts);
      var late := O.EventList(v, report, current, novel);
      events := events + late;
      assert events[|old(events)|..] == late;
      reportedConflicts := current;
    }
  }
}
