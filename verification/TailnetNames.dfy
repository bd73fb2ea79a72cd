/** Tailnet ids, aliases and the alias zones that they name (internal/config/config.go,
    internal/dns/alias.go). */
module TailnetNames {
  import opened Text
  import S = SplitDns

  datatype Tailnet = Tailnet(id: string, alias: string)

  // ----- the patterns

  predicate AlphaNumeric(c: char) {
    'a' <= c <= 'z' || 'A' <= c <= 'Z' || '0' <= c <= '9'
  }

  predicate NamePattern(s: string, extra: string) {
    && 1 <= |s| <= 63 && AlphaNumeric(s[0])
    && forall i :: 0 <= i < |s| ==> AlphaNumeric(s[i]) || s[i] in extra
  }

  /** validIDPattern. */
  predicate IdPattern(s: string) {
    NamePattern(s, "._-")
  }

  /** validAliasPattern. */
  predicate AliasPattern(s: string) {
    NamePattern(s, "_-")
  }

  /** validDNSLabelPattern. */
  predicate LabelPattern(s: string) {
    NamePattern(s, "-") && AlphaNumeric(s[|s| - 1])
  }

  /** strings.EqualFold on the characters of the patterns. */
  predicate EqualFold(a: string, b: string) {
    S.Lower(a) == S.Lower(b)
  }

  /** The key under which two aliases collide. */
  function AliasKey(alias: string, resolve: bool): string {
    if resolve then S.Lower(alias) else alias
  }

  // ----- the validator

  datatype Error = BadId | DuplicateId | BadAlias | AliasIsId | AliasFoldsToId | NotALabel | DuplicateAlias

  predicate GoodIds(ts: seq<Tailnet>) {
    && (forall i :: 0 <= i < |ts| ==> IdPattern(ts[i].id))
    && (forall i, j :: 0 <= i < j < |ts| ==> ts[i].id != ts[j].id)
  }

  /** The alias alone is good, against every id. */
  predicate GoodAlias(t: Tailnet, ids: set<string>, resolve: bool) {
    t.alias == "" ||
    (AliasPattern(t.alias) && t.alias !in ids
     && (resolve ==> LabelPattern(t.alias) && forall id :: id in ids ==> !EqualFold(id, t.alias)))
  }

  predicate AliasesDiffer(ts: seq<Tailnet>, resolve: bool) {
    forall i, j :: 0 <= i < j < |ts| && ts[i].alias != "" && ts[j].alias != "" ==> AliasKey(ts[i].alias, resolve) != AliasKey(ts[j].alias, resolve)
  }

  predicate GoodAliases(ts: seq<Tailnet>, ids: set<string>, resolve: bool) {
    (forall i :: 0 <= i < |ts| ==> GoodAlias(ts[i], ids, resolve)) && AliasesDiffer(ts, resolve)
  }

  function Ids(ts: seq<Tailnet>): set<string> {
    set t | t in ts :: t.id
  }

  /** What the two comments of ValidateTailnetNames demand of the whole list. */
  predicate ValidNames(ts: seq<Tailnet>, resolve: bool) {
    GoodIds(ts) && GoodAliases(ts, Ids(ts), resolve)
  }

  /** Id i is the first bad one: its form is bad, or an earlier tailnet has it. */
  predicate FirstBadId(ts: seq<Tailnet>, i: nat, form: bool)
    requires i < |ts|
  {
    && (if form then !IdPattern(ts[i].id) else IdPattern(ts[i].id) && exists k :: 0 <= k < i && ts[k].id == ts[i].id)
    && GoodIds(ts[..i])
  }

  /** The first loop. */
  method ValidateIds(ts: seq<Tailnet>) returns (error: Option<Error>, ids: set<string>)
    ensures error.None? <==> GoodIds(ts)
    ensures error == Some(BadId) ==> exists i :: 0 <= i < |ts| && FirstBadId(ts, i, true)
    ensures error == Some(DuplicateId) ==> exists i :: 0 <= i < |ts| && FirstBadId(ts, i, false)
    ensures error.None? ==> ids == Ids(ts)
    ensures error.Some? ==> error.value in {BadId, DuplicateId}
  {
    ids := {};
    for i := 0 to |ts|
      invariant GoodIds(ts[..i]) && ids == Ids(ts[..i])
    {
      assert ts[..i + 1] == ts[..i] + [ts[i]];
      if !IdPattern(ts[i].id) {
        assert FirstBadId(ts, i, true);
        return Some(BadId), ids;
      }
      if ts[i].id in ids {
        var t :| t in ts[..i] && t.id == ts[i].id;
        assert FirstBadId(ts, i, false);
        return Some(DuplicateId), ids;
      }
      ids := ids + {ts[i].id};
    }
    assert ts[..|ts|] == ts;
    error := None;
  }

  /** The loop over the ids, when resolve_aliases folds case. */
  method FoldsToSome(ids: set<string>, alias: string) returns (found: bool)
    ensures found <==> exists id :: id in ids && EqualFold(id, alias)
  {
    found := false;
    var todo := ids;
    while todo != {}
      invariant todo <= ids
      invariant found <==> exists id :: id in ids && id !in todo && EqualFold(id, alias)
      decreases todo
    {
      var id :| id in todo;
      todo := todo - {id};
      found := found || EqualFold(id, alias);
    }
  }

  predicate FoldsTo(ids: set<string>, alias: string) {
    exists id :: id in ids && S.Lower(id) == S.Lower(alias)
  }

  /** The body of the second loop for one alias that is not empty. */
  method ValidateAlias(t: Tailnet, ids: set<string>, resolve: bool) returns (error: Option<Error>)
    requires t.alias != ""
    ensures error.None? <==> GoodAlias(t, ids, resolve)
    ensures error.Some? ==> error.value in {BadAlias, AliasIsId, AliasFoldsToId, NotALabel}
    ensures error == Some(BadAlias) <==> !AliasPattern(t.alias)
    ensures error == Some(AliasIsId) <==> AliasPattern(t.alias) && t.alias in ids
    ensures error == Some(AliasFoldsToId) <==> AliasPattern(t.alias) && t.alias !in ids && resolve && FoldsTo(ids, t.alias)
    ensures error == Some(NotALabel) <==>
      AliasPattern(t.alias) && t.alias !in ids && resolve && !FoldsTo(ids, t.alias) && !LabelPattern(t.alias)
  {
    if !AliasPattern(t.alias) {
      return Some(BadAlias);
    }
    if t.alias in ids {
      return Some(AliasIsId);
    }
    if resolve {
      var folds := FoldsToSome(ids, t.alias);
      if folds {
        return Some(AliasFoldsToId);
      }
      if !LabelPattern(t.alias) {
        return Some(NotALabel);
      }
    }
    error := None;
  }

  ghost predicate KeysSoFar(ts: seq<Tailnet>, aliases: set<string>, resolve: bool) {
    forall key :: key in aliases <==> exists i :: 0 <= i < |ts| && ts[i].alias != "" && AliasKey(ts[i].alias, resolve) == key
  }

  lemma KeysNext(ts: seq<Tailnet>, aliases: set<string>, resolve: bool, t: Tailnet)
    requires KeysSoFar(ts, aliases, resolve)
    ensures KeysSoFar(ts + [t], if t.alias == "" then aliases else aliases + {AliasKey(t.alias, resolve)}, resolve)
  {
    var more := ts + [t];
    var after := if t.alias == "" then aliases else aliases + {AliasKey(t.alias, resolve)};
    forall key
      ensures key in after <==> exists i :: 0 <= i < |more| && more[i].alias != "" && AliasKey(more[i].alias, resolve) == key
    {
      if key in aliases {
        var i :| 0 <= i < |ts| && ts[i].alias != "" && AliasKey(ts[i].alias, resolve) == key;
        assert more[i] == ts[i];
      } else if key in after {
        assert more[|ts|] == t;
      }
    }
  }

  lemma AliasNext(ts: seq<Tailnet>, aliases: set<string>, ids: set<string>, resolve: bool, t: Tailnet)
    requires KeysSoFar(ts, aliases, resolve) && GoodAliases(ts, ids, resolve)
    ensures GoodAliases(ts + [t], ids, resolve) <==>
      GoodAlias(t, ids, resolve) && (t.alias == "" || AliasKey(t.alias, resolve) !in aliases)
  {
    var more := ts + [t];
    assert more[|ts|] == t && forall i :: 0 <= i < |ts| ==> more[i] == ts[i];
    if t.alias != "" && AliasKey(t.alias, resolve) in aliases {
      var i :| 0 <= i < |ts| && ts[i].alias != "" && AliasKey(ts[i].alias, resolve) == AliasKey(t.alias, resolve);
      assert more[i].alias != "" && more[|ts|].alias != "";
    }
  }

  lemma PrefixOfGood(ts: seq<Tailnet>, i: nat, ids: set<string>, resolve: bool)
    requires i <= |ts| && GoodAliases(ts, ids, resolve)
    ensures GoodAliases(ts[..i], ids, resolve)
  {
  }

  /** What a configuration demands of its names: good and different ids, no alias that is an id, and
      no alias twice. With resolve_aliases each alias is a DNS label, and the case of the letters
      makes no name different. */
  ghost predicate NamesAreGood(ts: seq<Tailnet>, resolve: bool) {
    && (forall i :: 0 <= i < |ts| ==> IdPattern(ts[i].id))
    && (forall i, j :: 0 <= i < j < |ts| ==> ts[i].id != ts[j].id)
    && (forall i :: 0 <= i < |ts| ==> ts[i].alias == "" || NoIdTakes(ts, ts[i].alias, resolve))
    && (forall i, j :: 0 <= i < j < |ts| ==> ts[i].alias == "" || ts[j].alias == "" || NoAliasTwice(ts[i].alias, ts[j].alias, resolve))
  }

  ghost predicate NoIdTakes(ts: seq<Tailnet>, alias: string, resolve: bool) {
    && AliasPattern(alias) && (resolve ==> LabelPattern(alias))
    && forall j :: 0 <= j < |ts| ==> ts[j].id != alias && (resolve ==> S.Lower(ts[j].id) != S.Lower(alias))
  }

  ghost predicate NoAliasTwice(one: string, other: string, resolve: bool) {
    one != other && (resolve ==> S.Lower(one) != S.Lower(other))
  }

  lemma AliasesInIds(ts: seq<Tailnet>, t: Tailnet, resolve: bool)
    requires t.alias != ""
    ensures GoodAlias(t, Ids(ts), resolve) <==> NoIdTakes(ts, t.alias, resolve)
  {
    if GoodAlias(t, Ids(ts), resolve) {
      forall j | 0 <= j < |ts|
        ensures ts[j].id != t.alias && (resolve ==> S.Lower(ts[j].id) != S.Lower(t.alias))
      {
        assert ts[j] in ts && ts[j].id in Ids(ts);
        assert resolve ==> !EqualFold(ts[j].id, t.alias);
      }
    }
    if NoIdTakes(ts, t.alias, resolve) {
      forall id | id in Ids(ts)
        ensures id != t.alias && (resolve ==> !EqualFold(id, t.alias))
      {
        var j :| 0 <= j < |ts| && ts[j].id == id;
      }
    }
  }

  lemma KeysDiffer(one: string, other: string, resolve: bool)
    ensures AliasKey(one, resolve) != AliasKey(other, resolve) <==> NoAliasTwice(one, other, resolve)
  {
  }

  lemma ValidNamesAreGood(ts: seq<Tailnet>, resolve: bool)
    ensures ValidNames(ts, resolve) <==> NamesAreGood(ts, resolve)
  {
    forall i | 0 <= i < |ts|
      ensures GoodAlias(ts[i], Ids(ts), resolve) <==> ts[i].alias == "" || NoIdTakes(ts, ts[i].alias, resolve)
    {
      if ts[i].alias != "" {
        AliasesInIds(ts, ts[i], resolve);
      }
    }
    AliasesDifferExactly(ts, resolve);
  }

  lemma AliasesDifferExactly(ts: seq<Tailnet>, resolve: bool)
    ensures AliasesDiffer(ts, resolve) <==>
      forall i, j :: 0 <= i < j < |ts| ==> ts[i].alias == "" || ts[j].alias == "" || NoAliasTwice(ts[i].alias, ts[j].alias, resolve)
  {
    forall i, j | 0 <= i < j < |ts|
      ensures AliasKey(ts[i].alias, resolve) != AliasKey(ts[j].alias, resolve) <==> NoAliasTwice(ts[i].alias, ts[j].alias, resolve)
    {
      KeysDiffer(ts[i].alias, ts[j].alias, resolve);
    }
  }

  /** ValidateTailnetNames: it passes exactly when the ids are good and different, no alias is
      an id, and no two aliases collide; with resolve_aliases, in any case of the letters. */
  method ValidateTailnetNames(ts: seq<Tailnet>, resolve: bool) returns (error: Option<Error>)
    ensures error.None? <==> ValidNames(ts, resolve)
    ensures error.None? <==> NamesAreGood(ts, resolve)
    ensures error.Some? && error.value in {BadId, DuplicateId} <==> !GoodIds(ts)
  {
    ValidNamesAreGood(ts, resolve);
    var failed, ids := ValidateIds(ts);
    if failed.Some? {
      return failed;
    }
    var aliases: set<string> := {};
    for i := 0 to |ts|
      invariant GoodAliases(ts[..i], ids, resolve) && KeysSoFar(ts[..i], aliases, resolve)
    {
      var t := ts[i];
      assert ts[..i + 1] == ts[..i] + [t];
      AliasNext(ts[..i], aliases, ids, resolve, t);
      KeysNext(ts[..i], aliases, resolve, t);
      if GoodAliases(ts, ids, resolve) {
        PrefixOfGood(ts, i + 1, ids, resolve);
      }
      if t.alias != "" {
        var bad := ValidateAlias(t, ids, resolve);
        if bad.Some? {
          return bad;
        }
        var key := AliasKey(t.alias, resolve);
        if key in aliases {
          return Some(DuplicateAlias);
        }
        aliases := aliases + {key};
      }
    }
    assert ts[..|ts|] == ts;
    error := None;
  }

  // ----- a reference names one tailnet

  predicate NamedBy(t: Tailnet, ref: string) {
    t.id == ref || (t.alias != "" && t.alias == ref)
  }

  /** A valid configuration gives no two tailnets one name. */
  lemma RefNamesAtMostOne(ts: seq<Tailnet>, resolve: bool, ref: string, i: nat, j: nat)
    requires ValidNames(ts, resolve) && i < |ts| && j < |ts|
    requires NamedBy(ts[i], ref) && NamedBy(ts[j], ref)
    ensures i == j
  {
    assert ts[i] in ts && ts[j] in ts;
    assert ts[i].id in Ids(ts) && ts[j].id in Ids(ts);
  }

  /** ResolveTailnetRef. */
  method ResolveTailnetRef(ts: seq<Tailnet>, ref: string) returns (r: Option<string>)
    ensures r.None? <==> forall i :: 0 <= i < |ts| ==> !NamedBy(ts[i], ref)
    ensures r.Some? ==> exists i :: 0 <= i < |ts| && NamedBy(ts[i], ref) && r.value == ts[i].id
    ensures (exists i :: 0 <= i < |ts| && ts[i].id == ref) ==> r == Some(ref)
  {
    for i := 0 to |ts|
      invariant forall k :: 0 <= k < i ==> ts[k].id != ref
    {
      if ts[i].id == ref {
        return Some(ts[i].id);
      }
    }
    for i := 0 to |ts|
      invariant forall k :: 0 <= k < i ==> !NamedBy(ts[k], ref)
    {
      if ts[i].alias != "" && ts[i].alias == ref {
        return Some(ts[i].id);
      }
    }
    r := None;
  }

  // ----- a query matches one zone

  const ZONE_SUFFIX := ".ts.internal"

  /** The zone holds the name: the name is the zone, or it ends in a dot and the zone. */
  predicate InZone(name: string, zone: string) {
    name == zone || S.HasSuffix(name, "." + zone)
  }

  /** The host name that the zone gives the name. */
  function HostIn(name: string, zone: string): string
    requires InZone(name, zone)
  {
    if name == zone then "" else name[..|name| - |zone| - 1]
  }

  lemma SplitAtZone(name: string, zone: string)
    requires S.HasSuffix(name, "." + zone)
    ensures name == name[..|name| - |zone| - 1] + "." + zone
  {
    assert name == name[..|name| - |"." + zone|] + ("." + zone);
  }

  /** matchAliasZone, over the zones in any order. */
  method MatchAliasZone<Z(==)>(zones: map<string, Z>, qname: string) returns (r: Option<(string, string)>)
    ensures var name := S.Lower(S.TrimDot(qname));
      && (r.None? <==> forall zone :: zone in zones ==> !InZone(name, zone))
      && (r.Some? ==> r.value.0 in zones && InZone(name, r.value.0) && r.value.1 == HostIn(name, r.value.0))
      && (r.Some? ==> if name == r.value.0 then r.value.1 == "" else name == r.value.1 + "." + r.value.0)
  {
    var name := S.Lower(S.TrimDot(qname));
    var todo := zones.Keys;
    while todo != {}
      invariant todo <= zones.Keys
      invariant forall zone :: zone in zones && zone !in todo ==> !InZone(name, zone)
      decreases todo
    {
      var zone :| zone in todo;
      todo := todo - {zone};
      if name == zone {
        return Some((zone, ""));
      }
      if S.HasSuffix(name, "." + zone) {
        SplitAtZone(name, zone);
        return Some((zone, name[..|name| - |zone| - 1]));
      }
    }
    r := None;
  }

  predicate NoDot(s: string) {
    forall i :: 0 <= i < |s| ==> s[i] != '.'
  }

  /** The text behind the last dot. */
  function LastLabel(s: string): string {
    if s == [] || s[|s| - 1] == '.' then "" else LastLabel(s[..|s| - 1]) + [s[|s| - 1]]
  }

  lemma {:induction false} LabelBehind(p: string, a: string)
    requires NoDot(a) && (p == "" || p[|p| - 1] == '.')
    ensures LastLabel(p + a) == a
    decreases |a|
  {
    var s := p + a;
    if a == "" {
      assert s == p;
    } else {
      assert s[..|s| - 1] == p + a[..|a| - 1] && s[|s| - 1] == a[|a| - 1];
      LabelBehind(p, a[..|a| - 1]);
    }
  }

  lemma LabelBehindDot(s: string, a: string)
    requires NoDot(a) && (s == a || S.HasSuffix(s, "." + a))
    ensures LastLabel(s) == a
  {
    if s == a {
      LabelBehind("", a);
      assert "" + a == a;
    } else {
      var p := s[..|s| - |a|];
      assert s[|s| - (1 + |a|)..] == "." + a;
      assert p[|p| - 1] == ("." + a)[0];
      assert s == p + a;
      LabelBehind(p, a);
    }
  }

  lemma ZoneOfLabel(name: string, text: string)
    requires InZone(name, text + ZONE_SUFFIX)
    ensures |ZONE_SUFFIX| <= |name|
    ensures var s := name[..|name| - |ZONE_SUFFIX|]; s == text || S.HasSuffix(s, "." + text)
  {
    var zone := text + ZONE_SUFFIX;
    var s := name[..|name| - |ZONE_SUFFIX|];
    if name != zone {
      var tail := "." + zone;
      assert name[|name| - |tail|..] == tail;
      assert s[|s| - |"." + text|..] == name[|name| - |tail|..][..|"." + text|];
      assert tail[..|"." + text|] == "." + text;
    } else {
      assert s == text;
    }
  }

  /** Two zones of labels that hold one name are one zone. */
  lemma OneZone(name: string, a: string, b: string)
    requires NoDot(a) && NoDot(b)
    requires InZone(name, a + ZONE_SUFFIX) && InZone(name, b + ZONE_SUFFIX)
    ensures a == b
  {
    ZoneOfLabel(name, a);
    ZoneOfLabel(name, b);
    LabelBehindDot(name[..|name| - |ZONE_SUFFIX|], a);
    LabelBehindDot(name[..|name| - |ZONE_SUFFIX|], b);
  }

  lemma LabelHasNoDot(alias: string)
    requires LabelPattern(alias)
    ensures NoDot(S.Lower(alias))
  {
    forall i | 0 <= i < |alias|
      ensures S.Lower(alias)[i] != '.'
    {
      assert AlphaNumeric(alias[i]) || alias[i] in "-";
      assert alias[i] != '.';
    }
  }

  /** The zones of a valid configuration: at most one holds a query name, so the map order
      never shows, and it belongs to one tailnet. */
  lemma QueryMatchesAtMostOneZone(ts: seq<Tailnet>, name: string, i: nat, j: nat)
    requires ValidNames(ts, true) && i < |ts| && j < |ts| && ts[i].alias != "" && ts[j].alias != ""
    requires InZone(name, S.ZoneName(ts[i].alias)) && InZone(name, S.ZoneName(ts[j].alias))
    ensures i == j
  {
    assert GoodAlias(ts[i], Ids(ts), true) && GoodAlias(ts[j], Ids(ts), true);
    LabelHasNoDot(ts[i].alias);
    LabelHasNoDot(ts[j].alias);
    OneZone(name, S.Lower(ts[i].alias), S.Lower(ts[j].alias));
  }

  /** Under a valid configuration every enumeration of the zones gives the same answer. */
  lemma MatchIsAFunction<Z>(ts: seq<Tailnet>, zones: map<string, Z>, name: string, one: (string, string), other: (string, string))
    requires ValidNames(ts, true)
    requires forall zone :: zone in zones ==> exists i :: 0 <= i < |ts| && ts[i].alias != "" && zone == S.ZoneName(ts[i].alias)
    requires one.0 in zones && InZone(name, one.0) && one.1 == HostIn(name, one.0)
    requires other.0 in zones && InZone(name, other.0) && other.1 == HostIn(name, other.0)
    ensures one == other
  {
    var i :| 0 <= i < |ts| && ts[i].alias != "" && one.0 == S.ZoneName(ts[i].alias);
    var j :| 0 <= j < |ts| && ts[j].alias != "" && other.0 == S.ZoneName(ts[j].alias);
    QueryMatchesAtMostOneZone(ts, name, i, j);
  }

  // ----- the name of a peer below its zone

  /** aliasNameOf. */
  function AliasNameOf(dnsName: string, suffix: string): string {
    var name, zone := S.Lower(S.TrimDot(dnsName)), S.Lower(S.TrimDot(suffix));
    if name == "" || zone == "" || !S.HasSuffix(name, "." + zone) then "" else name[..|name| - |zone| - 1]
  }

  lemma BelowZone(host: string, zone: string)
    ensures var name := host + "." + zone; S.HasSuffix(name, "." + zone) && name[..|name| - |zone| - 1] == host
  {
    var name := host + "." + zone;
    assert name == host + ("." + zone);
    assert name[|host|..] == "." + zone;
  }

  /** The alias name is every label of the MagicDNS name below the suffix of the tailnet, and
      it is empty exactly when there is none. */
  lemma AliasNameExactly(dnsName: string, suffix: string, host: string)
    requires host != "" && S.TrimDot(suffix) != ""
    ensures AliasNameOf(dnsName, suffix) == host <==>
      S.Lower(S.TrimDot(dnsName)) == host + "." + S.Lower(S.TrimDot(suffix))
  {
    var name, zone := S.Lower(S.TrimDot(dnsName)), S.Lower(S.TrimDot(suffix));
    BelowZone(host, zone);
    if AliasNameOf(dnsName, suffix) == host {
      assert name == name[..|name| - |zone| - 1] + name[|name| - |"." + zone|..];
      assert host + ("." + zone) == host + "." + zone;
    }
  }

  /** A query for the alias name of a peer in a zone asks for that peer, dots included. */
  lemma AliasNameAnswers(zone: string, host: string)
    requires host != ""
    ensures InZone(host + "." + zone, zone) && HostIn(host + "." + zone, zone) == host
  {
    BelowZone(host, zone);
    assert |host + "." + zone| > |zone|;
  }

  lemma OneLetter(c: char)
    requires AlphaNumeric(c)
    ensures IdPattern([c]) && AliasPattern([c])
  {
  }

  /** The key matters: without it two aliases that differ by case name one zone. */
  lemma WithoutTheKeyZonesCollide()
    ensures var ts := [Tailnet("x", "A"), Tailnet("y", "a")];
      ValidNames(ts, false) && !ValidNames(ts, true) && S.ZoneName("A") == S.ZoneName("a")
  {
    var ts := [Tailnet("x", "A"), Tailnet("y", "a")];
    assert S.Lower("A") == S.Lower("a") == "a";
    assert Ids(ts) == {"x", "y"};
    assert "x"[0] != "A"[0] && "y"[0] != "a"[0] && "x"[0] != "y"[0] && "x"[0] != "a"[0] && "y"[0] != "A"[0] && "A"[0] != "a"[0];
    OneLetter('x');
    OneLetter('y');
    OneLetter('A');
    OneLetter('a');
    assert ts[0].alias == "A" && ts[1].alias == "a";
  }
}
