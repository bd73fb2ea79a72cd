/** What the ownership of split DNS domains means for DNS names: the comment of
    normalizeSplitDomain (hostaccess.go) promises that a trailing dot resolves to one domain. */
module SplitNames {
  import opened Text
  import opened SplitDns
  import O = DomainClaims

  // ----- one report, read before the call

  /** The trimmed report ends in two dots. */
  predicate TwoDots(raw: string) {
    HasSuffix(TrimRight(TrimLeft(raw)), "..")
  }

  /** What stands before the last dots of the report. */
  function Stem(raw: string): string {
    Lower(TrimDot(TrimDot(TrimRight(TrimLeft(raw)))))
  }

  /** The normal forms of one DNS name. */
  function Spelled(x: string, dotted: bool): string {
    if dotted then x + "." else x
  }

  /** The report is usable and names x, with two dots or without. */
  predicate Reads(raw: string, x: string, dotted: bool) {
    Normalize(raw).Some? && Stem(raw) == x && TwoDots(raw) == dotted && (dotted || !InBaseZone(x))
  }

  ghost predicate Reported(c: Config, x: string, dotted: bool) {
    exists id, i :: id in c.active && 0 <= i < |c.active[id].domains| && Reads(c.active[id].domains[i], x, dotted)
  }

  predicate Undotted(x: string) {
    x == "" || x[|x| - 1] != '.'
  }

  lemma {:induction false} ValidNamesAreUndotted(s: string)
    requires ValidLabels(s)
    ensures Undotted(s)
    decreases |s|
  {
    var i := DotIndex(s);
    if i < |s| {
      ValidNamesAreUndotted(s[i + 1..]);
      assert ValidLabel(s[i + 1..][..DotIndex(s[i + 1..])]);
    }
  }

  lemma LowerOfTrimDot(s: string)
    ensures Lower(TrimDot(s)) == TrimDot(Lower(s))
  {
    LowerKeepsDots(s);
    if s != [] && s[|s| - 1] == '.' {
      assert Lower(s)[..|s| - 1] == Lower(s[..|s| - 1]);
    }
  }

  lemma Spellings(d: string, x: string)
    requires Undotted(x)
    ensures TrimDot(d) == x <==> d == Spelled(x, false) || d == Spelled(x, true)
    ensures Spelled(x, false) != Spelled(x, true)
  {
    assert (x + ".")[..|x|] == x;
  }

  /** The normal form of a trimmed report t, as a spelling of its stem. */
  lemma NormalForm(t: string)
    requires ValidDNSName(Lower(TrimDot(t)))
    ensures Undotted(Lower(TrimDot(TrimDot(t))))
    ensures Lower(TrimDot(t)) == Spelled(Lower(TrimDot(TrimDot(t))), HasSuffix(t, ".."))
  {
    var d := Lower(TrimDot(t));
    LowerOfTrimDot(TrimDot(t));
    ValidNamesAreUndotted(TrimDot(d));
    LowerKeepsDots(TrimDot(t));
    EndsInTwoDots(t);
    if HasSuffix(t, "..") {
      assert d[|d| - 1] == '.';
      assert d == TrimDot(d) + ".";
    }
  }

  lemma ReportIsASpelling(raw: string)
    ensures Normalize(raw).Some? ==> Undotted(Stem(raw)) && Normalize(raw) == Some(Spelled(Stem(raw), TwoDots(raw)))
  {
    if Normalize(raw).Some? {
      NormalForm(TrimRight(TrimLeft(raw)));
    }
  }

  lemma DottedIsOutside(x: string)
    ensures !InBaseZone(x + ".")
  {
    BaseZoneEndsInT(x + ".");
  }

  /** A report claims the spelling of its stem that its dots choose. */
  lemma ReadsExactly(raw: string, x: string, dotted: bool)
    requires Undotted(x)
    ensures Reads(raw, x, dotted) <==> ReportOf(raw) == Some(Spelled(x, dotted))
  {
    if Normalize(raw).Some? {
      ReportIsASpelling(raw);
      Spellings(Normalize(raw).value, x);
      Spellings(Normalize(raw).value, Stem(raw));
      DottedIsOutside(x);
      DottedIsOutside(Stem(raw));
    }
  }

  // ----- one name

  ghost predicate Kept(c: Config, d: string) {
    exists id :: id in c.active && d in O.Survivors(ViewOf(c), id)
  }

  /** A spelling of a name survives somewhere exactly when some tailnet reports it and nobody
      reserves it. */
  lemma KeptExactly(c: Config, x: string, dotted: bool)
    requires Undotted(x)
    ensures Kept(c, Spelled(x, dotted)) <==> Reported(c, x, dotted) && !O.Reserved(ViewOf(c), Spelled(x, dotted))
  {
    var v, d := ViewOf(c), Spelled(x, dotted);
    if Kept(c, d) {
      var id :| id in c.active && d in O.Survivors(v, id);
      O.SurvivesExactly(v, id, d);
      var i :| 0 <= i < |v[id].reports| && v[id].reports[i] == Some(d);
      ReadsExactly(c.active[id].domains[i], x, dotted);
    }
    if Reported(c, x, dotted) && !O.Reserved(v, d) {
      var id, i :| id in c.active && 0 <= i < |c.active[id].domains| && Reads(c.active[id].domains[i], x, dotted);
      ReadsExactly(c.active[id].domains[i], x, dotted);
      assert v[id].reports[i] == Some(d);
      assert O.Reports(v, id, d);
      var owner := O.SomeoneKeeps(v, id, d);
    }
  }

  /** Every survivor is a spelling of an undotted name. */
  lemma KeptIsASpelling(c: Config, d: string) returns (x: string, dotted: bool)
    requires Kept(c, d)
    ensures Undotted(x) && d == Spelled(x, dotted) && TrimDot(d) == x
    ensures Reported(c, x, dotted) && !O.Reserved(ViewOf(c), d)
  {
    var v := ViewOf(c);
    var id :| id in c.active && d in O.Survivors(v, id);
    O.SurvivesExactly(v, id, d);
    var i :| 0 <= i < |v[id].reports| && v[id].reports[i] == Some(d);
    var raw := c.active[id].domains[i];
    x, dotted := Stem(raw), TwoDots(raw);
    ReportIsASpelling(raw);
    Spellings(d, x);
    ReadsExactly(raw, x, dotted);
  }

  // ----- when the ownership holds on DNS names

  /** Some survivor names the reserved zone ts.net exactly when a report of a name in that zone
      ends in two dots and no reserved name is written that way. */
  lemma BaseZoneSurvivesExactly(c: Config)
    ensures (exists d :: Kept(c, d) && NamesBaseZone(d)) <==>
      (exists x :: InBaseZone(x) && Reported(c, x, true) && !O.Reserved(ViewOf(c), x + "."))
  {
    if d :| Kept(c, d) && NamesBaseZone(d) {
      var x, dotted := KeptIsASpelling(c, d);
      assert InBaseZone(x) && Reported(c, x, true) && !O.Reserved(ViewOf(c), x + ".");
    }
    if x :| InBaseZone(x) && Reported(c, x, true) && !O.Reserved(ViewOf(c), x + ".") {
      BaseZoneEndsInT(x);
      KeptExactly(c, x, true);
      Spellings(x + ".", x);
      assert Kept(c, x + ".") && NamesBaseZone(x + ".");
    }
  }

  /** Some survivor is, as a DNS name, a MagicDNS suffix or an alias zone exactly when a report
      and a reserved name spell one name in the two ways, and nobody reserves the spelling of
      the report. */
  lemma ReservedNameSurvivesExactly(c: Config)
    ensures (exists d, w :: Kept(c, d) && O.Reserved(ViewOf(c), w) && TrimDot(w) == TrimDot(d)) <==>
      (exists x, dotted :: Undotted(x) && Reported(c, x, dotted) && !O.Reserved(ViewOf(c), Spelled(x, dotted)) && O.Reserved(ViewOf(c), Spelled(x, !dotted)))
  {
    var v := ViewOf(c);
    if d, w :| Kept(c, d) && O.Reserved(v, w) && TrimDot(w) == TrimDot(d) {
      var x, dotted := KeptIsASpelling(c, d);
      Spellings(w, x);
      assert w == Spelled(x, !dotted);
    }
    if x, dotted :| Undotted(x) && Reported(c, x, dotted) && !O.Reserved(v, Spelled(x, dotted)) && O.Reserved(v, Spelled(x, !dotted)) {
      KeptExactly(c, x, dotted);
      Spellings(Spelled(x, dotted), x);
      Spellings(Spelled(x, !dotted), x);
      assert Kept(c, Spelled(x, dotted)) && TrimDot(Spelled(x, !dotted)) == TrimDot(Spelled(x, dotted));
    }
  }

  /** One DNS name survives twice exactly when one report of it ends in two dots, another one
      does not, and nobody reserves either spelling. */
  lemma NameSurvivesTwiceExactly(c: Config)
    ensures (exists d, e :: Kept(c, d) && Kept(c, e) && d != e && TrimDot(d) == TrimDot(e)) <==>
      (exists x :: Undotted(x) && Reported(c, x, true) && Reported(c, x, false)
                   && !O.Reserved(ViewOf(c), x + ".") && !O.Reserved(ViewOf(c), x))
  {
    if d, e :| Kept(c, d) && Kept(c, e) && d != e && TrimDot(d) == TrimDot(e) {
      var x, dotted := KeptIsASpelling(c, d);
      var y, other := KeptIsASpelling(c, e);
      assert x == y && dotted != other;
    }
    if x :| Undotted(x) && Reported(c, x, true) && Reported(c, x, false) && !O.Reserved(ViewOf(c), x + ".") && !O.Reserved(ViewOf(c), x) {
      KeptExactly(c, x, true);
      KeptExactly(c, x, false);
      Spellings(x + ".", x);
      Spellings(x, x);
      assert Kept(c, x + ".") && Kept(c, x) && x + "." != x;
    }
  }

  // ----- the exceptions are real

  /** The reports "a" and "a.." name one domain and have two normal forms. */
  lemma OneNameTwoForms()
    ensures Undotted("a") && Reads("a..", "a", true) && Reads("a", "a", false)
    ensures Normalize("a") == Some("a")
  {
    assert TrimLeft("a..") == "a.." && TrimRight("a..") == "a.." && TrimDot("a..") == "a.";
    assert TrimLeft("a") == "a" && TrimRight("a") == "a" && TrimDot("a") == "a";
    assert TrimDot("a.") == "a" && Lower("a.") == "a." && Lower("a") == "a";
    assert DotIndex("a") == 1 && "a"[..1] == "a";
    assert ValidLabels("a");
    EndsInTwoDots("a..");
    EndsInTwoDots("a");
    BaseZoneEndsInT("a");
  }

  /** A report with two dots survives although its name is the MagicDNS suffix of another
      tailnet: "a.." beside the suffix "a". */
  lemma TwoDotsEscapeASuffix(one: string, two: string, x: string)
    requires Undotted(x) && one != "" && Normalize(one) == Some(x) && Reads(two, x, true)
    ensures var c := Config(map["one" := Peers(one, "", []), "two" := Peers("", "", [two])], map[], false);
      Kept(c, x + ".") && O.Reserved(ViewOf(c), x)
  {
    var active := map["one" := Peers(one, "", []), "two" := Peers("", "", [two])];
    var c := Config(active, map[], false);
    assert active["one"] == Peers(one, "", []) && active["two"] == Peers("", "", [two]);
    assert forall id :: id in c.active ==> SuffixClaim(c, id) in {Some(x), None} && ZoneClaim(c, id) == None;
    assert SuffixClaim(c, "one") == Some(x);
    assert c.active["two"].domains[0] == two;
    assert Reported(c, x, true);
    Spellings(x, x);
    KeptExactly(c, x, true);
  }

  lemma NothingReserved(c: Config, w: string)
    requires !c.resolveAliases && forall id :: id in c.active ==> c.active[id].suffix == ""
    ensures !O.Reserved(ViewOf(c), w)
  {
  }

  /** One name survives at two tailnets at once: "a" at one and "a.." at the other. */
  lemma TwoDotsGiveTwoOwners(one: string, two: string, x: string)
    requires Undotted(x) && Reads(one, x, false) && Reads(two, x, true)
    ensures var c := Config(map["one" := Peers("", "", [one]), "two" := Peers("", "", [two])], map[], false);
      Kept(c, Spelled(x, false)) && Kept(c, Spelled(x, true))
  {
    var active := map["one" := Peers("", "", [one]), "two" := Peers("", "", [two])];
    var c := Config(active, map[], false);
    assert active["one"] == Peers("", "", [one]) && active["two"] == Peers("", "", [two]);
    assert c.active["two"].domains[0] == two && c.active["one"].domains[0] == one;
    BothReported(c, "one", "two", x);
  }

  lemma BothReported(c: Config, one: string, two: string, x: string)
    requires !c.resolveAliases && forall id :: id in c.active ==> c.active[id].suffix == ""
    requires one in c.active && |c.active[one].domains| == 1 && Undotted(x) && Reads(c.active[one].domains[0], x, false)
    requires two in c.active && |c.active[two].domains| == 1 && Reads(c.active[two].domains[0], x, true)
    ensures Kept(c, Spelled(x, false)) && Kept(c, Spelled(x, true))
  {
    assert Reported(c, x, true) && Reported(c, x, false);
    NothingReserved(c, Spelled(x, false));
    NothingReserved(c, Spelled(x, true));
    KeptExactly(c, x, true);
    KeptExactly(c, x, false);
  }
}
