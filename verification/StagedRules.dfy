/** The staged rule set of internal/ui/static/access.js and its three-way rebase. */
module StagedRules {
  import opened Text

  /** A rule as a caller or the daemon gives it: the port list may be missing. */
  datatype RawRule = RawRule(from: string, to: string, ports: Option<seq<string>>)

  datatype Rule = Rule(from: string, to: string, ports: seq<string>)

  /** ruleKey. */
  function Key(r: Rule): string {
    r.from + " " + r.to
  }

  /** normalizeRule: a missing port list is an empty one. */
  function Normalize(r: RawRule): Rule {
    Rule(r.from, r.to, match r.ports case Some(ps) => ps case None => [])
  }

  function NormalizeAll(rules: seq<RawRule>): (r: seq<Rule>)
    ensures |r| == |rules|
    ensures forall i :: 0 <= i < |rules| ==>
      r[i].from == rules[i].from && r[i].to == rules[i].to && r[i].ports == if rules[i].ports.None? then [] else rules[i].ports.value
  {
    seq(|rules|, i requires 0 <= i < |rules| => Normalize(rules[i]))
  }

  /** The ports that a rule set gives a path: the last rule of the key counts, as it does in a
      Map that is built from the list. */
  function Ports(rules: seq<Rule>, key: string): Option<seq<string>> {
    if rules == [] then None
    else if Key(rules[|rules| - 1]) == key then Some(rules[|rules| - 1].ports)
    else Ports(rules[..|rules| - 1], key)
  }

  /** Two rule sets allow the same paths on the same ports. */
  ghost predicate Same(a: seq<Rule>, b: seq<Rule>) {
    forall key :: Ports(a, key) == Ports(b, key)
  }

  lemma {:induction false} PortsConcat(a: seq<Rule>, b: seq<Rule>, key: string)
    ensures Ports(a + b, key) == if Ports(b, key).Some? then Ports(b, key) else Ports(a, key)
    decreases |b|
  {
    if b == [] {
      assert a + b == a;
    } else {
      var s := a + b;
      assert s[..|s| - 1] == a + b[..|b| - 1] && s[|s| - 1] == b[|b| - 1];
      PortsConcat(a, b[..|b| - 1], key);
    }
  }

  lemma {:induction false} PortsSome(rules: seq<Rule>, key: string)
    ensures Ports(rules, key).Some? <==> exists r :: r in rules && Key(r) == key
    ensures Ports(rules, key).Some? ==> exists r :: r in rules && Key(r) == key && Some(r.ports) == Ports(rules, key)
  {
    if rules != [] {
      PortsSome(rules[..|rules| - 1], key);
      assert rules == rules[..|rules| - 1] + [rules[|rules| - 1]];
    }
  }

  /** The rule names the path: its two ends with one space between them. */
  predicate Names(r: Rule, path: string) {
    r.from + " " + r.to == path
  }

  /** The value of a path is the port list of the last rule that names it. */
  lemma {:induction false} LastRuleCounts(rules: seq<Rule>, path: string)
    ensures Ports(rules, path).None? <==> forall r :: r in rules ==> !Names(r, path)
    ensures forall i :: 0 <= i < |rules| && Names(rules[i], path) && (forall j :: i < j < |rules| ==> !Names(rules[j], path)) ==>
      Ports(rules, path) == Some(rules[i].ports)
  {
    if rules != [] {
      var front, last := rules[..|rules| - 1], rules[|rules| - 1];
      LastRuleCounts(front, path);
      assert rules == front + [last];
      forall i | 0 <= i < |rules| && Names(rules[i], path) && (forall j :: i < j < |rules| ==> !Names(rules[j], path))
        ensures Ports(rules, path) == Some(rules[i].ports)
      {
        if i < |front| {
          assert !Names(rules[|rules| - 1], path);
          assert forall j :: i < j < |front| ==> front[j] == rules[j] && !Names(front[j], path);
          assert Names(front[i], path);
        }
      }
    }
  }

  // ----- a Map from keys to rules, in insertion order

  predicate UniqueKeys(rules: seq<Rule>) {
    forall i, j :: 0 <= i < j < |rules| ==> Key(rules[i]) != Key(rules[j])
  }

  function IndexOfKey(m: seq<Rule>, key: string): (i: nat)
    ensures i <= |m| && (i < |m| ==> Key(m[i]) == key)
    ensures forall k :: 0 <= k < i ==> Key(m[k]) != key
  {
    if m == [] || Key(m[0]) == key then 0 else 1 + IndexOfKey(m[1..], key)
  }

  /** Map.set: a held key keeps its place. */
  function Put(m: seq<Rule>, r: Rule): seq<Rule> {
    var i := IndexOfKey(m, Key(r));
    if i < |m| then m[i := r] else m + [r]
  }

  /** Map.delete. */
  function Delete(m: seq<Rule>, key: string): seq<Rule> {
    var i := IndexOfKey(m, key);
    if i < |m| then m[..i] + m[i + 1..] else m
  }

  lemma {:induction false} PortsAt(m: seq<Rule>, i: nat)
    requires UniqueKeys(m) && i < |m|
    ensures Ports(m, Key(m[i])) == Some(m[i].ports)
  {
    if i < |m| - 1 {
      PortsAt(m[..|m| - 1], i);
    }
  }

  /** A key of a unique list occurs on neither side of its place. */
  lemma KeyOnce(m: seq<Rule>, i: nat)
    requires UniqueKeys(m) && i < |m|
    ensures Ports(m[..i], Key(m[i])).None? && Ports(m[i + 1..], Key(m[i])).None?
  {
    var before, after := m[..i], m[i + 1..];
    PortsSome(before, Key(m[i]));
    PortsSome(after, Key(m[i]));
    assert forall s :: s in before ==> exists k :: 0 <= k < i && m[k] == s;
    assert forall s :: s in after ==> exists k :: i < k < |m| && m[k] == s;
  }

  lemma PutUnique(m: seq<Rule>, r: Rule)
    requires UniqueKeys(m)
    ensures UniqueKeys(Put(m, r))
  {
  }

  lemma PortsBetween(before: seq<Rule>, r: Rule, after: seq<Rule>, key: string)
    ensures Ports(before + [r] + after, key) ==
      if Ports(after, key).Some? then Ports(after, key) else if Key(r) == key then Some(r.ports) else Ports(before, key)
  {
    PortsConcat(before + [r], after, key);
    PortsConcat(before, [r], key);
    assert [r][..0] == [];
  }

  lemma PutPorts(m: seq<Rule>, r: Rule, key: string)
    requires UniqueKeys(m)
    ensures UniqueKeys(Put(m, r))
    ensures Ports(Put(m, r), key) == if key == Key(r) then Some(r.ports) else Ports(m, key)
  {
    PutUnique(m, r);
    var i := IndexOfKey(m, Key(r));
    if i < |m| {
      var before, after := m[..i], m[i + 1..];
      assert m == before + [m[i]] + after && Put(m, r) == before + [r] + after;
      KeyOnce(m, i);
      PortsBetween(before, m[i], after, key);
      PortsBetween(before, r, after, key);
    } else {
      PortsConcat(m, [r], key);
      assert [r][..0] == [];
    }
  }

  lemma DeleteUnique(m: seq<Rule>, gone: string)
    requires UniqueKeys(m)
    ensures UniqueKeys(Delete(m, gone))
  {
  }

  lemma DeletePorts(m: seq<Rule>, gone: string, key: string)
    requires UniqueKeys(m)
    ensures UniqueKeys(Delete(m, gone))
    ensures Ports(Delete(m, gone), key) == if key == gone then None else Ports(m, key)
  {
    DeleteUnique(m, gone);
    var i := IndexOfKey(m, gone);
    if i < |m| {
      var before, after := m[..i], m[i + 1..];
      assert m == before + [m[i]] + after;
      KeyOnce(m, i);
      PortsBetween(before, m[i], after, key);
      PortsConcat(before, after, key);
    } else {
      PortsSome(m, key);
    }
  }

  /** new Map(rules.map((rule) => [ruleKey(rule), rule])). */
  function MapFrom(rules: seq<Rule>): seq<Rule> {
    if rules == [] then [] else Put(MapFrom(rules[..|rules| - 1]), rules[|rules| - 1])
  }

  lemma {:induction false} MapFromPorts(rules: seq<Rule>, key: string)
    ensures UniqueKeys(MapFrom(rules)) && Ports(MapFrom(rules), key) == Ports(rules, key)
  {
    if rules != [] {
      MapFromPorts(rules[..|rules| - 1], key);
      PutPorts(MapFrom(rules[..|rules| - 1]), rules[|rules| - 1], key);
    }
  }

  // ----- the difference of two rule sets

  datatype Difference = Difference(added: seq<Rule>, removed: seq<Rule>, changed: seq<Rule>)

  predicate IsEmpty(d: Difference) {
    d.added == [] && d.removed == [] && d.changed == []
  }

  /** The difference names every path that the two rule sets treat differently, and no other:
      with the value of after where after holds one, and as removed where it holds none. */
  ghost predicate IsDifference(d: Difference, before: seq<Rule>, after: seq<Rule>) {
    && UniqueKeys(d.added) && UniqueKeys(d.changed)
    && (forall r :: r in d.added ==> Ports(before, Key(r)).None? && Ports(after, Key(r)) == Some(r.ports))
    && (forall r :: r in d.changed ==> Ports(before, Key(r)).Some? && Ports(before, Key(r)) != Some(r.ports) && Ports(after, Key(r)) == Some(r.ports))
    && (forall r :: r in d.removed <==> r in before && Ports(after, Key(r)).None?)
    && (forall key :: Ports(after, key).Some? && Ports(before, key) != Ports(after, key) ==>
          exists r :: (r in d.added || r in d.changed) && Key(r) == key)
  }

  /** The loop of differenceBetween over the rules of after. */
  method AddedAndChanged(before: seq<Rule>, afterByKey: seq<Rule>) returns (added: seq<Rule>, changed: seq<Rule>)
    requires UniqueKeys(afterByKey)
    ensures UniqueKeys(added) && UniqueKeys(changed)
    ensures forall r :: r in added <==> r in afterByKey && Ports(before, Key(r)).None?
    ensures forall r :: r in changed <==> r in afterByKey && Ports(before, Key(r)).Some? && Ports(before, Key(r)) != Some(r.ports)
  {
    added, changed := [], [];
    for i := 0 to |afterByKey|
      invariant UniqueKeys(added) && UniqueKeys(changed)
      invariant forall r :: r in added <==> r in afterByKey[..i] && Ports(before, Key(r)).None?
      invariant forall r :: r in changed <==> r in afterByKey[..i] && Ports(before, Key(r)).Some? && Ports(before, Key(r)) != Some(r.ports)
    {
      var rule := afterByKey[i];
      assert afterByKey[..i + 1] == afterByKey[..i] + [rule];
      forall r | r in afterByKey[..i]
        ensures Key(r) != Key(rule)
      {
        var k :| 0 <= k < i && afterByKey[k] == r;
      }
      var held := Ports(before, Key(rule));
      if held.None? {
        added := added + [rule];
      } else if held.value != rule.ports {
        changed := changed + [rule];
      }
    }
    assert afterByKey[..|afterByKey|] == afterByKey;
  }

  /** before.filter((rule) => !afterByKey.has(ruleKey(rule))). */
  method Removed(before: seq<Rule>, after: seq<Rule>) returns (removed: seq<Rule>)
    ensures forall r :: r in removed <==> r in before && Ports(after, Key(r)).None?
  {
    removed := [];
    for i := 0 to |before|
      invariant forall r :: r in removed <==> r in before[..i] && Ports(after, Key(r)).None?
    {
      assert before[..i + 1] == before[..i] + [before[i]];
      if Ports(after, Key(before[i])).None? {
        removed := removed + [before[i]];
      }
    }
    assert before[..|before|] == before;
  }

  /** differenceBetween. */
  method DifferenceBetween(before: seq<Rule>, after: seq<Rule>) returns (d: Difference)
    ensures IsDifference(d, before, after)
  {
    var beforeByKey, afterByKey := MapFrom(before), MapFrom(after);
    forall key
      ensures Ports(beforeByKey, key) == Ports(before, key) && Ports(afterByKey, key) == Ports(after, key)
    {
      MapFromPorts(before, key);
      MapFromPorts(after, key);
    }
    MapFromPorts(after, "");
    var added, changed := AddedAndChanged(beforeByKey, afterByKey);
    var removed := Removed(before, afterByKey);
    forall r | r in afterByKey
      ensures Ports(after, Key(r)) == Some(r.ports)
    {
      var k :| 0 <= k < |afterByKey| && afterByKey[k] == r;
      PortsAt(afterByKey, k);
    }
    forall key | Ports(after, key).Some? && Ports(before, key) != Ports(after, key)
      ensures exists r :: (r in added || r in changed) && Key(r) == key
    {
      PortsSome(afterByKey, key);
      var r :| r in afterByKey && Key(r) == key;
      assert r in added || r in changed;
    }
    d := Difference(added, removed, changed);
  }

  /** The staged count is zero exactly when both rule sets allow the same. */
  lemma EmptyExactlyWhenSame(d: Difference, before: seq<Rule>, after: seq<Rule>)
    requires IsDifference(d, before, after)
    ensures IsEmpty(d) <==> Same(before, after)
  {
    if key :| Ports(before, key) != Ports(after, key) {
      PortsSome(before, key);
      if Ports(after, key).Some? {
        var r :| (r in d.added || r in d.changed) && Key(r) == key;
      } else {
        var r :| r in before && Key(r) == key;
        assert r in d.removed;
      }
    }
    if d.removed != [] {
      var r := d.removed[0];
      assert r in d.removed;
      PortsSome(before, Key(r));
      assert Ports(before, Key(r)) != Ports(after, Key(r));
    } else if d.added != [] {
      assert d.added[0] in d.added;
      assert Ports(before, Key(d.added[0])) != Ports(after, Key(d.added[0]));
    } else if d.changed != [] {
      assert d.changed[0] in d.changed;
      assert Ports(before, Key(d.changed[0])) != Ports(after, Key(d.changed[0]));
    }
  }

  // ----- the comparison of two rule sets

  /** sameRules: equal lengths, and every rule of one has its ports in other. */
  predicate SameRules(one: seq<Rule>, other: seq<Rule>) {
    |one| == |other| && forall r :: r in one ==> Ports(other, Key(r)) == Some(r.ports)
  }

  /** No two rules of the set disagree about a path. */
  predicate Consistent(rules: seq<Rule>) {
    forall a, b :: a in rules && b in rules && Key(a) == Key(b) ==> a.ports == b.ports
  }

  /** A rule set equals itself exactly when no two of its rules disagree about a path. */
  lemma SameAsItselfExactly(rules: seq<Rule>)
    ensures SameRules(rules, rules) <==> Consistent(rules)
  {
    forall r | r in rules
      ensures exists s :: s in rules && Key(s) == Key(r) && Some(s.ports) == Ports(rules, Key(r))
    {
      PortsSome(rules, Key(r));
    }
  }

  /** The keys of a set of rules. */
  function Keys(rules: seq<Rule>): set<string> {
    set r | r in rules :: Key(r)
  }

  lemma {:induction false} UniqueKeysCount(rules: seq<Rule>)
    requires UniqueKeys(rules)
    ensures |Keys(rules)| == |rules|
  {
    if rules != [] {
      var front, last := rules[..|rules| - 1], rules[|rules| - 1];
      UniqueKeysCount(front);
      assert rules == front + [last];
      assert Keys(rules) == Keys(front) + {Key(last)};
      assert forall i :: 0 <= i < |front| ==> front[i] == rules[i];
      assert Key(last) !in Keys(front);
    }
  }

  lemma EqualBySize(a: set<string>, b: set<string>)
    requires a <= b && |a| == |b|
    ensures a == b
  {
    assert b == a + (b - a);
  }

  lemma PortsOfUnique(rules: seq<Rule>)
    requires UniqueKeys(rules)
    ensures Consistent(rules)
    ensures forall r :: r in rules ==> Ports(rules, Key(r)) == Some(r.ports)
  {
    forall r | r in rules
      ensures Ports(rules, Key(r)) == Some(r.ports)
    {
      var i :| 0 <= i < |rules| && rules[i] == r;
      PortsAt(rules, i);
    }
  }

  /** What sameRules says of two rule sets. On sets that name each path once it answers whether
      they allow the same. Otherwise it may say yes although other names a path that one does not,
      and no although both allow the same: the lengths differ or one disagrees with itself. */
  lemma SameRulesExactly(one: seq<Rule>, other: seq<Rule>)
    ensures UniqueKeys(one) && UniqueKeys(other) ==> (SameRules(one, other) <==> Same(one, other))
    ensures SameRules(one, other) ==> (Same(one, other) <==> forall r :: r in other ==> Key(r) in Keys(one))
    ensures Same(one, other) ==> (SameRules(one, other) <==> |one| == |other| && Consistent(one))
  {
    forall key
      ensures Ports(one, key).Some? <==> key in Keys(one)
      ensures Ports(one, key).Some? ==> exists r :: r in one && Key(r) == key && Some(r.ports) == Ports(one, key)
      ensures Ports(other, key).Some? <==> key in Keys(other)
    {
      PortsSome(one, key);
      PortsSome(other, key);
    }
    assert SameRules(one, other) ==> Keys(one) <= Keys(other);
    if UniqueKeys(one) && UniqueKeys(other) {
      UniqueKeysCount(one);
      UniqueKeysCount(other);
      PortsOfUnique(one);
      if SameRules(one, other) {
        EqualBySize(Keys(one), Keys(other));
        assert forall r :: r in other ==> Key(r) in Keys(other);
      }
      if Same(one, other) {
        assert Keys(one) == Keys(other);
      }
    }
  }

  /** The comparison misses a new path: where the old set holds one rule twice, the new one may
      hold any other rule in place of the copy. */
  lemma ACopyHidesANewRule(r: Rule, s: Rule)
    requires Key(r) != Key(s)
    ensures SameRules([r, r], [r, s]) && !Same([r, r], [r, s])
  {
    TwoRules(r, s, Key(r), []);
    TwoRules(r, s, Key(s), []);
    assert [r, r][..1] == [r];
    OneRule(r, Key(s), []);
  }

  // ----- the rules of one path, and the rules that a list of polls leaves

  /** The rules of one key, in list order. */
  function Under(rules: seq<Rule>, key: string): seq<Rule> {
    if rules == [] then []
    else
      var before, r := Under(rules[..|rules| - 1], key), rules[|rules| - 1];
      if Key(r) == key then before + [r] else before
  }

  /** Each of these node lists names both ends of the rule. */
  predicate EndsIn(r: Rule, polls: seq<set<string>>) {
    forall nodes :: nodes in polls ==> r.from in nodes && r.to in nodes
  }

  /** The rules whose two ends every poll names, in list order. */
  function Known(rules: seq<Rule>, polls: seq<set<string>>): seq<Rule> {
    if rules == [] then []
    else
      var before, r := Known(rules[..|rules| - 1], polls), rules[|rules| - 1];
      if EndsIn(r, polls) then before + [r] else before
  }

  /** The rules that one poll drops, in list order. */
  function Unknown(rules: seq<Rule>, nodes: set<string>): seq<Rule> {
    if rules == [] then []
    else
      var before, r := Unknown(rules[..|rules| - 1], nodes), rules[|rules| - 1];
      if EndsIn(r, [nodes]) then before else before + [r]
  }

  /** A poll splits the rules by their two ends. */
  lemma {:induction false} PollSplits(rules: seq<Rule>, nodes: set<string>)
    ensures forall r :: r in Known(rules, [nodes]) <==> r in rules && r.from in nodes && r.to in nodes
    ensures forall r :: r in Unknown(rules, nodes) <==> r in rules && !(r.from in nodes && r.to in nodes)
  {
    if rules != [] {
      var front, last := rules[..|rules| - 1], rules[|rules| - 1];
      PollSplits(front, nodes);
      assert rules == front + [last];
      OnePoll(last, nodes);
    }
  }

  lemma UnderLast(rules: seq<Rule>, r: Rule, key: string)
    ensures Under(rules + [r], key) == if Key(r) == key then Under(rules, key) + [r] else Under(rules, key)
  {
    assert (rules + [r])[..|rules|] == rules;
  }

  lemma KnownLast(rules: seq<Rule>, r: Rule, polls: seq<set<string>>)
    ensures Known(rules + [r], polls) == if EndsIn(r, polls) then Known(rules, polls) + [r] else Known(rules, polls)
  {
    assert (rules + [r])[..|rules|] == rules;
  }

  /** A poll treats each path on its own. */
  lemma {:induction false} UnderKnown(rules: seq<Rule>, polls: seq<set<string>>, key: string)
    ensures Under(Known(rules, polls), key) == Known(Under(rules, key), polls)
  {
    if rules != [] {
      var front, r := rules[..|rules| - 1], rules[|rules| - 1];
      UnderKnown(front, polls, key);
      UnderLast(Known(front, polls), r, key);
      KnownLast(Under(front, key), r, polls);
    }
  }

  lemma EndsInNext(r: Rule, polls: seq<set<string>>, nodes: set<string>)
    ensures EndsIn(r, polls + [nodes]) <==> EndsIn(r, polls) && EndsIn(r, [nodes])
  {
    assert forall n :: n in polls + [nodes] <==> n in polls || n in [nodes];
  }

  lemma {:induction false} KnownNext(rules: seq<Rule>, polls: seq<set<string>>, nodes: set<string>)
    ensures Known(Known(rules, polls), [nodes]) == Known(rules, polls + [nodes])
  {
    if rules != [] {
      var front, r := rules[..|rules| - 1], rules[|rules| - 1];
      KnownNext(front, polls, nodes);
      KnownLast(Known(front, polls), r, [nodes]);
      EndsInNext(r, polls, nodes);
    }
  }

  lemma {:induction false} KnownOfNone(rules: seq<Rule>)
    ensures Known(rules, []) == rules
  {
    if rules != [] {
      KnownOfNone(rules[..|rules| - 1]);
      assert EndsIn(rules[|rules| - 1], []);
    }
  }

  /** The value of a path is the value of its last rule. */
  lemma {:induction false} PortsUnder(rules: seq<Rule>, key: string)
    ensures Ports(rules, key) == Ports(Under(rules, key), key)
    ensures forall r :: r in Under(rules, key) <==> r in rules && Key(r) == key
  {
    if rules != [] {
      var front, r := rules[..|rules| - 1], rules[|rules| - 1];
      PortsUnder(front, key);
      assert rules == front + [r];
      PortsConcat(Under(front, key), [r], key);
    }
  }

  /** The paths whose rules differ between the two lists. */
  ghost function ChangedKeys(a: seq<Rule>, b: seq<Rule>): (keys: set<string>)
    ensures forall key :: key in keys <==> Under(a, key) != Under(b, key)
  {
    var keys := set r | r in a + b && Under(a, Key(r)) != Under(b, Key(r)) :: Key(r);
    assert forall key :: key in keys <==> Under(a, key) != Under(b, key) by {
      forall key | Under(a, key) != Under(b, key)
        ensures key in keys
      {
        PortsUnder(a, key);
        PortsUnder(b, key);
        var r := if Under(a, key) != [] then Under(a, key)[0] else Under(b, key)[0];
        assert r in Under(a, key) || r in Under(b, key);
        assert r in a + b && Key(r) == key;
      }
    }
    keys
  }

  /** A rule of this path lost an end to one of the polls. */
  ghost predicate LostAnEnd(rules: seq<Rule>, polls: seq<set<string>>, key: string) {
    exists r :: r in rules && Key(r) == key && !EndsIn(r, polls)
  }

  lemma {:induction false} AllKnown(rules: seq<Rule>, polls: seq<set<string>>)
    ensures Known(rules, polls) == rules <==> forall r :: r in rules ==> EndsIn(r, polls)
    ensures |Known(rules, polls)| <= |rules|
    ensures (forall r :: r in rules ==> !EndsIn(r, polls)) ==> Known(rules, polls) == []
  {
    if rules != [] {
      var front, r := rules[..|rules| - 1], rules[|rules| - 1];
      AllKnown(front, polls);
      assert rules == front + [r];
      assert Known(rules, polls) == rules ==> Known(rules, polls)[..|rules| - 1] == front;
    }
  }

  /** No name holds the separator of a key. */
  predicate PlainEnds(rules: seq<Rule>) {
    forall r :: r in rules ==> ' ' !in r.from && ' ' !in r.to
  }

  lemma KeyNamesTheEnds(r: Rule, s: Rule)
    requires ' ' !in r.from && ' ' !in s.from
    requires Key(r) == Key(s)
    ensures r.from == s.from && r.to == s.to
  {
    var a, b := |r.from|, |s.from|;
    assert Key(r)[a] == ' ' && Key(s)[b] == ' ';
    assert forall i :: 0 <= i < a ==> Key(r)[i] == r.from[i] && r.from[i] in r.from;
    assert forall i :: 0 <= i < b ==> Key(s)[i] == s.from[i] && s.from[i] in s.from;
    assert a == b;
    assert Key(r)[..a] == r.from && Key(s)[..a] == s.from;
    assert Key(r)[a + 1..] == r.to && Key(s)[a + 1..] == s.to;
  }

  /** What the polls leave of a path: all of it, or nothing once it lost an end. */
  lemma PathAfterPolls(rules: seq<Rule>, polls: seq<set<string>>, key: string)
    ensures !LostAnEnd(rules, polls, key) ==> Ports(Known(rules, polls), key) == Ports(rules, key)
    ensures PlainEnds(rules) && LostAnEnd(rules, polls, key) ==>
      Ports(Known(rules, polls), key) == None && Ports(rules, key).Some?
  {
    PortsUnder(rules, key);
    PortsUnder(Known(rules, polls), key);
    UnderKnown(rules, polls, key);
    AllKnown(Under(rules, key), polls);
    if PlainEnds(rules) && LostAnEnd(rules, polls, key) {
      var lost :| lost in rules && Key(lost) == key && !EndsIn(lost, polls);
      forall r | r in Under(rules, key)
        ensures !EndsIn(r, polls)
      {
        KeyNamesTheEnds(r, lost);
        var nodes :| nodes in polls && !(lost.from in nodes && lost.to in nodes);
      }
      PortsSome(rules, key);
    }
  }

  // ----- the state of the view

  datatype Base = Base(mode: string, rules: seq<Rule>, nodes: set<string>)

  /** One answer of GET /api/access: a missing mode means enforce. */
  datatype Answer = Answer(mode: Option<string>, rules: seq<RawRule>, nodes: set<string>)

  /** What a path holds after a rebase: the staged value where it differs from the old base,
      and the value of the daemon everywhere else. */
  function Merged(old0: seq<Rule>, mine: seq<Rule>, theirs: seq<Rule>, key: string): Option<seq<string>> {
    if Ports(old0, key) != Ports(mine, key) then Ports(mine, key) else Ports(theirs, key)
  }

  class AccessState {
    var base: Base
    var staged: seq<Rule>
    var stageBase: Option<Base>
    var droppedRules: seq<Rule>
    // The paths whose rules setRules changed since the edit began, and the node lists of
    // the polls since then. A rebase begins a new edit.
    ghost var touched: set<string>
    ghost var polls: seq<set<string>>

    constructor ()
      ensures Valid() && base == Base("enforce", [], {}) && staged == [] && stageBase == None && droppedRules == []
    {
      base, staged, stageBase, droppedRules := Base("enforce", [], {}), [], None, [];
      touched, polls := {}, [];
    }

    /** With no edit base the view shows the rule set of the daemon. With one, a path that
        the operator did not touch holds the rules that the edit base gave it, unless a poll
        dropped them. */
    ghost predicate Valid()
      reads this
    {
      && (stageBase.None? ==> Same(staged, base.rules) && touched == {} && polls == [])
      && (stageBase.Some? ==> forall key :: key !in touched ==>
            Under(staged, key) == Under(Known(stageBase.value.rules, polls), key))
    }

    method IsClean() returns (clean: bool)
      ensures clean <==> Same(base.rules, staged)
    {
      var d := DifferenceBetween(base.rules, staged);
      EmptyExactlyWhenSame(d, base.rules, staged);
      clean := IsEmpty(d);
    }

    /** setBase. A clean view takes the answer; a view with edits keeps every rule whose two
        ends the daemon still reports, and it moves the others to droppedRules, whether the
        operator staged them or not. */
    method SetBase(body: Answer)
      requires Valid()
      modifies this
      ensures Valid()
      ensures base == Base(match body.mode case Some(m) => m case None => "enforce", NormalizeAll(body.rules), body.nodes)
      ensures Same(old(base.rules), old(staged)) ==> staged == base.rules && stageBase == None && droppedRules == []
      ensures !Same(old(base.rules), old(staged)) ==> stageBase == old(stageBase) && stageBase.Some? && touched == old(touched)
      ensures !Same(old(base.rules), old(staged)) ==>
        if body.nodes == {} then staged == old(staged) && droppedRules == old(droppedRules) && polls == old(polls)
        else
          && staged == Known(old(staged), [body.nodes])
          && droppedRules == old(droppedRules) + Unknown(old(staged), body.nodes)
          && polls == old(polls) + [body.nodes]
      ensures !Same(old(base.rules), old(staged)) && body.nodes != {} ==>
        && (forall r :: r in staged <==> r in old(staged) && r.from in body.nodes && r.to in body.nodes)
        && (forall r :: r in droppedRules <==> r in old(droppedRules) || (r in old(staged) && !(r.from in body.nodes && r.to in body.nodes)))
    {
      var wasClean := IsClean();
      base := Base(match body.mode case Some(m) => m case None => "enforce", NormalizeAll(body.rules), body.nodes);
      if wasClean {
        staged, stageBase, droppedRules := base.rules, None, [];
        touched, polls := {}, [];
        return;
      }
      if body.nodes == {} {
        return;
      }
      var kept, gone := Split(staged, body.nodes);
      forall key | key !in touched
        ensures Under(kept, key) == Under(Known(stageBase.value.rules, polls + [body.nodes]), key)
      {
        PollKeepsUntouched(stageBase.value.rules, polls, body.nodes, staged, key);
      }
      PollSplits(staged, body.nodes);
      droppedRules := droppedRules + gone;
      staged := kept;
      polls := polls + [body.nodes];
    }

    /** setRules. */
    method SetRules(rules: seq<RawRule>)
      requires Valid()
      modifies `staged, `stageBase, `touched, `polls
      ensures Valid()
      ensures staged == NormalizeAll(rules)
      ensures stageBase ==
        if Same(base.rules, staged) then None else if old(stageBase).None? then Some(base) else old(stageBase)
      ensures stageBase.Some? ==>
        touched == (if old(stageBase).None? then ChangedKeys(base.rules, staged) else old(touched) + ChangedKeys(old(staged), staged))
      ensures stageBase.Some? ==> polls == old(polls)
    {
      touched := if stageBase.None? then ChangedKeys(base.rules, NormalizeAll(rules)) else touched + ChangedKeys(staged, NormalizeAll(rules));
      if stageBase.None? {
        stageBase := Some(base);
        KnownOfNone(base.rules);
      }
      staged := NormalizeAll(rules);
      var clean := IsClean();
      if clean {
        stageBase := None;
        touched, polls := {}, [];
      }
    }

    /** discard. */
    method Discard()
      modifies this
      ensures Valid() && base == old(base) && staged == base.rules && stageBase == None && droppedRules == []
    {
      staged, stageBase, droppedRules := base.rules, None, [];
      touched, polls := {}, [];
    }

    /** baseChanged. */
    predicate BaseChanged()
      reads this
    {
      stageBase.Some? && !SameRules(stageBase.value.rules, base.rules)
    }

    /** While an edit is open the view reports a change exactly when the rule set that the edit
        began on and the one of the daemon now allow different paths or ports. */
    lemma BaseChangedExactly()
      requires stageBase.Some? && UniqueKeys(stageBase.value.rules) && UniqueKeys(base.rules)
      ensures BaseChanged() <==> !Same(stageBase.value.rules, base.rules)
    {
      SameRulesExactly(stageBase.value.rules, base.rules);
    }

    /** rebase: a three-way merge of the old base, the staged rules and the rules that the
        daemon holds now. A path that the operator did not touch takes the value of the
        daemon exactly when the polls since the edit began left the path as it was, or left
        it what the daemon holds. Where the daemon holds the edit base still, the rebase
        changes no path; after a rebase that is so until the next poll. */
    method Rebase()
      requires Valid()
      modifies `staged, `stageBase, `touched, `polls
      ensures Valid()
      ensures old(stageBase).None? ==> staged == old(staged) && stageBase == None
      ensures old(stageBase).Some? ==>
        && UniqueKeys(staged)
        && (forall key :: Ports(staged, key) == Merged(old(stageBase).value.rules, old(staged), base.rules, key))
        && stageBase == if Same(base.rules, staged) then None else Some(base)
      ensures old(stageBase).Some? ==> forall key ::
        Ports(staged, key) == if Ports(old(stageBase).value.rules, key) != Ports(old(staged), key) then Ports(old(staged), key) else Ports(base.rules, key)
      ensures old(stageBase).Some? ==> forall key :: key !in old(touched) ==>
        var s0 := old(stageBase).value.rules;
        (Ports(staged, key) == Ports(base.rules, key)
         <==> Ports(Known(s0, old(polls)), key) in {Ports(s0, key), Ports(base.rules, key)})
      ensures old(stageBase).None? || Same(old(stageBase).value.rules, base.rules) ==> Same(old(staged), staged)
      ensures stageBase.Some? ==> touched == ChangedKeys(base.rules, staged) && polls == []
      ensures Consistent(base.rules) ==> !BaseChanged()
    {
      if stageBase.None? {
        return;
      }
      ghost var s0, mine := stageBase.value.rules, staged;
      var next := ThreeWay(stageBase.value.rules, staged, base.rules);
      UntouchedAfterRebase(s0, polls, touched, mine, base.rules, next);
      staged := next;
      stageBase := Some(base);
      touched, polls := ChangedKeys(base.rules, staged), [];
      KnownOfNone(base.rules);
      SameAsItselfExactly(base.rules);
      var clean := IsClean();
      if clean {
        stageBase := None;
        touched := {};
      }
    }
  }

  /** The merge of rebase. */
  method ThreeWay(s0: seq<Rule>, mine: seq<Rule>, theirs: seq<Rule>) returns (next: seq<Rule>)
    ensures UniqueKeys(next)
    ensures forall key :: Ports(next, key) == Merged(s0, mine, theirs, key)
  {
    var change := DifferenceBetween(s0, mine);
    next := MapFrom(theirs);
    next := DeleteAll(next, theirs, change.removed);
    next := PutAll(next, change.added);
    next := PutAll(next, change.changed);
    forall key
      ensures Ports(next, key) == Merged(s0, mine, theirs, key)
    {
      MergeCases(s0, mine, theirs, change, key);
    }
  }

  lemma UntouchedAfterRebase(s0: seq<Rule>, polls: seq<set<string>>, touched: set<string>, mine: seq<Rule>, theirs: seq<Rule>, merged: seq<Rule>)
    requires forall key :: key !in touched ==> Under(mine, key) == Under(Known(s0, polls), key)
    requires forall key :: Ports(merged, key) == Merged(s0, mine, theirs, key)
    ensures forall key :: key !in touched ==>
      (Ports(merged, key) == Ports(theirs, key) <==> Ports(Known(s0, polls), key) in {Ports(s0, key), Ports(theirs, key)})
  {
    forall key | key !in touched
      ensures Ports(merged, key) == Ports(theirs, key) <==> Ports(Known(s0, polls), key) in {Ports(s0, key), Ports(theirs, key)}
    {
      PortsUnder(mine, key);
      PortsUnder(Known(s0, polls), key);
    }
  }

  /** The two filters of setBase. */
  method Split(rules: seq<Rule>, nodes: set<string>) returns (kept: seq<Rule>, gone: seq<Rule>)
    ensures kept == Known(rules, [nodes]) && gone == Unknown(rules, nodes)
  {
    kept, gone := [], [];
    for i := 0 to |rules|
      invariant kept == Known(rules[..i], [nodes]) && gone == Unknown(rules[..i], nodes)
    {
      assert rules[..i + 1][..i] == rules[..i];
      if rules[i].from in nodes && rules[i].to in nodes {
        kept := kept + [rules[i]];
      } else {
        gone := gone + [rules[i]];
      }
    }
    assert rules[..|rules|] == rules;
  }

  lemma PollKeepsUntouched(s0: seq<Rule>, polls: seq<set<string>>, nodes: set<string>, staged: seq<Rule>, key: string)
    requires Under(staged, key) == Under(Known(s0, polls), key)
    ensures Under(Known(staged, [nodes]), key) == Under(Known(s0, polls + [nodes]), key)
  {
    UnderKnown(staged, [nodes], key);
    UnderKnown(Known(s0, polls), [nodes], key);
    KnownNext(s0, polls, nodes);
  }

  /** When a rebase leaves every untouched path to the daemon, on names without a space:
      exactly when the daemon holds none of the untouched paths that lost an end to a poll.
      mine is the staged list of a valid state, merged the list after the rebase. */
  lemma RebaseSparesOthersExactly(s0: seq<Rule>, polls: seq<set<string>>, touched: set<string>, mine: seq<Rule>, theirs: seq<Rule>, merged: seq<Rule>)
    requires PlainEnds(s0)
    requires forall key :: key !in touched ==> Under(mine, key) == Under(Known(s0, polls), key)
    requires forall key :: Ports(merged, key) == Merged(s0, mine, theirs, key)
    ensures (forall key :: key !in touched ==> Ports(merged, key) == Ports(theirs, key))
       <==> (forall key :: key !in touched && LostAnEnd(s0, polls, key) ==> Ports(theirs, key).None?)
  {
    forall key | key !in touched
      ensures Ports(merged, key) == if LostAnEnd(s0, polls, key) then None else Ports(theirs, key)
    {
      PortsUnder(mine, key);
      PortsUnder(Known(s0, polls), key);
      PathAfterPolls(s0, polls, key);
    }
  }

  lemma OneRule(x: Rule, key: string, polls: seq<set<string>>)
    ensures Ports([x], key) == if Key(x) == key then Some(x.ports) else None
    ensures Under([x], key) == if Key(x) == key then [x] else []
    ensures Known([x], polls) == if EndsIn(x, polls) then [x] else []
  {
    assert [x][..0] == [];
  }

  lemma TwoRules(x: Rule, y: Rule, key: string, polls: seq<set<string>>)
    requires Key(x) != Key(y)
    ensures Ports([x, y], key) == if Key(y) == key then Some(y.ports) else if Key(x) == key then Some(x.ports) else None
    ensures Key(y) == key ==> Under([x, y], key) == [y]
    ensures EndsIn(x, polls) && !EndsIn(y, polls) ==> Known([x, y], polls) == [x]
  {
    assert [x, y][..1] == [x];
    OneRule(x, key, polls);
  }

  lemma OnePoll(x: Rule, nodes: set<string>)
    ensures EndsIn(x, [nodes]) <==> x.from in nodes && x.to in nodes
  {
    assert nodes in [nodes];
  }

  /** A rebase that deletes a rule of the daemon that the operator never touched. The daemon
      holds ab and cd all along, the operator changes the ports of ab, one poll names the ends
      of ab only, and the next one names all four. */
  method RebaseDeletesAnUntouchedRule(ab: Rule, cd: Rule, ports: seq<string>) returns (state: AccessState, ghost touched: set<string>)
    requires Key(ab) != Key(cd) && cd.from !in {ab.from, ab.to} && ports != ab.ports
    ensures state.Valid()
    ensures Key(cd) !in touched
    ensures Ports(state.staged, Key(cd)) == None && Ports(state.base.rules, Key(cd)) == Some(cd.ports)
  {
    var some, all := {ab.from, ab.to}, {ab.from, ab.to, cd.from, cd.to};
    var edited := ab.(ports := ports);
    var rules, edits := [Raw(ab), Raw(cd)], [Raw(edited), Raw(cd)];
    assert NormalizeAll(rules) == [ab, cd] && NormalizeAll(edits) == [edited, cd];
    state := new AccessState();
    state.SetBase(Answer(None, rules, all));
    EditSpares(ab, cd, edited, some);
    state.SetRules(edits);
    state.SetBase(Answer(None, rules, some));
    EditStays(ab, cd, edited, all);
    state.SetBase(Answer(None, rules, all));
    touched := state.touched;
    state.Rebase();
  }

  function Raw(r: Rule): RawRule {
    RawRule(r.from, r.to, Some(r.ports))
  }

  lemma EditSpares(ab: Rule, cd: Rule, edited: Rule, some: set<string>)
    requires Key(ab) == Key(edited) != Key(cd) && ab.ports != edited.ports
    requires edited.from in some && edited.to in some && cd.from !in some
    ensures Ports([ab, cd], Key(ab)) != Ports([edited, cd], Key(ab))
    ensures Under([ab, cd], Key(cd)) == Under([edited, cd], Key(cd))
    ensures Known([edited, cd], [some]) == [edited]
  {
    TwoRules(ab, cd, Key(ab), [some]);
    TwoRules(edited, cd, Key(ab), [some]);
    TwoRules(ab, cd, Key(cd), [some]);
    TwoRules(edited, cd, Key(cd), [some]);
    OnePoll(edited, some);
    OnePoll(cd, some);
  }

  lemma EditStays(ab: Rule, cd: Rule, edited: Rule, all: set<string>)
    requires Key(ab) == Key(edited) != Key(cd) && ab.ports != edited.ports
    requires edited.from in all && edited.to in all
    ensures Ports([ab, cd], Key(ab)) != Ports([edited], Key(ab))
    ensures Known([edited], [all]) == [edited]
    ensures Merged([ab, cd], [edited], [ab, cd], Key(cd)) == None
    ensures Ports([ab, cd], Key(cd)) == Some(cd.ports)
  {
    TwoRules(ab, cd, Key(ab), [all]);
    TwoRules(ab, cd, Key(cd), [all]);
    OneRule(edited, Key(ab), [all]);
    OneRule(edited, Key(cd), [all]);
    OnePoll(edited, all);
  }

  ghost predicate HasKey(rules: seq<Rule>, key: string) {
    exists r :: r in rules && Key(r) == key
  }

  method DeleteAll(m: seq<Rule>, ghost from: seq<Rule>, gone: seq<Rule>) returns (r: seq<Rule>)
    requires m == MapFrom(from)
    ensures UniqueKeys(r)
    ensures forall key :: Ports(r, key) == if HasKey(gone, key) then None else Ports(from, key)
  {
    r := m;
    MapFromPorts(from, "");
    forall key
      ensures Ports(r, key) == Ports(from, key)
    {
      MapFromPorts(from, key);
    }
    for i := 0 to |gone|
      invariant UniqueKeys(r)
      invariant forall key :: Ports(r, key) == if HasKey(gone[..i], key) then None else Ports(from, key)
    {
      assert gone[..i + 1] == gone[..i] + [gone[i]];
      forall key
        ensures Ports(Delete(r, Key(gone[i])), key) == if key == Key(gone[i]) then None else Ports(r, key)
        ensures HasKey(gone[..i + 1], key) <==> HasKey(gone[..i], key) || Key(gone[i]) == key
        ensures UniqueKeys(Delete(r, Key(gone[i])))
      {
        DeletePorts(r, Key(gone[i]), key);
      }
      r := Delete(r, Key(gone[i]));
    }
    assert gone[..|gone|] == gone;
  }

  method PutAll(m: seq<Rule>, rules: seq<Rule>) returns (r: seq<Rule>)
    requires UniqueKeys(m)
    ensures UniqueKeys(r)
    ensures forall key :: Ports(r, key) == if Ports(rules, key).Some? then Ports(rules, key) else Ports(m, key)
  {
    r := m;
    for i := 0 to |rules|
      invariant UniqueKeys(r)
      invariant forall key :: Ports(r, key) == if Ports(rules[..i], key).Some? then Ports(rules[..i], key) else Ports(m, key)
    {
      assert rules[..i + 1][..i] == rules[..i];
      forall key
        ensures Ports(Put(r, rules[i]), key) == if key == Key(rules[i]) then Some(rules[i].ports) else Ports(r, key)
        ensures UniqueKeys(Put(r, rules[i]))
      {
        PutPorts(r, rules[i], key);
      }
      r := Put(r, rules[i]);
    }
    assert rules[..|rules|] == rules;
  }

  /** The three edits of a rebase, path by path. */
  lemma MergeCases(old0: seq<Rule>, mine: seq<Rule>, theirs: seq<Rule>, change: Difference, key: string)
    requires IsDifference(change, old0, mine)
    ensures (if Ports(change.changed, key).Some? then Ports(change.changed, key)
             else if Ports(change.added, key).Some? then Ports(change.added, key)
             else if HasKey(change.removed, key) then None
             else Ports(theirs, key)) == Merged(old0, mine, theirs, key)
  {
    PortsSome(change.changed, key);
    PortsSome(change.added, key);
    PortsSome(old0, key);
    assert HasKey(change.removed, key) <==> Ports(old0, key).Some? && Ports(mine, key).None?;
  }

  /** Two operators who touch different paths both keep their edits. */
  lemma DisjointEditsBothSurvive(old0: seq<Rule>, mine: seq<Rule>, theirs: seq<Rule>, key: string)
    requires forall k :: Ports(old0, k) == Ports(mine, k) || Ports(old0, k) == Ports(theirs, k)
    ensures Merged(old0, mine, theirs, key) ==
      if Ports(old0, key) != Ports(mine, key) then Ports(mine, key)
      else if Ports(old0, key) != Ports(theirs, key) then Ports(theirs, key)
      else Ports(old0, key)
    ensures Merged(old0, mine, theirs, key) == Merged(old0, theirs, mine, key)
  {
    assert Ports(old0, key) == Ports(mine, key) || Ports(old0, key) == Ports(theirs, key);
  }
}
