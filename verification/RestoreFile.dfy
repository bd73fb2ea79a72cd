/** The rule file of internal/access/writer.go and what iptables-restore --noflush does
    with it. */
module RestoreFile {
  import opened Text
  import N = Netfilter
  import C = AccessCompile

  const MARKER_PREFIX := "hydrascale:"

  /** One line of the rule file. */
  datatype Line =
    | Declare(chain: string)   // :chain - [0:0]
    | FlushChain(chain: string) // -F chain
    | Append(rule: N.Rule)     // -A chain ...

  function Marker(chain: string, mark: string): N.Rule {
    N.Rule(chain, [N.Comment(MARKER_PREFIX + mark)], N.NoTarget)
  }

  /** A packet that touches no namespace device goes back to FORWARD. */
  const RETURN_RULE: N.Rule := N.Rule(C.FORWARD_CHAIN, [N.NotFromNamespace, N.NotToNamespace], N.Return)

  function Appends(rules: seq<N.Rule>): seq<Line> {
    seq(|rules|, i requires 0 <= i < |rules| => Append(rules[i]))
  }

  function Header(mark: string): seq<Line> {
    [Declare(C.FORWARD_CHAIN), Declare(C.OUT_CHAIN), FlushChain(C.FORWARD_CHAIN), FlushChain(C.OUT_CHAIN),
     Append(Marker(C.FORWARD_CHAIN, mark)), Append(Marker(C.OUT_CHAIN, mark))]
  }

  /** restoreFile: marker, guard, RETURN, forward rules, out rules. */
  function File(c: C.Compiled, mark: string): seq<Line> {
    Header(mark) + Appends(c.guard) + [Append(RETURN_RULE)] + Appends(c.forward) + Appends(c.out)
  }

  type Chains = map<string, seq<N.Rule>>

  /** The kernel side of one line. A line that appends to an absent chain fails the file. */
  function RunLine(chains: Chains, line: Line): Option<Chains> {
    match line
    case Declare(chain) => Some(chains[chain := []])
    case FlushChain(chain) => if chain in chains then Some(chains[chain := []]) else None
    case Append(rule) =>
      if rule.chain in chains then Some(chains[rule.chain := chains[rule.chain] + [rule]]) else None
  }

  function RunFile(chains: Chains, lines: seq<Line>): Option<Chains> {
    if lines == [] then Some(chains)
    else
      match RunFile(chains, lines[..|lines| - 1])
      case None => None
      case Some(cs) => RunLine(cs, lines[|lines| - 1])
  }

  predicate InChain(rules: seq<N.Rule>, chain: string) {
    forall r :: r in rules ==> r.chain == chain
  }

  predicate WellFormed(c: C.Compiled) {
    InChain(c.guard, C.FORWARD_CHAIN) && InChain(c.forward, C.FORWARD_CHAIN) && InChain(c.out, C.OUT_CHAIN)
  }

  /** The content of each chain after a restore. */
  function LiveForward(c: C.Compiled, mark: string): seq<N.Rule> {
    [Marker(C.FORWARD_CHAIN, mark)] + c.guard + [RETURN_RULE] + c.forward
  }

  function LiveOut(c: C.Compiled, mark: string): seq<N.Rule> {
    [Marker(C.OUT_CHAIN, mark)] + c.out
  }

  lemma {:induction false} RunFileConcat(chains: Chains, a: seq<Line>, b: seq<Line>)
    ensures RunFile(chains, a + b) ==
      match RunFile(chains, a) case None => None case Some(cs) => RunFile(cs, b)
    decreases |b|
  {
    if b == [] {
      assert a + b == a;
    } else {
      var s := a + b;
      assert s[|s| - 1] == b[|b| - 1] && s[..|s| - 1] == a + b[..|b| - 1];
      RunFileConcat(chains, a, b[..|b| - 1]);
    }
  }

  lemma {:induction false} RunAppends(chains: Chains, rules: seq<N.Rule>, chain: string)
    requires chain in chains && InChain(rules, chain)
    ensures RunFile(chains, Appends(rules)) == Some(chains[chain := chains[chain] + rules])
  {
    if rules == [] {
      assert chains[chain] + rules == chains[chain];
      assert chains[chain := chains[chain]] == chains;
    } else {
      var front := rules[..|rules| - 1];
      var lines := Appends(rules);
      assert lines[..|lines| - 1] == Appends(front);
      RunAppends(chains, front, chain);
      assert rules[|rules| - 1] in rules;
      assert chains[chain] + rules == (chains[chain] + front) + [rules[|rules| - 1]];
      assert chains[chain := chains[chain] + rules]
          == chains[chain := chains[chain] + front][chain := (chains[chain] + front) + [rules[|rules| - 1]]];
    }
  }

  lemma RunHeader(chains: Chains, mark: string)
    ensures C.FORWARD_CHAIN != C.OUT_CHAIN
    ensures RunFile(chains, Header(mark)) ==
      Some(chains[C.FORWARD_CHAIN := [Marker(C.FORWARD_CHAIN, mark)]][C.OUT_CHAIN := [Marker(C.OUT_CHAIN, mark)]])
  {
    assert C.FORWARD_CHAIN[11] != C.OUT_CHAIN[11];
    var f, o := C.FORWARD_CHAIN, C.OUT_CHAIN;
    var h := Header(mark);
    var c1 := chains[f := []][o := []];
    assert RunFile(chains, h[..0]) == Some(chains);
    assert h[..1][..0] == h[..0] && h[..2][..1] == h[..1] && h[..3][..2] == h[..2];
    assert RunFile(chains, h[..2]) == Some(c1);
    assert c1[f := []] == c1 && c1[o := []] == c1;
    assert RunFile(chains, h[..3]) == Some(c1);
    assert h[..4][..3] == h[..3] && h[..5][..4] == h[..4] && h[..6][..5] == h[..5];
    assert RunFile(chains, h[..4]) == Some(c1);
    var c2 := c1[f := [] + [Marker(f, mark)]];
    assert RunFile(chains, h[..5]) == Some(c2);
    assert h[..6] == h;
    assert [] + [Marker(f, mark)] == [Marker(f, mark)] && [] + [Marker(o, mark)] == [Marker(o, mark)];
    assert chains[f := [Marker(f, mark)]][o := [Marker(o, mark)]] == c2[o := [] + [Marker(o, mark)]];
  }

  /** The transaction of the rule file replaces both chains with the compiled set, in the
      order marker, guard, RETURN, rules, tail, and it touches no other chain. */
  lemma RunFileResult(chains: Chains, c: C.Compiled, mark: string)
    requires WellFormed(c)
    ensures RunFile(chains, File(c, mark)) ==
      Some(chains[C.FORWARD_CHAIN := LiveForward(c, mark)][C.OUT_CHAIN := LiveOut(c, mark)])
  {
    var f, o := C.FORWARD_CHAIN, C.OUT_CHAIN;
    RunHeader(chains, mark);
    var base := chains[f := [Marker(f, mark)]][o := [Marker(o, mark)]];
    var head := Header(mark);
    RunFileConcat(chains, head, Appends(c.guard));
    RunAppends(base, c.guard, f);
    var c1 := base[f := [Marker(f, mark)] + c.guard];
    RunFileConcat(chains, head + Appends(c.guard), [Append(RETURN_RULE)]);
    assert Appends([RETURN_RULE]) == [Append(RETURN_RULE)];
    RunAppends(c1, [RETURN_RULE], f);
    var c2 := c1[f := [Marker(f, mark)] + c.guard + [RETURN_RULE]];
    RunFileConcat(chains, head + Appends(c.guard) + [Append(RETURN_RULE)], Appends(c.forward));
    RunAppends(c2, c.forward, f);
    var c3 := c2[f := LiveForward(c, mark)];
    RunFileConcat(chains, head + Appends(c.guard) + [Append(RETURN_RULE)] + Appends(c.forward), Appends(c.out));
    RunAppends(c3, c.out, o);
    assert c3[o := LiveOut(c, mark)] == chains[f := LiveForward(c, mark)][o := LiveOut(c, mark)];
  }

  /** restoreFile: the loops of the builder. */
  method RestoreLines(c: C.Compiled, mark: string) returns (lines: seq<Line>)
    ensures lines == File(c, mark)
  {
    lines := [];
    var chains := [C.FORWARD_CHAIN, C.OUT_CHAIN];
    lines := lines + [Declare(chains[0]), Declare(chains[1])];
    lines := lines + [FlushChain(chains[0]), FlushChain(chains[1])];
    lines := lines + [Append(Marker(chains[0], mark)), Append(Marker(chains[1], mark))];
    lines := AppendLines(lines, c.guard);
    lines := lines + [Append(RETURN_RULE)];
    lines := AppendLines(lines, c.forward);
    lines := AppendLines(lines, c.out);
  }

  method AppendLines(lines: seq<Line>, rules: seq<N.Rule>) returns (r: seq<Line>)
    ensures r == lines + Appends(rules)
  {
    r := lines;
    for i := 0 to |rules|
      invariant r == lines + Appends(rules)[..i]
    {
      r := r + [Append(rules[i])];
    }
    assert Appends(rules)[..|rules|] == Appends(rules);
  }
}
