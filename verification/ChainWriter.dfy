/** internal/access/writer.go: the writer that makes both chains hold the compiled set and
    keeps one jump rule into each. */
module ChainWriter {
  import opened Text
  import opened Schedule
  import N = Netfilter
  import C = AccessCompile
  import F = RestoreFile
  import P = Fingerprint
  import opened HostTables

  /** markerOf: the text after the prefix in the first comment that carries it. */
  function MarkerOf(rules: seq<N.Rule>): string {
    if rules == [] then ""
    else
      match MarkerIn(rules[0].matches)
      case Some(mark) => mark
      case None => MarkerOf(rules[1..])
  }

  function MarkerIn(ms: seq<N.Match>): Option<string> {
    if ms == [] then None
    else if ms[0].Comment? && F.MARKER_PREFIX <= ms[0].text then Some(ms[0].text[|F.MARKER_PREFIX|..])
    else MarkerIn(ms[1..])
  }

  function LiveMark(chains: F.Chains, chain: string): string {
    if chain in chains then MarkerOf(chains[chain]) else ""
  }

  /** No comment of the rule carries the prefix of the daemon. */
  predicate Unmarked(r: N.Rule) {
    forall m :: m in r.matches ==> !(m.Comment? && "hydrascale:" <= m.text)
  }

  lemma {:induction false} FirstComment(before: seq<N.Match>, mark: string, after: seq<N.Match>)
    requires forall m :: m in before ==> !(m.Comment? && "hydrascale:" <= m.text)
    ensures MarkerIn(before) == None
    ensures MarkerIn(before + ([N.Comment("hydrascale:" + mark)] + after)) == Some(mark)
  {
    var ms := before + ([N.Comment("hydrascale:" + mark)] + after);
    if before == [] {
      assert ms[0] == N.Comment("hydrascale:" + mark);
      assert ("hydrascale:" + mark)[11..] == mark;
    } else {
      assert before[0] in before && ms[0] == before[0] && ms[1..] == before[1..] + ([N.Comment("hydrascale:" + mark)] + after);
      FirstComment(before[1..], mark, after);
    }
  }

  /** The live fingerprint is the text behind the prefix in the first rule that carries one,
      and a chain that carries none has the empty fingerprint. */
  lemma {:induction false} FirstMarkerCounts(rules: seq<N.Rule>, r: N.Rule, before: seq<N.Match>, mark: string, after: seq<N.Match>, more: seq<N.Rule>)
    requires forall q :: q in rules ==> Unmarked(q)
    requires r.matches == before + ([N.Comment("hydrascale:" + mark)] + after)
    requires forall m :: m in before ==> !(m.Comment? && "hydrascale:" <= m.text)
    ensures MarkerOf(rules) == "" && MarkerOf(rules + ([r] + more)) == mark
  {
    var all := rules + ([r] + more);
    if rules == [] {
      FirstComment(before, mark, after);
      assert all[0] == r;
    } else {
      assert rules[0] in rules && all[0] == rules[0] && all[1..] == rules[1..] + ([r] + more);
      FirstComment(rules[0].matches, "", []);
      FirstMarkerCounts(rules[1..], r, before, mark, after, more);
    }
  }

  lemma MarkerOfLive(c: C.Compiled, mark: string)
    ensures MarkerOf(F.LiveForward(c, mark)) == mark && MarkerOf(F.LiveOut(c, mark)) == mark
  {
    var text := F.MARKER_PREFIX + mark;
    assert text[|F.MARKER_PREFIX|..] == mark;
    assert F.LiveForward(c, mark)[0] == F.Marker(C.FORWARD_CHAIN, mark);
    assert F.LiveOut(c, mark)[0] == F.Marker(C.OUT_CHAIN, mark);
  }

  /** Placement: position counts from 1, and it is 0 when the parent holds no jump rule. */
  datatype Placement = Placement(jump: Jump, position: nat, above: seq<ParentRule>)

  function PlacementIn(rules: seq<ParentRule>, j: Jump): Placement {
    if rules == [] then Placement(j, 0, [])
    else if rules[0] == DaemonJump(ChainOf(j)) then Placement(j, 1, [])
    else
      var rest := PlacementIn(rules[1..], j);
      if rest.position == 0 then Placement(j, 0, []) else Placement(j, rest.position + 1, [rules[0]] + rest.above)
  }

  /** The placement names the first jump of the daemon and every rule above it. */
  lemma {:induction false} PlacementMeaning(rules: seq<ParentRule>, j: Jump)
    ensures var at := PlacementIn(rules, j);
      && (at.position > 0 <==> Jumps(rules, ChainOf(j)))
      && (at.position > 0 ==>
        && at.position <= |rules| && rules[at.position - 1] == DaemonJump(ChainOf(j))
        && at.above == rules[..at.position - 1] && DaemonJump(ChainOf(j)) !in at.above)
  {
    if rules != [] {
      var first, rest := rules[0], rules[1..];
      PlacementMeaning(rest, j);
      assert rules == [first] + rest;
      var below := PlacementIn(rest, j);
      if first != DaemonJump(ChainOf(j)) && below.position > 0 {
        assert rules[..below.position] == [first] + rest[..below.position - 1];
        assert rules[below.position] == rest[below.position - 1];
      }
    }
  }

  /** placementOf: the loop over the listed rules. */
  method PlacementOf(rules: seq<ParentRule>, j: Jump) returns (at: Placement)
    ensures at == PlacementIn(rules, j)
  {
    var above := [];
    for i := 0 to |rules|
      invariant above == rules[..i]
      invariant PlacementIn(rules, j) ==
        var rest := PlacementIn(rules[i..], j);
        if rest.position == 0 then Placement(j, 0, []) else Placement(j, rest.position + i, above + rest.above)
    {
      assert rules[i..][0] == rules[i] && rules[i..][1..] == rules[i + 1..];
      if rules[i] == DaemonJump(ChainOf(j)) {
        return Placement(j, i + 1, above);
      }
      assert forall rest: seq<ParentRule> :: above + ([rules[i]] + rest) == (above + [rules[i]]) + rest;
      above := above + [rules[i]];
    }
    assert rules[|rules|..] == [];
    at := Placement(j, 0, []);
  }

  /** The rule stands at position 1 of the parent, unless the parent held it already and is as
      it was. */
  function FirstUnlessHeld(rules: seq<ParentRule>, jump: ParentRule): seq<ParentRule> {
    if jump in rules then rules else [jump] + rules
  }

  /** iptables -D takes out the first jump and leaves every other rule where it is. */
  lemma {:induction false} RemoveFirstExactly(rules: seq<ParentRule>, chain: string, i: nat)
    requires i < |rules| && rules[i] == DaemonJump(chain) && forall k :: 0 <= k < i ==> rules[k] != DaemonJump(chain)
    ensures RemoveFirst(rules, chain) == rules[..i] + rules[i + 1..]
  {
    if i == 0 {
      assert rules[..0] + rules[1..] == rules[1..];
    } else {
      var rest := rules[1..];
      RemoveFirstExactly(rest, chain, i - 1);
      assert rules[..i] == [rules[0]] + rest[..i - 1] && rules[i + 1..] == rest[i..];
    }
  }

  // ----- the wanted states

  function EnsureJump(rules: seq<ParentRule>, j: Jump): seq<ParentRule> {
    if Jumps(rules, ChainOf(j)) then rules else [DaemonJump(ChainOf(j))] + rules
  }

  /** The state that a successful Apply reaches. */
  function Applied(s: HostState, c: C.Compiled, mark: string): HostState {
    s.(chains := s.chains[C.FORWARD_CHAIN := F.LiveForward(c, mark)][C.OUT_CHAIN := F.LiveOut(c, mark)],
       forward := EnsureJump(s.forward, ForwardJump),
       input := EnsureJump(s.input, InputJump))
  }

  /** The state that a successful Teardown reaches. */
  function TornDown(s: HostState): HostState {
    s.(chains := s.chains - {C.FORWARD_CHAIN, C.OUT_CHAIN},
       forward := if C.FORWARD_CHAIN in s.chains then RemoveFirst(s.forward, C.FORWARD_CHAIN) else s.forward,
       input := if C.OUT_CHAIN in s.chains then RemoveFirst(s.input, C.OUT_CHAIN) else s.input)
  }

  lemma {:induction false} OperatorsKept(rules: seq<ParentRule>, chain: string, j: Jump)
    ensures Operators(RemoveFirst(rules, chain)) == Operators(rules)
    ensures Operators(EnsureJump(rules, j)) == Operators(rules)
  {
    assert ([DaemonJump(ChainOf(j))] + rules)[1..] == rules;
    if rules != [] {
      OperatorsKept(rules[1..], chain, j);
      var rest := RemoveFirst(rules[1..], chain);
      assert ([rules[0]] + rest)[1..] == rest;
    }
  }

  /** Apply and Teardown keep every operator rule in its order, and every other chain. */
  lemma OperatorKeepsItsRules(s: HostState, c: C.Compiled, mark: string)
    ensures var a := Applied(s, c, mark);
      && Operators(a.forward) == Operators(s.forward) && Operators(a.input) == Operators(s.input)
      && Operators(TornDown(s).forward) == Operators(s.forward) && Operators(TornDown(s).input) == Operators(s.input)
      && forall chain :: chain in s.chains && chain != C.FORWARD_CHAIN && chain != C.OUT_CHAIN ==>
           chain in a.chains && a.chains[chain] == s.chains[chain]
           && chain in TornDown(s).chains && TornDown(s).chains[chain] == s.chains[chain]
  {
    OperatorsKept(s.forward, C.FORWARD_CHAIN, ForwardJump);
    OperatorsKept(s.input, C.OUT_CHAIN, InputJump);
  }

  lemma {:induction false} RemoveNone(rules: seq<ParentRule>, chain: string)
    requires !Jumps(rules, chain)
    ensures RemoveFirst(rules, chain) == rules
  {
    if rules != [] {
      assert rules[0] in rules;
      RemoveNone(rules[1..], chain);
    }
  }

  /** A second Apply of the same set reaches the same state. */
  lemma ApplyIdempotent(s: HostState, c: C.Compiled, mark: string)
    ensures Applied(Applied(s, c, mark), c, mark) == Applied(s, c, mark)
  {
    assert ([DaemonJump(C.FORWARD_CHAIN)] + s.forward)[0] == DaemonJump(C.FORWARD_CHAIN);
    assert ([DaemonJump(C.OUT_CHAIN)] + s.input)[0] == DaemonJump(C.OUT_CHAIN);
    var a := Applied(s, c, mark);
    assert a.chains[C.FORWARD_CHAIN := F.LiveForward(c, mark)][C.OUT_CHAIN := F.LiveOut(c, mark)] == a.chains;
  }

  lemma EnsuredThenRemoved(rules: seq<ParentRule>, j: Jump)
    ensures RemoveFirst(EnsureJump(rules, j), ChainOf(j)) == RemoveFirst(rules, ChainOf(j))
    ensures !Jumps(rules, ChainOf(j)) ==> RemoveFirst(rules, ChainOf(j)) == rules
  {
    if !Jumps(rules, ChainOf(j)) {
      RemoveNone(rules, ChainOf(j));
      assert ([DaemonJump(ChainOf(j))] + rules)[1..] == rules;
    }
  }

  /** Teardown after Apply leaves the host as it was without both chains and without its first
      jump into each; where it held no jump, both parents are what they were, whether or not
      a chain had stayed. */
  lemma TeardownUndoesApply(s: HostState, c: C.Compiled, mark: string)
    ensures TornDown(Applied(s, c, mark)) ==
      s.(chains := s.chains - {C.FORWARD_CHAIN, C.OUT_CHAIN},
         forward := RemoveFirst(s.forward, C.FORWARD_CHAIN), input := RemoveFirst(s.input, C.OUT_CHAIN))
    ensures !Jumps(s.forward, C.FORWARD_CHAIN) ==> TornDown(Applied(s, c, mark)).forward == s.forward
    ensures !Jumps(s.input, C.OUT_CHAIN) ==> TornDown(Applied(s, c, mark)).input == s.input
  {
    var a := Applied(s, c, mark);
    EnsuredThenRemoved(s.forward, ForwardJump);
    EnsuredThenRemoved(s.input, InputJump);
    assert a.chains - {C.FORWARD_CHAIN, C.OUT_CHAIN} == s.chains - {C.FORWARD_CHAIN, C.OUT_CHAIN};
  }

  // ----- the commands of Apply under failures

  /** The jump step whose first command is command k of the schedule. */
  predicate JumpFails(rules: seq<ParentRule>, j: Jump, faults: seq<bool>, k: nat) {
    FaultAt(faults, k) || (!Jumps(rules, ChainOf(j)) && FaultAt(faults, k + 1))
  }

  function JumpCost(rules: seq<ParentRule>, j: Jump, faults: seq<bool>, k: nat): nat {
    if FaultAt(faults, k) || Jumps(rules, ChainOf(j)) then 1 else 2
  }

  /** The parent chain behind its jump step. */
  function JumpStep(rules: seq<ParentRule>, j: Jump, faults: seq<bool>, k: nat): seq<ParentRule> {
    if JumpFails(rules, j, faults, k) then rules else EnsureJump(rules, j)
  }

  /** The two reads, and the write unless both fingerprints match. */
  predicate WriteFails(matching: bool, faults: seq<bool>) {
    FaultAt(faults, 0) || FaultAt(faults, 1) || (!matching && FaultAt(faults, 2))
  }

  function WriteCost(matching: bool, faults: seq<bool>): nat {
    if FaultAt(faults, 0) then 1 else if FaultAt(faults, 1) || matching then 2 else 3
  }

  predicate SameSysctl(s: HostState, t: HostState) {
    s.forwarding == t.forwarding && s.ours == t.ours
  }

  /** The chain is in both states, with the same rules. */
  predicate ChainKept(s: HostState, t: HostState, chain: string) {
    chain in s.chains && chain in t.chains && s.chains[chain] == t.chains[chain]
  }

  /** On the way from s to e the state t holds what the forward path holds at both ends. */
  predicate ForwardKept(s: HostState, e: HostState, t: HostState) {
    && (Jumps(e.forward, C.FORWARD_CHAIN) ==> Jumps(t.forward, C.FORWARD_CHAIN))
    && (ChainKept(s, e, C.FORWARD_CHAIN) ==> ChainKept(s, t, C.FORWARD_CHAIN))
  }

  /** One answer of Check. */
  datatype Difference = WriteAbsent(chain: string) | WriteOther(chain: string, live: string) | InsertRule(jump: Jump)

  /** The writer of one address family. hash stands for the truncated SHA-256 sum, text for
      net.IP.String, and bytes for the length of an address. */
  class Writer {
    const host: Host
    const hash: string -> string
    const text: P.AddressText
    const bytes: nat

    constructor (host: Host, hash: string -> string, text: P.AddressText, bytes: nat)
      ensures this.host == host && this.hash == hash && this.text == text && this.bytes == bytes
    {
      this.host, this.hash, this.text, this.bytes := host, hash, text, bytes;
    }

    /** The hash separates the serialisations, and it is never empty. */
    ghost predicate Sound() {
      && P.Faithful(text, bytes)
      && (forall a, b :: hash(a) == hash(b) ==> a == b)
      && (forall a :: hash(a) != "")
    }

    function Mark(c: C.Compiled): string {
      hash(P.Serialize(c, text))
    }

    ghost predicate Held(s: HostState, c: C.Compiled) {
      && C.FORWARD_CHAIN in s.chains && s.chains[C.FORWARD_CHAIN] == F.LiveForward(c, Mark(c))
      && C.OUT_CHAIN in s.chains && s.chains[C.OUT_CHAIN] == F.LiveOut(c, Mark(c))
    }

    /** A chain that carries a marker holds what the daemon wrote with that marker. */
    ghost predicate Honest(s: HostState) {
      && (LiveMark(s.chains, C.FORWARD_CHAIN) != "" ==>
            exists c :: P.Serializable(c, text, bytes) && s.chains[C.FORWARD_CHAIN] == F.LiveForward(c, Mark(c)))
      && (LiveMark(s.chains, C.OUT_CHAIN) != "" ==>
            exists c :: P.Serializable(c, text, bytes) && s.chains[C.OUT_CHAIN] == F.LiveOut(c, Mark(c)))
    }

    /** A live fingerprint that equals the wanted one proves the content of the chain. */
    lemma MarkProvesContent(s: HostState, c: C.Compiled)
      requires Sound() && Honest(s) && P.Serializable(c, text, bytes)
      ensures LiveMark(s.chains, C.FORWARD_CHAIN) == Mark(c) ==>
        C.FORWARD_CHAIN in s.chains && s.chains[C.FORWARD_CHAIN] == F.LiveForward(c, Mark(c))
      ensures LiveMark(s.chains, C.OUT_CHAIN) == Mark(c) ==>
        C.OUT_CHAIN in s.chains && s.chains[C.OUT_CHAIN] == F.LiveOut(c, Mark(c))
    {
      assert Mark(c) != "";
      if LiveMark(s.chains, C.FORWARD_CHAIN) == Mark(c) {
        var d :| P.Serializable(d, text, bytes) && s.chains[C.FORWARD_CHAIN] == F.LiveForward(d, Mark(d));
        MarkerOfLive(d, Mark(d));
        P.SerializeInjective(c, d, text, bytes);
      }
      if LiveMark(s.chains, C.OUT_CHAIN) == Mark(c) {
        var d :| P.Serializable(d, text, bytes) && s.chains[C.OUT_CHAIN] == F.LiveOut(d, Mark(d));
        MarkerOfLive(d, Mark(d));
        P.SerializeInjective(c, d, text, bytes);
      }
    }

    lemma HeldIsHonest(s: HostState, c: C.Compiled)
      requires P.Serializable(c, text, bytes) && Held(s, c)
      ensures Honest(s)
      ensures LiveMark(s.chains, C.FORWARD_CHAIN) == Mark(c) && LiveMark(s.chains, C.OUT_CHAIN) == Mark(c)
    {
      MarkerOfLive(c, Mark(c));
    }

    /** Both live fingerprints equal the wanted one. */
    predicate Matching(s: HostState, c: C.Compiled) {
      LiveMark(s.chains, C.FORWARD_CHAIN) == Mark(c) && LiveMark(s.chains, C.OUT_CHAIN) == Mark(c)
    }

    method Fingerprint(c: C.Compiled) returns (want: string)
      ensures want == Mark(c)
    {
      var fed := P.Bytes(c, text);
      want := hash(fed);
    }

    /** liveFingerprints: one read of each chain, and an absent chain counts as no marker. */
    method LiveFingerprints() returns (ok: bool, forward: string, out: string)
      modifies host`faults
      ensures ok ==> forward == LiveMark(host.state.chains, C.FORWARD_CHAIN) && out == LiveMark(host.state.chains, C.OUT_CHAIN)
      ensures ok == (!FaultAt(old(host.faults), 0) && !FaultAt(old(host.faults), 1))
      ensures host.faults == Rest(old(host.faults), if FaultAt(old(host.faults), 0) then 1 else 2)
    {
      RestOfRest(host.faults, 1, 1);
      forward, out := "", "";
      var rules;
      ok, rules := host.ReadChain(C.FORWARD_CHAIN);
      if !ok {
        return;
      }
      forward := if rules.Some? then MarkerOf(rules.value) else "";
      ok, rules := host.ReadChain(C.OUT_CHAIN);
      if !ok {
        return;
      }
      out := if rules.Some? then MarkerOf(rules.value) else "";
    }

    /** ensureJump: read first, insert at position 1 only when the parent holds no jump. */
    method EnsureJumpRule(j: Jump) returns (failed: bool, at: Placement)
      modifies host
      requires ChainOf(j) in host.state.chains
      ensures failed <==> JumpFails(ParentOf(old(host.state), j), j, old(host.faults), 0)
      ensures host.faults == Rest(old(host.faults), JumpCost(ParentOf(old(host.state), j), j, old(host.faults), 0))
      ensures host.state == WithParent(old(host.state), j, JumpStep(ParentOf(old(host.state), j), j, old(host.faults), 0))
      ensures !failed ==> at == PlacementIn(ParentOf(old(host.state), j), j)
      ensures Jumps(ParentOf(old(host.state), j), ChainOf(j)) ==> host.writes == old(host.writes)
      ensures old(host.history) <= host.history
      ensures forall s :: s in host.history[|old(host.history)|..] ==> s == host.state
      ensures !failed ==> ParentOf(host.state, j) == FirstUnlessHeld(ParentOf(old(host.state), j), DaemonJump(ChainOf(j)))
      ensures failed ==> host.state == old(host.state)
    {
      at := Placement(j, 0, []);
      RestOfRest(host.faults, 1, 1);
      var ok, rules := host.ReadParent(j);
      if !ok {
        return true, at;
      }
      at := PlacementOf(rules, j);
      PlacementMeaning(rules, j);
      if at.position > 0 {
        return false, at;
      }
      var done, _ := host.Edit(InsertJump(host.state, j));
      failed := !done;
    }

    /** The transaction of the rule file leads to the chains of Applied. */
    lemma FileReachesApplied(s: HostState, c: C.Compiled)
      requires P.Serializable(c, text, bytes)
      ensures F.RunFile(s.chains, F.File(c, Mark(c))) == Some(Applied(s, c, Mark(c)).chains)
      ensures Held(s.(chains := Applied(s, c, Mark(c)).chains), c)
    {
      F.RunFileResult(s.chains, c, Mark(c));
      assert C.FORWARD_CHAIN[11] != C.OUT_CHAIN[11];
    }

    lemma MatchingIsHeld(s: HostState, c: C.Compiled)
      requires Sound() && Honest(s) && P.Serializable(c, text, bytes) && Matching(s, c)
      ensures Held(s, c) && Applied(s, c, Mark(c)).chains == s.chains
    {
      MarkProvesContent(s, c);
    }

    /** iptables-restore with the rule file. */
    method WriteFile(c: C.Compiled, want: string) returns (ok: bool)
      requires P.Serializable(c, text, bytes) && want == Mark(c)
      modifies host
      ensures ok == !FaultAt(old(host.faults), 0) && host.faults == Rest(old(host.faults), 1)
      ensures host.state == if ok then old(host.state).(chains := Applied(old(host.state), c, want).chains) else old(host.state)
      ensures host.history == old(host.history) + [host.state]
    {
      FileReachesApplied(host.state, c);
      var lines := F.RestoreLines(c, want);
      ok := host.Restore(lines);
    }

    /** The first half of Apply: write both chains in one transaction, unless both live
        fingerprints already equal the wanted one. */
    method WriteChains(c: C.Compiled) returns (failed: bool, wrote: bool)
      requires Sound() && Honest(host.state) && P.Serializable(c, text, bytes)
      modifies host
      ensures failed <==> WriteFails(Matching(old(host.state), c), old(host.faults))
      ensures host.faults == Rest(old(host.faults), WriteCost(Matching(old(host.state), c), old(host.faults)))
      ensures failed ==> !wrote && host.state == old(host.state)
      ensures !failed ==> host.state == old(host.state).(chains := Applied(old(host.state), c, Mark(c)).chains)
      ensures !failed ==> Held(host.state, c) && (wrote <==> !Matching(old(host.state), c))
      ensures Matching(old(host.state), c) ==> host.writes == old(host.writes)
      ensures old(host.history) <= host.history
      ensures forall s :: s in host.history[|old(host.history)|..] ==> s == host.state
    {
      wrote := false;
      FileReachesApplied(host.state, c);
      RestOfRest(host.faults, 2, 1);
      var want := Fingerprint(c);
      var ok, forward, out := LiveFingerprints();
      if !ok {
        return true, false;
      }
      if forward != want || out != want {
        var done := WriteFile(c, want);
        if !done {
          return true, false;
        }
        wrote := true;
      } else {
        MatchingIsHeld(host.state, c);
      }
      failed := false;
    }

    lemma AppliedNeedsNoWrite(s: HostState, c: C.Compiled)
      requires P.Serializable(c, text, bytes)
      ensures Applied(s, c, Mark(c)) == s ==>
        Matching(s, c) && Jumps(s.forward, C.FORWARD_CHAIN) && Jumps(s.input, C.OUT_CHAIN)
    {
      assert C.FORWARD_CHAIN[11] != C.OUT_CHAIN[11];
      MarkerOfLive(c, Mark(c));
      if Applied(s, c, Mark(c)) == s {
        assert |s.forward| == |EnsureJump(s.forward, ForwardJump)|;
        assert |s.input| == |EnsureJump(s.input, InputJump)|;
      }
    }

    /** Apply. wrote states that the chains were written, failed states that a command failed.
        A failed read of a chain or a failed write ends Apply and leaves the host as it was.
        After that each jump has its own step, and the second one runs when the first one
        failed. Whatever fails, every operator rule stays in its order. On success the host
        reaches Applied, and on a host that already holds the set, Apply writes nothing. */
    method Apply(c: C.Compiled) returns (failed: bool, wrote: bool, jumps: seq<Placement>)
      requires Sound() && Honest(host.state) && P.Serializable(c, text, bytes)
      modifies host
      ensures Honest(host.state)
      ensures host.state == AppliedUnder(old(host.state), c, old(host.faults))
      ensures failed <==> ApplyFails(old(host.state), c, old(host.faults))
      ensures host.faults == Rest(old(host.faults), ApplyCost(old(host.state), c, old(host.faults)))
      ensures !failed ==> host.state == Applied(old(host.state), c, Mark(c))
      ensures !failed ==> jumps == [PlacementIn(old(host.state).forward, ForwardJump), PlacementIn(old(host.state).input, InputJump)]
      ensures !failed ==> (wrote <==> !Matching(old(host.state), c))
      ensures !failed ==>
        && host.state.forward == FirstUnlessHeld(old(host.state).forward, DaemonJump("HYDRASCALE-FWD"))
        && host.state.input == FirstUnlessHeld(old(host.state).input, DaemonJump("HYDRASCALE-OUT"))
      ensures Operators(host.state.forward) == Operators(old(host.state).forward)
      ensures Operators(host.state.input) == Operators(old(host.state).input)
      ensures Applied(old(host.state), c, Mark(c)) == old(host.state) ==> host.writes == old(host.writes)
      ensures old(host.history) <= host.history
      ensures forall s :: s in host.history[|old(host.history)|..] ==> OnTheWay(old(host.state), c, s)
      ensures WriteFails(Matching(old(host.state), c), old(host.faults)) ==>
        forall s :: s in host.history[|old(host.history)|..] ==> s == old(host.state)
    {
      ghost var s0, f0, h0 := host.state, host.faults, host.history;
      AppliedNeedsNoWrite(s0, c);
      jumps := [];
      failed, wrote := WriteChains(c);
      ghost var k1 := WriteCost(Matching(s0, c), f0);
      if failed {
        return;
      }
      HeldIsHonest(host.state, c);
      ghost var s1, f1, h1 := host.state, host.faults, host.history;
      failed, jumps := EnsureJumps();
      ApplyComposes(s0, c, f0);
      RestOfRest(f0, k1, JumpsCost(s1, f1));
      UnderKeeps(s0, c, f0);
      SplitHistory(h0, h1, host.history);
      forall t | t in host.history[|h0|..]
        ensures OnTheWay(s0, c, t)
      {
        assert t in h1[|h0|..] ==> t == s1;
        WayOfJumps(s0, c, s1, t);
      }
    }

    /** What AppliedUnder means for the parents, whatever fails. */
    lemma UnderKeeps(s: HostState, c: C.Compiled, faults: seq<bool>)
      ensures var t := AppliedUnder(s, c, faults);
        && Operators(t.forward) == Operators(s.forward) && Operators(t.input) == Operators(s.input)
        && (!ApplyFails(s, c, faults) ==> t == Applied(s, c, Mark(c)))
    {
      OperatorsKept(s.forward, C.FORWARD_CHAIN, ForwardJump);
      OperatorsKept(s.input, C.OUT_CHAIN, InputJump);
    }

    lemma WayOfJumps(s: HostState, c: C.Compiled, s1: HostState, t: HostState)
      requires s1 == s.(chains := Applied(s, c, Mark(c)).chains)
      ensures JumpsOnly(s1, t) || t == s1 ==> OnTheWay(s, c, t)
    {
    }

    /** The second half of Apply: both jumps, and the second one whatever the first one did. */
    method EnsureJumps() returns (failed: bool, jumps: seq<Placement>)
      requires C.FORWARD_CHAIN in host.state.chains && C.OUT_CHAIN in host.state.chains
      modifies host
      ensures host.state == Jumped(old(host.state), old(host.faults))
      ensures failed <==> JumpsFail(old(host.state), old(host.faults))
      ensures host.faults == Rest(old(host.faults), JumpsCost(old(host.state), old(host.faults)))
      ensures !failed ==> jumps == [PlacementIn(old(host.state).forward, ForwardJump), PlacementIn(old(host.state).input, InputJump)]
      ensures Jumps(old(host.state).forward, C.FORWARD_CHAIN) && Jumps(old(host.state).input, C.OUT_CHAIN) ==> host.writes == old(host.writes)
      ensures old(host.history) <= host.history
      ensures forall t :: t in host.history[|old(host.history)|..] ==> JumpsOnly(old(host.state), t)
    {
      ghost var s, f, h := host.state, host.faults, host.history;
      var failed0, at0 := EnsureJumpRule(ForwardJump);
      ghost var k, h1 := JumpCost(s.forward, ForwardJump, f, 0), host.history;
      JumpedOnly(s, f);
      assert forall t :: t in h1[|h|..] ==> JumpsOnly(s, t);
      assert ParentOf(s, ForwardJump) == s.forward && ParentOf(host.state, InputJump) == s.input;
      var failed1, at1 := EnsureJumpRule(InputJump);
      assert !failed1 ==> at1 == PlacementIn(s.input, InputJump);
      JumpShift(s.input, InputJump, f, k, 0);
      RestOfRest(f, k, JumpCost(s.input, InputJump, f, k));
      jumps := [at0, at1];
      failed := failed0 || failed1;
      SplitHistory(h, h1, host.history);
    }

    predicate JumpsFail(s: HostState, faults: seq<bool>) {
      JumpFails(s.forward, ForwardJump, faults, 0) || JumpFails(s.input, InputJump, faults, JumpCost(s.forward, ForwardJump, faults, 0))
    }

    function JumpsCost(s: HostState, faults: seq<bool>): nat {
      var k := JumpCost(s.forward, ForwardJump, faults, 0);
      k + JumpCost(s.input, InputJump, faults, k)
    }

    function Jumped(s: HostState, faults: seq<bool>): HostState {
      s.(forward := JumpStep(s.forward, ForwardJump, faults, 0),
         input := JumpStep(s.input, InputJump, faults, JumpCost(s.forward, ForwardJump, faults, 0)))
    }

    predicate JumpsOnly(s: HostState, t: HostState) {
      && t == s.(forward := t.forward, input := t.input)
      && t.forward in {s.forward, EnsureJump(s.forward, ForwardJump)}
      && t.input in {s.input, EnsureJump(s.input, InputJump)}
    }

    lemma JumpedOnly(s: HostState, faults: seq<bool>)
      ensures JumpsOnly(s, WithParent(s, ForwardJump, JumpStep(s.forward, ForwardJump, faults, 0)))
      ensures JumpsOnly(s, Jumped(s, faults))
    {
    }

    lemma JumpShift(rules: seq<ParentRule>, j: Jump, faults: seq<bool>, k: nat, m: nat)
      ensures JumpFails(rules, j, Rest(faults, k), m) == JumpFails(rules, j, faults, k + m)
      ensures JumpCost(rules, j, Rest(faults, k), m) == JumpCost(rules, j, faults, k + m)
      ensures JumpStep(rules, j, Rest(faults, k), m) == JumpStep(rules, j, faults, k + m)
    {
    }

    lemma ApplyComposes(s: HostState, c: C.Compiled, faults: seq<bool>)
      requires !WriteFails(Matching(s, c), faults)
      ensures var s1 := s.(chains := Applied(s, c, Mark(c)).chains);
        var k := WriteCost(Matching(s, c), faults);
        && Jumped(s1, Rest(faults, k)) == AppliedUnder(s, c, faults)
        && JumpsFail(s1, Rest(faults, k)) == ApplyFails(s, c, faults)
        && k + JumpsCost(s1, Rest(faults, k)) == ApplyCost(s, c, faults)
    {
      var k := WriteCost(Matching(s, c), faults);
      JumpShift(s.forward, ForwardJump, faults, k, 0);
      JumpShift(s.input, InputJump, faults, k, JumpCost(s.forward, ForwardJump, faults, k));
    }

    predicate ApplyFails(s: HostState, c: C.Compiled, faults: seq<bool>) {
      var k := WriteCost(Matching(s, c), faults);
      || WriteFails(Matching(s, c), faults)
      || JumpFails(s.forward, ForwardJump, faults, k)
      || JumpFails(s.input, InputJump, faults, k + JumpCost(s.forward, ForwardJump, faults, k))
    }

    lemma SucceedsWithoutFaults(s: HostState, c: C.Compiled)
      ensures !ApplyFails(s, c, [])
    {
    }

    /** The number of commands that Apply takes from the schedule. */
    function ApplyCost(s: HostState, c: C.Compiled, faults: seq<bool>): nat {
      var k := WriteCost(Matching(s, c), faults);
      if WriteFails(Matching(s, c), faults) then k
      else
        var k' := k + JumpCost(s.forward, ForwardJump, faults, k);
        k' + JumpCost(s.input, InputJump, faults, k')
    }

    /** The state after Apply on a host whose commands fail as faults says. */
    function AppliedUnder(s: HostState, c: C.Compiled, faults: seq<bool>): HostState {
      var k := WriteCost(Matching(s, c), faults);
      if WriteFails(Matching(s, c), faults) then s
      else
        Applied(s, c, Mark(c)).(
          forward := JumpStep(s.forward, ForwardJump, faults, k),
          input := JumpStep(s.input, InputJump, faults, k + JumpCost(s.forward, ForwardJump, faults, k)))
    }

    /** The second jump goes in although the first one failed: on a host that holds the set, the
        third command reads FORWARD and fails, and the next two read INPUT and write to it. */
    lemma SecondJumpGoesOn(s: HostState, c: C.Compiled, faults: seq<bool>)
      requires Matching(s, c) && NoFaults(faults, 2) && FaultAt(faults, 2) && !FaultAt(faults, 3) && !FaultAt(faults, 4)
      ensures var t := AppliedUnder(s, c, faults);
        && t.forward == s.forward && t.input == FirstUnlessHeld(s.input, DaemonJump("HYDRASCALE-OUT"))
      ensures ApplyFails(s, c, faults)
    {
    }

    /** A state between the start and the end of Apply: nothing else changes. */
    predicate OnTheWay(s: HostState, c: C.Compiled, t: HostState) {
      && t == s.(chains := t.chains, forward := t.forward, input := t.input)
      && t.chains in {s.chains, Applied(s, c, Mark(c)).chains}
      && t.forward in {s.forward, EnsureJump(s.forward, ForwardJump)}
      && t.input in {s.input, EnsureJump(s.input, InputJump)}
    }

    lemma NeedsNoWriteExactly(s: HostState, c: C.Compiled)
      requires Sound() && Honest(s) && P.Serializable(c, text, bytes)
      ensures Applied(s, c, Mark(c)) == s <==>
        Matching(s, c) && Jumps(s.forward, C.FORWARD_CHAIN) && Jumps(s.input, C.OUT_CHAIN)
    {
      AppliedNeedsNoWrite(s, c);
      if Matching(s, c) {
        MatchingIsHeld(s, c);
      }
    }

    function ChainDifference(live: string, want: string, chain: string): seq<Difference> {
      if live == want then [] else if live == "" then [WriteAbsent(chain)] else [WriteOther(chain, live)]
    }

    /** What the answers say of one chain: absent when it carries no fingerprint, and its live
        fingerprint when that is another one. */
    ghost predicate SaysOf(diffs: seq<Difference>, chain: string, live: string, want: string) {
      && (WriteAbsent(chain) in diffs <==> live == "" && want != "")
      && forall other :: WriteOther(chain, other) in diffs <==> live != want && live != "" && other == live
    }

    lemma DifferencesSay(forward: string, out: string, want: string, missing: seq<Difference>)
      requires forall d :: d in missing ==> d.InsertRule?
      ensures var diffs := ChainDifference(forward, want, C.FORWARD_CHAIN) + ChainDifference(out, want, C.OUT_CHAIN) + missing;
        && SaysOf(diffs, "HYDRASCALE-FWD", forward, want) && SaysOf(diffs, "HYDRASCALE-OUT", out, want)
        && forall j :: InsertRule(j) in diffs <==> InsertRule(j) in missing
    {
      assert C.FORWARD_CHAIN[11] != C.OUT_CHAIN[11];
    }

    method JumpAbsent(j: Jump) returns (ok: bool, absent: bool)
      modifies host`faults
      ensures ok ==> (absent <==> !Jumps(ParentOf(host.state, j), ChainOf(j)))
      ensures ok == !FaultAt(old(host.faults), 0) && host.faults == Rest(old(host.faults), 1)
    {
      var rules;
      ok, rules := host.ReadParent(j);
      var at := PlacementOf(rules, j);
      PlacementMeaning(rules, j);
      absent := at.position == 0;
    }

    /** Check: it writes nothing, and it reports no difference exactly when Apply would change
        nothing. */
    method Check(c: C.Compiled) returns (ok: bool, diffs: seq<Difference>)
      requires Sound() && Honest(host.state) && P.Serializable(c, text, bytes)
      modifies host`faults
      ensures ok ==> (diffs == [] <==> Applied(host.state, c, Mark(c)) == host.state)
      ensures ok <==> NoFaults(old(host.faults), 4)
      ensures ok ==> SaysOf(diffs, "HYDRASCALE-FWD", LiveMark(host.state.chains, "HYDRASCALE-FWD"), Mark(c))
      ensures ok ==> SaysOf(diffs, "HYDRASCALE-OUT", LiveMark(host.state.chains, "HYDRASCALE-OUT"), Mark(c))
      ensures ok ==> (InsertRule(ForwardJump) in diffs <==> DaemonJump("HYDRASCALE-FWD") !in host.state.forward)
      ensures ok ==> (InsertRule(InputJump) in diffs <==> DaemonJump("HYDRASCALE-OUT") !in host.state.input)
    {
      NoFaultsSplit(host.faults, 2, 2);
      NoFaultsNext(host.faults, 0);
      NoFaultsNext(host.faults, 1);
      diffs := [];
      NeedsNoWriteExactly(host.state, c);
      var want := Fingerprint(c);
      var forward, out, missing;
      ok, forward, out := LiveFingerprints();
      if !ok {
        return;
      }
      diffs := ChainDifference(forward, want, C.FORWARD_CHAIN) + ChainDifference(out, want, C.OUT_CHAIN);
      assert diffs == [] <==> Matching(host.state, c);
      ok, missing := JumpDifferences();
      DifferencesSay(forward, out, want, missing);
      diffs := diffs + missing;
    }

    /** The jump part of Check: it names each jump that its parent does not hold. */
    method JumpDifferences() returns (ok: bool, diffs: seq<Difference>)
      modifies host`faults
      ensures ok <==> NoFaults(old(host.faults), 2)
      ensures ok ==>
        && (InsertRule(ForwardJump) in diffs <==> !Jumps(host.state.forward, C.FORWARD_CHAIN))
        && (InsertRule(InputJump) in diffs <==> !Jumps(host.state.input, C.OUT_CHAIN))
        && (diffs == [] <==> Jumps(host.state.forward, C.FORWARD_CHAIN) && Jumps(host.state.input, C.OUT_CHAIN))
      ensures forall d :: d in diffs ==> d.InsertRule?
    {
      NoFaultsNext(host.faults, 0);
      NoFaultsNext(host.faults, 1);
      diffs := [];
      var absent;
      ok, absent := JumpAbsent(ForwardJump);
      if !ok {
        return;
      }
      if absent {
        diffs := diffs + [InsertRule(ForwardJump)];
      }
      ok, absent := JumpAbsent(InputJump);
      if !ok {
        return;
      }
      if absent {
        diffs := diffs + [InsertRule(InputJump)];
      }
    }

    /** deleteRule: an absent rule or chain is a success. */
    method DeleteRule(outcome: Outcome) returns (failed: bool)
      modifies host
      ensures failed <==> FaultAt(old(host.faults), 0) || outcome.Refused?
      ensures host.state == if !failed && outcome.Done? then outcome.state else old(host.state)
      ensures host.faults == Rest(old(host.faults), 1)
      ensures host.history == old(host.history) + [host.state]
    {
      var ok, gone := host.Edit(outcome);
      failed := !ok && !gone;
    }

    /** No second jump of the daemon holds a chain on the host. */
    predicate Removable(s: HostState) {
      forall chain :: chain in [C.FORWARD_CHAIN, C.OUT_CHAIN] && chain in s.chains ==>
        !Jumps(TornDown(s).forward, chain) && !Jumps(TornDown(s).input, chain)
    }

    /** A chain whose flush is command k of the schedule stays: its delete failed, a failed
        flush left rules in it, or a jump still holds it. */
    predicate Stays(s: HostState, chain: string, faults: seq<bool>, k: nat) {
      chain in s.chains &&
      (FaultAt(faults, k + 1) || (FaultAt(faults, k) && s.chains[chain] != []) || Jumps(s.forward, chain) || Jumps(s.input, chain))
    }

    function WithoutChain(s: HostState, chain: string, faults: seq<bool>, k: nat): HostState {
      s.(chains :=
        if Stays(s, chain, faults, k) then if FaultAt(faults, k) then s.chains else s.chains[chain := []]
        else s.chains - {chain})
    }

    /** Only the chain differs, and not where both ends agree on it. */
    predicate ChainOnly(s: HostState, e: HostState, t: HostState, chain: string) {
      && t.forward == s.forward && (ChainKept(s, e, chain) ==> ChainKept(s, t, chain))
      && forall other :: other in s.chains && other != chain ==> ChainKept(s, t, other)
    }

    /** Flush and delete one chain. */
    method RemoveChain(chain: string) returns (failed: bool)
      modifies host
      ensures host.state == WithoutChain(old(host.state), chain, old(host.faults), 0)
      ensures failed <==> FaultAt(old(host.faults), 0) || FaultAt(old(host.faults), 1) || Stays(old(host.state), chain, old(host.faults), 0)
      ensures host.faults == Rest(old(host.faults), 2)
      ensures |host.history| == |old(host.history)| + 2 && old(host.history) <= host.history
      ensures forall i :: |old(host.history)| <= i < |host.history| ==> SameSysctl(host.history[i], old(host.state))
      ensures forall i :: |old(host.history)| <= i < |host.history| ==> ChainOnly(old(host.state), host.state, host.history[i], chain)
    {
      ghost var s := host.state;
      RestOfRest(host.faults, 1, 1);
      var f0 := DeleteRule(Flush(host.state, chain));
      var f1 := DeleteRule(DeleteChain(host.state, chain));
      failed := f0 || f1;
      if chain in s.chains {
        assert s.chains[chain := []] - {chain} == s.chains - {chain};
      } else {
        assert s.chains - {chain} == s.chains;
      }
    }

    /** The state after the two jump commands. */
    function WithoutJumps(s: HostState, faults: seq<bool>): HostState {
      s.(forward := if FaultAt(faults, 0) then s.forward else TornDown(s).forward,
         input := if FaultAt(faults, 1) then s.input else TornDown(s).input)
    }

    method RemoveJumps() returns (failed: bool)
      modifies host
      ensures host.state == WithoutJumps(old(host.state), old(host.faults))
      ensures failed <==> FaultAt(old(host.faults), 0) || FaultAt(old(host.faults), 1)
      ensures host.faults == Rest(old(host.faults), 2)
      ensures |host.history| == |old(host.history)| + 2 && old(host.history) <= host.history
      ensures forall i :: |old(host.history)| <= i < |host.history| ==> SameSysctl(host.history[i], old(host.state))
      ensures forall i :: |old(host.history)| <= i < |host.history| ==>
        host.history[i].chains == old(host.state).chains && host.history[i].forward == host.state.forward
    {
      RemoveAbsentJump(host.state);
      RestOfRest(host.faults, 1, 1);
      var f0 := DeleteRule(DeleteJump(host.state, ForwardJump));
      var f1 := DeleteRule(DeleteJump(host.state, InputJump));
      failed := f0 || f1;
    }

    /** The state after Teardown on a host whose commands fail as faults says. */
    function TornDownUnder(s: HostState, faults: seq<bool>): HostState {
      WithoutChain(WithoutChain(WithoutJumps(s, faults), C.FORWARD_CHAIN, faults, 2), C.OUT_CHAIN, faults, 4)
    }

    /** Teardown: six commands, and a failed command does not stop the next one. Each jump goes
        unless its own command fails, each chain goes unless it Stays, and whatever fails,
        every operator rule and every other chain stays. */
    method Teardown() returns (failed: bool)
      modifies host
      ensures host.state == TornDownUnder(old(host.state), old(host.faults))
      ensures host.faults == Rest(old(host.faults), 6)
      ensures failed <==>
        || (exists k :: 0 <= k < 6 && FaultAt(old(host.faults), k))
        || C.FORWARD_CHAIN in host.state.chains || C.OUT_CHAIN in host.state.chains
      ensures !failed ==> host.state == TornDown(old(host.state))
      ensures (forall k :: 0 <= k < 6 ==> !FaultAt(old(host.faults), k)) ==> (failed <==> !Removable(old(host.state)))
      ensures Operators(host.state.forward) == Operators(old(host.state).forward)
      ensures Operators(host.state.input) == Operators(old(host.state).input)
      ensures forall chain :: chain !in {C.FORWARD_CHAIN, C.OUT_CHAIN} && chain in old(host.state).chains ==>
        chain in host.state.chains && host.state.chains[chain] == old(host.state).chains[chain]
      ensures SameSysctl(host.state, old(host.state))
      ensures old(host.history) <= host.history
      ensures forall i :: |old(host.history)| <= i < |host.history| ==> SameSysctl(host.history[i], old(host.state))
      ensures forall i :: |old(host.history)| <= i < |host.history| ==> ForwardKept(old(host.state), host.state, host.history[i])
    {
      ghost var s0, f, h0 := host.state, host.faults, host.history;
      RestOfRest(f, 2, 2);
      RestOfRest(f, 4, 2);
      var f0 := RemoveJumps();
      ghost var s1, h1 := host.state, host.history;
      var f1 := RemoveChain(C.FORWARD_CHAIN);
      StaysAt(s1, C.FORWARD_CHAIN, f, 2);
      ghost var s2, h2 := host.state, host.history;
      var f2 := RemoveChain(C.OUT_CHAIN);
      StaysAt(s2, C.OUT_CHAIN, f, 4);
      forall i | |h0| <= i < |host.history|
        ensures ForwardKept(s0, host.state, host.history[i])
      {
        assert i < |h1| ==> host.history[i] == h1[i];
        assert i < |h2| ==> host.history[i] == h2[i];
        ForwardPath(s0, s1, s2, host.state, f, host.history[i]);
      }
      failed := f0 || f1 || f2;
      TeardownKeeps(s0, f);
      TeardownFails(s0, f, failed);
    }

    /** A chain of s that its two commands leave: the delete fails, the chain is not empty
        because the flush fails, or a jump of t leads to it. */
    predicate LeftBehind(s: HostState, t: HostState, chain: string, flushFails: bool, deleteFails: bool) {
      chain in s.chains &&
      (deleteFails || (flushFails && s.chains[chain] != []) || DaemonJump(chain) in t.forward || DaemonJump(chain) in t.input)
    }

    /** No step of Teardown waits for another one. Command 0 and command 1 take out the first
        jump of FORWARD and of INPUT, commands 2 and 3 empty and delete the forward chain, and
        commands 4 and 5 the out chain; iptables deletes a chain only when it is empty and no
        jump to it is left. */
    lemma EveryStepOfTeardownRuns(s: HostState, faults: seq<bool>)
      ensures var t := TornDownUnder(s, faults);
        && t.forward == (if FaultAt(faults, 0) || "HYDRASCALE-FWD" !in s.chains then s.forward else RemoveFirst(s.forward, "HYDRASCALE-FWD"))
        && t.input == (if FaultAt(faults, 1) || "HYDRASCALE-OUT" !in s.chains then s.input else RemoveFirst(s.input, "HYDRASCALE-OUT"))
        && (LeftBehind(s, t, "HYDRASCALE-FWD", FaultAt(faults, 2), FaultAt(faults, 3)) <==> "HYDRASCALE-FWD" in t.chains)
        && (LeftBehind(s, t, "HYDRASCALE-OUT", FaultAt(faults, 4), FaultAt(faults, 5)) <==> "HYDRASCALE-OUT" in t.chains)
    {
      assert C.FORWARD_CHAIN[11] != C.OUT_CHAIN[11];
    }

    lemma ForwardPath(s0: HostState, s1: HostState, s2: HostState, s3: HostState, faults: seq<bool>, t: HostState)
      requires s1 == WithoutJumps(s0, faults) && s2 == WithoutChain(s1, C.FORWARD_CHAIN, faults, 2) && s3 == WithoutChain(s2, C.OUT_CHAIN, faults, 4)
      requires (t.chains == s0.chains && t.forward == s1.forward) || ChainOnly(s1, s2, t, C.FORWARD_CHAIN) || ChainOnly(s2, s3, t, C.OUT_CHAIN)
      ensures ForwardKept(s0, s3, t)
    {
      assert C.FORWARD_CHAIN[11] != C.OUT_CHAIN[11];
    }

    lemma StaysAt(s: HostState, chain: string, faults: seq<bool>, k: nat)
      ensures WithoutChain(s, chain, Rest(faults, k), 0) == WithoutChain(s, chain, faults, k)
      ensures Stays(s, chain, Rest(faults, k), 0) == Stays(s, chain, faults, k)
    {
    }

    lemma TeardownKeeps(s: HostState, faults: seq<bool>)
      ensures var t := TornDownUnder(s, faults);
        && Operators(t.forward) == Operators(s.forward) && Operators(t.input) == Operators(s.input)
        && forall chain :: chain !in {C.FORWARD_CHAIN, C.OUT_CHAIN} && chain in s.chains ==> chain in t.chains && t.chains[chain] == s.chains[chain]
    {
      OperatorsKept(s.forward, C.FORWARD_CHAIN, ForwardJump);
      OperatorsKept(s.input, C.OUT_CHAIN, InputJump);
    }

    lemma TeardownFails(s: HostState, faults: seq<bool>, failed: bool)
      requires var s1 := WithoutJumps(s, faults); var s2 := WithoutChain(s1, C.FORWARD_CHAIN, faults, 2);
        failed == (FaultAt(faults, 0) || FaultAt(faults, 1)
                   || FaultAt(faults, 2) || FaultAt(faults, 3) || Stays(s1, C.FORWARD_CHAIN, faults, 2)
                   || FaultAt(faults, 4) || FaultAt(faults, 5) || Stays(s2, C.OUT_CHAIN, faults, 4))
      ensures var t := TornDownUnder(s, faults);
        && (failed <==> (exists k :: 0 <= k < 6 && FaultAt(faults, k)) || C.FORWARD_CHAIN in t.chains || C.OUT_CHAIN in t.chains)
        && (!failed ==> t == TornDown(s))
        && ((forall k :: 0 <= k < 6 ==> !FaultAt(faults, k)) ==> (failed <==> !Removable(s)))
    {
      assert C.FORWARD_CHAIN[11] != C.OUT_CHAIN[11];
      assert s.chains - {C.FORWARD_CHAIN} - {C.OUT_CHAIN} == s.chains - {C.FORWARD_CHAIN, C.OUT_CHAIN};
      if failed && !(exists k :: 0 <= k < 6 && FaultAt(faults, k)) {
        assert forall k :: 0 <= k < 6 ==> !FaultAt(faults, k);
      }
    }

    lemma RemoveAbsentJump(s: HostState)
      ensures !Jumps(s.forward, C.FORWARD_CHAIN) ==> RemoveFirst(s.forward, C.FORWARD_CHAIN) == s.forward
      ensures !Jumps(s.input, C.OUT_CHAIN) ==> RemoveFirst(s.input, C.OUT_CHAIN) == s.input
    {
      if !Jumps(s.forward, C.FORWARD_CHAIN) {
        RemoveNone(s.forward, C.FORWARD_CHAIN);
      }
      if !Jumps(s.input, C.OUT_CHAIN) {
        RemoveNone(s.input, C.OUT_CHAIN);
      }
    }
  }

  lemma SplitHistory(h0: seq<HostState>, h1: seq<HostState>, h2: seq<HostState>)
    requires h0 <= h1 <= h2
    ensures forall s :: s in h2[|h0|..] ==> s in h1[|h0|..] || s in h2[|h1|..]
  {
    assert h2[|h0|..] == h1[|h0|..] + h2[|h1|..];
  }
}
