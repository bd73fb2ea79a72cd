/** The daemon beside the rules of the operator: what FORWARD and INPUT decide with the jump
    rules of the daemon in place, compared with the same chains without them. */
module Coexistence {
  import opened Text
  import N = Netfilter
  import R = AccessRules
  import C = AccessCompile
  import F = RestoreFile
  import K = CompileCorrect
  import A = AccessTheorems
  import W = ChainWriter
  import opened HostTables

  /** The effect of every operator rule on every packet, with all the chains it may enter. */
  type Effect = (nat, N.Packet) -> N.Verdict

  /** The verdict of a built-in chain: a RETURN and the end of the chain both give the policy,
      and a chain of the daemon that takes no decision gives the packet back. */
  function Decide(rules: seq<ParentRule>, chains: F.Chains, effect: Effect, policy: N.Verdict, p: N.Packet): N.Verdict {
    if rules == [] then policy
    else
      match rules[0]
      case Operator(id) =>
        (match effect(id, p)
         case Through => Decide(rules[1..], chains, effect, policy, p)
         case Returned => policy
         case verdict => verdict)
      case DaemonJump(chain) =>
        match if chain in chains then N.Walk(chains[chain], p) else N.Through
        case Accepted => N.Accepted
        case Dropped => N.Dropped
        case _ => Decide(rules[1..], chains, effect, policy, p)
  }

  /** The rule takes no decision about the packet. */
  predicate Passes(rule: ParentRule, chains: F.Chains, effect: Effect, p: N.Packet) {
    match rule
    case Operator(id) => effect(id, p).Through?
    case DaemonJump(chain) => chain in chains ==> N.Walk(chains[chain], p).Returned? || N.Walk(chains[chain], p).Through?
  }

  /** A chain that gives the packet back leaves the decision to the operator, wherever the
      jump sits and however many jumps there are. */
  lemma {:induction false} JumpsThatReturnDoNotShow(rules: seq<ParentRule>, chains: F.Chains, effect: Effect, policy: N.Verdict, p: N.Packet)
    requires forall chain :: DaemonJump(chain) in rules && chain in chains ==>
      N.Walk(chains[chain], p).Returned? || N.Walk(chains[chain], p).Through?
    ensures Decide(rules, chains, effect, policy, p) == Decide(Operators(rules), chains, effect, policy, p)
  {
    if rules != [] {
      JumpsThatReturnDoNotShow(rules[1..], chains, effect, policy, p);
      assert rules == [rules[0]] + rules[1..];
      if rules[0].Operator? {
        assert Operators(rules)[0] == rules[0] && Operators(rules)[1..] == Operators(rules[1..]);
      } else {
        assert rules[0] in rules;
        assert Operators(rules) == Operators(rules[1..]);
      }
    }
  }

  /** A chain that decides about the packet does so when no rule above its first jump does. */
  lemma {:induction false} FirstJumpDecides(rules: seq<ParentRule>, j: Jump, chains: F.Chains, effect: Effect, policy: N.Verdict, p: N.Packet)
    requires Jumps(rules, ChainOf(j)) && ChainOf(j) in chains
    requires N.Walk(chains[ChainOf(j)], p).Accepted? || N.Walk(chains[ChainOf(j)], p).Dropped?
    requires forall rule :: rule in W.PlacementIn(rules, j).above ==> Passes(rule, chains, effect, p)
    ensures Decide(rules, chains, effect, policy, p) == N.Walk(chains[ChainOf(j)], p)
  {
    W.PlacementMeaning(rules, j);
    if rules[0] != DaemonJump(ChainOf(j)) {
      var rest := rules[1..];
      W.PlacementMeaning(rest, j);
      assert rules == [rules[0]] + rest;
      assert Jumps(rest, ChainOf(j));
      assert W.PlacementIn(rules, j).above == [rules[0]] + W.PlacementIn(rest, j).above;
      assert Passes(rules[0], chains, effect, p);
      FirstJumpDecides(rest, j, chains, effect, policy, p);
    }
  }

  /** After an Apply without failures the chains of the daemon decide first: on a parent that
      held no jump, the jump stands at position 1 with nothing above it, so a packet that the
      chain accepts or drops gets that verdict, whatever the rules of the operator say. */
  lemma AppliedDecides(s: HostState, c: C.Compiled, mark: string, effect: Effect, policy: N.Verdict, p: N.Packet)
    ensures DaemonJump("HYDRASCALE-FWD") !in s.forward ==>
      var t := W.Applied(s, c, mark);
      var verdict := N.Walk(F.LiveForward(c, mark), p);
      && W.PlacementIn(t.forward, ForwardJump) == W.Placement(ForwardJump, 1, [])
      && (verdict == N.Accepted || verdict == N.Dropped ==> Decide(t.forward, t.chains, effect, policy, p) == verdict)
      && (verdict == N.Returned || verdict == N.Through ==>
          Decide(t.forward, t.chains, effect, policy, p) == Decide(s.forward, t.chains, effect, policy, p))
    ensures DaemonJump("HYDRASCALE-OUT") !in s.input ==>
      var t := W.Applied(s, c, mark);
      var verdict := N.Walk(F.LiveOut(c, mark), p);
      && W.PlacementIn(t.input, InputJump) == W.Placement(InputJump, 1, [])
      && (verdict == N.Accepted || verdict == N.Dropped ==> Decide(t.input, t.chains, effect, policy, p) == verdict)
      && (verdict == N.Returned || verdict == N.Through ==>
          Decide(t.input, t.chains, effect, policy, p) == Decide(s.input, t.chains, effect, policy, p))
  {
    assert C.FORWARD_CHAIN[11] != C.OUT_CHAIN[11];
    var t := W.Applied(s, c, mark);
    HeadDecides(t.forward, C.FORWARD_CHAIN, s.forward, t.chains, effect, policy, p);
    HeadDecides(t.input, C.OUT_CHAIN, s.input, t.chains, effect, policy, p);
  }

  lemma HeadDecides(rules: seq<ParentRule>, chain: string, rest: seq<ParentRule>, chains: F.Chains, effect: Effect, policy: N.Verdict, p: N.Packet)
    requires chain in chains
    ensures rules == [DaemonJump(chain)] + rest ==>
      var verdict := N.Walk(chains[chain], p);
      Decide(rules, chains, effect, policy, p) ==
        if verdict == N.Accepted || verdict == N.Dropped then verdict else Decide(rest, chains, effect, policy, p)
  {
    if rules == [DaemonJump(chain)] + rest {
      assert rules[0] == DaemonJump(chain) && rules[1..] == rest;
    }
  }

  /** No rule above the first jump decides about the packet, and there is a jump. */
  predicate ReachesJump(rules: seq<ParentRule>, j: Jump, chains: F.Chains, effect: Effect, p: N.Packet) {
    Jumps(rules, ChainOf(j)) && forall rule :: rule in W.PlacementIn(rules, j).above ==> Passes(rule, chains, effect, p)
  }

  /** Otherwise the operator's rules decide as they would alone. */
  lemma {:induction false} OperatorDecidesAbove(rules: seq<ParentRule>, j: Jump, chains: F.Chains, effect: Effect, policy: N.Verdict, p: N.Packet)
    requires forall chain :: DaemonJump(chain) in rules ==> chain == ChainOf(j)
    requires !ReachesJump(rules, j, chains, effect, p)
    ensures Decide(rules, chains, effect, policy, p) == Decide(Operators(rules), chains, effect, policy, p)
  {
    if rules != [] {
      var first, rest := rules[0], rules[1..];
      assert rules == [first] + rest;
      if first.Operator? {
        ReachesNext(rules, j, chains, effect, p);
        OperatorHead(first, rest);
        if effect(first.id, p).Through? {
          OperatorDecidesAbove(rest, j, chains, effect, policy, p);
        }
      } else {
        assert first in rules;
        assert W.PlacementIn(rules, j).above == [];
        assert ReachesJump(rules, j, chains, effect, p);
      }
    }
  }

  lemma OperatorHead(first: ParentRule, rest: seq<ParentRule>)
    requires first.Operator?
    ensures Operators([first] + rest) != [] && Operators([first] + rest)[0] == first && Operators([first] + rest)[1..] == Operators(rest)
  {
    assert ([first] + rest)[1..] == rest;
  }

  /** A rule above the jump must pass the packet on. */
  lemma ReachesNext(rules: seq<ParentRule>, j: Jump, chains: F.Chains, effect: Effect, p: N.Packet)
    requires rules != [] && rules[0] != DaemonJump(ChainOf(j))
    ensures ReachesJump(rules, j, chains, effect, p) <==> ReachesJump(rules[1..], j, chains, effect, p) && Passes(rules[0], chains, effect, p)
  {
    var rest := rules[1..];
    W.PlacementMeaning(rest, j);
    assert rules == [rules[0]] + rest;
    assert Jumps(rules, ChainOf(j)) <==> Jumps(rest, ChainOf(j));
    if Jumps(rest, ChainOf(j)) {
      assert W.PlacementIn(rules, j).above == [rules[0]] + W.PlacementIn(rest, j).above;
    }
  }

  /** FORWARD: a packet that touches no namespace device and meets no guard gets the verdict
      that the operator rules alone give it, for every operator rule list. */
  lemma ForwardNonInterference(s: HostState, access: R.RuleSet, topo: C.TopologyIPv6, mark: string,
                               effect: Effect, policy: N.Verdict, p: N.Packet)
    requires R.ValidSet(access, topo.devices.Keys) && A.OfFamily(topo.prefixes, 16) && |p.destination| == 16
    requires C.RangesOf(topo.prefixes).Some?
    requires C.FORWARD_CHAIN in s.chains
    requires s.chains[C.FORWARD_CHAIN] == F.LiveForward(C.CompiledV6(access, topo, A.Closing(access.mode)), mark)
    requires forall chain :: DaemonJump(chain) in s.forward ==> chain == C.FORWARD_CHAIN
    requires !N.TouchesNamespace(p) && !K.Guarded(topo.guarded, p)
    ensures Decide(s.forward, s.chains, effect, policy, p) == Decide(Operators(s.forward), s.chains, effect, policy, p)
  {
    A.ForwardCorrectV6(access, topo, mark, p);
    JumpsThatReturnDoNotShow(s.forward, s.chains, effect, policy, p);
  }

  lemma ForwardNonInterferenceV4(s: HostState, access: R.RuleSet, topo: C.Topology, mark: string,
                                 effect: Effect, policy: N.Verdict, p: N.Packet)
    requires R.ValidSet(access, topo.devices.Keys) && topo.resolver.Some? && |p.destination| == 4
    requires C.FORWARD_CHAIN in s.chains
    requires s.chains[C.FORWARD_CHAIN] == F.LiveForward(C.CompiledV4(access, topo, A.Closing(access.mode)), mark)
    requires forall chain :: DaemonJump(chain) in s.forward ==> chain == C.FORWARD_CHAIN
    requires !N.TouchesNamespace(p)
    ensures Decide(s.forward, s.chains, effect, policy, p) == Decide(Operators(s.forward), s.chains, effect, policy, p)
  {
    A.ForwardCorrectV4(access, topo, mark, p);
    JumpsThatReturnDoNotShow(s.forward, s.chains, effect, policy, p);
  }

  /** INPUT: the same for a packet from an undeclared device, unless it belongs to a
      connection that exists: the out chain accepts such a packet with no device match. */
  lemma InputNonInterference(s: HostState, access: R.RuleSet, topo: C.Topology, mark: string,
                             effect: Effect, policy: N.Verdict, p: N.Packet)
    requires R.ValidSet(access, topo.devices.Keys) && topo.resolver.Some?
    requires C.OUT_CHAIN in s.chains
    requires s.chains[C.OUT_CHAIN] == F.LiveOut(C.CompiledV4(access, topo, A.Closing(access.mode)), mark)
    requires forall chain :: DaemonJump(chain) in s.input ==> chain == C.OUT_CHAIN
    requires !K.FromDeclared(topo.devices, p)
    ensures !p.established ==> Decide(s.input, s.chains, effect, policy, p) == Decide(Operators(s.input), s.chains, effect, policy, p)
    ensures p.established ==> N.Walk(s.chains[C.OUT_CHAIN], p) == N.Accepted
  {
    A.OutCorrectV4(access, topo, mark, p);
    assert !(exists rule :: rule in access.rules && K.AllowsHost(rule, topo.devices, p));
    if !p.established {
      JumpsThatReturnDoNotShow(s.input, s.chains, effect, policy, p);
    }
  }

  lemma InputNonInterferenceV6(s: HostState, access: R.RuleSet, topo: C.TopologyIPv6, mark: string,
                               effect: Effect, policy: N.Verdict, p: N.Packet)
    requires R.ValidSet(access, topo.devices.Keys) && C.RangesOf(topo.prefixes).Some?
    requires C.OUT_CHAIN in s.chains
    requires s.chains[C.OUT_CHAIN] == F.LiveOut(C.CompiledV6(access, topo, A.Closing(access.mode)), mark)
    requires forall chain :: DaemonJump(chain) in s.input ==> chain == C.OUT_CHAIN
    requires !K.FromDeclared(topo.devices, p)
    ensures !p.established ==> Decide(s.input, s.chains, effect, policy, p) == Decide(Operators(s.input), s.chains, effect, policy, p)
    ensures p.established ==> N.Walk(s.chains[C.OUT_CHAIN], p) == N.Accepted
  {
    A.OutCorrectV6(access, topo, mark, p);
    assert !(exists rule :: rule in access.rules && K.AllowsHost(rule, topo.devices, p));
    if !p.established {
      JumpsThatReturnDoNotShow(s.input, s.chains, effect, policy, p);
    }
  }

  /** A chain that accepts the packet: the verdict of the parent differs from the operator's own
      exactly when no rule above the jump decides and the operator does not accept. */
  lemma AcceptShowsExactly(rules: seq<ParentRule>, j: Jump, chains: F.Chains, effect: Effect, policy: N.Verdict, p: N.Packet)
    requires ChainOf(j) in chains && N.Walk(chains[ChainOf(j)], p).Accepted?
    requires forall chain :: DaemonJump(chain) in rules ==> chain == ChainOf(j)
    ensures Decide(rules, chains, effect, policy, p) ==
      if ReachesJump(rules, j, chains, effect, p) then N.Accepted else Decide(Operators(rules), chains, effect, policy, p)
    ensures Decide(rules, chains, effect, policy, p) != Decide(Operators(rules), chains, effect, policy, p) <==>
      ReachesJump(rules, j, chains, effect, p) && Decide(Operators(rules), chains, effect, policy, p) != N.Accepted
  {
    if ReachesJump(rules, j, chains, effect, p) {
      FirstJumpDecides(rules, j, chains, effect, policy, p);
    } else {
      OperatorDecidesAbove(rules, j, chains, effect, policy, p);
    }
  }

  /** INPUT: an established packet of an undeclared device gets another verdict than the
      operator's own exactly when no rule above the jump decides about it and the operator's
      rules do not accept it. */
  lemma EstablishedDiffersExactly(s: HostState, access: R.RuleSet, topo: C.Topology, mark: string,
                                  effect: Effect, policy: N.Verdict, p: N.Packet)
    requires R.ValidSet(access, topo.devices.Keys) && topo.resolver.Some?
    requires C.OUT_CHAIN in s.chains
    requires s.chains[C.OUT_CHAIN] == F.LiveOut(C.CompiledV4(access, topo, A.Closing(access.mode)), mark)
    requires forall chain :: DaemonJump(chain) in s.input ==> chain == C.OUT_CHAIN
    requires p.established
    ensures Decide(s.input, s.chains, effect, policy, p) != Decide(Operators(s.input), s.chains, effect, policy, p) <==>
      ReachesJump(s.input, InputJump, s.chains, effect, p) && Decide(Operators(s.input), s.chains, effect, policy, p) != N.Accepted
  {
    A.OutCorrectV4(access, topo, mark, p);
    AcceptShowsExactly(s.input, InputJump, s.chains, effect, policy, p);
  }

  lemma EstablishedDiffersExactlyV6(s: HostState, access: R.RuleSet, topo: C.TopologyIPv6, mark: string,
                                    effect: Effect, policy: N.Verdict, p: N.Packet)
    requires R.ValidSet(access, topo.devices.Keys) && C.RangesOf(topo.prefixes).Some?
    requires C.OUT_CHAIN in s.chains
    requires s.chains[C.OUT_CHAIN] == F.LiveOut(C.CompiledV6(access, topo, A.Closing(access.mode)), mark)
    requires forall chain :: DaemonJump(chain) in s.input ==> chain == C.OUT_CHAIN
    requires p.established
    ensures Decide(s.input, s.chains, effect, policy, p) != Decide(Operators(s.input), s.chains, effect, policy, p) <==>
      ReachesJump(s.input, InputJump, s.chains, effect, p) && Decide(Operators(s.input), s.chains, effect, policy, p) != N.Accepted
  {
    A.OutCorrectV6(access, topo, mark, p);
    AcceptShowsExactly(s.input, InputJump, s.chains, effect, policy, p);
  }

  /** The exception is real: on a host whose operator drops every packet, the out chain of an
      empty rule set accepts a packet of an existing connection from a foreign device. */
  lemma EstablishedSkipsTheOperator(p: N.Packet, mark: string)
    requires p.established && p.input == "eth0"
    ensures var topo := C.Topology(map[], Some(C.Endpoint(C.V4(127, 0, 0, 1), 53)), map[]);
      var c := C.CompiledV4(R.RuleSet(R.ENFORCE, []), topo, C.ENFORCE_TAIL);
      var chains := map[C.OUT_CHAIN := F.LiveOut(c, mark)];
      var effect := (id: nat, q: N.Packet) => N.Dropped;
      && Decide([DaemonJump(C.OUT_CHAIN), Operator(0)], chains, effect, N.Dropped, p) == N.Accepted
      && Decide([Operator(0)], chains, effect, N.Dropped, p) == N.Dropped
  {
    var topo := C.Topology(map[], Some(C.Endpoint(C.V4(127, 0, 0, 1), 53)), map[]);
    A.OutCorrectV4(R.RuleSet(R.ENFORCE, []), topo, mark, p);
  }
}
