/** The filter table of the host and the sysctl keys of one address family: what each command
    of the daemon does to them. Any command may fail; a failed command changes nothing. */
module HostTables {
  import opened Text
  import opened Schedule
  import N = Netfilter
  import C = AccessCompile
  import F = RestoreFile

  /** The two jump rules that the daemon owns: FORWARD into the forward chain, INPUT into the
      out chain. */
  datatype Jump = ForwardJump | InputJump

  function ChainOf(j: Jump): string {
    match j
    case ForwardJump => C.FORWARD_CHAIN
    case InputJump => C.OUT_CHAIN
  }

  /** One rule of FORWARD or INPUT. An operator rule is a name for whatever it does. */
  datatype ParentRule = Operator(id: nat) | DaemonJump(chain: string)

  /** forwarding holds the devices whose force_forwarding is 1, and ours holds those that the
      daemon set and did not reset. */
  datatype HostState = HostState(
    chains: F.Chains,
    forward: seq<ParentRule>,
    input: seq<ParentRule>,
    forwarding: set<string>,
    ours: set<string>)

  function ParentOf(s: HostState, j: Jump): seq<ParentRule> {
    match j
    case ForwardJump => s.forward
    case InputJump => s.input
  }

  function WithParent(s: HostState, j: Jump, rules: seq<ParentRule>): HostState {
    match j
    case ForwardJump => s.(forward := rules)
    case InputJump => s.(input := rules)
  }

  predicate Jumps(rules: seq<ParentRule>, chain: string) {
    DaemonJump(chain) in rules
  }

  /** The rules of the operator in their order. */
  function Operators(rules: seq<ParentRule>): seq<ParentRule> {
    if rules == [] then []
    else (if rules[0].Operator? then [rules[0]] else []) + Operators(rules[1..])
  }

  /** iptables -D takes the first rule that matches. */
  function RemoveFirst(rules: seq<ParentRule>, chain: string): seq<ParentRule> {
    if rules == [] then []
    else if rules[0] == DaemonJump(chain) then rules[1..]
    else [rules[0]] + RemoveFirst(rules[1..], chain)
  }

  /** Done applied the command, Absent states that the rule or the chain is not present. */
  datatype Outcome = Done(state: HostState) | Absent | Refused

  function InsertJump(s: HostState, j: Jump): Outcome {
    if ChainOf(j) !in s.chains then Refused
    else Done(WithParent(s, j, [DaemonJump(ChainOf(j))] + ParentOf(s, j)))
  }

  function DeleteJump(s: HostState, j: Jump): Outcome {
    if ChainOf(j) !in s.chains || !Jumps(ParentOf(s, j), ChainOf(j)) then Absent
    else Done(WithParent(s, j, RemoveFirst(ParentOf(s, j), ChainOf(j))))
  }

  function Flush(s: HostState, chain: string): Outcome {
    if chain !in s.chains then Absent else Done(s.(chains := s.chains[chain := []]))
  }

  /** iptables -X refuses a chain that holds a rule or that a rule still jumps to. */
  function DeleteChain(s: HostState, chain: string): Outcome {
    if chain !in s.chains then Absent
    else if s.chains[chain] != [] || Jumps(s.forward, chain) || Jumps(s.input, chain) then Refused
    else Done(s.(chains := s.chains - {chain}))
  }

  /** The host behind the command runner. faults says which of the next commands fail; after
      the last entry no command fails. history holds the state after every command that
      could write. */
  class Host {
    var state: HostState
    var faults: seq<bool>
    var writes: nat
    ghost var history: seq<HostState>

    constructor (state: HostState, faults: seq<bool>)
      ensures this.state == state && this.faults == faults && writes == 0 && history == [state]
    {
      this.state, this.faults, this.writes := state, faults, 0;
      history := [state];
    }

    method Fault() returns (failed: bool)
      modifies `faults
      ensures failed == FaultAt(old(faults), 0) && faults == Rest(old(faults), 1)
    {
      failed := false;
      if faults != [] {
        failed, faults := faults[0], faults[1..];
      }
    }

    /** A command that only reads. */
    method ReadChain(chain: string) returns (ok: bool, rules: Option<seq<N.Rule>>)
      modifies `faults
      ensures ok == !FaultAt(old(faults), 0) && faults == Rest(old(faults), 1)
      ensures ok ==> rules == if chain in state.chains then Some(state.chains[chain]) else None
    {
      var failed := Fault();
      ok := !failed;
      rules := if chain in state.chains then Some(state.chains[chain]) else None;
    }

    method ReadParent(j: Jump) returns (ok: bool, rules: seq<ParentRule>)
      modifies `faults
      ensures ok == !FaultAt(old(faults), 0) && faults == Rest(old(faults), 1)
      ensures ok ==> rules == ParentOf(state, j)
    {
      var failed := Fault();
      ok := !failed;
      rules := ParentOf(state, j);
    }

    /** iptables-restore --noflush: all lines or none. */
    method Restore(lines: seq<F.Line>) returns (ok: bool)
      modifies this
      ensures ok == (!FaultAt(old(faults), 0) && F.RunFile(old(state).chains, lines).Some?)
      ensures state == if ok then old(state).(chains := F.RunFile(old(state).chains, lines).value) else old(state)
      ensures faults == Rest(old(faults), 1)
      ensures writes == old(writes) + 1 && history == old(history) + [state]
    {
      var failed := Fault();
      var result := F.RunFile(state.chains, lines);
      ok := !failed && result.Some?;
      if ok {
        state := state.(chains := result.value);
      }
      writes := writes + 1;
      history := history + [state];
    }

    /** A command that edits one rule or one chain. gone states the absent answer. */
    method Edit(outcome: Outcome) returns (ok: bool, gone: bool)
      modifies this
      ensures ok == (!FaultAt(old(faults), 0) && outcome.Done?)
      ensures gone == (!FaultAt(old(faults), 0) && outcome.Absent?)
      ensures state == if ok then outcome.state else old(state)
      ensures faults == Rest(old(faults), 1)
      ensures writes == old(writes) + 1 && history == old(history) + [state]
    {
      var failed := Fault();
      ok, gone := !failed && outcome.Done?, !failed && outcome.Absent?;
      if ok {
        state := outcome.state;
      }
      writes := writes + 1;
      history := history + [state];
    }

    /** sysctl -n of the force_forwarding key of one device. */
    method ReadForwarding(device: string) returns (ok: bool, on: bool)
      modifies `faults
      ensures ok == !FaultAt(old(faults), 0) && faults == Rest(old(faults), 1)
      ensures ok ==> (on <==> device in state.forwarding)
    {
      var failed := Fault();
      ok, on := !failed, device in state.forwarding;
    }

    /** sysctl -w of the force_forwarding key of one device. */
    method SetForwarding(device: string, on: bool) returns (ok: bool)
      modifies this
      ensures state ==
        if !ok then old(state)
        else if on then old(state).(forwarding := old(state).forwarding + {device}, ours := old(state).ours + {device})
        else old(state).(forwarding := old(state).forwarding - {device}, ours := old(state).ours - {device})
      ensures ok == !FaultAt(old(faults), 0) && faults == Rest(old(faults), 1)
      ensures writes == old(writes) + 1 && history == old(history) + [state]
    {
      var failed := Fault();
      ok := !failed;
      if ok {
        if on {
          state := state.(forwarding := state.forwarding + {device}, ours := state.ours + {device});
        } else {
          state := state.(forwarding := state.forwarding - {device}, ours := state.ours - {device});
        }
      }
      writes := writes + 1;
      history := history + [state];
    }
  }
}
