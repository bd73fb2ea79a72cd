/** internal/reconciler/reconciler.go: the plan of one tick, its execution, and the failure,
    pause and error states over a whole run. */
module Reconciler {
  import opened Text

  datatype Kind =
    | CreateNS | StartDaemon | AuthDaemon | RefreshDNS | SyncRoutes | SyncHostAccess | TeardownHostAccess
    | StopDaemon | DeleteNS

  predicate IsPeriodicSync(k: Kind) {
    k.SyncRoutes? || k.SyncHostAccess?
  }

  const MAX_FAILURES := 3

  datatype Action = Action(kind: Kind, id: string)

  /** What the configuration file declares for one tailnet. */
  datatype Tailnet = Tailnet(authKey: bool, hostAccess: bool)

  /** tailscaled in one namespace: Starting after a start, Running once it is healthy. */
  datatype Daemon = Stopped | Starting | Running

  /** Everything that a tick reads and writes for one tailnet. daemon is None when the host
      holds no namespace, and rules is None when the reconciler has not seen the tailnet. */
  datatype Slice = Slice(daemon: Option<Daemon>, pending: bool, rules: Option<bool>)

  /** How one action ends. FailedLate fails after its first effect. Quiet reports a success
      although an inner step failed or waits: the host access setup of a new namespace, or a
      refresh that finds no running tailscaled. */
  datatype Outcome = Success | Quiet | FailedEarly | FailedLate

  predicate Failed(o: Outcome) {
    o.FailedEarly? || o.FailedLate?
  }

  /** The outcome of the action at position k. Every action past the schedule succeeds. */
  function OutcomeAt(os: seq<Outcome>, k: nat): Outcome {
    if k < |os| then os[k] else Success
  }

  // ----- the plan of one tailnet

  /** The branches of Diff for one declared tailnet. loaded states that Diff could read the
      configuration file. */
  function DesiredPlan(s: Slice, blocked: bool, tn: Tailnet, loaded: bool): seq<Kind> {
    if blocked then []
    else if s.daemon.None? then
      [CreateNS, StartDaemon] + if tn.authKey then [AuthDaemon] else []
    else if s.daemon.value != Running then [StartDaemon, RefreshDNS]
    else
      (if s.pending then [RefreshDNS] else []) + [SyncRoutes]
      + if loaded && tn.hostAccess then [SyncHostAccess]
        else if loaded && s.rules != Some(false) then [TeardownHostAccess]
        else []
  }

  /** The plan of one tailnet, declared or not. */
  function PlanOf(s: Slice, blocked: bool, wanted: Option<Tailnet>, loaded: bool): seq<Kind> {
    match wanted
    case Some(tn) => DesiredPlan(s, blocked, tn, loaded)
    case None => if s.daemon.Some? then [StopDaemon, DeleteNS] else []
  }

  /** Where an action stands in the plan of its tailnet. */
  function Place(k: Kind): nat {
    match k
    case CreateNS => 1
    case StartDaemon => 2
    case AuthDaemon => 3
    case RefreshDNS => 4
    case SyncRoutes => 5
    case SyncHostAccess => 6
    case TeardownHostAccess => 7
    case StopDaemon => 8
    case DeleteNS => 9
  }

  /** Every action of the plan comes once, in its place. */
  predicate InPlace(ks: seq<Kind>) {
    forall i, j :: 0 <= i < j < |ks| ==> Place(ks[i]) < Place(ks[j])
  }

  /** Which actions a tailnet gets, action by action. */
  predicate HasExactly(ks: seq<Kind>, s: Slice, blocked: bool, wanted: Option<Tailnet>, loaded: bool) {
    var free := wanted.Some? && !blocked;
    var healthy := s.daemon == Some(Running);
    && (CreateNS in ks <==> free && s.daemon.None?)
    && (StartDaemon in ks <==> free && !healthy)
    && (AuthDaemon in ks <==> free && s.daemon.None? && wanted.value.authKey)
    && (RefreshDNS in ks <==> free && s.daemon.Some? && (healthy ==> s.pending))
    && (SyncRoutes in ks <==> free && healthy)
    && (SyncHostAccess in ks <==> free && healthy && loaded && wanted.value.hostAccess)
    && (TeardownHostAccess in ks <==> free && healthy && loaded && !wanted.value.hostAccess && s.rules != Some(false))
    && (StopDaemon in ks <==> wanted.None? && s.daemon.Some?)
    && (DeleteNS in ks <==> wanted.None? && s.daemon.Some?)
  }

  /** The plan of a tailnet: these actions, each one once and in its place. */
  predicate PlansExactly(ks: seq<Kind>, s: Slice, blocked: bool, wanted: Option<Tailnet>, loaded: bool) {
    InPlace(ks) && HasExactly(ks, s, blocked, wanted, loaded)
  }

  lemma HealthyPlan(s: Slice, tn: Tailnet, loaded: bool)
    requires s.daemon == Some(Running)
    ensures PlansExactly(DesiredPlan(s, false, tn, loaded), s, false, Some(tn), loaded)
  {
    var first := if s.pending then [RefreshDNS] else [];
    var last := if loaded && tn.hostAccess then [SyncHostAccess] else if loaded && s.rules != Some(false) then [TeardownHostAccess] else [];
    var ks := DesiredPlan(s, false, tn, loaded);
    assert ks == first + [SyncRoutes] + last;
    assert InPlace(ks);
  }

  lemma PlanHasExactly(s: Slice, blocked: bool, wanted: Option<Tailnet>, loaded: bool)
    ensures PlansExactly(PlanOf(s, blocked, wanted, loaded), s, blocked, wanted, loaded)
  {
    if wanted.Some? && !blocked && s.daemon == Some(Running) {
      HealthyPlan(s, wanted.value, loaded);
    } else {
      assert InPlace(PlanOf(s, blocked, wanted, loaded));
    }
  }

  /** Diff records a pending refresh on the restart path. */
  function Pended(s: Slice, blocked: bool, wanted: Option<Tailnet>): Slice {
    if wanted.Some? && !blocked && s.daemon.Some? && s.daemon.value != Running then s.(pending := true) else s
  }

  // ----- the effect of one action

  /** executeAction on its own tailnet. */
  function Exec(s: Slice, k: Kind, o: Outcome, hostAccess: bool): Slice {
    match k
    case CreateNS =>
      // FailedLate: the veth pair failed, and so did the delete of the new namespace.
      if o == FailedEarly then s
      else s.(daemon := Some(Stopped), rules := if o == Success && hostAccess then Some(true) else s.rules)
    case StartDaemon => if !Failed(o) && s.daemon.Some? then s.(daemon := Some(Starting)) else s
    case StopDaemon => if !Failed(o) && s.daemon.Some? then s.(daemon := Some(Stopped)) else s
    case AuthDaemon => s
    case RefreshDNS => if o == Success && s.daemon == Some(Running) then s.(pending := false) else s
    case SyncRoutes => s
    case SyncHostAccess => if o == FailedEarly then s else s.(rules := Some(true))
    case TeardownHostAccess => if o == FailedEarly then s else s.(rules := Some(false))
    case DeleteNS => Slice(if o == FailedEarly then s.daemon else None, false, Some(false))
  }

  /** What an action can do, and how it must end to do it. A daemon runs in a namespace only
      after a start that succeeds; an action that fails before its first effect changes nothing,
      and the delete alone forgets the tailnet even then. */
  predicate HasEffect(s: Slice, t: Slice, k: Kind, o: Outcome, hostAccess: bool) {
    && (o == FailedEarly && k != DeleteNS ==> t == s)
    && (t.daemon == (
          if k == CreateNS && o != FailedEarly then Some(Stopped)
          else if k == DeleteNS && o != FailedEarly then None
          else if k == StartDaemon && s.daemon.Some? && o in {Success, Quiet} then Some(Starting)
          else if k == StopDaemon && s.daemon.Some? && o in {Success, Quiet} then Some(Stopped)
          else s.daemon))
    && (t.pending <==> s.pending && k != DeleteNS && !(k == RefreshDNS && o == Success && s.daemon == Some(Running)))
    && (t.rules == (
          if k == DeleteNS || (k == TeardownHostAccess && o != FailedEarly) then Some(false)
          else if (k == SyncHostAccess && o != FailedEarly) || (k == CreateNS && o == Success && hostAccess) then Some(true)
          else s.rules))
  }

  lemma EffectsExactly(s: Slice, k: Kind, o: Outcome, hostAccess: bool)
    ensures HasEffect(s, Exec(s, k, o, hostAccess), k, o, hostAccess)
  {
  }

  function ExecAll(s: Slice, ks: seq<Kind>, hostAccess: bool): Slice
    decreases ks
  {
    if ks == [] then s else ExecAll(Exec(s, ks[0], Success, hostAccess), ks[1..], hostAccess)
  }

  /** One failure-free tick, for one tailnet that is not blocked. */
  function TickOf(s: Slice, wanted: Option<Tailnet>): Slice {
    ExecAll(Pended(s, false, wanted), PlanOf(s, false, wanted, true), wanted.Some? && wanted.value.hostAccess)
  }

  /** Every started daemon is Running by the next tick. */
  function Settle(s: Slice): Slice {
    if s.daemon == Some(Starting) then s.(daemon := Some(Running)) else s
  }

  // ----- convergence

  /** The tailnet needs nothing but the periodic synchronisation. */
  predicate Converged(s: Slice, wanted: Option<Tailnet>) {
    match wanted
    case None => s.daemon.None?
    case Some(tn) => s.daemon == Some(Running) && !s.pending && (!tn.hostAccess ==> s.rules == Some(false))
  }

  function Ticks(s: Slice, wanted: Option<Tailnet>, n: nat): Slice {
    if n == 0 then Settle(s) else Settle(TickOf(Ticks(s, wanted, n - 1), wanted))
  }

  lemma ExecTwo(s: Slice, a: Kind, b: Kind, hostAccess: bool)
    ensures ExecAll(s, [a, b], hostAccess) == Exec(Exec(s, a, Success, hostAccess), b, Success, hostAccess)
    ensures ExecAll(s, [a], hostAccess) == Exec(s, a, Success, hostAccess)
  {
    assert [a, b][1..] == [b] && [b][1..] == [] && [a][1..] == [];
    assert ExecAll(Exec(s, a, Success, hostAccess), [b], hostAccess) == Exec(Exec(s, a, Success, hostAccess), b, Success, hostAccess);
  }

  lemma {:induction false} ExecConcat(s: Slice, a: seq<Kind>, b: seq<Kind>, hostAccess: bool)
    ensures ExecAll(s, a + b, hostAccess) == ExecAll(ExecAll(s, a, hostAccess), b, hostAccess)
    decreases a
  {
    if a == [] {
      assert a + b == b;
    } else {
      assert (a + b)[0] == a[0] && (a + b)[1..] == a[1..] + b;
      ExecConcat(Exec(s, a[0], Success, hostAccess), a[1..], b, hostAccess);
    }
  }

  /** What one failure-free tick does, by the state of the tailnet. */
  lemma TickCases(s: Slice, tn: Tailnet)
    requires s.daemon != Some(Starting)
    ensures s.daemon.None? ==> TickOf(s, Some(tn)) == Slice(Some(Starting), s.pending, if tn.hostAccess then Some(true) else s.rules)
    ensures s.daemon == Some(Stopped) ==> TickOf(s, Some(tn)) == Slice(Some(Starting), true, s.rules)
    ensures s.daemon == Some(Running) ==>
      TickOf(s, Some(tn)) == Slice(Some(Running), false, Some(tn.hostAccess))
    ensures TickOf(s, None) == if s.daemon.Some? then Slice(None, false, Some(false)) else s
  {
    TickCreates(s, tn);
    TickRestarts(s, tn);
    TickSyncs(s, tn);
    ExecTwo(s, StopDaemon, DeleteNS, false);
  }

  lemma TickCreates(s: Slice, tn: Tailnet)
    ensures s.daemon.None? ==> TickOf(s, Some(tn)) == Slice(Some(Starting), s.pending, if tn.hostAccess then Some(true) else s.rules)
  {
    var ha := tn.hostAccess;
    ExecTwo(s, CreateNS, StartDaemon, ha);
    ExecConcat(s, [CreateNS, StartDaemon], if tn.authKey then [AuthDaemon] else [], ha);
    ExecTwo(Exec(Exec(s, CreateNS, Success, ha), StartDaemon, Success, ha), AuthDaemon, AuthDaemon, ha);
  }

  lemma TickRestarts(s: Slice, tn: Tailnet)
    ensures s.daemon == Some(Stopped) ==> TickOf(s, Some(tn)) == Slice(Some(Starting), true, s.rules)
  {
    ExecTwo(s.(pending := true), StartDaemon, RefreshDNS, tn.hostAccess);
  }

  lemma TickSyncs(s: Slice, tn: Tailnet)
    ensures s.daemon == Some(Running) ==> TickOf(s, Some(tn)) == Slice(Some(Running), false, Some(tn.hostAccess))
  {
    if s.daemon == Some(Running) {
      var ha := tn.hostAccess;
      var first := if s.pending then [RefreshDNS] else [];
      var last := if ha then [SyncHostAccess] else if s.rules != Some(false) then [TeardownHostAccess] else [];
      assert PlanOf(s, false, Some(tn), true) == first + [SyncRoutes] + last;
      ExecConcat(s, first + [SyncRoutes], last, ha);
      ExecConcat(s, first, [SyncRoutes], ha);
      ExecTwo(s, RefreshDNS, RefreshDNS, ha);
      var s1 := ExecAll(s, first, ha);
      ExecTwo(s1, SyncRoutes, SyncRoutes, ha);
      ExecTwo(s1, SyncHostAccess, SyncHostAccess, ha);
      ExecTwo(s1, TeardownHostAccess, TeardownHostAccess, ha);
    }
  }

  /** A converged tailnet stays converged, and its plan holds periodic actions only. */
  lemma ConvergedIsStable(s: Slice, wanted: Option<Tailnet>)
    requires Converged(s, wanted)
    ensures Converged(Settle(TickOf(s, wanted)), wanted)
    ensures forall k :: k in PlanOf(s, false, wanted, true) ==> IsPeriodicSync(k)
  {
    if wanted.Some? {
      TickCases(s, wanted.value);
    }
  }

  /** Convergence: from any state of the host, after two ticks and at every later tick, the
      namespaces are exactly the declared ones, every declared daemon runs, and the next plan
      holds periodic actions only. */
  lemma {:induction false} ConvergesInTwoTicks(s: Slice, wanted: Option<Tailnet>, n: nat)
    requires n >= 2
    ensures var t := Ticks(s, wanted, n);
      && Converged(t, wanted)
      && (t.daemon.Some? <==> wanted.Some?)
      && forall k :: k in PlanOf(t, false, wanted, true) ==> IsPeriodicSync(k)
  {
    if n == 2 {
      var s0 := Ticks(s, wanted, 0);
      var s1 := Ticks(s, wanted, 1);
      assert s1 == Settle(TickOf(s0, wanted));
      assert Ticks(s, wanted, 2) == Settle(TickOf(s1, wanted));
      if wanted.Some? {
        TickCases(s0, wanted.value);
        TickCases(s1, wanted.value);
      } else {
        TickCases(s0, Tailnet(false, false));
        TickCases(s1, Tailnet(false, false));
      }
    } else {
      ConvergesInTwoTicks(s, wanted, n - 1);
      ConvergedIsStable(Ticks(s, wanted, n - 1), wanted);
    }
    ConvergedIsStable(Ticks(s, wanted, n), wanted);
  }

  /** One tick is not enough: a tailnet that the operator starts from nothing without host
      access still plans the one teardown of its unseen rules. */
  lemma OneTickIsNotEnough()
    ensures TeardownHostAccess in
      PlanOf(Ticks(Slice(None, false, None), Some(Tailnet(false, false)), 1), false, Some(Tailnet(false, false)), true)
  {
    var s := Slice(None, false, None);
    var tn := Tailnet(false, false);
    ExecTwo(s, CreateNS, StartDaemon, false);
    assert PlanOf(s, false, Some(tn), true) == [CreateNS, StartDaemon];
    assert Ticks(s, Some(tn), 0) == s;
    assert Ticks(s, Some(tn), 1) == Slice(Some(Running), false, None);
  }

  // ----- the failure protocol, as functions of the history

  /** What happened to the reconciler. Cycle holds, for each tailnet with actions in that
      cycle, whether one of them failed. */
  datatype Event =
    | Cycle(failed: map<string, bool>)
    | Unprotected(id: string)
    | StoppedByOperator(id: string)
    | ResetError(id: string)
    | ResetAll

  /** The number of failing cycles of id since its last success or reset, over the cycles in
      which id had actions. */
  function Streak(history: seq<Event>, id: string): nat {
    if history == [] then 0
    else
      var before := Streak(history[..|history| - 1], id);
      match history[|history| - 1]
      case Cycle(failed) => if id !in failed then before else if failed[id] then before + 1 else 0
      case ResetError(other) => if other == id then 0 else before
      case ResetAll => 0
      case _ => before
  }

  /** id reached the failure limit, or lost its DNS protection, since its last reset. */
  predicate Errored(history: seq<Event>, id: string) {
    history != [] &&
    var before := Errored(history[..|history| - 1], id);
    match history[|history| - 1]
    case Cycle(failed) => before || (id in failed && failed[id] && Streak(history, id) >= MAX_FAILURES)
    case Unprotected(other) => before || other == id
    case ResetError(other) => before && other != id
    case ResetAll => false
    case StoppedByOperator(_) => before
  }

  /** The operator stopped id and did not reset it. ResetAll keeps the pause. */
  predicate Paused(history: seq<Event>, id: string) {
    history != [] &&
    var before := Paused(history[..|history| - 1], id);
    match history[|history| - 1]
    case StoppedByOperator(other) => before || other == id
    case ResetError(other) => before && other != id
    case _ => before
  }

  predicate Clears(e: Event, id: string) {
    e == ResetError(id) || e == ResetAll
  }

  /** Three failing cycles without a reset put a tailnet into the error state. */
  lemma {:induction false} LimitImpliesError(history: seq<Event>, id: string)
    ensures Streak(history, id) >= MAX_FAILURES ==> Errored(history, id)
  {
    if history != [] {
      LimitImpliesError(history[..|history| - 1], id);
    }
  }

  /** The third failing cycle in a row is the one that counts: a tailnet with no failures behind
      it is not in the error state after two, and a cycle without a failure starts anew. */
  lemma ThirdFailureCounts(history: seq<Event>, id: string, one: map<string, bool>, two: map<string, bool>, three: map<string, bool>)
    requires Streak(history, id) == 0 && !Errored(history, id)
    requires id in one && one[id] && id in two && two[id] && id in three
    ensures var second := history + [Cycle(one)] + [Cycle(two)];
      && !Errored(history + [Cycle(one)], id) && !Errored(second, id)
      && (Errored(second + [Cycle(three)], id) <==> three[id])
      && (!three[id] ==> Streak(second + [Cycle(three)], id) == 0)
  {
    var first := history + [Cycle(one)];
    var second := first + [Cycle(two)];
    var third := second + [Cycle(three)];
    assert first[..|first| - 1] == history && second[..|second| - 1] == first && third[..|third| - 1] == second;
  }

  /** What clears what: a reset of one tailnet ends its error state, its pause and its count,
      and the reset of all errors keeps the pauses. */
  lemma ResetsClear(history: seq<Event>, id: string, other: string)
    ensures var one, all := history + [ResetError(id)], history + [ResetAll];
      && Streak(one, id) == 0 && !Errored(one, id) && !Paused(one, id)
      && (other != id ==> (Errored(one, other) <==> Errored(history, other)) && Streak(one, other) == Streak(history, other)
                          && (Paused(one, other) <==> Paused(history, other)))
      && Streak(all, other) == 0 && !Errored(all, other) && (Paused(all, other) <==> Paused(history, other))
  {
    var one, all := history + [ResetError(id)], history + [ResetAll];
    assert one[..|one| - 1] == history && all[..|all| - 1] == history;
  }

  /** The error state holds until a reset of that tailnet, whatever else happens. */
  lemma {:induction false} ErrorHoldsUntilReset(history: seq<Event>, later: seq<Event>, id: string)
    requires Errored(history, id)
    requires forall e :: e in later ==> !Clears(e, id)
    ensures Errored(history + later, id)
  {
    if later == [] {
      assert history + later == history;
    } else {
      var h := history + later;
      assert h[..|h| - 1] == history + later[..|later| - 1] && h[|h| - 1] == later[|later| - 1];
      assert later[|later| - 1] in later;
      ErrorHoldsUntilReset(history, later[..|later| - 1], id);
    }
  }

  lemma {:induction false} PauseHoldsUntilReset(history: seq<Event>, later: seq<Event>, id: string)
    requires Paused(history, id)
    requires ResetError(id) !in later
    ensures Paused(history + later, id)
  {
    if later == [] {
      assert history + later == history;
    } else {
      var h := history + later;
      assert h[..|h| - 1] == history + later[..|later| - 1] && h[|h| - 1] == later[|later| - 1];
      PauseHoldsUntilReset(history, later[..|later| - 1], id);
    }
  }

  // ----- the actions of one tailnet inside the action list

  function Kinds(actions: seq<Action>, id: string): seq<Kind> {
    if actions == [] then []
    else Kinds(actions[..|actions| - 1], id) + if actions[|actions| - 1].id == id then [actions[|actions| - 1].kind] else []
  }

  /** The kinds of a tailnet are the kinds of its actions in the list. */
  lemma {:induction false} KindsExactly(actions: seq<Action>, id: string)
    ensures forall k :: k in Kinds(actions, id) <==> Action(k, id) in actions
  {
    if actions != [] {
      var front, last := actions[..|actions| - 1], actions[|actions| - 1];
      KindsExactly(front, id);
      assert actions == front + [last];
      assert forall a :: a in actions <==> a in front || a == last;
    }
  }

  /** One action of a tailnet and how it ended. */
  datatype Step = Step(kind: Kind, outcome: Outcome)

  /** The actions of id in list order, each with the outcome at its own position. */
  function Steps(actions: seq<Action>, os: seq<Outcome>, id: string): seq<Step> {
    if actions == [] then []
    else
      var k := |actions| - 1;
      Steps(actions[..k], os, id) + if actions[k].id == id then [Step(actions[k].kind, OutcomeAt(os, k))] else []
  }

  /** The effect of these steps, the first step first. */
  function Fold(s: Slice, steps: seq<Step>, hostAccess: bool): Slice {
    if steps == [] then s
    else
      var k := |steps| - 1;
      Exec(Fold(s, steps[..k], hostAccess), steps[k].kind, steps[k].outcome, hostAccess)
  }

  predicate FailsIn(actions: seq<Action>, os: seq<Outcome>, id: string) {
    exists k :: 0 <= k < |actions| && actions[k].id == id && Failed(OutcomeAt(os, k))
  }

  /** Every action of id succeeds. Nothing is said about the actions of other tailnets. */
  predicate Succeeds(actions: seq<Action>, os: seq<Outcome>, id: string) {
    forall k :: 0 <= k < |actions| && actions[k].id == id ==> OutcomeAt(os, k) == Success
  }

  lemma StepsNext(actions: seq<Action>, os: seq<Outcome>, i: nat)
    requires i < |actions|
    ensures Steps(actions[..i + 1], os, actions[i].id)
            == Steps(actions[..i], os, actions[i].id) + [Step(actions[i].kind, OutcomeAt(os, i))]
    ensures forall id :: id != actions[i].id ==> Steps(actions[..i + 1], os, id) == Steps(actions[..i], os, id)
    ensures forall id :: FailsIn(actions[..i + 1], os, id)
                         <==> FailsIn(actions[..i], os, id) || (actions[i].id == id && Failed(OutcomeAt(os, i)))
  {
    assert actions[..i + 1][..i] == actions[..i];
    forall id
      ensures FailsIn(actions[..i + 1], os, id)
              <==> FailsIn(actions[..i], os, id) || (actions[i].id == id && Failed(OutcomeAt(os, i)))
    {
      if FailsIn(actions[..i], os, id) {
        var k :| 0 <= k < i && actions[..i][k].id == id && Failed(OutcomeAt(os, k));
        assert actions[..i + 1][k].id == id;
      }
      if actions[i].id == id && Failed(OutcomeAt(os, i)) {
        assert actions[..i + 1][i].id == id;
      }
    }
  }

  lemma FoldNext(s: Slice, steps: seq<Step>, st: Step, hostAccess: bool)
    ensures Fold(s, steps + [st], hostAccess) == Exec(Fold(s, steps, hostAccess), st.kind, st.outcome, hostAccess)
  {
    assert (steps + [st])[..|steps|] == steps;
  }

  /** What one more action does to the folded state of any tailnet. */
  lemma StepReached(s: Slice, actions: seq<Action>, i: nat, os: seq<Outcome>, id: string, hostAccess: bool)
    requires i < |actions|
    ensures id == actions[i].id ==> Fold(s, Steps(actions[..i + 1], os, id), hostAccess)
                                    == Exec(Fold(s, Steps(actions[..i], os, id), hostAccess), actions[i].kind, OutcomeAt(os, i), hostAccess)
    ensures id != actions[i].id ==> Fold(s, Steps(actions[..i + 1], os, id), hostAccess) == Fold(s, Steps(actions[..i], os, id), hostAccess)
  {
    StepsNext(actions, os, i);
    FoldNext(s, Steps(actions[..i], os, id), Step(actions[i].kind, OutcomeAt(os, i)), hostAccess);
  }

  /** The outcomes of the other tailnets do not show: when the actions of id end as before,
      id takes the same steps and fails or succeeds as before. */
  lemma {:induction false} OthersDoNotShow(actions: seq<Action>, os: seq<Outcome>, other: seq<Outcome>, id: string)
    requires forall k :: 0 <= k < |actions| && actions[k].id == id ==> OutcomeAt(os, k) == OutcomeAt(other, k)
    ensures Steps(actions, os, id) == Steps(actions, other, id)
    ensures FailsIn(actions, os, id) <==> FailsIn(actions, other, id)
  {
    if actions != [] {
      var front := actions[..|actions| - 1];
      forall k | 0 <= k < |front| && front[k].id == id
        ensures OutcomeAt(os, k) == OutcomeAt(other, k)
      {
        assert actions[k].id == id;
      }
      OthersDoNotShow(front, os, other, id);
    }
  }

  /** A tailnet whose own actions succeed sees its whole plan run. */
  lemma {:induction false} SuccessfulSteps(s: Slice, actions: seq<Action>, os: seq<Outcome>, id: string, hostAccess: bool)
    requires Succeeds(actions, os, id)
    ensures Fold(s, Steps(actions, os, id), hostAccess) == ExecAll(s, Kinds(actions, id), hostAccess)
    ensures !FailsIn(actions, os, id)
  {
    if actions != [] {
      var k := |actions| - 1;
      var front := actions[..k];
      forall j | 0 <= j < |front| && front[j].id == id
        ensures OutcomeAt(os, j) == Success
      {
        assert actions[j].id == id;
      }
      SuccessfulSteps(s, front, os, id, hostAccess);
      SuccessfulLast(s, actions, os, id, hostAccess);
    }
  }

  lemma SuccessfulLast(s: Slice, actions: seq<Action>, os: seq<Outcome>, id: string, hostAccess: bool)
    requires actions != [] && Succeeds(actions, os, id)
    requires Fold(s, Steps(actions[..|actions| - 1], os, id), hostAccess) == ExecAll(s, Kinds(actions[..|actions| - 1], id), hostAccess)
    ensures Fold(s, Steps(actions, os, id), hostAccess) == ExecAll(s, Kinds(actions, id), hostAccess)
  {
    var k := |actions| - 1;
    var steps, ks := Steps(actions[..k], os, id), Kinds(actions[..k], id);
    var kind := actions[k].kind;
    if actions[k].id == id {
      assert Steps(actions, os, id) == steps + [Step(kind, Success)];
      assert Kinds(actions, id) == ks + [kind];
      FoldNext(s, steps, Step(kind, Success), hostAccess);
      ExecLast(s, ks, kind, hostAccess);
    } else {
      assert Steps(actions, os, id) == steps && Kinds(actions, id) == ks;
    }
  }

  lemma {:induction false} NoKindsNoSteps(actions: seq<Action>, os: seq<Outcome>, id: string)
    requires Kinds(actions, id) == []
    ensures Steps(actions, os, id) == []
  {
    if actions != [] {
      NoKindsNoSteps(actions[..|actions| - 1], os, id);
    }
  }

  lemma FailingHasKinds(actions: seq<Action>, os: seq<Outcome>, id: string)
    requires FailsIn(actions, os, id)
    ensures id in Owners(actions)
  {
    var k :| 0 <= k < |actions| && actions[k].id == id && Failed(OutcomeAt(os, k));
    assert actions[k] in actions;
  }

  /** The schedule that is left after n actions. */
  function After(os: seq<Outcome>, n: nat): seq<Outcome> {
    if n <= |os| then os[n..] else []
  }

  function Of(ks: seq<Kind>, id: string): seq<Action> {
    seq(|ks|, i requires 0 <= i < |ks| => Action(ks[i], id))
  }

  lemma {:induction false} KindsConcat(a: seq<Action>, b: seq<Action>, id: string)
    ensures Kinds(a + b, id) == Kinds(a, id) + Kinds(b, id)
    decreases |b|
  {
    if b == [] {
      assert a + b == a;
    } else {
      var s := a + b;
      assert s[..|s| - 1] == a + b[..|b| - 1] && s[|s| - 1] == b[|b| - 1];
      KindsConcat(a, b[..|b| - 1], id);
    }
  }

  lemma {:induction false} KindsOf(ks: seq<Kind>, owner: string, id: string)
    ensures Kinds(Of(ks, owner), id) == if owner == id then ks else []
  {
    if ks != [] {
      var front := ks[..|ks| - 1];
      assert Of(ks, owner)[..|ks| - 1] == Of(front, owner);
      KindsOf(front, owner, id);
      assert ks == front + [ks[|ks| - 1]];
    }
  }

  lemma KindsAppend(actions: seq<Action>, ks: seq<Kind>, owner: string)
    ensures forall id :: Kinds(actions + Of(ks, owner), id) == Kinds(actions, id) + if owner == id then ks else []
  {
    forall id
      ensures Kinds(actions + Of(ks, owner), id) == Kinds(actions, id) + if owner == id then ks else []
    {
      KindsConcat(actions, Of(ks, owner), id);
      KindsOf(ks, owner, id);
    }
  }

  /** The action list holds exactly the plan of each tailnet of done. */
  ghost predicate Planned(actions: seq<Action>, plans: map<string, seq<Kind>>, done: set<string>) {
    && done <= plans.Keys
    && forall id :: Kinds(actions, id) == if id in done then plans[id] else []
  }

  lemma PlannedStep(actions: seq<Action>, plans: map<string, seq<Kind>>, done: set<string>, id: string)
    requires Planned(actions, plans, done) && id !in done && id in plans
    ensures Planned(actions + Of(plans[id], id), plans, done + {id})
  {
    var more, done' := actions + Of(plans[id], id), done + {id};
    forall other
      ensures Kinds(more, other) == if other in done' then plans[other] else []
    {
      KindsConcat(actions, Of(plans[id], id), other);
      KindsOf(plans[id], id, other);
      assert other == id ==> [] + plans[id] == plans[id];
    }
  }

  /** The plans of the declared tailnets, then the stops of the others. */
  lemma PlannedThenStopped(starts: seq<Action>, stops: seq<Action>, plans: map<string, seq<Kind>>, extra: set<string>)
    requires Planned(starts, plans, plans.Keys) && extra !! plans.Keys
    requires forall id :: Kinds(stops, id) == if id in extra then [StopDaemon, DeleteNS] else []
    ensures forall id :: Kinds(starts + stops, id) == (if id in plans then plans[id] else if id in extra then [StopDaemon, DeleteNS] else [])
  {
    forall id
      ensures Kinds(starts + stops, id) == (if id in plans then plans[id] else if id in extra then [StopDaemon, DeleteNS] else [])
    {
      KindsConcat(starts, stops, id);
    }
  }

  lemma ExecLast(s: Slice, ks: seq<Kind>, k: Kind, hostAccess: bool)
    ensures ExecAll(s, ks + [k], hostAccess) == Exec(ExecAll(s, ks, hostAccess), k, Success, hostAccess)
  {
    ExecConcat(s, ks, [k], hostAccess);
    ExecTwo(ExecAll(s, ks, hostAccess), k, k, hostAccess);
  }

  function Lookup<T>(m: map<string, T>, id: string): Option<T> {
    if id in m then Some(m[id]) else None
  }

  function Count(counts: map<string, nat>, id: string): nat {
    if id in counts then counts[id] else 0
  }

  /** The event of one cycle: seen holds the tailnets with actions. */
  function CycleOf(seen: set<string>, failures: set<string>): Event {
    Cycle(map id | id in seen :: id in failures)
  }

  /** The host access setting that the actions of id read. */
  predicate Accessed(desired: map<string, Tailnet>, id: string) {
    id in desired && desired[id].hostAccess
  }

  /** The events of one check of the DNS protection. */
  function Marks(ids: seq<string>): seq<Event> {
    seq(|ids|, i requires 0 <= i < |ids| => Unprotected(ids[i]))
  }

  function Owners(actions: seq<Action>): set<string> {
    set a | a in actions :: a.id
  }

  /** One more cycle, read off tailnet by tailnet. */
  lemma StreakAfterCycle(history: seq<Event>, seen: set<string>, failures: set<string>, id: string)
    ensures var h := history + [CycleOf(seen, failures)];
      && Streak(h, id) == (if id !in seen then Streak(history, id) else if id in failures then Streak(history, id) + 1 else 0)
      && (Errored(h, id) <==> Errored(history, id) || (id in seen && id in failures && Streak(h, id) >= MAX_FAILURES))
      && (Paused(h, id) <==> Paused(history, id))
  {
    var h := history + [CycleOf(seen, failures)];
    assert h[..|h| - 1] == history;
  }

  class State {
    // the host
    var daemons: map<string, Daemon>
    var outcomes: seq<Outcome>
    // the reconciler
    var failureCounts: map<string, nat>
    var errorStates: set<string>
    var pausedStates: set<string>
    var dnsRefreshPending: set<string>
    var hostAccessRules: map<string, bool>
    ghost var history: seq<Event>

    /** A fresh process on a host that may hold namespaces already. */
    constructor (daemons: map<string, Daemon>, outcomes: seq<Outcome>)
      ensures Valid() && this.daemons == daemons && this.outcomes == outcomes && history == []
    {
      this.daemons, this.outcomes := daemons, outcomes;
      failureCounts, errorStates, pausedStates, dnsRefreshPending, hostAccessRules := map[], {}, {}, {}, map[];
      history := [];
    }

    /** The counters and the two state sets say exactly what the history says. */
    ghost predicate Valid()
      reads this
    {
      && (forall id :: Count(failureCounts, id) == Streak(history, id))
      && (forall id :: id in errorStates <==> Errored(history, id))
      && (forall id :: id in pausedStates <==> Paused(history, id))
    }

    function SliceOf(id: string): Slice
      reads this
    {
      Slice(Lookup(daemons, id), id in dnsRefreshPending, Lookup(hostAccessRules, id))
    }

    predicate Blocked(id: string)
      reads this
    {
      id in errorStates || id in pausedStates
    }

    /** The restart path of Diff. */
    predicate Restarts(id: string)
      reads this
    {
      !Blocked(id) && id in daemons && daemons[id] != Running
    }

    function Restarted(ids: set<string>): set<string>
      reads this
    {
      set id | id in ids && Restarts(id)
    }

    /** The branches of Diff for a tailnet that is neither in error nor paused. */
    method PlanFree(id: string, tn: Tailnet, loaded: bool) returns (ks: seq<Kind>)
      requires !Blocked(id)
      modifies `dnsRefreshPending
      ensures ks == DesiredPlan(old(SliceOf(id)), false, tn, loaded)
      ensures dnsRefreshPending == old(dnsRefreshPending) + if Restarts(id) then {id} else {}
    {
      if id !in daemons {
        ks := [CreateNS, StartDaemon];
        if tn.authKey {
          ks := ks + [AuthDaemon];
        }
      } else if daemons[id] != Running {
        ks := [StartDaemon];
        dnsRefreshPending := dnsRefreshPending + {id};
        ks := ks + [RefreshDNS];
      } else {
        ks := [];
        if id in dnsRefreshPending {
          ks := ks + [RefreshDNS];
        }
        ks := ks + [SyncRoutes];
        if loaded && tn.hostAccess {
          ks := ks + [SyncHostAccess];
        } else if loaded && (id !in hostAccessRules || hostAccessRules[id]) {
          ks := ks + [TeardownHostAccess];
        }
      }
    }

    /** One iteration of the loop of Diff over the declared tailnets. */
    method PlanDesired(id: string, tn: Tailnet, loaded: bool) returns (ks: seq<Kind>)
      modifies `dnsRefreshPending
      ensures ks == DesiredPlan(old(SliceOf(id)), Blocked(id), tn, loaded)
      ensures dnsRefreshPending == old(dnsRefreshPending) + if Restarts(id) then {id} else {}
      ensures PlansExactly(ks, old(SliceOf(id)), id in errorStates || id in pausedStates, Some(tn), loaded)
    {
      PlanHasExactly(SliceOf(id), Blocked(id), Some(tn), loaded);
      if id in errorStates {
        return [];
      }
      if id in pausedStates {
        return [];
      }
      ks := PlanFree(id, tn, loaded);
    }

    /** The loop of Diff over the namespaces that the configuration no longer declares. */
    method PlanStops(extra: set<string>) returns (actions: seq<Action>)
      ensures forall id :: Kinds(actions, id) == if id in extra then [StopDaemon, DeleteNS] else []
    {
      actions := [];
      var todo := extra;
      while todo != {}
        invariant todo <= extra
        invariant forall id :: Kinds(actions, id) == if id in extra - todo then [StopDaemon, DeleteNS] else []
        decreases todo
      {
        var id :| id in todo;
        KindsAppend(actions, [StopDaemon, DeleteNS], id);
        actions := actions + Of([StopDaemon, DeleteNS], id);
        todo := todo - {id};
      }
    }

    /** The loop of Diff over the declared tailnets. */
    method PlanStarts(desired: map<string, Tailnet>, loaded: bool, ghost plans: map<string, seq<Kind>>) returns (actions: seq<Action>)
      requires plans.Keys == desired.Keys
      requires forall id :: id in desired ==> plans[id] == DesiredPlan(SliceOf(id), Blocked(id), desired[id], loaded)
      modifies `dnsRefreshPending
      ensures Planned(actions, plans, desired.Keys)
      ensures dnsRefreshPending == old(dnsRefreshPending) + Restarted(desired.Keys)
    {
      actions := [];
      var todo := desired.Keys;
      while todo != {}
        invariant todo <= desired.Keys
        invariant dnsRefreshPending == old(dnsRefreshPending) + Restarted(desired.Keys - todo)
        invariant Planned(actions, plans, desired.Keys - todo)
        decreases todo
      {
        var id :| id in todo;
        var ks := PlanOne(id, desired[id], loaded, plans[id], desired.Keys - todo, old(dnsRefreshPending));
        PlannedStep(actions, plans, desired.Keys - todo, id);
        actions := actions + Of(ks, id);
        assert desired.Keys - todo + {id} == desired.Keys - (todo - {id});
        todo := todo - {id};
      }
    }

    /** PlanDesired on a tailnet that the loop did not reach yet. */
    method PlanOne(id: string, tn: Tailnet, loaded: bool, ghost plan: seq<Kind>, ghost done: set<string>, ghost before: set<string>) returns (ks: seq<Kind>)
      requires id !in done && dnsRefreshPending == before + Restarted(done)
      requires plan == DesiredPlan(Slice(Lookup(daemons, id), id in before, Lookup(hostAccessRules, id)), Blocked(id), tn, loaded)
      modifies `dnsRefreshPending
      ensures ks == plan
      ensures dnsRefreshPending == before + Restarted(done + {id})
    {
      ks := PlanDesired(id, tn, loaded);
    }

    /** The two loops of Diff. */
    method PlanAll(desired: map<string, Tailnet>, loaded: bool) returns (actions: seq<Action>)
      modifies `dnsRefreshPending
      ensures forall id :: Kinds(actions, id) == PlanOf(old(SliceOf(id)), Blocked(id), Lookup(desired, id), loaded)
      ensures dnsRefreshPending == old(dnsRefreshPending) + Restarted(desired.Keys)
    {
      ghost var plans := map id | id in desired :: DesiredPlan(SliceOf(id), Blocked(id), desired[id], loaded);
      PlansOfAll(desired, loaded, plans);
      var starts := PlanStarts(desired, loaded, plans);
      var stops := PlanStops(daemons.Keys - desired.Keys);
      actions := starts + stops;
      PlannedThenStopped(starts, stops, plans, daemons.Keys - desired.Keys);
    }

    /** Diff. Both loops take the ids in any order; the plan of each tailnet does not show it. */
    method Diff(desired: map<string, Tailnet>, loaded: bool) returns (actions: seq<Action>)
      modifies `dnsRefreshPending
      ensures forall id :: Kinds(actions, id) == PlanOf(old(SliceOf(id)), Blocked(id), Lookup(desired, id), loaded)
      ensures forall id :: SliceOf(id) == Pended(old(SliceOf(id)), Blocked(id), Lookup(desired, id))
      ensures forall id ::
        PlansExactly(Kinds(actions, id), old(SliceOf(id)), id in errorStates || id in pausedStates, Lookup(desired, id), loaded)
      ensures forall id :: id in dnsRefreshPending <==>
        id in old(dnsRefreshPending) || (id in desired && id !in errorStates && id !in pausedStates && id in daemons && daemons[id] != Running)
    {
      PlansHaveExactly(desired, loaded);
      actions := PlanAll(desired, loaded);
      PendedByRestart(old(dnsRefreshPending), desired);
    }

    lemma PlansHaveExactly(desired: map<string, Tailnet>, loaded: bool)
      ensures forall id ::
        PlansExactly(PlanOf(SliceOf(id), Blocked(id), Lookup(desired, id), loaded), SliceOf(id), Blocked(id), Lookup(desired, id), loaded)
    {
      forall id
        ensures PlansExactly(PlanOf(SliceOf(id), Blocked(id), Lookup(desired, id), loaded), SliceOf(id), Blocked(id), Lookup(desired, id), loaded)
      {
        PlanHasExactly(SliceOf(id), Blocked(id), Lookup(desired, id), loaded);
      }
    }

    /** The plans of the two loops are the plan of every tailnet. */
    lemma PlansOfAll(desired: map<string, Tailnet>, loaded: bool, plans: map<string, seq<Kind>>)
      requires plans.Keys == desired.Keys
      requires forall id :: id in desired ==> plans[id] == DesiredPlan(SliceOf(id), Blocked(id), desired[id], loaded)
      ensures forall id :: PlanOf(SliceOf(id), Blocked(id), Lookup(desired, id), loaded)
                           == if id in plans then plans[id] else if id in daemons.Keys - desired.Keys then [StopDaemon, DeleteNS] else []
    {
    }

    /** The pending set after the loop, tailnet by tailnet. */
    lemma PendedByRestart(before: set<string>, desired: map<string, Tailnet>)
      requires dnsRefreshPending == before + Restarted(desired.Keys)
      ensures forall id :: SliceOf(id) == Pended(Slice(Lookup(daemons, id), id in before, Lookup(hostAccessRules, id)), Blocked(id), Lookup(desired, id))
    {
      forall id
        ensures SliceOf(id) == Pended(Slice(Lookup(daemons, id), id in before, Lookup(hostAccessRules, id)), Blocked(id), Lookup(desired, id))
      {
        assert id in Restarted(desired.Keys) <==> id in desired && Restarts(id);
      }
    }

    method NextOutcome() returns (o: Outcome)
      modifies `outcomes
      ensures o == OutcomeAt(old(outcomes), 0) && outcomes == After(old(outcomes), 1)
    {
      o := Success;
      if outcomes != [] {
        o, outcomes := outcomes[0], outcomes[1..];
      }
    }

    method WriteSlice(id: string, s: Slice)
      modifies `daemons, `dnsRefreshPending, `hostAccessRules
      ensures SliceOf(id) == s
      ensures forall other :: other != id ==> SliceOf(other) == old(SliceOf(other))
    {
      daemons := if s.daemon.Some? then daemons[id := s.daemon.value] else daemons - {id};
      dnsRefreshPending := if s.pending then dnsRefreshPending + {id} else dnsRefreshPending - {id};
      hostAccessRules := if s.rules.Some? then hostAccessRules[id := s.rules.value] else hostAccessRules - {id};
    }

    /** executeAction. */
    method ExecuteAction(a: Action, hostAccess: bool) returns (failed: bool)
      modifies `daemons, `outcomes, `dnsRefreshPending, `hostAccessRules
      ensures SliceOf(a.id) == Exec(old(SliceOf(a.id)), a.kind, OutcomeAt(old(outcomes), 0), hostAccess)
      ensures failed <==> Failed(OutcomeAt(old(outcomes), 0))
      ensures forall other :: other != a.id ==> SliceOf(other) == old(SliceOf(other))
      ensures outcomes == After(old(outcomes), 1)
      ensures HasEffect(old(SliceOf(a.id)), SliceOf(a.id), a.kind, OutcomeAt(old(outcomes), 0), hostAccess)
    {
      EffectsExactly(SliceOf(a.id), a.kind, OutcomeAt(outcomes, 0), hostAccess);
      var outcome := NextOutcome();
      WriteSlice(a.id, Exec(SliceOf(a.id), a.kind, outcome, hostAccess));
      failed := Failed(outcome);
    }

    /** Every tailnet is where these actions bring it from the state d, p, h. */
    ghost predicate Reached(d: map<string, Daemon>, p: set<string>, h: map<string, bool>, actions: seq<Action>, os: seq<Outcome>, desired: map<string, Tailnet>)
      reads this
    {
      forall id :: SliceOf(id) == Fold(Slice(Lookup(d, id), id in p, Lookup(h, id)), Steps(actions, os, id), Accessed(desired, id))
    }

    /** One action of the list. */
    method RunOne(actions: seq<Action>, i: nat, desired: map<string, Tailnet>,
                  ghost d: map<string, Daemon>, ghost p: set<string>, ghost h: map<string, bool>, ghost os: seq<Outcome>) returns (failed: bool)
      requires i < |actions| && outcomes == After(os, i)
      requires Reached(d, p, h, actions[..i], os, desired)
      modifies `daemons, `outcomes, `dnsRefreshPending, `hostAccessRules
      ensures Reached(d, p, h, actions[..i + 1], os, desired)
      ensures failed <==> Failed(OutcomeAt(os, i))
      ensures outcomes == After(os, i + 1)
    {
      assert OutcomeAt(outcomes, 0) == OutcomeAt(os, i);
      failed := ExecuteAction(actions[i], Accessed(desired, actions[i].id));
      forall id
        ensures SliceOf(id) == Fold(Slice(Lookup(d, id), id in p, Lookup(h, id)), Steps(actions[..i + 1], os, id), Accessed(desired, id))
      {
        StepReached(Slice(Lookup(d, id), id in p, Lookup(h, id)), actions, i, os, id, Accessed(desired, id));
      }
    }

    /** Apply, first part: each action runs, whatever happened to the ones before it. A
        tailnet has failed exactly when one of its own actions did, and its state is the
        result of its own actions and their outcomes. */
    method RunActions(actions: seq<Action>, desired: map<string, Tailnet>) returns (failures: set<string>)
      modifies `daemons, `outcomes, `dnsRefreshPending, `hostAccessRules
      ensures forall id :: id in failures <==> FailsIn(actions, old(outcomes), id)
      ensures forall id :: SliceOf(id) == Fold(old(SliceOf(id)), Steps(actions, old(outcomes), id), Accessed(desired, id))
      ensures outcomes == After(old(outcomes), |actions|)
    {
      failures := {};
      for i := 0 to |actions|
        invariant forall id :: id in failures <==> FailsIn(actions[..i], old(outcomes), id)
        invariant Reached(old(daemons), old(dnsRefreshPending), old(hostAccessRules), actions[..i], old(outcomes), desired)
        invariant outcomes == After(old(outcomes), i)
      {
        StepsNext(actions, old(outcomes), i);
        var failed := RunOne(actions, i, desired, old(daemons), old(dnsRefreshPending), old(hostAccessRules), old(outcomes));
        if failed {
          failures := failures + {actions[i].id};
        }
      }
      assert actions[..|actions|] == actions;
    }

    /** recordFailure and clearFailure, for every tailnet that had an action. */
    method CountFailures(seen: set<string>, failures: set<string>)
      requires Valid() && failures <= seen
      modifies `failureCounts, `errorStates, `history
      ensures Valid()
      ensures history == old(history) + [CycleOf(seen, failures)]
      ensures old(errorStates) <= errorStates
      ensures forall id :: id !in failures ==> (id in errorStates <==> id in old(errorStates))
    {
      ghost var h := history + [CycleOf(seen, failures)];
      forall id
        ensures Streak(h, id) == (if id !in seen then Streak(history, id) else if id in failures then Streak(history, id) + 1 else 0)
        ensures Errored(h, id) <==> Errored(history, id) || (id in seen && id in failures && Streak(h, id) >= MAX_FAILURES)
        ensures Paused(h, id) <==> Paused(history, id)
      {
        StreakAfterCycle(history, seen, failures, id);
      }
      var todo := seen;
      while todo != {}
        invariant todo <= seen
        invariant history == old(history)
        invariant forall id :: id in seen && id !in todo ==> Count(failureCounts, id) == Streak(h, id)
        invariant forall id :: id !in seen || id in todo ==> Count(failureCounts, id) == Streak(history, id)
        invariant forall id :: id in seen && id !in todo ==> (id in errorStates <==> Errored(h, id))
        invariant forall id :: id !in seen || id in todo ==> (id in errorStates <==> Errored(history, id))
        invariant old(errorStates) <= errorStates
        invariant forall id :: id !in failures ==> (id in errorStates <==> id in old(errorStates))
        decreases todo
      {
        var id :| id in todo;
        if id in failures {
          failureCounts := failureCounts[id := Count(failureCounts, id) + 1];
          if failureCounts[id] >= MAX_FAILURES {
            errorStates := errorStates + {id};
          }
        } else {
          failureCounts := failureCounts[id := 0];
        }
        todo := todo - {id};
      }
      history := h;
    }

    /** Apply. */
    method Apply(actions: seq<Action>, desired: map<string, Tailnet>) returns (failures: set<string>)
      requires Valid()
      modifies this
      ensures Valid() && pausedStates == old(pausedStates) && old(errorStates) <= errorStates
      ensures history == old(history) + [CycleOf(Owners(actions), failures)]
      ensures forall id :: id in failures <==> FailsIn(actions, old(outcomes), id)
      ensures forall id :: SliceOf(id) == Fold(old(SliceOf(id)), Steps(actions, old(outcomes), id), Accessed(desired, id))
      ensures forall id :: id !in failures ==> (id in errorStates <==> id in old(errorStates))
      ensures outcomes == After(old(outcomes), |actions|)
    {
      failures := RunActions(actions, desired);
      var seen := Owners(actions);
      forall id | id in failures
        ensures id in seen
      {
        FailingHasKinds(actions, old(outcomes), id);
      }
      CountFailures(seen, failures);
    }

    /** Reconcile, from the read of the host to the check of the DNS protection. unprotected holds
        the tailnets whose overlay mount failed and that dns.allow_unprotected does not cover:
        the check puts each declared one into the error state, whatever its actions did. */
    method Reconcile(desired: map<string, Tailnet>, loaded: bool, unprotected: set<string>)
      returns (ghost actions: seq<Action>, failures: set<string>, ghost marked: seq<string>)
      requires Valid()
      modifies this
      ensures Valid() && pausedStates == old(pausedStates) && old(errorStates) <= errorStates
      ensures forall id :: Kinds(actions, id) == PlanOf(old(SliceOf(id)), old(Blocked(id)), Lookup(desired, id), loaded)
      ensures forall id :: id in failures <==> FailsIn(actions, old(outcomes), id)
      ensures Elements(marked) == desired.Keys * unprotected
      ensures history == old(history) + [CycleOf(Owners(actions), failures)] + Marks(marked)
      ensures forall id :: SliceOf(id) == Fold(Pended(old(SliceOf(id)), old(Blocked(id)), Lookup(desired, id)),
                                               Steps(actions, old(outcomes), id), Accessed(desired, id))
      ensures forall id :: id in desired && (Errored(old(history), id) || Paused(old(history), id)) ==>
        Kinds(actions, id) == [] && SliceOf(id) == old(SliceOf(id))
      ensures forall id ::
        PlansExactly(Kinds(actions, id), old(SliceOf(id)), Errored(old(history), id) || Paused(old(history), id), Lookup(desired, id), loaded)
      ensures loaded ==> forall id :: !old(Blocked(id)) && Succeeds(actions, old(outcomes), id) ==>
        SliceOf(id) == TickOf(old(SliceOf(id)), Lookup(desired, id))
      ensures forall id :: !old(Blocked(id)) && Succeeds(actions, old(outcomes), id) ==>
        (Blocked(id) <==> id in desired && id in unprotected)
      ensures desired.Keys * unprotected <= errorStates
      ensures outcomes == After(old(outcomes), |actions|)
    {
      PlansHaveExactly(desired, loaded);
      actions, failures := PlanAndApply(desired, loaded);
      marked := CheckProtection(desired, unprotected);
    }

    /** The plan of the tick and its execution. */
    method PlanAndApply(desired: map<string, Tailnet>, loaded: bool) returns (ghost actions: seq<Action>, failures: set<string>)
      requires Valid()
      modifies this
      ensures Valid() && pausedStates == old(pausedStates) && old(errorStates) <= errorStates
      ensures forall id :: Kinds(actions, id) == PlanOf(old(SliceOf(id)), old(Blocked(id)), Lookup(desired, id), loaded)
      ensures forall id :: id in failures <==> FailsIn(actions, old(outcomes), id)
      ensures history == old(history) + [CycleOf(Owners(actions), failures)]
      ensures forall id :: SliceOf(id) == Fold(Pended(old(SliceOf(id)), old(Blocked(id)), Lookup(desired, id)),
                                               Steps(actions, old(outcomes), id), Accessed(desired, id))
      ensures forall id :: id in desired && (Errored(old(history), id) || Paused(old(history), id)) ==>
        Kinds(actions, id) == [] && SliceOf(id) == old(SliceOf(id))
      ensures loaded ==> forall id :: !old(Blocked(id)) && Succeeds(actions, old(outcomes), id) ==>
        SliceOf(id) == TickOf(old(SliceOf(id)), Lookup(desired, id))
      ensures forall id :: !old(Blocked(id)) && Succeeds(actions, old(outcomes), id) ==> !Blocked(id)
      ensures outcomes == After(old(outcomes), |actions|)
    {
      var plan := Diff(desired, loaded);
      actions := plan;
      failures := Apply(plan, desired);
      forall id | Kinds(actions, id) == []
        ensures Steps(actions, old(outcomes), id) == []
      {
        NoKindsNoSteps(actions, old(outcomes), id);
      }
      forall id | Succeeds(actions, old(outcomes), id)
        ensures id !in failures
        ensures SliceOf(id) == ExecAll(Pended(old(SliceOf(id)), old(Blocked(id)), Lookup(desired, id)), Kinds(actions, id), Accessed(desired, id))
      {
        SuccessfulSteps(Pended(old(SliceOf(id)), old(Blocked(id)), Lookup(desired, id)), actions, old(outcomes), id, Accessed(desired, id));
      }
    }

    /** checkDNSProtection, over the declared tailnets in any order. */
    method CheckProtection(desired: map<string, Tailnet>, unprotected: set<string>) returns (ghost marked: seq<string>)
      requires Valid()
      modifies `errorStates, `history
      ensures Valid()
      ensures errorStates == old(errorStates) + desired.Keys * unprotected
      ensures Elements(marked) == desired.Keys * unprotected
      ensures history == old(history) + Marks(marked)
    {
      marked := [];
      assert history + Marks([]) == history;
      var todo := desired.Keys;
      while todo != {}
        invariant Valid() && todo <= desired.Keys
        invariant errorStates == old(errorStates) + (desired.Keys - todo) * unprotected
        invariant Elements(marked) == (desired.Keys - todo) * unprotected
        invariant history == old(history) + Marks(marked)
        decreases todo
      {
        var id :| id in todo;
        if id in unprotected {
          MarkUnprotected(id);
          assert Marks(marked + [id]) == Marks(marked) + [Unprotected(id)];
          assert Elements(marked + [id]) == Elements(marked) + {id};
          marked := marked + [id];
        }
        todo := todo - {id};
      }
    }

    /** The operator stops one daemon, and the tailnet stays paused. */
    method StopTailnet(id: string) returns (ok: bool)
      requires Valid()
      modifies this
      ensures Valid() && history == old(history) + if ok then [StoppedByOperator(id)] else []
      ensures ok <==> !Failed(OutcomeAt(old(outcomes), 0))
      ensures ok ==> Paused(history, id) && id in pausedStates && (id in old(daemons) ==> id in daemons && daemons[id] == Stopped)
      ensures (id in daemons <==> id in old(daemons)) && (id in dnsRefreshPending <==> id in old(dnsRefreshPending))
      ensures forall other :: other != id ==> SliceOf(other) == old(SliceOf(other))
    {
      ghost var s := SliceOf(id);
      var failed := ExecuteAction(Action(StopDaemon, id), false);
      ok := !failed;
      assert HasEffect(s, SliceOf(id), StopDaemon, OutcomeAt(old(outcomes), 0), false);
      assert SliceOf(id).daemon == Lookup(daemons, id) && s.daemon == Lookup(old(daemons), id);
      if ok {
        pausedStates := pausedStates + {id};
        history := history + [StoppedByOperator(id)];
        assert history[..|history| - 1] == old(history);
      } else {
        assert history + [] == history;
      }
    }

    /** ResetError. */
    method Reset(id: string)
      requires Valid()
      modifies this
      ensures Valid() && history == old(history) + [ResetError(id)]
      ensures !Blocked(id)
      ensures forall other :: SliceOf(other) == old(SliceOf(other))
    {
      errorStates := errorStates - {id};
      failureCounts := failureCounts - {id};
      pausedStates := pausedStates - {id};
      history := history + [ResetError(id)];
      assert history[..|history| - 1] == old(history);
    }

    /** ResetAllErrors keeps the paused tailnets. */
    method ResetAllErrors()
      requires Valid()
      modifies this
      ensures Valid() && history == old(history) + [ResetAll]
      ensures errorStates == {} && pausedStates == old(pausedStates)
      ensures forall other :: SliceOf(other) == old(SliceOf(other))
    {
      errorStates := {};
      failureCounts := map[];
      history := history + [ResetAll];
      assert history[..|history| - 1] == old(history);
    }

    /** checkDNSProtection, for one declared tailnet whose overlay mount failed and that
        dns.allow_unprotected does not cover. */
    method MarkUnprotected(id: string)
      requires Valid()
      modifies `errorStates, `history
      ensures Valid() && history == old(history) + [Unprotected(id)]
      ensures errorStates == old(errorStates) + {id} && Blocked(id)
    {
      errorStates := errorStates + {id};
      history := history + [Unprotected(id)];
      assert history[..|history| - 1] == old(history);
    }
  }

  /** A host between two ticks: every started daemon becomes Running. */
  method SettleAll(r: State)
    modifies r`daemons
    ensures forall id :: r.SliceOf(id) == Settle(old(r.SliceOf(id)))
  {
    r.daemons := map id | id in r.daemons :: if r.daemons[id] == Starting then Running else r.daemons[id];
  }

  /** One tick of a run: what it planned, the schedule that it started with, and the tailnets
      that its check put into the error state. */
  datatype Tick = Tick(actions: seq<Action>, outcomes: seq<Outcome>, marked: set<string>)

  /** Each action of id succeeds at every tick, and no tick finds it unprotected. */
  predicate Undisturbed(log: seq<Tick>, id: string) {
    forall t :: t in log ==> Calm(t, id)
  }

  predicate Calm(t: Tick, id: string) {
    Succeeds(t.actions, t.outcomes, id) && id !in t.marked
  }

  lemma UndisturbedNext(log: seq<Tick>, t: Tick)
    ensures forall id :: Undisturbed(log + [t], id) <==> Undisturbed(log, id) && Calm(t, id)
  {
    forall id
      ensures Undisturbed(log + [t], id) <==> Undisturbed(log, id) && Calm(t, id)
    {
      assert t in log + [t];
      assert forall u :: u in log + [t] <==> u in log || u == t;
    }
  }

  lemma FreeAfterTwo(r: State, desired: map<string, Tailnet>, s: Slice, id: string, n: nat)
    requires n >= 2 && !r.Blocked(id) && r.SliceOf(id) == Ticks(s, Lookup(desired, id), n)
    ensures Converged(r.SliceOf(id), Lookup(desired, id)) && (id in r.daemons <==> id in desired)
    ensures forall k :: k in PlanOf(r.SliceOf(id), r.Blocked(id), Lookup(desired, id), true) ==> IsPeriodicSync(k)
  {
    ConvergesInTwoTicks(s, Lookup(desired, id), n);
    assert r.SliceOf(id).daemon.Some? <==> id in r.daemons;
    assert Lookup(desired, id).Some? <==> id in desired;
  }

  /** One tick and the pause after it. */
  method OneTick(r: State, desired: map<string, Tailnet>, unprotected: set<string>) returns (ghost t: Tick)
    requires r.Valid()
    modifies r
    ensures r.Valid() && t.outcomes == old(r.outcomes) && r.outcomes == After(t.outcomes, |t.actions|)
    ensures t.marked == desired.Keys * unprotected && old(r.errorStates) <= r.errorStates && t.marked <= r.errorStates
    ensures forall id :: !old(r.Blocked(id)) && Calm(t, id) ==>
      !r.Blocked(id) && r.SliceOf(id) == Settle(TickOf(old(r.SliceOf(id)), Lookup(desired, id)))
    ensures t.outcomes == [] ==> forall id :: Succeeds(t.actions, t.outcomes, id)
  {
    ghost var os := r.outcomes;
    ghost var actions, _, _ := r.Reconcile(desired, true, unprotected);
    t := Tick(actions, os, desired.Keys * unprotected);
    SettleAll(r);
  }

  /** The loop of the daemon on a fixed configuration, with any failures; checks says for each
      tick which tailnets its check finds unprotected. A tailnet that is free at the start, whose
      own actions succeed and that no tick finds unprotected takes its failure-free ticks,
      whatever happens to the others: from the second tick it is where Converged puts it, it has
      a namespace exactly when it is declared, and its next plan holds periodic actions only. A
      declared tailnet that one tick finds unprotected is blocked from then on. */
  method Loop(r: State, desired: map<string, Tailnet>, checks: seq<set<string>>) returns (ghost log: seq<Tick>)
    requires r.Valid()
    modifies r
    ensures r.Valid() && |log| == |checks|
    ensures forall i :: 0 <= i < |checks| ==> log[i].marked == desired.Keys * checks[i]
    ensures forall id :: !old(r.Blocked(id)) && Undisturbed(log, id) ==>
      !r.Blocked(id) && r.SliceOf(id) == Ticks(old(r.SliceOf(id)), Lookup(desired, id), |checks|)
    ensures |checks| >= 2 ==> forall id :: !old(r.Blocked(id)) && Undisturbed(log, id) ==>
      Converged(r.SliceOf(id), Lookup(desired, id)) && (id in r.daemons <==> id in desired)
    ensures |checks| >= 2 ==> forall id, k | !old(r.Blocked(id)) && Undisturbed(log, id) ::
      k in PlanOf(r.SliceOf(id), r.Blocked(id), Lookup(desired, id), true) ==> IsPeriodicSync(k)
    ensures forall i, id :: 0 <= i < |checks| && id in log[i].marked ==> r.Blocked(id)
    ensures old(r.outcomes) == [] ==> forall i, id :: 0 <= i < |checks| ==> Succeeds(log[i].actions, log[i].outcomes, id)
  {
    log := [];
    SettleAll(r);
    for i := 0 to |checks|
      invariant r.Valid() && |log| == i
      invariant forall k :: 0 <= k < i ==> log[k].marked == desired.Keys * checks[k]
      invariant forall k :: 0 <= k < i ==> log[k].marked <= r.errorStates
      invariant forall id :: !old(r.Blocked(id)) && Undisturbed(log, id) ==>
        !r.Blocked(id) && r.SliceOf(id) == Ticks(old(r.SliceOf(id)), Lookup(desired, id), i)
      invariant old(r.outcomes) == [] ==> r.outcomes == []
      invariant old(r.outcomes) == [] ==> forall k, id :: 0 <= k < i ==> Succeeds(log[k].actions, log[k].outcomes, id)
    {
      ghost var t := OneTick(r, desired, checks[i]);
      UndisturbedNext(log, t);
      log := log + [t];
    }
    if |checks| >= 2 {
      forall id | !old(r.Blocked(id)) && Undisturbed(log, id)
        ensures Converged(r.SliceOf(id), Lookup(desired, id)) && (id in r.daemons <==> id in desired)
        ensures forall k :: k in PlanOf(r.SliceOf(id), r.Blocked(id), Lookup(desired, id), true) ==> IsPeriodicSync(k)
      {
        FreeAfterTwo(r, desired, old(r.SliceOf(id)), id, |checks|);
      }
    }
  }
}
