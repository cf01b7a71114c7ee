/**
 * internal/serviced/serviced.go: what registration, the keep-alive loop and deregistration achieve when their requests
 * work, in any state the interleaved steps of all goroutines can lead to.
 */
module KeepAlive {
  import opened Text
  import opened Etcd
  import opened Registry

  // ---------- Runs of one goroutine ----------

  /** The goroutine takes n steps, its requests work, and nobody else moves. */
  function Repeat(t: nat, n: nat): (steps: seq<Step>)
    ensures |steps| == n && forall k :: 0 <= k < n ==> steps[k] == Advance(t, Works)
  {
    seq(n, k => Advance(t, Works))
  }

  ghost function Alone(s: State, t: nat, n: nat): Option<State> {
    Run(s, Repeat(t, n))
  }

  /** s with other contents of etcd, of instance i, and at another place of its goroutine t. */
  function At(s: State, t: nat, i: nat, e: Server, inst: Instance, pc: Pc): State
    requires t < |s.threads| && i < |s.instances|
  {
    State(e, s.instances[i := inst], s.threads[t := Thread(i, pc)])
  }

  lemma StepAt(s: State, t: nat, i: nat, e: Server, inst: Instance, pc: Pc, move: Move, effect: Effect)
    requires t < |s.threads| && i < |s.instances| && e.history != []
    requires Next(e, inst, pc, move) == Some(effect) && effect.left == []
    ensures StepTo(At(s, t, i, e, inst, pc), Advance(t, move)) ==
      Some(At(s, t, i, effect.etcd, effect.inst, effect.pc))
  {
    var a := At(s, t, i, e, inst, pc);
    assert a.instances[i := effect.inst] == s.instances[i := effect.inst];
    assert a.threads[t := Thread(i, effect.pc)] == s.threads[t := Thread(i, effect.pc)];
    assert Left(i, []) == [] && s.threads[t := Thread(i, effect.pc)] + [] == s.threads[t := Thread(i, effect.pc)];
  }

  /** One of n steps. */
  lemma AloneAt(s: State, t: nat, i: nat, e: Server, inst: Instance, pc: Pc, effect: Effect, n: nat)
    requires t < |s.threads| && i < |s.instances| && e.history != [] && n > 0
    requires Next(e, inst, pc, Works) == Some(effect) && effect.left == []
    ensures Alone(At(s, t, i, e, inst, pc), t, n) == Alone(At(s, t, i, effect.etcd, effect.inst, effect.pc), t, n - 1)
  {
    StepAt(s, t, i, e, inst, pc, Works, effect);
    assert Repeat(t, n)[1..] == Repeat(t, n - 1);
  }

  lemma RunThenAlone(s: State, step: Step, next: State, t: nat, n: nat)
    requires StepTo(s, step) == Some(next)
    ensures Run(s, [step] + Repeat(t, n)) == Alone(next, t, n)
  {
    assert ([step] + Repeat(t, n))[1..] == Repeat(t, n);
  }

  lemma UpdateLast<T>(xs: seq<T>, x: T, y: T)
    ensures (xs + [x])[|xs| := y] == xs + [y]
  {
  }

  lemma UpdateTwice<T>(xs: seq<T>, i: nat, x: T, y: T)
    requires i < |xs|
    ensures xs[i := x][i := y] == xs[i := y]
  {
  }

  // ---------- One round of the keep-alive loop ----------

  ghost predicate AtTop(s: State, t: nat, i: nat) {
    s.etcd.history != [] && i < |s.instances| && t < |s.threads| && s.threads[t] == Thread(i, LoopTop)
  }

  function NewKey(e: Server, inst: Instance): Server
    requires e.history != []
  {
    Put(Grant(e), KeyOf(inst), e.nextLease)
  }

  /** Without a lease the loop takes a new one and puts the key again. */
  lemma PutsAgain(s: State, t: nat, i: nat, e: Server, inst: Instance, n: nat)
    requires t < |s.threads| && i < |s.instances| && e.history != [] && n >= 6
    requires !inst.cancelled && inst.leaseID == 0
    ensures Alone(At(s, t, i, e, inst, LoopTop), t, n) ==
      Alone(At(s, t, i, NewKey(e, inst), inst.(registered := true, leaseID := e.nextLease), LoopTop), t, n - 6)
  {
    var lease, after := e.nextLease, NewKey(e, inst);
    AloneAt(s, t, i, e, inst, LoopTop, Effect(e, inst, LoopLease, []), n);
    AloneAt(s, t, i, e, inst, LoopLease, Effect(e, inst, LoopGrant, []), n - 1);
    AloneAt(s, t, i, e, inst, LoopGrant, Effect(Grant(e), inst, LoopPut(lease), []), n - 2);
    AloneAt(s, t, i, Grant(e), inst, LoopPut(lease), Effect(after, inst, LoopSetFlag(lease), []), n - 3);
    PutsFlags(s, t, i, after, inst, lease, n - 4);
  }

  lemma PutsFlags(s: State, t: nat, i: nat, e: Server, inst: Instance, lease: nat, n: nat)
    requires t < |s.threads| && i < |s.instances| && e.history != [] && n >= 2
    ensures Alone(At(s, t, i, e, inst, LoopSetFlag(lease)), t, n) ==
      Alone(At(s, t, i, e, inst.(registered := true, leaseID := lease), LoopTop), t, n - 2)
  {
    var flagged := inst.(registered := true);
    AloneAt(s, t, i, e, inst, LoopSetFlag(lease), Effect(e, flagged, LoopSetLease(lease), []), n);
    AloneAt(s, t, i, e, flagged, LoopSetLease(lease), Effect(e, flagged.(leaseID := lease), LoopTop, []), n - 1);
  }

  /** keepAliveFailed forgets flag and lease. */
  function Forgotten(inst: Instance): Instance {
    inst.(registered := false, leaseID := 0)
  }

  lemma Forgets(s: State, t: nat, i: nat, e: Server, inst: Instance, n: nat)
    requires t < |s.threads| && i < |s.instances| && e.history != [] && n >= 2
    ensures Alone(At(s, t, i, e, inst, FailFlag), t, n) == Alone(At(s, t, i, e, Forgotten(inst), LoopTop), t, n - 2)
  {
    var cleared := inst.(registered := false);
    AloneAt(s, t, i, e, inst, FailFlag, Effect(e, cleared, FailLease, []), n);
    AloneAt(s, t, i, e, cleared, FailLease, Effect(e, Forgotten(inst), LoopTop, []), n - 1);
  }

  /** The instance has a lease that lives, and its key is there. */
  predicate Healthy(e: Server, inst: Instance)
    requires e.history != []
  {
    inst.leaseID != 0 && inst.leaseID in e.leases && KeyOf(inst) in Current(e)
  }

  /** The number of steps until the key is put again, or renewed. */
  function Round(e: Server, inst: Instance): nat
    requires e.history != []
  {
    if inst.leaseID == 0 then 6
    else if KeyOf(inst) !in Current(e) then 11
    else if inst.leaseID !in e.leases then 12
    else 4
  }

  /** With a lease the loop looks for the key, and renews the lease if it is there. */
  lemma Looks(s: State, t: nat, i: nat, e: Server, inst: Instance, n: nat)
    requires t < |s.threads| && i < |s.instances| && e.history != [] && n >= 4
    requires !inst.cancelled && inst.leaseID != 0
    ensures Alone(At(s, t, i, e, inst, LoopTop), t, n) ==
      if KeyOf(inst) !in Current(e) then Alone(At(s, t, i, e, inst, FailFlag), t, n - 3)
      else Alone(At(s, t, i, e, inst, if inst.leaseID in e.leases then LoopTop else FailFlag), t, n - 4)
  {
    var lease := inst.leaseID;
    var found := KeyOf(inst) in Current(e);
    AloneAt(s, t, i, e, inst, LoopTop, Effect(e, inst, LoopLease, []), n);
    AloneAt(s, t, i, e, inst, LoopLease, Effect(e, inst, LoopGet(lease), []), n - 1);
    AloneAt(s, t, i, e, inst, LoopGet(lease), Effect(e, inst, if found then LoopRenew(lease) else FailFlag, []), n - 2);
    if found {
      var next := if lease in e.leases then LoopTop else FailFlag;
      AloneAt(s, t, i, e, inst, LoopRenew(lease), Effect(e, inst, next, []), n - 3);
    }
  }

  lemma RoundIs(s: State, t: nat, i: nat)
    requires AtTop(s, t, i) && !s.instances[i].cancelled
    ensures var e, inst := s.etcd, s.instances[i];
      Alone(s, t, Round(e, inst)) ==
        Some(if Healthy(e, inst) then s
             else At(s, t, i, NewKey(e, inst), inst.(registered := true, leaseID := e.nextLease), LoopTop))
  {
    var e, inst, n := s.etcd, s.instances[i], Round(s.etcd, s.instances[i]);
    assert At(s, t, i, e, inst, LoopTop) == s;
    if inst.leaseID == 0 {
      PutsAgain(s, t, i, e, inst, n);
    } else {
      Looks(s, t, i, e, inst, n);
      if !Healthy(e, inst) {
        Forgets(s, t, i, e, inst, 8);
        PutsAgain(s, t, i, e, Forgotten(inst), 6);
      }
    }
  }

  // ---------- What a round achieves ----------

  /** The key is there under this lease, which lives. */
  predicate Holds(e: Server, key: string, lease: nat)
    requires e.history != []
  {
    key in Current(e) && Current(e)[key].lease == lease && lease in e.leases
  }

  /** Nothing else has changed: other keys, other instances, other goroutines, and the name of instance i. */
  ghost predicate OthersSame(s: State, n: State, t: nat, i: nat)
    requires s.etcd.history != [] && n.etcd.history != [] && i < |s.instances|
  {
    var key := KeyOf(s.instances[i]);
    && Current(n.etcd) - {key} == Current(s.etcd) - {key}
    && |n.instances| == |s.instances| && SameName(s.instances[i], n.instances[i])
    && (forall j :: 0 <= j < |s.instances| && j != i ==> n.instances[j] == s.instances[j])
    && |s.threads| <= |n.threads|
    && (forall u :: 0 <= u < |s.threads| && u != t ==> n.threads[u] == s.threads[u])
  }

  lemma NewKeyHolds(e: Server, inst: Instance)
    requires e.history != []
    ensures var after, key := NewKey(e, inst), KeyOf(inst);
      && Holds(after, key, e.nextLease) && Current(after) - {key} == Current(e) - {key}
      && (key in Current(e) ==> Current(after)[key].createRev == Current(e)[key].createRev)
      && (key !in Current(e) ==> Current(after)[key].createRev == |e.history|)
  {
  }

  /**
   * In every reachable state, let a goroutine of a live instance at the top of its keep-alive loop take the steps of
   * one round alone, with working requests. Then the key is there under a live lease, and the instance has a lease that
   * lives. If key and lease were there already, nothing has changed; otherwise, whether the key or the lease was lost
   * or never there, the instance is registered and holds the key by its own lease. A key still there keeps its age.
   */
  lemma KeepAliveRestores(init: State, steps: seq<Step>, t: nat, i: nat)
    requires IsInit(init) && Run(init, steps).Some?
    requires AtTop(Run(init, steps).value, t, i) && !Run(init, steps).value.instances[i].cancelled
    ensures var s := Run(init, steps).value;
      var end := Alone(s, t, Round(s.etcd, s.instances[i]));
      end.Some? && AtTop(end.value, t, i) && OthersSame(s, end.value, t, i)
    ensures var s := Run(init, steps).value;
      var n, key := Alone(s, t, Round(s.etcd, s.instances[i])).value, KeyOf(s.instances[i]);
      && Healthy(n.etcd, n.instances[i]) && Current(n.etcd)[key].lease in n.etcd.leases
      && (key in Current(s.etcd) ==> Current(n.etcd)[key].createRev == Current(s.etcd)[key].createRev)
      && (if Healthy(s.etcd, s.instances[i]) then n == s
          else n.instances[i].registered && Holds(n.etcd, key, n.instances[i].leaseID))
  {
    var s: State := Run(init, steps).value;
    var e, inst := s.etcd, s.instances[i];
    InitInv(init);
    RunInv(init, steps);
    RunLeases(init, steps);
    RoundIs(s, t, i);
    NewKeyHolds(e, inst);
    assert s.instances[i := inst] == s.instances;
  }

  /** Lease numbers start above 0, which stands for no lease. */
  lemma {:induction false} RunLeases(s: State, steps: seq<Step>)
    requires s.etcd.nextLease > 0 && Run(s, steps).Some?
    ensures Run(s, steps).value.etcd.nextLease > 0
    decreases |steps|
  {
    if steps != [] {
      if steps[0].Advance? {
        var who := s.threads[steps[0].t].who;
        NextGrants(s.etcd, s.instances[who], s.threads[steps[0].t].pc, steps[0].move);
      }
      RunLeases(StepTo(s, steps[0]).value, steps[1..]);
    }
  }

  /** So, after one round, the instance holds its key by its own lease unless it was healthy with another one before. */
  lemma HoldsOwnExactly(init: State, steps: seq<Step>, t: nat, i: nat)
    requires IsInit(init) && Run(init, steps).Some?
    requires AtTop(Run(init, steps).value, t, i) && !Run(init, steps).value.instances[i].cancelled
    ensures var s := Run(init, steps).value;
      var end, inst := Alone(s, t, Round(s.etcd, s.instances[i])), s.instances[i];
      && end.Some? && AtTop(end.value, t, i)
      && (Holds(end.value.etcd, KeyOf(inst), end.value.instances[i].leaseID) <==>
            (Healthy(s.etcd, inst) ==> Current(s.etcd)[KeyOf(inst)].lease == inst.leaseID))
      && (end.value.instances[i].registered <==> (Healthy(s.etcd, inst) ==> inst.registered))
  {
    KeepAliveRestores(init, steps, t, i);
  }

  // ---------- Failing requests ----------

  /** The request the loop stands at does not succeed: it fails, its context is cancelled, or key or lease is gone. */
  predicate LoopRequestFails(e: Server, inst: Instance, pc: Pc, move: Move)
    requires e.history != []
  {
    match pc
    case LoopGet(_) => move != Works || inst.cancelled || KeyOf(inst) !in Current(e)
    case LoopRenew(lease) => move != Works || inst.cancelled || lease !in e.leases
    case _ => false
  }

  lemma GivesUp(s: State, t: nat, i: nat, move: Move)
    requires s.etcd.history != [] && i < |s.instances| && t < |s.threads| && s.threads[t].who == i
    requires LoopRequestFails(s.etcd, s.instances[i], s.threads[t].pc, move)
    ensures StepTo(s, Advance(t, move)) == Some(At(s, t, i, s.etcd, s.instances[i], FailFlag))
  {
    assert At(s, t, i, s.etcd, s.instances[i], s.threads[t].pc) == s;
    StepAt(s, t, i, s.etcd, s.instances[i], s.threads[t].pc, move, Effect(s.etcd, s.instances[i], FailFlag, []));
  }

  /** A look-up or renewal that does not succeed clears the flag and the lease, and leaves etcd alone. */
  lemma FailedLoopForgets(s: State, t: nat, i: nat, move: Move)
    requires s.etcd.history != [] && i < |s.instances| && t < |s.threads| && s.threads[t].who == i
    requires LoopRequestFails(s.etcd, s.instances[i], s.threads[t].pc, move)
    ensures Run(s, [Advance(t, move)] + Repeat(t, 2)) ==
      Some(s.(instances := s.instances[i := s.instances[i].(registered := false, leaseID := 0)],
              threads := s.threads[t := Thread(i, LoopTop)]))
  {
    var e, inst := s.etcd, s.instances[i];
    GivesUp(s, t, i, move);
    RunThenAlone(s, Advance(t, move), At(s, t, i, e, inst, FailFlag), t, 2);
    Forgets(s, t, i, e, inst, 2);
  }

  /** What the loop has after it forgot everything is what it would have had anyway. */
  lemma ForgottenPuts(s: State, t: nat, i: nat, e: Server, inst: Instance)
    requires t < |s.threads| && i < |s.instances| && e.history != [] && !inst.cancelled
    ensures Alone(At(s, t, i, e, inst, FailFlag), t, 8) ==
      Some(At(s, t, i, NewKey(e, inst), inst.(registered := true, leaseID := e.nextLease), LoopTop))
  {
    Forgets(s, t, i, e, inst, 8);
    PutsAgain(s, t, i, e, Forgotten(inst), 6);
    assert KeyOf(Forgotten(inst)) == KeyOf(inst);
  }

  /**
   * When etcd cannot be reached at a look-up or renewal, even of a healthy instance, eight more steps that work bring
   * the key back under a new lease.
   */
  lemma OutageThenRestored(s: State, t: nat, i: nat, move: Move)
    requires s.etcd.history != [] && i < |s.instances| && t < |s.threads| && s.threads[t].who == i
    requires !s.instances[i].cancelled && LoopRequestFails(s.etcd, s.instances[i], s.threads[t].pc, move)
    ensures var end := Run(s, [Advance(t, move)] + Repeat(t, 8));
      && end.Some? && AtTop(end.value, t, i) && end.value.instances[i].registered
      && end.value.instances[i].leaseID == s.etcd.nextLease
      && Holds(end.value.etcd, KeyOf(s.instances[i]), s.etcd.nextLease)
  {
    GivesUp(s, t, i, move);
    RunThenAlone(s, Advance(t, move), At(s, t, i, s.etcd, s.instances[i], FailFlag), t, 8);
    ForgottenPuts(s, t, i, s.etcd, s.instances[i]);
    NewKeyHolds(s.etcd, s.instances[i]);
  }

  // ---------- The loops do not end by themselves ----------

  /** The goroutine is in the keep-alive loop. */
  predicate KeepingAlive(pc: Pc) {
    pc == LoopTop || pc == LoopLease || pc == LoopGrant || pc.LoopPut? || pc.LoopSetFlag? || pc.LoopSetLease?
    || pc.LoopGet? || pc.LoopRenew? || pc == FailFlag || pc == FailLease
  }

  /** The goroutine is in a loop of syncMasterState. */
  predicate Checking(pc: Pc) {
    pc == ReadOwn || pc.ReadFirst? || pc.SetMaster?
  }

  lemma NextGoesOn(e: Server, inst: Instance, pc: Pc, move: Move)
    requires e.history != [] && Next(e, inst, pc, move).Some?
    ensures KeepingAlive(pc) && !inst.cancelled ==> KeepingAlive(Next(e, inst, pc, move).value.pc)
    ensures Checking(pc) ==> Checking(Next(e, inst, pc, move).value.pc)
  {
  }

  lemma StepGoesOn(s: State, step: Step, t: nat, i: nat)
    requires StepTo(s, step).Some? && t < |s.threads| && s.threads[t].who == i < |s.instances|
    ensures var n := StepTo(s, step).value;
      && t < |n.threads| && n.threads[t].who == i
      && (s.instances[i].cancelled ==> n.instances[i].cancelled)
      && (KeepingAlive(s.threads[t].pc) && !s.instances[i].cancelled ==> KeepingAlive(n.threads[t].pc))
      && (Checking(s.threads[t].pc) ==> Checking(n.threads[t].pc))
  {
    if step.Advance? {
      var who := s.threads[step.t].who;
      NextCancelled(s.etcd, s.instances[who], s.threads[step.t].pc, step.move);
      NextGoesOn(s.etcd, s.instances[who], s.threads[step.t].pc, step.move);
    }
  }

  /** Whatever fails, the keep-alive loop goes on until Deregister cancels it, and the loops of checks for ever. */
  lemma {:induction false} LoopsGoOn(s: State, steps: seq<Step>, t: nat, i: nat)
    requires Run(s, steps).Some? && t < |s.threads| && s.threads[t].who == i < |s.instances|
    ensures var n := Run(s, steps).value;
      && t < |n.threads| && n.threads[t].who == i
      && (s.instances[i].cancelled ==> n.instances[i].cancelled)
      && (KeepingAlive(s.threads[t].pc) && !n.instances[i].cancelled ==> KeepingAlive(n.threads[t].pc))
      && (Checking(s.threads[t].pc) ==> Checking(n.threads[t].pc))
    decreases |steps|
  {
    if steps != [] {
      StepGoesOn(s, steps[0], t, i);
      LoopsGoOn(StepTo(s, steps[0]).value, steps[1..], t, i);
    }
  }

  /** Only goroutine t moves. */
  predicate OnlyMoves(steps: seq<Step>, t: nat) {
    forall k :: 0 <= k < |steps| ==> steps[k].Advance? && steps[k].t == t
  }

  /** How many failing steps take the keep-alive loop back to its top. */
  function StepsToTop(pc: Pc): nat {
    match pc
    case LoopLease => 4
    case LoopGet(_) => 3
    case LoopRenew(_) => 3
    case FailFlag => 2
    case LoopSetFlag(_) => 2
    case FailLease => 1
    case LoopSetLease(_) => 1
    case LoopGrant => 1
    case LoopPut(_) => 1
    case _ => 0
  }

  lemma FailingStep(e: Server, inst: Instance, pc: Pc)
    requires e.history != [] && KeepingAlive(pc) && pc != LoopTop
    ensures var effect := Next(e, inst, pc, Fails);
      && effect.Some? && effect.value.left == [] && effect.value.etcd == e && KeepingAlive(effect.value.pc)
      && StepsToTop(effect.value.pc) < StepsToTop(pc) && effect.value.inst.cancelled == inst.cancelled
      && SameName(effect.value.inst, inst)
  {
  }

  /** Even if all its requests fail, the loop comes back to its top. */
  lemma {:induction false} BackAtTop(s: State, t: nat, i: nat) returns (steps: seq<Step>)
    requires s.etcd.history != [] && t < |s.threads| && s.threads[t].who == i < |s.instances|
    requires KeepingAlive(s.threads[t].pc)
    ensures OnlyMoves(steps, t) && |steps| <= StepsToTop(s.threads[t].pc) <= 4
    ensures Run(s, steps).Some? && AtTop(Run(s, steps).value, t, i)
    ensures Run(s, steps).value.instances[i].cancelled == s.instances[i].cancelled
    ensures SameName(Run(s, steps).value.instances[i], s.instances[i])
    decreases StepsToTop(s.threads[t].pc)
  {
    var inst, pc := s.instances[i], s.threads[t].pc;
    if pc == LoopTop {
      steps := [];
    } else {
      var effect := Next(s.etcd, inst, pc, Fails).value;
      FailingStep(s.etcd, inst, pc);
      assert At(s, t, i, s.etcd, inst, pc) == s;
      StepAt(s, t, i, s.etcd, inst, pc, Fails, effect);
      var rest := BackAtTop(At(s, t, i, effect.etcd, effect.inst, effect.pc), t, i);
      steps := [Advance(t, Fails)] + rest;
      assert steps[1..] == rest;
    }
  }

  /** The goroutine can bring the key back, under a live lease, in this many steps of its own. */
  ghost predicate Recovers(s: State, t: nat, i: nat, most: nat) {
    exists steps ::
      OnlyMoves(steps, t) && |steps| <= most && Run(s, steps).Some?
      && (var n := Run(s, steps).value;
          AtTop(n, t, i) && Healthy(n.etcd, n.instances[i]) && SameName(n.instances[i], s.instances[i]))
  }

  /**
   * In every reachable state, wherever a goroutine stands in the keep-alive loop of a live instance, sixteen steps of
   * its own are enough to have the key there and a live lease.
   */
  lemma KeepAliveRecovers(init: State, steps: seq<Step>, t: nat, i: nat)
    requires IsInit(init) && Run(init, steps).Some?
    requires var s := Run(init, steps).value;
      && t < |s.threads| && s.threads[t].who == i < |s.instances| && KeepingAlive(s.threads[t].pc)
      && !s.instances[i].cancelled
    ensures Recovers(Run(init, steps).value, t, i, 16)
  {
    var s: State := Run(init, steps).value;
    InitInv(init);
    RunInv(init, steps);
    var back := BackAtTop(s, t, i);
    var top := Run(s, back).value;
    RunAppends(init, steps, back, s);
    KeepAliveRestores(init, steps + back, t, i);
    var round := Repeat(t, Round(top.etcd, top.instances[i]));
    RunAppends(s, back, round, top);
    assert OnlyMoves(back + round, t) && |back + round| <= 16;
  }

  // ---------- Register ----------

  lemma RegisterRuns(s: State, i: nat)
    requires s.etcd.history != [] && Fresh(s, i)
    ensures Run(s, [CallRegister(i)] + Repeat(|s.threads|, 4)) ==
      Some(State(NewKey(s.etcd, s.instances[i]),
                 s.instances[i := s.instances[i].(registered := true, leaseID := s.etcd.nextLease)],
                 s.threads + [Thread(i, LoopTop)]))
  {
    var t, e, inst, lease := |s.threads|, s.etcd, s.instances[i], s.etcd.nextLease;
    var called := s.(threads := s.threads + [Thread(i, RegisterGrant)]);
    RunThenAlone(s, CallRegister(i), called, t, 4);
    assert At(called, t, i, e, inst, RegisterGrant) == called;
    AloneAt(called, t, i, e, inst, RegisterGrant, Effect(Grant(e), inst, RegisterPut(lease), []), 4);
    AloneAt(called, t, i, Grant(e), inst, RegisterPut(lease),
            Effect(NewKey(e, inst), inst, RegisterLease(lease), []), 3);
    RegistersFlags(called, t, i, NewKey(e, inst), inst, lease);
    UpdateLast(s.threads, Thread(i, RegisterGrant), Thread(i, LoopTop));
  }

  lemma RegistersFlags(s: State, t: nat, i: nat, e: Server, inst: Instance, lease: nat)
    requires t < |s.threads| && i < |s.instances| && e.history != []
    ensures Alone(At(s, t, i, e, inst, RegisterLease(lease)), t, 2) ==
      Some(At(s, t, i, e, inst.(registered := true, leaseID := lease), LoopTop))
  {
    var leased := inst.(leaseID := lease);
    AloneAt(s, t, i, e, inst, RegisterLease(lease), Effect(e, leased, RegisterFlag, []), 2);
    AloneAt(s, t, i, e, leased, RegisterFlag, Effect(e, leased.(registered := true), LoopTop, []), 1);
  }

  /** Register on an instance that is neither registered nor cancelled, with working requests. */
  lemma RegisterHolds(s: State, i: nat)
    requires s.etcd.history != [] && Fresh(s, i)
    ensures var end := Run(s, [CallRegister(i)] + Repeat(|s.threads|, 4));
      && end.Some? && AtTop(end.value, |s.threads|, i) && OthersSame(s, end.value, |s.threads|, i)
      && end.value.instances[i] == s.instances[i].(registered := true, leaseID := s.etcd.nextLease)
      && Holds(end.value.etcd, KeyOf(s.instances[i]), s.etcd.nextLease)
      && |end.value.threads| == |s.threads| + 1 && end.value.etcd.leases == s.etcd.leases + {s.etcd.nextLease}
  {
    RegisterRuns(s, i);
    NewKeyHolds(s.etcd, s.instances[i]);
  }

  /** A second Register is refused; one whose request fails changes no flag, and etcd only if the reply was lost. */
  lemma RegisterRefused(s: State, i: nat)
    requires s.etcd.history != [] && i < |s.instances| && s.instances[i].registered
    ensures StepTo(s, CallRegister(i)) == Some(s)
  {
  }

  lemma RegisterFails(s: State, t: nat, i: nat, move: Move)
    requires s.etcd.history != [] && i < |s.instances| && t < |s.threads| && s.threads[t].who == i
    requires s.threads[t].pc.RegisterGrant? || s.threads[t].pc.RegisterPut?
    requires move == Fails || move == LosesReply
    ensures var end := StepTo(s, Advance(t, move));
      && end.Some? && end.value.instances == s.instances && end.value.threads[t] == Thread(i, Ended)
      && end.value.etcd.history == s.etcd.history && (move == Fails ==> end.value.etcd == s.etcd)
  {
    assert s.instances[i := s.instances[i]] == s.instances;
  }

  // ---------- Deregister ----------

  lemma Deletes(s: State, t: nat, i: nat, e: Server, inst: Instance)
    requires t < |s.threads| && i < |s.instances| && Valid(e)
    ensures Alone(At(s, t, i, e, inst, DeleteKey), t, 2) ==
      Some(At(s, t, i, Remove(e, {KeyOf(inst)}), inst.(registered := false), Ended))
  {
    var after := Remove(e, {KeyOf(inst)});
    RemoveValid(e, {KeyOf(inst)});
    AloneAt(s, t, i, e, inst, DeleteKey, Effect(after, inst, DeleteFlag, []), 2);
    AloneAt(s, t, i, after, inst, DeleteFlag, Effect(after, inst.(registered := false), Ended, []), 1);
  }

  lemma DeregisterRuns(s: State, i: nat)
    requires Valid(s.etcd) && i < |s.instances|
    ensures Run(s, [CallDeregister(i)] + Repeat(|s.threads|, 2)) ==
      Some(State(Remove(s.etcd, {KeyOf(s.instances[i])}),
                 s.instances[i := s.instances[i].(cancelled := true, registered := false)],
                 s.threads + [Thread(i, Ended)]))
  {
    var t, e, inst := |s.threads|, s.etcd, s.instances[i].(cancelled := true);
    var called := State(e, s.instances[i := inst], s.threads + [Thread(i, DeleteKey)]);
    RunThenAlone(s, CallDeregister(i), called, t, 2);
    UpdateLast(s.threads, Thread(i, DeleteKey), Thread(i, DeleteKey));
    UpdateLast(s.threads, Thread(i, DeleteKey), Thread(i, Ended));
    UpdateTwice(s.instances, i, inst, inst);
    UpdateTwice(s.instances, i, inst, inst.(registered := false));
    Deletes(called, t, i, e, inst);
  }

  /** Deregister with a working request: the context is cancelled, the key is gone, and the flag is cleared. */
  lemma DeregisterRemoves(s: State, i: nat)
    requires Valid(s.etcd) && i < |s.instances|
    ensures var end := Run(s, [CallDeregister(i)] + Repeat(|s.threads|, 2));
      && end.Some? && end.value.etcd.history != [] && KeyOf(s.instances[i]) !in Current(end.value.etcd)
      && end.value.instances[i] == s.instances[i].(cancelled := true, registered := false)
      && OthersSame(s, end.value, |s.threads|, i) && end.value.threads == s.threads + [Thread(i, Ended)]
  {
    DeregisterRuns(s, i);
    RemoveValid(s.etcd, {KeyOf(s.instances[i])});
  }

  /** A deletion whose reply is lost leaves flag and key; the deletion may still be under way. */
  lemma LostDeletion(s: State, t: nat, i: nat)
    requires s.etcd.history != [] && i < |s.instances| && t < |s.threads| && s.threads[t] == Thread(i, DeleteKey)
    ensures StepTo(s, Advance(t, LosesReply)) ==
      Some(s.(threads := s.threads[t := Thread(i, Ended)] + [Thread(i, LateDelete)]))
  {
    assert s.instances[i := s.instances[i]] == s.instances && Left(i, [LateDelete]) == [Thread(i, LateDelete)];
  }

  /** When it takes effect after all, the key goes. */
  lemma LateDeletionRemoves(s: State, u: nat, i: nat)
    requires Valid(s.etcd) && i < |s.instances| && u < |s.threads| && s.threads[u] == Thread(i, LateDelete)
    ensures var end := StepTo(s, Advance(u, Works));
      && end.Some? && end.value.instances == s.instances && Valid(end.value.etcd)
      && Current(end.value.etcd) == Current(s.etcd) - {KeyOf(s.instances[i])}
  {
    var e, inst := s.etcd, s.instances[i];
    RemoveValid(e, {KeyOf(inst)});
    assert At(s, u, i, e, inst, LateDelete) == s && s.instances[i := inst] == s.instances;
    StepAt(s, u, i, e, inst, LateDelete, Works, Effect(Remove(e, {KeyOf(inst)}), inst, Ended, []));
  }

  // ---------- After the cancel ----------

  /** How many more steps a goroutine of Register and keepAlive can take once its context is cancelled. */
  function StepsLeft(pc: Pc): nat {
    match pc
    case LoopLease => 5
    case LoopGet(_) => 4
    case LoopRenew(_) => 4
    case FailFlag => 3
    case LoopSetFlag(_) => 3
    case RegisterLease(_) => 3
    case FailLease => 2
    case LoopSetLease(_) => 2
    case LoopGrant => 2
    case LoopPut(_) => 2
    case RegisterFlag => 2
    case RegisterGrant => 1
    case RegisterPut(_) => 1
    case LoopTop => 1
    case _ => 0
  }

  predicate InLoop(pc: Pc) {
    pc == Ended || StepsLeft(pc) > 0
  }

  lemma NextCounts(e: Server, inst: Instance, pc: Pc, move: Move)
    requires e.history != [] && inst.cancelled && InLoop(pc) && Next(e, inst, pc, move).Some?
    ensures var effect := Next(e, inst, pc, move).value;
      InLoop(effect.pc) && StepsLeft(effect.pc) < StepsLeft(pc)
  {
  }

  lemma NextCancelled(e: Server, inst: Instance, pc: Pc, move: Move)
    requires e.history != [] && Next(e, inst, pc, move).Some?
    ensures Next(e, inst, pc, move).value.inst.cancelled == inst.cancelled
  {
  }

  function StepsOf(steps: seq<Step>, t: nat): nat {
    if steps == [] then 0
    else (if steps[0].Advance? && steps[0].t == t then 1 else 0) + StepsOf(steps[1..], t)
  }

  /** The goroutine belongs to a cancelled instance and is one of Register and keepAlive. */
  predicate Winding(s: State, t: nat) {
    t < |s.threads| && s.threads[t].who < |s.instances| && s.instances[s.threads[t].who].cancelled
    && InLoop(s.threads[t].pc)
  }

  lemma StepWinds(s: State, step: Step, t: nat)
    requires Winding(s, t) && StepTo(s, step).Some?
    ensures var n := StepTo(s, step).value;
      && Winding(n, t)
      && StepsLeft(n.threads[t].pc) + (if step.Advance? && step.t == t then 1 else 0) <= StepsLeft(s.threads[t].pc)
  {
    if step.Advance? {
      var inst, pc := s.instances[s.threads[step.t].who], s.threads[step.t].pc;
      NextCancelled(s.etcd, inst, pc, step.move);
      if step.t == t {
        NextCounts(s.etcd, inst, pc, step.move);
      }
    }
  }

  /**
   * Once the context is cancelled, a goroutine of Register or keepAlive takes at most five more steps, however its
   * requests go and whatever the others do.
   */
  lemma {:induction false} CancelledLoopEnds(s: State, steps: seq<Step>, t: nat)
    requires Winding(s, t) && Run(s, steps).Some?
    ensures StepsOf(steps, t) <= StepsLeft(s.threads[t].pc) <= 5
    ensures Winding(Run(s, steps).value, t)
    ensures StepsOf(steps, t) == StepsLeft(s.threads[t].pc) ==> Run(s, steps).value.threads[t].pc == Ended
    decreases |steps|
  {
    if steps != [] {
      StepWinds(s, steps[0], t);
      CancelledLoopEnds(StepTo(s, steps[0]).value, steps[1..], t);
    }
  }

  // ---------- A key under a stray lease ----------

  /** The loop renews a lease that the key is not bound to. */
  ghost predicate Stray(s: State, t: nat, i: nat) {
    && AtTop(s, t, i) && !s.instances[i].cancelled && s.instances[i].registered && Healthy(s.etcd, s.instances[i])
    && Current(s.etcd)[KeyOf(s.instances[i])].lease != s.instances[i].leaseID
  }

  /** Register gives up on its put, which stays under way. */
  function GivenUp(s: State, i: nat): State {
    State(Grant(s.etcd), s.instances, s.threads + [Thread(i, Ended), Thread(i, LatePut(s.etcd.nextLease))])
  }

  lemma GivenUpReached(s: State, i: nat)
    requires s.etcd.history != [] && Fresh(s, i)
    ensures Reaches(s, GivenUp(s, i))
  {
    var t, lease := |s.threads|, s.etcd.nextLease;
    var granted := Granted(s, i);
    GrantReached(s, i);
    assert s.instances[i := s.instances[i]] == s.instances && Left(i, [LatePut(lease)]) == [Thread(i, LatePut(lease))];
    assert granted.threads[t := Thread(i, Ended)] + [Thread(i, LatePut(lease))] == GivenUp(s, i).threads;
    StepReaches(granted, Advance(t, LosesReply), GivenUp(s, i));
    ReachesTransitive(s, granted, GivenUp(s, i));
  }

  /**
   * Register gives up on a put; a second Register succeeds; then the first put takes effect after all, with its own
   * lease. From then on the loop renews a lease the key does not depend on.
   */
  lemma StrayLeaseReachable(s: State, i: nat)
    requires Valid(s.etcd) && Fresh(s, i) && s.etcd.nextLease > 0
    ensures exists n, t :: Reaches(s, n) && Stray(n, t, i)
  {
    var lost, u, lease := GivenUp(s, i), |s.threads| + 1, s.etcd.nextLease;
    GivenUpReached(s, i);
    RegisterHolds(lost, i);
    var again := Run(lost, [CallRegister(i)] + Repeat(|lost.threads|, 4)).value;
    assert again.threads[u] == Thread(i, LatePut(lease));
    var key := KeyOf(s.instances[i]);
    var n := again.(etcd := Put(again.etcd, key, lease), threads := again.threads[u := Thread(i, Ended)]);
    AdvanceReaches(again, u, i, Works, n);
    ReachesTransitive(s, lost, again);
    ReachesTransitive(s, again, n);
    assert Stray(n, |lost.threads|, i);
  }

  /** When that lease runs out the key is gone, although the loop has renewed its own; the next round puts it again. */
  lemma StrayLeaseEnds(s: State, t: nat, i: nat)
    requires Inv(s) && Stray(s, t, i)
    ensures Alone(s, t, 4) == Some(s)
    ensures var n := StepTo(s, LeaseRunsOut(Current(s.etcd)[KeyOf(s.instances[i])].lease));
      && n.Some? && AtTop(n.value, t, i) && KeyOf(s.instances[i]) !in Current(n.value.etcd)
      && s.instances[i].leaseID in n.value.etcd.leases && Round(n.value.etcd, n.value.instances[i]) == 11
  {
    var key := KeyOf(s.instances[i]);
    RoundIs(s, t, i);
    ExpiryTakesItsKeys(s.etcd, Current(s.etcd)[key].lease, key);
    ExpireValid(s.etcd, Current(s.etcd)[key].lease);
  }

  // ---------- Switching the master check off ----------

  /** Whether the master check is switched off after these steps. */
  function SwitchedOff(steps: seq<Step>, i: nat, before: bool): bool {
    if steps == [] then before
    else
      var last := steps[|steps| - 1];
      if last.CallDisable? && last.i == i then last.disable else SwitchedOff(steps[..|steps| - 1], i, before)
  }

  lemma {:induction false} RunSnoc(s: State, steps: seq<Step>, last: Step)
    ensures Run(s, steps + [last]) ==
      match Run(s, steps) { case None => None case Some(n) => StepTo(n, last) }
    decreases |steps|
  {
    if steps == [] {
      assert [] + [last] == [last] && [last][1..] == [];
    } else {
      assert (steps + [last])[0] == steps[0] && (steps + [last])[1..] == steps[1..] + [last];
      if StepTo(s, steps[0]).Some? {
        RunSnoc(StepTo(s, steps[0]).value, steps[1..], last);
      }
    }
  }

  lemma NextDisabled(e: Server, inst: Instance, pc: Pc, move: Move)
    requires e.history != [] && Next(e, inst, pc, move).Some?
    ensures Next(e, inst, pc, move).value.inst.masterDisabled == inst.masterDisabled
  {
  }

  /**
   * The state callers see is the flag, unless the last call of DisableMasterSlave has switched it off. The calls do not
   * touch the flag itself, so switching on again shows what the checks have found meanwhile.
   */
  lemma {:induction false} MasterStateFollows(s: State, steps: seq<Step>, i: nat)
    requires Run(s, steps).Some? && i < |s.instances|
    ensures var inst := Run(s, steps).value.instances[i];
      && MasterState(inst) == (inst.master && !SwitchedOff(steps, i, s.instances[i].masterDisabled))
      && inst.masterDisabled == SwitchedOff(steps, i, s.instances[i].masterDisabled)
    decreases |steps|
  {
    if steps != [] {
      var init, last := steps[..|steps| - 1], steps[|steps| - 1];
      assert steps == init + [last];
      RunSnoc(s, init, last);
      MasterStateFollows(s, init, i);
      var n := Run(s, init).value;
      if last.Advance? {
        NextDisabled(n.etcd, n.instances[n.threads[last.t].who], n.threads[last.t].pc, last.move);
      }
    }
  }
}
