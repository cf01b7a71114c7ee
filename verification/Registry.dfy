/**
 * internal/serviced/serviced.go: registration under a lease and the choice of a master, as a state machine over the
 * interleaved steps of all instances' goroutines. Every request to etcd may work, fail, or lose its reply; a put or a
 * deletion that nobody waits for any more may still take effect later.
 */
module Registry {
  import opened Text
  import opened Etcd

  /** What a check of isMaster saw: the key its first read found, that key's create revision, and both snapshots. */
  datatype Judgement = Judgement(found: string, createRev: nat, seenOwn: nat, seen: nat)

  /** serviced; basis records the check that last set the master flag. */
  datatype Instance = Instance(
    path: string, uid: string,
    leaseID: nat, registered: bool, master: bool, masterDisabled: bool, cancelled: bool, basis: Judgement)

  /** Where a goroutine of an instance stands: at which request or which update of a guarded field. */
  datatype Pc =
    // Register, from its check of the flag to the start of keepAlive
    | RegisterGrant | RegisterPut(lease: nat) | RegisterLease(lease: nat) | RegisterFlag
    // keepAlive
    | LoopTop | LoopLease | LoopGrant | LoopPut(lease: nat) | LoopSetFlag(lease: nat) | LoopSetLease(lease: nat)
    | LoopGet(lease: nat) | LoopRenew(lease: nat)
    // keepAliveFailed
    | FailFlag | FailLease
    // Deregister, after its cancel
    | DeleteKey | DeleteFlag
    // the loops of syncMasterState
    | ReadOwn | ReadFirst(found: string, createRev: nat, seenOwn: nat) | SetMaster(answer: bool, judged: Judgement)
    // requests under way that their goroutine has given up on
    | LatePut(lease: nat) | LateDelete
    | Ended

  /** A goroutine of an instance, or a request it has left behind. */
  datatype Thread = Thread(who: nat, pc: Pc)

  datatype State = State(etcd: Server, instances: seq<Instance>, threads: seq<Thread>)

  /** How a step goes. A serializable read may see any snapshot there has been. */
  datatype Move = Works | LosesReply | Fails | Sees(snapshot: nat)

  function Key(path: string, uid: string): string {
    path + "/" + uid
  }

  function KeyOf(inst: Instance): string {
    Key(inst.path, inst.uid)
  }

  // ---------- isMaster ----------

  /** isMaster on the two snapshots its reads see; None stands for its errors. */
  ghost function IsMasterOn(own: Store, all: Store, path: string, uid: string): Option<bool> {
    match FirstKey(own, Key(path, uid))
    case None => None
    case Some(found) =>
      match FirstCreated(all, path)
      case None => None
      case Some(first) => Some(own[found].createRev == all[first].createRev)
  }

  /** The IsMaster that callers see. */
  function MasterState(inst: Instance): bool {
    if inst.masterDisabled then false else inst.master
  }

  // ---------- Steps of one goroutine ----------

  /**
   * A request on the instance's own context may work. Deregister cancels that context: from then on such a request
   * fails, or, if it was under way, its reply is lost.
   */
  predicate MayWork(inst: Instance, move: Move) {
    move == Works && !inst.cancelled
  }

  /** What a step does; left holds a request whose reply it has given up on. */
  datatype Effect = Effect(etcd: Server, inst: Instance, pc: Pc, left: seq<Pc>)

  function RegisterNext(e: Server, inst: Instance, pc: Pc, move: Move): Option<Effect>
    requires e.history != []
  {
    match pc
    case RegisterGrant =>
      if MayWork(inst, move) then Some(Effect(Grant(e), inst, RegisterPut(e.nextLease), []))
      else if move == LosesReply then Some(Effect(Grant(e), inst, Ended, []))
      else Some(Effect(e, inst, Ended, []))
    case RegisterPut(lease) => PutNext(e, inst, lease, move, RegisterLease(lease), Ended)
    case RegisterLease(lease) => Some(Effect(e, inst.(leaseID := lease), RegisterFlag, []))
    case RegisterFlag => Some(Effect(e, inst.(registered := true), LoopTop, []))
    case _ => None
  }

  /** A put with a lease is refused when the lease is gone. */
  function PutNext(e: Server, inst: Instance, lease: nat, move: Move, done: Pc, failed: Pc): Option<Effect>
    requires e.history != []
  {
    if move == Fails then Some(Effect(e, inst, failed, []))
    else if move == LosesReply then Some(Effect(e, inst, failed, [LatePut(lease)]))
    else if MayWork(inst, move) && lease in e.leases then Some(Effect(Put(e, KeyOf(inst), lease), inst, done, []))
    else None
  }

  function LoopNext(e: Server, inst: Instance, pc: Pc, move: Move): Option<Effect>
    requires e.history != []
  {
    match pc
    case LoopTop => Some(Effect(e, inst, if inst.cancelled then Ended else LoopLease, []))
    case LoopLease => Some(Effect(e, inst, if inst.leaseID == 0 then LoopGrant else LoopGet(inst.leaseID), []))
    case LoopGrant =>
      if MayWork(inst, move) then Some(Effect(Grant(e), inst, LoopPut(e.nextLease), []))
      else if move == LosesReply then Some(Effect(Grant(e), inst, LoopTop, []))
      else Some(Effect(e, inst, LoopTop, []))
    case LoopPut(lease) => PutNext(e, inst, lease, move, LoopSetFlag(lease), LoopTop)
    case LoopSetFlag(lease) => Some(Effect(e, inst.(registered := true), LoopSetLease(lease), []))
    case LoopSetLease(lease) => Some(Effect(e, inst.(leaseID := lease), LoopTop, []))
    case LoopGet(lease) =>
      Some(Effect(e, inst, if MayWork(inst, move) && KeyOf(inst) in Current(e) then LoopRenew(lease) else FailFlag, []))
    case LoopRenew(lease) =>
      Some(Effect(e, inst, if MayWork(inst, move) && lease in e.leases then LoopTop else FailFlag, []))
    case FailFlag => Some(Effect(e, inst.(registered := false), FailLease, []))
    case FailLease => Some(Effect(e, inst.(leaseID := 0), LoopTop, []))
    case _ => None
  }

  function DeregisterNext(e: Server, inst: Instance, pc: Pc, move: Move): Option<Effect>
    requires e.history != []
  {
    match pc
    case DeleteKey =>
      if move == Works then Some(Effect(Remove(e, {KeyOf(inst)}), inst, DeleteFlag, []))
      else if move == LosesReply then Some(Effect(e, inst, Ended, [LateDelete]))
      else Some(Effect(e, inst, Ended, []))
    case DeleteFlag => Some(Effect(e, inst.(registered := false), Ended, []))
    case _ => None
  }

  /** A request left behind takes effect, or is lost. */
  function LateNext(e: Server, inst: Instance, pc: Pc, move: Move): Option<Effect>
    requires e.history != []
  {
    match pc
    case LatePut(lease) =>
      if move == Works && lease in e.leases then Some(Effect(Put(e, KeyOf(inst), lease), inst, Ended, []))
      else if move == Fails then Some(Effect(e, inst, Ended, []))
      else None
    case LateDelete =>
      if move == Works then Some(Effect(Remove(e, {KeyOf(inst)}), inst, Ended, []))
      else if move == Fails then Some(Effect(e, inst, Ended, []))
      else None
    case _ => None
  }

  /** The two reads and the update of the flag. After an error the loop starts over. */
  ghost function CheckNext(e: Server, inst: Instance, pc: Pc, move: Move): Option<Effect> {
    match pc
    case ReadOwn =>
      if move.Sees? && move.snapshot < |e.history| then
        Some(Effect(e, inst, OwnRead(e.history[move.snapshot], inst, move.snapshot), []))
      else if move == Fails then Some(Effect(e, inst, ReadOwn, []))
      else None
    case ReadFirst(found, createRev, seenOwn) =>
      if move.Sees? && move.snapshot < |e.history| then
        Some(Effect(e, inst, FirstRead(e.history[move.snapshot], inst, found, createRev, seenOwn, move.snapshot), []))
      else if move == Fails then Some(Effect(e, inst, ReadOwn, []))
      else None
    case SetMaster(answer, judged) => Some(Effect(e, inst.(master := answer, basis := judged), ReadOwn, []))
    case _ => None
  }

  ghost function OwnRead(store: Store, inst: Instance, snapshot: nat): Pc {
    match FirstKey(store, KeyOf(inst))
    case None => ReadOwn
    case Some(found) => ReadFirst(found, store[found].createRev, snapshot)
  }

  ghost function FirstRead(
      store: Store, inst: Instance, found: string, createRev: nat, seenOwn: nat, snapshot: nat): Pc {
    match FirstCreated(store, inst.path)
    case None => ReadOwn
    case Some(first) =>
      SetMaster(createRev == store[first].createRev, Judgement(found, createRev, seenOwn, snapshot))
  }

  ghost function Next(e: Server, inst: Instance, pc: Pc, move: Move): Option<Effect>
    requires e.history != []
  {
    if RegisterNext(e, inst, pc, move).Some? then RegisterNext(e, inst, pc, move)
    else if LoopNext(e, inst, pc, move).Some? then LoopNext(e, inst, pc, move)
    else if DeregisterNext(e, inst, pc, move).Some? then DeregisterNext(e, inst, pc, move)
    else if LateNext(e, inst, pc, move).Some? then LateNext(e, inst, pc, move)
    else CheckNext(e, inst, pc, move)
  }

  // ---------- Steps of the system ----------

  datatype Step =
    | CallRegister(i: nat)
    | CallDeregister(i: nat)
    | StartSync(i: nat)
    | CallDisable(i: nat, disable: bool)
    | LeaseRunsOut(lease: nat)
    | Advance(t: nat, move: Move)

  ghost function StepTo(s: State, step: Step): (r: Option<State>)
    ensures r.Some? ==> |r.value.instances| == |s.instances|
  {
    if s.etcd.history == [] then None
    else
      match step
      case CallRegister(i) =>
        if i >= |s.instances| then None
        else if s.instances[i].registered then Some(s)
        else Some(s.(threads := s.threads + [Thread(i, RegisterGrant)]))
      case CallDeregister(i) =>
        if i >= |s.instances| then None
        else Some(s.(instances := s.instances[i := s.instances[i].(cancelled := true)],
                     threads := s.threads + [Thread(i, DeleteKey)]))
      case StartSync(i) =>
        if i >= |s.instances| then None else Some(s.(threads := s.threads + [Thread(i, ReadOwn)]))
      case CallDisable(i, disable) =>
        if i >= |s.instances| then None
        else Some(s.(instances := s.instances[i := s.instances[i].(masterDisabled := disable)]))
      case LeaseRunsOut(lease) =>
        if lease in s.etcd.leases then Some(s.(etcd := Expire(s.etcd, lease))) else None
      case Advance(t, move) => AdvanceTo(s, t, move)
  }

  ghost function AdvanceTo(s: State, t: nat, move: Move): (r: Option<State>)
    requires s.etcd.history != []
    ensures r.Some? ==> |r.value.instances| == |s.instances|
  {
    if t >= |s.threads| || s.threads[t].who >= |s.instances| then None
    else
      var who := s.threads[t].who;
      match Next(s.etcd, s.instances[who], s.threads[t].pc, move)
      case None => None
      case Some(effect) =>
        Some(State(effect.etcd, s.instances[who := effect.inst],
                   s.threads[t := Thread(who, effect.pc)] + Left(who, effect.left)))
  }

  function Left(who: nat, pcs: seq<Pc>): (threads: seq<Thread>)
    ensures |threads| == |pcs| && forall k :: 0 <= k < |pcs| ==> threads[k] == Thread(who, pcs[k])
  {
    seq(|pcs|, k requires 0 <= k < |pcs| => Thread(who, pcs[k]))
  }

  ghost function Run(s: State, steps: seq<Step>): (r: Option<State>)
    ensures r.Some? ==> |r.value.instances| == |s.instances|
    decreases |steps|
  {
    if steps == [] then Some(s)
    else
      match StepTo(s, steps[0])
      case None => None
      case Some(next) => Run(next, steps[1..])
  }

  const NOTHING: Judgement := Judgement("", 0, 0, 0)

  function NewInstance(path: string, uid: string): Instance {
    Instance(path, uid, 0, false, false, false, false, NOTHING)
  }

  predicate IsInit(s: State) {
    && s.etcd == EMPTY && s.threads == []
    && forall inst <- s.instances :: inst == NewInstance(inst.path, inst.uid)
  }

  // ---------- What every step keeps ----------

  /** An entry was seen at that snapshot, as the first one found under the instance's own key as a prefix. */
  ghost predicate Seen(history: seq<Store>, inst: Instance, found: string, createRev: nat, snapshot: nat) {
    && snapshot < |history| && FirstKey(history[snapshot], KeyOf(inst)) == Some(found)
    && history[snapshot][found].createRev == createRev
  }

  /** The key found is the first-created under the path in the snapshot of the second read. */
  ghost predicate WasOldest(history: seq<Store>, inst: Instance, judged: Judgement) {
    && judged.seen < |history|
    && IsOldest(history[judged.seen], Under(history[judged.seen], inst.path), judged.found)
    && history[judged.seen][judged.found].createRev == judged.createRev
    && Seen(history, inst, judged.found, judged.createRev, judged.seenOwn)
  }

  /** A check whose two reads saw these snapshots comes to this answer. */
  ghost predicate Judged(history: seq<Store>, inst: Instance, judged: Judgement, answer: bool) {
    && Seen(history, inst, judged.found, judged.createRev, judged.seenOwn) && judged.seen < |history|
    && IsMasterOn(history[judged.seenOwn], history[judged.seen], inst.path, inst.uid) == Some(answer)
  }

  ghost predicate PcOk(history: seq<Store>, inst: Instance, pc: Pc) {
    match pc
    case ReadFirst(found, createRev, seenOwn) => Seen(history, inst, found, createRev, seenOwn)
    case SetMaster(answer, judged) =>
      Judged(history, inst, judged, answer) && (answer ==> WasOldest(history, inst, judged))
    case _ => true
  }

  ghost predicate InstanceOk(history: seq<Store>, inst: Instance) {
    inst.master ==> WasOldest(history, inst, inst.basis)
  }

  ghost predicate ThreadOk(s: State, thread: Thread) {
    thread.who < |s.instances| && PcOk(s.etcd.history, s.instances[thread.who], thread.pc)
  }

  ghost predicate Inv(s: State) {
    && Valid(s.etcd)
    && (forall i :: 0 <= i < |s.instances| ==> InstanceOk(s.etcd.history, s.instances[i]))
    && (forall t :: 0 <= t < |s.threads| ==> ThreadOk(s, s.threads[t]))
  }

  /** Same service instance, whatever its flags. */
  predicate SameName(a: Instance, b: Instance) {
    a.path == b.path && a.uid == b.uid
  }

  lemma OkCarriesOver(before: seq<Store>, after: seq<Store>, inst: Instance, pc: Pc)
    requires before <= after
    ensures PcOk(before, inst, pc) ==> PcOk(after, inst, pc)
    ensures InstanceOk(before, inst) ==> InstanceOk(after, inst)
  {
    assert forall r :: 0 <= r < |before| ==> before[r] == after[r];
  }

  /** The second read of a check that answers yes found the very entry that the first one did. */
  lemma FirstReadOk(e: Server, inst: Instance, found: string, createRev: nat, seenOwn: nat, snapshot: nat)
    requires Valid(e) && snapshot < |e.history| && Seen(e.history, inst, found, createRev, seenOwn)
    ensures PcOk(e.history, inst, FirstRead(e.history[snapshot], inst, found, createRev, seenOwn, snapshot))
  {
    var first := FirstCreated(e.history[snapshot], inst.path);
    if first.Some? && e.history[snapshot][first.value].createRev == createRev {
      CreationIdentifies(e.history, seenOwn, found, snapshot, first.value);
    }
  }

  lemma CheckKeeps(e: Server, inst: Instance, pc: Pc, move: Move)
    requires Valid(e) && PcOk(e.history, inst, pc) && InstanceOk(e.history, inst)
    requires CheckNext(e, inst, pc, move).Some?
    ensures var effect := CheckNext(e, inst, pc, move).value;
      effect.etcd == e && SameName(inst, effect.inst) && effect.left == []
      && PcOk(e.history, effect.inst, effect.pc) && InstanceOk(e.history, effect.inst)
  {
    if pc.ReadFirst? && move.Sees? {
      FirstReadOk(e, inst, pc.found, pc.createRev, pc.seenOwn, move.snapshot);
    }
  }

  predicate QuietPc(pc: Pc) {
    !pc.ReadFirst? && !pc.SetMaster?
  }

  predicate AllQuiet(pcs: seq<Pc>) {
    forall pc :: pc in pcs ==> QuietPc(pc)
  }

  lemma GrantValid(e: Server)
    requires Valid(e)
    ensures Valid(Grant(e)) && Extends(e, Grant(e))
  {
    assert Current(Grant(e)) == Current(e);
  }

  lemma PutNextKeeps(e: Server, inst: Instance, lease: nat, move: Move, done: Pc, failed: Pc)
    requires Valid(e) && PutNext(e, inst, lease, move, done, failed).Some?
    ensures var effect := PutNext(e, inst, lease, move, done, failed).value;
      Valid(effect.etcd) && Extends(e, effect.etcd) && effect.inst == inst && effect.pc in {done, failed}
      && AllQuiet(effect.left)
  {
    if lease in e.leases {
      PutValid(e, KeyOf(inst), lease);
    }
  }

  /** The other goroutines do not touch the master flag and leave etcd valid. */
  predicate Harmless(e: Server, inst: Instance, effect: Effect) {
    && e.history <= effect.etcd.history && SameName(inst, effect.inst) && QuietPc(effect.pc) && AllQuiet(effect.left)
    && effect.inst.master == inst.master && effect.inst.basis == inst.basis
  }

  lemma RegisterKeeps(e: Server, inst: Instance, pc: Pc, move: Move)
    requires Valid(e) && RegisterNext(e, inst, pc, move).Some?
    ensures var effect := RegisterNext(e, inst, pc, move).value; Harmless(e, inst, effect) && Valid(effect.etcd)
  {
    GrantValid(e);
    if pc.RegisterPut? {
      PutNextKeeps(e, inst, pc.lease, move, RegisterLease(pc.lease), Ended);
    }
  }

  lemma LoopKeeps(e: Server, inst: Instance, pc: Pc, move: Move)
    requires Valid(e) && LoopNext(e, inst, pc, move).Some?
    ensures var effect := LoopNext(e, inst, pc, move).value; Harmless(e, inst, effect) && Valid(effect.etcd)
  {
    GrantValid(e);
    if pc.LoopPut? {
      PutNextKeeps(e, inst, pc.lease, move, LoopSetFlag(pc.lease), LoopTop);
    }
  }

  lemma DeregisterKeeps(e: Server, inst: Instance, pc: Pc, move: Move)
    requires Valid(e) && DeregisterNext(e, inst, pc, move).Some?
    ensures var effect := DeregisterNext(e, inst, pc, move).value; Harmless(e, inst, effect) && Valid(effect.etcd)
  {
    RemoveValid(e, {KeyOf(inst)});
  }

  lemma LateKeeps(e: Server, inst: Instance, pc: Pc, move: Move)
    requires Valid(e) && LateNext(e, inst, pc, move).Some?
    ensures var effect := LateNext(e, inst, pc, move).value; Harmless(e, inst, effect) && Valid(effect.etcd)
  {
    if pc.LatePut? && pc.lease in e.leases {
      PutValid(e, KeyOf(inst), pc.lease);
    }
    RemoveValid(e, {KeyOf(inst)});
  }

  lemma HarmlessOk(e: Server, inst: Instance, effect: Effect)
    requires Harmless(e, inst, effect) && InstanceOk(e.history, inst)
    ensures PcOk(effect.etcd.history, effect.inst, effect.pc) && InstanceOk(effect.etcd.history, effect.inst)
  {
    OkCarriesOver(e.history, effect.etcd.history, inst, effect.pc);
  }

  lemma NextKeeps(e: Server, inst: Instance, pc: Pc, move: Move)
    requires Valid(e) && PcOk(e.history, inst, pc) && InstanceOk(e.history, inst) && Next(e, inst, pc, move).Some?
    ensures var effect := Next(e, inst, pc, move).value;
      Valid(effect.etcd) && Extends(e, effect.etcd) && SameName(inst, effect.inst) && AllQuiet(effect.left)
      && PcOk(effect.etcd.history, effect.inst, effect.pc) && InstanceOk(effect.etcd.history, effect.inst)
  {
    var effect := Next(e, inst, pc, move).value;
    if RegisterNext(e, inst, pc, move).Some? {
      RegisterKeeps(e, inst, pc, move);
      HarmlessOk(e, inst, effect);
    } else if LoopNext(e, inst, pc, move).Some? {
      LoopKeeps(e, inst, pc, move);
      HarmlessOk(e, inst, effect);
    } else if DeregisterNext(e, inst, pc, move).Some? {
      DeregisterKeeps(e, inst, pc, move);
      HarmlessOk(e, inst, effect);
    } else if LateNext(e, inst, pc, move).Some? {
      LateKeeps(e, inst, pc, move);
      HarmlessOk(e, inst, effect);
    } else {
      CheckKeeps(e, inst, pc, move);
    }
  }

  /** What a goroutine may rely on when others move: history only grows and instances keep their names. */
  predicate Later(s: State, t: State) {
    && s.etcd.history <= t.etcd.history && |s.instances| == |t.instances| && |s.threads| <= |t.threads|
    && forall i :: 0 <= i < |s.instances| ==> SameName(s.instances[i], t.instances[i])
  }

  lemma ThreadStaysOk(s: State, t: State, thread: Thread)
    requires Later(s, t) && ThreadOk(s, thread)
    ensures ThreadOk(t, thread)
  {
    OkCarriesOver(s.etcd.history, t.etcd.history, s.instances[thread.who], thread.pc);
  }

  lemma AdvanceInv(s: State, t: nat, move: Move)
    requires Inv(s) && AdvanceTo(s, t, move).Some?
    ensures Inv(AdvanceTo(s, t, move).value) && Later(s, AdvanceTo(s, t, move).value)
  {
    var after, who := AdvanceTo(s, t, move).value, s.threads[t].who;
    assert ThreadOk(s, s.threads[t]);
    NextKeeps(s.etcd, s.instances[who], s.threads[t].pc, move);
    forall i | 0 <= i < |after.instances|
      ensures InstanceOk(after.etcd.history, after.instances[i])
    {
      OkCarriesOver(s.etcd.history, after.etcd.history, s.instances[i], Ended);
    }
    forall u | 0 <= u < |after.threads|
      ensures ThreadOk(after, after.threads[u])
    {
      if u < |s.threads| && u != t {
        ThreadStaysOk(s, after, s.threads[u]);
      }
    }
  }

  lemma CallInv(s: State, after: State)
    requires Inv(s) && Later(s, after) && Valid(after.etcd)
    requires forall i :: 0 <= i < |s.instances| ==>
      after.instances[i].master == s.instances[i].master && after.instances[i].basis == s.instances[i].basis
    requires forall t :: 0 <= t < |after.threads| ==>
      if t < |s.threads| then after.threads[t] == s.threads[t]
      else after.threads[t].who < |after.instances| && QuietPc(after.threads[t].pc)
    ensures Inv(after)
  {
    forall i | 0 <= i < |after.instances|
      ensures InstanceOk(after.etcd.history, after.instances[i])
    {
      OkCarriesOver(s.etcd.history, after.etcd.history, s.instances[i], Ended);
    }
    forall t | 0 <= t < |after.threads|
      ensures ThreadOk(after, after.threads[t])
    {
      if t < |s.threads| {
        ThreadStaysOk(s, after, s.threads[t]);
      }
    }
  }

  lemma StepInv(s: State, step: Step)
    requires Inv(s) && StepTo(s, step).Some?
    ensures Inv(StepTo(s, step).value) && Later(s, StepTo(s, step).value)
  {
    if step.Advance? {
      AdvanceInv(s, step.t, step.move);
    } else {
      if step.LeaseRunsOut? {
        ExpireValid(s.etcd, step.lease);
      }
      CallInv(s, StepTo(s, step).value);
    }
  }

  lemma {:induction false} RunInv(s: State, steps: seq<Step>)
    requires Inv(s) && Run(s, steps).Some?
    ensures Inv(Run(s, steps).value) && Later(s, Run(s, steps).value)
    decreases |steps|
  {
    if steps != [] {
      StepInv(s, steps[0]);
      RunInv(StepTo(s, steps[0]).value, steps[1..]);
    }
  }

  lemma InitInv(s: State)
    requires IsInit(s)
    ensures Inv(s)
  {
    assert forall i :: 0 <= i < |s.instances| ==> s.instances[i] in s.instances;
  }

  // ---------- Keys and names ----------

  predicate IsName(instances: seq<Instance>, key: string) {
    exists j :: 0 <= j < |instances| && KeyOf(instances[j]) == key
  }

  /** Every key ever stored is the key of some instance. */
  ghost predicate KeysNamed(s: State) {
    forall r: nat, key :: r < |s.etcd.history| && key in s.etcd.history[r] ==> IsName(s.instances, key)
  }

  lemma IsNameLater(s: State, t: State, key: string)
    requires Later(s, t) && IsName(s.instances, key)
    ensures IsName(t.instances, key)
  {
    var j :| 0 <= j < |s.instances| && KeyOf(s.instances[j]) == key;
    assert KeyOf(t.instances[j]) == key;
  }

  /** A step of a goroutine adds one revision at most, with no key but the instance's own that was not there before. */
  lemma NextNames(e: Server, inst: Instance, pc: Pc, move: Move)
    requires e.history != [] && Next(e, inst, pc, move).Some?
    ensures NamesAfter(e, Next(e, inst, pc, move).value.etcd, KeyOf(inst))
  {
  }

  ghost predicate NamesAfter(before: Server, after: Server, own: string)
    requires before.history != []
  {
    || after.history == before.history
    || (|after.history| == |before.history| + 1 && before.history <= after.history
        && Current(after).Keys <= Current(before).Keys + {own})
  }

  lemma NamedAfter(s: State, t: State, own: string)
    requires s.etcd.history != [] && KeysNamed(s) && Later(s, t) && IsName(s.instances, own)
    requires NamesAfter(s.etcd, t.etcd, own)
    ensures KeysNamed(t)
  {
    forall r: nat, key | r < |t.etcd.history| && key in t.etcd.history[r]
      ensures IsName(t.instances, key)
    {
      assert r < |s.etcd.history| ==> t.etcd.history[r] == s.etcd.history[r];
      if key != own {
        assert IsName(s.instances, key) by {
          assert r == |s.etcd.history| ==> key in s.etcd.history[r - 1];
        }
      }
      IsNameLater(s, t, key);
    }
  }

  lemma StepNamed(s: State, step: Step)
    requires Inv(s) && KeysNamed(s) && StepTo(s, step).Some? && s.instances != []
    ensures KeysNamed(StepTo(s, step).value)
  {
    var t := StepTo(s, step).value;
    StepInv(s, step);
    if step.Advance? {
      var who := s.threads[step.t].who;
      NextNames(s.etcd, s.instances[who], s.threads[step.t].pc, step.move);
      NamedAfter(s, t, KeyOf(s.instances[who]));
    } else {
      NamedAfter(s, t, KeyOf(s.instances[0]));
    }
  }

  lemma {:induction false} RunNamed(s: State, steps: seq<Step>)
    requires Inv(s) && KeysNamed(s) && Run(s, steps).Some? && s.instances != []
    ensures KeysNamed(Run(s, steps).value)
    decreases |steps|
  {
    if steps != [] {
      StepNamed(s, steps[0]);
      StepInv(s, steps[0]);
      RunNamed(StepTo(s, steps[0]).value, steps[1..]);
    }
  }

  // ---------- Who is master ----------

  /** No instance's key properly extends this one's. */
  predicate Unextended(s: State, i: nat)
    requires i < |s.instances|
  {
    forall j :: 0 <= j < |s.instances| && KeyOf(s.instances[i]) <= KeyOf(s.instances[j]) ==>
      KeyOf(s.instances[j]) == KeyOf(s.instances[i])
  }

  /** Neither key is a prefix of the other, as with distinct identifiers of one length. */
  predicate Apart(a: Instance, b: Instance) {
    !(KeyOf(b) <= KeyOf(a)) && !(KeyOf(a) <= KeyOf(b))
  }

  lemma SameLengthApart(a: Instance, b: Instance)
    requires a.path == b.path && |a.uid| == |b.uid| && a.uid != b.uid
    ensures Apart(a, b)
  {
    var n := |a.path| + 1;
    assert KeyOf(a)[n..] == a.uid && KeyOf(b)[n..] == b.uid;
    assert KeyOf(a)[..|KeyOf(b)|] == KeyOf(a) && KeyOf(b)[..|KeyOf(a)|] == KeyOf(b);
  }

  /**
   * In every reachable state, an instance whose master flag is set found a key that was the oldest of its service in
   * the snapshot of the second read, even if the first read saw another snapshot. The key is that of an instance whose
   * key extends its own; so it is its own, unless the names say otherwise.
   */
  lemma MasterWasOldest(s: State, steps: seq<Step>, i: nat)
    requires IsInit(s) && Run(s, steps).Some? && i < |s.instances|
    ensures var end := Run(s, steps).value;
      Grows(end.etcd.history) &&
      var inst := end.instances[i];
      inst.master ==>
        && WasOldest(end.etcd.history, inst, inst.basis)
        && KeyOf(inst) <= inst.basis.found && IsName(end.instances, inst.basis.found)
        && (Unextended(s, i) ==> inst.basis.found == KeyOf(inst))
  {
    InitInv(s);
    RunInv(s, steps);
    RunNamed(s, steps);
    var end: State := Run(s, steps).value;
    var inst := end.instances[i];
    assert InstanceOk(end.etcd.history, inst);
    if inst.master {
      var found := inst.basis.found;
      var seen := inst.basis.seen;
      assert KeysNamed(end) && found in end.etcd.history[seen];
      assert IsName(end.instances, found);
      var j :| 0 <= j < |end.instances| && KeyOf(end.instances[j]) == found;
      assert KeyOf(s.instances[j]) == found && KeyOf(s.instances[i]) == KeyOf(inst);
    }
  }

  lemma {:induction false} CommonPrefix(a: string, b: string, k: string)
    requires a <= k && b <= k
    ensures b <= a || a <= b
  {
    if |a| <= |b| {
      assert b[..|a|] == k[..|b|][..|a|] == k[..|a|];
    } else {
      assert a[..|b|] == k[..|a|][..|b|] == k[..|b|];
    }
  }

  /** Of two judgements of a service by one snapshot, both found the same entry. */
  lemma SameSnapshotSameEntry(history: seq<Store>, a: Instance, b: Instance, ja: Judgement, jb: Judgement)
    requires Grows(history) && a.path == b.path && ja.seen == jb.seen
    requires WasOldest(history, a, ja) && WasOldest(history, b, jb)
    ensures ja.createRev == jb.createRev
  {
    assert ja.found in Under(history[ja.seen], b.path) && jb.found in Under(history[ja.seen], a.path);
  }

  /** Judgements that rest on one entry are of instances whose keys nest. */
  lemma SameEntryNests(history: seq<Store>, a: Instance, b: Instance, ja: Judgement, jb: Judgement)
    requires Grows(history) && ja.createRev == jb.createRev
    requires WasOldest(history, a, ja) && WasOldest(history, b, jb)
    ensures ja.found == jb.found && !Apart(a, b)
  {
    CreationIdentifies(history, ja.seen, ja.found, jb.seen, jb.found);
    CommonPrefix(KeyOf(a), KeyOf(b), ja.found);
  }

  /** Two masters of a service that judged by the same snapshot rest on one entry, and one's key extends the other's. */
  lemma OneMasterPerSnapshot(s: State, steps: seq<Step>, i: nat, j: nat)
    requires IsInit(s) && Run(s, steps).Some? && i < |s.instances| && j < |s.instances|
    requires var end := Run(s, steps).value;
      && end.instances[i].path == end.instances[j].path && end.instances[i].master && end.instances[j].master
      && end.instances[i].basis.seen == end.instances[j].basis.seen
    ensures var end := Run(s, steps).value;
      var a, b := end.instances[i].basis, end.instances[j].basis;
      a.found == b.found && a.createRev == b.createRev && !Apart(end.instances[i], end.instances[j])
  {
    MasterWasOldest(s, steps, i);
    MasterWasOldest(s, steps, j);
    var end := Run(s, steps).value;
    var a, b, h := end.instances[i], end.instances[j], end.etcd.history;
    SameSnapshotSameEntry(h, a, b, a.basis, b.basis);
    SameEntryNests(h, a, b, a.basis, b.basis);
  }

  /** An entry with this create revision is gone from a snapshot. */
  predicate Gone(store: Store, key: string, createRev: nat) {
    key in store ==> store[key].createRev != createRev
  }

  /** Mastership moves only after a loss: by the later of two yes-judgements the earlier one's entry was gone. */
  lemma MastershipMovesAfterLoss(history: seq<Store>, a: Instance, b: Instance, ja: Judgement, jb: Judgement)
    requires Grows(history) && a.path == b.path && ja.createRev != jb.createRev
    requires WasOldest(history, a, ja) && WasOldest(history, b, jb) && ja.seen < jb.seen
    ensures Gone(history[jb.seen], ja.found, ja.createRev)
  {
    var store := history[jb.seen];
    assert ja.found in store ==> ja.found in Under(store, b.path);
    if ja.found in store && store[ja.found].createRev == ja.createRev {
      BornAt(history, jb.seen, jb.found);
      BornAt(history, ja.seen, ja.found);
    }
  }

  /** What two masters of a service rest on: one entry, which nested keys share; or the earlier has lost its own. */
  ghost predicate OneOrLost(history: seq<Store>, a: Instance, b: Instance) {
    && a.basis.seen < |history| && b.basis.seen < |history|
    && if a.basis.createRev == b.basis.createRev then a.basis.found == b.basis.found && !Apart(a, b)
       else a.basis.seen < b.basis.seen && Gone(history[b.basis.seen], a.basis.found, a.basis.createRev)
  }

  /** In every reachable state, of two masters of a service that judged one after the other. */
  lemma TwoMastersMeansLoss(s: State, steps: seq<Step>, i: nat, j: nat)
    requires IsInit(s) && Run(s, steps).Some? && i < |s.instances| && j < |s.instances|
    requires var end := Run(s, steps).value;
      && end.instances[i].path == end.instances[j].path && end.instances[i].master && end.instances[j].master
      && end.instances[i].basis.seen <= end.instances[j].basis.seen
    ensures var end := Run(s, steps).value; OneOrLost(end.etcd.history, end.instances[i], end.instances[j])
  {
    MasterWasOldest(s, steps, i);
    MasterWasOldest(s, steps, j);
    var end := Run(s, steps).value;
    var a, b, h := end.instances[i], end.instances[j], end.etcd.history;
    if a.basis.createRev == b.basis.createRev {
      SameEntryNests(h, a, b, a.basis, b.basis);
    } else if a.basis.seen == b.basis.seen {
      SameSnapshotSameEntry(h, a, b, a.basis, b.basis);
    } else {
      MastershipMovesAfterLoss(h, a, b, a.basis, b.basis);
    }
  }

  /**
   * An instance whose key was missing at snapshot a, when an older key of the service was there, is not master by a
   * later snapshot in which that older entry still lives: registering again displaces nobody.
   */
  lemma ReRegistrationDisplacesNobody(s: State, steps: seq<Step>, i: nat, a: nat, older: string)
    requires IsInit(s) && Run(s, steps).Some? && i < |s.instances|
    requires var end := Run(s, steps).value;
      var inst, h := end.instances[i], end.etcd.history;
      && inst.master && Unextended(s, i) && a <= inst.basis.seen && a < |h|
      && KeyOf(inst) !in h[a] && older in Under(h[a], inst.path)
    ensures var end := Run(s, steps).value;
      var inst, h := end.instances[i], end.etcd.history;
      inst.basis.seen < |h| && Gone(h[inst.basis.seen], older, h[a][older].createRev)
  {
    MasterWasOldest(s, steps, i);
    var end: State := Run(s, steps).value;
    var inst, h: seq<Store> := end.instances[i], end.etcd.history;
    var b := inst.basis.seen;
    if older in h[b] && h[b][older].createRev == h[a][older].createRev {
      assert older in Under(h[b], inst.path);
      LostKeyStaysYounger(h, a, b, KeyOf(inst), older);
    }
  }

  /** For a registered instance: isMaster answers yes exactly when its own entry is the first created one it reads. */
  lemma IsMasterExactly(history: seq<Store>, own: nat, all: nat, path: string, uid: string)
    requires Grows(history) && own < |history| && all < |history| && Key(path, uid) in history[own]
    ensures IsMasterOn(history[own], history[all], path, uid) == Some(true) <==>
      && IsOldest(history[all], Under(history[all], path), Key(path, uid))
      && history[all][Key(path, uid)].createRev == history[own][Key(path, uid)].createRev
  {
    var key := Key(path, uid);
    OwnKeyFirst(history[own], key);
    var first := FirstCreated(history[all], path);
    if first.Some? && history[own][key].createRev == history[all][first.value].createRev {
      CreationIdentifies(history, own, key, all, first.value);
    }
    if IsOldest(history[all], Under(history[all], path), key) {
      FirstCreatedIs(history, all, path, key);
    }
  }

  /** isMaster fails, and then leaves the flag alone, exactly if one of its reads finds nothing. */
  lemma IsMasterFails(own: Store, all: Store, path: string, uid: string)
    ensures IsMasterOn(own, all, path, uid) == None <==> Under(own, Key(path, uid)) == {} || Under(all, path) == {}
  {
  }

  /** The steps of a check compute isMaster on the snapshots they see. */
  lemma CheckIsIsMaster(e: Server, inst: Instance, own: nat, all: nat)
    requires own < |e.history| && all < |e.history|
    ensures var read := CheckNext(e, inst, ReadOwn, Sees(own)).value.pc;
      var judged := if read.ReadFirst? then CheckNext(e, inst, read, Sees(all)).value.pc else ReadOwn;
      IsMasterOn(e.history[own], e.history[all], inst.path, inst.uid) ==
        if judged.SetMaster? then Some(judged.answer) else None
  {
  }

  /** The second read is by prefix too: it sees another service's keys exactly if that name begins with its own. */
  lemma PathsMix(root: string, name: string, other: string, uid: string)
    requires '/' !in name
    ensures root + name <= Key(root + other, uid) <==> name <= other
  {
    var key, path := Key(root + other, uid), root + name;
    assert key == root + (other + "/" + uid);
    var tail := other + "/" + uid;
    if path <= key {
      assert name == path[|root|..] == key[..|path|][|root|..] == tail[..|name|];
      assert forall k :: 0 <= k < |name| ==> tail[k] == name[k] && name[k] in name;
      assert tail[|other|] == '/';
      assert other[..|name|] == tail[..|name|];
    }
    if name <= other {
      assert tail[..|name|] == other[..|name|];
      assert key[..|path|] == root + tail[..|name|];
    }
  }

  // ---------- Deregistering ----------

  /** A put with this lease is under way, waited for or left behind. */
  predicate Putting(pc: Pc, lease: nat) {
    pc == RegisterPut(lease) || pc == LoopPut(lease) || pc == LatePut(lease)
  }

  /** A put under way has a lease that was granted. */
  ghost predicate LeasesIssued(s: State) {
    && (forall lease <- s.etcd.leases :: lease < s.etcd.nextLease)
    && (forall t, lease: nat :: 0 <= t < |s.threads| && Putting(s.threads[t].pc, lease) ==> lease < s.etcd.nextLease)
  }

  lemma NextIssues(e: Server, inst: Instance, pc: Pc, move: Move)
    requires e.history != [] && Next(e, inst, pc, move).Some?
    requires forall lease: nat :: Putting(pc, lease) ==> lease < e.nextLease
    ensures var effect := Next(e, inst, pc, move).value;
      && e.nextLease <= effect.etcd.nextLease
      && (forall lease: nat :: Putting(effect.pc, lease) ==> lease < effect.etcd.nextLease)
      && (forall other, lease: nat :: other in effect.left && Putting(other, lease) ==> lease < effect.etcd.nextLease)
      && (forall lease <- effect.etcd.leases :: lease in e.leases || e.nextLease <= lease < effect.etcd.nextLease)
  {
    assert pc.RegisterPut? || pc.LoopPut? ==> Putting(pc, pc.lease);
  }

  lemma StepIssues(s: State, step: Step)
    requires LeasesIssued(s) && StepTo(s, step).Some?
    ensures LeasesIssued(StepTo(s, step).value)
  {
    if step.Advance? {
      var who := s.threads[step.t].who;
      NextIssues(s.etcd, s.instances[who], s.threads[step.t].pc, step.move);
    }
  }

  lemma {:induction false} RunIssues(s: State, steps: seq<Step>)
    requires LeasesIssued(s) && Run(s, steps).Some?
    ensures LeasesIssued(Run(s, steps).value)
    decreases |steps|
  {
    if steps != [] {
      StepIssues(s, steps[0]);
      RunIssues(StepTo(s, steps[0]).value, steps[1..]);
    }
  }

  /** A put of instance i is under way whose lease is live. */
  ghost predicate PutPending(s: State, i: nat) {
    exists t, lease: nat :: 0 <= t < |s.threads| && s.threads[t].who == i && Putting(s.threads[t].pc, lease)
      && lease in s.etcd.leases
  }

  /** A cancelled instance whose key is gone. */
  ghost predicate Retired(s: State, i: nat) {
    && s.etcd.history != [] && i < |s.instances| && s.instances[i].cancelled
    && KeyOf(s.instances[i]) !in Current(s.etcd)
  }

  /** No other instance uses the key. */
  predicate SoleUser(s: State, i: nat) {
    i < |s.instances| && forall j :: 0 <= j < |s.instances| && j != i ==> KeyOf(s.instances[j]) != KeyOf(s.instances[i])
  }

  /** The key is in no snapshot from one revision on. */
  predicate AbsentSince(history: seq<Store>, key: string, r: nat) {
    forall q :: r <= q < |history| ==> key !in history[q]
  }

  /** A put under way whose lease, if any, is gone for good. */
  predicate DeadPut(e: Server, pc: Pc) {
    (pc.RegisterPut? || pc.LoopPut? || pc.LatePut?) ==> pc.lease !in e.leases && pc.lease < e.nextLease
  }

  /** The key of a retired instance without a pending put stays out, and no put becomes pending. */
  lemma NextLeavesKeyOut(e: Server, inst: Instance, pc: Pc, move: Move, key: string)
    requires e.history != [] && Next(e, inst, pc, move).Some? && key !in Current(e)
    requires KeyOf(inst) != key || (inst.cancelled && DeadPut(e, pc))
    ensures var effect := Next(e, inst, pc, move).value;
      && SameName(inst, effect.inst) && effect.inst.cancelled == inst.cancelled
      && effect.etcd.history != [] && key !in Current(effect.etcd)
      && e.history <= effect.etcd.history && AbsentSince(effect.etcd.history, key, |e.history| - 1)
  {
  }

  lemma NextNoPut(e: Server, inst: Instance, pc: Pc, move: Move)
    requires e.history != [] && Next(e, inst, pc, move).Some? && inst.cancelled && DeadPut(e, pc)
    ensures var effect := Next(e, inst, pc, move).value;
      DeadPut(effect.etcd, effect.pc) && forall other :: other in effect.left ==> DeadPut(effect.etcd, other)
  {
  }

  lemma DeadStays(e: Server, inst: Instance, pc: Pc, move: Move, other: Pc)
    requires e.history != [] && Next(e, inst, pc, move).Some? && DeadPut(e, other)
    ensures DeadPut(Next(e, inst, pc, move).value.etcd, other)
  {
    NextGrants(e, inst, pc, move);
  }

  /** New leases are new. */
  lemma NextGrants(e: Server, inst: Instance, pc: Pc, move: Move)
    requires e.history != [] && Next(e, inst, pc, move).Some?
    ensures var after := Next(e, inst, pc, move).value.etcd;
      e.nextLease <= after.nextLease && forall lease <- after.leases :: lease in e.leases || e.nextLease <= lease
  {
  }

  ghost predicate NoPut(s: State, i: nat) {
    forall t :: 0 <= t < |s.threads| && s.threads[t].who == i ==> DeadPut(s.etcd, s.threads[t].pc)
  }

  ghost predicate Settled(s: State, i: nat) {
    Retired(s, i) && SoleUser(s, i) && NoPut(s, i)
  }

  ghost predicate StaysSettled(s: State, next: State, i: nat)
    requires i < |s.instances| && s.etcd.history != []
  {
    && Settled(next, i) && SameName(s.instances[i], next.instances[i]) && s.etcd.history <= next.etcd.history
    && AbsentSince(next.etcd.history, KeyOf(s.instances[i]), |s.etcd.history| - 1)
  }

  lemma AdvanceSettled(s: State, i: nat, t: nat, move: Move)
    requires Settled(s, i) && AdvanceTo(s, t, move).Some?
    ensures StaysSettled(s, AdvanceTo(s, t, move).value, i)
  {
    var who, pc := s.threads[t].who, s.threads[t].pc;
    NextLeavesKeyOut(s.etcd, s.instances[who], pc, move, KeyOf(s.instances[i]));
    var next := AdvanceTo(s, t, move).value;
    forall u | 0 <= u < |next.threads| && next.threads[u].who == i
      ensures DeadPut(next.etcd, next.threads[u].pc)
    {
      if u == t || u >= |s.threads| {
        NextNoPut(s.etcd, s.instances[who], pc, move);
      } else {
        DeadStays(s.etcd, s.instances[who], pc, move, s.threads[u].pc);
      }
    }
  }

  lemma StepSettled(s: State, i: nat, step: Step)
    requires Settled(s, i) && StepTo(s, step).Some?
    ensures StaysSettled(s, StepTo(s, step).value, i)
  {
    if step.Advance? {
      AdvanceSettled(s, i, step.t, step.move);
    }
  }

  /**
   * Once an instance is cancelled, its key is gone and no put of it is pending, the key never comes back, whatever the
   * others do and even if Register is called again.
   */
  lemma {:induction false} DeregisteredStaysGone(s: State, i: nat, steps: seq<Step>)
    requires Settled(s, i) && Run(s, steps).Some?
    ensures s.etcd.history <= Run(s, steps).value.etcd.history
    ensures AbsentSince(Run(s, steps).value.etcd.history, KeyOf(s.instances[i]), |s.etcd.history| - 1)
    decreases |steps|
  {
    if steps != [] {
      StepSettled(s, i, steps[0]);
      var next := StepTo(s, steps[0]).value;
      DeregisteredStaysGone(next, i, steps[1..]);
      AbsentLonger(s.etcd.history, next.etcd.history, Run(s, steps).value.etcd.history, KeyOf(s.instances[i]));
    }
  }

  lemma AbsentLonger(a: seq<Store>, b: seq<Store>, c: seq<Store>, key: string)
    requires a != [] && a <= b <= c && AbsentSince(b, key, |a| - 1) && AbsentSince(c, key, |b| - 1)
    ensures AbsentSince(c, key, |a| - 1)
  {
    forall q | |a| - 1 <= q < |c|
      ensures key !in c[q]
    {
      assert q < |b| ==> c[q] == b[q];
    }
  }

  /** The key of the instance is there again after some run. */
  ghost predicate CanReturn(s: State, i: nat)
    requires i < |s.instances|
  {
    exists steps :: ReturnsBy(s, i, steps)
  }

  ghost predicate ReturnsBy(s: State, i: nat, steps: seq<Step>)
    requires i < |s.instances|
  {
    Run(s, steps).Some? && Run(s, steps).value.etcd.history != []
    && KeyOf(s.instances[i]) in Current(Run(s, steps).value.etcd)
  }

  /** A put left behind takes effect while its lease is live. */
  lemma LatePutLands(s: State, i: nat, t: nat)
    requires s.etcd.history != [] && i < |s.instances| && t < |s.threads| && s.threads[t].who == i
    requires s.threads[t].pc.LatePut? && s.threads[t].pc.lease in s.etcd.leases
    ensures CanReturn(s, i)
  {
    var step := Advance(t, Works);
    assert StepTo(s, step).Some?;
    var next := StepTo(s, step).value;
    assert Run(next, [step][1..]) == Some(next);
    assert ReturnsBy(s, i, [step]);
  }

  /** A pending put can take effect, also after its goroutine has given up on it. */
  lemma PendingReturns(s: State, i: nat)
    requires s.etcd.history != [] && i < |s.instances| && PutPending(s, i)
    ensures CanReturn(s, i)
  {
    var t, lease: nat :| 0 <= t < |s.threads| && s.threads[t].who == i && Putting(s.threads[t].pc, lease)
      && lease in s.etcd.leases;
    if s.threads[t].pc.LatePut? {
      LatePutLands(s, i, t);
    } else {
      var step := Advance(t, LosesReply);
      assert StepTo(s, step).Some?;
      var next := StepTo(s, step).value;
      assert next.threads[|s.threads|] == Thread(i, LatePut(lease));
      LatePutLands(next, i, |s.threads|);
      var more :| ReturnsBy(next, i, more);
      assert Run(s, [step] + more) == Run(next, ([step] + more)[1..]) && ([step] + more)[1..] == more;
      assert ReturnsBy(s, i, [step] + more);
    }
  }

  /**
   * In every reachable state, the key of a cancelled instance that has lost it can come back exactly if a put of it is
   * under way whose lease is live.
   */
  lemma DeregisteredReturnsExactly(init: State, steps: seq<Step>, i: nat)
    requires IsInit(init) && Run(init, steps).Some?
    requires var s := Run(init, steps).value; Retired(s, i) && SoleUser(s, i)
    ensures var s := Run(init, steps).value; CanReturn(s, i) <==> PutPending(s, i)
  {
    var s: State := Run(init, steps).value;
    RunIssues(init, steps);
    if PutPending(s, i) {
      PendingReturns(s, i);
    } else {
      NothingPending(s, i);
      forall more | Run(s, more).Some?
        ensures !ReturnsBy(s, i, more)
      {
        DeregisteredStaysGone(s, i, more);
      }
    }
  }

  lemma NothingPending(s: State, i: nat)
    requires LeasesIssued(s) && !PutPending(s, i)
    ensures NoPut(s, i)
  {
    forall t | 0 <= t < |s.threads| && s.threads[t].who == i
      ensures DeadPut(s.etcd, s.threads[t].pc)
    {
      var pc := s.threads[t].pc;
      if pc.RegisterPut? || pc.LoopPut? || pc.LatePut? {
        assert Putting(pc, pc.lease);
      }
    }
  }

  // ---------- How long a flag lasts ----------

  /** The goroutine is about to set the master flag of instance i after a check. */
  predicate AboutToSet(s: State, i: nat, t: nat) {
    t < |s.threads| && s.threads[t].who == i && s.threads[t].pc.SetMaster?
  }

  /** What a step does to the flag of instance i: nothing, unless a check of its own sets it. */
  ghost predicate FlagFollows(s: State, next: State, i: nat, step: Step)
    requires i < |s.instances| && i < |next.instances|
  {
    if step.Advance? && AboutToSet(s, i, step.t) then
      next.instances[i].master == s.threads[step.t].pc.answer && next.instances[i].basis == s.threads[step.t].pc.judged
    else
      next.instances[i].master == s.instances[i].master && next.instances[i].basis == s.instances[i].basis
  }

  lemma NextFlag(e: Server, inst: Instance, pc: Pc, move: Move)
    requires e.history != [] && Next(e, inst, pc, move).Some?
    ensures var after := Next(e, inst, pc, move).value.inst;
      if pc.SetMaster? then after.master == pc.answer && after.basis == pc.judged
      else after.master == inst.master && after.basis == inst.basis
  {
  }

  lemma StepFlag(s: State, step: Step, i: nat)
    requires StepTo(s, step).Some? && i < |s.instances|
    ensures FlagFollows(s, StepTo(s, step).value, i, step)
  {
    if step.Advance? {
      NextFlag(s.etcd, s.instances[s.threads[step.t].who], s.threads[step.t].pc, step.move);
    }
  }

  /**
   * In every state that keeps the invariant, a step clears a set flag only if it completes a check of that instance
   * whose two reads both found something and to which isMaster answers no. A check that fails leaves the flag alone.
   */
  lemma OnlyAnswerClears(s: State, step: Step, i: nat)
    requires Inv(s) && StepTo(s, step).Some? && i < |s.instances|
    requires s.instances[i].master && !StepTo(s, step).value.instances[i].master
    ensures step.Advance? && AboutToSet(s, i, step.t)
    ensures var judged := s.threads[step.t].pc.judged;
      Judged(s.etcd.history, s.instances[i], judged, false) && KeyOf(s.instances[i]) <= judged.found
  {
    StepFlag(s, step, i);
    assert ThreadOk(s, s.threads[step.t]);
  }

  /** isMaster answers no exactly if its reads find something, but not one and the same entry. */
  lemma AnswersNoExactly(history: seq<Store>, own: nat, all: nat, path: string, uid: string)
    requires Grows(history) && own < |history| && all < |history|
    ensures IsMasterOn(history[own], history[all], path, uid) == Some(false) <==>
      var found, first := FirstKey(history[own], Key(path, uid)), FirstCreated(history[all], path);
      found.Some? && first.Some?
      && !(found == first && history[own][found.value].createRev == history[all][first.value].createRev)
  {
    var found, first := FirstKey(history[own], Key(path, uid)), FirstCreated(history[all], path);
    if found.Some? && first.Some? && history[own][found.value].createRev == history[all][first.value].createRev {
      CreationIdentifies(history, own, found.value, all, first.value);
    }
  }

  /** No check of instance i is past its first read. */
  predicate NoCheck(s: State, i: nat) {
    forall t :: 0 <= t < |s.threads| && s.threads[t].who == i ==> QuietPc(s.threads[t].pc)
  }

  /** From revision r on nothing is stored under the key. */
  ghost predicate NothingUnder(history: seq<Store>, key: string, r: nat) {
    forall q :: r <= q < |history| ==> Under(history[q], key) == {}
  }

  /** If the step is a read of instance i, it sees a snapshot from revision r on. */
  predicate ReadsSince(s: State, step: Step, i: nat, r: nat) {
    step.Advance? && step.t < |s.threads| && s.threads[step.t].who == i && step.move.Sees? ==> step.move.snapshot >= r
  }

  ghost predicate AllReadsSince(s: State, steps: seq<Step>, i: nat, r: nat)
    decreases |steps|
  {
    steps == []
    || (ReadsSince(s, steps[0], i, r)
        && (StepTo(s, steps[0]).Some? ==> AllReadsSince(StepTo(s, steps[0]).value, steps[1..], i, r)))
  }

  lemma NextNoCheck(e: Server, inst: Instance, pc: Pc, move: Move, r: nat)
    requires e.history != [] && Next(e, inst, pc, move).Some? && QuietPc(pc)
    requires move.Sees? ==> move.snapshot >= r
    requires NothingUnder(e.history, KeyOf(inst), r)
    ensures var effect := Next(e, inst, pc, move).value;
      && QuietPc(effect.pc) && AllQuiet(effect.left)
      && effect.inst.master == inst.master && effect.inst.basis == inst.basis
  {
  }

  lemma StepNoCheck(s: State, step: Step, i: nat, r: nat)
    requires Inv(s) && StepTo(s, step).Some? && i < |s.instances| && NoCheck(s, i)
    requires ReadsSince(s, step, i, r) && NothingUnder(s.etcd.history, KeyOf(s.instances[i]), r)
    ensures var next := StepTo(s, step).value;
      && NoCheck(next, i) && next.instances[i].master == s.instances[i].master
      && next.instances[i].basis == s.instances[i].basis
  {
    StepFlag(s, step, i);
    if step.Advance? {
      var who := s.threads[step.t].who;
      if who == i {
        NextNoCheck(s.etcd, s.instances[i], s.threads[step.t].pc, step.move, r);
      }
    }
  }

  /**
   * A master whose key is gone, with no other key extending it, keeps its flag through every check, as long as its
   * reads do not go back to snapshots from before: isMaster fails then, and the loops that call it skip the update.
   */
  lemma {:induction false} StaleFlagStays(s: State, steps: seq<Step>, i: nat, r: nat)
    requires Inv(s) && Run(s, steps).Some? && i < |s.instances| && NoCheck(s, i)
    requires AllReadsSince(s, steps, i, r)
    requires NothingUnder(Run(s, steps).value.etcd.history, KeyOf(s.instances[i]), r)
    ensures var end := Run(s, steps).value;
      end.instances[i].master == s.instances[i].master && end.instances[i].basis == s.instances[i].basis
    decreases |steps|
  {
    if steps != [] {
      var next := StepTo(s, steps[0]).value;
      StepInv(s, steps[0]);
      RunInv(next, steps[1..]);
      var h, later := s.etcd.history, Run(s, steps).value.etcd.history;
      assert forall q :: 0 <= q < |h| ==> h[q] == later[q];
      StepNoCheck(s, steps[0], i, r);
      StaleFlagStays(next, steps[1..], i, r);
    }
  }

  /**
   * So a deregistered master stays master for ever: its key cannot come back, no other extends it, and no check of its
   * loops, which Deregister does not stop, succeeds again on a current snapshot.
   */
  lemma DeregisteredStaysMaster(s: State, steps: seq<Step>, i: nat)
    requires Inv(s) && KeysNamed(s) && Run(s, steps).Some? && Settled(s, i) && Unextended(s, i) && NoCheck(s, i)
    requires s.instances[i].master && AllReadsSince(s, steps, i, |s.etcd.history| - 1)
    ensures Run(s, steps).value.instances[i].master
  {
    var end: State := Run(s, steps).value;
    var key, r := KeyOf(s.instances[i]), |s.etcd.history| - 1;
    RunInv(s, steps);
    RunNamed(s, steps);
    DeregisteredStaysGone(s, i, steps);
    assert forall j :: 0 <= j < |s.instances| ==> KeyOf(end.instances[j]) == KeyOf(s.instances[j]);
    forall q | r <= q < |end.etcd.history|
      ensures Under(end.etcd.history[q], key) == {}
    {
      forall other | other in end.etcd.history[q]
        ensures !(key <= other)
      {
        assert IsName(end.instances, other);
        var j :| 0 <= j < |end.instances| && KeyOf(end.instances[j]) == other;
        assert other != key;
      }
    }
    StaleFlagStays(s, steps, i, r);
  }

  // ---------- Reachable states ----------

  ghost predicate Reaches(s: State, t: State) {
    exists steps :: Run(s, steps) == Some(t)
  }

  lemma StepReaches(s: State, step: Step, t: State)
    requires StepTo(s, step) == Some(t)
    ensures Reaches(s, t)
  {
    assert Run(s, [step]) == Some(t);
  }

  lemma {:induction false} RunAppends(s: State, first: seq<Step>, second: seq<Step>, t: State)
    requires Run(s, first) == Some(t)
    ensures Run(s, first + second) == Run(t, second)
    decreases |first|
  {
    if first == [] {
      assert first + second == second;
    } else {
      var all := first + second;
      assert all[0] == first[0] && all[1..] == first[1..] + second;
      RunAppends(StepTo(s, first[0]).value, first[1..], second, t);
    }
  }

  lemma ReachesTransitive(s: State, t: State, u: State)
    requires Reaches(s, t) && Reaches(t, u)
    ensures Reaches(s, u)
  {
    var first :| Run(s, first) == Some(t);
    var second :| Run(t, second) == Some(u);
    RunAppends(s, first, second, t);
  }

  /** One step of a goroutine of instance i, whose effect is given by its parts. */
  lemma AdvanceReaches(s: State, t: nat, i: nat, move: Move, after: State)
    requires s.etcd.history != [] && t < |s.threads| && i < |s.instances| && s.threads[t].who == i
    requires |after.instances| == |s.instances| && |after.threads| == |s.threads| && after.threads[t].who == i
    requires after.instances == s.instances[i := after.instances[i]]
    requires after.threads == s.threads[t := after.threads[t]]
    requires Next(s.etcd, s.instances[i], s.threads[t].pc, move) ==
      Some(Effect(after.etcd, after.instances[i], after.threads[t].pc, []))
    ensures Reaches(s, after)
  {
    assert Left(i, []) == [] && s.threads[t := after.threads[t]] + [] == after.threads;
    StepReaches(s, Advance(t, move), after);
  }

  /** Register up to the grant of its lease. */
  function Granted(s: State, i: nat): State {
    State(Grant(s.etcd), s.instances, s.threads + [Thread(i, RegisterPut(s.etcd.nextLease))])
  }

  /** An instance that may still register: it is neither registered nor cancelled. */
  predicate Fresh(s: State, i: nat) {
    i < |s.instances| && !s.instances[i].registered && !s.instances[i].cancelled
  }

  lemma GrantReached(s: State, i: nat)
    requires s.etcd.history != [] && Fresh(s, i)
    ensures Reaches(s, Granted(s, i))
  {
    var called := s.(threads := s.threads + [Thread(i, RegisterGrant)]);
    StepReaches(s, CallRegister(i), called);
    AdvanceReaches(called, |s.threads|, i, Works, Granted(s, i));
    ReachesTransitive(s, called, Granted(s, i));
  }

  /** Register up to its put. */
  function Registered(s: State, i: nat): State
    requires s.etcd.history != [] && i < |s.instances|
  {
    State(Put(Grant(s.etcd), KeyOf(s.instances[i]), s.etcd.nextLease), s.instances,
          s.threads + [Thread(i, RegisterLease(s.etcd.nextLease))])
  }

  lemma RegisterReached(s: State, i: nat)
    requires s.etcd.history != [] && Fresh(s, i)
    ensures Reaches(s, Registered(s, i))
  {
    GrantReached(s, i);
    AdvanceReaches(Granted(s, i), |s.threads|, i, Works, Registered(s, i));
    ReachesTransitive(s, Granted(s, i), Registered(s, i));
  }

  /** The state after a check of instance i that nothing disturbed, and that found this key and answered yes. */
  function Crowned(s: State, i: nat, found: string): State
    requires s.etcd.history != [] && i < |s.instances| && found in Current(s.etcd)
  {
    var now := |s.etcd.history| - 1;
    var judged := Judgement(found, Current(s.etcd)[found].createRev, now, now);
    State(s.etcd, s.instances[i := s.instances[i].(master := true, basis := judged)], s.threads + [Thread(i, ReadOwn)])
  }

  /** An undisturbed check makes an instance master if the first key it finds is the oldest. */
  lemma FinderBecomesMaster(s: State, i: nat, found: string)
    requires Valid(s.etcd) && i < |s.instances|
    requires FirstKey(Current(s.etcd), KeyOf(s.instances[i])) == Some(found)
    requires IsOldest(Current(s.etcd), Under(Current(s.etcd), s.instances[i].path), found)
    ensures Reaches(s, Crowned(s, i, found))
  {
    var inst, t, now := s.instances[i], |s.threads|, |s.etcd.history| - 1;
    var cr := Current(s.etcd)[found].createRev;
    FirstCreatedIs(s.etcd.history, now, inst.path, found);
    var s1, s2 := WithThread(s, i, ReadOwn), WithThread(s, i, ReadFirst(found, cr, now));
    var s3 := WithThread(s, i, SetMaster(true, Judgement(found, cr, now, now)));
    StepReaches(s, StartSync(i), s1);
    CheckStepReaches(s, i, ReadOwn, Sees(now), s2.threads[t].pc);
    CheckStepReaches(s, i, s2.threads[t].pc, Sees(now), s3.threads[t].pc);
    AdvanceReaches(s3, t, i, Works, Crowned(s, i, found));
    ReachesTransitive(s, s1, s2);
    ReachesTransitive(s, s2, s3);
    ReachesTransitive(s, s3, Crowned(s, i, found));
  }

  function WithThread(s: State, i: nat, pc: Pc): State {
    s.(threads := s.threads + [Thread(i, pc)])
  }

  /** A read of a check changes nothing but where its goroutine stands. */
  lemma CheckStepReaches(s: State, i: nat, pc: Pc, move: Move, next: Pc)
    requires s.etcd.history != [] && i < |s.instances|
    requires Next(s.etcd, s.instances[i], pc, move) == Some(Effect(s.etcd, s.instances[i], next, []))
    ensures Reaches(WithThread(s, i, pc), WithThread(s, i, next))
  {
    AdvanceReaches(WithThread(s, i, pc), |s.threads|, i, move, WithThread(s, i, next));
  }

  /** An undisturbed check makes the owner of the oldest key master. */
  lemma OldestBecomesMaster(s: State, i: nat)
    requires Valid(s.etcd) && i < |s.instances|
    requires IsOldest(Current(s.etcd), Under(Current(s.etcd), s.instances[i].path), KeyOf(s.instances[i]))
    ensures Reaches(s, Crowned(s, i, KeyOf(s.instances[i])))
  {
    OwnKeyFirst(Current(s.etcd), KeyOf(s.instances[i]));
    FinderBecomesMaster(s, i, KeyOf(s.instances[i]));
  }

  lemma RunInvReaches(s: State, t: State)
    requires Inv(s) && Reaches(s, t)
    ensures Inv(t)
  {
    var steps :| Run(s, steps) == Some(t);
    RunInv(s, steps);
  }

  lemma KeyUnderPath(path: string, uid: string)
    ensures path <= Key(path, uid)
  {
  }

  lemma SoleKeyFound(store: Store, prefix: string, key: string)
    requires store.Keys == {key} && prefix <= key
    ensures IsOldest(store, Under(store, prefix), key) && FirstKey(store, prefix) == Some(key)
  {
    assert Under(store, prefix) == {key};
    TextLeTotal(key, key);
    FirstKeyIs(store, prefix, key);
  }

  // ---------- Instances whose keys nest ----------

  ghost predicate ShareSnapshot(s: State, i: nat, j: nat) {
    && i < |s.instances| && j < |s.instances| && s.instances[i].master && s.instances[j].master
    && s.instances[i].basis.seen == s.instances[j].basis.seen
  }

  /** If the key of j extends that of i, i takes the key of j for its own, without ever registering. */
  lemma NestedShare(s: State, i: nat, j: nat)
    requires IsInit(s) && i < |s.instances| && j < |s.instances|
    requires s.instances[i].path == s.instances[j].path && KeyOf(s.instances[i]) <= KeyOf(s.instances[j])
    ensures exists end :: Reaches(s, end) && ShareSnapshot(end, i, j) && BothFound(end, i, j)
  {
    var key := KeyOf(s.instances[j]);
    assert s.instances[j] in s.instances;
    InitInv(s);
    RegisterReached(s, j);
    var s1 := Registered(s, j);
    RunInvReaches(s, s1);
    assert Current(s1.etcd).Keys == {key};
    KeyUnderPath(s.instances[j].path, s.instances[j].uid);
    SoleKeyFound(Current(s1.etcd), s.instances[j].path, key);
    SoleKeyFound(Current(s1.etcd), key, key);
    SoleKeyFound(Current(s1.etcd), KeyOf(s.instances[i]), key);
    FinderBecomesMaster(s1, j, key);
    var s2 := Crowned(s1, j, key);
    FinderBecomesMaster(s2, i, key);
    ReachesTransitive(s, s1, s2);
    ReachesTransitive(s, s2, Crowned(s2, i, key));
    assert BothFound(Crowned(s2, i, key), i, j);
  }

  /** Only j has registered; its key is what both found. */
  ghost predicate BothFound(s: State, i: nat, j: nat) {
    && i < |s.instances| && j < |s.instances|
    && s.instances[i].basis.found == s.instances[j].basis.found == KeyOf(s.instances[j])
    && (forall t :: 0 <= t < |s.threads| && s.threads[t].who == i && i != j ==> s.threads[t].pc == ReadOwn)
    && (KeyOf(s.instances[i]) != KeyOf(s.instances[j]) ==> AbsentSince(s.etcd.history, KeyOf(s.instances[i]), 0))
  }

  /** Some run ends in a state where both hold the flag by one snapshot. */
  ghost predicate CanShare(s: State, i: nat, j: nat) {
    exists steps :: Run(s, steps).Some? && ShareSnapshot(Run(s, steps).value, i, j)
  }

  /** Two instances of a service can hold the flag by one snapshot exactly if one's key is a prefix of the other's. */
  lemma SharedSnapshotExactly(s: State, i: nat, j: nat)
    requires IsInit(s) && i < |s.instances| && j < |s.instances| && s.instances[i].path == s.instances[j].path
    ensures CanShare(s, i, j) <==> !Apart(s.instances[i], s.instances[j])
  {
    if Apart(s.instances[i], s.instances[j]) {
      forall steps | Run(s, steps).Some?
        ensures !ShareSnapshot(Run(s, steps).value, i, j)
      {
        ApartDoNotShare(s, steps, i, j);
      }
    } else if KeyOf(s.instances[i]) <= KeyOf(s.instances[j]) {
      NestedShare(s, i, j);
      var end :| Reaches(s, end) && ShareSnapshot(end, i, j);
      var steps :| Run(s, steps) == Some(end);
    } else {
      NestedShare(s, j, i);
      var end :| Reaches(s, end) && ShareSnapshot(end, j, i);
      var steps :| Run(s, steps) == Some(end);
    }
  }

  lemma ApartDoNotShare(s: State, steps: seq<Step>, i: nat, j: nat)
    requires IsInit(s) && Run(s, steps).Some? && i < |s.instances| && j < |s.instances|
    requires s.instances[i].path == s.instances[j].path && Apart(s.instances[i], s.instances[j])
    ensures !ShareSnapshot(Run(s, steps).value, i, j)
  {
    InitInv(s);
    RunInv(s, steps);
    var end: State := Run(s, steps).value;
    assert SameName(s.instances[i], end.instances[i]) && SameName(s.instances[j], end.instances[j]);
    if ShareSnapshot(end, i, j) {
      OneMasterPerSnapshot(s, steps, i, j);
    }
  }

  // ---------- Two masters ----------

  /** All leases run out. */
  lemma {:induction false} LeasesRunOut(s: State) returns (t: State)
    requires Inv(s)
    ensures Reaches(s, t) && Inv(t) && Current(t.etcd) == map[]
    ensures t.instances == s.instances && t.threads == s.threads
    decreases |s.etcd.leases|
  {
    assert forall key :: key in Current(s.etcd) ==> Current(s.etcd)[key].lease in s.etcd.leases;
    if s.etcd.leases == {} {
      t := s;
      assert Run(s, []) == Some(s);
      assert Current(s.etcd).Keys == {};
    } else {
      var lease :| lease in s.etcd.leases;
      var next := s.(etcd := Expire(s.etcd, lease));
      StepReaches(s, LeaseRunsOut(lease), next);
      RunInvReaches(s, next);
      assert next.etcd.leases == s.etcd.leases - {lease};
      t := LeasesRunOut(next);
      ReachesTransitive(s, next, t);
    }
  }

  /** Both instances answer that they are master. */
  predicate BothMasters(s: State, i: nat, j: nat) {
    i < |s.instances| && j < |s.instances| && MasterState(s.instances[i]) && MasterState(s.instances[j])
  }

  /**
   * Mastership is not exclusive in time: an instance that loses its key keeps its flag until a check answers no, and no
   * check does while nothing lies under its key (StaleFlagStays). From every reachable state with a master, any other
   * instance that may register can become a second one.
   */
  lemma SecondMasterReachable(s: State, i: nat, j: nat)
    requires Inv(s) && i < |s.instances| && Fresh(s, j) && i != j
    requires MasterState(s.instances[i]) && !s.instances[j].masterDisabled
    ensures exists end :: Reaches(s, end) && BothMasters(end, i, j)
  {
    var inst := s.instances[j];
    var key := KeyOf(inst);
    var s1 := LeasesRunOut(s);
    RegisterReached(s1, j);
    var s2 := Registered(s1, j);
    RunInvReaches(s1, s2);
    assert Current(s2.etcd).Keys == {key};
    KeyUnderPath(inst.path, inst.uid);
    SoleKeyFound(Current(s2.etcd), inst.path, key);
    OldestBecomesMaster(s2, j);
    ReachesTransitive(s, s1, s2);
    ReachesTransitive(s, s2, Crowned(s2, j, key));
    assert BothMasters(Crowned(s2, j, key), i, j);
  }

  /** So two masters are reachable from the start. */
  lemma TwoMastersReachable(s: State, i: nat, j: nat)
    requires IsInit(s) && i < |s.instances| && j < |s.instances| && i != j
    ensures exists end :: Reaches(s, end) && BothMasters(end, i, j)
  {
    var key := KeyOf(s.instances[i]);
    assert s.instances[i] in s.instances && s.instances[j] in s.instances;
    InitInv(s);
    RegisterReached(s, i);
    var s1 := Registered(s, i);
    RunInvReaches(s, s1);
    assert Current(s1.etcd).Keys == {key};
    KeyUnderPath(s.instances[i].path, s.instances[i].uid);
    SoleKeyFound(Current(s1.etcd), s.instances[i].path, key);
    OldestBecomesMaster(s1, i);
    var s2 := Crowned(s1, i, key);
    RunInvReaches(s1, s2);
    SecondMasterReachable(s2, i, j);
    var end :| Reaches(s2, end) && BothMasters(end, i, j);
    ReachesTransitive(s, s1, s2);
    ReachesTransitive(s, s2, end);
  }

  // ---------- A late put ----------

  /** A state in which Deregister has done its deletion, or has ended too. */
  predicate Deregistered(s: State, key: string, ended: bool, present: bool) {
    && |s.instances| == 1 && s.instances[0].cancelled && |s.threads| >= 2
    && s.threads[1].pc == (if ended then Ended else DeleteFlag)
    && s.etcd.history != [] && (key in Current(s.etcd) <==> present)
  }

  /** The states of such a run: the put of Register is under way when Deregister cancels, deletes and ends. */
  function LateState(inst: Instance, first: Pc, second: Pc, left: seq<Pc>): State {
    State(Grant(EMPTY), [inst.(cancelled := true)], [Thread(0, first), Thread(0, second)] + Left(0, left))
  }

  /** All goroutines have ended, and yet a put that Register gave up on brings the key back after the deletion. */
  lemma LatePutSurvives(path: string, uid: string)
    ensures exists deleted, end ::
      && Reaches(State(EMPTY, [NewInstance(path, uid)], []), deleted) && Reaches(deleted, end)
      && Deregistered(deleted, Key(path, uid), false, false) && Deregistered(end, Key(path, uid), true, true)
      && forall thread :: thread in end.threads ==> thread.pc == Ended
  {
    var inst := NewInstance(path, uid);
    var s := State(EMPTY, [inst], []);
    var s3 := LateState(inst, RegisterPut(1), DeleteFlag, []);
    var s4 := LateState(inst, RegisterPut(1), Ended, []);
    var s5 := LateState(inst, Ended, Ended, [LatePut(1)]);
    var ended := Thread(0, Ended);
    var s6 := State(Put(Grant(EMPTY), Key(path, uid), 1), s5.instances, [ended, ended, ended]);
    DeletionReached(inst);
    AdvanceReaches(s3, 1, 0, Works, s4);
    LeftBehind(inst);
    AdvanceReaches(s5, 2, 0, Works, s6);
    ReachesTransitive(s3, s4, s5);
    ReachesTransitive(s3, s5, s6);
    assert Deregistered(s3, Key(path, uid), false, false) && Deregistered(s6, Key(path, uid), true, true);
  }

  lemma LeftBehind(inst: Instance)
    ensures Reaches(LateState(inst, RegisterPut(1), Ended, []), LateState(inst, Ended, Ended, [LatePut(1)]))
  {
    var s4, s5 := LateState(inst, RegisterPut(1), Ended, []), LateState(inst, Ended, Ended, [LatePut(1)]);
    assert s5.threads == s4.threads[0 := Thread(0, Ended)] + Left(0, [LatePut(1)]);
    assert s5.instances == s4.instances[0 := s4.instances[0]];
    StepReaches(s4, Advance(0, LosesReply), s5);
  }

  lemma DeletionReached(inst: Instance)
    requires !inst.registered && !inst.cancelled
    ensures Reaches(State(EMPTY, [inst], []), LateState(inst, RegisterPut(1), DeleteFlag, []))
  {
    var s := State(EMPTY, [inst], []);
    var s1, s2 := Granted(s, 0), LateState(inst, RegisterPut(1), DeleteKey, []);
    GrantReached(s, 0);
    assert s2.instances == s1.instances[0 := s1.instances[0].(cancelled := true)];
    assert s2.threads == s1.threads + [Thread(0, DeleteKey)];
    StepReaches(s1, CallDeregister(0), s2);
    AdvanceReaches(s2, 1, 0, Works, LateState(inst, RegisterPut(1), DeleteFlag, []));
    ReachesTransitive(s, s1, s2);
    ReachesTransitive(s, s2, LateState(inst, RegisterPut(1), DeleteFlag, []));
  }
}
