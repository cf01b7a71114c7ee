/**
 * render/renderer.go: the pool of long-lived render workers, as a state machine over the interleaved steps of the
 * calling goroutines, their watchdogs and the worker processes (render/python/main.py, serve). Bytes move through the
 * pipes in pieces of any size.
 */
module RenderPool {
  import opened Text
  import opened Frames

  /** What json.Unmarshal makes of a response payload. */
  datatype Decoded = Malformed | Failed(message: Bytes) | Success(text: Bytes)

  /** How a worker answers a request, and how an answer decodes. */
  datatype Config = Config(respond: Bytes -> Bytes, decode: Bytes -> Decoded)

  /**
   * A worker process. stdin and stdout hold the bytes under way in its pipes (stdout with the reader's buffer), acc
   * the part of a request it has read, outbox the part of a response it has not written yet.
   */
  datatype Proc = Proc(alive: bool, stdin: Bytes, acc: Bytes, outbox: Bytes, stdout: Bytes)

  /** renderWorker: its current process, if one was ever started, and the dead mark. */
  datatype Slot = Slot(cmd: Option<nat>, dead: bool)

  datatype Outcome = Rendered(text: Bytes) | RenderFailed(message: Bytes) | IoFailed | TimedOut | SpawnFailed

  /** Where a call of RenderWithContext stands; w is the slot it holds. */
  datatype Phase =
    | Idle
    | Waiting                                           // blocked on <-r.workers
    | Ready(w: nat)                                     // took a slot
    | Writing(w: nat, toWrite: Bytes)                   // in writeFrame
    | Reading(w: nat, got: Bytes)                       // in readFrame
    | Exchanged(w: nat, outcome: Outcome, fatal: bool)  // exchange has returned, the watchdog may still fire
    | Finished(w: nat, outcome: Outcome)                // about to give the slot back
    | Returned(outcome: Outcome)

  datatype Caller = Caller(request: Bytes, phase: Phase, killed: bool)

  datatype State = State(channel: seq<nat>, slots: seq<Slot>, procs: seq<Proc>, callers: seq<Caller>)

  const FRESH: Proc := Proc(true, [], [], [], [])

  /** ensurePool: every slot idle and without a process. */
  function Init(size: nat, callers: nat): State {
    State(seq(size, w => w), seq(size, w => Slot(None, false)), [],
          seq(callers, c => Caller([], Idle, false)))
  }

  // ---------- Steps of a worker process ----------

  datatype ProcStep =
    | ReadsSome(k: nat)    // _read_exact gets k more bytes of the request
    | AnswersRequest       // the request is complete; the response is framed
    | WritesSome(k: nat)   // k more bytes of the response leave
    | Dies                 // it crashes, or is killed from outside

  /** How many more bytes a reader of one frame asks for. */
  function Need(got: Bytes): nat {
    if |got| < 4 then 4 - |got|
    else if |got| < 4 + HeaderValue(got[..4]) then 4 + HeaderValue(got[..4]) - |got|
    else 0
  }

  predicate ProcEnabled(proc: Proc, move: ProcStep) {
    match move
    case ReadsSome(k) => proc.alive && proc.outbox == [] && 0 < k <= Need(proc.acc) && k <= |proc.stdin|
    case AnswersRequest => proc.alive && proc.outbox == [] && FirstFrame(proc.acc).Some?
    case WritesSome(k) => proc.alive && 0 < k <= |proc.outbox|
    case Dies => true
  }

  function ApplyProc(cfg: Config, proc: Proc, move: ProcStep): Proc
    requires ProcEnabled(proc, move)
  {
    match move
    case ReadsSome(k) => proc.(acc := proc.acc + proc.stdin[..k], stdin := proc.stdin[k..])
    case AnswersRequest =>
      var response := cfg.respond(FirstFrame(proc.acc).value.0);
      if Fits(response) then proc.(acc := [], outbox := Frame(response)) else proc.(alive := false)
    case WritesSome(k) => proc.(stdout := proc.stdout + proc.outbox[..k], outbox := proc.outbox[k..])
    case Dies => proc.(alive := false)
  }

  // ---------- Steps of a caller ----------

  datatype CallerStep =
    | Call(request: Bytes)
    | Acquire
    | Spawn
    | SpawnFails
    | Reuse
    | WriteSome(k: nat)
    | WriteFails
    | WriteDone
    | ReadSome(k: nat)
    | ReadFails
    | ReadDone
    | Kill        // the watchdog: the deadline passes before the exchange is over and done is noticed
    | Finish      // the watchdog has ended; mark the worker dead if need be
    | Release

  function HeldSlot(phase: Phase): Option<nat> {
    match phase
    case Ready(w) => Some(w)
    case Writing(w, _) => Some(w)
    case Reading(w, _) => Some(w)
    case Exchanged(w, _, _) => Some(w)
    case Finished(w, _) => Some(w)
    case _ => None
  }

  /** The slot has a process, alive or not. */
  predicate Bound(s: State, w: nat) {
    w < |s.slots| && s.slots[w].cmd.Some? && s.slots[w].cmd.value < |s.procs|
  }

  function ProcOf(s: State, w: nat): Proc
    requires Bound(s, w)
  {
    s.procs[s.slots[w].cmd.value]
  }

  predicate NeedsSpawn(slot: Slot) {
    slot.cmd.None? || slot.dead
  }

  predicate CallerEnabled(s: State, caller: Caller, move: CallerStep) {
    var phase := caller.phase;
    match move
    case Call(_) => phase.Idle? || phase.Returned?
    case Acquire => phase.Waiting? && s.channel != []
    case Spawn => phase.Ready? && phase.w < |s.slots| && NeedsSpawn(s.slots[phase.w])
    case SpawnFails => phase.Ready? && phase.w < |s.slots| && NeedsSpawn(s.slots[phase.w])
    case Reuse => phase.Ready? && phase.w < |s.slots| && !NeedsSpawn(s.slots[phase.w])
    case WriteSome(k) => phase.Writing? && Bound(s, phase.w) && 0 < k <= |phase.toWrite|
    case WriteFails => phase.Writing? && Bound(s, phase.w) && !ProcOf(s, phase.w).alive
    case WriteDone => phase.Writing? && phase.toWrite == []
    case ReadSome(k) =>
      phase.Reading? && Bound(s, phase.w) && 0 < k <= Need(phase.got) && k <= |ProcOf(s, phase.w).stdout|
    case ReadFails =>
      phase.Reading? && Bound(s, phase.w) && !ProcOf(s, phase.w).alive && ProcOf(s, phase.w).stdout == []
      && Need(phase.got) > 0
    case ReadDone => phase.Reading? && FirstFrame(phase.got).Some?
    case Kill => (phase.Writing? || phase.Reading? || phase.Exchanged?) && Bound(s, phase.w)
    case Finish =>
      // a fatal or killed exchange first reaps the process, which waits until it has ended
      phase.Exchanged? && Bound(s, phase.w) && (phase.fatal || caller.killed ==> !ProcOf(s, phase.w).alive)
    case Release => phase.Finished?
  }

  function SetPhase(s: State, c: nat, phase: Phase): State
    requires c < |s.callers|
  {
    s.(callers := s.callers[c := s.callers[c].(phase := phase)])
  }

  function SetProc(s: State, w: nat, proc: Proc): State
    requires Bound(s, w)
  {
    s.(procs := s.procs[s.slots[w].cmd.value := proc])
  }

  function Decide(cfg: Config, w: nat, payload: Bytes): Phase {
    match cfg.decode(payload)
    case Malformed => Exchanged(w, IoFailed, true)
    case Failed(message) => Exchanged(w, RenderFailed(message), false)
    case Success(text) => Exchanged(w, Rendered(text), false)
  }

  function ApplyCaller(cfg: Config, s: State, c: nat, move: CallerStep): State
    requires c < |s.callers| && CallerEnabled(s, s.callers[c], move)
  {
    var caller := s.callers[c];
    var phase := caller.phase;
    match move
    case Call(request) => s.(callers := s.callers[c := Caller(request, Waiting, false)])
    case Acquire => SetPhase(s.(channel := s.channel[1..]), c, Ready(s.channel[0]))
    case Spawn =>
      var t := s.(procs := s.procs + [FRESH], slots := s.slots[phase.w := Slot(Some(|s.procs|), false)]);
      SetPhase(t, c, Writing(phase.w, Frame(caller.request)))
    case SpawnFails => SetPhase(s, c, Finished(phase.w, SpawnFailed))
    case Reuse => SetPhase(s, c, Writing(phase.w, Frame(caller.request)))
    case WriteSome(k) =>
      var proc := ProcOf(s, phase.w);
      SetPhase(SetProc(s, phase.w, proc.(stdin := proc.stdin + phase.toWrite[..k])),
               c, Writing(phase.w, phase.toWrite[k..]))
    case WriteFails => SetPhase(s, c, Exchanged(phase.w, IoFailed, true))
    case WriteDone => SetPhase(s, c, Reading(phase.w, []))
    case ReadSome(k) =>
      var proc := ProcOf(s, phase.w);
      var got := phase.got + proc.stdout[..k];
      SetPhase(SetProc(s, phase.w, proc.(stdout := proc.stdout[k..])), c, Reading(phase.w, got))
    case ReadFails => SetPhase(s, c, Exchanged(phase.w, IoFailed, true))
    case ReadDone => SetPhase(s, c, Decide(cfg, phase.w, FirstFrame(phase.got).value.0))
    case Kill =>
      var t := SetProc(s, phase.w, ProcOf(s, phase.w).(alive := false));
      t.(callers := t.callers[c := caller.(killed := true)])
    case Finish =>
      var t := if caller.killed || phase.fatal
        then s.(slots := s.slots[phase.w := s.slots[phase.w].(dead := true)]) else s;
      SetPhase(t, c, Finished(phase.w, if caller.killed then TimedOut else phase.outcome))
    case Release => SetPhase(s.(channel := s.channel + [phase.w]), c, Returned(phase.outcome))
  }

  // ---------- Steps of the system ----------

  datatype Step = OfCaller(c: nat, call: CallerStep) | OfProc(p: nat, move: ProcStep)

  predicate Enabled(s: State, step: Step) {
    match step
    case OfCaller(c, move) => c < |s.callers| && CallerEnabled(s, s.callers[c], move)
    case OfProc(p, move) => p < |s.procs| && ProcEnabled(s.procs[p], move)
  }

  function Apply(cfg: Config, s: State, step: Step): State
    requires Enabled(s, step)
  {
    match step
    case OfCaller(c, move) => ApplyCaller(cfg, s, c, move)
    case OfProc(p, move) => s.(procs := s.procs[p := ApplyProc(cfg, s.procs[p], move)])
  }

  // ---------- The invariant ----------

  /** Nothing is under way in or out of the process. */
  predicate Quiet(proc: Proc) {
    proc.stdin == [] && proc.acc == [] && proc.outbox == [] && proc.stdout == []
  }

  /**
   * One exchange: first the bytes of the request are spread, in order, over what the process has read, the pipe and
   * what is still to be written; once it has answered, those of the response over what has been read, the pipe and
   * what the process has still to write.
   */
  predicate Exchanging(cfg: Config, proc: Proc, request: Bytes, toWrite: Bytes, got: Bytes) {
    || (got == [] && proc.stdout == [] && proc.outbox == [] && proc.acc + proc.stdin + toWrite == Frame(request))
    || (toWrite == [] && proc.acc == [] && proc.stdin == [] && Fits(cfg.respond(request))
        && got + proc.stdout + proc.outbox == Frame(cfg.respond(request)))
  }

  /** A result is the decoded answer to this request. */
  predicate Answers(cfg: Config, request: Bytes, outcome: Outcome) {
    match outcome
    case Rendered(text) => cfg.decode(cfg.respond(request)) == Success(text)
    case RenderFailed(message) => cfg.decode(cfg.respond(request)) == Failed(message)
    case _ => true
  }

  /** A slot between exchanges: unless it needs a new process, nothing is under way in it. */
  predicate SlotRests(s: State, w: nat) {
    w < |s.slots| && (!NeedsSpawn(s.slots[w]) ==> Bound(s, w) && Quiet(ProcOf(s, w)))
  }

  /** A slot in use has a current process. */
  predicate SlotRuns(s: State, w: nat) {
    Bound(s, w) && !s.slots[w].dead
  }

  predicate CallerOk(cfg: Config, s: State, caller: Caller) {
    match caller.phase
    case Idle => true
    case Waiting => Fits(caller.request)
    case Ready(w) => Fits(caller.request) && SlotRests(s, w)
    case Writing(w, toWrite) =>
      Fits(caller.request) && SlotRuns(s, w)
      && Exchanging(cfg, ProcOf(s, w), caller.request, toWrite, [])
    case Reading(w, got) =>
      Fits(caller.request) && SlotRuns(s, w)
      && Exchanging(cfg, ProcOf(s, w), caller.request, [], got)
    case Exchanged(w, outcome, fatal) =>
      SlotRuns(s, w) && Answers(cfg, caller.request, outcome) && (!fatal ==> Quiet(ProcOf(s, w)))
    case Finished(w, outcome) => SlotRests(s, w) && Answers(cfg, caller.request, outcome)
    case Returned(outcome) => Answers(cfg, caller.request, outcome)
  }

  /** No slot is held twice, or held and idle at once. */
  ghost predicate Exclusive(s: State) {
    && (forall i, j :: 0 <= i < j < |s.channel| ==> s.channel[i] != s.channel[j])
    && (forall c, i :: 0 <= c < |s.callers| && 0 <= i < |s.channel| ==>
          HeldSlot(s.callers[c].phase) != Some(s.channel[i]))
    && (forall c, d :: 0 <= c < d < |s.callers| && HeldSlot(s.callers[c].phase).Some? ==>
          HeldSlot(s.callers[c].phase) != HeldSlot(s.callers[d].phase))
  }

  /** Slots do not share processes. */
  ghost predicate OwnProcs(s: State) {
    && (forall w :: 0 <= w < |s.slots| && s.slots[w].cmd.Some? ==> s.slots[w].cmd.value < |s.procs|)
    && (forall v, w :: 0 <= v < w < |s.slots| && s.slots[v].cmd.Some? ==> s.slots[v].cmd != s.slots[w].cmd)
  }

  function HeldCount(callers: seq<Caller>): nat {
    if callers == [] then 0
    else HeldCount(callers[..|callers| - 1]) + (if HeldSlot(callers[|callers| - 1].phase).Some? then 1 else 0)
  }

  ghost predicate Inv(cfg: Config, s: State) {
    && Exclusive(s)
    && OwnProcs(s)
    && |s.channel| + HeldCount(s.callers) == |s.slots|
    && (forall i :: 0 <= i < |s.channel| ==> SlotRests(s, s.channel[i]))
    && (forall c :: 0 <= c < |s.callers| ==> CallerOk(cfg, s, s.callers[c]))
  }

  // ---------- Worker steps keep the invariant ----------

  lemma PrefixHasNoFrame(acc: Bytes, more: Bytes, payload: Bytes)
    requires Fits(payload) && acc + more == Frame(payload)
    ensures FirstFrame(acc).Some? ==> more == [] && FirstFrame(acc) == Some((payload, []))
  {
    if more == [] {
      FrameRoundTrip(payload, []);
      assert acc == Frame(payload) + [] == Frame(payload);
    } else {
      assert acc == Frame(payload)[..|acc|];
      TruncatedFrame(payload, |acc|);
    }
  }

  lemma QuietStays(cfg: Config, proc: Proc, move: ProcStep)
    requires Quiet(proc) && ProcEnabled(proc, move)
    ensures Quiet(ApplyProc(cfg, proc, move))
  {
  }

  lemma ExchangingStays(cfg: Config, proc: Proc, request: Bytes, toWrite: Bytes, got: Bytes, move: ProcStep)
    requires Fits(request) && Exchanging(cfg, proc, request, toWrite, got) && ProcEnabled(proc, move)
    ensures Exchanging(cfg, ApplyProc(cfg, proc, move), request, toWrite, got)
  {
    match move
    case ReadsSome(k) =>
      assert (proc.acc + proc.stdin[..k]) + proc.stdin[k..] == proc.acc + proc.stdin;
    case AnswersRequest =>
      assert proc.acc + (proc.stdin + toWrite) == proc.acc + proc.stdin + toWrite;
      PrefixHasNoFrame(proc.acc, proc.stdin + toWrite, request);
      var response := cfg.respond(request);
      assert [] + [] + Frame(response) == Frame(response);
    case WritesSome(k) =>
      assert got + (proc.stdout + proc.outbox[..k]) + proc.outbox[k..] == got + proc.stdout + proc.outbox;
    case Dies =>
  }

  lemma ProcStepSlot(cfg: Config, s: State, p: nat, move: ProcStep, w: nat)
    requires p < |s.procs| && ProcEnabled(s.procs[p], move) && SlotRests(s, w)
    ensures SlotRests(Apply(cfg, s, OfProc(p, move)), w)
  {
    QuietStaysIf(cfg, s.procs[p], move);
  }

  lemma QuietStaysIf(cfg: Config, proc: Proc, move: ProcStep)
    requires ProcEnabled(proc, move)
    ensures Quiet(proc) ==> Quiet(ApplyProc(cfg, proc, move))
  {
    if Quiet(proc) {
      QuietStays(cfg, proc, move);
    }
  }

  lemma ProcStepCaller(cfg: Config, s: State, p: nat, move: ProcStep, caller: Caller)
    requires p < |s.procs| && ProcEnabled(s.procs[p], move) && CallerOk(cfg, s, caller)
    ensures CallerOk(cfg, Apply(cfg, s, OfProc(p, move)), caller)
  {
    QuietStaysIf(cfg, s.procs[p], move);
    match caller.phase
    case Writing(w, toWrite) =>
      if s.slots[w].cmd.value == p {
        ExchangingStays(cfg, s.procs[p], caller.request, toWrite, [], move);
      }
    case Reading(w, got) =>
      if s.slots[w].cmd.value == p {
        ExchangingStays(cfg, s.procs[p], caller.request, [], got, move);
      }
    case _ =>
  }

  lemma ProcStepKeeps(cfg: Config, s: State, p: nat, move: ProcStep)
    requires Inv(cfg, s) && p < |s.procs| && ProcEnabled(s.procs[p], move)
    ensures Inv(cfg, Apply(cfg, s, OfProc(p, move)))
  {
    var t := Apply(cfg, s, OfProc(p, move));
    forall i | 0 <= i < |t.channel|
      ensures SlotRests(t, t.channel[i])
    {
      ProcStepSlot(cfg, s, p, move, s.channel[i]);
    }
    forall c | 0 <= c < |t.callers|
      ensures CallerOk(cfg, t, t.callers[c])
    {
      ProcStepCaller(cfg, s, p, move, s.callers[c]);
    }
  }

  // ---------- Caller steps keep the invariant ----------

  /** t differs from s only in slot w and its process. */
  ghost predicate Local(s: State, t: State, w: nat) {
    && |t.slots| == |s.slots| && |t.procs| >= |s.procs|
    && (forall v :: 0 <= v < |s.slots| && v != w ==> t.slots[v] == s.slots[v])
    && (forall p :: 0 <= p < |s.procs| && !(w < |s.slots| && s.slots[w].cmd == Some(p)) ==> t.procs[p] == s.procs[p])
  }

  lemma OtherBound(s: State, t: State, w: nat, v: nat)
    requires OwnProcs(s) && Local(s, t, w) && v != w && Bound(s, v)
    ensures Bound(t, v) && ProcOf(t, v) == ProcOf(s, v) && t.slots[v] == s.slots[v]
  {
    assert w < v ==> s.slots[w].cmd.Some? ==> s.slots[w].cmd != s.slots[v].cmd;
    assert v < w < |s.slots| ==> s.slots[v].cmd != s.slots[w].cmd;
  }

  lemma OtherSlotRests(s: State, t: State, w: nat, v: nat)
    requires OwnProcs(s) && Local(s, t, w) && v != w && SlotRests(s, v)
    ensures SlotRests(t, v)
  {
    if !NeedsSpawn(s.slots[v]) {
      OtherBound(s, t, w, v);
    }
  }

  lemma OtherCallerOk(cfg: Config, s: State, t: State, w: nat, caller: Caller)
    requires OwnProcs(s) && Local(s, t, w) && HeldSlot(caller.phase) != Some(w) && CallerOk(cfg, s, caller)
    ensures CallerOk(cfg, t, caller)
  {
    match caller.phase
    case Ready(v) => OtherSlotRests(s, t, w, v);
    case Writing(v, _) => OtherBound(s, t, w, v);
    case Reading(v, _) => OtherBound(s, t, w, v);
    case Exchanged(v, _, _) => OtherBound(s, t, w, v);
    case Finished(v, _) => OtherSlotRests(s, t, w, v);
    case _ =>
  }

  lemma {:induction false} HeldCountUpdate(callers: seq<Caller>, c: nat, x: Caller)
    requires c < |callers|
    ensures HeldCount(callers[c := x]) + (if HeldSlot(callers[c].phase).Some? then 1 else 0) ==
      HeldCount(callers) + (if HeldSlot(x.phase).Some? then 1 else 0)
  {
    var last := |callers| - 1;
    if c < last {
      HeldCountUpdate(callers[..last], c, x);
      assert callers[c := x][..last] == callers[..last][c := x];
    } else {
      assert callers[c := x][..last] == callers[..last];
    }
  }

  /**
   * A caller's step that changes at most the slot w, which only it can hold: if the slots stay well owned and the
   * caller and the channel are right afterwards, so is everything else.
   */
  lemma StepKeeps(cfg: Config, s: State, t: State, c: nat, w: nat)
    requires Inv(cfg, s) && c < |s.callers| && |t.callers| == |s.callers| && t.callers == s.callers[c := t.callers[c]]
    requires Local(s, t, w) && OwnProcs(t)
    requires forall d :: 0 <= d < |s.callers| && d != c ==> HeldSlot(s.callers[d].phase) != Some(w)
    requires Exclusive(t) && |t.channel| + HeldCount(t.callers) == |t.slots|
    requires forall i :: 0 <= i < |t.channel| ==> SlotRests(t, t.channel[i])
    requires CallerOk(cfg, t, t.callers[c])
    ensures Inv(cfg, t)
  {
    forall d | 0 <= d < |t.callers| && d != c
      ensures CallerOk(cfg, t, t.callers[d])
    {
      OtherCallerOk(cfg, s, t, w, s.callers[d]);
    }
  }

  /** No other caller, and not the channel, has the slot that caller c holds. */
  lemma SoleHolder(cfg: Config, s: State, c: nat, w: nat)
    requires Inv(cfg, s) && c < |s.callers| && HeldSlot(s.callers[c].phase) == Some(w)
    ensures forall d :: 0 <= d < |s.callers| && d != c ==> HeldSlot(s.callers[d].phase) != Some(w)
    ensures forall i :: 0 <= i < |s.channel| ==> s.channel[i] != w
  {
    forall d | 0 <= d < |s.callers| && d != c
      ensures HeldSlot(s.callers[d].phase) != Some(w)
    {
      assert if c < d then HeldSlot(s.callers[c].phase) != HeldSlot(s.callers[d].phase)
             else HeldSlot(s.callers[d].phase).Some? ==> HeldSlot(s.callers[d].phase) != HeldSlot(s.callers[c].phase);
    }
  }

  /** A step inside a call: the caller keeps its slot. */
  lemma HoldingKeeps(cfg: Config, s: State, t: State, c: nat, w: nat)
    requires Inv(cfg, s) && c < |s.callers| && |t.callers| == |s.callers| && t.callers == s.callers[c := t.callers[c]]
    requires HeldSlot(s.callers[c].phase) == Some(w) && HeldSlot(t.callers[c].phase) == Some(w)
    requires Local(s, t, w) && OwnProcs(t) && t.channel == s.channel
    requires CallerOk(cfg, t, t.callers[c])
    ensures Inv(cfg, t)
  {
    SoleHolder(cfg, s, c, w);
    HeldCountUpdate(s.callers, c, t.callers[c]);
    forall d | 0 <= d < |t.callers|
      ensures HeldSlot(t.callers[d].phase) == HeldSlot(s.callers[d].phase)
    {
    }
    forall i | 0 <= i < |t.channel|
      ensures SlotRests(t, t.channel[i])
    {
      OtherSlotRests(s, t, w, s.channel[i]);
    }
    StepKeeps(cfg, s, t, c, w);
  }

  lemma WriteSomeKeeps(cfg: Config, s: State, c: nat, k: nat)
    requires Inv(cfg, s) && Enabled(s, OfCaller(c, WriteSome(k)))
    ensures Inv(cfg, Apply(cfg, s, OfCaller(c, WriteSome(k))))
  {
    var t, caller := Apply(cfg, s, OfCaller(c, WriteSome(k))), s.callers[c];
    var Writing(w, toWrite) := caller.phase;
    var proc := ProcOf(s, w);
    assert (proc.acc + (proc.stdin + toWrite[..k])) + toWrite[k..] == proc.acc + proc.stdin + toWrite;
    assert CallerOk(cfg, s, caller);
    HoldingKeeps(cfg, s, t, c, w);
  }

  lemma ReadSomeKeeps(cfg: Config, s: State, c: nat, k: nat)
    requires Inv(cfg, s) && Enabled(s, OfCaller(c, ReadSome(k)))
    ensures Inv(cfg, Apply(cfg, s, OfCaller(c, ReadSome(k))))
  {
    var t, caller := Apply(cfg, s, OfCaller(c, ReadSome(k))), s.callers[c];
    var Reading(w, got) := caller.phase;
    var proc := ProcOf(s, w);
    assert (got + proc.stdout[..k]) + proc.stdout[k..] + proc.outbox == got + proc.stdout + proc.outbox;
    assert CallerOk(cfg, s, caller);
    HoldingKeeps(cfg, s, t, c, w);
  }

  /** When the caller has read a frame, it is its own response, and the pipes are empty again. */
  lemma ReadDoneKeeps(cfg: Config, s: State, c: nat)
    requires Inv(cfg, s) && Enabled(s, OfCaller(c, ReadDone))
    ensures Inv(cfg, Apply(cfg, s, OfCaller(c, ReadDone)))
  {
    var t, caller := Apply(cfg, s, OfCaller(c, ReadDone)), s.callers[c];
    var Reading(w, got) := caller.phase;
    var proc := ProcOf(s, w);
    assert CallerOk(cfg, s, caller);
    var response := cfg.respond(caller.request);
    assert got + (proc.stdout + proc.outbox) == got + proc.stdout + proc.outbox;
    PrefixHasNoFrame(got, proc.stdout + proc.outbox, response);
    HoldingKeeps(cfg, s, t, c, w);
  }

  lemma SpawnKeeps(cfg: Config, s: State, c: nat)
    requires Inv(cfg, s) && Enabled(s, OfCaller(c, Spawn))
    ensures Inv(cfg, Apply(cfg, s, OfCaller(c, Spawn)))
  {
    var t, caller := Apply(cfg, s, OfCaller(c, Spawn)), s.callers[c];
    var w := caller.phase.w;
    assert CallerOk(cfg, s, caller);
    assert [] + [] + Frame(caller.request) == Frame(caller.request);
    assert OwnProcs(t) by {
      assert forall v :: 0 <= v < |s.slots| && v != w ==> t.slots[v] == s.slots[v];
    }
    HoldingKeeps(cfg, s, t, c, w);
  }

  lemma ReuseKeeps(cfg: Config, s: State, c: nat)
    requires Inv(cfg, s) && Enabled(s, OfCaller(c, Reuse))
    ensures Inv(cfg, Apply(cfg, s, OfCaller(c, Reuse)))
  {
    var t, caller := Apply(cfg, s, OfCaller(c, Reuse)), s.callers[c];
    assert CallerOk(cfg, s, caller);
    assert [] + [] + Frame(caller.request) == Frame(caller.request);
    HoldingKeeps(cfg, s, t, c, caller.phase.w);
  }

  lemma KillKeeps(cfg: Config, s: State, c: nat)
    requires Inv(cfg, s) && Enabled(s, OfCaller(c, Kill))
    ensures Inv(cfg, Apply(cfg, s, OfCaller(c, Kill)))
  {
    assert CallerOk(cfg, s, s.callers[c]);
    HoldingKeeps(cfg, s, Apply(cfg, s, OfCaller(c, Kill)), c, s.callers[c].phase.w);
  }

  lemma FinishKeeps(cfg: Config, s: State, c: nat)
    requires Inv(cfg, s) && Enabled(s, OfCaller(c, Finish))
    ensures Inv(cfg, Apply(cfg, s, OfCaller(c, Finish)))
  {
    var t, w := Apply(cfg, s, OfCaller(c, Finish)), s.callers[c].phase.w;
    assert CallerOk(cfg, s, s.callers[c]);
    assert OwnProcs(t) by {
      assert forall v :: 0 <= v < |s.slots| ==> t.slots[v].cmd == s.slots[v].cmd;
    }
    HoldingKeeps(cfg, s, t, c, w);
  }

  /** The steps that only move the caller on within its slot. */
  lemma PhaseStepKeeps(cfg: Config, s: State, c: nat, move: CallerStep)
    requires move.SpawnFails? || move.WriteFails? || move.WriteDone? || move.ReadFails?
    requires Inv(cfg, s) && Enabled(s, OfCaller(c, move))
    ensures Inv(cfg, Apply(cfg, s, OfCaller(c, move)))
  {
    var t, caller := Apply(cfg, s, OfCaller(c, move)), s.callers[c];
    assert CallerOk(cfg, s, caller);
    if move.WriteDone? {
      assert ProcOf(s, caller.phase.w).acc + ProcOf(s, caller.phase.w).stdin + [] ==
        ProcOf(s, caller.phase.w).acc + ProcOf(s, caller.phase.w).stdin;
    }
    HoldingKeeps(cfg, s, t, c, caller.phase.w);
  }

  lemma AcquireKeeps(cfg: Config, s: State, c: nat)
    requires Inv(cfg, s) && Enabled(s, OfCaller(c, Acquire))
    ensures Inv(cfg, Apply(cfg, s, OfCaller(c, Acquire)))
  {
    var t, w := Apply(cfg, s, OfCaller(c, Acquire)), s.channel[0];
    assert CallerOk(cfg, s, s.callers[c]);
    HeldCountUpdate(s.callers, c, t.callers[c]);
    AcquireExclusive(s, t, c, w);
    StepKeeps(cfg, s, t, c, w);
  }

  lemma AcquireExclusive(s: State, t: State, c: nat, w: nat)
    requires Exclusive(s) && c < |s.callers| && s.channel != [] && s.channel[0] == w && t.channel == s.channel[1..]
    requires |t.callers| == |s.callers| && t.callers == s.callers[c := t.callers[c]]
    requires HeldSlot(t.callers[c].phase) == Some(w)
    ensures Exclusive(t)
    ensures forall d :: 0 <= d < |s.callers| && d != c ==> HeldSlot(s.callers[d].phase) != Some(w)
  {
    forall d | 0 <= d < |s.callers|
      ensures HeldSlot(s.callers[d].phase) != Some(w)
    {
      assert HeldSlot(s.callers[d].phase) != Some(s.channel[0]);
    }
  }

  lemma ReleaseKeeps(cfg: Config, s: State, c: nat)
    requires Inv(cfg, s) && Enabled(s, OfCaller(c, Release))
    ensures Inv(cfg, Apply(cfg, s, OfCaller(c, Release)))
  {
    var t, w := Apply(cfg, s, OfCaller(c, Release)), s.callers[c].phase.w;
    assert CallerOk(cfg, s, s.callers[c]);
    SoleHolder(cfg, s, c, w);
    HeldCountUpdate(s.callers, c, t.callers[c]);
    ReleaseExclusive(s, t, c, w);
    StepKeeps(cfg, s, t, c, w);
  }

  lemma ReleaseExclusive(s: State, t: State, c: nat, w: nat)
    requires Exclusive(s) && c < |s.callers| && t.channel == s.channel + [w]
    requires |t.callers| == |s.callers| && t.callers == s.callers[c := t.callers[c]]
    requires HeldSlot(t.callers[c].phase) == None && HeldSlot(s.callers[c].phase) == Some(w)
    requires forall d :: 0 <= d < |s.callers| && d != c ==> HeldSlot(s.callers[d].phase) != Some(w)
    requires forall i :: 0 <= i < |s.channel| ==> s.channel[i] != w
    ensures Exclusive(t)
  {
  }

  lemma CallKeeps(cfg: Config, s: State, c: nat, request: Bytes)
    requires Inv(cfg, s) && Enabled(s, OfCaller(c, Call(request))) && Fits(request)
    ensures Inv(cfg, Apply(cfg, s, OfCaller(c, Call(request))))
  {
    var t := Apply(cfg, s, OfCaller(c, Call(request)));
    HeldCountUpdate(s.callers, c, t.callers[c]);
    forall d | 0 <= d < |t.callers|
      ensures HeldSlot(t.callers[d].phase) == HeldSlot(s.callers[d].phase)
    {
    }
    forall i | 0 <= i < |t.channel|
      ensures SlotRests(t, t.channel[i])
    {
    }
    forall d | 0 <= d < |t.callers|
      ensures CallerOk(cfg, t, t.callers[d])
    {
      if d != c {
        assert CallerOk(cfg, s, s.callers[d]);
        SameOk(cfg, s, t, s.callers[d]);
      }
    }
  }

  lemma SameOk(cfg: Config, s: State, t: State, caller: Caller)
    requires t.slots == s.slots && t.procs == s.procs && CallerOk(cfg, s, caller)
    ensures CallerOk(cfg, t, caller)
  {
  }

  // ---------- Every run ----------

  /** The requests a step brings in fit a frame. */
  predicate StepFits(step: Step) {
    step.OfCaller? && step.call.Call? ==> Fits(step.call.request)
  }

  /** Whatever step is taken, the invariant is kept. */
  lemma StepInv(cfg: Config, s: State, step: Step)
    requires Inv(cfg, s) && Enabled(s, step) && StepFits(step)
    ensures Inv(cfg, Apply(cfg, s, step))
  {
    match step
    case OfProc(p, move) => ProcStepKeeps(cfg, s, p, move);
    case OfCaller(c, move) =>
      match move {
        case Call(request) => CallKeeps(cfg, s, c, request);
        case Acquire => AcquireKeeps(cfg, s, c);
        case Spawn => SpawnKeeps(cfg, s, c);
        case Reuse => ReuseKeeps(cfg, s, c);
        case WriteSome(k) => WriteSomeKeeps(cfg, s, c, k);
        case ReadSome(k) => ReadSomeKeeps(cfg, s, c, k);
        case ReadDone => ReadDoneKeeps(cfg, s, c);
        case Kill => KillKeeps(cfg, s, c);
        case Finish => FinishKeeps(cfg, s, c);
        case Release => ReleaseKeeps(cfg, s, c);
        case _ => PhaseStepKeeps(cfg, s, c, move);
      }
  }

  /** The state after a sequence of steps; None if one of them was not possible. */
  function Run(cfg: Config, s: State, steps: seq<Step>): Option<State>
    decreases |steps|
  {
    if steps == [] then Some(s)
    else if Enabled(s, steps[0]) then Run(cfg, Apply(cfg, s, steps[0]), steps[1..])
    else None
  }

  predicate AllStepsFit(steps: seq<Step>) {
    forall i :: 0 <= i < |steps| ==> StepFits(steps[i])
  }

  lemma {:induction false} NoneHeld(callers: seq<Caller>)
    requires forall c :: 0 <= c < |callers| ==> HeldSlot(callers[c].phase).None?
    ensures HeldCount(callers) == 0
  {
    if callers != [] {
      NoneHeld(callers[..|callers| - 1]);
    }
  }

  lemma InitInv(cfg: Config, size: nat, callers: nat)
    ensures Inv(cfg, Init(size, callers))
  {
    NoneHeld(Init(size, callers).callers);
  }

  lemma {:induction false} RunInv(cfg: Config, s: State, steps: seq<Step>)
    requires Inv(cfg, s) && AllStepsFit(steps)
    ensures Run(cfg, s, steps).Some? ==> Inv(cfg, Run(cfg, s, steps).value)
    decreases |steps|
  {
    if steps != [] && Enabled(s, steps[0]) {
      StepInv(cfg, s, steps[0]);
      RunInv(cfg, Apply(cfg, s, steps[0]), steps[1..]);
    }
  }

  /**
   * In every interleaving, a call that returns a text returns the worker's answer to its own request, never one to
   * an earlier or another caller's; and likewise for a rendering error.
   */
  lemma OwnAnswer(cfg: Config, size: nat, callers: nat, steps: seq<Step>, c: nat)
    requires AllStepsFit(steps) && Run(cfg, Init(size, callers), steps).Some?
    requires c < |Run(cfg, Init(size, callers), steps).value.callers|
    ensures var caller := Run(cfg, Init(size, callers), steps).value.callers[c];
      caller.phase.Returned? ==> Answers(cfg, caller.request, caller.phase.outcome)
  {
    InitInv(cfg, size, callers);
    RunInv(cfg, Init(size, callers), steps);
    var s := Run(cfg, Init(size, callers), steps).value;
    assert CallerOk(cfg, s, s.callers[c]);
  }

  /** In every interleaving each slot is idle or held by one caller, and none is lost: idle and held add up. */
  lemma SlotsConserved(cfg: Config, size: nat, callers: nat, steps: seq<Step>)
    requires AllStepsFit(steps) && Run(cfg, Init(size, callers), steps).Some?
    ensures var s := Run(cfg, Init(size, callers), steps).value;
      Exclusive(s) && |s.channel| + HeldCount(s.callers) == size
  {
    InitInv(cfg, size, callers);
    RunInv(cfg, Init(size, callers), steps);
    RunSlots(cfg, Init(size, callers), steps);
  }

  lemma {:induction false} RunSlots(cfg: Config, s: State, steps: seq<Step>)
    ensures Run(cfg, s, steps).Some? ==> |Run(cfg, s, steps).value.slots| == |s.slots|
    decreases |steps|
  {
    if steps != [] && Enabled(s, steps[0]) {
      RunSlots(cfg, Apply(cfg, s, steps[0]), steps[1..]);
    }
  }

  /** In every interleaving an idle worker that would be reused has nothing under way in its pipes. */
  lemma IdleWorkersQuiet(cfg: Config, size: nat, callers: nat, steps: seq<Step>, i: nat)
    requires AllStepsFit(steps) && Run(cfg, Init(size, callers), steps).Some?
    requires i < |Run(cfg, Init(size, callers), steps).value.channel|
    ensures var s := Run(cfg, Init(size, callers), steps).value;
      SlotRests(s, s.channel[i])
  {
    InitInv(cfg, size, callers);
    RunInv(cfg, Init(size, callers), steps);
  }
}
