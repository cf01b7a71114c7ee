/**
 * render/renderer.go: what a call of the render pool returns. Its outcome is determined by the worker's answer and by
 * what went wrong during the call; and a call can always be brought to its end.
 */
module RenderAnswers {
  import opened Text
  import opened Frames
  import opened RenderPool

  // ---------- The outcome of a call ----------

  /** The step has happened in the last call of caller c. */
  predicate Since(steps: seq<Step>, c: nat, move: CallerStep) {
    steps != [] &&
    var last := steps[|steps| - 1];
    last == OfCaller(c, move)
    || (!(last.OfCaller? && last.c == c && last.call.Call?) && Since(steps[..|steps| - 1], c, move))
  }

  predicate IoFault(steps: seq<Step>, c: nat) {
    Since(steps, c, WriteFails) || Since(steps, c, ReadFails)
  }

  /** What the worker's answer means to the caller. */
  function Answer(cfg: Config, request: Bytes): Outcome {
    match cfg.decode(cfg.respond(request))
    case Malformed => IoFailed
    case Failed(message) => RenderFailed(message)
    case Success(text) => Rendered(text)
  }

  /** A failed start, a kill, a failed read or write decide the outcome, in this order; otherwise the answer does. */
  function Verdict(cfg: Config, request: Bytes, steps: seq<Step>, c: nat): Outcome {
    if Since(steps, c, SpawnFails) then SpawnFailed
    else if Since(steps, c, Kill) then TimedOut
    else if IoFault(steps, c) then IoFailed
    else Answer(cfg, request)
  }

  /** A worker is marked dead after an IO failure or a kill, and not after an answer. */
  predicate MarkFits(slot: Slot, outcome: Outcome) {
    && (outcome.IoFailed? || outcome.TimedOut? ==> slot.dead)
    && (outcome.Rendered? || outcome.RenderFailed? ==> !slot.dead)
  }

  ghost predicate CallOk(cfg: Config, s: State, steps: seq<Step>, c: nat)
    requires c < |s.callers|
  {
    var caller := s.callers[c];
    match caller.phase
    case Idle => true
    case Waiting => Untouched(caller, steps, c)
    case Ready(_) => Untouched(caller, steps, c)
    case Writing(_, _) => UnderWay(caller, steps, c) && !IoFault(steps, c)
    case Reading(_, _) => UnderWay(caller, steps, c) && !IoFault(steps, c)
    case Exchanged(_, outcome, fatal) =>
      && UnderWay(caller, steps, c) && fatal == outcome.IoFailed?
      && outcome == if IoFault(steps, c) then IoFailed else Answer(cfg, caller.request)
    case Finished(w, outcome) =>
      w < |s.slots| && outcome == Verdict(cfg, caller.request, steps, c) && MarkFits(s.slots[w], outcome)
    case Returned(outcome) => outcome == Verdict(cfg, caller.request, steps, c)
  }

  predicate UnderWay(caller: Caller, steps: seq<Step>, c: nat) {
    !Since(steps, c, SpawnFails) && (caller.killed <==> Since(steps, c, Kill))
  }

  predicate Untouched(caller: Caller, steps: seq<Step>, c: nat) {
    UnderWay(caller, steps, c) && !caller.killed && !IoFault(steps, c)
  }

  lemma SinceSnoc(steps: seq<Step>, step: Step, c: nat, move: CallerStep)
    ensures Since(steps + [step], c, move) <==>
      step == OfCaller(c, move)
      || (!(step.OfCaller? && step.c == c && step.call.Call?) && Since(steps, c, move))
  {
    assert (steps + [step])[..|steps|] == steps;
  }

  lemma FaultsSnoc(steps: seq<Step>, step: Step, c: nat)
    ensures forall move :: Since(steps + [step], c, move) <==>
      step == OfCaller(c, move)
      || (!(step.OfCaller? && step.c == c && step.call.Call?) && Since(steps, c, move))
  {
    forall move
      ensures Since(steps + [step], c, move) <==>
        step == OfCaller(c, move)
        || (!(step.OfCaller? && step.c == c && step.call.Call?) && Since(steps, c, move))
    {
      SinceSnoc(steps, step, c, move);
    }
  }

  /** A complete frame that the caller has read holds the worker's answer to its request. */
  lemma FrameIsAnswer(cfg: Config, s: State, c: nat)
    requires Inv(cfg, s) && Enabled(s, OfCaller(c, ReadDone))
    ensures FirstFrame(s.callers[c].phase.got).value.0 == cfg.respond(s.callers[c].request)
  {
    var caller := s.callers[c];
    var Reading(w, got) := caller.phase;
    var proc := ProcOf(s, w);
    assert CallerOk(cfg, s, caller);
    assert got + (proc.stdout + proc.outbox) == got + proc.stdout + proc.outbox;
    PrefixHasNoFrame(got, proc.stdout + proc.outbox, cfg.respond(caller.request));
  }

  lemma OwnStepOk(cfg: Config, s: State, steps: seq<Step>, c: nat, move: CallerStep)
    requires Inv(cfg, s) && Enabled(s, OfCaller(c, move)) && CallOk(cfg, s, steps, c)
    ensures CallOk(cfg, Apply(cfg, s, OfCaller(c, move)), steps + [OfCaller(c, move)], c)
  {
    if move.ReadDone? {
      FrameIsAnswer(cfg, s, c);
      FaultsSnoc(steps, OfCaller(c, move), c);
    } else if move.Finish? || move.SpawnFails? {
      assert CallerOk(cfg, s, s.callers[c]);
      FaultsSnoc(steps, OfCaller(c, move), c);
    } else {
      OtherMovesOk(cfg, s, steps, c, move);
    }
  }

  lemma OtherMovesOk(cfg: Config, s: State, steps: seq<Step>, c: nat, move: CallerStep)
    requires Enabled(s, OfCaller(c, move)) && CallOk(cfg, s, steps, c)
    requires !move.ReadDone? && !move.Finish? && !move.SpawnFails?
    ensures CallOk(cfg, Apply(cfg, s, OfCaller(c, move)), steps + [OfCaller(c, move)], c)
  {
    FaultsSnoc(steps, OfCaller(c, move), c);
  }

  /** Another caller changes neither this one nor the slot it holds. */
  lemma OtherStepOk(cfg: Config, s: State, steps: seq<Step>, c: nat, d: nat, move: CallerStep)
    requires Inv(cfg, s) && c != d && c < |s.callers| && Enabled(s, OfCaller(d, move)) && CallOk(cfg, s, steps, c)
    ensures CallOk(cfg, Apply(cfg, s, OfCaller(d, move)), steps + [OfCaller(d, move)], c)
  {
    var t := Apply(cfg, s, OfCaller(d, move));
    FaultsSnoc(steps, OfCaller(d, move), c);
    assert t.callers[c] == s.callers[c];
    if s.callers[c].phase.Finished? {
      SoleHolder(cfg, s, c, s.callers[c].phase.w);
      assert t.slots[s.callers[c].phase.w] == s.slots[s.callers[c].phase.w];
    }
  }

  lemma StepCallOk(cfg: Config, s: State, steps: seq<Step>, step: Step, c: nat)
    requires Inv(cfg, s) && c < |s.callers| && Enabled(s, step) && CallOk(cfg, s, steps, c)
    ensures c < |Apply(cfg, s, step).callers| && CallOk(cfg, Apply(cfg, s, step), steps + [step], c)
  {
    match step
    case OfProc(_, _) =>
      FaultsSnoc(steps, step, c);
    case OfCaller(d, move) =>
      if d == c {
        OwnStepOk(cfg, s, steps, c, move);
      } else {
        OtherStepOk(cfg, s, steps, c, d, move);
      }
  }

  lemma {:induction false} RunSnoc(cfg: Config, s: State, steps: seq<Step>, last: Step)
    ensures Run(cfg, s, steps + [last]) ==
      match Run(cfg, s, steps)
      case None => None
      case Some(n) => if Enabled(n, last) then Some(Apply(cfg, n, last)) else None
    decreases |steps|
  {
    if steps == [] {
      assert [] + [last] == [last] && [last][1..] == [];
    } else {
      assert (steps + [last])[0] == steps[0] && (steps + [last])[1..] == steps[1..] + [last];
      if Enabled(s, steps[0]) {
        RunSnoc(cfg, Apply(cfg, s, steps[0]), steps[1..], last);
      }
    }
  }

  lemma {:induction false} RunCallOk(cfg: Config, size: nat, callers: nat, steps: seq<Step>, c: nat)
    requires AllStepsFit(steps) && Run(cfg, Init(size, callers), steps).Some? && c < callers
    ensures var s := Run(cfg, Init(size, callers), steps).value;
      Inv(cfg, s) && c < |s.callers| && CallOk(cfg, s, steps, c)
    decreases |steps|
  {
    InitInv(cfg, size, callers);
    RunInv(cfg, Init(size, callers), steps);
    if steps != [] {
      var init, last := steps[..|steps| - 1], steps[|steps| - 1];
      assert steps == init + [last];
      RunSnoc(cfg, Init(size, callers), init, last);
      RunCallOk(cfg, size, callers, init, c);
      StepCallOk(cfg, Run(cfg, Init(size, callers), init).value, init, last, c);
    }
  }

  /**
   * In every interleaving, what a call returns is determined: it says that the worker could not be started if that
   * failed, that time ran out if the watchdog killed it, that reading or writing failed if it did; and in all other
   * cases exactly what the worker's answer to the call's own request says. Only an answer that cannot be decoded is
   * reported as an IO failure too.
   */
  lemma OutcomeExactly(cfg: Config, size: nat, callers: nat, steps: seq<Step>, c: nat)
    requires AllStepsFit(steps) && Run(cfg, Init(size, callers), steps).Some? && c < callers
    ensures var s := Run(cfg, Init(size, callers), steps).value;
      && c < |s.callers|
      && (s.callers[c].phase.Returned? ==>
            s.callers[c].phase.outcome == Verdict(cfg, s.callers[c].request, steps, c))
  {
    RunCallOk(cfg, size, callers, steps, c);
  }

  /** When it gives its slot back, the worker is marked dead after an IO failure or a kill, and kept after an answer. */
  lemma WorkerKeptExactly(cfg: Config, size: nat, callers: nat, steps: seq<Step>, c: nat)
    requires AllStepsFit(steps) && Run(cfg, Init(size, callers), steps).Some? && c < callers
    ensures var s := Run(cfg, Init(size, callers), steps).value;
      && c < |s.callers|
      && (s.callers[c].phase.Finished? ==>
            var Finished(w, outcome) := s.callers[c].phase;
            && w < |s.slots| && outcome == Verdict(cfg, s.callers[c].request, steps, c)
            && (!outcome.SpawnFailed? ==> (s.slots[w].dead <==> outcome.IoFailed? || outcome.TimedOut?)))
  {
    RunCallOk(cfg, size, callers, steps, c);
  }

  /** The caller uses a process that has ended. */
  predicate UsesDead(s: State, c: nat) {
    c < |s.callers| && HeldSlot(s.callers[c].phase).Some?
    && Bound(s, HeldSlot(s.callers[c].phase).value) && !ProcOf(s, HeldSlot(s.callers[c].phase).value).alive
  }

  ghost predicate MetDead(cfg: Config, s: State, steps: seq<Step>, c: nat, k: nat) {
    k < |steps| && Run(cfg, s, steps[..k]).Some? && UsesDead(Run(cfg, s, steps[..k]).value, c)
  }

  /** A read or write fails only when the process had ended. */
  lemma {:induction false} IoFaultMeansDead(cfg: Config, s: State, steps: seq<Step>, c: nat) returns (k: nat)
    requires Run(cfg, s, steps).Some? && IoFault(steps, c)
    ensures MetDead(cfg, s, steps, c, k)
    decreases |steps|
  {
    var init, last := steps[..|steps| - 1], steps[|steps| - 1];
    assert steps == init + [last];
    RunSnoc(cfg, s, init, last);
    if last == OfCaller(c, WriteFails) || last == OfCaller(c, ReadFails) {
      k := |init|;
    } else {
      k := IoFaultMeansDead(cfg, s, init, c);
      assert steps[..k] == init[..k];
    }
  }

  // ---------- Reaching states ----------

  /** Any calls among the steps make this request. */
  predicate OnlyCalls(steps: seq<Step>, request: Bytes) {
    forall i :: 0 <= i < |steps| && steps[i].OfCaller? && steps[i].call.Call? ==> steps[i].call.request == request
  }

  /** A run in which nobody makes another request leads from s to t. */
  ghost predicate Reaches(cfg: Config, request: Bytes, s: State, t: State) {
    exists steps :: OnlyCalls(steps, request) && Run(cfg, s, steps) == Some(t)
  }

  lemma StaysThere(cfg: Config, request: Bytes, s: State)
    ensures Reaches(cfg, request, s, s)
  {
    assert OnlyCalls([], request) && Run(cfg, s, []) == Some(s);
  }

  /** The steps to a state, and one more. */
  lemma Then(cfg: Config, request: Bytes, s: State, t: State, step: Step, u: State)
    requires Reaches(cfg, request, s, t) && Enabled(t, step) && Apply(cfg, t, step) == u
    requires OnlyCalls([step], request)
    ensures Reaches(cfg, request, s, u)
  {
    var steps :| OnlyCalls(steps, request) && Run(cfg, s, steps) == Some(t);
    RunSnoc(cfg, s, steps, step);
    assert [step][0] == step;
    assert OnlyCalls(steps + [step], request);
  }

  /** s with another state of the process in slot w and of the call of c. */
  function Using(s: State, c: nat, w: nat, proc: Proc, phase: Phase): State
    requires Bound(s, w) && c < |s.callers|
  {
    SetPhase(SetProc(s, w, proc), c, phase)
  }

  lemma UsingTwice(s: State, c: nat, w: nat, proc: Proc, phase: Phase, proc2: Proc, phase2: Phase)
    requires Bound(s, w) && c < |s.callers|
    ensures Bound(Using(s, c, w, proc, phase), w)
    ensures ProcOf(Using(s, c, w, proc, phase), w) == proc
    ensures Using(Using(s, c, w, proc, phase), c, w, proc2, phase2) == Using(s, c, w, proc2, phase2)
  {
    var p := s.slots[w].cmd.value;
    assert s.procs[p := proc][p := proc2] == s.procs[p := proc2];
  }

  /** A call of c with this request on slot w of b, whose process is not marked dead. */
  datatype Session = Session(cfg: Config, from: State, b: State, c: nat, w: nat, request: Bytes)

  ghost predicate CallReady(x: Session) {
    && Bound(x.b, x.w) && x.c < |x.b.callers| && !x.b.slots[x.w].dead
    && x.b.callers[x.c].request == x.request
  }

  /** The run from the start has come to this state of the process and of the call. */
  ghost predicate Comes(x: Session, proc: Proc, phase: Phase)
    requires CallReady(x)
  {
    Reaches(x.cfg, x.request, x.from, Using(x.b, x.c, x.w, proc, phase))
  }

  /** The caller takes a step in its call. */
  lemma ThenCaller(x: Session, proc: Proc, phase: Phase, move: CallerStep, proc2: Proc, phase2: Phase)
    requires CallReady(x) && Comes(x, proc, phase) && !move.Call?
    requires var t := Using(x.b, x.c, x.w, proc, phase);
      && Enabled(t, OfCaller(x.c, move)) && Bound(t, x.w)
      && Apply(x.cfg, t, OfCaller(x.c, move)) == Using(t, x.c, x.w, proc2, phase2)
    ensures Comes(x, proc2, phase2)
  {
    UsingTwice(x.b, x.c, x.w, proc, phase, proc2, phase2);
    Then(x.cfg, x.request, x.from, Using(x.b, x.c, x.w, proc, phase), OfCaller(x.c, move),
         Using(x.b, x.c, x.w, proc2, phase2));
  }

  /** The process takes a step. */
  lemma ThenProc(x: Session, proc: Proc, phase: Phase, move: ProcStep, proc2: Proc)
    requires CallReady(x) && Comes(x, proc, phase)
    requires ProcEnabled(proc, move) && ApplyProc(x.cfg, proc, move) == proc2
    ensures Comes(x, proc2, phase)
  {
    var t, p := Using(x.b, x.c, x.w, proc, phase), x.b.slots[x.w].cmd.value;
    assert x.b.procs[p := proc][p := proc2] == x.b.procs[p := proc2];
    Then(x.cfg, x.request, x.from, t, OfProc(p, move), Using(x.b, x.c, x.w, proc2, phase));
  }

  // ---------- An undisturbed call ----------

  /** The whole request is written. */
  lemma Writes(x: Session)
    requires CallReady(x) && Comes(x, FRESH, Writing(x.w, Frame(x.request)))
    ensures Comes(x, FRESH.(stdin := Frame(x.request)), Reading(x.w, []))
  {
    var f := Frame(x.request);
    var t := Using(x.b, x.c, x.w, FRESH, Writing(x.w, f));
    UsingTwice(x.b, x.c, x.w, FRESH, Writing(x.w, f), FRESH, Writing(x.w, f));
    assert [] + f[..|f|] == f && f[|f|..] == [];
    ThenCaller(x, FRESH, Writing(x.w, f), WriteSome(|f|), FRESH.(stdin := f), Writing(x.w, []));
    var u := Using(x.b, x.c, x.w, FRESH.(stdin := f), Writing(x.w, []));
    UsingTwice(x.b, x.c, x.w, FRESH.(stdin := f), Writing(x.w, []), FRESH.(stdin := f), Reading(x.w, []));
    assert Apply(x.cfg, u, OfCaller(x.c, WriteDone)) == Using(u, x.c, x.w, FRESH.(stdin := f), Reading(x.w, []));
    ThenCaller(x, FRESH.(stdin := f), Writing(x.w, []), WriteDone, FRESH.(stdin := f), Reading(x.w, []));
  }

  lemma CutHeader(f: Bytes, n: nat)
    requires 4 + n <= |f|
    ensures [] + f[..4] == f[..4] && f[..4][..4] == f[..4]
    ensures f[..4] + f[4..][..n] == f[..4 + n] && f[4..][n..] == f[4 + n..]
    ensures n == 0 ==> f[..4 + n] == f[..4]
  {
  }

  /** The process reads what the header announces. */
  lemma ProcReads(x: Session, phase: Phase, f: Bytes, n: nat)
    requires CallReady(x) && Comes(x, FRESH.(stdin := f), phase)
    requires 4 + n <= |f| && HeaderValue(f[..4]) == n
    ensures Comes(x, FRESH.(acc := f[..4 + n], stdin := f[4 + n..]), phase)
  {
    var p1 := FRESH.(acc := f[..4], stdin := f[4..]);
    CutHeader(f, n);
    ThenProc(x, FRESH.(stdin := f), phase, ReadsSome(4), p1);
    if n > 0 {
      ThenProc(x, p1, phase, ReadsSome(n), FRESH.(acc := f[..4 + n], stdin := f[4 + n..]));
    }
  }

  /** The process answers the request it has read, and the answer reaches the pipe. */
  lemma ProcAnswers(x: Session, phase: Phase, proc: Proc, response: Bytes)
    requires CallReady(x) && Comes(x, proc, phase)
    requires proc.alive && proc.outbox == [] && proc.stdout == [] && FirstFrame(proc.acc).Some?
    requires response == x.cfg.respond(FirstFrame(proc.acc).value.0) && Fits(response)
    ensures Comes(x, proc.(acc := [], stdout := Frame(response)), phase)
  {
    var f := Frame(response);
    var p1 := proc.(acc := [], outbox := f);
    ThenProc(x, proc, phase, AnswersRequest, p1);
    assert [] + f[..|f|] == f && f[|f|..] == [];
    ThenProc(x, p1, phase, WritesSome(|f|), proc.(acc := [], stdout := f));
  }

  lemma ReadsPart(x: Session, proc: Proc, got: Bytes, k: nat)
    requires CallReady(x) && Comes(x, proc, Reading(x.w, got)) && 0 < k <= Need(got) && k <= |proc.stdout|
    ensures Comes(x, proc.(stdout := proc.stdout[k..]), Reading(x.w, got + proc.stdout[..k]))
  {
    UsingTwice(x.b, x.c, x.w, proc, Reading(x.w, got), proc, Reading(x.w, got));
    ThenCaller(x, proc, Reading(x.w, got), ReadSome(k), proc.(stdout := proc.stdout[k..]),
               Reading(x.w, got + proc.stdout[..k]));
  }

  /** The caller reads the answer. */
  lemma ReadsAnswer(x: Session, proc: Proc, response: Bytes)
    requires CallReady(x) && Comes(x, proc, Reading(x.w, [])) && proc.stdout == Frame(response) && Fits(response)
    ensures Comes(x, proc.(stdout := []), Reading(x.w, Frame(response)))
  {
    var f, n := Frame(response), |response|;
    HeaderRoundTrip(n);
    assert f[..4] == Header(n) && f[4..] == response;
    CutHeader(f, n);
    ReadsPart(x, proc, [], 4);
    var p1 := proc.(stdout := f[4..]);
    assert f[..4 + n] == f && f[4..][n..] == [];
    if n > 0 {
      ReadsPart(x, p1, f[..4], n);
    }
  }

  /** The caller decodes the answer, gives the slot back and returns. */
  lemma Ends(x: Session, proc: Proc, response: Bytes, outcome: Outcome)
    requires CallReady(x) && Comes(x, proc, Reading(x.w, Frame(response))) && Fits(response)
    requires Decide(x.cfg, x.w, response) == Exchanged(x.w, outcome, false) && !x.b.callers[x.c].killed
    ensures Reaches(x.cfg, x.request, x.from,
                    Using(x.b, x.c, x.w, proc, Returned(outcome)).(channel := x.b.channel + [x.w]))
  {
    FrameRoundTrip(response, []);
    assert Frame(response) + [] == Frame(response);
    UsingTwice(x.b, x.c, x.w, proc, Reading(x.w, Frame(response)), proc, Exchanged(x.w, outcome, false));
    Stays(x, proc, Reading(x.w, Frame(response)), Exchanged(x.w, outcome, false));
    ThenCaller(x, proc, Reading(x.w, Frame(response)), ReadDone, proc, Exchanged(x.w, outcome, false));
    Stays(x, proc, Exchanged(x.w, outcome, false), Finished(x.w, outcome));
    ThenCaller(x, proc, Exchanged(x.w, outcome, false), Finish, proc, Finished(x.w, outcome));
    Releases(x, proc, outcome);
  }

  lemma Stays(x: Session, proc: Proc, phase: Phase, phase2: Phase)
    requires CallReady(x)
    ensures var t := Using(x.b, x.c, x.w, proc, phase);
      Bound(t, x.w) && Using(t, x.c, x.w, proc, phase2) == SetPhase(t, x.c, phase2)
  {
    var p := x.b.slots[x.w].cmd.value;
    assert x.b.procs[p := proc][p := proc] == x.b.procs[p := proc];
  }

  lemma Releases(x: Session, proc: Proc, outcome: Outcome)
    requires CallReady(x) && Comes(x, proc, Finished(x.w, outcome))
    ensures Reaches(x.cfg, x.request, x.from,
                    Using(x.b, x.c, x.w, proc, Returned(outcome)).(channel := x.b.channel + [x.w]))
  {
    var t := Using(x.b, x.c, x.w, proc, Finished(x.w, outcome));
    var u := Using(x.b, x.c, x.w, proc, Returned(outcome)).(channel := x.b.channel + [x.w]);
    assert t.callers[x.c := t.callers[x.c].(phase := Returned(outcome))] == u.callers;
    Then(x.cfg, x.request, x.from, t, OfCaller(x.c, Release), u);
  }

  /** The slot can serve a call: it has an idle live process, or will get one. */
  predicate Usable(s: State, w: nat) {
    w < |s.slots| && (NeedsSpawn(s.slots[w]) || (Bound(s, w) && ProcOf(s, w) == FRESH))
  }

  /** Caller c has its slot, the first one in the channel, with a process that waits for a request. */
  function Begun(s: State, c: nat, request: Bytes): State
    requires s.channel != [] && c < |s.callers| && Usable(s, s.channel[0])
  {
    var w := s.channel[0];
    var callers := s.callers[c := Caller(request, Writing(w, Frame(request)), false)];
    if NeedsSpawn(s.slots[w]) then
      State(s.channel[1..], s.slots[w := Slot(Some(|s.procs|), false)], s.procs + [FRESH], callers)
    else State(s.channel[1..], s.slots, s.procs, callers)
  }

  predicate CanCall(s: State, c: nat) {
    && c < |s.callers| && (s.callers[c].phase.Idle? || s.callers[c].phase.Returned?)
    && s.channel != [] && Usable(s, s.channel[0])
  }

  lemma Begins(cfg: Config, s: State, c: nat, request: Bytes) returns (x: Session)
    requires CanCall(s, c)
    ensures x == Session(cfg, s, Begun(s, c, request), c, s.channel[0], request)
    ensures CallReady(x) && Comes(x, FRESH, Writing(x.w, Frame(request)))
  {
    var w, b := s.channel[0], Begun(s, c, request);
    x := Session(cfg, s, b, c, w, request);
    var s1 := s.(callers := s.callers[c := Caller(request, Waiting, false)]);
    var s2 := s.(channel := s.channel[1..], callers := s.callers[c := Caller(request, Ready(w), false)]);
    StaysThere(cfg, request, s);
    Then(cfg, request, s, s, OfCaller(c, Call(request)), s1);
    assert s1.callers[c := Caller(request, Ready(w), false)] == s2.callers;
    Then(cfg, request, s, s1, OfCaller(c, Acquire), s2);
    assert s2.callers[c := Caller(request, Writing(w, Frame(request)), false)] == b.callers;
    Then(cfg, request, s, s2, OfCaller(c, if NeedsSpawn(s.slots[w]) then Spawn else Reuse), b);
    assert Using(b, c, w, FRESH, Writing(w, Frame(request))) == b;
  }

  /** The state after the call has returned: the slot is the last in the channel, and usable. */
  ghost predicate Served(s: State, t: State, c: nat, request: Bytes, outcome: Outcome)
    requires s.channel != [] && c < |s.callers|
  {
    && t.callers == s.callers[c := Caller(request, Returned(outcome), false)]
    && t.channel == s.channel[1..] + [s.channel[0]] && Usable(t, s.channel[0]) && !t.slots[s.channel[0]].dead
  }

  /** Whenever a slot is free whose worker is alive or not yet started, a call can read the answer to its request. */
  lemma AnswerRead(cfg: Config, s: State, c: nat, request: Bytes) returns (x: Session)
    requires CanCall(s, c) && Fits(request) && Fits(cfg.respond(request))
    ensures x == Session(cfg, s, Begun(s, c, request), c, s.channel[0], request) && CallReady(x)
    ensures Comes(x, FRESH, Reading(x.w, Frame(cfg.respond(request))))
  {
    var response, f := cfg.respond(request), Frame(request);
    x := Begins(cfg, s, c, request);
    Writes(x);
    FrameHeader(request);
    ProcReads(x, Reading(x.w, []), f, |request|);
    var read := FRESH.(acc := f);
    assert read == FRESH.(acc := f[..4 + |request|], stdin := f[4 + |request|..]);
    FrameRoundTrip(request, []);
    assert f + [] == f;
    ProcAnswers(x, Reading(x.w, []), read, response);
    ReadsAnswer(x, FRESH.(stdout := Frame(response)), response);
  }

  /**
   * So a call can return what the worker's answer to its request says, with the worker kept, if request and answer
   * fit a frame and the answer can be decoded.
   */
  lemma AnswerReachable(cfg: Config, s: State, c: nat, request: Bytes)
    requires CanCall(s, c) && Fits(request) && Fits(cfg.respond(request))
    requires !cfg.decode(cfg.respond(request)).Malformed?
    ensures exists t :: Reaches(cfg, request, s, t) && Served(s, t, c, request, Answer(cfg, request))
  {
    var outcome := Answer(cfg, request);
    var x := AnswerRead(cfg, s, c, request);
    Ends(x, FRESH, cfg.respond(request), outcome);
    var t := Using(x.b, c, x.w, FRESH, Returned(outcome)).(channel := x.b.channel + [x.w]);
    assert t.callers == s.callers[c := Caller(request, Returned(outcome), false)];
    assert Served(s, t, c, request, outcome);
  }

  /** The call waits for a process that is alive. */
  predicate WaitsFor(s: State, c: nat, p: nat) {
    && c < |s.callers| && s.callers[c].phase.Exchanged? && s.callers[c].phase.fatal
    && s.callers[c].phase.w < |s.slots| && s.slots[s.callers[c].phase.w].cmd == Some(p)
    && p < |s.procs| && s.procs[p].alive
  }

  /** If the answer cannot be decoded, the call can come to wait for a worker that is well and expects a request. */
  lemma UndecodedWaits(cfg: Config, s: State, c: nat, request: Bytes)
    requires CanCall(s, c) && Fits(request) && Fits(cfg.respond(request))
    requires cfg.decode(cfg.respond(request)).Malformed?
    ensures exists t, p: nat :: Reaches(cfg, request, s, t) && WaitsFor(t, c, p) && t.procs[p] == FRESH
  {
    var response := cfg.respond(request);
    var x := AnswerRead(cfg, s, c, request);
    FrameRoundTrip(response, []);
    assert Frame(response) + [] == Frame(response);
    Stays(x, FRESH, Reading(x.w, Frame(response)), Exchanged(x.w, IoFailed, true));
    ThenCaller(x, FRESH, Reading(x.w, Frame(response)), ReadDone, FRESH, Exchanged(x.w, IoFailed, true));
    assert WaitsFor(Using(x.b, c, x.w, FRESH, Exchanged(x.w, IoFailed, true)), c, x.b.slots[x.w].cmd.value);
  }

  /** No process comes back to life, and a waiting call does not move while its process lives. */
  lemma StepWaits(cfg: Config, s: State, step: Step, c: nat, p: nat)
    requires Inv(cfg, s) && Enabled(s, step) && WaitsFor(s, c, p)
    ensures var t := Apply(cfg, s, step);
      && p < |t.procs| && (t.procs[p].alive ==> WaitsFor(t, c, p) && t.callers[c] == s.callers[c])
  {
    if step.OfCaller? && step.c != c {
      OtherWaits(cfg, s, step.c, step.call, c, p);
    }
  }

  lemma OtherWaits(cfg: Config, s: State, d: nat, move: CallerStep, c: nat, p: nat)
    requires Inv(cfg, s) && Enabled(s, OfCaller(d, move)) && WaitsFor(s, c, p) && d != c
    ensures var t := Apply(cfg, s, OfCaller(d, move));
      && p < |t.procs| && (t.procs[p].alive ==> WaitsFor(t, c, p) && t.callers[c] == s.callers[c])
  {
    var t, w := Apply(cfg, s, OfCaller(d, move)), s.callers[c].phase.w;
    SoleHolder(cfg, s, c, w);
    assert t.slots[w] == s.slots[w];
  }

  lemma {:induction false} DeadStaysDead(cfg: Config, s: State, steps: seq<Step>, p: nat)
    requires Run(cfg, s, steps).Some? && p < |s.procs| && !s.procs[p].alive
    ensures p < |Run(cfg, s, steps).value.procs| && !Run(cfg, s, steps).value.procs[p].alive
    decreases |steps|
  {
    if steps != [] {
      DeadStaysDead(cfg, Apply(cfg, s, steps[0]), steps[1..], p);
    }
  }

  /**
   * A call whose exchange has failed goes on only after its process has ended: in every run after which the process is
   * still alive, the call is where it was, and holds its slot.
   */
  lemma {:induction false} FatalWaits(cfg: Config, s: State, steps: seq<Step>, c: nat, p: nat)
    requires Inv(cfg, s) && AllStepsFit(steps) && Run(cfg, s, steps).Some? && WaitsFor(s, c, p)
    ensures var t := Run(cfg, s, steps).value;
      p < |t.procs| && (t.procs[p].alive ==> WaitsFor(t, c, p) && t.callers[c] == s.callers[c])
    decreases |steps|
  {
    if steps != [] {
      var t := Apply(cfg, s, steps[0]);
      StepInv(cfg, s, steps[0]);
      StepWaits(cfg, s, steps[0], c, p);
      if t.procs[p].alive {
        FatalWaits(cfg, t, steps[1..], c, p);
      } else {
        DeadStaysDead(cfg, t, steps[1..], p);
      }
    }
  }

  lemma FrameHeader(payload: Bytes)
    ensures HeaderValue(Frame(payload)[..4]) == |payload| % LIMIT && Frame(payload)[..4 + |payload|] == Frame(payload)
    ensures Frame(payload)[4 + |payload|..] == []
  {
    HeaderRoundTrip(|payload|);
    assert Frame(payload)[..4] == Header(|payload|);
  }

  // ---------- A killed call ----------

  /** With its process dead, a call that reads comes to the end of its exchange. */
  lemma {:induction false} DeadReads(x: Session, proc: Proc, got: Bytes)
    returns (left: Proc, outcome: Outcome, fatal: bool)
    requires CallReady(x) && Comes(x, proc, Reading(x.w, got)) && !proc.alive
    ensures Comes(x, left, Exchanged(x.w, outcome, fatal)) && !left.alive
    decreases |proc.stdout|
  {
    UsingTwice(x.b, x.c, x.w, proc, Reading(x.w, got), proc, Reading(x.w, got));
    if FirstFrame(got).Some? {
      var phase := Decide(x.cfg, x.w, FirstFrame(got).value.0);
      left, outcome, fatal := proc, phase.outcome, phase.fatal;
      Stays(x, proc, Reading(x.w, got), phase);
      ThenCaller(x, proc, Reading(x.w, got), ReadDone, proc, phase);
    } else if proc.stdout == [] {
      left, outcome, fatal := proc, IoFailed, true;
      Stays(x, proc, Reading(x.w, got), Exchanged(x.w, IoFailed, true));
      ThenCaller(x, proc, Reading(x.w, got), ReadFails, proc, Exchanged(x.w, IoFailed, true));
    } else {
      var k := if Need(got) < |proc.stdout| then Need(got) else |proc.stdout|;
      ReadsPart(x, proc, got, k);
      left, outcome, fatal := DeadReads(x, proc.(stdout := proc.stdout[k..]), got + proc.stdout[..k]);
    }
  }

  lemma DeadExchange(x: Session, proc: Proc, phase: Phase) returns (left: Proc, outcome: Outcome, fatal: bool)
    requires CallReady(x) && Comes(x, proc, phase) && !proc.alive
    requires phase.Writing? || phase.Reading?
    requires phase.w == x.w
    ensures Comes(x, left, Exchanged(x.w, outcome, fatal)) && !left.alive
  {
    match phase
    case Writing(_, _) =>
      left, outcome, fatal := proc, IoFailed, true;
      UsingTwice(x.b, x.c, x.w, proc, phase, proc, phase);
      Stays(x, proc, phase, Exchanged(x.w, IoFailed, true));
      ThenCaller(x, proc, phase, WriteFails, proc, Exchanged(x.w, IoFailed, true));
    case Reading(_, got) =>
      left, outcome, fatal := DeadReads(x, proc, got);
  }

  /** The state after the killed call of c has returned. */
  predicate Stopped(s: State, t: State, c: nat, w: nat)
    requires c < |s.callers|
  {
    && t.callers == s.callers[c := Caller(s.callers[c].request, Returned(TimedOut), true)]
    && t.channel == s.channel + [w] && w < |t.slots| && t.slots[w].dead
  }

  /**
   * In every reachable state the watchdog can end an exchange that has not come to its end: once it has killed the
   * process, the call can return that time ran out, its slot is given back, and the worker is marked dead.
   */
  lemma KilledReturns(cfg: Config, s: State, c: nat, w: nat)
    requires Inv(cfg, s) && c < |s.callers| && HeldSlot(s.callers[c].phase) == Some(w)
    requires s.callers[c].phase.Writing? || s.callers[c].phase.Reading?
    ensures exists t :: Reaches(cfg, s.callers[c].request, s, t) && Stopped(s, t, c, w)
  {
    var caller := s.callers[c];
    var request, phase := caller.request, caller.phase;
    assert CallerOk(cfg, s, caller);
    var killed := ProcOf(s, w).(alive := false);
    var b := Apply(cfg, s, OfCaller(c, Kill));
    var x := Session(cfg, s, b, c, w, request);
    StaysThere(cfg, request, s);
    Then(cfg, request, s, s, OfCaller(c, Kill), b);
    assert ProcOf(b, w) == killed && Using(b, c, w, killed, phase) == b;
    var left, outcome, fatal := DeadExchange(x, killed, phase);
    var t := GivesBack(x, left, outcome, fatal);
    assert t.callers == s.callers[c := Caller(request, Returned(TimedOut), true)];
  }

  lemma GivesBack(x: Session, proc: Proc, outcome: Outcome, fatal: bool) returns (t: State)
    requires CallReady(x) && Comes(x, proc, Exchanged(x.w, outcome, fatal)) && !proc.alive && x.b.callers[x.c].killed
    ensures Reaches(x.cfg, x.request, x.from, t) && t.channel == x.b.channel + [x.w] && x.w < |t.slots|
    ensures t.slots[x.w].dead && t.callers == x.b.callers[x.c := x.b.callers[x.c].(phase := Returned(TimedOut))]
  {
    var ex := Using(x.b, x.c, x.w, proc, Exchanged(x.w, outcome, fatal));
    UsingTwice(x.b, x.c, x.w, proc, Exchanged(x.w, outcome, fatal), proc, Returned(TimedOut));
    var marked := ex.(slots := ex.slots[x.w := ex.slots[x.w].(dead := true)]);
    var fin := SetPhase(marked, x.c, Finished(x.w, TimedOut));
    Then(x.cfg, x.request, x.from, ex, OfCaller(x.c, Finish), fin);
    t := SetPhase(fin.(channel := fin.channel + [x.w]), x.c, Returned(TimedOut));
    Then(x.cfg, x.request, x.from, fin, OfCaller(x.c, Release), t);
  }

  // ---------- The queue of idle workers ----------

  /** The slot a caller takes in a step from s to t, and the one it gives back. */
  function TakenIn(s: State, t: State, step: Step): seq<nat>
    requires step.OfCaller? ==> step.c < |s.callers| && step.c < |t.callers|
  {
    if !step.OfCaller? then []
    else
      var before, after := HeldSlot(s.callers[step.c].phase), HeldSlot(t.callers[step.c].phase);
      if before.None? && after.Some? then [after.value] else []
  }

  function GivenIn(s: State, t: State, step: Step): seq<nat>
    requires step.OfCaller? ==> step.c < |s.callers| && step.c < |t.callers|
  {
    if !step.OfCaller? then []
    else
      var before, after := HeldSlot(s.callers[step.c].phase), HeldSlot(t.callers[step.c].phase);
      if before.Some? && after.None? then [before.value] else []
  }

  function Taken(cfg: Config, s: State, steps: seq<Step>): seq<nat>
    decreases |steps|
  {
    if steps == [] || !Enabled(s, steps[0]) then []
    else
      var t := Apply(cfg, s, steps[0]);
      TakenIn(s, t, steps[0]) + Taken(cfg, t, steps[1..])
  }

  function Given(cfg: Config, s: State, steps: seq<Step>): seq<nat>
    decreases |steps|
  {
    if steps == [] || !Enabled(s, steps[0]) then []
    else
      var t := Apply(cfg, s, steps[0]);
      GivenIn(s, t, steps[0]) + Given(cfg, t, steps[1..])
  }

  lemma StepQueues(cfg: Config, s: State, step: Step)
    requires Enabled(s, step)
    ensures var t := Apply(cfg, s, step);
      s.channel + GivenIn(s, t, step) == TakenIn(s, t, step) + t.channel
  {
    if step.OfCaller? && step.call.Acquire? {
      assert s.channel == [s.channel[0]] + s.channel[1..];
    }
  }

  /** Workers are taken in the order in which they were given back: none is passed over. */
  lemma {:induction false} WorkersTakeTurns(cfg: Config, s: State, steps: seq<Step>)
    requires Run(cfg, s, steps).Some?
    ensures s.channel + Given(cfg, s, steps) == Taken(cfg, s, steps) + Run(cfg, s, steps).value.channel
    decreases |steps|
  {
    if steps == [] {
      assert s.channel + [] == [] + s.channel;
    } else {
      var t := Apply(cfg, s, steps[0]);
      var k, g := TakenIn(s, t, steps[0]), GivenIn(s, t, steps[0]);
      var given, taken := Given(cfg, t, steps[1..]), Taken(cfg, t, steps[1..]);
      StepQueues(cfg, s, steps[0]);
      WorkersTakeTurns(cfg, t, steps[1..]);
      Reassociate(s.channel, g, given);
      Reassociate(k, t.channel, given);
      Reassociate(k, taken, Run(cfg, t, steps[1..]).value.channel);
    }
  }

  // ---------- Requests that do not fit ----------

  /** A worker that answers this one request with nothing, and every other with one byte. */
  function Telling(request: Bytes): Config {
    Config(payload => if payload == request then [] else [0], payload => Success(payload))
  }

  /** The first caller has returned with an outcome that is not the worker's answer to its request. */
  ghost predicate Misanswered(cfg: Config, t: State, request: Bytes) {
    |t.callers| == 1 && t.callers[0].request == request
    && t.callers[0].phase.Returned? && !Answers(cfg, request, t.callers[0].phase.outcome)
  }

  /**
   * The condition that requests fit a frame is needed: for every request of 2^32 bytes or more there is a worker and
   * a run in which the call returns an answer that is not the worker's answer to that request.
   */
  lemma OversizedMisanswered(request: Bytes)
    requires !Fits(request)
    ensures exists t :: Reaches(Telling(request), request, Init(1, 1), t) && Misanswered(Telling(request), t, request)
  {
    var cfg, f, n := Telling(request), Frame(request), |request| % LIMIT;
    var s := Init(1, 1);
    var x := Begins(cfg, s, 0, request);
    Writes(x);
    FrameHeader(request);
    ProcReads(x, Reading(x.w, []), f, n);
    var read := FRESH.(acc := f[..4 + n], stdin := f[4 + n..]);
    assert f[..4 + n][..4] == f[..4];
    assert FirstFrame(read.acc).Some? && |FirstFrame(read.acc).value.0| == n;
    ProcAnswers(x, Reading(x.w, []), read, [0]);
    var answered := read.(acc := [], stdout := Frame([0]));
    ReadsAnswer(x, answered, [0]);
    Ends(x, answered.(stdout := []), [0], Rendered([0]));
  }
}
