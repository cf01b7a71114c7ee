/** internal/expression/scope.go: from five segment expressions and a candidate list to process IDs. */
module Scope {
  import opened Text
  import opened Decimal
  import opened Parse
  import opened Matching
  import opened Slice
  import opened List2Expr
  import opened Segments
  import opened NameLists

  datatype Scope = Scope(
    environment: string, setName: string, moduleName: string, serviceName: string, processAlias: string,
    processID: string)

  datatype Candidate = Candidate(expression: string, ccProcessID: Uint32)

  function OrDefault(seg: string): string {
    if seg == "" then DEFAULT_SEGMENT else seg
  }

  function SegmentsOf(s: Scope): seq<string> {
    [OrDefault(s.setName), OrDefault(s.moduleName), OrDefault(s.serviceName), OrDefault(s.processAlias),
     OrDefault(s.processID)]
  }

  function GenExpression(s: Scope): string {
    Join(SegmentsOf(s), SPLITTER)
  }

  function JoinProcessExpression(setName: string, moduleName: string, serviceName: string, alias: string, id: string):
    string
  {
    Join([setName, moduleName, serviceName, alias, id], SPLITTER)
  }

  // ---------- ScopeToCcIDs ----------

  function Expressions(candidates: seq<Candidate>): (es: seq<string>)
    ensures |es| == |candidates| && forall i :: 0 <= i < |es| ==> es[i] == candidates[i].expression
  {
    seq(|candidates|, i requires 0 <= i < |candidates| => candidates[i].expression)
  }

  /** The ID of the last candidate with the expression. */
  function LastId(candidates: seq<Candidate>, e: string): Uint32
    requires e in Expressions(candidates)
  {
    var last := |candidates| - 1;
    if candidates[last].expression == e then candidates[last].ccProcessID
    else
      assert Expressions(candidates)[..last] == Expressions(candidates[..last]);
      LastId(candidates[..last], e)
  }

  function IdsOf(candidates: seq<Candidate>, es: seq<string>): seq<Uint32>
    requires forall e :: e in es ==> e in Expressions(candidates)
  {
    seq(|es|, i requires 0 <= i < |es| => LastId(candidates, es[i]))
  }

  /** Kept names come from the list. */
  lemma {:induction false} ListMatchMembers(names: seq<string>, e: string)
    ensures ListMatchResult(names, e).Ok? ==> forall n :: n in ListMatchResult(names, e).value ==> n in names
  {
    if Candidates(e).Ok? && CompileAll(Candidates(e).value).Ok? {
      KeptMembers(names, CompileAll(Candidates(e).value).value);
    }
  }

  lemma {:induction false} KeptMembers(names: seq<string>, regexps: seq<seq<Glob.Token>>)
    ensures forall n :: n in Kept(names, regexps) ==> n in names
  {
    if names != [] {
      KeptMembers(names[..|names| - 1], regexps);
    }
  }

  /** A slice in the ID segment is set aside, and the segment matches everything. */
  function WithoutSlice(s: Scope): Scope {
    if IsSliceExpression(OrDefault(s.processID)) then s.(processID := DEFAULT_SEGMENT) else s
  }

  function SliceOf(s: Scope): string {
    if IsSliceExpression(OrDefault(s.processID)) then s.processID else DEFAULT_SEGMENT
  }

  /** The specification: match the distinct expressions, map each to its last ID, slice the IDs. */
  function ScopeResult(s: Scope, candidates: seq<Candidate>): Result<seq<Uint32>, MatchError> {
    var names := Distinct(Expressions(candidates));
    ListMatchMembers(names, GenExpression(WithoutSlice(s)));
    match ListMatchResult(names, GenExpression(WithoutSlice(s)))
    case Err(error) => Err(error)
    case Ok(matched) => Ok(ExecuteSlice(IdsOf(candidates, matched), SliceOf(s)))
  }

  /** The first step of ScopeToCcIDs: a map from expressions to IDs, and the expressions in order. */
  method IndexCandidates(candidates: seq<Candidate>)
    returns (exprToID: map<string, Uint32>, orderedExprs: seq<string>)
    ensures orderedExprs == Distinct(Expressions(candidates))
    ensures forall e :: e in exprToID <==> e in Expressions(candidates)
    ensures forall e :: e in exprToID ==> exprToID[e] == LastId(candidates, e)
  {
    exprToID, orderedExprs := map[], [];
    for i := 0 to |candidates|
      invariant orderedExprs == Distinct(Expressions(candidates[..i]))
      invariant Indexes(exprToID, candidates[..i])
    {
      var c := candidates[i];
      ExpressionsSnoc(candidates, i);
      if c.expression !in exprToID {
        orderedExprs := orderedExprs + [c.expression];
      }
      IndexesSnoc(exprToID, candidates, i);
      exprToID := exprToID[c.expression := c.ccProcessID];
    }
    assert candidates[..|candidates|] == candidates;
  }

  /** The map leads from each expression to its last ID. */
  ghost predicate Indexes(exprToID: map<string, Uint32>, candidates: seq<Candidate>) {
    && (forall e :: e in exprToID <==> e in Expressions(candidates))
    && (forall e :: e in exprToID ==> exprToID[e] == LastId(candidates, e))
  }

  lemma IndexesSnoc(exprToID: map<string, Uint32>, candidates: seq<Candidate>, i: nat)
    requires i < |candidates| && Indexes(exprToID, candidates[..i])
    ensures Indexes(exprToID[candidates[i].expression := candidates[i].ccProcessID], candidates[..i + 1])
  {
    ExpressionsSnoc(candidates, i);
  }

  lemma ExpressionsSnoc(candidates: seq<Candidate>, i: nat)
    requires i < |candidates|
    ensures candidates[..i + 1][..i] == candidates[..i]
    ensures Expressions(candidates[..i + 1]) == Expressions(candidates[..i]) + [candidates[i].expression]
    ensures Expressions(candidates[..i + 1])[..i] == Expressions(candidates[..i])
  {
  }

  /** The last loop of ScopeToCcIDs: the IDs of the matched expressions. */
  method LookUpIds(exprToID: map<string, Uint32>, matchedExprs: seq<string>) returns (ids: seq<Uint32>)
    requires forall e :: e in matchedExprs ==> e in exprToID
    ensures |ids| == |matchedExprs| && forall i :: 0 <= i < |ids| ==> ids[i] == exprToID[matchedExprs[i]]
  {
    ids := [];
    for i := 0 to |matchedExprs|
      invariant |ids| == i && forall k :: 0 <= k < i ==> ids[k] == exprToID[matchedExprs[k]]
    {
      assert matchedExprs[i] in matchedExprs;
      ids := ids + [exprToID[matchedExprs[i]]];
    }
  }

  method ScopeToCcIDs(scope: Scope, candidates: seq<Candidate>) returns (r: Result<seq<Uint32>, MatchError>)
    requires Returns(Expand(GenExpression(WithoutSlice(scope))))
    ensures r == ScopeResult(scope, candidates)
  {
    var s := scope;
    var exprToID, orderedExprs := IndexCandidates(candidates);
    var sliceExpression := DEFAULT_SEGMENT;
    if IsSliceExpression(OrDefault(s.processID)) {
      sliceExpression := s.processID;
      s := s.(processID := DEFAULT_SEGMENT);
    }
    assert s == WithoutSlice(scope) && sliceExpression == SliceOf(scope);
    var matched := ListMatch(orderedExprs, GenExpression(s));
    ListMatchMembers(orderedExprs, GenExpression(s));
    match matched {
      case Err(error) =>
        return Err(error);
      case Ok(matchedExprs) =>
        var ids := LookUpIds(exprToID, matchedExprs);
        assert ids == IdsOf(candidates, matchedExprs);
        return Ok(ExecuteSlice(ids, sliceExpression));
    }
  }

  /** With a slice in the ID segment the result is that slice of the result for the same scope with "*" there. */
  lemma SliceLaw(s: Scope, candidates: seq<Candidate>)
    ensures IsSliceExpression(OrDefault(s.processID)) ==>
      var all := ScopeResult(s.(processID := DEFAULT_SEGMENT), candidates);
      ScopeResult(s, candidates) ==
        match all { case Err(error) => Err(error) case Ok(ids) => Ok(ExecuteSlice(ids, s.processID)) }
  {
    NoColonNoSlice(DEFAULT_SEGMENT);
  }

  // ---------- What a scope selects ----------

  datatype Process = Process(setName: string, moduleName: string, serviceName: string, alias: string, id: Uint32)

  function FieldsOf(p: Process): seq<string> {
    [p.setName, p.moduleName, p.serviceName, p.alias, Itoa(p.id)]
  }

  /** internal/dal/dao/process_expression.go builds one candidate from each process. */
  function CandidateOf(p: Process): Candidate {
    Candidate(JoinProcessExpression(p.setName, p.moduleName, p.serviceName, p.alias, Itoa(p.id)), p.id)
  }

  function CandidatesOf(ps: seq<Process>): (cs: seq<Candidate>)
    ensures |cs| == |ps| && forall i :: 0 <= i < |ps| ==> cs[i] == CandidateOf(ps[i])
  {
    seq(|ps|, i requires 0 <= i < |ps| => CandidateOf(ps[i]))
  }

  /** Each segment selects its own field of the process. */
  ghost predicate Fits(s: Scope, p: Process) {
    AllSelect(SegmentsOf(s), FieldsOf(p))
  }

  ghost function PickedIds(s: Scope, ps: seq<Process>): seq<Uint32> {
    if ps == [] then []
    else
      var last := |ps| - 1;
      PickedIds(s, ps[..last]) + (if Fits(s, ps[last]) then [ps[last].id] else [])
  }

  predicate FieldsFree(p: Process) {
    SplitterFree(p.setName) && SplitterFree(p.moduleName) && SplitterFree(p.serviceName) && SplitterFree(p.alias)
  }

  predicate ProcessList(ps: seq<Process>) {
    forall p :: p in ps ==> FieldsFree(p)
  }

  lemma FieldsSplitterFree(p: Process)
    requires FieldsFree(p)
    ensures forall f :: f in FieldsOf(p) ==> SplitterFree(f)
  {
    var t := Itoa(p.id);
    forall i: nat | i <= |t|
      ensures !OccursAt(t, i)
    {
      if OccursAt(t, i) {
        OccursChars(t, i, 0);
      }
    }
  }

  lemma ProcessFits(s: Scope, p: Process)
    requires AllWellFormed(SegmentsOf(s)) && FieldsFree(p)
    ensures Selects(GenExpression(s), CandidateOf(p).expression) <==> Fits(s, p)
  {
    FieldsSplitterFree(p);
    SegmentLocality(SegmentsOf(s), FieldsOf(p));
  }

  /** Processes with one expression are the same process. */
  lemma ExpressionsDiffer(p: Process, q: Process)
    requires FieldsFree(p) && FieldsFree(q) && CandidateOf(p).expression == CandidateOf(q).expression
    ensures p == q
  {
    FieldsSplitterFree(p);
    FieldsSplitterFree(q);
    JoinDetermines(FieldsOf(p), FieldsOf(q));
    var f, g := FieldsOf(p), FieldsOf(q);
    assert f[0] == g[0] && f[1] == g[1] && f[2] == g[2] && f[3] == g[3] && f[4] == g[4];
    ItoaInjective(p.id, q.id);
  }

  lemma ExpressionsMember(ps: seq<Process>, p: Process)
    requires ProcessList(ps) && FieldsFree(p)
    ensures CandidateOf(p).expression in Expressions(CandidatesOf(ps)) <==> p in ps
  {
    var es := Expressions(CandidatesOf(ps));
    if CandidateOf(p).expression in es {
      var i :| 0 <= i < |es| && es[i] == CandidateOf(p).expression;
      assert ps[i] in ps;
      ExpressionsDiffer(p, ps[i]);
    }
    if p in ps {
      var i :| 0 <= i < |ps| && ps[i] == p;
      assert es[i] in es;
    }
  }

  lemma DistinctSnoc(xs: seq<string>, x: string)
    ensures Distinct(xs + [x]) == if x in xs then Distinct(xs) else Distinct(xs) + [x]
  {
    assert (xs + [x])[..|xs|] == xs;
  }

  /** The distinct expressions of a process list are those of its distinct processes. */
  lemma {:induction false} DistinctExpressions(ps: seq<Process>)
    requires ProcessList(ps)
    ensures Distinct(Expressions(CandidatesOf(ps))) == Expressions(CandidatesOf(Distinct(ps)))
  {
    if ps != [] {
      var last := |ps| - 1;
      var init, p := ps[..last], ps[last];
      assert ps == init + [p] && p in ps && ProcessList(init);
      ExpressionsOfSnoc(init, p);
      ExpressionsOfSnoc(Distinct(init), p);
      DistinctExpressions(init);
      ExpressionsMember(init, p);
      DistinctSnoc(Expressions(CandidatesOf(init)), CandidateOf(p).expression);
    }
  }

  /** The expression of a process leads back to its ID, whichever of its occurrences is the last. */
  lemma {:induction false} LastIdOfProcess(ps: seq<Process>, p: Process)
    requires ProcessList(ps) && p in ps
    ensures CandidateOf(p).expression in Expressions(CandidatesOf(ps))
    ensures LastId(CandidatesOf(ps), CandidateOf(p).expression) == p.id
  {
    ExpressionsMember(ps, p);
    var last := |ps| - 1;
    assert ps[last] in ps;
    if CandidateOf(ps[last]).expression == CandidateOf(p).expression {
      ExpressionsDiffer(p, ps[last]);
    } else {
      assert ps == ps[..last] + [ps[last]];
      assert CandidatesOf(ps)[..last] == CandidatesOf(ps[..last]);
      LastIdOfProcess(ps[..last], p);
    }
  }

  /** es are expressions of candidates, and ids their IDs. */
  ghost predicate Resolves(candidates: seq<Candidate>, es: seq<string>, ids: seq<Uint32>) {
    (forall e :: e in es ==> e in Expressions(candidates)) && IdsOf(candidates, es) == ids
  }

  lemma ResolvesSnoc(candidates: seq<Candidate>, es: seq<string>, ids: seq<Uint32>, e: string, id: Uint32)
    requires Resolves(candidates, es, ids)
    requires e in Expressions(candidates) && LastId(candidates, e) == id
    ensures Resolves(candidates, es + [e], ids + [id])
  {
  }

  /** The matched expressions of some of the processes, mapped to IDs, are the IDs of those that fit. */
  lemma {:induction false} PickedAreSelected(s: Scope, all: seq<Process>, some: seq<Process>)
    requires ProcessList(all) && AllWellFormed(SegmentsOf(s)) && forall p :: p in some ==> p in all
    ensures Resolves(CandidatesOf(all), Selected(Expressions(CandidatesOf(some)), GenExpression(s)), PickedIds(s, some))
  {
    if some != [] {
      var last := |some| - 1;
      var init, p := some[..last], some[last];
      assert p in some;
      assert forall q :: q in init ==> q in some;
      PickedAreSelected(s, all, init);
      PickedLast(s, all, init, p);
      assert some == init + [p];
    }
  }

  lemma PickedLast(s: Scope, all: seq<Process>, init: seq<Process>, p: Process)
    requires ProcessList(all) && AllWellFormed(SegmentsOf(s)) && p in all
    requires
      Resolves(CandidatesOf(all), Selected(Expressions(CandidatesOf(init)), GenExpression(s)), PickedIds(s, init))
    ensures Resolves(CandidatesOf(all), Selected(Expressions(CandidatesOf(init + [p])), GenExpression(s)),
                     PickedIds(s, init + [p]))
  {
    var names, e, text := Expressions(CandidatesOf(init)), GenExpression(s), CandidateOf(p).expression;
    ExpressionsOfSnoc(init, p);
    SelectedStep(names, text, e);
    PickedStep(s, init, p);
    ProcessFits(s, p);
    LastIdOfProcess(all, p);
    ResolvesSnoc(CandidatesOf(all), Selected(names, e), PickedIds(s, init), text, p.id);
  }

  lemma SelectedStep(names: seq<string>, name: string, e: string)
    ensures Selected(names + [name], e) == if Selects(e, name) then Selected(names, e) + [name] else Selected(names, e)
  {
    assert (names + [name])[..|names|] == names;
  }

  lemma ExpressionsOfSnoc(ps: seq<Process>, p: Process)
    ensures Expressions(CandidatesOf(ps + [p])) == Expressions(CandidatesOf(ps)) + [CandidateOf(p).expression]
  {
  }

  lemma PickedStep(s: Scope, ps: seq<Process>, p: Process)
    ensures PickedIds(s, ps + [p]) == if Fits(s, p) then PickedIds(s, ps) + [p.id] else PickedIds(s, ps)
  {
    assert (ps + [p])[..|ps|] == ps;
  }

  /**
   * A well-formed scope picks, in list order, the IDs of exactly the distinct processes whose fields all fit; a slice
   * in the ID segment is then applied to those.
   */
  lemma ScopePicks(s: Scope, ps: seq<Process>)
    requires AllWellFormed(SegmentsOf(WithoutSlice(s))) && ProcessList(ps)
    ensures ScopeResult(s, CandidatesOf(ps)) == Ok(ExecuteSlice(PickedIds(WithoutSlice(s), Distinct(ps)), SliceOf(s)))
  {
    var whole := WithoutSlice(s);
    DistinctExpressions(ps);
    JoinCompiles(SegmentsOf(whole));
    ListMatchIsSelected(Expressions(CandidatesOf(Distinct(ps))), GenExpression(whole));
    PickedAreSelected(whole, ps, Distinct(ps));
  }

  /** The scope with nothing restricted in the ID segment. */
  function AnyId(s: Scope): Scope {
    s.(processID := DEFAULT_SEGMENT)
  }

  /**
   * If the ID segment shows two bounds in brackets, the scope picks, of the processes the other segments fit, those at
   * the positions between the bounds; if another slice text follows in the segment, all of them.
   */
  lemma ScopeSlices(
      s: Scope, ps: seq<Process>, bt: string, begin: Option<int>, u: string, v: string, et: string, end: Option<int>,
      rest: string)
    requires AllWellFormed(SegmentsOf(AnyId(s))) && ProcessList(ps)
    requires Shows(bt, begin) && MaybeBlank(u) && MaybeBlank(v) && Shows(et, end)
    requires s.processID == SliceText(bt, u, v, et) + rest
    ensures var all := PickedIds(AnyId(s), Distinct(ps));
      ScopeResult(s, CandidatesOf(ps)) ==
        Ok(if HoldsSlice(rest) then all else ItemsInSlice(all, |all|, Fitting(begin), Fitting(end)))
  {
    var all := PickedIds(AnyId(s), Distinct(ps));
    SliceTextSlices(all, bt, begin, u, v, et, end, rest);
    assert s.processID != "" && WithoutSlice(s) == AnyId(s) && SliceOf(s) == s.processID;
    ScopePicks(s, ps);
  }

  // ---------- Printed scopes ----------

  /** Five lists of wanted values; an empty list stands for no restriction. */
  datatype Wanted = Wanted(
    sets: seq<string>, modules: seq<string>, services: seq<string>, aliases: seq<string>, ids: seq<Uint32>)

  /** The scope the operate-range migration writes for five lists. */
  function PrintedScope(w: Wanted): Scope {
    Scope("", NamesExpression(w.sets), NamesExpression(w.modules), NamesExpression(w.services),
          NamesExpression(w.aliases), IdsExpression(w.ids))
  }

  /** Lists of plain names that print without loss: not read as ranges among others, and not just "". */
  predicate NamesOk(values: seq<string>) {
    (forall v :: v in values ==> PlainName(v)) && (values == [] || KeepsSegment(values))
  }

  /** What a list must hold so that its segment selects exactly the names listed. */
  predicate KeepsSegment(values: seq<string>) {
    Distinct(values) != [""] && KeepsNames(values)
  }

  predicate WantedOk(w: Wanted) {
    NamesOk(w.sets) && NamesOk(w.modules) && NamesOk(w.services) && NamesOk(w.aliases)
  }

  predicate NameWanted(values: seq<string>, name: string) {
    values == [] || name in values
  }

  predicate ProcessWanted(w: Wanted, p: Process) {
    NameWanted(w.sets, p.setName) && NameWanted(w.modules, p.moduleName) && NameWanted(w.services, p.serviceName)
    && NameWanted(w.aliases, p.alias) && (w.ids == [] || p.id in w.ids)
  }

  function WantedIds(w: Wanted, ps: seq<Process>): seq<Uint32> {
    if ps == [] then []
    else
      var last := |ps| - 1;
      WantedIds(w, ps[..last]) + (if ProcessWanted(w, ps[last]) then [ps[last].id] else [])
  }

  lemma NamesNotEmpty(values: seq<string>)
    ensures NamesExpression(values) == "" <==> Distinct(values) == [""]
  {
  }

  /**
   * As a segment of a scope, a printed list selects exactly the names listed under one condition, which is exact for
   * the same lists as NamesRoundTripExactly.
   */
  lemma SegmentRoundTripExactly(values: seq<string>)
    requires values != []
    requires |Distinct(values)| == 1 || BracketFree(values) || TameNames(values)
    ensures (forall name :: Selects(OrDefault(NamesExpression(values)), name) <==> name in values) <==>
      KeepsSegment(values)
  {
    NamesNotEmpty(values);
    if Distinct(values) == [""] {
      EmptySelectsMore(values);
    } else {
      NamesRoundTripExactly(values);
      assert Lossless(values) <==> KeepsNames(values);
    }
  }

  /** And Match on the segment answers yes exactly for the names listed under that condition, for the same lists. */
  lemma SegmentMatchExactly(values: seq<string>)
    requires values != []
    requires |Distinct(values)| == 1 || BracketFree(values) || TameNames(values)
    ensures (forall name :: MatchResult(name, OrDefault(NamesExpression(values))) == Ok(name in values)) <==>
      KeepsSegment(values)
  {
    NamesNotEmpty(values);
    if Distinct(values) == [""] {
      EmptySelectsMore(values);
      StarSelects("a");
      WellFormedMatch("a", DEFAULT_SEGMENT);
    } else {
      NamesMatchExactly(values);
      assert MatchesList(values) <==> KeepsNames(values);
    }
  }

  lemma EmptySelectsMore(values: seq<string>)
    requires Distinct(values) == [""]
    ensures Selects(OrDefault(NamesExpression(values)), "a") && "a" !in values
  {
    StarSelects("a");
    assert "a" in values <==> "a" in Distinct(values);
  }

  lemma NamesSegment(values: seq<string>, name: string)
    requires NamesOk(values)
    ensures SegmentMeans(NamesExpression(values), name, NameWanted(values, name))
  {
    NamesWellFormed(values);
    NamesNotEmpty(values);
    if values == [] {
      StarSelects(name);
    } else {
      NamesSelect(values, name);
    }
  }

  /** A segment that is not empty and well formed, and selects the text exactly if it is wanted. */
  ghost predicate SegmentMeans(e: string, text: string, wanted: bool) {
    e != "" && WellFormed(e) && (Selects(e, text) <==> wanted)
  }

  lemma IdsSegment(ids: seq<Uint32>, id: Uint32)
    ensures SegmentMeans(IdsExpression(ids), Itoa(id), ids == [] || id in ids)
    ensures !IsSliceExpression(IdsExpression(ids))
  {
    IdsWellFormed(ids);
    NoColonNoSlice(IdsExpression(ids));
    if ids == [] {
      StarSelects(Itoa(id));
    } else {
      IdsRoundTrip(ids, Itoa(id));
      if other :| other in ids && Itoa(id) == Itoa(other) {
        ItoaInjective(id, other);
      }
    }
  }

  lemma PrintedFits(w: Wanted, p: Process)
    requires WantedOk(w)
    ensures var s := PrintedScope(w);
      WithoutSlice(s) == s && SliceOf(s) == DEFAULT_SEGMENT && AllWellFormed(SegmentsOf(s))
      && (Fits(s, p) <==> ProcessWanted(w, p))
  {
    NamesSegment(w.sets, p.setName);
    NamesSegment(w.modules, p.moduleName);
    NamesSegment(w.services, p.serviceName);
    NamesSegment(w.aliases, p.alias);
    IdsSegment(w.ids, p.id);
    FiveSegments(PrintedScope(w), FieldsOf(p));
  }

  lemma FiveSegments(s: Scope, fs: seq<string>)
    requires |fs| == 5
    requires s.setName != "" && s.moduleName != "" && s.serviceName != "" && s.processAlias != "" && s.processID != ""
    ensures AllWellFormed(SegmentsOf(s)) <==>
      WellFormed(s.setName) && WellFormed(s.moduleName) && WellFormed(s.serviceName) && WellFormed(s.processAlias)
      && WellFormed(s.processID)
    ensures AllSelect(SegmentsOf(s), fs) <==>
      Selects(s.setName, fs[0]) && Selects(s.moduleName, fs[1]) && Selects(s.serviceName, fs[2])
      && Selects(s.processAlias, fs[3]) && Selects(s.processID, fs[4])
  {
    FiveParts(s);
    FiveSelect(SegmentsOf(s), fs);
    FiveWellFormed(SegmentsOf(s));
  }

  lemma FiveParts(s: Scope)
    requires s.setName != "" && s.moduleName != "" && s.serviceName != "" && s.processAlias != "" && s.processID != ""
    ensures var gs := SegmentsOf(s);
      && |gs| == 5 && gs[0] == s.setName && gs[1] == s.moduleName && gs[2] == s.serviceName
      && gs[3] == s.processAlias && gs[4] == s.processID
  {
  }

  lemma FiveWellFormed(gs: seq<string>)
    requires |gs| == 5
    ensures AllWellFormed(gs) <==>
      WellFormed(gs[0]) && WellFormed(gs[1]) && WellFormed(gs[2]) && WellFormed(gs[3]) && WellFormed(gs[4])
  {
    assert gs == [gs[0], gs[1], gs[2], gs[3], gs[4]];
  }

  lemma FiveSelect(gs: seq<string>, fs: seq<string>)
    requires |gs| == |fs| == 5
    ensures AllSelect(gs, fs) <==>
      Selects(gs[0], fs[0]) && Selects(gs[1], fs[1]) && Selects(gs[2], fs[2]) && Selects(gs[3], fs[3])
      && Selects(gs[4], fs[4])
  {
  }

  lemma {:induction false} PrintedPicks(w: Wanted, ps: seq<Process>)
    requires WantedOk(w)
    ensures PickedIds(PrintedScope(w), ps) == WantedIds(w, ps)
  {
    if ps != [] {
      PrintedPicks(w, ps[..|ps| - 1]);
      PrintedFits(w, ps[|ps| - 1]);
    }
  }

  /**
   * End to end: printing five lists as a scope and running the scope over a process list picks exactly the distinct
   * processes whose names and IDs are in the lists, in list order.
   */
  lemma PrintedScopePicksWanted(w: Wanted, ps: seq<Process>)
    requires WantedOk(w) && ProcessList(ps)
    ensures ScopeResult(PrintedScope(w), CandidatesOf(ps)) == Ok(WantedIds(w, Distinct(ps)))
  {
    PrintedFits(w, Process("", "", "", "", 0));
    ScopePicks(PrintedScope(w), ps);
    PrintedPicks(w, Distinct(ps));
    NoSlice(WantedIds(w, Distinct(ps)));
  }

  lemma NoSlice(ids: seq<Uint32>)
    ensures ExecuteSlice(ids, DEFAULT_SEGMENT) == ids
  {
    NoColonNoSlice(DEFAULT_SEGMENT);
  }

  /** A list holding only the empty name prints as an empty segment, which then selects every name. */
  lemma EmptyNameSelectsAll(name: string)
    ensures NamesExpression([""]) == "" && Selects(OrDefault(NamesExpression([""])), name)
  {
    StarSelects(name);
    assert [""][..0] == [];
    assert Distinct([""]) == [""];
  }
}
