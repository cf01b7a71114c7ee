/** internal/expression/scope.go: why matching the joined text is the same as matching field by field. */
module Segments {
  import opened Text
  import opened Glob
  import opened GoRegex
  import opened Parse
  import opened Matching

  const SPLITTER := "<-GSEKIT->"

  predicate OccursAt(s: string, i: nat) {
    i + |SPLITTER| <= |s| && s[i..i + |SPLITTER|] == SPLITTER
  }

  predicate SplitterFree(s: string) {
    forall i: nat :: i <= |s| ==> !OccursAt(s, i)
  }

  lemma OccursChars(s: string, i: nat, k: nat)
    requires OccursAt(s, i) && k < |SPLITTER|
    ensures s[i + k] == SPLITTER[k]
  {
    assert s[i..i + |SPLITTER|][k] == s[i + k];
  }

  /** The splitter has no border, so two occurrences never overlap. */
  lemma NoOverlap(s: string, i: nat, j: nat)
    requires OccursAt(s, i) && OccursAt(s, j) && i < j
    ensures i + |SPLITTER| <= j
  {
    OccursChars(s, j, 0);
    if j < i + |SPLITTER| {
      OccursChars(s, i, j - i);
    }
  }

  // ---------- The joined text determines its fields ----------

  lemma JoinHead(parts: seq<string>)
    requires |parts| > 1
    ensures Join(parts, SPLITTER) == parts[0] + (SPLITTER + Join(parts[1..], SPLITTER))
    ensures OccursAt(Join(parts, SPLITTER), |parts[0]|)
  {
    var rest := Join(parts[1..], SPLITTER);
    Reassociate(parts[0], SPLITTER, rest);
    var s := parts[0] + (SPLITTER + rest);
    assert s[|parts[0]|..|parts[0]| + |SPLITTER|] == SPLITTER;
  }

  /** The first splitter of a joined text follows its first field, if that field has none. */
  lemma FirstOccurrence(parts: seq<string>, i: nat)
    requires |parts| > 1 && SplitterFree(parts[0]) && OccursAt(Join(parts, SPLITTER), i)
    ensures i >= |parts[0]|
  {
    var s, f := Join(parts, SPLITTER), parts[0];
    JoinHead(parts);
    if i < |f| {
      if i + |SPLITTER| <= |f| {
        assert f[i..i + |SPLITTER|] == s[i..i + |SPLITTER|];
        assert OccursAt(f, i);
      } else {
        NoOverlap(s, i, |f|);
      }
    }
  }

  /** Fields without splitters are recovered from the joined text; any other split of it has fewer parts. */
  lemma {:induction false} JoinDetermines(xs: seq<string>, fs: seq<string>)
    requires xs != [] && fs != [] && forall f :: f in fs ==> SplitterFree(f)
    requires Join(xs, SPLITTER) == Join(fs, SPLITTER)
    ensures |xs| <= |fs| && (|xs| == |fs| ==> xs == fs)
    decreases |fs|
  {
    var s := Join(fs, SPLITTER);
    assert fs[0] in fs;
    if |xs| == 1 {
      if |fs| == 1 {
        assert xs == [xs[0]] && fs == [fs[0]];
      }
    } else {
      JoinHead(xs);
      assert OccursAt(s, |xs[0]|);
      if |fs| > 1 {
        JoinHead(fs);
        FirstOccurrence(fs, |xs[0]|);
        if |xs[0]| == |fs[0]| {
          SamePrefix(xs[0], Join(xs[1..], SPLITTER), fs[0], Join(fs[1..], SPLITTER));
          JoinDetermines(xs[1..], fs[1..]);
          assert xs == [xs[0]] + xs[1..] && fs == [fs[0]] + fs[1..];
        } else {
          NoOverlap(s, |fs[0]|, |xs[0]|);
          var shorter := ShiftFirst(xs, fs);
          JoinDetermines(shorter, fs[1..]);
        }
      }
    }
  }

  lemma SamePrefix(x: string, xr: string, f: string, fr: string)
    requires |x| == |f| && x + (SPLITTER + xr) == f + (SPLITTER + fr)
    ensures x == f && xr == fr
  {
    var s := x + (SPLITTER + xr);
    assert s[..|x|] == x && s[..|f|] == f;
    assert s[|x| + |SPLITTER|..] == xr && s[|f| + |SPLITTER|..] == fr;
  }

  /** Drop the first field and its splitter from a split whose first part runs past them. */
  lemma ShiftFirst(xs: seq<string>, fs: seq<string>) returns (shorter: seq<string>)
    requires |xs| > 1 && |fs| > 1 && Join(xs, SPLITTER) == Join(fs, SPLITTER)
    requires |fs[0]| + |SPLITTER| <= |xs[0]|
    ensures |shorter| == |xs| && Join(shorter, SPLITTER) == Join(fs[1..], SPLITTER)
  {
    JoinHead(xs);
    JoinHead(fs);
    var n := |fs[0]| + |SPLITTER|;
    var s := Join(fs, SPLITTER);
    assert s[n..] == Join(fs[1..], SPLITTER);
    assert s[n..] == xs[0][n..] + (SPLITTER + Join(xs[1..], SPLITTER));
    shorter := [xs[0][n..]] + xs[1..];
    assert shorter[1..] == xs[1..];
    JoinHead(shorter);
  }

  // ---------- Matching a joined pattern ----------

  /** A pattern that closes its classes and compiles. */
  predicate Solid(pat: string) {
    Closed(pat) && Tokens(pat).Ok?
  }

  lemma FnmatchConcat(a: string, b: string, s: string)
    requires Solid(a) && Solid(b)
    ensures Solid(a + b)
    ensures Fnmatch(a + b, s) <==> exists k :: 0 <= k <= |s| && Fnmatch(a, s[..k]) && Fnmatch(b, s[k..])
  {
    TokensOfConcat(a, b);
    ClosedConcat(a, b);
    TokensMeanFnmatch(a + b, s);
    MatchesConcat(Tokens(a).value, Tokens(b).value, s);
    forall k | 0 <= k <= |s|
      ensures Matches(Tokens(a).value, s[..k]) <==> Fnmatch(a, s[..k])
      ensures Matches(Tokens(b).value, s[k..]) <==> Fnmatch(b, s[k..])
    {
      TokensMeanFnmatch(a, s[..k]);
      TokensMeanFnmatch(b, s[k..]);
    }
  }

  lemma SplitterPlain()
    ensures IsPlain(SPLITTER) && Solid(SPLITTER) && '[' !in SPLITTER
  {
    SplitterChars();
    PlainTokens(SPLITTER);
  }

  lemma SplitterChars()
    ensures IsPlain(SPLITTER) && '[' !in SPLITTER
  {
  }

  /** A pattern that starts with the splitter matches exactly the texts that do. */
  lemma FnmatchSplitter(b: string, s: string)
    requires Solid(b)
    ensures Solid(SPLITTER + b)
    ensures Fnmatch(SPLITTER + b, s) <==> OccursAt(s, 0) && Fnmatch(b, s[|SPLITTER|..])
  {
    SplitterPlain();
    FnmatchConcat(SPLITTER, b, s);
    forall k | 0 <= k <= |s|
      ensures Fnmatch(SPLITTER, s[..k]) <==> k == |SPLITTER| && OccursAt(s, 0)
    {
      PlainMatchesItself(SPLITTER, s[..k]);
      assert k == |SPLITTER| ==> s[..k] == s[0..0 + |SPLITTER|];
    }
  }

  /** Part by part, each pattern matches its text. */
  ghost predicate AllMatch(cs: seq<string>, xs: seq<string>) {
    |cs| == |xs| && forall i :: 0 <= i < |cs| ==> Fnmatch(cs[i], xs[i])
  }

  predicate AllSolid(cs: seq<string>) {
    forall i :: 0 <= i < |cs| ==> Solid(cs[i])
  }

  lemma {:induction false} JoinSolid(cs: seq<string>)
    requires cs != [] && AllSolid(cs)
    ensures Solid(Join(cs, SPLITTER))
  {
    if |cs| > 1 {
      JoinSolid(cs[1..]);
      JoinHead(cs);
      FnmatchSplitter(Join(cs[1..], SPLITTER), "");
      FnmatchConcat(cs[0], SPLITTER + Join(cs[1..], SPLITTER), "");
    }
  }

  /** A joined pattern matches only texts that split into parts its members match. */
  lemma {:induction false} JoinMatchSplits(cs: seq<string>, s: string) returns (xs: seq<string>)
    requires cs != [] && AllSolid(cs) && Fnmatch(Join(cs, SPLITTER), s)
    ensures AllMatch(cs, xs) && Join(xs, SPLITTER) == s
  {
    if |cs| == 1 {
      xs := [s];
    } else {
      var rest := Join(cs[1..], SPLITTER);
      JoinSolid(cs[1..]);
      JoinHead(cs);
      FnmatchSplitter(rest, "");
      FnmatchConcat(cs[0], SPLITTER + rest, s);
      var k :| 0 <= k <= |s| && Fnmatch(cs[0], s[..k]) && Fnmatch(SPLITTER + rest, s[k..]);
      var t := s[k..];
      FnmatchSplitter(rest, t);
      var ys := JoinMatchSplits(cs[1..], t[|SPLITTER|..]);
      xs := [s[..k]] + ys;
      assert xs[1..] == ys;
      AllMatchCons(cs, xs);
      JoinHead(xs);
      SplitAtSplitter(s, k);
    }
  }

  lemma AllMatchCons(cs: seq<string>, xs: seq<string>)
    requires cs != [] && |cs| == |xs| && Fnmatch(cs[0], xs[0]) && AllMatch(cs[1..], xs[1..])
    ensures AllMatch(cs, xs)
  {
    forall i | 0 <= i < |cs|
      ensures Fnmatch(cs[i], xs[i])
    {
      if i > 0 {
        assert cs[1..][i - 1] == cs[i] && xs[1..][i - 1] == xs[i];
      }
    }
  }

  lemma SplitAtSplitter(s: string, k: nat)
    requires k <= |s| && OccursAt(s[k..], 0)
    ensures s == s[..k] + (SPLITTER + s[k..][|SPLITTER|..])
  {
    var t := s[k..];
    assert t == t[0..0 + |SPLITTER|] + t[|SPLITTER|..];
  }

  /** Texts matched part by part are matched when joined. */
  lemma {:induction false} JoinMatches(cs: seq<string>, xs: seq<string>)
    requires cs != [] && AllSolid(cs) && AllMatch(cs, xs)
    ensures Fnmatch(Join(cs, SPLITTER), Join(xs, SPLITTER))
  {
    if |cs| > 1 {
      var rest, s := Join(cs[1..], SPLITTER), Join(xs, SPLITTER);
      JoinSolid(cs[1..]);
      JoinMatches(cs[1..], xs[1..]);
      JoinHead(cs);
      JoinHead(xs);
      var k := |xs[0]|;
      var t := SPLITTER + Join(xs[1..], SPLITTER);
      assert s[..k] == xs[0] && s[k..] == t;
      assert t[|SPLITTER|..] == Join(xs[1..], SPLITTER) && t[0..0 + |SPLITTER|] == SPLITTER;
      FnmatchSplitter(rest, t);
      FnmatchConcat(cs[0], SPLITTER + rest, s);
    }
  }

  // ---------- Expanding a joined expression ----------

  /** One candidate from each expression. */
  ghost predicate Chosen(gs: seq<string>, cs: seq<string>) {
    |cs| == |gs| && forall i :: 0 <= i < |gs| ==> Expand(gs[i]).Ok? && cs[i] in Expand(gs[i]).value
  }

  predicate AllWellFormed(gs: seq<string>) {
    forall i :: 0 <= i < |gs| ==> WellFormed(gs[i])
  }

  lemma ExpandSplitter(b: string)
    ensures Expand(SPLITTER + b) == ProductWith([SPLITTER], Expand(b))
  {
    SplitterPlain();
    ExpandAfterText(SPLITTER, b);
  }

  lemma ExpandJoinStep(g: string, rest: string, c: string)
    requires Expand(g).Ok? && Expand(rest).Ok?
    ensures Expand(g + (SPLITTER + rest)).Ok?
    ensures c in Expand(g + (SPLITTER + rest)).value <==>
      exists x, y :: x in Expand(g).value && y in Expand(rest).value && c == x + (SPLITTER + y)
  {
    ExpandSplitter(rest);
    ExpandConcat(g, SPLITTER + rest);
    var xs, ys := Expand(g).value, Expand(rest).value;
    var zs := Product([SPLITTER], ys);
    ProductMember(xs, zs, c);
    if x, z :| x in xs && z in zs && c == x + z {
      ProductMember([SPLITTER], ys, z);
    }
    if x, y :| x in xs && y in ys && c == x + (SPLITTER + y) {
      ProductMember([SPLITTER], ys, SPLITTER + y);
    }
  }

  /** The candidates of a joined expression are the joined choices of one candidate from each segment. */
  lemma {:induction false} ExpandJoin(gs: seq<string>, c: string) returns (cs: seq<string>)
    requires gs != [] && AllWellFormed(gs)
    ensures Expand(Join(gs, SPLITTER)).Ok?
    ensures c in Expand(Join(gs, SPLITTER)).value ==> Chosen(gs, cs) && c == Join(cs, SPLITTER)
  {
    WellFormedCompiles(gs[0], "");
    cs := [c];
    if |gs| > 1 {
      var rest := Join(gs[1..], SPLITTER);
      var ignored := ExpandJoin(gs[1..], "");
      JoinHead(gs);
      ExpandJoinStep(gs[0], rest, c);
      if c in Expand(Join(gs, SPLITTER)).value {
        var x, y :| x in Expand(gs[0]).value && y in Expand(rest).value && c == x + (SPLITTER + y);
        var ys := ExpandJoin(gs[1..], y);
        cs := [x] + ys;
        assert cs[1..] == ys;
        forall i | 0 <= i < |gs|
          ensures Expand(gs[i]).Ok? && cs[i] in Expand(gs[i]).value
        {
          if i > 0 {
            assert gs[1..][i - 1] == gs[i] && ys[i - 1] == cs[i];
          }
        }
        JoinHead(cs);
      }
    }
  }

  lemma {:induction false} JoinOfChosen(gs: seq<string>, cs: seq<string>)
    requires gs != [] && AllWellFormed(gs) && Chosen(gs, cs)
    ensures Expand(Join(gs, SPLITTER)).Ok? && Join(cs, SPLITTER) in Expand(Join(gs, SPLITTER)).value
  {
    if |gs| > 1 {
      var rest := Join(gs[1..], SPLITTER);
      JoinOfChosen(gs[1..], cs[1..]);
      JoinHead(gs);
      JoinHead(cs);
      ExpandJoinStep(gs[0], rest, Join(cs, SPLITTER));
    }
  }

  lemma ChosenSolid(gs: seq<string>, cs: seq<string>)
    requires AllWellFormed(gs) && Chosen(gs, cs)
    ensures AllSolid(cs)
  {
    forall i | 0 <= i < |cs|
      ensures Solid(cs[i])
    {
      WellFormedCompiles(gs[i], cs[i]);
    }
  }

  /** Every candidate of a joined well-formed expression compiles. */
  lemma JoinCompiles(gs: seq<string>)
    requires gs != [] && AllWellFormed(gs)
    ensures Expand(Join(gs, SPLITTER)).Ok?
    ensures forall c :: c in Expand(Join(gs, SPLITTER)).value ==> Compiles(c)
  {
    var ignored := ExpandJoin(gs, "");
    forall c | c in Expand(Join(gs, SPLITTER)).value
      ensures Compiles(c)
    {
      var cs := ExpandJoin(gs, c);
      ChosenSolid(gs, cs);
      JoinSolid(cs);
      ClosedNoName(c);
    }
  }

  // ---------- Segment locality ----------

  ghost predicate AllSelect(gs: seq<string>, fs: seq<string>) {
    |gs| == |fs| && forall i :: 0 <= i < |gs| ==> Selects(gs[i], fs[i])
  }

  ghost function Choice(g: string, f: string): (c: string)
    requires Selects(g, f)
    ensures c in Expand(g).value && Fnmatch(c, f)
  {
    var c :| c in Expand(g).value && Fnmatch(c, f);
    c
  }

  /**
   * Segment locality: for well-formed segments and fields free of the splitter, the joined expression selects the
   * joined fields exactly when each segment selects its own field, whatever wildcards the segments hold.
   */
  lemma SegmentLocality(gs: seq<string>, fs: seq<string>)
    requires gs != [] && |fs| == |gs| && AllWellFormed(gs)
    requires forall f :: f in fs ==> SplitterFree(f)
    ensures Selects(Join(gs, SPLITTER), Join(fs, SPLITTER)) <==> AllSelect(gs, fs)
  {
    var e, s := Join(gs, SPLITTER), Join(fs, SPLITTER);
    if Selects(e, s) {
      var cs := ExpandJoin(gs, Choice(e, s));
      ChosenSolid(gs, cs);
      var xs := JoinMatchSplits(cs, s);
      JoinDetermines(xs, fs);
    }
    if AllSelect(gs, fs) {
      var cs := seq(|gs|, i requires 0 <= i < |gs| => Choice(gs[i], fs[i]));
      ChosenSolid(gs, cs);
      JoinOfChosen(gs, cs);
      JoinMatches(cs, fs);
    }
  }

  /** Fields that hold the splitter can be misread: the first field here is not what the first segment asks for. */
  lemma SplitterInFieldMisreads()
    ensures var gs, fs := ["a", "*"], ["a" + SPLITTER + "b", "c"];
      Selects(Join(gs, SPLITTER), Join(fs, SPLITTER)) && !Selects(gs[0], fs[0])
  {
    var gs, fs, xs := ["a", "*"], ["a" + SPLITTER + "b", "c"], ["a", "b" + SPLITTER + "c"];
    PlainMatchesItself("a", "a");
    PlainMatchesItself("a", fs[0]);
    StarSelects(xs[1]);
    FirstBlockParts("a");
    FirstBlockParts("*");
    assert Expand("a") == Ok(["a"]) && Expand("*") == Ok(["*"]);
    assert AllMatch(gs, xs);
    ChosenSolid(gs, gs);
    JoinOfChosen(gs, gs);
    JoinMatches(gs, xs);
    JoinHead(xs);
    JoinHead(fs);
    Reassociate("a", SPLITTER, "b" + (SPLITTER + "c"));
    Reassociate("a" + SPLITTER, "b", SPLITTER + "c");
    Reassociate("b", SPLITTER, "c");
    assert xs[1..] == [xs[1]] && fs[1..] == [fs[1]];
  }

  /** The default segment selects every field. */
  lemma StarSelects(f: string)
    ensures Fnmatch("*", f) && Selects("*", f) && WellFormed("*")
  {
    assert "*"[1..] == "" && f[|f|..] == "";
    assert Fnmatch("*"[1..], f[|f|..]);
    FirstBlockParts("*");
    assert Expand("*") == Ok(["*"]);
    assert "*" in Expand("*").value;
  }

  // ---------- The exact condition on fields ----------

  /** Joined segments select the joined fields exactly when each selects its own, for all well-formed segments. */
  ghost predicate Local(fs: seq<string>)
    requires fs != []
  {
    forall gs :: |gs| == |fs| && AllWellFormed(gs) ==>
      (Selects(Join(gs, SPLITTER), Join(fs, SPLITTER)) <==> AllSelect(gs, fs))
  }

  /** A pattern that matches the texts of length n. */
  function Questions(n: nat): (q: string)
    ensures |q| == n && forall i :: 0 <= i < n ==> q[i] == '?'
  {
    seq(n, i => '?')
  }

  lemma {:induction false} QuestionsMatch(n: nat, s: string)
    ensures Fnmatch(Questions(n), s) <==> |s| == n
  {
    if n > 0 {
      assert Questions(n)[1..] == Questions(n - 1);
      if s != "" {
        QuestionsMatch(n - 1, s[1..]);
      }
    }
  }

  lemma QuestionsSelect(n: nat, f: string)
    ensures Expand(Questions(n)) == Ok([Questions(n)]) && WellFormed(Questions(n))
    ensures Selects(Questions(n), f) <==> |f| == n
  {
    FirstBlockParts(Questions(n));
    QuestionsMatch(n, f);
    assert Questions(n) in [Questions(n)];
  }

  /** Stars, but for one segment that asks for n characters. */
  function StarsBut(size: nat, j: nat, n: nat): (gs: seq<string>)
    ensures |gs| == size && forall i :: 0 <= i < size ==> gs[i] == if i == j then Questions(n) else "*"
  {
    seq(size, i => if i == j then Questions(n) else "*")
  }

  lemma StarsButChosen(size: nat, j: nat, n: nat)
    ensures var gs := StarsBut(size, j, n); AllWellFormed(gs) && Chosen(gs, gs)
  {
    var gs := StarsBut(size, j, n);
    QuestionsSelect(n, "");
    StarSelects("");
    assert Expand("*") == Ok(["*"]) by {
      FirstBlockParts("*");
    }
    forall i | 0 <= i < size
      ensures WellFormed(gs[i]) && Expand(gs[i]) == Ok([gs[i]]) && gs[i] in [gs[i]]
    {
    }
  }

  /** If the joined text splits in another way, with a part of another length, segments can tell the splits apart. */
  lemma OtherSplitMisread(fs: seq<string>, xs: seq<string>, j: nat)
    requires |xs| == |fs| && j < |fs| && Join(xs, SPLITTER) == Join(fs, SPLITTER) && |xs[j]| != |fs[j]|
    ensures !Local(fs)
  {
    var gs := StarsBut(|fs|, j, |xs[j]|);
    StarsButChosen(|fs|, j, |xs[j]|);
    forall i | 0 <= i < |gs|
      ensures Fnmatch(gs[i], xs[i])
    {
      QuestionsMatch(|xs[j]|, xs[i]);
      StarSelects(xs[i]);
    }
    ChosenSolid(gs, gs);
    JoinOfChosen(gs, gs);
    JoinMatches(gs, xs);
    QuestionsSelect(|xs[j]|, fs[j]);
    assert Selects(Join(gs, SPLITTER), Join(fs, SPLITTER)) && !Selects(gs[j], fs[j]);
  }

  /** The boundary between two neighbouring fields can be moved to another splitter of their text. */
  lemma {:induction false} MoveBoundary(fs: seq<string>, i: nat, a: string, b: string)
    requires i + 1 < |fs| && a + (SPLITTER + b) == fs[i] + (SPLITTER + fs[i + 1])
    ensures Join(fs[i := a][i + 1 := b], SPLITTER) == Join(fs, SPLITTER)
  {
    var xs := fs[i := a][i + 1 := b];
    JoinHead(fs);
    JoinHead(xs);
    if i > 0 {
      assert xs[1..] == fs[1..][i - 1 := a][i := b];
      MoveBoundary(fs[1..], i - 1, a, b);
    } else if |fs| == 2 {
      assert xs[1..] == [b] && fs[1..] == [fs[1]];
    } else {
      JoinHead(fs[1..]);
      JoinHead(xs[1..]);
      assert xs[1..][1..] == fs[1..][1..];
      Unnest(a, b, SPLITTER + Join(fs[1..][1..], SPLITTER));
      Unnest(fs[0], fs[1], SPLITTER + Join(fs[1..][1..], SPLITTER));
    }
  }

  lemma Unnest(a: string, b: string, c: string)
    ensures a + (SPLITTER + (b + c)) == (a + (SPLITTER + b)) + c
  {
    Reassociate(SPLITTER, b, c);
    Reassociate(a, SPLITTER + b, c);
  }

  lemma SplitAround(f: string, k: nat)
    requires OccursAt(f, k)
    ensures var u, v := f[..k], f[k + |SPLITTER|..]; f == u + (SPLITTER + v)
  {
    assert f[k..] == f[k..k + |SPLITTER|] + f[k + |SPLITTER|..];
    assert f == f[..k] + f[k..];
  }

  lemma SplitterMisread(fs: seq<string>, i: nat, k: nat)
    requires |fs| >= 2 && i < |fs| && OccursAt(fs[i], k)
    ensures !Local(fs)
  {
    var u, v := fs[i][..k], fs[i][k + |SPLITTER|..];
    SplitAround(fs[i], k);
    if i + 1 < |fs| {
      var b := v + (SPLITTER + fs[i + 1]);
      Unnest(u, v, SPLITTER + fs[i + 1]);
      MoveBoundary(fs, i, u, b);
      OtherSplitMisread(fs, fs[i := u][i + 1 := b], i);
    } else {
      var a := fs[i - 1] + (SPLITTER + u);
      Unnest(fs[i - 1], u, SPLITTER + v);
      MoveBoundary(fs, i - 1, a, v);
      OtherSplitMisread(fs, fs[i - 1 := a][i := v], i);
    }
  }

  /** Two or more fields are told apart by all well-formed segments exactly when none of them holds the splitter. */
  lemma LocalityExactly(fs: seq<string>)
    requires |fs| >= 2
    ensures Local(fs) <==> forall f :: f in fs ==> SplitterFree(f)
  {
    if forall f :: f in fs ==> SplitterFree(f) {
      forall gs | |gs| == |fs| && AllWellFormed(gs)
        ensures Selects(Join(gs, SPLITTER), Join(fs, SPLITTER)) <==> AllSelect(gs, fs)
      {
        SegmentLocality(gs, fs);
      }
    } else {
      var f :| f in fs && !SplitterFree(f);
      var i :| 0 <= i < |fs| && fs[i] == f;
      var k: nat :| k <= |f| && OccursAt(f, k);
      SplitterMisread(fs, i, k);
    }
  }
}
