/** internal/expression/list2expr.go: printing lists of names and process IDs as expressions. */
module List2Expr {
  import opened Text
  import opened Decimal
  import opened Glob
  import opened GoRegex
  import opened RangeRegex
  import opened Parse
  import opened Matching
  import opened Compression

  type Uint32 = n: nat | n < 0x1_0000_0000 witness 0

  const DEFAULT_SEGMENT := "*"

  // ---------- sort.Strings ----------

  function InsertString(x: string, s: seq<string>): (r: seq<string>)
    ensures (forall y :: y in r <==> y == x || y in s) && |r| == |s| + 1
  {
    if s == [] || TextLe(x, s[0]) then [x] + s else [s[0]] + InsertString(x, s[1..])
  }

  /** sort.Strings. */
  function SortStrings(s: seq<string>): (r: seq<string>)
    ensures (forall y :: y in r <==> y in s) && |r| == |s|
  {
    if s == [] then [] else InsertString(s[0], SortStrings(s[1..]))
  }

  /** Ascending, without repetitions. */
  ghost predicate Ascending(s: seq<string>) {
    forall i, j :: 0 <= i < j < |s| ==> Before(s[i], s[j])
  }

  predicate TextsAscend(s: seq<string>) {
    forall i, j :: 0 <= i < j < |s| ==> TextLe(s[i], s[j])
  }

  predicate NoRepeats(s: seq<string>) {
    forall i, j :: 0 <= i < j < |s| ==> s[i] != s[j]
  }

  lemma {:induction false} InsertKeepsOrder(x: string, s: seq<string>)
    requires TextsAscend(s)
    ensures TextsAscend(InsertString(x, s))
    ensures NoRepeats(s) && x !in s ==> NoRepeats(InsertString(x, s))
  {
    if s != [] && !TextLe(x, s[0]) {
      InsertKeepsOrder(x, s[1..]);
      TextLeTotal(x, s[0]);
      var rest := InsertString(x, s[1..]);
      forall j | 0 <= j < |rest|
        ensures TextLe(s[0], rest[j])
      {
        assert rest[j] in rest;
      }
      if NoRepeats(s) && x !in s {
        forall j | 0 <= j < |rest|
          ensures s[0] != rest[j]
        {
          assert rest[j] in rest;
        }
      }
    } else if s != [] {
      forall j | 0 <= j < |s|
        ensures TextLe(x, s[j])
      {
        if j > 0 {
          TextLeTransitive(x, s[0], s[j]);
        }
      }
    }
  }

  lemma {:induction false} SortKeepsOrder(s: seq<string>)
    ensures TextsAscend(SortStrings(s))
    ensures NoRepeats(s) ==> NoRepeats(SortStrings(s))
  {
    if s != [] {
      SortKeepsOrder(s[1..]);
      InsertKeepsOrder(s[0], SortStrings(s[1..]));
    }
  }

  /** Sorting distinct names puts them in ascending order. */
  lemma SortAscends(s: seq<string>)
    requires NoRepeats(s)
    ensures Ascending(SortStrings(s))
  {
    SortKeepsOrder(s);
    var r := SortStrings(s);
    forall i, j | 0 <= i < j < |r|
      ensures Before(r[i], r[j])
    {
      TextLeMeans(r[i], r[j]);
    }
  }

  lemma BeforeIrreflexive(a: string, b: string)
    requires Before(a, b)
    ensures a != b && !Before(b, a)
  {
    TextLeMeans(a, b);
    TextLeMeans(b, a);
    TextLeTotal(a, b);
    NotBeforeItself(a);
  }

  lemma NotBeforeItself(a: string)
    ensures !Before(a, a)
  {
  }

  /** The names of a list have only one ascending order. */
  lemma {:induction false} AscendingUnique(s: seq<string>, t: seq<string>)
    requires Ascending(s) && Ascending(t) && forall x :: x in s <==> x in t
    ensures s == t
  {
    EmptyHasNone(s);
    EmptyHasNone(t);
    if s != [] {
      assert s[0] in s && t[0] in t;
      SameFirst(s, t);
      forall x
        ensures x in s[1..] <==> x in t[1..]
      {
        TailMember(s, x);
        TailMember(t, x);
      }
      AscendingUnique(s[1..], t[1..]);
      assert s == [s[0]] + s[1..] && t == [t[0]] + t[1..];
    }
  }

  lemma EmptyHasNone(s: seq<string>)
    ensures s == [] <==> forall x :: x !in s
  {
    if s != [] {
      assert s[0] in s;
    }
  }

  lemma SameFirst(s: seq<string>, t: seq<string>)
    requires s != [] && t != [] && Ascending(s) && Ascending(t) && s[0] in t && t[0] in s
    ensures s[0] == t[0]
  {
    var i :| 0 <= i < |s| && s[i] == t[0];
    var j :| 0 <= j < |t| && t[j] == s[0];
    if i > 0 && j > 0 {
      BeforeIrreflexive(s[0], s[i]);
    }
  }

  lemma TailMember(s: seq<string>, x: string)
    requires s != [] && Ascending(s)
    ensures x in s[1..] <==> x in s && x != s[0]
  {
    if x in s[1..] {
      var i :| 1 <= i < |s| && s[i] == x;
      BeforeIrreflexive(s[0], s[i]);
    }
  }

  /** A list of two or more names is printed as the block of its distinct names in ascending order. */
  lemma NamesPrintedAscending(values: seq<string>, sorted: seq<string>)
    requires Ascending(sorted) && |sorted| >= 2 && forall x :: x in sorted <==> x in values
    ensures NamesExpression(values) == "[" + Join(sorted, ",") + "]"
  {
    var uniq := Distinct(values);
    SortAscends(uniq);
    AscendingUnique(SortStrings(uniq), sorted);
  }

  // ---------- Process IDs ----------

  /** dedupeInts: the conversion from uint32 to int keeps the value. */
  function IdsExpression(ids: seq<Uint32>): string {
    var nums := Distinct(ids);
    if |nums| == 0 then DEFAULT_SEGMENT
    else if |nums| == 1 then Itoa(nums[0])
    else "[" + Join(RunTexts(Runs(SortInts(nums))), ",") + "]"
  }

  method IDsToExpr(ids: seq<Uint32>) returns (e: string)
    ensures e == IdsExpression(ids)
  {
    var nums := Dedupe(ids);
    if |nums| == 0 {
      return DEFAULT_SEGMENT;
    } else if |nums| == 1 {
      return Itoa(nums[0]);
    } else {
      var sorted := SortInts(nums);
      var ranges := CompressRanges(sorted);
      return "[" + Join(ranges, ",") + "]";
    }
  }

  /** What an expanded text matches. */
  ghost predicate Yields(e: string, name: string) {
    ParseEnum(e).Ok? && exists v :: v in ParseEnum(e).value && Fnmatch(v, name)
  }

  /** A whole expression that is one block selects what the block's values match. */
  lemma OneBlockSelects(content: string, name: string)
    requires ']' !in content
    ensures var e := "[" + content + "]";
      FirstBlock(e) == Block("", content, "")
      && (Selects(e, name) <==> Yields(content, name))
  {
    var e := "[" + content + "]";
    assert e == BlockText("", content, "");
    FirstBlockIs("", content, "");
    assert Expand("") == Ok([""]);
    if ParseEnum(content).Ok? {
      ProductTail(Prefixed("", ParseEnum(content).value), "", ParseEnum(content).value);
      assert Expand(e) == ParseEnum(content);
    }
  }

  /** What a run is printed as: free of the characters that have a meaning in lists and blocks. */
  lemma RunTextChars(run: Piece)
    ensures var t := RunText(run);
      t != "" && IsDigit(t[0]) && IsDigit(t[|t| - 1]) && ',' !in t && '[' !in t && ']' !in t && ':' !in t
    ensures run.lo != run.hi <==> '-' in RunText(run)
  {
    assert AllDigits(Itoa(run.lo)) && AllDigits(Itoa(run.hi));
    assert forall i :: 0 <= i < |Itoa(run.lo)| ==> IsDigit(Itoa(run.lo)[i]);
    assert forall i :: 0 <= i < |Itoa(run.hi)| ==> IsDigit(Itoa(run.hi)[i]);
  }

  /** Both ends are ints, and Range2Re returns on them. */
  predicate PrintableRun(run: Piece) {
    run.lo <= run.hi <= MAX_INT && SplitFits(run.lo, run.hi)
  }

  lemma RunTextParts(run: Piece)
    requires run.lo <= run.hi <= MAX_INT && run.lo < run.hi
    ensures Split(RunText(run), '-') == [Itoa(run.lo), Itoa(run.hi)]
    ensures IsNumberRange(RunText(run))
  {
    var b, e := Itoa(run.lo), Itoa(run.hi);
    NumberText(run.lo);
    NumberText(run.hi);
    SplitOfJoin([b, e], '-');
    assert Join([b, e], ['-']) == RunText(run);
    AtoiOfItoa(run.lo);
    AtoiOfItoa(run.hi);
  }

  lemma RunTextType(run: Piece)
    requires PrintableRun(run)
    ensures GetMatchType(RunText(run)) == if run.lo == run.hi then Word else Range
    ensures RangeReturns(RunText(run))
    ensures run.lo < run.hi ==>
      ParseRangeExpression(RunText(run)) == Ok(RangeFragments(run.lo, run.hi))
  {
    RunTextChars(run);
    if run.lo < run.hi {
      RunTextParts(run);
      RunNoLetters(run);
      AtoiOfItoa(run.lo);
      AtoiOfItoa(run.hi);
    } else {
      NoHyphenNoRange(RunText(run));
    }
  }

  lemma RunNoLetters(run: Piece)
    requires run.lo < run.hi <= MAX_INT
    ensures !IsSingleAlphaRange(RunText(run))
  {
    RunTextParts(run);
    if IsSingleAlphaRange(RunText(run)) {
      LettersNoNumberRange(RunText(run));
    }
  }

  lemma NoHyphenNoRange(t: string)
    requires '-' !in t
    ensures !IsRangeFormat(t)
  {
    IndexFirst(t, '-');
  }

  /** The values of a printed run match exactly the decimal texts of its numbers. */
  lemma RunSelects(run: Piece, name: string)
    requires PrintableRun(run)
    ensures Yields(RunText(run), name) <==> IsNumberIn(name, run.lo, run.hi)
  {
    RunTextType(run);
    if run.lo == run.hi {
      NumberText(run.lo);
      PlainMatchesItself(Itoa(run.lo), name);
      assert Itoa(run.lo) in ParseEnum(RunText(run)).value;
    } else {
      ParseEnumOfRange(RunText(run));
      RangeExact(run.lo, run.hi, name);
    }
  }

  /** Texts without commas or surrounding space survive being joined by commas and split again. */
  lemma WordListOfJoin(words: seq<string>)
    requires words != []
    requires forall w :: w in words ==> ',' !in w && Trimmed(w)
    ensures ParseWordList(Join(words, ",")) == words
  {
    SplitOfJoin(words, ',');
    forall i | 0 <= i < |words|
      ensures TrimSpace(words[i]) == words[i]
    {
      assert words[i] in words;
    }
  }

  lemma JoinStart(words: seq<string>, sep: string)
    requires words != [] && words[0] != ""
    ensures Join(words, sep) != "" && Join(words, sep)[0] == words[0][0]
  {
  }

  /** A text without a comma is expanded unless it is a number range on which Range2Re does not return. */
  lemma EnumReturns(w: string)
    requires ',' !in w
    ensures ParseEnum(w).Ok? <==> (GetMatchType(w) == Range ==> RangeReturns(w))
  {
    if GetMatchType(w) == Range {
      ParseEnumOfRange(w);
      RangeRankBelow(w);
    }
  }

  /** A word list matches what its pieces match, if all of them are expanded. */
  lemma WordListPieces(content: string, name: string)
    requires GetMatchType(content) == WordList
    ensures ParseEnum(content).Ok? <==> forall p :: p in ParseWordList(content) ==> ParseEnum(p).Ok?
    ensures ParseEnum(content).Ok? ==>
      (Yields(content, name) <==> exists p :: p in ParseWordList(content) && Yields(p, name))
  {
    var pieces := ParseWordList(content);
    WordsRankBelowList(content);
    ParseEachMember(pieces, 2, "");
    if v :| ParseEnum(content).Ok? && v in ParseEnum(content).value && Fnmatch(v, name) {
      ParseEachMember(pieces, 2, v);
    }
    if p :| ParseEnum(content).Ok? && p in pieces && Yields(p, name) {
      var v :| v in ParseEnum(p).value && Fnmatch(v, name);
      ParseEachMember(pieces, 2, v);
    }
  }

  /** A printed word list matches what its words match. */
  lemma WordListYields(words: seq<string>, name: string)
    requires |words| > 1
    requires forall w :: w in words ==> ',' !in w && Trimmed(w)
    requires GetMatchType(Join(words, ",")) == WordList
    ensures ParseEnum(Join(words, ",")).Ok? <==> forall w :: w in words ==> ParseEnum(w).Ok?
    ensures ParseEnum(Join(words, ",")).Ok? ==>
      (Yields(Join(words, ","), name) <==> exists w :: w in words && Yields(w, name))
  {
    WordListOfJoin(words);
    WordListPieces(Join(words, ","), name);
  }

  ghost predicate InSomeRun(runs: seq<Piece>, name: string) {
    exists r :: r in runs && IsNumberIn(name, r.lo, r.hi)
  }

  predicate PrintableRuns(runs: seq<Piece>) {
    runs != [] && (forall r :: r in runs ==> PrintableRun(r)) && (|runs| == 1 ==> runs[0].lo < runs[0].hi)
  }

  lemma RunTextsYield(runs: seq<Piece>, name: string)
    requires PrintableRuns(runs)
    ensures (exists w :: w in RunTexts(runs) && Yields(w, name)) <==> InSomeRun(runs, name)
  {
    var texts := RunTexts(runs);
    forall i | 0 <= i < |runs|
      ensures Yields(texts[i], name) <==> IsNumberIn(name, runs[i].lo, runs[i].hi)
    {
      assert runs[i] in runs;
      RunSelects(runs[i], name);
    }
    if w :| w in texts && Yields(w, name) {
      var i :| 0 <= i < |texts| && texts[i] == w;
      assert runs[i] in runs;
    }
    if r :| r in runs && IsNumberIn(name, r.lo, r.hi) {
      var i :| 0 <= i < |runs| && runs[i] == r;
      assert texts[i] in texts;
    }
  }

  /** A printed list of runs selects the union of what the runs select. */
  lemma RunListSelects(runs: seq<Piece>, name: string)
    requires PrintableRuns(runs)
    ensures Yields(Join(RunTexts(runs), ","), name) <==> InSomeRun(runs, name)
  {
    var texts := RunTexts(runs);
    RunTextsYield(runs, name);
    if |runs| == 1 {
      assert Join(texts, ",") == texts[0];
      assert forall w :: w in texts ==> w == texts[0];
      assert texts[0] in texts;
    } else {
      RunListType(runs);
      RunTextsExpand(runs);
      WordListYields(texts, name);
    }
  }

  lemma RunListType(runs: seq<Piece>)
    requires |runs| > 1
    ensures GetMatchType(Join(RunTexts(runs), ",")) == WordList
    ensures forall w :: w in RunTexts(runs) ==> ',' !in w && Trimmed(w)
  {
    RunListChars(runs);
  }

  lemma RunTextsExpand(runs: seq<Piece>)
    requires PrintableRuns(runs)
    ensures forall w :: w in RunTexts(runs) ==> ',' !in w && ParseEnum(w).Ok? && RangeReturns(w)
  {
    var texts := RunTexts(runs);
    forall w | w in texts
      ensures ',' !in w && ParseEnum(w).Ok? && RangeReturns(w)
    {
      var i :| 0 <= i < |texts| && texts[i] == w;
      assert runs[i] in runs;
      RunTextType(runs[i]);
      RunTextChars(runs[i]);
      EnumReturns(w);
    }
  }

  lemma RunListOk(runs: seq<Piece>)
    requires PrintableRuns(runs)
    ensures BlockOk(Join(RunTexts(runs), ","))
  {
    var texts := RunTexts(runs);
    RunListChars(runs);
    RunTextsExpand(runs);
    forall w | w in texts
      ensures WordOk(w)
    {
      var i :| 0 <= i < |texts| && texts[i] == w;
      RunTextChars(runs[i]);
    }
    if |runs| == 1 {
      assert Join(texts, ",") == texts[0] && texts[0] in texts;
      RunTextType(runs[0]);
    } else {
      WordListOfJoin(texts);
    }
  }

  lemma RunListChars(runs: seq<Piece>)
    requires runs != []
    ensures var texts := RunTexts(runs);
      var content := Join(texts, ",");
      && (forall w :: w in texts ==> ',' !in w && Trimmed(w))
      && '[' !in content && ']' !in content && ':' !in content
      && content != "" && IsDigit(content[0])
      && (|runs| > 1 ==> ',' in content)
  {
    var texts := RunTexts(runs);
    forall w | w in texts
      ensures w != "" && IsDigit(w[0]) && ',' !in w && '[' !in w && ']' !in w && ':' !in w && Trimmed(w)
    {
      var i :| 0 <= i < |texts| && texts[i] == w;
      RunTextChars(runs[i]);
    }
    assert texts[0] in texts;
    JoinStart(texts, ",");
    JoinedChars(texts);
  }

  lemma JoinedChars(texts: seq<string>)
    requires texts != [] && forall w :: w in texts ==> '[' !in w && ']' !in w && ':' !in w
    ensures var content := Join(texts, ",");
      '[' !in content && ']' !in content && ':' !in content && (|texts| > 1 ==> ',' in content)
  {
    JoinChar(texts, ",", '[');
    JoinChar(texts, ",", ']');
    JoinChar(texts, ",", ':');
    JoinChar(texts, ",", ',');
  }

  /**
   * The round trip for process IDs: Match on the expression printed for a non-empty list answers yes exactly for the
   * decimal texts of its members, through sorting, run compression, block parsing, range expansion and glob matching.
   */
  lemma IdsRoundTrip(ids: seq<Uint32>, name: string)
    requires ids != []
    ensures MatchResult(name, IdsExpression(ids)) == Ok(exists id :: id in ids && name == Itoa(id))
    ensures Selects(IdsExpression(ids), name) <==> exists id :: id in ids && name == Itoa(id)
  {
    IdsSelect(ids, name);
    IdsWellFormed(ids);
    WellFormedMatch(name, IdsExpression(ids));
  }

  /** In particular, for process IDs themselves Match answers whether they are in the list. */
  lemma IdMatches(ids: seq<Uint32>, m: Uint32)
    requires ids != []
    ensures MatchResult(Itoa(m), IdsExpression(ids)) == Ok(m in ids)
  {
    IdsRoundTrip(ids, Itoa(m));
    if id :| id in ids && Itoa(m) == Itoa(id) {
      ItoaInjective(m, id);
    }
  }

  lemma WellFormedMatch(name: string, e: string)
    requires WellFormed(e)
    ensures MatchResult(name, e) == Ok(Selects(e, name))
  {
    WellFormedCompiles(e, "");
    forall c | c in Expand(e).value
      ensures Compiles(c)
    {
      WellFormedCompiles(e, c);
      ClosedNoName(c);
    }
    MatchDecidesSelects(name, e);
  }

  lemma IdsSelect(ids: seq<Uint32>, name: string)
    requires ids != []
    ensures Selects(IdsExpression(ids), name) <==> exists id :: id in ids && name == Itoa(id)
  {
    var nums, e := Distinct(ids), IdsExpression(ids);
    assert ids[0] in nums;
    if |nums| == 1 {
      OneIdRoundTrip(nums[0], name);
      assert forall id :: id in ids ==> id in nums && id == nums[0];
    } else {
      ManyIdsRoundTrip(nums, name);
    }
  }

  lemma ManyIdsRoundTrip(nums: seq<Uint32>, name: string)
    requires |nums| > 1 && forall i, j :: 0 <= i < j < |nums| ==> nums[i] != nums[j]
    ensures Selects("[" + Join(RunTexts(Runs(SortInts(nums))), ",") + "]", name) <==>
      exists id :: id in nums && name == Itoa(id)
  {
    PrintableIds(nums);
    ManyIdsRuns(nums, name);
    RunBlockSelects(Runs(SortInts(nums)), name);
  }

  lemma RunBlockSelects(runs: seq<Piece>, name: string)
    requires PrintableRuns(runs)
    ensures Selects("[" + Join(RunTexts(runs), ",") + "]", name) <==> InSomeRun(runs, name)
  {
    RunListSelects(runs, name);
    RunListChars(runs);
    OneBlockSelects(Join(RunTexts(runs), ","), name);
  }

  /** Printed ID expressions are well formed and never look like a slice. */
  lemma IdsWellFormed(ids: seq<Uint32>)
    ensures WellFormed(IdsExpression(ids)) && ':' !in IdsExpression(ids) && IdsExpression(ids) != ""
  {
    var nums, e := Distinct(ids), IdsExpression(ids);
    if |nums| == 0 {
      FirstBlockParts(e);
    } else if |nums| == 1 {
      OneIdRoundTrip(nums[0], "");
    } else {
      PrintableIds(nums);
      RunBlockOk(Runs(SortInts(nums)));
    }
  }

  lemma RunBlockOk(runs: seq<Piece>)
    requires PrintableRuns(runs)
    ensures var e := "[" + Join(RunTexts(runs), ",") + "]"; WellFormed(e) && ':' !in e
  {
    RunListChars(runs);
    RunListOk(runs);
    OneBlockSelects(Join(RunTexts(runs), ","), "");
    FirstBlockParts("");
  }

  lemma OneIdRoundTrip(id: Uint32, name: string)
    ensures Selects(Itoa(id), name) <==> name == Itoa(id)
    ensures WellFormed(Itoa(id)) && ':' !in Itoa(id)
  {
    NumberText(id);
    PlainMatchesItself(Itoa(id), name);
    FirstBlockParts(Itoa(id));
    assert Expand(Itoa(id)) == Ok([Itoa(id)]);
    assert Itoa(id) in Expand(Itoa(id)).value;
  }

  lemma PrintableIds(nums: seq<Uint32>)
    requires |nums| > 1 && forall i, j :: 0 <= i < j < |nums| ==> nums[i] != nums[j]
    ensures PrintableRuns(Runs(SortInts(nums)))
  {
    var sorted := SortInts(nums);
    var runs := Runs(sorted);
    RunsApart(sorted);
    forall r | r in runs
      ensures PrintableRun(r)
    {
      var i :| 0 <= i < |runs| && runs[i] == r;
      ApartAt(runs, i, i);
      assert InPiece(runs[i], r.hi);
      RunsCover(sorted, r.hi);
      assert r.hi in nums;
      SmallRangeFits(r.lo, r.hi);
    }
    if |runs| == 1 {
      RunsConserve(sorted);
      assert Flatten(runs[1..]) == [];
      assert |sorted| == runs[0].hi - runs[0].lo + 1;
    }
  }

  /** The runs of the sorted IDs hold exactly the IDs. */
  lemma ManyIdsRuns(nums: seq<Uint32>, name: string)
    requires forall i, j :: 0 <= i < j < |nums| ==> nums[i] != nums[j]
    ensures InSomeRun(Runs(SortInts(nums)), name) <==> exists id :: id in nums && name == Itoa(id)
  {
    var sorted := SortInts(nums);
    if id :| id in nums && name == Itoa(id) {
      RunsCover(sorted, id);
      CoveredText(Runs(sorted), id);
    }
    if InSomeRun(Runs(sorted), name) {
      var n := SomeNumber(Runs(sorted), name);
      RunsCover(sorted, n);
    }
  }

  lemma CoveredText(runs: seq<Piece>, n: nat)
    requires Covered(runs, n)
    ensures InSomeRun(runs, Itoa(n))
  {
    var i :| 0 <= i < |runs| && InPiece(runs[i], n);
    assert runs[i] in runs && IsNumberIn(Itoa(n), runs[i].lo, runs[i].hi);
  }

  lemma SomeNumber(runs: seq<Piece>, name: string) returns (n: nat)
    requires InSomeRun(runs, name)
    ensures Covered(runs, n) && name == Itoa(n)
  {
    var r :| r in runs && IsNumberIn(name, r.lo, r.hi);
    n :| r.lo <= n <= r.hi && name == Itoa(n);
    var i :| 0 <= i < |runs| && runs[i] == r;
    assert InPiece(runs[i], n);
  }

  // ---------- Names ----------

  function NamesExpression(values: seq<string>): string {
    var uniq := Distinct(values);
    if |uniq| == 0 then DEFAULT_SEGMENT
    else if |uniq| == 1 then uniq[0]
    else "[" + Join(SortStrings(uniq), ",") + "]"
  }

  method ListToExpr(values: seq<string>) returns (e: string)
    ensures e == NamesExpression(values)
  {
    var uniq := Dedupe(values);
    if |uniq| == 0 {
      return DEFAULT_SEGMENT;
    } else if |uniq| == 1 {
      return uniq[0];
    } else {
      var sorted := SortStrings(uniq);
      return "[" + Join(sorted, ",") + "]";
    }
  }
}
