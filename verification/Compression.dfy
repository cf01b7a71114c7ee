/** compressRanges in internal/expression/list2expr.go: writing an ascending list as runs of consecutive numbers. */
module Compression {
  import opened Text
  import opened Decimal
  import opened RangeRegex

  predicate Ascending(s: seq<nat>) {
    s == [] || ((forall y :: y in s[1..] ==> s[0] < y) && Ascending(s[1..]))
  }

  lemma {:induction false} AscendingAt(s: seq<nat>, i: nat, j: nat)
    requires Ascending(s) && i < j < |s|
    ensures s[i] < s[j]
  {
    if i == 0 {
      assert s[1..][j - 1] in s[1..];
    } else {
      AscendingAt(s[1..], i - 1, j - 1);
    }
  }

  lemma {:induction false} AscendingFrom(s: seq<nat>, n: nat)
    requires Ascending(s) && n <= |s|
    ensures Ascending(s[n..])
  {
    if n > 0 {
      AscendingFrom(s[1..], n - 1);
      assert s[1..][n - 1..] == s[n..];
    } else {
      assert s[0..] == s;
    }
  }

  function Insert(x: nat, s: seq<nat>): (r: seq<nat>)
    requires Ascending(s) && x !in s
    ensures Ascending(r) && (forall y :: y in r <==> y == x || y in s) && |r| == |s| + 1
  {
    if s == [] then
      assert [x][1..] == [];
      [x]
    else if x < s[0] then
      assert ([x] + s)[1..] == s;
      assert s == [s[0]] + s[1..];
      [x] + s
    else
      assert s == [s[0]] + s[1..];
      var rest := Insert(x, s[1..]);
      assert ([s[0]] + rest)[1..] == rest;
      [s[0]] + rest
  }

  /** sort.Ints on a list without repetitions. */
  function SortInts(s: seq<nat>): (r: seq<nat>)
    requires forall i, j :: 0 <= i < j < |s| ==> s[i] != s[j]
    ensures Ascending(r) && (forall y :: y in r <==> y in s) && |r| == |s|
  {
    if s == [] then []
    else
      assert s == [s[0]] + s[1..];
      Insert(s[0], SortInts(s[1..]))
  }

  // ---------- Runs ----------

  /** How many leading elements are consecutive. */
  function RunLength(s: seq<nat>): (n: nat)
    requires s != []
    ensures 1 <= n <= |s|
  {
    if |s| > 1 && s[1] == s[0] + 1 then 1 + RunLength(s[1..]) else 1
  }

  function Runs(s: seq<nat>): (runs: seq<Piece>)
    ensures s != [] ==> runs != [] && runs[0].lo == s[0]
  {
    if s == [] then [] else [Piece(s[0], s[RunLength(s) - 1])] + Runs(s[RunLength(s)..])
  }

  function RunText(run: Piece): string {
    if run.lo == run.hi then Itoa(run.lo) else Itoa(run.lo) + "-" + Itoa(run.hi)
  }

  function RunTexts(runs: seq<Piece>): (texts: seq<string>)
    ensures |texts| == |runs| && forall i :: 0 <= i < |runs| ==> texts[i] == RunText(runs[i])
  {
    seq(|runs|, i requires 0 <= i < |runs| => RunText(runs[i]))
  }

  lemma {:induction false} RunShape(s: seq<nat>, k: nat)
    requires s != []
    ensures k < RunLength(s) ==> s[k] == s[0] + k
    ensures RunLength(s) < |s| ==> s[RunLength(s)] != s[RunLength(s) - 1] + 1
  {
    if |s| > 1 && s[1] == s[0] + 1 {
      RunShape(s[1..], if k == 0 then 0 else k - 1);
    }
  }

  lemma {:induction false} RunLengthIs(s: seq<nat>, n: nat)
    requires 1 <= n <= |s|
    requires forall k :: 0 <= k < n ==> s[k] == s[0] + k
    requires n < |s| ==> s[n] != s[0] + n
    ensures RunLength(s) == n
  {
    if n > 1 {
      RunLengthIs(s[1..], n - 1);
    }
  }

  /** The runs of rest, appended one by one to those already found. */
  ghost function RunsOnto(runs: seq<Piece>, rest: seq<nat>): seq<Piece>
    decreases |rest|
  {
    if rest == [] then runs
    else RunsOnto(runs + [Piece(rest[0], rest[RunLength(rest) - 1])], rest[RunLength(rest)..])
  }

  lemma {:induction false} RunsOntoAppends(runs: seq<Piece>, rest: seq<nat>)
    ensures RunsOnto(runs, rest) == runs + Runs(rest)
    decreases |rest|
  {
    if rest != [] {
      var run, tail := Piece(rest[0], rest[RunLength(rest) - 1]), rest[RunLength(rest)..];
      RunsOntoAppends(runs + [run], tail);
      assert (runs + [run]) + Runs(tail) == runs + ([run] + Runs(tail));
    }
  }

  /** The inner loop of compressRanges: the last position of the run that starts at position i. */
  method RunEnd(sorted: seq<nat>, i: nat) returns (j: nat)
    requires i < |sorted|
    ensures i <= j < |sorted| && sorted[j] == sorted[i] + (j - i)
    ensures RunLength(sorted[i..]) == j - i + 1
  {
    j := i;
    while j + 1 < |sorted| && sorted[j + 1] == sorted[j] + 1
      invariant i <= j < |sorted|
      invariant forall k :: i <= k <= j ==> sorted[k] == sorted[i] + (k - i)
    {
      j := j + 1;
    }
    RunLengthIs(sorted[i..], j - i + 1);
  }

  /** One fragment of compressRanges: a run of one number, or its two ends. */
  method RunToText(run: Piece) returns (text: string)
    ensures text == RunText(run)
  {
    if run.lo == run.hi {
      text := Itoa(run.lo);
    } else {
      text := Itoa(run.lo) + "-" + Itoa(run.hi);
    }
  }

  lemma RunTextsSnoc(runs: seq<Piece>, run: Piece)
    ensures RunTexts(runs + [run]) == RunTexts(runs) + [RunText(run)]
  {
  }

  method CompressRanges(sorted: seq<nat>) returns (ranges: seq<string>)
    ensures ranges == RunTexts(Runs(sorted))
  {
    ranges := [];
    ghost var runs: seq<Piece> := [];
    var i := 0;
    RunsOntoAppends([], sorted);
    assert sorted[0..] == sorted;
    while i < |sorted|
      invariant 0 <= i <= |sorted|
      invariant ranges == RunTexts(runs)
      invariant RunsOnto(runs, sorted[i..]) == Runs(sorted)
    {
      var j := RunEnd(sorted, i);
      var run := Piece(sorted[i], sorted[j]);
      SuffixAt(sorted, i, 0);
      SuffixAt(sorted, i, j - i);
      SuffixOfSuffix(sorted, i, j - i + 1);
      var text := RunToText(run);
      RunTextsSnoc(runs, run);
      ranges := ranges + [text];
      runs := runs + [run];
      i := j + 1;
    }
  }

  function Interval(lo: nat, hi: nat): (s: seq<nat>)
    ensures lo <= hi ==> |s| == hi - lo + 1
    ensures forall k :: 0 <= k < |s| ==> s[k] == lo + k
  {
    seq(if lo <= hi then hi - lo + 1 else 0, k => lo + k)
  }

  function Flatten(runs: seq<Piece>): seq<nat> {
    if runs == [] then [] else Interval(runs[0].lo, runs[0].hi) + Flatten(runs[1..])
  }

  lemma FlattenCons(run: Piece, rest: seq<Piece>)
    ensures Flatten([run] + rest) == Interval(run.lo, run.hi) + Flatten(rest)
  {
    assert ([run] + rest)[1..] == rest;
  }

  lemma {:induction false} RunInterval(s: seq<nat>)
    requires s != []
    ensures s[RunLength(s) - 1] == s[0] + RunLength(s) - 1
    ensures Interval(s[0], s[RunLength(s) - 1]) == s[..RunLength(s)]
  {
    var n := RunLength(s);
    if n > 1 {
      RunInterval(s[1..]);
      assert s[..n] == [s[0]] + s[1..][..n - 1];
      assert Interval(s[0], s[n - 1]) == [s[0]] + Interval(s[0] + 1, s[n - 1]);
    }
  }

  lemma TakeDrop(s: seq<nat>, n: nat)
    requires n <= |s|
    ensures s == s[..n] + s[n..]
  {
  }

  /** Conservation: writing the runs out again gives the list. */
  lemma {:induction false} RunsConserve(s: seq<nat>)
    ensures Flatten(Runs(s)) == s
  {
    if s != [] {
      var n := RunLength(s);
      RunsConserve(s[n..]);
      RunInterval(s);
      FlattenCons(Piece(s[0], s[n - 1]), Runs(s[n..]));
      TakeDrop(s, n);
    }
  }

  ghost predicate Covered(runs: seq<Piece>, n: nat) {
    exists i :: 0 <= i < |runs| && InPiece(runs[i], n)
  }

  lemma {:induction false} FlattenMember(runs: seq<Piece>, n: nat)
    ensures n in Flatten(runs) <==> Covered(runs, n)
  {
    if runs != [] {
      var first, rest := Interval(runs[0].lo, runs[0].hi), runs[1..];
      FlattenMember(rest, n);
      assert n in first <==> InPiece(runs[0], n) by {
        if InPiece(runs[0], n) {
          assert first[n - runs[0].lo] == n;
        }
      }
      if i :| 0 <= i < |runs| && InPiece(runs[i], n) && i > 0 {
        assert InPiece(rest[i - 1], n);
      }
      if i :| 0 <= i < |rest| && InPiece(rest[i], n) {
        assert InPiece(runs[i + 1], n);
      }
    }
  }

  /** The numbers of a list are those its runs cover. */
  lemma RunsCover(s: seq<nat>, n: nat)
    ensures n in s <==> Covered(Runs(s), n)
  {
    RunsConserve(s);
    FlattenMember(Runs(s), n);
  }

  /** Every run is an interval, and no two neighbouring runs can be merged. */
  predicate Apart(runs: seq<Piece>) {
    runs == [] ||
    (runs[0].lo <= runs[0].hi && (|runs| > 1 ==> runs[0].hi + 1 < runs[1].lo) && Apart(runs[1..]))
  }

  lemma ApartCons(run: Piece, rest: seq<Piece>)
    requires run.lo <= run.hi && Apart(rest) && (rest != [] ==> run.hi + 1 < rest[0].lo)
    ensures Apart([run] + rest)
  {
    assert ([run] + rest)[1..] == rest;
  }

  lemma {:induction false} RunsApart(s: seq<nat>)
    requires Ascending(s)
    ensures Apart(Runs(s))
  {
    if s != [] {
      var n := RunLength(s);
      AscendingFrom(s, n);
      RunsApart(s[n..]);
      RunShape(s, n - 1);
      if n < |s| {
        AscendingAt(s, n - 1, n);
        SuffixAt(s, n, 0);
      }
      ApartCons(Piece(s[0], s[n - 1]), Runs(s[n..]));
    }
  }

  lemma {:induction false} ApartAt(runs: seq<Piece>, i: nat, j: nat)
    requires Apart(runs) && i <= j < |runs|
    ensures runs[i].lo <= runs[i].hi
    ensures i < j ==> runs[i].hi + 1 < runs[j].lo
  {
    if i > 0 {
      ApartAt(runs[1..], i - 1, j - 1);
    } else if j > 1 {
      ApartAt(runs[1..], 0, j - 1);
    }
  }

  // ---------- No cover is smaller ----------

  /** A cover of the set by intervals that stay inside the set. */
  ghost predicate CoversExactly(cover: seq<Piece>, s: seq<nat>) {
    forall n: nat :: n in s <==> Covered(cover, n)
  }

  /** The interval of a cover that holds n. */
  ghost function Holder(cover: seq<Piece>, n: nat): (i: nat)
    requires Covered(cover, n)
    ensures i < |cover| && InPiece(cover[i], n)
  {
    var i :| 0 <= i < |cover| && InPiece(cover[i], n);
    i
  }

  lemma {:induction false} SetOfDistinct(f: seq<nat>) returns (image: set<nat>)
    requires forall i, j :: 0 <= i < j < |f| ==> f[i] != f[j]
    ensures |image| == |f| && forall x :: x in image <==> x in f
  {
    image := {};
    for i := 0 to |f|
      invariant |image| == i && forall x :: x in image <==> x in f[..i]
    {
      assert f[..i + 1] == f[..i] + [f[i]];
      assert f[i] !in f[..i];
      image := image + {f[i]};
    }
    assert f[..|f|] == f;
  }

  lemma {:induction false} BoundedSize(image: set<nat>, m: nat)
    requires forall x :: x in image ==> x < m
    ensures |image| <= m
  {
    if m == 0 {
      assert image == {};
    } else {
      BoundedSize(image - {m - 1}, m - 1);
    }
  }

  lemma Pigeonhole(f: seq<nat>, m: nat)
    requires forall i :: 0 <= i < |f| ==> f[i] < m
    requires forall i, j :: 0 <= i < j < |f| ==> f[i] != f[j]
    ensures |f| <= m
  {
    var image := SetOfDistinct(f);
    BoundedSize(image, m);
  }

  /** The number just past a run is not in the list. */
  lemma GapAfterRun(s: seq<nat>, i: nat)
    requires Ascending(s) && i < |Runs(s)|
    ensures Runs(s)[i].hi + 1 !in s
  {
    var runs, gap := Runs(s), Runs(s)[i].hi + 1;
    RunsApart(s);
    RunsCover(s, gap);
    forall r | 0 <= r < |runs|
      ensures !InPiece(runs[r], gap)
    {
      if r <= i {
        ApartAt(runs, r, i);
        ApartAt(runs, i, i);
      } else {
        ApartAt(runs, i, r);
      }
    }
  }

  /** An interval inside the set cannot hold the beginnings of two runs. */
  lemma HoldersDiffer(s: seq<nat>, cover: seq<Piece>, i: nat, j: nat)
    requires Ascending(s) && CoversExactly(cover, s) && i < j < |Runs(s)|
    requires Covered(cover, Runs(s)[i].lo) && Covered(cover, Runs(s)[j].lo)
    ensures Holder(cover, Runs(s)[i].lo) != Holder(cover, Runs(s)[j].lo)
  {
    var runs := Runs(s);
    RunsApart(s);
    ApartAt(runs, i, j);
    GapAfterRun(s, i);
    var gap := runs[i].hi + 1;
    assert !Covered(cover, gap);
    var k := Holder(cover, runs[i].lo);
    assert !InPiece(cover[k], gap);
  }

  lemma RunStartCovered(s: seq<nat>, cover: seq<Piece>, i: nat)
    requires Ascending(s) && CoversExactly(cover, s) && i < |Runs(s)|
    ensures Covered(cover, Runs(s)[i].lo)
  {
    RunsApart(s);
    ApartAt(Runs(s), i, i);
    var lo := Runs(s)[i].lo;
    assert InPiece(Runs(s)[i], lo);
    RunsCover(s, lo);
  }

  /** No cover by intervals inside the set uses fewer intervals than the runs. */
  lemma RunsMinimal(s: seq<nat>, cover: seq<Piece>)
    requires Ascending(s) && CoversExactly(cover, s)
    ensures |Runs(s)| <= |cover|
  {
    var runs := Runs(s);
    forall i | 0 <= i < |runs|
      ensures Covered(cover, runs[i].lo)
    {
      RunStartCovered(s, cover, i);
    }
    var f := seq(|runs|, i requires 0 <= i < |runs| => Holder(cover, runs[i].lo));
    forall i, j | 0 <= i < j < |f|
      ensures f[i] != f[j]
    {
      HoldersDiffer(s, cover, i, j);
    }
    Pigeonhole(f, |cover|);
  }
}
