/** internal/expression/slice.go: recognising and executing Python list slices. */
module Slice {
  import opened Text
  import opened Decimal

  // ---------- The slice pattern ----------

  /** The characters \s stands for. */
  predicate IsBlank(c: char) {
    c == ' ' || c == '\t' || c == '\n' || c == '\r' || c as int == 12
  }

  /** How many characters of t an optional signed number takes. */
  function IndexLength(t: string): (n: nat)
    ensures n <= |t|
  {
    var sign := if t != "" && (t[0] == '-' || t[0] == '+') then 1 else 0;
    var digits := DigitsLength(t[sign..]);
    if digits == 0 then 0 else sign + digits
  }

  function DigitsLength(t: string): (n: nat)
    ensures n <= |t|
  {
    if t == "" || !IsDigit(t[0]) then 0 else 1 + DigitsLength(t[1..])
  }

  function SkipBlank(t: string): (u: string)
    ensures |u| <= |t|
  {
    if t != "" && IsBlank(t[0]) then t[1..] else t
  }

  /** The match of the slice pattern at the start of t: the two bounds, and what follows. */
  function SliceAtStart(t: string): (r: Option<(string, string, string)>)
    ensures r.Some? ==> |r.value.2| < |t| && ':' in t
  {
    if t == "" || t[0] != '[' then None
    else
      var t1 := t[1..];
      var t2 := SkipBlank(t1[IndexLength(t1)..]);
      if t2 == "" || t2[0] != ':' then None
      else
        assert forall x :: x in t2 ==> x in t;
        var t3 := SkipBlank(t2[1..]);
        var t4 := t3[IndexLength(t3)..];
        if t4 == "" || t4[0] != ']' then None
        else Some((t1[..IndexLength(t1)], t3[..IndexLength(t3)], t4[1..]))
  }

  predicate IsSliceExpression(e: string) {
    SliceAtStart(e).Some?
  }

  /** All matches of the slice pattern, from the left, without overlaps. */
  function SliceMatches(e: string): seq<(string, string)>
    decreases |e|
  {
    if e == "" then []
    else
      match SliceAtStart(e)
      case None => SliceMatches(e[1..])
      case Some((begin, end, rest)) => [(begin, end)] + SliceMatches(rest)
  }

  lemma {:induction false} NoColonNoSlice(e: string)
    requires ':' !in e
    ensures !IsSliceExpression(e) && SliceMatches(e) == []
  {
    if e != "" {
      NoColonNoSlice(e[1..]);
    }
  }

  /** A slice bound; None stands for an absent one, and for a number out of range. */
  function ParseSliceIndex(s: string): Option<int> {
    if s == "" then None else Atoi(s)
  }

  // ---------- Slicing ----------

  function ClampIndex(idx: int, l: nat): (i: nat)
    ensures i <= l
  {
    if idx < 0 then (if idx + l < 0 then 0 else idx + l) else if idx > l then l else idx
  }

  function PythonSlice<T>(ids: seq<T>, begin: Option<int>, end: Option<int>): seq<T> {
    var start := if begin.Some? then ClampIndex(begin.value, |ids|) else 0;
    var stop := if end.Some? then ClampIndex(end.value, |ids|) else |ids|;
    if start >= stop then [] else ids[start..stop]
  }

  function ExecuteSlice<T>(ids: seq<T>, e: string): seq<T> {
    var matches := SliceMatches(e);
    if |matches| != 1 then ids
    else PythonSlice(ids, ParseSliceIndex(matches[0].0), ParseSliceIndex(matches[0].1))
  }

  /** Whether position k of a list of length l is in a slice: negative bounds count from the end. */
  predicate InSlice(k: nat, l: nat, begin: Option<int>, end: Option<int>) {
    && (begin.Some? ==> k >= if begin.value < 0 then begin.value + l else begin.value)
    && (end.Some? ==> k < if end.value < 0 then end.value + l else end.value)
  }

  /** The items of ids[..n] at the positions in the slice, in order. */
  function ItemsInSlice<T>(ids: seq<T>, n: nat, begin: Option<int>, end: Option<int>): seq<T>
    requires n <= |ids|
  {
    if n == 0 then []
    else ItemsInSlice(ids, n - 1, begin, end) + (if InSlice(n - 1, |ids|, begin, end) then [ids[n - 1]] else [])
  }

  function StartOf(begin: Option<int>, l: nat): (start: nat)
    ensures start <= l
  {
    if begin.Some? then ClampIndex(begin.value, l) else 0
  }

  function StopOf(end: Option<int>, l: nat): (stop: nat)
    ensures stop <= l
  {
    if end.Some? then ClampIndex(end.value, l) else l
  }

  lemma InSliceBetween(k: nat, l: nat, begin: Option<int>, end: Option<int>)
    requires k < l
    ensures InSlice(k, l, begin, end) <==> StartOf(begin, l) <= k < StopOf(end, l)
  {
  }

  /** The part of ids[..n] between two positions. */
  function Between<T>(ids: seq<T>, n: nat, start: nat, stop: nat): seq<T>
    requires n <= |ids| && stop <= |ids|
  {
    if start >= stop || n <= start then [] else ids[start..if n < stop then n else stop]
  }

  lemma BetweenSnoc<T>(ids: seq<T>, n: nat, start: nat, stop: nat)
    requires n < |ids| && stop <= |ids|
    ensures Between(ids, n + 1, start, stop) ==
      Between(ids, n, start, stop) + (if start <= n < stop then [ids[n]] else [])
  {
    if start <= n < stop {
      SliceSnoc(ids, start, n);
      assert ids[start..start] == [];
    }
  }

  lemma ItemsStep<T>(ids: seq<T>, n: nat, begin: Option<int>, end: Option<int>)
    requires n < |ids|
    requires ItemsInSlice(ids, n, begin, end) == Between(ids, n, StartOf(begin, |ids|), StopOf(end, |ids|))
    ensures ItemsInSlice(ids, n + 1, begin, end) == Between(ids, n + 1, StartOf(begin, |ids|), StopOf(end, |ids|))
  {
    InSliceBetween(n, |ids|, begin, end);
    BetweenSnoc(ids, n, StartOf(begin, |ids|), StopOf(end, |ids|));
  }

  lemma {:induction false} ItemsUpTo<T>(ids: seq<T>, n: nat, begin: Option<int>, end: Option<int>)
    requires n <= |ids|
    ensures ItemsInSlice(ids, n, begin, end) == Between(ids, n, StartOf(begin, |ids|), StopOf(end, |ids|))
  {
    if n > 0 {
      ItemsUpTo(ids, n - 1, begin, end);
      ItemsStep(ids, n - 1, begin, end);
    }
  }

  /** pythonSlice is Python slicing: exactly the items whose positions lie between the bounds, in order. */
  lemma PythonSliceIsSlicing<T>(ids: seq<T>, begin: Option<int>, end: Option<int>)
    ensures PythonSlice(ids, begin, end) == ItemsInSlice(ids, |ids|, begin, end)
  {
    ItemsUpTo(ids, |ids|, begin, end);
  }

  /** Cutting a list at any signed position and joining the halves gives the list back. */
  lemma SliceHalves<T>(ids: seq<T>, k: int)
    ensures PythonSlice(ids, None, Some(k)) + PythonSlice(ids, Some(k), None) == ids
  {
    var i := ClampIndex(k, |ids|);
    assert ids[0..i] + ids[i..|ids|] == ids;
  }

  // ---------- What a slice text means ----------

  predicate IsBound(t: string) {
    t == "" ||
    var digits := if t[0] == '-' || t[0] == '+' then t[1..] else t;
    digits != "" && AllDigits(digits)
  }

  /** Nothing, or one character of white space other than the vertical tab. */
  predicate MaybeBlank(u: string) {
    u == "" || (|u| == 1 && (u[0] as int == 32 || (9 <= u[0] as int <= 13 && u[0] as int != 11)))
  }

  /** Two bounds in brackets around a colon, with at most one blank on either side of it. */
  function SliceText(b: string, u: string, v: string, e: string): string {
    "[" + (b + (u + (":" + (v + (e + "]")))))
  }

  predicate SliceForm(b: string, u: string, v: string, e: string) {
    IsBound(b) && MaybeBlank(u) && MaybeBlank(v) && IsBound(e)
  }

  /** What follows a bound in a slice text. */
  predicate AfterBound(t: string) {
    t != "" && !IsDigit(t[0]) && t[0] != '-' && t[0] != '+'
  }

  lemma {:induction false} DigitsLengthOf(d: string, t: string)
    requires AllDigits(d) && AfterBound(t)
    ensures DigitsLength(d + t) == |d|
  {
    if d == "" {
      assert d + t == t;
    } else {
      assert (d + t)[1..] == d[1..] + t && IsDigit(d[0]);
      DigitsLengthOf(d[1..], t);
    }
  }

  lemma IndexLengthOf(b: string, t: string)
    requires IsBound(b) && AfterBound(t)
    ensures IndexLength(b + t) == |b| && (b + t)[..|b|] == b && (b + t)[|b|..] == t
  {
    if b == "" {
      assert b + t == t;
      DigitsLengthOf("", t);
    } else if b[0] == '-' || b[0] == '+' {
      assert (b + t)[1..] == b[1..] + t;
      DigitsLengthOf(b[1..], t);
    } else {
      assert IsDigit(b[0]) && (b + t)[0..] == b + t;
      DigitsLengthOf(b, t);
    }
  }

  lemma SkipBlankOf(u: string, t: string)
    requires MaybeBlank(u) && t != "" && !IsBlank(t[0])
    ensures SkipBlank(u + t) == t
    ensures AfterBound(t) ==> AfterBound(u + t)
  {
    if u == "" {
      assert u + t == t;
    } else {
      assert (u + t)[1..] == t;
    }
  }

  /** The tail of a slice text after its colon. */
  lemma SliceTailRead(v: string, e: string, rest: string)
    requires MaybeBlank(v) && IsBound(e)
    ensures SkipBlank(v + (e + ("]" + rest))) == e + ("]" + rest)
    ensures IndexLength(e + ("]" + rest)) == |e|
    ensures (e + ("]" + rest))[..|e|] == e && (e + ("]" + rest))[|e|..] == "]" + rest
  {
    IndexLengthOf(e, "]" + rest);
    assert e != "" ==> !IsBlank(e[0]);
    SkipBlankOf(v, e + ("]" + rest));
  }

  lemma SliceHeadRead(b: string, u: string, t: string)
    requires IsBound(b) && MaybeBlank(u)
    ensures var t1 := b + (u + (":" + t));
      IndexLength(t1) == |b| && t1[..|b|] == b && SkipBlank(t1[|b|..]) == ":" + t
  {
    SkipBlankOf(u, ":" + t);
    IndexLengthOf(b, u + (":" + t));
  }

  lemma SliceTextRest(b: string, u: string, v: string, e: string, rest: string)
    ensures SliceText(b, u, v, e) + rest == "[" + (b + (u + (":" + (v + (e + ("]" + rest))))))
  {
    Reassociate(e, "]", rest);
    Reassociate(v, e + "]", rest);
    Reassociate(":", v + (e + "]"), rest);
    Reassociate(u, ":" + (v + (e + "]")), rest);
    Reassociate(b, u + (":" + (v + (e + "]"))), rest);
    Reassociate("[", b + (u + (":" + (v + (e + "]")))), rest);
  }

  lemma SliceTextRead(b: string, u: string, v: string, e: string, rest: string)
    requires SliceForm(b, u, v, e)
    ensures SliceAtStart(SliceText(b, u, v, e) + rest) == Some((b, e, rest))
  {
    var t4 := "]" + rest;
    var t3 := e + t4;
    var t1 := b + (u + (":" + (v + t3)));
    SliceTextRest(b, u, v, e, rest);
    SliceHeadRead(b, u, v + t3);
    SliceTailRead(v, e, rest);
    assert ("[" + t1)[1..] == t1 && (":" + (v + t3))[1..] == v + t3 && t4[1..] == rest;
  }

  lemma {:induction false} DigitsOf(t: string)
    ensures AllDigits(t[..DigitsLength(t)])
  {
    if t != "" && IsDigit(t[0]) {
      DigitsOf(t[1..]);
      assert t[..DigitsLength(t)] == [t[0]] + t[1..][..DigitsLength(t[1..])];
    }
  }

  lemma BoundFound(t: string)
    ensures IsBound(t[..IndexLength(t)])
  {
    var sign := if t != "" && (t[0] == '-' || t[0] == '+') then 1 else 0;
    DigitsOf(t[sign..]);
    var b := t[..IndexLength(t)];
    if b != "" {
      assert b[sign..] == t[sign..][..DigitsLength(t[sign..])];
    }
  }

  lemma BlankSkipped(t: string) returns (u: string)
    ensures MaybeBlank(u) && t == u + SkipBlank(t)
  {
    u := if t != "" && IsBlank(t[0]) then [t[0]] else "";
  }

  /** A bound and an optional blank in front of a character. */
  lemma BoundSkipped(t: string, c: char) returns (u: string, rest: string)
    requires var t2 := SkipBlank(t[IndexLength(t)..]); t2 != "" && t2[0] == c
    ensures var b := t[..IndexLength(t)];
      && IsBound(b) && MaybeBlank(u) && t == b + (u + ([c] + rest))
      && rest == SkipBlank(t[IndexLength(t)..])[1..]
  {
    BoundFound(t);
    u, rest := BlankThen(t, IndexLength(t), c);
  }

  lemma BlankThen(t: string, n: nat, c: char) returns (u: string, rest: string)
    requires n <= |t| && SkipBlank(t[n..]) != "" && SkipBlank(t[n..])[0] == c
    ensures MaybeBlank(u) && t == t[..n] + (u + ([c] + rest)) && rest == SkipBlank(t[n..])[1..]
  {
    var tail := t[n..];
    var t2 := SkipBlank(tail);
    u := BlankSkipped(tail);
    rest := t2[1..];
    CutIn(t, n);
    HeadTail(t2);
  }

  lemma HeadTail(t: string)
    requires t != ""
    ensures t == [t[0]] + t[1..]
  {
  }

  lemma BoundClosed(t: string) returns (rest: string)
    requires var t4 := t[IndexLength(t)..]; t4 != "" && t4[0] == ']'
    ensures IsBound(t[..IndexLength(t)]) && rest == t[IndexLength(t)..][1..]
    ensures t == t[..IndexLength(t)] + ("]" + rest)
  {
    rest := t[IndexLength(t)..][1..];
    BoundFound(t);
    CutIn(t, IndexLength(t));
  }

  /** The parts the pattern divides a text into. */
  lemma SliceSteps(t: string)
    requires IsSliceExpression(t)
    ensures t != "" && t[0] == '['
    ensures var t2 := SkipBlank(t[1..][IndexLength(t[1..])..]);
      && t2 != "" && t2[0] == ':'
      && var t3 := SkipBlank(t2[1..]);
      && t3[IndexLength(t3)..] != "" && t3[IndexLength(t3)..][0] == ']'
      && SliceAtStart(t).value ==
        (t[1..][..IndexLength(t[1..])], t3[..IndexLength(t3)], t3[IndexLength(t3)..][1..])
  {
  }

  /** What the pattern matches at the start of a text is a slice text with these bounds, and the rest follows it. */
  lemma SliceFound(t: string) returns (u: string, v: string)
    requires IsSliceExpression(t)
    ensures var (b, e, rest) := SliceAtStart(t).value;
      SliceForm(b, u, v, e) && t == SliceText(b, u, v, e) + rest
  {
    SliceSteps(t);
    var t1, after, rest := t[1..], "", "";
    u, after := BoundSkipped(t1, ':');
    v := BlankSkipped(after);
    var t3 := SkipBlank(after);
    rest := BoundClosed(t3);
    SliceTextRest(t1[..IndexLength(t1)], u, v, t3[..IndexLength(t3)], rest);
    HeadTail(t);
  }

  lemma CutIn(t: string, n: nat)
    requires n <= |t|
    ensures t == t[..n] + t[n..]
  {
  }

  /** A segment is taken for a slice exactly if it starts with a slice text; only its bounds matter then. */
  lemma SliceExactly(t: string, b: string, e: string, rest: string)
    ensures SliceAtStart(t) == Some((b, e, rest)) <==>
      exists u, v :: SliceForm(b, u, v, e) && t == SliceText(b, u, v, e) + rest
  {
    if SliceAtStart(t) == Some((b, e, rest)) {
      var u, v := SliceFound(t);
    }
    if u, v :| SliceForm(b, u, v, e) && t == SliceText(b, u, v, e) + rest {
      SliceTextRead(b, u, v, e, rest);
    }
  }

  // ---------- The numbers shown in a slice text ----------

  /** The text shows the bound: an int in decimal with its sign, or nothing for an absent one. */
  predicate Shows(t: string, bound: Option<int>) {
    match bound
    case None => t == ""
    case Some(n) => t == SignedItoa(n) || (n >= 0 && t == "+" + Itoa(n))
  }

  /** A bound that is no int counts as absent. */
  function Fitting(bound: Option<int>): Option<int> {
    if bound.Some? && MIN_INT <= bound.value <= MAX_INT then bound else None
  }

  lemma ShownBound(t: string, bound: Option<int>)
    requires Shows(t, bound)
    ensures IsBound(t) && ParseSliceIndex(t) == Fitting(bound)
  {
    if bound.Some? {
      var n := bound.value;
      var digits := Itoa(if n < 0 then -n else n);
      ToNatOfItoa(if n < 0 then -n else n);
      assert IsDigit(digits[0]);
      assert ("-" + digits)[1..] == digits && ("+" + digits)[1..] == digits;
    }
  }

  /** A slice text begins somewhere in t. */
  predicate HoldsSlice(t: string) {
    exists i :: 0 <= i <= |t| && IsSliceExpression(t[i..])
  }

  lemma {:induction false} NoMatchesExactly(t: string)
    ensures SliceMatches(t) == [] <==> !HoldsSlice(t)
    decreases |t|
  {
    assert t[0..] == t;
    if t != "" && SliceAtStart(t).None? {
      NoMatchesExactly(t[1..]);
      if i :| 0 <= i <= |t| && IsSliceExpression(t[i..]) {
        assert i > 0 && t[1..][i - 1..] == t[i..];
      }
      if i :| 0 <= i <= |t| - 1 && IsSliceExpression(t[1..][i..]) {
        assert t[1..][i..] == t[i + 1..];
      }
    }
  }

  /**
   * The segment that shows two bounds in brackets selects the items at the positions between them. What follows the
   * brackets is ignored, unless it holds a slice text again: then nothing is cut off.
   */
  lemma SliceTextSlices<T>(
      ids: seq<T>, bt: string, begin: Option<int>, u: string, v: string, et: string, end: Option<int>, rest: string)
    requires Shows(bt, begin) && MaybeBlank(u) && MaybeBlank(v) && Shows(et, end)
    ensures var t := SliceText(bt, u, v, et) + rest;
      && IsSliceExpression(t)
      && ExecuteSlice(ids, t) ==
        if HoldsSlice(rest) then ids else ItemsInSlice(ids, |ids|, Fitting(begin), Fitting(end))
  {
    var t := SliceText(bt, u, v, et) + rest;
    ShownBound(bt, begin);
    ShownBound(et, end);
    SliceTextRead(bt, u, v, et, rest);
    NoMatchesExactly(rest);
    assert SliceMatches(t) == [(bt, et)] + SliceMatches(rest);
    PythonSliceIsSlicing(ids, Fitting(begin), Fitting(end));
  }

  /** Two slice texts in a row, whatever follows, leave the list whole. */
  lemma TwoSlicesKeepAll<T>(ids: seq<T>, b: string, u: string, v: string, e: string, rest: string)
    requires SliceForm(b, u, v, e) && HoldsSlice(rest)
    ensures IsSliceExpression(SliceText(b, u, v, e) + rest) && ExecuteSlice(ids, SliceText(b, u, v, e) + rest) == ids
  {
    SliceTextRead(b, u, v, e, rest);
    NoMatchesExactly(rest);
    assert SliceMatches(SliceText(b, u, v, e) + rest) == [(b, e)] + SliceMatches(rest);
  }

  /** Python would find nothing from a bound beyond all ints on, nor up to one below them. */
  predicate BoundsFit(begin: Option<int>, end: Option<int>) {
    (begin.Some? ==> begin.value <= MAX_INT) && (end.Some? ==> end.value >= MIN_INT)
  }

  lemma {:induction false} SameItems<T>(
      ids: seq<T>, n: nat, b: Option<int>, e: Option<int>, b2: Option<int>, e2: Option<int>)
    requires n <= |ids|
    requires forall k :: 0 <= k < |ids| ==> InSlice(k, |ids|, b, e) == InSlice(k, |ids|, b2, e2)
    ensures ItemsInSlice(ids, n, b, e) == ItemsInSlice(ids, n, b2, e2)
  {
    if n > 0 {
      SameItems(ids, n - 1, b, e, b2, e2);
    }
  }

  lemma {:induction false} NoItems<T>(ids: seq<T>, n: nat, b: Option<int>, e: Option<int>)
    requires n <= |ids| && forall k :: 0 <= k < |ids| ==> !InSlice(k, |ids|, b, e)
    ensures ItemsInSlice(ids, n, b, e) == []
  {
    if n > 0 {
      NoItems(ids, n - 1, b, e);
    }
  }

  /**
   * Taking a bound that is no int for an absent one is harmless exactly if it is a small begin or a large end, or if
   * nothing is left anyway.
   */
  lemma FittingExactly<T>(ids: seq<T>, begin: Option<int>, end: Option<int>)
    requires |ids| <= MAX_INT
    ensures var all := ItemsInSlice(ids, |ids|, Fitting(begin), Fitting(end));
      ItemsInSlice(ids, |ids|, begin, end) == all <==> BoundsFit(begin, end) || all == []
  {
    if BoundsFit(begin, end) {
      SameItems(ids, |ids|, begin, end, Fitting(begin), Fitting(end));
    } else {
      NoItems(ids, |ids|, begin, end);
    }
  }
}
