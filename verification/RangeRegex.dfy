/** internal/expression/range2re.go: covering an interval of numbers by digit-class fragments. */
module RangeRegex {
  import opened Text
  import opened Decimal
  import opened Glob

  datatype Piece = Piece(lo: nat, hi: nat)

  // ---------- One step of a split ----------

  /** begin with its trailing zeros, and the digit above them, raised to nine. */
  function UpperOf(n: nat): (u: nat)
    ensures u >= n && u % 10 == 9
  {
    assert n == n / 10 * 10 + n % 10;
    if n < 10 then 9 else if n % 10 == 0 then UpperOf(n / 10) * 10 + 9 else n / 10 * 10 + 9
  }

  /** end with its trailing nines, and the digit above them, lowered to zero. */
  function LowerOf(n: nat): (l: nat)
    ensures l <= n && l % 10 == 0
  {
    assert n == n / 10 * 10 + n % 10;
    if n < 10 then 0 else if n % 10 == 9 then LowerOf(n / 10) * 10 else n / 10 * 10
  }

  function UpperDigits(s: string): string {
    if s == "" then ""
    else if s[|s| - 1] == '0' then UpperDigits(s[..|s| - 1]) + "9"
    else s[..|s| - 1] + "9"
  }

  function LowerDigits(s: string): string {
    if s == "" then ""
    else if s[|s| - 1] == '9' then LowerDigits(s[..|s| - 1]) + "0"
    else s[..|s| - 1] + "0"
  }

  lemma DigitsSnoc(s: string, c: char)
    requires AllDigits(s) && IsDigit(c)
    ensures AllDigits(s + [c]) && ToNat(s + [c]) == 10 * ToNat(s) + DigitValue(c)
  {
    assert (s + [c])[..|s + [c]| - 1] == s;
  }

  lemma UpperDigitsStep(n: nat)
    requires n >= 10
    ensures UpperDigits(Itoa(n)) ==
      (if n % 10 == 0 then UpperDigits(Itoa(n / 10)) else Itoa(n / 10)) + "9"
  {
    var s := Itoa(n);
    assert s[..|s| - 1] == Itoa(n / 10);
  }

  lemma {:induction false} UpperDigitsValue(n: nat)
    ensures var d := UpperDigits(Itoa(n));
      |d| == |Itoa(n)| && AllDigits(d) && ToNat(d) == UpperOf(n)
  {
    if n < 10 {
      assert Itoa(n)[..0] == "" && UpperDigits(Itoa(n)) == "" + "9";
      DigitsSnoc("", '9');
    } else {
      UpperDigitsStep(n);
      if n % 10 == 0 {
        UpperDigitsValue(n / 10);
        DigitsSnoc(UpperDigits(Itoa(n / 10)), '9');
      } else {
        ToNatOfItoa(n / 10);
        DigitsSnoc(Itoa(n / 10), '9');
      }
    }
  }

  lemma LowerDigitsStep(n: nat)
    requires n >= 10
    ensures LowerDigits(Itoa(n)) ==
      (if n % 10 == 9 then LowerDigits(Itoa(n / 10)) else Itoa(n / 10)) + "0"
  {
    var s := Itoa(n);
    assert s[..|s| - 1] == Itoa(n / 10);
  }

  lemma LowerDigitsOfDigit(n: nat)
    requires n < 10
    ensures LowerDigits(Itoa(n)) == "0" && |Itoa(n)| == 1 && AllDigits("0") && ToNat("0") == 0
  {
    assert Itoa(n)[..0] == "" && LowerDigits(Itoa(n)) == "" + "0";
    DigitsSnoc("", '0');
  }

  lemma {:induction false} LowerDigitsValue(n: nat)
    ensures var d := LowerDigits(Itoa(n));
      |d| == |Itoa(n)| && AllDigits(d) && ToNat(d) == LowerOf(n)
  {
    if n < 10 {
      LowerDigitsOfDigit(n);
    } else {
      LowerDigitsStep(n);
      if n % 10 == 9 {
        LowerDigitsValue(n / 10);
        DigitsSnoc(LowerDigits(Itoa(n / 10)), '0');
      } else {
        ToNatOfItoa(n / 10);
        DigitsSnoc(Itoa(n / 10), '0');
      }
    }
  }

  /** The overwritten digits after the loop stopped at position i (or ran off the front, when i is -1). */
  ghost predicate Overwritten(text: string, digits: string, i: int, skipped: char, written: char) {
    && |digits| == |text| && -1 <= i < |text|
    && (i >= 0 ==> text[i] != skipped)
    && (forall k :: i < k < |text| ==> text[k] == skipped)
    && (forall k :: 0 <= k < i ==> digits[k] == text[k])
    && (forall k :: 0 <= k < |text| && i <= k ==> digits[k] == written)
  }

  lemma {:induction false} OverwrittenIsUpper(text: string, digits: string, i: int)
    requires Overwritten(text, digits, i, '0', '9')
    ensures digits == UpperDigits(text)
  {
    if text != "" {
      var last := |text| - 1;
      assert digits == digits[..last] + "9";
      if i == last {
        assert digits[..last] == text[..last];
      } else {
        OverwrittenIsUpper(text[..last], digits[..last], i);
      }
    }
  }

  lemma {:induction false} OverwrittenIsLower(text: string, digits: string, i: int)
    requires Overwritten(text, digits, i, '9', '0')
    ensures digits == LowerDigits(text)
  {
    if text != "" {
      var last := |text| - 1;
      assert digits == digits[..last] + "0";
      if i == last {
        assert digits[..last] == text[..last];
      } else {
        OverwrittenIsLower(text[..last], digits[..last], i);
      }
    }
  }

  /** The bound getUpperRange computes. Past the largest int strconv.Atoi saturates, and its error is ignored. */
  function UpperBound(begin: int): int {
    Clamp(if begin >= 0 then UpperOf(begin) else -(UpperOf(-begin) as int))
  }

  lemma {:induction false} UpperDigitsSigned(n: nat)
    requires n > 0
    ensures UpperDigits("-" + Itoa(n)) == "-" + UpperDigits(Itoa(n))
  {
    var s := Itoa(n);
    var t := "-" + s;
    assert t[|t| - 1] == s[|s| - 1] && t[..|t| - 1] == "-" + s[..|s| - 1];
    if n >= 10 {
      assert s[..|s| - 1] == Itoa(n / 10);
      if n % 10 == 0 {
        UpperDigitsSigned(n / 10);
      }
    }
  }

  lemma UpperDigitsBound(begin: int)
    ensures AtoiValue(UpperDigits(SignedItoa(begin))) == UpperBound(begin)
  {
    var n: nat := if begin < 0 then -begin else begin;
    UpperDigitsValue(n);
    AtoiValueOfDigits(UpperDigits(Itoa(n)));
    if begin < 0 {
      UpperDigitsSigned(n);
    }
  }

  lemma UpperRead(begin: int, digits: string, i: int)
    requires Overwritten(SignedItoa(begin), digits, i, '0', '9')
    ensures AtoiValue(digits) == UpperBound(begin)
  {
    OverwrittenIsUpper(SignedItoa(begin), digits, i);
    UpperDigitsBound(begin);
  }

  lemma LowerRead(end: nat, digits: string, i: int)
    requires Overwritten(Itoa(end), digits, i, '9', '0') && end <= MAX_INT
    ensures AtoiValue(digits) == LowerOf(end)
  {
    OverwrittenIsLower(Itoa(end), digits, i);
    LowerDigitsBound(end);
  }

  lemma LowerDigitsBound(end: nat)
    requires end <= MAX_INT
    ensures AtoiValue(LowerDigits(Itoa(end))) == LowerOf(end)
  {
    LowerDigitsValue(end);
    AtoiValueOfDigits(LowerDigits(Itoa(end)));
  }

  method GetUpperRange(begin: int) returns (b: int, e: int)
    ensures b == begin && e == UpperBound(begin)
  {
    var text := SignedItoa(begin);
    var digits := new char[|text|](k requires 0 <= k < |text| => text[k]);
    var i := digits.Length - 1;
    while i >= 0
      invariant -1 <= i < digits.Length
      invariant forall k :: 0 <= k <= i ==> digits[k] == text[k]
      invariant forall k :: i < k < |text| ==> text[k] == '0' && digits[k] == '9'
    {
      var orig := digits[i];
      digits[i] := '9';
      if orig != '0' {
        break;
      }
      i := i - 1;
    }
    UpperRead(begin, digits[..], i);
    b, e := begin, AtoiValue(digits[..]);
  }

  method GetLowerRange(end: nat) returns (b: nat, e: nat)
    requires end <= MAX_INT
    ensures b == LowerOf(end) && e == end
  {
    var text := Itoa(end);
    var digits := new char[|text|](k requires 0 <= k < |text| => text[k]);
    var i := digits.Length - 1;
    while i >= 0
      invariant -1 <= i < digits.Length
      invariant forall k :: 0 <= k <= i ==> digits[k] == text[k]
      invariant forall k :: i < k < |text| ==> text[k] == '9' && digits[k] == '0'
    {
      var orig := digits[i];
      digits[i] := '0';
      if orig != '9' {
        break;
      }
      i := i - 1;
    }
    LowerRead(end, digits[..], i);
    b, e := AtoiValue(digits[..]), end;
  }

  // ---------- Splitting an interval ----------

  function SplitLeft(begin: nat, end: nat): seq<Piece>
    decreases end - begin
  {
    if begin < end then [Piece(begin, UpperOf(begin))] + SplitLeft(UpperOf(begin) + 1, end) else []
  }

  /** The right split, already in ascending order. The cursor end runs down to -1 at the lowest. */
  function SplitRight(begin: nat, end: int): seq<Piece>
    decreases end - begin
  {
    if begin < end then SplitRight(begin, LowerOf(end) - 1) + [Piece(LowerOf(end), end)] else []
  }

  /** Every upper bound of the left split is an int. */
  predicate SplitFits(begin: nat, end: nat)
    decreases end - begin
  {
    begin < end ==> UpperOf(begin) <= MAX_INT && SplitFits(UpperOf(begin) + 1, end)
  }

  /** The pieces lie end to end and cover exactly from..to. */
  predicate Chain(ps: seq<Piece>, from: int, to: int) {
    if ps == [] then from == to + 1
    else ps[0].lo == from && ps[0].lo <= ps[0].hi && Chain(ps[1..], ps[0].hi + 1, to)
  }

  lemma {:induction false} ChainConcat(ps: seq<Piece>, qs: seq<Piece>, from: int, mid: int, to: int)
    requires Chain(ps, from, mid) && Chain(qs, mid + 1, to)
    ensures Chain(ps + qs, from, to)
  {
    if ps == [] {
      assert ps + qs == qs;
    } else {
      assert (ps + qs)[1..] == ps[1..] + qs;
      ChainConcat(ps[1..], qs, ps[0].hi + 1, mid, to);
    }
  }

  predicate InPiece(p: Piece, n: nat) {
    p.lo <= n <= p.hi
  }

  lemma {:induction false} ChainCovers(ps: seq<Piece>, from: int, to: int, n: nat)
    requires Chain(ps, from, to)
    ensures from <= to + 1
    ensures from <= n <= to <==> exists i :: 0 <= i < |ps| && InPiece(ps[i], n)
  {
    if ps != [] {
      ChainCovers(ps[1..], ps[0].hi + 1, to, n);
      assert forall i :: 0 < i < |ps| ==> ps[i] == ps[1..][i - 1];
      if from <= n <= ps[0].hi {
        assert InPiece(ps[0], n);
      } else if i :| 0 <= i < |ps[1..]| && InPiece(ps[1..][i], n) {
        assert InPiece(ps[i + 1], n);
      }
    }
  }

  /** The last cursor of the left split: all earlier pieces end just below it. */
  lemma {:induction false} LeftParts(begin: nat, end: nat) returns (m: nat)
    requires begin < end
    ensures var ps := SplitLeft(begin, end);
      && ps != [] && ps[|ps| - 1] == Piece(m, UpperOf(m))
      && Chain(ps[..|ps| - 1], begin, m - 1)
      && (forall p :: p in ps ==> p.hi == UpperOf(p.lo))
    ensures begin <= m < end <= UpperOf(m) + 1
    decreases end - begin
  {
    var ps := SplitLeft(begin, end);
    var next := UpperOf(begin) + 1;
    var rest := SplitLeft(next, end);
    if next < end {
      m := LeftParts(next, end);
      assert ps[..|ps| - 1] == [ps[0]] + rest[..|rest| - 1];
      assert ps[..|ps| - 1][1..] == rest[..|rest| - 1];
    } else {
      m := begin;
      assert ps[..|ps| - 1] == [];
    }
  }

  /** The last cursor of the right split: all later pieces start just above it, and above begin. */
  lemma {:induction false} RightParts(begin: nat, end: nat) returns (y: nat)
    requires begin < end
    ensures var ps := SplitRight(begin, end);
      && ps != [] && ps[0] == Piece(LowerOf(y), y)
      && Chain(ps[1..], y + 1, end)
      && (forall p :: p in ps[1..] ==> p.lo == LowerOf(p.hi) && p.lo > begin)
    ensures LowerOf(y) - 1 <= begin < y <= end
    ensures y == end || y == end - 1 || LowerOf(end) > begin + 1
    ensures y == end ==> SplitRight(begin, end) == [Piece(LowerOf(end), end)]
    decreases end - begin
  {
    var ps := SplitRight(begin, end);
    var next := LowerOf(end) - 1;
    var piece := Piece(LowerOf(end), end);
    if begin < next {
      y := RightParts(begin, next);
      var init := SplitRight(begin, next);
      assert ps == init + [piece] && ps[1..] == init[1..] + [piece];
      assert Chain([piece], next + 1, end) by {
        assert [piece][1..] == [];
      }
      ChainConcat(init[1..], [piece], y + 1, next, end);
    } else {
      y := end;
      assert ps == [piece] && ps[1..] == [];
    }
  }

  /** The middle pieces, merged when they overlap. */
  function Middle(midLeft: Piece, midRight: Piece): seq<Piece> {
    if midRight.lo < midLeft.hi && midLeft.lo < midRight.hi then [Piece(midLeft.lo, midRight.hi)]
    else [midLeft, midRight]
  }

  /** The pieces Range2Re keeps. */
  function Pieces(begin: nat, end: nat): seq<Piece>
    requires begin < end
  {
    var left := SplitLeft(begin, end);
    LeftRightNonempty(begin, end);
    var right := SplitRight(left[|left| - 1].lo, end);
    left[..|left| - 1] + Middle(left[|left| - 1], right[0]) + right[1..]
  }

  lemma LeftRightNonempty(begin: nat, end: nat)
    requires begin < end
    ensures var left := SplitLeft(begin, end);
      left != [] && SplitRight(left[|left| - 1].lo, end) != []
  {
    var m := LeftParts(begin, end);
    var y := RightParts(m, end);
  }

  // ---------- Regular pieces ----------

  /** The bounds share a prefix; below it one digit varies, and below that the bounds are all zeros and all nines. */
  predicate Regular(lo: nat, hi: nat) {
    lo <= hi &&
    (hi < 10 ||
     (lo >= 10 && Regular(lo / 10, hi / 10) && (lo / 10 == hi / 10 || (lo % 10 == 0 && hi % 10 == 9))))
  }

  lemma DivMod(n: nat)
    ensures n == n / 10 * 10 + n % 10
  {
  }

  lemma {:induction false} RegularSingle(n: nat)
    ensures Regular(n, n)
  {
    if n >= 10 {
      RegularSingle(n / 10);
    }
  }

  lemma {:induction false} RegularUpper(n: nat)
    ensures Regular(n, UpperOf(n))
  {
    if n >= 10 {
      var u := UpperOf(n);
      if n % 10 == 0 {
        RegularUpper(n / 10);
        assert u / 10 == UpperOf(n / 10);
      } else {
        RegularSingle(n / 10);
        assert u / 10 == n / 10;
      }
    }
  }

  lemma {:induction false} RegularLower(n: nat)
    requires LowerOf(n) > 0
    ensures Regular(LowerOf(n), n)
  {
    if n >= 10 {
      var l := LowerOf(n);
      if n % 10 == 9 {
        RegularLower(n / 10);
        assert l / 10 == LowerOf(n / 10);
      } else {
        RegularSingle(n / 10);
        assert l / 10 == n / 10;
      }
    }
  }

  /** The merged middle piece is regular too: its bounds lie in each other's largest ranges. */
  lemma {:induction false} RegularMiddle(m: nat, y: nat)
    requires LowerOf(y) <= m <= y <= UpperOf(m)
    ensures Regular(m, y)
  {
    if y >= 10 {
      DivMod(m);
      DivMod(y);
      if m % 10 == 0 && y % 10 == 9 {
        assert m >= 10;
        RegularMiddle(m / 10, y / 10);
      } else {
        assert m / 10 == y / 10;
        RegularSingle(m / 10);
      }
    }
  }

  /** Either the middle pieces overlap and merge into a regular one, or they are exactly adjacent. */
  lemma MiddleRegularChain(m: nat, y: nat, end: nat)
    requires m < end <= UpperOf(m) + 1
    requires LowerOf(y) - 1 <= m < y <= end
    ensures var middle := Middle(Piece(m, UpperOf(m)), Piece(LowerOf(y), y));
      Chain(middle, m, y) && forall p :: p in middle ==> Regular(p.lo, p.hi)
  {
    var u, l := UpperOf(m), LowerOf(y);
    if l < u {
      MiddleOverlap(m, y);
      assert [Piece(m, y)][1..] == [];
    } else {
      MiddleAdjacent(m, y, end);
      assert [Piece(m, u), Piece(l, y)][1..] == [Piece(l, y)] && [Piece(l, y)][1..] == [];
    }
  }

  lemma MiddleOverlap(m: nat, y: nat)
    requires LowerOf(y) - 1 <= m < y <= UpperOf(m) + 1
    requires LowerOf(y) < UpperOf(m)
    ensures Regular(m, y)
  {
    UpperStops(m, y);
    LowerStops(m, y);
    RegularMiddle(m, y);
  }

  lemma UpperStops(m: nat, y: nat)
    requires m < y <= UpperOf(m) + 1 && LowerOf(y) < UpperOf(m)
    ensures y <= UpperOf(m)
  {
    if y == UpperOf(m) + 1 {
      LowerOfMultiple(y);
    }
  }

  lemma LowerStops(m: nat, y: nat)
    requires LowerOf(y) - 1 <= m < y && LowerOf(y) < UpperOf(m)
    ensures LowerOf(y) <= m
  {
    if LowerOf(y) == m + 1 {
      UpperOfNine(m);
    }
  }

  lemma MiddleAdjacent(m: nat, y: nat, end: nat)
    requires m < y <= end <= UpperOf(m) + 1
    requires LowerOf(y) >= UpperOf(m)
    ensures LowerOf(y) == UpperOf(m) + 1 == y
    ensures Regular(m, UpperOf(m)) && Regular(LowerOf(y), y)
  {
    RegularSingle(y);
    RegularUpper(m);
  }

  lemma UpperOfNine(n: nat)
    requires n % 10 == 9
    ensures UpperOf(n) == n
  {
  }

  lemma LowerOfMultiple(n: nat)
    requires n % 10 == 0
    ensures LowerOf(n) == n
  {
  }

  /** Every kept piece is regular, and together they cover begin..end end to end. */
  lemma PiecesRegularChain(begin: nat, end: nat)
    requires begin < end
    ensures Chain(Pieces(begin, end), begin, end)
    ensures forall p :: p in Pieces(begin, end) ==> Regular(p.lo, p.hi)
  {
    var m := LeftParts(begin, end);
    var y := RightParts(m, end);
    var left, right := SplitLeft(begin, end), SplitRight(m, end);
    var init, middle := left[..|left| - 1], Middle(Piece(m, UpperOf(m)), Piece(LowerOf(y), y));
    MiddleRegularChain(m, y, end);
    forall p | p in init
      ensures Regular(p.lo, p.hi)
    {
      RegularUpper(p.lo);
    }
    forall p | p in right[1..]
      ensures Regular(p.lo, p.hi)
    {
      RegularLower(p.hi);
    }
    ChainConcat(init, middle, begin, m as int - 1, y);
    ChainConcat(init + middle, right[1..], begin, y, end);
  }

  // ---------- Fragments ----------

  /** The text for one digit position. */
  function DigitClass(b: char, e: char): string {
    if b == e then [b] else ['[', b, '-', e, ']']
  }

  /** rangePartToRe on digit texts; the bounds' texts are read position by position. */
  function FragmentOf(bs: string, es: string): string
    requires |bs| <= |es|
  {
    if bs == "" then "" else DigitClass(bs[0], es[0]) + FragmentOf(bs[1..], es[1..])
  }

  lemma {:induction false} FragmentSnoc(bs: string, es: string, b: char, e: char)
    requires |bs| == |es|
    ensures FragmentOf(bs + [b], es + [e]) == FragmentOf(bs, es) + DigitClass(b, e)
  {
    if bs == "" {
      assert bs + [b] == [b] && es + [e] == [e];
    } else {
      FragmentSnoc(bs[1..], es[1..], b, e);
      assert (bs + [b])[1..] == bs[1..] + [b] && (es + [e])[1..] == es[1..] + [e];
    }
  }

  /** rangePartToRe. The source indexes the upper bound's text by positions of the lower bound's. */
  method RangePartToRe(begin: nat, end: nat) returns (re: string)
    requires |Itoa(begin)| <= |Itoa(end)|
    ensures re == FragmentOf(Itoa(begin), Itoa(end))
  {
    var beginStr, endStr := Itoa(begin), Itoa(end);
    re := "";
    var i := 0;
    assert beginStr[0..] == beginStr && endStr[0..] == endStr;
    while i < |beginStr|
      invariant 0 <= i <= |beginStr|
      invariant FragmentOf(beginStr, endStr) == re + FragmentOf(beginStr[i..], endStr[i..])
    {
      ghost var rest := FragmentOf(beginStr[i + 1..], endStr[i + 1..]);
      assert beginStr[i..][1..] == beginStr[i + 1..] && endStr[i..][1..] == endStr[i + 1..];
      Reassociate(re, DigitClass(beginStr[i], endStr[i]), rest);
      if beginStr[i] == endStr[i] {
        re := re + [beginStr[i]];
      } else {
        re := re + ['[', beginStr[i], '-', endStr[i], ']'];
      }
      i := i + 1;
    }
  }

  lemma {:induction false} RegularSameLength(lo: nat, hi: nat)
    requires Regular(lo, hi)
    ensures |Itoa(lo)| == |Itoa(hi)|
  {
    if hi >= 10 {
      RegularSameLength(lo / 10, hi / 10);
    }
  }

  /** The fragment of a regular piece. */
  function Fragment(p: Piece): string
    requires Regular(p.lo, p.hi)
  {
    RegularSameLength(p.lo, p.hi);
    FragmentOf(Itoa(p.lo), Itoa(p.hi))
  }

  function DigitToken(b: char, e: char): Token {
    if b == e then Lit(b) else Class(false, [(b, e)])
  }

  lemma DigitHead(b: char, e: char)
    requires IsDigit(b) && IsDigit(e) && b <= e
    ensures var pat := DigitClass(b, e);
      && HeadLength(pat) == |pat| && HeadToken(pat) == Ok(DigitToken(b, e))
      && (pat[0] == '[' ==> ClassEnd(pat) != -1 && Nameless(pat[1..ClassEnd(pat)]))
  {
    if b != e {
      var pat := DigitClass(b, e);
      DigitRange(b, e);
      ClosingBracketFound(pat, 4);
      assert pat[1..4] == [b, '-', e];
      assert HeadToken(pat) == ClassToken([b, '-', e]);
    }
  }

  lemma DigitClassToken(b: char, e: char)
    requires IsDigit(b) && IsDigit(e) && b <= e
    ensures Closed(DigitClass(b, e)) && Tokens(DigitClass(b, e)) == Ok([DigitToken(b, e)])
  {
    var pat := DigitClass(b, e);
    DigitHead(b, e);
    assert pat[|pat|..] == "" && Closed("") && Tokens("") == Ok([]);
    assert [DigitToken(b, e)] + [] == [DigitToken(b, e)];
  }

  lemma DigitRange(b: char, e: char)
    requires IsDigit(b) && IsDigit(e) && b <= e
    ensures ClassToken([b, '-', e]) == Ok(Class(false, [(b, e)]))
  {
    var stuff := [b, '-', e];
    assert stuff[1..] == ['-', e] && ['-', e][2..] == "";
    assert RangesOf("") == Ok([]);
    assert [(b, e)] + [] == [(b, e)];
    assert RangesOf(stuff) == RangesAfter(b, ['-', e]) == Ok([(b, e)]);
  }

  /** The compiled fragment: a literal or digit-range token for each position. */
  function FragmentTokens(lo: nat, hi: nat): seq<Token> {
    if hi < 10 then [DigitToken(DigitOf(lo % 10), DigitOf(hi))]
    else FragmentTokens(lo / 10, hi / 10) + [DigitToken(DigitOf(lo % 10), DigitOf(hi % 10))]
  }

  lemma {:induction false} FragmentCompiles(lo: nat, hi: nat)
    requires Regular(lo, hi)
    ensures var f := Fragment(Piece(lo, hi));
      Closed(f) && Tokens(f) == Ok(FragmentTokens(lo, hi))
  {
    if hi < 10 {
      FragmentBase(lo, hi);
      DigitClassToken(DigitOf(lo), DigitOf(hi));
    } else {
      FragmentCompiles(lo / 10, hi / 10);
      FragmentCompilesStep(lo, hi);
    }
  }

  lemma FragmentCompilesStep(lo: nat, hi: nat)
    requires hi >= 10 && Regular(lo, hi)
    requires var f := Fragment(Piece(lo / 10, hi / 10));
      Closed(f) && Tokens(f) == Ok(FragmentTokens(lo / 10, hi / 10))
    ensures var f := Fragment(Piece(lo, hi));
      Closed(f) && Tokens(f) == Ok(FragmentTokens(lo, hi))
  {
    var b, e := DigitOf(lo % 10), DigitOf(hi % 10);
    assert lo % 10 <= hi % 10 by {
      DivMod(lo);
      DivMod(hi);
    }
    DigitClassToken(b, e);
    FragmentStep(lo, hi);
    ConcatCompiles(Fragment(Piece(lo / 10, hi / 10)), DigitClass(b, e), Fragment(Piece(lo, hi)));
  }

  lemma ConcatCompiles(a: string, b: string, c: string)
    requires Closed(a) && Closed(b) && Tokens(a).Ok? && Tokens(b).Ok?
    requires c == a + b
    ensures Closed(c) && Tokens(c) == Ok(Tokens(a).value + Tokens(b).value)
  {
    TokensOfConcat(a, b);
    ClosedConcat(a, b);
  }

  lemma FragmentBase(lo: nat, hi: nat)
    requires lo <= hi < 10
    ensures Fragment(Piece(lo, hi)) == DigitClass(DigitOf(lo), DigitOf(hi))
  {
    var b, e := DigitOf(lo), DigitOf(hi);
    assert [b][1..] == "" && DigitClass(b, e) + "" == DigitClass(b, e);
    assert FragmentOf([b], [e]) == DigitClass(b, e);
  }

  lemma FragmentStep(lo: nat, hi: nat)
    requires hi >= 10 && Regular(lo, hi)
    ensures Fragment(Piece(lo, hi)) ==
      Fragment(Piece(lo / 10, hi / 10)) + DigitClass(DigitOf(lo % 10), DigitOf(hi % 10))
  {
    RegularSameLength(lo / 10, hi / 10);
    FragmentSnoc(Itoa(lo / 10), Itoa(hi / 10), DigitOf(lo % 10), DigitOf(hi % 10));
  }

  /** s is the decimal text of a number in lo..hi. */
  ghost predicate IsNumberIn(s: string, lo: nat, hi: nat) {
    exists n :: lo <= n <= hi && s == Itoa(n)
  }

  lemma LastTokenMatches(ts: seq<Token>, t: Token, s: string)
    requires t != Star
    ensures Matches(ts + [t], s) <==> s != "" && Matches(ts, s[..|s| - 1]) && Accepts(t, s[|s| - 1])
  {
    MatchesConcat(ts, [t], s);
    forall k | 0 <= k <= |s|
      ensures Matches([t], s[k..]) <==> k == |s| - 1 && Accepts(t, s[k])
    {
      assert [t][1..] == [];
    }
  }

  lemma DigitTokenAccepts(b: nat, e: nat, c: char)
    requires b <= e < 10
    ensures Accepts(DigitToken(DigitOf(b), DigitOf(e)), c) <==> IsDigit(c) && b <= DigitValue(c) <= e
  {
    var rs := [(DigitOf(b), DigitOf(e))];
    assert rs[0].0 <= c <= rs[0].1 ==> InRanges(rs, c);
  }

  /** A regular fragment matches exactly the decimal texts of its piece. */
  lemma {:induction false} FragmentExact(lo: nat, hi: nat, s: string)
    requires Regular(lo, hi)
    ensures Matches(FragmentTokens(lo, hi), s) <==> IsNumberIn(s, lo, hi)
  {
    var t := DigitToken(DigitOf(lo % 10), DigitOf(hi % 10));
    DivMod(lo);
    DivMod(hi);
    if hi < 10 {
      assert FragmentTokens(lo, hi) == [] + [t];
      LastTokenMatches([], t, s);
      if s != "" {
        DigitTokenAccepts(lo, hi, s[|s| - 1]);
        if |s| == 1 && IsDigit(s[0]) {
          assert s == Itoa(DigitValue(s[0]));
        }
      }
    } else {
      LastTokenMatches(FragmentTokens(lo / 10, hi / 10), t, s);
      if s != "" {
        FragmentExact(lo / 10, hi / 10, s[..|s| - 1]);
        DigitTokenAccepts(lo % 10, hi % 10, s[|s| - 1]);
        LastDigit(lo, hi, s);
      }
    }
  }

  /** A number lies in a regular piece exactly when its leading part and its last digit do. */
  lemma LastDigit(lo: nat, hi: nat, s: string)
    requires hi >= 10 && Regular(lo, hi) && s != ""
    ensures IsNumberIn(s, lo, hi) <==>
      IsNumberIn(s[..|s| - 1], lo / 10, hi / 10) && IsDigit(s[|s| - 1]) && lo % 10 <= DigitValue(s[|s| - 1]) <= hi % 10
  {
    var init := s[..|s| - 1];
    if n :| lo <= n <= hi && s == Itoa(n) {
      SplitNumber(lo, hi, n);
      assert init == Itoa(n / 10);
    }
    if IsNumberIn(init, lo / 10, hi / 10) && IsDigit(s[|s| - 1]) && lo % 10 <= DigitValue(s[|s| - 1]) <= hi % 10 {
      var q :| lo / 10 <= q <= hi / 10 && init == Itoa(q);
      var n := 10 * q + DigitValue(s[|s| - 1]);
      assert n / 10 == q && n % 10 == DigitValue(s[|s| - 1]);
      SplitNumber(lo, hi, n);
      assert s == init + [s[|s| - 1]];
      assert s == Itoa(n);
    }
  }

  lemma SplitNumber(lo: nat, hi: nat, n: nat)
    requires hi >= 10 && Regular(lo, hi)
    ensures lo <= n <= hi <==> lo / 10 <= n / 10 <= hi / 10 && lo % 10 <= n % 10 <= hi % 10
  {
    DivMod(lo);
    DivMod(hi);
    DivMod(n);
  }

  // ---------- Range2Re ----------

  /** The source does not return at all when a bound does not fit: SplitEndsExactly. */
  method SplitRangeLeft(begin: nat, end: nat) returns (splitList: seq<Piece>)
    requires SplitFits(begin, end)
    ensures splitList == SplitLeft(begin, end)
  {
    splitList := [];
    var cursor: int := begin;
    while cursor < end
      invariant cursor >= 0 && SplitFits(cursor, end)
      invariant SplitLeft(begin, end) == splitList + SplitLeft(cursor, end)
      decreases end - cursor
    {
      var b, e := GetUpperRange(cursor);
      ghost var rest := SplitLeft(e + 1, end);
      assert splitList + ([Piece(b, e)] + rest) == (splitList + [Piece(b, e)]) + rest;
      splitList := splitList + [Piece(b, e)];
      cursor := Successor(e);
    }
  }

  function Reversed<T>(s: seq<T>): (r: seq<T>)
    ensures |r| == |s|
    ensures forall k :: 0 <= k < |s| ==> r[k] == s[|s| - 1 - k]
  {
    seq(|s|, k requires 0 <= k < |s| => s[|s| - 1 - k])
  }

  lemma ReversedStep<T>(rest: seq<T>, x: T, s: seq<T>)
    ensures (rest + [x]) + Reversed(s) == rest + Reversed(s + [x])
  {
    assert Reversed(s + [x]) == [x] + Reversed(s);
  }

  /** Collects pieces from the top down, then reverses the list in place. */
  method SplitRangeRight(begin: nat, end: int) returns (splitList: seq<Piece>)
    requires end <= MAX_INT
    ensures splitList == SplitRight(begin, end)
  {
    splitList := [];
    var cursor := end;
    while cursor > begin
      invariant cursor <= MAX_INT
      invariant SplitRight(begin, end) == SplitRight(begin, cursor) + Reversed(splitList)
      decreases cursor - begin
    {
      var b, e := GetLowerRange(cursor);
      ReversedStep(SplitRight(begin, b as int - 1), Piece(b, e), splitList);
      splitList := splitList + [Piece(b, e)];
      cursor := b as int - 1;
    }
    ghost var collected := splitList;
    var i, j := 0, |splitList| - 1;
    while i < j
      invariant |splitList| == |collected| && 0 <= i && j == |splitList| - 1 - i
      invariant forall k :: 0 <= k < |splitList| && (k < i || k > j) ==> splitList[k] == Reversed(collected)[k]
      invariant forall k :: i <= k <= j ==> splitList[k] == collected[k]
    {
      splitList := splitList[i := splitList[j]][j := splitList[i]];
      i, j := i + 1, j - 1;
    }
    assert splitList == Reversed(collected);
  }

  /** The fragments of begin..end in order. */
  function RangeFragments(begin: nat, end: nat): seq<string>
    requires begin <= end && SplitFits(begin, end)
  {
    if begin == end then [Itoa(begin)]
    else
      var ps := Pieces(begin, end);
      PiecesRegularChain(begin, end);
      seq(|ps|, i requires 0 <= i < |ps| => Fragment(ps[i]))
  }

  /** The part of Range2Re that splits the interval from both ends and joins the two splits. */
  method SplitRanges(begin: nat, end: nat) returns (splitRanges: seq<Piece>)
    requires begin < end <= MAX_INT && SplitFits(begin, end)
    ensures splitRanges == Pieces(begin, end)
  {
    LeftRightNonempty(begin, end);
    var splitByLeft := SplitRangeLeft(begin, end);
    var midLeft := splitByLeft[|splitByLeft| - 1];
    splitByLeft := splitByLeft[..|splitByLeft| - 1];
    var splitByRight := SplitRangeRight(midLeft.lo, end);
    var midRight := splitByRight[0];
    splitByRight := splitByRight[1..];
    splitRanges := splitByLeft;
    if midRight.lo < midLeft.hi && midLeft.lo < midRight.hi {
      splitRanges := splitRanges + [Piece(midLeft.lo, midRight.hi)];
    } else {
      splitRanges := splitRanges + [midLeft, midRight];
    }
    splitRanges := splitRanges + splitByRight;
  }

  /** The last loop of Range2Re. */
  method RangePartsToRe(splitRanges: seq<Piece>) returns (reList: seq<string>)
    requires forall i :: 0 <= i < |splitRanges| ==> |Itoa(splitRanges[i].lo)| <= |Itoa(splitRanges[i].hi)|
    ensures |reList| == |splitRanges|
    ensures forall i :: 0 <= i < |reList| ==>
      reList[i] == FragmentOf(Itoa(splitRanges[i].lo), Itoa(splitRanges[i].hi))
  {
    reList := [];
    for i := 0 to |splitRanges|
      invariant |reList| == i
      invariant forall k :: 0 <= k < i ==>
        reList[k] == FragmentOf(Itoa(splitRanges[k].lo), Itoa(splitRanges[k].hi))
    {
      var re := RangePartToRe(splitRanges[i].lo, splitRanges[i].hi);
      reList := reList + [re];
    }
  }

  /** Range2Re. With begin > end the source's left split is empty and its last element does not exist. */
  method Range2Re(begin: nat, end: nat) returns (reList: seq<string>)
    requires begin <= end <= MAX_INT && SplitFits(begin, end)
    ensures reList == RangeFragments(begin, end)
  {
    if begin == end {
      return [Itoa(begin)];
    }
    var splitRanges := SplitRanges(begin, end);
    PieceTexts(begin, end);
    reList := RangePartsToRe(splitRanges);
  }

  lemma PieceTexts(begin: nat, end: nat)
    requires begin < end && SplitFits(begin, end)
    ensures var ps, fs := Pieces(begin, end), RangeFragments(begin, end);
      |fs| == |ps| && forall i :: 0 <= i < |ps| ==>
        |Itoa(ps[i].lo)| == |Itoa(ps[i].hi)| && fs[i] == FragmentOf(Itoa(ps[i].lo), Itoa(ps[i].hi))
  {
    PiecesRegularChain(begin, end);
    var ps := Pieces(begin, end);
    forall i | 0 <= i < |ps|
      ensures |Itoa(ps[i].lo)| == |Itoa(ps[i].hi)|
    {
      assert ps[i] in ps;
      RegularSameLength(ps[i].lo, ps[i].hi);
    }
  }

  lemma NumberText(n: nat)
    ensures IsPlain(Itoa(n)) && ',' !in Itoa(n) && '-' !in Itoa(n) && ']' !in Itoa(n)
  {
  }

  /** The fragments match exactly the canonical decimal texts of begin..end: none missing, none extra. */
  lemma RangeExact(begin: nat, end: nat, s: string)
    requires begin <= end && SplitFits(begin, end)
    ensures (exists f :: f in RangeFragments(begin, end) && Fnmatch(f, s)) <==> IsNumberIn(s, begin, end)
  {
    var fs := RangeFragments(begin, end);
    if begin == end {
      NumberText(begin);
      PlainMatchesItself(Itoa(begin), s);
      assert Itoa(begin) in fs;
    } else {
      var ps := Pieces(begin, end);
      PiecesRegularChain(begin, end);
      forall i | 0 <= i < |ps|
        ensures fs[i] == Fragment(ps[i]) && (Fnmatch(fs[i], s) <==> IsNumberIn(s, ps[i].lo, ps[i].hi))
        ensures begin <= ps[i].lo && ps[i].hi <= end
      {
        FragmentCompiles(ps[i].lo, ps[i].hi);
        FragmentExact(ps[i].lo, ps[i].hi, s);
        TokensMeanFnmatch(fs[i], s);
        assert ps[i] in ps;
        assert InPiece(ps[i], ps[i].lo) && InPiece(ps[i], ps[i].hi);
        ChainCovers(ps, begin, end, ps[i].lo);
        ChainCovers(ps, begin, end, ps[i].hi);
      }
      if n :| begin <= n <= end && s == Itoa(n) {
        ChainCovers(ps, begin, end, n);
        var i :| 0 <= i < |ps| && InPiece(ps[i], n);
        assert fs[i] in fs && Fnmatch(fs[i], s);
      }
    }
  }

  /** Every fragment compiles and closes its classes. */
  lemma RangeCompiles(begin: nat, end: nat, f: string)
    requires begin <= end && SplitFits(begin, end) && f in RangeFragments(begin, end)
    ensures Closed(f) && Tokens(f).Ok?
  {
    if begin == end {
      NumberText(begin);
      PlainTokens(f);
    } else {
      var p := PieceOf(begin, end, f);
      FragmentCompiles(p.lo, p.hi);
    }
  }

  lemma PieceOf(begin: nat, end: nat, f: string) returns (p: Piece)
    requires begin < end && SplitFits(begin, end) && f in RangeFragments(begin, end)
    ensures Regular(p.lo, p.hi) && f == Fragment(p)
  {
    var ps := Pieces(begin, end);
    PiecesRegularChain(begin, end);
    var i :| 0 <= i < |ps| && f == Fragment(ps[i]);
    assert ps[i] in ps;
    p := ps[i];
  }

  // ---------- How many fragments ----------

  function Pow10(k: nat): (p: nat)
    ensures p > 0
  {
    if k == 0 then 1 else 10 * Pow10(k - 1)
  }

  lemma {:induction false} Pow10Monotone(j: nat, k: nat)
    requires Pow10(j) < Pow10(k)
    ensures j < k
    decreases j
  {
    if j > 0 && k > 0 {
      Pow10Monotone(j - 1, k - 1);
    }
  }

  lemma {:induction false} DigitCount(n: nat)
    ensures n < Pow10(|Itoa(n)|)
  {
    if n >= 10 {
      DigitCount(n / 10);
      DivMod(n);
    }
  }

  lemma TimesTen(q: nat, p: nat)
    ensures q * (10 * p) == 10 * (q * p)
  {
  }

  /** Trailing zeros strictly increase: a cursor with k of them moves to one with at least k + 1. */
  lemma {:induction false} LeftCursorZeros(n: nat, k: nat, q: nat) returns (q': nat)
    requires n == q * Pow10(k) && (k == 0 || n > 0)
    ensures UpperOf(n) + 1 == q' * Pow10(k + 1)
    decreases k
  {
    if k == 0 {
      q' := (UpperOf(n) + 1) / 10;
      DivMod(UpperOf(n) + 1);
    } else {
      var p := q * Pow10(k - 1);
      TimesTen(q, Pow10(k - 1));
      assert n / 10 == p;
      q' := LeftCursorZeros(p, k - 1, q);
      TimesTen(q', Pow10(k));
    }
  }

  /** Trailing nines strictly increase on the right: y with k of them moves to one with at least k + 1. */
  lemma {:induction false} RightCursorNines(y: nat, k: nat, q: nat) returns (q': nat)
    requires y + 1 == q * Pow10(k)
    ensures LowerOf(y) == q' * Pow10(k + 1)
    decreases k
  {
    if k == 0 {
      q' := LowerOf(y) / 10;
      DivMod(LowerOf(y));
    } else {
      var p := q * Pow10(k - 1);
      TimesTen(q, Pow10(k - 1));
      if y < 10 {
        q' := 0;
      } else {
        assert y / 10 == p - 1 && y % 10 == 9;
        q' := RightCursorNines(y / 10, k - 1, q);
        TimesTen(q', Pow10(k));
      }
    }
  }

  lemma MultipleAtLeast(n: nat, q: nat, p: nat)
    requires n == q * p && n > 0
    ensures p <= n
  {
    if q > 0 {
      assert (q - 1) * p >= 0;
    }
  }

  lemma {:induction false} LeftCount(begin: nat, end: nat, k: nat, q: nat, d: nat)
    requires begin == q * Pow10(k) && (k == 0 || begin > 0)
    requires begin < end <= Pow10(d) && d >= 1
    ensures k < d && |SplitLeft(begin, end)| <= d - k
    decreases end - begin
  {
    if k > 0 {
      MultipleAtLeast(begin, q, Pow10(k));
      Pow10Monotone(k, d);
    }
    var q' := LeftCursorZeros(begin, k, q);
    if UpperOf(begin) + 1 < end {
      LeftCount(UpperOf(begin) + 1, end, k + 1, q', d);
    }
  }

  lemma {:induction false} RightCount(begin: nat, y: nat, k: nat, q: nat, d: nat)
    requires y + 1 == q * Pow10(k)
    requires begin < y < Pow10(d) && d >= 1 && (k > 0 ==> y + 1 < Pow10(d))
    ensures k < d && |SplitRight(begin, y)| <= d - k
    decreases y - begin
  {
    if k > 0 {
      MultipleAtLeast(y + 1, q, Pow10(k));
      Pow10Monotone(k, d);
    }
    var q' := RightCursorNines(y, k, q);
    if begin < LowerOf(y) - 1 {
      RightCount(begin, LowerOf(y) - 1, k + 1, q', d);
    }
  }

  lemma PieceCount(begin: nat, end: nat, m: nat)
    requires begin < end && m < end
    requires SplitLeft(begin, end) != [] && SplitLeft(begin, end)[|SplitLeft(begin, end)| - 1].lo == m
    ensures |Pieces(begin, end)| <= |SplitLeft(begin, end)| + |SplitRight(m, end)|
  {
    LeftRightNonempty(begin, end);
  }

  /** At most two fragments for each digit of end. */
  lemma FragmentCount(begin: nat, end: nat)
    requires begin <= end && SplitFits(begin, end)
    ensures |RangeFragments(begin, end)| <= 2 * |Itoa(end)|
  {
    if begin < end {
      var d := |Itoa(end)|;
      DigitCount(end);
      LeftCount(begin, end, 0, begin, d);
      var m := LeftParts(begin, end);
      RightCount(m, end, 0, end + 1, d);
      PieceCount(begin, end, m);
      PieceTexts(begin, end);
    }
  }

  // ---------- The cursors of the left split ----------

  /** The next multiple of 10^k above n. */
  function RoundUp(n: nat, k: nat): nat {
    (n / Pow10(k) + 1) * Pow10(k)
  }

  /** Rounding up to a multiple of 10^k is a step of its own: n is not such a multiple already, or is 0. */
  predicate Rounds(n: nat, k: nat) {
    k >= 1 && (n == 0 || n % Pow10(k) != 0)
  }

  ghost predicate RoundsTo(n: nat, c: nat) {
    exists k: nat :: Rounds(n, k) && RoundUp(n, k) == c
  }

  /** The left split that starts at begin comes to the cursor c. */
  predicate Reached(begin: nat, c: nat)
    decreases c - begin
  {
    begin == c || (begin < c && Reached(UpperOf(begin) + 1, c))
  }

  lemma DivDiv(n: nat, p: nat)
    requires p > 0
    ensures n / (10 * p) == n / 10 / p
    ensures n % (10 * p) == n / 10 % p * 10 + n % 10
  {
    var q, r := n / 10 / p, n / 10 % p;
    assert n / 10 == q * p + r;
    assert n == 10 * (q * p + r) + n % 10;
    TimesTen(q, p);
    DivModUnique(n, 10 * p, q, r * 10 + n % 10);
  }

  lemma DivModUnique(n: nat, d: nat, q: nat, r: nat)
    requires d > 0 && n == q * d + r && r < d
    ensures n / d == q && n % d == r
  {
    var q', r' := n / d, n % d;
    QuotientsDiffer(q, r, q', r', d);
    QuotientsDiffer(q', r', q, r, d);
  }

  lemma QuotientsDiffer(q: nat, r: nat, q': nat, r': nat, d: nat)
    requires q * d + r == q' * d + r' && r' < d
    ensures q <= q'
  {
    if q > q' {
      TimesMonotone(q, q', d);
    }
  }

  lemma {:induction false} TimesMonotone(q: nat, q': nat, d: nat)
    requires q > q'
    ensures q * d >= q' * d + d
    decreases q
  {
    assert q * d == (q - 1) * d + d;
    if q - 1 > q' {
      TimesMonotone(q - 1, q', d);
    }
  }

  /** Rounding n to 10^(k+1) is rounding n / 10 to 10^k. */
  lemma RoundUpTens(n: nat, k: nat)
    ensures RoundUp(n, k + 1) == 10 * RoundUp(n / 10, k)
    ensures n % Pow10(k + 1) == 0 <==> n % 10 == 0 && n / 10 % Pow10(k) == 0
  {
    DivDiv(n, Pow10(k));
    TimesTen(n / 10 / Pow10(k) + 1, Pow10(k));
  }

  /** x and x + 1 round to the same multiple, unless x + 1 is one. */
  lemma RoundUpNext(x: nat, k: nat)
    ensures if (x + 1) % Pow10(k) == 0 then RoundUp(x, k) == x + 1 else RoundUp(x + 1, k) == RoundUp(x, k)
  {
    NextQuotient(x, Pow10(k));
  }

  lemma NextQuotient(x: nat, p: nat)
    requires p > 0
    ensures if x % p == p - 1 then (x + 1) % p == 0 && (x / p + 1) * p == x + 1
      else (x + 1) % p == x % p + 1 && (x + 1) / p == x / p
  {
    var q, r := x / p, x % p;
    assert (q + 1) * p == q * p + p;
    if r + 1 == p {
      DivModUnique(x + 1, p, q + 1, 0);
    } else {
      DivModUnique(x + 1, p, q, r + 1);
    }
  }

  /** The numbers begin rounds to are the next cursor and what that one rounds to. */
  lemma {:induction false} RoundsStep(n: nat, c: nat)
    ensures RoundsTo(n, c) <==> c == UpperOf(n) + 1 || RoundsTo(UpperOf(n) + 1, c)
  {
    if n > 0 && n % 10 == 0 {
      RoundsStep(n / 10, c / 10);
      RoundsTens(n, c);
      RoundsTens(UpperOf(n) + 1, c);
    } else {
      RoundsStepPlain(n, c);
    }
  }

  /** For a number that ends in 0 the roundings are those of its tenth. */
  lemma RoundsTens(n: nat, c: nat)
    requires n > 0 && n % 10 == 0
    ensures RoundsTo(n, c) <==> c % 10 == 0 && RoundsTo(n / 10, c / 10)
  {
    assert Pow10(0) == 1 && Pow10(1) == 10;
    if k: nat :| Rounds(n, k) && RoundUp(n, k) == c {
      RoundUpTens(n, k - 1);
      assert Rounds(n / 10, k - 1) && RoundUp(n / 10, k - 1) == c / 10;
    }
    if k: nat :| Rounds(n / 10, k) && RoundUp(n / 10, k) == c / 10 && c % 10 == 0 {
      RoundUpTens(n, k);
      assert Rounds(n, k + 1) && RoundUp(n, k + 1) == c;
    }
  }

  /** A number that does not end in 0, or is 0, rounds to the next ten, and from there on as that ten does. */
  lemma RoundsStepPlain(n: nat, c: nat)
    requires n == 0 || n % 10 != 0
    ensures RoundsTo(n, c) <==> c == UpperOf(n) + 1 || RoundsTo(UpperOf(n) + 1, c)
  {
    var x := n / 10;
    var next := 10 * (x + 1);
    assert Pow10(0) == 1 && Pow10(1) == 10;
    assert next == UpperOf(n) + 1;
    if k: nat :| Rounds(n, k) && RoundUp(n, k) == c {
      RoundNextTen(n, k);
    }
    assert Rounds(n, 1) && RoundUp(n, 1) == next;
    if k: nat :| Rounds(next, k) && RoundUp(next, k) == c {
      RoundNextTen(n, k);
    }
  }

  /** From the next ten on, a number that does not end in 0 rounds as that ten does. */
  lemma RoundNextTen(n: nat, k: nat)
    requires k >= 1 && (n == 0 || n % 10 != 0)
    ensures var next := 10 * (n / 10 + 1);
      Rounds(n, k) && (if Rounds(next, k) then RoundUp(next, k) == RoundUp(n, k) else RoundUp(n, k) == next)
  {
    var x := n / 10;
    RoundUpTens(n, k - 1);
    RoundUpTens(10 * (x + 1), k - 1);
    RoundUpNext(x, k - 1);
  }

  lemma RoundsAbove(n: nat, c: nat)
    requires RoundsTo(n, c)
    ensures c > n
  {
    var k: nat :| Rounds(n, k) && RoundUp(n, k) == c;
    RemainderBelow(n, Pow10(k));
  }

  lemma RemainderBelow(n: nat, p: nat)
    requires p > 0
    ensures (n / p + 1) * p > n
  {
    assert (n / p + 1) * p == n / p * p + p;
  }

  /** The cursors after begin are the numbers begin rounds to. */
  lemma {:induction false} CursorsAreRoundings(begin: nat, c: nat)
    requires begin < c
    ensures Reached(begin, c) <==> RoundsTo(begin, c)
    decreases c - begin
  {
    var next := UpperOf(begin) + 1;
    RoundsStep(begin, c);
    if next < c {
      CursorsAreRoundings(next, c);
    } else if RoundsTo(next, c) {
      RoundsAbove(next, c);
    }
  }

  /**
   * The comment on splitRangeLeft promises a last upper bound of end at least. It falls short, by one, exactly when
   * begin rounds to end.
   */
  lemma LastUpperShort(begin: nat, end: nat)
    requires begin < end
    ensures var ps := SplitLeft(begin, end);
      ps != [] && (ps[|ps| - 1].hi < end <==> RoundsTo(begin, end))
    decreases end - begin
  {
    var next := UpperOf(begin) + 1;
    RoundsStep(begin, end);
    if next < end {
      LastUpperShort(next, end);
    } else if RoundsTo(next, end) {
      RoundsAbove(next, end);
    }
  }

  /** One such input: the split of 9..10 stops at 9. */
  lemma NineTenShort()
    ensures SplitLeft(9, 10) == [Piece(9, 9)]
  {
    assert UpperOf(9) == 9;
  }

  // ---------- When the left split ends ----------

  /** The cursor of splitRangeLeft after n turns, on Go's int. */
  function CursorAfter(begin: int, n: nat): int
    decreases n
  {
    if n == 0 then begin else CursorAfter(Successor(UpperBound(begin)), n - 1)
  }

  ghost predicate SplitEnds(begin: int, end: int) {
    exists n: nat :: CursorAfter(begin, n) >= end
  }

  /** At the least int the cursor stays: its digits saturate downwards for ever. */
  lemma {:induction false} CursorStuck(begin: int, n: nat)
    requires begin == MIN_INT || begin == MIN_INT + 1
    ensures CursorAfter(begin, n) < 0
    decreases n
  {
    if n > 0 {
      assert UpperOf(-begin) >= -begin;
      CursorStuck(Successor(UpperBound(begin)), n - 1);
    }
  }

  lemma {:induction false} CursorNeverArrives(begin: nat, end: nat, n: nat)
    requires begin <= MAX_INT && !SplitFits(begin, end)
    ensures CursorAfter(begin, n) < end
    decreases n
  {
    if n > 0 {
      if UpperOf(begin) > MAX_INT {
        CursorStuck(MIN_INT, n - 1);
      } else {
        CursorNeverArrives(UpperOf(begin) + 1, end, n - 1);
      }
    }
  }

  lemma {:induction false} CursorArrives(begin: nat, end: nat) returns (n: nat)
    requires SplitFits(begin, end)
    ensures CursorAfter(begin, n) >= end
    decreases end - begin
  {
    if begin < end {
      var m := CursorArrives(UpperOf(begin) + 1, end);
      n := m + 1;
    } else {
      n := 0;
    }
  }

  /** splitRangeLeft returns exactly when all its upper bounds are ints. */
  lemma SplitEndsExactly(begin: nat, end: nat)
    requires begin <= MAX_INT && end <= MAX_INT
    ensures SplitEnds(begin, end) <==> SplitFits(begin, end)
  {
    if SplitFits(begin, end) {
      var n := CursorArrives(begin, end);
    } else {
      forall n: nat
        ensures CursorAfter(begin, n) < end
      {
        CursorNeverArrives(begin, end, n);
      }
    }
  }

  /** begin rounds to some int from end on. */
  ghost predicate RoundsPast(begin: nat, end: nat) {
    exists c: nat :: end <= c <= MAX_INT && RoundsTo(begin, c)
  }

  /** The same in terms of the two ends: some rounding of begin lies between end and the largest int. */
  lemma {:induction false} SplitFitsExactly(begin: nat, end: nat)
    requires begin < end <= MAX_INT
    ensures SplitFits(begin, end) <==> RoundsPast(begin, end)
    decreases end - begin
  {
    var next := UpperOf(begin) + 1;
    if next < end {
      SplitFitsExactly(next, end);
    }
    if c: nat :| end <= c <= MAX_INT && RoundsTo(begin, c) {
      RoundsStep(begin, c);
      if c != next {
        RoundsAbove(next, c);
        assert RoundsPast(next, end);
      }
    }
    if SplitFits(begin, end) {
      assert next <= MAX_INT;
      if next < end {
        var c: nat :| end <= c <= MAX_INT && RoundsTo(next, c);
        RoundsStep(begin, c);
      } else {
        RoundsStep(begin, next);
      }
    }
  }

  lemma {:induction false} UpperBelow(n: nat, k: nat)
    requires n < Pow10(k) && k >= 1
    ensures UpperOf(n) < Pow10(k)
    decreases k
  {
    if n >= 10 {
      assert Pow10(1) == 10;
      UpperBelow(n / 10, k - 1);
    }
  }

  /** Every range that ends at 10^18 or below is split. */
  lemma {:induction false} SmallRangeFits(begin: nat, end: nat)
    requires end <= 1_000_000_000_000_000_000
    ensures SplitFits(begin, end)
    decreases end - begin
  {
    if begin < end {
      PowersOfTen();
      UpperBelow(begin, 18);
      SmallRangeFits(UpperOf(begin) + 1, end);
    }
  }

  /** The shortest range from 1 on which the source never returns. */
  lemma EndlessSplit()
    ensures !SplitEnds(1, 1_000_000_000_000_000_001)
  {
    var end := 1_000_000_000_000_000_001;
    if c: nat :| end <= c <= MAX_INT && RoundsTo(1, c) {
      var k: nat :| Rounds(1, k) && RoundUp(1, k) == c;
      RoundUpOne(k);
      NoPowerBetween(k);
    }
    SplitFitsExactly(1, end);
    SplitEndsExactly(1, end);
  }

  lemma RoundUpOne(k: nat)
    requires k >= 1
    ensures RoundUp(1, k) == Pow10(k)
  {
    DivModUnique(1, Pow10(k), 0, 1);
  }

  lemma NoPowerBetween(k: nat)
    ensures Pow10(k) <= 1_000_000_000_000_000_000 || Pow10(k) > MAX_INT
  {
    PowersOfTen();
    if 1_000_000_000_000_000_000 < Pow10(k) < Pow10(19) {
      Pow10Monotone(18, k);
      Pow10Monotone(k, 19);
    }
  }

  lemma PowersOfTen()
    ensures Pow10(18) == 1_000_000_000_000_000_000 && Pow10(19) == 10_000_000_000_000_000_000
  {
    assert Pow10(3) == 1000;
    assert Pow10(6) == 1000 * Pow10(3);
    assert Pow10(9) == 1000 * Pow10(6);
    assert Pow10(12) == 1000 * Pow10(9);
    assert Pow10(15) == 1000 * Pow10(12);
    assert Pow10(18) == 1000 * Pow10(15);
  }
}
