/** internal/expression/parse.go: expanding the bracket blocks of an expression into glob candidates. */
module Parse {
  import opened Text
  import opened Decimal
  import opened Glob
  import opened RangeRegex

  /**
   * ErrExpressionSyntax and the text it quotes. Endless is no error of the source: it stands for a call that does not
   * return, because Range2Re loops for ever on this range.
   */
  datatype SyntaxError = MissingBracket(rest: string) | BadRangeText(text: string) | Endless(range: string)

  type Expansion = Result<seq<string>, SyntaxError>

  /** The call that computes this expansion returns. */
  predicate Returns(r: Expansion) {
    r.Err? ==> !r.error.Endless?
  }

  datatype MatchType = Word | Range | WordList | BuildInEnum | BuildInExclude

  // ---------- Classifying a block ----------

  function GetMatchType(e: string): MatchType {
    if e != "" && e[0] == '[' && e[|e| - 1] == ']' then BuildInEnum
    else if e != "" && e[0] == '!' then BuildInExclude
    else if ',' in e then WordList
    else if '-' in e && IsRangeFormat(e) && (IsSingleAlphaRange(e) || IsNumberRange(e)) then Range
    else Word
  }

  predicate IsRangeFormat(e: string) {
    |Split(e, '-')| == 2
  }

  predicate IsAlpha(c: char) {
    'a' <= c <= 'z' || 'A' <= c <= 'Z'
  }

  predicate IsLower(c: char) {
    'a' <= c <= 'z'
  }

  predicate IsSingleAlphaRange(e: string) {
    IsRangeFormat(e) &&
    var begin, end := Split(e, '-')[0], Split(e, '-')[1];
    |begin| == 1 && |end| == 1 && IsAlpha(begin[0]) && IsAlpha(end[0])
    && IsLower(begin[0]) == IsLower(end[0]) && begin[0] < end[0]
  }

  predicate IsNumberRange(e: string) {
    IsRangeFormat(e) &&
    var begin, end := Split(e, '-')[0], Split(e, '-')[1];
    Atoi(begin).Some? && Atoi(end).Some?
    && !(begin != "" && begin[0] == '-') && !(end != "" && end[0] == '-')
    && Atoi(begin).value < Atoi(end).value
  }

  function ParseWordList(e: string): seq<string> {
    var parts := Split(e, ',');
    seq(|parts|, i requires 0 <= i < |parts| => TrimSpace(parts[i]))
  }

  function ParseRangeExpression(e: string): Expansion {
    if IsSingleAlphaRange(e) then Ok(["[" + e + "]"])
    else if IsNumberRange(e) then
      var parts := Split(e, '-');
      var begin, end := Atoi(parts[0]).value, Atoi(parts[1]).value;
      if SplitFits(begin, end) then Ok(RangeFragments(begin, end)) else Err(Endless(e))
    else Err(BadRangeText(e))
  }

  /** If e is a number range, Range2Re returns on it. */
  predicate RangeReturns(e: string) {
    IsNumberRange(e) ==> SplitFits(Atoi(Split(e, '-')[0]).value, Atoi(Split(e, '-')[1]).value)
  }

  // ---------- Why parseEnumExpression's recursion is finite ----------

  /** Word lists expand to ranges and words, ranges to texts that are not expanded again. */
  function Rank(e: string): nat {
    match GetMatchType(e)
    case WordList => 2
    case Range => 1
    case _ => 0
  }

  lemma WordsRankBelowList(e: string)
    ensures forall w :: w in ParseWordList(e) ==> ',' !in w && Rank(w) < 2
  {
    SplitParts(e, ',');
    var parts := Split(e, ',');
    forall w | w in ParseWordList(e)
      ensures ',' !in w
    {
      var i :| 0 <= i < |parts| && w == TrimSpace(parts[i]);
      assert parts[i] in parts;
    }
  }

  /** Every hyphen is the middle of a class, there is no comma, and the text does not start with '!'. */
  predicate HyphensInClasses(f: string) {
    && ',' !in f && (f != "" ==> f[0] != '!')
    && forall i :: 0 <= i < |f| && f[i] == '-' ==> i >= 2 && f[i - 2] == '['
  }

  lemma {:induction false} FragmentShape(bs: string, es: string)
    requires |bs| == |es| && AllDigits(bs) && AllDigits(es)
    ensures HyphensInClasses(FragmentOf(bs, es))
  {
    if bs != "" {
      FragmentShape(bs[1..], es[1..]);
      var head, rest := DigitClass(bs[0], es[0]), FragmentOf(bs[1..], es[1..]);
      var f := head + rest;
      forall i | 0 <= i < |f| && f[i] == '-'
        ensures i >= 2 && f[i - 2] == '['
      {
        if i >= |head| {
          assert rest[i - |head|] == '-';
        }
      }
    }
  }

  lemma HyphensInClassesRank(f: string)
    requires HyphensInClasses(f)
    ensures Rank(f) == 0
  {
    if '-' in f && IsRangeFormat(f) {
      IndexFirst(f, '-');
      var i := Index(f, '-');
      var begin := Split(f, '-')[0];
      assert begin == f[..i] && begin[i - 2] == '[' && |begin| >= 2;
      assert !AllDigits(begin);
      if begin[0] == '+' || begin[0] == '-' {
        assert begin[1..][i - 3] == '[';
        assert !AllDigits(begin[1..]);
      }
    }
  }

  /** Every fragment of Range2Re is a text that is not expanded again. */
  lemma FragmentsRankZero(begin: nat, end: nat, f: string)
    requires begin <= end && SplitFits(begin, end) && f in RangeFragments(begin, end)
    ensures Rank(f) == 0 && GetMatchType(f) != BuildInExclude
  {
    assert HyphensInClasses(f) by {
      if begin == end {
        NumberText(begin);
      } else {
        PieceTexts(begin, end);
        var ps, fs := Pieces(begin, end), RangeFragments(begin, end);
        var i :| 0 <= i < |fs| && f == fs[i];
        FragmentShape(Itoa(ps[i].lo), Itoa(ps[i].hi));
      }
    }
    HyphensInClassesRank(f);
  }

  lemma RangeRankBelow(e: string)
    requires GetMatchType(e) == Range
    ensures if RangeReturns(e) then ParseRangeExpression(e).Ok? else ParseRangeExpression(e) == Err(Endless(e))
    ensures ParseRangeExpression(e).Ok? ==>
      forall f :: f in ParseRangeExpression(e).value ==> Rank(f) == 0 && GetMatchType(f) != BuildInExclude
  {
    if IsSingleAlphaRange(e) {
      var f := "[" + e + "]";
      assert GetMatchType(f) == BuildInEnum;
      LettersNoNumberRange(e);
    } else if RangeReturns(e) {
      var parts := Split(e, '-');
      forall f | f in ParseRangeExpression(e).value
        ensures Rank(f) == 0 && GetMatchType(f) != BuildInExclude
      {
        FragmentsRankZero(Atoi(parts[0]).value, Atoi(parts[1]).value, f);
      }
    }
  }

  lemma LettersNoNumberRange(e: string)
    requires IsSingleAlphaRange(e)
    ensures !IsNumberRange(e)
  {
    assert !IsDigit(Split(e, '-')[0][0]);
  }

  // ---------- Expanding one block ----------

  /** parseEnumExpression. Its error branch cannot be taken: a block classified as a range is one. */
  function ParseEnum(e: string): (r: Expansion)
    ensures r.Err? ==> r.error.Endless?
    decreases Rank(e), 1, 0
  {
    match GetMatchType(e)
    case Word => Ok([e])
    case BuildInEnum => Ok([e])
    case BuildInExclude => Ok(["[" + e + "]"])
    case WordList =>
      WordsRankBelowList(e);
      ParseEach(ParseWordList(e), 2)
    case Range =>
      RangeRankBelow(e);
      match ParseRangeExpression(e)
      case Err(error) => Err(error)
      case Ok(frags) => ParseEach(frags, 1)
  }

  function ParseEach(es: seq<string>, bound: nat): (r: Expansion)
    requires forall e :: e in es ==> Rank(e) < bound
    ensures r.Err? ==> r.error.Endless?
    decreases bound, 0, |es|
  {
    if es == [] then Ok([])
    else
      match ParseEnum(es[0])
      case Err(error) => Err(error)
      case Ok(first) =>
        match ParseEach(es[1..], bound)
        case Err(error) => Err(error)
        case Ok(rest) => Ok(first + rest)
  }

  /** Texts that stand for themselves are left alone. */
  lemma {:induction false} ParseEachFixed(es: seq<string>, bound: nat)
    requires forall e :: e in es ==> Rank(e) < bound && Rank(e) == 0 && GetMatchType(e) != BuildInExclude
    ensures ParseEach(es, bound) == Ok(es)
  {
    if es != [] {
      assert es[0] in es;
      ParseEachFixed(es[1..], bound);
      assert es == [es[0]] + es[1..];
    }
  }

  /** A range block expands to exactly what its range expression does: the fragments are fixed points. */
  lemma ParseEnumOfRange(e: string)
    requires GetMatchType(e) == Range
    ensures ParseEnum(e) == ParseRangeExpression(e)
  {
    RangeRankBelow(e);
    if ParseRangeExpression(e).Ok? {
      ParseEachFixed(ParseRangeExpression(e).value, 1);
    }
  }

  /** A word list expands to what its words expand to. */
  lemma {:induction false} ParseEachMember(es: seq<string>, bound: nat, v: string)
    requires forall e :: e in es ==> Rank(e) < bound
    ensures ParseEach(es, bound).Ok? <==> forall e :: e in es ==> ParseEnum(e).Ok?
    ensures ParseEach(es, bound).Ok? ==>
      (v in ParseEach(es, bound).value <==> exists e :: e in es && v in ParseEnum(e).value)
  {
    if es != [] {
      assert es[0] in es;
      ParseEachMember(es[1..], bound, v);
      assert forall e :: e in es <==> e == es[0] || e in es[1..];
    }
  }

  // ---------- Expanding an expression ----------

  function Prefixed(p: string, ys: seq<string>): (r: seq<string>)
    ensures |r| == |ys| && forall i :: 0 <= i < |r| ==> r[i] == p + ys[i]
  {
    seq(|ys|, i requires 0 <= i < |ys| => p + ys[i])
  }

  /** All concatenations of a text of xs with a text of ys, the choice from xs varying slowest. */
  function Product(xs: seq<string>, ys: seq<string>): seq<string> {
    if xs == [] then [] else Prefixed(xs[0], ys) + Product(xs[1..], ys)
  }

  function ProductWith(xs: seq<string>, r: Expansion): Expansion {
    match r
    case Err(error) => Err(error)
    case Ok(ys) => Ok(Product(xs, ys))
  }

  /** How an expression begins: its first block with the text around it, an unclosed '[', or no block at all. */
  datatype Block = Block(prefix: string, content: string, rest: string) | Unclosed(from: string) | NoBlock

  function FirstBlock(e: string): (r: Block)
    ensures r.Block? ==> |r.rest| < |e| && |r.content| < |e|
  {
    IndexFirst(e, '[');
    var b := Index(e, '[');
    if b == -1 then NoBlock
    else
      IndexFirst(e[b..], ']');
      var c := Index(e[b..], ']');
      if c == -1 then Unclosed(e[b..]) else Block(e[..b], e[b + 1..b + c], e[b + c + 1..])
  }

  /** The candidates of an expression: for each block in turn, its prefix and one of its values; then the tail. */
  function Expand(e: string): Expansion
    decreases |e|
  {
    match FirstBlock(e)
    case NoBlock => Ok([e])
    case Unclosed(from) => Err(MissingBracket(from))
    case Block(prefix, content, rest) =>
      match ParseEnum(content)
      case Err(error) => Err(error)
      case Ok(values) => ProductWith(Prefixed(prefix, values), Expand(rest))
  }

  /** The text of a block between its neighbours. */
  function BlockText(prefix: string, content: string, rest: string): string {
    prefix + ("[" + (content + ("]" + rest)))
  }

  lemma FirstBlockIs(prefix: string, content: string, rest: string)
    requires '[' !in prefix && ']' !in content
    ensures FirstBlock(BlockText(prefix, content, rest)) == Block(prefix, content, rest)
  {
    var e, t := BlockText(prefix, content, rest), "[" + (content + ("]" + rest));
    var b, c := |prefix|, |content| + 1;
    assert e[..b] == prefix && e[b] == '[' && e[b..] == t;
    IndexIs(e, '[', b);
    assert t[..c] == "[" + content && t[c] == ']';
    IndexIs(t, ']', c);
    assert e[b + 1..b + c] == content;
    assert e[b + c + 1..] == rest;
  }

  lemma BlockSplit(e: string, b: nat, c: nat)
    requires 1 <= c && b + c < |e| && e[b] == '[' && e[b..][c] == ']'
    requires ']' !in e[b..][..c]
    ensures ']' !in e[b + 1..b + c]
    ensures e == BlockText(e[..b], e[b + 1..b + c], e[b + c + 1..])
  {
    PrefixOfSuffix(e, b, c);
    assert forall k :: b + 1 <= k < b + c ==> e[k] in e[b..b + c];
  }

  lemma FirstBlockParts(e: string)
    ensures FirstBlock(e).NoBlock? <==> '[' !in e
    ensures var r := FirstBlock(e);
      r.Block? ==> '[' !in r.prefix && ']' !in r.content && e == BlockText(r.prefix, r.content, r.rest)
  {
    IndexFirst(e, '[');
    var r, b := FirstBlock(e), Index(e, '[');
    if r.Block? {
      IndexFirst(e[b..], ']');
      var c := Index(e[b..], ']');
      assert r == Block(e[..b], e[b + 1..b + c], e[b + c + 1..]);
      BlockSplit(e, b, c);
    }
  }

  lemma {:induction false} ProductMember(xs: seq<string>, ys: seq<string>, c: string)
    ensures c in Product(xs, ys) <==> exists x, y :: x in xs && y in ys && c == x + y
  {
    if xs != [] {
      ProductMember(xs[1..], ys, c);
      var first := Prefixed(xs[0], ys);
      if x, y :| x in xs && y in ys && c == x + y {
        if x == xs[0] {
          var j :| 0 <= j < |ys| && y == ys[j];
          assert first[j] in first;
        } else {
          assert x in xs[1..];
        }
      }
      if c in first {
        var j :| 0 <= j < |first| && c == first[j];
        assert xs[0] in xs && ys[j] in ys;
      } else if x, y :| x in xs[1..] && y in ys && c == x + y {
        assert x in xs;
      }
    }
  }

  lemma Rows(n: nat, m: nat, i: nat, j: nat)
    requires i < n && j < m
    ensures i * m + j < n * m
    ensures n * m == m + (n - 1) * m
    ensures i > 0 ==> i * m == m + (i - 1) * m
  {
    assert (n - i) * m >= m;
  }

  /** Position of a choice in the product: the candidate order is lexicographic in the choices. */
  lemma {:induction false} ProductAt(xs: seq<string>, ys: seq<string>, i: nat, j: nat)
    requires i < |xs| && j < |ys|
    ensures |Product(xs, ys)| == |xs| * |ys|
    ensures i * |ys| + j < |xs| * |ys| && Product(xs, ys)[i * |ys| + j] == xs[i] + ys[j]
  {
    Rows(|xs|, |ys|, i, j);
    if |xs| == 1 {
      assert Product(xs[1..], ys) == [];
    } else {
      ProductAt(xs[1..], ys, if i == 0 then 0 else i - 1, j);
      ProductStep(xs, ys, i * |ys| + j);
    }
  }

  lemma ProductStep(xs: seq<string>, ys: seq<string>, k: nat)
    requires xs != [] && k < |Product(xs, ys)|
    ensures |Product(xs, ys)| == |ys| + |Product(xs[1..], ys)|
    ensures Product(xs, ys)[k] == if k < |ys| then xs[0] + ys[k] else Product(xs[1..], ys)[k - |ys|]
  {
  }

  lemma {:induction false} ProductConcat(xs: seq<string>, ys: seq<string>, zs: seq<string>)
    ensures Product(xs + ys, zs) == Product(xs, zs) + Product(ys, zs)
  {
    if xs == [] {
      assert xs + ys == ys;
    } else {
      assert (xs + ys)[1..] == xs[1..] + ys;
      ProductConcat(xs[1..], ys, zs);
    }
  }

  lemma {:induction false} ProductPrefixed(p: string, ys: seq<string>, zs: seq<string>)
    ensures Product(Prefixed(p, ys), zs) == Prefixed(p, Product(ys, zs))
  {
    if ys != [] {
      ProductPrefixed(p, ys[1..], zs);
      assert Prefixed(p, ys)[1..] == Prefixed(p, ys[1..]);
      assert Prefixed(p + ys[0], zs) == Prefixed(p, Prefixed(ys[0], zs)) by {
        forall i | 0 <= i < |zs|
          ensures (p + ys[0]) + zs[i] == p + (ys[0] + zs[i])
        {
        }
      }
      assert Prefixed(p, Prefixed(ys[0], zs) + Product(ys[1..], zs))
        == Prefixed(p, Prefixed(ys[0], zs)) + Prefixed(p, Product(ys[1..], zs));
    } else {
      assert Prefixed(p, ys) == [];
    }
  }

  lemma {:induction false} ProductAssociative(xs: seq<string>, ys: seq<string>, zs: seq<string>)
    ensures Product(Product(xs, ys), zs) == Product(xs, Product(ys, zs))
  {
    if xs != [] {
      ProductAssociative(xs[1..], ys, zs);
      ProductConcat(Prefixed(xs[0], ys), Product(xs[1..], ys), zs);
      ProductPrefixed(xs[0], ys, zs);
    }
  }

  lemma ProductWithAssociative(xs: seq<string>, ys: seq<string>, r: Expansion)
    ensures ProductWith(Product(xs, ys), r) == ProductWith(xs, ProductWith(ys, r))
  {
    if r.Ok? {
      ProductAssociative(xs, ys, r.value);
    }
  }

  lemma ProductUnit(p: string, ys: seq<string>)
    ensures Product([p], ys) == Prefixed(p, ys)
    ensures p == "" ==> Product([p], ys) == ys
  {
    assert [p][1..] == [] && Prefixed(p, ys) + [] == Prefixed(p, ys);
    if p == "" {
      forall i | 0 <= i < |ys|
        ensures "" + ys[i] == ys[i]
      {
      }
    }
  }

  lemma PrefixedTwice(p: string, q: string, ys: seq<string>)
    ensures Prefixed(p + q, ys) == Prefixed(p, Prefixed(q, ys))
  {
    forall i | 0 <= i < |ys|
      ensures (p + q) + ys[i] == p + (q + ys[i])
    {
    }
  }

  /** Expansion is local: an expression whose blocks are closed expands independently of what follows it. */
  lemma {:induction false} ExpandConcat(a: string, b: string)
    requires Expand(a).Ok?
    ensures Expand(a + b) == ProductWith(Expand(a).value, Expand(b))
    decreases |a|
  {
    FirstBlockParts(a);
    match FirstBlock(a)
    case NoBlock =>
      ExpandAfterText(a, b);
    case Unclosed(_) =>
    case Block(prefix, content, rest) =>
      BlockTextConcat(prefix, content, rest, b);
      FirstBlockIs(prefix, content, rest + b);
      ExpandConcat(rest, b);
      ProductWithAssociative(Prefixed(prefix, ParseEnum(content).value), Expand(rest).value, Expand(b));
  }

  lemma BlockTextConcat(prefix: string, content: string, rest: string, b: string)
    ensures BlockText(prefix, content, rest) + b == BlockText(prefix, content, rest + b)
  {
    Reassociate("]", rest, b);
    Reassociate(content, "]" + rest, b);
    Reassociate("[", content + ("]" + rest), b);
    Reassociate(prefix, "[" + (content + ("]" + rest)), b);
  }

  /** Text without a bracket becomes a prefix of every candidate of what follows. */
  lemma ExpandAfterText(a: string, b: string)
    requires '[' !in a
    ensures Expand(a + b) == ProductWith([a], Expand(b))
  {
    FirstBlockParts(b);
    match FirstBlock(b)
    case NoBlock =>
      FirstBlockParts(a + b);
      ProductUnit(a, [b]);
      assert Prefixed(a, [b]) == [a + b];
    case Unclosed(_) =>
      UnclosedAfterText(a, b);
    case Block(prefix, content, rest) =>
      Reassociate(a, prefix, "[" + (content + ("]" + rest)));
      FirstBlockIs(a + prefix, content, rest);
      if ParseEnum(content).Ok? {
        LongerPrefix(a, prefix, ParseEnum(content).value, Expand(rest));
      }
  }

  lemma LongerPrefix(a: string, prefix: string, values: seq<string>, rest: Expansion)
    ensures ProductWith(Prefixed(a + prefix, values), rest) ==
      ProductWith([a], ProductWith(Prefixed(prefix, values), rest))
  {
    PrefixedTwice(a, prefix, values);
    ProductUnit(a, Prefixed(prefix, values));
    ProductWithAssociative([a], Prefixed(prefix, values), rest);
  }

  lemma UnclosedAfterText(a: string, b: string)
    requires '[' !in a && FirstBlock(b).Unclosed?
    ensures FirstBlock(a + b) == FirstBlock(b)
  {
    IndexFirst(b, '[');
    var i := Index(b, '[');
    assert (a + b)[..|a| + i] == a + b[..i];
    IndexIs(a + b, '[', |a| + i);
    assert (a + b)[|a| + i..] == b[i..];
  }

  // ---------- The scanning loop ----------

  /** The block loop's first inner loop: subParsed. */
  method PrefixEach(prefix: string, values: seq<string>) returns (subParsed: seq<string>)
    ensures subParsed == Prefixed(prefix, values)
  {
    subParsed := [];
    for i := 0 to |values|
      invariant subParsed == Prefixed(prefix, values)[..i]
    {
      subParsed := subParsed + [prefix + values[i]];
    }
  }

  /** The block loop's nested loops: next. */
  method CrossProduct(parsed: seq<string>, subParsed: seq<string>) returns (next: seq<string>)
    ensures next == Product(parsed, subParsed)
  {
    next := [];
    assert parsed[..0] == [];
    for i := 0 to |parsed|
      invariant next == Product(parsed[..i], subParsed)
    {
      ghost var before := next;
      for j := 0 to |subParsed|
        invariant next == before + Prefixed(parsed[i], subParsed)[..j]
      {
        next := next + [parsed[i] + subParsed[j]];
      }
      ProductSnoc(parsed, subParsed, i);
    }
    assert parsed[..|parsed|] == parsed;
  }

  lemma ProductSnoc(xs: seq<string>, ys: seq<string>, i: nat)
    requires i < |xs|
    ensures Product(xs[..i + 1], ys) == Product(xs[..i], ys) + Prefixed(xs[i], ys)
  {
    assert xs[..i + 1] == xs[..i] + [xs[i]];
    ProductConcat(xs[..i], [xs[i]], ys);
    ProductUnit(xs[i], ys);
  }

  lemma SuffixParts(e: string, from: nat, begin: nat, end: nat)
    requires from <= begin < end < |e|
    ensures var rest := e[from..];
      && rest[begin - from..] == e[begin..] && rest[..begin - from] == e[from..begin]
      && rest[begin - from + 1..end - from] == e[begin + 1..end] && rest[end - from + 1..] == e[end + 1..]
  {
    PrefixOfSuffix(e, from, begin - from);
    SliceOfSuffix(e, from, begin - from + 1, end - from);
  }

  /** FirstBlock of a suffix, with positions counted from the start of the whole text. */
  lemma FirstBlockOfSuffix(e: string, from: nat, begin: nat, end: nat)
    requires from <= begin < end < |e|
    requires Index(e[from..], '[') == begin - from && Index(e[begin..], ']') == end - begin
    ensures FirstBlock(e[from..]) == Block(e[from..begin], e[begin + 1..end], e[end + 1..])
  {
    SuffixParts(e, from, begin, end);
  }

  /** strings.Index from a position on, in positions of the whole text. */
  function IndexFrom(e: string, from: nat, c: char): (i: int)
    requires from <= |e|
    ensures i == -1 || from <= i < |e|
  {
    var i := Index(e[from..], c);
    if i == -1 then -1 else from + i
  }

  /** What the scan returns when it has come to a position with these candidates. */
  ghost function Scanned(parsed: seq<string>, e: string, from: nat): Expansion
    requires from <= |e|
  {
    ProductWith(parsed, Expand(e[from..]))
  }

  lemma ScanStart(e: string)
    ensures IndexFrom(e, 0, '[') == Index(e, '[')
    ensures Scanned([""], e, 0) == Expand(e)
  {
    assert e[0..] == e;
    if Expand(e).Ok? {
      ProductUnit("", Expand(e).value);
    }
  }

  lemma ScanUnclosed(parsed: seq<string>, e: string, from: nat, begin: nat)
    requires from <= |e| && IndexFrom(e, from, '[') == begin && IndexFrom(e, begin, ']') == -1
    ensures Scanned(parsed, e, from) == Err(MissingBracket(e[begin..]))
  {
    SuffixOfSuffix(e, from, begin - from);
    assert FirstBlock(e[from..]) == Unclosed(e[begin..]);
  }

  lemma ScanEnd(parsed: seq<string>, e: string, from: nat)
    requires from <= |e| && IndexFrom(e, from, '[') == -1
    ensures Scanned(parsed, e, from) == Ok(Product(parsed, [e[from..]]))
  {
  }

  lemma BlockAt(e: string, from: nat, begin: nat, end: nat)
    requires from <= |e| && IndexFrom(e, from, '[') == begin && IndexFrom(e, begin, ']') == end
    ensures begin < end && FirstBlock(e[from..]) == Block(e[from..begin], e[begin + 1..end], e[end + 1..])
  {
    IndexFirst(e[from..], '[');
    IndexFirst(e[begin..], ']');
    SuffixAt(e, from, begin - from);
    FirstBlockOfSuffix(e, from, begin, end);
  }

  /** One turn of the block loop multiplies the candidates so far by the values of the next block. */
  lemma ScanBlock(e: string, from: nat, begin: nat, end: nat, parsed: seq<string>)
    requires from <= |e| && IndexFrom(e, from, '[') == begin && IndexFrom(e, begin, ']') == end
    requires Returns(Scanned(parsed, e, from))
    ensures begin < end && ParseEnum(e[begin + 1..end]).Ok?
    ensures var values := Prefixed(e[from..begin], ParseEnum(e[begin + 1..end]).value);
      Scanned(parsed, e, from) == Scanned(Product(parsed, values), e, end + 1)
  {
    BlockAt(e, from, begin, end);
    ExpandOfBlock(e[from..]);
    var values := Prefixed(e[from..begin], ParseEnum(e[begin + 1..end]).value);
    ProductWithAssociative(parsed, values, Expand(e[end + 1..]));
  }

  lemma ExpandOfBlock(e: string)
    requires FirstBlock(e).Block? && Returns(Expand(e))
    ensures var r := FirstBlock(e);
      ParseEnum(r.content).Ok?
      && Expand(e) == ProductWith(Prefixed(r.prefix, ParseEnum(r.content).value), Expand(r.rest))
  {
  }

  /**
   * parseExp2UnixShellStyleMain: scan the blocks from left to right, multiplying out the candidates. The error of
   * parseEnumExpression does not occur.
   */
  method ParseExp2UnixShellStyleMain(e: string) returns (r: Expansion)
    requires Returns(Expand(e))
    ensures r == Expand(e)
  {
    var parsed := [""];
    var lastEnumEnd := -1;
    var enumBegin := Index(e, '[');
    ScanStart(e);
    while enumBegin != -1
      invariant -1 <= lastEnumEnd < |e|
      invariant enumBegin == IndexFrom(e, lastEnumEnd + 1, '[')
      invariant Scanned(parsed, e, lastEnumEnd + 1) == Expand(e)
      decreases |e| - lastEnumEnd
    {
      var enumEnd := IndexFrom(e, enumBegin, ']');
      if enumEnd == -1 {
        ScanUnclosed(parsed, e, lastEnumEnd + 1, enumBegin);
        return Err(MissingBracket(e[enumBegin..]));
      }
      parsed := ExpandBlock(e, lastEnumEnd, enumBegin, enumEnd, parsed);
      lastEnumEnd := enumEnd;
      enumBegin := IndexFrom(e, enumEnd + 1, '[');
    }
    ScanEnd(parsed, e, lastEnumEnd + 1);
    parsed := AppendTail(parsed, e[lastEnumEnd + 1..]);
    return Ok(parsed);
  }

  /** The middle of the block loop: the candidates so far, each followed by each value of the block at enumBegin. */
  method ExpandBlock(e: string, lastEnumEnd: int, enumBegin: nat, enumEnd: nat, parsed: seq<string>)
    returns (next: seq<string>)
    requires -1 <= lastEnumEnd < |e| && enumBegin == IndexFrom(e, lastEnumEnd + 1, '[')
    requires enumEnd == IndexFrom(e, enumBegin, ']') && Returns(Scanned(parsed, e, lastEnumEnd + 1))
    ensures Scanned(next, e, enumEnd + 1) == Scanned(parsed, e, lastEnumEnd + 1)
  {
    ScanBlock(e, lastEnumEnd + 1, enumBegin, enumEnd, parsed);
    var enumValues := ParseEnum(e[enumBegin + 1..enumEnd]).value;
    var subParsed := PrefixEach(e[lastEnumEnd + 1..enumBegin], enumValues);
    next := CrossProduct(parsed, subParsed);
  }

  /** The last loop of parseExp2UnixShellStyleMain. */
  method AppendTail(heads: seq<string>, tail: string) returns (parsed: seq<string>)
    ensures parsed == Product(heads, [tail])
  {
    parsed := heads;
    for i := 0 to |parsed|
      invariant |parsed| == |heads|
      invariant forall k :: 0 <= k < |heads| ==> parsed[k] == if k < i then heads[k] + tail else heads[k]
    {
      parsed := parsed[i := parsed[i] + tail];
    }
    ProductTail(heads, tail, parsed);
  }

  lemma {:induction false} ProductTail(heads: seq<string>, tail: string, r: seq<string>)
    requires |r| == |heads| && forall k :: 0 <= k < |heads| ==> r[k] == heads[k] + tail
    ensures Product(heads, [tail]) == r
  {
    if heads != [] {
      ProductTail(heads[1..], tail, r[1..]);
      assert r == [r[0]] + r[1..];
    }
  }

  /** The distinct candidates of an expression. */
  function Candidates(e: string): Expansion {
    match Expand(e)
    case Err(error) => Err(error)
    case Ok(parsed) => Ok(Distinct(parsed))
  }

  /** ParseExp2UnixShellStyle: the expansion with later duplicates dropped. */
  method ParseExp2UnixShellStyle(e: string) returns (r: Expansion)
    requires Returns(Expand(e))
    ensures r == Candidates(e)
  {
    var main := ParseExp2UnixShellStyleMain(e);
    match main {
      case Err(error) =>
        return Err(error);
      case Ok(parsed) =>
        var out := Dedupe(parsed);
        return Ok(out);
    }
  }

  /** The loop over a seen set, shared in shape by ParseExp2UnixShellStyle and dedupe. */
  method Dedupe<T(==,!new)>(values: seq<T>) returns (out: seq<T>)
    ensures out == Distinct(values)
  {
    var seen: set<T> := {};
    out := [];
    for i := 0 to |values|
      invariant out == Distinct(values[..i])
      invariant forall x :: x in seen <==> x in out
    {
      assert values[..i + 1][..i] == values[..i];
      if values[i] !in seen {
        seen := seen + {values[i]};
        out := out + [values[i]];
      }
    }
    assert values[..|values|] == values;
  }

  // ---------- Which expressions compile ----------

  /** No range of a class content runs downwards; Go's compiler rejects those that do. */
  predicate AscendingRanges(content: string) {
    if content == "" then true
    else if |content| >= 3 && content[1] == '-' then content[0] <= content[2] && AscendingRanges(content[3..])
    else AscendingRanges(content[1..])
  }

  /** An exclusion names at least one character, in ascending ranges; a number range is one that is split. */
  predicate WordOk(w: string) {
    && (w != "" && w[0] == '!' ==> |w| >= 2 && AscendingRanges(w[1..]))
    && RangeReturns(w)
  }

  /** A block's content: no nested '[', and its words are well formed. */
  predicate BlockOk(content: string) {
    && '[' !in content
    && (if GetMatchType(content) == WordList then forall w :: w in ParseWordList(content) ==> WordOk(w)
        else WordOk(content))
  }

  /** Every block of the expression is closed and well formed. */
  predicate WellFormed(e: string)
    decreases |e|
  {
    match FirstBlock(e)
    case NoBlock => true
    case Unclosed(_) => false
    case Block(_, content, rest) => BlockOk(content) && WellFormed(rest)
  }

  lemma {:induction false} AscendingCompiles(content: string)
    requires '[' !in content
    ensures RangesOf(content).Ok? <==> AscendingRanges(content)
  {
    if content != "" {
      var wide := |content| >= 3 && content[1] == '-';
      assert wide ==> content[1..][2..] == content[3..] && content[1..][1] == content[2];
      AscendingCompiles(if wide then content[3..] else content[1..]);
    }
  }

  lemma {:induction false} NoBracketCompiles(w: string)
    requires '[' !in w
    ensures Closed(w) && Tokens(w).Ok?
  {
    if w != "" {
      NoBracketCompiles(w[1..]);
    }
  }

  lemma ExcludeCompiles(w: string)
    requires w != "" && w[0] == '!' && WordOk(w) && '[' !in w && ']' !in w
    ensures Closed("[" + w + "]") && Tokens("[" + w + "]").Ok?
  {
    var v := "[" + w + "]";
    var e := |w| + 1;
    assert v[1] == '!' && v[2] == w[1];
    assert v[2..e] == w[1..];
    ClosingBracketFound(v, e);
    assert v[1..e] == w && v[e + 1..] == "";
    AscendingCompiles(w[1..]);
  }

  /** What a single word expands to compiles, and closes the classes it opens. */
  lemma WordCompiles(w: string, v: string)
    requires '[' !in w && ']' !in w && ',' !in w && WordOk(w)
    ensures ParseEnum(w).Ok?
    ensures v in ParseEnum(w).value ==> Closed(v) && Tokens(v).Ok?
  {
    match GetMatchType(w)
    case Word =>
      NoBracketCompiles(w);
    case BuildInExclude =>
      ExcludeCompiles(w);
    case Range =>
      ParseEnumOfRange(w);
      RangeRankBelow(w);
      if IsSingleAlphaRange(w) {
        AlphaRangeCompiles(w);
      } else if v in ParseEnum(w).value {
        RangeCompiles(Atoi(Split(w, '-')[0]).value, Atoi(Split(w, '-')[1]).value, v);
      }
    case _ =>
  }

  lemma AlphaRangeText(w: string)
    requires IsSingleAlphaRange(w)
    ensures |w| == 3 && w[1] == '-' && IsAlpha(w[0]) && IsAlpha(w[2]) && w[0] < w[2] && IsLower(w[0]) == IsLower(w[2])
  {
    JoinOfSplit(w, '-');
    var parts := Split(w, '-');
    assert parts[1..] == [parts[1]];
    assert w == parts[0] + "-" + parts[1];
  }

  lemma AlphaRangeCompiles(w: string)
    requires IsSingleAlphaRange(w)
    ensures Closed("[" + w + "]") && Tokens("[" + w + "]").Ok?
  {
    AlphaRangeText(w);
    var v := "[" + w + "]";
    ClosingBracketFound(v, 4);
    assert v[1..4] == w && v[5..] == "";
    assert w[1..][2..] == "" && w[1..][1] == w[2];
    assert RangesAfter(w[0], w[1..]).Ok?;
    assert HeadToken(v) == ClassToken(w);
  }

  lemma BlockCompiles(content: string, v: string)
    requires BlockOk(content) && ']' !in content
    ensures ParseEnum(content).Ok?
    ensures v in ParseEnum(content).value ==> Closed(v) && Tokens(v).Ok?
  {
    if GetMatchType(content) == WordList {
      WordsRankBelowList(content);
      forall w | w in ParseWordList(content)
        ensures ParseEnum(w).Ok? && (v in ParseEnum(w).value ==> Closed(v) && Tokens(v).Ok?)
      {
        WordsFromContent(content, w);
        WordCompiles(w, v);
      }
      ParseEachMember(ParseWordList(content), 2, v);
    } else if content != "" && content[0] == '!' {
      ExcludeCompiles(content);
    } else {
      WordCompiles(content, v);
    }
  }

  lemma WordsFromContent(content: string, w: string)
    requires w in ParseWordList(content)
    ensures ',' !in w && forall x :: x in w ==> x in content
  {
    SplitParts(content, ',');
    var parts := Split(content, ',');
    var i :| 0 <= i < |parts| && w == TrimSpace(parts[i]);
    assert parts[i] in parts;
  }

  /** Every candidate of a well-formed expression compiles, and closes the classes it opens. */
  lemma {:induction false} WellFormedCompiles(e: string, c: string)
    requires WellFormed(e)
    ensures Expand(e).Ok?
    ensures c in Expand(e).value ==> Closed(c) && Tokens(c).Ok?
    decreases |e|
  {
    FirstBlockParts(e);
    match FirstBlock(e)
    case NoBlock =>
      NoBracketCompiles(e);
    case Unclosed(_) =>
    case Block(prefix, content, rest) =>
      BlockCompiles(content, "");
      WellFormedCompiles(rest, c);
      var heads := Prefixed(prefix, ParseEnum(content).value);
      ProductMember(heads, Expand(rest).value, c);
      if x, y :| x in heads && y in Expand(rest).value && c == x + y {
        WellFormedCompiles(rest, y);
        HeadCompiles(prefix, content, x);
        TokensOfConcat(x, y);
        ClosedConcat(x, y);
      }
  }

  lemma HeadCompiles(prefix: string, content: string, x: string)
    requires '[' !in prefix && ']' !in content && BlockOk(content)
    requires ParseEnum(content).Ok? && x in Prefixed(prefix, ParseEnum(content).value)
    ensures Closed(x) && Tokens(x).Ok?
  {
    var values := ParseEnum(content).value;
    var j :| 0 <= j < |values| && x == prefix + values[j];
    BlockCompiles(content, values[j]);
    NoBracketCompiles(prefix);
    TokensOfConcat(prefix, values[j]);
    ClosedConcat(prefix, values[j]);
  }
}
