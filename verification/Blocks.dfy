/**
 * internal/expression/parse.go and match.go: what each kind of block selects, and how the parts of an expression
 * compose, stated on names and characters.
 */
module Blocks {
  import opened Text
  import opened Decimal
  import opened Glob
  import opened GoRegex
  import opened RangeRegex
  import opened Parse
  import opened Matching
  import opened List2Expr
  import opened NameLists
  import opened Segments

  function BlockOf(content: string): string {
    "[" + content + "]"
  }

  /** For a block that is well formed, the answer of Match is what its content yields. */
  lemma BlockAnswers(content: string, name: string)
    requires BlockOk(content) && ']' !in content
    ensures WellFormed(BlockOf(content))
    ensures Selects(BlockOf(content), name) <==> Yields(content, name)
    ensures MatchResult(name, BlockOf(content)) == Ok(Yields(content, name))
  {
    OneBlockSelects(content, name);
    FirstBlockParts("");
    WellFormedMatch(name, BlockOf(content));
  }

  // ---------- Pairs of letters ----------

  /** Two letters of one case, in ascending order. */
  predicate LettersAscend(a: char, b: char) {
    'a' <= a < b <= 'z' || 'A' <= a < b <= 'Z'
  }

  function Pair(x: string, y: string): string {
    x + "-" + y
  }

  lemma PairSplits(x: string, y: string)
    requires '-' !in x && '-' !in y
    ensures Split(Pair(x, y), '-') == [x, y]
  {
    SplitCons(x, y, '-');
    IndexFirst(y, '-');
  }

  lemma PairIsAlphaRange(a: char, b: char)
    requires IsAlpha(a) && IsAlpha(b)
    ensures var w := Pair([a], [b]);
      w == [a, '-', b] && (IsSingleAlphaRange(w) <==> LettersAscend(a, b)) && !IsNumberRange(w)
  {
    PairSplits([a], [b]);
    assert !IsDigit([a][0]);
  }

  lemma PairType(a: char, b: char)
    requires IsAlpha(a) && IsAlpha(b)
    ensures var w := Pair([a], [b]);
      GetMatchType(w) == (if LettersAscend(a, b) then Range else Word) && BlockOk(w) && ']' !in w
  {
    PairIsAlphaRange(a, b);
    var w := Pair([a], [b]);
    assert forall x :: x in w <==> x == a || x == '-' || x == b;
    PairSplits([a], [b]);
  }

  lemma PairClassEnds(a: char, b: char)
    requires IsAlpha(a)
    ensures var pat := BlockOf(Pair([a], [b]));
      ClassEnd(pat) == (if b == ']' then 3 else 4) && |pat| == 5 && pat[0] == '[' && pat[1] == a
      && pat[1..4] == [a, '-', b] && pat[5..] == ""
  {
    var pat := BlockOf(Pair([a], [b]));
    assert pat == ['[', a, '-', b, ']'];
    ClosingBracketFound(pat, if b == ']' then 3 else 4);
  }

  lemma PairInClass(a: char, b: char, c: char)
    ensures InClass([a, '-', b], c) <==> a <= c <= b
  {
    assert [a, '-', b][3..] == "";
  }

  lemma LetterClassMatches(a: char, b: char, name: string)
    requires IsAlpha(a) && IsAlpha(b)
    ensures Fnmatch(BlockOf(Pair([a], [b])), name) <==> |name| == 1 && a <= name[0] <= b
  {
    PairClassEnds(a, b);
    if name != "" {
      PairInClass(a, b, name[0]);
      assert Fnmatch("", name[1..]) <==> |name| == 1;
    }
  }

  /** What a block of two letters around a hyphen is to select. */
  predicate LetterPairMeans(a: char, b: char, name: string) {
    if LettersAscend(a, b) then |name| == 1 && a <= name[0] <= b else name == [a, '-', b]
  }

  /**
   * A block of two letters around a hyphen: in ascending order and of one case they are a range, and Match answers yes
   * for the letters between them; otherwise they are a plain word.
   */
  lemma LetterPairMatches(a: char, b: char, name: string)
    requires IsAlpha(a) && IsAlpha(b)
    ensures WellFormed(BlockOf([a, '-', b]))
    ensures Selects(BlockOf([a, '-', b]), name) <==> LetterPairMeans(a, b, name)
    ensures MatchResult(name, BlockOf([a, '-', b])) == Ok(LetterPairMeans(a, b, name))
  {
    PairIsAlphaRange(a, b);
    PairType(a, b);
    PairYields(a, b, name);
    BlockAnswers(Pair([a], [b]), name);
  }

  lemma PairYields(a: char, b: char, name: string)
    requires IsAlpha(a) && IsAlpha(b)
    ensures Yields(Pair([a], [b]), name) <==> LetterPairMeans(a, b, name)
  {
    PairIsAlphaRange(a, b);
    PairType(a, b);
    if LettersAscend(a, b) {
      LetterPairYields(a, b, name);
    } else {
      PairNotWild(a, b);
      WordYields(Pair([a], [b]), name);
    }
  }

  lemma PairNotWild(a: char, b: char)
    requires IsAlpha(a) && IsAlpha(b)
    ensures !Wild(Pair([a], [b]))
  {
    assert forall x :: x in Pair([a], [b]) <==> x == a || x == '-' || x == b;
  }

  lemma LetterPairYields(a: char, b: char, name: string)
    requires IsAlpha(a) && IsAlpha(b) && LettersAscend(a, b)
    ensures Yields(Pair([a], [b]), name) <==> |name| == 1 && a <= name[0] <= b
  {
    var w := Pair([a], [b]);
    PairType(a, b);
    PairIsAlphaRange(a, b);
    ParseEnumOfRange(w);
    LetterClassMatches(a, b, name);
    assert ParseEnum(w).value == [BlockOf(w)];
    assert BlockOf(w) in ParseEnum(w).value;
  }

  // ---------- Words ----------

  lemma WordYields(w: string, name: string)
    requires GetMatchType(w) == Word && ']' !in w && !Wild(w)
    ensures Yields(w, name) <==> name == w
  {
    OpenLiteral(w, name);
    assert w in ParseEnum(w).value;
  }

  /** A block of one word without special characters selects that word alone. */
  lemma WordMatches(w: string, name: string)
    requires GetMatchType(w) == Word && '[' !in w && ']' !in w && !Wild(w)
    ensures Selects(BlockOf(w), name) <==> name == w
    ensures MatchResult(name, BlockOf(w)) == Ok(name == w)
  {
    WordIsNoRange(w);
    BlockAnswers(w, name);
    WordYields(w, name);
  }

  lemma WordIsNoRange(w: string)
    requires GetMatchType(w) == Word
    ensures RangeReturns(w) && (w == "" || w[0] != '!')
  {
    if '-' !in w {
      NoHyphenNoRange(w);
    }
  }

  // ---------- Pairs of numbers ----------

  lemma NumberPairType(x: string, y: string, a: int, b: int)
    requires '-' !in x && '-' !in y && Atoi(x) == Some(a) && Atoi(y) == Some(b)
    ensures a >= 0 && b >= 0
    ensures IsNumberRange(Pair(x, y)) <==> a < b
    ensures !IsSingleAlphaRange(Pair(x, y))
    ensures PlainNumber(x) && PlainNumber(y)
  {
    PairSplits(x, y);
    NumberChars(x, a);
    NumberChars(y, b);
  }

  predicate PlainNumber(x: string) {
    x != "" && forall c :: c in x ==> c == '+' || IsDigit(c)
  }

  lemma NumberChars(x: string, a: int)
    requires '-' !in x && Atoi(x) == Some(a)
    ensures a >= 0 && PlainNumber(x) && !IsAlpha(x[0])
  {
    assert x != "" && x[0] in x;
    var digits := if x[0] == '+' then x[1..] else x;
    assert AllDigits(digits) && forall i :: 0 <= i < |digits| ==> digits[i] in digits;
    assert forall c :: c in x ==> c == x[0] || c in x[1..];
    assert forall c :: c in digits ==> IsDigit(c);
  }

  lemma NumberPairChars(x: string, y: string)
    requires PlainNumber(x) && PlainNumber(y)
    ensures var w := Pair(x, y);
      ',' !in w && '[' !in w && ']' !in w && !Wild(w) && w != "" && w[0] != '!' && '-' in w
  {
    var w := Pair(x, y);
    assert forall c :: c in w <==> c in x || c == '-' || c in y;
    assert w[0] == x[0] && x[0] in x;
  }

  lemma NumberPairOk(x: string, y: string, a: int, b: int)
    requires '-' !in x && '-' !in y && Atoi(x) == Some(a) && Atoi(y) == Some(b)
    requires a < b ==> SplitFits(a, b)
    ensures var w := Pair(x, y);
      GetMatchType(w) == (if a < b then Range else Word) && BlockOk(w) && ']' !in w && !Wild(w)
    ensures a < b ==> ParseRangeExpression(Pair(x, y)) == Ok(RangeFragments(a, b))
  {
    NumberPairType(x, y, a, b);
    PairSplits(x, y);
    NumberPairChars(x, y);
    assert RangeReturns(Pair(x, y));
  }

  /**
   * A block of two numbers around a hyphen, signs and leading zeros allowed: in ascending order they are a range, and
   * Match answers yes for the canonical texts of the numbers between them; otherwise they are a plain word.
   */
  lemma NumberPairMatches(x: string, y: string, a: int, b: int, name: string)
    requires '-' !in x && '-' !in y && Atoi(x) == Some(a) && Atoi(y) == Some(b)
    requires a < b ==> SplitFits(a, b)
    ensures a >= 0
    ensures var means := if a < b then IsNumberIn(name, a, b) else name == Pair(x, y);
      (Selects(BlockOf(Pair(x, y)), name) <==> means) && MatchResult(name, BlockOf(Pair(x, y))) == Ok(means)
  {
    var w := Pair(x, y);
    NumberPairType(x, y, a, b);
    NumberPairOk(x, y, a, b);
    BlockAnswers(w, name);
    if a < b {
      ParseEnumOfRange(w);
      RangeExact(a, b, name);
    } else {
      WordYields(w, name);
    }
  }

  // ---------- Exclusions ----------

  /** Without hyphens a class lists its members. */
  lemma {:induction false} InClassListed(content: string, c: char)
    requires '-' !in content
    ensures InClass(content, c) <==> c in content
  {
    if content != "" {
      assert |content| >= 2 ==> content[1] in content;
      InClassListed(content[1..], c);
      assert content == [content[0]] + content[1..];
    }
  }

  lemma {:induction false} ListedAscends(content: string)
    requires '-' !in content
    ensures AscendingRanges(content)
  {
    if content != "" {
      assert |content| >= 2 ==> content[1] in content;
      ListedAscends(content[1..]);
    }
  }

  lemma ExclusionYields(content: string, name: string)
    requires content != "" && ']' !in content
    ensures Yields("!" + content, name) <==> |name| == 1 && !InClass(content, name[0])
  {
    var w := "!" + content;
    var pat, e := "[" + w + "]", |w| + 1;
    assert pat[1] == '!' && pat[2] == content[0] && content[0] in content;
    assert pat[2..e] == content;
    ClosingBracketFound(pat, e);
    assert pat[1..e] == w && pat[e + 1..] == "" && w[1..] == content;
    assert ParseEnum(w) == Ok([pat]) && pat in ParseEnum(w).value;
    if name != "" {
      assert ClassAccepts(w, name[0]) <==> !InClass(content, name[0]);
      assert Fnmatch("", name[1..]) <==> |name| == 1;
      assert Fnmatch(pat, name) <==> ClassAccepts(w, name[0]) && Fnmatch("", name[1..]);
    } else {
      assert !Fnmatch(pat, name);
    }
  }

  lemma ExclusionOk(content: string)
    requires content != "" && '[' !in content && ']' !in content && AscendingRanges(content)
    ensures BlockOk("!" + content) && ']' !in "!" + content
  {
    var w := "!" + content;
    assert w[1..] == content;
    assert GetMatchType(w) == BuildInExclude;
    assert !(w[0] == '-') && !IsDigit(w[0]) && w[0] != '+';
    ExclusionNoRange(w);
  }

  lemma ExclusionNoRange(w: string)
    requires w != "" && w[0] == '!'
    ensures !IsNumberRange(w)
  {
    if IsRangeFormat(w) {
      JoinOfSplit(w, '-');
      var begin, parts := Split(w, '-')[0], Split(w, '-');
      assert parts == [parts[0], parts[1]];
      assert w == begin + "-" + parts[1];
      assert begin != "" && begin[0] == '!';
    }
  }

  /**
   * A block that starts with '!' selects the single characters it does not list. A comma in it is a character like
   * any other; of a range of two characters all between them are listed.
   */
  lemma ExclusionMatches(content: string, name: string)
    requires content != "" && '[' !in content && ']' !in content && '-' !in content
    ensures var means := |name| == 1 && name[0] !in content;
      (Selects(BlockOf("!" + content), name) <==> means) && MatchResult(name, BlockOf("!" + content)) == Ok(means)
  {
    ListedAscends(content);
    ExclusionOk(content);
    ExclusionYields(content, name);
    BlockAnswers("!" + content, name);
    if name != "" {
      InClassListed(content, name[0]);
    }
  }

  lemma RangeExclusionMatches(a: char, b: char, name: string)
    requires a <= b && a !in "[]" && b !in "[]"
    ensures var means := |name| == 1 && !(a <= name[0] <= b);
      && (Selects(BlockOf("!" + [a, '-', b]), name) <==> means)
      && MatchResult(name, BlockOf("!" + [a, '-', b])) == Ok(means)
  {
    var content := [a, '-', b];
    assert content[3..] == "";
    ExclusionOk(content);
    ExclusionYields(content, name);
    BlockAnswers("!" + content, name);
  }

  // ---------- Lists ----------

  /** A block of two or more words, none with a bracket or a comma, that is not an exclusion as a whole. */
  predicate ListWords(words: seq<string>) {
    && |words| >= 2 && (words[0] != "" ==> words[0][0] != '!')
    && forall w :: w in words ==> ',' !in w && ']' !in w
  }

  lemma ListType(words: seq<string>)
    requires ListWords(words)
    ensures GetMatchType(Join(words, ",")) == WordList && ']' !in Join(words, ",")
  {
    ListChars(words);
    var content := Join(words, ",");
    JoinCons(words[0], words[1..], ",");
    assert words == [words[0]] + words[1..];
    assert content[0] == if words[0] == "" then ',' else words[0][0];
    NotEnum(content);
  }

  /** A word of a list with the white space around it. */
  datatype Padded = Padded(before: string, word: string, after: string)

  function Show(p: Padded): string {
    p.before + (p.word + p.after)
  }

  function Shown(ps: seq<Padded>): (r: seq<string>)
    ensures |r| == |ps| && forall i :: 0 <= i < |r| ==> r[i] == Show(ps[i])
  {
    seq(|ps|, i requires 0 <= i < |ps| => Show(ps[i]))
  }

  function Bare(ps: seq<Padded>): (r: seq<string>)
    ensures |r| == |ps| && forall i :: 0 <= i < |r| ==> r[i] == ps[i].word
  {
    seq(|ps|, i requires 0 <= i < |ps| => ps[i].word)
  }

  predicate PadsOk(ps: seq<Padded>) {
    forall p :: p in ps ==> AllSpace(p.before) && Trimmed(p.word) && AllSpace(p.after)
  }

  lemma ShownWord(p: Padded)
    requires AllSpace(p.before) && Trimmed(p.word) && AllSpace(p.after)
    ensures TrimSpace(Show(p)) == p.word
    ensures forall x :: x in Show(p) ==> x in p.word || IsSpace(x)
    ensures Show(p) != "" && Show(p)[0] == '!' ==> p.word != "" && p.word[0] == '!'
  {
    TrimPadded(p.before, p.word, p.after);
    if p.before != "" {
      assert p.before[0] in p.before;
    } else if p.word == "" && p.after != "" {
      assert p.after[0] in p.after;
    }
  }

  lemma ShownWords(ps: seq<Padded>)
    requires PadsOk(ps) && ListWords(Bare(ps))
    ensures ListWords(Shown(ps))
  {
    forall w | w in Shown(ps)
      ensures ',' !in w && ']' !in w
    {
      var i :| 0 <= i < |ps| && Shown(ps)[i] == w;
      assert ps[i] in ps && Bare(ps)[i] in Bare(ps);
      ShownWord(ps[i]);
    }
    assert ps[0] in ps;
    ShownWord(ps[0]);
  }

  /** Splitting a list of padded words at the commas gives the words. */
  lemma PiecesOfPadded(ps: seq<Padded>)
    requires PadsOk(ps) && ListWords(Bare(ps))
    ensures ParseWordList(Join(Shown(ps), ",")) == Bare(ps)
  {
    ShownWords(ps);
    SplitOfJoin(Shown(ps), ',');
    forall i | 0 <= i < |ps|
      ensures TrimSpace(Shown(ps)[i]) == Bare(ps)[i]
    {
      assert ps[i] in ps;
      ShownWord(ps[i]);
    }
  }

  lemma PiecesOfBare(ps: seq<Padded>)
    requires PadsOk(ps) && ListWords(Bare(ps))
    ensures ParseWordList(Join(Bare(ps), ",")) == Bare(ps)
  {
    forall w | w in Bare(ps)
      ensures ',' !in w && Trimmed(w)
    {
      var i :| 0 <= i < |ps| && Bare(ps)[i] == w;
      assert ps[i] in ps;
    }
    WordListOfJoin(Bare(ps));
  }

  lemma SamePiecesSameBlock(a: string, b: string, name: string)
    requires GetMatchType(a) == WordList && GetMatchType(b) == WordList && ParseWordList(a) == ParseWordList(b)
    requires ']' !in a && ']' !in b
    ensures Expand(BlockOf(a)) == Expand(BlockOf(b))
  {
    BlockExpands(a);
    BlockExpands(b);
  }

  lemma BlockExpands(content: string)
    requires ']' !in content
    ensures Expand(BlockOf(content)) == ParseEnum(content)
  {
    assert BlockOf(content) == BlockText("", content, "");
    FirstBlockIs("", content, "");
    assert Expand("") == Ok([""]);
    if ParseEnum(content).Ok? {
      ProductTail(Prefixed("", ParseEnum(content).value), "", ParseEnum(content).value);
    }
  }

  /** White space around the words of a list changes nothing, whatever the words: same candidates, same answers. */
  lemma PaddingIgnored(ps: seq<Padded>, name: string)
    requires PadsOk(ps) && ListWords(Bare(ps))
    ensures Expand(BlockOf(Join(Shown(ps), ","))) == Expand(BlockOf(Join(Bare(ps), ",")))
    ensures MatchResult(name, BlockOf(Join(Shown(ps), ","))) == MatchResult(name, BlockOf(Join(Bare(ps), ",")))
    ensures Selects(BlockOf(Join(Shown(ps), ",")), name) <==> Selects(BlockOf(Join(Bare(ps), ",")), name)
  {
    ShownWords(ps);
    PiecesOfPadded(ps);
    PiecesOfBare(ps);
    ListType(Shown(ps));
    ListType(Bare(ps));
    SamePiecesSameBlock(Join(Shown(ps), ","), Join(Bare(ps), ","), name);
  }

  /** A list of words selects what the words select as blocks of their own. */
  lemma ListIsUnion(ps: seq<Padded>, name: string)
    requires PadsOk(ps) && ListWords(Bare(ps)) && forall w :: w in Bare(ps) ==> RangeReturns(w)
    ensures Selects(BlockOf(Join(Shown(ps), ",")), name) <==> exists w :: w in Bare(ps) && Selects(BlockOf(w), name)
  {
    var content := Join(Bare(ps), ",");
    PaddingIgnored(ps, name);
    ListType(Bare(ps));
    PiecesOfBare(ps);
    WordListPieces(content, name);
    OneBlockSelects(content, name);
    forall w | w in Bare(ps)
      ensures ParseEnum(w).Ok? && (Yields(w, name) <==> Selects(BlockOf(w), name))
    {
      EnumReturns(w);
      OneBlockSelects(w, name);
    }
  }

  lemma ShownUnopened(ps: seq<Padded>)
    requires PadsOk(ps) && ps != [] && forall w :: w in Bare(ps) ==> '[' !in w
    ensures '[' !in Join(Shown(ps), ",")
  {
    JoinChar(Shown(ps), ",", '[');
    forall w | w in Shown(ps)
      ensures '[' !in w
    {
      var i :| 0 <= i < |ps| && Shown(ps)[i] == w;
      assert ps[i] in ps && Bare(ps)[i] in Bare(ps);
      ShownWord(ps[i]);
    }
  }

  lemma ListOk(ps: seq<Padded>)
    requires PadsOk(ps) && ListWords(Bare(ps)) && forall w :: w in Bare(ps) ==> '[' !in w && WordOk(w)
    ensures WellFormed(BlockOf(Join(Shown(ps), ",")))
  {
    ShownWords(ps);
    ListType(Shown(ps));
    PiecesOfPadded(ps);
    ShownUnopened(ps);
    assert BlockOk(Join(Shown(ps), ","));
    BlockAnswers(Join(Shown(ps), ","), "");
  }

  /** And Match answers so, if the words are well formed. */
  lemma ListMatchIsUnion(ps: seq<Padded>, name: string)
    requires PadsOk(ps) && ListWords(Bare(ps)) && forall w :: w in Bare(ps) ==> '[' !in w && WordOk(w)
    ensures MatchResult(name, BlockOf(Join(Shown(ps), ","))) ==
      Ok(exists w :: w in Bare(ps) && MatchResult(name, BlockOf(w)) == Ok(true))
  {
    ListIsUnion(ps, name);
    ListOk(ps);
    WellFormedMatch(name, BlockOf(Join(Shown(ps), ",")));
    forall w | w in Bare(ps)
      ensures MatchResult(name, BlockOf(w)) == Ok(Selects(BlockOf(w), name))
    {
      WordBlockOk(w);
      BlockAnswers(w, name);
    }
  }

  lemma WordBlockOk(w: string)
    requires ',' !in w && '[' !in w && WordOk(w)
    ensures BlockOk(w)
  {
  }

  /** The white space must not be in a block that starts with '!': there it is listed, and excluded, like the rest. */
  lemma PaddingInExclusion(tight: string, padded: string)
    requires tight != "" && '[' !in tight && ']' !in tight && '-' !in tight && ' ' !in tight
    requires '[' !in padded && ']' !in padded && '-' !in padded && ' ' in padded
    ensures MatchResult(" ", BlockOf("!" + tight)) == Ok(true)
    ensures MatchResult(" ", BlockOf("!" + padded)) == Ok(false)
  {
    ExclusionMatches(tight, " ");
    ExclusionMatches(padded, " ");
  }

  // ---------- Composition ----------

  lemma {:induction false} WellFormedConcat(a: string, b: string)
    requires WellFormed(a) && WellFormed(b)
    ensures WellFormed(a + b)
    decreases |a|
  {
    FirstBlockParts(a);
    match FirstBlock(a)
    case NoBlock =>
      WellFormedAfterText(a, b);
    case Unclosed(_) =>
    case Block(prefix, content, rest) =>
      BlockTextConcat(prefix, content, rest, b);
      FirstBlockIs(prefix, content, rest + b);
      WellFormedConcat(rest, b);
  }

  lemma WellFormedAfterText(a: string, b: string)
    requires '[' !in a && WellFormed(b)
    ensures WellFormed(a + b)
  {
    FirstBlockParts(b);
    FirstBlockParts(a + b);
    if FirstBlock(b).Block? {
      var r := FirstBlock(b);
      Reassociate(a, r.prefix, "[" + (r.content + ("]" + r.rest)));
      FirstBlockIs(a + r.prefix, r.content, r.rest);
    }
  }

  /** An expression made of two well-formed ones selects the names that split into a name of each. */
  lemma SelectsConcat(a: string, b: string, name: string)
    requires WellFormed(a) && WellFormed(b)
    ensures Selects(a + b, name) <==> exists k :: 0 <= k <= |name| && Selects(a, name[..k]) && Selects(b, name[k..])
  {
    WellFormedCompiles(a, "");
    WellFormedCompiles(b, "");
    ExpandConcat(a, b);
    var xs, ys := Expand(a).value, Expand(b).value;
    if c :| c in Expand(a + b).value && Fnmatch(c, name) {
      ProductMember(xs, ys, c);
      var x, y :| x in xs && y in ys && c == x + y;
      CandidatesSplit(a, b, x, y, name);
      var k :| 0 <= k <= |name| && Fnmatch(x, name[..k]) && Fnmatch(y, name[k..]);
      assert Selects(a, name[..k]) && Selects(b, name[k..]);
    }
    if k :| 0 <= k <= |name| && Selects(a, name[..k]) && Selects(b, name[k..]) {
      var x :| x in xs && Fnmatch(x, name[..k]);
      var y :| y in ys && Fnmatch(y, name[k..]);
      CandidatesSplit(a, b, x, y, name);
      ProductMember(xs, ys, x + y);
    }
  }

  /** And Match answers so. */
  lemma MatchConcat(a: string, b: string, name: string)
    requires WellFormed(a) && WellFormed(b)
    ensures MatchResult(name, a + b) == Ok(exists k ::
      0 <= k <= |name| && MatchResult(name[..k], a) == Ok(true) && MatchResult(name[k..], b) == Ok(true))
  {
    SelectsConcat(a, b, name);
    WellFormedConcat(a, b);
    WellFormedMatch(name, a + b);
    forall k | 0 <= k <= |name|
      ensures MatchResult(name[..k], a) == Ok(Selects(a, name[..k]))
      ensures MatchResult(name[k..], b) == Ok(Selects(b, name[k..]))
    {
      WellFormedMatch(name[..k], a);
      WellFormedMatch(name[k..], b);
    }
  }

  lemma CandidatesSplit(a: string, b: string, x: string, y: string, name: string)
    requires WellFormed(a) && WellFormed(b) && Expand(a).Ok? && Expand(b).Ok?
    requires x in Expand(a).value && y in Expand(b).value
    ensures Fnmatch(x + y, name) <==> exists k :: 0 <= k <= |name| && Fnmatch(x, name[..k]) && Fnmatch(y, name[k..])
  {
    WellFormedCompiles(a, x);
    WellFormedCompiles(b, y);
    FnmatchConcat(x, y, name);
  }

  /** If all names the first part selects have one length, there is only one way to split. */
  lemma SelectsSplit(a: string, b: string, x: string, y: string)
    requires WellFormed(a) && WellFormed(b) && forall t :: Selects(a, t) ==> |t| == |x|
    ensures WellFormed(a + b) && (Selects(a + b, x + y) <==> Selects(a, x) && Selects(b, y))
  {
    var name := x + y;
    assert name[..|x|] == x && name[|x|..] == y;
    WellFormedConcat(a, b);
    SelectsConcat(a, b, name);
    if k :| 0 <= k <= |name| && Selects(a, name[..k]) && Selects(b, name[k..]) {
      assert k == |x|;
    }
  }

  /** Text outside blocks selects itself. */
  lemma TextSelects(t: string, name: string)
    requires IsPlain(t) && '[' !in t
    ensures WellFormed(t) && (Selects(t, name) <==> name == t)
  {
    FirstBlockParts(t);
    PlainMatchesItself(t, name);
    assert Expand(t) == Ok([t]) && t in Expand(t).value;
  }

  // ---------- The parts together ----------

  predicate RangeEnds(a: nat, b: nat) {
    a < b <= MAX_INT && SplitFits(a, b)
  }

  function RangeWord(a: nat, b: nat): string {
    Pair(Itoa(a), Itoa(b))
  }

  lemma RangeWordSelects(a: nat, b: nat, name: string)
    requires RangeEnds(a, b)
    ensures Selects(BlockOf(RangeWord(a, b)), name) <==> IsNumberIn(name, a, b)
    ensures RangeReturns(RangeWord(a, b))
  {
    NumberText(a);
    NumberText(b);
    AtoiOfItoa(a);
    AtoiOfItoa(b);
    NumberPairMatches(Itoa(a), Itoa(b), a, b, name);
    NumberPairOk(Itoa(a), Itoa(b), a, b);
    PairSplits(Itoa(a), Itoa(b));
  }

  lemma RangeWordChars(a: nat, b: nat)
    ensures var w := RangeWord(a, b);
      ',' !in w && '[' !in w && ']' !in w && Trimmed(w) && w != "" && w[0] != '!'
  {
    var x, y := Itoa(a), Itoa(b);
    assert forall c :: c in x ==> IsDigit(c);
    assert forall c :: c in y ==> IsDigit(c);
    NumberPairChars(x, y);
    assert IsDigit(x[0]) && IsDigit(y[|y| - 1]);
  }

  /** Two number ranges in one block, with a space after the comma. */
  function TwoRanges(a: nat, b: nat, c: nat, d: nat): seq<Padded> {
    [Padded("", RangeWord(a, b), ""), Padded(" ", RangeWord(c, d), "")]
  }

  lemma TwoPadded(v: string, w: string)
    requires Trimmed(v) && Trimmed(w)
    ensures var ps := [Padded("", v, ""), Padded(" ", w, "")]; Bare(ps) == [v, w] && PadsOk(ps)
  {
    assert AllSpace("") && AllSpace(" ");
  }

  lemma TwoRangesWords(a: nat, b: nat, c: nat, d: nat)
    requires RangeEnds(a, b) && RangeEnds(c, d)
    ensures var ps := TwoRanges(a, b, c, d);
      && Bare(ps) == [RangeWord(a, b), RangeWord(c, d)] && PadsOk(ps) && ListWords(Bare(ps))
      && forall w :: w in Bare(ps) ==> '[' !in w && RangeReturns(w) && WordOk(w)
  {
    RangeWordOk(a, b);
    RangeWordOk(c, d);
    TwoPadded(RangeWord(a, b), RangeWord(c, d));
    forall w | w in Bare(TwoRanges(a, b, c, d))
      ensures ',' !in w && '[' !in w && ']' !in w && RangeReturns(w) && WordOk(w)
    {
      assert w == RangeWord(a, b) || w == RangeWord(c, d);
    }
  }

  lemma RangeWordOk(a: nat, b: nat)
    requires RangeEnds(a, b)
    ensures var w := RangeWord(a, b);
      && ',' !in w && '[' !in w && ']' !in w && Trimmed(w) && w != "" && w[0] != '!' && RangeReturns(w) && WordOk(w)
  {
    RangeWordSelects(a, b, "");
    RangeWordChars(a, b);
  }

  lemma TwoRangesSelect(a: nat, b: nat, c: nat, d: nat, name: string)
    requires RangeEnds(a, b) && RangeEnds(c, d)
    ensures var e := BlockOf(Join(Shown(TwoRanges(a, b, c, d)), ","));
      WellFormed(e) && (Selects(e, name) <==> IsNumberIn(name, a, b) || IsNumberIn(name, c, d))
  {
    var ps := TwoRanges(a, b, c, d);
    TwoRangesWords(a, b, c, d);
    ListIsUnion(ps, name);
    ListOk(ps);
    RangeWordSelects(a, b, name);
    RangeWordSelects(c, d, name);
  }

  lemma AfterText(t: string, rest: string, y: string)
    requires IsPlain(t) && WellFormed(rest)
    ensures WellFormed(t + rest) && (Selects(t + rest, t + y) <==> Selects(rest, y))
  {
    assert '[' !in t;
    forall name
      ensures Selects(t, name) <==> name == t
    {
      TextSelects(t, name);
    }
    TextSelects(t, t);
    SelectsSplit(t, rest, t, y);
  }

  lemma AfterLetter(a: char, b: char, rest: string, c: char, y: string)
    requires IsAlpha(a) && LettersAscend(a, b) && WellFormed(rest)
    ensures var e := BlockOf([a, '-', b]) + rest;
      WellFormed(e) && (Selects(e, [c] + y) <==> a <= c <= b && Selects(rest, y))
  {
    forall name
      ensures WellFormed(BlockOf([a, '-', b]))
      ensures Selects(BlockOf([a, '-', b]), name) <==> |name| == 1 && a <= name[0] <= b
    {
      LetterPairMatches(a, b, name);
    }
    LetterPairMatches(a, b, [c]);
    SelectsSplit(BlockOf([a, '-', b]), rest, [c], y);
  }

  lemma AfterExclusion(x: string, rest: string, c: char, y: string)
    requires x != "" && '[' !in x && ']' !in x && '-' !in x && WellFormed(rest)
    ensures var e := BlockOf("!" + x) + rest;
      WellFormed(e) && (Selects(e, [c] + y) <==> c !in x && Selects(rest, y))
  {
    forall name
      ensures Selects(BlockOf("!" + x), name) <==> |name| == 1 && name[0] !in x
    {
      ExclusionMatches(x, name);
    }
    ListedAscends(x);
    ExclusionOk(x);
    BlockAnswers("!" + x, "");
    SelectsSplit(BlockOf("!" + x), rest, [c], y);
  }

  /** The five parts after the first text of an expression of all kinds of parts. */
  datatype Parts = Parts(
    a: char, b: char, second: string, x: string, third: string, p: nat, q: nat, r: nat, s: nat)

  function LastParts(z: Parts): string {
    z.third + BlockOf(Join(Shown(TwoRanges(z.p, z.q, z.r, z.s)), ","))
  }

  function Shape(first: string, z: Parts): string {
    first + (BlockOf([z.a, '-', z.b]) + (z.second + (BlockOf("!" + z.x) + LastParts(z))))
  }

  predicate PartsOk(first: string, z: Parts) {
    && IsPlain(first) && IsPlain(z.second) && IsPlain(z.third) && IsAlpha(z.a) && LettersAscend(z.a, z.b)
    && z.x != "" && '[' !in z.x && ']' !in z.x && '-' !in z.x && RangeEnds(z.p, z.q) && RangeEnds(z.r, z.s)
  }

  /**
   * Text, a letter range, text, an exclusion, text, and a list of two number ranges with a space after the comma: Match
   * answers yes for a name of these parts exactly if each part fits.
   */
  lemma ShapeMatches(first: string, z: Parts, c: char, d: char, number: string)
    requires PartsOk(first, z)
    ensures MatchResult(first + ([c] + (z.second + ([d] + (z.third + number)))), Shape(first, z)) ==
      Ok(z.a <= c <= z.b && d !in z.x && (IsNumberIn(number, z.p, z.q) || IsNumberIn(number, z.r, z.s)))
  {
    var y3 := z.third + number;
    var y2 := z.second + ([d] + y3);
    var ranges := BlockOf(Join(Shown(TwoRanges(z.p, z.q, z.r, z.s)), ","));
    var e3 := BlockOf("!" + z.x) + LastParts(z);
    TwoRangesSelect(z.p, z.q, z.r, z.s, number);
    AfterText(z.third, ranges, number);
    AfterExclusion(z.x, LastParts(z), d, y3);
    AfterText(z.second, e3, [d] + y3);
    AfterLetter(z.a, z.b, z.second + e3, c, y2);
    AfterText(first, BlockOf([z.a, '-', z.b]) + (z.second + e3), [c] + y2);
    WellFormedMatch(first + ([c] + y2), Shape(first, z));
  }

  // ---------- When an expression is refused ----------

  /** Some opening bracket has no closing bracket after it. */
  predicate HasUnclosed(e: string) {
    exists i :: 0 <= i < |e| && e[i] == '[' && ']' !in e[i..]
  }

  /** If the call returns, it refuses exactly the expressions in which an opening bracket is never closed. */
  lemma {:induction false} UnclosedExactly(e: string)
    requires Returns(Expand(e))
    ensures Expand(e).Err? <==> HasUnclosed(e)
    decreases |e|
  {
    FirstBlockParts(e);
    match FirstBlock(e)
    case NoBlock =>
    case Unclosed(from) =>
      UnclosedFound(e);
    case Block(prefix, content, rest) =>
      ExpandOfBlock(e);
      UnclosedExactly(rest);
      UnclosedInRest(prefix, content, rest);
  }

  lemma UnclosedFound(e: string)
    requires FirstBlock(e).Unclosed?
    ensures HasUnclosed(e)
  {
    IndexFirst(e, '[');
    IndexFirst(e[Index(e, '[')..], ']');
  }

  lemma UnclosedInRest(prefix: string, content: string, rest: string)
    requires '[' !in prefix
    ensures HasUnclosed(BlockText(prefix, content, rest)) <==> HasUnclosed(rest)
  {
    var e, n := BlockText(prefix, content, rest), |prefix| + |content| + 2;
    assert e[n..] == rest && e[n - 1] == ']';
    forall i | 0 <= i < n
      ensures ']' in e[i..]
    {
      assert e[i..][n - 1 - i] == ']';
    }
    if i :| 0 <= i < |e| && e[i] == '[' && ']' !in e[i..] {
      assert e[i..] == rest[i - n..];
    }
    if i :| 0 <= i < |rest| && rest[i] == '[' && ']' !in rest[i..] {
      assert e[n + i] == '[' && e[n + i..] == rest[i..];
    }
  }
}
