/**
 * internal/expression/list2expr.go: which name lists are matched without loss by the expression List2Expr prints for
 * them, as its comment claims for all of them.
 */
module NameLists {
  import opened Text
  import opened Decimal
  import opened Glob
  import opened GoRegex
  import opened RangeRegex
  import opened Parse
  import opened Matching
  import opened List2Expr
  import opened SingleName
  import opened SingleMatch
  import opened Segments

  /** The printed expression selects exactly the names of the list. */
  ghost predicate Lossless(values: seq<string>) {
    forall name :: Selects(NamesExpression(values), name) <==> name in values
  }

  predicate Wild(s: string) {
    '*' in s || '?' in s
  }

  /** A name that stands for itself in a list: a plain word without wildcards and without space around it. */
  predicate ListedOk(n: string) {
    !Wild(n) && Trimmed(n) && GetMatchType(n) == Word
  }

  // ---------- Patterns without a closing bracket ----------

  /** Without ']' every '[' is an ordinary character. */
  lemma {:induction false} OpenLiteral(p: string, s: string)
    requires ']' !in p && !Wild(p)
    ensures Fnmatch(p, s) <==> s == p
  {
    if p != "" {
      assert p == [p[0]] + p[1..];
      NoClassEnd(p);
      if s != "" {
        assert s == [s[0]] + s[1..];
        OpenLiteral(p[1..], s[1..]);
      }
    }
  }

  lemma NoClassEnd(p: string)
    requires p != "" && ']' !in p
    ensures ClassEnd(p) == -1
  {
    var k := ClassScanStart(p);
    IndexFirst(p[k..], ']');
  }

  /** Wildcards filled with closing brackets. */
  function Filled(p: string): (s: string)
    ensures Wild(p) ==> ']' in s
  {
    if p == "" then ""
    else
      assert p == [p[0]] + p[1..];
      [if p[0] == '*' || p[0] == '?' then ']' else p[0]] + Filled(p[1..])
  }

  lemma {:induction false} OpenWild(p: string)
    requires ']' !in p
    ensures Fnmatch(p, Filled(p))
  {
    if p != "" {
      NoClassEnd(p);
      OpenWild(p[1..]);
      assert Filled(p)[1..] == Filled(p[1..]);
    }
  }

  /** An exclusion matches single characters only, and not the last one it lists, unless that ends a range. */
  lemma ExclusionMatches(w: string, s: string)
    requires |w| >= 2 && w[0] == '!' && ']' !in w
    requires Fnmatch("[" + w + "]", s)
    ensures |s| == 1 && (w[|w| - 2] != '-' ==> s[0] != w[|w| - 1])
  {
    var pat, e := "[" + w + "]", |w| + 1;
    assert pat[1] == '!' && pat[2] == w[1] && w[1] in w;
    assert pat[2..e] == w[1..];
    ClosingBracketFound(pat, e);
    assert pat[1..e] == w && pat[e + 1..] == "";
    if w[|w| - 2] != '-' {
      InClassLast(w[1..]);
    }
  }

  lemma {:induction false} InClassLast(content: string)
    requires content != "" && (|content| >= 2 ==> content[|content| - 2] != '-')
    ensures InClass(content, content[|content| - 1])
  {
    if |content| >= 3 && content[1] == '-' {
      InClassLast(content[3..]);
    } else if |content| > 1 {
      InClassLast(content[1..]);
    }
  }

  /** An exclusion of nothing is no class at the end of a pattern. */
  lemma BareExclusion(s: string)
    ensures Fnmatch("[!]", s) <==> s == "[!]"
  {
    var pat := "[!]";
    ClosingBracketFound(pat, 3);
    if s != "" {
      OpenTail(s[1..]);
      assert pat[1..] == "!]";
      assert s == [s[0]] + s[1..];
    }
  }

  lemma OpenTail(t: string)
    ensures Fnmatch("!]", t) <==> t == "!]"
  {
    PlainMatchesItself("!]", t);
  }

  // ---------- The pieces of a printed list ----------

  lemma {:induction false} SplitAppend(a: string, b: string, c: char)
    ensures Split(a + [c] + b, c) == Split(a, c) + Split(b, c)
    decreases |a|
  {
    IndexFirst(a, c);
    var i := Index(a, c);
    if i == -1 {
      SplitCons(a, b, c);
    } else {
      var head, rest := a[..i], a[i + 1..];
      CutAt(a, i);
      SplitAppend(rest, b, c);
      SplitAppendStep(head, rest, b, c);
    }
  }

  lemma CutAt(a: string, i: nat)
    requires i < |a|
    ensures a == a[..i] + [a[i]] + a[i + 1..]
  {
  }

  lemma SplitAppendStep(head: string, rest: string, b: string, c: char)
    requires c !in head && Split(rest + [c] + b, c) == Split(rest, c) + Split(b, c)
    ensures Split((head + [c] + rest) + [c] + b, c) == Split(head + [c] + rest, c) + Split(b, c)
  {
    SplitCons(head, rest, c);
    SplitCons(head, rest + [c] + b, c);
    Regrouped(head + [c], rest, [c], b);
    Reassociate([head], Split(rest, c), Split(b, c));
  }

  lemma Regrouped(a: string, b: string, c: string, d: string)
    ensures (a + b) + c + d == a + (b + c + d)
  {
  }

  /** The pieces of a printed list are those of its names. */
  lemma {:induction false} PiecesOfJoin(words: seq<string>, p: string)
    requires words != []
    ensures p in ParseWordList(Join(words, ",")) <==> exists w :: w in words && p in ParseWordList(w)
  {
    if |words| == 1 {
      assert words[0] in words;
    } else {
      var rest := Join(words[1..], ",");
      SplitAppend(words[0], rest, ',');
      PiecesOfJoin(words[1..], p);
      PiecesAppend(words[0], rest, p);
      assert forall w :: w in words <==> w == words[0] || w in words[1..];
    }
  }

  lemma PiecesAppend(a: string, b: string, p: string)
    requires Split(a + "," + b, ',') == Split(a, ',') + Split(b, ',')
    ensures p in ParseWordList(a + "," + b) <==> p in ParseWordList(a) || p in ParseWordList(b)
  {
    PieceIsPart(a + "," + b, p);
    PieceIsPart(a, p);
    PieceIsPart(b, p);
  }

  lemma PieceIsPart(t: string, p: string)
    ensures p in ParseWordList(t) <==> exists part :: part in Split(t, ',') && p == TrimSpace(part)
  {
    var parts, words := Split(t, ','), ParseWordList(t);
    assert |words| == |parts| && forall i :: 0 <= i < |parts| ==> words[i] == TrimSpace(parts[i]);
    if p in words {
      var i :| 0 <= i < |words| && words[i] == p;
      assert parts[i] in parts;
    }
    if part :| part in parts && p == TrimSpace(part) {
      var i :| 0 <= i < |parts| && parts[i] == part;
      assert words[i] == p;
    }
  }

  /** A name without a comma or outer space is its own only piece. */
  lemma OnePiece(w: string)
    requires ',' !in w && Trimmed(w)
    ensures ParseWordList(w) == [w]
  {
    IndexFirst(w, ',');
  }

  lemma PieceShape(w: string, p: string)
    requires p in ParseWordList(w)
    ensures ',' !in p && |p| <= |w| && Trimmed(p) && forall x :: x in p ==> x in w
  {
    SplitParts(w, ',');
    var parts := Split(w, ',');
    var i :| 0 <= i < |parts| && p == TrimSpace(parts[i]);
    assert parts[i] in parts;
  }

  // ---------- What a piece matches ----------

  lemma LetterListed(s: string)
    requires |s| == 1 && IsAlpha(s[0])
    ensures ListedOk(s)
  {
    assert forall x :: x in s ==> x == s[0];
  }

  lemma NumberListed(n: nat)
    ensures ListedOk(Itoa(n))
  {
    NumberText(n);
    var s := Itoa(n);
    assert IsDigit(s[0]) && IsDigit(s[|s| - 1]);
    assert forall x :: x in s ==> IsDigit(x);
  }

  lemma LettersMatch(w: string, s: string)
    requires IsSingleAlphaRange(w) && Fnmatch("[" + w + "]", s)
    ensures |s| == 1 && IsAlpha(s[0])
  {
    AlphaRangeText(w);
    var pat := "[" + w + "]";
    ClosingBracketFound(pat, 4);
    assert pat[1..4] == w && pat[5..] == "";
    assert w[3..] == "" && w[0] != '!';
    assert InClass(w, s[0]) <==> w[0] <= s[0] <= w[2];
  }

  /** What a range matches is a letter or a number, which stands for itself in a list. */
  lemma RangeYieldsListed(w: string, s: string)
    requires GetMatchType(w) == Range && Yields(w, s)
    ensures ListedOk(s)
  {
    ParseEnumOfRange(w);
    RangeRankBelow(w);
    if IsSingleAlphaRange(w) {
      LettersMatch(w, s);
      LetterListed(s);
    } else {
      var b, e := Atoi(Split(w, '-')[0]).value, Atoi(Split(w, '-')[1]).value;
      RangeExact(b, e, s);
      var n: nat :| b <= n <= e && s == Itoa(n);
      NumberListed(n);
    }
  }

  /** A piece whose matches are not among the four kinds below is a word with wildcards. */
  predicate Explained(p: string, s: string) {
    match GetMatchType(p)
    case Word => s == p
    case BuildInExclude => if p == "!" then s == "[!]" else |s| == 1
    case Range => ListedOk(s)
    case _ => false
  }

  lemma PieceYields(p: string, s: string)
    requires ',' !in p && ']' !in p && Yields(p, s) && !(GetMatchType(p) == Word && Wild(p))
    ensures Explained(p, s)
  {
    match GetMatchType(p)
    case Word =>
      OpenLiteral(p, s);
    case BuildInExclude =>
      if p == "!" {
        assert "[" + p + "]" == "[!]";
        BareExclusion(s);
      } else {
        ExclusionMatches(p, s);
      }
    case Range =>
      RangeYieldsListed(p, s);
    case _ =>
  }

  // ---------- Several names without ']' ----------

  predicate BracketFree(words: seq<string>) {
    forall w :: w in words ==> ']' !in w
  }

  function ListText(words: seq<string>): string
    requires words != []
  {
    "[" + Join(words, ",") + "]"
  }

  /** A printed list selects what its pieces match, if it is no exclusion and all its ranges are expanded. */
  lemma ListSelects(words: seq<string>, name: string)
    requires |words| >= 2 && BracketFree(words)
    ensures Join(words, ",") != ""
    ensures Selects(ListText(words), name) <==> Yields(Join(words, ","), name)
    ensures Join(words, ",")[0] != '!' ==>
      GetMatchType(Join(words, ",")) == WordList
      && (Yields(Join(words, ","), name) ==> exists p :: p in ParseWordList(Join(words, ",")) && Yields(p, name))
  {
    var content := Join(words, ",");
    ListChars(words);
    OneBlockSelects(content, name);
    if content[0] != '!' {
      NotEnum(content);
      WordListPieces(content, name);
    }
  }

  lemma ListChars(words: seq<string>)
    requires |words| >= 2 && BracketFree(words)
    ensures ']' !in Join(words, ",") && ',' in Join(words, ",")
  {
    JoinChar(words, ",", ']');
    JoinChar(words, ",", ',');
  }

  lemma NotEnum(content: string)
    requires ']' !in content && content != ""
    ensures GetMatchType(content) != BuildInEnum
  {
    assert content[|content| - 1] in content;
  }

  /** The last name of a list that is read as an exclusion is not selected. */
  lemma WholeExclusionLoses(words: seq<string>)
    requires |words| >= 2 && BracketFree(words) && Join(words, ",")[0] == '!'
    ensures !Selects(ListText(words), words[|words| - 1])
  {
    ListChars(words);
    var prefix := JoinEnds(words);
    ExclusionKeepsLast(Join(words, ","), prefix, words[|words| - 1]);
  }

  /** An exclusion that ends with a comma and a text does not match that text. */
  lemma ExclusionKeepsLast(content: string, prefix: string, last: string)
    requires content != "" && content[0] == '!' && ']' !in content && ',' in content
    requires content == prefix + ("," + last)
    ensures !Selects("[" + content + "]", last)
  {
    OneBlockSelects(content, last);
    if Yields(content, last) {
      WholeYields(content, last);
      LastChars(prefix, last);
    }
  }

  lemma LastChars(prefix: string, last: string)
    requires |last| == 1
    ensures var content := prefix + ("," + last);
      |content| >= 2 && content[|content| - 2] == ',' && content[|content| - 1] == last[0]
  {
  }

  lemma WholeYields(content: string, s: string)
    requires content != "" && content[0] == '!' && ']' !in content && ',' in content && Yields(content, s)
    ensures |s| == 1 && |content| >= 2 && (content[|content| - 2] != '-' ==> s[0] != content[|content| - 1])
  {
    NotEnum(content);
    ExclusionMatches(content, s);
  }

  /** A joined list ends with a comma and its last text. */
  lemma {:induction false} JoinEnds(words: seq<string>) returns (prefix: string)
    requires |words| >= 2
    ensures Join(words, ",") == prefix + ("," + words[|words| - 1])
  {
    if |words| == 2 {
      prefix := words[0];
      assert words[1..] == [words[1]];
      Reassociate(words[0], ",", words[1]);
    } else {
      var rest := JoinEnds(words[1..]);
      prefix := words[0] + "," + rest;
      Reassociate(words[0] + ",", rest, "," + words[|words| - 1]);
    }
  }

  /** A list of words that stand for themselves selects exactly those words. */
  lemma ListedSelect(words: seq<string>, name: string)
    requires |words| >= 2 && BracketFree(words) && forall w :: w in words ==> ListedOk(w)
    ensures Selects(ListText(words), name) <==> name in words
  {
    var content := Join(words, ",");
    ListSelects(words, name);
    assert words[0] in words;
    if words[0] != "" {
      JoinStart(words, ",");
    }
    forall w | w in words
      ensures ParseEnum(w).Ok? && (Yields(w, name) <==> name == w)
    {
      OpenLiteral(w, name);
      assert ParseEnum(w) == Ok([w]);
      assert w in [w];
    }
    WordListYields(words, name);
  }

  ghost predicate KeepsList(words: seq<string>)
    requires words != []
  {
    forall name :: Selects(ListText(words), name) <==> name in words
  }

  lemma KeepsListAt(words: seq<string>, name: string)
    requires words != [] && KeepsList(words)
    ensures Selects(ListText(words), name) <==> name in words
  {
  }

  /** In a lossless list no piece matches a text with ']': it is no word with wildcards and no bare exclusion. */
  lemma PieceTame(words: seq<string>, p: string)
    requires |words| >= 2 && BracketFree(words) && Join(words, ",")[0] != '!' && KeepsList(words)
    requires p in ParseWordList(Join(words, ","))
    ensures ParseEnum(p).Ok? && ',' !in p && ']' !in p
    ensures !(GetMatchType(p) == Word && Wild(p)) && p != "!"
  {
    assert words[0] in words;
    KeepsListAt(words, words[0]);
    ListSelects(words, words[0]);
    PieceBracketFree(words, p);
    WordListPieces(Join(words, ","), "");
    if GetMatchType(p) == Word && Wild(p) {
      WildYields(p);
      PieceUntame(words, p, Filled(p));
    } else if p == "!" {
      BareYields();
      PieceUntame(words, p, "[!]");
    }
  }

  lemma PieceBracketFree(words: seq<string>, p: string)
    requires |words| >= 2 && BracketFree(words) && p in ParseWordList(Join(words, ","))
    ensures ',' !in p && ']' !in p
  {
    JoinChar(words, ",", ']');
    PieceShape(Join(words, ","), p);
  }

  lemma WildYields(p: string)
    requires ']' !in p && GetMatchType(p) == Word && Wild(p)
    ensures Yields(p, Filled(p))
  {
    OpenWild(p);
    assert p in ParseEnum(p).value;
  }

  lemma BareYields()
    ensures Yields("!", "[!]")
  {
    BareExclusion("[!]");
    assert "[" + "!" + "]" == "[!]";
    assert "[!]" in ParseEnum("!").value;
  }

  /** A piece that matches a text with a closing bracket selects what is no name. */
  lemma PieceUntame(words: seq<string>, p: string, s: string)
    requires |words| >= 2 && BracketFree(words) && Join(words, ",")[0] != '!' && ']' in s
    requires ParseEnum(Join(words, ",")).Ok? && p in ParseWordList(Join(words, ",")) && Yields(p, s)
    ensures !KeepsList(words)
  {
    PieceSelected(words, p, s);
    if KeepsList(words) {
      KeepsListAt(words, s);
    }
  }

  lemma PieceSelected(words: seq<string>, p: string, s: string)
    requires |words| >= 2 && BracketFree(words) && Join(words, ",")[0] != '!'
    requires ParseEnum(Join(words, ",")).Ok? && p in ParseWordList(Join(words, ",")) && Yields(p, s)
    ensures Selects(ListText(words), s)
  {
    ListSelects(words, s);
    WordListPieces(Join(words, ","), s);
  }

  /** The name of a lossless list is explained by one of the pieces. */
  lemma NameExplained(words: seq<string>, w: string) returns (p: string)
    requires |words| >= 2 && BracketFree(words) && Join(words, ",")[0] != '!' && KeepsList(words)
    requires w in words
    ensures p in ParseWordList(Join(words, ",")) && Explained(p, w)
    ensures p != "!" && (GetMatchType(p) == Word ==> !Wild(p))
  {
    KeepsListAt(words, w);
    ListSelects(words, w);
    p :| p in ParseWordList(Join(words, ",")) && Yields(p, w);
    PieceTame(words, p);
    PieceYields(p, w);
  }

  lemma LongNameListed(words: seq<string>, w: string)
    requires |words| >= 2 && BracketFree(words) && Join(words, ",")[0] != '!' && KeepsList(words)
    requires w in words && |w| != 1
    ensures ListedOk(w)
  {
    var p := NameExplained(words, w);
    PieceShape(Join(words, ","), p);
  }

  lemma PlainPiece(w: string, p: string)
    requires ListedOk(w) && p in ParseWordList(w)
    ensures GetMatchType(p) == Word
  {
    OnePiece(w);
  }

  /** In a lossless list no piece is an exclusion: the name it comes from would be lost. */
  lemma NoExclusion(words: seq<string>, p: string)
    requires |words| >= 2 && BracketFree(words) && Join(words, ",")[0] != '!' && KeepsList(words)
    requires p in ParseWordList(Join(words, ","))
    ensures GetMatchType(p) != BuildInExclude
  {
    var w := NameOfPiece(words, p);
    PieceTame(words, p);
    if GetMatchType(p) == BuildInExclude {
      LongExclusion(p);
      LongNameListed(words, w);
      PlainPiece(w, p);
    }
  }

  lemma NameOfPiece(words: seq<string>, p: string) returns (w: string)
    requires words != [] && p in ParseWordList(Join(words, ","))
    ensures w in words && p in ParseWordList(w) && |p| <= |w|
  {
    PiecesOfJoin(words, p);
    w :| w in words && p in ParseWordList(w);
    PieceShape(w, p);
  }

  lemma LongExclusion(p: string)
    requires GetMatchType(p) == BuildInExclude && p != "!"
    ensures |p| >= 2
  {
  }

  /** So every name of a lossless list stands for itself. */
  lemma LosslessListed(words: seq<string>, w: string)
    requires |words| >= 2 && BracketFree(words)
    requires KeepsList(words)
    requires w in words
    ensures ListedOk(w)
  {
    if Join(words, ",")[0] == '!' {
      assert words[|words| - 1] in words;
      KeepsListAt(words, words[|words| - 1]);
      WholeExclusionLoses(words);
    } else {
      var p := NameExplained(words, w);
      NoExclusion(words, p);
      PieceShape(Join(words, ","), p);
    }
  }

  // ---------- Several names, some with ']' ----------

  predicate TameText(t: string) {
    '*' !in t && '?' !in t && '[' !in t && '!' !in t
  }

  predicate TameNames(words: seq<string>) {
    forall w :: w in words ==> TameText(w)
  }

  lemma EarlyBlock(content: string) returns (first: string, rest: string)
    requires ']' in content && TameText(content)
    ensures FirstBlock("[" + content + "]") == Block("", first, rest) && Expand(rest) == Ok([rest])
    ensures TameText(first) && ']' !in first && IsPlain(rest)
    ensures |rest| == |content| - Index(content, ']') && rest[|rest| - 1] == ']'
  {
    IndexFirst(content, ']');
    var i := Index(content, ']');
    first, rest := content[..i], content[i + 1..] + "]";
    EarlySplit(content, i);
    FirstBlockIs("", first, rest);
    TameSlices(content, i);
    FirstBlockParts(rest);
  }

  lemma EarlySplit(content: string, i: nat)
    requires i < |content| && content[i] == ']'
    ensures "[" + content + "]" == BlockText("", content[..i], content[i + 1..] + "]")
  {
    assert content == content[..i] + ("]" + content[i + 1..]);
  }

  lemma TameSlices(content: string, i: nat)
    requires i < |content| && TameText(content)
    ensures TameText(content[..i]) && IsPlain(content[i + 1..] + "]") && '[' !in content[i + 1..] + "]"
  {
    assert forall x :: x in content[..i] ==> x in content;
    assert forall x :: x in content[i + 1..] ==> x in content;
  }

  /** A closing bracket in a name ends the block early: what is left over is part of every text selected. */
  lemma EarlyEnd(content: string, s: string)
    requires ']' in content && TameText(content)
    requires Selects("[" + content + "]", s)
    ensures |s| >= |content| - Index(content, ']') && s[|s| - 1] == ']'
  {
    var first, rest := EarlyBlock(content);
    var c :| c in Expand("[" + content + "]").value && Fnmatch(c, s);
    var v := SoleTail(ParseEnum(first).value, rest, c);
    ValueSolid(first, v);
    SolidThenPlain(v, rest, s);
  }

  lemma SolidThenPlain(v: string, rest: string, s: string)
    requires Solid(v) && IsPlain(rest) && Fnmatch(v + rest, s)
    ensures |s| >= |rest| && (rest != "" ==> s[|s| - 1] == rest[|rest| - 1])
  {
    PlainTokens(rest);
    FnmatchConcat(v, rest, s);
    var k :| 0 <= k <= |s| && Fnmatch(v, s[..k]) && Fnmatch(rest, s[k..]);
    PlainMatchesItself(rest, s[k..]);
    SuffixEnds(s, k, rest);
  }

  lemma SuffixEnds(s: string, k: nat, rest: string)
    requires k <= |s| && s[k..] == rest
    ensures |s| >= |rest| && (rest != "" ==> s[|s| - 1] == rest[|rest| - 1])
  {
  }

  lemma SoleTail(values: seq<string>, rest: string, c: string) returns (v: string)
    requires c in Product(Prefixed("", values), [rest])
    ensures v in values && c == v + rest
  {
    ProductMember(Prefixed("", values), [rest], c);
    var x, y :| x in Prefixed("", values) && y in [rest] && c == x + y;
    var j :| 0 <= j < |values| && x == "" + values[j];
    v := values[j];
  }

  lemma ValueSolid(content: string, v: string)
    requires '!' !in content && '[' !in content && ']' !in content
    requires ParseEnum(content).Ok? && v in ParseEnum(content).value
    ensures Solid(v)
  {
    if GetMatchType(content) == WordList {
      WordListPieces(content, "");
      forall p | p in ParseWordList(content)
        ensures WordOk(p)
      {
        PieceShape(content, p);
        PieceReturns(p);
      }
    } else {
      PieceReturns(content);
    }
    BlockCompiles(content, v);
  }

  lemma PieceReturns(p: string)
    requires ',' !in p && '[' !in p && (p != "" ==> p[0] != '!') && ParseEnum(p).Ok?
    ensures RangeReturns(p)
  {
    if IsNumberRange(p) {
      JoinOfSplit(p, '-');
      IndexFirst(p, '-');
      assert GetMatchType(p) == Range;
      EnumReturns(p);
    }
  }

  /** A list of names without those characters, some with ']', is never lossless. */
  lemma ClosingBracketLost(words: seq<string>)
    requires |words| >= 2 && TameNames(words) && !BracketFree(words)
    ensures exists w :: w in words && !Selects(ListText(words), w)
  {
    var content, first, last := Join(words, ","), words[0], words[|words| - 1];
    TameContent(words);
    assert first in words && last in words;
    if Selects(ListText(words), first) && Selects(ListText(words), last) {
      EarlyEnd(content, first);
      IndexFirst(first, ']');
      var i := Index(first, ']');
      assert first[i] == content[i] && first[..i] == content[..i];
      IndexIs(content, ']', i);
      FirstThenLast(words);
      EarlyEnd(content, last);
    }
  }

  lemma FirstThenLast(words: seq<string>)
    requires |words| >= 2
    ensures |Join(words, ",")| >= |words[0]| + 1 + |words[|words| - 1]|
    ensures Join(words, ",")[..|words[0]|] == words[0]
  {
    if |words| > 2 {
      var prefix := JoinEnds(words[1..]);
    }
  }

  lemma TameContent(words: seq<string>)
    requires |words| >= 2 && TameNames(words) && !BracketFree(words)
    ensures var content := Join(words, ",");
      ']' in content && TameText(content)
  {
    JoinChar(words, ",", ']');
    JoinChar(words, ",", '*');
    JoinChar(words, ",", '?');
    JoinChar(words, ",", '[');
    JoinChar(words, ",", '!');
  }

  // ---------- All lists ----------

  /** What a lossless list must hold: one name that stands alone, or several that stand for themselves. */
  predicate KeepsNames(values: seq<string>) {
    if |Distinct(values)| == 1 then StandsAlone(Distinct(values)[0])
    else forall v :: v in values ==> ']' !in v && ListedOk(v)
  }

  lemma ManyNames(values: seq<string>)
    requires |Distinct(values)| >= 2
    ensures var words := SortStrings(Distinct(values));
      |words| >= 2 && NamesExpression(values) == ListText(words) && forall v :: v in words <==> v in values
  {
  }

  /**
   * Which name lists are matched without loss. The condition is exact for one distinct name, for names without ']', and
   * for names without '*', '?', '[' and '!'.
   */
  lemma NamesRoundTripExactly(values: seq<string>)
    requires values != []
    requires |Distinct(values)| == 1 || BracketFree(values) || TameNames(values)
    ensures Lossless(values) <==> KeepsNames(values)
  {
    var uniq := Distinct(values);
    assert values[0] in uniq;
    if |uniq| == 1 {
      OnlyName(values);
      SingleNameExactly(uniq[0]);
    } else {
      ManyNames(values);
      SeveralNames(values, SortStrings(uniq));
    }
  }

  lemma SeveralNames(values: seq<string>, words: seq<string>)
    requires |words| >= 2 && NamesExpression(values) == ListText(words) && |Distinct(values)| >= 2
    requires forall v :: v in words <==> v in values
    requires BracketFree(values) || TameNames(values)
    ensures Lossless(values) <==> KeepsNames(values)
  {
    if !BracketFree(words) {
      ClosingBracketLost(words);
    } else if KeepsNames(values) {
      forall name
        ensures Selects(ListText(words), name) <==> name in words
      {
        ListedSelect(words, name);
      }
    } else if Lossless(values) {
      assert KeepsList(words);
      forall w | w in words
        ensures ListedOk(w)
      {
        LosslessListed(words, w);
      }
    }
  }

  // ---------- What Match answers ----------

  /** Match on the printed expression answers yes exactly for the names of the list. */
  ghost predicate MatchesList(values: seq<string>) {
    forall name :: MatchResult(name, NamesExpression(values)) == Ok(name in values)
  }

  /** Without ']' a pattern is all literal or wild, and compiles. */
  lemma {:induction false} OpenCompiles(p: string)
    requires ']' !in p
    ensures Compiles(p)
  {
    if p != "" {
      NoClassEnd(p);
      OpenCompiles(p[1..]);
    }
  }

  /** The value of a piece that compiles holds no class name. */
  lemma ValueUnnamed(p: string, v: string)
    requires ',' !in p && ']' !in p && ParseEnum(p).Ok? && v in ParseEnum(p).value && Compile(v).Ok?
    ensures !HasName(v)
  {
    match GetMatchType(p)
    case Word =>
      OpenCompiles(p);
    case BuildInExclude =>
      ExclusionUnnamed(p);
    case Range =>
      ParseEnumOfRange(p);
      RangeRankBelow(p);
      RangeClosed(p, v);
      ClosedNoName(v);
    case _ =>
      NotEnum(p);
  }

  lemma ExclusionUnnamed(p: string)
    requires p != "" && p[0] == '!' && ']' !in p && Compile("[" + p + "]").Ok?
    ensures !HasName("[" + p + "]")
  {
    if |p| >= 2 {
      if HasName("[" + p + "]") {
        ExclusionNameBroken(p);
      }
    } else {
      BareUnnamed();
      assert "[" + p + "]" == "[!]";
    }
  }

  lemma BareUnnamed()
    ensures !HasName("[!]")
  {
    var pat := "[!]";
    ClosingBracketFound(pat, 3);
    OpenTailUnnamed();
    assert HeadLength(pat) == 1 && pat[1..] == "!]";
    assert !HasName(pat[1..]);
  }

  lemma OpenTailUnnamed()
    ensures !HasName("!]")
  {
    PlainTokens("!]");
    ClosedNoName("!]");
  }

  lemma RangeClosed(w: string, v: string)
    requires GetMatchType(w) == Range && ParseRangeExpression(w).Ok? && v in ParseRangeExpression(w).value
    ensures Closed(v)
  {
    RangeRankBelow(w);
    if IsSingleAlphaRange(w) {
      AlphaRangeCompiles(w);
    } else {
      RangeCompiles(Atoi(Split(w, '-')[0]).value, Atoi(Split(w, '-')[1]).value, v);
    }
  }

  /** The candidates of a printed list are the values of its pieces, or one exclusion. */
  lemma ListCandidates(words: seq<string>)
    requires |words| >= 2 && BracketFree(words) && Expand(ListText(words)).Ok?
    requires forall c :: c in Expand(ListText(words)).value ==> Compile(c).Ok?
    ensures Unnamed(ListText(words))
  {
    ListChars(words);
    BlockUnnamed(Join(words, ","));
  }

  lemma BlockUnnamed(content: string)
    requires ']' !in content && ',' in content && Expand("[" + content + "]").Ok?
    requires forall c :: c in Expand("[" + content + "]").value ==> Compile(c).Ok?
    ensures Unnamed("[" + content + "]")
  {
    BlockExpands(content);
    NotEnum(content);
    forall c | c in ParseEnum(content).value
      ensures !HasName(c)
    {
      if content[0] == '!' {
        ExclusionUnnamed(content);
      } else {
        ContentUnnamed(content, c);
      }
    }
  }

  lemma ContentUnnamed(content: string, c: string)
    requires GetMatchType(content) == WordList && ']' !in content
    requires ParseEnum(content).Ok? && c in ParseEnum(content).value && Compile(c).Ok?
    ensures !HasName(c)
  {
    WordsRankBelowList(content);
    ParseEachMember(ParseWordList(content), 2, c);
    var p :| p in ParseWordList(content) && c in ParseEnum(p).value;
    PieceShape(content, p);
    ValueUnnamed(p, c);
  }

  lemma BlockExpands(content: string)
    requires ']' !in content
    ensures Expand("[" + content + "]") == ParseEnum(content)
  {
    LoneBlock(content);
    assert Expand("") == Ok([""]);
    if ParseEnum(content).Ok? {
      ProductTail(Prefixed("", ParseEnum(content).value), "", ParseEnum(content).value);
    }
  }

  lemma LoneBlock(content: string)
    requires ']' !in content
    ensures FirstBlock("[" + content + "]") == Block("", content, "")
  {
    assert "[" + content + "]" == BlockText("", content, "");
    FirstBlockIs("", content, "");
  }

  /** A name longer than all others. */
  lemma {:induction false} Outsider(values: seq<string>) returns (name: string)
    ensures name !in values && name != "" && forall v :: v in values ==> |v| < |name|
  {
    if values == [] {
      name := "a";
    } else {
      var rest := Outsider(values[1..]);
      name := values[0] + rest;
      assert forall v :: v in values <==> v == values[0] || v in values[1..];
    }
  }

  /** If Match answers as the list says, every candidate compiles, as it does for a text that none matches. */
  lemma AnsweredCompiles(values: seq<string>)
    requires MatchesList(values)
    ensures Expand(NamesExpression(values)).Ok?
    ensures forall c :: c in Expand(NamesExpression(values)).value ==> Compile(c).Ok?
  {
    var e := NamesExpression(values);
    var name := Outsider(values);
    assert MatchResult(name, e) == Ok(false);
    NoHit(Distinct(Expand(e).value), name);
  }

  /** Where no candidate holds a class name, answering as the list says is selecting as the list says. */
  lemma AnsweredLossless(values: seq<string>)
    requires MatchesList(values) && Unnamed(NamesExpression(values))
    ensures Lossless(values)
  {
    forall name
      ensures Selects(NamesExpression(values), name) <==> name in values
    {
      assert MatchResult(name, NamesExpression(values)) == Ok(name in values);
      MatchMeansSelects(name, NamesExpression(values));
    }
  }

  /** The candidates of a list of words that stand for themselves are those words. */
  lemma ListedMatch(words: seq<string>, name: string)
    requires |words| >= 2 && BracketFree(words) && forall w :: w in words ==> ListedOk(w)
    ensures MatchResult(name, ListText(words)) == Ok(name in words)
  {
    var content := Join(words, ",");
    ListChars(words);
    BlockExpands(content);
    ListedContent(words);
    WordListOfJoin(words);
    WordListPieces(content, name);
    forall c | c in ParseEnum(content).value
      ensures Compiles(c)
    {
      WordsRankBelowList(content);
      ParseEachMember(words, 2, c);
      OpenCompiles(c);
    }
    MatchDecidesSelects(name, ListText(words));
    ListedSelect(words, name);
  }

  lemma ListedContent(words: seq<string>)
    requires |words| >= 2 && BracketFree(words) && forall w :: w in words ==> ListedOk(w)
    ensures GetMatchType(Join(words, ",")) == WordList
    ensures forall w :: w in words ==> ParseEnum(w) == Ok([w])
  {
    ListChars(words);
    assert words[0] in words;
    if words[0] != "" {
      JoinStart(words, ",");
    }
    NotEnum(Join(words, ","));
  }

  /** For which lists Match on the printed expression answers yes exactly for the names listed. */
  lemma NamesMatchExactly(values: seq<string>)
    requires values != []
    requires |Distinct(values)| == 1 || BracketFree(values) || TameNames(values)
    ensures MatchesList(values) <==> KeepsNames(values)
  {
    var uniq := Distinct(values);
    assert values[0] in uniq;
    NamesRoundTripExactly(values);
    if KeepsNames(values) {
      forall name
        ensures MatchResult(name, NamesExpression(values)) == Ok(name in values)
      {
        NamesMatch(values, name);
      }
    }
    if MatchesList(values) {
      if |uniq| == 1 {
        OnlyName(values);
        SingleNameMatches(uniq[0]);
      } else {
        AnsweredCompiles(values);
        ManyNames(values);
        SeveralUnnamed(values, SortStrings(uniq));
        AnsweredLossless(values);
      }
    }
  }

  lemma OnlyName(values: seq<string>)
    requires |Distinct(values)| == 1
    ensures NamesExpression(values) == Distinct(values)[0] && forall v :: v in values <==> v == Distinct(values)[0]
  {
    assert forall v :: v in values <==> v in Distinct(values);
  }

  lemma SeveralUnnamed(values: seq<string>, words: seq<string>)
    requires |words| >= 2 && (forall v :: v in words <==> v in values) && (BracketFree(values) || TameNames(values))
    requires Expand(ListText(words)).Ok? && forall c :: c in Expand(ListText(words)).value ==> Compile(c).Ok?
    ensures Unnamed(ListText(words))
  {
    if BracketFree(words) {
      ListCandidates(words);
    } else {
      TameContent(words);
      forall c | c in Expand(ListText(words)).value
        ensures !HasName(c)
      {
        EarlyUnnamed(Join(words, ","), c);
      }
    }
  }

  lemma EarlyUnnamed(content: string, c: string)
    requires ']' in content && TameText(content)
    requires Expand("[" + content + "]").Ok? && c in Expand("[" + content + "]").value
    ensures !HasName(c)
  {
    var first, rest := EarlyBlock(content);
    var v := SoleTail(ParseEnum(first).value, rest, c);
    ValueSolid(first, v);
    PlainTokens(rest);
    ClosedConcat(v, rest);
    ClosedNoName(c);
  }

  /** A list that keeps its names, name by name: this half needs no other condition. */
  lemma NamesMatch(values: seq<string>, name: string)
    requires values != [] && KeepsNames(values)
    ensures MatchResult(name, NamesExpression(values)) == Ok(name in values)
  {
    var uniq := Distinct(values);
    assert values[0] in uniq;
    if |uniq| == 1 {
      OnlyName(values);
      StandAloneMatches(uniq[0]);
    } else {
      ManyNames(values);
      ListedMatch(SortStrings(uniq), name);
    }
  }

  lemma NamesSelect(values: seq<string>, name: string)
    requires values != [] && KeepsNames(values)
    ensures Selects(NamesExpression(values), name) <==> name in values
  {
    assert values[0] in Distinct(values);
    NamesRoundTripExactly(values);
  }

  /** A name that reads as a range is lost among others, if those have no wildcards and no ']'. */
  lemma RangeNameLost(values: seq<string>, r: string)
    requires |Distinct(values)| >= 2 && r in values && GetMatchType(r) == Range
    requires BracketFree(values) && forall v :: v in values ==> !Wild(v)
    ensures !Selects(NamesExpression(values), r)
  {
    var words := SortStrings(Distinct(values));
    ManyNames(values);
    assert r in words;
    RangeTextShape(r);
    ListSelects(words, r);
    if Join(words, ",")[0] == '!' {
      SingleCharsOnly(words, r);
    } else if Selects(ListText(words), r) {
      var p :| p in ParseWordList(Join(words, ",")) && Yields(p, r);
      TamePiece(words, p);
      PieceYields(p, r);
    }
  }

  lemma TamePiece(words: seq<string>, p: string)
    requires |words| >= 2 && BracketFree(words) && forall w :: w in words ==> !Wild(w)
    requires p in ParseWordList(Join(words, ","))
    ensures ',' !in p && ']' !in p && !Wild(p)
  {
    JoinChar(words, ",", ']');
    JoinChar(words, ",", '*');
    JoinChar(words, ",", '?');
    PieceShape(Join(words, ","), p);
  }

  lemma SingleCharsOnly(words: seq<string>, s: string)
    requires |words| >= 2 && BracketFree(words) && Join(words, ",")[0] == '!' && |s| != 1
    ensures !Selects(ListText(words), s)
  {
    ListChars(words);
    ExclusionSingle(Join(words, ","), s);
  }

  lemma ExclusionSingle(content: string, s: string)
    requires content != "" && content[0] == '!' && ']' !in content && ',' in content && |s| != 1
    ensures !Selects("[" + content + "]", s)
  {
    OneBlockSelects(content, s);
    if Yields(content, s) {
      WholeYields(content, s);
    }
  }

  lemma RangeTextShape(w: string)
    requires GetMatchType(w) == Range
    ensures '-' in w && |w| >= 3
  {
    if IsSingleAlphaRange(w) {
      AlphaRangeText(w);
    } else {
      JoinOfSplit(w, '-');
      var parts := Split(w, '-');
      assert parts[1..] == [parts[1]];
      assert w == parts[0] + "-" + parts[1];
    }
  }

  /** For example "a-c" beside any other name. */
  lemma LetterRangeLost(a: char, b: char, r: string, other: string)
    requires IsLower(a) && IsLower(b) && a < b && r == [a, '-', b]
    requires other != r && ']' !in other && !Wild(other)
    ensures !Selects(NamesExpression([r, other]), r)
  {
    LetterRange(a, b);
    TwoNames(r, other);
    assert r in [r, other];
    RangeNameLost([r, other], r);
  }

  lemma LetterRange(a: char, b: char)
    requires IsLower(a) && IsLower(b) && a < b
    ensures GetMatchType([a, '-', b]) == Range
  {
    SplitOfJoin([[a], [b]], '-');
    assert Join([[a], [b]], ['-']) == [a, '-', b];
  }

  lemma TwoNames(a: string, b: string)
    requires a != b
    ensures Distinct([a, b]) == [a, b]
  {
    assert [a, b][..1] == [a] && [a][..0] == [];
    assert Distinct([a]) == [a];
  }

  // ---------- Lists that can be joined with other segments ----------

  /** A name without the characters of the expression language: no glob or list syntax, and no space around it. */
  predicate PlainName(n: string) {
    && '*' !in n && '?' !in n && '[' !in n && ']' !in n && ',' !in n
    && Trimmed(n) && (n != "" ==> n[0] != '!')
  }

  /** Name expressions are well formed. */
  lemma NamesWellFormed(values: seq<string>)
    requires forall v :: v in values ==> PlainName(v)
    requires |Distinct(values)| >= 2 ==> forall v :: v in values ==> GetMatchType(v) == Word
    ensures WellFormed(NamesExpression(values))
  {
    var uniq := Distinct(values);
    if |uniq| <= 1 {
      assert uniq != [] ==> uniq[0] in values;
      FirstBlockParts(NamesExpression(values));
    } else {
      ManyNames(values);
      ListWellFormed(SortStrings(uniq));
    }
  }

  lemma ListWellFormed(words: seq<string>)
    requires |words| >= 2 && forall w :: w in words ==> PlainName(w) && GetMatchType(w) == Word
    ensures WellFormed(ListText(words))
  {
    JoinChar(words, ",", '[');
    ListChars(words);
    WordListOfJoin(words);
    assert words[0] in words;
    if words[0] != "" {
      JoinStart(words, ",");
    }
    forall w | w in words
      ensures WordOk(w)
    {
      WordRange(w);
    }
    BlockWellFormed(Join(words, ","));
  }

  lemma BlockWellFormed(content: string)
    requires content != "" && content[0] != '!' && ',' in content && '[' !in content && ']' !in content
    requires forall w :: w in ParseWordList(content) ==> WordOk(w)
    ensures WellFormed("[" + content + "]")
  {
    NotEnum(content);
    OneBlockSelects(content, "");
    FirstBlockParts("");
  }

  lemma WordRange(w: string)
    requires GetMatchType(w) == Word
    ensures RangeReturns(w)
  {
    if IsNumberRange(w) {
      JoinOfSplit(w, '-');
      IndexFirst(w, '-');
    }
  }
}
