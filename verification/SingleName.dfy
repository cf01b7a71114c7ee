/** internal/expression/list2expr.go: when a single name, which is printed as it is, matches itself and nothing else. */
module SingleName {
  import opened Text
  import opened Decimal
  import opened Glob
  import opened GoRegex
  import opened RangeRegex
  import opened Parse
  import opened Matching

  // ---------- Patterns that match one text only ----------

  /** The token at the start of some turn is a star or a question mark. */
  predicate WildHead(pat: string)
    decreases |pat|
  {
    pat != "" && (pat[0] == '*' || pat[0] == '?' || WildHead(pat[HeadLength(pat)..]))
  }

  /** Every token of the pattern is an ordinary character. */
  predicate Literal(pat: string) {
    pat == "" || (HeadLength(pat) == 1 && pat[0] != '*' && pat[0] != '?' && Literal(pat[1..]))
  }

  lemma {:induction false} LiteralMatches(pat: string, s: string)
    requires Literal(pat)
    ensures Fnmatch(pat, s) <==> s == pat
  {
    if pat != "" {
      assert pat == [pat[0]] + pat[1..];
      if s != "" {
        assert s == [s[0]] + s[1..];
        LiteralMatches(pat[1..], s[1..]);
      }
    }
  }

  /** A pattern with a wildcard that matches one text also matches another. */
  lemma {:induction false} WildMatchesAnother(pat: string, s: string) returns (t: string)
    requires Fnmatch(pat, s) && WildHead(pat)
    ensures t != s && Fnmatch(pat, t)
    decreases |pat|
  {
    if pat[0] == '*' {
      var k :| 0 <= k <= |s| && Fnmatch(pat[1..], s[k..]);
      t := "a" + s;
      assert t[k + 1..] == s[k..];
      assert |t| != |s|;
    } else if pat[0] == '?' {
      t := [if s[0] == 'a' then 'b' else 'a'] + s[1..];
      assert t[1..] == s[1..] && t[0] != s[0];
    } else {
      var rest := WildMatchesAnother(pat[HeadLength(pat)..], s[1..]);
      t := [s[0]] + rest;
      assert t[1..] == rest;
    }
  }

  /** Without wildcards a pattern matches no text longer than itself, and one as long only if it is all literal. */
  lemma {:induction false} FullLength(pat: string, s: string)
    requires !WildHead(pat) && Fnmatch(pat, s)
    ensures |s| <= |pat| && (|s| == |pat| ==> Literal(pat))
    decreases |pat|
  {
    if pat != "" {
      FullLength(pat[HeadLength(pat)..], s[1..]);
    }
  }

  // ---------- Patterns in units ----------

  /** A single character, or a class of one range of letters or digits. */
  predicate IsUnit(u: string) {
    |u| == 1 || (|u| == 5 && u[0] == '[' && IsAlnum(u[1]) && u[2] == '-' && IsAlnum(u[3]) && u[4] == ']')
  }

  predicate AllUnits(us: seq<string>) {
    forall u :: u in us ==> IsUnit(u)
  }

  function Concat(us: seq<string>): string {
    if us == [] then "" else us[0] + Concat(us[1..])
  }

  lemma {:induction false} ConcatAppend(us: seq<string>, vs: seq<string>)
    ensures Concat(us + vs) == Concat(us) + Concat(vs)
  {
    if us == [] {
      assert us + vs == vs;
    } else {
      assert (us + vs)[1..] == us[1..] + vs;
      ConcatAppend(us[1..], vs);
      Reassociate(us[0], Concat(us[1..]), Concat(vs));
    }
  }

  /** A closing bracket ends a unit. */
  lemma {:induction false} BracketEndsUnit(us: seq<string>, i: nat) returns (j: nat)
    requires AllUnits(us) && i < |Concat(us)| && Concat(us)[i] == ']'
    ensures 1 <= j <= |us| && Concat(us[j..]) == Concat(us)[i + 1..]
  {
    var c, u, rest := Concat(us), us[0], Concat(us[1..]);
    assert u in us;
    if i < |u| {
      j := 1;
      assert i + 1 == |u|;
      assert c[i + 1..] == rest;
    } else {
      assert c[i] == rest[i - |u|];
      var k := BracketEndsUnit(us[1..], i - |u|);
      j := k + 1;
      assert us[1..][k..] == us[j..];
      assert c[i + 1..] == rest[i - |u| + 1..];
    }
  }

  /** A pattern without wildcards matches no text longer than its number of units. */
  lemma {:induction false} UnitsBound(us: seq<string>, s: string)
    requires AllUnits(us) && !WildHead(Concat(us)) && Fnmatch(Concat(us), s)
    ensures |s| <= |us|
    decreases |us|
  {
    var pat := Concat(us);
    if us != [] {
      assert us[0] in us;
      var h := HeadLength(pat);
      if h == 1 {
        HeadUnit(us);
        UnitsBound(us[1..], s[1..]);
      } else {
        ClassEndFirst(pat);
        var j := BracketEndsUnit(us, h - 1);
        assert AllUnits(us[j..]);
        UnitsBound(us[j..], s[1..]);
      }
    }
  }

  /** A token of one character is a unit of one character. */
  lemma HeadUnit(us: seq<string>)
    requires us != [] && AllUnits(us) && Concat(us) != "" && HeadLength(Concat(us)) == 1
    ensures Concat(us)[1..] == Concat(us[1..])
  {
    var pat, u := Concat(us), us[0];
    assert u in us;
    if |u| == 5 {
      assert pat[1] == u[1] && pat[2] == u[2] && pat[3] == u[3] && pat[4] == u[4];
      assert ']' !in pat[1..4];
      ClosingBracketFound(pat, 4);
    }
  }

  function Chars(s: string): (us: seq<string>)
    ensures |us| == |s| && AllUnits(us)
  {
    seq(|s|, i requires 0 <= i < |s| => [s[i]])
  }

  lemma {:induction false} ConcatChars(s: string)
    ensures Concat(Chars(s)) == s
  {
    if s != "" {
      assert Chars(s)[1..] == Chars(s[1..]);
      ConcatChars(s[1..]);
    }
  }

  // ---------- The units of a candidate ----------

  lemma {:induction false} FragmentUnits(bs: string, es: string) returns (us: seq<string>)
    requires |bs| == |es| && AllDigits(bs) && AllDigits(es)
    ensures AllUnits(us) && Concat(us) == FragmentOf(bs, es) && |us| == |bs|
  {
    if bs == "" {
      us := [];
    } else {
      var rest := FragmentUnits(bs[1..], es[1..]);
      us := [DigitClass(bs[0], es[0])] + rest;
    }
  }

  lemma {:induction false} TextLengthMonotone(m: nat, n: nat)
    requires m <= n
    ensures |Itoa(m)| <= |Itoa(n)|
  {
    if m >= 10 {
      TextLengthMonotone(m / 10, n / 10);
    }
  }

  /** Canonical text is never longer than the digits it was read from. */
  lemma {:induction false} CanonicalShorter(d: string)
    requires AllDigits(d) && d != ""
    ensures |Itoa(ToNat(d))| <= |d|
  {
    var init := d[..|d| - 1];
    if init != "" {
      CanonicalShorter(init);
      TenTimesLength(ToNat(init), DigitValue(d[|d| - 1]));
    } else {
      assert ToNat(init) == 0;
    }
  }

  lemma TenTimesLength(n: nat, d: nat)
    requires d < 10
    ensures |Itoa(10 * n + d)| <= |Itoa(n)| + 1
  {
    assert (10 * n + d) / 10 == n;
  }

  lemma NumberUnits(begin: nat, end: nat, f: string) returns (us: seq<string>)
    requires begin < end && SplitFits(begin, end) && f in RangeFragments(begin, end)
    ensures AllUnits(us) && Concat(us) == f && |us| <= |Itoa(end)|
  {
    var ps, fs := Pieces(begin, end), RangeFragments(begin, end);
    PieceTexts(begin, end);
    PiecesRegularChain(begin, end);
    var i :| 0 <= i < |fs| && f == fs[i];
    assert ps[i] in ps;
    assert InPiece(ps[i], ps[i].lo);
    ChainCovers(ps, begin, end, ps[i].lo);
    us := FragmentUnits(Itoa(ps[i].lo), Itoa(ps[i].hi));
    TextLengthMonotone(ps[i].lo, end);
  }

  lemma NumberShorter(t: string)
    requires Atoi(t).Some? && Atoi(t).value >= 0 && (t != "" ==> t[0] != '-')
    ensures |Itoa(Atoi(t).value)| <= |t|
  {
    CanonicalShorter(if t[0] == '+' then t[1..] else t);
  }

  lemma RangeUnits(w: string, v: string) returns (us: seq<string>)
    requires GetMatchType(w) == Range && ParseEnum(w).Ok? && v in ParseEnum(w).value
    ensures AllUnits(us) && Concat(us) == v && |us| < |w|
  {
    ParseEnumOfRange(w);
    RangeRankBelow(w);
    if IsSingleAlphaRange(w) {
      AlphaRangeText(w);
      us := [v];
      assert v == "[" + w + "]";
      assert Concat(us) == v + "";
    } else {
      var parts := Split(w, '-');
      us := NumberUnits(Atoi(parts[0]).value, Atoi(parts[1]).value, v);
      NumberShorter(parts[1]);
      JoinOfSplit(w, '-');
      assert parts[1..] == [parts[1]];
      assert w == parts[0] + "-" + parts[1];
    }
  }

  /** A value has at most as many units as its content without the brackets, except for an exclusion. */
  lemma WordUnits(w: string, v: string) returns (us: seq<string>)
    requires ',' !in w && ']' !in w && ParseEnum(w).Ok? && v in ParseEnum(w).value
    ensures AllUnits(us) && Concat(us) == v
    ensures |us| <= |w| + 2 && (GetMatchType(w) != BuildInExclude ==> |us| <= |w|)
  {
    assert w != "" ==> w[|w| - 1] in w;
    if GetMatchType(w) == Range {
      us := RangeUnits(w, v);
    } else {
      us := Chars(v);
      ConcatChars(v);
    }
  }

  lemma ValueUnits(content: string, v: string) returns (us: seq<string>)
    requires ']' !in content && ParseEnum(content).Ok? && v in ParseEnum(content).value
    ensures AllUnits(us) && Concat(us) == v
    ensures |us| <= |content| + 2 && (|us| == |content| + 2 ==> GetMatchType(content) == BuildInExclude)
  {
    match GetMatchType(content)
    case WordList =>
      WordsRankBelowList(content);
      ParseEachMember(ParseWordList(content), 2, v);
      var w :| w in ParseWordList(content) && v in ParseEnum(w).value;
      WordsFromContent(content, w);
      WordShorter(content, w);
      us := WordUnits(w, v);
    case BuildInExclude =>
      us := Chars(v);
      ConcatChars(v);
    case _ =>
      us := WordUnits(content, v);
  }

  lemma WordShorter(content: string, w: string)
    requires ',' in content && w in ParseWordList(content)
    ensures |w| < |content|
  {
    var parts := Split(content, ',');
    var i :| 0 <= i < |parts| && w == TrimSpace(parts[i]);
    assert parts[i] in parts;
    PartShorter(content, parts[i]);
  }

  lemma PartShorter(s: string, p: string)
    requires ',' in s && p in Split(s, ',')
    ensures |p| < |s|
  {
    IndexFirst(s, ',');
    SplitParts(s[Index(s, ',') + 1..], ',');
  }

  /** Every block is an exclusion; such an expression expands to itself. */
  predicate OnlyExclusions(e: string)
    decreases |e|
  {
    match FirstBlock(e)
    case NoBlock => true
    case Unclosed(_) => false
    case Block(_, content, rest) => GetMatchType(content) == BuildInExclude && OnlyExclusions(rest)
  }

  lemma {:induction false} ExclusionsExpand(e: string)
    requires OnlyExclusions(e)
    ensures Expand(e) == Ok([e])
    decreases |e|
  {
    FirstBlockParts(e);
    match FirstBlock(e)
    case NoBlock =>
    case Block(prefix, content, rest) =>
      ExclusionsExpand(rest);
      ProductOfOnes(prefix, "[" + content + "]", rest);
      BlockRegroup(prefix, content, rest);
  }

  lemma BlockRegroup(prefix: string, content: string, rest: string)
    ensures BlockText(prefix, content, rest) == (prefix + ("[" + content + "]")) + rest
  {
    Reassociate("[" + content, "]", rest);
    Reassociate("[", content, "]" + rest);
    Reassociate(prefix, "[" + content + "]", rest);
  }

  lemma ProductOfOnes(prefix: string, v: string, rest: string)
    ensures Product(Prefixed(prefix, [v]), [rest]) == [(prefix + v) + rest]
  {
    assert Prefixed(prefix, [v]) == [prefix + v];
    ProductUnit(prefix + v, [rest]);
  }

  /** A candidate has fewer units than the expression has characters, unless the expression is its own candidate. */
  lemma {:induction false} CandidateUnits(e: string, c: string) returns (us: seq<string>)
    requires Expand(e).Ok? && c in Expand(e).value
    ensures AllUnits(us) && Concat(us) == c && |us| <= |e|
    ensures |us| == |e| ==> OnlyExclusions(e)
    decreases |e|
  {
    FirstBlockParts(e);
    match FirstBlock(e)
    case NoBlock =>
      us := Chars(e);
      ConcatChars(e);
    case Block(prefix, content, rest) =>
      var v, y := CandidateParts(prefix, ParseEnum(content).value, Expand(rest).value, c);
      var vs := ValueUnits(content, v);
      var ys := CandidateUnits(rest, y);
      us := Chars(prefix) + (vs + ys);
      ConcatChars(prefix);
      ConcatAppend(vs, ys);
      ConcatAppend(Chars(prefix), vs + ys);
      Reassociate(prefix, v, y);
  }

  lemma CandidateParts(prefix: string, values: seq<string>, rest: seq<string>, c: string) returns (v: string, y: string)
    requires c in Product(Prefixed(prefix, values), rest)
    ensures v in values && y in rest && c == (prefix + v) + y
  {
    var heads := Prefixed(prefix, values);
    ProductMember(heads, rest, c);
    var x :| x in heads && exists t :: t in rest && c == x + t;
    y :| y in rest && c == x + y;
    var j :| 0 <= j < |heads| && x == heads[j];
    v := values[j];
  }

  // ---------- A single name ----------

  /** A name without wildcards whose only '[', if any, begins the text "[!]" with no bracket after it. */
  predicate StandsAlone(n: string) {
    && '*' !in n && '?' !in n
    && ('[' in n ==>
          var b := Index(n, '[');
          && 0 <= b && b + 3 <= |n| && n[b..b + 3] == "[!]"
          && '[' !in n[b + 3..] && ']' !in n[b + 3..])
  }

  ghost predicate SelectsItself(n: string) {
    forall name :: Selects(n, name) <==> name == n
  }

  /** If a name selects itself only, its blocks are exclusions and yet all its characters are ordinary ones. */
  lemma SelfSelectionLiteral(n: string)
    requires SelectsItself(n)
    ensures OnlyExclusions(n) && Literal(n)
  {
    assert Selects(n, n);
    var c :| c in Expand(n).value && Fnmatch(c, n);
    if WildHead(c) {
      var t := WildMatchesAnother(c, n);
      assert Selects(n, t);
    }
    var us := CandidateUnits(n, c);
    UnitsBound(us, n);
    ExclusionsExpand(n);
    FullLength(n, n);
  }

  lemma {:induction false} LiteralChars(pat: string)
    requires Literal(pat)
    ensures '*' !in pat && '?' !in pat
    ensures forall i :: 0 <= i < |pat| && pat[i] == '[' ==> ClassEnd(pat[i..]) == -1
  {
    if pat != "" {
      LiteralChars(pat[1..]);
      assert pat == [pat[0]] + pat[1..];
      if pat[0] == '[' && ClassEnd(pat) != -1 {
        ClassEndFirst(pat);
      }
      assert pat[0..] == pat;
      forall i | 0 < i < |pat|
        ensures pat[i..] == pat[1..][i - 1..] && pat[i] == pat[1..][i - 1]
      {
      }
    }
  }

  /** Such a name has at most one block, the bare exclusion, after which no bracket follows. */
  lemma LiteralExclusion(n: string)
    requires OnlyExclusions(n) && Literal(n) && '[' in n
    ensures StandsAlone(n)
  {
    FirstBlockParts(n);
    var r := FirstBlock(n);
    BlockBare(n, r.prefix, r.content, r.rest);
    RestHasNoBlock(r.rest);
    BareStandsAlone(n, r.prefix, r.rest);
  }

  lemma BlockBare(n: string, prefix: string, content: string, rest: string)
    requires n == BlockText(prefix, content, rest) && Literal(n)
    requires content != "" && content[0] == '!' && ']' !in content
    ensures content == "!" && ']' !in rest && '*' !in n && '?' !in n
  {
    BlockStart(n, prefix, content, rest);
    LiteralChars(n);
    BareAndLast(content, rest);
  }

  lemma BlockStart(n: string, prefix: string, content: string, rest: string)
    requires n == BlockText(prefix, content, rest)
    ensures |prefix| < |n| && n[|prefix|] == '[' && n[|prefix|..] == "[" + (content + ("]" + rest))
  {
  }

  lemma BareStandsAlone(n: string, prefix: string, rest: string)
    requires n == BlockText(prefix, "!", rest) && '*' !in n && '?' !in n
    requires '[' !in prefix && '[' !in rest && ']' !in rest
    ensures StandsAlone(n)
  {
    var b := |prefix|;
    BlockStart(n, prefix, "!", rest);
    assert n[..b] == prefix;
    IndexIs(n, '[', b);
    assert n[b..b + 3] == "[!]" && n[b + 3..] == rest;
  }

  lemma BareAndLast(content: string, rest: string)
    requires content != "" && content[0] == '!' && ']' !in content
    requires ClassEnd("[" + (content + ("]" + rest))) == -1
    ensures content == "!" && ']' !in rest
  {
    if |content| >= 2 {
      LongExclusionCloses(content, rest);
    } else {
      var t := "[" + (content + ("]" + rest));
      assert content == "!";
      assert t[3..] == rest;
      IndexFirst(rest, ']');
    }
  }

  lemma LongExclusionCloses(content: string, rest: string)
    requires |content| >= 2 && content[0] == '!' && ']' !in content
    ensures ClassEnd("[" + (content + ("]" + rest))) != -1
  {
    var t := "[" + (content + ("]" + rest));
    assert t[1] == '!' && t[2] == content[1] && content[1] in content;
    var k := ClassScanStart(t);
    IndexFirst(t[k..], ']');
    assert t[k..][|content| + 1 - k] == ']';
  }

  lemma BlockHasBracket(e: string)
    requires FirstBlock(e).Block?
    ensures ']' in e
  {
    FirstBlockParts(e);
    var r := FirstBlock(e);
    assert e[|r.prefix| + 1 + |r.content|] == ']';
  }

  lemma RestHasNoBlock(rest: string)
    requires ']' !in rest && OnlyExclusions(rest)
    ensures '[' !in rest
  {
    FirstBlockParts(rest);
    if FirstBlock(rest).Block? {
      BlockHasBracket(rest);
    }
  }

  lemma {:induction false} PlainLiteral(n: string)
    requires IsPlain(n)
    ensures Literal(n)
  {
    if n != "" {
      PlainLiteral(n[1..]);
    }
  }

  /** Text before a literal pattern does not change that it is literal, if it has no bracket of its own. */
  lemma {:induction false} LiteralAfter(prefix: string, t: string)
    requires IsPlain(prefix) && Literal(t)
    ensures Literal(prefix + t)
  {
    if prefix == "" {
      assert prefix + t == t;
    } else {
      assert (prefix + t)[1..] == prefix[1..] + t;
      LiteralAfter(prefix[1..], t);
    }
  }

  lemma BareLiteral(rest: string)
    requires IsPlain(rest) && ']' !in rest
    ensures Literal("[!]" + rest)
  {
    var t := "[!]" + rest;
    assert ClassScanStart(t) == 3 && t[3..] == rest;
    IndexFirst(rest, ']');
    assert t[1..] == "!]" + rest;
    assert IsPlain("!]" + rest);
    PlainLiteral("!]" + rest);
  }

  lemma StandsAloneLiteral(n: string)
    requires StandsAlone(n)
    ensures Literal(n) && Expand(n) == Ok([n])
  {
    if '[' in n {
      IndexFirst(n, '[');
      var b := Index(n, '[');
      BareParts(n, b);
      BareLiteral(n[b + 3..]);
      LiteralAfter(n[..b], "[!]" + n[b + 3..]);
      BareExpands(n[..b], n[b + 3..]);
    } else {
      FirstBlockParts(n);
      PlainLiteral(n);
    }
  }

  lemma BareParts(n: string, b: nat)
    requires '*' !in n && '?' !in n && b + 3 <= |n| && n[b..b + 3] == "[!]" && '[' !in n[..b] && '[' !in n[b + 3..]
    ensures n == n[..b] + ("[!]" + n[b + 3..]) && IsPlain(n[..b]) && IsPlain(n[b + 3..])
  {
    assert forall x :: x in n[..b] ==> x in n;
    assert forall x :: x in n[b + 3..] ==> x in n;
  }

  lemma BareExpands(prefix: string, rest: string)
    requires '[' !in prefix && '[' !in rest
    ensures Expand(prefix + ("[!]" + rest)) == Ok([prefix + ("[!]" + rest)])
  {
    BareText(rest);
    FirstBlockIs(prefix, "!", rest);
    FirstBlockParts(rest);
    ExclusionsExpand(prefix + ("[!]" + rest));
  }

  lemma BareText(rest: string)
    ensures "[!]" + rest == "[" + ("!" + ("]" + rest))
  {
  }

  /** A name printed alone is matched without loss exactly if it is of that form. */
  lemma SingleNameExactly(n: string)
    ensures SelectsItself(n) <==> StandsAlone(n)
  {
    if SelectsItself(n) {
      SelfSelectionLiteral(n);
      LiteralChars(n);
      if '[' in n {
        LiteralExclusion(n);
      }
    }
    if StandsAlone(n) {
      StandsAloneLiteral(n);
      forall name
        ensures Selects(n, name) <==> name == n
      {
        LiteralMatches(n, name);
        assert n in Expand(n).value;
      }
    }
  }

  // ---------- What Match answers ----------

  lemma {:induction false} LiteralCompiles(pat: string)
    requires Literal(pat)
    ensures Compiles(pat)
  {
    if pat != "" {
      LiteralCompiles(pat[1..]);
    }
  }

  ghost predicate MatchesItself(n: string) {
    forall name :: MatchResult(name, n) == Ok(name == n)
  }

  /** Without class names in its candidates, a name printed alone is all that Match finds exactly if it stands alone. */
  lemma UnnamedNameMatches(n: string)
    requires Unnamed(n)
    ensures MatchesItself(n) <==> StandsAlone(n)
  {
    SingleNameExactly(n);
    if MatchesItself(n) {
      forall name
        ensures Selects(n, name) <==> name == n
      {
        assert MatchResult(name, n) == Ok(name == n);
        MatchMeansSelects(name, n);
      }
    }
    if StandsAlone(n) {
      StandAloneMatches(n);
    }
  }

  /** This half needs no condition: the name is all literal. */
  lemma StandAloneMatches(n: string)
    requires StandsAlone(n)
    ensures MatchesItself(n)
  {
    StandsAloneLiteral(n);
    LiteralCompiles(n);
    SingleNameExactly(n);
    forall name
      ensures MatchResult(name, n) == Ok(name == n)
    {
      MatchDecidesSelects(name, n);
    }
  }
}
