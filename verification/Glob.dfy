/**
 * internal/expression/match.go: glob patterns, their translation to a Go regular expression, and matching.
 *
 * Three views of a pattern are kept apart and proved equal: Fnmatch matches the pattern text directly, Tokens
 * compiles it to a token list, and Translate emits the text of a Go regular expression, which module GoRegex reads
 * back.
 */
module Glob {
  import opened Text

  datatype RegexError =
    | BadRange        // a class range whose upper end is below its lower end
    | BadName         // "[:", a text that is no class name, and ":]" inside a class
    | Broken          // a class that is not closed, or an escape that means nothing
    | Unread          // an operator the translator never emits as one; whether Go accepts it is not modelled

  type Ranges = seq<(char, char)>

  datatype Token = Lit(c: char) | AnyOne | Star | Class(negated: bool, ranges: Ranges)

  type Compiled = Result<seq<Token>, RegexError>

  // ---------- Direct matching on the pattern text ----------

  /** Where the search for the closing bracket of the class opened by pat[0] starts. */
  function ClassScanStart(pat: string): (k: nat)
    requires pat != ""
    ensures 1 <= k <= |pat|
  {
    var j := if |pat| > 1 && pat[1] == '!' then 2 else 1;
    if j < |pat| && pat[j] == ']' then j + 1 else j
  }

  /** The index of the bracket that closes the class opened by pat[0], or -1. */
  function ClassEnd(pat: string): (e: int)
    requires pat != ""
    ensures -1 <= e < |pat|
  {
    var k := ClassScanStart(pat);
    var e := Index(pat[k..], ']');
    if e == -1 then -1 else k + e
  }

  /** A closed class is not empty, and past its first member it holds no ']'. */
  lemma ClassEndFirst(pat: string)
    requires pat != "" && ClassEnd(pat) != -1
    ensures var e, start := ClassEnd(pat), if pat[1] == '!' then 2 else 1;
      start < e && pat[e] == ']' && ']' !in pat[start + 1..e]
  {
    var e, k := ClassEnd(pat), ClassScanStart(pat);
    IndexFirst(pat[k..], ']');
    PrefixOfSuffix(pat, k, e - k);
    var start := if pat[1] == '!' then 2 else 1;
    if k == start {
      assert forall i :: k < i < e ==> pat[i] in pat[k..e];
    }
  }

  /** Whether c is in a class with this content (after a leading '!' is removed). */
  predicate InClass(content: string, c: char) {
    if content == "" then false
    else if |content| >= 3 && content[1] == '-' then
      content[0] <= c <= content[2] || InClass(content[3..], c)
    else
      content[0] == c || InClass(content[1..], c)
  }

  predicate ClassAccepts(stuff: string, c: char) {
    if stuff != "" && stuff[0] == '!' then !InClass(stuff[1..], c) else InClass(stuff, c)
  }

  /** Reference meaning of a glob pattern: does it match the whole of s? */
  predicate Fnmatch(pat: string, s: string)
    decreases |pat|
  {
    if pat == "" then s == ""
    else if pat[0] == '*' then exists k :: 0 <= k <= |s| && Fnmatch(pat[1..], s[k..])
    else if s == "" then false
    else if pat[0] == '?' then Fnmatch(pat[1..], s[1..])
    else if pat[0] == '[' && ClassEnd(pat) != -1 then
      ClassAccepts(pat[1..ClassEnd(pat)], s[0]) && Fnmatch(pat[ClassEnd(pat) + 1..], s[1..])
    else s[0] == pat[0] && Fnmatch(pat[1..], s[1..])
  }

  // ---------- Tokens ----------

  function Cons(t: Result<Token, RegexError>, r: Compiled): Compiled {
    match t
    case Err(e) => Err(e)
    case Ok(token) =>
      match r
      case Err(e) => Err(e)
      case Ok(ts) => Ok([token] + ts)
  }

  /** The ranges of a class content. Go rejects reversed ranges. */
  function RangesOf(content: string): Result<Ranges, RegexError>
    decreases |content|, 0
  {
    if content == "" then Ok([]) else RangesAfter(content[0], content[1..])
  }

  /** The ranges of lo followed by rest: lo starts a range if a hyphen and another character follow it. */
  function RangesAfter(lo: char, rest: string): Result<Ranges, RegexError>
    decreases |rest|, 1
  {
    var wide := |rest| >= 2 && rest[0] == '-';
    if wide && rest[1] < lo then Err(BadRange)
    else
      match RangesOf(if wide then rest[2..] else rest)
      case Err(e) => Err(e)
      case Ok(rs) => Ok([(lo, if wide then rest[1] else lo)] + rs)
  }

  function MakeClass(negated: bool, r: Result<Ranges, RegexError>): Result<Token, RegexError> {
    match r
    case Err(e) => Err(e)
    case Ok(rs) => Ok(Class(negated, rs))
  }

  function ClassToken(stuff: string): Result<Token, RegexError> {
    if stuff != "" && stuff[0] == '!' then MakeClass(true, RangesOf(stuff[1..]))
    else MakeClass(false, RangesOf(stuff))
  }

  /** How many characters the first token of a pattern takes. */
  function HeadLength(pat: string): (n: nat)
    requires pat != ""
    ensures 1 <= n <= |pat|
  {
    if pat[0] == '[' && ClassEnd(pat) != -1 then ClassEnd(pat) + 1 else 1
  }

  function HeadToken(pat: string): Result<Token, RegexError>
    requires pat != ""
  {
    if HeadLength(pat) > 1 then ClassToken(pat[1..HeadLength(pat) - 1])
    else if pat[0] == '*' then Ok(Star)
    else if pat[0] == '?' then Ok(AnyOne)
    else Ok(Lit(pat[0]))
  }

  /** The token list of a pattern, or the error Go's compiler reports for its translation. */
  function Tokens(pat: string): Compiled
    decreases |pat|
  {
    if pat == "" then Ok([]) else Cons(HeadToken(pat), Tokens(pat[HeadLength(pat)..]))
  }

  predicate InRanges(rs: Ranges, c: char) {
    exists i :: 0 <= i < |rs| && rs[i].0 <= c <= rs[i].1
  }

  predicate Accepts(t: Token, c: char) {
    match t
    case Lit(l) => c == l
    case AnyOne => true
    case Class(negated, rs) => negated != InRanges(rs, c)
    case Star => false
  }

  /** Whether a token list (an anchored regular expression) matches the whole of s. */
  predicate Matches(ts: seq<Token>, s: string)
    decreases |ts|, |s|
  {
    if ts == [] then s == ""
    else if ts[0] == Star then Matches(ts[1..], s) || (s != "" && Matches(ts, s[1..]))
    else s != "" && Accepts(ts[0], s[0]) && Matches(ts[1..], s[1..])
  }

  lemma {:induction false} RangesAreContent(content: string, c: char)
    requires RangesOf(content).Ok?
    ensures InRanges(RangesOf(content).value, c) <==> InClass(content, c)
  {
    if content != "" {
      var rs := RangesOf(content).value;
      var wide := |content| >= 3 && content[1] == '-';
      var rest := if wide then content[3..] else content[1..];
      assert wide ==> content[1..][2..] == rest && content[1..][1] == content[2];
      RangesAreContent(rest, c);
      assert forall i :: 0 < i < |rs| ==> rs[i] == rs[1..][i - 1];
      assert rs[1..] == RangesOf(rest).value;
      assert InRanges(rs, c) <==> (rs[0].0 <= c <= rs[0].1) || InRanges(rs[1..], c);
    }
  }

  /** A leading star matches every suffix that the rest can match. */
  lemma {:induction false} MatchesStar(ts: seq<Token>, s: string)
    requires ts != [] && ts[0] == Star
    ensures Matches(ts, s) <==> exists k :: 0 <= k <= |s| && Matches(ts[1..], s[k..])
    decreases |s|
  {
    assert s[0..] == s;
    if s != "" {
      MatchesStar(ts, s[1..]);
      forall k | 0 <= k <= |s[1..]|
        ensures s[1..][k..] == s[k + 1..]
      {
      }
      if k :| 0 <= k <= |s| && Matches(ts[1..], s[k..]) && k > 0 {
        assert s[1..][k - 1..] == s[k..];
      }
    }
  }

  /** The compiled tokens match exactly what the pattern text matches directly. */
  lemma {:induction false} TokensMeanFnmatch(pat: string, s: string)
    requires Tokens(pat).Ok?
    ensures Matches(Tokens(pat).value, s) <==> Fnmatch(pat, s)
    decreases |pat|
  {
    if pat != "" {
      var ts, n := Tokens(pat).value, HeadLength(pat);
      assert ts[1..] == Tokens(pat[n..]).value;
      if pat[0] == '*' {
        MatchesStar(ts, s);
        forall k | 0 <= k <= |s|
          ensures Matches(ts[1..], s[k..]) <==> Fnmatch(pat[1..], s[k..])
        {
          TokensMeanFnmatch(pat[1..], s[k..]);
        }
      } else if s != "" {
        TokensMeanFnmatch(pat[n..], s[1..]);
        if n > 1 {
          ClassEndFirst(pat);
          var stuff := pat[1..n - 1];
          RangesAreContent(if stuff[0] == '!' then stuff[1..] else stuff, s[0]);
        }
      }
    }
  }

  /** Matching distributes over concatenation of token lists. */
  lemma {:induction false} MatchesConcat(a: seq<Token>, b: seq<Token>, s: string)
    ensures Matches(a + b, s) <==> exists k :: 0 <= k <= |s| && Matches(a, s[..k]) && Matches(b, s[k..])
    decreases |a|, |s|
  {
    if a == [] {
      assert a + b == b && s[..0] == "" && s[0..] == s;
      forall k | 0 <= k <= |s| && Matches(a, s[..k])
        ensures k == 0
      {
      }
    } else {
      assert (a + b)[1..] == a[1..] + b;
      forall k | 1 <= k <= |s|
        ensures s[..k][1..] == s[1..][..k - 1] && s[k..] == s[1..][k - 1..]
      {
      }
      if a[0] == Star {
        MatchesConcat(a[1..], b, s);
        if s != "" {
          MatchesConcat(a, b, s[1..]);
          if j :| 0 <= j <= |s[1..]| && Matches(a, s[1..][..j]) && Matches(b, s[1..][j..]) {
            assert s[..j + 1][1..] == s[1..][..j] && s[j + 1..] == s[1..][j..];
            assert Matches(a, s[..j + 1]);
          }
        }
      } else if s != "" {
        MatchesConcat(a[1..], b, s[1..]);
        if j :| 0 <= j <= |s[1..]| && Matches(a[1..], s[1..][..j]) && Matches(b, s[1..][j..]) && Accepts(a[0], s[0]) {
          assert s[..j + 1][1..] == s[1..][..j] && s[j + 1..] == s[1..][j..];
          assert Matches(a, s[..j + 1]);
        }
      }
    }
  }

  // ---------- The emitted regular expression ----------

  /** The characters fnmatchTranslate escapes. */
  predicate IsRegexMeta(c: char) {
    c in "\\.+*?()|[]{}^$"
  }

  function EscapeBackslash(c: char): string {
    if c == '\\' then "\\\\" else [c]
  }

  function EscapeBackslashes(s: string): string {
    if s == "" then "" else EscapeBackslash(s[0]) + EscapeBackslashes(s[1..])
  }

  /** What is written between the opening bracket and the content of a class. */
  function ClassOpening(stuff: string): string {
    if stuff != "" && stuff[0] == '!' then "[^"
    else if stuff != "" && (stuff[0] == '^' || stuff[0] == '[') then "[\\"
    else "["
  }

  function ClassContent(stuff: string): string {
    if stuff != "" && stuff[0] == '!' then stuff[1..] else stuff
  }

  /** Class text for the content of a glob class. */
  function CharClass(stuff: string): string {
    ClassOpening(stuff) + EscapeBackslashes(ClassContent(stuff)) + "]"
  }

  /** The text emitted for the first token of a pattern. */
  function TranslateHead(pat: string): string
    requires pat != ""
  {
    if HeadLength(pat) > 1 then CharClass(pat[1..HeadLength(pat) - 1])
    else if pat[0] == '*' then ".*"
    else if pat[0] == '?' then "."
    else TranslateLiteral(pat[0])
  }

  function TranslateLiteral(c: char): string {
    if IsRegexMeta(c) then ['\\', c] else [c]
  }

  function TranslateBody(pat: string): string
    decreases |pat|
  {
    if pat == "" then "" else TranslateHead(pat) + TranslateBody(pat[HeadLength(pat)..])
  }

  const OPENING := "\\A(?s:"
  const CLOSING := ")\\z"

  function Translate(pat: string): string {
    OPENING + TranslateBody(pat) + CLOSING
  }

  method TranslateCharClass(stuff: string) returns (cls: string)
    ensures cls == CharClass(stuff)
  {
    cls := "[";
    var start := 0;
    if |stuff| > 0 && stuff[0] == '!' {
      cls := cls + "^";
      start := 1;
    } else if |stuff| > 0 && (stuff[0] == '^' || stuff[0] == '[') {
      cls := cls + "\\";
    }
    ghost var body := "";
    var k := start;
    assert stuff[0..] == stuff;
    while k < |stuff|
      invariant start <= k <= |stuff|
      invariant cls == ClassOpening(stuff) + body
      invariant EscapeBackslashes(ClassContent(stuff)) == body + EscapeBackslashes(stuff[k..])
    {
      assert stuff[k..][1..] == stuff[k + 1..];
      ghost var before := body;
      if stuff[k] == '\\' {
        cls := cls + "\\\\";
      } else {
        cls := cls + [stuff[k]];
      }
      body := before + EscapeBackslash(stuff[k]);
      Reassociate(before, EscapeBackslash(stuff[k]), EscapeBackslashes(stuff[k + 1..]));
      Reassociate(ClassOpening(stuff), before, EscapeBackslash(stuff[k]));
      k := k + 1;
    }
    cls := cls + "]";
  }

  /** The bracket scan inside fnmatchTranslate: i is just past the '['. */
  method ScanClass(pat: string, i: nat) returns (j: nat)
    requires 0 < i <= |pat| && pat[i - 1] == '['
    ensures i <= j <= |pat|
    ensures ClassEnd(pat[i - 1..]) == if j == |pat| then -1 else j - i + 1
  {
    var n := |pat|;
    j := i;
    if j < n && pat[j] == '!' {
      j := j + 1;
    }
    if j < n && pat[j] == ']' {
      j := j + 1;
    }
    ghost var k := j;
    while j < n && pat[j] != ']'
      invariant k <= j <= n
      invariant ']' !in pat[k..j]
    {
      SliceSnoc(pat, k, j);
      j := j + 1;
    }
    ScanFinds(pat, i - 1, k, j);
  }

  /** The scan for the closing bracket of the class opened at b, from k on, stops at j. */
  lemma ScanFinds(pat: string, b: nat, k: nat, j: nat)
    requires b < k <= j <= |pat| && k == b + ClassScanStart(pat[b..])
    requires ']' !in pat[k..j] && (j < |pat| ==> pat[j] == ']')
    ensures ClassEnd(pat[b..]) == if j == |pat| then -1 else j - b
  {
    SliceOfSuffix(pat, b, k - b, j - b);
    ClosingBracketFound(pat[b..], j - b);
  }

  /** The token at an opening bracket whose class ends at e, or never when e is -1. */
  lemma HeadOfClass(pat: string, e: int)
    requires pat != "" && pat[0] == '[' && ClassEnd(pat) == e
    ensures e == -1 ==> HeadLength(pat) == 1 && TranslateHead(pat) == "\\["
    ensures e != -1 ==> 1 <= e < |pat| && HeadLength(pat) == e + 1 && TranslateHead(pat) == CharClass(pat[1..e])
  {
    if e == -1 {
      assert IsRegexMeta('[') && TranslateHead(pat) == TranslateLiteral('[');
    } else {
      assert HeadLength(pat) == e + 1 > 1;
    }
  }

  /** The same at position start, by where the scan for the closing bracket stops. */
  lemma ClassHead(pat: string, start: nat, j: nat)
    requires start < j <= |pat| && pat[start] == '['
    requires ClassEnd(pat[start..]) == if j == |pat| then -1 else j - start
    ensures HeadLength(pat[start..]) == if j == |pat| then 1 else j + 1 - start
    ensures TranslateHead(pat[start..]) == if j == |pat| then "\\[" else CharClass(pat[start + 1..j])
  {
    var rest, e := pat[start..], if j == |pat| then -1 else j - start;
    HeadOfClass(rest, e);
    if j < |pat| {
      ClassSlice(pat, start, j);
    }
  }

  lemma ClassSlice(pat: string, start: nat, j: nat)
    requires start < j < |pat|
    ensures pat[start..][1..j - start] == pat[start + 1..j]
  {
    SliceOfSuffix(pat, start, 1, j - start);
  }

  /** One turn of fnmatchTranslate's loop: the text for the token at position start, and where the next one begins. */
  method TranslateNext(pat: string, start: nat) returns (piece: string, i: nat)
    requires start < |pat|
    ensures piece == TranslateHead(pat[start..])
    ensures i == start + HeadLength(pat[start..])
  {
    var c := pat[start];
    i := start + 1;
    if c == '*' {
      piece := ".*";
    } else if c == '?' {
      piece := ".";
    } else if c == '[' {
      var j := ScanClass(pat, i);
      ClassHead(pat, start, j);
      if j >= |pat| {
        piece := "\\[";
      } else {
        piece := TranslateCharClass(pat[i..j]);
        i := j + 1;
      }
    } else if IsRegexMeta(c) {
      piece := ['\\', c];
    } else {
      piece := [c];
    }
  }

  /** The finished expression, when re has been written and rest is still to be translated. */
  ghost function TranslateFrom(rest: string, re: string): string
    decreases |rest|
  {
    if rest == "" then re + CLOSING
    else TranslateFrom(rest[HeadLength(rest)..], re + TranslateHead(rest))
  }

  lemma {:induction false} TranslateFromAppends(rest: string, re: string)
    ensures TranslateFrom(rest, re) == re + (TranslateBody(rest) + CLOSING)
    decreases |rest|
  {
    if rest == "" {
      assert "" + CLOSING == CLOSING;
    } else {
      var tail := rest[HeadLength(rest)..];
      TranslateFromAppends(tail, re + TranslateHead(rest));
      Reassociate(re, TranslateHead(rest), TranslateBody(tail) + CLOSING);
      Reassociate(TranslateHead(rest), TranslateBody(tail), CLOSING);
    }
  }

  lemma TranslateFromStart(pat: string)
    ensures TranslateFrom(pat, OPENING) == Translate(pat)
  {
    TranslateFromAppends(pat, OPENING);
    Reassociate(OPENING, TranslateBody(pat), CLOSING);
  }

  /** fnmatchTranslate: one left-to-right scan over the pattern. */
  method FnmatchTranslate(pat: string) returns (re: string)
    ensures re == Translate(pat)
  {
    re := OPENING;
    var i, n := 0, |pat|;
    TranslateFromStart(pat);
    assert pat[0..] == pat;
    while i < n
      invariant 0 <= i <= n
      invariant TranslateFrom(pat[i..], re) == Translate(pat)
    {
      var piece, next := TranslateNext(pat, i);
      assert pat[next..] == pat[i..][HeadLength(pat[i..])..];
      re := re + piece;
      i := next;
    }
    re := re + CLOSING;
  }

  /** Where the scan for the closing bracket stops is ClassEnd. */
  lemma ClosingBracketFound(pat: string, j: nat)
    requires pat != ""
    requires ClassScanStart(pat) <= j <= |pat|
    requires ']' !in pat[ClassScanStart(pat)..j] && (j < |pat| ==> pat[j] == ']')
    ensures ClassEnd(pat) == if j == |pat| then -1 else j
  {
    var k := ClassScanStart(pat);
    PrefixOfSuffix(pat, k, j - k);
    if j < |pat| {
      IndexIs(pat[k..], ']', j - k);
    } else {
      assert pat[k..j] == pat[k..];
      IndexFirst(pat[k..], ']');
    }
  }

  // ---------- Concatenating patterns ----------

  /** Nothing in a class reads as the start of a class name. */
  predicate Nameless(stuff: string) {
    forall i :: 0 <= i < |stuff| - 1 ==> !(stuff[i] == '[' && stuff[i + 1] == ':')
  }

  /** Every class opened in the pattern is closed in it, and has no start of a class name in it. */
  predicate Closed(pat: string)
    decreases |pat|
  {
    pat == ""
    || ((pat[0] == '[' ==> ClassEnd(pat) != -1 && Nameless(pat[1..ClassEnd(pat)])) && Closed(pat[HeadLength(pat)..]))
  }

  function Append(a: Compiled, b: Compiled): Compiled {
    match a
    case Err(e) => Err(e)
    case Ok(ts) =>
      match b
      case Err(e) => Err(e)
      case Ok(us) => Ok(ts + us)
  }

  lemma ClassEndOfConcat(a: string, b: string)
    requires a != "" && ClassEnd(a) != -1
    ensures ClassEnd(a + b) == ClassEnd(a)
  {
    var e, k := ClassEnd(a), ClassScanStart(a);
    IndexFirst(a[k..], ']');
    PrefixOfSuffix(a, k, e - k);
    assert (a + b)[k..e] == a[k..e];
    ClosingBracketFound(a + b, e);
  }

  lemma AppendCons(t: Result<Token, RegexError>, r: Compiled, b: Compiled)
    ensures Append(Cons(t, r), b) == Cons(t, Append(r, b))
  {
    if t.Ok? && r.Ok? && b.Ok? {
      assert ([t.value] + r.value) + b.value == [t.value] + (r.value + b.value);
    }
  }

  lemma HeadOfConcat(a: string, b: string)
    requires a != "" && (a[0] == '[' ==> ClassEnd(a) != -1)
    ensures HeadLength(a + b) == HeadLength(a) && HeadToken(a + b) == HeadToken(a)
    ensures (a + b)[HeadLength(a)..] == a[HeadLength(a)..] + b
  {
    var n := HeadLength(a);
    if a[0] == '[' {
      ClassEndOfConcat(a, b);
      assert (a + b)[1..n - 1] == a[1..n - 1];
    }
  }

  /** A pattern that closes its classes compiles independently of what follows it. */
  lemma {:induction false} TokensOfConcat(a: string, b: string)
    requires Closed(a)
    ensures Tokens(a + b) == Append(Tokens(a), Tokens(b))
    decreases |a|
  {
    if a == "" {
      assert a + b == b;
      if Tokens(b).Ok? {
        assert [] + Tokens(b).value == Tokens(b).value;
      }
    } else {
      var n := HeadLength(a);
      HeadOfConcat(a, b);
      TokensOfConcat(a[n..], b);
      AppendCons(HeadToken(a), Tokens(a[n..]), Tokens(b));
    }
  }

  lemma {:induction false} ClosedConcat(a: string, b: string)
    requires Closed(a) && Closed(b)
    ensures Closed(a + b)
    decreases |a|
  {
    if a == "" {
      assert a + b == b;
    } else {
      var n := HeadLength(a);
      if a[0] == '[' {
        ClassEndOfConcat(a, b);
        assert (a + b)[1..n - 1] == a[1..n - 1];
      }
      assert HeadLength(a + b) == n && (a + b)[0] == a[0];
      assert (a + b)[n..] == a[n..] + b;
      ClosedConcat(a[n..], b);
      assert Closed((a + b)[n..]);
    }
  }

  /** Text without glob metacharacters: a ']' outside a class is an ordinary character. */
  predicate IsPlain(s: string) {
    forall i :: 0 <= i < |s| ==> s[i] != '*' && s[i] != '?' && s[i] != '['
  }

  function Literals(s: string): seq<Token> {
    if s == "" then [] else [Lit(s[0])] + Literals(s[1..])
  }

  lemma {:induction false} PlainTokens(s: string)
    requires IsPlain(s)
    ensures Closed(s) && Tokens(s) == Ok(Literals(s))
  {
    if s != "" {
      PlainTokens(s[1..]);
    }
  }

  lemma {:induction false} LiteralsMatch(pat: string, s: string)
    ensures Matches(Literals(pat), s) <==> s == pat
  {
    if pat != "" && s != "" {
      LiteralsMatch(pat[1..], s[1..]);
      assert s == [s[0]] + s[1..] && pat == [pat[0]] + pat[1..];
      assert Literals(pat)[1..] == Literals(pat[1..]);
    }
  }

  /** A plain pattern matches only itself. */
  lemma PlainMatchesItself(pat: string, s: string)
    requires IsPlain(pat)
    ensures Fnmatch(pat, s) <==> s == pat
  {
    PlainTokens(pat);
    LiteralsMatch(pat, s);
    TokensMeanFnmatch(pat, s);
  }
}
