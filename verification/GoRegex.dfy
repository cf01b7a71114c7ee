/**
 * internal/expression/match.go: the emitted text as a Go regular expression. ReadRegex reads it with the rules that
 * Go's regexp/syntax package applies to the constructs the translator can emit.
 */
module GoRegex {
  import opened Text
  import opened Glob

  /** What was read at the start of a text, and what follows it. */
  datatype Read<T> = Read(value: T, rest: string)

  type ReadResult<T> = Result<Read<T>, RegexError>

  predicate IsAlnum(c: char) {
    '0' <= c <= '9' || 'A' <= c <= 'Z' || 'a' <= c <= 'z'
  }

  /** A backslash before ASCII punctuation is that character; other escapes are not read here. */
  predicate IsEscape(t: string) {
    |t| >= 2 && t[0] == '\\' && t[1] as int < 0x80 && !IsAlnum(t[1])
  }

  // ---------- Class names ----------

  /** The position of the first ":]" in s, or -1. */
  function ColonBracket(s: string): (i: int)
    ensures i == -1 || 0 <= i <= |s| - 2
  {
    if |s| < 2 then -1
    else if s[0] == ':' && s[1] == ']' then 0
    else
      var i := ColonBracket(s[1..]);
      if i == -1 then -1 else i + 1
  }

  /** The length of the class name t starts with, with "[:" and ":]"; 0 if it starts with none. */
  function NameLength(t: string): (n: nat)
    ensures n <= |t|
  {
    if |t| >= 2 && t[0] == '[' && t[1] == ':' && ColonBracket(t[2..]) != -1 then ColonBracket(t[2..]) + 4 else 0
  }

  /** Go's POSIX classes. */
  function Group(name: string): Option<Ranges> {
    if name == "alnum" then Some([('0', '9'), ('A', 'Z'), ('a', 'z')])
    else if name == "alpha" then Some([('A', 'Z'), ('a', 'z')])
    else if name == "ascii" then Some([('\0', '\U{7F}')])
    else if name == "blank" then Some([('\t', '\t'), (' ', ' ')])
    else if name == "cntrl" then Some([('\0', '\U{1F}'), ('\U{7F}', '\U{7F}')])
    else if name == "digit" then Some([('0', '9')])
    else if name == "graph" then Some([('!', '~')])
    else if name == "lower" then Some([('a', 'z')])
    else if name == "print" then Some([(' ', '~')])
    else if name == "punct" then Some([('!', '/'), (':', '@'), ('[', '`'), ('{', '~')])
    else if name == "space" then Some([('\t', '\r'), (' ', ' ')])
    else if name == "upper" then Some([('A', 'Z')])
    else if name == "word" then Some([('0', '9'), ('A', 'Z'), ('_', '_'), ('a', 'z')])
    else if name == "xdigit" then Some([('0', '9'), ('A', 'F'), ('a', 'f')])
    else None
  }

  /** The characters from code point lo on that are in none of the ascending ranges, all of them of ASCII characters. */
  function Gaps(lo: nat, rs: Ranges): Ranges
    requires lo <= 0x80 && forall r :: r in rs ==> r.0 <= r.1 && r.1 as int < 0x80
    decreases |rs|
  {
    if rs == [] then [(lo as char, '\U{10FFFF}')]
    else
      var rest := Gaps(rs[0].1 as int + 1, rs[1..]);
      if lo < rs[0].0 as int then [(lo as char, (rs[0].0 as int - 1) as char)] + rest else rest
  }

  lemma GroupIsAscii(name: string)
    ensures Group(name).Some? ==>
      Group(name).value != [] && forall r :: r in Group(name).value ==> r.0 <= r.1 && r.1 as int < 0x80
  {
  }

  /** The ranges a class name stands for; a '^' before the name stands for all other characters. */
  function NamedRanges(name: string): Option<Ranges> {
    if name != "" && name[0] == '^' then
      GroupIsAscii(name[1..]);
      if Group(name[1..]).Some? then Some(Gaps(0, Group(name[1..]).value)) else None
    else Group(name)
  }

  // ---------- Reading ----------

  /** One character inside a class, possibly escaped, and what follows it. */
  function ReadChar(t: string): (r: ReadResult<char>)
    requires t != ""
    ensures r.Ok? ==> |r.value.rest| < |t|
  {
    if t[0] != '\\' then Ok(Read(t[0], t[1..]))
    else if IsEscape(t) then Ok(Read(t[1], t[2..]))
    else Err(Broken)
  }

  /** The ranges of a class up to its closing bracket, and what follows it. A first ']' is an ordinary character. */
  function ReadRanges(t: string, first: bool): (r: ReadResult<Ranges>)
    ensures r.Ok? ==> |r.value.rest| < |t|
    decreases |t|, 0
  {
    if t == "" then Err(Broken)
    else if t[0] == ']' && !first then Ok(Read([], t[1..]))
    else if NameLength(t) > 0 then
      match NamedRanges(t[2..NameLength(t) - 2])
      case None => Err(BadName)
      case Some(group) => PutRanges(group, ReadRanges(t[NameLength(t)..], false))
    else
      match ReadChar(t)
      case Err(e) => Err(e)
      case Ok(Read(lo, t1)) => ReadAfter(lo, t1)
  }

  function ReadAfter(lo: char, t: string): (r: ReadResult<Ranges>)
    ensures r.Ok? ==> |r.value.rest| < |t|
    decreases |t|, 1
  {
    if |t| >= 2 && t[0] == '-' && t[1] != ']' then
      match ReadChar(t[1..])
      case Err(e) => Err(e)
      case Ok(Read(hi, t1)) => if hi < lo then Err(BadRange) else PutRanges([(lo, hi)], ReadRanges(t1, false))
    else PutRanges([(lo, lo)], ReadRanges(t, false))
  }

  function PutRanges(ranges: Ranges, r: ReadResult<Ranges>): (q: ReadResult<Ranges>)
    ensures q.Ok? <==> r.Ok?
    ensures q.Ok? ==> q.value.rest == r.value.rest && q.value.value == ranges + r.value.value
  {
    match r
    case Err(e) => Err(e)
    case Ok(Read(rs, rest)) => Ok(Read(ranges + rs, rest))
  }

  /** The body of the group, up to the closing parenthesis that must end the whole expression. */
  function ReadBody(re: string): Compiled
    decreases |re|, 0
  {
    if re == "" then Err(Unread)
    else if re[0] == ')' then if re == CLOSING then Ok([]) else Err(Unread)
    else if re[0] == '.' then
      if |re| >= 2 && re[1] == '*' then Cons(Ok(Star), ReadBody(re[2..])) else Cons(Ok(AnyOne), ReadBody(re[1..]))
    else if re[0] == '\\' then
      if IsEscape(re) then Cons(Ok(Lit(re[1])), ReadBody(re[2..])) else Err(Unread)
    else if re[0] == '[' then
      if |re| >= 2 && re[1] == '^' then ReadClass(true, re[2..]) else ReadClass(false, re[1..])
    else if IsRegexMeta(re[0]) && re[0] != ']' then Err(Unread)
    else Cons(Ok(Lit(re[0])), ReadBody(re[1..]))
  }

  function ReadClass(negated: bool, t: string): Compiled
    decreases |t|, 1
  {
    match ReadRanges(t, true)
    case Err(e) => Err(e)
    case Ok(Read(rs, rest)) => Cons(Ok(Class(negated, rs)), ReadBody(rest))
  }

  /** regexp.Compile, restricted to fully anchored expressions whose dot matches every character. */
  function ReadRegex(re: string): Compiled {
    if |re| >= |OPENING| && re[..|OPENING|] == OPENING then ReadBody(re[|OPENING|..]) else Err(Unread)
  }

  /** What regexp.Compile makes of a translated pattern. */
  function Compile(pat: string): Compiled {
    ReadRegex(Translate(pat))
  }

  // ---------- Patterns that hold a class name ----------

  /** What is left of a class content after its first range. */
  function NextContent(content: string): (rest: string)
    requires content != ""
    ensures |rest| < |content|
  {
    if |content| >= 3 && content[1] == '-' then content[3..] else content[1..]
  }

  /** Some range of the content starts what reads as a class name when the emitted content is followed by this text. */
  predicate NameIn(content: string, after: string)
    decreases |content|
  {
    content != "" && (NameLength(EscapeBackslashes(content) + after) > 0 || NameIn(NextContent(content), after))
  }

  /** A leading '^' or '[' of a class is escaped, and so starts no name. */
  predicate ClassHasName(stuff: string, after: string) {
    if stuff == "" then false
    else if stuff[0] == '!' then NameIn(stuff[1..], after)
    else if stuff[0] == '^' || stuff[0] == '[' then NameIn(NextContent(stuff), after)
    else NameIn(stuff, after)
  }

  /**
   * A class of the pattern holds "[:" at the start of a range, and ":]" follows in the emitted text. As brackets
   * outside classes are escaped there, this is where a later class, or this one, ends with a colon.
   */
  predicate HasName(pat: string)
    decreases |pat|
  {
    pat != "" &&
    var n := HeadLength(pat);
    (n > 1 && ClassHasName(pat[1..n - 1], "]" + (TranslateBody(pat[n..]) + CLOSING))) || HasName(pat[n..])
  }

  /** The pattern compiles to its own tokens. */
  predicate Compiles(pat: string) {
    Tokens(pat).Ok? && !HasName(pat)
  }

  function WithRest(r: Result<Ranges, RegexError>, rest: string): ReadResult<Ranges> {
    match r
    case Err(e) => Err(e)
    case Ok(rs) => Ok(Read(rs, rest))
  }

  // ---------- Without names: the tokens of the pattern ----------

  lemma ReadCharOfEscaped(c: char, tail: string)
    ensures ReadChar(EscapeBackslash(c) + tail) == Ok(Read(c, tail))
  {
    var t := EscapeBackslash(c) + tail;
    if c == '\\' {
      assert t[2..] == tail;
    } else {
      assert t[1..] == tail;
    }
  }

  lemma EscapedSplit(content: string, tail: string)
    requires content != ""
    ensures EscapeBackslashes(content) + tail == EscapeBackslash(content[0]) + (EscapeBackslashes(content[1..]) + tail)
  {
    Reassociate(EscapeBackslash(content[0]), EscapeBackslashes(content[1..]), tail);
  }

  /** Reading an emitted class without a name gives the ranges of the glob class, or its error. */
  lemma {:induction false} ReadRangesOfEscaped(content: string, first: bool, rest: string)
    requires if first then content != "" && ']' !in content[1..] else ']' !in content
    requires !NameIn(content, "]" + rest)
    ensures ReadRanges(EscapeBackslashes(content) + ("]" + rest), first) == WithRest(RangesOf(content), rest)
    decreases |content|, 0
  {
    var tail := "]" + rest;
    var t := EscapeBackslashes(content) + tail;
    if content == "" {
      assert t == tail && t[1..] == rest;
    } else {
      EscapedSplit(content, tail);
      ReadCharOfEscaped(content[0], EscapeBackslashes(content[1..]) + tail);
      assert [content[0]] + content[1..] == content;
      ReadAfterOfEscaped(content[0], content[1..], rest);
    }
  }

  lemma {:induction false} ReadAfterOfEscaped(lo: char, content: string, rest: string)
    requires ']' !in content && !NameIn(NextContent([lo] + content), "]" + rest)
    ensures ReadAfter(lo, EscapeBackslashes(content) + ("]" + rest)) == WithRest(RangesAfter(lo, content), rest)
    decreases |content|, 1
  {
    var tail := "]" + rest;
    var next := NextContent([lo] + content);
    NextOf(lo, content);
    if |content| >= 2 && content[0] == '-' {
      ReadRangeEnd(content, tail);
      ReadRangesOfEscaped(next, false, rest);
    } else {
      ReadNoRange(content, tail);
      ReadRangesOfEscaped(next, false, rest);
    }
  }

  lemma NextOf(lo: char, content: string)
    ensures NextContent([lo] + content) == if |content| >= 2 && content[0] == '-' then content[2..] else content
  {
    var c := [lo] + content;
    assert |content| >= 2 ==> c[3..] == content[2..];
    assert c[1..] == content;
  }

  /** The emitted content starts with a hyphen and a character: the end of a range. */
  lemma ReadRangeEnd(content: string, tail: string)
    requires |content| >= 2 && content[0] == '-' && ']' !in content
    ensures var t := EscapeBackslashes(content) + tail;
      |t| >= 2 && t[0] == '-' && t[1] != ']'
      && ReadChar(t[1..]) == Ok(Read(content[1], EscapeBackslashes(content[2..]) + tail))
  {
    var t := EscapeBackslashes(content) + tail;
    EscapedSplit(content, tail);
    var u := EscapeBackslashes(content[1..]) + tail;
    assert t[1..] == u;
    EscapedSplit(content[1..], tail);
    assert content[1..][1..] == content[2..];
    ReadCharOfEscaped(content[1], EscapeBackslashes(content[2..]) + tail);
    assert content[1] in content;
  }

  /** Otherwise the next text is no range end. */
  lemma ReadNoRange(content: string, tail: string)
    requires !(|content| >= 2 && content[0] == '-') && tail != "" && tail[0] == ']'
    ensures var t := EscapeBackslashes(content) + tail; !(|t| >= 2 && t[0] == '-' && t[1] != ']')
  {
    if content == "" {
      assert EscapeBackslashes(content) + tail == tail;
    } else {
      EscapedSplit(content, tail);
      assert |content| == 1 ==> EscapeBackslashes(content[1..]) + tail == tail;
    }
  }

  /** Reading an emitted class text without a name gives the class token of its glob content. */
  lemma ReadCharClass(stuff: string, rest: string)
    requires IsStuff(stuff) && !ClassHasName(stuff, "]" + rest)
    ensures ReadBody(CharClass(stuff) + rest) == Cons(ClassToken(stuff), ReadBody(rest))
  {
    OpenClass(stuff, rest);
    if stuff[0] == '!' {
      ReadRangesOfEscaped(stuff[1..], true, rest);
    } else if stuff[0] == '^' || stuff[0] == '[' {
      ReadEscapedClass(stuff, rest);
    } else {
      ReadRangesOfEscaped(stuff, true, rest);
    }
  }

  /** What may stand between the brackets of a class: one member at least, and ']' only as the first. */
  predicate IsStuff(stuff: string) {
    stuff != "" && (if stuff[0] == '!' then |stuff| >= 2 && ']' !in stuff[2..] else ']' !in stuff[1..])
  }

  /** What the class reader gets to read of an emitted class. */
  function ClassText(stuff: string, rest: string): string {
    var t := EscapeBackslashes(ClassContent(stuff)) + ("]" + rest);
    if stuff != "" && (stuff[0] == '^' || stuff[0] == '[') then "\\" + t else t
  }

  lemma OpenClass(stuff: string, rest: string)
    requires IsStuff(stuff)
    ensures ReadBody(CharClass(stuff) + rest) == ReadClass(stuff[0] == '!', ClassText(stuff, rest))
  {
    var tail := "]" + rest;
    var content := ClassContent(stuff);
    var t := EscapeBackslashes(content) + tail;
    EscapedSplit(content, tail);
    Reassociate(ClassOpening(stuff) + EscapeBackslashes(content), "]", rest);
    Reassociate(ClassOpening(stuff), EscapeBackslashes(content), tail);
    assert CharClass(stuff) + rest == ClassOpening(stuff) + t;
    if stuff[0] == '!' {
      OpenNegated(t);
    } else if stuff[0] == '^' || stuff[0] == '[' {
      OpenEscaped(t);
    } else {
      OpenPlain(t);
    }
  }

  lemma OpenEscaped(t: string)
    ensures ReadBody("[\\" + t) == ReadClass(false, "\\" + t)
  {
    assert "[\\" + t == "[" + ("\\" + t);
    OpenPlain("\\" + t);
  }

  lemma OpenNegated(t: string)
    ensures ReadBody("[^" + t) == ReadClass(true, t)
  {
    assert ("[^" + t)[2..] == t;
  }

  lemma OpenPlain(t: string)
    requires t == "" || t[0] != '^'
    ensures ReadBody("[" + t) == ReadClass(false, t)
  {
    assert ("[" + t)[1..] == t;
  }

  /** A class whose content starts with '^' or '[' is emitted with a backslash before it. */
  lemma EscapedStart(stuff: string, rest: string)
    requires stuff != "" && (stuff[0] == '^' || stuff[0] == '[')
    ensures ReadRanges(ClassText(stuff, rest), true) ==
      ReadAfter(stuff[0], EscapeBackslashes(stuff[1..]) + ("]" + rest))
  {
    var t1 := EscapeBackslashes(stuff[1..]) + ("]" + rest);
    EscapedSplit(stuff, "]" + rest);
    assert ClassText(stuff, rest) == "\\" + ([stuff[0]] + t1);
    ReadEscapedMember(stuff[0], t1);
  }

  lemma ReadEscapedMember(c: char, t: string)
    requires c == '^' || c == '['
    ensures ReadRanges("\\" + ([c] + t), true) == ReadAfter(c, t)
  {
    var u := "\\" + ([c] + t);
    assert u[2..] == t;
  }

  lemma ReadEscapedClass(stuff: string, rest: string)
    requires stuff != "" && (stuff[0] == '^' || stuff[0] == '[') && ']' !in stuff[1..]
    requires !NameIn(NextContent(stuff), "]" + rest)
    ensures ReadRanges(ClassText(stuff, rest), true) == WithRest(RangesOf(stuff), rest)
  {
    EscapedStart(stuff, rest);
    assert [stuff[0]] + stuff[1..] == stuff;
    ReadAfterOfEscaped(stuff[0], stuff[1..], rest);
  }

  lemma ReadTranslatedClass(pat: string, rest: string)
    requires pat != "" && HeadLength(pat) > 1 && !ClassHasName(pat[1..HeadLength(pat) - 1], "]" + rest)
    ensures ReadBody(TranslateHead(pat) + rest) == Cons(HeadToken(pat), ReadBody(rest))
  {
    HeadStuff(pat);
    ReadCharClass(pat[1..HeadLength(pat) - 1], rest);
  }

  lemma HeadStuff(pat: string)
    requires pat != "" && HeadLength(pat) > 1
    ensures IsStuff(pat[1..HeadLength(pat) - 1])
  {
    var n := HeadLength(pat);
    var stuff := pat[1..n - 1];
    ClassEndFirst(pat);
    assert if pat[1] == '!' then stuff[2..] == pat[3..n - 1] else stuff[1..] == pat[2..n - 1];
  }

  lemma ReadTranslatedChar(pat: string, rest: string)
    requires pat != "" && HeadLength(pat) == 1 && (rest == "" || rest[0] != '*')
    ensures ReadBody(TranslateHead(pat) + rest) == Cons(HeadToken(pat), ReadBody(rest))
  {
    var re := TranslateHead(pat) + rest;
    if |TranslateHead(pat)| == 2 {
      assert re[2..] == rest;
    } else {
      assert re[1..] == rest;
    }
  }

  /** No emitted text starts with a bare quantifier. */
  lemma TranslateBodyStarts(pat: string)
    ensures (TranslateBody(pat) + CLOSING)[0] != '*'
  {
    if pat == "" {
      assert "" + CLOSING == CLOSING;
    }
  }

  lemma {:induction false} ReadTranslatedBody(pat: string)
    requires !HasName(pat)
    ensures ReadBody(TranslateBody(pat) + CLOSING) == Tokens(pat)
    decreases |pat|
  {
    if pat == "" {
      assert "" + CLOSING == CLOSING;
    } else {
      var tail := pat[HeadLength(pat)..];
      ReadTranslatedBody(tail);
      BodyCons(pat);
      if HeadLength(pat) > 1 {
        ReadTranslatedClass(pat, TranslateBody(tail) + CLOSING);
      } else {
        ReadTranslatedChar(pat, TranslateBody(tail) + CLOSING);
      }
    }
  }

  lemma BodyCons(pat: string)
    requires pat != ""
    ensures var rest := TranslateBody(pat[HeadLength(pat)..]) + CLOSING;
      TranslateBody(pat) + CLOSING == TranslateHead(pat) + rest && rest[0] != '*'
  {
    var tail := pat[HeadLength(pat)..];
    TranslateBodyStarts(tail);
    Reassociate(TranslateHead(pat), TranslateBody(tail), CLOSING);
  }

  // ---------- With a name: never the tokens of the pattern ----------

  /** No group starts with the single character '['. */
  lemma GroupStart(name: string)
    requires NamedRanges(name).Some?
    ensures NamedRanges(name).value != [] && NamedRanges(name).value[0].0 != '['
  {
    if name != "" && name[0] == '^' {
      GroupIsAscii(name[1..]);
      GapsStart(name[1..]);
    }
  }

  lemma GapsStart(name: string)
    requires Group(name).Some? && forall r :: r in Group(name).value ==> r.0 <= r.1 && r.1 as int < 0x80
    ensures Gaps(0, Group(name).value) != [] && Gaps(0, Group(name).value)[0].0 != '['
  {
    var rs := Group(name).value;
    if rs[0].0 == '\0' {
      assert Gaps(0, rs) == Gaps(rs[0].1 as int + 1, rs[1..]);
    }
  }

  /** The result differs from these ranges, or is an error. */
  predicate Differs(r: ReadResult<Ranges>, rs: Ranges) {
    r.Ok? ==> r.value.value != rs
  }

  lemma NameDiffers(content: string, first: bool, tail: string)
    requires content != "" && NameLength(EscapeBackslashes(content) + tail) > 0 && RangesOf(content).Ok?
    ensures Differs(ReadRanges(EscapeBackslashes(content) + tail, first), RangesOf(content).value)
  {
    var t := EscapeBackslashes(content) + tail;
    EscapedSplit(content, tail);
    assert content[0] == '[' && RangesOf(content).value[0].0 == '[';
    var name := t[2..NameLength(t) - 2];
    if NamedRanges(name).Some? {
      GroupStart(name);
    }
  }

  /** A class with a name in it is not read as the ranges of the glob class. */
  lemma {:induction false} ReadRangesNamed(content: string, first: bool, rest: string)
    requires if first then content != "" && ']' !in content[1..] else ']' !in content
    requires NameIn(content, "]" + rest) && RangesOf(content).Ok?
    ensures Differs(ReadRanges(EscapeBackslashes(content) + ("]" + rest), first), RangesOf(content).value)
    decreases |content|, 0
  {
    var tail := "]" + rest;
    if NameLength(EscapeBackslashes(content) + tail) > 0 {
      NameDiffers(content, first, tail);
    } else {
      EscapedSplit(content, tail);
      ReadCharOfEscaped(content[0], EscapeBackslashes(content[1..]) + tail);
      assert [content[0]] + content[1..] == content;
      ReadAfterNamed(content[0], content[1..], rest);
    }
  }

  lemma {:induction false} ReadAfterNamed(lo: char, content: string, rest: string)
    requires ']' !in content && NameIn(NextContent([lo] + content), "]" + rest) && RangesAfter(lo, content).Ok?
    ensures Differs(ReadAfter(lo, EscapeBackslashes(content) + ("]" + rest)), RangesAfter(lo, content).value)
    decreases |content|, 1
  {
    var tail := "]" + rest;
    NextOf(lo, content);
    var next := NextContent([lo] + content);
    var wide := |content| >= 2 && content[0] == '-';
    if wide {
      ReadRangeEnd(content, tail);
    } else {
      ReadNoRange(content, tail);
    }
    ReadRangesNamed(next, false, rest);
    TailDiffers([(lo, if wide then content[1] else lo)], RangesOf(next).value,
                ReadRanges(EscapeBackslashes(next) + tail, false));
  }

  lemma TailDiffers(head: Ranges, rs: Ranges, r: ReadResult<Ranges>)
    requires Differs(r, rs)
    ensures Differs(PutRanges(head, r), head + rs)
  {
    if r.Ok? {
      assert (head + r.value.value)[|head|..] == r.value.value && (head + rs)[|head|..] == rs;
    }
  }

  lemma ClassNamedDiffers(stuff: string, rest: string)
    requires IsStuff(stuff) && ClassHasName(stuff, "]" + rest) && ClassToken(stuff).Ok?
    ensures Differs(ReadRanges(ClassText(stuff, rest), true), RangesOf(ClassContent(stuff)).value)
  {
    assert RangesOf(ClassContent(stuff)).Ok?;
    if stuff[0] == '!' {
      ReadRangesNamed(stuff[1..], true, rest);
    } else if stuff[0] == '^' || stuff[0] == '[' {
      EscapedStart(stuff, rest);
      assert [stuff[0]] + stuff[1..] == stuff;
      ReadAfterNamed(stuff[0], stuff[1..], rest);
    } else {
      ReadRangesNamed(stuff, true, rest);
    }
  }

  /** A pattern with a name in a class is not read as its tokens. */
  lemma {:induction false} NamedBodyDiffers(pat: string)
    requires HasName(pat) && Tokens(pat).Ok?
    ensures ReadBody(TranslateBody(pat) + CLOSING) != Tokens(pat)
    decreases |pat|
  {
    var n := HeadLength(pat);
    var rest := TranslateBody(pat[n..]) + CLOSING;
    BodyCons(pat);
    if n > 1 && ClassHasName(pat[1..n - 1], "]" + rest) {
      HeadStuff(pat);
      NamedClassDiffers(pat[1..n - 1], rest, Tokens(pat[n..]));
    } else {
      NamedBodyDiffers(pat[n..]);
      ReadNamelessHead(pat, rest);
      ConsInjective(HeadToken(pat), ReadBody(rest), Tokens(pat[n..]));
    }
  }

  lemma ReadNamelessHead(pat: string, rest: string)
    requires pat != "" && (rest == "" || rest[0] != '*')
    requires HeadLength(pat) > 1 ==> !ClassHasName(pat[1..HeadLength(pat) - 1], "]" + rest)
    ensures ReadBody(TranslateHead(pat) + rest) == Cons(HeadToken(pat), ReadBody(rest))
  {
    if HeadLength(pat) > 1 {
      ReadTranslatedClass(pat, rest);
    } else {
      ReadTranslatedChar(pat, rest);
    }
  }

  lemma NamedClassDiffers(stuff: string, rest: string, tail: Compiled)
    requires IsStuff(stuff) && ClassHasName(stuff, "]" + rest) && ClassToken(stuff).Ok? && tail.Ok?
    ensures ReadBody(CharClass(stuff) + rest) != Cons(ClassToken(stuff), tail)
  {
    OpenClass(stuff, rest);
    ClassNamedDiffers(stuff, rest);
    if ReadRanges(ClassText(stuff, rest), true).Ok? {
      var read := ReadRanges(ClassText(stuff, rest), true).value;
      HeadDiffers(Class(stuff[0] == '!', read.value), ClassToken(stuff).value, ReadBody(read.rest), tail);
    }
  }

  lemma HeadDiffers(t: Token, u: Token, a: Compiled, b: Compiled)
    requires t != u && b.Ok?
    ensures Cons(Ok(t), a) != Cons(Ok(u), b)
  {
    if a.Ok? {
      assert ([t] + a.value)[0] == t && ([u] + b.value)[0] == u;
    }
  }

  lemma ConsInjective(t: Result<Token, RegexError>, a: Compiled, b: Compiled)
    requires t.Ok? && b.Ok? && a != b
    ensures Cons(t, a) != Cons(t, b)
  {
    if a.Ok? {
      assert ([t.value] + a.value)[1..] == a.value && ([t.value] + b.value)[1..] == b.value;
    }
  }

  // ---------- Compiling a pattern ----------

  /**
   * Compiling the emitted expression yields the tokens of the pattern, or the same error, if no class name is in it.
   * For patterns that have tokens this is exact: with a name the result is another one, or an error.
   */
  lemma TranslationFaithful(pat: string)
    ensures !HasName(pat) ==> Compile(pat) == Tokens(pat)
    ensures Tokens(pat).Ok? ==> (Compile(pat) == Tokens(pat) <==> !HasName(pat))
  {
    CompileBody(pat);
    if !HasName(pat) {
      ReadTranslatedBody(pat);
    } else if Tokens(pat).Ok? {
      NamedBodyDiffers(pat);
    }
  }

  /** Without a class name, the compiled expression accepts a text exactly when the glob pattern matches it. */
  lemma CompiledGlobMeansFnmatch(pat: string, s: string)
    requires !HasName(pat) && Compile(pat).Ok?
    ensures Matches(Compile(pat).value, s) <==> Fnmatch(pat, s)
  {
    TranslationFaithful(pat);
    TokensMeanFnmatch(pat, s);
  }

  /** Closed patterns have no class name in them. */
  lemma {:induction false} ClosedNoName(pat: string)
    requires Closed(pat)
    ensures !HasName(pat)
    decreases |pat|
  {
    if pat != "" {
      var n := HeadLength(pat);
      ClosedNoName(pat[n..]);
      if n > 1 {
        var stuff := pat[1..n - 1];
        var after := "]" + (TranslateBody(pat[n..]) + CLOSING);
        HeadStuff(pat);
        NamelessClass(stuff, after);
      }
    }
  }

  lemma NamelessClass(stuff: string, after: string)
    requires IsStuff(stuff) && Nameless(stuff) && after != "" && after[0] == ']'
    ensures !ClassHasName(stuff, after)
  {
    if stuff[0] == '!' {
      NamelessSuffix(stuff, 1);
      NamelessContent(stuff[1..], after);
    } else if stuff[0] == '^' || stuff[0] == '[' {
      NamelessSuffix(stuff, |stuff| - |NextContent(stuff)|);
      NamelessContent(NextContent(stuff), after);
    } else {
      NamelessContent(stuff, after);
    }
  }

  lemma NamelessSuffix(stuff: string, i: nat)
    requires Nameless(stuff) && i <= |stuff|
    ensures Nameless(stuff[i..])
  {
  }

  lemma {:induction false} NamelessContent(content: string, after: string)
    requires Nameless(content) && after != "" && after[0] == ']'
    ensures !NameIn(content, after)
    decreases |content|
  {
    if content != "" {
      NamelessSuffix(content, |content| - |NextContent(content)|);
      NamelessContent(NextContent(content), after);
      NamelessStart(content, after);
    }
  }

  lemma NamelessStart(content: string, after: string)
    requires content != "" && Nameless(content) && after != "" && after[0] == ']'
    ensures NameLength(EscapeBackslashes(content) + after) == 0
  {
    EscapedSplit(content, after);
    if |content| >= 2 {
      EscapedSplit(content[1..], after);
    } else {
      assert EscapeBackslashes(content[1..]) + after == after;
    }
  }

  // ---------- A name in the last class ----------

  lemma {:induction false} ColonBracketFinds(t: string)
    ensures var i := ColonBracket(t); i != -1 ==> t[i] == ':' && t[i + 1] == ']'
  {
    if |t| >= 2 {
      ColonBracketFinds(t[1..]);
    }
  }

  lemma {:induction false} EscapedBrackets(content: string)
    requires ']' !in content
    ensures ']' !in EscapeBackslashes(content)
  {
    if content != "" {
      EscapedBrackets(content[1..]);
    }
  }

  /** Behind the last class there is nothing to close it again. */
  lemma ClosingIsBroken()
    ensures ReadRanges(CLOSING, false).Err?
  {
    assert CLOSING[1..] == "\\z";
    assert ReadRanges("\\z", false).Err?;
  }

  /** The name takes the closing bracket of the last class with it. */
  lemma NameTakesBracket(content: string)
    requires ']' !in content && NameLength(EscapeBackslashes(content) + ("]" + CLOSING)) > 0
    ensures var t := EscapeBackslashes(content) + ("]" + CLOSING); t[NameLength(t)..] == CLOSING
  {
    var esc := EscapeBackslashes(content);
    var t := esc + ("]" + CLOSING);
    EscapedBrackets(content);
    ColonBracketFinds(t[2..]);
    var k := NameLength(t) - 1;
    assert t[k] == ']' && t[2..][k - 2] == t[k];
    BracketPosition(esc, k);
  }

  lemma BracketPosition(esc: string, k: nat)
    requires ']' !in esc && k < |esc + ("]" + CLOSING)| && (esc + ("]" + CLOSING))[k] == ']'
    ensures k == |esc| && (esc + ("]" + CLOSING))[k + 1..] == CLOSING
  {
  }

  lemma {:induction false} LastNameBroken(content: string, first: bool)
    requires ']' !in content && NameIn(content, "]" + CLOSING)
    ensures ReadRanges(EscapeBackslashes(content) + ("]" + CLOSING), first).Err?
    decreases |content|, 0
  {
    var tail := "]" + CLOSING;
    var t := EscapeBackslashes(content) + tail;
    if NameLength(t) > 0 {
      NameTakesBracket(content);
      ClosingIsBroken();
    } else {
      EscapedSplit(content, tail);
      ReadCharOfEscaped(content[0], EscapeBackslashes(content[1..]) + tail);
      assert [content[0]] + content[1..] == content;
      LastNameBrokenAfter(content[0], content[1..]);
    }
  }

  lemma {:induction false} LastNameBrokenAfter(lo: char, content: string)
    requires ']' !in content && NameIn(NextContent([lo] + content), "]" + CLOSING)
    ensures ReadAfter(lo, EscapeBackslashes(content) + ("]" + CLOSING)).Err?
    decreases |content|, 1
  {
    var tail := "]" + CLOSING;
    NextOf(lo, content);
    if |content| >= 2 && content[0] == '-' {
      ReadRangeEnd(content, tail);
    } else {
      ReadNoRange(content, tail);
    }
    LastNameBroken(NextContent([lo] + content), false);
  }

  lemma NegatedClass(stuff: string, tail: string)
    requires |stuff| >= 2 && stuff[0] == '!' && ']' !in stuff
    ensures var pat := "[" + stuff + "]" + tail;
      ClassEnd(pat) == |stuff| + 1 && pat[1..|stuff| + 1] == stuff && pat[|stuff| + 2..] == tail
  {
    var pat, e := "[" + stuff + "]" + tail, |stuff| + 1;
    assert pat[1] == stuff[0] && pat[2] == stuff[1] && stuff[1] in stuff;
    assert pat[2..e] == stuff[1..];
    ClosingBracketFound(pat, e);
  }

  /** An exclusion alone that holds a class name does not compile. */
  lemma ExclusionNameBroken(stuff: string)
    requires |stuff| >= 2 && stuff[0] == '!' && ']' !in stuff && HasName("[" + stuff + "]")
    ensures Compile("[" + stuff + "]").Err?
  {
    var pat := "[" + stuff + "]";
    assert pat + "" == pat;
    NegatedClass(stuff, "");
    assert TranslateBody("") + CLOSING == CLOSING;
    CompileBody(pat);
    BodyCons(pat);
    OpenClass(stuff, CLOSING);
    LastNameBroken(stuff[1..], true);
  }

  // ---------- A misread name ----------

  /** Two glob classes; Go sees one class, which holds all letters, '[' and 'y'. */
  const NAMED: string := "[" + "![:alpha:" + "]" + "[y]"
  const MISREAD: Token := Class(true, [('A', 'Z'), ('a', 'z'), ('[', '['), ('y', 'y')])

  lemma {:induction false} EscapedPlain(t: string)
    requires '\\' !in t
    ensures EscapeBackslashes(t) == t
  {
    if t != "" {
      EscapedPlain(t[1..]);
      assert t == [t[0]] + t[1..];
    }
  }

  lemma NamedHeadText()
    ensures TranslateHead(NAMED) == "[^" + "[:alpha:]"
  {
    NegatedClass("![:alpha:", "[y]");
    NamedClassText();
  }

  lemma NamedClassText()
    ensures CharClass("![:alpha:") == "[^" + "[:alpha:]"
  {
    EscapedPlain("[:alpha:");
    assert "![:alpha:"[1..] == "[:alpha:";
    assert CharClass("![:alpha:") == "[^" + "[:alpha:" + "]";
  }

  lemma NamedTailText()
    ensures TranslateBody("[y]") == "[y]"
  {
    var pat := "[y]";
    ClosingBracketFound(pat, 2);
    EscapedPlain("y");
    assert pat[1..2] == "y" && pat[3..] == "";
    assert CharClass("y") == "[" + "y" + "]";
    assert TranslateBody("") == "";
  }

  lemma NamedTranslation()
    ensures TranslateBody(NAMED) + CLOSING == "[^" + ("[:alpha:]" + ("[y]" + CLOSING))
  {
    NegatedClass("![:alpha:", "[y]");
    NamedHeadText();
    NamedTailText();
    BodyCons(NAMED);
    Reassociate("[^", "[:alpha:]", "[y]" + CLOSING);
  }

  lemma {:induction false} ColonAt(t: string, i: nat)
    requires i + 2 <= |t| && t[i] == ':' && t[i + 1] == ']' && ':' !in t[..i]
    ensures ColonBracket(t) == i
  {
    if i > 0 {
      assert t[0] in t[..i];
      assert t[1..][..i - 1] == t[..i][1..];
      ColonAt(t[1..], i - 1);
    }
  }

  lemma AlphaName(tail: string)
    ensures var t := "[:alpha:]" + tail;
      NameLength(t) == 9 && t[2..7] == "alpha" && t[9..] == tail
  {
    var t := "[:alpha:]" + tail;
    assert t[2..][..5] == "alpha";
    ColonAt(t[2..], 5);
  }

  lemma AlphaGroup()
    ensures NamedRanges("alpha") == Some([('A', 'Z'), ('a', 'z')])
  {
    assert "alpha"[2] != "alnum"[2];
  }

  lemma MisreadTail()
    ensures ReadRanges("[y]" + CLOSING, false) == Ok(Read([('[', '['), ('y', 'y')], CLOSING))
  {
    var t := "[y]" + CLOSING;
    assert t[1..] == "y]" + CLOSING && t[1..][1..] == "]" + CLOSING && t[1..][1..][1..] == CLOSING;
    assert ReadRanges("]" + CLOSING, false) == Ok(Read([], CLOSING));
    assert [('y', 'y')] + [] == [('y', 'y')];
    assert ReadRanges("y]" + CLOSING, false) == Ok(Read([('y', 'y')], CLOSING));
    assert [('[', '[')] + [('y', 'y')] == [('[', '['), ('y', 'y')];
    assert ReadRanges(t, false) == ReadAfter('[', "y]" + CLOSING);
  }

  lemma MisreadClass()
    ensures ReadRanges("[:alpha:]" + ("[y]" + CLOSING), true) == Ok(Read(MISREAD.ranges, CLOSING))
  {
    var tail := "[y]" + CLOSING;
    var t := "[:alpha:]" + tail;
    AlphaName(tail);
    AlphaGroup();
    MisreadTail();
    assert t[0] == '[' && t[NameLength(t)..] == tail;
    assert ReadRanges(t, true) == PutRanges([('A', 'Z'), ('a', 'z')], ReadRanges(tail, false));
    assert ReadRanges(tail, false) == Ok(Read([('[', '['), ('y', 'y')], CLOSING));
    PutMisread();
    assert ReadRanges(t, true) == Ok(Read(MISREAD.ranges, CLOSING));
  }

  lemma PutMisread()
    ensures PutRanges([('A', 'Z'), ('a', 'z')], Ok(Read([('[', '['), ('y', 'y')], CLOSING))) ==
      Ok(Read(MISREAD.ranges, CLOSING))
  {
    assert [('A', 'Z'), ('a', 'z')] + [('[', '['), ('y', 'y')] == MISREAD.ranges;
  }

  lemma MisreadCompiles()
    ensures Compile(NAMED) == Ok([MISREAD])
  {
    var rest := "[:alpha:]" + ("[y]" + CLOSING);
    NamedTranslation();
    MisreadClass();
    OpenNegated(rest);
    assert ReadBody(CLOSING) == Ok([]) && [MISREAD] + [] == [MISREAD];
    CompileBody(NAMED);
  }

  lemma CompileBody(pat: string)
    ensures Compile(pat) == ReadBody(TranslateBody(pat) + CLOSING)
  {
    var re := Translate(pat);
    var body := TranslateBody(pat) + CLOSING;
    Reassociate(OPENING, TranslateBody(pat), CLOSING);
    assert re == OPENING + body;
    assert re[..|OPENING|] == OPENING && re[|OPENING|..] == body;
  }

  lemma MisreadMatches()
    ensures Matches([MISREAD], "5") && !Fnmatch(NAMED, "5")
  {
    NegatedClass("![:alpha:", "[y]");
    assert "5"[1..] == "";
    SoleTokenMatches(MISREAD, '5');
    assert Accepts(MISREAD, '5');
  }

  lemma SoleTokenMatches(t: Token, c: char)
    requires t != Star && Accepts(t, c)
    ensures Matches([t], [c])
  {
    assert [t][1..] == [] && [c][1..] == "";
  }

  /** The pattern compiles, and the expression matches a text of one character that the glob pattern does not match. */
  lemma NameMisread()
    ensures Compile(NAMED) == Ok([MISREAD]) && HasName(NAMED)
    ensures Matches([MISREAD], "5") && !Fnmatch(NAMED, "5")
  {
    MisreadCompiles();
    MisreadMatches();
    if !HasName(NAMED) {
      CompiledGlobMeansFnmatch(NAMED, "5");
    }
  }
}
