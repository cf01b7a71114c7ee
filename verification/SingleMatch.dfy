/**
 * internal/expression/list2expr.go: what Match answers for a single printed name, also where Go sees a class name in it
 * and reads the emitted expression in another way than the pattern.
 */
module SingleMatch {
  import opened Text
  import opened Glob
  import opened GoRegex
  import opened Parse
  import opened Matching
  import opened SingleName

  // ---------- Emitted text in atoms ----------

  /** A piece of emitted text in which a closing bracket can only come last. */
  predicate IsAtom(a: string) {
    && a != "" && (forall i :: 0 <= i < |a| - 1 ==> a[i] != ']')
    && (a[0] == '\\' ==> |a| == 2)
    && (a[0] == '.' ==> a == "." || a == ".*")
    && (a[0] != '\\' && a[0] != '.' && a[0] != '[' ==> |a| == 1)
  }

  predicate AllAtoms(atoms: seq<string>) {
    forall a :: a in atoms ==> IsAtom(a)
  }

  /** A closing bracket ends an atom; the second at the earliest, if the first is a single other character. */
  lemma {:induction false} BracketEndsAtom(atoms: seq<string>, i: nat) returns (j: nat)
    requires AllAtoms(atoms) && i < |Concat(atoms)| && Concat(atoms)[i] == ']'
    ensures 1 <= j <= |atoms| && Concat(atoms[j..]) == Concat(atoms)[i + 1..]
    ensures i >= |atoms[0]| ==> j >= 2
  {
    var c, a, rest := Concat(atoms), atoms[0], Concat(atoms[1..]);
    assert a in atoms;
    if i < |a| {
      j := 1;
      assert i + 1 == |a|;
      assert c[i + 1..] == rest;
    } else {
      assert c[i] == rest[i - |a|];
      var k := BracketEndsAtom(atoms[1..], i - |a|);
      j := k + 1;
      assert atoms[1..][k..] == atoms[j..];
      assert c[i + 1..] == rest[i - |a| + 1..];
    }
  }

  /** A class is read up to some closing bracket. */
  lemma {:induction false} RangesEnd(t: string, first: bool) returns (k: nat)
    requires ReadRanges(t, first).Ok?
    ensures 1 <= k <= |t| && t[k - 1] == ']' && ReadRanges(t, first).value.rest == t[k..]
    decreases |t|, 0
  {
    if t[0] == ']' && !first {
      k := 1;
    } else if NameLength(t) > 0 {
      var n := NameLength(t);
      var m := RangesEnd(t[n..], false);
      k := EndAfter(t, n, m);
    } else {
      var n := if t[0] == '\\' then 2 else 1;
      assert ReadChar(t).value.rest == t[n..];
      var m := AfterEnd(ReadChar(t).value.value, t[n..]);
      k := EndAfter(t, n, m);
    }
  }

  lemma EndAfter(t: string, n: nat, m: nat) returns (k: nat)
    requires n <= |t| && 1 <= m <= |t[n..]| && t[n..][m - 1] == ']'
    ensures k == n + m && k <= |t| && t[k - 1] == ']' && t[n..][m..] == t[k..]
  {
    k := n + m;
    SuffixOfSuffix(t, n, m);
  }

  lemma {:induction false} AfterEnd(lo: char, t: string) returns (k: nat)
    requires ReadAfter(lo, t).Ok?
    ensures 1 <= k <= |t| && t[k - 1] == ']' && ReadAfter(lo, t).value.rest == t[k..]
    decreases |t|, 1
  {
    if |t| >= 2 && t[0] == '-' && t[1] != ']' {
      var n := if t[1] == '\\' then 3 else 2;
      assert ReadChar(t[1..]).value.rest == t[n..];
      var m := RangesEnd(t[n..], false);
      k := EndAfter(t, n, m);
    } else {
      k := RangesEnd(t, false);
    }
  }

  /** The token of a class, and where its text ends. */
  lemma ClassRead(e: string) returns (token: Token, k: nat)
    requires e != "" && e[0] == '[' && ReadBody(e).Ok?
    ensures 2 <= k <= |e| && e[k - 1] == ']' && ReadBody(e[k..]).Ok?
    ensures ReadBody(e).value == [token] + ReadBody(e[k..]).value
  {
    var n := if |e| >= 2 && e[1] == '^' then 2 else 1;
    var m := RangesEnd(e[n..], true);
    k := n + m;
    SuffixOfSuffix(e, n, m);
    token := Class(n == 2, ReadRanges(e[n..], true).value.value);
  }

  /** Reading yields at most one token for each atom, and fewer if some atom opens a class. */
  lemma {:induction false} AtomsRead(atoms: seq<string>)
    requires AllAtoms(atoms) && ReadBody(Concat(atoms) + CLOSING).Ok?
    ensures var n := |ReadBody(Concat(atoms) + CLOSING).value|; n <= |atoms| && (n == |atoms| ==> "[" !in atoms)
    decreases |atoms|, 1
  {
    var e := Concat(atoms) + CLOSING;
    if atoms == [] {
      assert e == CLOSING;
    } else {
      var a := atoms[0];
      assert a in atoms;
      assert atoms == [a] + atoms[1..];
      var rest := Concat(atoms[1..]) + CLOSING;
      Reassociate(a, Concat(atoms[1..]), CLOSING);
      assert e == a + rest;
      if a[0] == '[' {
        ClassAtoms(atoms);
      } else if a[0] == '.' {
        DotAtoms(atoms);
      } else {
        assert e[|a|..] == rest;
        AtomsRead(atoms[1..]);
      }
    }
  }

  lemma {:induction false} ClassAtoms(atoms: seq<string>)
    requires AllAtoms(atoms) && atoms != [] && atoms[0] != "" && atoms[0][0] == '['
    requires ReadBody(Concat(atoms) + CLOSING).Ok?
    ensures var n := |ReadBody(Concat(atoms) + CLOSING).value|; n <= |atoms| && (n == |atoms| ==> "[" !in atoms)
    decreases |atoms|, 0
  {
    var c := Concat(atoms);
    var e := c + CLOSING;
    assert atoms[0] in atoms;
    var token, k := ClassRead(e);
    assert k <= |c|;
    var j := BracketEndsAtom(atoms, k - 1);
    assert e[k..] == c[k..] + CLOSING;
    AtomsRead(atoms[j..]);
    if "[" in atoms && |ReadBody(e).value| == |atoms| {
      OnlyFirst(atoms, j);
    }
  }

  lemma OnlyFirst(atoms: seq<string>, j: nat)
    requires 1 <= j <= |atoms| && "[" in atoms && "[" !in atoms[j..] && (atoms[0] == "[" ==> j >= 2)
    ensures j >= 2
  {
    assert atoms == [atoms[0]] + atoms[1..];
  }

  lemma {:induction false} DotAtoms(atoms: seq<string>)
    requires AllAtoms(atoms) && atoms != [] && atoms[0] != "" && atoms[0][0] == '.'
    requires ReadBody(Concat(atoms) + CLOSING).Ok?
    ensures var n := |ReadBody(Concat(atoms) + CLOSING).value|; n <= |atoms| && (n == |atoms| ==> "[" !in atoms)
    decreases |atoms|, 0
  {
    var a := atoms[0];
    assert a in atoms;
    assert atoms == [a] + atoms[1..];
    var rest := Concat(atoms[1..]) + CLOSING;
    Reassociate(a, Concat(atoms[1..]), CLOSING);
    var e := a + rest;
    assert Concat(atoms) + CLOSING == e;
    if a == "." && rest[0] == '*' {
      StarAtom(atoms[1..]);
      var b := atoms[1];
      Reassociate(b, Concat(atoms[2..]), CLOSING);
      assert atoms[1..][1..] == atoms[2..];
      assert e[2..] == Concat(atoms[2..]) + CLOSING;
      AtomsRead(atoms[2..]);
    } else {
      assert e[|a|..] == rest;
      AtomsRead(atoms[1..]);
    }
  }

  lemma StarAtom(atoms: seq<string>)
    requires AllAtoms(atoms) && (Concat(atoms) + CLOSING)[0] == '*'
    ensures atoms != [] && atoms[0] == "*"
  {
    assert atoms != [];
    assert atoms[0] in atoms;
    assert atoms[0] == [atoms[0][0]];
  }

  // ---------- The atoms of a translated pattern ----------

  lemma {:induction false} EscapedAppend(x: string, y: string)
    ensures EscapeBackslashes(x + y) == EscapeBackslashes(x) + EscapeBackslashes(y)
  {
    if x == "" {
      assert x + y == y;
    } else {
      assert (x + y)[1..] == x[1..] + y;
      EscapedAppend(x[1..], y);
      Reassociate(EscapeBackslash(x[0]), EscapeBackslashes(x[1..]), EscapeBackslashes(y));
    }
  }

  /** The members of a class, one atom each. */
  function MemberAtoms(t: string): (atoms: seq<string>)
    ensures |atoms| == |t| && AllAtoms(atoms) && Concat(atoms) == EscapeBackslashes(t)
  {
    if t == "" then [] else [EscapeBackslash(t[0])] + MemberAtoms(t[1..])
  }

  /** The members of a class with what is written before them, but for the opening bracket. */
  function LeadAtoms(t: string): (atoms: seq<string>)
    requires t != ""
    ensures |atoms| == |t| && AllAtoms(atoms)
  {
    if t[0] == '!' then ["^"] + MemberAtoms(t[1..])
    else if t[0] == '^' || t[0] == '[' then [['\\', t[0]]] + MemberAtoms(t[1..])
    else MemberAtoms(t)
  }

  lemma LeadText(t: string)
    requires t != ""
    ensures "[" + Concat(LeadAtoms(t)) == ClassOpening(t) + EscapeBackslashes(ClassContent(t))
  {
    if t[0] == '!' {
      assert "[" + ("^" + EscapeBackslashes(t[1..])) == "[^" + EscapeBackslashes(t[1..]);
    } else if t[0] == '^' || t[0] == '[' {
      assert "[" + (['\\', t[0]] + EscapeBackslashes(t[1..])) == "[\\" + ([t[0]] + EscapeBackslashes(t[1..]));
    }
  }

  /** The first bracket of a text in units: all units before its own are single characters. */
  lemma {:induction false} FirstBracketUnit(us: seq<string>, i: nat) returns (k: nat)
    requires AllUnits(us) && i < |Concat(us)| && Concat(us)[i] == ']' && ']' !in Concat(us)[..i]
    ensures k < |us| && us[k] != "" && i == k + |us[k]| - 1 && us[k][|us[k]| - 1] == ']'
    ensures |Concat(us)| >= k && Concat(us)[k..] == us[k] + Concat(us[k + 1..])
  {
    var c, u, rest := Concat(us), us[0], Concat(us[1..]);
    assert u in us;
    if i < |u| {
      k := 0;
      assert u[i] == c[i];
      assert |u| == 5 && i < 4 ==> c[i] == u[i];
    } else {
      assert c[|u| - 1] == u[|u| - 1] && c[|u| - 1] in c[..i];
      assert |u| == 1;
      assert rest == c[1..] && c[..i][1..] == rest[..i - 1];
      var m := FirstBracketUnit(us[1..], i - 1);
      k := m + 1;
      assert us[1..][m] == us[k] && us[1..][m + 1..] == us[k + 1..];
      assert c[k..] == rest[m..];
    }
  }

  lemma SingleUnit(us: seq<string>)
    requires AllUnits(us) && us != [] && Concat(us) != "" && Concat(us)[0] != '['
    ensures |us[0]| == 1 && Concat(us[1..]) == Concat(us)[1..]
  {
    assert us[0] in us;
    assert Concat(us)[0] == us[0][0];
  }

  /** A first unit of one character, and the rest. */
  lemma FirstSingle(us: seq<string>)
    requires us != [] && |us[0]| == 1
    ensures Concat(us)[1..] == Concat(us[1..]) && Concat(us)[0] == us[0][0]
  {
  }

  /** The units in front of the place where the search for the closing bracket starts are single characters. */
  lemma ScanUnits(us: seq<string>)
    requires AllUnits(us) && Concat(us) != "" && us[0] == "["
    ensures var k := ClassScanStart(Concat(us)); k <= |us| && Concat(us[k..]) == Concat(us)[k..]
  {
    var c := Concat(us);
    FirstSingle(us);
    assert us[1..] == [] ==> c[1..] == "";
    if |c| > 1 && (c[1] == '!' || c[1] == ']') {
      SingleUnit(us[1..]);
      assert us[1..][1..] == us[2..] && c[1..][1..] == c[2..];
      if c[1] == '!' && |c| > 2 && c[2] == ']' {
        SingleUnit(us[2..]);
        assert us[2..][1..] == us[3..] && c[2..][1..] == c[3..];
      }
    }
  }

  /** The unit that closes the class opened by the first, single unit: the class is the text before it, and its own. */
  lemma ClassUnits(us: seq<string>) returns (q: nat)
    requires AllUnits(us) && Concat(us) != "" && us[0] == "[" && HeadLength(Concat(us)) > 1
    ensures 1 <= q < |us| && us[q] != "" && us[q][|us[q]| - 1] == ']' && HeadLength(Concat(us)) == q + |us[q]|
    ensures q <= |Concat(us)| && Concat(us)[q..] == us[q] + Concat(us[q + 1..])
  {
    var c := Concat(us);
    var k, e := ClassScanStart(c), ClassEnd(c);
    ScanUnits(us);
    IndexFirst(c[k..], ']');
    assert AllUnits(us[k..]);
    var m := FirstBracketUnit(us[k..], e - k);
    q := k + m;
    assert us[k..][m] == us[q] && us[k..][m + 1..] == us[q + 1..];
    SuffixOfSuffix(c, k, m);
  }

  /** A class that a single closing bracket ends: its atoms are as many as its characters. */
  lemma PlainClassAtoms(stuff: string) returns (atoms: seq<string>)
    requires IsStuff(stuff)
    ensures AllAtoms(atoms) && Concat(atoms) == CharClass(stuff) && |atoms| == |stuff| + 2 && "[" in atoms
  {
    atoms := EnclosedAtoms(LeadAtoms(stuff), "]");
    LeadText(stuff);
  }

  /** A class that a range unit ends: its members before the unit, and the unit as it is. */
  lemma RangeClassAtoms(before: string, u: string) returns (atoms: seq<string>)
    requires IsUnit(u) && |u| == 5
    ensures AllAtoms(atoms) && Concat(atoms) == CharClass(before + u[..4])
    ensures |atoms| <= |before| + 2 && (|atoms| == |before| + 2 ==> "[" in atoms)
  {
    if before == "" {
      atoms := ["[\\" + u];
      LeadingRangeText(u);
      assert Concat(atoms) == ("[\\" + u) + "";
      assert before + u[..4] == u[..4];
    } else {
      atoms := EnclosedAtoms(LeadAtoms(before), u);
      LeadText(before);
      RangeClassText(before, u);
    }
  }

  /** Atoms between an opening bracket and an atom that ends the class. */
  lemma EnclosedAtoms(lead: seq<string>, u: string) returns (atoms: seq<string>)
    requires AllAtoms(lead) && IsAtom(u)
    ensures AllAtoms(atoms) && Concat(atoms) == ("[" + Concat(lead)) + u && |atoms| == |lead| + 2 && "[" in atoms
  {
    atoms := ["["] + (lead + [u]);
    ConcatAppend(lead, [u]);
    assert Concat([u]) == u + "";
    Reassociate("[", Concat(lead), u);
    assert atoms[0] == "[" && atoms[1..] == lead + [u];
  }

  lemma LeadingRangeText(u: string)
    requires IsUnit(u) && |u| == 5
    ensures CharClass(u[..4]) == "[\\" + u
  {
    UnitPlain(u);
    Reassociate("[\\", u[..4], "]");
  }

  lemma UnitPlain(u: string)
    requires IsUnit(u) && |u| == 5
    ensures EscapeBackslashes(u[..4]) == u[..4] && u == u[..4] + "]"
  {
    EscapedPlain(u[..4]);
  }

  lemma RangeClassText(before: string, u: string)
    requires before != "" && IsUnit(u) && |u| == 5
    ensures CharClass(before + u[..4]) == (ClassOpening(before) + EscapeBackslashes(ClassContent(before))) + u
  {
    var stuff := before + u[..4];
    UnitPlain(u);
    assert ClassOpening(stuff) == ClassOpening(before);
    assert ClassContent(stuff) == ClassContent(before) + u[..4];
    EscapedAppend(ClassContent(before), u[..4]);
    var opening, esc := ClassOpening(before), EscapeBackslashes(ClassContent(before));
    assert opening + (esc + u[..4]) + "]" == (opening + esc) + (u[..4] + "]");
  }

  /** The atoms of the head of a text in units, if it is a class with several units. */
  lemma HeadClassAtoms(us: seq<string>) returns (atoms: seq<string>, j: nat)
    requires AllUnits(us) && Concat(us) != "" && us[0] == "[" && HeadLength(Concat(us)) > 1
    ensures AllAtoms(atoms) && Concat(atoms) == TranslateHead(Concat(us))
    ensures 1 <= j <= |us| && Concat(us[j..]) == Concat(us)[HeadLength(Concat(us))..]
    ensures |atoms| <= j && (|atoms| == j ==> "[" in atoms)
  {
    var c := Concat(us);
    var h := HeadLength(c);
    var q := ClassUnits(us);
    var u := us[q];
    assert u in us;
    j := q + 1;
    assert c[h..] == c[q..][|u|..];
    HeadStuff(c);
    if |u| == 1 {
      atoms := PlainClassAtoms(c[1..h - 1]);
    } else {
      assert c[q..][..4] == u[..4];
      assert c[1..h - 1] == c[1..q] + u[..4];
      atoms := RangeClassAtoms(c[1..q], u);
    }
  }

  /** A range unit at the head is a class of its own, emitted as it is, with no name in it. */
  lemma UnitHead(u: string, rest: string)
    requires IsUnit(u) && |u| == 5
    ensures var c := u + rest;
      HeadLength(c) == 5 && c[5..] == rest && TranslateHead(c) == u && NeverNamed(c[1..4])
  {
    var c := u + rest;
    assert c[1] == u[1] && c[2] == u[2] && c[3] == u[3] && c[4] == u[4];
    assert ']' !in c[1..4];
    ClosingBracketFound(c, 4);
    var stuff := c[1..4];
    assert stuff == [u[1], '-', u[3]];
    EscapedPlain(stuff);
    assert u == "[" + stuff + "]";
    forall after
      ensures !ClassHasName(stuff, after)
    {
      RangeNoName(stuff, after);
    }
  }

  lemma RangeNoName(stuff: string, after: string)
    requires |stuff| == 3 && IsAlnum(stuff[0]) && stuff[1] == '-'
    ensures !ClassHasName(stuff, after)
  {
    var t := EscapeBackslashes(stuff) + after;
    EscapedSplit(stuff, after);
    assert t[0] == stuff[0] && NameLength(t) == 0;
    assert NextContent(stuff) == "" && !NameIn("", after);
    assert !NameIn(stuff, after);
  }

  /** The first atoms of a translated text in units, and how many units they stand for. */
  lemma HeadAtoms(us: seq<string>) returns (atoms: seq<string>, j: nat)
    requires AllUnits(us) && us != []
    ensures Concat(us) != "" && AllAtoms(atoms) && Concat(atoms) == TranslateHead(Concat(us))
    ensures 1 <= j <= |us| && Concat(us[j..]) == Concat(us)[HeadLength(Concat(us))..]
    ensures |atoms| <= j && (|atoms| == j && "[" !in atoms ==> HeadNameless(Concat(us)))
  {
    var c := Concat(us);
    assert us[0] in us;
    if |us[0]| == 5 {
      UnitHead(us[0], Concat(us[1..]));
      atoms, j := [us[0]], 1;
      assert Concat(atoms) == us[0] + "";
    } else {
      FirstSingle(us);
      if HeadLength(c) == 1 {
        atoms, j := [TranslateHead(c)], 1;
        assert Concat(atoms) == TranslateHead(c) + "";
      } else {
        assert us[0] == [c[0]];
        atoms, j := HeadClassAtoms(us);
      }
    }
  }

  /** If the first token is a class, it holds no class name. */
  ghost predicate HeadNameless(c: string)
    requires c != ""
  {
    HeadLength(c) > 1 ==> NeverNamed(c[1..HeadLength(c) - 1])
  }

  /** Whatever follows the class, it holds no class name. */
  ghost predicate NeverNamed(stuff: string) {
    forall after :: !ClassHasName(stuff, after)
  }

  /** A translated text in units has no more atoms than that; with as many and no class, it holds no class name. */
  lemma {:induction false} AtomsOf(us: seq<string>) returns (atoms: seq<string>)
    requires AllUnits(us)
    ensures AllAtoms(atoms) && Concat(atoms) == TranslateBody(Concat(us)) && |atoms| <= |us|
    ensures |atoms| == |us| && "[" !in atoms ==> !HasName(Concat(us))
    decreases |us|
  {
    if us == [] {
      atoms := [];
    } else {
      var head, j := HeadAtoms(us);
      assert AllUnits(us[j..]);
      var rest := AtomsOf(us[j..]);
      atoms := AddAtoms(head, rest, Concat(us));
      if "[" !in head && !HasName(Concat(us[j..])) && HeadNameless(Concat(us)) {
        NamelessPattern(Concat(us));
      }
    }
  }

  lemma NamelessPattern(c: string)
    requires c != "" && HeadNameless(c) && !HasName(c[HeadLength(c)..])
    ensures !HasName(c)
  {
  }

  lemma AddAtoms(head: seq<string>, rest: seq<string>, c: string) returns (atoms: seq<string>)
    requires AllAtoms(head) && AllAtoms(rest) && c != "" && Concat(head) == TranslateHead(c)
    requires Concat(rest) == TranslateBody(c[HeadLength(c)..])
    ensures AllAtoms(atoms) && Concat(atoms) == TranslateBody(c) && |atoms| == |head| + |rest|
    ensures "[" in atoms <==> "[" in head || "[" in rest
  {
    atoms := head + rest;
    ConcatAppend(head, rest);
  }

  // ---------- A single name ----------

  predicate WildTokens(ts: seq<Token>) {
    exists t :: t in ts && (t == Star || t == AnyOne)
  }

  /** Tokens with a wildcard that match one text also match another. */
  lemma {:induction false} WildTokensMatchAnother(ts: seq<Token>, s: string) returns (t: string)
    requires Matches(ts, s) && WildTokens(ts)
    ensures t != s && Matches(ts, t)
    decreases |ts|
  {
    if ts[0] == Star {
      t := "a" + s;
      assert t[1..] == s;
      assert |t| != |s|;
    } else if ts[0] == AnyOne {
      t := [if s[0] == 'a' then 'b' else 'a'] + s[1..];
      assert t[1..] == s[1..] && t[0] != s[0];
    } else {
      assert ts == [ts[0]] + ts[1..];
      var rest := WildTokensMatchAnother(ts[1..], s[1..]);
      t := [s[0]] + rest;
      assert t[1..] == rest;
    }
  }

  lemma {:induction false} TokenCount(ts: seq<Token>, s: string)
    requires Matches(ts, s) && !WildTokens(ts)
    ensures |s| == |ts|
  {
    if ts != [] {
      assert ts[0] in ts;
      assert forall t :: t in ts[1..] ==> t in ts;
      TokenCount(ts[1..], s[1..]);
    }
  }

  /** A candidate whose compiled form matches a text as long as the name has no class name, and is the name itself. */
  lemma LongMatchUnnamed(n: string, c: string)
    requires Expand(n).Ok? && c in Expand(n).value && Compile(c).Ok? && |Compile(c).value| == |n|
    ensures OnlyExclusions(n) && !HasName(c)
  {
    var us := CandidateUnits(n, c);
    var atoms := AtomsOf(us);
    CompileBody(c);
    AtomsRead(atoms);
  }

  /** A name that Match finds alone has no class name in its only candidate. */
  lemma MatchedAloneUnnamed(n: string)
    requires MatchesItself(n)
    ensures Unnamed(n)
  {
    assert n + "a" != n && MatchResult(n + "a", n) == Ok(false);
    var candidates := Distinct(Expand(n).value);
    NoHit(candidates, n + "a");
    assert MatchResult(n, n) == Ok(true);
    var c := Hit(candidates, n);
    var ts := Compile(c).value;
    if WildTokens(ts) {
      var t := WildTokensMatchAnother(ts, n);
      assert MatchResult(t, n) == Ok(false);
      NoHit(candidates, t);
    }
    TokenCount(ts, n);
    LongMatchUnnamed(n, c);
    ExclusionsExpand(n);
  }

  /** A name printed alone is what Match answers yes to, and nothing else, exactly if it stands alone. */
  lemma SingleNameMatches(n: string)
    ensures MatchesItself(n) <==> StandsAlone(n)
  {
    if MatchesItself(n) {
      MatchedAloneUnnamed(n);
      UnnamedNameMatches(n);
    }
    if StandsAlone(n) {
      StandAloneMatches(n);
    }
  }
}
