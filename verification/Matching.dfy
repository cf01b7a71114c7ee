/** internal/expression/match.go: Match and ListMatch on top of the parsed candidates. */
module Matching {
  import opened Text
  import opened Glob
  import opened GoRegex
  import opened Parse

  datatype MatchError = Syntax(syntax: SyntaxError) | Regex(regex: RegexError)

  /** Reference meaning of an expression: some candidate matches the whole name. */
  ghost predicate Selects(e: string, name: string) {
    Expand(e).Ok? && exists c :: c in Expand(e).value && Fnmatch(c, name)
  }

  // ---------- Match ----------

  /** The first candidate that fails to compile or matches decides. */
  function FirstHit(candidates: seq<string>, name: string): Result<bool, MatchError> {
    if candidates == [] then Ok(false)
    else
      match Compile(candidates[0])
      case Err(error) => Err(Regex(error))
      case Ok(ts) => if Matches(ts, name) then Ok(true) else FirstHit(candidates[1..], name)
  }

  function MatchResult(name: string, e: string): Result<bool, MatchError> {
    match Candidates(e)
    case Err(error) => Err(Syntax(error))
    case Ok(candidates) => FirstHit(candidates, name)
  }

  method Match(name: string, e: string) returns (r: Result<bool, MatchError>)
    requires Returns(Expand(e))
    ensures r == MatchResult(name, e)
  {
    var parsed := ParseExp2UnixShellStyle(e);
    match parsed {
      case Err(error) =>
        return Err(Syntax(error));
      case Ok(candidates) =>
        assert candidates[0..] == candidates;
        for i := 0 to |candidates|
          invariant FirstHit(candidates, name) == FirstHit(candidates[i..], name)
        {
          assert candidates[i..][1..] == candidates[i + 1..];
          var re := FnmatchTranslate(candidates[i]);
          match ReadRegex(re) {
            case Err(error) =>
              return Err(Regex(error));
            case Ok(ts) =>
              if Matches(ts, name) {
                return Ok(true);
              }
          }
        }
        return Ok(false);
    }
  }

  lemma {:induction false} FirstHitDecides(candidates: seq<string>, name: string)
    requires forall c :: c in candidates ==> Compiles(c)
    ensures FirstHit(candidates, name) == Ok(exists c :: c in candidates && Fnmatch(c, name))
  {
    if candidates != [] {
      var first := candidates[0];
      assert first in candidates;
      TranslationFaithful(first);
      TokensMeanFnmatch(first, name);
      FirstHitDecides(candidates[1..], name);
      if c :| c in candidates && Fnmatch(c, name) && c != first {
        assert c in candidates[1..];
      }
    }
  }

  /** When every candidate compiles, Match decides the reference meaning; dropping duplicates changes nothing. */
  lemma MatchDecidesSelects(name: string, e: string)
    requires Expand(e).Ok? && forall c :: c in Expand(e).value ==> Compiles(c)
    ensures MatchResult(name, e) == Ok(Selects(e, name))
  {
    FirstHitDecides(Distinct(Expand(e).value), name);
  }

  /** If Match answers no, every candidate compiles and none matches. */
  lemma {:induction false} NoHit(candidates: seq<string>, name: string)
    requires FirstHit(candidates, name) == Ok(false)
    ensures forall c :: c in candidates ==> Compile(c).Ok? && !Matches(Compile(c).value, name)
  {
    if candidates != [] {
      NoHit(candidates[1..], name);
      assert forall c :: c in candidates <==> c == candidates[0] || c in candidates[1..];
    }
  }

  /** If Match answers yes, some compiled candidate matches. */
  lemma {:induction false} Hit(candidates: seq<string>, name: string) returns (c: string)
    requires FirstHit(candidates, name) == Ok(true)
    ensures c in candidates && Compile(c).Ok? && Matches(Compile(c).value, name)
  {
    if Matches(Compile(candidates[0]).value, name) {
      c := candidates[0];
    } else {
      c := Hit(candidates[1..], name);
    }
  }

  lemma {:induction false} FirstHitMeans(candidates: seq<string>, name: string)
    requires FirstHit(candidates, name).Ok? && forall c :: c in candidates ==> !HasName(c)
    ensures FirstHit(candidates, name).value <==> exists c :: c in candidates && Fnmatch(c, name)
  {
    if candidates != [] {
      var first := candidates[0];
      assert first in candidates;
      TranslationFaithful(first);
      TokensMeanFnmatch(first, name);
      assert forall c :: c in candidates <==> c == first || c in candidates[1..];
      if !Matches(Compile(first).value, name) {
        FirstHitMeans(candidates[1..], name);
      }
    }
  }

  /** No candidate of the expression holds a class name. */
  predicate Unnamed(e: string) {
    Expand(e).Ok? ==> forall c :: c in Expand(e).value ==> !HasName(c)
  }

  /** Whenever Match returns an answer for an expression without class names, it is the reference meaning. */
  lemma MatchMeansSelects(name: string, e: string)
    requires Unnamed(e) && MatchResult(name, e).Ok?
    ensures MatchResult(name, e).value <==> Selects(e, name)
  {
    FirstHitMeans(Distinct(Expand(e).value), name);
  }

  // ---------- ListMatch ----------

  function CompileAll(candidates: seq<string>): Result<seq<seq<Token>>, RegexError> {
    if candidates == [] then Ok([])
    else
      match Compile(candidates[0])
      case Err(error) => Err(error)
      case Ok(ts) => AfterCompiled([ts], CompileAll(candidates[1..]))
  }

  /** What compiling all candidates gives when some have been compiled and this is the result of the others. */
  function AfterCompiled(
      done: seq<seq<Token>>, r: Result<seq<seq<Token>>, RegexError>): Result<seq<seq<Token>>, RegexError> {
    match r
    case Err(error) => Err(error)
    case Ok(rest) => Ok(done + rest)
  }

  predicate AnyMatches(regexps: seq<seq<Token>>, name: string) {
    exists i :: 0 <= i < |regexps| && Matches(regexps[i], name)
  }

  /** The names some compiled candidate matches, in the order and with the repetitions of the list. */
  function Kept(names: seq<string>, regexps: seq<seq<Token>>): seq<string> {
    if names == [] then []
    else
      var last := |names| - 1;
      Kept(names[..last], regexps) + (if AnyMatches(regexps, names[last]) then [names[last]] else [])
  }

  function ListMatchResult(names: seq<string>, e: string): Result<seq<string>, MatchError> {
    match Candidates(e)
    case Err(error) => Err(Syntax(error))
    case Ok(candidates) =>
      match CompileAll(candidates)
      case Err(error) => Err(Regex(error))
      case Ok(regexps) => Ok(Kept(names, regexps))
  }

  lemma CompileStep(done: seq<seq<Token>>, candidates: seq<string>)
    requires candidates != []
    ensures AfterCompiled(done, CompileAll(candidates)) ==
      match Compile(candidates[0])
      case Err(error) => Err(error)
      case Ok(ts) => AfterCompiled(done + [ts], CompileAll(candidates[1..]))
  {
    if Compile(candidates[0]).Ok? && CompileAll(candidates[1..]).Ok? {
      Reassociate(done, [Compile(candidates[0]).value], CompileAll(candidates[1..]).value);
    }
  }

  /** The compile loop of ListMatch. */
  method CompileCandidates(candidates: seq<string>) returns (r: Result<seq<seq<Token>>, RegexError>)
    ensures r == CompileAll(candidates)
  {
    var regexps: seq<seq<Token>> := [];
    CompileStart(candidates);
    for i := 0 to |candidates|
      invariant AfterCompiled(regexps, CompileAll(candidates[i..])) == CompileAll(candidates)
    {
      SuffixAt(candidates, i, 0);
      SuffixOfSuffix(candidates, i, 1);
      CompileStep(regexps, candidates[i..]);
      var re := FnmatchTranslate(candidates[i]);
      match ReadRegex(re) {
        case Err(error) =>
          return Err(error);
        case Ok(ts) =>
          regexps := regexps + [ts];
      }
    }
    assert regexps + [] == regexps;
    return Ok(regexps);
  }

  lemma CompileStart(candidates: seq<string>)
    ensures AfterCompiled([], CompileAll(candidates[0..])) == CompileAll(candidates)
  {
    assert candidates[0..] == candidates;
    if CompileAll(candidates).Ok? {
      assert [] + CompileAll(candidates).value == CompileAll(candidates).value;
    }
  }

  /** The matching loops of ListMatch: collect the matching names in a set, then pick them from the list in order. */
  method PickMatching(names: seq<string>, regexps: seq<seq<Token>>) returns (result: seq<string>)
    ensures result == Kept(names, regexps)
  {
    var matched: set<string> := {};
    for i := 0 to |names|
      invariant forall n :: n in matched <==> n in names[..i] && AnyMatches(regexps, n)
    {
      assert names[..i + 1] == names[..i] + [names[i]];
      var k := 0;
      while k < |regexps| && !Matches(regexps[k], names[i])
        invariant k <= |regexps|
        invariant forall m :: 0 <= m < k ==> !Matches(regexps[m], names[i])
      {
        k := k + 1;
      }
      if k < |regexps| {
        matched := matched + {names[i]};
      }
    }
    assert names[..|names|] == names;
    result := [];
    for i := 0 to |names|
      invariant result == Kept(names[..i], regexps)
    {
      assert names[..i + 1][..i] == names[..i];
      assert names[i] in names;
      if names[i] in matched {
        result := result + [names[i]];
      }
    }
  }

  method ListMatch(names: seq<string>, e: string) returns (r: Result<seq<string>, MatchError>)
    requires Returns(Expand(e))
    ensures r == ListMatchResult(names, e)
  {
    var parsed := ParseExp2UnixShellStyle(e);
    match parsed {
      case Err(error) =>
        return Err(Syntax(error));
      case Ok(candidates) =>
        var compiled := CompileCandidates(candidates);
        match compiled {
          case Err(error) =>
            return Err(Regex(error));
          case Ok(regexps) =>
            var result := PickMatching(names, regexps);
            return Ok(result);
        }
    }
  }

  lemma {:induction false} CompileAllMembers(candidates: seq<string>)
    requires forall c :: c in candidates ==> Compiles(c)
    ensures CompileAll(candidates).Ok?
    ensures var regexps := CompileAll(candidates).value;
      |regexps| == |candidates| && forall i :: 0 <= i < |candidates| ==> Tokens(candidates[i]) == Ok(regexps[i])
  {
    if candidates != [] {
      assert candidates[0] in candidates;
      assert forall c :: c in candidates[1..] ==> c in candidates;
      CompileAllMembers(candidates[1..]);
      TranslationFaithful(candidates[0]);
    }
  }

  /** The sublist of names an expression selects. */
  ghost function Selected(names: seq<string>, e: string): seq<string> {
    if names == [] then []
    else
      var last := |names| - 1;
      Selected(names[..last], e) + (if Selects(e, names[last]) then [names[last]] else [])
  }

  /** Some compiled candidate matches the name exactly if the expression selects it. */
  lemma AnyMatchesIsSelects(e: string, regexps: seq<seq<Token>>, name: string)
    requires Expand(e).Ok? && |regexps| == |Distinct(Expand(e).value)|
    requires forall i :: 0 <= i < |regexps| ==> Tokens(Distinct(Expand(e).value)[i]) == Ok(regexps[i])
    ensures AnyMatches(regexps, name) <==> Selects(e, name)
  {
    var candidates := Distinct(Expand(e).value);
    forall i | 0 <= i < |candidates|
      ensures Matches(regexps[i], name) <==> Fnmatch(candidates[i], name)
    {
      TokensMeanFnmatch(candidates[i], name);
    }
    if c :| c in candidates && Fnmatch(c, name) {
      var i :| 0 <= i < |candidates| && candidates[i] == c;
      assert Matches(regexps[i], name);
    }
  }

  lemma {:induction false} KeptIsSelected(names: seq<string>, e: string)
    requires Expand(e).Ok? && forall c :: c in Expand(e).value ==> Compiles(c)
    ensures CompileAll(Distinct(Expand(e).value)).Ok?
    ensures Kept(names, CompileAll(Distinct(Expand(e).value)).value) == Selected(names, e)
  {
    CompileAllMembers(Distinct(Expand(e).value));
    if names != [] {
      var last := |names| - 1;
      KeptIsSelected(names[..last], e);
      AnyMatchesIsSelects(e, CompileAll(Distinct(Expand(e).value)).value, names[last]);
    }
  }

  /** When every candidate compiles, ListMatch is the order-preserving filter of the reference meaning. */
  lemma ListMatchIsSelected(names: seq<string>, e: string)
    requires Expand(e).Ok? && forall c :: c in Expand(e).value ==> Compiles(c)
    ensures ListMatchResult(names, e) == Ok(Selected(names, e))
  {
    KeptIsSelected(names, e);
  }
}
