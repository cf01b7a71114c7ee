/** render/ginclude.go: recursive expansion of include directives, bounded in depth and guarded against cycles. */
module Ginclude {
  import opened Text

  /** Template content as the directive scanner divides it: literal text and includes, in order. */
  datatype Segment = Literal(text: string) | Include(name: string)

  type Content = seq<Segment>

  /** A deterministic resolver; None stands for its error. */
  type Resolver = string -> Option<Content>

  datatype ExpandError = DepthExceeded | Circular(name: string) | Unresolved(name: string)

  // ---------- The code ----------

  /** The visited map, shared by all levels of the recursion. */
  class Visited {
    var names: set<string>

    constructor ()
      ensures names == {}
    {
      names := {};
    }
  }

  /** expandGinclude as a function: the content from here on, with the names being expanded above it. */
  function Expansion(content: Content, resolver: Resolver, maxDepth: int, depth: nat, visited: set<string>):
    Result<string, ExpandError>
    decreases maxDepth - depth, 1, 0
  {
    if depth > maxDepth then Err(DepthExceeded) else ExpandSegments(content, resolver, maxDepth, depth, visited)
  }

  function ExpandSegments(content: Content, resolver: Resolver, maxDepth: int, depth: nat, visited: set<string>):
    Result<string, ExpandError>
    requires depth <= maxDepth
    decreases maxDepth - depth, 0, |content|
  {
    if content == [] then Ok("")
    else
      match ExpandSegment(content[0], resolver, maxDepth, depth, visited)
      case Err(error) => Err(error)
      case Ok(text) => Prepend(text, ExpandSegments(content[1..], resolver, maxDepth, depth, visited))
  }

  function Prepend(text: string, r: Result<string, ExpandError>): Result<string, ExpandError> {
    match r
    case Err(error) => Err(error)
    case Ok(rest) => Ok(text + rest)
  }

  function ExpandSegment(segment: Segment, resolver: Resolver, maxDepth: int, depth: nat, visited: set<string>):
    Result<string, ExpandError>
    requires depth <= maxDepth
    decreases maxDepth - depth, 0, 0
  {
    match segment
    case Literal(text) => Ok(text)
    case Include(name) =>
      if name in visited then Err(Circular(name))
      else
        match resolver(name)
        case None => Err(Unresolved(name))
        case Some(body) => Expansion(body, resolver, maxDepth, depth + 1, visited + {name})
  }

  /** expandGinclude: the loop over the directives, with the shared visited map. */
  method ExpandGincludeAt(content: Content, resolver: Resolver, maxDepth: int, currentDepth: nat, visited: Visited)
    returns (r: Result<string, ExpandError>)
    modifies visited
    ensures r == Expansion(content, resolver, maxDepth, currentDepth, old(visited.names))
    ensures r.Ok? ==> visited.names == old(visited.names)
    decreases maxDepth - currentDepth
  {
    if currentDepth > maxDepth {
      return Err(DepthExceeded);
    }
    var result := "";
    ghost var before, all := visited.names, Expansion(content, resolver, maxDepth, currentDepth, visited.names);
    ExpandOntoStart(content, resolver, maxDepth, currentDepth, visited.names);
    assert content[0..] == content;
    for i := 0 to |content|
      invariant visited.names == before
      invariant ExpandOnto(result, content[i..], resolver, maxDepth, currentDepth, before) == all
    {
      match content[i] {
        case Literal(text) =>
          result := result + text;
        case Include(name) =>
          if name in visited.names {
            return Err(Circular(name));
          }
          match resolver(name) {
            case None =>
              return Err(Unresolved(name));
            case Some(body) =>
              visited.names := visited.names + {name};
              var expanded := ExpandGincludeAt(body, resolver, maxDepth, currentDepth + 1, visited);
              match expanded {
                case Err(error) =>
                  return Err(error);
                case Ok(text) =>
                  visited.names := visited.names - {name};
                  result := result + text;
              }
          }
      }
    }
    return Ok(result);
  }

  /** What the loop returns when result has been written and rest is still to be expanded. */
  ghost function ExpandOnto(
      result: string, rest: Content, resolver: Resolver, maxDepth: int, depth: nat, visited: set<string>):
    Result<string, ExpandError>
    requires depth <= maxDepth
    decreases |rest|
  {
    if rest == [] then Ok(result)
    else
      match ExpandSegment(rest[0], resolver, maxDepth, depth, visited)
      case Err(error) => Err(error)
      case Ok(text) => ExpandOnto(result + text, rest[1..], resolver, maxDepth, depth, visited)
  }

  lemma {:induction false} ExpandOntoPrepends(
      result: string, rest: Content, resolver: Resolver, maxDepth: int, depth: nat, visited: set<string>)
    requires depth <= maxDepth
    ensures ExpandOnto(result, rest, resolver, maxDepth, depth, visited) ==
      Prepend(result, ExpandSegments(rest, resolver, maxDepth, depth, visited))
    decreases |rest|
  {
    if rest == [] {
      assert result + "" == result;
    } else {
      var head := ExpandSegment(rest[0], resolver, maxDepth, depth, visited);
      if head.Ok? {
        ExpandOntoPrepends(result + head.value, rest[1..], resolver, maxDepth, depth, visited);
        var tail := ExpandSegments(rest[1..], resolver, maxDepth, depth, visited);
        if tail.Ok? {
          assert (result + head.value) + tail.value == result + (head.value + tail.value);
        }
      }
    }
  }

  lemma ExpandOntoStart(content: Content, resolver: Resolver, maxDepth: int, depth: nat, visited: set<string>)
    requires depth <= maxDepth
    ensures ExpandOnto("", content, resolver, maxDepth, depth, visited) ==
      Expansion(content, resolver, maxDepth, depth, visited)
  {
    ExpandOntoPrepends("", content, resolver, maxDepth, depth, visited);
    var all := ExpandSegments(content, resolver, maxDepth, depth, visited);
    if all.Ok? {
      assert "" + all.value == all.value;
    }
  }

  /** ExpandGinclude: start at depth zero with nothing visited. */
  function ExpandAll(content: Content, resolver: Resolver, maxDepth: int): Result<string, ExpandError> {
    Expansion(content, resolver, maxDepth, 0, {})
  }

  method ExpandGinclude(content: Content, resolver: Resolver, maxDepth: int) returns (r: Result<string, ExpandError>)
    ensures r == ExpandAll(content, resolver, maxDepth)
  {
    var visited := new Visited();
    r := ExpandGincludeAt(content, resolver, maxDepth, 0, visited);
  }

  // ---------- Full inlining ----------

  /** A finite inlining of a content: every include is replaced by an inlining of its template. */
  datatype Tree = Done | Text(text: string, rest: Tree) | Inlined(name: string, body: Tree, rest: Tree)

  predicate Derives(t: Tree, content: Content, resolver: Resolver) {
    match t
    case Done => content == []
    case Text(text, rest) => content != [] && content[0] == Literal(text) && Derives(rest, content[1..], resolver)
    case Inlined(name, body, rest) =>
      content != [] && content[0] == Include(name) && resolver(name).Some?
      && Derives(body, resolver(name).value, resolver) && Derives(rest, content[1..], resolver)
  }

  /** The inlined text: literals in order, each include replaced by its template's. */
  function Yield(t: Tree): string {
    match t
    case Done => ""
    case Text(text, rest) => text + Yield(rest)
    case Inlined(_, body, rest) => Yield(body) + Yield(rest)
  }

  /** The longest chain of nested includes. */
  function Height(t: Tree): nat {
    match t
    case Done => 0
    case Text(_, rest) => Height(rest)
    case Inlined(_, body, rest) => if Height(rest) > Height(body) then Height(rest) else 1 + Height(body)
  }

  function Size(t: Tree): nat {
    match t
    case Done => 0
    case Text(_, rest) => 1 + Size(rest)
    case Inlined(_, body, rest) => 1 + Size(body) + Size(rest)
  }

  /** A content has at most one full inlining. */
  lemma {:induction false} DerivationUnique(t: Tree, u: Tree, content: Content, resolver: Resolver)
    requires Derives(t, content, resolver) && Derives(u, content, resolver)
    ensures t == u
  {
    match t
    case Done =>
    case Text(_, rest) => DerivationUnique(rest, u.rest, content[1..], resolver);
    case Inlined(name, body, rest) =>
      DerivationUnique(body, u.body, resolver(name).value, resolver);
      DerivationUnique(rest, u.rest, content[1..], resolver);
  }

  /** Every name being expanded resolves to a content whose inlining is at least as large as t. */
  ghost predicate AboveTree(visited: set<string>, t: Tree, resolver: Resolver) {
    forall v, u :: v in visited && resolver(v).Some? && Derives(u, resolver(v).value, resolver) ==> Size(u) >= Size(t)
  }

  lemma AboveRest(visited: set<string>, t: Tree, rest: Tree, resolver: Resolver)
    requires AboveTree(visited, t, resolver) && Size(rest) <= Size(t)
    ensures AboveTree(visited, rest, resolver)
  {}

  /** A name whose template is inlined inside t is not being expanded above t. */
  lemma NotAbove(visited: set<string>, t: Tree, name: string, body: Tree, resolver: Resolver)
    requires AboveTree(visited, t, resolver) && Size(body) < Size(t)
    requires resolver(name).Some? && Derives(body, resolver(name).value, resolver)
    ensures name !in visited && AboveTree(visited + {name}, body, resolver)
  {
    forall v, u | v in visited + {name} && resolver(v).Some? && Derives(u, resolver(v).value, resolver)
      ensures Size(u) >= Size(body)
    {
      if v == name {
        DerivationUnique(u, body, resolver(name).value, resolver);
      }
    }
  }

  /** The expansion of a content with an inlining of bounded height succeeds: the visited check is not in the way. */
  lemma {:induction false} InliningExpands(
      t: Tree, content: Content, resolver: Resolver, maxDepth: int, depth: nat, visited: set<string>)
    requires Derives(t, content, resolver) && depth + Height(t) <= maxDepth && AboveTree(visited, t, resolver)
    ensures ExpandSegments(content, resolver, maxDepth, depth, visited) == Ok(Yield(t))
    decreases t
  {
    match t
    case Done =>
    case Text(text, rest) =>
      AboveRest(visited, t, rest, resolver);
      InliningExpands(rest, content[1..], resolver, maxDepth, depth, visited);
    case Inlined(name, body, rest) =>
      AboveRest(visited, t, rest, resolver);
      InliningExpands(rest, content[1..], resolver, maxDepth, depth, visited);
      NotAbove(visited, t, name, body, resolver);
      InliningExpands(body, resolver(name).value, resolver, maxDepth, depth + 1, visited + {name});
      assert ExpandSegment(content[0], resolver, maxDepth, depth, visited) == Ok(Yield(body));
  }

  lemma IncludeExpanded(name: string, resolver: Resolver, maxDepth: int, depth: nat, visited: set<string>)
    requires depth <= maxDepth && ExpandSegment(Include(name), resolver, maxDepth, depth, visited).Ok?
    ensures resolver(name).Some? && depth + 1 <= maxDepth
    ensures ExpandSegment(Include(name), resolver, maxDepth, depth, visited) ==
      ExpandSegments(resolver(name).value, resolver, maxDepth, depth + 1, visited + {name})
  {}

  /** A successful expansion is a full inlining. */
  lemma {:induction false} ExpansionInlines(
      content: Content, resolver: Resolver, maxDepth: int, depth: nat, visited: set<string>) returns (t: Tree)
    requires depth <= maxDepth && ExpandSegments(content, resolver, maxDepth, depth, visited).Ok?
    ensures Derives(t, content, resolver) && depth + Height(t) <= maxDepth
    ensures Yield(t) == ExpandSegments(content, resolver, maxDepth, depth, visited).value
    decreases maxDepth - depth, |content|
  {
    if content == [] {
      t := Done;
    } else {
      var rest := ExpansionInlines(content[1..], resolver, maxDepth, depth, visited);
      match content[0] {
        case Literal(text) =>
          t := Text(text, rest);
        case Include(name) =>
          IncludeExpanded(name, resolver, maxDepth, depth, visited);
          var body := ExpansionInlines(resolver(name).value, resolver, maxDepth, depth + 1, visited + {name});
          t := Inlined(name, body, rest);
      }
    }
  }

  ghost predicate InlinesTo(content: Content, resolver: Resolver, height: int, text: string) {
    exists t :: Derives(t, content, resolver) && Height(t) <= height && Yield(t) == text
  }

  /** Expansion succeeds with a text exactly when the content has a full inlining to it within the depth bound. */
  lemma ExpansionIsInlining(content: Content, resolver: Resolver, maxDepth: int, text: string)
    ensures ExpandAll(content, resolver, maxDepth) == Ok(text) <==> InlinesTo(content, resolver, maxDepth, text)
  {
    if ExpandAll(content, resolver, maxDepth) == Ok(text) {
      var t := ExpansionInlines(content, resolver, maxDepth, 0, {});
    }
    if t :| Derives(t, content, resolver) && Height(t) <= maxDepth && Yield(t) == text {
      InliningExpands(t, content, resolver, maxDepth, 0, {});
    }
  }

  /** Any larger bound gives the same result. */
  lemma LargerDepthSame(content: Content, resolver: Resolver, maxDepth: int, larger: int)
    requires ExpandAll(content, resolver, maxDepth).Ok? && maxDepth <= larger
    ensures ExpandAll(content, resolver, larger) == ExpandAll(content, resolver, maxDepth)
  {
    var text := ExpandAll(content, resolver, maxDepth).value;
    ExpansionIsInlining(content, resolver, maxDepth, text);
    var t :| Derives(t, content, resolver) && Height(t) <= maxDepth && Yield(t) == text;
    assert InlinesTo(content, resolver, larger, text);
    ExpansionIsInlining(content, resolver, larger, text);
  }

  // ---------- Chains of includes ----------

  /** Names that include one another, starting from the content. */
  predicate IsChain(content: Content, chain: seq<string>, resolver: Resolver)
    decreases |chain|
  {
    chain == [] ||
    (Include(chain[0]) in content &&
     (|chain| > 1 ==> resolver(chain[0]).Some? && IsChain(resolver(chain[0]).value, chain[1..], resolver)))
  }

  predicate ChainOk(chain: seq<string>, maxDepth: int, resolver: Resolver) {
    |chain| <= maxDepth && (chain != [] ==> resolver(chain[|chain| - 1]).Some?)
  }

  ghost predicate AllChainsOk(content: Content, maxDepth: int, resolver: Resolver) {
    forall chain :: IsChain(content, chain, resolver) ==> ChainOk(chain, maxDepth, resolver)
  }

  lemma {:induction false} ChainInTree(t: Tree, content: Content, chain: seq<string>, resolver: Resolver)
    requires Derives(t, content, resolver) && IsChain(content, chain, resolver) && chain != []
    ensures ChainOk(chain, Height(t), resolver)
    decreases t
  {
    match t
    case Done =>
    case Text(_, rest) =>
      assert Include(chain[0]) in content[1..];
      ChainInTree(rest, content[1..], chain, resolver);
    case Inlined(name, body, rest) =>
      if chain[0] != name {
        assert Include(chain[0]) in content[1..];
        ChainInTree(rest, content[1..], chain, resolver);
      } else if |chain| > 1 {
        ChainInTree(body, resolver(name).value, chain[1..], resolver);
      }
  }

  lemma ChainsOfRest(content: Content, maxDepth: int, resolver: Resolver)
    requires content != [] && AllChainsOk(content, maxDepth, resolver)
    ensures AllChainsOk(content[1..], maxDepth, resolver)
  {
    forall chain | IsChain(content[1..], chain, resolver)
      ensures ChainOk(chain, maxDepth, resolver)
    {
      assert IsChain(content, chain, resolver);
    }
  }

  lemma ChainsOfBody(content: Content, name: string, maxDepth: int, resolver: Resolver)
    requires Include(name) in content && AllChainsOk(content, maxDepth, resolver)
    ensures maxDepth >= 1 && resolver(name).Some? && AllChainsOk(resolver(name).value, maxDepth - 1, resolver)
  {
    assert IsChain(content, [name], resolver);
    assert ChainOk([name], maxDepth, resolver);
    forall chain | IsChain(resolver(name).value, chain, resolver)
      ensures ChainOk(chain, maxDepth - 1, resolver)
    {
      var longer := [name] + chain;
      assert longer[1..] == chain;
      assert IsChain(content, longer, resolver);
      assert ChainOk(longer, maxDepth, resolver);
    }
  }

  /** When all chains are short enough and resolve, the content has a full inlining. */
  lemma {:induction false} ChainsInline(content: Content, maxDepth: nat, resolver: Resolver) returns (t: Tree)
    requires AllChainsOk(content, maxDepth, resolver)
    ensures Derives(t, content, resolver) && Height(t) <= maxDepth
    decreases maxDepth, |content|
  {
    if content == [] {
      t := Done;
    } else {
      ChainsOfRest(content, maxDepth, resolver);
      var rest := ChainsInline(content[1..], maxDepth, resolver);
      match content[0] {
        case Literal(text) =>
          t := Text(text, rest);
        case Include(name) =>
          ChainsOfBody(content, name, maxDepth, resolver);
          var body := ChainsInline(resolver(name).value, maxDepth - 1, resolver);
          t := Inlined(name, body, rest);
      }
    }
  }

  /**
   * Expansion, which always terminates, succeeds exactly when every chain of includes has at most maxDepth names and
   * all of them resolve. Cycles give chains of every length, so the visited check rejects nothing else.
   */
  lemma SucceedsIffChainsOk(content: Content, resolver: Resolver, maxDepth: int)
    ensures ExpandAll(content, resolver, maxDepth).Ok? <==> AllChainsOk(content, maxDepth, resolver)
  {
    if ExpandAll(content, resolver, maxDepth).Ok? {
      var t := ExpansionInlines(content, resolver, maxDepth, 0, {});
      forall chain | IsChain(content, chain, resolver)
        ensures ChainOk(chain, maxDepth, resolver)
      {
        if chain != [] {
          ChainInTree(t, content, chain, resolver);
        }
      }
    }
    if AllChainsOk(content, maxDepth, resolver) {
      assert IsChain(content, [], resolver);
      assert ChainOk([], maxDepth, resolver);
      var t := ChainsInline(content, maxDepth, resolver);
      InliningExpands(t, content, resolver, maxDepth, 0, {});
    }
  }

  // ---------- What the errors say ----------

  predicate AllDifferent(chain: seq<string>, visited: set<string>) {
    && (forall i, j :: 0 <= i < j < |chain| ==> chain[i] != chain[j])
    && forall name :: name in chain ==> name !in visited
  }

  /** The chain shows that the error is right: a name that does not resolve, that recurs, or that lies too deep. */
  predicate Shows(error: ExpandError, chain: seq<string>, visited: set<string>, room: int, resolver: Resolver) {
    match error
    case Unresolved(name) => chain != [] && chain[|chain| - 1] == name && resolver(name).None?
    case Circular(name) =>
      chain != [] && chain[|chain| - 1] == name && (name in visited || name in chain[..|chain| - 1])
    case DepthExceeded => |chain| > room && AllDifferent(chain, visited)
  }

  lemma ShowsAbove(
      error: ExpandError, name: string, chain: seq<string>, visited: set<string>, room: int, resolver: Resolver)
    requires Shows(error, chain, visited + {name}, room - 1, resolver) && name !in visited
    ensures Shows(error, [name] + chain, visited, room, resolver)
  {
    var longer := [name] + chain;
    assert forall x :: x in longer <==> x == name || x in chain;
    if error.Circular? {
      assert longer[..|longer| - 1] == [name] + chain[..|chain| - 1];
    }
  }

  /** Every error is about a chain of includes in the content. */
  lemma {:induction false} ErrorChain(
      content: Content, resolver: Resolver, maxDepth: int, depth: nat, visited: set<string>)
    returns (chain: seq<string>)
    requires Expansion(content, resolver, maxDepth, depth, visited).Err?
    ensures IsChain(content, chain, resolver)
    ensures Shows(Expansion(content, resolver, maxDepth, depth, visited).error, chain, visited, maxDepth - depth,
                  resolver)
    decreases maxDepth - depth, |content|
  {
    if depth > maxDepth {
      chain := [];
    } else if ExpandSegment(content[0], resolver, maxDepth, depth, visited).Ok? {
      chain := ErrorChain(content[1..], resolver, maxDepth, depth, visited);
    } else {
      var name := content[0].name;
      if name in visited || resolver(name).None? {
        chain := [name];
      } else {
        var below := ErrorChain(resolver(name).value, resolver, maxDepth, depth + 1, visited + {name});
        chain := [name] + below;
        assert chain[1..] == below;
        ShowsAbove(ExpandSegment(content[0], resolver, maxDepth, depth, visited).error, name, below, visited,
                   maxDepth - depth, resolver);
      }
    }
  }

  /**
   * A circular reference is reported only for a name that includes itself, through others or directly; an unresolved
   * name only if the content leads to it; and the depth only for a chain of more than maxDepth different names.
   */
  lemma ErrorsAreRight(content: Content, resolver: Resolver, maxDepth: int)
    requires ExpandAll(content, resolver, maxDepth).Err?
    ensures exists chain ::
      IsChain(content, chain, resolver)
      && Shows(ExpandAll(content, resolver, maxDepth).error, chain, {}, maxDepth, resolver)
  {
    var chain := ErrorChain(content, resolver, maxDepth, 0, {});
  }

  // ---------- The depth bound alone ----------

  /** Expansion without the visited check. */
  function DepthOnly(content: Content, resolver: Resolver, budget: int): Option<string>
    decreases budget, |content|
  {
    if budget < 0 then None
    else if content == [] then Some("")
    else
      match content[0]
      case Literal(text) => Joined(Some(text), DepthOnly(content[1..], resolver, budget))
      case Include(name) =>
        match resolver(name)
        case None => None
        case Some(body) =>
          Joined(DepthOnly(body, resolver, budget - 1), DepthOnly(content[1..], resolver, budget))
  }

  function Joined(a: Option<string>, b: Option<string>): Option<string> {
    if a.Some? && b.Some? then Some(a.value + b.value) else None
  }

  lemma {:induction false} DepthOnlyInlines(content: Content, resolver: Resolver, budget: int) returns (t: Tree)
    requires DepthOnly(content, resolver, budget).Some?
    ensures Derives(t, content, resolver) && Height(t) <= budget
    ensures Yield(t) == DepthOnly(content, resolver, budget).value
    decreases budget, |content|
  {
    if content == [] {
      t := Done;
    } else {
      var rest := DepthOnlyInlines(content[1..], resolver, budget);
      match content[0] {
        case Literal(text) =>
          t := Text(text, rest);
        case Include(name) =>
          var body := DepthOnlyInlines(resolver(name).value, resolver, budget - 1);
          t := Inlined(name, body, rest);
      }
    }
  }

  lemma {:induction false} InliningWithinDepth(t: Tree, content: Content, resolver: Resolver, budget: int)
    requires Derives(t, content, resolver) && Height(t) <= budget
    ensures DepthOnly(content, resolver, budget) == Some(Yield(t))
    decreases t
  {
    match t
    case Done =>
    case Text(_, rest) => InliningWithinDepth(rest, content[1..], resolver, budget);
    case Inlined(name, body, rest) =>
      InliningWithinDepth(body, resolver(name).value, resolver, budget - 1);
      InliningWithinDepth(rest, content[1..], resolver, budget);
  }

  /** The visited check never changes the outcome: what the depth bound alone accepts is accepted with the same text. */
  lemma VisitedNeverRejects(content: Content, resolver: Resolver, maxDepth: int, text: string)
    ensures ExpandAll(content, resolver, maxDepth) == Ok(text) <==> DepthOnly(content, resolver, maxDepth) == Some(text)
  {
    ExpansionIsInlining(content, resolver, maxDepth, text);
    if DepthOnly(content, resolver, maxDepth) == Some(text) {
      var t := DepthOnlyInlines(content, resolver, maxDepth);
    }
    if t :| Derives(t, content, resolver) && Height(t) <= maxDepth && Yield(t) == text {
      InliningWithinDepth(t, content, resolver, maxDepth);
    }
  }
}
