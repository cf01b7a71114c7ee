/** pkg/tools/trie_node.go, and the pairwise scan of pkg/tools/tools.go it must agree with. */
module PathTrie {
  import opened Text

  class TrieNode {
    var children: map<string, TrieNode>
    var isEnd: bool

    constructor ()
      ensures children == map[] && !isEnd
    {
      children, isEnd := map[], false;
    }
  }

  /** The nodes of a trie by their paths from the root. */
  type Nodes = map<seq<string>, TrieNode>

  /** p leads towards a stored path, or towards the one being inserted. */
  ghost predicate Leads(p: seq<string>, paths: set<seq<string>>, tip: seq<string>) {
    p <= tip || exists q :: q in paths && p <= q
  }

  /**
   * The heap holds exactly the stored paths and the nodes down to tip: node by node, the children are the extensions
   * that lead somewhere, and the end flags mark the stored paths.
   */
  ghost predicate Holds(root: TrieNode, nodes: Nodes, paths: set<seq<string>>, tip: seq<string>)
    reads nodes.Values
  {
    && [] in nodes && nodes[[]] == root && [] !in paths
    && (forall p :: p in nodes <==> Leads(p, paths, tip))
    && Linked(nodes)
    && (forall p :: p in nodes ==> (nodes[p].isEnd <==> p in paths))
  }

  /** Each node is that of one path, and its children are the nodes of the paths one component longer. */
  ghost predicate Linked(nodes: Nodes)
    reads nodes.Values`children
  {
    && (forall p, q :: p in nodes && q in nodes && nodes[p] == nodes[q] ==> p == q)
    && (forall p, c :: p in nodes ==> (c in nodes[p].children <==> p + [c] in nodes))
    && (forall p, c :: p in nodes && c in nodes[p].children ==> nodes[p].children[c] == nodes[p + [c]])
  }

  ghost predicate TrieOf(root: TrieNode, nodes: Nodes, paths: set<seq<string>>)
    reads nodes.Values
  {
    Holds(root, nodes, paths, [])
  }

  /** A stored path lies on the way to parts, or parts lies on the way to it. */
  ghost predicate PrefixConflict(parts: seq<string>, paths: set<seq<string>>) {
    exists q :: q in paths && (q <= parts || parts <= q)
  }

  lemma LeadsSnoc(p: seq<string>, paths: set<seq<string>>, tip: seq<string>, part: string)
    ensures Leads(p, paths, tip + [part]) <==> Leads(p, paths, tip) || p == tip + [part]
  {
    if p <= tip + [part] && p != tip + [part] {
      assert p <= tip;
    }
  }

  lemma SnocInjective(p: seq<string>, c: string, q: seq<string>, d: string)
    ensures p + [c] == q + [d] <==> p == q && c == d
  {
    if p + [c] == q + [d] {
      assert (p + [c])[..|p|] == p && (q + [d])[..|q|] == q;
      assert (p + [c])[|p|] == c && (q + [d])[|q|] == d;
    }
  }

  /** A path that does not lead anywhere has no extension that does. */
  lemma NoExtension(p: seq<string>, c: string, paths: set<seq<string>>, tip: seq<string>)
    requires Leads(p + [c], paths, tip)
    ensures Leads(p, paths, tip)
  {
    assert p <= p + [c];
    if !(p + [c] <= tip) {
      var q :| q in paths && p + [c] <= q;
      assert p <= q;
    }
  }

  /** The body of insertPath's loop when the child is missing. */
  method AddChild(current: TrieNode, part: string,
      ghost root: TrieNode, ghost nodes: Nodes, ghost paths: set<seq<string>>, ghost tip: seq<string>)
    returns (ghost extended: Nodes)
    requires Holds(root, nodes, paths, tip) && tip in nodes && nodes[tip] == current
    requires part !in current.children
    modifies current
    ensures tip + [part] in extended && fresh(extended[tip + [part]])
    ensures extended == nodes[tip + [part] := extended[tip + [part]]]
    ensures part in current.children && current.children[part] == extended[tip + [part]]
    ensures Holds(root, extended, paths, tip + [part])
  {
    ghost var path := tip + [part];
    assert path !in nodes;
    assert path !in paths by {
      assert path <= path;
      assert path in paths ==> Leads(path, paths, tip);
    }
    var child := new TrieNode();
    current.children := current.children[part := child];
    extended := nodes[path := child];
    forall p
      ensures p in extended <==> Leads(p, paths, path)
    {
      LeadsSnoc(p, paths, tip, part);
    }
    forall p, c | p in extended
      ensures c in extended[p].children <==> p + [c] in extended
      ensures c in extended[p].children ==> extended[p].children[c] == extended[p + [c]]
    {
      SnocInjective(p, c, tip, part);
      if p == path && p + [c] in nodes {
        NoExtension(p, c, paths, tip);
      }
    }
  }

  /** The body of insertPath's loop when the child exists: the nodes already lead further down. */
  lemma ExistingChild(root: TrieNode, nodes: Nodes, paths: set<seq<string>>, tip: seq<string>, part: string)
    requires Holds(root, nodes, paths, tip) && tip in nodes && part in nodes[tip].children
    ensures Holds(root, nodes, paths, tip + [part]) && nodes[tip].children[part] == nodes[tip + [part]]
  {
    forall p
      ensures p in nodes <==> Leads(p, paths, tip + [part])
    {
      LeadsSnoc(p, paths, tip, part);
    }
  }

  lemma LeadsMarked(p: seq<string>, paths: set<seq<string>>, parts: seq<string>)
    ensures Leads(p, paths, parts) <==> Leads(p, paths + {parts}, [])
  {
    assert p <= [] ==> p <= parts;
    if q :| q in paths && p <= q {
      assert q in paths + {parts};
    }
    if p <= parts {
      assert parts in paths + {parts};
    }
  }

  /** The end of insertPath's walk: the last node becomes the end of a path. */
  method MarkEnd(current: TrieNode,
      ghost root: TrieNode, ghost nodes: Nodes, ghost paths: set<seq<string>>, ghost parts: seq<string>)
    requires Holds(root, nodes, paths, parts) && parts in nodes && nodes[parts] == current && parts != []
    modifies current`isEnd
    ensures TrieOf(root, nodes, paths + {parts})
  {
    DomainMarked(nodes, paths, parts);
    current.isEnd := true;
    assert Linked(nodes);
  }

  /** The last node has children exactly if longer paths are stored. */
  lemma ChildrenTell(current: TrieNode, root: TrieNode, nodes: Nodes, paths: set<seq<string>>, parts: seq<string>)
    requires Holds(root, nodes, paths, parts) && parts in nodes && nodes[parts] == current
    ensures |current.children| > 0 <==> exists q :: q in paths && parts < q
  {
    ChildrenMeanLonger(nodes, paths, parts, current.children.Keys);
  }

  lemma DomainMarked(nodes: Nodes, paths: set<seq<string>>, parts: seq<string>)
    requires forall p :: p in nodes <==> Leads(p, paths, parts)
    ensures forall p :: p in nodes <==> Leads(p, paths + {parts}, [])
  {
    forall p
      ensures p in nodes <==> Leads(p, paths + {parts}, [])
    {
      LeadsMarked(p, paths, parts);
    }
  }

  lemma ChildrenMeanLonger(nodes: Nodes, paths: set<seq<string>>, parts: seq<string>, keys: set<string>)
    requires forall c :: c in keys <==> parts + [c] in nodes
    requires forall p :: p in nodes <==> Leads(p, paths, parts)
    ensures |keys| > 0 <==> exists q :: q in paths && parts < q
  {
    if |keys| > 0 {
      var c :| c in keys;
      assert parts + [c] in nodes;
      var q :| q in paths && parts + [c] <= q;
      assert parts < q;
    }
    if q :| q in paths && parts < q {
      var c := q[|parts|];
      assert parts + [c] <= q;
      assert Leads(parts + [c], paths, parts);
      assert c in keys;
    }
  }

  /** The first half of insertPath's loop body: step to the child for part, which is created if it is missing. */
  method Descend(current: TrieNode, part: string,
      ghost root: TrieNode, ghost nodes: Nodes, ghost paths: set<seq<string>>, ghost tip: seq<string>)
    returns (child: TrieNode, ghost extended: Nodes)
    requires Holds(root, nodes, paths, tip) && tip in nodes && nodes[tip] == current
    modifies current
    ensures Holds(root, extended, paths, tip + [part])
    ensures tip + [part] in extended && extended[tip + [part]] == child
    ensures forall n :: n in extended.Values ==> n in nodes.Values || fresh(n)
  {
    if part !in current.children {
      extended := AddChild(current, part, root, nodes, paths, tip);
    } else {
      extended := nodes;
      ExistingChild(root, extended, paths, tip, part);
    }
    child := current.children[part];
  }

  /** Some stored path is a prefix of p. */
  ghost predicate BelowStored(p: seq<string>, paths: set<seq<string>>) {
    exists q :: q in paths && q <= p
  }

  lemma BelowSnoc(p: seq<string>, part: string, paths: set<seq<string>>)
    ensures BelowStored(p + [part], paths) <==> BelowStored(p, paths) || p + [part] in paths
  {
    forall q | q in paths
      ensures q <= p + [part] <==> q <= p || q == p + [part]
    {
      LeadsSnoc(q, {}, p, part);
    }
  }

  lemma ConflictMeans(parts: seq<string>, paths: set<seq<string>>)
    ensures PrefixConflict(parts, paths) <==>
      BelowStored(parts, paths) || exists q :: q in paths && parts < q
  {
    if q :| q in paths && parts <= q && !(parts < q) {
      assert q == parts;
    }
  }

  /** The loop of insertPath: walk down along parts, noting stored paths that end on the way. */
  method Walk(root: TrieNode, parts: seq<string>, ghost nodes: Nodes, ghost paths: set<seq<string>>)
    returns (current: TrieNode, conflict: bool, ghost extended: Nodes)
    requires TrieOf(root, nodes, paths)
    modifies nodes.Values
    ensures Holds(root, extended, paths, parts)
    ensures forall n :: n in extended.Values ==> n in nodes.Values || fresh(n)
    ensures parts in extended && extended[parts] == current
    ensures conflict <==> BelowStored(parts, paths)
  {
    current := root;
    conflict := false;
    extended := nodes;
    for i := 0 to |parts|
      invariant Holds(root, extended, paths, parts[..i])
      invariant forall n :: n in extended.Values ==> n in nodes.Values || fresh(n)
      invariant parts[..i] in extended && extended[parts[..i]] == current
      invariant conflict <==> BelowStored(parts[..i], paths)
    {
      TakeSnoc(parts, i);
      current, extended := Descend(current, parts[i], root, extended, paths, parts[..i]);
      if current.isEnd {
        conflict := true;
      }
      BelowSnoc(parts[..i], parts[i], paths);
    }
    assert parts[..|parts|] == parts;
  }

  /**
   * insertPath. The ghost parameters carry what the trie holds before and after; the report is true exactly when the
   * path equals a stored path, lies below one, or lies above one.
   */
  method InsertPath(root: TrieNode, path: string, ghost nodes: Nodes, ghost paths: set<seq<string>>)
    returns (conflict: bool, ghost extended: Nodes)
    requires TrieOf(root, nodes, paths)
    modifies nodes.Values
    ensures TrieOf(root, extended, paths + {Split(path, '/')})
    ensures forall n :: n in extended.Values ==> n in nodes.Values || fresh(n)
    ensures conflict <==> PrefixConflict(Split(path, '/'), paths)
  {
    var parts := Split(path, '/');
    var current;
    current, conflict, extended := Walk(root, parts, nodes, paths);
    ChildrenTell(current, root, extended, paths, parts);
    MarkEnd(current, root, extended, paths, parts);
    if |current.children| > 0 {
      conflict := true;
    }
    ConflictMeans(parts, paths);
  }

  // ---------- Checking a whole list ----------

  /** The component sequences of a list of paths. */
  ghost function Stored(existing: seq<string>): set<seq<string>> {
    set i | 0 <= i < |existing| :: Split(existing[i], '/')
  }

  /** The path at position i conflicts with one before it. */
  ghost predicate ConflictAt(existing: seq<string>, i: nat)
    requires i < |existing|
  {
    PrefixConflict(Split(existing[i], '/'), Stored(existing[..i]))
  }

  /** The final counter, when nums have been counted before position i. */
  ghost function ConflictCount(existing: seq<string>, i: nat, nums: nat): nat
    requires i <= |existing|
    decreases |existing| - i
  {
    if i == |existing| then nums
    else ConflictCount(existing, i + 1, if ConflictAt(existing, i) then Increment(nums) else nums)
  }

  /** The final set of conflicting paths, when found holds those before position i. */
  ghost function ConflictSet(existing: seq<string>, i: nat, found: set<string>): set<string>
    requires i <= |existing|
    decreases |existing| - i
  {
    if i == |existing| then found
    else ConflictSet(existing, i + 1, if ConflictAt(existing, i) then found + {existing[i]} else found)
  }

  lemma StoredSnoc(existing: seq<string>, i: nat)
    requires i < |existing|
    ensures Stored(existing[..i + 1]) == Stored(existing[..i]) + {Split(existing[i], '/')}
    ensures existing[..i + 1][..i] == existing[..i]
  {
    TakeSnoc(existing, i);
    var a, b := existing[..i], existing[..i + 1];
    forall q | q in Stored(b)
      ensures q in Stored(a) + {Split(existing[i], '/')}
    {
      var k :| 0 <= k < |b| && q == Split(b[k], '/');
      assert k < i ==> a[k] == b[k];
    }
    forall q | q in Stored(a) + {Split(existing[i], '/')}
      ensures q in Stored(b)
    {
      if q in Stored(a) {
        var k :| 0 <= k < |a| && q == Split(a[k], '/');
        assert b[k] == a[k];
      } else {
        assert b[i] == existing[i];
      }
    }
  }

  /** conflictNums++ on a uint32. */
  function Increment(n: nat): nat {
    if n == 0xffff_ffff then 0 else n + 1
  }

  /** insertPath for the path at position i of a list whose earlier paths are stored. */
  method InsertNext(root: TrieNode, existing: seq<string>, i: nat, ghost nodes: Nodes)
    returns (conflict: bool, ghost extended: Nodes)
    requires i < |existing| && TrieOf(root, nodes, Stored(existing[..i]))
    modifies nodes.Values
    ensures TrieOf(root, extended, Stored(existing[..i + 1]))
    ensures forall n :: n in extended.Values ==> n in nodes.Values || fresh(n)
    ensures conflict <==> ConflictAt(existing, i)
  {
    conflict, extended := InsertPath(root, existing[i], nodes, Stored(existing[..i]));
    StoredSnoc(existing, i);
  }

  /** CheckExistingPathConflict: the conflict count (a 32-bit counter) and the set of conflicting paths. */
  method CheckExistingPathConflict(existing: seq<string>) returns (conflictNums: nat, conflictPaths: set<string>)
    ensures conflictNums == ConflictCount(existing, 0, 0)
    ensures conflictPaths == ConflictSet(existing, 0, {})
  {
    var root := new TrieNode();
    ghost var nodes: Nodes := map[[] := root];
    conflictNums, conflictPaths := 0, {};
    EmptyTrie(root, nodes);
    for i := 0 to |existing|
      invariant TrieOf(root, nodes, Stored(existing[..i])) && forall n :: n in nodes.Values ==> fresh(n)
      invariant ConflictCount(existing, i, conflictNums) == ConflictCount(existing, 0, 0)
      invariant ConflictSet(existing, i, conflictPaths) == ConflictSet(existing, 0, {})
    {
      var conflict;
      conflict, nodes := InsertNext(root, existing, i, nodes);
      if conflict {
        conflictPaths := conflictPaths + {existing[i]};
        conflictNums := Increment(conflictNums);
      }
    }
  }

  lemma EmptyTrie(root: TrieNode, nodes: Nodes)
    requires nodes == map[[] := root] && root.children == map[] && !root.isEnd
    ensures TrieOf(root, nodes, Stored([])) && nodes.Values == {root}
  {
    assert nodes[[]] == root;
  }

  /** The set holds exactly the paths in conflict with one before them. */
  lemma {:induction false} ConflictSetByPosition(existing: seq<string>, i: nat, found: set<string>, p: string)
    requires i <= |existing|
    ensures p in ConflictSet(existing, i, found) <==>
      p in found || exists k :: i <= k < |existing| && existing[k] == p && ConflictAt(existing, k)
    decreases |existing| - i
  {
    if i < |existing| {
      ConflictSetByPosition(existing, i + 1, if ConflictAt(existing, i) then found + {existing[i]} else found, p);
    }
  }

  /** The positions from i on whose path conflicts with one before it. */
  ghost function ConflictsFrom(existing: seq<string>, i: nat): set<nat> {
    set k: nat | i <= k < |existing| && ConflictAt(existing, k)
  }

  /** Short of 2^32 paths the counter does not wrap: it counts the positions in conflict. */
  lemma {:induction false} ConflictCountByPosition(existing: seq<string>, i: nat, nums: nat)
    requires i <= |existing| && nums + (|existing| - i) <= 0xffff_ffff
    ensures ConflictCount(existing, i, nums) == nums + |ConflictsFrom(existing, i)|
    decreases |existing| - i
  {
    if i < |existing| {
      var now := if ConflictAt(existing, i) then {i} else {};
      assert ConflictsFrom(existing, i) == now + ConflictsFrom(existing, i + 1);
      ConflictsBounded(existing, i + 1);
      ConflictCountByPosition(existing, i + 1, if ConflictAt(existing, i) then Increment(nums) else nums);
    } else {
      assert ConflictsFrom(existing, i) == {};
    }
  }

  lemma {:induction false} ConflictsBounded(existing: seq<string>, i: nat)
    requires i <= |existing|
    ensures |ConflictsFrom(existing, i)| <= |existing| - i
    decreases |existing| - i
  {
    if i < |existing| {
      ConflictsBounded(existing, i + 1);
      assert ConflictsFrom(existing, i) <= {i} + ConflictsFrom(existing, i + 1);
      SubsetSize(ConflictsFrom(existing, i), {i} + ConflictsFrom(existing, i + 1));
    } else {
      assert ConflictsFrom(existing, i) == {};
    }
  }

  lemma SubsetSize(a: set<nat>, b: set<nat>)
    requires a <= b
    ensures |a| <= |b|
  {
    assert b == a + (b - a);
  }

  /** The components of one path are a prefix of the other's. */
  predicate ComponentPair(a: string, b: string) {
    Split(a, '/') <= Split(b, '/') || Split(b, '/') <= Split(a, '/')
  }

  /** No component sequence is a prefix of another, or equal to it. */
  ghost predicate PrefixFree(existing: seq<string>) {
    forall i, j :: 0 <= i < j < |existing| ==> !ComponentPair(existing[i], existing[j])
  }

  /** The count is zero exactly when the list is pairwise prefix-free. */
  lemma NoConflictsMeansPrefixFree(existing: seq<string>)
    requires |existing| <= 0xffff_ffff
    ensures ConflictCount(existing, 0, 0) == 0 <==> PrefixFree(existing)
  {
    ConflictCountByPosition(existing, 0, 0);
    NoneCounted(existing);
    forall j | 0 <= j < |existing|
      ensures ConflictAt(existing, j) <==> exists i :: 0 <= i < j && ComponentPair(existing[i], existing[j])
    {
      ConflictAtMeans(existing, j);
    }
  }

  lemma NoneCounted(existing: seq<string>)
    ensures |ConflictsFrom(existing, 0)| == 0 <==> forall j :: 0 <= j < |existing| ==> !ConflictAt(existing, j)
  {
    if |ConflictsFrom(existing, 0)| == 0 {
      forall j | 0 <= j < |existing|
        ensures !ConflictAt(existing, j)
      {
        assert j !in ConflictsFrom(existing, 0);
      }
    } else {
      var j :| j in ConflictsFrom(existing, 0);
    }
  }

  lemma ConflictAtMeans(existing: seq<string>, j: nat)
    requires j < |existing|
    ensures ConflictAt(existing, j) <==> exists i :: 0 <= i < j && ComponentPair(existing[i], existing[j])
  {
    var before, parts := existing[..j], Split(existing[j], '/');
    if ConflictAt(existing, j) {
      var q :| q in Stored(before) && (q <= parts || parts <= q);
      var i :| 0 <= i < |before| && q == Split(before[i], '/');
      assert before[i] == existing[i];
    }
    if i :| 0 <= i < j && ComponentPair(existing[i], existing[j]) {
      assert before[i] == existing[i];
      assert Split(before[i], '/') in Stored(before);
    }
  }

  // ---------- The pairwise scan ----------

  function WithSlash(path: string): string {
    if path != "" && path[|path| - 1] == '/' then path else path + "/"
  }

  /** The test CheckPathConflict makes for one existing path. */
  predicate ScanPair(newPath: string, path: string) {
    WithSlash(newPath) <= WithSlash(path) || WithSlash(path) <= WithSlash(newPath)
  }

  method CheckPathConflict(newPath: string, existingPaths: seq<string>) returns (conflict: bool)
    ensures conflict <==> exists i :: 0 <= i < |existingPaths| && ScanPair(newPath, existingPaths[i])
  {
    var slashed := newPath;
    if !(newPath != "" && newPath[|newPath| - 1] == '/') {
      slashed := slashed + "/";
    }
    for i := 0 to |existingPaths|
      invariant forall k :: 0 <= k < i ==> !ScanPair(newPath, existingPaths[k])
    {
      var compPath := existingPaths[i];
      if !(compPath != "" && compPath[|compPath| - 1] == '/') {
        compPath := compPath + "/";
      }
      if slashed <= compPath || compPath <= slashed {
        return true;
      }
    }
    return false;
  }

  /** The components with a slash after each. */
  function Slashed(parts: seq<string>): string {
    if parts == [] then "" else parts[0] + ("/" + Slashed(parts[1..]))
  }

  predicate SlashFree(parts: seq<string>) {
    forall p :: p in parts ==> '/' !in p
  }

  lemma {:induction false} SlashedSplit(s: string)
    ensures Slashed(Split(s, '/')) == s + "/" && SlashFree(Split(s, '/'))
    decreases |s|
  {
    IndexFirst(s, '/');
    var i := Index(s, '/');
    if i == -1 {
      assert Slashed([s][1..]) == "";
      assert s + ("/" + "") == s + "/";
    } else {
      var rest := s[i + 1..];
      SlashedSplit(rest);
      assert ([s[..i]] + Split(rest, '/'))[1..] == Split(rest, '/');
      SlashAt(s, i);
    }
  }

  lemma SlashAt(s: string, i: nat)
    requires i < |s| && s[i] == '/'
    ensures s[..i] + ("/" + (s[i + 1..] + "/")) == s + "/"
  {
    assert s == s[..i] + ("/" + s[i + 1..]);
  }

  lemma SamePrefixes<T>(p: seq<T>, a: seq<T>, b: seq<T>)
    ensures p + a <= p + b <==> a <= b
  {
    if p + a <= p + b {
      assert (p + a)[|p|..] == a && (p + b)[|p|..] == b;
    }
  }

  lemma HeadsEqual(g: string, x: string, h: string, y: string)
    requires '/' !in g && '/' !in h && g + ("/" + x) <= h + ("/" + y)
    ensures g == h
  {
    var s, t := g + ("/" + x), h + ("/" + y);
    assert t[..|h|] == h && t[|h|] == '/';
    IndexIs(t, '/', |h|);
    assert t[..|g|] == s[..|g|] == g && t[|g|] == s[|g|] == '/';
    IndexIs(t, '/', |g|);
  }

  /** The slashed text of one list is a prefix of another's exactly when the list is. */
  lemma {:induction false} SlashedPrefix(a: seq<string>, b: seq<string>)
    requires SlashFree(a) && SlashFree(b)
    ensures Slashed(a) <= Slashed(b) <==> a <= b
  {
    if a != [] && b != [] {
      var x, y := Slashed(a[1..]), Slashed(b[1..]);
      assert a[0] in a && b[0] in b;
      SlashedPrefix(a[1..], b[1..]);
      assert a == [a[0]] + a[1..] && b == [b[0]] + b[1..];
      if a[0] == b[0] {
        SamePrefixes(a[0], "/" + x, "/" + y);
        SamePrefixes("/", x, y);
        SamePrefixes([a[0]], a[1..], b[1..]);
      } else if Slashed(a) <= Slashed(b) {
        HeadsEqual(a[0], x, b[0], y);
      }
    }
  }

  /** One path's text is a prefix of another's, up to the slash, exactly when its components are. */
  lemma PrefixOfComponents(a: string, b: string)
    ensures a + "/" <= b + "/" <==> Split(a, '/') <= Split(b, '/')
  {
    SlashedSplit(a);
    SlashedSplit(b);
    SlashedPrefix(Split(a, '/'), Split(b, '/'));
  }

  // ---------- When the trie and the scan agree ----------

  /** x is written as a directory, y lies below it, and y's next component is not empty. */
  predicate BelowDirectory(x: string, y: string) {
    x != "" && x[|x| - 1] == '/' && |x| < |y| && x <= y && y[|x|] != '/'
  }

  /** The path without one trailing slash. */
  function Bare(path: string): (b: string)
    ensures WithSlash(path) == b + "/"
  {
    if path != "" && path[|path| - 1] == '/' then path[..|path| - 1] else path
  }

  /** The scan compares the components of the paths without their trailing slashes. */
  lemma ScanPairMeans(x: string, y: string)
    ensures ScanPair(x, y) <==> ComponentPair(Bare(x), Bare(y))
  {
    PrefixOfComponents(Bare(x), Bare(y));
    PrefixOfComponents(Bare(y), Bare(x));
  }

  /** A trailing slash adds one empty component. */
  lemma SplitTrailing(path: string)
    requires Trailing(path)
    ensures Split(path, '/') == Split(Bare(path), '/') + [""]
  {
    var parts := Split(Bare(path), '/');
    SlashedSplit(path);
    SlashedSplit(Bare(path));
    SlashedSnoc(parts, "");
    assert "" + "/" == "/";
    SlashedPrefix(Split(path, '/'), parts + [""]);
    SlashedPrefix(parts + [""], Split(path, '/'));
  }

  lemma {:induction false} SlashedSnoc(parts: seq<string>, p: string)
    ensures Slashed(parts + [p]) == Slashed(parts) + (p + "/")
  {
    if parts == [] {
      assert parts + [p] == [p];
      assert Slashed([p][1..]) == "" && p + ("/" + "") == "" + (p + "/");
    } else {
      SlashedSnoc(parts[1..], p);
      assert (parts + [p])[1..] == parts[1..] + [p];
      var x, y := Slashed(parts[1..]), p + "/";
      assert parts[0] + ("/" + (x + y)) == (parts[0] + ("/" + x)) + y;
    }
  }

  predicate Trailing(path: string) {
    path != "" && path[|path| - 1] == '/'
  }

  /** BelowDirectory in terms of components: y's path leaves x's through a non-empty component. */
  predicate LeavesThrough(a: seq<string>, b: seq<string>) {
    a < b && b[|a|] != ""
  }

  lemma {:induction false} SlashedConcat(a: seq<string>, b: seq<string>)
    ensures Slashed(a + b) == Slashed(a) + Slashed(b)
  {
    if a == [] {
      assert a + b == b && "" + Slashed(b) == Slashed(b);
    } else {
      assert (a + b)[1..] == a[1..] + b;
      SlashedConcat(a[1..], b);
      var x, y := Slashed(a[1..]), Slashed(b);
      assert a[0] + ("/" + (x + y)) == (a[0] + ("/" + x)) + y;
    }
  }

  lemma BelowDirectoryMeans(x: string, y: string)
    requires Trailing(x)
    ensures BelowDirectory(x, y) <==> LeavesThrough(Split(Bare(x), '/'), Split(y, '/'))
  {
    var a, b := Split(Bare(x), '/'), Split(y, '/');
    SlashedSplit(Bare(x));
    SlashedSplit(y);
    var t := y + "/";
    assert Slashed(a) == x && Slashed(b) == t;
    SlashedPrefix(a, b);
    assert x <= y ==> x <= t;
    assert |x| < |y| ==> t[|x|] == y[|x|];
    if a <= b {
      SuffixText(a, b);
      if a < b {
        assert y == t[..|y|] && x == t[..|x|] == y[..|x|];
        assert b[|a|] in b;
      } else {
        assert a == b;
      }
    }
  }

  /** What follows a's text in b's: the text of the further components. */
  lemma SuffixText(a: seq<string>, b: seq<string>)
    requires a <= b
    ensures Slashed(b) == Slashed(a) + Slashed(b[|a|..])
    ensures a < b ==> |Slashed(b)| > |Slashed(a)|
    ensures a < b && b[|a|] != "" ==> |Slashed(b)| > |Slashed(a)| + 1 && Slashed(b)[|Slashed(a)|] == b[|a|][0]
    ensures a < b && b[|a|] == "" ==> Slashed(b)[|Slashed(a)|] == '/'
  {
    assert b == a + b[|a|..];
    SlashedConcat(a, b[|a|..]);
  }

  /** The components of a path, from those without its trailing slash. */
  function WithTrailing(a: seq<string>, trailing: bool): seq<string> {
    if trailing then a + [""] else a
  }

  predicate Comparable(a: seq<string>, b: seq<string>) {
    a <= b || b <= a
  }

  lemma TrailingCases(a: seq<string>, b: seq<string>, ta: bool, tb: bool)
    requires a <= b
    ensures Comparable(WithTrailing(a, ta), WithTrailing(b, tb)) || (ta && LeavesThrough(a, WithTrailing(b, tb)))
  {
    if ta && a < b && b[|a|] == "" {
      assert a + [""] <= b;
    }
  }

  lemma ComparableBare(a: seq<string>, b: seq<string>, ta: bool, tb: bool)
    requires Comparable(WithTrailing(a, ta), WithTrailing(b, tb)) || LeavesThrough(a, WithTrailing(b, tb))
    ensures Comparable(a, b)
  {
    if a <= b + [""] && |a| <= |b| {
      assert a <= b;
    }
    if b <= a + [""] && |b| <= |a| {
      assert b <= a;
    }
  }

  lemma SplitBare(path: string)
    ensures Split(path, '/') == WithTrailing(Split(Bare(path), '/'), Trailing(path))
  {
    if Trailing(path) {
      SplitTrailing(path);
    }
  }

  /** A path below a stored directory written with its slash is not a pair for the trie. */
  lemma DirectoryNoPair(x: string, y: string)
    requires BelowDirectory(x, y)
    ensures !ComponentPair(x, y)
  {
    BelowDirectoryMeans(x, y);
    SplitTrailing(x);
  }

  /** The scan rejects the pairs the trie rejects, and those of the directory relation. */
  lemma ScanCases(x: string, y: string)
    ensures ScanPair(x, y) <==> ComponentPair(x, y) || BelowDirectory(x, y) || BelowDirectory(y, x)
  {
    var a, b := Split(Bare(x), '/'), Split(Bare(y), '/');
    ScanPairMeans(x, y);
    SplitBare(x);
    SplitBare(y);
    if Trailing(x) {
      BelowDirectoryMeans(x, y);
    }
    if Trailing(y) {
      BelowDirectoryMeans(y, x);
    }
    if a <= b {
      TrailingCases(a, b, Trailing(x), Trailing(y));
    } else if b <= a {
      TrailingCases(b, a, Trailing(y), Trailing(x));
    }
    if ComponentPair(x, y) || BelowDirectory(x, y) {
      ComparableBare(a, b, Trailing(x), Trailing(y));
    } else if BelowDirectory(y, x) {
      ComparableBare(b, a, Trailing(y), Trailing(x));
    }
  }

  /** The two tests differ on exactly the pairs of a directory written with its slash and a path below it. */
  lemma PairsDiffer(x: string, y: string)
    ensures ScanPair(x, y) <==> ComponentPair(x, y) || BelowDirectory(x, y) || BelowDirectory(y, x)
    ensures (ScanPair(x, y) <==> ComponentPair(x, y)) <==> !BelowDirectory(x, y) && !BelowDirectory(y, x)
  {
    ScanCases(x, y);
    if BelowDirectory(x, y) {
      DirectoryNoPair(x, y);
    }
    if BelowDirectory(y, x) {
      DirectoryNoPair(y, x);
    }
  }

  /** For paths without trailing slashes the two tests agree. */
  lemma PairsAgree(x: string, y: string)
    requires !Trailing(x) && !Trailing(y)
    ensures ScanPair(x, y) <==> ComponentPair(x, y)
  {
    PairsDiffer(x, y);
  }

  /** The trie and the scan differ for this input: a stored directory written with its slash, and a path below it. */
  lemma DirectoryMissed()
    ensures ScanPair("a/b", "a/") && !ComponentPair("a/b", "a/")
  {
    SplitCons("a", "b", '/');
    SplitCons("a", "", '/');
    assert "a/b" == "a" + ['/'] + "b" && "a/" == "a" + ['/'] + "";
    IndexFirst("b", '/');
    assert Split("a/b", '/') == ["a", "b"] && Split("a/", '/') == ["a", ""];
    assert ["a", "b"][1] != ["a", ""][1];
    assert WithSlash("a/b") == "a/" + "b/" && WithSlash("a/") == "a/";
  }

  /** An earlier path's components are a prefix of this one's, or the reverse. */
  ghost predicate EarlierPair(existing: seq<string>, i: nat)
    requires i < |existing|
  {
    exists k :: 0 <= k < i && ComponentPair(existing[k], existing[i])
  }

  /** An earlier path and this one stand in the directory relation. */
  ghost predicate EarlierDirectory(existing: seq<string>, i: nat)
    requires i < |existing|
  {
    exists k :: 0 <= k < i && (BelowDirectory(existing[i], existing[k]) || BelowDirectory(existing[k], existing[i]))
  }

  /**
   * The trie and the scan give different verdicts at a position exactly when the directory relation holds with an
   * earlier path and no earlier path's components nest with this one's.
   */
  lemma TrieAgreesWithScan(existing: seq<string>, i: nat)
    requires i < |existing|
    ensures ConflictAt(existing, i) <==> EarlierPair(existing, i)
    ensures (exists k :: 0 <= k < i && ScanPair(existing[i], existing[k])) <==>
      EarlierPair(existing, i) || EarlierDirectory(existing, i)
    ensures (ConflictAt(existing, i) <==> exists k :: 0 <= k < i && ScanPair(existing[i], existing[k])) <==>
      EarlierPair(existing, i) || !EarlierDirectory(existing, i)
  {
    ConflictAtMeans(existing, i);
    forall k | 0 <= k < i
      ensures ScanPair(existing[i], existing[k]) <==>
        ComponentPair(existing[k], existing[i]) || BelowDirectory(existing[i], existing[k])
        || BelowDirectory(existing[k], existing[i])
    {
      PairsDiffer(existing[i], existing[k]);
    }
  }
}
