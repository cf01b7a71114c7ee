/** The string helpers of Go's strings package that the modelled code calls, on sequences of characters. */
module Text {

  datatype Option<+T> = None | Some(value: T)

  datatype Result<+T, +E> = Ok(value: T) | Err(error: E)

  /** The position of the first c in s, or -1. */
  function Index(s: string, c: char): (i: int)
    ensures -1 <= i < |s|
  {
    if s == "" then -1
    else if s[0] == c then 0
    else
      var i := Index(s[1..], c);
      if i == -1 then -1 else i + 1
  }

  lemma {:induction false} IndexFirst(s: string, c: char)
    ensures var i := Index(s, c);
      if i == -1 then c !in s else s[i] == c && c !in s[..i]
  {
    if s != "" && s[0] != c {
      IndexFirst(s[1..], c);
      var i := Index(s[1..], c);
      assert s == [s[0]] + s[1..];
      if i != -1 {
        assert s[..i + 1] == [s[0]] + s[1..][..i];
      }
    }
  }

  lemma IndexIs(s: string, c: char, i: nat)
    requires i < |s| && s[i] == c && c !in s[..i]
    ensures Index(s, c) == i
  {
    IndexFirst(s, c);
    var k := Index(s, c);
    assert forall j :: 0 <= j < i ==> s[j] == s[..i][j] && s[..i][j] in s[..i];
    assert forall j :: 0 <= j < k ==> s[j] == s[..k][j] && s[..k][j] in s[..k];
  }

  lemma Reassociate<T>(a: seq<T>, b: seq<T>, c: seq<T>)
    ensures (a + b) + c == a + (b + c)
  {
  }

  /** Texts in the order of their characters. Go compares bytes; for UTF-8 text that is the same. */
  predicate TextLe(a: string, b: string) {
    a == "" || (b != "" && (a[0] < b[0] || (a[0] == b[0] && TextLe(a[1..], b[1..]))))
  }

  lemma {:induction false} TextLeTotal(a: string, b: string)
    ensures TextLe(a, b) || TextLe(b, a)
    ensures TextLe(a, b) && TextLe(b, a) ==> a == b
  {
    if a != "" && b != "" {
      TextLeTotal(a[1..], b[1..]);
      assert a == [a[0]] + a[1..] && b == [b[0]] + b[1..];
    }
  }

  lemma {:induction false} TextLeTransitive(a: string, b: string, c: string)
    requires TextLe(a, b) && TextLe(b, c)
    ensures TextLe(a, c)
  {
    if a != "" && a[0] == b[0] == c[0] {
      TextLeTransitive(a[1..], b[1..], c[1..]);
    }
  }

  /** a comes before b: it is a proper prefix of b, or smaller where they first differ. */
  ghost predicate Before(a: string, b: string) {
    exists k :: 0 <= k <= |a| && k <= |b| && a[..k] == b[..k] && BeforeAt(a, b, k)
  }

  predicate BeforeAt(a: string, b: string, k: nat) {
    k < |b| && k <= |a| && (k == |a| || a[k] < b[k])
  }

  lemma {:induction false} TextLeMeans(a: string, b: string)
    ensures TextLe(a, b) <==> a == b || Before(a, b)
  {
    if a == "" {
      if b != "" {
        assert a[..0] == b[..0] && BeforeAt(a, b, 0);
      }
    } else if b != "" {
      assert a == [a[0]] + a[1..] && b == [b[0]] + b[1..];
      if a[0] < b[0] {
        assert a[..0] == b[..0] && BeforeAt(a, b, 0);
      } else if a[0] == b[0] {
        TextLeMeans(a[1..], b[1..]);
        BeforeTail(a, b);
      } else if Before(a, b) {
        BeforeHead(a, b);
      }
    }
  }

  lemma BeforeHead(a: string, b: string)
    requires a != "" && b != "" && Before(a, b)
    ensures a[0] <= b[0]
  {
    var k :| 0 <= k <= |a| && k <= |b| && a[..k] == b[..k] && BeforeAt(a, b, k);
    if k > 0 {
      assert a[..k][0] == b[..k][0];
    }
  }

  lemma BeforeTail(a: string, b: string)
    requires a != "" && b != "" && a[0] == b[0]
    ensures Before(a, b) <==> Before(a[1..], b[1..])
  {
    if k :| 0 <= k <= |a| && k <= |b| && a[..k] == b[..k] && BeforeAt(a, b, k) {
      PrefixOfSuffix(a, 1, k - 1);
      PrefixOfSuffix(b, 1, k - 1);
      assert a[1..k] == a[..k][1..] && b[1..k] == b[..k][1..];
      assert BeforeAt(a[1..], b[1..], k - 1);
    }
    if k :| 0 <= k <= |a| - 1 && k <= |b| - 1 && a[1..][..k] == b[1..][..k] && BeforeAt(a[1..], b[1..], k) {
      assert a[..k + 1] == [a[0]] + a[1..][..k] && b[..k + 1] == [b[0]] + b[1..][..k];
      assert BeforeAt(a, b, k + 1);
    }
  }

  lemma SliceOfSuffix<T>(s: seq<T>, i: nat, a: nat, b: nat)
    requires a <= b && i + b <= |s|
    ensures s[i..][a..b] == s[i + a..i + b]
  {
  }

  lemma TakeSnoc<T>(s: seq<T>, i: nat)
    requires i < |s|
    ensures s[..i + 1] == s[..i] + [s[i]]
  {
  }

  lemma SuffixOfSuffix<T>(s: seq<T>, i: nat, n: nat)
    requires i + n <= |s|
    ensures s[i..][n..] == s[i + n..]
  {
  }

  lemma SuffixAt<T>(s: seq<T>, i: nat, n: nat)
    requires i + n < |s|
    ensures s[i..][n] == s[i + n]
  {
  }

  lemma PrefixOfSuffix<T>(s: seq<T>, i: nat, n: nat)
    requires i + n <= |s|
    ensures s[i..][..n] == s[i..i + n]
  {
  }

  lemma SliceSnoc<T>(s: seq<T>, i: nat, j: nat)
    requires i <= j < |s|
    ensures s[i..j + 1] == s[i..j] + [s[j]]
  {
  }

  /** The parts of s between the separators c; always at least one part. */
  function Split(s: string, c: char): (parts: seq<string>)
    ensures |parts| >= 1
    decreases |s|
  {
    var i := Index(s, c);
    if i == -1 then [s] else [s[..i]] + Split(s[i + 1..], c)
  }

  lemma {:induction false} SplitParts(s: string, c: char)
    ensures forall p :: p in Split(s, c) ==> c !in p && |p| <= |s|
    ensures forall p, x :: p in Split(s, c) && x in p ==> x in s
    decreases |s|
  {
    IndexFirst(s, c);
    var i := Index(s, c);
    if i != -1 {
      SplitParts(s[i + 1..], c);
    }
  }

  function Join(parts: seq<string>, sep: string): string
    requires parts != []
  {
    if |parts| == 1 then parts[0] else parts[0] + sep + Join(parts[1..], sep)
  }

  lemma {:induction false} SplitCons(p: string, s: string, c: char)
    requires c !in p
    ensures Split(p + [c] + s, c) == [p] + Split(s, c)
  {
    var t := p + [c] + s;
    assert t[..|p|] == p;
    IndexIs(t, c, |p|);
    assert t[|p| + 1..] == s;
  }

  /** Splitting undoes joining. */
  lemma {:induction false} SplitOfJoin(parts: seq<string>, c: char)
    requires parts != []
    requires forall p :: p in parts ==> c !in p
    ensures Split(Join(parts, [c]), c) == parts
  {
    assert parts[0] in parts;
    if |parts| == 1 {
      assert parts == [parts[0]];
      IndexFirst(parts[0], c);
    } else {
      var rest := parts[1..];
      SplitOfJoin(rest, c);
      SplitCons(parts[0], Join(rest, [c]), c);
      assert parts == [parts[0]] + rest;
    }
  }

  lemma JoinCons(p: string, parts: seq<string>, sep: string)
    requires parts != []
    ensures Join([p] + parts, sep) == p + sep + Join(parts, sep)
  {
    assert ([p] + parts)[1..] == parts;
  }

  /** Joining undoes splitting. */
  lemma {:induction false} JoinOfSplit(s: string, c: char)
    ensures Join(Split(s, c), [c]) == s
    decreases |s|
  {
    IndexFirst(s, c);
    var i := Index(s, c);
    if i != -1 {
      var rest := s[i + 1..];
      assert s == s[..i] + [c] + rest;
      JoinOfSplit(rest, c);
      JoinCons(s[..i], Split(rest, c), [c]);
    }
  }

  /** The characters of a joined text are those of its parts and of the separators between them. */
  lemma {:induction false} JoinChar(parts: seq<string>, sep: string, x: char)
    requires parts != []
    ensures x in Join(parts, sep) <==> (|parts| > 1 && x in sep) || exists p :: p in parts && x in p
  {
    if |parts| == 1 {
      assert parts[0] in parts;
    } else {
      JoinChar(parts[1..], sep, x);
      assert parts[0] in parts;
      if p :| p in parts[1..] && x in p {
        assert p in parts;
      }
      if p :| p in parts && x in p && p != parts[0] {
        assert p in parts[1..];
      }
    }
  }

  /** Unicode's White_Space property, which strings.TrimSpace consults. */
  predicate IsSpace(c: char) {
    var n := c as int;
    9 <= n <= 13 || n == 32 || n == 0x85 || n == 0xA0 || n == 0x1680 || 0x2000 <= n <= 0x200A
    || n == 0x2028 || n == 0x2029 || n == 0x202F || n == 0x205F || n == 0x3000
  }

  function TrimSpace(s: string): (t: string)
    ensures |t| <= |s|
    ensures t != "" ==> !IsSpace(t[0]) && !IsSpace(t[|t| - 1])
    ensures forall x :: x in t ==> x in s
    ensures s == "" || (!IsSpace(s[0]) && !IsSpace(s[|s| - 1])) ==> t == s
  {
    if s == "" then ""
    else if IsSpace(s[0]) then TrimSpace(s[1..])
    else if IsSpace(s[|s| - 1]) then TrimSpace(s[..|s| - 1])
    else s
  }

  predicate Trimmed(s: string) {
    s == "" || (!IsSpace(s[0]) && !IsSpace(s[|s| - 1]))
  }

  predicate AllSpace(s: string) {
    forall x :: x in s ==> IsSpace(x)
  }

  /** Trimming removes the white space on both sides, and nothing else. */
  lemma {:induction false} TrimPadded(u: string, w: string, v: string)
    requires AllSpace(u) && Trimmed(w) && AllSpace(v)
    ensures TrimSpace(u + (w + v)) == w
    decreases |u|, |v|
  {
    if u != "" {
      assert u[0] in u && u == [u[0]] + u[1..];
      Reassociate([u[0]], u[1..], w + v);
      TrimFirst(u[0], u[1..] + (w + v));
      TrimPadded(u[1..], w, v);
    } else if v != "" && w != "" {
      var last := |v| - 1;
      assert v[last] in v && v == v[..last] + [v[last]];
      Reassociate(w, v[..last], [v[last]]);
      TrimLast(w + v[..last], v[last]);
      TrimPadded(u, w, v[..last]);
      assert u + (w + v) == w + v && u + (w + v[..last]) == w + v[..last];
    } else if v != "" {
      assert u + (w + v) == v;
      TrimAllSpace(v);
    } else {
      assert u + (w + v) == w;
    }
  }

  lemma TrimFirst(c: char, s: string)
    requires IsSpace(c)
    ensures TrimSpace([c] + s) == TrimSpace(s)
  {
    assert ([c] + s)[1..] == s;
  }

  lemma TrimLast(s: string, c: char)
    requires s != "" && !IsSpace(s[0]) && IsSpace(c)
    ensures TrimSpace(s + [c]) == TrimSpace(s)
  {
    assert (s + [c])[..|s|] == s;
  }

  /** In particular blanks, tabs and line ends. */
  lemma TrimAscii(x: char, w: string, y: char)
    requires Trimmed(w) && (x == ' ' || '\t' <= x <= '\r') && (y == ' ' || '\t' <= y <= '\r')
    ensures TrimSpace([x] + (w + [y])) == w
  {
    TrimPadded([x], w, [y]);
  }

  lemma {:induction false} TrimAllSpace(s: string)
    requires AllSpace(s)
    ensures TrimSpace(s) == ""
  {
    if s != "" {
      TrimAllSpace(s[1..]);
    }
  }

  lemma SpaceInFront(c: char, u: string, rest: string)
    requires IsSpace(c) && AllSpace(u)
    ensures AllSpace([c] + u) && [c] + (u + rest) == ([c] + u) + rest
  {
    Reassociate([c], u, rest);
  }

  lemma SpaceBehind(u: string, w: string, v: string, c: char)
    requires IsSpace(c) && AllSpace(v)
    ensures AllSpace(v + [c]) && (u + (w + v)) + [c] == u + (w + (v + [c]))
  {
    Reassociate(u, w + v, [c]);
    Reassociate(w, v, [c]);
  }

  /** So a text is what trimming leaves of it, with white space on both sides. */
  lemma {:induction false} TrimmedParts(s: string) returns (u: string, v: string)
    ensures AllSpace(u) && AllSpace(v) && s == u + (TrimSpace(s) + v)
    decreases |s|
  {
    u, v := "", "";
    if s != "" && IsSpace(s[0]) {
      u, v := TrimmedParts(s[1..]);
      assert s == [s[0]] + s[1..];
      SpaceInFront(s[0], u, TrimSpace(s) + v);
      u := [s[0]] + u;
    } else if s != "" && IsSpace(s[|s| - 1]) {
      var last := |s| - 1;
      u, v := TrimmedParts(s[..last]);
      assert s == s[..last] + [s[last]];
      SpaceBehind(u, TrimSpace(s), v, s[last]);
      v := v + [s[last]];
    } else {
      assert TrimSpace(s) == s && "" + (s + "") == s;
    }
  }

  /** The distinct elements of xs, in order of first occurrence. */
  function Distinct<T(==,!new)>(xs: seq<T>): (ys: seq<T>)
    ensures forall x :: x in ys <==> x in xs
    ensures forall i, j :: 0 <= i < j < |ys| ==> ys[i] != ys[j]
  {
    if xs == [] then []
    else
      var init := Distinct(xs[..|xs| - 1]);
      var x := xs[|xs| - 1];
      assert forall y :: y in xs <==> y in xs[..|xs| - 1] || y == x by {
        assert xs == xs[..|xs| - 1] + [x];
      }
      if x in init then init else init + [x]
  }
}
