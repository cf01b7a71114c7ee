/** The part of etcd that registration relies on: keys with leases, revisions, and reads of possibly old snapshots. */
module Etcd {
  import opened Text

  datatype Entry = Entry(createRev: nat, lease: nat)

  type Store = map<string, Entry>

  /** history[r] is the store after revision r. Lease ids start at 1: the client uses 0 for "no lease". */
  datatype Server = Server(history: seq<Store>, leases: set<nat>, nextLease: nat)

  const EMPTY: Server := Server([map[]], {}, 1)

  function Current(e: Server): Store
    requires e.history != []
  {
    e.history[|e.history| - 1]
  }

  // ---------- Writes ----------

  function Grant(e: Server): Server {
    e.(leases := e.leases + {e.nextLease}, nextLease := e.nextLease + 1)
  }

  /** The store after a put at revision rev: an existing key keeps its create revision and changes its lease. */
  function WithKey(store: Store, key: string, lease: nat, rev: nat): Store {
    store[key := Entry(if key in store then store[key].createRev else rev, lease)]
  }

  function Put(e: Server, key: string, lease: nat): Server
    requires e.history != []
  {
    e.(history := e.history + [WithKey(Current(e), key, lease, |e.history|)])
  }

  /** One revision that removes some keys, or none if there is nothing to remove. */
  function Remove(e: Server, keys: set<string>): Server
    requires e.history != []
  {
    if keys !! Current(e).Keys then e else e.(history := e.history + [Current(e) - keys])
  }

  function KeysOf(store: Store, lease: nat): set<string> {
    set key | key in store && store[key].lease == lease
  }

  /** The lease runs out: the keys bound to it now go with it. */
  function Expire(e: Server, lease: nat): Server
    requires e.history != []
  {
    Remove(e, KeysOf(Current(e), lease)).(leases := e.leases - {lease})
  }

  // ---------- What histories look like ----------

  /** A revision creates at most one key, stamped with that revision; no other key changes its create revision. */
  predicate Successor(before: Store, after: Store, rev: nat) {
    && (forall key <- after :: key in before ==> after[key].createRev == before[key].createRev)
    && (forall key <- after :: key !in before ==> after[key].createRev == rev)
    && (forall key <- after, other <- after :: key !in before && other !in before ==> key == other)
  }

  predicate RevisionOk(history: seq<Store>, r: nat) {
    r < |history| && (if r == 0 then history[0] == map[] else Successor(history[r - 1], history[r], r))
  }

  ghost predicate Grows(history: seq<Store>) {
    history != [] && forall r: nat :: r < |history| ==> RevisionOk(history, r)
  }

  ghost predicate LeasesLive(e: Server) {
    e.history != [] && forall key <- Current(e) :: Current(e)[key].lease in e.leases
  }

  ghost predicate Valid(e: Server) {
    Grows(e.history) && LeasesLive(e)
  }

  /** A later state of the same server: nothing that was recorded is rewritten. */
  predicate Extends(old_: Server, new_: Server) {
    old_.history <= new_.history
  }

  lemma AppendGrows(history: seq<Store>, store: Store)
    requires Grows(history) && Successor(history[|history| - 1], store, |history|)
    ensures Grows(history + [store])
  {
    var longer := history + [store];
    forall r: nat | r < |longer|
      ensures RevisionOk(longer, r)
    {
      if r < |history| {
        assert RevisionOk(history, r);
      }
    }
  }

  lemma PutValid(e: Server, key: string, lease: nat)
    requires Valid(e) && lease in e.leases
    ensures Valid(Put(e, key, lease)) && Extends(e, Put(e, key, lease))
  {
    AppendGrows(e.history, WithKey(Current(e), key, lease, |e.history|));
  }

  lemma RemoveValid(e: Server, keys: set<string>)
    requires Valid(e)
    ensures Valid(Remove(e, keys)) && Extends(e, Remove(e, keys))
    ensures Current(Remove(e, keys)) == Current(e) - keys
  {
    if keys !! Current(e).Keys {
      assert Current(e) - keys == Current(e);
    } else {
      AppendGrows(e.history, Current(e) - keys);
    }
  }

  lemma ExpireValid(e: Server, lease: nat)
    requires Valid(e)
    ensures Valid(Expire(e, lease)) && Extends(e, Expire(e, lease))
  {
    RemoveValid(e, KeysOf(Current(e), lease));
  }

  /** An entry was there, unchanged in its create revision, since the revision that created it, and not before. */
  lemma {:induction false} BornAt(history: seq<Store>, r: nat, key: string)
    requires Grows(history) && r < |history| && key in history[r]
    ensures var c := history[r][key].createRev;
      && 0 < c <= r && key !in history[c - 1]
      && forall q :: c <= q <= r ==> key in history[q] && history[q][key].createRev == c
  {
    assert RevisionOk(history, r);
    if key in history[r - 1] {
      BornAt(history, r - 1, key);
    }
  }

  /** Create revisions are never reused: over the whole history, one revision names one incarnation of one key. */
  lemma CreationIdentifies(history: seq<Store>, a: nat, key: string, b: nat, other: string)
    requires Grows(history) && a < |history| && b < |history| && key in history[a] && other in history[b]
    requires history[a][key].createRev == history[b][other].createRev
    ensures key == other
  {
    var c := history[a][key].createRev;
    BornAt(history, a, key);
    BornAt(history, b, other);
    assert RevisionOk(history, c);
  }

  /** A key that was missing and comes back is younger than every entry that was there meanwhile and still is. */
  lemma LostKeyStaysYounger(history: seq<Store>, a: nat, b: nat, lost: string, older: string)
    requires Grows(history) && a <= b < |history|
    requires lost !in history[a] && lost in history[b] && older in history[a] && older in history[b]
    requires history[a][older].createRev == history[b][older].createRev
    ensures history[b][older].createRev < history[b][lost].createRev
  {
    BornAt(history, b, lost);
    BornAt(history, a, older);
  }

  /** Putting a key that is still there changes nobody's age, and moves the key from its old lease to the new one. */
  lemma PutKeepsAges(e: Server, key: string, lease: nat)
    requires e.history != [] && key in Current(e)
    ensures var after := Current(Put(e, key, lease));
      && after.Keys == Current(e).Keys
      && (forall k <- after :: after[k].createRev == Current(e)[k].createRev)
      && (forall l :: l != lease ==> key !in KeysOf(after, l))
      && key in KeysOf(after, lease)
  {
  }

  /** A lease that runs out takes exactly the keys bound to it at that moment. */
  lemma ExpiryTakesItsKeys(e: Server, lease: nat, key: string)
    requires Valid(e)
    ensures key in Current(Expire(e, lease)) <==> key in Current(e) && Current(e)[key].lease != lease
  {
    RemoveValid(e, KeysOf(Current(e), lease));
    assert key in KeysOf(Current(e), lease) <==> key in Current(e) && Current(e)[key].lease == lease;
  }

  // ---------- Reads ----------

  lemma {:induction false} PrefixLe(a: string, b: string)
    requires a <= b
    ensures TextLe(a, b)
  {
    if a != "" {
      assert b[..|a|][0] == b[0];
      assert b[1..][..|a| - 1] == b[..|a|][1..];
      PrefixLe(a[1..], b[1..]);
    }
  }

  predicate IsLeast(keys: set<string>, key: string) {
    key in keys && forall other <- keys :: TextLe(key, other)
  }

  lemma {:induction false} LeastExists(keys: set<string>)
    requires keys != {}
    ensures exists key :: IsLeast(keys, key)
    decreases |keys|
  {
    var key :| key in keys;
    var rest := keys - {key};
    TextLeTotal(key, key);
    if rest == {} {
      assert keys == {key};
      assert IsLeast(keys, key);
    } else {
      assert |rest| < |keys|;
      LeastExists(rest);
      var least :| IsLeast(rest, least);
      TextLeTotal(key, least);
      if TextLe(key, least) {
        forall other <- keys
          ensures TextLe(key, other)
        {
          if other != key {
            TextLeTransitive(key, least, other);
          }
        }
        assert IsLeast(keys, key);
      } else {
        assert IsLeast(keys, least);
      }
    }
  }

  function Under(store: Store, prefix: string): set<string> {
    set key | key in store && prefix <= key
  }

  /** The first key of a read WithPrefix: the least one. */
  ghost function FirstKey(store: Store, prefix: string): (r: Option<string>)
    ensures match r
      case None => Under(store, prefix) == {}
      case Some(key) => IsLeast(Under(store, prefix), key)
  {
    if Under(store, prefix) == {} then None
    else
      LeastExists(Under(store, prefix));
      var key :| IsLeast(Under(store, prefix), key);
      Some(key)
  }

  lemma FirstKeyIs(store: Store, prefix: string, key: string)
    requires IsLeast(Under(store, prefix), key)
    ensures FirstKey(store, prefix) == Some(key)
  {
    TextLeTotal(key, FirstKey(store, prefix).value);
  }

  /** A key that is there itself comes before all keys that extend it. */
  lemma OwnKeyFirst(store: Store, key: string)
    requires key in store
    ensures FirstKey(store, key) == Some(key)
  {
    assert key <= key;
    forall other <- Under(store, key)
      ensures TextLe(key, other)
    {
      PrefixLe(key, other);
    }
    FirstKeyIs(store, key, key);
  }

  predicate IsOldest(store: Store, keys: set<string>, key: string) {
    && key in keys && key in store
    && forall other <- keys :: other in store ==> store[key].createRev <= store[other].createRev
  }

  lemma {:induction false} OldestExists(store: Store, keys: set<string>)
    requires keys != {} && keys <= store.Keys
    ensures exists key :: IsOldest(store, keys, key)
    decreases |keys|
  {
    var key :| key in keys;
    var rest := keys - {key};
    if rest == {} {
      assert keys == {key};
      assert IsOldest(store, keys, key);
    } else {
      assert |rest| < |keys|;
      OldestExists(store, rest);
      var oldest :| IsOldest(store, rest, oldest);
      assert IsOldest(store, keys, if store[oldest].createRev < store[key].createRev then oldest else key);
    }
  }

  /** A read WithFirstCreate: a key under the prefix with the smallest create revision. */
  ghost function FirstCreated(store: Store, prefix: string): (r: Option<string>)
    ensures match r
      case None => Under(store, prefix) == {}
      case Some(key) => IsOldest(store, Under(store, prefix), key)
  {
    if Under(store, prefix) == {} then None
    else
      OldestExists(store, Under(store, prefix));
      var key :| IsOldest(store, Under(store, prefix), key);
      Some(key)
  }

  /** It is unique in every store of a history. */
  lemma FirstCreatedIs(history: seq<Store>, r: nat, prefix: string, key: string)
    requires Grows(history) && r < |history| && IsOldest(history[r], Under(history[r], prefix), key)
    ensures FirstCreated(history[r], prefix) == Some(key)
  {
    CreationIdentifies(history, r, key, r, FirstCreated(history[r], prefix).value);
  }
}
