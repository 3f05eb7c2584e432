/** The bounded, least-recently-used cache of built HTTP clients. */
module ClientCaching {
  import opened Results
  import opened Timeouts

  /** `CLIENT_CACHE_LIMIT`: the most keys the recency queue keeps. */
  const CacheLimit: nat := 1024

  /** `ClientKey`: the emulation label, the proxy URL and the timeout bucket a
      client was built for. Equality is structural, as the derived `Eq`. */
  datatype ClientKey = ClientKey(emulation: string, proxy: Option<string>, timeoutBucket: u64)

  /** The keys occurring in a queue. */
  function Keys(s: seq<ClientKey>): (ks: set<ClientKey>)
    ensures forall x :: x in ks <==> x in s
  {
    set x | x in s
  }

  ghost predicate NoDup(s: seq<ClientKey>) {
    forall i, j :: 0 <= i < j < |s| ==> s[i] != s[j]
  }

  /** `x` stands somewhere before `y` in `s`. */
  ghost predicate Precedes(s: seq<ClientKey>, x: ClientKey, y: ClientKey) {
    exists i, j :: 0 <= i < j < |s| && s[i] == x && s[j] == y
  }

  /** The queue after `retain(|existing| existing != key)`: every occurrence
      of `key` removed, everything else kept in its order. */
  function Without(s: seq<ClientKey>, key: ClientKey): (r: seq<ClientKey>)
    ensures forall x :: x in r <==> x in s && x != key
    ensures |r| <= |s|
  {
    if s == [] then []
    else if s[0] == key then Without(s[1..], key)
    else [s[0]] + Without(s[1..], key)
  }

  /** The queue after `retain` and `push_back`, before any eviction. */
  function Requeued(order: seq<ClientKey>, key: ClientKey): seq<ClientKey> {
    Without(order, key) + [key]
  }

  /** How many keys the `pop_front` loop removes. */
  function EvictCount(order: seq<ClientKey>, key: ClientKey): nat {
    var q := Requeued(order, key);
    if |q| > CacheLimit then |q| - CacheLimit else 0
  }

  /** The queue `bump_key` leaves behind. */
  function Bumped(order: seq<ClientKey>, key: ClientKey): (r: seq<ClientKey>)
    ensures 1 <= |r| <= CacheLimit
    ensures r[|r| - 1] == key
  {
    Requeued(order, key)[EvictCount(order, key)..]
  }

  /** The keys `bump_key` pops from the front of the queue, oldest first. */
  function Evicted(order: seq<ClientKey>, key: ClientKey): (r: seq<ClientKey>)
    ensures |r| < |Requeued(order, key)| && r == Requeued(order, key)[..|r|]
    ensures |Requeued(order, key)| <= CacheLimit ==> r == []
    ensures |order| <= CacheLimit ==> |r| <= 1
  {
    Requeued(order, key)[..EvictCount(order, key)]
  }

  lemma {:induction false} WithoutNoDup(s: seq<ClientKey>, key: ClientKey)
    requires NoDup(s)
    ensures NoDup(Without(s, key))
  {
    if s != [] {
      WithoutNoDup(s[1..], key);
      if s[0] != key {
        var w := Without(s[1..], key);
        assert s[0] !in w;
        forall i, j | 0 <= i < j < |[s[0]] + w| ensures ([s[0]] + w)[i] != ([s[0]] + w)[j] {
          if i > 0 {
            assert ([s[0]] + w)[i] == w[i - 1];
          }
        }
      }
    }
  }

  /** Removing a key that is absent changes nothing. */
  lemma {:induction false} WithoutAbsent(s: seq<ClientKey>, key: ClientKey)
    requires key !in s
    ensures Without(s, key) == s
  {
    if s != [] {
      WithoutAbsent(s[1..], key);
      assert [s[0]] + s[1..] == s;
    }
  }

  /** Removing a key that occurs once shortens the queue by exactly one. */
  lemma {:induction false} WithoutPresentLength(s: seq<ClientKey>, key: ClientKey)
    requires NoDup(s) && key in s
    ensures |Without(s, key)| == |s| - 1
  {
    if s[0] == key {
      assert key !in s[1..] by {
        forall j | 0 <= j < |s[1..]| ensures s[1..][j] != key {
          assert s[1..][j] == s[j + 1];
        }
      }
      WithoutAbsent(s[1..], key);
    } else {
      assert key in s[1..];
      WithoutPresentLength(s[1..], key);
    }
  }

  lemma PrecedesCons(a: ClientKey, t: seq<ClientKey>, x: ClientKey, y: ClientKey)
    ensures Precedes([a] + t, x, y) <==> (a == x && y in t) || Precedes(t, x, y)
  {
    var s := [a] + t;
    if Precedes(s, x, y) {
      var i, j :| 0 <= i < j < |s| && s[i] == x && s[j] == y;
      if i == 0 {
        assert t[j - 1] == y;
      } else {
        assert t[i - 1] == x && t[j - 1] == y;
      }
    }
    if a == x && y in t {
      var j :| 0 <= j < |t| && t[j] == y;
      assert s[0] == x && s[j + 1] == y;
    }
    if Precedes(t, x, y) {
      var i, j :| 0 <= i < j < |t| && t[i] == x && t[j] == y;
      assert s[i + 1] == x && s[j + 1] == y;
    }
  }

  /** `retain` is order-preserving: two other keys keep their relative order. */
  lemma {:induction false} WithoutKeepsOrder(s: seq<ClientKey>, key: ClientKey, x: ClientKey, y: ClientKey)
    requires x != key && y != key
    ensures Precedes(Without(s, key), x, y) <==> Precedes(s, x, y)
  {
    if s == [] {
    } else {
      WithoutKeepsOrder(s[1..], key, x, y);
      assert s == [s[0]] + s[1..];
      PrecedesCons(s[0], s[1..], x, y);
      if s[0] != key {
        PrecedesCons(s[0], Without(s[1..], key), x, y);
      }
    }
  }

  /** Facts about the requeued queue that the lemmas below share. */
  lemma RequeuedShape(order: seq<ClientKey>, key: ClientKey)
    requires NoDup(order)
    ensures NoDup(Requeued(order, key))
    ensures Evicted(order, key) + Bumped(order, key) == Requeued(order, key)
    ensures EvictCount(order, key) < |Requeued(order, key)|
  {
    WithoutNoDup(order, key);
    var w, q := Without(order, key), Requeued(order, key);
    forall i, j | 0 <= i < j < |q| ensures q[i] != q[j] {
      if j == |q| - 1 {
        assert q[i] == w[i] && w[i] in w && q[j] == key;
      } else {
        assert q[i] == w[i] && q[j] == w[j];
      }
    }
  }

  /** Cutting a duplicate-free queue splits its keys between the two parts. */
  lemma CutKeys(q: seq<ClientKey>, n: nat)
    requires NoDup(q) && n <= |q|
    ensures NoDup(q[n..])
    ensures Keys(q[n..]) == Keys(q) - Keys(q[..n])
  {
    forall x | x in q[n..] ensures x !in q[..n] {
      var j :| 0 <= j < |q[n..]| && q[n..][j] == x;
      assert q[n + j] == x;
      forall i | 0 <= i < n ensures q[..n][i] != x {
        assert q[..n][i] == q[i];
      }
    }
    forall x | x in q && x !in q[..n] ensures x in q[n..] {
      var i :| 0 <= i < |q| && q[i] == x;
      assert i >= n;
      assert q[n..][i - n] == x;
    }
    assert q == q[..n] + q[n..];
  }

  /** After a bump the queue has no duplicates, and the keys it holds are
      the old keys plus the bumped one, minus exactly the evicted ones. */
  lemma BumpPartition(order: seq<ClientKey>, key: ClientKey)
    requires NoDup(order)
    ensures NoDup(Bumped(order, key))
    ensures key !in Evicted(order, key)
    ensures Keys(Bumped(order, key)) == (Keys(order) + {key}) - Keys(Evicted(order, key))
  {
    RequeuedShape(order, key);
    var q, n := Requeued(order, key), EvictCount(order, key);
    CutKeys(q, n);
    assert Keys(q) == Keys(order) + {key};
    assert q[|q| - 1] == key;
    forall i | 0 <= i < n ensures q[..n][i] != key {
      assert q[..n][i] == q[i];
    }
  }

  /** A hit bumps a key already queued: nothing is evicted and the queue
      keeps its length. */
  lemma BumpHitEvictsNothing(order: seq<ClientKey>, key: ClientKey)
    requires NoDup(order) && |order| <= CacheLimit && key in order
    ensures Evicted(order, key) == []
    ensures |Bumped(order, key)| == |order|
  {
    WithoutPresentLength(order, key);
  }

  /** A miss adds one key: the oldest key is evicted exactly when the queue
      was already full, and nothing else is. */
  lemma BumpMissEvictsOldest(order: seq<ClientKey>, key: ClientKey)
    requires |order| <= CacheLimit && key !in order
    ensures |order| < CacheLimit ==> Evicted(order, key) == []
    ensures |order| == CacheLimit ==> Evicted(order, key) == [order[0]]
  {
    WithoutAbsent(order, key);
  }

  /** A key appended at the back does not change the order of the others. */
  lemma PrecedesAppend(w: seq<ClientKey>, key: ClientKey, x: ClientKey, y: ClientKey)
    requires y != key
    ensures Precedes(w + [key], x, y) <==> Precedes(w, x, y)
  {
    var q := w + [key];
    if Precedes(q, x, y) {
      var i, j :| 0 <= i < j < |q| && q[i] == x && q[j] == y;
      assert w[i] == x && w[j] == y;
    }
    if Precedes(w, x, y) {
      var i, j :| 0 <= i < j < |w| && w[i] == x && w[j] == y;
      assert q[i] == x && q[j] == y;
    }
  }

  /** In a queue without duplicates, two keys of a suffix are ordered in the
      suffix as they are in the whole queue. */
  lemma PrecedesSuffix(q: seq<ClientKey>, n: nat, x: ClientKey, y: ClientKey)
    requires n <= |q| && NoDup(q) && x in q[n..] && y in q[n..]
    ensures Precedes(q[n..], x, y) <==> Precedes(q, x, y)
  {
    var b := q[n..];
    if Precedes(b, x, y) {
      var i, j :| 0 <= i < j < |b| && b[i] == x && b[j] == y;
      assert q[n + i] == x && q[n + j] == y;
    }
    if Precedes(q, x, y) {
      var i, j :| 0 <= i < j < |q| && q[i] == x && q[j] == y;
      var i' :| 0 <= i' < |b| && b[i'] == x;
      var j' :| 0 <= j' < |b| && b[j'] == y;
      assert q[n + i'] == x && q[n + j'] == y;
      assert i == n + i' && j == n + j';
    }
  }

  /** Keys other than the bumped one keep their relative order. */
  lemma BumpKeepsOrder(order: seq<ClientKey>, key: ClientKey, x: ClientKey, y: ClientKey)
    requires NoDup(order)
    requires x != key && y != key && x in Bumped(order, key) && y in Bumped(order, key)
    ensures Precedes(Bumped(order, key), x, y) <==> Precedes(order, x, y)
  {
    RequeuedShape(order, key);
    PrecedesSuffix(Requeued(order, key), EvictCount(order, key), x, y);
    PrecedesAppend(Without(order, key), key, x, y);
    WithoutKeepsOrder(order, key, x, y);
  }

  /** Eviction is least-recently-used: every evicted key was queued before
      every key that survives, the bumped one aside. */
  lemma BumpEvictsLeastRecent(order: seq<ClientKey>, key: ClientKey, x: ClientKey, y: ClientKey)
    requires NoDup(order)
    requires x in Evicted(order, key) && y in Bumped(order, key) && y != key
    ensures Precedes(order, x, y)
  {
    RequeuedShape(order, key);
    var q, n, w := Requeued(order, key), EvictCount(order, key), Without(order, key);
    var b := Bumped(order, key);
    var i :| 0 <= i < n && q[i] == x;
    var j :| 0 <= j < |b| && b[j] == y;
    assert q[n + j] == y && n + j < |q| - 1;
    assert w[i] == x && w[n + j] == y;
    WithoutKeepsOrder(order, key, x, y);
  }

  /** `ClientCache`: the map from keys to shared clients and the queue that
      records how recently each key was used, front = least recent. */
  class ClientCache<C> {
    var clients: map<ClientKey, C>
    var order: seq<ClientKey>

    /** What sequential use keeps true: the queue has no duplicates, holds
        exactly the map's keys, and never outgrows the limit. */
    ghost predicate Valid()
      reads this
    {
      NoDup(order) && Keys(order) == clients.Keys && |order| <= CacheLimit
    }

    /** `ClientCache::new`. */
    constructor ()
      ensures Valid()
      ensures clients == map[] && order == []
    {
      clients := map[];
      order := [];
    }

    /** `bump_key`: move `key` to the back of the queue, then pop keys from
        the front, and drop them from the map, until the limit is met. */
    method BumpKey(key: ClientKey)
      modifies this
      ensures order == Bumped(old(order), key)
      ensures clients == old(clients) - Keys(Evicted(old(order), key))
    {
      order := Without(order, key);
      order := order + [key];
      ghost var queued := order;
      ghost var popped := 0;
      while |order| > CacheLimit
        invariant popped <= |queued| && order == queued[popped..]
        invariant popped == 0 || |order| >= CacheLimit
        invariant clients == old(clients) - Keys(queued[..popped])
      {
        var oldest := order[0];
        order := order[1..];
        clients := clients - {oldest};
        assert queued[..popped + 1] == queued[..popped] + [oldest];
        popped := popped + 1;
      }
    }

    /** `get_or_try_insert`, with the outcome of the builder as the input
        `built`. A hit returns the stored client whatever `built` holds, so the
        builder's outcome plays no part; a miss whose builder failed returns the
        error and leaves the cache as it was; a successful miss stores and
        returns the new client. Either success bumps the key. */
    method GetOrTryInsert(key: ClientKey, built: Result<C>) returns (r: Result<C>)
      requires Valid()
      modifies this
      ensures Valid()
      ensures key in old(clients) ==>
        r == Ok(old(clients)[key]) && clients == old(clients) && order == Bumped(old(order), key)
      ensures key !in old(clients) && built.Err? ==>
        r == built && clients == old(clients) && order == old(order)
      ensures key !in old(clients) && built.Ok? ==>
        r == built && order == Bumped(old(order), key) &&
        clients == old(clients)[key := built.value] - Keys(Evicted(old(order), key))
      ensures r.Ok? ==> key in clients && clients[key] == r.value && order[|order| - 1] == key
    {
      BumpPartition(order, key);
      if key in clients {
        var client := clients[key];
        BumpHitEvictsNothing(order, key);
        BumpKey(key);
        return Ok(client);
      }
      if built.Err? {
        return built;
      }
      var client := built.value;
      clients := clients[key := client];
      BumpKey(key);
      r := Ok(client);
    }
  }
}
