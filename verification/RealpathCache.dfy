/** The realpath cache: chains of buckets, purged while they are searched, under a byte budget.

    The ghost field `log` is the plain newest-first list of everything that was added and not
    deleted.  The chains may have lost expired entries of it and nothing else. */
module RealpathCache {
  import opened Wrappers
  import opened PathSpec

  const CHAINS: nat := 1024
  const SIZEOF_BUCKET: nat := 56

  datatype Bucket = Bucket(key: nat, path: string, realpath: string, isDir: bool, expires: int)

  /** The bytes of a bucket: a resolved path equal to its key shares the key's bytes */
  function BucketSize(b: Bucket): nat {
    SIZEOF_BUCKET + |b.path| + 1 + if b.path == b.realpath then 0 else |b.realpath| + 1
  }

  predicate Expired(b: Bucket, ttl: int, t: int) {
    ttl != 0 && b.expires < t
  }

  // ---------- The plain list ----------

  function FirstLive(log: seq<Bucket>, path: string, ttl: int, t: int): (r: Option<Bucket>)
    ensures r.Some? ==> r.value in log && r.value.path == path && !Expired(r.value, ttl, t)
  {
    if log == [] then None
    else if log[0].path == path && !Expired(log[0], ttl, t) then Some(log[0])
    else FirstLive(log[1..], path, ttl, t)
  }

  /** What a lookup must answer: the newest entry of the path whose time has not come, where a ttl of 0
      means that it never does */
  ghost predicate NewestLive(log: seq<Bucket>, path: string, ttl: int, t: int, r: Option<Bucket>) {
    match r
    case None => forall i :: 0 <= i < |log| && log[i].path == path ==> ttl != 0 && log[i].expires < t
    case Some(b) =>
      exists k :: 0 <= k < |log| && log[k] == b && b.path == path && (ttl == 0 || t <= b.expires) &&
                  forall i :: 0 <= i < k && log[i].path == path ==> ttl != 0 && log[i].expires < t
  }

  lemma {:induction false} FirstLiveMeans(log: seq<Bucket>, path: string, ttl: int, t: int)
    ensures NewestLive(log, path, ttl, t, FirstLive(log, path, ttl, t))
  {
    if log != [] && (log[0].path != path || Expired(log[0], ttl, t)) {
      var rest, r := log[1..], FirstLive(log[1..], path, ttl, t);
      FirstLiveMeans(rest, path, ttl, t);
      if r.Some? {
        var k :| 0 <= k < |rest| && rest[k] == r.value && r.value.path == path && (ttl == 0 || t <= r.value.expires) &&
          forall i :: 0 <= i < k && rest[i].path == path ==> ttl != 0 && rest[i].expires < t;
        forall i | 0 <= i < k + 1 && log[i].path == path ensures ttl != 0 && log[i].expires < t {
          assert i > 0 ==> log[i] == rest[i - 1];
        }
        assert log[k + 1] == r.value;
      } else {
        forall i | 0 <= i < |log| && log[i].path == path ensures ttl != 0 && log[i].expires < t {
          assert i > 0 ==> log[i] == rest[i - 1];
        }
      }
    }
  }

  lemma {:induction false} FirstLiveAt(chain: seq<Bucket>, k: nat, path: string, ttl: int, t: int)
    requires k < |chain|
    ensures FirstLive(chain[k..], path, ttl, t) ==
      if chain[k].path == path && !Expired(chain[k], ttl, t) then Some(chain[k])
      else FirstLive(chain[k + 1..], path, ttl, t)
  {
  }

  function RemoveFirst(log: seq<Bucket>, path: string): seq<Bucket> {
    if log == [] then []
    else if log[0].path == path then log[1..]
    else [log[0]] + RemoveFirst(log[1..], path)
  }

  ghost predicate Descending(log: seq<Bucket>) {
    forall i, j :: 0 <= i < j < |log| ==> log[i].expires >= log[j].expires
  }

  ghost predicate Keyed(hash: string -> nat, log: seq<Bucket>) {
    forall b :: b in log ==> b.key == hash(b.path)
  }

  /** `chain` is the part of `log` that belongs to chain `n`, less some entries that have expired */
  ghost predicate Holds(log: seq<Bucket>, chain: seq<Bucket>, n: nat, ttl: int, clock: int)
    decreases |log|
  {
    if log == [] then chain == []
    else if log[0].key % CHAINS != n then Holds(log[1..], chain, n, ttl, clock)
    else
      || (chain != [] && chain[0] == log[0] && Holds(log[1..], chain[1..], n, ttl, clock))
      || (Expired(log[0], ttl, clock) && Holds(log[1..], chain, n, ttl, clock))
  }

  lemma {:induction false} HoldsMembers(log: seq<Bucket>, chain: seq<Bucket>, n: nat, ttl: int, clock: int)
    requires Holds(log, chain, n, ttl, clock)
    ensures forall b :: b in chain ==> b in log && b.key % CHAINS == n
    decreases |log|
  {
    if log != [] {
      if log[0].key % CHAINS != n || (Expired(log[0], ttl, clock) && Holds(log[1..], chain, n, ttl, clock)) {
        HoldsMembers(log[1..], chain, n, ttl, clock);
      } else {
        HoldsMembers(log[1..], chain[1..], n, ttl, clock);
        assert chain == [chain[0]] + chain[1..];
      }
      assert forall b :: b in log[1..] ==> b in log;
    }
  }

  lemma {:induction false} HoldsLater(log: seq<Bucket>, chain: seq<Bucket>, n: nat, ttl: int, clock: int, later: int)
    requires Holds(log, chain, n, ttl, clock) && clock <= later
    ensures Holds(log, chain, n, ttl, later)
    decreases |log|
  {
    if log != [] {
      if log[0].key % CHAINS != n || (Expired(log[0], ttl, clock) && Holds(log[1..], chain, n, ttl, clock)) {
        HoldsLater(log[1..], chain, n, ttl, clock, later);
      } else {
        HoldsLater(log[1..], chain[1..], n, ttl, clock, later);
      }
    }
  }

  /** An expired bucket may leave the chain */
  lemma {:induction false} HoldsPurge(log: seq<Bucket>, chain: seq<Bucket>, n: nat, ttl: int, clock: int, k: nat)
    requires Holds(log, chain, n, ttl, clock)
    requires k < |chain| && Expired(chain[k], ttl, clock)
    ensures Holds(log, chain[..k] + chain[k + 1..], n, ttl, clock)
    decreases |log|
  {
    var shorter := chain[..k] + chain[k + 1..];
    if log[0].key % CHAINS != n || (Expired(log[0], ttl, clock) && Holds(log[1..], chain, n, ttl, clock)) {
      HoldsPurge(log[1..], chain, n, ttl, clock, k);
    } else if k == 0 {
      assert shorter == chain[1..];
    } else {
      HoldsPurge(log[1..], chain[1..], n, ttl, clock, k - 1);
      assert shorter[1..] == chain[1..][..k - 1] + chain[1..][k..];
    }
  }

  /** Searching the chain of a path answers like searching the whole list */
  lemma {:induction false} ChainAnswersList(hash: string -> nat, log: seq<Bucket>, chain: seq<Bucket>, path: string, ttl: int, clock: int, t: int)
    requires Keyed(hash, log) && clock <= t
    requires Holds(log, chain, hash(path) % CHAINS, ttl, clock)
    ensures FirstLive(chain, path, ttl, t) == FirstLive(log, path, ttl, t)
    decreases |log|
  {
    if log != [] {
      var n := hash(path) % CHAINS;
      assert log[0] in log && forall b :: b in log[1..] ==> b in log;
      if log[0].key % CHAINS != n || (Expired(log[0], ttl, clock) && Holds(log[1..], chain, n, ttl, clock)) {
        ChainAnswersList(hash, log[1..], chain, path, ttl, clock, t);
      } else {
        ChainAnswersList(hash, log[1..], chain[1..], path, ttl, clock, t);
      }
    }
  }

  lemma {:induction false} RemoveFirstAbsent(log: seq<Bucket>, path: string)
    requires forall b :: b in log ==> b.path != path
    ensures RemoveFirst(log, path) == log
  {
    if log != [] {
      assert log[0] in log && forall b :: b in log[1..] ==> b in log;
      RemoveFirstAbsent(log[1..], path);
    }
  }

  lemma {:induction false} RemoveFirstAt(log: seq<Bucket>, path: string, k: nat)
    requires k < |log| && log[k].path == path
    requires forall i :: 0 <= i < k ==> log[i].path != path
    ensures RemoveFirst(log, path) == log[..k] + log[k + 1..]
  {
    if k > 0 {
      RemoveFirstAt(log[1..], path, k - 1);
      assert log[..k] == [log[0]] + log[1..][..k - 1];
      assert log[1..][k..] == log[k + 1..];
    } else {
      assert log[0].path == path;
      assert log[..0] + log[1..] == log[1..];
    }
  }

  /** Deleting from the chain matches deleting from the list, as long as newer entries expire later */
  lemma {:induction false} HoldsDelete(hash: string -> nat, log: seq<Bucket>, chain: seq<Bucket>, path: string, ttl: int, clock: int)
    requires Keyed(hash, log) && Descending(log)
    requires Holds(log, chain, hash(path) % CHAINS, ttl, clock)
    ensures Holds(RemoveFirst(log, path), RemoveFirst(chain, path), hash(path) % CHAINS, ttl, clock)
    decreases |log|
  {
    if log != [] {
      var n := hash(path) % CHAINS;
      var rest := log[1..];
      assert log[0] in log && forall b :: b in rest ==> b in log;
      var smaller := RemoveFirst(log, path);
      if log[0].path == path {
        if Expired(log[0], ttl, clock) && Holds(rest, chain, n, ttl, clock) {
          PurgeMatch(log, chain, path, n, ttl, clock);
        }
      } else {
        assert smaller == [log[0]] + RemoveFirst(rest, path);
        assert smaller[1..] == RemoveFirst(rest, path);
        if log[0].key % CHAINS != n || (Expired(log[0], ttl, clock) && Holds(rest, chain, n, ttl, clock)) {
          HoldsDelete(hash, rest, chain, path, ttl, clock);
        } else {
          HoldsDelete(hash, rest, chain[1..], path, ttl, clock);
          assert RemoveFirst(chain, path)[1..] == RemoveFirst(chain[1..], path);
        }
      }
    }
  }

  lemma {:induction false} PurgeMatch(log: seq<Bucket>, chain: seq<Bucket>, path: string, n: nat, ttl: int, clock: int)
    requires log != [] && Descending(log) && Expired(log[0], ttl, clock)
    requires Holds(log[1..], chain, n, ttl, clock)
    ensures Holds(log[1..], RemoveFirst(chain, path), n, ttl, clock)
  {
    HoldsMembers(log[1..], chain, n, ttl, clock);
    if k :| 0 <= k < |chain| && chain[k].path == path {
      var m := FirstMatch(chain, path, k);
      RemoveFirstAt(chain, path, m);
      assert chain[m] in log[1..];
      var i :| 0 <= i < |log[1..]| && log[1..][i] == chain[m];
      assert log[0].expires >= log[i + 1].expires;
      HoldsPurge(log[1..], chain, n, ttl, clock, m);
    } else {
      RemoveFirstAbsent(chain, path);
    }
  }

  lemma {:induction false} FirstMatch(chain: seq<Bucket>, path: string, k: nat) returns (m: nat)
    requires k < |chain| && chain[k].path == path
    ensures m < |chain| && chain[m].path == path && forall i :: 0 <= i < m ==> chain[i].path != path
  {
    m := 0;
    while chain[m].path != path
      invariant m <= k && forall i :: 0 <= i < m ==> chain[i].path != path
      decreases k - m
    {
      m := m + 1;
    }
  }

  function Without<T>(s: seq<T>, k: nat): seq<T>
    requires k < |s|
  {
    s[..k] + s[k + 1..]
  }

  /** Whatever the clock did, a bucket may leave the chain together with an entry of the list that
      it stands for */
  lemma {:induction false} HoldsMatched(log: seq<Bucket>, chain: seq<Bucket>, n: nat, ttl: int, clock: int, k: nat)
      returns (i: nat)
    requires Holds(log, chain, n, ttl, clock) && k < |chain|
    ensures i < |log| && log[i] == chain[k]
    ensures Holds(Without(log, i), Without(chain, k), n, ttl, clock)
    decreases |log|
  {
    if log[0].key % CHAINS != n || (Expired(log[0], ttl, clock) && Holds(log[1..], chain, n, ttl, clock)) {
      i := HoldsMatched(log[1..], chain, n, ttl, clock, k);
      i := i + 1;
      assert Without(log, i)[1..] == Without(log[1..], i - 1);
    } else if k == 0 {
      i := 0;
      assert Without(log, 0) == log[1..] && Without(chain, 0) == chain[1..];
    } else {
      i := HoldsMatched(log[1..], chain[1..], n, ttl, clock, k - 1);
      i := i + 1;
      assert Without(log, i)[1..] == Without(log[1..], i - 1);
      assert Without(chain, k)[1..] == Without(chain[1..], k - 1);
    }
  }

  /** An entry of the list that belongs to another chain may leave */
  lemma {:induction false} HoldsOther(log: seq<Bucket>, chain: seq<Bucket>, n: nat, ttl: int, clock: int, i: nat)
    requires Holds(log, chain, n, ttl, clock) && i < |log| && log[i].key % CHAINS != n
    ensures Holds(Without(log, i), chain, n, ttl, clock)
    decreases |log|
  {
    if i == 0 {
      assert Without(log, 0) == log[1..];
    } else {
      assert Without(log, i)[1..] == Without(log[1..], i - 1);
      if log[0].key % CHAINS != n || (Expired(log[0], ttl, clock) && Holds(log[1..], chain, n, ttl, clock)) {
        HoldsOther(log[1..], chain, n, ttl, clock, i - 1);
      } else {
        HoldsOther(log[1..], chain[1..], n, ttl, clock, i - 1);
      }
    }
  }

  lemma {:induction false} HoldsElsewhere(hash: string -> nat, log: seq<Bucket>, chain: seq<Bucket>, path: string, n: nat, ttl: int, clock: int)
    requires Keyed(hash, log) && n != hash(path) % CHAINS
    requires Holds(log, chain, n, ttl, clock)
    ensures Holds(RemoveFirst(log, path), chain, n, ttl, clock)
    decreases |log|
  {
    if log != [] {
      var rest := log[1..];
      assert log[0] in log && forall b :: b in rest ==> b in log;
      if log[0].path != path {
        var smaller := RemoveFirst(log, path);
        assert smaller[1..] == RemoveFirst(rest, path);
        if log[0].key % CHAINS != n || (Expired(log[0], ttl, clock) && Holds(rest, chain, n, ttl, clock)) {
          HoldsElsewhere(hash, rest, chain, path, n, ttl, clock);
        } else {
          HoldsElsewhere(hash, rest, chain[1..], path, n, ttl, clock);
        }
      }
    }
  }

  lemma {:induction false} RemoveFirstMembers(log: seq<Bucket>, path: string)
    ensures forall b :: b in RemoveFirst(log, path) ==> b in log
    ensures Descending(log) ==> Descending(RemoveFirst(log, path))
    ensures log != [] && RemoveFirst(log, path) != [] && Descending(log) ==>
      RemoveFirst(log, path)[0].expires <= log[0].expires
  {
    if k :| 0 <= k < |log| && log[k].path == path {
      var m := FirstMatch(log, path, k);
      RemoveFirstAt(log, path, m);
    } else {
      RemoveFirstAbsent(log, path);
    }
  }

  // ---------- Bytes ----------

  function ChainBytes(chain: seq<Bucket>): nat {
    if chain == [] then 0 else BucketSize(chain[0]) + ChainBytes(chain[1..])
  }

  function TableBytes(table: seq<seq<Bucket>>): nat {
    if table == [] then 0 else ChainBytes(table[0]) + TableBytes(table[1..])
  }

  lemma {:induction false} ChainBytesRemove(chain: seq<Bucket>, k: nat)
    requires k < |chain|
    ensures ChainBytes(chain) == ChainBytes(chain[..k] + chain[k + 1..]) + BucketSize(chain[k])
  {
    var shorter := chain[..k] + chain[k + 1..];
    if k == 0 {
      assert shorter == chain[1..];
    } else {
      ChainBytesRemove(chain[1..], k - 1);
      assert shorter[1..] == chain[1..][..k - 1] + chain[1..][k..];
    }
  }

  lemma {:induction false} TableBytesUpdate(table: seq<seq<Bucket>>, n: nat, chain: seq<Bucket>)
    requires n < |table|
    ensures TableBytes(table[n := chain]) == TableBytes(table) - ChainBytes(table[n]) + ChainBytes(chain)
  {
    var table' := table[n := chain];
    if n == 0 {
      assert table'[1..] == table[1..];
    } else {
      TableBytesUpdate(table[1..], n - 1, chain);
      assert table'[1..] == table[1..][n - 1 := chain];
    }
  }

  lemma {:induction false} TableBytesEmpty(table: seq<seq<Bucket>>)
    requires forall i :: 0 <= i < |table| ==> table[i] == []
    ensures TableBytes(table) == 0
  {
    if table != [] {
      TableBytesEmpty(table[1..]);
    }
  }

  // ---------- The cache ----------

  class Cache {
    const hash: string -> nat
    const limit: nat
    const ttl: int
    const chains: array<seq<Bucket>>
    var size: int
    ghost var log: seq<Bucket>
    ghost var clock: int      // the latest time the cache was searched or filled at
    ghost var monotone: bool  // whether time has never run backwards so far

    ghost predicate Valid()
      reads this, chains
    {
      && chains.Length == CHAINS
      && Keyed(hash, log)
      && (forall n :: 0 <= n < CHAINS ==> Holds(log, chains[n], n, ttl, clock))
      && size == TableBytes(chains[..])
      && size <= limit
      && (monotone ==> Descending(log) && (log != [] ==> log[0].expires <= clock + ttl))
    }

    constructor (hash: string -> nat, limit: nat, ttl: int, ghost now: int)
      ensures Valid() && fresh(chains)
      ensures this.hash == hash && this.limit == limit && this.ttl == ttl
      ensures log == [] && monotone && clock == now
    {
      this.hash := hash;
      this.limit := limit;
      this.ttl := ttl;
      this.chains := new seq<Bucket>[CHAINS](_ => []);
      this.size := 0;
      this.log := [];
      this.clock := now;
      this.monotone := true;
      new;
      TableBytesEmpty(chains[..]);
    }

    /** Every bucket sits in the chain its key names */
    lemma {:induction false} Placed(n: nat, k: nat)
      requires Valid() && n < CHAINS && k < |chains[n]|
      ensures chains[n][k].key == hash(chains[n][k].path) && chains[n][k].key % CHAINS == n
      ensures chains[n][k] in log
    {
      HoldsMembers(log, chains[n], n, ttl, clock);
      assert chains[n][k] in chains[n];
    }

    /** Unlinks bucket `k` of chain `n`: the pointer surgery shared by search and deletion */
    method Unlink(n: nat, k: nat)
      requires chains.Length == CHAINS && n < CHAINS && k < |chains[n]|
      requires size == TableBytes(chains[..])
      modifies this`size, chains
      ensures chains[n] == old(chains[n][..k] + chains[n][k + 1..])
      ensures forall m :: 0 <= m < CHAINS && m != n ==> chains[m] == old(chains[m])
      ensures size == TableBytes(chains[..]) && size == old(size) - BucketSize(old(chains[n][k]))
    {
      var b := chains[n][k];
      ghost var before := chains[..];
      ChainBytesRemove(chains[n], k);
      TableBytesUpdate(before, n, chains[n][..k] + chains[n][k + 1..]);
      chains[n] := chains[n][..k] + chains[n][k + 1..];
      assert chains[..] == before[n := chains[n]];
      if b.path == b.realpath {
        size := size - (SIZEOF_BUCKET + |b.path| + 1);
      } else {
        size := size - (SIZEOF_BUCKET + |b.path| + 1 + |b.realpath| + 1);
      }
    }

    /** Time moves to `t`, or has run backwards */
    ghost method Tick(t: int)
      requires Valid()
      modifies this`clock, this`monotone
      ensures Valid()
      ensures clock == (if old(clock) <= t then t else old(clock))
      ensures monotone == (old(monotone) && old(clock) <= t)
    {
      forall m | 0 <= m < CHAINS && clock <= t ensures Holds(log, chains[m], m, ttl, t) {
        HoldsLater(log, chains[m], m, ttl, clock, t);
      }
      monotone := monotone && clock <= t;
      clock := if clock <= t then t else clock;
    }

    /** Frees a bucket that has expired */
    method Purge(n: nat, k: nat)
      requires Valid() && n < CHAINS && k < |chains[n]| && Expired(chains[n][k], ttl, clock)
      modifies this`size, chains
      ensures Valid() && size <= old(size)
      ensures chains[n] == old(chains[n][..k] + chains[n][k + 1..])
    {
      HoldsPurge(log, chains[n], n, ttl, clock, k);
      Unlink(n, k);
    }

    /** realpath_cache_find: walks one chain, freeing what has expired, up to the first live match */
    method Find(path: string, t: int) returns (r: Option<Bucket>)
      requires Valid()
      modifies this, chains
      ensures Valid()
      ensures log == old(log) && size <= old(size)
      ensures r.Some? ==> r.value in log && r.value.path == path && !Expired(r.value, ttl, t)
      ensures old(clock) <= t ==> r == FirstLive(log, path, ttl, t) && NewestLive(log, path, ttl, t, r)
      ensures clock == (if old(clock) <= t then t else old(clock))
      ensures monotone == (old(monotone) && old(clock) <= t)
    {
      FirstLiveMeans(log, path, ttl, t);
      if clock <= t {
        ChainAnswersList(hash, log, chains[hash(path) % CHAINS], path, ttl, clock, t);
      }
      Tick(t);
      r := Search(path, t);
    }

    method Search(path: string, t: int) returns (r: Option<Bucket>)
      requires Valid() && t <= clock
      modifies this`size, chains
      ensures Valid() && size <= old(size)
      ensures r == old(FirstLive(chains[hash(path) % CHAINS], path, ttl, t))
      ensures r.Some? ==> r.value in log
    {
      var key := hash(path);
      var n := key % CHAINS;
      ghost var answer := FirstLive(chains[n], path, ttl, t);
      var k := 0;
      assert chains[n][0..] == chains[n];
      while k < |chains[n]|
        invariant 0 <= k <= |chains[n]|
        invariant Valid() && size <= old(size)
        invariant FirstLive(chains[n][k..], path, ttl, t) == answer
        decreases |chains[n]| - k
        modifies this`size, chains
      {
        var b := chains[n][k];
        Placed(n, k);
        FirstLiveAt(chains[n], k, path, ttl, t);
        if ttl != 0 && b.expires < t {
          ghost var c := chains[n];
          Purge(n, k);
          assert chains[n][k..] == c[k + 1..];
        } else if key == b.key && |path| == |b.path| && path == b.path {
          return Some(b);
        } else {
          k := k + 1;
        }
      }
      return None;
    }

    /** realpath_cache_add: a bucket that does not fit the budget is silently dropped */
    method Add(path: string, realpath: string, isDir: bool, t: int)
      requires Valid()
      modifies this, chains
      ensures Valid()
      ensures
        var b := Bucket(hash(path), path, realpath, isDir, t + ttl);
        if old(size) + BucketSize(b) <= limit
        then log == [b] + old(log) && size == old(size) + BucketSize(b)
        else log == old(log) && size == old(size)
      ensures clock == (if old(clock) <= t then t else old(clock))
      ensures monotone == (old(monotone) && old(clock) <= t)
    {
      var bytes := SIZEOF_BUCKET + |path| + 1;
      if |realpath| != |path| || path != realpath {
        bytes := bytes + |realpath| + 1;
      }
      Tick(t);
      if size + bytes <= limit {
        var b := Bucket(hash(path), path, realpath, isDir, t + ttl);
        var n := b.key % CHAINS;
        ghost var before := chains[..];
        TableBytesUpdate(before, n, [b] + chains[n]);
        assert ([b] + chains[n])[1..] == chains[n];
        chains[n] := [b] + chains[n];
        assert chains[..] == before[n := chains[n]];
        size := size + bytes;
        log := [b] + log;
        assert log[1..] == old(log);
        assert chains[n][1..] == before[n];
      }
    }

    /** Unlinks the first bucket of a path, and strikes an entry off the list: the path's first one,
        or, where the clock has run backwards, the one the bucket stands for */
    method DelBucket(path: string, n: nat, k: nat)
      requires Valid()
      requires n == hash(path) % CHAINS && k < |chains[n]| && chains[n][k].path == path
      requires forall i :: 0 <= i < k ==> chains[n][i].path != path
      modifies this`size, this`log, chains
      ensures Valid() && size == old(size) - BucketSize(old(chains[n][k]))
      ensures monotone ==> log == RemoveFirst(old(log), path)
      ensures forall b :: b in log ==> b in old(log)
      ensures chains[n] == RemoveFirst(old(chains[n]), path)
      ensures forall m :: 0 <= m < CHAINS && m != n ==> chains[m] == old(chains[m])
    {
      ghost var log' := StrikeOff(path, n, k);
      RemoveFirstAt(chains[n], path, k);
      Unlink(n, k);
      log := log';
    }

    /** realpath_cache_del: removes the first bucket of the path from its chain, expired or not */
    method Del(path: string)
      requires Valid()
      modifies this, chains
      ensures Valid() && clock == old(clock) && monotone == old(monotone)
      ensures monotone ==> log == RemoveFirst(old(log), path)
      ensures forall b :: b in log ==> b in old(log)
      ensures size <= old(size)
      ensures chains[hash(path) % CHAINS] == RemoveFirst(old(chains[hash(path) % CHAINS]), path)
      ensures forall m :: 0 <= m < CHAINS && m != hash(path) % CHAINS ==> chains[m] == old(chains[m])
    {
      var key := hash(path);
      var n := key % CHAINS;
      var k := 0;
      while k < |chains[n]|
        invariant unchanged(this, chains)
        invariant 0 <= k <= |chains[n]|
        invariant forall i :: 0 <= i < k ==> chains[n][i].path != path
      {
        var b := chains[n][k];
        Placed(n, k);
        if key == b.key && |path| == |b.path| && path == b.path {
          DelBucket(path, n, k);
          return;
        }
        k := k + 1;
      }
      RemoveFirstAbsent(chains[n], path);
      if monotone {
        LogDeletion(path);
        RemoveFirstMembers(log, path);
        log := RemoveFirst(log, path);
      }
    }

    /** What the list becomes when bucket `k` of chain `n` goes */
    lemma {:induction false} StrikeOff(path: string, n: nat, k: nat) returns (log': seq<Bucket>)
      requires Valid() && n == hash(path) % CHAINS && k < |chains[n]| && chains[n][k].path == path
      requires forall i :: 0 <= i < k ==> chains[n][i].path != path
      ensures monotone ==> log' == RemoveFirst(log, path)
      ensures forall b :: b in log' ==> b in log
      ensures Keyed(hash, log') && Holds(log', Without(chains[n], k), n, ttl, clock)
      ensures forall m :: 0 <= m < CHAINS && m != n ==> Holds(log', chains[m], m, ttl, clock)
      ensures monotone ==> Descending(log') && (log' != [] ==> log'[0].expires <= clock + ttl)
    {
      if monotone {
        log' := RemoveFirst(log, path);
        LogDeletion(path);
        RemoveFirstMembers(log, path);
        RemoveFirstAt(chains[n], path, k);
      } else {
        Placed(n, k);
        var i := HoldsMatched(log, chains[n], n, ttl, clock, k);
        log' := Without(log, i);
        forall m | 0 <= m < CHAINS && m != n ensures Holds(log', chains[m], m, ttl, clock) {
          HoldsOther(log, chains[m], m, ttl, clock, i);
        }
      }
    }

    lemma {:induction false} LogDeletion(path: string)
      requires Valid() && monotone
      ensures
        var log', n := RemoveFirst(log, path), hash(path) % CHAINS;
        && Keyed(hash, log')
        && Holds(log', RemoveFirst(chains[n], path), n, ttl, clock)
        && (forall m :: 0 <= m < CHAINS && m != n ==> Holds(log', chains[m], m, ttl, clock))
        && Descending(log') && (log' != [] ==> log'[0].expires <= clock + ttl)
    {
      var n := hash(path) % CHAINS;
      HoldsDelete(hash, log, chains[n], path, ttl, clock);
      forall m | 0 <= m < CHAINS && m != n ensures Holds(RemoveFirst(log, path), chains[m], m, ttl, clock) {
        HoldsElsewhere(hash, log, chains[m], path, m, ttl, clock);
      }
      RemoveFirstMembers(log, path);
    }

    /** realpath_cache_clean */
    method Clean()
      requires Valid()
      modifies this, chains
      ensures Valid() && log == [] && size == 0 && clock == old(clock) && monotone == old(monotone)
      ensures forall n :: 0 <= n < CHAINS ==> chains[n] == []
    {
      var i := 0;
      while i < chains.Length
        invariant 0 <= i <= chains.Length
        invariant forall n :: 0 <= n < i ==> chains[n] == []
        modifies chains
      {
        chains[i] := [];
        i := i + 1;
      }
      size := 0;
      log := [];
      TableBytesEmpty(chains[..]);
    }
  }
}
