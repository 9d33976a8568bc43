/** The filesystem capability handed to the glob matcher (index.js:52-105), the
    rate-limit bookkeeping (index.js:13, 79-81) and the final hydration of the
    matched paths (index.js:106-114). */
module Adapter {
  import opened Wrappers
  import opened RepoCache
  import PathKey

  // ---------------------------------------------------------------- rate limit

  /** The lowest `x-ratelimit-remaining` seen; `Infinity` before any. */
  datatype Limit = Unbounded | Finite(n: int)

  /** `a <= b`, with Unbounded above every finite limit. */
  predicate AtMost(a: Limit, b: Limit)
  {
    match (a, b)
    case (_, Unbounded) => true
    case (Unbounded, Finite(_)) => false
    case (Finite(x), Finite(y)) => x <= y
  }

  /** `Math.min(limit, remaining)`. */
  function MinLimit(l: Limit, remaining: int): (r: Limit)
    ensures AtMost(r, l) && AtMost(r, Finite(remaining))
    ensures r == l || r == Finite(remaining)
  {
    match l
    case Unbounded => Finite(remaining)
    case Finite(n) => if remaining < n then Finite(remaining) else l
  }

  /** The update of index.js:79-81: only a response carrying the header moves the limit. */
  function Observe(l: Limit, remaining: Option<int>): Limit
  {
    match remaining
    case None => l
    case Some(n) => MinLimit(l, n)
  }

  /** The limit after a run of responses, in the order they arrived. */
  function ObserveAll(l: Limit, rs: seq<Option<int>>): Limit
    decreases |rs|
  {
    if rs == [] then l else ObserveAll(Observe(l, rs[0]), rs[1..])
  }

  /** The limit never rises: it is below where it started and below every reported
      count, and it is either where it started or one of the reported counts. */
  lemma {:induction false} ObserveAllIsMinimum(l: Limit, rs: seq<Option<int>>)
    decreases |rs|
    ensures var r := ObserveAll(l, rs);
      && AtMost(r, l)
      && (forall i :: 0 <= i < |rs| && rs[i].Some? ==> AtMost(r, Finite(rs[i].value)))
      && (r == l || exists i :: 0 <= i < |rs| && rs[i] == Some(r.n))
      && ((forall i :: 0 <= i < |rs| ==> rs[i].None?) ==> r == l)
  {
    if rs != [] {
      var l' := Observe(l, rs[0]);
      ObserveAllIsMinimum(l', rs[1..]);
      var r := ObserveAll(l, rs);
      assert r == ObserveAll(l', rs[1..]);
      forall i | 0 <= i < |rs| && rs[i].Some? ensures AtMost(r, Finite(rs[i].value)) {
        if i > 0 {
          assert rs[1..][i - 1] == rs[i];
        }
      }
      if r != l && r != l' {
        var i :| 0 <= i < |rs[1..]| && rs[1..][i] == Some(r.n);
        assert rs[i + 1] == Some(r.n);
      }
      if forall i :: 0 <= i < |rs| ==> rs[i].None? {
        assert rs[0].None?;
        assert forall i :: 0 <= i < |rs[1..]| ==> rs[1..][i] == rs[i + 1];
      }
    }
  }

  /** Starting from `Infinity`, the limit is Unbounded exactly when no response carried
      the header, and otherwise the smallest count reported. */
  lemma SessionLimit(rs: seq<Option<int>>)
    ensures var r := ObserveAll(Unbounded, rs);
      && (r == Unbounded <==> forall i :: 0 <= i < |rs| ==> rs[i].None?)
      && (r.Finite? ==> (exists i :: 0 <= i < |rs| && rs[i] == Some(r.n))
                        && forall i :: 0 <= i < |rs| && rs[i].Some? ==> r.n <= rs[i].value)
  {
    ObserveAllIsMinimum(Unbounded, rs);
  }

  // ---------------------------------------------------------------- readdir

  /** What `github.repos.getContent` hands back: an error, or the entries of the
      directory; either way possibly with the rate-limit header of the response. */
  datatype Reply =
    | Failed(error: string, remaining: Option<int>)
    | Listed(entries: seq<Entry>, remaining: Option<int>)

  /** The cache maps of the bucket together with the run's counters and the limit. */
  datatype Snapshot = Snapshot(
    stat: map<string, StatEntry>,
    readdir: map<string, seq<string>>,
    http: map<string, Entry>,
    cacheHits: nat,
    apiCalls: nat,
    limit: Limit)

  /** The `(err, names)` pair `readdir` passes to its callback. */
  datatype Answer = Answer(error: Option<string>, names: seq<string>)

  /** One `readdir` call whose fetch, if one is made, answers `reply`: a hit when the
      key is cached (index.js:68-74), otherwise a counted fetch that updates the
      limit and, on success, records every entry and the name list (index.js:76-102). */
  function ReaddirStep(s: Snapshot, key: string, reply: Reply): (Snapshot, Answer)
  {
    if key in s.readdir then
      (s.(cacheHits := s.cacheHits + 1), Answer(None, s.readdir[key]))
    else
      var fetched := s.(apiCalls := s.apiCalls + 1, limit := Observe(s.limit, reply.remaining));
      match reply
      case Failed(e, _) => (fetched, Answer(Some(e), []))
      case Listed(es, _) =>
        var names := Names(es);
        (fetched.(
          stat := Overlay(s.stat, es, StatKey, StatOf),
          http := Overlay(s.http, es, HttpKey, Raw),
          readdir := s.readdir[key := names]),
         Answer(None, names))
  }

  /** Every call moves exactly one counter by one: a hit when the key was cached, a
      fetch otherwise. */
  lemma ReaddirCountsOne(s: Snapshot, key: string, reply: Reply)
    ensures var s' := ReaddirStep(s, key, reply).0;
      && (key in s.readdir ==> s'.cacheHits == s.cacheHits + 1 && s'.apiCalls == s.apiCalls)
      && (key !in s.readdir ==> s'.apiCalls == s.apiCalls + 1 && s'.cacheHits == s.cacheHits)
  {
  }

  /** A hit answers the stored listing and touches no map and not the limit. */
  lemma ReaddirHit(s: Snapshot, key: string, reply: Reply)
    requires key in s.readdir
    ensures var (s', a) := ReaddirStep(s, key, reply);
      && a == Answer(None, s.readdir[key])
      && s'.stat == s.stat && s'.readdir == s.readdir && s'.http == s.http
      && s'.limit == s.limit
  {
  }

  /** A failed fetch answers the error with no names and records nothing; only the
      limit may move. */
  lemma ReaddirFailure(s: Snapshot, key: string, reply: Reply)
    requires key !in s.readdir && reply.Failed?
    ensures var (s', a) := ReaddirStep(s, key, reply);
      && a == Answer(Some(reply.error), [])
      && s'.stat == s.stat && s'.readdir == s.readdir && s'.http == s.http
      && s'.limit == Observe(s.limit, reply.remaining)
  {
  }

  /** The limit never rises, whether the call hits, fails or lists, and a miss with the
      header brings it to at most the reported count. */
  lemma ReaddirLimit(s: Snapshot, key: string, reply: Reply)
    ensures var s' := ReaddirStep(s, key, reply).0;
      && AtMost(s'.limit, s.limit)
      && (key !in s.readdir && reply.remaining.Some? ==> AtMost(s'.limit, Finite(reply.remaining.value)))
  {
  }

  /** A successful fetch answers the entries' names in response order, stores that list
      under the key, and gives every entry a stat record at "/" + path and a raw record
      at its path; other keys are left as they were. */
  lemma ReaddirListing(s: Snapshot, key: string, reply: Reply)
    requires key !in s.readdir && reply.Listed?
    ensures var (s', a) := ReaddirStep(s, key, reply);
      var es := reply.entries;
      && a.error == None
      && |a.names| == |es|
      && (forall i :: 0 <= i < |es| ==> a.names[i] == es[i].name)
      && s'.readdir == s.readdir[key := a.names]
      && (forall i :: 0 <= i < |es| ==> "/" + es[i].path in s'.stat && es[i].path in s'.http)
      && (forall k :: k in s'.stat <==> k in s.stat || exists i :: 0 <= i < |es| && StatKey(es[i]) == k)
      && (forall k :: k in s'.http <==> k in s.http || exists i :: 0 <= i < |es| && HttpKey(es[i]) == k)
  {
    var s' := ReaddirStep(s, key, reply).0;
    var es := reply.entries;
    forall k ensures k in s'.stat <==> k in s.stat || exists i :: 0 <= i < |es| && StatKey(es[i]) == k {
      OverlayHas(s.stat, es, StatKey, StatOf, k);
    }
    forall k ensures k in s'.http <==> k in s.http || exists i :: 0 <= i < |es| && HttpKey(es[i]) == k {
      OverlayHas(s.http, es, HttpKey, Raw, k);
    }
    forall i | 0 <= i < |es| ensures "/" + es[i].path in s'.stat && es[i].path in s'.http {
      OverlayHas(s.stat, es, StatKey, StatOf, StatKey(es[i]));
      OverlayHas(s.http, es, HttpKey, Raw, HttpKey(es[i]));
    }
  }

  /** The records a successful fetch leaves for an entry (the last one, should the
      listing repeat a path): the raw entry itself, and a stat record of its size that
      is a file exactly when its type is "file" and a directory exactly when it is "dir". */
  lemma ReaddirRecordsEntry(s: Snapshot, key: string, reply: Reply, i: nat)
    requires key !in s.readdir && reply.Listed?
    requires i < |reply.entries|
    requires forall j :: i < j < |reply.entries| ==> reply.entries[j].path != reply.entries[i].path
    ensures var s' := ReaddirStep(s, key, reply).0;
      var e := reply.entries[i];
      && Lookup(s'.http, e.path) == Some(e)
      && "/" + e.path in s'.stat
      && s'.stat["/" + e.path].size == e.size
      && (s'.stat["/" + e.path].isFile <==> e.kind == "file")
      && (s'.stat["/" + e.path].isDirectory <==> e.kind == "dir")
  {
    var es := reply.entries;
    forall j | i < j < |es| ensures StatKey(es[j]) != StatKey(es[i]) {
      assert StatKey(es[j])[1..] == es[j].path && StatKey(es[i])[1..] == es[i].path;
    }
    OverlayLast(s.stat, es, StatKey, StatOf, i);
    OverlayLast(s.http, es, HttpKey, Raw, i);
  }

  /** Nothing cached is lost: listings stay as they were, stat and raw keys remain, and
      neither counter goes down. */
  lemma ReaddirKeeps(s: Snapshot, key: string, reply: Reply)
    ensures var s' := ReaddirStep(s, key, reply).0;
      && (forall k :: k in s.readdir ==> k in s'.readdir && s'.readdir[k] == s.readdir[k])
      && s.stat.Keys <= s'.stat.Keys
      && s.http.Keys <= s'.http.Keys
      && s.cacheHits <= s'.cacheHits && s.apiCalls <= s'.apiCalls
  {
    var s' := ReaddirStep(s, key, reply).0;
    if key !in s.readdir && reply.Listed? {
      forall k | k in s.stat ensures k in s'.stat {
        OverlayHas(s.stat, reply.entries, StatKey, StatOf, k);
      }
      forall k | k in s.http ensures k in s'.http {
        OverlayHas(s.http, reply.entries, HttpKey, Raw, k);
      }
    }
  }

  /** After a successful `readdir(p)`, a `readdir` of any path normalising like `p` is a
      hit: it answers the same names and makes no fetch, whatever the remote would say. */
  lemma ReaddirAgainHits(s: Snapshot, user: string, repo: string, p: string, q: string, reply: Reply, later: Reply)
    requires PathKey.Normalize(p) == PathKey.Normalize(q)
    requires PathKey.CacheKey(user, repo, p) in s.readdir || reply.Listed?
    ensures var (s1, a1) := ReaddirStep(s, PathKey.CacheKey(user, repo, p), reply);
      var (s2, a2) := ReaddirStep(s1, PathKey.CacheKey(user, repo, q), later);
      && a2 == Answer(None, a1.names)
      && s2.apiCalls == s1.apiCalls
      && s2.cacheHits == s1.cacheHits + 1
      && s2.stat == s1.stat && s2.readdir == s1.readdir && s2.http == s1.http
  {
  }

  /** A path that normalises differently has a different key, so it is not answered
      from `p`'s listing. */
  lemma ReaddirOtherDirectoryMisses(s: Snapshot, user: string, repo: string, p: string, q: string, reply: Reply, later: Reply)
    requires PathKey.Normalize(p) != PathKey.Normalize(q)
    requires PathKey.CacheKey(user, repo, q) !in s.readdir
    ensures var s1 := ReaddirStep(s, PathKey.CacheKey(user, repo, p), reply).0;
      var s2 := ReaddirStep(s1, PathKey.CacheKey(user, repo, q), later).0;
      s2.apiCalls == s1.apiCalls + 1
  {
    PathKey.CacheKeySameDirectory(user, repo, p, q);
  }

  /** A failed fetch caches nothing: the next `readdir` of the same path fetches again. */
  lemma ReaddirFailureRetries(s: Snapshot, key: string, reply: Reply, later: Reply)
    requires key !in s.readdir && reply.Failed?
    ensures var s1 := ReaddirStep(s, key, reply).0;
      var s2 := ReaddirStep(s1, key, later).0;
      s2.apiCalls == s1.apiCalls + 1 && s2.cacheHits == s1.cacheHits
  {
  }

  /** A run of `readdir` calls (path, reply) in the order the matcher makes them. */
  function Replay(s: Snapshot, user: string, repo: string, calls: seq<(string, Reply)>): Snapshot
    decreases |calls|
  {
    if calls == [] then s
    else
      var (path, reply) := calls[0];
      Replay(ReaddirStep(s, PathKey.CacheKey(user, repo, path), reply).0, user, repo, calls[1..])
  }

  /** Over a whole run the counters account for every call, cached listings survive and
      the limit does not rise. */
  lemma {:induction false} ReplayAccounts(s: Snapshot, user: string, repo: string, calls: seq<(string, Reply)>)
    decreases |calls|
    ensures var s' := Replay(s, user, repo, calls);
      && s'.cacheHits + s'.apiCalls == s.cacheHits + s.apiCalls + |calls|
      && (forall k :: k in s.readdir ==> k in s'.readdir && s'.readdir[k] == s.readdir[k])
      && AtMost(s'.limit, s.limit)
  {
    if calls != [] {
      var (path, reply) := calls[0];
      var key := PathKey.CacheKey(user, repo, path);
      var s1 := ReaddirStep(s, key, reply).0;
      ReaddirCountsOne(s, key, reply);
      ReaddirKeeps(s, key, reply);
      ReaddirLimit(s, key, reply);
      ReplayAccounts(s1, user, repo, calls[1..]);
    }
  }

  /** A run whose directories are all cached already (a second run sharing the cache)
      makes no fetch: every call is a hit and nothing but `cacheHits` changes. */
  lemma {:induction false} ReplayAllCached(s: Snapshot, user: string, repo: string, calls: seq<(string, Reply)>)
    decreases |calls|
    requires forall i :: 0 <= i < |calls| ==> PathKey.CacheKey(user, repo, calls[i].0) in s.readdir
    ensures Replay(s, user, repo, calls) == s.(cacheHits := s.cacheHits + |calls|)
  {
    if calls != [] {
      var (path, reply) := calls[0];
      var s1 := ReaddirStep(s, PathKey.CacheKey(user, repo, path), reply).0;
      assert s1 == s.(cacheHits := s.cacheHits + 1);
      forall i | 0 <= i < |calls[1..]| ensures PathKey.CacheKey(user, repo, calls[1..][i].0) in s1.readdir {
        assert calls[1..][i] == calls[i + 1];
      }
      ReplayAllCached(s1, user, repo, calls[1..]);
    }
  }

  // ---------------------------------------------------------------- objects

  /** The module-level `limit` variable, shared by every run in the process. */
  class RateLimit {
    var limit: Limit

    constructor ()
      ensures limit == Unbounded
    {
      limit := Unbounded;
    }
  }

  /** The `{limit, cacheHits, apiCalls}` object reported at the end of a run. */
  datatype Meta = Meta(limit: Limit, cacheHits: nat, apiCalls: nat)

  /** One run: the repository it reads, its bucket, its two counters and the shared
      limit; `Stat` and `Readdir` are the `fs` object given to the matcher. */
  class Session {
    const user: string
    const repo: string
    const bucket: Bucket
    const limits: RateLimit
    var cacheHits: nat
    var apiCalls: nat

    /** The bucket has been initialised, and its root entry is never lost. */
    ghost predicate Valid()
      reads this, bucket
    {
      && bucket.stat.Some? && bucket.readdir.Some? && bucket.http.Some?
      && "/" in bucket.stat.value
    }

    function State(): Snapshot
      requires Valid()
      reads this, bucket, limits
    {
      Snapshot(bucket.stat.value, bucket.readdir.value, bucket.http.value, cacheHits, apiCalls, limits.limit)
    }

    constructor (user: string, repo: string, bucket: Bucket, limits: RateLimit)
      requires bucket.stat.Some? && bucket.readdir.Some? && bucket.http.Some?
      requires "/" in bucket.stat.value
      ensures Valid()
      ensures this.user == user && this.repo == repo && this.bucket == bucket && this.limits == limits
      ensures cacheHits == 0 && apiCalls == 0
    {
      this.user := user;
      this.repo := repo;
      this.bucket := bucket;
      this.limits := limits;
      cacheHits := 0;
      apiCalls := 0;
    }

    /** `fs.stat` (index.js:55-58): the stat map looked up with the path exactly as
        given; an unknown path answers undefined. */
    method Stat(path: string) returns (r: Option<StatEntry>)
      requires Valid()
      ensures r.Some? <==> path in bucket.stat.value
      ensures r.Some? ==> r.value == bucket.stat.value[path]
      ensures path == "/" ==> r.Some?
    {
      r := Lookup(bucket.stat.value, path);
    }

    /** `fs.readdir` (index.js:60-104), with `reply` standing for what the remote
        would answer if asked. */
    method Readdir(path: string, reply: Reply) returns (err: Option<string>, names: seq<string>)
      requires Valid()
      modifies this, bucket, limits
      ensures Valid()
      ensures (State(), Answer(err, names)) == ReaddirStep(old(State()), PathKey.CacheKey(user, repo, path), reply)
    {
      var key := PathKey.CacheKey(user, repo, path);
      ghost var before := State();
      ghost var step := ReaddirStep(before, key, reply);
      if key in bucket.readdir.value {
        cacheHits := cacheHits + 1;
        err, names := None, bucket.readdir.value[key];
        assert State() == before.(cacheHits := before.cacheHits + 1);
        return;
      }
      apiCalls := apiCalls + 1;
      if reply.remaining.Some? {
        limits.limit := MinLimit(limits.limit, reply.remaining.value);
      }
      ghost var fetched := before.(apiCalls := before.apiCalls + 1, limit := Observe(before.limit, reply.remaining));
      assert State() == fetched;
      if reply.Failed? {
        err, names := Some(reply.error), [];
        return;
      }
      err := None;
      names := bucket.Record(key, reply.entries);
      OverlayHas(before.stat, reply.entries, StatKey, StatOf, "/");
      assert bucket.stat.value == Overlay(before.stat, reply.entries, StatKey, StatOf);
      assert bucket.http.value == Overlay(before.http, reply.entries, HttpKey, Raw);
      assert bucket.readdir.value == before.readdir[key := names];
      assert key !in before.readdir;
      assert step.1 == Answer(None, names);
      assert State() == step.0;
    }

    /** The completion of index.js:106-114: each matched path looked up in the raw-entry
        map (undefined when absent), and the counters with the shared limit. */
    method Finish(results: seq<string>) returns (entries: seq<Option<Entry>>, meta: Meta)
      requires Valid()
      ensures |entries| == |results|
      ensures forall i :: 0 <= i < |results| ==> entries[i] == Lookup(bucket.http.value, results[i])
      ensures meta == Meta(limits.limit, cacheHits, apiCalls)
    {
      var http := bucket.http.value;
      entries := seq(|results|, i requires 0 <= i < |results| => Lookup(http, results[i]));
      meta := Meta(limits.limit, cacheHits, apiCalls);
    }
  }

  /** The set-up of a run (index.js:21-50): open the repository's bucket in the given
      store, initialise it, and start both counters at zero. */
  method Start(store: CacheStore, limits: RateLimit, user: string, repo: string) returns (s: Session)
    modifies store
    modifies if PathKey.BucketKey(user, repo) in store.buckets
      then {store.buckets[PathKey.BucketKey(user, repo)]} else {}
    ensures fresh(s) && s.Valid()
    ensures s.user == user && s.repo == repo && s.limits == limits
    ensures s.cacheHits == 0 && s.apiCalls == 0
    ensures limits.limit == old(limits.limit)
    ensures var key := PathKey.BucketKey(user, repo);
      && key in store.buckets && s.bucket == store.buckets[key]
      && (key in old(store.buckets) ==>
            && store.buckets == old(store.buckets)
            && s.bucket.State() == Initialised(old(store.buckets[key].State())))
      && (key !in old(store.buckets) ==>
            && store.buckets == old(store.buckets)[key := s.bucket]
            && s.bucket.State() == Initialised(BucketState(None, None, None)))
    ensures forall k :: (k in old(store.buckets) && old(store.buckets[k]) != s.bucket ==>
                           store.buckets[k] == old(store.buckets[k]) && unchanged(store.buckets[k]))
  {
    var b := store.Open(user, repo);
    ghost var before := b.State();
    b.Initialise();
    InitialisedReady(before);
    s := new Session(user, repo, b, limits);
  }
}
