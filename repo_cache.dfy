/** The per-repository cache (index.js:21-47): a store of buckets keyed by
    `user/repo`, each bucket holding three lazily created maps. */
module RepoCache {
  import opened Wrappers
  import PathKey

  /** The stat record the matcher reads: `isFile()` and `isDirectory()` become flags. */
  datatype StatEntry = StatEntry(size: int, isFile: bool, isDirectory: bool)

  /** One record of a remote directory listing (`name`, `path`, `size`, `type`); the
      path is relative to the repository root, without a leading '/'. */
  datatype Entry = Entry(name: string, path: string, size: int, kind: string)

  /** The synthetic root entry seeded at "/" (index.js:32-40). */
  const Root := StatEntry(0, false, true)

  /** The stat record stored for a listed entry (index.js:91-99). */
  function StatOf(e: Entry): (s: StatEntry)
    ensures s.size == e.size
    ensures s.isFile <==> e.kind == "file"
    ensures s.isDirectory <==> e.kind == "dir"
  {
    StatEntry(e.size, e.kind == "file", e.kind == "dir")
  }

  /** The stat cache key of a listed entry: its path with a leading '/'. */
  function StatKey(e: Entry): string
  {
    "/" + e.path
  }

  /** The raw-entry cache key of a listed entry: its path as the remote gives it. */
  function HttpKey(e: Entry): string
  {
    e.path
  }

  function Raw(e: Entry): Entry
  {
    e
  }

  /** The map after `m[key(e)] = val(e)` was run for each entry in order. */
  function Overlay<V>(m: map<string, V>, es: seq<Entry>, key: Entry -> string, val: Entry -> V): map<string, V>
  {
    if es == [] then m
    else Overlay(m, es[..|es| - 1], key, val)[key(es[|es| - 1]) := val(es[|es| - 1])]
  }

  /** The keys after the writes are the old keys and the written ones. */
  lemma {:induction false} OverlayHas<V>(m: map<string, V>, es: seq<Entry>, key: Entry -> string, val: Entry -> V, k: string)
    ensures k in Overlay(m, es, key, val) <==> k in m || exists i :: 0 <= i < |es| && key(es[i]) == k
  {
    if es != [] {
      var init := es[..|es| - 1];
      OverlayHas(m, init, key, val, k);
      if exists i :: 0 <= i < |init| && key(init[i]) == k {
        var i :| 0 <= i < |init| && key(init[i]) == k;
        assert key(es[i]) == k;
      }
      if exists i :: 0 <= i < |es| && key(es[i]) == k {
        var i :| 0 <= i < |es| && key(es[i]) == k;
        if i < |es| - 1 {
          assert key(init[i]) == k;
        }
      }
    }
  }

  /** A written key holds the value of the last entry written under it. */
  lemma {:induction false} OverlayLast<V>(m: map<string, V>, es: seq<Entry>, key: Entry -> string, val: Entry -> V, i: nat)
    requires i < |es|
    requires forall j :: i < j < |es| ==> key(es[j]) != key(es[i])
    ensures key(es[i]) in Overlay(m, es, key, val)
    ensures Overlay(m, es, key, val)[key(es[i])] == val(es[i])
  {
    if i < |es| - 1 {
      var init := es[..|es| - 1];
      assert init[i] == es[i];
      OverlayLast(m, init, key, val, i);
    }
  }

  /** A key no entry writes keeps its old presence and value. */
  lemma {:induction false} OverlayElsewhere<V>(m: map<string, V>, es: seq<Entry>, key: Entry -> string, val: Entry -> V, k: string)
    requires forall j :: 0 <= j < |es| ==> key(es[j]) != k
    ensures k in Overlay(m, es, key, val) <==> k in m
    ensures k in m ==> Overlay(m, es, key, val)[k] == m[k]
  {
    if es != [] {
      var init := es[..|es| - 1];
      assert forall j :: 0 <= j < |init| ==> init[j] == es[j];
      OverlayElsewhere(m, init, key, val, k);
    }
  }

  /** The names the `forEach` of index.js:87-100 pushes, in response order. */
  function Names(es: seq<Entry>): (r: seq<string>)
    ensures |r| == |es|
    ensures forall i :: 0 <= i < |es| ==> r[i] == es[i].name
  {
    if es == [] then [] else Names(es[..|es| - 1]) + [es[|es| - 1].name]
  }

  /** The value of a bucket object: each map is None until it has been created. */
  datatype BucketState = BucketState(
    stat: Option<map<string, StatEntry>>,
    readdir: Option<map<string, seq<string>>>,
    http: Option<map<string, Entry>>)

  /** The stat map with the root seeded unless some entry for "/" is already there. */
  function WithRoot(m: map<string, StatEntry>): map<string, StatEntry>
  {
    if "/" in m then m else m["/" := Root]
  }

  /** Cache initialisation (index.js:27-47): create each missing map, seed the root. */
  function Initialised(b: BucketState): BucketState
  {
    var stat := match b.stat case Some(m) => m case None => map[];
    BucketState(
      Some(WithRoot(stat)),
      if b.readdir.Some? then b.readdir else Some(map[]),
      if b.http.Some? then b.http else Some(map[]))
  }

  /** After initialisation all three maps exist and "/" is in the stat map; it is the
      directory root unless the bucket already had an entry there. */
  lemma InitialisedReady(b: BucketState)
    ensures var r := Initialised(b);
      r.stat.Some? && r.readdir.Some? && r.http.Some? && "/" in r.stat.value
      && ((b.stat.None? || "/" !in b.stat.value) ==> r.stat.value["/"] == Root)
      && ((b.stat.Some? && "/" in b.stat.value) ==> r.stat.value["/"] == b.stat.value["/"])
  {
  }

  /** Initialisation never overwrites: an existing map keeps every entry (the stat map
      gains at most the root), and an existing readdir or http map is untouched. */
  lemma InitialisedKeeps(b: BucketState)
    ensures var r := Initialised(b);
      (b.stat.Some? ==>
         && b.stat.value.Keys <= r.stat.value.Keys
         && r.stat.value.Keys <= b.stat.value.Keys + {"/"}
         && forall k :: k in b.stat.value ==> r.stat.value[k] == b.stat.value[k])
      && (b.readdir.Some? ==> r.readdir == b.readdir)
      && (b.http.Some? ==> r.http == b.http)
  {
  }

  /** Running the initialisation again (a second run on the same cache) changes nothing. */
  lemma InitialisedIdempotent(b: BucketState)
    ensures Initialised(Initialised(b)) == Initialised(b)
  {
  }

  lemma RootIsDirectory()
    ensures Root.size == 0 && !Root.isFile && Root.isDirectory
  {
  }

  /** `cache[user + '/' + repo]`: a JavaScript object with up to three map properties. */
  class Bucket {
    var stat: Option<map<string, StatEntry>>
    var readdir: Option<map<string, seq<string>>>
    var http: Option<map<string, Entry>>

    constructor ()
      ensures State() == BucketState(None, None, None)
    {
      stat, readdir, http := None, None, None;
    }

    function State(): BucketState
      reads this
    {
      BucketState(stat, readdir, http)
    }

    /** index.js:27-47, in the source's order: stat map, root entry, readdir map, http map. */
    method Initialise()
      modifies this
      ensures State() == Initialised(old(State()))
    {
      if stat.None? {
        stat := Some(map[]);
      }
      if "/" !in stat.value {
        stat := Some(stat.value["/" := Root]);
      }
      if readdir.None? {
        readdir := Some(map[]);
      }
      if http.None? {
        http := Some(map[]);
      }
    }

    /** The success path of a fetch (index.js:86-101): for each entry in order, push its
        name and write its raw and stat records; then store the names under `key`. */
    method Record(key: string, es: seq<Entry>) returns (names: seq<string>)
      requires stat.Some? && readdir.Some? && http.Some?
      modifies this
      ensures names == Names(es)
      ensures stat == Some(Overlay(old(stat.value), es, StatKey, StatOf))
      ensures http == Some(Overlay(old(http.value), es, HttpKey, Raw))
      ensures readdir == Some(old(readdir.value)[key := names])
    {
      names := [];
      var i := 0;
      while i < |es|
        invariant 0 <= i <= |es|
        invariant readdir == old(readdir)
        invariant names == Names(es[..i])
        invariant stat == Some(Overlay(old(stat.value), es[..i], StatKey, StatOf))
        invariant http == Some(Overlay(old(http.value), es[..i], HttpKey, Raw))
      {
        var e := es[i];
        assert es[..i + 1][..i] == es[..i];
        names := names + [e.name];
        http := Some(http.value[e.path := e]);
        stat := Some(stat.value["/" + e.path := StatOf(e)]);
        i := i + 1;
      }
      assert es[..i] == es;
      readdir := Some(readdir.value[key := names]);
    }
  }

  /** The cache object a run is given (`opts.cache`) or the process-wide one. */
  class CacheStore {
    var buckets: map<string, Bucket>

    constructor ()
      ensures buckets == map[]
    {
      buckets := map[];
    }

    /** index.js:23-26: the bucket for `user/repo`, created empty on first use; an
        existing bucket is returned as it is. */
    method Open(user: string, repo: string) returns (b: Bucket)
      modifies this
      ensures var key := PathKey.BucketKey(user, repo);
        key in buckets && buckets[key] == b
        && (key in old(buckets) ==> buckets == old(buckets) && b.State() == old(b.State()))
        && (key !in old(buckets) ==>
              && fresh(b)
              && buckets == old(buckets)[key := b]
              && b.State() == BucketState(None, None, None))
    {
      var key := PathKey.BucketKey(user, repo);
      if key !in buckets {
        var created := new Bucket();
        buckets := buckets[key := created];
      }
      b := buckets[key];
    }
  }
}
