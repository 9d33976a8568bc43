/** Canonical keys: the fetch key built from an options object (`toCacheStr`), the
    path normalisation applied before a directory listing, and the two cache keys
    built from them. */
module PathKey {

  /** Two strings in the order JavaScript's default `sort` puts them: character by
      character, a proper prefix first. */
  predicate Below(a: string, b: string)
  {
    if |a| == 0 then true
    else if |b| == 0 then false
    else if a[0] != b[0] then a[0] < b[0]
    else Below(a[1..], b[1..])
  }

  lemma {:induction false} BelowTotal(a: string, b: string)
    ensures Below(a, b) || Below(b, a)
  {
    if |a| > 0 && |b| > 0 && a[0] == b[0] {
      BelowTotal(a[1..], b[1..]);
    }
  }

  lemma {:induction false} BelowReflexive(a: string)
    ensures Below(a, a)
  {
    if |a| > 0 {
      BelowReflexive(a[1..]);
    }
  }

  lemma {:induction false} BelowAntisymmetric(a: string, b: string)
    requires Below(a, b) && Below(b, a)
    ensures a == b
  {
    if |a| > 0 && |b| > 0 {
      BelowAntisymmetric(a[1..], b[1..]);
      assert a == [a[0]] + a[1..] && b == [b[0]] + b[1..];
    }
  }

  lemma {:induction false} BelowTransitive(a: string, b: string, c: string)
    requires Below(a, b) && Below(b, c)
    ensures Below(a, c)
  {
    if |a| > 0 && |b| > 0 && |c| > 0 && a[0] == b[0] && b[0] == c[0] {
      BelowTransitive(a[1..], b[1..], c[1..]);
    }
  }

  predicate Sorted(s: seq<string>)
  {
    forall i, j :: 0 <= i < j < |s| ==> Below(s[i], s[j])
  }

  lemma SortedTail(s: seq<string>)
    requires Sorted(s) && s != []
    ensures Sorted(s[1..])
  {
    forall i, j | 0 <= i < j < |s| - 1 ensures Below(s[1..][i], s[1..][j]) {
      assert s[1..][i] == s[i + 1] && s[1..][j] == s[j + 1];
    }
  }

  /** The head of a sorted sequence is below each of its elements. */
  lemma SortedHeadLeast(s: seq<string>, y: string)
    requires Sorted(s) && y in s
    ensures Below(s[0], y)
  {
    var j :| 0 <= j < |s| && s[j] == y;
    if j == 0 {
      BelowReflexive(y);
    }
  }

  lemma SortedCons(h: string, t: seq<string>)
    requires Sorted(t)
    requires forall y :: y in t ==> Below(h, y)
    ensures Sorted([h] + t)
  {
    var s := [h] + t;
    forall i, j | 0 <= i < j < |s| ensures Below(s[i], s[j]) {
      assert s[j] == t[j - 1];
      if i > 0 {
        assert s[i] == t[i - 1];
      } else {
        assert t[j - 1] in t;
      }
    }
  }

  lemma MultisetCons(s: seq<string>)
    requires s != []
    ensures multiset(s) == multiset{s[0]} + multiset(s[1..])
  {
    assert s == [s[0]] + s[1..];
  }

  lemma InsertInFront(x: string, s: seq<string>)
    requires Sorted(s) && s != [] && Below(x, s[0])
    ensures Sorted([x] + s)
  {
    forall y | y in s ensures Below(x, y) {
      SortedHeadLeast(s, y);
      BelowTransitive(x, s[0], y);
    }
    SortedCons(x, s);
  }

  lemma InsertBehind(x: string, s: seq<string>, rest: seq<string>)
    requires Sorted(s) && s != [] && !Below(x, s[0])
    requires Sorted(rest) && multiset(rest) == multiset(s[1..]) + multiset{x}
    ensures Sorted([s[0]] + rest)
    ensures multiset([s[0]] + rest) == multiset(s) + multiset{x}
  {
    forall y | y in rest ensures Below(s[0], y) {
      assert y in multiset(rest);
      if y == x {
        BelowTotal(x, s[0]);
      } else {
        assert y in s[1..];
        SortedHeadLeast(s, y);
      }
    }
    SortedCons(s[0], rest);
    MultisetCons(s);
  }

  /** One step of the sort: `x` placed in front of the first element it is below. */
  function Insert(x: string, s: seq<string>): seq<string>
  {
    if s == [] then [x]
    else if Below(x, s[0]) then [x] + s
    else [s[0]] + Insert(x, s[1..])
  }

  /** Inserting into a sorted sequence keeps it sorted and adds exactly `x`. */
  lemma {:induction false} InsertSorted(x: string, s: seq<string>)
    requires Sorted(s)
    ensures Sorted(Insert(x, s))
    ensures multiset(Insert(x, s)) == multiset(s) + multiset{x}
  {
    if s == [] {
    } else if Below(x, s[0]) {
      InsertInFront(x, s);
    } else {
      SortedTail(s);
      InsertSorted(x, s[1..]);
      InsertBehind(x, s, Insert(x, s[1..]));
    }
  }

  /** `Array.prototype.sort` with no comparator, as an insertion sort. */
  function SortKeys(ks: seq<string>): seq<string>
  {
    if ks == [] then [] else Insert(ks[0], SortKeys(ks[1..]))
  }

  /** The sort yields a sorted permutation of its input. */
  lemma {:induction false} SortKeysSorted(ks: seq<string>)
    ensures Sorted(SortKeys(ks))
    ensures multiset(SortKeys(ks)) == multiset(ks)
  {
    if ks != [] {
      SortKeysSorted(ks[1..]);
      InsertSorted(ks[0], SortKeys(ks[1..]));
      MultisetCons(ks);
    }
  }

  lemma SameHead(a: seq<string>, b: seq<string>)
    requires Sorted(a) && Sorted(b) && a != [] && b != []
    requires multiset(a) == multiset(b)
    ensures a[0] == b[0]
  {
    assert a[0] in multiset(b) && b[0] in multiset(a);
    SortedHeadLeast(b, a[0]);
    SortedHeadLeast(a, b[0]);
    BelowAntisymmetric(a[0], b[0]);
  }

  lemma SameTail(a: seq<string>, b: seq<string>)
    requires a != [] && b != [] && a[0] == b[0]
    requires multiset(a) == multiset(b)
    ensures multiset(a[1..]) == multiset(b[1..])
  {
    MultisetCons(a);
    MultisetCons(b);
    assert multiset(a[1..]) == multiset(a) - multiset{a[0]};
    assert multiset(b[1..]) == multiset(b) - multiset{b[0]};
  }

  /** A sorted permutation is unique: sorting sees only the multiset of its input. */
  lemma {:induction false} SortedUnique(a: seq<string>, b: seq<string>)
    requires Sorted(a) && Sorted(b)
    requires multiset(a) == multiset(b)
    ensures a == b
  {
    assert |a| == |multiset(a)| == |multiset(b)| == |b|;
    if a != [] {
      SameHead(a, b);
      SameTail(a, b);
      SortedTail(a);
      SortedTail(b);
      SortedUnique(a[1..], b[1..]);
      assert a == [a[0]] + a[1..] && b == [b[0]] + b[1..];
    }
  }

  /** `Array.prototype.join('/')`. */
  function Join(parts: seq<string>): string
  {
    if |parts| == 0 then ""
    else if |parts| == 1 then parts[0]
    else parts[0] + "/" + Join(parts[1..])
  }

  /** A JavaScript options object: its own (key, value) pairs in insertion order. */
  type Fields = seq<(string, string)>

  /** `Object.keys`. */
  function KeysOf(f: Fields): (r: seq<string>)
    ensures |r| == |f| && forall i :: 0 <= i < |f| ==> r[i] == f[i].0
  {
    seq(|f|, i requires 0 <= i < |f| => f[i].0)
  }

  /** An object never has the same own key twice. */
  predicate DistinctKeys(f: Fields)
  {
    forall i, j :: 0 <= i < j < |f| ==> f[i].0 != f[j].0
  }

  /** `opts[key]`: the value stored under `key`, or "" (what `join` prints for a missing
      value) when there is none. */
  function Get(f: Fields, key: string): string
  {
    if f == [] then ""
    else if f[0].0 == key then f[0].1
    else Get(f[1..], key)
  }

  lemma {:induction false} GetFinds(f: Fields, i: nat)
    requires DistinctKeys(f) && i < |f|
    ensures Get(f, f[i].0) == f[i].1
  {
    if i > 0 {
      assert f[0].0 != f[i].0;
      assert f[1..][i - 1] == f[i];
      GetFinds(f[1..], i - 1);
    }
  }

  lemma {:induction false} GetMissing(f: Fields, key: string)
    requires forall i :: 0 <= i < |f| ==> f[i].0 != key
    ensures Get(f, key) == ""
  {
    if f != [] {
      GetMissing(f[1..], key);
    }
  }

  /** `toCacheStr` (index.js:9-11): the values of the object joined with '/' in the
      order of their sorted keys. */
  function ToCacheStr(f: Fields): string
  {
    Join(ValuesFor(f, SortKeys(KeysOf(f))))
  }

  /** `keys.map(function(key) { return opts[key]; })`. */
  function ValuesFor(f: Fields, keys: seq<string>): (r: seq<string>)
    ensures |r| == |keys| && forall i :: 0 <= i < |keys| ==> r[i] == Get(f, keys[i])
  {
    seq(|keys|, i requires 0 <= i < |keys| => Get(f, keys[i]))
  }

  lemma {:induction false} DistinctCount(s: seq<string>, x: string)
    requires forall i, j :: 0 <= i < j < |s| ==> s[i] != s[j]
    ensures multiset(s)[x] == if x in s then 1 else 0
  {
    if s != [] {
      assert s == [s[0]] + s[1..];
      DistinctCount(s[1..], x);
      forall j | 0 <= j < |s| - 1 ensures s[1..][j] != s[0] {
        assert s[1..][j] == s[j + 1];
      }
    }
  }

  /** Objects with the same pairs have the same keys, each exactly once. */
  lemma SameKeys(f: Fields, g: Fields)
    requires DistinctKeys(f) && DistinctKeys(g)
    requires multiset(f) == multiset(g)
    ensures multiset(KeysOf(f)) == multiset(KeysOf(g))
  {
    var kf, kg := KeysOf(f), KeysOf(g);
    forall x: string ensures multiset(kf)[x] == multiset(kg)[x] {
      if x in kf {
        var i :| 0 <= i < |f| && kf[i] == x;
        assert f[i] in multiset(g);
        var j :| 0 <= j < |g| && g[j] == f[i];
        assert kg[j] == x;
      }
      if x in kg {
        var j :| 0 <= j < |g| && kg[j] == x;
        assert g[j] in multiset(f);
        var i :| 0 <= i < |f| && f[i] == g[j];
        assert kf[i] == x;
      }
      DistinctCount(kf, x);
      DistinctCount(kg, x);
    }
    assert multiset(kf) == multiset(kg);
  }

  /** Objects with the same pairs give the same value for every key. */
  lemma SameValues(f: Fields, g: Fields, key: string)
    requires DistinctKeys(f) && DistinctKeys(g)
    requires multiset(f) == multiset(g)
    ensures Get(f, key) == Get(g, key)
  {
    if i :| 0 <= i < |f| && f[i].0 == key {
      assert f[i] in multiset(g);
      var j :| 0 <= j < |g| && g[j] == f[i];
      GetFinds(f, i);
      GetFinds(g, j);
    } else {
      GetMissing(f, key);
      forall j | 0 <= j < |g| ensures g[j].0 != key {
        assert g[j] in multiset(f);
      }
      GetMissing(g, key);
    }
  }

  /** `toCacheStr` sees only the key/value contents of the object, never the order in
      which its keys were inserted. */
  lemma ToCacheStrOrderFree(f: Fields, g: Fields)
    requires DistinctKeys(f) && DistinctKeys(g)
    requires multiset(f) == multiset(g)
    ensures ToCacheStr(f) == ToCacheStr(g)
  {
    SameKeys(f, g);
    SortKeysSorted(KeysOf(f));
    SortKeysSorted(KeysOf(g));
    var keys := SortKeys(KeysOf(f));
    SortedUnique(keys, SortKeys(KeysOf(g)));
    forall i | 0 <= i < |keys| ensures Get(f, keys[i]) == Get(g, keys[i]) {
      SameValues(f, g, keys[i]);
    }
    assert ValuesFor(f, keys) == ValuesFor(g, keys);
  }

  /** The fields `readdir` fetches with (index.js:61-65), in their insertion order. */
  function FetchFields(user: string, repo: string, path: string): Fields
  {
    [("user", user), ("repo", repo), ("path", path)]
  }

  /** The three fetch keys sort as path, repo, user. */
  lemma SortFetchKeys()
    ensures SortKeys(["user", "repo", "path"]) == ["path", "repo", "user"]
  {
    var sorted := ["path", "repo", "user"];
    assert Below("path", "repo") && Below("repo", "user") && Below("path", "user");
    assert Sorted(sorted);
    assert multiset(["user", "repo", "path"]) == multiset(sorted);
    SortKeysSorted(["user", "repo", "path"]);
    SortedUnique(SortKeys(["user", "repo", "path"]), sorted);
  }

  lemma JoinThree(a: string, b: string, c: string)
    ensures Join([a, b, c]) == a + "/" + b + "/" + c
  {
    assert [a, b, c][1..] == [b, c] && [b, c][1..] == [c];
    assert Join([b, c]) == b + "/" + c;
    assert a + "/" + (b + "/" + c) == a + "/" + b + "/" + c;
  }

  lemma FetchValues(user: string, repo: string, path: string)
    ensures ValuesFor(FetchFields(user, repo, path), ["path", "repo", "user"]) == [path, repo, user]
  {
    var f := FetchFields(user, repo, path);
    assert f[1..] == [("repo", repo), ("path", path)] && f[1..][1..] == [("path", path)];
    assert "user"[0] != "path"[0] && "user"[0] != "repo"[0] && "repo"[0] != "path"[0];
    assert Get(f[1..][1..], "path") == path;
    assert Get(f[1..], "path") == path && Get(f[1..], "repo") == repo;
    assert Get(f, "path") == path && Get(f, "repo") == repo && Get(f, "user") == user;
  }

  /** Sorted, the fetch keys read path, repo, user: the key is `path/repo/user`. */
  lemma FetchKeyLayout(user: string, repo: string, path: string)
    ensures ToCacheStr(FetchFields(user, repo, path)) == path + "/" + repo + "/" + user
  {
    var f := FetchFields(user, repo, path);
    assert KeysOf(f) == ["user", "repo", "path"];
    SortFetchKeys();
    FetchValues(user, repo, path);
    JoinThree(path, repo, user);
  }

  function StripLeadingSlash(p: string): string
  {
    if |p| > 0 && p[0] == '/' then p[1..] else p
  }

  function StripTrailingSlash(p: string): string
  {
    if |p| > 0 && p[|p| - 1] == '/' then p[..|p| - 1] else p
  }

  /** `path.replace(/^\//, '').replace(/\/$/, '') || ''` (index.js:64); the final
      `|| ''` only turns an empty string into itself. */
  function Normalize(p: string): string
  {
    StripTrailingSlash(StripLeadingSlash(p))
  }

  /** At most one '/' goes from each end, and nothing else changes: the result is the
      slice of `p` between one optional leading '/' and one optional trailing '/'. */
  lemma NormalizeStripsAtMostOne(p: string)
    ensures var r := Normalize(p);
      var lo := if |p| > 0 && p[0] == '/' then 1 else 0;
      var hi := if |p| > lo && p[|p| - 1] == '/' then 1 else 0;
      && lo + hi <= |p|
      && r == p[lo..|p| - hi]
      && (|r| == |p| <==> (|p| == 0 || (p[0] != '/' && p[|p| - 1] != '/')))
  {
  }

  lemma NormalizeRoot()
    ensures Normalize("/") == "" && Normalize("") == ""
  {
  }

  /** A path with no '/' at either end is its own normal form, and so are the spellings
      with a leading '/', a trailing '/', or both: all four list the same directory. */
  lemma NormalizeSpellings(q: string)
    requires |q| == 0 || (q[0] != '/' && q[|q| - 1] != '/')
    ensures Normalize(q) == q
    ensures Normalize("/" + q) == q
    ensures Normalize(q + "/") == q
    ensures Normalize("/" + q + "/") == q
  {
    assert ("/" + q)[1..] == q;
    assert ("/" + q + "/")[1..] == q + "/";
    assert (q + "/")[..|q|] == q;
  }

  /** Stripping is done once, not repeatedly: normalising is not idempotent. */
  lemma NormalizeNotIdempotent()
    ensures Normalize("//a") == "/a"
    ensures Normalize(Normalize("//a")) == "a"
  {
    assert "//a"[1..] == "/a";
    assert "/a"[1..] == "a";
  }

  /** The listing-cache key of a `readdir(path)` call (index.js:61-66). */
  function CacheKey(user: string, repo: string, path: string): string
  {
    ToCacheStr(FetchFields(user, repo, Normalize(path)))
  }

  /** Within one repository, two `readdir` paths share a listing-cache entry exactly when
      they normalise to the same string. */
  lemma CacheKeySameDirectory(user: string, repo: string, p: string, q: string)
    ensures CacheKey(user, repo, p) == CacheKey(user, repo, q) <==> Normalize(p) == Normalize(q)
  {
    var np, nq := Normalize(p), Normalize(q);
    var tail := "/" + repo + "/" + user;
    FetchKeyTail(user, repo, np);
    FetchKeyTail(user, repo, nq);
    SuffixCancel(np, nq, tail);
  }

  lemma FetchKeyTail(user: string, repo: string, path: string)
    ensures ToCacheStr(FetchFields(user, repo, path)) == path + ("/" + repo + "/" + user)
  {
    FetchKeyLayout(user, repo, path);
    SeqAssoc(path, "/", repo, "/", user);
  }

  lemma SeqAssoc(a: string, b: string, c: string, d: string, e: string)
    ensures a + b + c + d + e == a + (b + c + d + e)
  {
  }

  lemma SuffixCancel(a: string, b: string, t: string)
    ensures a + t == b + t <==> a == b
  {
    if a + t == b + t {
      assert |a| == |b|;
      assert a == (a + t)[..|a|];
      assert b == (b + t)[..|b|];
    }
  }

  /** The repository bucket's key in the cache store (index.js:23). */
  function BucketKey(user: string, repo: string): string
  {
    user + "/" + repo
  }
}
