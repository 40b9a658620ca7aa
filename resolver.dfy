/** `processSelectors` and `resolveSelectors` of
    packages/grafana-e2e-selectors/src/selectors/resolver.ts: a tree of end-to-end test
    selectors, some of whose nodes are keyed by the Grafana version that introduced a
    selector, is resolved against the version of the running Grafana. */
module Resolver {
  import opened Wrappers

  /** A selector value: a string, a function (never looked into; `id` only tells
      functions apart), or an object whose properties, in `Object.keys` order, are
      `fields`. */
  datatype Value = Str(s: string) | Fn(id: string) | Obj(fields: seq<Field>)

  type Field = (string, Value)

  /** The `TypeError` that `semver` throws for a string that is not a version. */
  datatype ResolveError = InvalidVersion

  /** The two parts of the `semver` package the resolver relies on: `valid`, and the
      order `gte` (which `rcompare` sorts by, highest first). */
  datatype Semver = Semver(valid: string -> bool, gte: (string, string) -> bool)

  /** `gte` is a total preorder on valid versions. */
  ghost predicate IsOrder(sem: Semver) {
    (forall a | sem.valid(a) :: sem.gte(a, a)) &&
    (forall a, b | sem.valid(a) && sem.valid(b) :: sem.gte(a, b) || sem.gte(b, a)) &&
    (forall a, b, c | sem.valid(a) && sem.valid(b) && sem.valid(c) && sem.gte(a, b) && sem.gte(b, c) ::
      sem.gte(a, c))
  }

  /** `semver.gte(a, b)`, which throws unless both strings are versions. */
  function Gte(sem: Semver, a: string, b: string): (r: Result<bool, ResolveError>)
    ensures r.Ok? <==> sem.valid(a) && sem.valid(b)
  {
    if sem.valid(a) && sem.valid(b) then Ok(sem.gte(a, b)) else Err(InvalidVersion)
  }

  /** `Object.keys(obj)`. */
  function Keys(fs: seq<Field>): (ks: seq<string>)
    ensures |ks| == |fs|
    ensures forall i | 0 <= i < |fs| :: ks[i] == fs[i].0
  {
    seq(|fs|, i requires 0 <= i < |fs| => fs[i].0)
  }

  /** `obj[k]` for a property `obj` has: the value of its field with key `k`. */
  function Get(fs: seq<Field>, k: string): (v: Value)
    requires k in Keys(fs)
    ensures (k, v) in fs
  {
    if fs[0].0 == k then fs[0].1
    else
      assert k in Keys(fs[1..]) by {
        var i :| 0 <= i < |fs| && Keys(fs)[i] == k;
        assert Keys(fs[1..])[i - 1] == k;
      }
      Get(fs[1..], k)
  }

  /** `obj[k] = v`. */
  function Assign(fs: seq<Field>, k: string, v: Value): seq<Field>
  {
    if fs == [] then [(k, v)]
    else if fs[0].0 == k then [(k, v)] + fs[1..]
    else [fs[0]] + Assign(fs[1..], k, v)
  }

  /** A property `obj` lacks is added last. */
  lemma {:induction false} AssignAppends(fs: seq<Field>, k: string, v: Value)
    requires k !in Keys(fs)
    ensures Assign(fs, k, v) == fs + [(k, v)]
  {
    if fs != [] {
      assert k != Keys(fs)[0];
      assert k !in Keys(fs[1..]) by {
        forall i | 0 <= i < |fs| - 1 ensures Keys(fs[1..])[i] != k {
          assert Keys(fs[1..])[i] == Keys(fs)[i + 1];
        }
      }
      AssignAppends(fs[1..], k, v);
      assert fs == [fs[0]] + fs[1..];
    }
  }

  /** The keys of an object with one more property in front. */
  lemma KeysCons(f: Field, fs: seq<Field>)
    ensures Keys([f] + fs) == [f.0] + Keys(fs)
  {
    assert forall i | 0 <= i < |fs| + 1 :: Keys([f] + fs)[i] == ([f.0] + Keys(fs))[i];
  }

  /** Assigning to a property `obj` has keeps the keys and their order. */
  lemma {:induction false} AssignKeys(fs: seq<Field>, k: string, v: Value)
    requires k in Keys(fs)
    ensures Keys(Assign(fs, k, v)) == Keys(fs)
  {
    assert fs == [fs[0]] + fs[1..];
    KeysCons(fs[0], fs[1..]);
    if fs[0].0 == k {
      KeysCons((k, v), fs[1..]);
    } else {
      assert k in Keys(fs[1..]) by {
        var i :| 0 <= i < |fs| && Keys(fs)[i] == k;
        assert Keys(fs[1..])[i - 1] == k;
      }
      AssignKeys(fs[1..], k, v);
      KeysCons(fs[0], Assign(fs[1..], k, v));
    }
  }

  /** Assignment changes no other property. */
  lemma {:induction false} AssignOthers(fs: seq<Field>, k: string, v: Value, i: int)
    requires 0 <= i < |fs| && fs[i].0 != k
    ensures |Assign(fs, k, v)| >= |fs| && Assign(fs, k, v)[i] == fs[i]
  {
    if fs[0].0 != k {
      if i > 0 {
        AssignOthers(fs[1..], k, v, i - 1);
      } else {
        AssignLength(fs[1..], k, v);
      }
    }
  }

  lemma {:induction false} AssignLength(fs: seq<Field>, k: string, v: Value)
    ensures |Assign(fs, k, v)| >= |fs|
  {
    if fs != [] && fs[0].0 != k {
      AssignLength(fs[1..], k, v);
    }
  }

  /** Assigning to an existing key leaves that key holding the new value. */
  lemma {:induction false} AssignGet(fs: seq<Field>, k: string, v: Value)
    requires k in Keys(fs)
    ensures k in Keys(Assign(fs, k, v)) && Get(Assign(fs, k, v), k) == v
  {
    var r := Assign(fs, k, v);
    if fs[0].0 != k {
      assert k in Keys(fs[1..]) by {
        var i :| 0 <= i < |fs| && Keys(fs)[i] == k;
        assert Keys(fs[1..])[i - 1] == k;
      }
      AssignGet(fs[1..], k, v);
      var t := Assign(fs[1..], k, v);
      assert r == [fs[0]] + t;
      KeysCons(fs[0], t);
    } else {
      assert Keys(r)[0] == k;
    }
  }

  /** Every property of `s` is a version. */
  predicate AllValid(sem: Semver, s: seq<string>) {
    forall x | x in s :: sem.valid(x)
  }

  /** Highest version first. */
  predicate Descending(sem: Semver, s: seq<string>) {
    forall i, j | 0 <= i < j < |s| :: sem.gte(s[i], s[j])
  }

  /** Insertion of `k` in front of the first element it is at least. */
  function Insert(sem: Semver, k: string, s: seq<string>): seq<string>
  {
    if s == [] then [k]
    else if sem.gte(k, s[0]) then [k] + s
    else [s[0]] + Insert(sem, k, s[1..])
  }

  /** `Array.prototype.sort(semver.rcompare)`, which is stable: an earlier key goes before
      a later one of the same version. */
  function Sort(sem: Semver, ks: seq<string>): seq<string>
  {
    if ks == [] then [] else Insert(sem, ks[0], Sort(sem, ks[1..]))
  }

  /** Insertion adds `k` and loses nothing. */
  lemma {:induction false} InsertPerm(sem: Semver, k: string, s: seq<string>)
    ensures multiset(Insert(sem, k, s)) == multiset(s) + multiset{k}
  {
    if s != [] && !sem.gte(k, s[0]) {
      InsertPerm(sem, k, s[1..]);
      assert s == [s[0]] + s[1..];
    }
  }

  /** The sort is a permutation of the keys. */
  lemma {:induction false} SortPerm(sem: Semver, ks: seq<string>)
    ensures multiset(Sort(sem, ks)) == multiset(ks)
  {
    if ks != [] {
      SortPerm(sem, ks[1..]);
      InsertPerm(sem, ks[0], Sort(sem, ks[1..]));
      assert ks == [ks[0]] + ks[1..];
    }
  }

  lemma {:induction false} InsertDescending(sem: Semver, k: string, s: seq<string>)
    requires IsOrder(sem) && sem.valid(k) && AllValid(sem, s) && Descending(sem, s)
    ensures Descending(sem, Insert(sem, k, s))
  {
    if s != [] && !sem.gte(k, s[0]) {
      var t := s[1..];
      assert AllValid(sem, t) by {
        forall x | x in t ensures sem.valid(x) {
          assert x in s;
        }
      }
      InsertDescending(sem, k, t);
      var r := Insert(sem, k, t);
      InsertPerm(sem, k, t);
      forall j | 0 <= j < |r| ensures sem.gte(s[0], r[j]) {
        assert r[j] in multiset(t) + multiset{k};
        if r[j] != k {
          var m :| 0 <= m < |t| && t[m] == r[j];
          assert s[m + 1] == r[j];
        }
      }
    }
  }

  /** The sort orders valid versions highest first. */
  lemma {:induction false} SortDescending(sem: Semver, ks: seq<string>)
    requires IsOrder(sem) && AllValid(sem, ks)
    ensures Descending(sem, Sort(sem, ks))
  {
    if ks != [] {
      var rest := ks[1..];
      assert AllValid(sem, rest) by {
        forall x | x in rest ensures sem.valid(x) {
          assert x in ks;
        }
      }
      SortDescending(sem, rest);
      var s := Sort(sem, rest);
      SortPerm(sem, rest);
      assert AllValid(sem, s) by {
        forall x | x in s ensures sem.valid(x) {
          assert x in multiset(s);
        }
      }
      InsertDescending(sem, ks[0], s);
    }
  }

  /** Line 28: the sort throws as soon as `rcompare` meets a key that is not a version,
      and with two or more keys every key is compared; a single key is never compared. */
  function SortVersions(sem: Semver, ks: seq<string>): (r: Result<seq<string>, ResolveError>)
    ensures r.Ok? <==> |ks| <= 1 || AllValid(sem, ks)
  {
    if |ks| <= 1 || AllValid(sem, ks) then Ok(Sort(sem, ks)) else Err(InvalidVersion)
  }

  /** Lines 29-36 from `index` on: the first sorted version the running version is at
      least, or the highest version when there is none. */
  function Scan(sem: Semver, gv: string, sorted: seq<string>, index: int): (r: Result<string, ResolveError>)
    requires 0 < |sorted| && 0 <= index <= |sorted|
    ensures r.Ok? ==> r.value in sorted
    decreases |sorted| - index
  {
    if index == |sorted| then Ok(sorted[0])
    else
      var ge :- Gte(sem, gv, sorted[index]);
      if ge then Ok(sorted[index]) else Scan(sem, gv, sorted, index + 1)
  }

  /** A non-empty object whose first key is not a version: a group of selectors. */
  predicate IsGroup(sem: Semver, v: Value) {
    v.Obj? && |v.fields| > 0 && !sem.valid(v.fields[0].0)
  }

  /** A non-empty object whose first key is a version: one selector in several versions. */
  predicate IsVersioned(sem: Semver, v: Value) {
    v.Obj? && |v.fields| > 0 && sem.valid(v.fields[0].0)
  }

  /** Lines 26-38: the value stored under the version the scan picks. */
  function Pick(sem: Semver, gv: string, fields: seq<Field>): Result<Value, ResolveError>
    requires |fields| > 0
  {
    var sorted :- SortVersions(sem, Keys(fields));
    var version :- Scan(sem, gv, sorted, 0);
    assert version in Keys(fields) by {
      SortPerm(sem, Keys(fields));
      assert version in multiset(sorted);
    }
    Ok(Get(fields, version))
  }

  /** What `processSelectors` stores for one value (lines 22-42). */
  function Resolve(sem: Semver, gv: string, v: Value): Result<Value, ResolveError>
    decreases v, 1, 0
  {
    if IsGroup(sem, v) then
      var fs :- Processed(sem, gv, [], v.fields, |v.fields|);
      Ok(Obj(fs))
    else if IsVersioned(sem, v) then Pick(sem, gv, v.fields)
    else Ok(v)
  }

  /** The object `processSelectors` has built on `target` after the first `n` properties
      of `fs`, or the error it threw. */
  function Processed(sem: Semver, gv: string, target: seq<Field>, fs: seq<Field>, n: int)
    : Result<seq<Field>, ResolveError>
    requires 0 <= n <= |fs|
    decreases Obj(fs), 0, n
  {
    if n == 0 then Ok(target)
    else
      var done :- Processed(sem, gv, target, fs, n - 1);
      var r :- Resolve(sem, gv, fs[n - 1].1);
      Ok(Assign(done, fs[n - 1].0, r))
  }

  /** `k` is the version the resolver should pick among `ks` for the running version
      `gv`: the highest one `gv` is at least, or the highest of all when there is none. */
  predicate Best(sem: Semver, gv: string, ks: seq<string>, k: string) {
    k in ks &&
    ((exists x | x in ks :: sem.gte(gv, x)) ==>
      sem.gte(gv, k) && forall x | x in ks && sem.gte(gv, x) :: sem.gte(k, x)) &&
    ((forall x | x in ks :: !sem.gte(gv, x)) ==> forall x | x in ks :: sem.gte(k, x))
  }

  /** On versions sorted highest first, the scan picks the best version. */
  lemma {:induction false} ScanBest(sem: Semver, gv: string, sorted: seq<string>, index: int)
    requires IsOrder(sem) && sem.valid(gv) && AllValid(sem, sorted) && Descending(sem, sorted)
    requires 0 < |sorted| && 0 <= index <= |sorted|
    requires forall j | 0 <= j < index :: !sem.gte(gv, sorted[j])
    ensures Scan(sem, gv, sorted, index).Ok?
    ensures Best(sem, gv, sorted, Scan(sem, gv, sorted, index).value)
    decreases |sorted| - index
  {
    if index == |sorted| {
      forall x | x in sorted ensures sem.gte(sorted[0], x) {
        var j :| 0 <= j < |sorted| && sorted[j] == x;
        if j > 0 {
          assert sem.gte(sorted[0], sorted[j]);
        }
      }
    } else if sem.gte(gv, sorted[index]) {
      var k := sorted[index];
      forall x | x in sorted && sem.gte(gv, x) ensures sem.gte(k, x) {
        var j :| 0 <= j < |sorted| && sorted[j] == x;
        if j > index {
          assert sem.gte(sorted[index], sorted[j]);
        }
      }
    } else {
      ScanBest(sem, gv, sorted, index + 1);
    }
  }

  /** Lines 26-38: a version-keyed object resolves to the value stored under the best
      version for the running one. */
  lemma VersionedPicksBest(sem: Semver, gv: string, v: Value)
    requires IsOrder(sem) && IsVersioned(sem, v) && Resolve(sem, gv, v).Ok?
    ensures exists k | k in Keys(v.fields) :: Best(sem, gv, Keys(v.fields), k) && (k, Resolve(sem, gv, v).value) in v.fields
  {
    var ks := Keys(v.fields);
    var sorted := SortVersions(sem, ks).value;
    SortPerm(sem, ks);
    assert AllValid(sem, ks) by {
      if |ks| == 1 {
        assert ks == [v.fields[0].0];
      }
    }
    assert AllValid(sem, sorted) by {
      forall x | x in sorted ensures sem.valid(x) {
        assert x in multiset(sorted);
      }
    }
    SortDescending(sem, ks);
    assert sem.valid(gv);
    ScanBest(sem, gv, sorted, 0);
    var k := Scan(sem, gv, sorted, 0).value;
    assert forall x :: x in sorted <==> x in ks by {
      forall x ensures x in sorted <==> x in ks {
        assert x in sorted <==> x in multiset(sorted);
      }
    }
    assert Best(sem, gv, ks, k);
    assert k in multiset(sorted);
  }

  /** With a valid running version and valid keys, the scan never throws. */
  lemma {:induction false} ScanOk(sem: Semver, gv: string, sorted: seq<string>, index: int)
    requires sem.valid(gv) && AllValid(sem, sorted) && 0 < |sorted| && 0 <= index <= |sorted|
    ensures Scan(sem, gv, sorted, index).Ok?
    decreases |sorted| - index
  {
    if index < |sorted| {
      assert sorted[index] in sorted;
      ScanOk(sem, gv, sorted, index + 1);
    }
  }

  /** A version-keyed object fails to resolve exactly when one of its keys is not a
      version (the sort throws) or the running version is not one (`gte` throws). */
  lemma VersionedErrors(sem: Semver, gv: string, v: Value)
    requires IsVersioned(sem, v)
    ensures Resolve(sem, gv, v).Err? <==> !AllValid(sem, Keys(v.fields)) || !sem.valid(gv)
  {
    var ks := Keys(v.fields);
    if |ks| == 1 {
      assert ks == [v.fields[0].0];
    }
    assert Resolve(sem, gv, v) == Pick(sem, gv, v.fields);
    var sv := SortVersions(sem, ks);
    if sv.Ok? {
      var sorted := sv.value;
      SortPerm(sem, ks);
      assert |sorted| == |ks| by {
        assert |multiset(sorted)| == |multiset(ks)|;
      }
      if sem.valid(gv) {
        assert AllValid(sem, sorted) by {
          forall x | x in sorted ensures sem.valid(x) {
            assert x in multiset(ks);
          }
        }
        ScanOk(sem, gv, sorted, 0);
      } else {
        assert Scan(sem, gv, sorted, 0).Err?;
      }
    }
  }

  /** Lines 39-41: strings, functions and empty objects are stored as they are. */
  lemma LeavesKept(sem: Semver, gv: string, v: Value)
    requires !v.Obj? || v.fields == []
    ensures Resolve(sem, gv, v) == Ok(v)
  {
  }

  /** One property more: `processSelectors` stores its resolution, or throws. */
  lemma ProcessedStep(sem: Semver, gv: string, target: seq<Field>, fs: seq<Field>, n: int)
    requires 0 < n <= |fs|
    ensures Processed(sem, gv, target, fs, n - 1).Err? ==> Processed(sem, gv, target, fs, n).Err?
    ensures Processed(sem, gv, target, fs, n - 1).Ok? ==>
      Processed(sem, gv, target, fs, n) ==
        match Resolve(sem, gv, fs[n - 1].1)
        case Ok(r) => Ok(Assign(Processed(sem, gv, target, fs, n - 1).value, fs[n - 1].0, r))
        case Err(e) => Err(e)
  {
  }

  /** Once processing throws, it stays thrown. */
  lemma {:induction false} ProcessedErrorSticks(sem: Semver, gv: string, target: seq<Field>, fs: seq<Field>, n: int, m: int)
    requires 0 <= n <= m <= |fs| && Processed(sem, gv, target, fs, n).Err?
    ensures Processed(sem, gv, target, fs, m).Err?
    decreases m - n
  {
    if n < m {
      ProcessedErrorSticks(sem, gv, target, fs, n, m - 1);
      ProcessedStep(sem, gv, target, fs, m);
    }
  }

  /** The keys of `fs` are distinct, as those of a JavaScript object are. */
  predicate DistinctKeys(fs: seq<Field>) {
    forall i, j | 0 <= i < j < |fs| :: Keys(fs)[i] != Keys(fs)[j]
  }

  /** Every one of the first `n` values of `fs` resolves. */
  predicate AllResolve(sem: Semver, gv: string, fs: seq<Field>, n: int)
    requires 0 <= n <= |fs|
  {
    forall i {:trigger Resolve(sem, gv, fs[i].1)} | 0 <= i < n :: Resolve(sem, gv, fs[i].1).Ok?
  }

  /** `out` holds the first `n` keys of `fs` in order, each with its value's resolution. */
  predicate ResolvedPrefix(sem: Semver, gv: string, fs: seq<Field>, n: int, out: seq<Field>)
    requires 0 <= n <= |fs|
  {
    |out| == n &&
    forall i {:trigger out[i]} | 0 <= i < n :: Resolve(sem, gv, fs[i].1).Ok? && out[i] == (fs[i].0, Resolve(sem, gv, fs[i].1).value)
  }

  /** A key that comes later in an object with distinct keys is not yet in what was
      built from the properties before it. */
  lemma FreshKey(sem: Semver, gv: string, fs: seq<Field>, n: int, out: seq<Field>)
    requires DistinctKeys(fs) && 0 <= n < |fs| && ResolvedPrefix(sem, gv, fs, n, out)
    ensures fs[n].0 !in Keys(out)
  {
    forall i | 0 <= i < n ensures Keys(out)[i] != fs[n].0 {
      assert out[i].0 == fs[i].0;
      assert Keys(fs)[i] != Keys(fs)[n];
    }
  }

  /** Lines 16-18, 24: processing into a fresh object succeeds exactly when every property
      resolves, and then the object holds every key of the input in the input's order,
      each with its resolved value. */
  lemma {:induction false} ProcessedFresh(sem: Semver, gv: string, fs: seq<Field>, n: int)
    requires DistinctKeys(fs) && 0 <= n <= |fs|
    ensures Processed(sem, gv, [], fs, n).Ok? <==> AllResolve(sem, gv, fs, n)
    ensures Processed(sem, gv, [], fs, n).Ok? ==> ResolvedPrefix(sem, gv, fs, n, Processed(sem, gv, [], fs, n).value)
    decreases n
  {
    if n > 0 {
      ProcessedFresh(sem, gv, fs, n - 1);
      ProcessedStep(sem, gv, [], fs, n);
      var prev := Processed(sem, gv, [], fs, n - 1);
      var res := Resolve(sem, gv, fs[n - 1].1);
      if prev.Ok? && res.Ok? {
        var k := fs[n - 1].0;
        FreshKey(sem, gv, fs, n - 1, prev.value);
        AssignAppends(prev.value, k, res.value);
        assert Processed(sem, gv, [], fs, n) == Ok(prev.value + [(k, res.value)]);
        assert AllResolve(sem, gv, fs, n) by {
          forall i | 0 <= i < n ensures Resolve(sem, gv, fs[i].1).Ok? {
            if i < n - 1 {
              assert AllResolve(sem, gv, fs, n - 1);
            }
          }
        }
      } else if prev.Ok? {
        assert !AllResolve(sem, gv, fs, n);
      } else {
        var i :| 0 <= i < n - 1 && Resolve(sem, gv, fs[i].1).Err?;
        assert !AllResolve(sem, gv, fs, n);
      }
    }
  }

  /** A group resolves, when every member does, to a fresh object with the group's keys
      in the group's order, each holding its member's resolution. */
  lemma GroupResolves(sem: Semver, gv: string, v: Value)
    requires IsGroup(sem, v) && DistinctKeys(v.fields)
    ensures Resolve(sem, gv, v).Ok? <==> AllResolve(sem, gv, v.fields, |v.fields|)
    ensures Resolve(sem, gv, v).Ok? ==>
      Resolve(sem, gv, v).value.Obj? && ResolvedPrefix(sem, gv, v.fields, |v.fields|, Resolve(sem, gv, v).value.fields)
  {
    ProcessedFresh(sem, gv, v.fields, |v.fields|);
  }

  /** The object that receives the resolved selectors; `processSelectors` assigns its
      properties one by one. */
  class SelectorGroup {
    var fields: seq<Field>

    constructor()
      ensures fields == []
    {
      fields := [];
    }

    /** `selectors[key] = v`. */
    method Set(key: string, v: Value)
      modifies this
      ensures fields == Assign(old(fields), key, v)
    {
      fields := Assign(fields, key, v);
    }
  }

  /** Lines 28-38: sort the versions highest first, take the first one the running version
      is at least (or the highest), and read the value stored under it. */
  method ResolveVersioned(fields: seq<Field>, gv: string, sem: Semver) returns (r: Result<Value, ResolveError>)
    requires |fields| > 0
    ensures r == Pick(sem, gv, fields)
  {
    var sorted := SortVersions(sem, Keys(fields));
    if sorted.Err? {
      return Err(sorted.error);
    }
    var validVersion := sorted.value[0];
    var i := 0;
    while i < |sorted.value|
      invariant 0 <= i <= |sorted.value|
      invariant Scan(sem, gv, sorted.value, 0) == Scan(sem, gv, sorted.value, i)
      invariant validVersion == sorted.value[0]
    {
      var version := sorted.value[i];
      var ge := Gte(sem, gv, version);
      if ge.Err? {
        return Err(ge.error);
      }
      if ge.value {
        validVersion := version;
        break;
      }
      i := i + 1;
    }
    assert Scan(sem, gv, sorted.value, 0) == Ok(validVersion);
    SortPerm(sem, Keys(fields));
    assert validVersion in multiset(sorted.value);
    return Ok(Get(fields, validVersion));
  }

  /** `processSelectors(selectors, versionedSelectors, grafanaVersion)`. */
  method ProcessSelectors(selectors: SelectorGroup, versioned: seq<Field>, gv: string, sem: Semver)
    returns (r: Result<SelectorGroup, ResolveError>)
    modifies selectors
    decreases Obj(versioned)
    ensures r.Ok? <==> Processed(sem, gv, old(selectors.fields), versioned, |versioned|).Ok?
    ensures r.Ok? ==> r.value == selectors
    ensures r.Ok? ==> selectors.fields == Processed(sem, gv, old(selectors.fields), versioned, |versioned|).value
  {
    ghost var target := selectors.fields;
    var keys := Keys(versioned);
    for index := 0 to |keys|
      invariant Processed(sem, gv, target, versioned, index) == Ok(selectors.fields)
    {
      var key := keys[index];
      var value := versioned[index].1;
      var res: Result<Value, ResolveError>;
      if value.Obj? && |value.fields| > 0 && !sem.valid(value.fields[0].0) {
        var sub := new SelectorGroup();
        var processed := ProcessSelectors(sub, value.fields, gv, sem);
        res := if processed.Ok? then Ok(Obj(sub.fields)) else Err(processed.error);
        assert res.Err? ==> res.error == InvalidVersion && Resolve(sem, gv, value).error == InvalidVersion;
        assert res == Resolve(sem, gv, value);
      } else if value.Obj? && |value.fields| > 0 && sem.valid(value.fields[0].0) {
        res := ResolveVersioned(value.fields, gv, sem);
        assert res == Resolve(sem, gv, value);
      } else {
        res := Ok(value);
        assert res == Resolve(sem, gv, value);
      }
      ProcessedStep(sem, gv, target, versioned, index + 1);
      if res.Err? {
        ProcessedErrorSticks(sem, gv, target, versioned, index + 1, |versioned|);
        return Err(res.error);
      }
      selectors.Set(key, res.value);
    }
    return Ok(selectors);
  }

  /** JavaScript's line terminators, which `.` in a regular expression does not match. */
  predicate LineTerminator(c: char) {
    c == '\n' || c == '\r' || c == '\U{2028}' || c == '\U{2029}'
  }

  /** The index of the first `c` in `s` from `from` on, or `|s|`. */
  function IndexFrom(s: string, from: int, c: char -> bool): (i: int)
    requires 0 <= from <= |s|
    ensures from <= i <= |s|
    ensures i < |s| ==> c(s[i])
    ensures forall j | from <= j < i :: !c(s[j])
    decreases |s| - from
  {
    if from == |s| || c(s[from]) then from else IndexFrom(s, from + 1, c)
  }

  // `s.replace(/\-.*/, '')`: the first `-` and the rest of its line are removed.
  function StripPrerelease(s: string): (r: string)
    ensures |r| <= |s|
    ensures '-' !in s <==> r == s
  {
    var dash := IndexFrom(s, 0, c => c == '-');
    if dash == |s| then s
    else s[..dash] + s[IndexFrom(s, dash + 1, LineTerminator)..]
  }

  /** On a one-line version string, everything from the first `-` on is dropped, and
      what remains has no `-`; a string without `-` is kept whole. */
  lemma StripOneLine(s: string)
    requires forall i | 0 <= i < |s| :: !LineTerminator(s[i])
    ensures '-' !in StripPrerelease(s)
    ensures StripPrerelease(s) <= s
    ensures '-' !in s ==> StripPrerelease(s) == s
    ensures '-' in s ==> s[|StripPrerelease(s)|] == '-'
  {
    var dash := IndexFrom(s, 0, c => c == '-');
    if dash < |s| {
      assert IndexFrom(s, dash + 1, LineTerminator) == |s|;
      assert StripPrerelease(s) == s[..dash];
    } else {
      assert forall i | 0 <= i < |s| :: s[i] != '-';
    }
  }

  /** The object `resolveSelectors` hands to `processSelectors` (lines 60-64). */
  function TopLevel(pages: Value, components: Value, apis: Value): seq<Field> {
    [("pages", pages), ("components", components), ("apis", apis)]
  }

  /** Processing the top-level object succeeds exactly when the three trees resolve, and
      then yields exactly the keys `pages`, `components` and `apis`, in that order, each
      holding its tree's resolution. */
  lemma TopLevelResolves(sem: Semver, gv: string, pages: Value, components: Value, apis: Value)
    ensures Processed(sem, gv, [], TopLevel(pages, components, apis), 3).Ok? <==>
      Resolve(sem, gv, pages).Ok? && Resolve(sem, gv, components).Ok? && Resolve(sem, gv, apis).Ok?
    ensures Processed(sem, gv, [], TopLevel(pages, components, apis), 3).Ok? ==>
      Processed(sem, gv, [], TopLevel(pages, components, apis), 3).value ==
        [("pages", Resolve(sem, gv, pages).value), ("components", Resolve(sem, gv, components).value),
         ("apis", Resolve(sem, gv, apis).value)]
  {
    var top := TopLevel(pages, components, apis);
    assert Keys(top) == ["pages", "components", "apis"];
    ProcessedFresh(sem, gv, top, 3);
    assert top[0].1 == pages && top[1].1 == components && top[2].1 == apis;
    var p := Processed(sem, gv, [], top, 3);
    if p.Ok? {
      var out := p.value;
      assert out[0] == (top[0].0, Resolve(sem, gv, top[0].1).value);
      assert out[1] == (top[1].0, Resolve(sem, gv, top[1].1).value);
      assert out[2] == (top[2].0, Resolve(sem, gv, top[2].1).value);
    }
  }

  /** `resolveSelectors(grafanaVersion)`, with the three versioned selector trees, which
      live in other modules of the package, as parameters. */
  method ResolveSelectors(grafanaVersion: string, pages: Value, components: Value, apis: Value, sem: Semver)
    returns (r: Result<SelectorGroup, ResolveError>)
    ensures var gv := StripPrerelease(grafanaVersion);
      r.Ok? <==> Resolve(sem, gv, pages).Ok? && Resolve(sem, gv, components).Ok? && Resolve(sem, gv, apis).Ok?
    ensures var gv := StripPrerelease(grafanaVersion);
      r.Ok? ==> (fresh(r.value) &&
        r.value.fields == [("pages", Resolve(sem, gv, pages).value), ("components", Resolve(sem, gv, components).value),
                           ("apis", Resolve(sem, gv, apis).value)])
  {
    var selectors := new SelectorGroup();
    var gv := StripPrerelease(grafanaVersion);
    TopLevelResolves(sem, gv, pages, components, apis);
    r := ProcessSelectors(selectors, TopLevel(pages, components, apis), gv, sem);
  }
}
