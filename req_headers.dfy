/** `CustomHeaders` of pkg/util/req_headers.go: the custom HTTP headers of a data source,
    whose names are stored in its JSON settings under `httpHeaderName…` keys and whose
    values are stored, encrypted, under the matching `httpHeaderValue…` keys. */
module ReqHeaders {
  import opened Bytes
  import opened Wrappers
  import opened Seqs

  /** The JSON value a `simplejson.Json` wraps, as far as `CustomHeaders` looks at it. */
  datatype Json = JString(s: GoString) | JObject(fields: map<GoString, Json>) | JOther

  const HeaderName: GoString := Ascii("httpHeaderName")
  const HeaderValue: GoString := Ascii("httpHeaderValue")

  /** `MustMap()`: the object's fields, or an empty map for any other value. */
  function MustMap(j: Json): (r: map<GoString, Json>)
    ensures j.JObject? ==> r == j.fields
    ensures !j.JObject? ==> r == map[]
  {
    if j.JObject? then j.fields else map[]
  }

  /** A settings key that names a header: it starts with `httpHeaderName` and holds a string. */
  predicate Qualifies(data: map<GoString, Json>, k: GoString) {
    k in data && HasPrefix(k, HeaderName) && data[k].JString?
  }

  /** The key of the decrypted settings that holds the value for the header named under `k`. */
  function ValueKey(k: GoString): GoString {
    ReplaceAll(k, HeaderName, HeaderValue)
  }

  /** A Go map read: the stored value, or "" for a missing key. */
  function HeaderValueOf(decrypted: map<GoString, GoString>, k: GoString): (v: GoString)
    ensures ValueKey(k) in decrypted ==> v == decrypted[ValueKey(k)]
    ensures ValueKey(k) !in decrypted ==> v == []
  {
    if ValueKey(k) in decrypted then decrypted[ValueKey(k)] else []
  }

  /** The qualifying keys among `ks`. */
  function Named(data: map<GoString, Json>, ks: set<GoString>): set<GoString> {
    set k | k in ks && Qualifies(data, k)
  }

  /** The header names the qualifying keys among `ks` hold. */
  function Names(data: map<GoString, Json>, ks: set<GoString>): set<GoString> {
    set k | k in ks && Qualifies(data, k) :: data[k].s
  }

  /** No two qualifying keys hold the same header name, so the map iteration order of
      the loop cannot matter. */
  predicate DistinctNames(data: map<GoString, Json>) {
    forall k1, k2 | k1 in data && k2 in data && Qualifies(data, k1) && Qualifies(data, k2) && k1 != k2 ::
      data[k1].s != data[k2].s
  }

  /** The header `h` has the value of some qualifying key among `ks` that names it. */
  predicate Sourced(data: map<GoString, Json>, decrypted: map<GoString, GoString>, ks: set<GoString>,
                    h: GoString, v: GoString) {
    exists k | k in ks && Qualifies(data, k) :: data[k].s == h && v == HeaderValueOf(decrypted, k)
  }

  /** What the loop of `CustomHeaders` has built after visiting the keys `done`. */
  predicate Built(data: map<GoString, Json>, decrypted: map<GoString, GoString>, done: set<GoString>,
                  headers: map<GoString, GoString>) {
    headers.Keys == Names(data, done) &&
    (forall h | h in headers :: Sourced(data, decrypted, done, h, headers[h])) &&
    (DistinctNames(data) ==>
      forall k | k in done && Qualifies(data, k) :: headers[data[k].s] == HeaderValueOf(decrypted, k))
  }

  /** One iteration of the loop: a qualifying key sets its header, any other key is skipped. */
  function Visit(data: map<GoString, Json>, decrypted: map<GoString, GoString>, headers: map<GoString, GoString>,
                 k: GoString): map<GoString, GoString> {
    if Qualifies(data, k) then headers[data[k].s := HeaderValueOf(decrypted, k)] else headers
  }

  /** Visiting a new key extends what has been built. */
  lemma VisitBuilt(data: map<GoString, Json>, decrypted: map<GoString, GoString>, done: set<GoString>,
                   headers: map<GoString, GoString>, k: GoString)
    requires k in data && k !in done && Built(data, decrypted, done, headers)
    ensures Built(data, decrypted, done + {k}, Visit(data, decrypted, headers, k))
  {
    VisitNames(data, done, headers, k);
    VisitSourced(data, decrypted, done, headers, k);
    if DistinctNames(data) {
      VisitDistinct(data, decrypted, done, headers, k);
    }
  }

  lemma VisitNames(data: map<GoString, Json>, done: set<GoString>, headers: map<GoString, GoString>, k: GoString)
    requires k in data && headers.Keys == Names(data, done)
    ensures forall decrypted :: Visit(data, decrypted, headers, k).Keys == Names(data, done + {k})
  {
    if Qualifies(data, k) {
      assert Names(data, done + {k}) == Names(data, done) + {data[k].s};
    } else {
      assert Names(data, done + {k}) == Names(data, done);
    }
  }

  lemma VisitSourced(data: map<GoString, Json>, decrypted: map<GoString, GoString>, done: set<GoString>,
                     headers: map<GoString, GoString>, k: GoString)
    requires k in data && forall h | h in headers :: Sourced(data, decrypted, done, h, headers[h])
    ensures var next := Visit(data, decrypted, headers, k);
      forall h | h in next :: Sourced(data, decrypted, done + {k}, h, next[h])
  {
    var next := Visit(data, decrypted, headers, k);
    forall h | h in next ensures Sourced(data, decrypted, done + {k}, h, next[h]) {
      if Qualifies(data, k) && h == data[k].s {
        assert k in done + {k};
      } else {
        var j :| j in done && Qualifies(data, j) && data[j].s == h && headers[h] == HeaderValueOf(decrypted, j);
        assert j in done + {k};
      }
    }
  }

  /** Distinct keys may name the same header, so there are at most as many names as keys. */
  lemma {:induction false} NamesBound(data: map<GoString, Json>, ks: set<GoString>)
    ensures |Names(data, ks)| <= |Named(data, ks)|
    decreases ks
  {
    if ks != {} {
      var k :| k in ks;
      var rest := ks - {k};
      NamesBound(data, rest);
      AddKey(data, rest, k);
      assert ks == rest + {k};
    }
  }

  /** The qualifying keys and their names after one more key. */
  lemma AddKey(data: map<GoString, Json>, rest: set<GoString>, k: GoString)
    requires k !in rest
    ensures Qualifies(data, k) ==> Names(data, rest + {k}) == Names(data, rest) + {data[k].s}
    ensures Qualifies(data, k) ==> Named(data, rest + {k}) == Named(data, rest) + {k} && k !in Named(data, rest)
    ensures !Qualifies(data, k) ==> Names(data, rest + {k}) == Names(data, rest)
    ensures !Qualifies(data, k) ==> Named(data, rest + {k}) == Named(data, rest)
  {
  }

  lemma VisitDistinct(data: map<GoString, Json>, decrypted: map<GoString, GoString>, done: set<GoString>,
                      headers: map<GoString, GoString>, k: GoString)
    requires k in data && k !in done && headers.Keys == Names(data, done) && DistinctNames(data)
    requires forall j | j in done && Qualifies(data, j) :: headers[data[j].s] == HeaderValueOf(decrypted, j)
    ensures var next := Visit(data, decrypted, headers, k);
      forall j | j in done + {k} && Qualifies(data, j) :: next[data[j].s] == HeaderValueOf(decrypted, j)
  {
    var next := Visit(data, decrypted, headers, k);
    VisitNames(data, done, headers, k);
    forall j | j in done + {k} && Qualifies(data, j) ensures next[data[j].s] == HeaderValueOf(decrypted, j) {
      if j != k && Qualifies(data, k) {
        assert data[j].s != data[k].s;
      }
    }
  }

  /** `CustomHeaders`. Go visits the keys of a map in an unspecified order, and a later
      key naming the same header overwrites an earlier one; the loop picks the next key
      arbitrarily, so the contract holds for every order. */
  method CustomHeaders(jsonData: Option<Json>, decrypted: map<GoString, GoString>)
    returns (r: Option<map<GoString, GoString>>)
    ensures r.None? <==> jsonData.None?
    ensures r.Some? ==> var data := MustMap(jsonData.value);
      r.value.Keys == Names(data, data.Keys) &&
      (forall h | h in r.value :: Sourced(data, decrypted, data.Keys, h, r.value[h])) &&
      |r.value| <= |Named(data, data.Keys)| &&
      (DistinctNames(data) ==>
        forall k | k in data && Qualifies(data, k) :: r.value[data[k].s] == HeaderValueOf(decrypted, k))
  {
    if jsonData.None? {
      return None;
    }
    var data := MustMap(jsonData.value);
    var headers: map<GoString, GoString> := map[];
    var todo := data.Keys;
    ghost var done: set<GoString> := {};
    while todo != {}
      invariant todo + done == data.Keys && todo !! done
      invariant Built(data, decrypted, done, headers)
      decreases |todo|
    {
      var k :| k in todo;
      VisitBuilt(data, decrypted, done, headers, k);
      headers := Visit(data, decrypted, headers, k);
      todo := todo - {k};
      done := done + {k};
    }
    assert done == data.Keys;
    NamesBound(data, data.Keys);
    return Some(headers);
  }

  /** The value of the header stored under `httpHeaderName<suffix>` is read from
      `httpHeaderValue<suffix>`, for every suffix that does not itself contain
      `httpHeaderName`. */
  lemma PairedKeys(suffix: GoString)
    requires !Contains(suffix, HeaderName)
    ensures ValueKey(HeaderName + suffix) == HeaderValue + suffix
  {
    var k := HeaderName + suffix;
    assert HasPrefix(k, HeaderName);
    ReplaceAllPrefix(k, HeaderName, HeaderValue);
    assert k[|HeaderName|..] == suffix;
    ReplaceAllAbsent(suffix, HeaderName, HeaderValue);
  }
}
