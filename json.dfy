/** The string encodings the store keeps in its `labels`, `annotations` and `apis`
    columns. encoding/json is replaced by a JSON-shaped encoding that is injective and
    has a proved inverse: strings are quoted with `\"` and `\\` escaped, lists are
    `["a","b"]`, and maps are `{"k":"v",...}` with keys in ascending byte order, the
    order encoding/json writes map keys in. */
module Json {
  import opened Bytes
  import opened Wrappers

  const QuoteChar: byte := 34       // '"'
  const BackslashChar: byte := 92   // '\\'
  const CommaChar: byte := 44       // ','
  const ColonChar: byte := 58       // ':'
  const OpenBracket: byte := 91     // '['
  const CloseBracket: byte := 93    // ']'
  const OpenBrace: byte := 123      // '{'
  const CloseBrace: byte := 125     // '}'

  // ---------------------------------------------------------------------------
  // Strings

  function Escape(s: GoString): GoString {
    if s == [] then []
    else (if s[0] == QuoteChar || s[0] == BackslashChar then [BackslashChar, s[0]] else [s[0]])
         + Escape(s[1..])
  }

  function QuoteString(s: GoString): GoString {
    [QuoteChar] + Escape(s) + [QuoteChar]
  }

  /** Reads the rest of a quoted string after its opening quote: the string and what
      follows the closing quote. */
  function ParseStringBody(t: GoString): (r: Option<(GoString, GoString)>)
    ensures r.Some? ==> |r.value.1| < |t|
    decreases |t|
  {
    if t == [] then None
    else if t[0] == QuoteChar then Some(([], t[1..]))
    else if t[0] == BackslashChar then
      if |t| < 2 then None
      else match ParseStringBody(t[2..])
        case None => None
        case Some((s, rest)) => Some(([t[1]] + s, rest))
    else match ParseStringBody(t[1..])
      case None => None
      case Some((s, rest)) => Some(([t[0]] + s, rest))
  }

  function ParseString(t: GoString): (r: Option<(GoString, GoString)>)
    ensures r.Some? ==> |r.value.1| < |t|
  {
    if t != [] && t[0] == QuoteChar then ParseStringBody(t[1..]) else None
  }

  lemma {:induction false} ParseStringBodyEscape(s: GoString, rest: GoString)
    ensures ParseStringBody(Escape(s) + [QuoteChar] + rest) == Some((s, rest))
    decreases |s|
  {
    if s == [] {
      assert Escape(s) + [QuoteChar] + rest == [QuoteChar] + rest;
    } else {
      var head := if s[0] == QuoteChar || s[0] == BackslashChar then [BackslashChar, s[0]] else [s[0]];
      var tail := Escape(s[1..]) + [QuoteChar] + rest;
      assert Escape(s) + [QuoteChar] + rest == head + tail;
      ParseStringBodyEscape(s[1..], rest);
      if |head| == 2 {
        assert (head + tail)[2..] == tail;
      } else {
        assert (head + tail)[1..] == tail;
      }
      assert s == [s[0]] + s[1..];
    }
  }

  /** A quoted string reads back as itself, whatever follows it. */
  lemma ParseQuoted(s: GoString, rest: GoString)
    ensures ParseString(QuoteString(s) + rest) == Some((s, rest))
  {
    assert QuoteString(s) + rest == [QuoteChar] + (Escape(s) + [QuoteChar] + rest);
    ParseStringBodyEscape(s, rest);
  }

  // ---------------------------------------------------------------------------
  // Lists of strings: `[]`, `["a"]`, `["a","b"]`

  /** The elements after the first, each preceded by a comma, then the closing bracket. */
  function EncodeRest(xs: seq<GoString>): GoString {
    if xs == [] then [CloseBracket] else [CommaChar] + QuoteString(xs[0]) + EncodeRest(xs[1..])
  }

  function EncodeList(xs: seq<GoString>): (r: GoString)
    ensures |r| >= 2 && r[0] == OpenBracket
  {
    [OpenBracket] + (if xs == [] then [CloseBracket] else QuoteString(xs[0]) + EncodeRest(xs[1..]))
  }

  function ParseRest(t: GoString): (r: Option<(seq<GoString>, GoString)>)
    ensures r.Some? ==> |r.value.1| < |t|
    decreases |t|
  {
    if t == [] then None
    else if t[0] == CloseBracket then Some(([], t[1..]))
    else if t[0] == CommaChar then
      match ParseString(t[1..])
      case None => None
      case Some((x, rest)) =>
        match ParseRest(rest)
        case None => None
        case Some((xs, tail)) => Some(([x] + xs, tail))
    else None
  }

  /** Reads a whole list; anything after the closing bracket is an error. */
  function ParseList(t: GoString): Option<seq<GoString>> {
    if |t| < 2 || t[0] != OpenBracket then None
    else if t[1] == CloseBracket then (if |t| == 2 then Some([]) else None)
    else match ParseString(t[1..])
      case None => None
      case Some((x, rest)) =>
        match ParseRest(rest)
        case Some((xs, tail)) => if tail == [] then Some([x] + xs) else None
        case None => None
  }

  lemma {:induction false} ParseEncodeRest(xs: seq<GoString>, tail: GoString)
    ensures ParseRest(EncodeRest(xs) + tail) == Some((xs, tail))
    decreases |xs|
  {
    if xs == [] {
      assert EncodeRest(xs) + tail == [CloseBracket] + tail;
    } else {
      var after := EncodeRest(xs[1..]) + tail;
      assert EncodeRest(xs) + tail == [CommaChar] + (QuoteString(xs[0]) + after);
      ParseQuoted(xs[0], after);
      ParseEncodeRest(xs[1..], tail);
      assert xs == [xs[0]] + xs[1..];
    }
  }

  /** `ParseList` inverts `EncodeList`. */
  lemma ParseEncodeList(xs: seq<GoString>)
    ensures ParseList(EncodeList(xs)) == Some(xs)
  {
    if xs != [] {
      var t := EncodeList(xs);
      var after := EncodeRest(xs[1..]);
      assert t[1..] == QuoteString(xs[0]) + after;
      assert QuoteString(xs[0])[0] == QuoteChar;
      ParseQuoted(xs[0], after);
      ParseEncodeRest(xs[1..], []);
      assert after + [] == after;
      assert xs == [xs[0]] + xs[1..];
    }
  }

  // ---------------------------------------------------------------------------
  // Byte-wise order of strings (Go's `<` on strings)

  predicate LexLess(a: GoString, b: GoString) {
    if a == [] then b != []
    else b != [] && (a[0] < b[0] || (a[0] == b[0] && LexLess(a[1..], b[1..])))
  }

  lemma {:induction false} LexLessIrreflexive(a: GoString)
    ensures !LexLess(a, a)
  {
    if a != [] {
      LexLessIrreflexive(a[1..]);
    }
  }

  lemma {:induction false} LexLessTransitive(a: GoString, b: GoString, c: GoString)
    requires LexLess(a, b) && LexLess(b, c)
    ensures LexLess(a, c)
  {
    if a != [] && a[0] == b[0] && b[0] == c[0] {
      LexLessTransitive(a[1..], b[1..], c[1..]);
    }
  }

  lemma {:induction false} LexLessTotal(a: GoString, b: GoString)
    requires a != b
    ensures LexLess(a, b) || LexLess(b, a)
  {
    if a != [] && b != [] && a[0] == b[0] {
      assert a == [a[0]] + a[1..] && b == [b[0]] + b[1..];
      LexLessTotal(a[1..], b[1..]);
    }
  }

  lemma {:induction false} LexLessAsymmetric(a: GoString, b: GoString)
    requires LexLess(a, b)
    ensures !LexLess(b, a)
  {
    if a != [] && a[0] == b[0] {
      LexLessAsymmetric(a[1..], b[1..]);
    }
  }

  predicate IsLeast(m: GoString, s: set<GoString>) {
    m in s && forall x | x in s :: x == m || LexLess(m, x)
  }

  lemma {:induction false} LeastExists(s: set<GoString>)
    requires s != {}
    ensures exists m :: IsLeast(m, s)
    decreases |s|
  {
    var x :| x in s;
    if s - {x} == {} {
      assert s == {x};
      assert IsLeast(x, s);
    } else {
      LeastExists(s - {x});
      var m :| IsLeast(m, s - {x});
      if LexLess(m, x) {
        assert IsLeast(m, s);
      } else {
        LexLessTotal(m, x);
        forall y | y in s ensures y == x || LexLess(x, y) {
          if y != x && y != m {
            LexLessTransitive(x, m, y);
          }
        }
        assert IsLeast(x, s);
      }
    }
  }

  lemma LeastUnique(m1: GoString, m2: GoString, s: set<GoString>)
    requires IsLeast(m1, s) && IsLeast(m2, s)
    ensures m1 == m2
  {
    if m1 != m2 {
      LexLessAsymmetric(m1, m2);
    }
  }

  lemma LeastUniqueAll(s: set<GoString>)
    ensures forall m1, m2 | IsLeast(m1, s) && IsLeast(m2, s) :: m1 == m2
  {
    forall m1, m2 | IsLeast(m1, s) && IsLeast(m2, s) ensures m1 == m2 {
      LeastUnique(m1, m2, s);
    }
  }

  function Least(s: set<GoString>): (m: GoString)
    requires s != {}
    ensures IsLeast(m, s)
  {
    LeastExists(s);
    LeastUniqueAll(s);
    var m :| IsLeast(m, s);
    m
  }

  predicate StrictlySorted(ks: seq<GoString>) {
    forall i, j | 0 <= i < j < |ks| :: LexLess(ks[i], ks[j])
  }

  /** The keys of a set in ascending order, each once. */
  function SortedKeys(s: set<GoString>): (ks: seq<GoString>)
    ensures |ks| == |s|
    ensures forall k :: k in ks <==> k in s
    ensures StrictlySorted(ks)
    decreases |s|
  {
    if s == {} then []
    else
      var m := Least(s);
      var rest := SortedKeys(s - {m});
      assert forall k | k in rest :: LexLess(m, k);
      [m] + rest
  }

  lemma SortedDistinct(ks: seq<GoString>, i: int, j: int)
    requires StrictlySorted(ks) && 0 <= i < |ks| && 0 <= j < |ks| && i != j
    ensures ks[i] != ks[j]
  {
    if i < j {
      LexLessIrreflexive(ks[i]);
    } else {
      LexLessIrreflexive(ks[j]);
    }
  }

  // ---------------------------------------------------------------------------
  // Maps of strings: `{}`, `{"k":"v"}`, `{"a":"1","b":"2"}`

  function Entries(m: map<GoString, GoString>, ks: seq<GoString>): (ps: seq<(GoString, GoString)>)
    requires forall k | k in ks :: k in m
    ensures |ps| == |ks|
    ensures forall i | 0 <= i < |ks| :: ps[i] == (ks[i], m[ks[i]])
  {
    seq(|ks|, i requires 0 <= i < |ks| => (ks[i], m[ks[i]]))
  }

  function EncodeEntry(p: (GoString, GoString)): GoString {
    QuoteString(p.0) + [ColonChar] + QuoteString(p.1)
  }

  function EncodeEntriesRest(ps: seq<(GoString, GoString)>): GoString {
    if ps == [] then [CloseBrace] else [CommaChar] + EncodeEntry(ps[0]) + EncodeEntriesRest(ps[1..])
  }

  function EncodeEntries(ps: seq<(GoString, GoString)>): (r: GoString)
    ensures |r| >= 2 && r[0] == OpenBrace
  {
    [OpenBrace] + (if ps == [] then [CloseBrace] else EncodeEntry(ps[0]) + EncodeEntriesRest(ps[1..]))
  }

  function EncodeMap(m: map<GoString, GoString>): (r: GoString)
    ensures |r| >= 2 && r[0] == OpenBrace
  {
    EncodeEntries(Entries(m, SortedKeys(m.Keys)))
  }

  function ParseEntry(t: GoString): (r: Option<((GoString, GoString), GoString)>)
    ensures r.Some? ==> |r.value.1| < |t|
  {
    match ParseString(t)
    case None => None
    case Some((k, rest)) =>
      if rest == [] || rest[0] != ColonChar then None
      else match ParseString(rest[1..])
        case None => None
        case Some((v, tail)) => Some(((k, v), tail))
  }

  function ParseEntriesRest(t: GoString): (r: Option<(seq<(GoString, GoString)>, GoString)>)
    ensures r.Some? ==> |r.value.1| < |t|
    decreases |t|
  {
    if t == [] then None
    else if t[0] == CloseBrace then Some(([], t[1..]))
    else if t[0] == CommaChar then
      match ParseEntry(t[1..])
      case None => None
      case Some((p, rest)) =>
        match ParseEntriesRest(rest)
        case None => None
        case Some((ps, tail)) => Some(([p] + ps, tail))
    else None
  }

  function ParseEntries(t: GoString): Option<seq<(GoString, GoString)>> {
    if |t| < 2 || t[0] != OpenBrace then None
    else if t[1] == CloseBrace then (if |t| == 2 then Some([]) else None)
    else match ParseEntry(t[1..])
      case None => None
      case Some((p, rest)) =>
        match ParseEntriesRest(rest)
        case Some((ps, tail)) => if tail == [] then Some([p] + ps) else None
        case None => None
  }

  /** The map json.Unmarshal builds from decoded entries: a later entry for the same key
      overwrites an earlier one. */
  function MapOf(ps: seq<(GoString, GoString)>): map<GoString, GoString> {
    if ps == [] then map[]
    else MapOf(ps[..|ps| - 1])[ps[|ps| - 1].0 := ps[|ps| - 1].1]
  }

  function ParseMap(t: GoString): Option<map<GoString, GoString>> {
    match ParseEntries(t)
    case None => None
    case Some(ps) => Some(MapOf(ps))
  }

  lemma ParseEncodeEntry(p: (GoString, GoString), tail: GoString)
    ensures ParseEntry(EncodeEntry(p) + tail) == Some((p, tail))
  {
    var after := [ColonChar] + QuoteString(p.1) + tail;
    assert EncodeEntry(p) + tail == QuoteString(p.0) + after;
    ParseQuoted(p.0, after);
    assert after[1..] == QuoteString(p.1) + tail;
    ParseQuoted(p.1, tail);
  }

  lemma {:induction false} ParseEncodeEntriesRest(ps: seq<(GoString, GoString)>, tail: GoString)
    ensures ParseEntriesRest(EncodeEntriesRest(ps) + tail) == Some((ps, tail))
    decreases |ps|
  {
    if ps == [] {
      assert EncodeEntriesRest(ps) + tail == [CloseBrace] + tail;
    } else {
      var after := EncodeEntriesRest(ps[1..]) + tail;
      assert EncodeEntriesRest(ps) + tail == [CommaChar] + (EncodeEntry(ps[0]) + after);
      ParseEncodeEntry(ps[0], after);
      ParseEncodeEntriesRest(ps[1..], tail);
      assert ps == [ps[0]] + ps[1..];
    }
  }

  lemma ParseEncodeEntries(ps: seq<(GoString, GoString)>)
    ensures ParseEntries(EncodeEntries(ps)) == Some(ps)
  {
    if ps != [] {
      var t := EncodeEntries(ps);
      var after := EncodeEntriesRest(ps[1..]);
      assert t[1..] == EncodeEntry(ps[0]) + after;
      assert EncodeEntry(ps[0])[0] == QuoteChar;
      ParseEncodeEntry(ps[0], after);
      ParseEncodeEntriesRest(ps[1..], []);
      assert after + [] == after;
      assert ps == [ps[0]] + ps[1..];
    }
  }

  lemma {:induction false} MapOfEntries(m: map<GoString, GoString>, ks: seq<GoString>)
    requires forall k | k in ks :: k in m
    requires forall i, j | 0 <= i < |ks| && 0 <= j < |ks| && i != j :: ks[i] != ks[j]
    ensures MapOf(Entries(m, ks)) == map k | k in ks :: m[k]
    decreases |ks|
  {
    if ks != [] {
      var n := |ks| - 1;
      var ps := Entries(m, ks);
      assert ps[..n] == Entries(m, ks[..n]);
      MapOfEntries(m, ks[..n]);
      assert forall k :: k in ks <==> k in ks[..n] || k == ks[n];
      assert ks[n] !in ks[..n];
    }
  }

  /** `ParseMap` inverts `EncodeMap`. */
  lemma ParseEncodeMap(m: map<GoString, GoString>)
    ensures ParseMap(EncodeMap(m)) == Some(m)
  {
    var ks := SortedKeys(m.Keys);
    var ps := Entries(m, ks);
    SortedAllDistinct(ks);
    ParseEncodeEntries(ps);
    MapOfEntries(m, ks);
    assert (map k | k in ks :: m[k]) == m;
  }

  lemma SortedAllDistinct(ks: seq<GoString>)
    requires StrictlySorted(ks)
    ensures forall i, j | 0 <= i < |ks| && 0 <= j < |ks| && i != j :: ks[i] != ks[j]
  {
    forall i, j | 0 <= i < |ks| && 0 <= j < |ks| && i != j ensures ks[i] != ks[j] {
      SortedDistinct(ks, i, j);
    }
  }
}
