/** Helpers shared by every component: optional values and results, the few
    Python string operations the pipeline relies on (split, join, strip,
    path splitting, lower-casing), and insertion-ordered dictionaries. */
module Util {

  datatype Option<T> = None | Some(value: T)

  datatype Result<T, E> = Ok(value: T) | Err(error: E)

  // --------------------------------------------------------------------
  // Strings (Python `str` methods, on `seq<char>`)
  // --------------------------------------------------------------------

  /** `s.endswith(suffix)` */
  predicate EndsWith(s: string, suffix: string) {
    |suffix| <= |s| && s[|s| - |suffix|..] == suffix
  }

  /** `sub in s` */
  predicate Contains(s: string, sub: string)
    decreases |s|
  {
    sub <= s || (|s| > 0 && Contains(s[1..], sub))
  }

  lemma {:induction false} ContainsConcat(a: string, sub: string, b: string)
    ensures Contains(a + sub + b, sub)
    decreases |a|
  {
    if a == [] {
      assert a + sub + b == sub + b;
      assert sub <= sub + b;
    } else {
      ContainsConcat(a[1..], sub, b);
      assert (a + sub + b)[1..] == a[1..] + sub + b;
    }
  }

  /** `c in s` for a single character */
  predicate HasChar(s: string, c: char) {
    exists i :: 0 <= i < |s| && s[i] == c
  }

  /** `s.split(sep)` for a one-character separator: always at least one part */
  function Split(s: string, sep: char): (parts: seq<string>)
    ensures |parts| >= 1
    ensures forall k :: 0 <= k < |parts| ==> !HasChar(parts[k], sep)
    decreases |s|
  {
    if s == [] then [""]
    else if s[0] == sep then [""] + Split(s[1..], sep)
    else
      var rest := Split(s[1..], sep);
      assert !HasChar(rest[0], sep);
      [[s[0]] + rest[0]] + rest[1..]
  }

  /** A string holding the separator splits into at least two parts. */
  lemma {:induction false} SplitHasSep(s: string, sep: char)
    requires HasChar(s, sep)
    ensures |Split(s, sep)| >= 2
    decreases |s|
  {
    if s[0] != sep {
      var i :| 0 <= i < |s| && s[i] == sep;
      assert s[1..][i - 1] == sep;
      SplitHasSep(s[1..], sep);
    }
  }

  /** `sep.join(parts)` */
  function Join(parts: seq<string>, sep: string): string
    decreases |parts|
  {
    if parts == [] then ""
    else if |parts| == 1 then parts[0]
    else parts[0] + sep + Join(parts[1..], sep)
  }

  /** Splitting a joined list gives the list back, provided no part holds the
      separator and the list is not empty ("".split gives [""]). */
  lemma {:induction false} SplitJoin(parts: seq<string>, sep: char)
    requires |parts| >= 1
    requires forall k :: 0 <= k < |parts| ==> !HasChar(parts[k], sep)
    ensures Split(Join(parts, [sep]), sep) == parts
    decreases |parts|
  {
    if |parts| == 1 {
      SplitNoSep(parts[0], sep);
    } else {
      SplitJoin(parts[1..], sep);
      SplitPrefix(parts[0], sep, Join(parts[1..], [sep]));
    }
  }

  lemma {:induction false} SplitNoSep(s: string, sep: char)
    requires !HasChar(s, sep)
    ensures Split(s, sep) == [s]
    decreases |s|
  {
    if s != [] {
      assert s[0] != sep;
      assert !HasChar(s[1..], sep) by {
        forall i | 0 <= i < |s[1..]| ensures s[1..][i] != sep { assert s[1..][i] == s[i + 1]; }
      }
      SplitNoSep(s[1..], sep);
      assert [s[0]] + s[1..] == s;
    }
  }

  lemma {:induction false} SplitPrefix(a: string, sep: char, b: string)
    requires !HasChar(a, sep)
    ensures Split(a + [sep] + b, sep) == [a] + Split(b, sep)
    decreases |a|
  {
    if a == [] {
      assert a + [sep] + b == [sep] + b;
      assert ([sep] + b)[1..] == b;
    } else {
      assert a[0] != sep;
      assert !HasChar(a[1..], sep) by {
        forall i | 0 <= i < |a[1..]| ensures a[1..][i] != sep { assert a[1..][i] == a[i + 1]; }
      }
      SplitPrefix(a[1..], sep, b);
      assert (a + [sep] + b)[1..] == a[1..] + [sep] + b;
      assert [a[0]] + a[1..] == a;
    }
  }

  /** `s.split(c)[0]`: the text before the first `c` (all of `s` when there is none) */
  function BeforeFirst(s: string, c: char): (r: string)
    ensures r <= s
    ensures !HasChar(r, c)
    ensures r == s || (|r| < |s| && s[|r|] == c)
    decreases |s|
  {
    if s == [] || s[0] == c then ""
    else
      var rest := BeforeFirst(s[1..], c);
      assert !HasChar([s[0]] + rest, c) by {
        forall i | 0 <= i < |[s[0]] + rest| ensures ([s[0]] + rest)[i] != c {
          if i > 0 { assert ([s[0]] + rest)[i] == rest[i - 1]; }
        }
      }
      [s[0]] + rest
  }

  /** Index of the last occurrence of `c` in `s`, if any */
  function LastIndexOf(s: string, c: char): (r: Option<nat>)
    ensures r.Some? ==> r.value < |s| && s[r.value] == c &&
                        forall k :: r.value < k < |s| ==> s[k] != c
    ensures r.None? ==> !HasChar(s, c)
    decreases |s|
  {
    if s == [] then None
    else if s[|s| - 1] == c then Some(|s| - 1)
    else
      LastIndexOf(s[..|s| - 1], c)
  }

  /** `s.rsplit(c, maxsplit=1)[0]`: the text before the last `c` (all of `s` when there is none) */
  function BeforeLast(s: string, c: char): (r: string)
    ensures r <= s
  {
    match LastIndexOf(s, c)
    case None => s
    case Some(k) => s[..k]
  }

  /** `os.path.basename(p)` for '/'-separated paths: the text after the last '/' */
  function Basename(p: string): string
    decreases |p|
  {
    if p == [] || p[|p| - 1] == '/' then ""
    else Basename(p[..|p| - 1]) + [p[|p| - 1]]
  }

  /** The basename holds no '/'. */
  lemma {:induction false} BasenameNoSlash(p: string)
    ensures !HasChar(Basename(p), '/')
    decreases |p|
  {
    if p != [] && p[|p| - 1] != '/' {
      var q := p[..|p| - 1];
      BasenameNoSlash(q);
      var r := Basename(p);
      assert r == Basename(q) + [p[|p| - 1]];
      forall i | 0 <= i < |r| ensures r[i] != '/' {
        if i < |r| - 1 { assert r[i] == Basename(q)[i]; }
      }
    }
  }

  /** The basename is a suffix of the path. */
  lemma {:induction false} BasenameSuffix(p: string)
    ensures EndsWith(p, Basename(p))
    decreases |p|
  {
    if p != [] && p[|p| - 1] != '/' {
      var q := p[..|p| - 1];
      BasenameSuffix(q);
      var b := Basename(q);
      assert Basename(p) == b + [p[|p| - 1]];
      assert p[|p| - |b| - 1..] == q[|q| - |b|..] + [p[|p| - 1]];
    }
  }

  /** The basename is the text after the path's last '/', or the whole path
      when it has none. */
  lemma {:induction false} BasenameAfterLast(p: string)
    ensures LastIndexOf(p, '/').None? ==> Basename(p) == p
    ensures LastIndexOf(p, '/').Some? ==> Basename(p) == p[LastIndexOf(p, '/').value + 1..]
    decreases |p|
  {
    if p != [] && p[|p| - 1] != '/' {
      var n := |p| - 1;
      var q := p[..n];
      BasenameAfterLast(q);
      assert LastIndexOf(p, '/') == LastIndexOf(q, '/');
      assert Basename(p) == Basename(q) + [p[n]];
      if LastIndexOf(q, '/').Some? {
        var k := LastIndexOf(q, '/').value;
        assert p[k + 1..] == q[k + 1..] + [p[n]];
      } else {
        assert p == q + [p[n]];
      }
    }
  }

  /** `os.path.join(a, b)` for a relative `b` and an `a` without a trailing '/' */
  function PathJoin(a: string, b: string): string {
    a + "/" + b
  }

  /** The extension part of `os.path.splitext(p)`: from the last '.' of the last
      path component, unless every character before that dot in the component
      is itself a dot (".bashrc" has no extension). */
  function SplitExt(p: string): (r: (string, string))
    ensures r.0 + r.1 == p
    ensures r.1 == "" || (r.1[0] == '.' && !HasChar(r.1[1..], '.'))
  {
    var dot := LastIndexOf(p, '.');
    var slash := LastIndexOf(p, '/');
    var nameStart := if slash.Some? then slash.value + 1 else 0;
    if dot.Some? && dot.value >= nameStart && HasNonDot(p, nameStart, dot.value) then
      var ext := p[dot.value..];
      assert !HasChar(ext[1..], '.') by {
        forall i | 0 <= i < |ext[1..]| ensures ext[1..][i] != '.' { assert ext[1..][i] == p[dot.value + 1 + i]; }
      }
      assert p[..dot.value] + ext == p;
      (p[..dot.value], ext)
    else
      assert p + "" == p;
      (p, "")
  }

  predicate HasNonDot(p: string, from: nat, to: nat)
    requires from <= to <= |p|
  {
    exists i :: from <= i < to && p[i] != '.'
  }

  /** ASCII lower-casing of one character */
  function LowerChar(c: char): char {
    if 'A' <= c <= 'Z' then (c as int + 32) as char else c
  }

  /** `s.lower()`, restricted to ASCII letters */
  function Lower(s: string): (r: string)
    ensures |r| == |s|
    ensures forall i :: 0 <= i < |s| ==> r[i] == LowerChar(s[i])
  {
    seq(|s|, i requires 0 <= i < |s| => LowerChar(s[i]))
  }

  /** A string without upper-case letters is its own lower case. */
  lemma LowerPlain(s: string)
    requires forall i :: 0 <= i < |s| ==> !('A' <= s[i] <= 'Z')
    ensures Lower(s) == s
  {
  }

  predicate IsSpace(c: char) {
    c == ' ' || c == '\t' || c == '\n' || c == '\r' || c == '\U{b}' || c == '\U{c}'
  }

  function StripLeft(s: string): (r: string)
    ensures EndsWith(s, r)
    ensures r == "" || !IsSpace(r[0])
    decreases |s|
  {
    if s != [] && IsSpace(s[0]) then
      var r := StripLeft(s[1..]);
      assert s[1..][|s[1..]| - |r|..] == s[|s| - |r|..];
      r
    else s
  }

  function StripRight(s: string): (r: string)
    ensures r <= s
    ensures r == "" || !IsSpace(r[|r| - 1])
    decreases |s|
  {
    if s != [] && IsSpace(s[|s| - 1]) then StripRight(s[..|s| - 1]) else s
  }

  /** `s.strip()`: leading and trailing whitespace removed */
  function Strip(s: string): (r: string)
    ensures r == "" || (!IsSpace(r[0]) && !IsSpace(r[|r| - 1]))
  {
    var l := StripLeft(s);
    var r := StripRight(l);
    assert r != "" ==> r[0] == l[0];
    r
  }

  /** The length of the run of non-whitespace characters that starts s */
  function WordLength(s: string): (n: nat)
    ensures n <= |s| && (n == |s| || IsSpace(s[n]))
    ensures forall i :: 0 <= i < n ==> !IsSpace(s[i])
    decreases |s|
  {
    if s == [] || IsSpace(s[0]) then 0 else 1 + WordLength(s[1..])
  }

  /** `s.split()`: the maximal runs of non-whitespace characters, in order */
  function Words(s: string): seq<string>
    decreases |s|
  {
    if s == [] then []
    else if IsSpace(s[0]) then Words(s[1..])
    else
      var n := WordLength(s);
      [s[..n]] + Words(s[n..])
  }

  /** Every word is non-empty and free of whitespace, and there is none
      exactly when s is all whitespace. */
  lemma {:induction false} WordsFacts(s: string)
    ensures forall k :: 0 <= k < |Words(s)| ==> Words(s)[k] != "" && forall i :: 0 <= i < |Words(s)[k]| ==> !IsSpace(Words(s)[k][i])
    ensures Words(s) == [] <==> forall i :: 0 <= i < |s| ==> IsSpace(s[i])
    decreases |s|
  {
    if s != [] {
      if IsSpace(s[0]) {
        WordsFacts(s[1..]);
        assert forall i :: 0 < i < |s| ==> s[i] == s[1..][i - 1];
      } else {
        var n := WordLength(s);
        WordsFacts(s[n..]);
        var w := Words(s);
        assert w == [s[..n]] + Words(s[n..]);
        assert forall k :: 0 < k < |w| ==> w[k] == Words(s[n..])[k - 1];
      }
    }
  }

  /** `s.replace(pat, repl)`: every non-overlapping occurrence, left to right */
  function ReplaceAll(s: string, pat: string, repl: string): (r: string)
    requires |pat| > 0
    ensures !Contains(s, pat) ==> r == s
    decreases |s|
  {
    if |s| < |pat| then NotContainsShort(s, pat); s
    else if pat <= s then repl + ReplaceAll(s[|pat|..], pat, repl)
    else
      var r := ReplaceAll(s[1..], pat, repl);
      [s[0]] + r
  }

  lemma {:induction false} NotContainsShort(s: string, sub: string)
    requires |s| < |sub|
    ensures !Contains(s, sub)
    decreases |s|
  {
    if |s| > 0 { NotContainsShort(s[1..], sub); }
  }

  /** First index of `x` in `xs` (`list.index`), if present */
  function IndexOf<T(==)>(xs: seq<T>, x: T): (r: Option<nat>)
    ensures r.Some? ==> r.value < |xs| && xs[r.value] == x && x !in xs[..r.value]
    ensures r.None? ==> x !in xs
    decreases |xs|
  {
    if xs == [] then None
    else if xs[0] == x then Some(0)
    else
      match IndexOf(xs[1..], x)
      case None => None
      case Some(k) =>
        assert xs[..k + 1] == [xs[0]] + xs[1..][..k];
        Some(k + 1)
  }

  /** The first index of `x` is the first position holding it. */
  lemma {:induction false} IndexOfAt<T>(xs: seq<T>, i: nat, x: T)
    requires i < |xs| && xs[i] == x && forall j :: 0 <= j < i ==> xs[j] != x
    ensures IndexOf(xs, x) == Some(i)
    decreases i
  {
    if i > 0 {
      assert forall j :: 0 <= j < i - 1 ==> xs[1..][j] == xs[j + 1];
      IndexOfAt(xs[1..], i - 1, x);
    }
  }

  // --------------------------------------------------------------------
  // Insertion-ordered dictionaries (Python `dict`)
  // --------------------------------------------------------------------

  datatype Entry<V> = Entry(key: string, value: V)

  type Dict<V> = seq<Entry<V>>

  function Keys<V>(d: Dict<V>): (ks: seq<string>)
    ensures |ks| == |d|
    ensures forall i :: 0 <= i < |d| ==> ks[i] == d[i].key
  {
    seq(|d|, i requires 0 <= i < |d| => d[i].key)
  }

  predicate HasKey<V>(d: Dict<V>, k: string) {
    exists i :: 0 <= i < |d| && d[i].key == k
  }

  /** Python's dict never holds a key twice */
  predicate UniqueKeys<V>(d: Dict<V>) {
    forall i, j :: 0 <= i < j < |d| ==> d[i].key != d[j].key
  }

  /** `d.get(k)`: the value stored first under `k` */
  function Get<V>(d: Dict<V>, k: string): (r: Option<V>)
    ensures r.None? <==> !HasKey(d, k)
    ensures r.Some? ==> exists i :: 0 <= i < |d| && d[i] == Entry(k, r.value)
    decreases |d|
  {
    if d == [] then None
    else if d[0].key == k then Some(d[0].value)
    else
      var r := Get(d[1..], k);
      assert HasKey(d[1..], k) <==> HasKey(d, k) by {
        if HasKey(d, k) {
          var i :| 0 <= i < |d| && d[i].key == k;
          assert i > 0 && d[1..][i - 1].key == k;
        }
        if HasKey(d[1..], k) {
          var i :| 0 <= i < |d[1..]| && d[1..][i].key == k;
          assert d[i + 1].key == k;
        }
      }
      assert r.Some? ==> exists i :: 0 <= i < |d| && d[i] == Entry(k, r.value) by {
        if r.Some? {
          var i :| 0 <= i < |d[1..]| && d[1..][i] == Entry(k, r.value);
          assert d[i + 1] == Entry(k, r.value);
        }
      }
      r
  }

  /** `d[k] = v`: overwrite the value in place when `k` is present (its position
      is kept), otherwise append a new entry at the end. */
  function Put<V>(d: Dict<V>, k: string, v: V): (r: Dict<V>)
    ensures HasKey(d, k) ==> |r| == |d|
    ensures !HasKey(d, k) ==> r == d + [Entry(k, v)]
    decreases |d|
  {
    if d == [] then [Entry(k, v)]
    else if d[0].key == k then [Entry(k, v)] + d[1..]
    else
      var rest := Put(d[1..], k, v);
      HasKeyCons(d[0], d[1..], k);
      assert [d[0]] + d[1..] == d;
      [d[0]] + rest
  }

  /** After `d[k] = v` the keys are the old ones plus `k`, the other keys keep
      their values, and `k` maps to `v`. */
  lemma {:induction false} PutKeys<V>(d: Dict<V>, k: string, v: V)
    ensures forall k' :: HasKey(Put(d, k, v), k') <==> HasKey(d, k') || k' == k
    ensures forall k' :: k' != k ==> Get(Put(d, k, v), k') == Get(d, k')
    ensures Get(Put(d, k, v), k) == Some(v)
    decreases |d|
  {
    var r := Put(d, k, v);
    if d == [] {
      assert r == [Entry(k, v)] + [];
      forall k' ensures (HasKey(r, k') <==> HasKey(d, k') || k' == k) && Get(r, k') == if k' == k then Some(v) else Get(d, k') {
        HasKeyCons(Entry(k, v), [], k');
        GetCons(Entry(k, v), [], k');
      }
    } else {
      var e := d[0];
      var tail := d[1..];
      assert d == [e] + tail;
      if e.key == k {
        assert r == [Entry(k, v)] + tail;
        forall k' ensures (HasKey(r, k') <==> HasKey(d, k') || k' == k) && Get(r, k') == if k' == k then Some(v) else Get(d, k') {
          HasKeyCons(Entry(k, v), tail, k');
          HasKeyCons(e, tail, k');
          GetCons(Entry(k, v), tail, k');
          GetCons(e, tail, k');
        }
      } else {
        var rest := Put(tail, k, v);
        PutKeys(tail, k, v);
        assert r == [e] + rest;
        forall k' ensures (HasKey(r, k') <==> HasKey(d, k') || k' == k) && Get(r, k') == if k' == k then Some(v) else Get(d, k') {
          HasKeyCons(e, rest, k');
          HasKeyCons(e, tail, k');
          GetCons(e, rest, k');
          GetCons(e, tail, k');
        }
      }
    }
  }

  lemma GetCons<V>(e: Entry<V>, d: Dict<V>, k: string)
    ensures Get([e] + d, k) == if e.key == k then Some(e.value) else Get(d, k)
  {
    assert ([e] + d)[0] == e && ([e] + d)[1..] == d;
  }

  /** Overwriting a present key keeps the key order. */
  lemma {:induction false} PutExistingKeys<V>(d: Dict<V>, k: string, v: V)
    requires HasKey(d, k)
    ensures Keys(Put(d, k, v)) == Keys(d)
    decreases |d|
  {
    assert [d[0]] + d[1..] == d;
    KeysCons(d[0], d[1..]);
    if d[0].key != k {
      HasKeyCons(d[0], d[1..], k);
      PutExistingKeys(d[1..], k, v);
      var rest := Put(d[1..], k, v);
      assert Put(d, k, v) == [d[0]] + rest;
      KeysCons(d[0], rest);
    } else {
      KeysCons(Entry(k, v), d[1..]);
    }
  }

  lemma KeysCons<V>(e: Entry<V>, d: Dict<V>)
    ensures Keys([e] + d) == [e.key] + Keys(d)
  {
    var a := Keys([e] + d);
    var b := [e.key] + Keys(d);
    forall i | 0 <= i < |a| ensures a[i] == b[i] {
      if i > 0 { assert ([e] + d)[i] == d[i - 1]; }
    }
    assert a == b;
  }

  lemma {:induction false} PutUnique<V>(d: Dict<V>, k: string, v: V)
    requires UniqueKeys(d)
    ensures UniqueKeys(Put(d, k, v))
    decreases |d|
  {
    var r := Put(d, k, v);
    if d == [] {
      assert r == [Entry(k, v)] + [];
      UniqueCons(Entry(k, v), []);
    } else {
      var e := d[0];
      var tail := d[1..];
      assert d == [e] + tail;
      UniqueCons(e, tail);
      if e.key == k {
        assert r == [Entry(k, v)] + tail;
        UniqueCons(Entry(k, v), tail);
      } else {
        var rest := Put(tail, k, v);
        assert r == [e] + rest;
        PutUnique(tail, k, v);
        PutKeys(tail, k, v);
        UniqueCons(e, rest);
      }
    }
  }

  /** A dict with an entry in front has unique keys when the rest does and
      does not hold the front key. */
  lemma UniqueCons<V>(e: Entry<V>, d: Dict<V>)
    ensures UniqueKeys([e] + d) <==> !HasKey(d, e.key) && UniqueKeys(d)
  {
    var r := [e] + d;
    if UniqueKeys(r) {
      forall i | 0 <= i < |d| ensures d[i].key != e.key {
        assert r[0] == e && r[i + 1] == d[i];
      }
      forall i, j | 0 <= i < j < |d| ensures d[i].key != d[j].key {
        assert r[i + 1] == d[i] && r[j + 1] == d[j];
      }
    }
    if !HasKey(d, e.key) && UniqueKeys(d) {
      forall i, j | 0 <= i < j < |r| ensures r[i].key != r[j].key {
        assert r[j] == d[j - 1];
        if i > 0 { assert r[i] == d[i - 1]; }
      }
    }
  }

  lemma HasKeyCons<V>(e: Entry<V>, d: Dict<V>, k: string)
    ensures HasKey([e] + d, k) <==> e.key == k || HasKey(d, k)
  {
    if HasKey([e] + d, k) && e.key != k {
      var i :| 0 <= i < |[e] + d| && ([e] + d)[i].key == k;
      assert d[i - 1].key == k;
    }
    if HasKey(d, k) {
      var i :| 0 <= i < |d| && d[i].key == k;
      assert ([e] + d)[i + 1].key == k;
    }
    if e.key == k {
      assert ([e] + d)[0].key == k;
    }
  }

  lemma HasKeySnoc<V>(d: Dict<V>, e: Entry<V>)
    ensures forall k :: HasKey(d + [e], k) <==> HasKey(d, k) || k == e.key
  {
    forall k ensures HasKey(d + [e], k) <==> HasKey(d, k) || k == e.key {
      if HasKey(d + [e], k) {
        var i :| 0 <= i < |d + [e]| && (d + [e])[i].key == k;
        if i < |d| { assert d[i] == (d + [e])[i]; }
      }
      if HasKey(d, k) {
        var i :| 0 <= i < |d| && d[i].key == k;
        assert (d + [e])[i] == d[i];
      }
      assert (d + [e])[|d|] == e;
    }
  }

  lemma GetSnoc<V>(d: Dict<V>, e: Entry<V>, k: string)
    requires !HasKey(d, e.key)
    ensures Get(d + [e], k) == if k == e.key then Some(e.value) else Get(d, k)
    decreases |d|
  {
    if d != [] {
      assert (d + [e])[1..] == d[1..] + [e];
      assert forall i :: 0 <= i < |d[1..]| ==> d[1..][i] == d[i + 1];
      GetSnoc(d[1..], e, k);
    } else {
      assert [e][0].key == e.key;
    }
  }

  /** The last entry of a dict with unique keys is not among the others. */
  lemma SnocUnique<V>(d: Dict<V>)
    requires d != [] && UniqueKeys(d)
    ensures UniqueKeys(d[..|d| - 1]) && !HasKey(d[..|d| - 1], d[|d| - 1].key)
  {
    var pre := d[..|d| - 1];
    forall i | 0 <= i < |pre| ensures pre[i].key != d[|d| - 1].key { assert pre[i] == d[i]; }
  }

  /** Appending a new key keeps the keys unique. */
  lemma UniqueSnoc<V>(d: Dict<V>, e: Entry<V>)
    requires UniqueKeys(d) && !HasKey(d, e.key)
    ensures UniqueKeys(d + [e])
  {
    var r := d + [e];
    forall i, j | 0 <= i < j < |r| ensures r[i].key != r[j].key {
      assert r[i] == d[i];
      if j < |d| { assert r[j] == d[j]; }
    }
  }

  /** In a dict with unique keys every entry is what `get` finds under its key. */
  lemma {:induction false} GetUnique<V>(d: Dict<V>, i: nat)
    requires UniqueKeys(d) && i < |d|
    ensures Get(d, d[i].key) == Some(d[i].value)
    decreases i
  {
    if i > 0 {
      assert d[0].key != d[i].key;
      assert UniqueKeys(d[1..]) by {
        forall a, b | 0 <= a < b < |d[1..]| ensures d[1..][a].key != d[1..][b].key {
          assert d[1..][a] == d[a + 1] && d[1..][b] == d[b + 1];
        }
      }
      assert d[1..][i - 1] == d[i];
      GetUnique(d[1..], i - 1);
    }
  }

  // --------------------------------------------------------------------
  // Real arithmetic
  // --------------------------------------------------------------------

  /** Multiplying by a positive number keeps the sign. */
  lemma ProductSign(x: real, y: real)
    requires y > 0.0
    ensures x > 0.0 ==> x * y > 0.0
    ensures x < 0.0 ==> x * y < 0.0
  {
  }

  /** A part of a positive whole is a fraction in [0, 1]. */
  lemma UnitFraction(sum: real, len: real)
    requires 0.0 < len && 0.0 <= sum <= len
    ensures 0.0 <= sum / len <= 1.0
  {
    var f := sum / len;
    assert f * len == sum;
    ProductSign(f - 1.0, len);
    ProductSign(f, len);
  }

  lemma DivSelf(d: real)
    requires d > 0.0
    ensures d / d == 1.0
  {
    var q := d / d;
    assert q * d == d;
    ProductSign(q - 1.0, d);
  }
}
