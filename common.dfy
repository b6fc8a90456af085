/** Value-level helpers shared by every module of the model: optional values,
    JavaScript truthiness and `String.prototype.trim`, `split`/`join` on a
    one-character separator, and the stable ordering used for SQL `ORDER BY`. */
module Common {

  datatype Option<T> = None | Some(value: T)

  /** A JSON reply of a route: the payload of a success, or an HTTP error
      status with its message. */
  datatype Response<T> = Success(data: T) | Failure(status: nat, message: string)

  /** JavaScript truthiness of a request field: `undefined`, `null` and `''` are falsy. */
  predicate Truthy(s: Option<string>)
  {
    s.Some? && s.value != ""
  }

  /** `a || b` on two nullable strings. */
  function OrElse(a: Option<string>, b: Option<string>): (r: Option<string>)
    ensures Truthy(a) ==> r == a
    ensures !Truthy(a) ==> r == b
  {
    if Truthy(a) then a else b
  }

  // ---------------------------------------------------------------------------
  // trim()

  /** The characters ECMAScript's `trim` removes: WhiteSpace and LineTerminator. */
  predicate IsJsSpace(c: char)
  {
    || c == '\t' || c == '\n' || c == '\U{000B}' || c == '\U{000C}' || c == '\r'
    || c == ' ' || c == '\U{00A0}' || c == '\U{1680}'
    || ('\U{2000}' <= c <= '\U{200A}')
    || c == '\U{2028}' || c == '\U{2029}' || c == '\U{202F}' || c == '\U{205F}'
    || c == '\U{3000}' || c == '\U{FEFF}'
  }

  /** No whitespace at either end. */
  predicate IsTrimmed(s: string)
  {
    s == [] || (!IsJsSpace(s[0]) && !IsJsSpace(s[|s| - 1]))
  }

  function TrimStart(s: string): (r: string)
    ensures |r| <= |s| && r == s[|s| - |r|..]
    ensures r == [] || !IsJsSpace(r[0])
    ensures forall i :: 0 <= i < |s| - |r| ==> IsJsSpace(s[i])
  {
    if s != [] && IsJsSpace(s[0]) then TrimStart(s[1..]) else s
  }

  function TrimEnd(s: string): (r: string)
    ensures |r| <= |s| && r == s[..|r|]
    ensures r == [] || !IsJsSpace(r[|r| - 1])
    ensures forall i :: |r| <= i < |s| ==> IsJsSpace(s[i])
  {
    if s != [] && IsJsSpace(s[|s| - 1]) then TrimEnd(s[..|s| - 1]) else s
  }

  /** `s.trim()`: the longest infix of `s` that starts and ends with a
      non-whitespace character, obtained by dropping whitespace at both ends. */
  function Trim(s: string): (r: string)
    ensures IsTrimmed(r) && |r| <= |s|
    ensures exists i, j :: StripsTo(s, i, j) && r == s[i..j]
    ensures r == [] <==> forall i :: 0 <= i < |s| ==> IsJsSpace(s[i])
    ensures IsTrimmed(s) ==> r == s
  {
    TrimFacts(s);
    TrimEnd(TrimStart(s))
  }

  /** `s[i..j]` is what is left once only whitespace is dropped in front of
      `i` and from `j` on. */
  predicate StripsTo(s: string, i: int, j: int)
  {
    && 0 <= i <= j <= |s|
    && (forall k :: 0 <= k < i ==> IsJsSpace(s[k]))
    && (forall k :: j <= k < |s| ==> IsJsSpace(s[k]))
  }

  lemma TrimFacts(s: string)
    ensures var r := TrimEnd(TrimStart(s));
      && IsTrimmed(r) && |r| <= |s|
      && (exists i, j :: StripsTo(s, i, j) && r == s[i..j])
      && (r == [] <==> forall i :: 0 <= i < |s| ==> IsJsSpace(s[i]))
      && (IsTrimmed(s) ==> r == s)
  {
    TrimInfix(s);
    TrimStrips(s);
    var t := TrimStart(s);
    if IsTrimmed(s) && s != [] {
      assert t == s;
    }
  }

  lemma TrimStrips(s: string)
    ensures exists i, j :: StripsTo(s, i, j) && TrimEnd(TrimStart(s)) == s[i..j]
  {
    var t := TrimStart(s);
    var r := TrimEnd(t);
    var i := |s| - |t|;
    var j := i + |r|;
    assert r == s[i..j];
    forall k | j <= k < |s|
      ensures IsJsSpace(s[k])
    {
      assert s[k] == t[k - i];
    }
    assert StripsTo(s, i, j);
  }

  lemma TrimInfix(s: string)
    ensures TrimEnd(TrimStart(s)) == [] <==> forall i :: 0 <= i < |s| ==> IsJsSpace(s[i])
  {
    var t := TrimStart(s);
    var r := TrimEnd(t);
    var d := |s| - |t|;
    if r == [] {
      assert t == [];
    } else {
      assert t[0] == s[d];
    }
  }

  /** Whitespace around a trimmed, non-empty text is exactly what `trim` removes. */
  lemma TrimAround(front: string, body: string, back: string)
    requires forall k :: 0 <= k < |front| ==> IsJsSpace(front[k])
    requires forall k :: 0 <= k < |back| ==> IsJsSpace(back[k])
    requires body != [] && IsTrimmed(body)
    ensures Trim(front + body + back) == body
  {
    var s := front + body + back;
    var b := |front|;
    var e := |front| + |body|;
    assert forall k :: 0 <= k < b ==> s[k] == front[k];
    assert forall k :: e <= k < |s| ==> s[k] == back[k - e];
    assert s[b..e] == body;
    assert s[b] == body[0] && s[e - 1] == body[|body| - 1];
    TrimOfInfix(s, b, e);
  }

  /** When only whitespace lies outside `s[b..e]` and that infix starts and
      ends with a visible character, it is what `trim` keeps. */
  lemma TrimOfInfix(s: string, b: int, e: int)
    requires StripsTo(s, b, e) && b < e
    requires !IsJsSpace(s[b]) && !IsJsSpace(s[e - 1])
    ensures TrimEnd(TrimStart(s)) == s[b..e]
  {
    TrimStartAt(s, b);
    TrimEndFrom(s, b, e);
  }

  lemma TrimStartAt(s: string, b: int)
    requires 0 <= b < |s| && !IsJsSpace(s[b])
    requires forall k :: 0 <= k < b ==> IsJsSpace(s[k])
    ensures TrimStart(s) == s[b..]
  {
    var t := TrimStart(s);
    var d := |s| - |t|;
    assert d <= b;
    assert t[0] == s[d];
  }

  lemma TrimEndFrom(s: string, b: int, e: int)
    requires 0 <= b < e <= |s| && !IsJsSpace(s[e - 1])
    requires forall k :: e <= k < |s| ==> IsJsSpace(s[k])
    ensures TrimEnd(s[b..]) == s[b..e]
  {
    var t := s[b..];
    var r := TrimEnd(t);
    assert t[e - b - 1] == s[e - 1];
    assert |r| >= e - b;
    assert r[|r| - 1] == s[b + |r| - 1];
    assert r == s[b..b + |r|];
  }

  /** A text that starts and ends with a visible character is trimmed,
      whatever lies between. */
  lemma TrimmedBetween(first: string, middle: string, last: string)
    requires first != [] && !IsJsSpace(first[0])
    requires last != [] && !IsJsSpace(last[|last| - 1])
    ensures var s := first + middle + last; s != [] && IsTrimmed(s)
  {
    var s := first + middle + last;
    assert s[0] == first[0];
    assert s[|s| - 1] == last[|last| - 1];
  }

  /** Trimming twice is trimming once. */
  lemma TrimIdempotent(s: string)
    ensures Trim(Trim(s)) == Trim(s)
  {
    var r := Trim(s);
    assert TrimStart(r) == r;
    assert TrimEnd(r) == r;
  }

  // ---------------------------------------------------------------------------
  // split / join on a one-character separator

  /** Position of the first occurrence of `c` in `s`. */
  function IndexOf(s: string, c: char): (k: nat)
    requires c in s
    ensures k < |s| && s[k] == c && c !in s[..k]
  {
    if s[0] == c then 0 else IndexOf(s[1..], c) + 1
  }

  /** `s.split(sep)`: the maximal separator-free pieces, in order; never empty. */
  function Split(s: string, sep: char): (r: seq<string>)
    ensures |r| >= 1
    ensures forall i :: 0 <= i < |r| ==> sep !in r[i]
    ensures (sep !in s) <==> r == [s]
    ensures sep in s ==> |r| >= 2
    decreases |s|
  {
    if sep !in s then [s]
    else
      var k := IndexOf(s, sep);
      [s[..k]] + Split(s[k + 1..], sep)
  }

  /** `parts.join(sep)`. */
  function Join(parts: seq<string>, sep: char): (r: string)
    ensures |parts| >= 2 ==> sep in r
  {
    if |parts| == 0 then ""
    else if |parts| == 1 then parts[0]
    else
      var r := parts[0] + [sep] + Join(parts[1..], sep);
      assert r[|parts[0]|] == sep;
      r
  }

  /** Splitting a joined list gives the list back, provided no piece contains the separator. */
  lemma {:induction false} SplitJoin(parts: seq<string>, sep: char)
    requires |parts| >= 1
    requires forall i :: 0 <= i < |parts| ==> sep !in parts[i]
    ensures Split(Join(parts, sep), sep) == parts
  {
    if |parts| > 1 {
      var p := parts[0];
      var rest := Join(parts[1..], sep);
      var s := p + [sep] + rest;
      assert s[|p|] == sep;
      assert s[..|p|] == p;
      FirstIndex(s, sep, |p|);
      assert s[|p| + 1..] == rest;
      SplitJoin(parts[1..], sep);
    }
  }

  lemma FirstIndex(s: string, c: char, k: nat)
    requires k < |s| && s[k] == c && c !in s[..k]
    ensures IndexOf(s, c) == k
  {
  }

  // ---------------------------------------------------------------------------
  // prefixes and ASCII lower case

  predicate StartsWith(s: string, prefix: string)
  {
    |prefix| <= |s| && s[..|prefix|] == prefix
  }

  function ToLowerChar(c: char): char
  {
    if 'A' <= c <= 'Z' then (c as int + 32) as char else c
  }

  /** `toLowerCase()` restricted to the ASCII letters. */
  function ToLowerAscii(s: string): (r: string)
    ensures |r| == |s|
    ensures forall i :: 0 <= i < |s| ==> r[i] == ToLowerChar(s[i])
  {
    if s == [] then [] else [ToLowerChar(s[0])] + ToLowerAscii(s[1..])
  }

  // ---------------------------------------------------------------------------
  // filtering and ordering

  function Filter<T>(s: seq<T>, p: T -> bool): (r: seq<T>)
    ensures |r| <= |s|
    ensures forall i :: 0 <= i < |r| ==> p(r[i])
    ensures forall i :: 0 <= i < |r| ==> r[i] in s
    ensures forall i :: 0 <= i < |s| && p(s[i]) ==> s[i] in r
  {
    if s == [] then []
    else if p(s[0]) then [s[0]] + Filter(s[1..], p)
    else Filter(s[1..], p)
  }

  /** Filtering distributes over concatenation. */
  lemma {:induction false} FilterConcat<T>(a: seq<T>, b: seq<T>, p: T -> bool)
    ensures Filter(a + b, p) == Filter(a, p) + Filter(b, p)
  {
    if a == [] {
      assert a + b == b;
    } else {
      assert (a + b)[0] == a[0] && (a + b)[1..] == a[1..] + b;
      FilterConcat(a[1..], b, p);
    }
  }

  /** Filtering a single element keeps it exactly when it passes. */
  lemma FilterOne<T>(x: T, p: T -> bool)
    ensures Filter([x], p) == if p(x) then [x] else []
  {
    assert [x][1..] == [];
  }

  /** Filtering a slice cut in two is filtering the two halves. */
  lemma FilterCut<T>(s: seq<T>, i: nat, j: nat, k: nat, p: T -> bool)
    requires i <= j <= k <= |s|
    ensures Filter(s[i..k], p) == Filter(s[i..j], p) + Filter(s[j..k], p)
  {
    assert s[i..k] == s[i..j] + s[j..k];
    FilterConcat(s[i..j], s[j..k], p);
  }

  /** Filters that agree on every element give the same result. */
  lemma {:induction false} FilterEq<T>(s: seq<T>, p: T -> bool, q: T -> bool)
    requires forall i :: 0 <= i < |s| ==> p(s[i]) == q(s[i])
    ensures Filter(s, p) == Filter(s, q)
  {
    if s != [] {
      FilterEq(s[1..], p, q);
    }
  }

  /** Filtering twice is filtering once by the conjunction. */
  lemma {:induction false} FilterFilter<T>(s: seq<T>, p: T -> bool, q: T -> bool, r: T -> bool)
    requires forall i :: 0 <= i < |s| ==> r(s[i]) == (p(s[i]) && q(s[i]))
    ensures Filter(Filter(s, p), q) == Filter(s, r)
  {
    if s != [] {
      FilterFilter(s[1..], p, q, r);
    }
  }

  /** Filtering with a predicate that holds throughout changes nothing. */
  lemma {:induction false} FilterAll<T>(s: seq<T>, p: T -> bool)
    requires forall i :: 0 <= i < |s| ==> p(s[i])
    ensures Filter(s, p) == s
  {
    if s != [] {
      FilterAll(s[1..], p);
    }
  }

  /** What the filter keeps comes from `s` and passes `p`. */
  lemma FilterMember<T>(s: seq<T>, p: T -> bool, x: T)
    requires x in Filter(s, p)
    ensures x in s && p(x)
  {
    var f := Filter(s, p);
    var k :| 0 <= k < |f| && f[k] == x;
  }

  /** Filtering with a predicate that holds nowhere leaves nothing. */
  lemma {:induction false} FilterNone<T>(s: seq<T>, p: T -> bool)
    requires forall i :: 0 <= i < |s| ==> !p(s[i])
    ensures Filter(s, p) == []
  {
    if s != [] {
      FilterNone(s[1..], p);
    }
  }

  /** `key` is non-decreasing along `s`. */
  predicate SortedBy<T>(s: seq<T>, key: T -> int)
  {
    forall i, j :: 0 <= i < j < |s| ==> key(s[i]) <= key(s[j])
  }

  /** Puts `x` in front of the first element whose key is at least `key(x)`. */
  function InsertBy<T>(x: T, s: seq<T>, key: T -> int): (r: seq<T>)
    ensures |r| == |s| + 1
    ensures multiset(r) == multiset(s) + multiset{x}
  {
    if s == [] || key(x) <= key(s[0]) then [x] + s
    else
      assert s == [s[0]] + s[1..];
      [s[0]] + InsertBy(x, s[1..], key)
  }

  lemma {:induction false} InsertBySorted<T>(x: T, s: seq<T>, key: T -> int)
    requires SortedBy(s, key)
    ensures SortedBy(InsertBy(x, s, key), key)
    ensures forall k :: 0 <= k < |s| + 1 ==> InsertBy(x, s, key)[k] == x || key(s[0]) <= key(InsertBy(x, s, key)[k])
  {
    if s != [] && key(x) > key(s[0]) {
      var t := InsertBy(x, s[1..], key);
      InsertBySorted(x, s[1..], key);
      assert |s| >= 2 ==> key(s[0]) <= key(s[1]);
      assert forall k :: 0 <= k < |t| ==> key(s[0]) <= key(t[k]);
    }
  }

  /** A stable sort by an integer key (SQL `ORDER BY key ASC`, ties in table order). */
  function SortBy<T>(s: seq<T>, key: T -> int): (r: seq<T>)
    ensures |r| == |s|
    ensures multiset(r) == multiset(s)
    ensures SortedBy(r, key)
  {
    if s == [] then []
    else
      assert s == [s[0]] + s[1..];
      var t := SortBy(s[1..], key);
      InsertBySorted(s[0], t, key);
      InsertBy(s[0], t, key)
  }

  /** Sorting keeps exactly the elements it was given. */
  lemma SortByMembers<T>(s: seq<T>, key: T -> int, x: T)
    ensures x in SortBy(s, key) <==> x in s
  {
    assert x in SortBy(s, key) <==> x in multiset(SortBy(s, key));
    assert x in s <==> x in multiset(s);
  }

  // ---------------------------------------------------------------------------
  // sums and distinct keys, preserved by permutation

  function SumBy<T>(s: seq<T>, f: T -> int): int
  {
    if s == [] then 0 else f(s[0]) + SumBy(s[1..], f)
  }

  lemma {:induction false} SumByConcat<T>(a: seq<T>, b: seq<T>, f: T -> int)
    ensures SumBy(a + b, f) == SumBy(a, f) + SumBy(b, f)
  {
    if a != [] {
      assert (a + b)[0] == a[0];
      assert (a + b)[1..] == a[1..] + b;
      SumByConcat(a[1..], b, f);
    } else {
      assert a + b == b;
    }
  }

  lemma {:induction false} SumByInsert<T>(x: T, s: seq<T>, key: T -> int, f: T -> int)
    ensures SumBy(InsertBy(x, s, key), f) == f(x) + SumBy(s, f)
  {
    if s != [] && key(x) > key(s[0]) {
      SumByInsert(x, s[1..], key, f);
      assert ([s[0]] + InsertBy(x, s[1..], key))[1..] == InsertBy(x, s[1..], key);
    } else {
      assert ([x] + s)[1..] == s;
    }
  }

  /** Sorting does not change a sum. */
  lemma {:induction false} SumBySorted<T>(s: seq<T>, key: T -> int, f: T -> int)
    ensures SumBy(SortBy(s, key), f) == SumBy(s, f)
  {
    if s != [] {
      SumBySorted(s[1..], key, f);
      SumByInsert(s[0], SortBy(s[1..], key), key, f);
    }
  }

  /** No two positions share a key. */
  predicate DistinctBy<T, K(==)>(s: seq<T>, key: T -> K)
  {
    forall i, j :: 0 <= i < j < |s| ==> key(s[i]) != key(s[j])
  }

  /** Filtering keeps keys distinct. */
  lemma {:induction false} FilterDistinctBy<T, K>(s: seq<T>, p: T -> bool, d: T -> K)
    requires DistinctBy(s, d)
    ensures DistinctBy(Filter(s, p), d)
  {
    if s != [] {
      var t := Filter(s[1..], p);
      FilterDistinctBy(s[1..], p, d);
      if p(s[0]) {
        var r := Filter(s, p);
        assert r == [s[0]] + t;
        forall i, j | 0 <= i < j < |r| ensures d(r[i]) != d(r[j]) {
          assert r[j] == t[j - 1];
          if i == 0 {
            var k :| 0 <= k < |s[1..]| && s[1..][k] == t[j - 1];
            assert s[k + 1] == t[j - 1];
          } else {
            assert r[i] == t[i - 1];
          }
        }
      }
    }
  }

  lemma {:induction false} InsertByMembers<T>(x: T, s: seq<T>, key: T -> int)
    ensures forall k :: 0 <= k < |s| + 1 ==> InsertBy(x, s, key)[k] == x || InsertBy(x, s, key)[k] in s
  {
    if s != [] && key(x) > key(s[0]) {
      InsertByMembers(x, s[1..], key);
    }
  }

  lemma {:induction false} DistinctByInsert<T, K>(x: T, s: seq<T>, key: T -> int, d: T -> K)
    requires DistinctBy(s, d)
    requires forall i :: 0 <= i < |s| ==> d(s[i]) != d(x)
    ensures DistinctBy(InsertBy(x, s, key), d)
  {
    if s != [] && key(x) > key(s[0]) {
      var t := InsertBy(x, s[1..], key);
      DistinctByInsert(x, s[1..], key, d);
      InsertByMembers(x, s[1..], key);
      forall k | 0 <= k < |t| ensures d(s[0]) != d(t[k]) {
        if t[k] != x {
          var j :| 0 <= j < |s[1..]| && s[1..][j] == t[k];
          assert s[j + 1] == t[k];
        }
      }
    }
  }

  /** Sorting keeps keys distinct. */
  lemma {:induction false} DistinctBySorted<T, K>(s: seq<T>, key: T -> int, d: T -> K)
    requires DistinctBy(s, d)
    ensures DistinctBy(SortBy(s, key), d)
  {
    if s != [] {
      var t := SortBy(s[1..], key);
      DistinctBySorted(s[1..], key, d);
      forall i | 0 <= i < |t| ensures d(t[i]) != d(s[0]) {
        SortByMembers(s[1..], key, t[i]);
        var j :| 0 <= j < |s[1..]| && s[1..][j] == t[i];
        assert s[j + 1] == t[i];
      }
      DistinctByInsert(s[0], t, key, d);
    }
  }
}
