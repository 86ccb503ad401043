/** Shared vocabulary of the site model: optional values, order-preserving
    filtering, first-occurrence de-duplication, and the handful of string
    primitives (ASCII lower-casing, prefix and substring tests) that the pages
    use. */
module Common {

  /** A value that may be missing: JavaScript's `undefined`/`null`. */
  datatype Option<+T> = None | Some(value: T) {
    function GetOr(default: T): T {
      match this
      case Some(v) => v
      case None => default
    }
  }

  /** JavaScript truthiness of a possibly missing string: `null`,
      `undefined` and `""` are falsy. */
  predicate Truthy(s: Option<string>) {
    s.Some? && s.value != ""
  }

  /** The one-open-at-a-time toggle the menus use: pressing the open key
      closes it, any other key opens in its place. */
  function ToggleOpen<T(==)>(open: Option<T>, key: T): (r: Option<T>)
    ensures open == Some(key) ==> r.None?
    ensures open != Some(key) ==> r == Some(key)
  {
    if open == Some(key) then None else Some(key)
  }

  function Min(a: int, b: int): (r: int)
    ensures r <= a && r <= b
    ensures r == a || r == b
  {
    if a <= b then a else b
  }

  /** `a` can be obtained from `b` by deleting elements, keeping order. */
  ghost predicate IsSubsequence<T>(a: seq<T>, b: seq<T>)
    decreases |b|
  {
    |a| == 0 ||
    (|b| > 0 &&
     ((a[0] == b[0] && IsSubsequence(a[1..], b[1..])) || IsSubsequence(a, b[1..])))
  }

  /** A subsequence of a suffix is a subsequence of the whole. */
  lemma {:induction false} SubsequenceOfSuffix<T>(a: seq<T>, s: seq<T>, k: nat)
    requires k <= |s| && IsSubsequence(a, s[k..])
    ensures IsSubsequence(a, s)
    decreases k
  {
    if k > 0 {
      assert s[k - 1..][1..] == s[k..];
      assert IsSubsequence(a, s[k - 1..]);
      SubsequenceOfSuffix(a, s, k - 1);
    } else {
      assert s[0..] == s;
    }
  }

  /** `Array.prototype.filter`: the elements of `s` that `keep` accepts, in order. */
  function Filter<T(==,!new)>(s: seq<T>, keep: T -> bool): (r: seq<T>)
    ensures |r| <= |s|
    ensures forall i :: 0 <= i < |r| ==> keep(r[i])
    ensures forall x :: x in r <==> x in s && keep(x)
    ensures forall x :: multiset(r)[x] == if keep(x) then multiset(s)[x] else 0
    ensures IsSubsequence(r, s)
  {
    if |s| == 0 then []
    else
      var rest := Filter(s[1..], keep);
      MultisetHead(s);
      if keep(s[0]) then
        assert ([s[0]] + rest)[1..] == rest;
        MultisetHead([s[0]] + rest);
        [s[0]] + rest
      else rest
  }

  /** Filtering distributes over concatenation. */
  lemma {:induction false} FilterAppend<T(!new)>(a: seq<T>, b: seq<T>, keep: T -> bool)
    ensures Filter(a + b, keep) == Filter(a, keep) + Filter(b, keep)
    decreases |a|
  {
    if |a| == 0 {
      assert a + b == b;
    } else {
      assert (a + b)[1..] == a[1..] + b;
      FilterAppend(a[1..], b, keep);
    }
  }

  /** A filter that rejects nothing returns its input. */
  lemma {:induction false} FilterKeepsAll<T(!new)>(s: seq<T>, keep: T -> bool)
    requires forall i :: 0 <= i < |s| ==> keep(s[i])
    ensures Filter(s, keep) == s
    decreases |s|
  {
    if |s| > 0 {
      FilterKeepsAll(s[1..], keep);
    }
  }

  /** Two filters that agree on every element of `s` select the same elements. */
  lemma {:induction false} FilterCongruent<T(!new)>(s: seq<T>, f: T -> bool, g: T -> bool)
    requires forall i :: 0 <= i < |s| ==> f(s[i]) == g(s[i])
    ensures Filter(s, f) == Filter(s, g)
    decreases |s|
  {
    if |s| > 0 {
      FilterCongruent(s[1..], f, g);
    }
  }

  /** A non-empty sequence holds its head and the elements of its tail. */
  lemma MultisetHead<T>(s: seq<T>)
    requires |s| > 0
    ensures multiset(s) == multiset(s[1..]) + multiset{s[0]}
  {
    assert s == [s[0]] + s[1..];
  }

  /** No element occurs twice. */
  predicate NoDuplicates<T(==)>(s: seq<T>) {
    forall i, j :: 0 <= i < j < |s| ==> s[i] != s[j]
  }

  /** Index of the first occurrence of `x` in `s`. */
  function FirstIndex<T(==)>(s: seq<T>, x: T): (i: nat)
    requires x in s
    ensures i < |s| && s[i] == x
    ensures forall j :: 0 <= j < i ==> s[j] != x
  {
    if s[0] == x then 0 else 1 + FirstIndex(s[1..], x)
  }

  lemma FirstIndexOfPrefix<T>(s: seq<T>, n: nat, x: T)
    requires n <= |s| && x in s[..n]
    ensures FirstIndex(s, x) == FirstIndex(s[..n], x)
  {
    var k := FirstIndex(s[..n], x);
    assert s[k] == x;
    var i := FirstIndex(s, x);
    assert i <= k;
    assert s[..n][i] == x;
  }

  /** The elements of `r`, all taken from `s`, appear in the order of their
      first occurrences in `s`. */
  predicate InFirstOrder<T(==)>(r: seq<T>, s: seq<T>)
    requires forall x :: x in r ==> x in s
  {
    forall i, j :: 0 <= i < j < |r| ==> FirstIndex(s, r[i]) < FirstIndex(s, r[j])
  }

  /** First-occurrence order is kept when `s` grows by one element at the
      end, and a new element may then follow all the others. */
  lemma FirstOrderExtend<T>(s: seq<T>, d: seq<T>)
    requires |s| > 0
    requires forall x :: x in d ==> x in s[..|s| - 1]
    requires InFirstOrder(d, s[..|s| - 1])
    ensures forall x :: x in d ==> x in s
    ensures InFirstOrder(d, s)
    ensures s[|s| - 1] !in s[..|s| - 1] ==> InFirstOrder(d + [s[|s| - 1]], s)
  {
    var init := s[..|s| - 1];
    forall x | x in init
      ensures x in s && FirstIndex(s, x) == FirstIndex(init, x)
    {
      FirstIndexOfPrefix(s, |s| - 1, x);
    }
    if s[|s| - 1] !in init {
      var e := d + [s[|s| - 1]];
      assert FirstIndex(s, s[|s| - 1]) == |s| - 1;
      assert forall k :: 0 <= k < |e| ==> e[k] in s by {
        forall k | 0 <= k < |e|
          ensures e[k] in s
        {
          if k < |d| {
            assert e[k] == d[k] && d[k] in d;
          }
        }
      }
      forall i, j | 0 <= i < j < |e|
        ensures FirstIndex(s, e[i]) < FirstIndex(s, e[j])
      {
        assert e[i] == d[i] && d[i] in d;
        if j < |d| {
          assert e[j] == d[j];
        }
      }
    }
  }

  /** `Array.from(new Set(s))`: each distinct element once, at the place of its
      first occurrence. */
  function Dedup<T(==,!new)>(s: seq<T>): (r: seq<T>)
    ensures NoDuplicates(r)
    ensures forall x :: x in r <==> x in s
    ensures InFirstOrder(r, s)
    decreases |s|
  {
    if |s| == 0 then []
    else
      var init := s[..|s| - 1];
      var last := s[|s| - 1];
      var d := Dedup(init);
      FirstOrderExtend(s, d);
      assert s == init + [last];
      if last in init then d else d + [last]
  }

  /** ASCII lower-casing of one character. */
  function LowerChar(c: char): (d: char)
    ensures 'A' <= c <= 'Z' ==> 'a' <= d <= 'z'
    ensures !('A' <= c <= 'Z') ==> d == c
  {
    if 'A' <= c <= 'Z' then (c as int + 32) as char else c
  }

  /** `String.prototype.toLowerCase`, restricted to ASCII letters. */
  function Lower(s: string): (r: string)
    ensures |r| == |s|
    ensures forall i :: 0 <= i < |s| ==> r[i] == LowerChar(s[i])
  {
    if |s| == 0 then "" else [LowerChar(s[0])] + Lower(s[1..])
  }

  lemma LowerIdempotent(s: string)
    ensures Lower(Lower(s)) == Lower(s)
  {
  }

  /** `hay.includes(needle)`: `needle` occurs at some position of `hay`. */
  predicate Includes(hay: string, needle: string)
    decreases |hay|
  {
    needle <= hay || (|hay| > 0 && Includes(hay[1..], needle))
  }

  lemma IncludesIffSomePosition(hay: string, needle: string)
    ensures Includes(hay, needle) <==> exists i :: 0 <= i <= |hay| && needle <= hay[i..]
    decreases |hay|
  {
    if |hay| > 0 {
      IncludesIffSomePosition(hay[1..], needle);
      if exists i :: 0 <= i <= |hay| && needle <= hay[i..] {
        var i :| 0 <= i <= |hay| && needle <= hay[i..];
        if i > 0 {
          assert hay[1..][i - 1..] == hay[i..];
        }
      }
      forall i | 0 <= i <= |hay[1..]| && needle <= hay[1..][i..]
        ensures needle <= hay[i + 1..]
      {
        assert hay[1..][i..] == hay[i + 1..];
      }
    } else {
      assert hay[0..] == hay;
    }
  }

  /** Every string includes the empty string. */
  lemma IncludesEmpty(hay: string)
    ensures Includes(hay, "")
  {
  }
}
