/** The home page over the bundled data: every category's items are gathered
    into one list, that list is sorted by date (newest first) in place, the
    first four become "Recent Articles", and a news index rotates through the
    list on a timer. */
module Home {
  import opened Common
  import opened Articles

  const DefaultImage: string := "/article.jpg"
  const RecentCount: nat := 4

  /** `categories.reduce((acc, category) => [...acc, ...category.items], [])`,
      a left fold starting from `acc`. */
  function ConcatLeft(acc: seq<Article>, cats: seq<Category>): seq<Article>
    decreases |cats|
  {
    if |cats| == 0 then acc else ConcatLeft(acc + cats[0].items, cats[1..])
  }

  lemma {:induction false} ConcatLeftIsFlatten(acc: seq<Article>, cats: seq<Category>)
    ensures ConcatLeft(acc, cats) == acc + Flatten(cats)
    decreases |cats|
  {
    if |cats| > 0 {
      ConcatLeftIsFlatten(acc + cats[0].items, cats[1..]);
      assert acc + cats[0].items + Flatten(cats[1..]) == acc + (cats[0].items + Flatten(cats[1..]));
    }
  }

  /** The page's `allArticles` before sorting: the same in-order concatenation
      of every category's items as the web articles listing computes. */
  function AllArticles(cats: seq<Category>): (r: seq<Article>)
    ensures r == Flatten(cats)
  {
    ConcatLeftIsFlatten([], cats);
    ConcatLeft([], cats)
  }

  /** Newest first: no article is followed by a newer one. */
  predicate SortedByDateDesc(s: seq<Article>) {
    forall i, j :: 0 <= i < j < |s| ==> s[i].postDate >= s[j].postDate
  }

  /** Inserts `x` in front of the first article that is not newer than it, so
      that `x` stays ahead of equally dated articles that followed it. */
  function Insert(x: Article, s: seq<Article>): (r: seq<Article>)
    ensures SortedByDateDesc(s) ==> SortedByDateDesc(r)
    ensures |r| == |s| + 1
    ensures r[0] == x || (|s| > 0 && r[0] == s[0])
  {
    if |s| == 0 || s[0].postDate <= x.postDate then [x] + s
    else
      var rest := Insert(x, s[1..]);
      assert SortedByDateDesc(s) ==> SortedByDateDesc([s[0]] + rest) by {
        if SortedByDateDesc(s) {
          assert rest[0].postDate <= s[0].postDate;
          assert forall j :: 0 <= j < |rest| ==> rest[j].postDate <= rest[0].postDate;
        }
      }
      [s[0]] + rest
  }

  /** Inserting adds exactly `x`: the result is a permutation of `s` plus `x`. */
  lemma {:induction false} InsertPermutes(x: Article, s: seq<Article>)
    ensures multiset(Insert(x, s)) == multiset(s) + multiset{x}
    decreases |s|
  {
    if |s| > 0 && s[0].postDate > x.postDate {
      InsertPermutes(x, s[1..]);
      assert s == [s[0]] + s[1..];
    }
  }

  /** The comparator `(a, b) => date(b) - date(a)` under JavaScript's stable
      sort, as an insertion sort. */
  function SortByDate(s: seq<Article>): (r: seq<Article>)
    ensures SortedByDateDesc(r)
    ensures |r| == |s|
  {
    if |s| == 0 then [] else Insert(s[0], SortByDate(s[1..]))
  }

  /** One step of the sort adds the head of the input to the sorted tail. */
  lemma SortStep(s: seq<Article>)
    requires |s| > 0
    ensures multiset(SortByDate(s)) == multiset(SortByDate(s[1..])) + multiset{s[0]}
  {
    InsertPermutes(s[0], SortByDate(s[1..]));
  }

  /** The sort only reorders: its result is a permutation of its input. */
  lemma {:induction false} SortPermutes(s: seq<Article>)
    ensures multiset(SortByDate(s)) == multiset(s)
    decreases |s|
  {
    if |s| > 0 {
      SortStep(s);
      SortPermutes(s[1..]);
      MultisetHead(s);
    }
  }

  /** Sorting a list that is already newest-first changes nothing. */
  lemma {:induction false} SortSortedIsIdentity(s: seq<Article>)
    requires SortedByDateDesc(s)
    ensures SortByDate(s) == s
  {
    if |s| > 0 {
      SortSortedIsIdentity(s[1..]);
      assert s == [s[0]] + s[1..];
    }
  }

  /** The articles dated `d`, in their order in `s`. */
  function DatedOn(s: seq<Article>, d: int): seq<Article>
    decreases |s|
  {
    if |s| == 0 then [] else Head(s[0], d) + DatedOn(s[1..], d)
  }

  /** The articles dated `d` among the head of a list. */
  function Head(x: Article, d: int): seq<Article> {
    if x.postDate == d then [x] else []
  }

  lemma DatedOnCons(x: Article, s: seq<Article>, d: int)
    ensures DatedOn([x] + s, d) == Head(x, d) + DatedOn(s, d)
  {
    assert ([x] + s)[0] == x;
    assert ([x] + s)[1..] == s;
  }

  /** `DatedOn` is `Array.prototype.filter` on the date. */
  lemma {:induction false} DatedOnIsFilter(s: seq<Article>, d: int)
    ensures DatedOn(s, d) == Filter(s, (a: Article) => a.postDate == d)
    decreases |s|
  {
    if |s| > 0 {
      DatedOnIsFilter(s[1..], d);
    }
  }

  /** Inserting `x` keeps the relative order of `x` and every article it
      passes among those of each date: `x` goes behind only strictly newer
      articles. */
  lemma {:induction false} InsertStable(x: Article, s: seq<Article>, d: int)
    ensures DatedOn(Insert(x, s), d) == DatedOn([x] + s, d)
    decreases |s|
  {
    if |s| > 0 && s[0].postDate > x.postDate {
      var rest := Insert(x, s[1..]);
      assert Insert(x, s) == [s[0]] + rest;
      assert s == [s[0]] + s[1..];
      assert Head(s[0], d) == [] || Head(x, d) == [];
      calc {
        DatedOn(Insert(x, s), d);
        { DatedOnCons(s[0], rest, d); }
        Head(s[0], d) + DatedOn(rest, d);
        { InsertStable(x, s[1..], d); DatedOnCons(x, s[1..], d); }
        Head(s[0], d) + (Head(x, d) + DatedOn(s[1..], d));
        Head(x, d) + (Head(s[0], d) + DatedOn(s[1..], d));
        { DatedOnCons(s[0], s[1..], d); }
        Head(x, d) + DatedOn(s, d);
        { DatedOnCons(x, s, d); }
        DatedOn([x] + s, d);
      }
    }
  }

  /** The sort is stable: for every date, the articles of that date come out
      in the order they went in. With `SortedByDateDesc` and `SortPermutes`
      this fixes the result completely. */
  lemma {:induction false} SortStable(s: seq<Article>, d: int)
    ensures DatedOn(SortByDate(s), d) == DatedOn(s, d)
    decreases |s|
  {
    if |s| > 0 {
      var sortedTail := SortByDate(s[1..]);
      assert s == [s[0]] + s[1..];
      calc {
        DatedOn(SortByDate(s), d);
        { InsertStable(s[0], sortedTail, d); }
        DatedOn([s[0]] + sortedTail, d);
        { DatedOnCons(s[0], sortedTail, d); }
        Head(s[0], d) + DatedOn(sortedTail, d);
        { SortStable(s[1..], d); }
        Head(s[0], d) + DatedOn(s[1..], d);
        { DatedOnCons(s[0], s[1..], d); }
        DatedOn(s, d);
      }
    }
  }

  /** What the page renders: the ticker and the slider show the sorted
      `allArticles` (the sort works in place), and Recent Articles its first
      four. */
  datatype View = View(ticker: seq<Article>, slider: seq<Article>, recent: seq<Article>)

  function HomeView(cats: seq<Category>): (v: View)
    ensures v.ticker == v.slider
    ensures SortedByDateDesc(v.ticker)
    ensures multiset(v.ticker) == multiset(Flatten(cats))
    ensures |v.recent| == Min(RecentCount, |Flatten(cats)|)
    ensures v.recent <= v.ticker
    ensures forall i :: |v.recent| <= i < |v.ticker| ==>
      v.ticker[i].postDate <= v.recent[|v.recent| - 1].postDate
  {
    var sorted := SortByDate(AllArticles(cats));
    SortPermutes(AllArticles(cats));
    View(sorted, sorted, sorted[..Min(RecentCount, |sorted|)])
  }

  /** `(prev + 1) % allArticles.length`. With no articles the remainder is NaN,
      written `None`, and NaN stays NaN. */
  function NextNewsIndex(prev: Option<nat>, n: nat): (r: Option<nat>)
    ensures r.Some? <==> prev.Some? && n > 0
    ensures r.Some? ==> r.value < n
    ensures r.Some? && prev.value + 1 < n ==> r.value == prev.value + 1
    ensures r.Some? && prev.value + 1 == n ==> r.value == 0
  {
    if prev.None? || n == 0 then None else Some((prev.value + 1) % n)
  }

  function NewsIndexAfter(ticks: nat, n: nat): Option<nat>
  {
    if ticks == 0 then Some(0) else NextNewsIndex(NewsIndexAfter(ticks - 1, n), n)
  }

  lemma ModOfDecomposition(a: int, n: int, q: int, m: int)
    requires n > 0 && 0 <= m < n && a == q * n + m
    ensures a % n == m
  {
    var q' := a / n;
    var m' := a % n;
    assert a == q' * n + m';
    var d := q - q';
    assert d * n == m' - m by {
      assert q * n - q' * n == (q - q') * n;
    }
    if d >= 1 {
      MulAtLeast(d, n);
    } else if d <= -1 {
      MulAtLeast(-d, n);
    }
  }

  lemma MulAtLeast(k: int, n: int)
    requires k >= 1 && n > 0
    ensures k * n >= n
  {
    assert k * n == (k - 1) * n + n;
  }

  /** One more tick moves the remainder up by one, wrapping at `n`. */
  lemma ModStep(a: nat, n: nat)
    requires n > 0
    ensures (a + 1) % n == if a % n + 1 < n then a % n + 1 else 0
  {
    var q := a / n;
    var m := a % n;
    assert a == q * n + m;
    if m + 1 < n {
      ModOfDecomposition(a + 1, n, q, m + 1);
    } else {
      assert a + 1 == (q + 1) * n + 0;
      ModOfDecomposition(a + 1, n, q + 1, 0);
    }
  }

  /** From the initial index 0, after k ticks the index is k mod n. */
  lemma {:induction false} NewsIndexRotates(ticks: nat, n: nat)
    requires n > 0
    ensures NewsIndexAfter(ticks, n) == Some(ticks % n)
  {
    if ticks > 0 {
      NewsIndexRotates(ticks - 1, n);
      ModStep(ticks - 1, n);
    }
  }

  /** `imagePath || defaultImage`: the result is never empty, and a non-empty
      path is kept. */
  function ValidImagePath(path: string): (r: string)
    ensures r != ""
    ensures path != "" ==> r == path
    ensures path == "" ==> r == DefaultImage
  {
    if path == "" then DefaultImage else path
  }
}
