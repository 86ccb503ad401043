/** The web articles listing: the flattened article list is split into one
    main article, up to three side articles and the remaining articles, and
    the remaining articles are paged ten at a time with Previous, Next and
    numbered buttons. */
module WebArticles {
  import opened Common
  import opened Articles

  const ArticlesPerPage: nat := 10

  /** The page's three regions. `main` is `allArticles[0]`, missing when there
      are no articles at all. */
  datatype Layout = Layout(main: Option<Article>, side: seq<Article>, remaining: seq<Article>)

  /** `allArticles[0]`, `allArticles.slice(1, 4)` and `allArticles.slice(4)`. */
  function SplitLayout(all: seq<Article>): (l: Layout)
    ensures l.main.Some? <==> |all| > 0
    ensures |all| > 0 ==> [l.main.value] + l.side + l.remaining == all
    ensures |all| == 0 ==> l.side == [] && l.remaining == []
    ensures |l.side| <= 3
    ensures |l.remaining| > 0 ==> |l.side| == 3
  {
    if |all| == 0 then Layout(None, [], [])
    else
      var cut := Min(4, |all|);
      assert all == [all[0]] + all[1..cut] + all[cut..];
      Layout(Some(all[0]), all[1..cut], all[cut..])
  }

  /** `Math.ceil(n / ARTICLES_PER_PAGE)`. */
  function TotalPages(n: nat): (t: nat)
    ensures t == 0 <==> n == 0
    ensures t > 0 ==> (t - 1) * ArticlesPerPage < n <= t * ArticlesPerPage
  {
    (n + ArticlesPerPage - 1) / ArticlesPerPage
  }

  /** `Array.prototype.slice(start, end)` for non-negative bounds: both bounds
      are clamped to the length, and a window that is empty after clamping
      gives the empty list. */
  function Slice<T>(s: seq<T>, start: nat, end: nat): (r: seq<T>)
    ensures |r| <= |s|
    ensures start <= end <= |s| ==> r == s[start..end]
    ensures start >= |s| ==> r == []
  {
    var lo := Min(start, |s|);
    var hi := Min(end, |s|);
    if lo >= hi then [] else s[lo..hi]
  }

  /** `remainingArticles.slice((page - 1) * 10, page * 10)`. */
  function PageItems(remaining: seq<Article>, page: int): (r: seq<Article>)
    requires page >= 1
    ensures |r| <= ArticlesPerPage
    ensures page < TotalPages(|remaining|) ==> |r| == ArticlesPerPage
    ensures page > TotalPages(|remaining|) ==> r == []
    ensures forall i :: 0 <= i < |r| ==>
      (page - 1) * ArticlesPerPage + i < |remaining| && r[i] == remaining[(page - 1) * ArticlesPerPage + i]
  {
    Slice(remaining, (page - 1) * ArticlesPerPage, page * ArticlesPerPage)
  }

  /** Pages 1..k shown one after the other. */
  ghost function PagesUpTo(remaining: seq<Article>, k: nat): seq<Article>
  {
    if k == 0 then [] else PagesUpTo(remaining, k - 1) + PageItems(remaining, k)
  }

  lemma {:induction false} PagesUpToIsPrefix(remaining: seq<Article>, k: nat)
    ensures PagesUpTo(remaining, k) == remaining[..Min(k * ArticlesPerPage, |remaining|)]
  {
    if k > 0 {
      PagesUpToIsPrefix(remaining, k - 1);
      var lo := Min((k - 1) * ArticlesPerPage, |remaining|);
      var hi := Min(k * ArticlesPerPage, |remaining|);
      if lo < hi {
        assert PageItems(remaining, k) == remaining[lo..hi];
        assert remaining[..lo] + remaining[lo..hi] == remaining[..hi];
      } else {
        assert lo == hi;
      }
    }
  }

  /** Showing pages 1..totalPages in order gives back the remaining articles
      exactly: nothing dropped, nothing repeated. */
  lemma PagesReassemble(remaining: seq<Article>)
    ensures PagesUpTo(remaining, TotalPages(|remaining|)) == remaining
  {
    PagesUpToIsPrefix(remaining, TotalPages(|remaining|));
    assert remaining[..|remaining|] == remaining;
  }

  /** The buttons under the list. `Number(k)` is the button labelled k. */
  datatype Click = Previous | Next | Number(k: int)

  /** Whether a button is rendered and enabled: Previous is disabled at page 1,
      Next at page == totalPages, and numbered buttons exist for 1..totalPages. */
  predicate Enabled(page: int, totalPages: nat, c: Click) {
    match c
    case Previous => page != 1
    case Next => page != totalPages
    case Number(k) => 1 <= k <= totalPages
  }

  /** The page after a click; a disabled or missing button changes nothing. */
  function Press(page: int, totalPages: nat, c: Click): (p: int)
    ensures !Enabled(page, totalPages, c) ==> p == page
    ensures c == Previous && Enabled(page, totalPages, c) ==> p == page - 1
    ensures c == Next && Enabled(page, totalPages, c) ==> p == page + 1
    ensures c.Number? && Enabled(page, totalPages, c) ==> p == c.k
  {
    if !Enabled(page, totalPages, c) then page
    else match c
      case Previous => page - 1
      case Next => page + 1
      case Number(k) => k
  }

  function Run(page: int, totalPages: nat, clicks: seq<Click>): int
    decreases |clicks|
  {
    if |clicks| == 0 then page else Run(Press(page, totalPages, clicks[0]), totalPages, clicks[1..])
  }

  /** With at least one page, any click sequence from a page in range keeps the
      page in [1, totalPages]; in particular from the initial page 1. */
  lemma {:induction false} RunStaysInRange(page: int, totalPages: nat, clicks: seq<Click>)
    requires 1 <= page <= totalPages
    ensures 1 <= Run(page, totalPages, clicks) <= totalPages
    decreases |clicks|
  {
    if |clicks| > 0 {
      RunStaysInRange(Press(page, totalPages, clicks[0]), totalPages, clicks[1..]);
    }
  }

  /** Whatever the page count, clicks never take the page below 1, so
      `PageItems` is always defined on a reachable page. */
  lemma {:induction false} RunStaysPositive(page: int, totalPages: nat, clicks: seq<Click>)
    requires page >= 1
    ensures Run(page, totalPages, clicks) >= 1
    decreases |clicks|
  {
    if |clicks| > 0 {
      RunStaysPositive(Press(page, totalPages, clicks[0]), totalPages, clicks[1..]);
    }
  }

  /** With no remaining articles there are zero pages, Next stays enabled at
      page 1, and pressing it goes past totalPages to an empty page. */
  lemma NoArticlesNextOverruns()
    ensures TotalPages(0) == 0
    ensures Enabled(1, 0, Next)
    ensures Run(1, 0, [Next, Next]) == 3
    ensures PageItems([], 3) == []
  {
    assert Run(1, 0, [Next, Next]) == Run(2, 0, [Next]);
  }
}
