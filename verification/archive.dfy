/** The web archive page: approved posts are fetched once, normalised, and
    shown under four fixed sections. Each section shows its first `count`
    matching posts, with a Load More button that raises the count by six. */
module Archive {
  import opened Common

  datatype Section = Section(name: string, href: string, key: string)

  const Sections: seq<Section> := [
    Section("Biography Matriarch's", "/archive/biography-matriarchs", "biography-matriarchs"),
    Section("Stalwart Woman", "/archive/stalwart-woman", "stalwart-woman"),
    Section("Books", "/archive/books", "books"),
    Section("Research Papers", "/archive/research-papers", "research-papers")
  ]

  /** Posts shown per section before any Load More press, and the step. */
  const InitialCount: int := 6
  const LoadStep: int := 6

  /** A post of the API response, with the fields the page reads. */
  datatype RawPost = RawPost(
    title: string,
    uploadDate: string,
    tags: Option<seq<string>>,
    category: Option<string>)

  /** A post as the page keeps it. A tag is `None` when it stands for a
      missing category. */
  datatype Post = Post(
    title: string,
    dateCreated: string,
    tags: seq<Option<string>>,
    category: Option<string>)

  function Present(s: seq<string>): (r: seq<Option<string>>)
    ensures |r| == |s|
    ensures forall i :: 0 <= i < |s| ==> r[i] == Some(s[i])
  {
    if |s| == 0 then [] else [Some(s[0])] + Present(s[1..])
  }

  /** The mapping applied to each fetched post. The tags fall back to the
      original (not lower-cased) category; the category itself is lower-cased. */
  function Ingest(raw: RawPost): (p: Post)
    ensures p.title == raw.title && p.dateCreated == raw.uploadDate
    ensures raw.tags.Some? ==> p.tags == Present(raw.tags.value)
    ensures raw.tags.None? ==> p.tags == [raw.category]
    ensures p.category.Some? <==> raw.category.Some?
    ensures raw.category.Some? ==> p.category.value == Lower(raw.category.value)
  {
    Post(
      raw.title,
      raw.uploadDate,
      if raw.tags.Some? then Present(raw.tags.value) else [raw.category],
      if raw.category.Some? then Some(Lower(raw.category.value)) else None)
  }

  /** `json.posts?.map(...) || []`: a missing `posts` array is an empty list. */
  function IngestResponse(posts: Option<seq<RawPost>>): (r: seq<Post>)
    ensures posts.None? ==> r == []
    ensures posts.Some? ==> |r| == |posts.value|
    ensures posts.Some? ==> forall i :: 0 <= i < |r| ==> r[i] == Ingest(posts.value[i])
  {
    if posts.None? then [] else seq(|posts.value|, i requires 0 <= i < |posts.value| => Ingest(posts.value[i]))
  }

  /** `key.replace(/-/g, ' ')`. */
  function SectionLabel(key: string): (r: string)
    ensures |r| == |key|
    ensures forall i :: 0 <= i < |key| ==> r[i] == (if key[i] == '-' then ' ' else key[i])
    ensures '-' !in r
  {
    if |key| == 0 then ""
    else [if key[0] == '-' then ' ' else key[0]] + SectionLabel(key[1..])
  }

  predicate InSection(p: Post, key: string) {
    p.category == Some(SectionLabel(key))
  }

  /** The posts of one section, in fetch order. */
  function Matching(posts: seq<Post>, key: string): (r: seq<Post>)
    ensures forall p :: p in r <==> p in posts && InSection(p, key)
    ensures IsSubsequence(r, posts)
  {
    Filter(posts, p => InSection(p, key))
  }

  /** The page's initial counts: every section key maps to six. */
  function InitialCounts(): (m: map<string, int>)
    ensures m.Keys == set s | s in Sections :: s.key
    ensures forall k :: k in m ==> m[k] == InitialCount
  {
    map s | s in Sections :: s.key := InitialCount
  }

  /** The Load More button is rendered exactly when some matching post is hidden. */
  predicate ShowLoadMore(posts: seq<Post>, key: string, count: int) {
    |Matching(posts, key)| > count
  }

  /** `loadMore(key)`: the section's count becomes min(total, count + 6).
      Under the button's guard this strictly raises the count; it never moves
      past the number of matching posts nor by more than six, and no other
      section's count changes. */
  function LoadMore(posts: seq<Post>, counts: map<string, int>, key: string): (r: map<string, int>)
    requires key in counts
    ensures r.Keys == counts.Keys
    ensures r[key] <= |Matching(posts, key)|
    ensures r[key] <= counts[key] + LoadStep
    ensures r[key] == |Matching(posts, key)| || r[key] == counts[key] + LoadStep
    ensures ShowLoadMore(posts, key, counts[key]) ==> counts[key] < r[key]
    ensures forall k :: k in counts && k != key ==> r[k] == counts[k]
  {
    counts[key := Min(|Matching(posts, key)|, counts[key] + LoadStep)]
  }

  /** `posts.slice(0, count)` on the section's posts, in fetch order. A
      count at or above zero keeps the first min(count, matches) posts; a
      negative count, as in JavaScript, counts back from the end. */
  function Visible(posts: seq<Post>, key: string, count: int): (r: seq<Post>)
    ensures count >= 0 ==> |r| == Min(count, |Matching(posts, key)|)
    ensures count < 0 ==> |r| == if |Matching(posts, key)| + count > 0 then |Matching(posts, key)| + count else 0
    ensures r <= Matching(posts, key)
    ensures forall i :: 0 <= i < |r| ==> InSection(r[i], key)
  {
    var m := Matching(posts, key);
    if count >= 0 then m[..Min(count, |m|)]
    else if |m| + count > 0 then m[..|m| + count]
    else []
  }

  /** A run of Load More clicks, one per key; a click lands only when that
      section's button is rendered. */
  function PressAll(posts: seq<Post>, counts: map<string, int>, keys: seq<string>): map<string, int>
    decreases |keys|
  {
    if |keys| == 0 then counts
    else
      var c := PressAll(posts, counts, keys[..|keys| - 1]);
      var k := keys[|keys| - 1];
      if k in c && ShowLoadMore(posts, k, c[k]) then LoadMore(posts, c, k) else c
  }

  /** Clicks never lower a count nor add or drop a section. From the initial
      counts every reachable count is therefore at least six, so the
      back-counting branch of `Visible` is never taken by the page. */
  lemma {:induction false} PressesNeverLowerCounts(posts: seq<Post>, counts: map<string, int>, keys: seq<string>)
    ensures PressAll(posts, counts, keys).Keys == counts.Keys
    ensures forall k :: k in counts ==> PressAll(posts, counts, keys)[k] >= counts[k]
    ensures counts == InitialCounts() ==> forall k :: k in counts ==> PressAll(posts, counts, keys)[k] >= InitialCount
    decreases |keys|
  {
    if |keys| > 0 {
      PressesNeverLowerCounts(posts, counts, keys[..|keys| - 1]);
    }
  }

  /** Pressing Load More for as long as it is shown. It ends with every
      matching post visible and the button hidden, leaving other sections
      untouched; a count already at or above the total is left as it was. */
  method PressUntilHidden(posts: seq<Post>, counts: map<string, int>, key: string)
    returns (last: map<string, int>, presses: nat)
    requires key in counts
    ensures last.Keys == counts.Keys
    ensures !ShowLoadMore(posts, key, last[key])
    ensures last[key] == if |Matching(posts, key)| > counts[key] then |Matching(posts, key)| else counts[key]
    ensures forall k :: k in counts && k != key ==> last[k] == counts[k]
    ensures Visible(posts, key, last[key]) == Matching(posts, key)
    ensures presses == 0 <==> !ShowLoadMore(posts, key, counts[key])
  {
    var total := |Matching(posts, key)|;
    last := counts;
    presses := 0;
    while ShowLoadMore(posts, key, last[key])
      invariant last.Keys == counts.Keys
      invariant counts[key] <= last[key]
      invariant last[key] == counts[key] || last[key] <= total
      invariant forall k :: k in counts && k != key ==> last[k] == counts[k]
      invariant presses == 0 ==> last == counts
      invariant presses > 0 ==> ShowLoadMore(posts, key, counts[key])
      decreases total - last[key]
    {
      last := LoadMore(posts, last, key);
      presses := presses + 1;
    }
  }
}
