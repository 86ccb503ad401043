/** Image resolution shared by the Web Updates and Trending widgets: each
    article's `imageUrl` is rewritten from an `s3://` address to the public
    bucket URL, passed to the page's `validateImage`, and the answers are
    collected into a map keyed by the original `imageUrl`; the thumbnail looks
    that map up, falling back to a default picture. */
module Images {
  import opened Common

  const S3Scheme: string := "s3://"
  const ContentBucketPrefix: string := "s3://wcrt-content-images/"
  const DefaultImage: string := "/article.jpg"

  /** `String(undefined)`: the text a missing key becomes in an object. */
  const UndefinedKey: string := "undefined"

  /** `hay.indexOf(needle)`: the first position where `needle` starts. */
  function IndexOf(hay: string, needle: string): (r: Option<nat>)
    ensures r.Some? ==> r.value <= |hay| && needle <= hay[r.value..]
    ensures r.Some? ==> forall j :: 0 <= j < r.value ==> !(needle <= hay[j..])
    ensures r.None? ==> forall j :: 0 <= j <= |hay| ==> !(needle <= hay[j..])
  {
    IndexFrom(hay, needle, 0)
  }

  /** The scan behind `IndexOf`, starting at position `from`. */
  function IndexFrom(hay: string, needle: string, from: nat): (r: Option<nat>)
    requires from <= |hay| + 1
    ensures r.Some? ==> from <= r.value <= |hay| && needle <= hay[r.value..]
    ensures r.Some? ==> forall j :: from <= j < r.value ==> !(needle <= hay[j..])
    ensures r.None? ==> forall j :: from <= j <= |hay| ==> !(needle <= hay[j..])
    decreases |hay| + 1 - from
  {
    if from > |hay| then None
    else if needle <= hay[from..] then Some(from)
    else IndexFrom(hay, needle, from + 1)
  }

  /** `indexOf` finds a position exactly when `includes` holds. */
  lemma IndexOfAgreesWithIncludes(hay: string, needle: string)
    ensures IndexOf(hay, needle).Some? <==> Includes(hay, needle)
  {
    IncludesIffSomePosition(hay, needle);
  }

  /** `s.replace(pattern, replacement)` with a string pattern: only the first
      occurrence is replaced, and a string without one is returned as is. */
  function ReplaceFirst(s: string, pattern: string, replacement: string): (r: string)
    ensures IndexOf(s, pattern).None? ==> r == s
    ensures IndexOf(s, pattern).Some? ==>
      var i := IndexOf(s, pattern).value;
      r == s[..i] + replacement + s[i + |pattern|..]
  {
    match IndexOf(s, pattern)
    case None => s
    case Some(i) => s[..i] + replacement + s[i + |pattern|..]
  }

  /** The address handed to `validateImage`: a missing URL is "", an `s3://`
      URL becomes the bucket URL, a slash, and the URL with its first
      "s3://wcrt-content-images/" removed; anything else is unchanged. */
  function ResolveUrl(bucketUrl: string, imageUrl: Option<string>): (r: string)
    ensures imageUrl.None? ==> r == ""
    ensures !(S3Scheme <= imageUrl.GetOr("")) ==> r == imageUrl.GetOr("")
    ensures S3Scheme <= imageUrl.GetOr("") ==>
      r == bucketUrl + "/" + ReplaceFirst(imageUrl.GetOr(""), ContentBucketPrefix, "")
  {
    var url := imageUrl.GetOr("");
    if S3Scheme <= url then bucketUrl + "/" + ReplaceFirst(url, ContentBucketPrefix, "") else url
  }

  /** An object in the content bucket resolves to its path under the bucket
      URL. */
  lemma ContentBucketResolves(bucketUrl: string, path: string)
    ensures ResolveUrl(bucketUrl, Some(ContentBucketPrefix + path)) == bucketUrl + "/" + path
  {
    var url := ContentBucketPrefix + path;
    assert url[0..] == url;
    assert S3Scheme <= url;
    assert url[|ContentBucketPrefix|..] == path;
  }

  /** An `s3://` URL that does not mention the content bucket keeps its whole
      text after the bucket URL. */
  lemma OtherBucketKeepsScheme(bucketUrl: string, url: string)
    requires S3Scheme <= url
    requires !Includes(url, ContentBucketPrefix)
    ensures ResolveUrl(bucketUrl, Some(url)) == bucketUrl + "/" + url
  {
    IndexOfAgreesWithIncludes(url, ContentBucketPrefix);
  }

  /** The key an article's answer is stored under: `Object.fromEntries` turns
      a missing `imageUrl` into the key "undefined". */
  function MapKey(imageUrl: Option<string>): (k: string)
    ensures imageUrl.Some? ==> k == imageUrl.value
    ensures imageUrl.None? ==> k == UndefinedKey
  {
    imageUrl.GetOr(UndefinedKey)
  }

  /** The key the thumbnail reads: `imageUrl || ''`. */
  function LookupKey(imageUrl: Option<string>): (k: string)
    ensures imageUrl.Some? ==> k == imageUrl.value
    ensures imageUrl.None? ==> k == ""
  {
    imageUrl.GetOr("")
  }

  /** `Object.fromEntries(pairs)`: exactly the keys of the pairs; each pair
      overwrites what earlier pairs stored under its key. */
  function FromEntries(pairs: seq<(string, string)>): (m: map<string, string>)
    ensures forall k :: k in m <==> exists i :: 0 <= i < |pairs| && pairs[i].0 == k
    decreases |pairs|
  {
    if |pairs| == 0 then map[]
    else
      var init := pairs[..|pairs| - 1];
      var last := pairs[|pairs| - 1];
      var m := FromEntries(init);
      var r := m[last.0 := last.1];
      forall k
        ensures k in r <==> exists i :: 0 <= i < |pairs| && pairs[i].0 == k
      {
        if k in m && k != last.0 {
          var i :| 0 <= i < |init| && init[i].0 == k;
          assert pairs[i].0 == k;
        }
        if k != last.0 && exists i :: 0 <= i < |pairs| && pairs[i].0 == k {
          var i :| 0 <= i < |pairs| && pairs[i].0 == k;
          assert init[i].0 == k;
        }
      }
      r
  }

  /** For a repeated key the last pair wins: a pair that no later pair
      shares its key with is what the object holds under that key. */
  lemma {:induction false} FromEntriesLastWins(pairs: seq<(string, string)>, i: nat)
    requires i < |pairs|
    requires forall j :: i < j < |pairs| ==> pairs[j].0 != pairs[i].0
    ensures pairs[i].0 in FromEntries(pairs) && FromEntries(pairs)[pairs[i].0] == pairs[i].1
    decreases |pairs|
  {
    if i < |pairs| - 1 {
      var init := pairs[..|pairs| - 1];
      assert init[i] == pairs[i];
      assert forall j :: i < j < |init| ==> init[j] == pairs[j];
      FromEntriesLastWins(init, i);
      assert pairs[|pairs| - 1].0 != pairs[i].0;
    }
  }

  /** The pairs `[imageUrl, validateImage(resolved)]`, one per article, in
      article order. */
  function ValidationPairs(images: seq<Option<string>>, bucketUrl: string, validate: string -> string)
    : (pairs: seq<(string, string)>)
    ensures |pairs| == |images|
    ensures forall i :: 0 <= i < |images| ==>
      pairs[i] == (MapKey(images[i]), validate(ResolveUrl(bucketUrl, images[i])))
  {
    seq(|images|, i requires 0 <= i < |images| => (MapKey(images[i]), validate(ResolveUrl(bucketUrl, images[i]))))
  }

  /** The `validatedImages` state once every answer is in. */
  function ValidatedMap(images: seq<Option<string>>, bucketUrl: string, validate: string -> string)
    : map<string, string>
  {
    FromEntries(ValidationPairs(images, bucketUrl, validate))
  }

  /** The thumbnail's `src`: the map entry for `imageUrl || ''` when present
      and not empty, otherwise the default picture. */
  function RenderSrc(validated: map<string, string>, imageUrl: Option<string>): (src: string)
    ensures src != ""
    ensures LookupKey(imageUrl) in validated && validated[LookupKey(imageUrl)] != "" ==>
      src == validated[LookupKey(imageUrl)]
    ensures !(LookupKey(imageUrl) in validated && validated[LookupKey(imageUrl)] != "") ==> src == DefaultImage
  {
    var k := LookupKey(imageUrl);
    if k in validated && validated[k] != "" then validated[k] else DefaultImage
  }

  /** Equal keys come from equal `imageUrl`s, except that a missing URL and
      the literal text "undefined" share a key. */
  lemma MapKeyCollision(a: Option<string>, b: Option<string>)
    requires MapKey(a) == MapKey(b) && a != b
    ensures {a, b} == {None, Some(UndefinedKey)}
  {
  }

  /** For an article whose `imageUrl` is present (and is not the text
      "undefined"), the thumbnail shows what `validateImage` answered for its
      resolved address, or the default picture if that answer is empty. */
  lemma {:induction false} RenderedImageIsValidated(
    images: seq<Option<string>>, bucketUrl: string, validate: string -> string, k: nat)
    requires k < |images| && images[k].Some? && images[k].value != UndefinedKey
    ensures var answer := validate(ResolveUrl(bucketUrl, images[k]));
      RenderSrc(ValidatedMap(images, bucketUrl, validate), images[k]) ==
        (if answer != "" then answer else DefaultImage)
  {
    var pairs := ValidationPairs(images, bucketUrl, validate);
    var key := images[k].value;
    var last := LastWithKey(pairs, key, k);
    FromEntriesLastWins(pairs, last);
    assert MapKey(images[last]) == MapKey(images[k]);
  }

  /** The last pair whose key is `key`, at or after a known one. */
  function LastWithKey(pairs: seq<(string, string)>, key: string, from: nat): (i: nat)
    requires from < |pairs| && pairs[from].0 == key
    ensures from <= i < |pairs| && pairs[i].0 == key
    ensures forall j :: i < j < |pairs| ==> pairs[j].0 != key
    decreases |pairs| - from
  {
    if exists j :: from < j < |pairs| && pairs[j].0 == key then
      var j :| from < j < |pairs| && pairs[j].0 == key;
      LastWithKey(pairs, key, j)
    else from
  }

  /** An article without `imageUrl` is stored under "undefined" but looked up
      under "", so its thumbnail is whatever an article whose URL is the
      empty string would show: the default picture unless such an article
      exists and `validateImage("")` is not empty. */
  lemma MissingImageRendersAsEmptyUrl(images: seq<Option<string>>, bucketUrl: string, validate: string -> string)
    ensures RenderSrc(ValidatedMap(images, bucketUrl, validate), None) ==
      (if Some("") in images && validate("") != "" then validate("") else DefaultImage)
  {
    if Some("") in images {
      var k :| 0 <= k < |images| && images[k] == Some("");
      RenderedImageIsValidated(images, bucketUrl, validate, k);
    } else {
      var pairs := ValidationPairs(images, bucketUrl, validate);
      forall i | 0 <= i < |pairs|
        ensures pairs[i].0 != ""
      {
        assert images[i] != Some("");
      }
      assert "" !in ValidatedMap(images, bucketUrl, validate);
    }
  }

  /** An article as the two widgets receive it, with all of its fields; the
      optional ones are `Option`s and the upload date is a timestamp. */
  datatype FeedArticle = FeedArticle(
    title: string,
    content: string,
    authorName: Option<string>,
    uploadDate: int,
    imageUrl: Option<string>,
    authorImage: Option<string>,
    category: string,
    postId: string,
    viewCount: int,
    postStatus: Option<string>,
    writerName: Option<string>)

  function ImageUrls(articles: seq<FeedArticle>): (r: seq<Option<string>>)
    ensures |r| == |articles|
    ensures forall i :: 0 <= i < |articles| ==> r[i] == articles[i].imageUrl
  {
    seq(|articles|, i requires 0 <= i < |articles| => articles[i].imageUrl)
  }

  /** The link every card points to. */
  function ArticleHref(postId: string): (h: string)
    ensures "/publication/web-articles/" <= h
    ensures h[|"/publication/web-articles/"|..] == postId
  {
    "/publication/web-articles/" + postId
  }

  /** `formatDate`: empty before the component has mounted, otherwise the
      part of the locale text before its first comma. The locale formatter
      is a parameter. */
  function FormatDate(mounted: bool, date: int, localeText: int -> string): (r: string)
    ensures !mounted ==> r == ""
    ensures mounted ==> r <= localeText(date) && ',' !in r
    ensures mounted && ',' !in localeText(date) ==> r == localeText(date)
  {
    if mounted then BeforeComma(localeText(date)) else ""
  }

  /** `s.split(',')[0]`. */
  function BeforeComma(s: string): (r: string)
    ensures r <= s && ',' !in r
    ensures |r| < |s| ==> s[|r|] == ','
  {
    if |s| == 0 || s[0] == ',' then "" else [s[0]] + BeforeComma(s[1..])
  }
}
