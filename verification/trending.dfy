/** The Latest/Trending widget: two tabbed lists whose thumbnails come from
    one validated-image map built over both lists with repeated articles
    validated once. */
module Trending {
  import opened Common
  import opened Images

  /** `[...latest, ...trending]` with structurally equal articles kept once,
      at their first occurrence. */
  function ToValidate(latest: seq<FeedArticle>, trending: seq<FeedArticle>): (r: seq<FeedArticle>)
    ensures NoDuplicates(r)
    ensures forall a :: a in r <==> a in latest || a in trending
    ensures forall i, j :: 0 <= i < j < |r| ==>
      FirstIndex(latest + trending, r[i]) < FirstIndex(latest + trending, r[j])
  {
    Dedup(latest + trending)
  }

  function ValidatedImages(
    latest: seq<FeedArticle>, trending: seq<FeedArticle>, bucketUrl: string, validate: string -> string)
    : map<string, string>
  {
    ValidatedMap(ImageUrls(ToValidate(latest, trending)), bucketUrl, validate)
  }

  /** No article of either list is lost by the de-duplication: each one with
      an image URL gets its thumbnail from `validateImage`'s answer for its
      resolved address, falling back to the default picture. */
  lemma ThumbnailIsValidated(
    latest: seq<FeedArticle>, trending: seq<FeedArticle>, bucketUrl: string, validate: string -> string,
    a: FeedArticle)
    requires a in latest || a in trending
    requires a.imageUrl.Some? && a.imageUrl.value != UndefinedKey
    ensures var answer := validate(ResolveUrl(bucketUrl, a.imageUrl));
      RenderSrc(ValidatedImages(latest, trending, bucketUrl, validate), a.imageUrl) ==
        (if answer != "" then answer else DefaultImage)
  {
    var unique := ToValidate(latest, trending);
    var k := FirstIndex(unique, a);
    RenderedImageIsValidated(ImageUrls(unique), bucketUrl, validate, k);
  }

  datatype Tab = Latest | Trending

  /** The tab shown first. */
  const InitialTab: Tab := Latest

  /** Which of the two lists is displayed (the other is hidden) for the
      active tab. */
  function Shown(active: Tab): (visible: (bool, bool))
    ensures visible.0 != visible.1
    ensures visible.0 <==> active == Latest
  {
    (active == Latest, active == Trending)
  }
}
