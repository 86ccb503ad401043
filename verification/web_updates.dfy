/** The Web Updates widget: one card per update, linking to the article,
    with a thumbnail from the validated-image map and a date shown only once
    the component has mounted. */
module WebUpdates {
  import opened Common
  import opened Images

  datatype Card = Card(href: string, src: string, date: string, title: string)

  /** `validatedImages` after the validation effect has finished. */
  function ValidatedImages(updates: seq<FeedArticle>, bucketUrl: string, validate: string -> string)
    : map<string, string>
  {
    ValidatedMap(ImageUrls(updates), bucketUrl, validate)
  }

  /** The rendered list: one card per update, in order. */
  function Cards(
    updates: seq<FeedArticle>, bucketUrl: string, validate: string -> string,
    mounted: bool, localeText: int -> string): (cards: seq<Card>)
    ensures |cards| == |updates|
    ensures forall i :: 0 <= i < |updates| ==>
      cards[i].href == ArticleHref(updates[i].postId) && cards[i].title == updates[i].title
    ensures forall i :: 0 <= i < |updates| ==>
      cards[i].src == RenderSrc(ValidatedImages(updates, bucketUrl, validate), updates[i].imageUrl)
    ensures forall i :: 0 <= i < |updates| ==> cards[i].src != ""
    ensures !mounted ==> forall i :: 0 <= i < |updates| ==> cards[i].date == ""
  {
    var validated := ValidatedImages(updates, bucketUrl, validate);
    seq(|updates|, i requires 0 <= i < |updates| =>
      Card(
        ArticleHref(updates[i].postId),
        RenderSrc(validated, updates[i].imageUrl),
        FormatDate(mounted, updates[i].uploadDate, localeText),
        updates[i].title))
  }

  /** A card whose update has an image URL shows the validated address of
      that URL, or the default picture when validation gave nothing back. */
  lemma CardShowsValidatedImage(
    updates: seq<FeedArticle>, bucketUrl: string, validate: string -> string,
    mounted: bool, localeText: int -> string, i: nat)
    requires i < |updates|
    requires updates[i].imageUrl.Some? && updates[i].imageUrl.value != UndefinedKey
    ensures var answer := validate(ResolveUrl(bucketUrl, updates[i].imageUrl));
      Cards(updates, bucketUrl, validate, mounted, localeText)[i].src ==
        (if answer != "" then answer else DefaultImage)
  {
    RenderedImageIsValidated(ImageUrls(updates), bucketUrl, validate, i);
  }
}
