/** The article record shared by the bundled-data pages (home page and the web
    articles listing), and the category flattening both of them perform. */
module Articles {

  /** One article of the bundled data. `postDate` is the date as a timestamp;
      `summary` is the `abstract` field. */
  datatype Article = Article(
    title: string,
    author: string,
    postDate: int,
    summary: string,
    content: string,
    image: string)

  datatype Category = Category(name: string, items: seq<Article>)

  /** `categories.flatMap(cat => cat.items)`. */
  function Flatten(cats: seq<Category>): (r: seq<Article>)
    ensures forall a :: a in r <==> exists k :: 0 <= k < |cats| && a in cats[k].items
    ensures |cats| > 0 ==> cats[0].items <= r
  {
    if |cats| == 0 then [] else cats[0].items + Flatten(cats[1..])
  }

  /** Flattening a concatenation of category lists concatenates the results. */
  lemma {:induction false} FlattenAppend(a: seq<Category>, b: seq<Category>)
    ensures Flatten(a + b) == Flatten(a) + Flatten(b)
    decreases |a|
  {
    if |a| == 0 {
      assert a + b == b;
    } else {
      assert (a + b)[1..] == a[1..] + b;
      FlattenAppend(a[1..], b);
    }
  }

  /** Category `k`'s items appear as one contiguous block, after the items of
      every earlier category and before those of every later one. */
  lemma FlattenBlocks(cats: seq<Category>, k: nat)
    requires k < |cats|
    ensures Flatten(cats) == Flatten(cats[..k]) + cats[k].items + Flatten(cats[k + 1..])
  {
    var tail := cats[k..];
    assert cats == cats[..k] + tail;
    FlattenAppend(cats[..k], tail);
    assert tail[0] == cats[k] && tail[1..] == cats[k + 1..];
    assert Flatten(tail) == tail[0].items + Flatten(tail[1..]);
  }
}
