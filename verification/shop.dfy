/** The shop page: a fixed product list with category buttons, a
    case-insensitive name search, an append-only cart, stock badges and a
    short feature list per product. */
module Shop {
  import opened Common

  datatype Product = Product(
    id: int,
    name: string,
    category: string,
    stock: int,
    features: seq<string>)

  /** The products' categories, in product order, repeats included. */
  function CategoryColumn(products: seq<Product>): (r: seq<string>)
    ensures |r| == |products|
    ensures forall i :: 0 <= i < |products| ==> r[i] == products[i].category
  {
    seq(|products|, i requires 0 <= i < |products| => products[i].category)
  }

  /** `Array.from(new Set(products.map(p => p.category)))`: every product's
      category exactly once, in order of first occurrence. */
  function Categories(products: seq<Product>): (r: seq<string>)
    ensures NoDuplicates(r)
    ensures forall c :: c in r <==> c in CategoryColumn(products)
    ensures forall c :: c in r <==> exists i :: 0 <= i < |products| && products[i].category == c
    ensures forall i, j :: 0 <= i < j < |r| ==>
      FirstIndex(CategoryColumn(products), r[i]) < FirstIndex(CategoryColumn(products), r[j])
  {
    var column := CategoryColumn(products);
    assert forall c :: c in column <==> exists i :: 0 <= i < |products| && products[i].category == c by {
      forall c | c in column
        ensures exists i :: 0 <= i < |products| && products[i].category == c
      {
        var i :| 0 <= i < |column| && column[i] == c;
        assert products[i].category == c;
      }
    }
    Dedup(column)
  }

  /** The selected category narrows the list only when it is a non-empty
      string: `null` and `""` are both falsy. */
  predicate Restricted(selected: Option<string>) {
    selected.Some? && selected.value != ""
  }

  predicate MatchesName(p: Product, query: string) {
    Includes(Lower(p.name), Lower(query))
  }

  predicate Shown(p: Product, selected: Option<string>, query: string) {
    (!Restricted(selected) || p.category == selected.value) && MatchesName(p, query)
  }

  /** `filteredProducts`: the products in the selected category (if any) whose
      name contains the query, ignoring case, in product order. */
  function FilteredProducts(products: seq<Product>, selected: Option<string>, query: string): (r: seq<Product>)
    ensures IsSubsequence(r, products)
    ensures forall p :: p in r <==> p in products && Shown(p, selected, query)
    ensures Restricted(selected) ==> forall i :: 0 <= i < |r| ==> r[i].category == selected.value
    ensures forall i :: 0 <= i < |r| ==> MatchesName(r[i], query)
  {
    Filter(products, p => Shown(p, selected, query))
  }

  /** With no category selected and an empty query every product is shown. */
  lemma EmptyQueryShowsAll(products: seq<Product>)
    ensures FilteredProducts(products, None, "") == products
  {
    forall i | 0 <= i < |products|
      ensures Shown(products[i], None, "")
    {
      IncludesEmpty(Lower(products[i].name));
    }
    FilterKeepsAll(products, p => Shown(p, None, ""));
  }

  /** The search only sees the lower-cased query: "ABC" and "abc" show the
      same products. */
  lemma SearchIgnoresQueryCase(products: seq<Product>, selected: Option<string>, query: string)
    ensures FilteredProducts(products, selected, query) == FilteredProducts(products, selected, Lower(query))
  {
    LowerIdempotent(query);
    FilterCongruent(products, p => Shown(p, selected, query), p => Shown(p, selected, Lower(query)));
  }

  /** Selecting the empty category is the same as selecting none. */
  lemma EmptyCategoryIsAll(products: seq<Product>, query: string)
    ensures FilteredProducts(products, Some(""), query) == FilteredProducts(products, None, query)
  {
    FilterCongruent(products, p => Shown(p, Some(""), query), p => Shown(p, None, query));
  }

  /** `setCart([...cart, productId])`: the id goes at the end, the rest is kept,
      and an id already in the cart is counted once more. */
  function AddToCart(cart: seq<int>, id: int): (r: seq<int>)
    ensures |r| == |cart| + 1
    ensures r[..|cart|] == cart && r[|cart|] == id
    ensures multiset(r)[id] == multiset(cart)[id] + 1
    ensures forall other :: other != id ==> multiset(r)[other] == multiset(cart)[other]
  {
    cart + [id]
  }

  datatype Badge = Green | Yellow | Red

  /** The stock text colour: above ten green, above five yellow, otherwise red. */
  function StockBadge(stock: int): (b: Badge)
    ensures b == Green <==> stock > 10
    ensures b == Yellow <==> 6 <= stock <= 10
    ensures b == Red <==> stock <= 5
  {
    if stock > 10 then Green else if stock > 5 then Yellow else Red
  }

  /** `features.slice(0, 3)`. */
  function ListedFeatures(features: seq<string>): (r: seq<string>)
    ensures r <= features
    ensures |r| == Min(3, |features|)
  {
    features[..Min(3, |features|)]
  }
}
