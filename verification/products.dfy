/** The product accumulation of `WildBerriesParser.parse_product_cards`: the
    catalogue is flattened, and for every category, in flattened order, the
    products listed at the category's endpoint are appended to the cards
    gathered so far. The HTTP request is the parameter `fetch`. */
module Products {
  import opened Wrappers
  import opened Catalogue
  import opened Flattener

  /** What a product-listing request yields: no reply at all, or a JSON body
      that may or may not carry a `products` list. */
  datatype Reply<P> = TransportFailure | Body(products: Option<seq<P>>)

  /** Why `parse_product_cards` stops. */
  datatype ParseError =
    | CatalogueError(cause: FlattenError)
    | Transport(url: string)
    | MissingProducts(url: string)

  /** The fixed part of every product-listing endpoint. */
  const ProductListBase: string := "https://search.wb.ru/catalog/"

  /** The endpoint of one category: the fixed base followed by the category's
      url fragment, which can be read back from it. */
  function ProductCardsUrl(categoryUrl: string): (r: string)
    ensures ProductListBase <= r
    ensures r[|ProductListBase|..] == categoryUrl
  {
    ProductListBase + categoryUrl
  }

  /** The products one category contributes, or why its request fails. A
      failure always names the category's own endpoint; a success is exactly
      the `products` list of the reply from that endpoint. */
  function FetchCategory<P>(fetch: string -> Reply<P>, c: Category): (r: Result<seq<P>, ParseError>)
    ensures r.Failure? ==> !r.error.CatalogueError? && r.error.url == ProductCardsUrl(c.url)
    ensures r.Success? ==> fetch(ProductCardsUrl(c.url)) == Body(Some(r.value))
    ensures fetch(ProductCardsUrl(c.url)) == TransportFailure ==> r == Failure(Transport(ProductCardsUrl(c.url)))
    ensures fetch(ProductCardsUrl(c.url)) == Body(None) ==> r == Failure(MissingProducts(ProductCardsUrl(c.url)))
    ensures fetch(ProductCardsUrl(c.url)).Body? && fetch(ProductCardsUrl(c.url)).products.Some? ==>
      r == Success(fetch(ProductCardsUrl(c.url)).products.value)
  {
    var url := ProductCardsUrl(c.url);
    match fetch(url)
    case TransportFailure => Failure(Transport(url))
    case Body(None) => Failure(MissingProducts(url))
    case Body(Some(ps)) => Success(ps)
  }

  /** The products of all categories, category after category, stopping at the
      first category whose request fails. A success holds exactly as many
      products as the replies carry; a failure is a request's failure. */
  function Gather<P>(categories: seq<Category>, fetch: string -> Reply<P>): (r: Result<seq<P>, ParseError>)
    ensures r.Success? ==> |r.value| == ProductCount(categories, fetch)
    ensures r.Failure? ==> !r.error.CatalogueError?
    decreases |categories|
  {
    if categories == [] then Success([])
    else AppendResult(Gather(categories[..|categories| - 1], fetch), FetchCategory(fetch, categories[|categories| - 1]))
  }

  /** The number of products the listed categories' replies carry. */
  function ProductCount<P>(categories: seq<Category>, fetch: string -> Reply<P>): nat
    decreases |categories|
  {
    if categories == [] then 0
    else
      var c := categories[|categories| - 1];
      ProductCount(categories[..|categories| - 1], fetch)
        + match fetch(ProductCardsUrl(c.url)) case Body(Some(ps)) => |ps| case _ => 0
  }

  /** Gathering a run of categories is gathering its two halves, the first
      half's products first. */
  lemma {:induction false} GatherSplit<P>(a: seq<Category>, b: seq<Category>, fetch: string -> Reply<P>)
    ensures Gather(a + b, fetch) == AppendResult(Gather(a, fetch), Gather(b, fetch))
    decreases |b|
  {
    if b == [] {
      assert a + b == a;
      AppendResultUnit(Gather(a, fetch));
    } else {
      var b' := b[..|b| - 1];
      assert (a + b)[..|a + b| - 1] == a + b';
      assert (a + b)[|a + b| - 1] == b[|b| - 1];
      GatherSplit(a, b', fetch);
      AppendResultAssoc(Gather(a, fetch), Gather(b', fetch), FetchCategory(fetch, b[|b| - 1]));
    }
  }

  /** Gathering succeeds exactly when every category's request does, and then
      yields as many products as the replies carry. */
  lemma {:induction false} GatherSucceeds<P>(categories: seq<Category>, fetch: string -> Reply<P>)
    ensures Gather(categories, fetch).Success? <==>
      forall i | 0 <= i < |categories| :: FetchCategory(fetch, categories[i]).Success?
    ensures Gather(categories, fetch).Success? ==>
      |Gather(categories, fetch).value| == ProductCount(categories, fetch)
    decreases |categories|
  {
    if categories != [] {
      var front := categories[..|categories| - 1];
      GatherSucceeds(front, fetch);
      assert forall i | 0 <= i < |front| :: categories[i] == front[i];
    }
  }

  /** A category whose reply lists no products changes nothing. */
  lemma EmptyListingAddsNothing<P>(a: seq<Category>, c: Category, b: seq<Category>, fetch: string -> Reply<P>)
    requires fetch(ProductCardsUrl(c.url)) == Body(Some([]))
    ensures Gather(a + [c] + b, fetch) == Gather(a + b, fetch)
  {
    GatherSplit(a + [c], b, fetch);
    GatherSplit(a, [c], fetch);
    GatherSplit(a, b, fetch);
    assert Gather([c], fetch) == AppendResult(Success([]), Success([]));
    AppendResultUnit(Gather(a, fetch));
  }

  /** Two categories whose replies list `[p1, p2]` and `[p3]` give
      `[p1, p2, p3]`, in that order. */
  lemma TwoCategoriesInOrder<P>(c1: Category, c2: Category, p1: P, p2: P, p3: P, fetch: string -> Reply<P>)
    requires fetch(ProductCardsUrl(c1.url)) == Body(Some([p1, p2]))
    requires fetch(ProductCardsUrl(c2.url)) == Body(Some([p3]))
    ensures Gather([c1, c2], fetch) == Success([p1, p2, p3])
  {
    assert [c1, c2][..1] == [c1];
    assert [c1][..0] == [];
    assert [] + [p1, p2] == [p1, p2];
    assert Gather([c1], fetch) == Success([p1, p2]);
    assert FetchCategory(fetch, c2) == Success([p3]);
    assert [p1, p2] + [p3] == [p1, p2, p3];
  }

  /** The products delivered before the first failing request: those of the
      longest run of leading categories whose requests all succeed. */
  function Delivered<P>(categories: seq<Category>, fetch: string -> Reply<P>): seq<P>
    decreases |categories|
  {
    if categories == [] then []
    else if Gather(categories, fetch).Success? then Gather(categories, fetch).value
    else Delivered(categories[..|categories| - 1], fetch)
  }

  /** When category `i` is the first whose request fails, gathering fails with
      its error and exactly the products of the categories before it were
      delivered. */
  lemma {:induction false} FirstFailureStops<P>(categories: seq<Category>, i: nat, fetch: string -> Reply<P>)
    requires i < |categories|
    requires Gather(categories[..i], fetch).Success?
    requires FetchCategory(fetch, categories[i]).Failure?
    ensures Gather(categories, fetch) == Failure(FetchCategory(fetch, categories[i]).error)
    ensures Delivered(categories, fetch) == Gather(categories[..i], fetch).value
    decreases |categories|
  {
    var n := |categories|;
    if n == i + 1 {
      assert categories[..n - 1] == categories[..i];
    } else {
      var front := categories[..n - 1];
      assert front[..i] == categories[..i];
      assert front[i] == categories[i];
      FirstFailureStops(front, i, fetch);
    }
  }

  /** The loop of `parse_product_cards`: for each category, in order, request
      its endpoint and extend the cards with the reply's products. A failing
      request stops the loop with its error; the products already appended
      stay. */
  method ExtendProductCards<P>(productCards: seq<P>, categories: seq<Category>, fetch: string -> Reply<P>)
    returns (cards: seq<P>, err: Option<ParseError>)
    ensures err.None? <==> Gather(categories, fetch).Success?
    ensures err.Some? ==> err.value == Gather(categories, fetch).error
    ensures cards == productCards + Delivered(categories, fetch)
  {
    cards := productCards;
    var i := 0;
    while i < |categories|
      invariant 0 <= i <= |categories|
      invariant Gather(categories[..i], fetch).Success?
      invariant cards == productCards + Gather(categories[..i], fetch).value
    {
      assert categories[..i + 1][..i] == categories[..i];
      var url := ProductCardsUrl(categories[i].url);
      var response := fetch(url);
      match response {
        case TransportFailure =>
          err := Some(Transport(url));
        case Body(None) =>
          err := Some(MissingProducts(url));
        case Body(Some(ps)) =>
          cards := cards + ps;
          i := i + 1;
          continue;
      }
      FirstFailureStops(categories, i, fetch);
      return;
    }
    assert categories[..i] == categories;
    err := None;
  }

  /** `parse_product_cards`: flatten the catalogue, then extend the cards with
      every category's products in flattened order. A catalogue leaf without a
      url stops it before any request; a failing request stops it with that
      request's own error and keeps what came before it. On success the cards grow by exactly the products the replies carry. */
  method ParseProductCards<P>(productCards: seq<P>, catalogue: Node, fetch: string -> Reply<P>)
    returns (cards: seq<P>, err: Option<ParseError>)
    ensures Flatten(catalogue, "").Failure? ==>
      cards == productCards && err == Some(CatalogueError(Flatten(catalogue, "").error))
    ensures Flatten(catalogue, "").Success? ==>
      (err.None? <==> Gather(Flatten(catalogue, "").value, fetch).Success?)
    ensures Flatten(catalogue, "").Success? && err.Some? ==>
      err.value == Gather(Flatten(catalogue, "").value, fetch).error
    ensures err.None? ==>
      && Flatten(catalogue, "").Success?
      && cards == productCards + Gather(Flatten(catalogue, "").value, fetch).value
      && |cards| == |productCards| + ProductCount(Flatten(catalogue, "").value, fetch)
    ensures Flatten(catalogue, "").Success? ==>
      cards == productCards + Delivered(Flatten(catalogue, "").value, fetch)
    ensures productCards <= cards
  {
    var flat := ProcessCatalogue(catalogue);
    if flat.Failure? {
      cards := productCards;
      err := Some(CatalogueError(flat.error));
      return;
    }
    cards, err := ExtendProductCards(productCards, flat.value, fetch);
    GatherSucceeds(flat.value, fetch);
  }
}
