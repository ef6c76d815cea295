# Wildberries catalogue parser — Dafny model

This project models the logic at the centre of `WildBerriesParser`, a scraper for
the wildberries.ru marketplace:

- **Catalogue flattening** (`process_catalogue` with its inner `traverse_json`).
  The marketplace's category tree is walked depth-first. One `{name, url}` entry
  is emitted for every node that has no `children` key. The entry's name is each
  ancestor's name followed by `" -> "`, then the node's own name.
- **Product accumulation** (the loop of `parse_product_cards`). For every
  flattened category, in order, the endpoint `https://search.wb.ru/catalog/<url>`
  is requested. The reply's `products` list is appended to the product cards
  gathered so far.

The HTTP request is a parameter `fetch: string -> Reply<P>`. A `Reply` is either
a failed request or a JSON object that may lack a `products` key. Products are
an opaque type parameter `P`. `fetch` is a fixed function, so the same endpoint
always gets the same reply (see "## Left out").

Files:

- `wrappers.dfy` — `Option`, `Result`, and `AppendResult`. `AppendResult`
  appends one step's output to an earlier step's output; the first failure wins,
  as a raised exception does.
- `catalogue.dfy` — the tree (`Node`, `Children`, `Category`). It also holds
  independent descriptions of a tree: all nodes in pre-order, its leaves, its
  root-to-leaf paths, and the display name of a path.
- `flattener.dfy` — `Flatten`, the functional meaning of `traverse_json`. It
  holds the accumulating recursive method `TraverseJson` as the source writes
  it, `ProcessCatalogue`, and the proofs tying `Flatten` to the path-by-path
  description.
- `products.dfy` — the endpoint URL, `Gather` (the products of a list of
  categories), and the loop `ExtendProductCards` with `ParseProductCards` around it.

Edge cases, as the code handles them:

- A node whose `children` key holds an empty list is **internal** and emits
  nothing, even if it has a `url` (wbparser.py:75 tests only that the key is
  present).
- A node with both `children` and `url` takes the children branch, and its url
  is never read.
- A product-listing reply is not checked with `raise_for_status`
  (wbparser.py:101). A non-success reply whose body is a JSON object is read
  like any other. Such a reply fails with `MissingProducts` when it has no
  `products` key.
- A failed request aborts the loop. The products appended before it stay in
  `product_cards` (wbparser.py:102 extends the list in place).
  `ExtendProductCards` returns that partial list together with the error.

## Model

| member | source | states |
|---|---|---|
| Catalogue.LeafPathsEndAtLeaves | wbparser.py:74-79 | There is exactly one root-to-leaf path per node without a `children` key. In order, the paths end at exactly the leaves of the pre-order node sequence, so their number is `LeafCount`. |
| Catalogue.LeafPathsAreRootToLeaf | wbparser.py:75-77 | Every listed path starts at the root. Each step goes from a node to one of its listed children, and the path stops at a node with no `children` key. |
| Flattener.Flatten | wbparser.py:74-79 | Every entry name, and the path reported by a failure, starts with the prefix built from the ancestors. |
| Flattener.FlattenAll | wbparser.py:76-77 | Same prefix guarantee for a list of siblings walked under one prefix. |
| Flattener.FlattenAllSplit | wbparser.py:76-77 | Siblings are flattened in list order. Flattening `cs + ds` gives the entries of `cs` followed by those of `ds`; the first failure wins. |
| Flattener.TwoChildren | wbparser.py:75-77 | A node with children `[a, b]` yields `a`'s entries then `b`'s. Both are flattened under `prefix + name + " -> "`. |
| Flattener.EmptyChildren | wbparser.py:75-77 | A present but empty `children` list yields no entries, even when the node carries a url. |
| Flattener.ShoesAndBags | wbparser.py:74-81 | Root[Shoes, Bags[Totes]] flattens to `Root -> Shoes`/`shoes123` then `Root -> Bags -> Totes`/`totes55`. |
| Flattener.InternalUrlsIgnored | wbparser.py:75-79 | Removing the url of every internal node does not change the result: when a node has children, the children branch wins. |
| Flattener.FlattenFollowsLeafPaths | wbparser.py:74-79 | Flattening equals the path-by-path description. For each root-to-leaf path, in pre-order, the result has the prefix plus the path's display name, paired with the leaf's url. |
| Flattener.EntriesSucceed | wbparser.py:79 | The path-by-path entries succeed exactly when every leaf has a url. Then entry `i` is path `i`'s full name and its leaf's url. |
| Flattener.EntriesFail | wbparser.py:79 | On failure, the error names the first path in order whose leaf has no url. |
| Flattener.CatalogueEntries | wbparser.py:72-83 | Flattening from the empty prefix succeeds exactly when every node without `children` has a url. Then it has `LeafCount` entries. Entry `i` is named by the `i`-th root-to-leaf path and carries the url of the `i`-th leaf in pre-order. |
| Flattener.TraverseJson | wbparser.py:74-79 | The accumulating recursive walk with its loop over children returns the accumulator followed by the subtree's entries, or the first missing-url error. |
| Flattener.ProcessCatalogue | wbparser.py:59-83 | Agrees with `Flatten` from `""`. It succeeds exactly when every leaf has a url, then with one entry per leaf. On failure some leaf lacks a url. A root with no `children` key gives the single entry of its own name and url. |
| Products.ProductCardsUrl | wbparser.py:99-100 | The endpoint starts with `https://search.wb.ru/catalog/`, and the category's url fragment can be read back from the rest. |
| Products.FetchCategory | wbparser.py:99-102 | One category's request goes to its own endpoint. A failed request gives `Transport(url)` and a reply without `products` gives `MissingProducts(url)`, both naming that endpoint. A success is exactly the reply's `products` list. Its meaning over many categories is given by `GatherSplit`, `GatherSucceeds` and `FirstFailureStops`. |
| Products.Gather | wbparser.py:97-102 | The products of the categories, in order, stopping at the first failing request. A success holds as many products as the replies carry, and a failure is always a request failure, never a catalogue error. `GatherSplit`, `GatherSucceeds` and `FirstFailureStops` give its full meaning. |
| Products.GatherSplit | wbparser.py:97-102 | The products of `a + b` are those of `a` followed by those of `b`; the first failing request wins. |
| Products.GatherSucceeds | wbparser.py:97-102 | Gathering succeeds exactly when every category's request does. The result then has as many products as the replies carry in total. |
| Products.EmptyListingAddsNothing | wbparser.py:101-102 | A category whose reply lists no products can be removed without changing the result. |
| Products.TwoCategoriesInOrder | wbparser.py:97-102 | Replies `[p1, p2]` and `[p3]` give exactly `[p1, p2, p3]`. |
| Products.FirstFailureStops | wbparser.py:97-102 | If category `i` is the first whose request fails, gathering fails with that request's error. The products delivered are exactly those of the categories before `i`. |
| Products.ExtendProductCards | wbparser.py:97-102 | The loop reports no error exactly when every request succeeds, and otherwise the error of the first failing one. The cards are always the prior cards followed by the products delivered before that failure, in category order. |
| Products.ParseProductCards | wbparser.py:96-102 | A catalogue leaf without a url stops the parse before any request, leaving the cards unchanged. Otherwise the parse succeeds exactly when every category's request does; when one fails, the error is that of the first failing request. On success the cards grow by exactly the products the replies carry, in flattened order. After a failed request they hold the products delivered before it. The prior cards are always kept as a prefix. |

## Left out

- `download_current_catalogue` (wbparser.py:41-57): the HTTP GET, `raise_for_status` and JSON decoding are network I/O. The decoded catalogue is the input `catalogue` of `ParseProductCards`.
- The product-listing request and its JSON decoding (wbparser.py:101) are the parameter `fetch`. The model has two error replies: `TransportFailure` and a JSON object without `products`.
- A body that is not valid JSON makes `.json()` raise `JSONDecodeError` (wbparser.py:101). That case is folded into `TransportFailure`, so its error is reported as `Transport(url)`.
- A JSON body that is not an object (a list, string, number, boolean or `null`) raises `TypeError` when wbparser.py:102 indexes it with `'products'`. These replies are not representable in `Reply`.
- A `products` value that is not a list is not representable in `Reply` either. `extend` at wbparser.py:102 accepts any iterable: a JSON string adds its characters to the cards, and a JSON object adds its keys. Only `null`, a number or a boolean raises `TypeError`.
- `fetch` is a fixed function: the model gives the same endpoint the same reply every time. The program issues a fresh request for each category, so two categories with the same url fragment could get different replies; the model does not cover that.
- `write_to_database` (wbparser.py:104-115): inserts into an external ChromaDB whose code is not part of this model.
- `write_to_excel` (wbparser.py:117-137): file output through pandas and openpyxl, plus a `print`.
- `__init__` (wbparser.py:22-39): request headers, `date.today()`, the script directory and the database handle are environment state with no behaviour to verify. `product_cards` starts as `[]`; the model takes the prior cards as a parameter.
- `main` (wbparser.py:139-155): three calls in sequence to the parts above and to unmodelled I/O.
- Nodes without a `name` key, and JSON values of the wrong type (a `children` value that is not a list, a non-string `name` or `url`), are not representable. The model assumes that every node of its input carries a string name and that `children`, when present, is a list; the code itself checks none of this. In the code a missing name raises `KeyError` at wbparser.py:79 for a leaf, and at wbparser.py:77 for a node with at least one child. A node whose `children` list is empty never reads its name (line 77 runs once per child), so it raises nothing.
- The `MissingUrl` error of the model carries the display path of the first leaf without a url. This is an addition of the model: the `KeyError('url')` raised at wbparser.py:79 does not say which leaf it was.
- Python's recursion limit: a very deep catalogue would make `traverse_json` raise `RecursionError`. The model has no depth bound.
- `category_name` (wbparser.py:98) is read but never used, so it is not modelled.
