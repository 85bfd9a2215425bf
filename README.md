# WB-Parser core in Dafny

This project models the collection engine of `WildBerriesParser`, a scraper for
the Wildberries marketplace. The parser does five things:

- It walks the marketplace's category tree and flattens it into a list of
  descriptors `{name, url, shard, query}`.
- It resolves a user's category name or pasted link against that list.
- It turns listing pages into product cards: link, article, name, brand, brand id,
  prices in whole roubles, rating and reviews.
- It collects those cards page by page. A category has at most 9 pages and a
  keyword search at most 100.
- It fills in every card's sales figure from a per-article sales endpoint.

The network is replaced by two servers given as functions from a request
address to an answer:

- the listing server answers with a transport failure, a body that is not JSON,
  or a decoded page;
- the sales endpoint answers with a list of quantities, a connect timeout, or
  another failure.

Both are keyed by the exact addresses the parser builds (`CategoryPageUrl`,
`SearchPageUrl`, `SalesUrl`). The run date is a constructor argument.

Modules:

- `Strings`: Python's `str.split(sep)`, `split(sep)[-1]`, `str.split()` (no
  argument), `sep.join`, and the decimal text of integers.
- `Catalogue`: the category tree, its flattening, and category resolution.
- `Products`: product entries, product cards, the page-to-cards mapping, and the
  request addresses.
- `Paging`: the page loop as a function `Run` of the answers it receives, and
  `Collect`, which is `Run` applied to the server's answers for the page
  addresses.
- `Sales`: the sales pass as a function `Enrich` of the cards and the sales
  endpoint.
- `Freshness`: the condition under which the cached category tree is downloaded
  again, both as written and as intended.
- `Parser`: the class `WildBerriesParser`. It owns `productCards`, and its methods
  carry the loops of the source, each proved against the functions above.

Behaviour of `wbparser.py` that the model keeps as it is:

- A category node that lacks one of the four keys is dropped together with its
  whole subtree (wbparser.py:33-34): the `continue` in the `except KeyError`
  branch also skips the recursion into `childs`.
- A failed page request, a transport error or undecodable JSON, does not stop
  the page loop (wbparser.py:82-89, 95-96): it returns `False`, which is falsy,
  so the loop moves on to the next page. Only an empty page (`True`) breaks the
  loop.
- A product entry missing a key raises a `KeyError` that nothing catches
  (wbparser.py:56-66, 82-89). The model reports it as a `crashed` run that keeps
  the cards added so far.
- A sales lookup that fails with anything other than a connect timeout escapes
  the sales loop in the same way (wbparser.py:102-109).
- The cached category tree is downloaded again only when its date is later than
  the run date (wbparser.py:17); see "## Findings".

## Model

| member | source | states |
|---|---|---|
| Catalogue.FlattenAppend | wbparser.py:24-36 | walking two sibling forests emits the first forest's descriptors, then the second's: sibling subtrees keep input order |
| Catalogue.PreOrderAt | wbparser.py:24-36 | a complete node's descriptor comes after everything its earlier siblings emitted, is followed immediately by its own subtree's descriptors, and only then by those of its later siblings |
| Catalogue.IncompleteDropsSubtree | wbparser.py:26-36 | a node missing any of name, url, shard or query contributes nothing, and neither does any of its descendants |
| Catalogue.FlattenCount | wbparser.py:24-36 | at most one descriptor per node, and exactly one per node if and only if every node at every level is complete |
| Parser.WildBerriesParser.TraverseJson | wbparser.py:24-36 | the caller's list keeps its old contents and gains exactly the flattened walk of the forest; proved by loop invariant and recursion |
| Parser.WildBerriesParser.ProcessCatalogue | wbparser.py:38-45 | the catalogue is the flattening of the decoded tree, or empty when the file could not be decoded |
| Catalogue.StripSiteUrl | wbparser.py:49 | the path is a suffix of the input that does not contain the site prefix; it is the whole input when the prefix does not occur, and otherwise the prefix ends right before it |
| Catalogue.StripFullUrl | wbparser.py:49 | the site prefix followed by a path that does not contain it is reduced to that path |
| Catalogue.ExtractCategoryData | wbparser.py:47-51 | `None` if and only if no entry matches by url or by name (so always on an empty catalogue); otherwise the name, shard and query of the first matching entry in list order |
| Catalogue.FirstPartWins | wbparser.py:47-51 | a match in the first part of a catalogue hides every later match; without one, the answer is that of the rest |
| Strings.Split | wbparser.py:49 | a split always has at least one piece |
| Strings.JoinSplit | wbparser.py:49 | joining the pieces of a split with the separator gives back the text |
| Strings.SplitPiecesFree | wbparser.py:49 | no piece of a split contains the separator |
| Strings.LastPieceOfSplit | wbparser.py:49 | `LastPiece` is the last element of `Split`, i.e. `split(sep)[-1]` |
| Strings.LastPiece | wbparser.py:49 | the last piece is a suffix of the text |
| Strings.LastPieceAfterLast | wbparser.py:49 | the last piece does not contain the separator; it is the whole text when the separator is absent, and otherwise the separator ends right before it |
| Strings.LastPieceAfterPrefix | wbparser.py:49 | the last piece of the separator followed by a separator-free text is that text |
| Products.TruncDiv100 | wbparser.py:63-64 | division by 100 truncated toward zero: for a non-negative price `x` the result `r` satisfies `100r <= x < 100r + 100`, and for a negative one `100r - 100 < x <= 100r` |
| Products.MakeCard | wbparser.py:56-67 | a card exists if and only if the entry has every key; its article is the id, its link names the id, its name, brand, brand id, rating and review count are copied from the entry, and its prices are the raw prices divided by 100 and truncated; no sales entry yet |
| Products.ProductLinkNamesArticle | wbparser.py:58-59 | the text between the link's fixed prefix and suffix reads back as the article |
| Products.CardsOf | wbparser.py:55-67 | cards exist if and only if every entry has every key; then there is exactly one card per entry, in entry order |
| Products.CardsOfMissing | wbparser.py:56-66 | one entry without every key makes the whole page fail with `KeyError`, whatever the other entries are |
| Products.CardsOfMatches | wbparser.py:54-68 | cards built one by one from the entries are the cards `CardsOf` gives |
| Parser.WildBerriesParser.GetProductsOnPage | wbparser.py:53-68 | the loop's result is the page's cards: none when `data` or `products` is missing, otherwise one per entry in order, or the `KeyError` a keyless entry raises |
| Paging.AnswerCards | wbparser.py:75-81 | only a page with products adds cards, and it adds exactly that page's cards |
| Paging.FailedFetchAddsNothing | wbparser.py:82-89 | a transport failure or undecodable body is reported as a failed request and adds nothing |
| Parser.WildBerriesParser.AddDataFromPage | wbparser.py:70-89 | the returned signal is the answer's signal; the cards grow by exactly the cards of a page with products and are unchanged otherwise |
| Paging.Run | wbparser.py:91-97 | a loop makes at most one request per page address, and at least one when there is a page |
| Paging.ResumeStep | wbparser.py:95-97 | after a page that does not stop the loop, the run is the cards so far plus that page's cards, followed by the run over the remaining pages |
| Paging.ResumeStop | wbparser.py:95-96 | a page that stops the loop ends the run with the cards collected so far, and the run crashed exactly when that page raised a `KeyError` |
| Paging.ResumeEnd | wbparser.py:92 | a loop that exhausts its page range makes one request per page and does not crash |
| Paging.ContinuesBeforeLast | wbparser.py:95-96 | every page before the last one requested was a failed request or added cards |
| Paging.StopsAtEmptyOrCrash | wbparser.py:95-96 | a loop that stops before its page cap stopped at an empty page or at a `KeyError`; no request follows that page |
| Paging.CrashedAtMissingKey | wbparser.py:75-89 | a run crashed if and only if the last page it requested raised a `KeyError` |
| Paging.RunGathers | wbparser.py:76-77 | the run's cards are the cards of the pages it requested, concatenated in request order; the stopping page adds none |
| Paging.CollectGathers | wbparser.py:91-97 | the same statement for the listing server's answers to the page addresses |
| Paging.ErrorPageSkipped | wbparser.py:82-89 | a failed request adds nothing and does not end the loop: the next page is requested |
| Products.CategoryPageUrlInjective | wbparser.py:94 | two category page addresses for the same category are equal only for the same page number |
| Products.SearchPageUrlInjective | wbparser.py:123 | two search page addresses for the same keyword are equal only for the same page number |
| Paging.CategoryPageUrlsDistinct | wbparser.py:92-94 | the 9 category page addresses are pairwise distinct, so a server keyed by address answers each page request on its own |
| Paging.SearchPageUrlsDistinct | wbparser.py:121-123 | the 100 search page addresses are pairwise distinct |
| Parser.WildBerriesParser.GetAllProductsInCategory | wbparser.py:91-97 | the cards grow by exactly `Collect` over pages 1 to 9; the addresses requested are the first `requests` page addresses (at most 9); `crashed` reports a `KeyError` |
| Parser.WildBerriesParser.GetAllProductsInSearchResult | wbparser.py:120-125 | the same for pages 1 to 100 of the search results |
| Strings.WordsSound | wbparser.py:123 | the words of `str.split()` are non-empty, hold no whitespace, and together hold exactly the input's non-space characters in order |
| Strings.WordsAtSpace | wbparser.py:123 | a whitespace character separates words: the words of a text around it are the words before it followed by the words after it |
| Strings.WordsOfWord | wbparser.py:123 | a non-empty run of non-space characters is exactly one word |
| Products.EncodedKeywordHasNoSpace | wbparser.py:123 | the encoded keyword holds no whitespace |
| Products.EncodeKeywordRoundTrip | wbparser.py:123 | splitting the encoded keyword at `%20` gives back its words, when it has words and none contains `%20` |
| Strings.SplitJoin | wbparser.py:123 | splitting a join gives back the parts when the separator cannot overlap itself and no part contains it |
| Strings.IntDecimalRoundTrip | wbparser.py:58 | the decimal text of an integer in an address reads back as that integer |
| Sales.Enrich | wbparser.py:99-110 | the pass keeps the number of cards; it crashes if and only if it stops before the end, and it stops only at a card whose lookup failed fatally |
| Sales.EnrichSound | wbparser.py:99-110 | each card before the stop changes only its sales entry: the first quantity, 0 for an empty answer, or "no data" on a connect timeout; the cards from the stop on are unchanged |
| Sales.ProcessedIsFirstFatal | wbparser.py:100-108 | the number of cards enriched is the position of the first fatal lookup, or the number of cards when there is none |
| Sales.EnrichedPrefix | wbparser.py:99-110 | a list with the first cards enriched and the rest unchanged, up to the first fatal lookup, is the result of the pass |
| Parser.WildBerriesParser.GetSalesData | wbparser.py:99-110 | updating the cards in place gives exactly `Enrich` of the old cards, and the method reports whether a fatal lookup ended it |
| Parser.WildBerriesParser.constructor | wbparser.py:9-13 | a new parser has no cards and keeps the run date |
| Freshness.StaleCacheKept | wbparser.py:17 | as written, a cached file from an earlier day is never downloaded again |
| Freshness.StaleCacheRefreshed | wbparser.py:17 | as intended, a cached file from an earlier day is downloaded again, one from the run date is kept, and a missing file is always downloaded |
| Parser.WildBerriesParser.CatalogueNeedsDownload | wbparser.py:15-17 | the download decision is the condition as written: a missing cache is downloaded, an existing one only when its date is later than the run date, so a cache from an earlier day is kept |

## Left out

- HTTP requests, headers, `raise_for_status` and response decoding are not modelled. Each answer is a value of the server function: transport failure, undecodable body, or decoded page, and for the sales endpoint a quantity list, a connect timeout, or another failure.
- Reading and writing the cached category tree, and JSON decoding of it, are not modelled. `ProcessCatalogue` receives the decoded tree, or nothing when decoding failed.
- The `error_response.html` dump of an undecodable page, the Excel export, the interactive prompts with their mode dispatch, and all progress output are not modelled. None of them changes the collected data.
- The one-second pause between category pages is not modelled; it is timing only.
- `download_current_catalogue` is modelled only by its refresh decision, not by the download itself.
- Products.TruncDiv100: prices are taken as integers and divided exactly before truncation. Python divides in floating point first, which can differ only for prices far beyond any real price (around 2^52 and up).
- Product names, brands, ratings and review counts are copied without interpretation, and a rating is taken as a real number.
- The top-level shape of the catalogue and of a listing response is fixed as a forest of nodes and a `{data: {products: [...]}}` record. Values of unexpected JSON types are not modelled.
- The cards stored as Python dictionaries are modelled as records. The sales entry of a card is absent until the sales pass sets it.
- Sales.LookupOf: the sales endpoint is a function of the address, so two cards with the same article get the same answer. The source sends one request per card (wbparser.py:100-103), and duplicate cards, which the page loops keep, could get different answers (one may time out while the other succeeds). The model does not capture that.
- A `KeyError` or a fatal sales failure is reported as a `crashed` flag. The model does not propagate an exception out of the method.

## Findings

| source | as written | input that shows it | evidently intended | confidence | as-written member | corrected member |
|---|---|---|---|---|---|---|
| wbparser.py:17 | the cached category tree is downloaded again only when its modification date is later than the run date | a cache file last written on 2024-01-01, read on a run dated 2024-01-02, is kept forever | download again when the cache was written before the run date | high (not executed) | Freshness.StaleCacheKept | Freshness.StaleCacheRefreshed |
