/** The parser object: it owns the collected product cards and runs the catalogue
    walk, the page loops and the sales pass against the servers' answers. */
module Parser {
  import opened Wrappers
  import opened Strings
  import opened Catalogue
  import opened Products
  import opened Paging
  import opened Sales
  import opened Freshness

  /** The list the catalogue walk appends to; the caller owns it. */
  class DescriptorList {
    var items: seq<Descriptor>

    constructor ()
      ensures items == []
    {
      items := [];
    }
  }

  class WildBerriesParser {
    /** The date of the run, read from the clock once when the parser is made. */
    const runDate: Date
    /** The product cards collected so far, in collection order. */
    var productCards: seq<ProductCard>

    constructor (today: Date)
      ensures runDate == today && productCards == []
    {
      runDate := today;
      productCards := [];
    }

    /** Whether the category tree is downloaded again, given the modification date
        of the cached file when there is one. The comparison is the one the source
        makes, so a cache from an earlier day is kept. */
    method CatalogueNeedsDownload(cached: Option<Date>) returns (download: bool)
      ensures cached.None? ==> download
      ensures cached.Some? ==> (download <==> NeedsRefresh(true, cached.value, runDate))
      ensures cached.Some? && Before(cached.value, runDate) ==> !download
    {
      match cached {
        case None =>
          download := true;
        case Some(modified) =>
          download := Before(runDate, modified);
      }
    }

    /** Walks a forest of categories in pre-order, appending the descriptor of each
        complete node, then walking its sub-categories. A node lacking a descriptor
        key is passed over together with its sub-categories. Only appends. */
    method TraverseJson(parentCategory: seq<Node>, flattenedCatalogue: DescriptorList)
      modifies flattenedCatalogue
      ensures flattenedCatalogue.items == old(flattenedCatalogue.items) + Flatten(parentCategory)
      decreases ForestSize(parentCategory)
    {
      for i := 0 to |parentCategory|
        invariant flattenedCatalogue.items == old(flattenedCatalogue.items) + Flatten(parentCategory[..i])
      {
        var category := parentCategory[i];
        ghost var before := flattenedCatalogue.items;
        FlattenStep(parentCategory, i);
        if Complete(category) {
          flattenedCatalogue.items := flattenedCatalogue.items + [DescriptorOf(category)];
          match category.childs {
            case NoChilds =>
              AppendEmpty([DescriptorOf(category)]);
            case Childs(nodes) =>
              KidsSmaller(parentCategory, i);
              TraverseJson(nodes, flattenedCatalogue);
              AppendAssoc(before, [DescriptorOf(category)], Flatten(nodes));
          }
          AppendAssoc(old(flattenedCatalogue.items), Flatten(parentCategory[..i]), FlattenNode(category));
        } else {
          AppendEmpty(Flatten(parentCategory[..i]));
        }
      }
      assert parentCategory[..|parentCategory|] == parentCategory;
    }

    /** The flattened catalogue of a decoded catalogue file; empty when the file
        could not be decoded. */
    method ProcessCatalogue(decoded: Option<seq<Node>>) returns (catalogue: seq<Descriptor>)
      ensures decoded.None? ==> catalogue == []
      ensures decoded.Some? ==> catalogue == Flatten(decoded.value)
    {
      var list := new DescriptorList();
      if decoded.Some? {
        TraverseJson(decoded.value, list);
      }
      catalogue := list.items;
    }

    /** The cards of a listing page, one per product entry and in the same order;
        none when `data` or `products` is missing; `MissingKey` when an entry
        lacks a key. */
    method GetProductsOnPage(pageData: Page) returns (r: Extracted)
      ensures r == PageProducts(pageData)
    {
      if pageData.data.None? || pageData.data.value.products.None? {
        return Cards([]);
      }
      var items := pageData.data.value.products.value;
      var productsOnPage: seq<ProductCard> := [];
      for i := 0 to |items|
        invariant |productsOnPage| == i
        invariant forall j :: 0 <= j < i ==> MakeCard(items[j]) == Some(productsOnPage[j])
      {
        var card := MakeCard(items[i]);
        if card.None? {
          CardsOfMissing(items, i);
          return MissingKey;
        }
        productsOnPage := productsOnPage + [card.value];
      }
      CardsOfMatches(items, productsOnPage);
      assert PageProducts(pageData) == CardsOf(items);
      r := Cards(productsOnPage);
    }

    /** Requests one listing page and adds its cards. Reports an empty page, added
        cards, or a failed request (the collection is then unchanged); a product
        entry without a key is reported as the `KeyError` it raises. */
    method AddDataFromPage(url: string, server: string -> Fetch) returns (signal: PageSignal)
      modifies this
      ensures signal == Signal(server(url))
      ensures productCards == old(productCards) + NewCards(server(url))
    {
      var response := server(url);
      match response {
        case TransportError =>
          signal := RequestFailed;
        case InvalidJson =>
          signal := RequestFailed;
        case Parsed(pageData) =>
          var productsOnPage := GetProductsOnPage(pageData);
          match productsOnPage {
            case MissingKey =>
              signal := KeyErrorRaised;
            case Cards(cards) =>
              if |cards| > 0 {
                productCards := productCards + cards;
                signal := CardsAdded;
              } else {
                signal := PageEmpty;
              }
          }
      }
    }

    /** Collects pages 1 to 9 of a category, stopping at the first empty page;
        returns the addresses requested and whether a `KeyError` ended the loop. */
    method GetAllProductsInCategory(categoryData: CategoryData, server: string -> Fetch)
      returns (requested: seq<string>, crashed: bool)
      modifies this
      ensures var urls := CategoryPageUrls(categoryData);
        var run := Collect(urls, server);
        productCards == old(productCards) + run.cards &&
        requested == urls[..run.requests] && crashed == run.crashed
      ensures |requested| <= CategoryPageCap
    {
      ghost var urls := CategoryPageUrls(categoryData);
      ghost var answers := Answers(urls, server);
      ghost var start, done := productCards, [];
      requested, crashed := [], false;
      for page := 1 to CategoryPageCap + 1
        invariant productCards == start + done
        invariant requested == urls[..page - 1]
        invariant Run(answers) == Resume(done, page - 1, Run(answers[page - 1..]))
      {
        var url := CategoryPageUrl(categoryData.shard, categoryData.query, page);
        assert url == urls[page - 1];
        var signal := AddDataFromPage(url, server);
        assert answers[page - 1] == Answer(signal, NewCards(server(url)));
        TakeOneMore(urls, page - 1);
        requested := requested + [url];
        if signal == KeyErrorRaised || signal.Truthy() {
          // a `KeyError` escapes the loop; a truthy result breaks it
          ResumeStop(answers, page - 1, done);
          crashed := signal == KeyErrorRaised;
          return;
        }
        ResumeStep(answers, page - 1, done);
        AppendAssoc(start, done, NewCards(server(url)));
        done := done + NewCards(server(url));
        // the one-second pause between pages is not modelled
      }
      ResumeEnd(answers, done);
    }

    /** Collects pages 1 to 100 of the search results for a keyword, stopping at
        the first empty page; returns the addresses requested and whether a
        `KeyError` ended the loop. */
    method GetAllProductsInSearchResult(keyWord: string, server: string -> Fetch)
      returns (requested: seq<string>, crashed: bool)
      modifies this
      ensures var urls := SearchPageUrls(keyWord);
        var run := Collect(urls, server);
        productCards == old(productCards) + run.cards &&
        requested == urls[..run.requests] && crashed == run.crashed
      ensures |requested| <= SearchPageCap
    {
      ghost var urls := SearchPageUrls(keyWord);
      ghost var answers := Answers(urls, server);
      ghost var start, done := productCards, [];
      requested, crashed := [], false;
      for page := 1 to SearchPageCap + 1
        invariant productCards == start + done
        invariant requested == urls[..page - 1]
        invariant Run(answers) == Resume(done, page - 1, Run(answers[page - 1..]))
      {
        var url := SearchPageUrl(keyWord, page);
        assert url == urls[page - 1];
        var signal := AddDataFromPage(url, server);
        assert answers[page - 1] == Answer(signal, NewCards(server(url)));
        TakeOneMore(urls, page - 1);
        requested := requested + [url];
        if signal == KeyErrorRaised || signal.Truthy() {
          // a `KeyError` escapes the loop; a truthy result breaks it
          ResumeStop(answers, page - 1, done);
          crashed := signal == KeyErrorRaised;
          return;
        }
        ResumeStep(answers, page - 1, done);
        AppendAssoc(start, done, NewCards(server(url)));
        done := done + NewCards(server(url));
      }
      ResumeEnd(answers, done);
    }

    /** Sets the sales entry of every card in place, in order, from its article's
        lookup; a lookup error other than a connect timeout ends the pass. */
    method GetSalesData(server: string -> Lookup) returns (crashed: bool)
      modifies this
      ensures var r := Enrich(old(productCards), server);
        productCards == r.cards && crashed == r.crashed
    {
      ghost var start := productCards;
      for i := 0 to |productCards|
        invariant |productCards| == |start|
        invariant forall j :: 0 <= j < i ==> Enriched(start[j], productCards[j], server)
        invariant forall j :: i <= j < |start| ==> productCards[j] == start[j]
      {
        var card := productCards[i];
        var response := server(SalesUrl(card.article));
        assert response == LookupOf(start[i], server);
        match response {
          case Entries(qnts) =>
            if |qnts| > 0 {
              productCards := productCards[i := card.(sold := Some(Count(qnts[0])))];
            } else {
              productCards := productCards[i := card.(sold := Some(Count(0)))];
            }
          case ConnectTimeout =>
            productCards := productCards[i := card.(sold := Some(NoData))];
          case OtherError =>
            EnrichedPrefix(start, server, i, productCards);
            return true;
        }
      }
      EnrichedPrefix(start, server, |start|, productCards);
      crashed := false;
    }
  }
}
