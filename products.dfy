/** Product records: how one entry of a listing page becomes a product card, and
    the request addresses the collector and the sales lookup build. */
module Products {
  import opened Wrappers
  import opened Strings

  /** A product entry of a listing page; every key may be missing. Prices are in
      hundredths of a rouble. */
  datatype Item = Item(
    id: Option<int>,
    name: Option<string>,
    brand: Option<string>,
    brandId: Option<int>,
    priceU: Option<int>,
    salePriceU: Option<int>,
    rating: Option<real>,
    feedbacks: Option<int>)

  /** A decoded listing response, `{data: {products: [...]}}`, where `data` and
      `products` may each be missing. */
  datatype Page = Page(data: Option<PageData>)
  datatype PageData = PageData(products: Option<seq<Item>>)

  /** The value stored under the sales key of a card: a count, or the
      "no data" sentinel. */
  datatype Sold = Count(qnt: int) | NoData

  /** One row of the result: link, article (the product id), name, brand, brand id,
      price and sale price in whole roubles, rating, number of reviews, and the
      sales entry, absent until the sales pass has set it. */
  datatype ProductCard = ProductCard(
    link: string,
    article: int,
    name: string,
    brand: string,
    brandId: int,
    price: int,
    salePrice: int,
    rating: real,
    feedbacks: int,
    sold: Option<Sold>)

  /** The outcome of mapping one page: its cards, or the missing-key error that
      one incomplete product entry raises. */
  datatype Extracted = Cards(cards: seq<ProductCard>) | MissingKey

  /** `int(x / 100)`: division by one hundred, truncated toward zero. */
  function TruncDiv100(x: int): (r: int)
    ensures x >= 0 ==> 0 <= r && r * 100 <= x < r * 100 + 100
    ensures x < 0 ==> r <= 0 && r * 100 - 100 < x <= r * 100
  {
    if x >= 0 then x / 100 else -((-x) / 100)
  }

  const DetailPrefix: string := "https://www.wildberries.ru/catalog/"
  const DetailSuffix: string := "/detail.aspx"

  /** The product page of an article. */
  function ProductLink(id: int): string
  {
    DetailPrefix + IntToDecimal(id) + DetailSuffix
  }

  /** The link names the article: the text between the fixed prefix and suffix
      reads back as the id. */
  lemma ProductLinkNamesArticle(id: int)
    ensures var link := ProductLink(id);
      |DetailPrefix| + |DetailSuffix| <= |link| &&
      ParseInt(link[|DetailPrefix|..|link| - |DetailSuffix|]) == id
  {
    var link := ProductLink(id);
    assert link[|DetailPrefix|..|link| - |DetailSuffix|] == IntToDecimal(id);
    IntDecimalRoundTrip(id);
  }

  predicate HasAllKeys(item: Item)
  {
    item.id.Some? && item.name.Some? && item.brand.Some? && item.brandId.Some? &&
    item.priceU.Some? && item.salePriceU.Some? && item.rating.Some? && item.feedbacks.Some?
  }

  /** The card of one product entry; `None` when a key is missing. */
  function MakeCard(item: Item): (r: Option<ProductCard>)
    ensures r.Some? <==> HasAllKeys(item)
    ensures r.Some? ==> r.value.article == item.id.value && r.value.link == ProductLink(item.id.value)
    ensures r.Some? ==> r.value.price == TruncDiv100(item.priceU.value)
    ensures r.Some? ==> r.value.salePrice == TruncDiv100(item.salePriceU.value)
    ensures r.Some? ==> r.value.name == item.name.value && r.value.brand == item.brand.value
    ensures r.Some? ==> r.value.brandId == item.brandId.value
    ensures r.Some? ==> r.value.rating == item.rating.value && r.value.feedbacks == item.feedbacks.value
    ensures r.Some? ==> r.value.sold.None?
  {
    if HasAllKeys(item) then
      Some(ProductCard(
        ProductLink(item.id.value), item.id.value, item.name.value, item.brand.value,
        item.brandId.value, TruncDiv100(item.priceU.value), TruncDiv100(item.salePriceU.value),
        item.rating.value, item.feedbacks.value, None))
    else None
  }

  /** The cards of a list of product entries, one per entry and in the same order,
      or `MissingKey` as soon as one entry lacks a key. */
  function CardsOf(items: seq<Item>): (r: Extracted)
    ensures r.Cards? <==> forall i :: 0 <= i < |items| ==> HasAllKeys(items[i])
    ensures r.Cards? ==> |r.cards| == |items|
    ensures r.Cards? ==> forall i :: 0 <= i < |items| ==> MakeCard(items[i]) == Some(r.cards[i])
  {
    if items == [] then Cards([])
    else
      match (MakeCard(items[0]), CardsOf(items[1..]))
      case (Some(c), Cards(rest)) =>
        assert forall i :: 1 <= i < |items| ==> items[i] == items[1..][i - 1];
        Cards([c] + rest)
      case (None, _) => MissingKey
      case (_, MissingKey) =>
        assert exists i :: 1 <= i < |items| && !HasAllKeys(items[i]) by {
          var j :| 0 <= j < |items[1..]| && !HasAllKeys(items[1..][j]);
          assert items[j + 1] == items[1..][j];
        }
        MissingKey
  }

  /** Cards that match the entries one by one are the ones `CardsOf` builds. */
  lemma CardsOfMatches(items: seq<Item>, cards: seq<ProductCard>)
    requires |cards| == |items|
    requires forall j :: 0 <= j < |items| ==> MakeCard(items[j]) == Some(cards[j])
    ensures CardsOf(items) == Cards(cards)
  {
    var r := CardsOf(items);
    assert r.Cards?;
    assert r.cards == cards;
  }

  /** One entry without every key makes the whole list fail. */
  lemma CardsOfMissing(items: seq<Item>, i: nat)
    requires i < |items| && MakeCard(items[i]).None?
    ensures CardsOf(items) == MissingKey
  {
  }

  /** The cards of a listing page: none when `data` or `products` is missing,
      otherwise those of its product entries. */
  function PageProducts(page: Page): Extracted
  {
    match page.data
    case None => Cards([])
    case Some(data) =>
      match data.products
      case None => Cards([])
      case Some(items) => CardsOf(items)
  }

  // ----- request addresses -----

  /** `'%20'.join(key_word.split())`: the words of the keyword, joined by an
      encoded space. */
  function EncodeKeyword(keyWord: string): string
  {
    Join(Words(keyWord), "%20")
  }

  lemma {:induction false} JoinNoSpace(parts: seq<string>, sep: string)
    requires NoSpace(sep) && forall k :: 0 <= k < |parts| ==> NoSpace(parts[k])
    ensures NoSpace(Join(parts, sep))
  {
    if |parts| > 1 {
      JoinNoSpace(parts[1..], sep);
      var j := Join(parts[1..], sep);
      assert NoSpace(parts[0]);
      forall i | 0 <= i < |parts[0] + sep + j| ensures !IsSpace((parts[0] + sep + j)[i]) {
        if i >= |parts[0] + sep| {
          assert (parts[0] + sep + j)[i] == j[i - |parts[0] + sep|];
        } else if i >= |parts[0]| {
          assert (parts[0] + sep + j)[i] == sep[i - |parts[0]|];
        }
      }
    }
  }

  /** The encoded keyword holds no whitespace. */
  lemma EncodedKeywordHasNoSpace(keyWord: string)
    ensures NoSpace(EncodeKeyword(keyWord))
  {
    WordsSound(keyWord);
    JoinNoSpace(Words(keyWord), "%20");
  }

  /** Splitting the encoded keyword at the encoded spaces gives back its words,
      when it has some and none of them spells an encoded space itself. */
  lemma EncodeKeywordRoundTrip(keyWord: string)
    requires Words(keyWord) != []
    requires forall k :: 0 <= k < |Words(keyWord)| ==> !Contains(Words(keyWord)[k], "%20")
    ensures Split(EncodeKeyword(keyWord), "%20") == Words(keyWord)
  {
    var sep := "%20";
    assert sep[..1][0] == '%' && sep[2..][0] == '0';
    assert sep[..2][0] == '%' && sep[1..][0] == '2';
    assert Unbordered(sep);
    SplitJoin(Words(keyWord), sep);
  }

  const CatalogHost: string := "https://catalog.wb.ru/catalog/"
  const CatalogPath: string := "/catalog?appType=1&"
  const CatalogPage: string := "&curr=rub&dest=-1257786&page="
  const CatalogSort: string := "&sort=popular&spp=24"
  const SearchHost: string := "https://search.wb.ru/exactmatch/ru/common/v4/search?appType=1&curr=rub&dest=-1257786&page="
  const SearchQuery: string := "&query="
  const SearchTail: string := "&resultset=catalog&sort=popular&spp=24&suppressSpellcheck=false"

  /** The address of listing page `page` of a category. */
  function CategoryPageUrl(shard: string, query: string, page: int): string
  {
    CatalogHost + shard + CatalogPath + query + CatalogPage + IntToDecimal(page) + CatalogSort
  }

  /** The address of page `page` of the search results for a keyword. */
  function SearchPageUrl(keyWord: string, page: int): string
  {
    SearchHost + IntToDecimal(page) + SearchQuery + EncodeKeyword(keyWord) + SearchTail
  }

  /** Different page numbers give different category page addresses. */
  lemma CategoryPageUrlInjective(shard: string, query: string, m: int, n: int)
    requires CategoryPageUrl(shard, query, m) == CategoryPageUrl(shard, query, n)
    ensures m == n
  {
    var pre := CatalogHost + shard + CatalogPath + query + CatalogPage;
    Between(pre, IntToDecimal(m), IntToDecimal(n), CatalogSort);
    IntDecimalRoundTrip(m);
    IntDecimalRoundTrip(n);
  }

  /** Different page numbers give different search page addresses. */
  lemma SearchPageUrlInjective(keyWord: string, m: int, n: int)
    requires SearchPageUrl(keyWord, m) == SearchPageUrl(keyWord, n)
    ensures m == n
  {
    var key := EncodeKeyword(keyWord);
    var post := SearchQuery + key + SearchTail;
    Regroup(SearchHost, IntToDecimal(m), SearchQuery, key, SearchTail);
    Regroup(SearchHost, IntToDecimal(n), SearchQuery, key, SearchTail);
    Between(SearchHost, IntToDecimal(m), IntToDecimal(n), post);
    IntDecimalRoundTrip(m);
    IntDecimalRoundTrip(n);
  }

  /** The address of the sales lookup for an article. */
  function SalesUrl(article: int): string
  {
    "https://product-order-qnt.wildberries.ru/by-nm/?nm=" + IntToDecimal(article)
  }
}
