/** The paged collection: what one listing response contributes, and what a whole
    run of the page loop collects, as functions of the listing server's answers. */
module Paging {
  import opened Wrappers
  import opened Strings
  import opened Catalogue
  import opened Products

  /** What the listing server answers to one request: a transport failure
      (connection, timeout or error status), a body that is not JSON, or a decoded
      page. */
  datatype Fetch = TransportError | InvalidJson | Parsed(page: Page)

  /** What handling one response reports: the page was empty (the method returns
      `True`), cards were added (it returns `None`), the request failed (it
      returns `False`), or a product entry lacked a key (a `KeyError` escapes). */
  datatype PageSignal = PageEmpty | CardsAdded | RequestFailed | KeyErrorRaised
  {
    /** Python truthiness of the returned value: the page loops break on it. */
    predicate Truthy()
    {
      PageEmpty?
    }

    /** The page loop goes on to the next page after this signal: the returned
        value is falsy and no exception escaped. */
    predicate Continues()
    {
      !Truthy() && !KeyErrorRaised?
    }
  }

  function Signal(f: Fetch): PageSignal
  {
    match f
    case TransportError => RequestFailed
    case InvalidJson => RequestFailed
    case Parsed(page) =>
      match PageProducts(page)
      case MissingKey => KeyErrorRaised
      case Cards(cs) => if |cs| > 0 then CardsAdded else PageEmpty
  }

  /** The cards a response adds to the collection: those of a page with products,
      and none otherwise. */
  function NewCards(f: Fetch): seq<ProductCard>
  {
    if f.Parsed? && PageProducts(f.page).Cards? then PageProducts(f.page).cards else []
  }

  /** What the page loop sees of one response: the signal it reports and the cards
      it adds. */
  datatype Answer = Answer(signal: PageSignal, cards: seq<ProductCard>)

  function AnswerOf(f: Fetch): Answer
  {
    Answer(Signal(f), NewCards(f))
  }

  /** Only a page with products adds cards, and it adds all of them. */
  lemma AnswerCards(f: Fetch)
    ensures AnswerOf(f).signal != CardsAdded ==> AnswerOf(f).cards == []
    ensures AnswerOf(f).signal == CardsAdded ==>
      AnswerOf(f).cards != [] && f.Parsed? && PageProducts(f.page) == Cards(AnswerOf(f).cards)
  {
  }

  /** The answers the listing server gives to a list of page addresses, in order. */
  function Answers(urls: seq<string>, server: string -> Fetch): (answers: seq<Answer>)
    ensures |answers| == |urls|
    ensures forall j :: 0 <= j < |urls| ==> answers[j] == AnswerOf(server(urls[j]))
  {
    seq(|urls|, j requires 0 <= j < |urls| => AnswerOf(server(urls[j])))
  }

  /** The outcome of a page loop: the cards it added, how many requests it made,
      and whether a `KeyError` ended it. */
  datatype Collection = Collection(cards: seq<ProductCard>, requests: nat, crashed: bool)

  /** A collection resumed after `count` requests that have added `done`. */
  function Resume(done: seq<ProductCard>, count: nat, rest: Collection): Collection
  {
    Collection(done + rest.cards, count + rest.requests, rest.crashed)
  }

  /** The page loop over a list of answers: an empty page ends it, a missing
      product key aborts it, and a failed request is passed over. It consumes at
      most one answer per page. */
  function Run(answers: seq<Answer>): (run: Collection)
    ensures run.requests <= |answers|
    ensures answers != [] <==> run.requests >= 1
  {
    if answers == [] then Collection([], 0, false)
    else if answers[0].signal.Continues() then Resume(answers[0].cards, 1, Run(answers[1..]))
    else Collection([], 1, answers[0].signal == KeyErrorRaised)
  }

  /** The page loop over a list of page addresses, against the listing server. */
  function Collect(urls: seq<string>, server: string -> Fetch): Collection
  {
    Run(Answers(urls, server))
  }

  /** A loop that has taken `i` answers adding `done` and goes on past answer `i`. */
  lemma ResumeStep(answers: seq<Answer>, i: nat, done: seq<ProductCard>)
    requires i < |answers| && answers[i].signal.Continues()
    requires Run(answers) == Resume(done, i, Run(answers[i..]))
    ensures Run(answers) == Resume(done + answers[i].cards, i + 1, Run(answers[i + 1..]))
  {
    var mid := Run(answers[i..]);
    var rest := Run(answers[i + 1..]);
    assert answers[i..][0] == answers[i];
    assert answers[i..][1..] == answers[i + 1..];
    assert mid == Resume(answers[i].cards, 1, rest);
    AppendAssoc(done, answers[i].cards, rest.cards);
  }

  /** A loop that has taken `i` answers adding `done` and stops at answer `i`. */
  lemma ResumeStop(answers: seq<Answer>, i: nat, done: seq<ProductCard>)
    requires i < |answers| && !answers[i].signal.Continues()
    requires Run(answers) == Resume(done, i, Run(answers[i..]))
    ensures Run(answers) == Collection(done, i + 1, answers[i].signal == KeyErrorRaised)
  {
    assert answers[i..][0] == answers[i];
  }

  /** A loop that has gone through every answer. */
  lemma ResumeEnd(answers: seq<Answer>, done: seq<ProductCard>)
    requires Run(answers) == Resume(done, |answers|, Run(answers[|answers|..]))
    ensures Run(answers) == Collection(done, |answers|, false)
  {
    AppendEmpty(done);
    assert answers[|answers|..] == [];
  }

  /** Position `j` of the tail is position `j + 1` of the list. */
  lemma TailIndex(answers: seq<Answer>, j: nat)
    requires j + 1 < |answers|
    ensures answers[1..][j] == answers[j + 1]
  {
  }

  /** Every request before the last one of a loop was answered by an error or by
      a page with products. */
  lemma {:induction false} ContinuesBeforeLast(answers: seq<Answer>)
    ensures var run := Run(answers);
      forall j :: 0 <= j < run.requests - 1 ==> answers[j].signal.Continues()
  {
    if answers != [] && answers[0].signal.Continues() {
      var run, rest := Run(answers), Run(answers[1..]);
      ContinuesBeforeLast(answers[1..]);
      assert run.requests == rest.requests + 1;
      forall j | 1 <= j < run.requests - 1 ensures answers[j].signal.Continues() {
        TailIndex(answers, j - 1);
      }
    }
  }

  /** A loop that stops before running out of pages stopped at an empty page or a
      missing key. */
  lemma {:induction false} StopsAtEmptyOrCrash(answers: seq<Answer>)
    ensures var run := Run(answers);
      run.requests < |answers| ==> !answers[run.requests - 1].signal.Continues()
  {
    if answers != [] && answers[0].signal.Continues() {
      var run, rest := Run(answers), Run(answers[1..]);
      StopsAtEmptyOrCrash(answers[1..]);
      assert run.requests == rest.requests + 1;
      if rest.requests >= 1 {
        TailIndex(answers, rest.requests - 1);
      }
    }
  }

  /** A loop crashed exactly when the last page it requested lacked a key. */
  lemma {:induction false} CrashedAtMissingKey(answers: seq<Answer>)
    ensures var run := Run(answers);
      run.crashed <==> run.requests >= 1 && answers[run.requests - 1].signal == KeyErrorRaised
  {
    if answers != [] && answers[0].signal.Continues() {
      var run, rest := Run(answers), Run(answers[1..]);
      CrashedAtMissingKey(answers[1..]);
      assert run.requests == rest.requests + 1 && run.crashed == rest.crashed;
      if rest.requests >= 1 {
        TailIndex(answers, rest.requests - 1);
      }
    }
  }

  /** The cards a list of answers would add, in order, ignoring any stop. */
  function Gather(answers: seq<Answer>): seq<ProductCard>
  {
    if answers == [] then [] else answers[0].cards + Gather(answers[1..])
  }

  /** A loop collects exactly the cards of the pages it requested, page after page
      in request order, and nothing from the page that stopped it, provided only
      pages with products add cards. */
  lemma {:induction false} RunGathers(answers: seq<Answer>)
    requires forall j :: 0 <= j < |answers| ==> answers[j].signal != CardsAdded ==> answers[j].cards == []
    ensures var run := Run(answers);
      run.cards == Gather(answers[..run.requests])
  {
    if answers != [] {
      var run := Run(answers);
      var prefix := answers[..run.requests];
      assert prefix[0] == answers[0];
      assert prefix[1..] == answers[1..][..run.requests - 1];
      if answers[0].signal.Continues() {
        forall j | 0 <= j < |answers[1..]|
          ensures answers[1..][j].signal != CardsAdded ==> answers[1..][j].cards == []
        {
          TailIndex(answers, j);
        }
        RunGathers(answers[1..]);
      } else {
        assert prefix[1..] == [];
      }
    }
  }

  /** The page loop against the listing server collects the cards of the pages it
      requested, in request order. */
  lemma CollectGathers(urls: seq<string>, server: string -> Fetch)
    ensures var answers := Answers(urls, server);
      Collect(urls, server).cards == Gather(answers[..Collect(urls, server).requests])
  {
    var answers := Answers(urls, server);
    forall j | 0 <= j < |answers| ensures answers[j].signal != CardsAdded ==> answers[j].cards == [] {
      AnswerCards(server(urls[j]));
    }
    RunGathers(answers);
  }

  /** An error answer adds nothing and does not end the loop: the next page is
      requested when there is one. */
  lemma ErrorPageSkipped(answers: seq<Answer>)
    requires |answers| >= 2 && answers[0].signal == RequestFailed && answers[0].cards == []
    ensures Run(answers).requests >= 2
    ensures Run(answers).cards == Run(answers[1..]).cards
  {
  }

  /** A transport failure or an undecodable body is such an error answer. */
  lemma FailedFetchAddsNothing(f: Fetch)
    requires !f.Parsed?
    ensures AnswerOf(f) == Answer(RequestFailed, [])
  {
  }

  /** The largest page numbers of the two loops. */
  const CategoryPageCap: nat := 9
  const SearchPageCap: nat := 100

  /** Pages 1 to 9 of a category. */
  function CategoryPageUrls(category: CategoryData): (urls: seq<string>)
    ensures |urls| == CategoryPageCap
    ensures forall p :: 0 <= p < |urls| ==> urls[p] == CategoryPageUrl(category.shard, category.query, p + 1)
  {
    seq(CategoryPageCap, p => CategoryPageUrl(category.shard, category.query, p + 1))
  }

  /** Pages 1 to 100 of the search results for a keyword. */
  function SearchPageUrls(keyWord: string): (urls: seq<string>)
    ensures |urls| == SearchPageCap
    ensures forall p :: 0 <= p < |urls| ==> urls[p] == SearchPageUrl(keyWord, p + 1)
  {
    seq(SearchPageCap, p => SearchPageUrl(keyWord, p + 1))
  }

  /** The category loop requests each page at its own address, so a server keyed by
      address answers every page separately. */
  lemma CategoryPageUrlsDistinct(category: CategoryData)
    ensures var urls := CategoryPageUrls(category);
      forall p, q :: 0 <= p < q < |urls| ==> urls[p] != urls[q]
  {
    var urls := CategoryPageUrls(category);
    forall p, q | 0 <= p < q < |urls| ensures urls[p] != urls[q] {
      if urls[p] == urls[q] {
        CategoryPageUrlInjective(category.shard, category.query, p + 1, q + 1);
      }
    }
  }

  /** The search loop requests each page at its own address. */
  lemma SearchPageUrlsDistinct(keyWord: string)
    ensures var urls := SearchPageUrls(keyWord);
      forall p, q :: 0 <= p < q < |urls| ==> urls[p] != urls[q]
  {
    var urls := SearchPageUrls(keyWord);
    forall p, q | 0 <= p < q < |urls| ensures urls[p] != urls[q] {
      if urls[p] == urls[q] {
        SearchPageUrlInjective(keyWord, p + 1, q + 1);
      }
    }
  }
}
