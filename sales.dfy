/** The sales pass: each card gets the quantity sold that the sales endpoint
    reports for its article, or the "no data" sentinel when that lookup could not
    connect in time. */
module Sales {
  import opened Wrappers
  import opened Strings
  import opened Products

  /** What the sales endpoint answers for one article: the decoded list of
      quantities (possibly empty), a connect timeout, or any other failure (another
      request error, an undecodable body, an entry without a quantity). */
  datatype Lookup = Entries(qnts: seq<int>) | ConnectTimeout | OtherError

  /** The sales entry stored for a lookup that did not fail fatally. */
  function SoldFrom(lookup: Lookup): Sold
    requires !lookup.OtherError?
  {
    match lookup
    case Entries(qnts) => if qnts == [] then Count(0) else Count(qnts[0])
    case ConnectTimeout => NoData
  }

  function LookupOf(card: ProductCard, server: string -> Lookup): Lookup
  {
    server(SalesUrl(card.article))
  }

  /** `after` is `before` with its sales entry set from a successful lookup, and
      nothing else changed. */
  predicate Enriched(before: ProductCard, after: ProductCard, server: string -> Lookup)
  {
    !LookupOf(before, server).OtherError? &&
    after == before.(sold := Some(SoldFrom(LookupOf(before, server))))
  }

  /** The outcome of the sales pass: the cards afterwards, how many were enriched,
      and whether a fatal lookup error ended the pass. */
  datatype Enrichment = Enrichment(cards: seq<ProductCard>, processed: nat, crashed: bool)

  /** The sales pass over a list of cards, in order: it keeps the list's length and
      stops at the first card whose lookup fails fatally (EnrichSound says what
      happens to each card). */
  function Enrich(cards: seq<ProductCard>, server: string -> Lookup): (r: Enrichment)
    ensures |r.cards| == |cards| && r.processed <= |cards|
    ensures r.crashed <==> r.processed < |cards|
    ensures r.crashed ==> LookupOf(cards[r.processed], server).OtherError?
  {
    if cards == [] then Enrichment([], 0, false)
    else
      var lookup := LookupOf(cards[0], server);
      if lookup.OtherError? then Enrichment(cards, 0, true)
      else
        var rest := Enrich(cards[1..], server);
        assert rest.crashed ==> cards[1..][rest.processed] == cards[rest.processed + 1];
        Enrichment([cards[0].(sold := Some(SoldFrom(lookup)))] + rest.cards, rest.processed + 1, rest.crashed)
  }

  /** The cards before the first fatal lookup get their sales entry; the rest are
      left as they were. */
  lemma {:induction false} EnrichSound(cards: seq<ProductCard>, server: string -> Lookup)
    ensures var r := Enrich(cards, server);
      forall i :: 0 <= i < r.processed ==> Enriched(cards[i], r.cards[i], server)
    ensures var r := Enrich(cards, server);
      forall i :: r.processed <= i < |cards| ==> r.cards[i] == cards[i]
  {
    if cards != [] && !LookupOf(cards[0], server).OtherError? {
      var r, rest := Enrich(cards, server), Enrich(cards[1..], server);
      EnrichSound(cards[1..], server);
      forall i | 1 <= i < |cards|
        ensures r.cards[i] == rest.cards[i - 1] && cards[i] == cards[1..][i - 1]
      {
      }
    }
  }

  /** The number of cards the pass enriches is the position of the first card
      whose lookup fails fatally, or the number of cards when none does. */
  lemma {:induction false} ProcessedIsFirstFatal(cards: seq<ProductCard>, server: string -> Lookup, k: nat)
    requires k <= |cards|
    requires forall i :: 0 <= i < k ==> !LookupOf(cards[i], server).OtherError?
    requires k < |cards| ==> LookupOf(cards[k], server).OtherError?
    ensures Enrich(cards, server).processed == k
    decreases k
  {
    if k > 0 {
      var tail := cards[1..];
      assert !LookupOf(cards[0], server).OtherError?;
      forall i | 0 <= i < k - 1 ensures !LookupOf(tail[i], server).OtherError? {
        assert tail[i] == cards[i + 1];
      }
      if k - 1 < |tail| {
        assert tail[k - 1] == cards[k];
      }
      ProcessedIsFirstFatal(tail, server, k - 1);
      assert Enrich(cards, server).processed == Enrich(tail, server).processed + 1;
    } else if cards != [] {
      assert LookupOf(cards[0], server).OtherError?;
    }
  }

  /** A list that has the first `k` cards enriched and the rest unchanged, where `k`
      is the first fatal lookup (or the length), is the outcome of the pass. */
  lemma EnrichedPrefix(cards: seq<ProductCard>, server: string -> Lookup, k: nat, after: seq<ProductCard>)
    requires k <= |cards| && |after| == |cards|
    requires forall i :: 0 <= i < k ==> Enriched(cards[i], after[i], server)
    requires forall i :: k <= i < |cards| ==> after[i] == cards[i]
    requires k < |cards| ==> LookupOf(cards[k], server).OtherError?
    ensures Enrich(cards, server) == Enrichment(after, k, k < |cards|)
  {
    ProcessedIsFirstFatal(cards, server, k);
    EnrichSound(cards, server);
    var r := Enrich(cards, server);
    assert r.cards == after;
  }
}
