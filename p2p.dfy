/** The peer-to-peer trade matcher of the P2P simulation: buyers are paired
    with sellers' offers of the same amount, the matches are turned into
    origin-verification requests, and only the matches whose verification
    flag is set are kept. */
module P2P {
  import opened Wrappers
  import opened Lists

  /** An amount of Pi. The matcher only ever compares amounts for equality. */
  type Amount = real

  /** A seller's standing offer: who sells, how much, and the offer's id. */
  datatype Offer = Offer(seller: string, amount: Amount, id: string)

  /** A buyer looking for exactly `amount`. */
  datatype Buyer = Buyer(name: string, amount: Amount)

  /** A trade record: the buyer, the seller and id of the offer it consumed,
      and the traded amount. */
  datatype Match = Match(buyer: string, seller: string, amount: Amount, offerId: string)

  /** One entry handed to the batch origin verifier. */
  datatype VerifyRequest = VerifyRequest(source: string, id: string, amount: Amount)

  /** The origin category every P2P trade is verified under. */
  const P2PSource: string := "p2p"

  /** The offer a match consumed, rebuilt from the match's own fields. */
  function OfferOf(m: Match): (o: Offer) {
    Offer(m.seller, m.amount, m.offerId)
  }

  /** The buyer a match served, rebuilt from the match's own fields. */
  function BuyerOf(m: Match): (b: Buyer) {
    Buyer(m.buyer, m.amount)
  }

  // ---------------------------------------------------------------------------
  // The matching rule, as functions

  /** The first offer, in list order, whose amount equals `amount`. */
  function FirstOffer(offers: seq<Offer>, amount: Amount): (r: Option<nat>)
    ensures r.None? <==> forall k :: 0 <= k < |offers| ==> offers[k].amount != amount
    ensures r.Some? ==> r.value < |offers| && offers[r.value].amount == amount
    ensures r.Some? ==> forall k :: 0 <= k < r.value ==> offers[k].amount != amount
  {
    if offers == [] then None
    else if offers[0].amount == amount then Some(0)
    else match FirstOffer(offers[1..], amount)
      case None => None
      case Some(j) => Some(j + 1)
  }

  /** The matches made so far and the offers still open. */
  datatype Outcome = Outcome(matches: seq<Match>, remaining: seq<Offer>)

  /** The buyers take their turns in order. On its turn a buyer takes the
      first open offer of its amount, records the trade and drops that offer;
      with no such offer nothing happens. Later buyers face what is left. */
  function MatchByAmount(buyers: seq<Buyer>, offers: seq<Offer>): (r: Outcome)
    ensures |r.matches| <= |buyers|
    ensures |r.matches| + |r.remaining| == |offers|
    decreases |buyers|
  {
    if buyers == [] then Outcome([], offers)
    else
      var b := buyers[0];
      match FirstOffer(offers, b.amount)
      case None => MatchByAmount(buyers[1..], offers)
      case Some(j) =>
        var tail := MatchByAmount(buyers[1..], Delete(offers, j));
        Outcome([Match(b.name, offers[j].seller, b.amount, offers[j].id)] + tail.matches, tail.remaining)
  }

  /** The first offer of an amount is at j when offer j has it and no earlier
      offer does. */
  lemma FirstOfferAt(offers: seq<Offer>, amount: Amount, j: nat)
    requires j < |offers| && offers[j].amount == amount
    requires forall k :: 0 <= k < j ==> offers[k].amount != amount
    ensures FirstOffer(offers, amount) == Some(j)
  {
  }

  /** A buyer who finds no offer of their amount leaves the offers untouched. */
  lemma Unmatched(buyers: seq<Buyer>, offers: seq<Offer>)
    requires buyers != [] && FirstOffer(offers, buyers[0].amount).None?
    ensures MatchByAmount(buyers, offers) == MatchByAmount(buyers[1..], offers)
  {
  }

  /** A buyer who finds offer j trades with it, and the later buyers face the
      offers without it. */
  lemma Matched(buyers: seq<Buyer>, offers: seq<Offer>, j: nat)
    requires buyers != [] && FirstOffer(offers, buyers[0].amount) == Some(j)
    ensures j < |offers| && offers[j].amount == buyers[0].amount
    ensures var m := Match(buyers[0].name, offers[j].seller, buyers[0].amount, offers[j].id);
      var tail := MatchByAmount(buyers[1..], Delete(offers, j));
      && OfferOf(m) == offers[j] && BuyerOf(m) == buyers[0]
      && MatchByAmount(buyers, offers) == Outcome([m] + tail.matches, tail.remaining)
  {
  }

  // ---------------------------------------------------------------------------
  // The matching loop

  /** The inner scan of the simulation for one buyer: walk the open offers
      and, at the first one whose amount equals the buyer's, remove that
      offer from the list by value and stop. Yields the offer taken, if any,
      and the list left behind. */
  method TakeFirstOffer(offers: seq<Offer>, amount: Amount) returns (taken: Option<Offer>, rest: seq<Offer>)
    ensures taken.None? <==> FirstOffer(offers, amount).None?
    ensures taken.None? ==> rest == offers
    ensures taken.Some? ==> var j := FirstOffer(offers, amount).value;
      taken.value == offers[j] && rest == Delete(offers, j)
  {
    taken, rest := None, offers;
    var j := 0;
    while j < |rest|
      invariant j <= |rest| && rest == offers
      invariant forall k :: 0 <= k < j ==> offers[k].amount != amount
    {
      var offer := rest[j];
      if amount == offer.amount {
        FirstOfferAt(offers, amount, j);
        RemoveScanned(offers, j);
        rest := Remove(rest, offer).value;
        taken := Some(offer);
        break;
      }
      j := j + 1;
    }
  }

  /** The nested loop of the simulation: each buyer in turn takes the first
      open offer of equal amount, if any, and the trade is appended. */
  method MatchTrades(buyers: seq<Buyer>, offers: seq<Offer>) returns (matches: seq<Match>, remaining: seq<Offer>)
    ensures Outcome(matches, remaining) == MatchByAmount(buyers, offers)
  {
    matches, remaining := [], offers;
    ghost var goal := MatchByAmount(buyers, offers);
    for i := 0 to |buyers|
      invariant matches + MatchByAmount(buyers[i..], remaining).matches == goal.matches
      invariant MatchByAmount(buyers[i..], remaining).remaining == goal.remaining
    {
      var buyer := buyers[i];
      assert buyers[i..][0] == buyer && buyers[i..][1..] == buyers[i + 1..];
      var taken, rest := TakeFirstOffer(remaining, buyer.amount);
      if taken.Some? {
        Matched(buyers[i..], remaining, FirstOffer(remaining, buyer.amount).value);
        matches := matches + [Match(buyer.name, taken.value.seller, buyer.amount, taken.value.id)];
      } else {
        Unmatched(buyers[i..], remaining);
      }
      remaining := rest;
    }
  }

  /** Removing the scanned offer by value removes it at the scanned position:
      every earlier offer differs in amount, so none of them is equal to it. */
  lemma RemoveScanned(offers: seq<Offer>, j: nat)
    requires j < |offers|
    requires forall k :: 0 <= k < j ==> offers[k].amount != offers[j].amount
    ensures Remove(offers, offers[j]) == Some(Delete(offers, j))
  {
    assert IndexOf(offers, offers[j]) == Some(j);
  }

  // ---------------------------------------------------------------------------
  // Verification requests and the verified-match filter

  /** One verification request per match, in match order, under the P2P
      origin, naming the consumed offer's id and the traded amount. */
  function VerifyData(matches: seq<Match>): (r: seq<VerifyRequest>)
    ensures |r| == |matches|
    ensures forall k :: 0 <= k < |r| ==> r[k] == VerifyRequest(P2PSource, matches[k].offerId, matches[k].amount)
  {
    if matches == [] then []
    else [VerifyRequest(P2PSource, matches[0].offerId, matches[0].amount)] + VerifyData(matches[1..])
  }

  /** The matches paired (position by position, stopping at the shorter of the
      two lists) with a set flag, in their original order. */
  function ValidMatches(matches: seq<Match>, flags: seq<bool>): (r: seq<Match>)
    ensures |r| <= |matches| && |r| <= |flags|
    ensures IsSubseq(r, matches)
  {
    if matches == [] || flags == [] then []
    else
      var rest := ValidMatches(matches[1..], flags[1..]);
      assert matches == [matches[0]] + matches[1..];
      SubseqExtend(matches[0], rest, matches[1..], flags[0]);
      (if flags[0] then [matches[0]] else []) + rest
  }

  /** Matching, request building and filtering, as the simulation chains them.
      The batch verifier lives outside this model and is taken as a parameter. */
  method RunMatching(buyers: seq<Buyer>, offers: seq<Offer>, batchVerify: seq<VerifyRequest> -> seq<bool>)
    returns (matches: seq<Match>, requests: seq<VerifyRequest>, valid: seq<Match>)
    ensures matches == MatchByAmount(buyers, offers).matches
    ensures requests == VerifyData(matches)
    ensures valid == ValidMatches(matches, batchVerify(requests))
  {
    var remaining;
    matches, remaining := MatchTrades(buyers, offers);
    requests := VerifyData(matches);
    var verifications := batchVerify(requests);
    valid := ValidMatches(matches, verifications);
  }
}
