/** What the matcher guarantees, proved about MatchByAmount (and so, through
    MatchTrades' postcondition, about the loop itself) and about the
    verified-match filter. */
module P2PProofs {
  import opened Wrappers
  import opened Lists
  import opened P2P

  // ---------------------------------------------------------------------------
  // Views of a list of matches

  /** The buyers served, one per match, in match order. */
  function BuyersOf(ms: seq<Match>): (r: seq<Buyer>)
    ensures |r| == |ms|
    ensures forall k :: 0 <= k < |ms| ==> r[k] == BuyerOf(ms[k])
  {
    if ms == [] then [] else [BuyerOf(ms[0])] + BuyersOf(ms[1..])
  }

  /** The offers consumed, one per match, in match order. */
  function OffersOf(ms: seq<Match>): (r: seq<Offer>)
    ensures |r| == |ms|
    ensures forall k :: 0 <= k < |ms| ==> r[k] == OfferOf(ms[k])
  {
    if ms == [] then [] else [OfferOf(ms[0])] + OffersOf(ms[1..])
  }

  function BuyerAmounts(bs: seq<Buyer>): (r: seq<Amount>)
    ensures |r| == |bs|
    ensures forall k :: 0 <= k < |bs| ==> r[k] == bs[k].amount
  {
    if bs == [] then [] else [bs[0].amount] + BuyerAmounts(bs[1..])
  }

  function OfferAmounts(os: seq<Offer>): (r: seq<Amount>)
    ensures |r| == |os|
    ensures forall k :: 0 <= k < |os| ==> r[k] == os[k].amount
  {
    if os == [] then [] else [os[0].amount] + OfferAmounts(os[1..])
  }

  function MatchAmounts(ms: seq<Match>): (r: seq<Amount>)
    ensures |r| == |ms|
    ensures forall k :: 0 <= k < |ms| ==> r[k] == ms[k].amount
  {
    if ms == [] then [] else [ms[0].amount] + MatchAmounts(ms[1..])
  }

  function Min(x: int, y: int): (r: int) {
    if x <= y then x else y
  }

  /** No two offers carry the same id. */
  predicate DistinctIds(os: seq<Offer>) {
    forall i, j :: 0 <= i < j < |os| ==> os[i].id != os[j].id
  }

  // ---------------------------------------------------------------------------
  // Buyers: at most one match each, in buyer order

  /** The buyers served form a subsequence of the buyers: each buyer is served
      at most once, and matches come out in buyer order. */
  lemma {:induction false} MatchedBuyersInOrder(buyers: seq<Buyer>, offers: seq<Offer>)
    ensures IsSubseq(BuyersOf(MatchByAmount(buyers, offers).matches), buyers)
    decreases |buyers|
  {
    if buyers != [] {
      var b := buyers[0];
      assert buyers == [b] + buyers[1..];
      match FirstOffer(offers, b.amount)
      case None =>
        Unmatched(buyers, offers);
        MatchedBuyersInOrder(buyers[1..], offers);
        SubseqExtend(b, BuyersOf(MatchByAmount(buyers[1..], offers).matches), buyers[1..], false);
      case Some(j) =>
        Matched(buyers, offers, j);
        var tail := MatchByAmount(buyers[1..], Delete(offers, j));
        MatchedBuyersInOrder(buyers[1..], Delete(offers, j));
        var m := Match(b.name, offers[j].seller, b.amount, offers[j].id);
        assert BuyersOf([m] + tail.matches) == [b] + BuyersOf(tail.matches);
        SubseqExtend(b, BuyersOf(tail.matches), buyers[1..], true);
    }
  }

  // ---------------------------------------------------------------------------
  // Offers: each consumed at most once, the rest left in order

  /** The open offers and the consumed ones together are exactly the original
      offers, and the open ones keep their original relative order. */
  lemma {:induction false} OffersConsumed(buyers: seq<Buyer>, offers: seq<Offer>)
    ensures var r := MatchByAmount(buyers, offers);
      && multiset(r.remaining) + multiset(OffersOf(r.matches)) == multiset(offers)
      && IsSubseq(r.remaining, offers)
    decreases |buyers|
  {
    if buyers == [] {
      SubseqRefl(offers);
    } else {
      match FirstOffer(offers, buyers[0].amount)
      case None =>
        Unmatched(buyers, offers);
        OffersConsumed(buyers[1..], offers);
      case Some(j) =>
        Matched(buyers, offers, j);
        var rest := Delete(offers, j);
        var tail := MatchByAmount(buyers[1..], rest);
        OffersConsumed(buyers[1..], rest);
        var m := Match(buyers[0].name, offers[j].seller, buyers[0].amount, offers[j].id);
        assert OffersOf([m] + tail.matches) == [offers[j]] + OffersOf(tail.matches);
        DeleteMultiset(offers, j);
        DeleteIsSubseq(offers, j);
        SubseqTrans(tail.remaining, rest, offers);
    }
  }

  /** Every match pairs a buyer of the input with an offer of the input.
      Both are rebuilt from the match's own fields, so the membership facts
      say that the match's amount is that buyer's and that offer's amount. */
  lemma MatchesPairBuyerWithOffer(buyers: seq<Buyer>, offers: seq<Offer>)
    ensures var ms := MatchByAmount(buyers, offers).matches;
      forall k :: 0 <= k < |ms| ==>
        BuyerOf(ms[k]) in buyers && OfferOf(ms[k]) in offers
  {
    var ms := MatchByAmount(buyers, offers).matches;
    MatchedBuyersInOrder(buyers, offers);
    SubseqMultiset(BuyersOf(ms), buyers);
    MembersOfLarger(BuyersOf(ms), buyers);
    OffersConsumed(buyers, offers);
    MembersOfLarger(OffersOf(ms), offers);
  }

  /** Deleting an offer keeps the ids of the others distinct from each other
      and from the deleted one. */
  lemma DeleteKeepsIdsApart(offers: seq<Offer>, j: nat)
    requires j < |offers| && DistinctIds(offers)
    ensures DistinctIds(Delete(offers, j))
    ensures forall o :: o in Delete(offers, j) ==> o.id != offers[j].id
  {
    var rest := Delete(offers, j);
    forall o | o in rest
      ensures o.id != offers[j].id
    {
      var q :| 0 <= q < |rest| && rest[q] == o;
      assert rest[q] == offers[if q < j then q else q + 1];
    }
  }

  /** Putting an offer in front of offers with distinct ids, none of them
      sharing its id, keeps the ids distinct. */
  lemma PrependKeepsIdsApart(o: Offer, os: seq<Offer>)
    requires DistinctIds(os) && forall p :: p in os ==> p.id != o.id
    ensures DistinctIds([o] + os)
  {
    var all := [o] + os;
    forall p, q | 0 <= p < q < |all|
      ensures all[p].id != all[q].id
    {
      assert all[q] == os[q - 1];
      if p > 0 {
        assert all[p] == os[p - 1];
      }
    }
  }

  /** When the offers carry distinct ids, so do the matches: no offer is
      traded twice. */
  lemma {:induction false} OfferIdsStayDistinct(buyers: seq<Buyer>, offers: seq<Offer>)
    requires DistinctIds(offers)
    ensures DistinctIds(OffersOf(MatchByAmount(buyers, offers).matches))
    decreases |buyers|
  {
    if buyers != [] {
      match FirstOffer(offers, buyers[0].amount)
      case None =>
        Unmatched(buyers, offers);
        OfferIdsStayDistinct(buyers[1..], offers);
      case Some(j) =>
        Matched(buyers, offers, j);
        var rest := Delete(offers, j);
        var tail := MatchByAmount(buyers[1..], rest);
        var used := OffersOf(tail.matches);
        DeleteKeepsIdsApart(offers, j);
        OfferIdsStayDistinct(buyers[1..], rest);
        OffersConsumed(buyers[1..], rest);
        assert multiset(used) <= multiset(rest);
        forall p | p in used
          ensures p.id != offers[j].id
        {
          MemberOfLarger(p, used, rest);
        }
        PrependKeepsIdsApart(offers[j], used);
        var m := Match(buyers[0].name, offers[j].seller, buyers[0].amount, offers[j].id);
        assert OffersOf([m] + tail.matches) == [offers[j]] + used;
    }
  }

  // ---------------------------------------------------------------------------
  // Counting per amount

  /** Deleting an offer removes one occurrence of its amount. */
  lemma DeleteAmounts(offers: seq<Offer>, j: nat)
    requires j < |offers|
    ensures multiset(OfferAmounts(Delete(offers, j))) + multiset{offers[j].amount} == multiset(OfferAmounts(offers))
  {
    var s := OfferAmounts(offers);
    assert OfferAmounts(Delete(offers, j)) == Delete(s, j);
    assert s[j] == offers[j].amount;
    DeleteMultiset(s, j);
  }

  /** For every amount a, the matcher makes as many trades at a as there are
      buyers or offers at a, whichever is fewer, and the offers left at a are
      the original ones minus those traded: no buyer is left unserved while
      an offer of their amount stays open. */
  lemma {:induction false} MatchesPerAmount(buyers: seq<Buyer>, offers: seq<Offer>, a: Amount)
    ensures var r := MatchByAmount(buyers, offers);
      && multiset(MatchAmounts(r.matches))[a]
         == Min(multiset(BuyerAmounts(buyers))[a], multiset(OfferAmounts(offers))[a])
      && multiset(OfferAmounts(r.remaining))[a] + multiset(MatchAmounts(r.matches))[a]
         == multiset(OfferAmounts(offers))[a]
    decreases |buyers|
  {
    if buyers != [] {
      var b := buyers[0];
      assert BuyerAmounts(buyers) == [b.amount] + BuyerAmounts(buyers[1..]);
      CountCons(b.amount, BuyerAmounts(buyers[1..]), a);
      match FirstOffer(offers, b.amount)
      case None =>
        Unmatched(buyers, offers);
        MatchesPerAmount(buyers[1..], offers, a);
        NoOfferCount(offers, b.amount);
      case Some(j) =>
        Matched(buyers, offers, j);
        var tail := MatchByAmount(buyers[1..], Delete(offers, j));
        MatchesPerAmount(buyers[1..], Delete(offers, j), a);
        DeleteAmounts(offers, j);
        var m := Match(b.name, offers[j].seller, b.amount, offers[j].id);
        assert MatchAmounts([m] + tail.matches) == [b.amount] + MatchAmounts(tail.matches);
        CountCons(b.amount, MatchAmounts(tail.matches), a);
    }
  }

  /** With no offer of an amount open, no occurrence of it is counted. */
  lemma NoOfferCount(offers: seq<Offer>, a: Amount)
    requires FirstOffer(offers, a).None?
    ensures multiset(OfferAmounts(offers))[a] == 0
  {
    assert a !in OfferAmounts(offers);
  }

  /** Whenever an offer is left open, every buyer asking for its amount was
      served. */
  lemma LeftoverOfferHasNoTaker(buyers: seq<Buyer>, offers: seq<Offer>, o: Offer)
    requires o in MatchByAmount(buyers, offers).remaining
    ensures multiset(MatchAmounts(MatchByAmount(buyers, offers).matches))[o.amount]
            == multiset(BuyerAmounts(buyers))[o.amount]
  {
    var r := MatchByAmount(buyers, offers);
    MatchesPerAmount(buyers, offers, o.amount);
    var k :| 0 <= k < |r.remaining| && r.remaining[k] == o;
    assert OfferAmounts(r.remaining)[k] == o.amount;
    assert o.amount in multiset(OfferAmounts(r.remaining));
  }

  // ---------------------------------------------------------------------------
  // The verified-match filter

  /** The positions lo <= i < hi whose flag is set, in increasing order. */
  function FlaggedPositions(flags: seq<bool>, lo: nat, hi: nat): (r: seq<nat>)
    requires lo <= hi <= |flags|
    ensures forall k :: 0 <= k < |r| ==> lo <= r[k] < hi && flags[r[k]]
    ensures forall k, l :: 0 <= k < l < |r| ==> r[k] < r[l]
    ensures forall i :: lo <= i < hi && flags[i] ==> i in r
    decreases hi - lo
  {
    if lo == hi then []
    else (if flags[lo] then [lo] else []) + FlaggedPositions(flags, lo + 1, hi)
  }

  /** The elements of ms at the given positions, in that order. */
  function Pick(ms: seq<Match>, positions: seq<nat>): (r: seq<Match>)
    requires forall k :: 0 <= k < |positions| ==> positions[k] < |ms|
    ensures |r| == |positions|
    ensures forall k :: 0 <= k < |r| ==> r[k] == ms[positions[k]]
  {
    if positions == [] then [] else [ms[positions[0]]] + Pick(ms, positions[1..])
  }

  lemma {:induction false} ValidMatchesFrom(matches: seq<Match>, flags: seq<bool>, lo: nat)
    requires lo <= Min(|matches|, |flags|)
    ensures ValidMatches(matches[lo..], flags[lo..])
            == Pick(matches, FlaggedPositions(flags, lo, Min(|matches|, |flags|)))
    decreases Min(|matches|, |flags|) - lo
  {
    var n := Min(|matches|, |flags|);
    if lo < n {
      ValidMatchesFrom(matches, flags, lo + 1);
      assert matches[lo..][1..] == matches[lo + 1..] && flags[lo..][1..] == flags[lo + 1..];
      var later := FlaggedPositions(flags, lo + 1, n);
      var rest := ValidMatches(matches[lo + 1..], flags[lo + 1..]);
      assert ValidMatches(matches[lo..], flags[lo..]) == (if flags[lo] then [matches[lo]] else []) + rest;
      assert FlaggedPositions(flags, lo, n) == (if flags[lo] then [lo] else []) + later;
      if flags[lo] {
        assert ([lo] + later)[1..] == later;
        assert Pick(matches, [lo] + later) == [matches[lo]] + Pick(matches, later);
      } else {
        assert [] + later == later;
        assert [] + rest == rest;
      }
    }
  }

  /** The verified matches are exactly the matches at the positions whose
      flag is set, among the positions both lists have, in match order. */
  lemma ValidMatchesPickFlagged(matches: seq<Match>, flags: seq<bool>)
    ensures ValidMatches(matches, flags) == Pick(matches, FlaggedPositions(flags, 0, Min(|matches|, |flags|)))
  {
    ValidMatchesFrom(matches, flags, 0);
    assert matches[0..] == matches && flags[0..] == flags;
  }

  // ---------------------------------------------------------------------------
  // The marketplace of the simulation

  const SampleOffers: seq<Offer> := [Offer("user1", 5.0, "offer1"), Offer("user2", 3.0, "offer2"), Offer("user3", 1.0, "offer3")]
  const SampleBuyers: seq<Buyer> := [Buyer("buyer1", 5.0), Buyer("buyer2", 3.0)]

  /** The second buyer's turn: offer2 is now first in line. */
  lemma SecondBuyerTakesOffer2()
    ensures MatchByAmount(SampleBuyers[1..], SampleOffers[1..])
      == Outcome([Match("buyer2", "user2", 3.0, "offer2")], [Offer("user3", 1.0, "offer3")])
  {
    var later, open := SampleBuyers[1..], SampleOffers[1..];
    assert later == [Buyer("buyer2", 3.0)] && later[1..] == [];
    assert FirstOffer(open, 3.0) == Some(0);
    Matched(later, open, 0);
    assert Delete(open, 0) == [Offer("user3", 1.0, "offer3")];
  }

  /** buyer1 takes offer1 from user1 at 5.0, buyer2 takes offer2 from user2 at
      3.0, and offer3 stays open. */
  lemma SimulationScenario()
    ensures MatchByAmount(SampleBuyers, SampleOffers)
      == Outcome([Match("buyer1", "user1", 5.0, "offer1"), Match("buyer2", "user2", 3.0, "offer2")],
                 [Offer("user3", 1.0, "offer3")])
  {
    var m1 := Match("buyer1", "user1", 5.0, "offer1");
    assert FirstOffer(SampleOffers, 5.0) == Some(0);
    Matched(SampleBuyers, SampleOffers, 0);
    assert Delete(SampleOffers, 0) == SampleOffers[1..];
    var tail := MatchByAmount(SampleBuyers[1..], SampleOffers[1..]);
    SecondBuyerTakesOffer2();
    assert MatchByAmount(SampleBuyers, SampleOffers) == Outcome([m1] + tail.matches, tail.remaining);
  }
}
