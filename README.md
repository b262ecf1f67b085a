# Pi Coin P2P matching, modelled in Dafny

This project models the peer-to-peer trading simulation of Pi Coin, in
`pi_coin/examples/p2p_example.py`, up to the point where the verified matches
are chosen. The simulation has a marketplace of sell offers (seller, amount in
Pi, offer id) and a list of buyers (name, amount). The matcher works greedily:

- Buyers take their turns in list order.
- On its turn, a buyer scans the offers that are still open, in order.
- The buyer takes the first offer whose amount is exactly equal to its own.
- Taking an offer records a trade (buyer, seller, amount, offer id) and removes that offer from the list.
- The scan then stops. A buyer with no equal offer trades nothing.

After matching, the simulation builds one verification request per trade, with origin `"p2p"`, the offer id and the amount. It passes the requests to a batch verifier and keeps each trade whose verdict, at the same position, is true.

Files:

- `wrappers.dfy`: the `Option` datatype.
- `lists.dfy`: the list operations the matcher relies on.
  - `IndexOf` and `Remove` model Python's `list.remove`: it removes the first element equal to the value, and fails when there is none.
  - `Delete` removes the element at a given position.
  - `IsSubseq` is "subsequence of", with its basic laws.
- `p2p.dfy`: the data model and the matching logic.
  - `FirstOffer` and `MatchByAmount` are functions that specify the matching rule.
  - `TakeFirstOffer` and `MatchTrades` are the imperative loops of the simulation, each proved against those functions.
  - `VerifyData` builds the verification requests.
  - `ValidMatches` is the zip-and-filter step.
  - `RunMatching` chains the three steps.
- `p2p_proofs.dfy`: the properties of the matcher, the reference definition of the filter, and the concrete marketplace of the simulation.

Amounts are modelled as mathematical reals. The source only ever compares them for equality, and it never does arithmetic on them.

## Model

| member | source | states |
|---|---|---|
| P2P.FirstOffer | pi_coin/examples/p2p_example.py:38-39 | there is no result exactly when no open offer has the buyer's amount; otherwise the result is an index whose offer has that amount, and every earlier offer has a different amount (first fit) |
| P2P.MatchByAmount | pi_coin/examples/p2p_example.py:36-47 | the rule for all the buyers: there are never more trades than buyers, and trades plus offers left always add up to the number of offers, so there are never more trades than offers either (that no single buyer trades twice is P2PProofs.MatchedBuyersInOrder) |
| P2P.FirstOfferAt | pi_coin/examples/p2p_example.py:38-39 | an offer of the buyer's amount that has no earlier offer of that amount is the one the scan picks |
| P2P.Unmatched | pi_coin/examples/p2p_example.py:37-39 | unfolding step of the rule, used by the loop proofs: when a buyer has no offer of their amount, the outcome is the later buyers' outcome on the same offers |
| P2P.Matched | pi_coin/examples/p2p_example.py:39-47 | unfolding step of the rule, used by the loop proofs: a buyer whose first equal offer is j trades with it (buyer's name and amount, offer's seller and id, amounts agreeing), followed by the later buyers' outcome on the offers without offer j |
| P2P.TakeFirstOffer | pi_coin/examples/p2p_example.py:38-47 | the inner scan takes an offer exactly when one of the buyer's amount is open; it takes the first such offer and leaves the list with that one position deleted, or leaves the list unchanged when none is open |
| P2P.RemoveScanned | pi_coin/examples/p2p_example.py:46 | once the scan has passed only offers of other amounts, removing the scanned offer by value deletes it at the scanned position and not at an earlier equal entry |
| P2P.MatchTrades | pi_coin/examples/p2p_example.py:36-47 | the nested loop yields exactly the trades and the open offers that the matching rule prescribes |
| P2P.VerifyData | pi_coin/examples/p2p_example.py:52 | one request per trade, in trade order; request k has origin "p2p", trade k's offer id and trade k's amount |
| P2P.ValidMatches | pi_coin/examples/p2p_example.py:54 | the kept trades are a subsequence of the trades, in their original order, and the result is never longer than either the trades or the verdicts: pairing stops at the shorter list |
| P2P.RunMatching | pi_coin/examples/p2p_example.py:36-54 | the chain match, then build requests, then verify in a batch, then filter: its three results are the matching rule's trades, their requests, and the trades the verdicts keep |
| Lists.IndexOf | pi_coin/examples/p2p_example.py:46 | there is no index exactly when the value is absent; otherwise the index holds the value and no earlier position does |
| Lists.Delete | pi_coin/examples/p2p_example.py:46 | deleting position i shortens the list by one, keeps the elements before i and shifts the later ones down |
| Lists.Remove | pi_coin/examples/p2p_example.py:46 | removal by value fails exactly when the value is absent; otherwise it takes out exactly one copy of the value, namely the first one, and keeps the elements before and after it in their order |
| P2PProofs.MatchedBuyersInOrder | pi_coin/examples/p2p_example.py:37-47 | the buyers who traded form a subsequence of the buyers: no buyer is matched twice, and the trades come out in buyer order |
| P2PProofs.OffersConsumed | pi_coin/examples/p2p_example.py:38-46 | the open offers and the consumed offers together are exactly the original offers, so no offer is taken twice; the open offers keep their original relative order |
| P2PProofs.MatchesPairBuyerWithOffer | pi_coin/examples/p2p_example.py:39-45 | every trade joins a buyer of the input with an offer of the input; as both are rebuilt from the trade's fields, the trade's amount is that buyer's and that offer's amount |
| P2PProofs.OfferIdsStayDistinct | pi_coin/examples/p2p_example.py:44-46 | when the offer ids are distinct, no two trades name the same offer id |
| P2PProofs.MatchesPerAmount | pi_coin/examples/p2p_example.py:36-47 | for every amount, the number of trades at it is the smaller of the number of buyers at it and the number of offers at it, and the open offers at it are the original ones minus the ones traded |
| P2PProofs.LeftoverOfferHasNoTaker | pi_coin/examples/p2p_example.py:37-47 | while an offer stays open, every buyer asking for its amount has traded: a buyer ends up unmatched only if no offer of their amount was available |
| P2PProofs.FlaggedPositions | pi_coin/examples/p2p_example.py:54 | the positions in a range whose verdict is true, strictly increasing, with every such position included |
| P2PProofs.ValidMatchesPickFlagged | pi_coin/examples/p2p_example.py:54 | the filtered trades are exactly the trades at the positions, below the length of the shorter list, whose verdict is true, in increasing position order |
| P2PProofs.SimulationScenario | pi_coin/examples/p2p_example.py:24-47 | in the simulation's marketplace, buyer1 trades with user1 for offer1 at 5.0, buyer2 trades with user2 for offer2 at 3.0, and only offer3 stays open |

## Left out

- Everything after the filter at line 54 is not part of this model. That covers building `Transaction` objects (line 59), the asynchronous batch processing (line 60), dashboard logging and analytics (lines 62-71), the configuration adjustment (lines 74-75), and all the printing.
- `batch_verify` lives in a module that is not part of this model. Its verdicts are taken as a function parameter of `RunMatching`, so the properties hold for any verifier.
- Python floats: amounts are reals compared with `==`. NaN, which is never equal to itself and would match nobody, is not modelled.
- `for offer in offers` while the loop removes from `offers`: the source breaks straight after the removal, so the iterator never goes on over the changed list. The model stops the scan at that point too.
- P2PProofs.OfferIdsStayDistinct: requires the input offer ids to be distinct, because the source does not enforce that. What holds without the requirement is stated by P2PProofs.OffersConsumed: each offer entry is consumed at most once.
- The other example programs (`merchant_example.py`, `service_example.py`), `pi_coin/utils/pi_math.py` and the test files are not part of this model.
