# FX triangular arbitrage: a Dafny model

This project models the core of an FX arbitrage pipeline written in Java. The pipeline keeps one order book per currency pair (EUR, USD, GBP and CHF, six pairs). It turns a snapshot of buy and sell rates into a weighted currency graph, with `-ln(rate)` as the edge weight. It runs Bellman-Ford from every vertex and walks the predecessor chains of the edges that can still be relaxed. It turns each walk's summed weight back into a profit factor and reports the flagged pairs together with a snapshot of their order books.

The modules follow the Java classes:

| module | Java class |
|---|---|
| `Currencies` | `CurrencyPair` (the six pairs, base, quote, opposing currency) |
| `PairLookup` | `UtilClass.getCurrencyPair` (the `"A_B"` key map) |
| `Decimals` | `BigDecimal` scaling and `HALF_UP` rounding |
| `OrderBooks` | `CurrencyOrderBook` |
| `Graphs` | `Graph`, `Edge`, and the sign facts of the two real maps |
| `AdjacencyBuilder` | `AdjacentVertexMapBuilder` |
| `GraphBuilder` | `CurrencyPairGraphBuilder` |
| `EdgeRelaxer` | `EdgeRelaxer` |
| `FactorFinder` | `ArbitrageFactorFinder` |
| `PathFinder` | `ArbitragePathFinder` |
| `AlgoRunner` | `AlgoRunner` |
| `ResultFormatter` | `ResultFormatter` and `ArbitrageRecord` |

## How the model represents the program

- **Numbers.** Rates and edge weights are integers counting 10^-4, as `setScale(4, HALF_UP)` leaves them. Factors count 10^-3, as `setScale(3, CEILING)` leaves them. Order-book prices are `real`, and the `1 / price` of the default best values is rounded `HALF_UP` to three decimals exactly.
- **The two real functions.** `-Math.log` on a rate and `Math.pow(2, -t) - 1` on a weight total are function parameters `negLog` and `unlog`. Only their signs are known:
  - `IsNegLog`: `-ln` is negative above 1, zero at 1 and positive below 1.
  - `IsUnlog`: the factor is positive exactly when the total is negative, and zero at zero.

  The lemmas that need these facts require them.
- **Iteration order.** A Java `HashMap` iterates in no promised order, so the order is an input:
  - the instrument data is a sequence of entries;
  - the adjacency map's key order is a sequence `order` that must list each currency once (`Graphs.Enumerates`);
  - the factor map handed to the formatter is a sequence of `(pair, factor)` entries.
- **Errors.** Exceptions become `Result` failures:
  - A rate that rounds to zero or below makes `new BigDecimal(-Math.log(...))` throw on an infinite or NaN value. This is `NonPositiveRate`.
  - A default best price computed from a zero price divides by zero. This is `DivisionByZero`.
  - A flagged pair without an order book throws a null-pointer exception. This is `MissingOrderBook`.
- **Output.** The reporter is the formatter's result: the record it would receive, with `None` for `null`.
- **Run state.** Each Bellman-Ford run gets fresh distance and predecessor maps.

Behaviours of the code that the model reproduces as written:

- A `MODIFY` of an id that is absent prints a warning and then inserts the price anyway, because of the trailing `put`.
- `manageOrder` files an ask price into the buy side (`isBuy = price.ask()`). `getBestBuy` is the lowest price of that side and `getBestSell` the highest price of the other side.
- While one side's best value has never been computed, it is the rounded reciprocal of the other side's best price. If neither side has been computed, `getBestBuy` and `getBestSell` call each other without end. The model therefore requires that one side has been computed (`SomeSideComputed`).
- The predecessor walk starts at the relaxable edge's start vertex. It is handed to the factor finder without its closing edge, so the factor sums only the steps `cycle[j-1] -> cycle[j]`.
- The weights use the natural logarithm, but the factor is undone with base 2. Only signs are modelled, so this mismatch does not change any stated property.
- The element of a record puts `getBestBuy()` in the `bestBidPrice` slot and `getBestSell()` in the `bestAskPrice` slot.
- The formatter builds one record per factor but reports only the record touched last, which is the group of the last entry's factor. An empty factor map reports `null`.

## Model

| member | source | states |
|---|---|---|
| `Currencies.BaseIsNotQuote` | src/main/java/com/estar/orderbook/model/CurrencyPair.java:4-9 | every pair constant joins two different currencies |
| `Currencies.MembersInjective` | src/main/java/com/estar/orderbook/model/CurrencyPair.java:4-9 | no two pair constants join the same two currencies, in whichever order |
| `Currencies.EveryCurrencyPairIsAnInstrument` | src/main/java/com/estar/orderbook/model/CurrencyPair.java:4-9 | any two different currencies are joined by some pair constant |
| `Currencies.OpposingIsInvolution` | src/main/java/com/estar/orderbook/model/CurrencyPair.java:27-29 | for a currency of the pair, taking the opposing currency twice gives the currency back |
| `Currencies.CurrencyPair.Opposing` | src/main/java/com/estar/orderbook/model/CurrencyPair.java:27-29 | the base yields the quote, the quote yields the base, and any other currency yields the base; the result is always a currency of the pair |
| `Currencies.AtMostFourCurrencies` | src/main/java/com/estar/orderbook/model/CurrencyPair.java:4-9 | there are only four currencies, so no set of them, and no vertex set, has more than four members |
| `Currencies.NameInjective` | src/main/java/com/estar/customcode/algo/UtilClass.java:21-22 | different currencies have different names, so the names spell distinct keys |
| `PairLookup.PairKeyInjective` | src/main/java/com/estar/customcode/algo/UtilClass.java:21-22 | the `"A_B"` key determines both of its currencies and their order |
| `PairLookup.LookupOverKeys` | src/main/java/com/estar/customcode/algo/UtilClass.java:20-25 | the keys of the built map are exactly both keys of every listed pair |
| `PairLookup.LookupOverValues` | src/main/java/com/estar/customcode/algo/UtilClass.java:20-25 | with an injective key and distinct pairs, every key maps to the pair it was put for |
| `PairLookup.PutsNeverOverwrite` | src/main/java/com/estar/customcode/algo/UtilClass.java:20-25 | neither put of a constant replaces an entry of an earlier constant, and its two keys differ |
| `PairLookup.LookupValueOf` | src/main/java/com/estar/customcode/algo/UtilClass.java:23-24 | both the direct and the inverse key of a pair constant map to that constant |
| `PairLookup.LookupResolves` | src/main/java/com/estar/customcode/algo/UtilClass.java:18-27 | the key of two currencies is present exactly when they differ, and then maps to the one pair joining them |
| `PairLookup.LookupHasNoSelfKey` | src/main/java/com/estar/customcode/algo/UtilClass.java:18-27 | no key joins a currency to itself |
| `PairLookup.LookupKeysAreDirectedPairs` | src/main/java/com/estar/customcode/algo/UtilClass.java:18-27 | every key is the key of two different currencies |
| `PairLookup.LookupHasTwelveKeys` | src/main/java/com/estar/customcode/algo/UtilClass.java:18-27 | the lookup holds exactly twelve keys, two per pair constant |
| `PairLookup.GetCurrencyPair` | src/main/java/com/estar/customcode/algo/UtilClass.java:18-27 | the keys are exactly the two spellings of every pair constant, and each maps to the constant it spells |
| `Decimals.RoundHalfUp` | src/main/java/com/estar/customcode/algo/AdjacentVertexMapBuilder.java:28-29 | rounding keeps the sign of the value: a non-negative value rounds to a non-negative count, a negative one to a non-positive count |
| `Decimals.RoundHalfUpIsNearest` | src/main/java/com/estar/customcode/algo/AdjacentVertexMapBuilder.java:28-29 | `HALF_UP` rounding lands within half a unit of the value, and ties go away from zero |
| `Decimals.RoundHalfUpExact` | src/main/java/com/estar/customcode/algo/AdjacentVertexMapBuilder.java:28-29 | a value that already has the scale is left unchanged by rounding |
| `OrderBooks.NewBook` | src/main/java/com/estar/customcode/processors/CurrencyOrderBook.java:25-29 | a new book has two empty sides and no best value computed yet |
| `OrderBooks.UpdateOrderBook` | src/main/java/com/estar/customcode/processors/CurrencyOrderBook.java:62-82 | after INSERT or MODIFY the id maps to the price; after DELETE the id is gone; every other id keeps its price; the warning is printed exactly for a MODIFY of an absent id |
| `OrderBooks.ModifyOfAbsentIdInserts` | src/main/java/com/estar/customcode/processors/CurrencyOrderBook.java:70-80 | a MODIFY of an absent id warns and still adds the price, like an INSERT |
| `OrderBooks.DeleteOfAbsentIdIsNoOp` | src/main/java/com/estar/customcode/processors/CurrencyOrderBook.java:67-69 | a DELETE of an absent id leaves the side unchanged and prints nothing |
| `OrderBooks.QueueHead` | src/main/java/com/estar/customcode/processors/CurrencyOrderBook.java:103-104 | the head of the queue is absent exactly when the side is empty; otherwise it is one of the side's prices, and no price of the side comes before it in the queue's order |
| `OrderBooks.UpdateBestValues` | src/main/java/com/estar/customcode/processors/CurrencyOrderBook.java:91-110 | only the chosen side's best value is recomputed, as the head of that side with the lowest price first for buy and the highest first for sell; both sides' prices are unchanged |
| `OrderBooks.ManageOrder` | src/main/java/com/estar/customcode/processors/CurrencyOrderBook.java:47-60 | an ask price updates only the buy side and its best value; a bid price updates only the sell side and its best value |
| `OrderBooks.ManageOrderIdempotent` | src/main/java/com/estar/customcode/processors/CurrencyOrderBook.java:47-82 | applying the same action with the same price twice gives the same book as applying it once |
| `OrderBooks.Reciprocal` | src/main/java/com/estar/customcode/processors/CurrencyOrderBook.java:118-144 | the default value keeps id, instrument and quantity, flips the side, and prices at `1 / price` rounded `HALF_UP` to three decimals, which for a positive price lies within 0.0005 of `1 / price`; a zero price fails with division by zero; a missing price stays missing |
| `OrderBooks.GetBestBuy` | src/main/java/com/estar/customcode/processors/CurrencyOrderBook.java:37-39 | once the buy side has been computed, its queue head (or no price once emptied); before that, the reciprocal of the sell side's cached head, after exactly one hop |
| `OrderBooks.GetBestSell` | src/main/java/com/estar/customcode/processors/CurrencyOrderBook.java:42-44 | once the sell side has been computed, its queue head (or no price once emptied); before that, the reciprocal of the buy side's cached head, after exactly one hop |
| `OrderBooks.DefaultBestBuy` | src/main/java/com/estar/customcode/processors/CurrencyOrderBook.java:118-127 | the reciprocal of the sell side's cached head; with the sell side uncomputed too, the reciprocal of the reciprocal of the buy side's head, as the mutual calls unwind |
| `OrderBooks.DefaultBestSell` | src/main/java/com/estar/customcode/processors/CurrencyOrderBook.java:135-144 | the reciprocal of the buy side's cached head; with the buy side uncomputed too, the reciprocal of the reciprocal of the sell side's head |
| `OrderBooks.BestBuyAfterAskUpdate` | src/main/java/com/estar/customcode/processors/CurrencyOrderBook.java:37-60 | after an ask update, the best buy is absent exactly when the buy side is empty, and otherwise it is a price of the buy side at or below every other |
| `OrderBooks.BestSellAfterBidUpdate` | src/main/java/com/estar/customcode/processors/CurrencyOrderBook.java:42-60 | after a bid update, the best sell is absent exactly when the sell side is empty, and otherwise it is a price of the sell side at or above every other |
| `OrderBooks.FallbackBestBuy` | src/main/java/com/estar/customcode/processors/CurrencyOrderBook.java:118-127 | before any buy-side update, the best buy is absent when the best sell is, fails on a zero best sell, and otherwise is the best sell with its side flipped, priced within 0.0005 of its reciprocal |
| `OrderBooks.FallbackBestSell` | src/main/java/com/estar/customcode/processors/CurrencyOrderBook.java:135-144 | before any sell-side update, the best sell is absent when the best buy is, fails on a zero best buy, and otherwise is the best buy with its side flipped, priced within 0.0005 of its reciprocal |
| `OrderBooks.EmptiedSideHasNoPrice` | src/main/java/com/estar/customcode/processors/CurrencyOrderBook.java:37-69 | deleting the last buy-side price leaves no best buy and leaves the sell side untouched |
| `AdjacencyBuilder.AddEdge` | src/main/java/com/estar/customcode/algo/AdjacentVertexMapBuilder.java:36-40 | the edge is appended to its start vertex's list, which is created empty if missing; no other list changes |
| `AdjacencyBuilder.GeneratedShape` | src/main/java/com/estar/customcode/algo/AdjacentVertexMapBuilder.java:24-32 | entry `i` yields, in order, the edge base to quote weighted by `-ln(buy)` and the edge quote to base weighted by `-ln(sell)`, each rate rounded to four decimals |
| `AdjacencyBuilder.GeneratedEndpoints` | src/main/java/com/estar/customcode/algo/AdjacentVertexMapBuilder.java:30-31 | every created edge joins two different currencies of the input |
| `AdjacencyBuilder.AddEdgesAppends` | src/main/java/com/estar/customcode/algo/AdjacentVertexMapBuilder.java:36-40 | adding a run of edges appends to each vertex's list exactly that vertex's outgoing edges, in order |
| `AdjacencyBuilder.BuildAdjacency` | src/main/java/com/estar/customcode/algo/AdjacentVertexMapBuilder.java:22-40 | the loop over the entries creates a list for exactly the currencies of the input |
| `AdjacencyBuilder.BuildAdjacencyMatchesGenerated` | src/main/java/com/estar/customcode/algo/AdjacentVertexMapBuilder.java:22-40 | the keys are the currencies of the input, and each key's list is its outgoing created edges in creation order |
| `AdjacencyBuilder.Build` | src/main/java/com/estar/customcode/algo/AdjacentVertexMapBuilder.java:22-44 | the build fails exactly when some rounded rate is not positive; otherwise its keys and lists are those of the created edges |
| `AdjacencyBuilder.GeneratedWeightsAtParity` | src/main/java/com/estar/customcode/algo/AdjacentVertexMapBuilder.java:42-44 | rates in (0, 1] give edges of non-negative weight |
| `Graphs.EnumerationLength` | src/main/java/com/estar/customcode/algo/CurrencyPairGraphBuilder.java:35-37 | the vertex list has exactly one entry per adjacency key |
| `Graphs.InConcat` | src/main/java/com/estar/customcode/algo/CurrencyPairGraphBuilder.java:39-45 | an edge is in the edge list exactly when it is in the list of some listed vertex |
| `GraphBuilder.ConcatOfOutgoing` | src/main/java/com/estar/customcode/algo/CurrencyPairGraphBuilder.java:39-45 | concatenating the lists of distinct vertices gives, up to order, the edges that start at one of them |
| `GraphBuilder.BuiltEdgesAreGenerated` | src/main/java/com/estar/customcode/algo/CurrencyPairGraphBuilder.java:39-45 | the edge list is a rearrangement of all created edges, whatever the key order |
| `GraphBuilder.BuiltGraphIsWellFormed` | src/main/java/com/estar/customcode/algo/CurrencyPairGraphBuilder.java:25-45 | every listed edge sits in its start vertex's list and ends at another vertex of the graph |
| `GraphBuilder.Build` | src/main/java/com/estar/customcode/algo/CurrencyPairGraphBuilder.java:25-33 | the graph is built exactly when the rates are valid; its vertices are the keys in key order; its edges are the created edges, each once, two per instrument; there are at most four vertices; the graph is well formed |
| `EdgeRelaxer.Plus` | src/main/java/com/estar/customcode/algo/EdgeRelaxer.java:23-24 | infinity plus a weight stays infinite, and a finite distance grows by exactly the weight |
| `EdgeRelaxer.RelaxEdge` | src/main/java/com/estar/customcode/algo/EdgeRelaxer.java:23-26 | when the test holds, the end's distance becomes the start's distance plus the weight, which is strictly lower, and its predecessor becomes the start; otherwise nothing changes; no other vertex changes |
| `EdgeRelaxer.RelaxOnePass` | src/main/java/com/estar/customcode/algo/EdgeRelaxer.java:22-27 | the inner loop relaxes the listed edges one after another, in list order |
| `EdgeRelaxer.RelaxEdges` | src/main/java/com/estar/customcode/algo/EdgeRelaxer.java:20-29 | the outer loop makes one pass fewer than there are distances |
| `EdgeRelaxer.UnreachedStartRelaxesNothing` | src/main/java/com/estar/customcode/algo/EdgeRelaxer.java:23 | an edge from a vertex at infinity never passes the test |
| `EdgeRelaxer.RelaxPassesLower` | src/main/java/com/estar/customcode/algo/EdgeRelaxer.java:20-29 | relaxation never raises a distance; a changed predecessor comes with a strictly lower distance; a changed distance has as predecessor the start of a listed edge into it |
| `EdgeRelaxer.ReachedStaysReached` | src/main/java/com/estar/customcode/algo/EdgeRelaxer.java:20-29 | a finite distance stays finite through any number of passes |
| `EdgeRelaxer.RelaxPassesSupported` | src/main/java/com/estar/customcode/algo/EdgeRelaxer.java:20-29 | every vertex that got a predecessor has a finite distance bounded by its predecessor's distance plus the weight of a listed edge between them |
| `FactorFinder.FirstWeight` | src/main/java/com/estar/customcode/algo/ArbitrageFactorFinder.java:23-28 | the weight of the first edge `u -> v` in the list; none exactly when no edge joins them |
| `FactorFinder.Factor` | src/main/java/com/estar/customcode/algo/ArbitrageFactorFinder.java:17-43 | the factor is positive exactly when the summed weight of the walk's steps is negative; a walk of one vertex has factor zero |
| `FactorFinder.FindFactor` | src/main/java/com/estar/customcode/algo/ArbitrageFactorFinder.java:17-31 | the two loops add, for each step of the walk, the weight of its first matching edge, and unlog the total |
| `FactorFinder.TwoVertexWalk` | src/main/java/com/estar/customcode/algo/ArbitrageFactorFinder.java:19-29 | a walk of two vertices adds only the weight of its single step; there is no closing edge |
| `FactorFinder.NonNegativeWeights` | src/main/java/com/estar/customcode/algo/ArbitrageFactorFinder.java:17-43 | without negative weights, no walk sums below zero and no factor is positive |
| `PathFinder.InitLabels` | src/main/java/com/estar/customcode/algo/ArbitragePathFinder.java:62-66 | every vertex starts at infinity and as its own predecessor, except the source at distance zero |
| `PathFinder.Walk` | src/main/java/com/estar/customcode/algo/ArbitragePathFinder.java:91-97 | the walk starts at the edge's start, follows predecessors, repeats no vertex, and stops at the first vertex that is the start, seen earlier, or already in the walk |
| `PathFinder.Resolve` | src/main/java/com/estar/customcode/algo/ArbitragePathFinder.java:89-90 | the `start_end` key resolves exactly for two different currencies, to the pair joining them |
| `PathFinder.ScanEdge` | src/main/java/com/estar/customcode/algo/ArbitragePathFinder.java:86-101 | an edge whose end was seen changes nothing; seen vertices only grow; a recorded or replaced factor is positive and belongs to the pair of a relaxable edge; what it records is stated by `PathFinder.ScanEdgeRecords` |
| `PathFinder.ScanEdgeRecords` | src/main/java/com/estar/customcode/algo/ArbitragePathFinder.java:86-101 | an edge that fails the test changes nothing; an unseen edge that passes it marks its walk seen, and records the walk's factor for its own pair exactly when that factor is positive, replacing any earlier factor |
| `PathFinder.LastEdgeRecords` | src/main/java/com/estar/customcode/algo/ArbitragePathFinder.java:98-101 | if the last edge records a factor for a pair, the scan ends with the pair at exactly that factor |
| `PathFinder.LastEdgeSkips` | src/main/java/com/estar/customcode/algo/ArbitragePathFinder.java:85-103 | if the last edge records nothing for a pair, the pair is flagged after it exactly as before, with the same factor |
| `PathFinder.ScanEdgesKeepsLastRecord` | src/main/java/com/estar/customcode/algo/ArbitragePathFinder.java:85-103 | the scan ends with each pair at the factor of the last edge that recorded it: a later record overwrites an earlier one |
| `PathFinder.ScanEdgesFlagsOnlyRecorded` | src/main/java/com/estar/customcode/algo/ArbitragePathFinder.java:85-103 | every flagged pair carries the factor that some edge of the scan recorded for it |
| `PathFinder.ArbitrageCurrencyWithFactor` | src/main/java/com/estar/customcode/algo/ArbitragePathFinder.java:82-105 | the result holds, for every pair, the factor its last recording edge recorded, and nothing that no edge recorded; every factor is positive and witnessed by a relaxable edge |
| `PathFinder.ScanEdges` | src/main/java/com/estar/customcode/algo/ArbitragePathFinder.java:85-103 | every flagged pair has a positive factor and a listed edge between its currencies that is still relaxable; what it keeps is stated by `PathFinder.ScanKeepsLastRecords` |
| `PathFinder.ScanKeepsLastRecords` | src/main/java/com/estar/customcode/algo/ArbitragePathFinder.java:85-103 | every pair that some edge of the list records last is flagged with exactly that factor |
| `PathFinder.ScanFlagsOnlyRecords` | src/main/java/com/estar/customcode/algo/ArbitragePathFinder.java:85-103 | every flagged pair carries a factor that some edge of the list recorded for it |
| `PathFinder.FindArbitrageCurrency` | src/main/java/com/estar/customcode/algo/ArbitragePathFinder.java:61-69 | after the reset and the passes from the source, the run holds exactly the last records of the scan: each pair some edge records last, at that factor, and only pairs some edge recorded; every factor is positive |
| `PathFinder.Relaxed` | src/main/java/com/estar/customcode/algo/ArbitragePathFinder.java:61-67 | after the reset and the passes, the distances and predecessors are defined on exactly the graph's vertices and every predecessor is itself a vertex |
| `PathFinder.FlaggedPairsAreWitnessed` | src/main/java/com/estar/customcode/algo/ArbitragePathFinder.java:82-105 | every pair a run flags has an edge that the relaxed distances can still relax |
| `PathFinder.MergeMax` | src/main/java/com/estar/customcode/algo/ArbitragePathFinder.java:38-47 | the merged keys are the union; each merged factor is the larger of the two and comes from one of them |
| `PathFinder.Runs` | src/main/java/com/estar/customcode/algo/ArbitragePathFinder.java:36-37 | one run per vertex, in vertex order, each flagging only positive factors |
| `PathFinder.RunAtVertex` | src/main/java/com/estar/customcode/algo/ArbitragePathFinder.java:36-37 | the run of the `k`-th vertex keeps the last records of the scan from that vertex and holds nothing else |
| `PathFinder.MergeAll` | src/main/java/com/estar/customcode/algo/ArbitragePathFinder.java:38-47 | every pair some run flags is in the merge |
| `PathFinder.GivenIsMerged` | src/main/java/com/estar/customcode/algo/ArbitragePathFinder.java:38-47 | a pair a run flags is in the merge with at least that run's factor |
| `PathFinder.MergeAllAttained` | src/main/java/com/estar/customcode/algo/ArbitragePathFinder.java:38-47 | every merged factor is the factor some run gave that pair |
| `PathFinder.MergeAllKeepsRuns` | src/main/java/com/estar/customcode/algo/ArbitragePathFinder.java:38-47 | the merge covers every run: each flagged pair is in it with at least the run's factor |
| `PathFinder.MergeAllOnlyFromRuns` | src/main/java/com/estar/customcode/algo/ArbitragePathFinder.java:38-47 | every merged pair and factor comes from some run |
| `PathFinder.CoveredKeepsRecords` | src/main/java/com/estar/customcode/algo/ArbitragePathFinder.java:38-47 | a map that covers a run also keeps the last records that run keeps |
| `PathFinder.RunKeepsRecords` | src/main/java/com/estar/customcode/algo/ArbitragePathFinder.java:36-47 | a map covering the run of the `k`-th vertex keeps every last record of the scan from that vertex |
| `PathFinder.RunsKeepRecords` | src/main/java/com/estar/customcode/algo/ArbitragePathFinder.java:34-50 | a map covering every run keeps every last record of every run |
| `PathFinder.RunsHoldOnlyRecords` | src/main/java/com/estar/customcode/algo/ArbitragePathFinder.java:34-50 | a map holding only what runs flagged holds only factors that some edge recorded in some run |
| `PathFinder.MergeAllIsMaxOverRuns` | src/main/java/com/estar/customcode/algo/ArbitragePathFinder.java:34-50 | a pair is reported exactly when some run flags it, with the largest factor any run gives it |
| `PathFinder.FindCycles` | src/main/java/com/estar/customcode/algo/ArbitragePathFinder.java:34-50 | every reported factor is positive; a graph without vertices reports nothing; every pair that some run records last is reported with at least that factor; every reported factor was recorded for its pair by an edge of some run |
| `PathFinder.FindCyclesReportsRecord` | src/main/java/com/estar/customcode/algo/ArbitragePathFinder.java:34-50 | a pair that some run records last is reported with at least that factor, so the result is not empty |
| `PathFinder.NoArbitrageWithoutNegativeWeights` | src/main/java/com/estar/customcode/algo/ArbitragePathFinder.java:34-105 | a graph without negative weights reports no pair |
| `AlgoRunner.RunAlgorithm` | src/main/java/com/estar/customcode/algo/AlgoRunner.java:12-15 | the run fails exactly when the build does; every reported factor is positive; empty data reports nothing; on the built graph, every pair some run records last is reported with at least that factor, and every reported factor was recorded by an edge of some run |
| `AlgoRunner.NoArbitrageAtOrBelowParity` | src/main/java/com/estar/customcode/algo/AlgoRunner.java:12-15 | when every rounded rate lies in (0, 1], no pair is reported |
| `ResultFormatter.Snapshot` | src/main/java/com/estar/arbitrage/ResultFormatter.java:21-22 | the element of a pair names that pair and holds its book's best buy in the bid slot and best sell in the ask slot |
| `ResultFormatter.Group` | src/main/java/com/estar/arbitrage/ResultFormatter.java:17-32 | the loop fails exactly when a pair has no book; otherwise there is one record per factor met, carrying that factor and the elements of exactly the pairs with it, in iteration order |
| `ResultFormatter.SelectMembers` | src/main/java/com/estar/arbitrage/ResultFormatter.java:19-32 | a pair's element is among those of a factor exactly when the entries hold the pair with that factor |
| `ResultFormatter.EachPairInOneGroup` | src/main/java/com/estar/arbitrage/ResultFormatter.java:19-32 | each flagged pair's element is in the record of its own factor and in no other |
| `ResultFormatter.ProcessArbitrageRecord` | src/main/java/com/estar/arbitrage/ResultFormatter.java:16-34 | it fails exactly when a pair has no book; it reports `null` exactly for no entries; otherwise it reports the whole group of the last entry's factor |
| `ResultFormatter.OnlyLastGroupReported` | src/main/java/com/estar/arbitrage/ResultFormatter.java:17-33 | for any two different pairs with books and different factors, two records are built, yet only the last entry's record is reported, holding just that pair |

## Left out

- Floating point: `Math.log`, `Math.pow` and the `double` distances are not modelled numerically. Weights and factors are exact integers, and the two real functions are parameters of which only the signs are stated.
- `FactorFinder.Factor`: its sign properties hold only under `IsUnlog`, the sign behaviour of `2^(-t) - 1` rounded up to three decimals, since the real function is a parameter.
- `PathFinder.FindCycles`: it does not state that a relaxable edge after `|V| - 1` passes implies a negative cycle (the Bellman-Ford theorem), nor the converse. What is proved is what the scan records and keeps, positivity, emptiness without negative weights and the per-pair maximum.
- `PathFinder.FlaggedPairsAreWitnessed`: it states that a witness edge exists, not that the walk it starts is a negative cycle. Without the closing edge it need not be one.
- `OrderBooks.QueueHead`: among prices that tie at the top, the model takes the one with the least id. The priority queue's choice among ties is unspecified, so the contracts state only membership and extremality of the price.
- `OrderBooks.GetBestBuy`: the contract requires that one side has been computed, because with neither side computed the Java methods recurse until the stack overflows.
- Concurrency: the lock and the concurrent maps of the order book are left out, and each operation is atomic. Concurrent calls sharing the path finder's fields are left out too.
- `PathFinder.Relaxed`: each run gets fresh distance and predecessor maps over exactly the graph's vertices. In Java the `distances` and `predecessor` fields outlive a call. The reset (ArbitragePathFinder.java:62-65) covers only the current graph's vertices, so a vertex left from an earlier graph with more currencies would still count in `distances.size() - 1` (EdgeRelaxer.java:21) and add passes. The order-book processor always builds its input from all six books, so the vertex set never changes and the fresh maps agree with the Java fields; a caller that changes the vertex set between calls is not modelled.
- The console warning for a MODIFY of an absent id is a flag in the result, not output.
- `Vertex.java` is not part of this model. Vertices are currencies compared by value. The reference test `vertex != e.getStartVertex()` in the walk agrees with that, because the start vertex is already seen when the test is reached.
- An edge from a currency to itself would give an `"A_A"` key (ArbitragePathFinder.java:89-90) that has no pair, so Java would flag the `null` key. A built graph has no such edge: every created edge joins two different currencies (`AdjacencyBuilder.GeneratedEndpoints`). The model requires it of every scanned edge (`PathFinder.Joinable`), so it has no case for the `null` key.
- `Currencies.Name`: the lookup keys are built by string concatenation, which calls `Currency.toString()` (UtilClass.java:21-22), while the adjacency builder uses `name()` (AdjacentVertexMapBuilder.java:26-27). `Currency.java` is not part of this model; one `Name` serves both, which assumes `toString()` is not overridden and returns the constant's name.
- Factor map keys are `BigDecimal`s whose `equals` compares scale too. Every factor has scale 3, so the model compares integers.
- The input maps are values: the model cannot state that Java does not mutate them.
- `ManageOrderBook`, its older version, `PriceGenerator`, `ArbitragePrinter`, `Application` and the listener interfaces are left out: they do I/O, threading or bootstrapping around the core.
- The end-to-end tests are not modelled as concrete runs, because `-ln` and `2^(-t)` are parameters of which only signs are known, so no concrete input can be evaluated. `testArbitrageFlow` (BellManFortAlgoTest.java:40-41) expects a non-empty result. The model proves that any pair some run records last is reported (`PathFinder.FindCyclesReportsRecord`, `AlgoRunner.RunAlgorithm`), but not that the test's rates produce such a record. `testNonArbitrageFlow` (BellManFortAlgoTest.java:64-79) gives `USD_GBP` the rates 1.24 and 1/1.24 (BellManFortAlgoTest.java:65-66). The rate 1.24 is above 1 and gives a negative weight, so `AlgoRunner.NoArbitrageAtOrBelowParity`, which needs every rate at or below 1, does not cover it.
