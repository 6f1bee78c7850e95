# Block gas monitor: metrics and ranking model

A Dafny model of the derived-data logic of a live block monitor for an
EVM-style chain. For the latest block received, the monitor does two things:

* It computes block gas metrics. It reports no metrics when there is no block
  or the block has no transaction list. Otherwise it passes the block's gas
  used and gas limit through and computes the usage percentage as
  `(gasUsed * 100n) / gasLimit`. That is BigInt arithmetic: multiply first,
  then divide, with floor division for non-negative values.
* It ranks the block's transactions by gas. It copies the list, sorts the
  copy by descending gas with a stable sort, and keeps the first ten. Each
  kept transaction is shown with its 1-based rank and
  `(tx.gas * 100n) / gasLimit`.

Modules, one per component:

* `wrappers.dfy`, module `Wrappers`: `Option`, which stands for JavaScript's `null`.
* `chain.dfy`, module `Chain`: `Tx`, `Block`, and the predicates
  `HasTransactionList` and `DivisionDefined`.
* `gas_metrics.dfy`, module `GasMetrics`: the floor percentage `PercentOf`
  and its properties, plus `CalculateGasMetrics`.
* `ranking.dfy`, module `Ranking`: the comparator, the stable sort
  `SortByGas` (an insertion sort used as the reference definition), the
  top-K cut `TopByGas`, and the sortedness, permutation, stability,
  uniqueness and maximality lemmas.
* `block_view.dfy`, module `BlockView`: the ranked rows and the combined
  view of the latest block.

Every gas quantity is a BigInt in the source, so it is a `nat` here. No
width or wrap-around is involved.

Stability is stated per gas value. `WithGas(s, g)` is the subsequence of `s`
whose gas is `g`. A stable sort keeps `WithGas(_, g)` unchanged for every
`g`. `StableSortCharacterised` proves that being sorted by descending gas
together with this per-value order determines the result completely. So
any stable sort the JavaScript engine uses gives exactly `SortByGas`.

The sort runs on a spread copy of the block's list. In the model lists are
values, so the block's own list cannot change.

Division by a zero gas limit throws in the source (a BigInt `RangeError`):
there is no guard before the division at src/App.tsx:31. So whenever a
transaction list is present, the model requires `gasLimit > 0`
(`DivisionDefined`).

## Model

| member | source | states |
|---|---|---|
| `GasMetrics.PercentOf` | src/App.tsx:31 | For a positive limit, the multiply-first BigInt quotient is the floor of 100·part/limit: `p*limit <= 100*part < (p+1)*limit` |
| `GasMetrics.PercentIsUnique` | src/App.tsx:31 | Any value within those bounds equals the computed percentage, so the percentage is exactly the floor |
| `GasMetrics.PercentAgainstLimit` | src/App.tsx:31 | The percentage is below 100 iff gas used is below the limit, is 100 when they are equal, is at most 100 within the limit, and exceeds 100 only when gas used exceeds the limit |
| `GasMetrics.PercentMonotone` | src/App.tsx:31 | More gas never gives a smaller percentage of the same limit |
| `GasMetrics.DivideFirstNeverExceeds` | src/App.tsx:31 | The divide-first value `(part/limit)*100`, which the source does not compute, never exceeds the multiply-first percentage it does compute |
| `GasMetrics.DivideFirstTruncates` | src/App.tsx:31 | Concrete case where the divide-first alternative (not computed by the source) loses precision: 1 of 3 gives 0 divided first, 33 multiplied first |
| `GasMetrics.UsageExample` | src/App.tsx:31 | 250,000 gas of a 1,000,000 limit gives 25 |
| `GasMetrics.CalculateGasMetrics` | src/App.tsx:26-40 | No metrics exactly when there is no block or no transaction list; otherwise gas used and limit pass through unchanged and the usage is the floor percentage |
| `GasMetrics.UsageWithinLimit` | src/App.tsx:29-31 | A block whose gas used is within its limit reports a usage in [0, 100] |
| `Ranking.CompareByGas` | src/App.tsx:56 | The comparator's sign: negative iff the first transaction has more gas, zero iff equal, positive iff less |
| `Ranking.Insert` | src/App.tsx:56 | Inserting adds exactly one element: the result is the old list plus `x` as a multiset |
| `Ranking.InsertSorted` | src/App.tsx:56 | Inserting into a list sorted by descending gas keeps it sorted |
| `Ranking.InsertKeepsOrder` | src/App.tsx:56 | Inserting puts `x` ahead of every element of equal gas and changes no other per-gas order |
| `Ranking.SortByGas` | src/App.tsx:55-56 | The sorted copy has the input's length and multiset, and it is non-increasing in gas |
| `Ranking.SortIsStable` | src/App.tsx:55-56 | For every gas value, the transactions with that gas keep their block order in the sorted copy |
| `Ranking.SortIsStableSort` | src/App.tsx:55-56 | The sorted copy is sorted and keeps the order within every gas value |
| `Ranking.SortedStableUnique` | src/App.tsx:56 | Two lists sorted by gas that agree on the order within every gas value are equal |
| `Ranking.StableSortCharacterised` | src/App.tsx:55-56 | A list equals the stable sort of the input iff it is sorted by descending gas and keeps the input order within every gas value |
| `Ranking.TopByGas` | src/App.tsx:55-57 | The ranked view has as many entries as the smaller of `k` and the list length, is a sub-multiset of the block's transactions, and is sorted by descending gas |
| `Ranking.TopIsMaximal` | src/App.tsx:55-57 | Every transaction left out of the ranked view, counted with multiplicity, has no more gas than any transaction in it |
| `Ranking.SortedPrefixMaximal` | src/App.tsx:55-57 | In any permutation of the input sorted by descending gas, nothing outside the first n entries, counted with multiplicity, has more gas than any of them |
| `Ranking.TopIsStable` | src/App.tsx:55-57 | For every gas value, the ranked transactions with that gas are a prefix of the block's transactions with that gas, so ties, including ties at the cut-off, go to the earlier transactions |
| `Ranking.TieExample` | src/App.tsx:56 | In [a:5, b:7, c:5] the sort gives [b, a, c]: equal gas keeps block order |
| `BlockView.RankedRows` | src/App.tsx:55-62 | At most ten rows, one per top transaction in order, each with rank = position + 1 and the floor percentage of the gas limit |
| `BlockView.RankedRowsDescend` | src/App.tsx:56-59 | Down the ranked rows, gas and percentage of the limit never increase |
| `BlockView.LatestBlockView` | src/App.tsx:40-59 | Nothing is shown exactly when there is no block or no transaction list; otherwise the metrics are exactly those of `CalculateGasMetrics` (gas used and limit passed through, usage percentage within the floor bounds against the block's limit), the count is the list's length, and the ranking is computed against the block's own gas limit |

## Left out

- RPC client creation and the block subscription (`createPublicClient`, `watchBlocks`, the `unwatch` teardown; src/App.tsx:10-24) are network I/O and asynchronous callbacks into a foreign library. The latest block is an input to the model.
- React state and effect plumbing (`useState`, `setBlockDetails`, `useEffect`) is left out. The latest block replaces the previous one wholesale, so it is modelled as the input `latest: Option<Block>`.
- Floating-point conversion and formatting are left out: `Number(...)` on the BigInt quotients and `toFixed(2)`. Percentages are the exact integer quotients. `Number(b.gas - a.gas)` in the comparator keeps the sign of the difference (a non-zero BigInt never becomes zero or NaN), so the comparator is modelled as the integer difference.
- Presentation is left out: the JSX, the hash truncation `tx.hash.slice(0, 10)`, the block number display and the inline CSS (src/App.tsx:42-91).
- The JavaScript engine's own sort algorithm is not modelled. The model uses an insertion sort as the reference definition. `StableSortCharacterised` shows that every stable sort gives the same result.
- Stability is stated per gas value as equality of subsequences (`WithGas`), not through positions of individual elements. Identical transactions can occur twice, so positions would not identify an element.
- There is no bounded event buffer, no logarithmic size mapper and no burned-value (`gas * gasPrice / 10^18`) computation anywhere in src/App.tsx, so none is part of this model.
- CalculateGasMetrics, LatestBlockView: a block that has a transaction list and a zero gas limit makes the source throw a `RangeError` at src/App.tsx:31; `DivisionDefined` excludes that input, so the model does not describe the exception.
