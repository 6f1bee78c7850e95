/**
 * What the monitor derives from the latest block for display: the block
 * metrics, the transaction count, and the ten transactions with the most gas,
 * each with its 1-based rank and its floor percentage of the block's gas limit.
 * The ranking is derived only when metrics are available.
 */
module BlockView {
  import opened Wrappers
  import opened Chain
  import opened GasMetrics
  import opened Ranking

  /** One line of the ranked view. */
  datatype RankedRow = RankedRow(rank: nat, tx: Tx, percentOfLimit: nat)

  /**
   * The ranked view of `txs`: the top transactions by gas, numbered from 1,
   * each with `(tx.gas * 100n) / gasLimit`.
   */
  function RankedRows(txs: seq<Tx>, gasLimit: nat): (rows: seq<RankedRow>)
    requires gasLimit > 0
    ensures |rows| == Min(RankedCount, |txs|)
    ensures forall i :: 0 <= i < |rows| ==>
      && rows[i].rank == i + 1
      && rows[i].tx == TopByGas(txs, RankedCount)[i]
      && rows[i].percentOfLimit == PercentOf(rows[i].tx.gas, gasLimit)
  {
    var top := TopByGas(txs, RankedCount);
    seq(|top|, i requires 0 <= i < |top| => RankedRow(i + 1, top[i], PercentOf(top[i].gas, gasLimit)))
  }

  /** Down the ranked view, gas and its percentage of the limit never increase. */
  lemma RankedRowsDescend(txs: seq<Tx>, gasLimit: nat)
    requires gasLimit > 0
    ensures var rows := RankedRows(txs, gasLimit);
      forall i, j :: 0 <= i < j < |rows| ==>
        rows[i].tx.gas >= rows[j].tx.gas && rows[i].percentOfLimit >= rows[j].percentOfLimit
  {
    var rows := RankedRows(txs, gasLimit);
    var top := TopByGas(txs, RankedCount);
    forall i, j | 0 <= i < j < |rows|
      ensures rows[i].tx.gas >= rows[j].tx.gas && rows[i].percentOfLimit >= rows[j].percentOfLimit
    {
      assert rows[i].tx == top[i] && rows[j].tx == top[j];
      PercentMonotone(rows[j].tx.gas, rows[i].tx.gas, gasLimit);
    }
  }

  /** Everything derived from the latest block. */
  datatype View = View(metrics: Metrics, transactionCount: nat, ranking: seq<RankedRow>)

  /**
   * The view of the latest block, or `None` (nothing is shown) when there is
   * no block or it has no transaction list. The ranking uses the gas limit
   * carried by the metrics, which is the block's own.
   */
  function LatestBlockView(latest: Option<Block>): (v: Option<View>)
    requires DivisionDefined(latest)
    ensures v.None? <==> !HasTransactionList(latest)
    ensures v.Some? ==> v.value.metrics.totalGasUsed == latest.value.gasUsed
    ensures v.Some? ==> v.value.metrics.gasLimit == latest.value.gasLimit
    ensures v.Some? ==> CalculateGasMetrics(latest) == Some(v.value.metrics)
    ensures v.Some? ==>
      v.value.metrics.usagePercent * latest.value.gasLimit <= 100 * latest.value.gasUsed
        < (v.value.metrics.usagePercent + 1) * latest.value.gasLimit
    ensures v.Some? ==> v.value.transactionCount == |latest.value.transactions.value|
    ensures v.Some? ==>
      v.value.ranking == RankedRows(latest.value.transactions.value, latest.value.gasLimit)
  {
    match CalculateGasMetrics(latest)
    case None => None
    case Some(metrics) =>
      var txs := latest.value.transactions.value;
      Some(View(metrics, |txs|, RankedRows(txs, metrics.gasLimit)))
  }
}
