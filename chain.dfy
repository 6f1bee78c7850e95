/**
 * The block and transaction records delivered by the chain client with full
 * transaction payloads. Every gas quantity is an unsigned arbitrary-precision
 * integer (a BigInt in the source), so it is a `nat` here.
 */
module Chain {
  import opened Wrappers

  /** A transaction of a block: its hash and the gas it declares. */
  datatype Tx = Tx(hash: string, gas: nat)

  /**
   * A block as received. `transactions` is `None` when the payload carries no
   * transaction list; an empty list is `Some([])`, which JavaScript treats as
   * present (an empty array is truthy).
   */
  datatype Block = Block(number: nat, gasUsed: nat, gasLimit: nat, transactions: Option<seq<Tx>>)

  /** There is a latest block and it carries a transaction list (`block?.transactions` is truthy). */
  predicate HasTransactionList(latest: Option<Block>)
  {
    latest.Some? && latest.value.transactions.Some?
  }

  /**
   * The only inputs for which the block metrics can be evaluated without the
   * BigInt division raising: whenever a transaction list is present, the
   * block's gas limit is positive.
   */
  predicate DivisionDefined(latest: Option<Block>)
  {
    HasTransactionList(latest) ==> latest.value.gasLimit > 0
  }
}
