/**
 * Block-level gas metrics: a pass-through of the block's gas used and gas
 * limit, and the usage percentage computed in the integer domain by
 * multiplying by 100 before dividing.
 */
module GasMetrics {
  import opened Wrappers
  import opened Chain

  /**
   * `(part * 100n) / limit` on non-negative BigInts. BigInt division truncates
   * toward zero, which for non-negative operands is floor division, so the
   * result is the unique `p` with `p * limit <= 100 * part < (p + 1) * limit`.
   */
  function PercentOf(part: nat, limit: nat): (p: nat)
    requires limit > 0
    ensures p * limit <= 100 * part < (p + 1) * limit
  {
    FloorDivision(part * 100, limit);
    (part * 100) / limit
  }

  lemma FloorDivision(n: nat, d: nat)
    requires d > 0
    ensures (n / d) * d <= n < (n / d + 1) * d
  {
    assert n == (n / d) * d + n % d;
  }

  /** The floor is the only value within those bounds. */
  lemma PercentIsUnique(part: nat, limit: nat, q: nat)
    requires limit > 0
    requires q * limit <= 100 * part < (q + 1) * limit
    ensures q == PercentOf(part, limit)
  {
    var p := PercentOf(part, limit);
    if q < p {
      assert (q + 1) * limit <= p * limit by { MulMonotone(q + 1, p, limit); }
      assert false;
    } else if p < q {
      assert (p + 1) * limit <= q * limit by { MulMonotone(p + 1, q, limit); }
      assert false;
    }
  }

  lemma MulMonotone(a: nat, b: nat, c: nat)
    requires a <= b
    ensures a * c <= b * c
  {
  }

  /**
   * The percentage stays below 100 exactly when less gas was used than the
   * limit, is exactly 100 when the limit is met, and can exceed 100 only when
   * the block used more gas than its limit.
   */
  lemma PercentAgainstLimit(part: nat, limit: nat)
    requires limit > 0
    ensures PercentOf(part, limit) < 100 <==> part < limit
    ensures part <= limit ==> PercentOf(part, limit) <= 100
    ensures part == limit ==> PercentOf(part, limit) == 100
    ensures PercentOf(part, limit) > 100 ==> part > limit
  {
    var p := PercentOf(part, limit);
    if p < 100 {
      assert (p + 1) * limit <= 100 * limit by { MulMonotone(p + 1, 100, limit); }
    }
    if part < limit && p >= 100 {
      assert 100 * limit <= p * limit by { MulMonotone(100, p, limit); }
    }
    if part == limit {
      PercentIsUnique(part, limit, 100);
    }
  }

  /** More gas never gives a smaller percentage of the same limit. */
  lemma PercentMonotone(a: nat, b: nat, limit: nat)
    requires limit > 0
    requires a <= b
    ensures PercentOf(a, limit) <= PercentOf(b, limit)
  {
    var pa, pb := PercentOf(a, limit), PercentOf(b, limit);
    if pb < pa {
      assert (pb + 1) * limit <= pa * limit by { MulMonotone(pb + 1, pa, limit); }
      assert false;
    }
  }

  /**
   * Why the percentage multiplies before dividing: the divide-first value
   * `(part / limit) * 100`, which the monitor never computes, is at most the
   * floor percentage, and it can be strictly smaller (one third is 33, not 0).
   */
  lemma DivideFirstNeverExceeds(part: nat, limit: nat)
    requires limit > 0
    ensures (part / limit) * 100 <= PercentOf(part, limit)
  {
    var d := part / limit;
    FloorDivision(part, limit);
    assert (d * 100) * limit == 100 * (d * limit);
    assert (d * 100) * limit <= 100 * part;
    var p := PercentOf(part, limit);
    if p < d * 100 {
      assert (p + 1) * limit <= (d * 100) * limit by { MulMonotone(p + 1, d * 100, limit); }
      assert false;
    }
  }

  lemma DivideFirstTruncates()
    ensures (1 / 3) * 100 == 0 && PercentOf(1, 3) == 33
  {
  }

  lemma UsageExample()
    ensures PercentOf(250_000, 1_000_000) == 25
  {
  }

  /** The metrics record: gas used and limit as given, and the floor usage percentage. */
  datatype Metrics = Metrics(totalGasUsed: nat, gasLimit: nat, usagePercent: nat)

  /**
   * The metrics of the latest block, or `None` when there is no block yet or
   * the block has no transaction list.
   */
  function CalculateGasMetrics(latest: Option<Block>): (m: Option<Metrics>)
    requires DivisionDefined(latest)
    ensures m.None? <==> !HasTransactionList(latest)
    ensures m.Some? ==> m.value.totalGasUsed == latest.value.gasUsed
    ensures m.Some? ==> m.value.gasLimit == latest.value.gasLimit
    ensures m.Some? ==>
      m.value.usagePercent * m.value.gasLimit <= 100 * m.value.totalGasUsed < (m.value.usagePercent + 1) * m.value.gasLimit
  {
    if !HasTransactionList(latest) then None
    else
      var block := latest.value;
      Some(Metrics(block.gasUsed, block.gasLimit, PercentOf(block.gasUsed, block.gasLimit)))
  }

  /** A block that stays within its limit reports a usage in [0, 100]. */
  lemma UsageWithinLimit(latest: Option<Block>)
    requires DivisionDefined(latest)
    requires HasTransactionList(latest)
    requires latest.value.gasUsed <= latest.value.gasLimit
    ensures CalculateGasMetrics(latest).value.usagePercent <= 100
  {
    PercentAgainstLimit(latest.value.gasUsed, latest.value.gasLimit);
  }
}
