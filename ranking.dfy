/**
 * The ranking of a block's transactions by gas: a copy of the list is sorted
 * in descending order of gas with a stable sort, and the first entries are
 * kept. The block's own list is a value here, so it is never changed.
 */
module Ranking {
  import opened Chain

  /** How many transactions the ranked view keeps (`slice(0, 10)`). */
  const RankedCount: nat := 10

  function Min(a: nat, b: nat): nat
  {
    if a <= b then a else b
  }

  /**
   * The comparator `(a, b) => b.gas - a.gas`: negative puts `a` first,
   * positive puts `b` first, zero keeps them as they are. Converting the
   * BigInt difference to a Number keeps its sign, so only the sign is used.
   */
  function CompareByGas(a: Tx, b: Tx): (c: int)
    ensures c < 0 <==> a.gas > b.gas
    ensures c == 0 <==> a.gas == b.gas
    ensures c > 0 <==> a.gas < b.gas
  {
    b.gas - a.gas
  }

  /** Non-increasing in gas from front to back. */
  predicate SortedByGasDesc(s: seq<Tx>)
  {
    forall i, j :: 0 <= i < j < |s| ==> s[i].gas >= s[j].gas
  }

  /** The transactions of `s` whose gas is `g`, in their order in `s`. */
  function WithGas(s: seq<Tx>, g: nat): seq<Tx>
  {
    if s == [] then []
    else (if s[0].gas == g then [s[0]] else []) + WithGas(s[1..], g)
  }

  /**
   * Stability as a relation between an output and an input list: for every
   * gas value, the transactions with that gas occur in both in the same order.
   */
  ghost predicate KeepsOrderPerGas(t: seq<Tx>, s: seq<Tx>)
  {
    forall g: nat :: WithGas(t, g) == WithGas(s, g)
  }

  /**
   * Inserts `x` in front of the first element that the comparator does not
   * place before `x`; in particular `x` goes ahead of every element with
   * equal gas, as it came earlier in the original list.
   */
  function Insert(x: Tx, t: seq<Tx>): (r: seq<Tx>)
    ensures |r| == |t| + 1
    ensures multiset(r) == multiset(t) + multiset{x}
  {
    if t == [] || CompareByGas(x, t[0]) <= 0 then
      assert t == [] || x.gas >= t[0].gas;
      [x] + t
    else
      assert t == [t[0]] + t[1..];
      [t[0]] + Insert(x, t[1..])
  }

  /** Inserting into a list sorted by gas keeps it sorted. */
  lemma {:induction false} InsertSorted(x: Tx, t: seq<Tx>)
    requires SortedByGasDesc(t)
    ensures SortedByGasDesc(Insert(x, t))
  {
    if t != [] && CompareByGas(x, t[0]) > 0 {
      var rest := Insert(x, t[1..]);
      InsertSorted(x, t[1..]);
      var r := [t[0]] + rest;
      assert r == Insert(x, t);
      forall i, j | 0 <= i < j < |r| ensures r[i].gas >= r[j].gas {
        if i == 0 {
          var e := rest[j - 1];
          assert e in multiset(rest);
          assert e == x || e in multiset(t[1..]);
          if e != x {
            var k :| 0 <= k < |t[1..]| && t[1..][k] == e;
            assert t[k + 1] == e;
          }
        } else {
          assert r[i] == rest[i - 1] && r[j] == rest[j - 1];
        }
      }
    }
  }

  /** The stable descending sort of a list of transactions by gas. */
  function SortByGas(s: seq<Tx>): (r: seq<Tx>)
    ensures |r| == |s|
    ensures multiset(r) == multiset(s)
    ensures SortedByGasDesc(r)
  {
    if s == [] then []
    else
      assert s == [s[0]] + s[1..];
      InsertSorted(s[0], SortByGas(s[1..]));
      Insert(s[0], SortByGas(s[1..]))
  }

  /** Inserting adds `x` ahead of every element of equal gas. */
  lemma {:induction false} InsertKeepsOrder(x: Tx, t: seq<Tx>, g: nat)
    ensures WithGas(Insert(x, t), g) == (if x.gas == g then [x] else []) + WithGas(t, g)
  {
    if t == [] || CompareByGas(x, t[0]) <= 0 {
      assert ([x] + t)[1..] == t;
    } else {
      var rest := Insert(x, t[1..]);
      assert ([t[0]] + rest)[1..] == rest;
      InsertKeepsOrder(x, t[1..], g);
    }
  }

  /**
   * Stability: for every gas value, the transactions with that gas appear in
   * the sorted list in exactly the order they have in the input.
   */
  lemma {:induction false} SortIsStable(s: seq<Tx>, g: nat)
    ensures WithGas(SortByGas(s), g) == WithGas(s, g)
  {
    if s != [] {
      InsertKeepsOrder(s[0], SortByGas(s[1..]), g);
      SortIsStable(s[1..], g);
    }
  }

  lemma {:induction false} WithGasMembers(s: seq<Tx>, g: nat, x: Tx)
    ensures x in WithGas(s, g) <==> x in s && x.gas == g
  {
    if s != [] {
      WithGasMembers(s[1..], g, x);
      assert s == [s[0]] + s[1..];
    }
  }

  /**
   * Two lists sorted by gas that agree on the order of the transactions of
   * every gas value are the same list.
   */
  lemma {:induction false} SortedStableUnique(a: seq<Tx>, b: seq<Tx>)
    requires SortedByGasDesc(a) && SortedByGasDesc(b)
    requires KeepsOrderPerGas(a, b)
    ensures a == b
  {
    if a == [] && b == [] {
    } else if a == [] {
      WithGasMembers(b, b[0].gas, b[0]);
      assert false;
    } else if b == [] {
      WithGasMembers(a, a[0].gas, a[0]);
      assert false;
    } else {
      var m, n := a[0].gas, b[0].gas;
      WithGasMembers(a, m, a[0]);
      WithGasMembers(b, m, a[0]);
      WithGasMembers(b, n, b[0]);
      WithGasMembers(a, n, b[0]);
      assert n >= m by {
        var k :| 0 <= k < |b| && b[k] == a[0];
      }
      assert m >= n by {
        var k :| 0 <= k < |a| && a[k] == b[0];
      }
      assert WithGas(a, m) == [a[0]] + WithGas(a[1..], m);
      assert WithGas(b, m) == [b[0]] + WithGas(b[1..], m);
      assert a[0] == WithGas(a, m)[0] == WithGas(b, m)[0] == b[0];
      forall g: nat ensures WithGas(a[1..], g) == WithGas(b[1..], g) {
        if g == m {
          assert WithGas(a[1..], g) == WithGas(a, g)[1..];
          assert WithGas(b[1..], g) == WithGas(b, g)[1..];
        } else {
          assert WithGas(a[1..], g) == WithGas(a, g);
          assert WithGas(b[1..], g) == WithGas(b, g);
        }
      }
      SortedStableUnique(a[1..], b[1..]);
      assert a == [a[0]] + a[1..];
      assert b == [b[0]] + b[1..];
    }
  }

  /** The sort meets both halves of the characterisation below. */
  lemma SortIsStableSort(s: seq<Tx>)
    ensures SortedByGasDesc(SortByGas(s))
    ensures KeepsOrderPerGas(SortByGas(s), s)
  {
    forall g: nat ensures WithGas(SortByGas(s), g) == WithGas(s, g) {
      SortIsStable(s, g);
    }
  }

  /**
   * The stable sort is characterised without reference to any algorithm: a
   * list is the result of stably sorting `s` by descending gas exactly when it
   * is sorted by descending gas and keeps the input order within every gas
   * value. Any stable sort, whatever its algorithm, therefore gives this result.
   */
  lemma StableSortCharacterised(s: seq<Tx>, t: seq<Tx>)
    ensures t == SortByGas(s) <==> SortedByGasDesc(t) && KeepsOrderPerGas(t, s)
  {
    var r := SortByGas(s);
    SortIsStableSort(s);
    if SortedByGasDesc(t) && KeepsOrderPerGas(t, s) {
      assert KeepsOrderPerGas(t, r);
      SortedStableUnique(t, r);
    }
  }

  /** The first `k` transactions of the stably sorted copy of `txs`. */
  function TopByGas(txs: seq<Tx>, k: nat): (top: seq<Tx>)
    ensures |top| == Min(k, |txs|)
    ensures multiset(top) <= multiset(txs)
    ensures SortedByGasDesc(top)
  {
    var sorted := SortByGas(txs);
    var n := Min(k, |txs|);
    assert sorted == sorted[..n] + sorted[n..];
    sorted[..n]
  }

  /**
   * In a permutation of `whole` sorted by gas, nothing outside the first `n`
   * entries (counted with multiplicity) has more gas than any of them.
   */
  lemma SortedPrefixMaximal(whole: seq<Tx>, sorted: seq<Tx>, n: nat)
    requires multiset(sorted) == multiset(whole)
    requires SortedByGasDesc(sorted)
    requires n <= |sorted|
    ensures forall x, i :: x in multiset(whole) - multiset(sorted[..n]) && 0 <= i < n ==> x.gas <= sorted[i].gas
  {
    var top, rest := sorted[..n], sorted[n..];
    assert sorted == top + rest;
    MultisetCancel(whole, top, rest);
    forall x, i | x in multiset(whole) - multiset(top) && 0 <= i < n ensures x.gas <= sorted[i].gas {
      assert x in multiset(rest);
      var j :| 0 <= j < |rest| && rest[j] == x;
      assert sorted[n + j] == x;
    }
  }

  /**
   * Top-K maximality: every transaction left out of the ranked view (counted
   * with multiplicity) has no more gas than any transaction in it.
   */
  lemma TopIsMaximal(txs: seq<Tx>, k: nat)
    ensures var top := TopByGas(txs, k);
      forall x, i :: x in multiset(txs) - multiset(top) && 0 <= i < |top| ==> x.gas <= top[i].gas
  {
    var sorted := SortByGas(txs);
    var n := Min(k, |txs|);
    assert TopByGas(txs, k) == sorted[..n];
    SortedPrefixMaximal(txs, sorted, n);
  }

  lemma MultisetCancel(whole: seq<Tx>, front: seq<Tx>, back: seq<Tx>)
    requires multiset(whole) == multiset(front) + multiset(back)
    ensures multiset(whole) - multiset(front) == multiset(back)
  {
  }

  lemma {:induction false} WithGasAppend(a: seq<Tx>, b: seq<Tx>, g: nat)
    ensures WithGas(a + b, g) == WithGas(a, g) + WithGas(b, g)
  {
    if a == [] {
      assert a + b == b;
    } else {
      var head := if a[0].gas == g then [a[0]] else [];
      assert (a + b)[0] == a[0];
      assert (a + b)[1..] == a[1..] + b;
      assert WithGas(a + b, g) == head + WithGas(a[1..] + b, g);
      WithGasAppend(a[1..], b, g);
      assert WithGas(a, g) == head + WithGas(a[1..], g);
    }
  }

  /**
   * Stability of the ranked view: for every gas value, the ranked
   * transactions with that gas are the first ones of that gas in block order.
   * Ties at the cut-off are therefore resolved in favour of the earlier
   * transactions of the block.
   */
  lemma TopIsStable(txs: seq<Tx>, k: nat, g: nat)
    ensures WithGas(TopByGas(txs, k), g) <= WithGas(txs, g)
  {
    var sorted, top := SortByGas(txs), TopByGas(txs, k);
    assert sorted == top + sorted[|top|..];
    WithGasAppend(top, sorted[|top|..], g);
    SortIsStable(txs, g);
  }

  /** Equal gas keeps block order: of two transactions with gas 5, the earlier stays first. */
  lemma TieExample()
    ensures SortByGas([Tx("a", 5), Tx("b", 7), Tx("c", 5)]) == [Tx("b", 7), Tx("a", 5), Tx("c", 5)]
  {
    var a, b, c := Tx("a", 5), Tx("b", 7), Tx("c", 5);
    var sbc := SortByGas([b, c]);
    assert sbc == [b, c] by {
      assert [b, c][1..] == [c];
      assert SortByGas([c]) == [c];
      assert Insert(b, [c]) == [b, c];
    }
    assert Insert(a, [b, c]) == [b, a, c] by {
      assert [b, c][1..] == [c];
      assert Insert(a, [c]) == [a, c];
    }
    assert [a, b, c][1..] == [b, c];
  }
}
