/** The best records of a report, by net profit with ties broken by position. */
module Ranking {
  import opened Report

  /** Record `a` comes before record `b` in the ranking. */
  predicate Outranks(rs: seq<TradeRecord>, a: nat, b: nat)
    requires a < |rs| && b < |rs|
  {
    rs[a].netProfit > rs[b].netProfit || (rs[a].netProfit == rs[b].netProfit && a < b)
  }

  /** A ranking of the first `k` records: each of them once, in strict ranking order. */
  ghost predicate RanksFirst(rs: seq<TradeRecord>, k: nat, order: seq<nat>)
    requires k <= |rs|
  {
    && (forall i :: 0 <= i < |order| ==> order[i] < k)
    && (forall i, j :: 0 <= i < j < |order| ==> Outranks(rs, order[i], order[j]))
    && (forall r :: 0 <= r < k ==> r in order)
  }

  /** Inserts a later record behind everything it does not beat, as a stable sort does. */
  method Insert(rs: seq<TradeRecord>, order: seq<nat>, k: nat) returns (longer: seq<nat>)
    requires k < |rs| && RanksFirst(rs, k, order)
    ensures RanksFirst(rs, k + 1, longer)
  {
    var at := |order|;
    while at > 0 && rs[order[at-1]].netProfit < rs[k].netProfit
      invariant 0 <= at <= |order|
      invariant forall i :: at <= i < |order| ==> Outranks(rs, k, order[i])
    {
      at := at - 1;
    }
    longer := order[..at] + [k] + order[at..];
    InsertedInOrder(rs, order, k, at);
  }

  lemma InsertedInOrder(rs: seq<TradeRecord>, order: seq<nat>, k: nat, at: nat)
    requires k < |rs| && at <= |order| && RanksFirst(rs, k, order)
    requires forall i :: at <= i < |order| ==> Outranks(rs, k, order[i])
    requires at > 0 ==> Outranks(rs, order[at-1], k)
    ensures RanksFirst(rs, k + 1, order[..at] + [k] + order[at..])
  {
    var longer := order[..at] + [k] + order[at..];
    assert longer[at] == k;
    forall i | 0 <= i < at ensures Outranks(rs, order[i], k) {
      if i < at - 1 {
        assert Outranks(rs, order[i], order[at-1]);
      }
    }
    forall r | 0 <= r < k + 1 ensures r in longer {
      if r < k {
        assert r in order;
        var i :| 0 <= i < |order| && order[i] == r;
        assert longer[if i < at then i else i + 1] == r;
      }
    }
  }

  /** The `n` best records, best first: exactly the n first of the full ranking, so every
      record left out is outranked by every record returned. */
  method TopByNetProfit(rs: seq<TradeRecord>, n: nat) returns (top: seq<nat>)
    ensures |top| <= n && (|top| < n ==> forall r :: 0 <= r < |rs| ==> r in top)
    ensures forall i :: 0 <= i < |top| ==> top[i] < |rs|
    ensures forall i, j :: 0 <= i < j < |top| ==>
              || rs[top[i]].netProfit > rs[top[j]].netProfit
              || (rs[top[i]].netProfit == rs[top[j]].netProfit && top[i] < top[j])
    ensures forall r, i :: 0 <= r < |rs| && r !in top && 0 <= i < |top| ==>
              || rs[top[i]].netProfit > rs[r].netProfit
              || (rs[top[i]].netProfit == rs[r].netProfit && top[i] < r)
  {
    var indices: seq<nat> := [];
    for k := 0 to |rs|
      invariant RanksFirst(rs, k, indices)
    {
      indices := Insert(rs, indices, k);
    }
    top := if n < |indices| then indices[..n] else indices;
    forall r, i | 0 <= r < |rs| && r !in top && 0 <= i < |top| ensures Outranks(rs, top[i], r) {
      var rest := indices[|top|..];
      assert indices == top + rest && r in indices;
      var j :| 0 <= j < |rest| && rest[j] == r;
      assert indices[|top|+j] == r && indices[i] == top[i];
    }
    forall i, j | 0 <= i < j < |top| ensures Outranks(rs, top[i], top[j]) {
      assert Outranks(rs, indices[i], indices[j]);
    }
  }
}
