/** The backtest report and what its totals mean. */
module Report {
  import opened Domain
  import opened Repricing

  datatype TradeRecord = TradeRecord(
    ts: u64, route: seq<Hop>, notional: u64, grossProfit: i128, netProfit: i128, submitted: bool)

  datatype BacktestReport = BacktestReport(
    records: seq<TradeRecord>,
    candidatesFound: nat,
    profitableAfterCosts: nat,
    totalNetProfit: int,
    totalGrossProfit: int,
    bestNetProfit: int,
    worstNetProfit: int,
    hopHistogram: map<nat, nat>)

  const EMPTY_REPORT: BacktestReport := BacktestReport([], 0, 0, 0, 0, 0, 0, map[])

  // ---- Totals over records

  ghost function SumGross(rs: seq<TradeRecord>): int {
    if rs == [] then 0 else SumGross(rs[..|rs|-1]) + rs[|rs|-1].grossProfit
  }

  /** The records whose net profit reaches the threshold. */
  ghost function Reaching(rs: seq<TradeRecord>, minProfit: int): (kept: seq<TradeRecord>)
    ensures |kept| <= |rs|
  {
    if rs == [] then []
    else
      var rest := Reaching(rs[..|rs|-1], minProfit);
      if rs[|rs|-1].netProfit >= minProfit then rest + [rs[|rs|-1]] else rest
  }

  ghost function SumNet(rs: seq<TradeRecord>): int {
    if rs == [] then 0 else SumNet(rs[..|rs|-1]) + rs[|rs|-1].netProfit
  }

  ghost function WithHops(rs: seq<TradeRecord>, hops: nat): nat {
    if rs == [] then 0 else WithHops(rs[..|rs|-1], hops) + if |rs[|rs|-1].route| == hops then 1 else 0
  }

  ghost predicate IsMaximum(v: int, rs: seq<TradeRecord>) {
    && (exists i :: 0 <= i < |rs| && rs[i].netProfit == v)
    && (forall i :: 0 <= i < |rs| ==> rs[i].netProfit <= v)
  }

  ghost predicate IsMinimum(v: int, rs: seq<TradeRecord>) {
    && (exists i :: 0 <= i < |rs| && rs[i].netProfit == v)
    && (forall i :: 0 <= i < |rs| ==> v <= rs[i].netProfit)
  }

  /** Every total of the report is what its name says about the records. */
  ghost predicate Consistent(report: BacktestReport, minProfit: int) {
    && report.totalGrossProfit == SumGross(report.records)
    && report.profitableAfterCosts == |Reaching(report.records, minProfit)|
    && report.totalNetProfit == SumNet(Reaching(report.records, minProfit))
    && (report.records == [] ==> report.bestNetProfit == 0 && report.worstNetProfit == 0)
    && (report.records != [] ==>
          IsMaximum(report.bestNetProfit, report.records) && IsMinimum(report.worstNetProfit, report.records))
    && (forall h: nat :: h in report.hopHistogram <==> WithHops(report.records, h) > 0)
    && (forall h: nat :: h in report.hopHistogram ==> report.hopHistogram[h] == WithHops(report.records, h))
    && |report.records| <= report.candidatesFound
  }

  /** Adds one sized trade to the report. */
  method Record(report: BacktestReport, record: TradeRecord, ghost minProfit: int) returns (after: BacktestReport)
    requires Consistent(report, minProfit) && |report.records| < report.candidatesFound
    requires record.submitted <==> record.netProfit >= minProfit
    ensures Consistent(after, minProfit)
    ensures after.records == report.records + [record]
    ensures after.candidatesFound == report.candidatesFound
  {
    after := report;
    if record.submitted {
      after := after.(profitableAfterCosts := after.profitableAfterCosts + 1,
                      totalNetProfit := after.totalNetProfit + record.netProfit);
    }
    after := after.(totalGrossProfit := after.totalGrossProfit + record.grossProfit);
    if after.records == [] {
      after := after.(bestNetProfit := record.netProfit, worstNetProfit := record.netProfit);
    } else {
      after := after.(
        bestNetProfit := if record.netProfit > after.bestNetProfit then record.netProfit else after.bestNetProfit,
        worstNetProfit := if record.netProfit < after.worstNetProfit then record.netProfit else after.worstNetProfit);
    }
    var h := |record.route|;
    var count := if h in after.hopHistogram then after.hopHistogram[h] else 0;
    after := after.(hopHistogram := after.hopHistogram[h := count + 1]);
    after := after.(records := after.records + [record]);
    RecordKeepsConsistent(report, record, after, minProfit);
  }

  lemma MaximumGrows(v: int, rs: seq<TradeRecord>, record: TradeRecord)
    requires rs != [] ==> IsMaximum(v, rs)
    ensures IsMaximum(if rs == [] || record.netProfit > v then record.netProfit else v, rs + [record])
  {
    var longer := rs + [record];
    assert longer[|rs|] == record;
    if rs != [] {
      var i :| 0 <= i < |rs| && rs[i].netProfit == v;
      assert longer[i] == rs[i];
    }
  }

  lemma MinimumGrows(v: int, rs: seq<TradeRecord>, record: TradeRecord)
    requires rs != [] ==> IsMinimum(v, rs)
    ensures IsMinimum(if rs == [] || record.netProfit < v then record.netProfit else v, rs + [record])
  {
    var longer := rs + [record];
    assert longer[|rs|] == record;
    if rs != [] {
      var i :| 0 <= i < |rs| && rs[i].netProfit == v;
      assert longer[i] == rs[i];
    }
  }

  lemma HopsGrow(rs: seq<TradeRecord>, record: TradeRecord, h: nat)
    ensures WithHops(rs + [record], h) == WithHops(rs, h) + if |record.route| == h then 1 else 0
  {
    assert (rs + [record])[..|rs|] == rs;
  }

  lemma TotalsGrow(rs: seq<TradeRecord>, record: TradeRecord, minProfit: int)
    ensures SumGross(rs + [record]) == SumGross(rs) + record.grossProfit
    ensures SumNet(rs + [record]) == SumNet(rs) + record.netProfit
    ensures Reaching(rs + [record], minProfit)
            == Reaching(rs, minProfit) + if record.netProfit >= minProfit then [record] else []
  {
    assert (rs + [record])[..|rs|] == rs;
  }

  lemma RecordKeepsConsistent(report: BacktestReport, record: TradeRecord, after: BacktestReport, minProfit: int)
    requires Consistent(report, minProfit) && |report.records| < report.candidatesFound
    requires record.submitted <==> record.netProfit >= minProfit
    requires after.records == report.records + [record] && after.candidatesFound == report.candidatesFound
    requires after.totalGrossProfit == report.totalGrossProfit + record.grossProfit
    requires after.profitableAfterCosts == report.profitableAfterCosts + if record.submitted then 1 else 0
    requires after.totalNetProfit == report.totalNetProfit + if record.submitted then record.netProfit else 0
    requires after.bestNetProfit
             == if report.records == [] || record.netProfit > report.bestNetProfit then record.netProfit
                else report.bestNetProfit
    requires after.worstNetProfit
             == if report.records == [] || record.netProfit < report.worstNetProfit then record.netProfit
                else report.worstNetProfit
    requires var h := |record.route|;
             after.hopHistogram
             == report.hopHistogram[h := (if h in report.hopHistogram then report.hopHistogram[h] else 0) + 1]
    ensures Consistent(after, minProfit)
  {
    var rs := report.records;
    TotalsGrow(rs, record, minProfit);
    TotalsGrow(Reaching(rs, minProfit), record, minProfit);
    MaximumGrows(report.bestNetProfit, rs, record);
    MinimumGrows(report.worstNetProfit, rs, record);
    forall h: nat
      ensures h in after.hopHistogram <==> WithHops(after.records, h) > 0
      ensures h in after.hopHistogram ==> after.hopHistogram[h] == WithHops(after.records, h)
    {
      HopsGrow(rs, record, h);
    }
  }

  // ---- The histogram partitions the records

  ghost function HopTotal(rs: seq<TradeRecord>, below: nat): nat {
    if below == 0 then 0 else HopTotal(rs, below - 1) + WithHops(rs, below - 1)
  }

  lemma {:induction false} HopTotalGrows(rs: seq<TradeRecord>, record: TradeRecord, below: nat)
    ensures HopTotal(rs + [record], below) == HopTotal(rs, below) + if |record.route| < below then 1 else 0
  {
    if below == 0 {
    } else {
      HopTotalGrows(rs, record, below - 1);
      HopsGrow(rs, record, below - 1);
    }
  }

  lemma {:induction false} HopTotalOfNone(below: nat)
    ensures HopTotal([], below) == 0
  {
    if below == 0 {
    } else {
      HopTotalOfNone(below - 1);
    }
  }

  /** Counted by hops, the records are all there. */
  lemma {:induction false} HopsPartitionRecords(rs: seq<TradeRecord>, below: nat)
    requires forall i :: 0 <= i < |rs| ==> |rs[i].route| < below
    ensures HopTotal(rs, below) == |rs|
  {
    if rs == [] {
      HopTotalOfNone(below);
    } else {
      var init := rs[..|rs|-1];
      HopsPartitionRecords(init, below);
      HopTotalGrows(init, rs[|rs|-1], below);
      assert init + [rs[|rs|-1]] == rs;
    }
  }

  /** The counts of a histogram added up in ascending order of its keys, all below `below`. */
  ghost function CountTotal(histogram: map<nat, nat>, below: nat): nat {
    if below == 0 then 0
    else CountTotal(histogram, below - 1) + if below - 1 in histogram then histogram[below-1] else 0
  }

  lemma {:induction false} CountsAreHops(report: BacktestReport, minProfit: int, below: nat)
    requires Consistent(report, minProfit)
    ensures CountTotal(report.hopHistogram, below) == HopTotal(report.records, below)
  {
    if below == 0 {
    } else {
      CountsAreHops(report, minProfit, below - 1);
      assert below - 1 in report.hopHistogram <==> WithHops(report.records, below - 1) > 0;
    }
  }

  lemma {:induction false} RecordHasHops(rs: seq<TradeRecord>, i: nat)
    requires i < |rs|
    ensures WithHops(rs, |rs[i].route|) > 0
  {
    if i == |rs| - 1 {
    } else {
      RecordHasHops(rs[..|rs|-1], i);
    }
  }

  /** The counts of a consistent report's histogram add up to the number of its records. */
  lemma HistogramCountsRecords(report: BacktestReport, minProfit: int, below: nat)
    requires Consistent(report, minProfit)
    requires forall h: nat :: h in report.hopHistogram ==> h < below
    ensures CountTotal(report.hopHistogram, below) == |report.records|
  {
    var rs := report.records;
    forall i | 0 <= i < |rs| ensures |rs[i].route| < below {
      RecordHasHops(rs, i);
      assert |rs[i].route| in report.hopHistogram;
    }
    CountsAreHops(report, minProfit, below);
    HopsPartitionRecords(rs, below);
  }
}
