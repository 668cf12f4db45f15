/**
 * dex/dex_analysis.py: `analyze_tickers_with_market_data(tickers)`. The
 * ticker histogram (`Counter`), the most-mentioned ticker (`max` with the
 * count as key) and the consistency score are functions; the loop that asks
 * the market-data service about each distinct ticker and fills
 * `ticker_analysis` is a method. The service's answers are an input, and
 * the score is an exact fraction.
 */
module DexAnalysis {
  import opened Twitter

  /** An exact fraction num / den. */
  datatype Ratio = Ratio(num: nat, den: nat)

  /** One pair of a search answer; absent JSON keys are None. */
  datatype Liquidity = Liquidity(usd: Option<real>)
  datatype Pair = Pair(priceUsd: Option<string>, liquidity: Option<Liquidity>,
                       marketCap: Option<real>, fdv: Option<real>)

  /** What `requests.get` gives for one ticker: a status code with the
      `pairs` of the body (an empty list when the key is absent), or an
      exception. */
  datatype DexResponse = Http(status: int, pairs: seq<Pair>) | RequestRaised

  /** The four fields kept of a pair. */
  datatype Entry = Entry(priceUsd: Option<string>, liquidityUsd: real, marketCap: real, fdv: real)

  datatype TickerReport = TickerReport(mentions: nat, entries: seq<Entry>)

  datatype Analysis = Analysis(score: Ratio, tickerAnalysis: map<string, TickerReport>)

  /** The function either returns its pair of results or raises. */
  datatype Outcome = Returned(analysis: Analysis) | Raised

  const MAX_ENTRIES: nat := 3

  /** ---------- Counter(tickers) ---------- */

  /** Occurrences of `t` in `ts`. */
  function Count(ts: seq<string>, t: string): nat
    decreases |ts|
  {
    if ts == [] then 0
    else Count(ts[..|ts| - 1], t) + (if ts[|ts| - 1] == t then 1 else 0)
  }

  /** The keys of the Counter in insertion order: each ticker once, in the
      order of its first occurrence. */
  function Distinct(ts: seq<string>): (ds: seq<string>)
    ensures forall t :: t in ds <==> t in ts
    ensures forall i, j :: 0 <= i < j < |ds| ==> ds[i] != ds[j]
    decreases |ts|
  {
    if ts == [] then []
    else
      var d := Distinct(ts[..|ts| - 1]);
      if ts[|ts| - 1] in d then d else d + [ts[|ts| - 1]]
  }

  /** The position of the first occurrence of `t` in `ts`. */
  function FirstIndex(ts: seq<string>, t: string): (k: nat)
    requires t in ts
    ensures k < |ts| && ts[k] == t
    ensures forall j :: 0 <= j < k ==> ts[j] != t
    decreases |ts|
  {
    if ts[0] == t then 0 else 1 + FirstIndex(ts[1..], t)
  }

  /** A first occurrence is unique. */
  lemma FirstIndexIs(ts: seq<string>, t: string, k: nat)
    requires k < |ts| && ts[k] == t
    requires forall j :: 0 <= j < k ==> ts[j] != t
    ensures FirstIndex(ts, t) == k
  {
  }

  /** The Counter's keys come in the order in which the tickers are first
      mentioned. */
  lemma {:induction false} DistinctInFirstSeenOrder(ts: seq<string>)
    ensures forall i, j :: 0 <= i < j < |Distinct(ts)| ==>
              FirstIndex(ts, Distinct(ts)[i]) < FirstIndex(ts, Distinct(ts)[j])
    decreases |ts|
  {
    if ts != [] {
      var n := |ts| - 1;
      var p, x := ts[..n], ts[n];
      assert ts == p + [x];
      DistinctInFirstSeenOrder(p);
      var d := Distinct(p);
      forall y | y in p
        ensures FirstIndex(ts, y) == FirstIndex(p, y)
      {
        FirstIndexIs(ts, y, FirstIndex(p, y));
      }
      if x !in d {
        FirstIndexIs(ts, x, n);
        forall i | 0 <= i < |d|
          ensures FirstIndex(ts, d[i]) < n
        {
          assert d[i] in p;
        }
      }
    }
  }

  /** sum(ticker_counts.values()) over the keys `ds`. */
  function SumCounts(ds: seq<string>, ts: seq<string>): nat
    decreases |ds|
  {
    if ds == [] then 0 else SumCounts(ds[..|ds| - 1], ts) + Count(ts, ds[|ds| - 1])
  }

  /** `max(ticker_counts, key=ticker_counts.get)` over the keys `ds`: the
      first key whose count no other key exceeds. */
  function ArgMax(ds: seq<string>, ts: seq<string>): (best: string)
    requires ds != []
    ensures best in ds
    ensures forall i :: 0 <= i < |ds| ==> Count(ts, ds[i]) <= Count(ts, best)
    ensures forall i :: 0 <= i < |ds| && ds[i] != best && Count(ts, ds[i]) == Count(ts, best) ==>
              exists j :: 0 <= j < i && ds[j] == best
    decreases |ds|
  {
    if |ds| == 1 then ds[0]
    else
      var b := ArgMax(ds[..|ds| - 1], ts);
      if Count(ts, ds[|ds| - 1]) > Count(ts, b) then ds[|ds| - 1] else b
  }

  /** The consistency score: count of the most-mentioned ticker over the
      sum of all counts, or 0 without tickers. */
  function Score(ts: seq<string>): (r: Ratio)
    ensures ts == [] ==> r == Ratio(0, 1)
    ensures ts != [] ==> r.den == |ts| && r.num == Count(ts, ArgMax(Distinct(ts), ts))
  {
    CountsSumToLength(ts);
    assert ts != [] ==> ts[0] in Distinct(ts);
    var ds := Distinct(ts);
    if ds == [] then Ratio(0, 1) else Ratio(Count(ts, ArgMax(ds, ts)), SumCounts(ds, ts))
  }

  /** ---------- properties of the histogram and of the score ---------- */

  lemma {:induction false} CountBound(ts: seq<string>, t: string)
    ensures Count(ts, t) <= |ts|
    ensures t in ts <==> Count(ts, t) > 0
    decreases |ts|
  {
    if ts != [] {
      CountBound(ts[..|ts| - 1], t);
      assert ts == ts[..|ts| - 1] + [ts[|ts| - 1]];
    }
  }

  /** Adding one occurrence of an element of `ds` adds one to the sum of counts. */
  lemma {:induction false} SumCountsAppend(ds: seq<string>, ts: seq<string>, x: string)
    requires forall i, j :: 0 <= i < j < |ds| ==> ds[i] != ds[j]
    ensures SumCounts(ds, ts + [x]) == SumCounts(ds, ts) + (if x in ds then 1 else 0)
    decreases |ds|
  {
    if ds != [] {
      var n := |ds| - 1;
      SumCountsAppend(ds[..n], ts, x);
      assert (ts + [x])[..|ts + [x]| - 1] == ts;
      assert x in ds <==> x in ds[..n] || x == ds[n];
    }
  }

  lemma SumCountsPush(ds: seq<string>, x: string, ts: seq<string>)
    ensures SumCounts(ds + [x], ts) == SumCounts(ds, ts) + Count(ts, x)
  {
    assert (ds + [x])[..|ds|] == ds;
  }

  /** The counts sum to the number of tickers. */
  lemma {:induction false} CountsSumToLength(ts: seq<string>)
    ensures SumCounts(Distinct(ts), ts) == |ts|
    decreases |ts|
  {
    if ts != [] {
      var n := |ts| - 1;
      var p, x := ts[..n], ts[n];
      assert ts == p + [x];
      CountsSumToLength(p);
      var d := Distinct(p);
      SumCountsAppend(d, p, x);
      if x !in d {
        SumCountsPush(d, x, ts);
        CountBound(p, x);
      }
    }
  }

  /** A sum of counts none of which exceeds `m` is at most |ds| * m. */
  lemma {:induction false} SumCountsBound(ds: seq<string>, ts: seq<string>, m: nat)
    requires forall i :: 0 <= i < |ds| ==> Count(ts, ds[i]) <= m
    ensures SumCounts(ds, ts) <= |ds| * m
    decreases |ds|
  {
    if ds != [] {
      var n := |ds| - 1;
      assert forall i :: 0 <= i < n ==> ds[..n][i] == ds[i];
      SumCountsBound(ds[..n], ts, m);
      assert n * m + m == (n + 1) * m;
    }
  }

  /** Without tickers the score is 0; otherwise it lies between
      1 / (number of distinct tickers) and 1, its denominator being the
      number of tickers. */
  lemma ScoreBounds(ts: seq<string>)
    ensures ts == [] ==> Score(ts) == Ratio(0, 1)
    ensures ts != [] ==>
      && Score(ts).den == |ts|
      && 0 < Score(ts).num <= Score(ts).den
      && Score(ts).den <= Score(ts).num * |Distinct(ts)|
  {
    if ts != [] {
      assert ts[0] in Distinct(ts);
      var ds := Distinct(ts);
      var best := ArgMax(ds, ts);
      CountsSumToLength(ts);
      CountBound(ts, best);
      SumCountsBound(ds, ts, Count(ts, best));
    }
  }

  /** The most-mentioned ticker is one with the largest count, the first
      seen in the input when several tie. */
  lemma MostMentionedIsFirstMaximal(ts: seq<string>, t: string)
    requires t in ts
    ensures Count(ts, t) <= Count(ts, ArgMax(Distinct(ts), ts))
    ensures Count(ts, t) == Count(ts, ArgMax(Distinct(ts), ts)) && t != ArgMax(Distinct(ts), ts) ==>
              FirstIndex(ts, ArgMax(Distinct(ts), ts)) < FirstIndex(ts, t)
    ensures Count(ts, t) == Count(ts, ArgMax(Distinct(ts), ts)) && t != ArgMax(Distinct(ts), ts) ==>
              exists j, k :: 0 <= j < k < |Distinct(ts)| && Distinct(ts)[j] == ArgMax(Distinct(ts), ts)
                             && Distinct(ts)[k] == t
  {
    var ds := Distinct(ts);
    var best := ArgMax(ds, ts);
    var i :| 0 <= i < |ds| && ds[i] == t;
    if Count(ts, t) == Count(ts, best) && t != best {
      var j :| 0 <= j < i && ds[j] == best;
      DistinctInFirstSeenOrder(ts);
    }
  }

  /** The Counter keys of ["$PIG", "$PIG", "$DOGE"]. */
  lemma ExampleDistinct()
    ensures Distinct(["$PIG", "$PIG", "$DOGE"]) == ["$PIG", "$DOGE"]
  {
    var ts := ["$PIG", "$PIG", "$DOGE"];
    assert ts[..2] == ["$PIG", "$PIG"] && ts[..2][..1] == ["$PIG"] && ["$PIG"][..0] == [];
    assert Distinct(ts[..2]) == ["$PIG"];
  }

  /** The Counter values of ["$PIG", "$PIG", "$DOGE"]. */
  lemma ExampleCounts()
    ensures Count(["$PIG", "$PIG", "$DOGE"], "$PIG") == 2
    ensures Count(["$PIG", "$PIG", "$DOGE"], "$DOGE") == 1
  {
    var ts := ["$PIG", "$PIG", "$DOGE"];
    assert ts[..2] == ["$PIG", "$PIG"] && ts[..2][..1] == ["$PIG"] && ["$PIG"][..0] == [];
    assert Count(ts[..2], "$PIG") == 2 && Count(ts[..2], "$DOGE") == 0;
  }

  /** Over the keys ["$PIG", "$DOGE"], $PIG is the most mentioned and the
      counts sum to 3. */
  lemma ExampleArgMax()
    ensures ArgMax(["$PIG", "$DOGE"], ["$PIG", "$PIG", "$DOGE"]) == "$PIG"
    ensures SumCounts(["$PIG", "$DOGE"], ["$PIG", "$PIG", "$DOGE"]) == 3
  {
    var ds := ["$PIG", "$DOGE"];
    ExampleCounts();
    assert ds[..1] == ["$PIG"] && ["$PIG"][..0] == [];
  }

  /** ["$PIG", "$PIG", "$DOGE"] scores 2/3, with $PIG the most mentioned. */
  lemma ScoreExample()
    ensures ArgMax(Distinct(["$PIG", "$PIG", "$DOGE"]), ["$PIG", "$PIG", "$DOGE"]) == "$PIG"
    ensures Score(["$PIG", "$PIG", "$DOGE"]) == Ratio(2, 3)
  {
    ExampleDistinct();
    ExampleCounts();
    ExampleArgMax();
  }

  /** ---------- the market-data loop ---------- */

  function EntryOf(p: Pair): Entry
    requires p.liquidity.Some?
  {
    Entry(p.priceUsd,
          match p.liquidity.value.usd case Some(v) => v case None => 0.0,
          match p.marketCap case Some(v) => v case None => 0.0,
          match p.fdv case Some(v) => v case None => 0.0)
  }

  /** The first three pairs of an answer, as the loop reads them. */
  function FirstPairs(r: DexResponse): seq<Pair>
    requires r.Http?
  {
    Prefix(r.pairs, MAX_ENTRIES)
  }

  /** `pair["liquidity"]` raises a KeyError on a pair without that key. */
  predicate ResponseRaises(r: DexResponse)
  {
    r.RequestRaised? || (r.status == 200 && exists p :: p in FirstPairs(r) && p.liquidity.None?)
  }

  /** The entries kept for a 200 answer. */
  function Entries(r: DexResponse): (es: seq<Entry>)
    requires r.Http? && r.status == 200 && !ResponseRaises(r)
    ensures |es| == |FirstPairs(r)| <= MAX_ENTRIES
  {
    var ps := FirstPairs(r);
    seq(|ps|, i requires 0 <= i < |ps| => assert ps[i] in ps; EntryOf(ps[i]))
  }

  /** The entries of the first pairs, one loop iteration per pair. */
  method CollectEntries(pairs: seq<Pair>) returns (entries: Option<seq<Entry>>)
    ensures entries.None? <==> exists p :: p in pairs && p.liquidity.None?
    ensures entries.Some? ==>
              && |entries.value| == |pairs|
              && (forall i :: 0 <= i < |pairs| ==> pairs[i].liquidity.Some? && entries.value[i] == EntryOf(pairs[i]))
  {
    var es: seq<Entry> := [];
    var k := 0;
    while k < |pairs|
      invariant 0 <= k <= |pairs| && |es| == k
      invariant forall i :: 0 <= i < k ==> pairs[i].liquidity.Some? && es[i] == EntryOf(pairs[i])
    {
      if pairs[k].liquidity.None? {
        return None;
      }
      es := es + [EntryOf(pairs[k])];
      k := k + 1;
    }
    return Some(es);
  }

  /** analyze_tickers_with_market_data(tickers), `lookup` giving the market
      service's answer for each ticker. It raises when a request or a pair
      of a 200 answer does; otherwise every distinct ticker with a 200 answer
      is reported with its count and at most three entries, every other
      ticker is left out, and the score depends on the counts only. */
  method AnalyzeTickersWithMarketData(tickers: seq<string>, lookup: string -> DexResponse)
    returns (out: Outcome)
    ensures out.Raised? <==> exists t :: t in tickers && ResponseRaises(lookup(t))
    ensures out.Returned? ==> out.analysis.score == Score(tickers)
    ensures out.Returned? ==> forall t :: t in out.analysis.tickerAnalysis <==>
              t in tickers && lookup(t).Http? && lookup(t).status == 200
    ensures out.Returned? ==> forall t :: t in out.analysis.tickerAnalysis ==>
              && out.analysis.tickerAnalysis[t].mentions == Count(tickers, t)
              && out.analysis.tickerAnalysis[t].entries == Entries(lookup(t))
              && |out.analysis.tickerAnalysis[t].entries| <= MAX_ENTRIES
  {
    var ds := Distinct(tickers);
    var report: map<string, TickerReport> := map[];
    var i := 0;
    while i < |ds|
      invariant 0 <= i <= |ds|
      invariant forall j :: 0 <= j < i ==> !ResponseRaises(lookup(ds[j]))
      invariant forall t :: t in report <==>
                  t in ds[..i] && lookup(t).Http? && lookup(t).status == 200
      invariant forall t :: t in report ==>
                  t in ds[..i] && lookup(t).Http? && lookup(t).status == 200 && !ResponseRaises(lookup(t))
                  && report[t] == TickerReport(Count(tickers, t), Entries(lookup(t)))
    {
      var t := ds[i];
      var response := lookup(t);
      if response.RequestRaised? {
        return Raised;
      }
      if response.status == 200 {
        var entries := CollectEntries(FirstPairs(response));
        if entries.None? {
          return Raised;
        }
        assert entries.value == Entries(response);
        report := report[t := TickerReport(Count(tickers, t), entries.value)];
      }
      assert ds[..i + 1] == ds[..i] + [t];
      i := i + 1;
    }
    assert ds[..i] == ds;
    forall t | t in tickers ensures !ResponseRaises(lookup(t)) {
      var j :| 0 <= j < |ds| && ds[j] == t;
    }
    var score := Ratio(0, 1);
    if ds != [] {
      var best := ArgMax(ds, tickers);
      score := Ratio(Count(tickers, best), SumCounts(ds, tickers));
    }
    return Returned(Analysis(score, report));
  }
}
