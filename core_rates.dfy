/** Per-core delta rates and their whole-system aggregation, as computed by
    the sampling cycle of the CPU monitor. Counters are cumulative
    milliseconds of CPU time; rates are percentages over exact reals. */
module CoreRates {

  /** One core's cumulative counters (the part of the OS readout the monitor uses). */
  datatype Times = Times(user: int, nice: int, sys: int, irq: int)

  /** The four values reported for one core, and for the whole system. */
  datatype CpuValues = CpuValues(total: real, sys: real, user: real, irq: real)

  /** The reported categories, used to state one property for all four fields. */
  datatype Category = Total | Sys | User | Irq

  function Get(v: CpuValues, c: Category): real
  {
    match c
    case Total => v.total
    case Sys => v.sys
    case User => v.user
    case Irq => v.irq
  }

  /** The whole-system values: the division by the core count yields NaN
      in every field when no core was measured (0 / 0). */
  datatype Average = Undefined | Defined(values: CpuValues)

  /** The raw sum the monitor treats as a core's busy time: nice counts here
      although it is never reported on its own. */
  function Busy(t: Times): int
  {
    t.user + t.nice + t.sys + t.irq
  }

  /** A counter delta over the nominal interval, as a percentage. */
  function Rate(delta: int, intervals: real): real
    requires intervals > 0.0
  {
    delta as real / intervals * 100.0
  }

  /** A rate recovers its delta: rate * interval = delta * 100, so the rate
      is the share of the interval the counter advanced, in percent. */
  lemma RateScales(delta: int, intervals: real)
    requires intervals > 0.0
    ensures Rate(delta, intervals) * intervals == delta as real * 100.0
  {
  }

  /** A rate is non-negative exactly when its delta is. */
  lemma RateSign(delta: int, intervals: real)
    requires intervals > 0.0
    ensures Rate(delta, intervals) >= 0.0 <==> delta >= 0
    ensures Rate(delta, intervals) == 0.0 <==> delta == 0
  {
    RateScales(delta, intervals);
  }

  /** Rates are linear in the delta. */
  lemma RateAdd(a: int, b: int, intervals: real)
    requires intervals > 0.0
    ensures Rate(a + b, intervals) == Rate(a, intervals) + Rate(b, intervals)
  {
    var ra, rb, rab := Rate(a, intervals), Rate(b, intervals), Rate(a + b, intervals);
    RateScales(a, intervals);
    RateScales(b, intervals);
    RateScales(a + b, intervals);
    assert (rab - ra - rb) * intervals == 0.0;
  }

  /** The usage of one core between an old readout `o` and a new one `n`.
      Its total is measured from the raw busy sum, and so splits into the
      three reported categories plus the rate of the unreported nice time. */
  function CoreUsage(n: Times, o: Times, intervals: real): (r: CpuValues)
    requires intervals > 0.0
    ensures r.total == r.sys + r.user + r.irq + Rate(n.nice - o.nice, intervals)
  {
    RateAdd(n.user - o.user, n.nice - o.nice, intervals);
    RateAdd((n.user - o.user) + (n.nice - o.nice), n.sys - o.sys, intervals);
    RateAdd((n.user - o.user) + (n.nice - o.nice) + (n.sys - o.sys), n.irq - o.irq, intervals);
    CpuValues(Rate(Busy(n) - Busy(o), intervals),
              Rate(n.sys - o.sys, intervals),
              Rate(n.user - o.user, intervals),
              Rate(n.irq - o.irq, intervals))
  }

  /** Each reported category of a core is its counter delta over the nominal
      interval, in percent; so is the total, for the busy sum. */
  lemma CoreUsageRates(n: Times, o: Times, intervals: real)
    requires intervals > 0.0
    ensures var r := CoreUsage(n, o, intervals);
      r.sys * intervals == (n.sys - o.sys) as real * 100.0 &&
      r.user * intervals == (n.user - o.user) as real * 100.0 &&
      r.irq * intervals == (n.irq - o.irq) as real * 100.0 &&
      r.total * intervals == (Busy(n) - Busy(o)) as real * 100.0
  {
    RateScales(n.sys - o.sys, intervals);
    RateScales(n.user - o.user, intervals);
    RateScales(n.irq - o.irq, intervals);
    RateScales(Busy(n) - Busy(o), intervals);
  }

  /** Every counter of `n` is at least the one of `o`: the OS did not reset. */
  predicate Monotone(o: Times, n: Times)
  {
    o.user <= n.user && o.nice <= n.nice && o.sys <= n.sys && o.irq <= n.irq
  }

  /** With non-decreasing counters every rate is non-negative. */
  lemma CoreUsageNonNegative(n: Times, o: Times, intervals: real)
    requires intervals > 0.0
    requires Monotone(o, n)
    ensures forall c :: Get(CoreUsage(n, o, intervals), c) >= 0.0
  {
    RateSign(n.sys - o.sys, intervals);
    RateSign(n.user - o.user, intervals);
    RateSign(n.irq - o.irq, intervals);
    RateSign(Busy(n) - Busy(o), intervals);
  }

  /** A core's total is at least its reported categories exactly when its
      nice counter did not go back: nice time is the rest of the total. */
  lemma CoreTotalAtLeastCategories(n: Times, o: Times, intervals: real)
    requires intervals > 0.0
    ensures var r := CoreUsage(n, o, intervals);
      r.total >= r.sys + r.user + r.irq <==> n.nice >= o.nice
  {
    RateSign(n.nice - o.nice, intervals);
  }

  /** A core whose counters did not move reports zero in every category. */
  lemma CoreUsageIdle(t: Times, intervals: real)
    requires intervals > 0.0
    ensures CoreUsage(t, t, intervals) == CpuValues(0.0, 0.0, 0.0, 0.0)
  {
    RateSign(0, intervals);
  }

  /** The per-core list of one cycle: one entry per core of the OLD readout,
      pairing old core i with new core i; extra new cores are not looked at. */
  function CoresOf(olds: seq<Times>, news: seq<Times>, intervals: real): (r: seq<CpuValues>)
    requires intervals > 0.0
    requires |news| >= |olds|
    ensures |r| == |olds|
    ensures forall i :: 0 <= i < |olds| ==> r[i] == CoreUsage(news[i], olds[i], intervals)
    decreases |olds|
  {
    if olds == [] then []
    else
      var k := |olds| - 1;
      CoresOf(olds[..k], news, intervals) + [CoreUsage(news[k], olds[k], intervals)]
  }

  /** Only the first |olds| cores of the new readout influence the cycle. */
  lemma CoresOfIgnoresExtraCores(olds: seq<Times>, news: seq<Times>, extra: seq<Times>, intervals: real)
    requires intervals > 0.0
    requires |news| >= |olds|
    ensures CoresOf(olds, news + extra, intervals) == CoresOf(olds, news, intervals)
  {
    var a, b := CoresOf(olds, news + extra, intervals), CoresOf(olds, news, intervals);
    assert forall i :: 0 <= i < |olds| ==> (news + extra)[i] == news[i];
    assert forall i :: 0 <= i < |olds| ==> a[i] == b[i];
  }

  const Zero := CpuValues(0.0, 0.0, 0.0, 0.0)

  /** Field-wise accumulation, the `whole.x += core.x` step. */
  function Add(a: CpuValues, b: CpuValues): (r: CpuValues)
    ensures forall c :: Get(r, c) == Get(a, c) + Get(b, c)
  {
    CpuValues(a.total + b.total, a.sys + b.sys, a.user + b.user, a.irq + b.irq)
  }

  /** The accumulator after the per-core values were added in order. */
  function Sum(s: seq<CpuValues>): CpuValues
    decreases |s|
  {
    if s == [] then Zero else Add(Sum(s[..|s| - 1]), s[|s| - 1])
  }

  /** The accumulator divided by the core count, field by field; undefined
      (NaN) for no cores. */
  function Divide(whole: CpuValues, count: nat): (r: Average)
    ensures r.Defined? <==> count > 0
  {
    if count == 0 then Undefined
    else Defined(CpuValues(whole.total / count as real, whole.sys / count as real,
                           whole.user / count as real, whole.irq / count as real))
  }

  /** Each divided field times the count gives back the accumulated field. */
  lemma DivideTimesCount(whole: CpuValues, count: nat, c: Category)
    requires count > 0
    ensures Get(Divide(whole, count).values, c) * count as real == Get(whole, c)
  {
  }

  /** The whole-system values of a cycle whose per-core values are `cores`. */
  function Mean(cores: seq<CpuValues>): (r: Average)
    ensures r.Defined? <==> cores != []
  {
    Divide(Sum(cores), |cores|)
  }

  /** The whole-system value of every category is the arithmetic mean of the
      per-core values: the mean times the core count is their sum, and a
      cycle without cores has no mean at all. */
  lemma MeanIsArithmeticMean(cores: seq<CpuValues>, c: Category)
    ensures Mean(cores).Defined? <==> cores != []
    ensures cores != [] ==> Get(Mean(cores).values, c) * |cores| as real == Get(Sum(cores), c)
  {
    if cores != [] {
      var w := Sum(cores);
      DivideTimesCount(w, |cores|, c);
    }
  }

  /** `k` copies of `x` added up: k * x without a product of unknowns. */
  function Copies(k: nat, x: real): real
  {
    if k == 0 then 0.0 else Copies(k - 1, x) + x
  }

  lemma {:induction false} CopiesIsProduct(k: nat, x: real)
    ensures Copies(k, x) == k as real * x
  {
    if k > 0 {
      CopiesIsProduct(k - 1, x);
    }
  }

  lemma {:induction false} SumAtLeast(s: seq<CpuValues>, c: Category, lo: real)
    requires forall i :: 0 <= i < |s| ==> lo <= Get(s[i], c)
    ensures Copies(|s|, lo) <= Get(Sum(s), c)
    decreases |s|
  {
    if s != [] {
      var k := |s| - 1;
      assert forall i :: 0 <= i < k ==> s[..k][i] == s[i];
      SumAtLeast(s[..k], c, lo);
    }
  }

  lemma {:induction false} SumAtMost(s: seq<CpuValues>, c: Category, hi: real)
    requires forall i :: 0 <= i < |s| ==> Get(s[i], c) <= hi
    ensures Get(Sum(s), c) <= Copies(|s|, hi)
    decreases |s|
  {
    if s != [] {
      var k := |s| - 1;
      assert forall i :: 0 <= i < k ==> s[..k][i] == s[i];
      SumAtMost(s[..k], c, hi);
    }
  }

  lemma QuotientAtLeast(m: real, n: real, sum: real, lo: real)
    requires n > 0.0
    requires m * n == sum
    requires n * lo <= sum
    ensures lo <= m
  {
    assert n * (m - lo) >= 0.0;
  }

  lemma QuotientAtMost(m: real, n: real, sum: real, hi: real)
    requires n > 0.0
    requires m * n == sum
    requires sum <= n * hi
    ensures m <= hi
  {
    assert n * (hi - m) >= 0.0;
  }

  /** The mean is at least any lower bound of the per-core values. */
  lemma MeanAtLeast(cores: seq<CpuValues>, c: Category, lo: real)
    requires |cores| > 0
    requires forall i :: 0 <= i < |cores| ==> lo <= Get(cores[i], c)
    ensures Mean(cores).Defined? && lo <= Get(Mean(cores).values, c)
  {
    var n, sum := |cores|, Get(Sum(cores), c);
    assert n as real * lo <= sum by {
      SumAtLeast(cores, c, lo);
      CopiesIsProduct(n, lo);
    }
    var m := Get(Mean(cores).values, c);
    assert m * n as real == sum by {
      DivideTimesCount(Sum(cores), n, c);
    }
    QuotientAtLeast(m, n as real, sum, lo);
  }

  /** The mean is at most any upper bound of the per-core values. */
  lemma MeanAtMost(cores: seq<CpuValues>, c: Category, hi: real)
    requires |cores| > 0
    requires forall i :: 0 <= i < |cores| ==> Get(cores[i], c) <= hi
    ensures Mean(cores).Defined? && Get(Mean(cores).values, c) <= hi
  {
    var n, sum := |cores|, Get(Sum(cores), c);
    assert sum <= n as real * hi by {
      SumAtMost(cores, c, hi);
      CopiesIsProduct(n, hi);
    }
    var m := Get(Mean(cores).values, c);
    assert m * n as real == sum by {
      DivideTimesCount(Sum(cores), n, c);
    }
    QuotientAtMost(m, n as real, sum, hi);
  }

  /** The mean lies between any lower and upper bound of the per-core values. */
  lemma MeanWithin(cores: seq<CpuValues>, c: Category, lo: real, hi: real)
    requires |cores| > 0
    requires forall i :: 0 <= i < |cores| ==> lo <= Get(cores[i], c) <= hi
    ensures Mean(cores).Defined?
    ensures lo <= Get(Mean(cores).values, c) <= hi
  {
    MeanAtLeast(cores, c, lo);
    MeanAtMost(cores, c, hi);
  }

  /** Cores that all report the same values average to those values. */
  lemma MeanOfUniform(cores: seq<CpuValues>, v: CpuValues)
    requires |cores| > 0
    requires forall i :: 0 <= i < |cores| ==> cores[i] == v
    ensures Mean(cores) == Defined(v)
  {
    forall c ensures Get(Mean(cores).values, c) == Get(v, c) {
      MeanWithin(cores, c, Get(v, c), Get(v, c));
    }
    var m := Mean(cores).values;
    assert Get(m, Total) == v.total && Get(m, Sys) == v.sys;
    assert Get(m, User) == v.user && Get(m, Irq) == v.irq;
  }

  /** Every core's counters are non-decreasing from `olds` to `news`. */
  predicate SnapshotMonotone(olds: seq<Times>, news: seq<Times>)
  {
    |news| >= |olds| && forall i :: 0 <= i < |olds| ==> Monotone(olds[i], news[i])
  }

  /** With non-decreasing counters, every per-core and every whole-system
      rate of a cycle is non-negative. */
  lemma CycleNonNegative(olds: seq<Times>, news: seq<Times>, intervals: real)
    requires intervals > 0.0
    requires SnapshotMonotone(olds, news)
    requires olds != []
    ensures var cores := CoresOf(olds, news, intervals);
      (forall i, c :: 0 <= i < |cores| ==> Get(cores[i], c) >= 0.0) &&
      Mean(cores).Defined? && forall c :: Get(Mean(cores).values, c) >= 0.0
  {
    var cores := CoresOf(olds, news, intervals);
    forall i | 0 <= i < |cores| ensures forall c :: Get(cores[i], c) >= 0.0 {
      CoreUsageNonNegative(news[i], olds[i], intervals);
    }
    forall c ensures Get(Mean(cores).values, c) >= 0.0 {
      MeanAtLeast(cores, c, 0.0);
    }
  }

  /** The two raw counters the whole-system statements are about: the busy
      sum behind every total and the nice time that is never reported. */
  datatype Counter = BusyTime | NiceTime

  function Count(t: Times, k: Counter): int
  {
    match k
    case BusyTime => Busy(t)
    case NiceTime => t.nice
  }

  /** A counter summed over a readout: the readout seen as one big core. */
  function CounterSum(s: seq<Times>, k: Counter): int
    decreases |s|
  {
    if s == [] then 0 else CounterSum(s[..|s| - 1], k) + Count(s[|s| - 1], k)
  }

  /** How far a counter advanced on each core of `olds`. */
  function Deltas(olds: seq<Times>, news: seq<Times>, k: Counter): (r: seq<int>)
    requires |news| >= |olds|
    ensures |r| == |olds|
    ensures forall i :: 0 <= i < |olds| ==> r[i] == Count(news[i], k) - Count(olds[i], k)
    decreases |olds|
  {
    if olds == [] then []
    else
      var j := |olds| - 1;
      Deltas(olds[..j], news, k) + [Count(news[j], k) - Count(olds[j], k)]
  }

  function IntSum(s: seq<int>): int
    decreases |s|
  {
    if s == [] then 0 else IntSum(s[..|s| - 1]) + s[|s| - 1]
  }

  function RealSum(s: seq<real>): real
    decreases |s|
  {
    if s == [] then 0.0 else RealSum(s[..|s| - 1]) + s[|s| - 1]
  }

  /** The per-core advances add up to the advance of the summed counter. */
  lemma {:induction false} DeltasSum(olds: seq<Times>, news: seq<Times>, k: Counter)
    requires |news| >= |olds|
    ensures IntSum(Deltas(olds, news, k)) == CounterSum(news[..|olds|], k) - CounterSum(olds, k)
    decreases |olds|
  {
    if olds == [] {
      assert news[..0] == [];
    } else {
      var j := |olds| - 1;
      var ds := Deltas(olds, news, k);
      assert ds[..j] == Deltas(olds[..j], news, k);
      DeltasSum(olds[..j], news, k);
      assert news[..|olds|][..j] == news[..j];
    }
  }

  /** The rates of a sequence of counter deltas. */
  function Rates(ds: seq<int>, intervals: real): (r: seq<real>)
    requires intervals > 0.0
    ensures |r| == |ds|
    ensures forall i :: 0 <= i < |ds| ==> r[i] == Rate(ds[i], intervals)
    decreases |ds|
  {
    if ds == [] then []
    else Rates(ds[..|ds| - 1], intervals) + [Rate(ds[|ds| - 1], intervals)]
  }

  /** Adding up rates is the rate of the added-up deltas. */
  lemma {:induction false} SumOfRates(ds: seq<int>, intervals: real)
    requires intervals > 0.0
    ensures RealSum(Rates(ds, intervals)) == Rate(IntSum(ds), intervals)
    decreases |ds|
  {
    if ds != [] {
      var j := |ds| - 1;
      SumOfRates(ds[..j], intervals);
      RateAdd(IntSum(ds[..j]), ds[j], intervals);
    }
  }

  /** One category of every value of a sequence. */
  function Column(s: seq<CpuValues>, c: Category): (r: seq<real>)
    ensures |r| == |s|
    ensures forall i :: 0 <= i < |s| ==> r[i] == Get(s[i], c)
    decreases |s|
  {
    if s == [] then [] else Column(s[..|s| - 1], c) + [Get(s[|s| - 1], c)]
  }

  /** Each accumulated category is the sum of that category over the values. */
  lemma {:induction false} SumColumn(s: seq<CpuValues>, c: Category)
    ensures Get(Sum(s), c) == RealSum(Column(s, c))
    decreases |s|
  {
    if s != [] {
      var j := |s| - 1;
      SumColumn(s[..j], c);
      assert Column(s, c)[..j] == Column(s[..j], c);
    }
  }

  /** When every value's total is its reported categories plus a rest, the
      accumulated total is the accumulated categories plus the summed rests. */
  lemma {:induction false} SplitsAccumulate(s: seq<CpuValues>, rest: seq<real>)
    requires |rest| == |s|
    requires forall i :: 0 <= i < |s| ==> s[i].total == s[i].sys + s[i].user + s[i].irq + rest[i]
    ensures Sum(s).total == Sum(s).sys + Sum(s).user + Sum(s).irq + RealSum(rest)
    decreases |s|
  {
    if s != [] {
      var j := |s| - 1;
      assert forall i :: 0 <= i < j ==> s[..j][i] == s[i] && rest[..j][i] == rest[i];
      SplitsAccumulate(s[..j], rest[..j]);
    }
  }

  /** The accumulated total equals the rate of the system-wide busy delta:
      summing per-core totals is the same as measuring all measured cores as
      one. */
  lemma SumTotalIsSystemRate(olds: seq<Times>, news: seq<Times>, intervals: real)
    requires intervals > 0.0
    requires |news| >= |olds|
    ensures Sum(CoresOf(olds, news, intervals)).total
            == Rate(CounterSum(news[..|olds|], BusyTime) - CounterSum(olds, BusyTime), intervals)
  {
    var cores, ds := CoresOf(olds, news, intervals), Deltas(olds, news, BusyTime);
    SumColumn(cores, Total);
    TotalsAreBusyRates(olds, news, intervals);
    SumOfRates(ds, intervals);
    DeltasSum(olds, news, BusyTime);
  }

  /** Core by core, the totals of a cycle are the rates of the busy deltas. */
  lemma TotalsAreBusyRates(olds: seq<Times>, news: seq<Times>, intervals: real)
    requires intervals > 0.0
    requires |news| >= |olds|
    ensures Column(CoresOf(olds, news, intervals), Total) == Rates(Deltas(olds, news, BusyTime), intervals)
  {
    var cores, ds := CoresOf(olds, news, intervals), Deltas(olds, news, BusyTime);
    forall i | 0 <= i < |olds| ensures Column(cores, Total)[i] == Rates(ds, intervals)[i] {
      assert cores[i] == CoreUsage(news[i], olds[i], intervals);
    }
  }

  /** The accumulated total splits into the accumulated reported categories
      plus the rate of the system-wide nice delta. */
  lemma SumTotalDecomposes(olds: seq<Times>, news: seq<Times>, intervals: real)
    requires intervals > 0.0
    requires |news| >= |olds|
    ensures var w := Sum(CoresOf(olds, news, intervals));
      w.total == w.sys + w.user + w.irq
                 + Rate(CounterSum(news[..|olds|], NiceTime) - CounterSum(olds, NiceTime), intervals)
  {
    var cores, ds := CoresOf(olds, news, intervals), Deltas(olds, news, NiceTime);
    TotalsSplitWithNiceRates(olds, news, intervals);
    SplitsAccumulate(cores, Rates(ds, intervals));
    SumOfRates(ds, intervals);
    DeltasSum(olds, news, NiceTime);
  }

  /** Core by core, the total of a cycle is its reported categories plus the
      rate of its nice delta. */
  lemma TotalsSplitWithNiceRates(olds: seq<Times>, news: seq<Times>, intervals: real)
    requires intervals > 0.0
    requires |news| >= |olds|
    ensures var cores, rest := CoresOf(olds, news, intervals), Rates(Deltas(olds, news, NiceTime), intervals);
      forall i :: 0 <= i < |olds| ==>
        cores[i].total == cores[i].sys + cores[i].user + cores[i].irq + rest[i]
  {
    var cores, rest := CoresOf(olds, news, intervals), Rates(Deltas(olds, news, NiceTime), intervals);
    forall i | 0 <= i < |olds|
      ensures cores[i].total == cores[i].sys + cores[i].user + cores[i].irq + rest[i]
    {
      assert cores[i] == CoreUsage(news[i], olds[i], intervals);
    }
  }

  /** The whole-system fields are the accumulated fields over the core count. */
  lemma MeanFields(cores: seq<CpuValues>)
    requires cores != []
    ensures var m, w, n := Mean(cores), Sum(cores), |cores| as real;
      m.Defined? && m.values.total == w.total / n && m.values.sys == w.sys / n &&
      m.values.user == w.user / n && m.values.irq == w.irq / n
  {
  }

  /** Every whole-system field is the sum of that field over the cores
      divided by the number of cores: the arithmetic mean. */
  lemma MeanIsColumnAverage(cores: seq<CpuValues>, c: Category)
    requires cores != []
    ensures Get(Mean(cores).values, c) == RealSum(Column(cores, c)) / |cores| as real
  {
    MeanFields(cores);
    SumColumn(cores, c);
  }

  /** Division by a positive count distributes over a sum of four. */
  lemma QuotientSplits(a: real, b: real, c: real, d: real, n: real)
    requires n > 0.0
    ensures (a + b + c + d) / n == a / n + b / n + c / n + d / n
  {
  }

  /** The whole-system total is the system-wide busy rate divided by the core
      count: averaging the per-core totals is the same as measuring all
      measured cores as one and sharing the result among them. */
  lemma WholeTotalIsSystemRate(olds: seq<Times>, news: seq<Times>, intervals: real)
    requires intervals > 0.0
    requires |news| >= |olds|
    requires olds != []
    ensures var m := Mean(CoresOf(olds, news, intervals));
      m.Defined? &&
      m.values.total == Rate(CounterSum(news[..|olds|], BusyTime) - CounterSum(olds, BusyTime), intervals) / |olds| as real
  {
    var cores := CoresOf(olds, news, intervals);
    assert Sum(cores).total == Rate(CounterSum(news[..|olds|], BusyTime) - CounterSum(olds, BusyTime), intervals) by {
      SumTotalIsSystemRate(olds, news, intervals);
    }
    MeanFields(cores);
  }

  /** The whole-system total splits into the whole-system categories plus
      the system-wide nice rate shared among the cores. */
  lemma WholeTotalDecomposes(olds: seq<Times>, news: seq<Times>, intervals: real)
    requires intervals > 0.0
    requires |news| >= |olds|
    requires olds != []
    ensures var m := Mean(CoresOf(olds, news, intervals));
      m.Defined? &&
      m.values.total == m.values.sys + m.values.user + m.values.irq
                        + Rate(CounterSum(news[..|olds|], NiceTime) - CounterSum(olds, NiceTime), intervals) / |olds| as real
  {
    var cores := CoresOf(olds, news, intervals);
    assert |cores| == |olds|;
    var w, n := Sum(cores), |olds| as real;
    var niceRate := Rate(CounterSum(news[..|olds|], NiceTime) - CounterSum(olds, NiceTime), intervals);
    assert w.total == w.sys + w.user + w.irq + niceRate by {
      SumTotalDecomposes(olds, news, intervals);
    }
    MeanFields(cores);
    QuotientSplits(w.sys, w.user, w.irq, niceRate, n);
  }

  /** The whole-system total is at least the sum of the whole-system
      categories exactly when the nice counters, summed over the measured
      cores, did not go back. */
  lemma WholeTotalAtLeastCategories(olds: seq<Times>, news: seq<Times>, intervals: real)
    requires intervals > 0.0
    requires |news| >= |olds|
    requires olds != []
    ensures var m := Mean(CoresOf(olds, news, intervals));
      m.Defined? &&
      (m.values.total >= m.values.sys + m.values.user + m.values.irq
       <==> CounterSum(news[..|olds|], NiceTime) >= CounterSum(olds, NiceTime))
  {
    var nice := CounterSum(news[..|olds|], NiceTime) - CounterSum(olds, NiceTime);
    WholeTotalDecomposes(olds, news, intervals);
    RateSign(nice, intervals);
    QuotientSign(Rate(nice, intervals), |olds| as real);
  }

  lemma QuotientSign(x: real, n: real)
    requires n > 0.0
    ensures x / n >= 0.0 <==> x >= 0.0
  {
    if x / n >= 0.0 {
      assert x == (x / n) * n;
    }
  }
}
