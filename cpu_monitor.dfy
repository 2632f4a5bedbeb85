/** The CPU monitor: it keeps the previous readout, and each timer tick turns
    the new readout and the kept one into a usage report and emits it. */
module Monitor {
  import opened CoreRates

  /** The report of one tick: the whole-system values and one entry per core. */
  datatype Usage = Usage(whole: Average, cores: seq<CpuValues>)

  /** The period, in milliseconds, that `Start` uses when it is given none. */
  const DefaultInterval: real := 1000.0

  class CpuMonitor {
    /** The readout of the previous tick; empty until the first tick. */
    var lastUsage: seq<Times>
    /** The period of the installed timer, or None when no timer runs. */
    var timer: Option<real>
    /** Every report emitted on the `data` channel, oldest first. */
    ghost var emitted: seq<Usage>

    constructor ()
      ensures lastUsage == [] && timer == None && emitted == []
    {
      lastUsage := [];
      timer := None;
      emitted := [];
    }

    /** Installs a timer that ticks every `intervals` milliseconds. */
    method Start(intervals: real := DefaultInterval)
      modifies this`timer
      ensures timer == Some(intervals)
    {
      timer := Some(intervals);
    }

    /** Clears the timer; the kept readout and what was emitted stay. */
    method Stop()
      modifies this`timer
      ensures timer == None
      ensures lastUsage == old(lastUsage) && emitted == old(emitted)
    {
      timer := None;
    }

    /** One tick of the timer installed with period `intervals`: `cpuNew` is
        the readout the OS gives at this tick. Pairs every core of the kept
        readout with the same core of the new one, averages the per-core
        values, keeps the new readout and emits the report once. The rates
        divide by the period the timer was started with. */
    method Tick(cpuNew: seq<Times>, intervals: real) returns (data: Usage)
      requires timer == Some(intervals)
      requires intervals > 0.0
      requires |cpuNew| >= |lastUsage|
      modifies this`lastUsage, this`emitted
      ensures data.cores == CoresOf(old(lastUsage), cpuNew, intervals)
      ensures data.whole == Mean(data.cores)
      ensures lastUsage == cpuNew
      ensures emitted == old(emitted) + [data]
    {
      var whole := Zero;
      var cores: seq<CpuValues> := [];
      var i := 0;
      while i < |lastUsage|
        invariant 0 <= i <= |lastUsage|
        invariant cores == CoresOf(lastUsage[..i], cpuNew, intervals)
        invariant whole == Sum(cores)
      {
        var core := CoreUsage(cpuNew[i], lastUsage[i], intervals);
        whole := Add(whole, core);
        assert lastUsage[..i + 1][..i] == lastUsage[..i];
        cores := cores + [core];
        assert cores[..i] == CoresOf(lastUsage[..i], cpuNew, intervals);
        i := i + 1;
      }
      assert lastUsage[..i] == lastUsage;
      data := Usage(Divide(whole, |cores|), cores);
      lastUsage := cpuNew;
      emitted := emitted + [data];
    }
  }

  datatype Option<T> = None | Some(value: T)

  /** Two ticks of a fresh monitor: the first has no previous readout and
      reports no cores and undefined averages; the second reports every core
      of the first readout against the second, with defined averages as soon
      as there is a core. */
  method FirstTwoTicks(first: seq<Times>, second: seq<Times>, intervals: real)
    returns (u1: Usage, u2: Usage)
    requires intervals > 0.0
    requires |second| >= |first|
    ensures u1.cores == [] && u1.whole == Undefined
    ensures u2.cores == CoresOf(first, second, intervals)
    ensures u2.whole.Defined? <==> first != []
  {
    var m := new CpuMonitor();
    m.Start(intervals);
    u1 := m.Tick(first, intervals);
    u2 := m.Tick(second, intervals);
    MeanIsArithmeticMean(u2.cores, Total);
  }

  /** Two cores at a one second period: core 0 spends 500 ms and core 1
      300 ms in user mode, no other counter moves. Core 0 is then 50% busy,
      core 1 30%, and the system 40%. */
  method TwoCoreReadout() returns (u: Usage)
    ensures u.cores == [CpuValues(50.0, 0.0, 50.0, 0.0), CpuValues(30.0, 0.0, 30.0, 0.0)]
    ensures u.whole == Defined(CpuValues(40.0, 0.0, 40.0, 0.0))
  {
    var m := new CpuMonitor();
    m.Start();
    var t0 := [Times(1000, 10, 200, 5), Times(2000, 20, 400, 7)];
    var t1 := [Times(1500, 10, 200, 5), Times(2300, 20, 400, 7)];
    var boot := m.Tick(t0, DefaultInterval);
    u := m.Tick(t1, DefaultInterval);
    TwoCoreValues(t0, t1, u.cores);
  }

  /** A monitor stopped and started again keeps the readout of its last tick
      before the stop. The first tick after the restart divides the counters'
      advance over the pause and one period by a single period: here a core
      busy throughout two seconds of pause and one period reports 300. */
  method RestartAfterPause() returns (u: Usage)
    ensures u.cores == [CpuValues(300.0, 0.0, 300.0, 0.0)]
    ensures u.cores[0].user > 100.0
  {
    var m := new CpuMonitor();
    m.Start();
    var t0 := [Times(1000, 10, 200, 5)];
    var boot := m.Tick(t0, DefaultInterval);
    m.Stop();
    m.Start();
    var t1 := [Times(4000, 10, 200, 5)];
    u := m.Tick(t1, DefaultInterval);
    PausedCoreValues(t0, t1, u.cores);
  }

  lemma PausedCoreValues(t0: seq<Times>, t1: seq<Times>, cores: seq<CpuValues>)
    requires t0 == [Times(1000, 10, 200, 5)] && t1 == [Times(4000, 10, 200, 5)]
    requires cores == CoresOf(t0, t1, DefaultInterval)
    ensures cores == [CpuValues(300.0, 0.0, 300.0, 0.0)]
  {
    RateAtDefault(3000);
    RateAtDefault(0);
    assert cores[0] == CoreUsage(t1[0], t0[0], DefaultInterval);
  }

  lemma RateAtDefault(delta: int)
    ensures Rate(delta, DefaultInterval) == delta as real / 10.0
  {
    assert DefaultInterval == 1000.0;
    RateScales(delta, DefaultInterval);
  }

  lemma TwoCoreValues(t0: seq<Times>, t1: seq<Times>, cores: seq<CpuValues>)
    requires t0 == [Times(1000, 10, 200, 5), Times(2000, 20, 400, 7)]
    requires t1 == [Times(1500, 10, 200, 5), Times(2300, 20, 400, 7)]
    requires cores == CoresOf(t0, t1, DefaultInterval)
    ensures cores == [CpuValues(50.0, 0.0, 50.0, 0.0), CpuValues(30.0, 0.0, 30.0, 0.0)]
    ensures Mean(cores) == Defined(CpuValues(40.0, 0.0, 40.0, 0.0))
  {
    var c0, c1 := CpuValues(50.0, 0.0, 50.0, 0.0), CpuValues(30.0, 0.0, 30.0, 0.0);
    assert cores[0] == c0 by {
      RateAtDefault(500);
      RateAtDefault(0);
      assert cores[0] == CoreUsage(t1[0], t0[0], DefaultInterval);
    }
    assert cores[1] == c1 by {
      RateAtDefault(300);
      RateAtDefault(0);
      assert cores[1] == CoreUsage(t1[1], t0[1], DefaultInterval);
    }
    assert cores == [c0, c1];
    MeanOfTwo(c0, c1);
  }

  lemma MeanOfTwo(c0: CpuValues, c1: CpuValues)
    requires c0 == CpuValues(50.0, 0.0, 50.0, 0.0) && c1 == CpuValues(30.0, 0.0, 30.0, 0.0)
    ensures Mean([c0, c1]) == Defined(CpuValues(40.0, 0.0, 40.0, 0.0))
  {
    var cores := [c0, c1];
    assert cores[..1] == [c0] && [c0][..0] == [];
    assert Sum([c0]) == c0;
    assert Sum(cores) == CpuValues(80.0, 0.0, 80.0, 0.0);
    assert Divide(CpuValues(80.0, 0.0, 80.0, 0.0), 2) == Defined(CpuValues(40.0, 0.0, 40.0, 0.0));
  }
}
