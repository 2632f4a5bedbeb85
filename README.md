# CPU monitor: delta-sampling model

This project models the sampling engine of `CPUMonitor` (src/cpu.ts). The
monitor keeps the CPU readout of its previous timer tick. On every tick it
takes a new readout of every core's cumulative counters and computes, for each
core of the previous readout, how far its `sys`, `user` and `irq` counters
advanced during the nominal period, as a percentage of that period. It also
computes a `total` from the raw sum `user + nice + sys + irq`. It then adds the
per-core values into a whole-system accumulator and divides that by the core
count. It keeps the new readout in place of the old one and emits the report
once on its `data` channel.

Two modules:

- `CoreRates` (core_rates.dfy) holds the pure arithmetic:
  - the per-core rates (`CoreUsage`);
  - the per-core list of a cycle (`CoresOf`);
  - the accumulator (`Add`, `Sum`) and the division by the core count
    (`Divide`, `Mean`);
  - the lemmas about them.
- `Monitor` (cpu_monitor.dfy) holds the class `CpuMonitor`. Its fields are
  the kept readout `lastUsage`, the running timer `timer` and a ghost log
  `emitted` of the reports sent on the `data` channel. `Tick` is the tick
  closure. Its loop accumulates exactly as the `map` callback does, and its
  contract ties the report to `CoresOf` and `Mean`.

Counters are unbounded integers and rates are exact reals. When the
previous readout is empty, the source divides 0 by 0 and reports NaN in every
whole-system field. The model reports `Undefined` in that case; this is what
happens on the first tick of a fresh monitor. It reports
`Defined(values)` otherwise.

`Stop` keeps the stored readout. A monitor that is stopped and started again
therefore measures its next report against the readout taken before the stop,
and divides the advance over the whole pause by a single period
(`RestartAfterPause`).

Definitions without a contract of their own, and where their meaning is stated:

- `Times` and `CpuValues` are the counters of `os.CpuInfo` the monitor reads
  and the `CPUValues` record (src/cpu.ts:8-17). `Usage` is the `CPUUsage`
  report (src/cpu.ts:19-22).
- `Busy` is the raw sum `user + nice + sys + irq` (src/cpu.ts:59-60). Its role
  in the total is stated by `CoreUsageRates` and `SumTotalIsSystemRate`.
- `Rate` is `delta / intervals * 100` (src/cpu.ts:63-66). Its meaning is stated
  by `RateScales`, `RateSign` and `RateAdd`.
- `Add` is one `whole.x += core.x` step (src/cpu.ts:78-81). `Sum` is the
  accumulator after all cores (src/cpu.ts:74-81); `SumColumn` states it is the
  per-field sum of the per-core values.

## Model

| member | source | states |
|---|---|---|
| CoreRates.RateScales | src/cpu.ts:63-66 | a rate times the period is the counter delta times 100 |
| CoreRates.RateSign | src/cpu.ts:63-66 | a rate is non-negative exactly when its delta is, and zero exactly when its delta is zero |
| CoreRates.RateAdd | src/cpu.ts:59-63 | the rate of a sum of deltas is the sum of their rates |
| CoreRates.CoreUsage | src/cpu.ts:57-68 | the per-core values; the total equals sys + user + irq plus the rate of the unreported nice delta |
| CoreRates.CoreUsageRates | src/cpu.ts:59-66 | sys, user and irq times the nominal period are their counter deltas times 100; the total times the period is the delta of user + nice + sys + irq times 100 |
| CoreRates.CoreUsageNonNegative | src/cpu.ts:57-67 | with no counter going back, all four per-core values are non-negative |
| CoreRates.CoreTotalAtLeastCategories | src/cpu.ts:59-63 | a core's total is at least sys + user + irq exactly when its nice counter did not go back |
| CoreRates.CoreUsageIdle | src/cpu.ts:57-67 | a core whose counters did not move reports 0 in all four fields |
| CoreRates.CoresOf | src/cpu.ts:76-83 | one entry per core of the previous readout; entry i is the usage of new core i against old core i |
| CoreRates.CoresOfIgnoresExtraCores | src/cpu.ts:76-77 | cores of the new readout beyond the previous readout's length do not change the per-core list |
| CoreRates.Divide | src/cpu.ts:85-89 | the division by the core count is defined exactly when the count is positive |
| CoreRates.Mean | src/cpu.ts:85-89 | the whole-system values of a cycle are defined exactly when the cycle measured at least one core |
| CoreRates.DivideTimesCount | src/cpu.ts:85-89 | each divided field times the core count gives back the accumulated field |
| CoreRates.MeanIsArithmeticMean | src/cpu.ts:74-89 | the whole-system values are defined exactly when there is a core, and then each field times the core count is the sum of that field over the cores |
| CoreRates.SumColumn | src/cpu.ts:74-81 | each accumulated field is the sum of that field over the per-core values |
| CoreRates.MeanAtLeast | src/cpu.ts:74-89 | a lower bound on a field of every core is a lower bound on that whole-system field |
| CoreRates.MeanAtMost | src/cpu.ts:74-89 | an upper bound on a field of every core is an upper bound on that whole-system field |
| CoreRates.MeanWithin | src/cpu.ts:74-89 | every whole-system field lies between any bounds of that field over the cores |
| CoreRates.MeanOfUniform | src/cpu.ts:74-89 | cores that all report the same values give those values as the whole-system values |
| CoreRates.CycleNonNegative | src/cpu.ts:57-89 | with no counter of any measured core going back, every per-core value and every whole-system value is non-negative, and the whole-system values are defined |
| CoreRates.DeltasSum | src/cpu.ts:59-60 | the per-core counter advances add up to the advance of the counter summed over the readout |
| CoreRates.SumOfRates | src/cpu.ts:63 | the sum of the rates of several deltas is the rate of their sum |
| CoreRates.SplitsAccumulate | src/cpu.ts:78-81 | if every value's total is its categories plus a rest, the accumulated total is the accumulated categories plus the summed rests |
| CoreRates.SumTotalIsSystemRate | src/cpu.ts:59-83 | the accumulated total is the rate of the busy sum of the whole readout: the measured cores behave as one core |
| CoreRates.SumTotalDecomposes | src/cpu.ts:59-83 | the accumulated total is the accumulated sys + user + irq plus the rate of the system-wide nice delta |
| CoreRates.MeanIsColumnAverage | src/cpu.ts:85-89 | with at least one core, each whole-system field is the sum of that field over the per-core values divided by the number of cores |
| CoreRates.WholeTotalIsSystemRate | src/cpu.ts:57-89 | the whole-system total is the rate of the system-wide busy delta shared among the measured cores |
| CoreRates.WholeTotalDecomposes | src/cpu.ts:57-89 | the whole-system total is the whole-system sys + user + irq plus the system-wide nice rate over the core count |
| CoreRates.WholeTotalAtLeastCategories | src/cpu.ts:57-89 | the whole-system total is at least the whole-system sys + user + irq exactly when the summed nice counters did not go back |
| Monitor.CpuMonitor.constructor | src/cpu.ts:31-36 | a new monitor has an empty kept readout, no timer and has emitted nothing |
| Monitor.CpuMonitor.Start | src/cpu.ts:43-46 | installs a timer with the given period, 1000 ms by default; the kept readout is untouched |
| Monitor.CpuMonitor.Stop | src/cpu.ts:49-52 | clears the timer; the kept readout and the emitted reports stay as they were |
| Monitor.CpuMonitor.Tick | src/cpu.ts:44-95 | runs only while the timer installed with period `intervals` is running, and divides by that period; the report's cores are `CoresOf` the previous readout against the new one, its whole-system part is their `Mean`, the kept readout becomes the new readout, and the report is appended to the emitted log exactly once |
| Monitor.FirstTwoTicks | src/cpu.ts:38-41 | on a fresh monitor the first report has no cores and undefined whole-system values; the second pairs the first readout with the second and is defined as soon as there is a core |
| Monitor.RestartAfterPause | src/cpu.ts:43-93 | after a stop and a restart, the first report measures against the readout taken before the stop over a single period, so a core busy during the pause reports 300 (above 100) |
| Monitor.TwoCoreReadout | src/cpu.ts:57-91 | two cores at the default period that are 50% and 30% busy in user mode report 50 and 30 per core and 40 for the system |

## Left out

- Timer scheduling. `setInterval` and `clearInterval` are not modelled: a caller calls `Tick` once per period while the timer runs. `Start` and `Stop` record or clear the running period, and `Tick` requires that period.
- Start: a second `start` in the source installs another interval while the first one keeps firing. The model keeps a single `timer` value.
- Stop: the source keeps the cleared handle in its `timer` field. The model sets `timer` to `None`.
- Start, Stop: the source returns `this` for chaining. The model's methods return nothing.
- The `EventEmitter` base class and its listeners. Emitting is modelled as appending to the ghost log `emitted`; listener calls are not modelled.
- `os.cpus()`. The new readout is the parameter `cpuNew`. Only the `user`, `nice`, `sys` and `irq` counters are kept, because the core reads no others.
- Floating point. Rates are exact reals, so rounding and the order of the `+=` additions do not matter. The NaN that the source reports for an empty previous readout (0 / 0) is the `Undefined` whole-system value.
- Tick: requires `intervals > 0`. A zero period makes the source divide by 0 (Infinity or NaN). A negative period gives a timer of the shortest delay while the rates use the negative number.
- Tick: requires the new readout to have at least as many cores as the previous one. With fewer cores the source reads `times` of `undefined` and throws; the model does not represent the exception.
- Report shape: the source spreads the four whole-system fields next to `cores`. The model keeps them in `Usage.whole`.
