/**
  The metrics estimator (`nutmeg_engine_update_metrics`). Wall-clock cost,
  the memory footprint estimate and the sine are inputs: the first two come
  from the platform, the third from the maths library.
 */
module MetricsEstimator {

  datatype Metrics = Metrics(cpu: real, ram: real, gpu: real)

  const NoLoad: Metrics := Metrics(0.0, 0.0, 0.0)

  /** Memory budget the RAM channel is measured against, in MiB. */
  const RamBudgetMiB: real := 256.0
  const BytesPerMiB: real := 1048576.0
  /** Oscillation phase advance per second of delta. */
  const PhaseRate: real := 0.8

  predicate IsPercentage(v: real)
  {
    0.0 <= v <= 100.0
  }

  predicate Bounded(m: Metrics)
  {
    IsPercentage(m.cpu) && IsPercentage(m.ram) && IsPercentage(m.gpu)
  }

  /** `nutmeg_clamp_percentage`. */
  function ClampPercentage(v: real): (r: real)
    ensures IsPercentage(r)
    ensures IsPercentage(v) ==> r == v
    ensures v < 0.0 ==> r == 0.0
    ensures v > 100.0 ==> r == 100.0
  {
    if v < 0.0 then 0.0 else if v > 100.0 then 100.0 else v
  }

  /** The ratio of two non-negative reals compared with 1. */
  lemma RatioBounds(a: real, b: real)
    requires b > 0.0 && a >= 0.0
    ensures 0.0 <= a / b
    ensures a <= b ==> a / b <= 1.0
    ensures a >= b ==> a / b >= 1.0
  {
  }

  datatype Update = Update(metrics: Metrics, phase: real)

  /** New metrics and oscillation phase after a tick of `delta` seconds that
      cost `cpuTime` seconds, with `footprint` estimated bytes in use. */
  function UpdateMetrics(m: Metrics, phase: real, cpuTime: real, delta: real, footprint: nat, sin: real -> real): (r: Update)
    ensures Bounded(r.metrics)
    ensures r.phase == phase + delta * PhaseRate
    ensures !(delta > 0.0 && cpuTime >= 0.0) ==> r.metrics.cpu == 0.0
    ensures delta > 0.0 && 0.0 <= cpuTime <= delta ==> r.metrics.cpu == cpuTime / delta * 100.0
    ensures delta > 0.0 && cpuTime >= delta ==> r.metrics.cpu == 100.0
    ensures footprint as real >= RamBudgetMiB * BytesPerMiB ==> r.metrics.ram == 100.0
    ensures footprint as real < RamBudgetMiB * BytesPerMiB ==>
              r.metrics.ram == footprint as real / (RamBudgetMiB * BytesPerMiB) * 100.0
  {
    var cpu := if delta > 0.0 && cpuTime >= 0.0 then cpuTime / delta * 100.0 else 0.0;
    var ram := ClampPercentage(footprint as real / BytesPerMiB / RamBudgetMiB * 100.0);
    var phase' := phase + delta * PhaseRate;
    var oscillation := (sin(phase') + 1.0) * 15.0;
    var gpu := ClampPercentage(0.6 * cpu + oscillation);
    assert delta > 0.0 && cpuTime >= 0.0 ==>
      && 0.0 <= cpuTime / delta
      && (cpuTime <= delta ==> cpuTime / delta <= 1.0)
      && (cpuTime >= delta ==> cpuTime / delta >= 1.0) by {
      if delta > 0.0 && cpuTime >= 0.0 {
        RatioBounds(cpuTime, delta);
      }
    }
    assert footprint as real >= RamBudgetMiB * BytesPerMiB ==> footprint as real / BytesPerMiB >= RamBudgetMiB;
    Update(Metrics(ClampPercentage(cpu), ram, ClampPercentage(0.5 * m.gpu + 0.5 * gpu)), phase')
  }
}
