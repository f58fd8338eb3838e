/** The division of a model's layers in api/layer_split.py, over exact arithmetic. */
module LayerSplit {
  import opened Bytes

  const MIN_FREE_FRACTION := 0.05
  const SAFE_WEIGHT_FRACTION := 0.75
  const MB := 1024.0 * 1024.0

  datatype Stats = Stats(cores: real, loadPercent: real)

  /** `_effective_capacity`. */
  function Capacity(s: Stats): real {
    var free := 1.0 - s.loadPercent / 100.0;
    s.cores * (if free < MIN_FREE_FRACTION then MIN_FREE_FRACTION else free)
  }

  function Sum(stats: seq<Stats>): real {
    if stats == [] then 0.0 else Sum(stats[..|stats| - 1]) + Capacity(stats[|stats| - 1])
  }

  /** Python's `round`: to the nearest integer, ties to the even one. */
  function Round(x: real): int {
    var f := x.Floor;
    var rest := x - f as real;
    if rest < 0.5 then f else if rest > 0.5 then f + 1 else if f % 2 == 0 then f else f + 1
  }

  function Clamp(lo: int, hi: int, x: int): int {
    if x > hi then (if hi < lo then lo else hi) else if x < lo then lo else x
  }

  /** The CPU-weighted number of layers for the workers, before it is rounded. */
  function Weighted(total: nat, coordinator: Stats, workers: seq<Stats>): real
    requires Capacity(coordinator) + Sum(workers) > 0.0
  {
    total as real * (Sum(workers) / (Capacity(coordinator) + Sum(workers)))
  }

  function PerLayer(modelBytes: nat, total: nat): (r: real)
    requires modelBytes > 0 && total > 0
    ensures r > 0.0
  {
    modelBytes as real / total as real
  }

  /** The bytes of weights that a flavor may hold. */
  function Budget(flavorMb: nat): (r: real)
    ensures r >= 0.0
  {
    flavorMb as real * SAFE_WEIGHT_FRACTION * MB
  }

  function Weight(layers: int, perLayer: real): real {
    layers as real * perLayer
  }

  /** The number of whole layers that fit in the safe part of a flavor's memory. */
  function MaxLayers(flavorMb: nat, modelBytes: nat, total: nat): (r: nat)
    requires modelBytes > 0 && total > 0
    ensures Weight(r, PerLayer(modelBytes, total)) <= Budget(flavorMb)
    ensures Weight(r + 1, PerLayer(modelBytes, total)) > Budget(flavorMb)
  {
    var perLayer := PerLayer(modelBytes, total);
    var q := Quotient(Budget(flavorMb), perLayer);
    Bracket(Whole(q), q, perLayer);
    Whole(q)
  }

  lemma TimesMonotone(a: real, b: real, c: real)
    requires c > 0.0
    ensures a <= b ==> a * c <= b * c
    ensures a < b ==> a * c < b * c
  {
    if a < b {
      assert (b - a) * c > 0.0;
      assert (b - a) * c == b * c - a * c;
    }
  }

  lemma WeightMonotone(m: int, n: int, perLayer: real)
    requires perLayer > 0.0
    ensures m <= n ==> Weight(m, perLayer) <= Weight(n, perLayer)
  {
    if m <= n {
      TimesMonotone(m as real, n as real, perLayer);
    }
  }

  lemma Bracket(f: int, q: real, perLayer: real)
    requires perLayer > 0.0 && f as real <= q < (f + 1) as real
    ensures Weight(f, perLayer) <= q * perLayer < Weight(f + 1, perLayer)
  {
    TimesMonotone(f as real, q, perLayer);
    TimesMonotone(q, (f + 1) as real, perLayer);
  }

  function Quotient(budget: real, perLayer: real): (q: real)
    requires budget >= 0.0 && perLayer > 0.0
    ensures q * perLayer == budget && q >= 0.0
  {
    budget / perLayer
  }

  function Whole(q: real): (f: nat)
    requires q >= 0.0
    ensures f as real <= q < (f + 1) as real
  {
    q.Floor
  }

  /** A split that leaves `layers` to the workers and the rest to the coordinator. */
  predicate Fits(layers: int, total: nat, coordinatorMb: nat, workerMb: nat, modelBytes: nat)
    requires modelBytes > 0 && total > 0
  {
    && Weight(layers, PerLayer(modelBytes, total)) <= Budget(workerMb)
    && Weight(total - layers, PerLayer(modelBytes, total)) <= Budget(coordinatorMb)
  }

  /** `compute_offload_layers`, once the layer count is known. A flavor size of 0 is an unknown one. */
  method OffloadLayers(total: nat, coordinator: Stats, workers: seq<Stats>,
                       coordinatorMb: nat, workerMb: nat, modelBytes: nat) returns (r: Option<int>)
    requires modelBytes > 0
    ensures r == Split(total, coordinator, workers, coordinatorMb, workerMb, modelBytes)
  {
    hide Capacity, Round, MaxLayers;
    if total < 2 || workers == [] {
      return None;
    }
    var workerCap := 0.0;
    for i := 0 to |workers|
      invariant workerCap == Sum(workers[..i])
    {
      assert workers[..i + 1][..i] == workers[..i];
      workerCap := workerCap + Capacity(workers[i]);
    }
    assert workers[..|workers|] == workers;
    var totalCap := Capacity(coordinator) + workerCap;
    if totalCap <= 0.0 {
      return None;
    }
    assert total as real * (workerCap / totalCap) == Weighted(total, coordinator, workers);
    var layers := Round(total as real * (workerCap / totalCap));
    layers := Clamp(1, total - 1, layers);
    if coordinatorMb > 0 && workerMb > 0 {
      var maxWorker := MaxLayers(workerMb, modelBytes, total);
      var maxCoordinator := MaxLayers(coordinatorMb, modelBytes, total);
      var minWorker: int := total - maxCoordinator;
      if minWorker > maxWorker {
        return None;
      }
      layers := if layers > maxWorker then maxWorker else layers;
      layers := if layers < minWorker then minWorker else layers;
      layers := Clamp(1, total - 1, layers);
    }
    r := Some(layers);
  }

  /** `compute_offload_layers`; None when there is nothing to compute or no split fits. */
  function Split(total: nat, coordinator: Stats, workers: seq<Stats>,
                 coordinatorMb: nat, workerMb: nat, modelBytes: nat): Option<int>
    requires modelBytes > 0
  {
    if total < 2 || workers == [] || Capacity(coordinator) + Sum(workers) <= 0.0 then None
    else
      var wanted := Clamp(1, total - 1, Round(Weighted(total, coordinator, workers)));
      if coordinatorMb == 0 || workerMb == 0 then Some(wanted)
      else
        var maxWorker := MaxLayers(workerMb, modelBytes, total);
        var minWorker := total - MaxLayers(coordinatorMb, modelBytes, total);
        if minWorker > maxWorker then None
        else Some(Clamp(1, total - 1, Clamp(minWorker, maxWorker, wanted)))
  }

  /** A returned count always leaves at least one layer on each side. */
  lemma SplitInRange(total: nat, coordinator: Stats, workers: seq<Stats>,
                     coordinatorMb: nat, workerMb: nat, modelBytes: nat)
    requires modelBytes > 0
    ensures var r := Split(total, coordinator, workers, coordinatorMb, workerMb, modelBytes);
            r.Some? ==> 1 <= r.value <= total - 1
  {
    hide MaxLayers, Weighted, Round, Capacity, Sum;
  }

  // ----- the memory stage -----

  lemma FitsIff(layers: int, total: nat, flavorMb: nat, modelBytes: nat)
    requires modelBytes > 0 && total > 0
    ensures Weight(layers, PerLayer(modelBytes, total)) <= Budget(flavorMb)
       <==> layers <= MaxLayers(flavorMb, modelBytes, total)
  {
    hide MaxLayers, Weight, PerLayer, Budget;
    var m := MaxLayers(flavorMb, modelBytes, total);
    WeightMonotone(layers, m, PerLayer(modelBytes, total));
    WeightMonotone(m + 1, layers, PerLayer(modelBytes, total));
  }

  /** The layer counts that fit are exactly those between the two bounds the code computes. */
  lemma FitsBetween(layers: int, total: nat, coordinatorMb: nat, workerMb: nat, modelBytes: nat)
    requires modelBytes > 0 && total > 0
    ensures Fits(layers, total, coordinatorMb, workerMb, modelBytes)
       <==> total - MaxLayers(coordinatorMb, modelBytes, total) <= layers <= MaxLayers(workerMb, modelBytes, total)
  {
    FitsIff(layers, total, workerMb, modelBytes);
    FitsIff(total - layers, total, coordinatorMb, modelBytes);
    hide MaxLayers;
  }

  /** With both flavor sizes known, the result is None exactly when no division of the layers fits. */
  lemma {:induction false} NoneIffNothingFits(total: nat, coordinator: Stats, workers: seq<Stats>,
                                              coordinatorMb: nat, workerMb: nat, modelBytes: nat)
    requires modelBytes > 0 && coordinatorMb > 0 && workerMb > 0
    requires total >= 2 && workers != [] && Capacity(coordinator) + Sum(workers) > 0.0
    ensures Split(total, coordinator, workers, coordinatorMb, workerMb, modelBytes).None?
       <==> forall layers | 0 <= layers <= total :: !Fits(layers, total, coordinatorMb, workerMb, modelBytes)
  {
    forall layers
      ensures Fits(layers, total, coordinatorMb, workerMb, modelBytes)
         <==> total - MaxLayers(coordinatorMb, modelBytes, total) <= layers <= MaxLayers(workerMb, modelBytes, total)
    {
      FitsBetween(layers, total, coordinatorMb, workerMb, modelBytes);
    }
    var maxWorker := MaxLayers(workerMb, modelBytes, total);
    var minWorker := total - MaxLayers(coordinatorMb, modelBytes, total);
    hide MaxLayers, Fits, Weighted, Round, Capacity, Sum;
    if minWorker <= maxWorker {
      var some := if minWorker < 0 then 0 else minWorker;
      assert Fits(some, total, coordinatorMb, workerMb, modelBytes);
    }
  }

  /** A returned count fits both flavors exactly when each of them has room for at least one layer. */
  lemma {:induction false} ResultFitsIff(total: nat, coordinator: Stats, workers: seq<Stats>,
                                         coordinatorMb: nat, workerMb: nat, modelBytes: nat)
    requires modelBytes > 0 && coordinatorMb > 0 && workerMb > 0 && total > 0
    ensures var r := Split(total, coordinator, workers, coordinatorMb, workerMb, modelBytes);
            r.Some? ==>
              (Fits(r.value, total, coordinatorMb, workerMb, modelBytes)
               <==> MaxLayers(workerMb, modelBytes, total) >= 1 && MaxLayers(coordinatorMb, modelBytes, total) >= 1)
  {
    var r := Split(total, coordinator, workers, coordinatorMb, workerMb, modelBytes);
    if r.Some? {
      FitsBetween(r.value, total, coordinatorMb, workerMb, modelBytes);
      hide MaxLayers, Fits, Weighted, Round, Capacity, Sum;
    }
  }

  const Even := Stats(4.0, 0.0)

  /** A flavor without room for a layer: two layers of 2 MiB, one of them left to a 1 MB worker. */
  lemma {:induction false} OverfullSplit()
    ensures Split(2, Even, [Even], 8192, 1, 4 * 1024 * 1024) == Some(1)
    ensures !Fits(1, 2, 8192, 1, 4 * 1024 * 1024)
  {
    var model := 4 * 1024 * 1024;
    assert PerLayer(model, 2) == 2.0 * MB && Budget(1) == 0.75 * MB && Budget(8192) == 6144.0 * MB;
    FitsIff(1, 2, 1, model);
    FitsIff(2, 2, 8192, model);
    assert Weighted(2, Even, [Even]) == 1.0 by {
      assert Capacity(Even) == 4.0;
      assert [Even][..0] == [];
      assert Sum([Even]) == 4.0;
    }
    hide MaxLayers, Weighted;
    assert Round(1.0) == 1;
  }

  // ----- the nearest feasible count -----

  function Distance(n: int, x: real): real {
    if n as real < x then x - n as real else n as real - x
  }

  lemma {:induction false} RoundIsNearest(x: real, n: int)
    ensures Distance(Round(x), x) <= Distance(n, x)
  {
    var f := x.Floor;
    RoundChoice(x);
    hide Round;
    if n <= f {
      assert n as real <= f as real;
    } else {
      assert n as real >= (f + 1) as real;
    }
  }

  lemma RoundChoice(x: real)
    ensures x.Floor as real <= x < (x.Floor + 1) as real
    ensures Round(x) == x.Floor || Round(x) == x.Floor + 1
    ensures Round(x) == x.Floor ==> x - x.Floor as real <= 0.5
    ensures Round(x) == x.Floor + 1 ==> x - x.Floor as real >= 0.5
  {
  }

  lemma {:induction false} ClampIsNearest(lo: int, hi: int, x: real, n: int)
    requires lo <= n <= hi
    ensures Distance(Clamp(lo, hi, Round(x)), x) <= Distance(n, x)
  {
    RoundIsNearest(x, n);
    RoundChoice(x);
    hide Round;
    var w := Round(x);
    if w < lo {
      assert (w + 1) as real <= lo as real <= n as real;
    } else if w > hi {
      assert n as real <= hi as real <= (w - 1) as real;
    }
  }

  lemma ClampTwice(lo: int, hi: int, a: int, b: int, x: int)
    requires lo <= hi && a <= b && a <= hi && lo <= b
    ensures Clamp(lo, hi, Clamp(a, b, Clamp(lo, hi, x)))
         == Clamp(if lo < a then a else lo, if b < hi then b else hi, x)
  {
  }

  /** When each flavor has room for a layer, a result is the feasible count nearest to the exact
      CPU-weighted share (and it fits, by `ResultFitsIff`). */
  lemma {:induction false} NearestFeasible(total: nat, coordinator: Stats, workers: seq<Stats>,
                                           coordinatorMb: nat, workerMb: nat, modelBytes: nat, n: int)
    requires modelBytes > 0 && coordinatorMb > 0 && workerMb > 0 && 1 <= n <= total - 1
    ensures var r := Split(total, coordinator, workers, coordinatorMb, workerMb, modelBytes);
            r.Some? && MaxLayers(workerMb, modelBytes, total) >= 1 && MaxLayers(coordinatorMb, modelBytes, total) >= 1
            && Fits(n, total, coordinatorMb, workerMb, modelBytes) ==>
              var x := Weighted(total, coordinator, workers);
              Distance(r.value, x) <= Distance(n, x)
  {
    var r := Split(total, coordinator, workers, coordinatorMb, workerMb, modelBytes);
    var maxWorker := MaxLayers(workerMb, modelBytes, total);
    var maxCoordinator := MaxLayers(coordinatorMb, modelBytes, total);
    FitsBetween(n, total, coordinatorMb, workerMb, modelBytes);
    hide MaxLayers, Fits, Round, Capacity, Sum;
    if r.Some? && maxWorker >= 1 && maxCoordinator >= 1 && Fits(n, total, coordinatorMb, workerMb, modelBytes) {
      var x := Weighted(total, coordinator, workers);
      hide Weighted;
      var minWorker := total - maxCoordinator;
      var lo, hi := if 1 < minWorker then minWorker else 1, if maxWorker < total - 1 then maxWorker else total - 1;
      ClampTwice(1, total - 1, minWorker, maxWorker, Round(x));
      ClampIsNearest(lo, hi, x, n);
    }
  }

  // ----- the quantities themselves -----

  /** The idle share of the cores, and a twentieth of them when less is idle. */
  lemma CapacityMeaning(s: Stats)
    ensures s.loadPercent <= 95.0 ==> 100.0 * Capacity(s) == s.cores * (100.0 - s.loadPercent)
    ensures s.loadPercent >= 95.0 ==> 20.0 * Capacity(s) == s.cores
  {
    var free := 1.0 - s.loadPercent / 100.0;
    assert 100.0 * free == 100.0 - s.loadPercent;
    assert 100.0 * (s.cores * free) == s.cores * (100.0 * free);
  }

  /** The exact share: the workers' capacity is to everyone's as their layers are to all. */
  lemma WeightedMeaning(total: nat, coordinator: Stats, workers: seq<Stats>)
    requires Capacity(coordinator) + Sum(workers) > 0.0
    ensures Weighted(total, coordinator, workers) * (Capacity(coordinator) + Sum(workers))
         == total as real * Sum(workers)
  {
    hide Capacity, Sum;
    var all, mine := Capacity(coordinator) + Sum(workers), Sum(workers);
    assert mine / all * all == mine;
    assert total as real * (mine / all) * all == total as real * (mine / all * all);
  }

  /** Every worker counts once, in any order. */
  lemma SumMeaning(stats: seq<Stats>, s: Stats)
    ensures Sum([]) == 0.0
    ensures Sum(stats + [s]) == Sum(stats) + Capacity(s)
  {
    hide Capacity;
    assert (stats + [s])[..|stats|] == stats;
  }

  /** Ties are rounded to the even neighbour. */
  lemma RoundTies(k: int)
    ensures Round(k as real) == k
    ensures Round(k as real + 0.5) == if k % 2 == 0 then k else k + 1
  {
    assert (k as real + 0.5).Floor == k;
  }

  /** In whole bytes: each side's weights, scaled by the number of layers, stay within three quarters of
      its flavor's megabytes. */
  lemma FitsInBytes(layers: int, total: nat, coordinatorMb: nat, workerMb: nat, modelBytes: nat)
    requires modelBytes > 0 && total > 0
    ensures Fits(layers, total, coordinatorMb, workerMb, modelBytes)
       <==> && layers * modelBytes <= 786432 * workerMb * total
            && (total - layers) * modelBytes <= 786432 * coordinatorMb * total
  {
    SideInBytes(layers, total, workerMb, modelBytes);
    SideInBytes(total - layers, total, coordinatorMb, modelBytes);
    hide Weight, PerLayer, Budget;
  }

  lemma SideInBytes(layers: int, total: nat, flavorMb: nat, modelBytes: nat)
    requires modelBytes > 0 && total > 0
    ensures Weight(layers, PerLayer(modelBytes, total)) <= Budget(flavorMb)
       <==> layers * modelBytes <= 786432 * flavorMb * total
  {
    var w, b, t := Weight(layers, PerLayer(modelBytes, total)), Budget(flavorMb), total as real;
    assert w * t == (layers * modelBytes) as real by {
      var per := PerLayer(modelBytes, total);
      assert per * t == modelBytes as real;
      assert layers as real * per * t == layers as real * (per * t);
    }
    assert b == (786432 * flavorMb) as real;
    assert b * t == (786432 * flavorMb * total) as real;
    TimesMonotone(w, b, t);
    TimesMonotone(b, w, t);
  }

  /** There is nothing to compute with fewer than two layers, without workers or without capacity; and with
      a flavor size unknown the result is the nearest count that leaves a layer on each side. */
  lemma WithoutFlavors(total: nat, coordinator: Stats, workers: seq<Stats>, coordinatorMb: nat, workerMb: nat,
                       modelBytes: nat, n: int)
    requires modelBytes > 0
    ensures var r := Split(total, coordinator, workers, coordinatorMb, workerMb, modelBytes);
            var some := total >= 2 && |workers| > 0 && Capacity(coordinator) + Sum(workers) > 0.0;
            && (!some ==> r.None?)
            && (some && (coordinatorMb == 0 || workerMb == 0) ==>
                  var x := Weighted(total, coordinator, workers);
                  && r.Some?
                  && (1 <= n <= total - 1 ==> Distance(r.value, x) <= Distance(n, x)))
  {
    if total >= 2 && |workers| > 0 && Capacity(coordinator) + Sum(workers) > 0.0 && 1 <= n <= total - 1 {
      ClampIsNearest(1, total - 1, Weighted(total, coordinator, workers), n);
    }
    hide Round, Weighted, Capacity, Sum, Distance, MaxLayers;
  }

  /** A busy coordinator with four cores at 80% and an idle worker with eight: forty-four layers of
      forty-eight go to the worker. */
  lemma BusyAndIdle()
    ensures Split(48, Stats(4.0, 80.0), [Stats(8.0, 0.0)], 0, 0, 1) == Some(44)
  {
    var busy, idle := Stats(4.0, 80.0), Stats(8.0, 0.0);
    CapacityMeaning(busy);
    CapacityMeaning(idle);
    SumMeaning([], idle);
    assert [] + [idle] == [idle];
    assert Capacity(busy) == 0.8 && Sum([idle]) == 8.0;
    WeightedMeaning(48, busy, [idle]);
    var x := Weighted(48, busy, [idle]);
    assert x * 8.8 == 384.0;
    hide Capacity, Sum, Weighted;
    assert 43.6 < x < 43.7;
    assert x.Floor == 43;
  }
}
