/**
 * The unit choice of `CpuCyclesToString`: the count is divided by 1000
 * while it is at least 1000 and a larger unit remains. The suffix list
 * starts at "k", so a count that is never divided is labelled "k". The
 * final number formatting is not modelled.
 */
module CpuCycles {

  /** The unit suffixes, smallest first. */
  const CycleUnits: seq<string> := ["k", "M", "G", "T", "P", "E", "Z", "Y"]

  /** 1000 to the power `n`. */
  function Pow1000(n: nat): (r: real)
    ensures r >= 1.0
  {
    if n == 0 then 1.0 else 1000.0 * Pow1000(n - 1)
  }

  /**
   * `scaled` is `cycles` expressed in unit `index`: the count was divided
   * `index` times, each time while it was still at least 1000, and it
   * stops below 1000 unless the largest unit is reached.
   */
  ghost predicate IsUnitScaling(cycles: real, scaled: real, index: int)
  {
    && 0 <= index < |CycleUnits|
    && scaled == cycles / Pow1000(index)
    && (index + 1 < |CycleUnits| ==> scaled < 1000.0)
    && (forall j :: 0 <= j < index ==> cycles / Pow1000(j) >= 1000.0)
  }

  /** Dividing the count scaled to unit `n` by 1000 scales it to unit `n + 1`. */
  lemma DivideStep(cycles: real, n: nat)
    ensures cycles / Pow1000(n) / 1000.0 == cycles / Pow1000(n + 1)
  {
    var p := Pow1000(n);
    var x := cycles / p;
    assert x * p == cycles;
    assert (x / 1000.0) * (1000.0 * p) == x * p;
  }

  /** The loop of `CpuCyclesToString`: the scaled count, the unit index and its suffix. */
  method ScaleCpuCycles(cpuCycles: real) returns (scaled: real, index: int, unit: string)
    ensures IsUnitScaling(cpuCycles, scaled, index)
    ensures unit == CycleUnits[index]
    ensures cpuCycles < 1000.0 ==> index == 0 && scaled == cpuCycles && unit == "k"
  {
    scaled := cpuCycles;
    index := 0;
    while scaled >= 1000.0 && index + 1 < |CycleUnits|
      invariant 0 <= index < |CycleUnits|
      invariant scaled == cpuCycles / Pow1000(index)
      invariant forall j :: 0 <= j < index ==> cpuCycles / Pow1000(j) >= 1000.0
      decreases |CycleUnits| - index
    {
      DivideStep(cpuCycles, index);
      index := index + 1;
      scaled := scaled / 1000.0;
    }
    unit := CycleUnits[index];
  }

  /** The scaling is determined by the count: two scalings of one count agree. */
  lemma UnitScalingIsUnique(cycles: real, scaled1: real, index1: int, scaled2: real, index2: int)
    requires IsUnitScaling(cycles, scaled1, index1)
    requires IsUnitScaling(cycles, scaled2, index2)
    ensures index1 == index2 && scaled1 == scaled2
  {
  }

  /** 2,500,000 cycles are divided twice and labelled "G". */
  lemma TwoAndAHalfMillionCycles(scaled: real, index: int)
    requires IsUnitScaling(2500000.0, scaled, index)
    ensures index == 2 && scaled == 2.5 && CycleUnits[index] == "G"
  {
    assert Pow1000(2) == 1000000.0;
    assert IsUnitScaling(2500000.0, 2.5, 2);
    UnitScalingIsUnique(2500000.0, scaled, index, 2.5, 2);
  }
}
