/** Day 1: the fuel a module needs for its mass, and the total over a list
    of modules, in `src/bin/day1/main.rs`. */
module Fuel {
  import opened Arith

  /** `get_fuel_requirements`: a third of the mass, rounded toward zero as
      Rust's `/` rounds, less two. */
  function FuelFor(mass: int): (f: int)
    ensures mass >= 0 ==> 3 * (f + 2) <= mass < 3 * (f + 2) + 3
    ensures mass < 0 ==> 3 * (f + 2) - 3 < mass <= 3 * (f + 2)
  {
    TruncDiv(mass, 3) - 2
  }

  /** The worked examples of `test_get_fuel_requirements`. */
  lemma FuelExamples()
    ensures FuelFor(12) == 2 && FuelFor(14) == 2
    ensures FuelFor(1969) == 654 && FuelFor(100756) == 33583
  {
  }

  /** A heavier module never needs less fuel. */
  lemma FuelMonotone(a: int, b: int)
    requires a <= b
    ensures FuelFor(a) <= FuelFor(b)
  {
  }

  /** The three masses `3k`, `3k+1` and `3k+2` of a non-negative block need
      the same fuel, `k - 2`. */
  lemma FuelOfBlock(k: nat, extra: nat)
    requires extra < 3
    ensures FuelFor(3 * k + extra) == k - 2
  {
    DivUnique(3 * k + extra, 3, k, extra);
  }

  /** No module of non-negative mass needs less than -2. */
  lemma FuelLowerBound(mass: int)
    requires mass >= 0
    ensures FuelFor(mass) >= -2
  {
  }

  /** `part1`: the sum of the fuel of every module; each module of
      non-negative mass takes at least -2 from it. */
  function TotalFuel(masses: seq<int>): (total: int)
    ensures |masses| == 0 ==> total == 0
    ensures (forall i | 0 <= i < |masses| :: masses[i] >= 0) ==> total >= -2 * |masses|
    decreases |masses|
  {
    if |masses| == 0 then 0 else FuelFor(masses[0]) + TotalFuel(masses[1..])
  }

  /** The total over a concatenation is the sum of the totals. */
  lemma {:induction false} TotalFuelAppend(xs: seq<int>, ys: seq<int>)
    ensures TotalFuel(xs + ys) == TotalFuel(xs) + TotalFuel(ys)
    decreases |xs|
  {
    if |xs| == 0 {
      assert xs + ys == ys;
    } else {
      assert (xs + ys)[1..] == xs[1..] + ys;
      TotalFuelAppend(xs[1..], ys);
    }
  }

  /** Every module of mass at least 9 needs fuel, so a list of them needs at
      least one unit per module. */
  lemma {:induction false} TotalFuelAtLeast(masses: seq<int>)
    requires forall i | 0 <= i < |masses| :: masses[i] >= 9
    ensures TotalFuel(masses) >= |masses|
    decreases |masses|
  {
    if |masses| > 0 {
      FuelMonotone(9, masses[0]);
      TotalFuelAtLeast(masses[1..]);
    }
  }

  /** `part1` as the source runs it: the iterator's sum, front to back. */
  method SumFuel(masses: seq<int>) returns (total: int)
    ensures total == TotalFuel(masses)
  {
    total := 0;
    var i := 0;
    while i < |masses|
      invariant 0 <= i <= |masses|
      invariant total == TotalFuel(masses[..i])
    {
      TotalFuelAppend(masses[..i], [masses[i]]);
      assert masses[..i + 1] == masses[..i] + [masses[i]];
      total := total + FuelFor(masses[i]);
      i := i + 1;
    }
    assert masses[..i] == masses;
  }
}
