/** Picking targets evenly spread over a population of zero sectors. */
module SpreadIndex {
  import opened Common

  /** e_select_spread_index: the even choice, clamped between its neighbours. */
  function Select(zeroCount: nat, targetCount: nat, index: nat, previous: int): int
    requires index < targetCount
  {
    var remaining := targetCount - index;
    var minIndex := if index == 0 then 0 else previous + 1;
    var maxIndex := zeroCount - remaining;
    var desired := if targetCount <= 1 || zeroCount <= 1 then 0 else (index * (zeroCount - 1)) / (targetCount - 1);
    var raised := if desired < minIndex then minIndex else desired;
    if raised > maxIndex then maxIndex else raised
  }

  /** The indices picked one after the other, each from the one before it. */
  function Picked(zeroCount: nat, targetCount: nat, index: nat): int
    requires index < targetCount <= zeroCount
  {
    if index == 0 then Select(zeroCount, targetCount, 0, 0)
    else Select(zeroCount, targetCount, index, Picked(zeroCount, targetCount, index - 1))
  }

  function Even(zeroCount: nat, targetCount: nat, index: nat): int
    requires 2 <= targetCount <= zeroCount
  {
    (index * (zeroCount - 1)) / (targetCount - 1)
  }

  lemma DivMonotone(x: int, y: int, b: int)
    requires x <= y && b > 0
    ensures x / b <= y / b
  {
    var d := x / b - y / b;
    assert b * d == (x - x % b) - (y - y % b);
    MultipleSize(b, d);
  }

  lemma DivStep(x: int, a: int, b: int)
    requires a >= b > 0
    ensures (x + a) / b >= x / b + 1
  {
    assert x + b == b * (x / b + 1) + x % b;
    DivUnique(x + b, b, x / b + 1, x % b);
    DivMonotone(x + b, x + a, b);
  }

  lemma EvenIncreases(z: nat, t: nat, i: nat)
    requires 2 <= t <= z
    ensures Even(z, t, i) + 1 <= Even(z, t, i + 1)
  {
    assert (i + 1) * (z - 1) == i * (z - 1) + (z - 1);
    DivStep(i * (z - 1), z - 1, t - 1);
  }

  lemma EvenEnds(z: nat, t: nat)
    requires 2 <= t <= z
    ensures Even(z, t, 0) == 0 && Even(z, t, t - 1) == z - 1
  {
    DivUnique((t - 1) * (z - 1), t - 1, z - 1, 0);
  }

  lemma {:induction false} EvenNonnegative(z: nat, t: nat, i: nat)
    requires 2 <= t <= z
    ensures Even(z, t, i) >= 0
  {
    if i == 0 {
      EvenEnds(z, t);
    } else {
      EvenNonnegative(z, t, i - 1);
      EvenIncreases(z, t, i - 1);
    }
  }

  /** Enough room is left after each even index for all that are still to be picked. */
  lemma {:induction false} EvenLeavesRoom(z: nat, t: nat, i: nat)
    requires 2 <= t <= z && i < t
    ensures Even(z, t, i) <= z - (t - i)
    decreases t - i
  {
    if i == t - 1 {
      EvenEnds(z, t);
    } else {
      EvenLeavesRoom(z, t, i + 1);
      EvenIncreases(z, t, i);
    }
  }

  /** Neither clamp ever acts: the picked indices are the even ones, strictly increasing from the first
      candidate to the last. */
  lemma {:induction false} PickedIsEven(z: nat, t: nat, i: nat)
    requires 2 <= t <= z && i < t
    ensures Picked(z, t, i) == Even(z, t, i)
    ensures 0 <= Picked(z, t, i) < z
    ensures i > 0 ==> Picked(z, t, i - 1) < Picked(z, t, i)
    ensures i == 0 ==> Picked(z, t, i) == 0
    ensures i == t - 1 ==> Picked(z, t, i) == z - 1
  {
    EvenLeavesRoom(z, t, i);
    EvenEnds(z, t);
    EvenNonnegative(z, t, i);
    if i > 0 {
      PickedIsEven(z, t, i - 1);
      EvenIncreases(z, t, i - 1);
    }
  }

  lemma {:induction false} PickedAscending(z: nat, t: nat, i: nat, j: nat)
    requires 2 <= t <= z && i < j < t
    ensures 0 <= Picked(z, t, i) < Picked(z, t, j) < z
  {
    PickedIsEven(z, t, j);
    PickedIsEven(z, t, j - 1);
    if i < j - 1 {
      PickedAscending(z, t, i, j - 1);
    }
  }
}
