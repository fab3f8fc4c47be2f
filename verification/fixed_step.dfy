/**
 * The fixed-timestep accumulator of the package's `Harness._update`:
 * elapsed seconds pile up in an accumulator, and while it holds strictly
 * more than one update interval (1/80 s) every update handler runs once with
 * that interval and one interval is taken off. Time is an exact `real`.
 */
module FixedStep {
  import opened Handlers

  /** Update rounds per second (`UFPS`). */
  const Ufps: int := 80

  /** The fixed interval handed to every update handler (`UFPS_DT`). */
  const UfpsDt: real := 1.0 / 80.0

  /** Smallest integer not below `x`. */
  function Ceil(x: real): int {
    -((-x).Floor)
  }

  /**
   * Rounds run when the accumulator holds `total` after a tick is added:
   * none while `total <= UfpsDt`, otherwise one fewer than ceil(total / UfpsDt),
   * because a value equal to the interval is not drained.
   */
  function Rounds(total: real): nat
  {
    if total <= UfpsDt then 0 else Ceil(Ufps as real * total) - 1
  }

  /** What stays in the accumulator after those rounds. */
  function Leftover(total: real): real
  {
    total - Rounds(total) as real * UfpsDt
  }

  /**
   * `k` rounds drained `total` down to `left` under the strict test: the last
   * value is not above one interval, and a value was only drained when it was
   * above one interval, so after any round something positive is left.
   */
  ghost predicate Drained(total: real, k: nat, left: real)
  {
    && left == total - k as real * UfpsDt
    && left <= UfpsDt
    && (k > 0 ==> left > 0.0)
  }

  /** The strict-test draining of a total has exactly one outcome, `Rounds` and `Leftover`. */
  lemma DrainedUnique(total: real, k: nat, left: real)
    requires Drained(total, k, left)
    ensures k == Rounds(total) && left == Leftover(total)
  {
    if k > 0 {
      assert Ufps as real * total == k as real + Ufps as real * left;
      assert 0.0 < Ufps as real * left <= 1.0;
      assert Ceil(Ufps as real * total) == k + 1;
    }
  }

  /** `Rounds` and `Leftover` are a strict-test draining of `total`. */
  lemma RoundsDrain(total: real)
    ensures Drained(total, Rounds(total), Leftover(total))
  {
    if total > UfpsDt {
      var c := Ceil(Ufps as real * total);
      assert c as real - 1.0 < Ufps as real * total <= c as real;
    }
  }

  /**
   * `Harness._update(dt)`: add the tick, then while the accumulator is above
   * one interval run one round of update handlers with `UfpsDt` and take an
   * interval off. The calls made are the rounds, in order.
   */
  method Update(acc: real, dt: real, handlers: seq<Handler>) returns (acc': real, calls: seq<Call<real>>)
    ensures acc' == Leftover(acc + dt)
    ensures calls == RoundsOf(handlers, UfpsDt, Rounds(acc + dt))
    ensures acc' <= UfpsDt
    ensures 0.0 <= acc + dt ==> 0.0 <= acc'
    ensures Rounds(acc + dt) > 0 ==> acc' > 0.0
  {
    acc' := acc + dt;
    calls := [];
    ghost var k: nat := 0;
    while acc' > UfpsDt
      invariant acc' == acc + dt - k as real * UfpsDt
      invariant k > 0 ==> acc' > 0.0
      invariant calls == RoundsOf(handlers, UfpsDt, k)
      decreases (Ufps as real * acc').Floor
    {
      calls := calls + Round(handlers, UfpsDt);
      acc' := acc' - UfpsDt;
      k := k + 1;
    }
    DrainedUnique(acc + dt, k, acc');
  }

  /** The accumulator stays in [0, UfpsDt] from one call to the next. */
  lemma LeftoverInRange(acc: real, dt: real)
    requires 0.0 <= acc <= UfpsDt && 0.0 <= dt
    ensures 0.0 <= Leftover(acc + dt) <= UfpsDt
  {
    RoundsDrain(acc + dt);
  }

  /** Sum of the ticks. */
  function Sum(ticks: seq<real>): real
  {
    if |ticks| == 0 then 0.0 else ticks[0] + Sum(ticks[1..])
  }

  /** The accumulator and the total number of rounds after `_update` is called once per tick. */
  function Drive(acc: real, ticks: seq<real>): (real, nat)
    decreases |ticks|
  {
    if |ticks| == 0 then (acc, 0)
    else
      var total := acc + ticks[0];
      var next := Drive(Leftover(total), ticks[1..]);
      (next.0, Rounds(total) + next.1)
  }

  /** Feeding one more tick continues from where the earlier ticks left the accumulator. */
  lemma {:induction false} DriveSnoc(acc: real, ticks: seq<real>, dt: real)
    ensures var before := Drive(acc, ticks);
      Drive(acc, ticks + [dt]) == (Leftover(before.0 + dt), before.1 + Rounds(before.0 + dt))
    decreases |ticks|
  {
    if |ticks| > 0 {
      assert (ticks + [dt])[1..] == ticks[1..] + [dt];
      DriveSnoc(Leftover(acc + ticks[0]), ticks[1..], dt);
    }
  }

  /** Two successive calls drain exactly what one call on the joined time would. */
  lemma StepComposes(s: real, dt: real)
    requires 0.0 <= s && 0.0 <= dt
    ensures Leftover(Leftover(s) + dt) == Leftover(s + dt)
    ensures Rounds(s) + Rounds(Leftover(s) + dt) == Rounds(s + dt)
  {
    RoundsDrain(s);
    RoundsDrain(Leftover(s) + dt);
    var k := Rounds(s) + Rounds(Leftover(s) + dt);
    var left := Leftover(Leftover(s) + dt);
    assert left == s + dt - k as real * UfpsDt;
    DrainedUnique(s + dt, k, left);
  }

  /** Feeding ticks after `s` seconds have been fed behaves as one call on the whole time. */
  lemma {:induction false} DriveTotal(s: real, ticks: seq<real>)
    requires 0.0 <= s
    requires forall i :: 0 <= i < |ticks| ==> 0.0 <= ticks[i]
    ensures 0.0 <= Sum(ticks)
    ensures Drive(Leftover(s), ticks).0 == Leftover(s + Sum(ticks))
    ensures Rounds(s) + Drive(Leftover(s), ticks).1 == Rounds(s + Sum(ticks))
    decreases |ticks|
  {
    if |ticks| > 0 {
      StepComposes(s, ticks[0]);
      DriveTotal(s + ticks[0], ticks[1..]);
      assert s + ticks[0] + Sum(ticks[1..]) == s + Sum(ticks);
    }
  }

  /**
   * Starting from an empty accumulator, the rounds run over any tick sequence,
   * and what is left over, depend only on the total elapsed time.
   */
  lemma RoundsDependOnTotalOnly(ticks: seq<real>, ticks': seq<real>)
    requires forall i :: 0 <= i < |ticks| ==> 0.0 <= ticks[i]
    requires forall i :: 0 <= i < |ticks'| ==> 0.0 <= ticks'[i]
    requires Sum(ticks) == Sum(ticks')
    ensures Drive(0.0, ticks) == Drive(0.0, ticks')
    ensures Drive(0.0, ticks).1 == Rounds(Sum(ticks))
  {
    assert Leftover(0.0) == 0.0;
    DriveTotal(0.0, ticks);
    DriveTotal(0.0, ticks');
  }

  /** Ticks of 5, 3, 2 and 11 ms give 21 ms in all: one round, 8.5 ms left over. */
  lemma ExampleTicks()
    ensures Drive(0.0, [0.005, 0.003, 0.002, 0.011]) == (0.0085, 1)
  {
    var ticks := [0.005, 0.003, 0.002, 0.011];
    assert Sum(ticks) == 0.021;
    RoundsDependOnTotalOnly(ticks, [0.021]);
    assert Rounds(0.021) == 1;
  }

  /** Exactly two intervals of elapsed time give one round, not two: one interval is carried over. */
  lemma ExactMultipleCarriesOver()
    ensures Rounds(2.0 * UfpsDt) == 1 && Leftover(2.0 * UfpsDt) == UfpsDt
  {
    assert Ceil(Ufps as real * (2.0 * UfpsDt)) == 2;
  }
}
