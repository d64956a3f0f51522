/** The progress value that the remote-upload route streams: emitted only when
    the Content-Length is known and non-zero, and then
    `Math.round(loaded / total * 100)`, here in exact integer arithmetic. */
module Progress {
  import opened Wrappers

  /** Multiplying by a non-negative factor keeps order (by induction on the
      factor, so that no non-linear arithmetic is left to the solver). */
  lemma {:induction false} MulMonotone(t: nat, x: int, y: int)
    requires x <= y
    ensures t * x <= t * y
  {
    if t > 0 {
      MulMonotone(t - 1, x, y);
      assert t * x == (t - 1) * x + x;
      assert t * y == (t - 1) * y + y;
    }
  }

  /** `Math.round(loaded / total * 100)`: `Math.round` rounds halves up, so
      this is the floor of `100 * loaded / total + 1/2`. */
  function Percent(loaded: nat, total: nat): (p: nat)
    requires total > 0
  {
    (200 * loaded + total) / (2 * total)
  }

  /** The meaning of the rounding, independent of the formula: `p` is the
      integer nearest to `100 * loaded / total`, a half going up. */
  ghost predicate RoundsHalfUp(loaded: nat, total: nat, p: int) {
    total * (2 * p - 1) <= 200 * loaded < total * (2 * p + 1)
  }

  lemma PercentRoundsHalfUp(loaded: nat, total: nat)
    requires total > 0
    ensures RoundsHalfUp(loaded, total, Percent(loaded, total))
  {
    var p := Percent(loaded, total);
    var n, d := 200 * loaded + total, 2 * total;
    assert d * p <= n < d * p + d;
    assert total * (2 * p - 1) == d * p - total;
    assert total * (2 * p + 1) == d * p + total;
  }

  /** At most one integer rounds a given fraction. */
  lemma RoundsHalfUpUnique(loaded: nat, total: nat, p: int, q: int)
    requires total > 0
    requires RoundsHalfUp(loaded, total, p) && RoundsHalfUp(loaded, total, q)
    ensures p == q
  {
    if p < q {
      MulMonotone(total, 2 * p + 1, 2 * q - 1);
    } else if q < p {
      MulMonotone(total, 2 * q + 1, 2 * p - 1);
    }
  }

  /** The value the route emits for one progress event, or nothing when the
      total is zero (a missing Content-Length reads as 0, which is falsy). */
  function Progress(loaded: nat, total: nat): (p: Option<nat>)
    ensures p.Some? <==> total != 0
    ensures p.Some? ==> RoundsHalfUp(loaded, total, p.value)
  {
    if total == 0 then None
    else
      PercentRoundsHalfUp(loaded, total);
      Some(Percent(loaded, total))
  }

  /** Within the advertised length the value is a percentage. */
  lemma PercentBounds(loaded: nat, total: nat)
    requires 0 < total && loaded <= total
    ensures 0 <= Percent(loaded, total) <= 100
  {
    PercentRoundsHalfUp(loaded, total);
    var p := Percent(loaded, total);
    if p > 100 {
      MulMonotone(total, 201, 2 * p - 1);
    }
  }

  /** Nothing loaded gives 0 and everything loaded gives exactly 100. */
  lemma PercentEnds(total: nat)
    requires total > 0
    ensures Percent(0, total) == 0
    ensures Percent(total, total) == 100
  {
    PercentRoundsHalfUp(0, total);
    PercentRoundsHalfUp(total, total);
    assert RoundsHalfUp(0, total, 0);
    RoundsHalfUpUnique(0, total, 0, Percent(0, total));
    assert RoundsHalfUp(total, total, 100);
    RoundsHalfUpUnique(total, total, 100, Percent(total, total));
  }

  /** More bytes loaded never gives a smaller value. */
  lemma PercentMonotone(a: nat, b: nat, total: nat)
    requires total > 0 && a <= b
    ensures Percent(a, total) <= Percent(b, total)
  {
    PercentRoundsHalfUp(a, total);
    PercentRoundsHalfUp(b, total);
    var p, q := Percent(a, total), Percent(b, total);
    if p > q {
      MulMonotone(total, 2 * q + 1, 2 * p - 1);
    }
  }

  /** A body longer than its Content-Length is not clamped: the value can
      pass 100. */
  lemma PercentCanExceed100()
    ensures Percent(3, 2) == 150
  {
  }

  /** The values streamed for the `loaded` counts that the upload reports, in
      order: one per report when the total is non-zero, none otherwise. */
  function ProgressValues(reported: seq<nat>, total: nat): (vs: seq<nat>)
    ensures |vs| == if total == 0 then 0 else |reported|
  {
    if total == 0 || reported == [] then []
    else [Percent(reported[0], total)] + ProgressValues(reported[1..], total)
  }

  predicate NonDecreasing(s: seq<nat>) {
    forall i, j :: 0 <= i < j < |s| ==> s[i] <= s[j]
  }

  lemma {:induction false} ProgressValuesAt(reported: seq<nat>, total: nat, i: nat)
    requires total > 0 && i < |reported|
    ensures ProgressValues(reported, total)[i] == Percent(reported[i], total)
  {
    if i > 0 {
      ProgressValuesAt(reported[1..], total, i - 1);
    }
  }

  /** Reports of non-decreasing `loaded` counts that stay within the total
      stream non-decreasing percentages in [0, 100], and the last is 100 when
      the last report covers the whole length. */
  lemma ProgressValuesAreMonotone(reported: seq<nat>, total: nat)
    requires total > 0
    requires NonDecreasing(reported)
    requires forall i :: 0 <= i < |reported| ==> reported[i] <= total
    ensures NonDecreasing(ProgressValues(reported, total))
    ensures forall i :: 0 <= i < |reported| ==> ProgressValues(reported, total)[i] <= 100
    ensures reported != [] && reported[|reported| - 1] == total ==>
      ProgressValues(reported, total)[|reported| - 1] == 100
  {
    var vs := ProgressValues(reported, total);
    forall i, j | 0 <= i < j < |vs| ensures vs[i] <= vs[j] {
      ProgressValuesAt(reported, total, i);
      ProgressValuesAt(reported, total, j);
      PercentMonotone(reported[i], reported[j], total);
    }
    forall i | 0 <= i < |reported| ensures vs[i] <= 100 {
      ProgressValuesAt(reported, total, i);
      PercentBounds(reported[i], total);
    }
    if reported != [] && reported[|reported| - 1] == total {
      ProgressValuesAt(reported, total, |reported| - 1);
      PercentEnds(total);
    }
  }
}
