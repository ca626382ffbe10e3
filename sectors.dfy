/** The geometry shared by both spinner wheels.

    A wheel is a sequence of sector widths `ws` (in turns), laid out one
    after another. Both wheels find the sector under the pointer by walking
    from a start angle and subtracting widths cyclically until the running
    angle drops below the rotation. If `y` is how far below the start angle
    the rotation lies, the walk stops in sector `k` of its `q`-th full pass
    exactly when `q * Total + Prefix(k) <= y < q * Total + Prefix(k + 1)`.
    `SectorIndex` is a reference definition of that sector which does not
    walk: it divides out the full passes and searches the remaining offset. */
module Sectors {
  import opened Reals

  /** Sum of the first `k` widths. */
  function Prefix(ws: seq<real>, k: nat): real
    requires k <= |ws|
  {
    if k == 0 then 0.0 else Prefix(ws, k - 1) + ws[k - 1]
  }

  /** The length of one full pass of the walk. */
  function Total(ws: seq<real>): real
  {
    Prefix(ws, |ws|)
  }

  ghost predicate NonNegative(ws: seq<real>)
  {
    forall i :: 0 <= i < |ws| ==> ws[i] >= 0.0
  }

  /** A usable wheel: at least one sector, none negative, positive total. */
  ghost predicate IsWheel(ws: seq<real>)
  {
    |ws| > 0 && NonNegative(ws) && Total(ws) > 0.0
  }

  /** The walk, descended a distance `y`, stops in pass `q` on sector `k`. */
  ghost predicate Lands(ws: seq<real>, y: real, q: nat, k: nat)
    requires k < |ws|
  {
    (q as real) * Total(ws) + Prefix(ws, k) <= y < (q as real) * Total(ws) + Prefix(ws, k + 1)
  }

  lemma {:induction false} PrefixMonotone(ws: seq<real>, i: nat, j: nat)
    requires NonNegative(ws) && i <= j <= |ws|
    ensures Prefix(ws, i) <= Prefix(ws, j)
  {
    if i < j {
      PrefixMonotone(ws, i, j - 1);
    }
  }

  /** A point lies in at most one window `[q * t, (q + 1) * t)`. */
  lemma PassUnique(t: real, y: real, q1: nat, q2: nat)
    requires t > 0.0
    requires (q1 as real) * t <= y < (q1 as real + 1.0) * t
    requires (q2 as real) * t <= y < (q2 as real + 1.0) * t
    ensures q1 == q2
  {
    if q1 < q2 {
      MulMonotone(q1 as real + 1.0, q2 as real, t);
    } else if q2 < q1 {
      MulMonotone(q2 as real + 1.0, q1 as real, t);
    }
  }

  /** Number of full passes made before descending `y`. */
  function Passes(ws: seq<real>, y: real): (q: nat)
    requires IsWheel(ws) && y >= 0.0
    ensures (q as real) * Total(ws) <= y < (q as real + 1.0) * Total(ws)
  {
    FloorWindow(y, Total(ws));
    (y / Total(ws)).Floor
  }

  /** How far into its last pass the walk is after descending `y`. */
  function Offset(ws: seq<real>, y: real): (off: real)
    requires IsWheel(ws) && y >= 0.0
    ensures 0.0 <= off < Total(ws)
  {
    var q := Passes(ws, y);
    assert (q as real + 1.0) * Total(ws) == (q as real) * Total(ws) + Total(ws);
    y - (q as real) * Total(ws)
  }

  /** The first sector from `k` on whose far edge lies beyond `off`. */
  function FirstAbove(ws: seq<real>, off: real, k: nat): (j: nat)
    requires IsWheel(ws) && 0.0 <= off < Total(ws)
    requires k < |ws| && Prefix(ws, k) <= off
    ensures k <= j < |ws|
    ensures Prefix(ws, j) <= off < Prefix(ws, j + 1)
    decreases |ws| - k
  {
    if off < Prefix(ws, k + 1) then k else FirstAbove(ws, off, k + 1)
  }

  /** The sector under the pointer once the walk has descended `y`. */
  function SectorIndex(ws: seq<real>, y: real): (k: nat)
    requires IsWheel(ws) && y >= 0.0
    ensures k < |ws| && Lands(ws, y, Passes(ws, y), k)
  {
    FirstAbove(ws, Offset(ws, y), 0)
  }

  /** Landing on a sector in pass `q` puts the descent inside that pass. */
  lemma LandsInPass(ws: seq<real>, y: real, q: nat, k: nat)
    requires IsWheel(ws) && k < |ws| && Lands(ws, y, q, k)
    ensures (q as real) * Total(ws) <= y < (q as real + 1.0) * Total(ws)
  {
    PrefixMonotone(ws, 0, k);
    PrefixMonotone(ws, k + 1, |ws|);
    assert (q as real + 1.0) * Total(ws) == (q as real) * Total(ws) + Total(ws);
  }

  /** Within one pass the descent lands on at most one sector. */
  lemma LandsOnceInPass(ws: seq<real>, y: real, q: nat, k1: nat, k2: nat)
    requires IsWheel(ws) && k1 < k2 < |ws|
    ensures !(Lands(ws, y, q, k1) && Lands(ws, y, q, k2))
  {
    PrefixMonotone(ws, k1 + 1, k2);
  }

  /** A descent lands in at most one pass and at most one sector. */
  lemma LandsUnique(ws: seq<real>, y: real, q1: nat, k1: nat, q2: nat, k2: nat)
    requires IsWheel(ws) && k1 < |ws| && k2 < |ws|
    requires Lands(ws, y, q1, k1) && Lands(ws, y, q2, k2)
    ensures q1 == q2 && k1 == k2
  {
    LandsInPass(ws, y, q1, k1);
    LandsInPass(ws, y, q2, k2);
    PassUnique(Total(ws), y, q1, q2);
    if k1 < k2 {
      LandsOnceInPass(ws, y, q1, k1, k2);
    } else if k2 < k1 {
      LandsOnceInPass(ws, y, q1, k2, k1);
    }
  }

  /** `SectorIndex` is exactly the sector the walk lands on, in both
      directions: it lands there, and nowhere else. */
  lemma SectorIndexExact(ws: seq<real>, y: real, q: nat, k: nat)
    requires IsWheel(ws) && y >= 0.0 && k < |ws|
    ensures (SectorIndex(ws, y) == k && Passes(ws, y) == q) <==> Lands(ws, y, q, k)
  {
    if Lands(ws, y, q, k) {
      LandsUnique(ws, y, q, k, Passes(ws, y), SectorIndex(ws, y));
    }
  }

  /** Shifting the descent by one full pass lands on the same sector. */
  lemma SectorIndexPeriodic(ws: seq<real>, y: real)
    requires IsWheel(ws) && y >= 0.0
    ensures SectorIndex(ws, y + Total(ws)) == SectorIndex(ws, y)
  {
    var q, k := Passes(ws, y), SectorIndex(ws, y);
    assert (q as real + 1.0) * Total(ws) == (q as real) * Total(ws) + Total(ws);
    assert Lands(ws, y + Total(ws), q + 1, k);
    SectorIndexExact(ws, y + Total(ws), q + 1, k);
  }

  /** Within pass `q`, sector `k` is chosen on exactly one half-open arc,
      whose length is the sector's width. */
  lemma SectorArc(ws: seq<real>, q: nat, k: nat, y: real)
    requires IsWheel(ws) && k < |ws| && y >= 0.0
    requires (q as real) * Total(ws) <= y < (q as real + 1.0) * Total(ws)
    ensures SectorIndex(ws, y) == k <==>
              (q as real) * Total(ws) + Prefix(ws, k) <= y < (q as real) * Total(ws) + Prefix(ws, k + 1)
    ensures Prefix(ws, k + 1) - Prefix(ws, k) == ws[k]
  {
    if SectorIndex(ws, y) == k {
      ChosenLands(ws, q, y);
    }
    if Lands(ws, y, q, k) {
      LandsUnique(ws, y, q, k, Passes(ws, y), SectorIndex(ws, y));
    }
  }

  /** Inside pass `q` the chosen sector is landed on in pass `q`. */
  lemma ChosenLands(ws: seq<real>, q: nat, y: real)
    requires IsWheel(ws) && y >= 0.0
    requires (q as real) * Total(ws) <= y < (q as real + 1.0) * Total(ws)
    ensures Lands(ws, y, q, SectorIndex(ws, y))
  {
    PassUnique(Total(ws), y, q, Passes(ws, y));
  }

  /** Widths in a different unit: every width divided by `t`. */
  function Scaled(ws: seq<real>, t: real): (r: seq<real>)
    requires t > 0.0
    ensures |r| == |ws| && forall i :: 0 <= i < |r| ==> r[i] == ws[i] / t
  {
    seq(|ws|, i requires 0 <= i < |ws| => ws[i] / t)
  }

  lemma {:induction false} PrefixScaled(ws: seq<real>, t: real, k: nat)
    requires t > 0.0 && k <= |ws|
    ensures Prefix(Scaled(ws, t), k) == Prefix(ws, k) / t
  {
    if k > 0 {
      PrefixScaled(ws, t, k - 1);
      assert Scaled(ws, t)[k - 1] == ws[k - 1] / t;
      assert Prefix(ws, k - 1) / t + ws[k - 1] / t == (Prefix(ws, k - 1) + ws[k - 1]) / t;
    }
  }

  /** Scaling a wheel by its own total gives a wheel of one full turn. */
  lemma ScaledWheel(ws: seq<real>, t: real)
    requires IsWheel(ws) && t > 0.0
    ensures IsWheel(Scaled(ws, t)) && Total(Scaled(ws, t)) == Total(ws) / t
  {
    PrefixScaled(ws, t, |ws|);
    var r := Scaled(ws, t);
    forall i | 0 <= i < |r| ensures r[i] >= 0.0 {
      assert r[i] == ws[i] / t;
    }
  }

  /** The total of the first `k` widths taken as a list of their own. */
  lemma {:induction false} PrefixIsTotalOfTake(ws: seq<real>, k: nat)
    requires k <= |ws|
    ensures Total(ws[..k]) == Prefix(ws, k)
  {
    PrefixAgrees(ws[..k], ws, k);
  }

  /** Prefix sums only look at the widths they add up. */
  lemma {:induction false} PrefixAgrees(a: seq<real>, b: seq<real>, k: nat)
    requires k <= |a| && k <= |b| && a[..k] == b[..k]
    ensures Prefix(a, k) == Prefix(b, k)
  {
    if k > 0 {
      assert a[k - 1] == a[..k][k - 1] == b[..k][k - 1] == b[k - 1];
      assert a[..k - 1] == a[..k][..k - 1] == b[..k][..k - 1] == b[..k - 1];
      PrefixAgrees(a, b, k - 1);
    }
  }

  /** Pointwise smaller widths give a smaller sum, strictly so when one
      of the first `k` widths is strictly smaller. */
  lemma {:induction false} PrefixDominated(a: seq<real>, b: seq<real>, k: nat)
    requires |a| == |b| && k <= |a|
    requires forall i :: 0 <= i < |a| ==> a[i] <= b[i]
    ensures Prefix(a, k) <= Prefix(b, k)
    ensures (exists i :: 0 <= i < k && a[i] < b[i]) ==> Prefix(a, k) < Prefix(b, k)
  {
    if k > 0 {
      PrefixDominated(a, b, k - 1);
    }
  }

  /** A non-negative sum is at least each width it includes. */
  lemma {:induction false} PrefixCovers(ws: seq<real>, i: nat, k: nat)
    requires NonNegative(ws) && i < k <= |ws|
    ensures Prefix(ws, k) >= ws[i]
  {
    PrefixMonotone(ws, i + 1, k);
    PrefixMonotone(ws, 0, i);
  }

  /** Sector `k` starts at or after 0 and ends at or before the end of the
      pass. */
  lemma SectorWithin(ws: seq<real>, k: nat)
    requires NonNegative(ws) && k < |ws|
    ensures 0.0 <= Prefix(ws, k) && Prefix(ws, k) + ws[k] <= Total(ws)
  {
    PrefixMonotone(ws, 0, k);
    PrefixMonotone(ws, k + 1, |ws|);
  }

  /** A whole number of passes that fits below `y` is at most the floor. */
  lemma PassBound(t: real, y: real, q: int)
    requires t > 0.0 && (q as real) * t <= y
    ensures q <= (y / t).Floor
  {
    assert y / t * t == y;
    if q as real > y / t {
      MulStrict(y / t, q as real, t);
    }
  }

  /** The running angle of the walk from `start` after it has reached
      sector `i` (`-1` before the first step) in pass `q`. */
  function WalkAngle(ws: seq<real>, start: real, q: nat, i: int): real
    requires -1 <= i < |ws|
  {
    start - (q as real) * Total(ws) - Prefix(ws, i + 1)
  }

  /** One step of the walk: move to the next sector cyclically (wrapping
      into the next pass after the last) and subtract its width. Before the
      step the angle stood at the near edge of the new sector. */
  lemma WalkStep(ws: seq<real>, start: real, q: nat, i: int)
    requires |ws| > 0 && -1 <= i < |ws|
    ensures var i', q' := if i == |ws| - 1 then 0 else i + 1, if i == |ws| - 1 then q + 1 else q;
      && WalkAngle(ws, start, q, i) == start - (q' as real) * Total(ws) - Prefix(ws, i')
      && WalkAngle(ws, start, q, i) - ws[i'] == WalkAngle(ws, start, q', i')
  {
    if i == |ws| - 1 {
      assert (q as real + 1.0) * Total(ws) == (q as real) * Total(ws) + Total(ws);
    }
  }

  /** While the walk continues (its angle is still at or above the
      rotation), it has made at most as many passes as fit in the descent. */
  lemma WalkPasses(ws: seq<real>, start: real, rotation: real, q: nat, i: int)
    requires IsWheel(ws) && -1 <= i < |ws|
    requires WalkAngle(ws, start, q, i) >= rotation
    ensures q <= ((start - rotation) / Total(ws)).Floor
  {
    PrefixMonotone(ws, 0, i + 1);
    PassBound(Total(ws), start - rotation, q);
  }

  /** `(i + 1) % n` for an index `i` of the walk: the next sector,
      wrapping to the first after the last. */
  lemma NextIndex(i: int, n: int)
    requires 0 < n && -1 <= i < n
    ensures (i + 1) % n == if i == n - 1 then 0 else i + 1
  {
  }

  /** The walk stops on sector `i` when its angle has just dropped below
      the rotation: that sector is the one `SectorIndex` names. */
  lemma WalkStops(ws: seq<real>, start: real, rotation: real, q: nat, i: nat)
    requires IsWheel(ws) && i < |ws|
    requires WalkAngle(ws, start, q, i) < rotation <= WalkAngle(ws, start, q, i) + ws[i]
    ensures start - rotation >= 0.0 && SectorIndex(ws, start - rotation) == i
  {
    PrefixMonotone(ws, 0, i);
    assert Prefix(ws, i + 1) == Prefix(ws, i) + ws[i];
    assert Lands(ws, start - rotation, q, i);
    SectorIndexExact(ws, start - rotation, q, i);
  }

  /** One step of a walk that goes on from sector `i` of pass `q` (its
      angle is still at or above the rotation): it moves to sector
      `(i + 1) % |ws|`, into the next pass after the last sector, and the
      new angle is the old one less that sector's width, whose near edge
      is at or above the rotation. The pass count stays within the number
      of passes that fit in the descent. */
  lemma WalkAdvance(ws: seq<real>, start: real, rotation: real, q: nat, i: int)
    requires IsWheel(ws) && -1 <= i < |ws|
    requires WalkAngle(ws, start, q, i) >= rotation
    ensures q <= ((start - rotation) / Total(ws)).Floor
    ensures (i + 1) % |ws| == if i == |ws| - 1 then 0 else i + 1
    ensures var i', q' := (i + 1) % |ws|, if i == |ws| - 1 then q + 1 else q;
      && WalkAngle(ws, start, q, i) - ws[i'] == WalkAngle(ws, start, q', i')
      && WalkAngle(ws, start, q', i') + ws[i'] >= rotation
  {
    WalkPasses(ws, start, rotation, q, i);
    WalkStep(ws, start, q, i);
    NextIndex(i, |ws|);
  }
}
