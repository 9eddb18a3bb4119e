/**
 * The camera of src/renderer.c and src/main.c: the current view (zoom and
 * offsets) and the target view it glides toward each frame. Floats are
 * modelled as reals.
 */
module Camera {

  /** The per-frame blend factor: rate times the frame time, capped at 1. */
  function Smoothing(rate: real, dt: real): (t: real)
    ensures t <= 1.0
    ensures rate >= 0.0 && dt >= 0.0 ==> 0.0 <= t
    ensures rate * dt >= 1.0 ==> t == 1.0
    ensures rate * dt <= 1.0 ==> t == rate * dt
  {
    if rate * dt > 1.0 then 1.0 else rate * dt
  }

  /** The part t of a gap. */
  function Part(gap: real, t: real): real
  {
    gap * t
  }

  /** One exponential step: cur moves by the part t of its gap to target. */
  function Approach(cur: real, target: real, t: real): (r: real)
    ensures t == 0.0 ==> r == cur
    ensures t == 1.0 ==> r == target
  {
    cur + Part(target - cur, t)
  }

  /** The step leaves the fraction 1 - t of the gap; for t in [0, 1] it lands between cur and target. */
  lemma ApproachFacts(cur: real, target: real, t: real)
    ensures target - Approach(cur, target, t) == (target - cur) * (1.0 - t)
    ensures 0.0 <= t <= 1.0 ==> Between(cur, target, Approach(cur, target, t))
    ensures t == 1.0 ==> Approach(cur, target, t) == target
    ensures t == 0.0 ==> Approach(cur, target, t) == cur
  {
    ApproachGap(cur, target, t);
    if 0.0 <= t <= 1.0 {
      ApproachBetween(cur, target, t);
    }
  }

  lemma ApproachGap(cur: real, target: real, t: real)
    ensures target - Approach(cur, target, t) == (target - cur) * (1.0 - t)
  {
    var g := target - cur;
    assert g * (1.0 - t) == g - g * t;
  }

  lemma ApproachBetween(cur: real, target: real, t: real)
    requires 0.0 <= t <= 1.0
    ensures Between(cur, target, Approach(cur, target, t))
  {
    if target - cur >= 0.0 {
      Rising(cur, target, t);
    } else {
      Falling(cur, target, t);
    }
  }

  /** Toward a target above: the step lands in [cur, target]. */
  lemma Rising(cur: real, target: real, t: real)
    requires 0.0 <= t <= 1.0 && target - cur >= 0.0
    ensures cur <= Approach(cur, target, t) <= target
  {
    ScaledUp(target - cur, t);
  }

  /** Toward a target below: the step lands in [target, cur]. */
  lemma Falling(cur: real, target: real, t: real)
    requires 0.0 <= t <= 1.0 && target - cur <= 0.0
    ensures target <= Approach(cur, target, t) <= cur
  {
    ScaledDown(target - cur, t);
  }

  /** A non-negative gap scaled by a factor in [0, 1] stays non-negative and does not grow. */
  lemma ScaledUp(gap: real, t: real)
    requires 0.0 <= t <= 1.0 && gap >= 0.0
    ensures 0.0 <= Part(gap, t) <= gap
  {
    assert gap * t <= gap * 1.0;
  }

  /** A non-positive gap scaled by a factor in [0, 1] stays non-positive and does not grow in size. */
  lemma ScaledDown(gap: real, t: real)
    requires 0.0 <= t <= 1.0 && gap <= 0.0
    ensures gap <= Part(gap, t) <= 0.0
  {
    assert gap * t >= gap * 1.0;
  }

  /** The current view: zoom and offsets, without the targets. */
  datatype View = View(zoom: real, offsetX: real, offsetY: real)

  /** Lies in the closed interval spanned by a and b. */
  predicate Between(a: real, b: real, x: real)
  {
    (a <= x <= b) || (b <= x <= a)
  }

  /** The camera rate of camera_update. */
  const CameraRate: real := 12.0

  /** The longest frame time the main loop passes on, in seconds. */
  const MaxFrame: real := 0.05

  class Camera {
    var zoom: real
    var offsetX: real
    var offsetY: real
    var targetZoom: real
    var targetOffsetX: real
    var targetOffsetY: real

    /** Both the current and the target zoom are positive. */
    predicate Valid()
      reads this
    {
      zoom > 0.0 && targetZoom > 0.0
    }

    /** A fresh camera: zoom and target zoom 1, every offset and target offset 0. */
    constructor ()
      ensures Valid()
      ensures zoom == 1.0 && targetZoom == 1.0
      ensures offsetX == 0.0 && offsetY == 0.0 && targetOffsetX == 0.0 && targetOffsetY == 0.0
    {
      zoom, offsetX, offsetY := 1.0, 0.0, 0.0;
      targetZoom, targetOffsetX, targetOffsetY := 1.0, 0.0, 0.0;
    }

    /** camera_update: each current field moves toward its target by t = min(1, 12 dt). */
    method Update(dt: real)
      modifies this`zoom, this`offsetX, this`offsetY
      ensures var t := Smoothing(CameraRate, dt);
        && zoom == Approach(old(zoom), targetZoom, t)
        && offsetX == Approach(old(offsetX), targetOffsetX, t)
        && offsetY == Approach(old(offsetY), targetOffsetY, t)
      ensures dt >= 0.0 ==>
        && Between(old(zoom), targetZoom, zoom)
        && Between(old(offsetX), targetOffsetX, offsetX)
        && Between(old(offsetY), targetOffsetY, offsetY)
      ensures dt >= 0.0 && old(Valid()) ==> Valid()
    {
      var t := CameraRate * dt;
      if t > 1.0 {
        t := 1.0;
      }
      ApproachFacts(zoom, targetZoom, t);
      ApproachFacts(offsetX, targetOffsetX, t);
      ApproachFacts(offsetY, targetOffsetY, t);
      zoom := zoom + (targetZoom - zoom) * t;
      offsetX := offsetX + (targetOffsetX - offsetX) * t;
      offsetY := offsetY + (targetOffsetY - offsetY) * t;
    }
  }

  /** For dt >= 0 a step stays between the current value and the target. */
  lemma StepStaysBetween(cur: real, target: real, rate: real, dt: real)
    requires rate >= 0.0 && dt >= 0.0
    ensures Between(cur, target, Approach(cur, target, Smoothing(rate, dt)))
  {
    ApproachFacts(cur, target, Smoothing(rate, dt));
  }

  /** A frame of at least 1/rate seconds lands exactly on the target. */
  lemma LongFrameReachesTarget(cur: real, target: real, rate: real, dt: real)
    requires rate > 0.0 && dt >= 1.0 / rate
    ensures Approach(cur, target, Smoothing(rate, dt)) == target
  {
    assert rate * dt >= rate * (1.0 / rate);
    ApproachFacts(cur, target, Smoothing(rate, dt));
  }

  /** Each step shrinks the distance to the target by the factor 1 - t. */
  lemma StepShrinksGap(cur: real, target: real, rate: real, dt: real)
    requires rate >= 0.0 && dt >= 0.0
    ensures var r := Approach(cur, target, Smoothing(rate, dt));
      (target - r) * (target - r) <= (target - cur) * (target - cur)
  {
    var t := Smoothing(rate, dt);
    var g := target - cur;
    ApproachFacts(cur, target, t);
    assert target - Approach(cur, target, t) == g * (1.0 - t);
    assert 0.0 <= 1.0 - t <= 1.0;
    assert (g * (1.0 - t)) * (g * (1.0 - t)) == (g * g) * ((1.0 - t) * (1.0 - t));
    ScaledUp(1.0 - t, 1.0 - t);
    ScaledUp(g * g, (1.0 - t) * (1.0 - t));
    var r := Approach(cur, target, t);
    assert (target - r) * (target - r) == (g * (1.0 - t)) * (g * (1.0 - t));
    assert (g * g) * ((1.0 - t) * (1.0 - t)) <= g * g;
  }

  /** A gap after n frames that each keep the fraction q of it: g · q^n. */
  function Decayed(g: real, q: real, n: nat): real
  {
    if n == 0 then g else Part(Decayed(g, q, n - 1), q)
  }

  /** A gap decayed by a factor in [0, 1] keeps its sign and does not grow. */
  lemma {:induction false} DecayedShrinks(g: real, q: real, n: nat)
    requires 0.0 <= q <= 1.0
    ensures g >= 0.0 ==> 0.0 <= Decayed(g, q, n) <= g
    ensures g <= 0.0 ==> g <= Decayed(g, q, n) <= 0.0
  {
    if n > 0 {
      DecayedShrinks(g, q, n - 1);
      if g >= 0.0 {
        ScaledUp(Decayed(g, q, n - 1), q);
      } else {
        ScaledDown(Decayed(g, q, n - 1), q);
      }
    }
  }

  /** One field after n frames of the main loop with blend factor t and an unchanged target. */
  function Frames(cur: real, target: real, t: real, n: nat): real
  {
    if n == 0 then cur else Approach(Frames(cur, target, t, n - 1), target, t)
  }

  /** n frames leave the gap (target - cur) · (1 - t)^n. */
  lemma {:induction false} FramesGap(cur: real, target: real, t: real, n: nat)
    ensures target - Frames(cur, target, t, n) == Decayed(target - cur, 1.0 - t, n)
  {
    if n > 0 {
      FramesGap(cur, target, t, n - 1);
      ApproachGap(Frames(cur, target, t, n - 1), target, t);
    }
  }

  /** For t in [0, 1], after any number of frames the field lies between its start and the target. */
  lemma FramesBetween(cur: real, target: real, t: real, n: nat)
    requires 0.0 <= t <= 1.0
    ensures Between(cur, target, Frames(cur, target, t, n))
  {
    FramesGap(cur, target, t, n);
    DecayedShrinks(target - cur, 1.0 - t, n);
  }
}
