/** The background ring of `ring_containment`: diffuse protons are counted
    in a ring around the camera centre whose inner and outer half-rings
    have the same area. Radii are in degrees, areas in square degrees
    divided by pi (pi cancels wherever the area is used). */
module RingContainment {
  import opened Numeric

  /** A ring by its (signed) inner radius and the square of its outer radius.
      The outer radius itself is `sqrt(upperSq)`, NaN when `upperSq < 0`. */
  datatype Ring = Ring(lower: real, upperSq: real)

  /** The ring of a given radius and half-width: the inner limit is
      `radius - halfwidth` and the outer limit is chosen so that the band
      below the radius and the band above it have equal area. */
  function RingFor(radius: real, halfwidth: real): (ring: Ring)
    ensures ring.lower == radius - halfwidth
    ensures radius * radius - ring.lower * ring.lower == ring.upperSq - radius * radius
  {
    var lower := radius - halfwidth;
    Ring(lower, 2.0 * (radius * radius) - lower * lower)
  }

  /** The angular area of the ring, divided by pi: `r_high^2 - r_low^2`. */
  function AreaOverPi(ring: Ring): real
  {
    ring.upperSq - ring.lower * ring.lower
  }

  /** Containment of an event with squared angular distance `theta2`, written
      on squares: `r_low < sqrt(theta2) < r_high`. A negative `theta2` or a
      negative `upperSq` gives a NaN square root and is never contained. */
  predicate Contained(ring: Ring, theta2: real)
  {
    && theta2 >= 0.0
    && (ring.lower < 0.0 || ring.lower * ring.lower < theta2)
    && theta2 < ring.upperSq
  }

  /** The area is the sum of the two half-rings, each equal to the inner one. */
  lemma AreaIsTwiceInnerBand(radius: real, halfwidth: real)
    ensures var ring := RingFor(radius, halfwidth);
            AreaOverPi(ring) == (radius * radius - ring.lower * ring.lower) + (ring.upperSq - radius * radius)
            && AreaOverPi(ring) == 2.0 * (radius * radius - ring.lower * ring.lower)
  {
  }

  /** For a ring with `0 <= r_low < R`, the area is positive and the outer
      radius lies beyond the nominal radius. */
  lemma RingGeometry(radius: real, halfwidth: real, upper: real)
    requires 0.0 < halfwidth <= radius
    requires IsSqrt(RingFor(radius, halfwidth).upperSq, upper)
    ensures var ring := RingFor(radius, halfwidth);
            AreaOverPi(ring) > 0.0 && ring.upperSq > radius * radius
            && 0.0 <= ring.lower < radius < upper
  {
    var ring := RingFor(radius, halfwidth);
    SquareMonotone(ring.lower, radius);
    SquareMonotone(radius, upper);
  }

  /** A ring whose half-width is positive and at most its radius has a
      positive area. */
  lemma RingAreaPositive(radius: real, halfwidth: real)
    requires 0.0 < halfwidth <= radius
    ensures AreaOverPi(RingFor(radius, halfwidth)) > 0.0
  {
    SquareMonotone(radius - halfwidth, radius);
  }

  /** `Contained` is exactly the source's strict test `r_low < sqrt(theta2) < r_high`
      for the non-negative square roots `s` of `theta2` and `h` of `upperSq`. */
  lemma ContainedIffBetweenRadii(ring: Ring, theta2: real, s: real, h: real)
    requires IsSqrt(theta2, s) && IsSqrt(ring.upperSq, h)
    ensures Contained(ring, theta2) <==> ring.lower < s < h
  {
    SquareMonotone(s, h);
    if ring.lower >= 0.0 {
      SquareMonotone(ring.lower, s);
    }
  }

  /** Ring-to-on-region area ratio `pi * t / area` for an on-region of
      squared radius `t`. */
  function AreaRatio(t: real, ring: Ring): (r: real)
    requires AreaOverPi(ring) > 0.0
    ensures r * AreaOverPi(ring) == t
    ensures t >= 0.0 ==> r >= 0.0
  {
    t / AreaOverPi(ring)
  }
}
