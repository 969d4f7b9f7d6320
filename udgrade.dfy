/**
 * The order loop of udgrade_as_psf: starting from the HEALPix order of the
 * input map, the order is lowered one step at a time while the pixel area is
 * still below the squared PSF containment angle, and the loop breaks as soon
 * as a decrement has taken the order below 7. Because that test comes after
 * the decrement, the coarsest order the loop can reach is 6 (NSIDE 64).
 *
 * The pixel area of an order is a parameter `area`; HealpixPixArea is
 * healpy's nside2pixarea(2^order) for a given value of pi.
 */
module Udgrade {

  /** 4^n for any integer n (a fraction when n is negative). */
  function Pow4(n: int): (r: real)
    ensures r > 0.0
    decreases if n >= 0 then n else -n
  {
    if n == 0 then 1.0
    else if n > 0 then 4.0 * Pow4(n - 1)
    else Pow4(n + 1) / 4.0
  }

  /** hp.nside2pixarea(2^order): the sphere's 4*pi steradians over 12 * 4^order pixels. */
  function HealpixPixArea(order: int, pi: real): (a: real)
    ensures pi > 0.0 ==> a > 0.0
  {
    4.0 * pi / (12.0 * Pow4(order))
  }

  ghost predicate StrictlyDecreasing(area: int -> real)
  {
    forall o, p :: o < p ==> area(p) < area(o)
  }

  lemma HealpixPixAreaStep(o: int, pi: real)
    requires pi > 0.0
    ensures HealpixPixArea(o + 1, pi) < HealpixPixArea(o, pi)
  {
    var q := Pow4(o);
    assert Pow4(o + 1) == 4.0 * q;
    var a := 4.0 * pi;
    assert a / (12.0 * (4.0 * q)) == (a / (12.0 * q)) / 4.0;
  }

  /** A finer HEALPix order always has strictly smaller pixels. */
  lemma {:induction false} HealpixPixAreaDecreasing(o: int, p: int, pi: real)
    requires pi > 0.0 && o < p
    ensures HealpixPixArea(p, pi) < HealpixPixArea(o, pi)
    decreases p - o
  {
    HealpixPixAreaStep(p - 1, pi);
    if o < p - 1 {
      HealpixPixAreaDecreasing(o, p - 1, pi);
    }
  }

  /** healpy's pixel area satisfies the hypothesis of MatchedOrderIsLargestAdequate. */
  lemma HealpixPixAreaStrictlyDecreasing(pi: real)
    requires pi > 0.0
    ensures StrictlyDecreasing((o: int) => HealpixPixArea(o, pi))
  {
    forall o: int, p: int | o < p
      ensures HealpixPixArea(p, pi) < HealpixPixArea(o, pi)
    {
      HealpixPixAreaDecreasing(o, p, pi);
    }
  }

  /** Floor of the loop: the order reached when the break is taken, min(order - 1, 6). */
  function Floor(inOrder: int): int
  {
    if inOrder - 1 < 6 then inOrder - 1 else 6
  }

  /** The loop from the point where it has just decremented the order to `o`. */
  function AfterDecrement(o: int, minArea: real, area: int -> real): (r: int)
    ensures Floor(o + 1) <= r <= o
    decreases if o < 0 then 0 else o
  {
    if o < 7 then o
    else if area(o) < minArea then AfterDecrement(o - 1, minArea, area)
    else o
  }

  /** The order udgrade_as_psf settles on for an input map of order `inOrder`. */
  function MatchedOrder(inOrder: nat, minArea: real, area: int -> real): (r: int)
    ensures Floor(inOrder) <= r <= inOrder
  {
    if area(inOrder) < minArea then AfterDecrement(inOrder - 1, minArea, area) else inOrder
  }

  lemma {:induction false} AfterDecrementFacts(o: int, minArea: real, area: int -> real)
    ensures Floor(o + 1) <= AfterDecrement(o, minArea, area) <= o
    ensures forall p :: AfterDecrement(o, minArea, area) < p <= o ==> area(p) < minArea
    ensures area(AfterDecrement(o, minArea, area)) >= minArea
         || AfterDecrement(o, minArea, area) == Floor(o + 1)
    decreases if o < 0 then 0 else o
  {
    if 7 <= o && area(o) < minArea {
      AfterDecrementFacts(o - 1, minArea, area);
    }
  }

  /**
   * Bounds: the output order lies between min(input - 1, 6) and the input
   * order, and it is the input order when the input pixels are already
   * large enough. Every order skipped on the way had pixels that were too
   * small, and the loop stops either on pixels large enough or at the floor.
   */
  lemma MatchedOrderBounds(inOrder: nat, minArea: real, area: int -> real)
    ensures Floor(inOrder) <= MatchedOrder(inOrder, minArea, area) <= inOrder
    ensures area(inOrder) >= minArea ==> MatchedOrder(inOrder, minArea, area) == inOrder
    ensures forall p :: MatchedOrder(inOrder, minArea, area) < p <= inOrder ==> area(p) < minArea
    ensures area(MatchedOrder(inOrder, minArea, area)) >= minArea
         || MatchedOrder(inOrder, minArea, area) == Floor(inOrder)
  {
    AfterDecrementFacts(inOrder - 1, minArea, area);
  }

  /**
   * With pixel areas that shrink as the order grows: when the floor order's
   * pixels are large enough, the output is the largest order not above the
   * input whose pixel area reaches cont_ang^2; otherwise the break is taken
   * and the output is the floor.
   */
  lemma MatchedOrderIsLargestAdequate(inOrder: nat, minArea: real, area: int -> real)
    requires StrictlyDecreasing(area)
    ensures area(Floor(inOrder)) >= minArea ==>
      var o := MatchedOrder(inOrder, minArea, area);
      && area(o) >= minArea
      && (forall p :: o < p <= inOrder ==> area(p) < minArea)
      && (forall p :: p <= o ==> area(p) >= minArea)
    ensures area(Floor(inOrder)) < minArea ==> MatchedOrder(inOrder, minArea, area) == Floor(inOrder)
  {
    MatchedOrderBounds(inOrder, minArea, area);
    var o := MatchedOrder(inOrder, minArea, area);
    if o != Floor(inOrder) {
      assert area(o) < area(Floor(inOrder));
    }
  }

  lemma {:induction false} AfterDecrementMonotone(o: int, m1: real, m2: real, area: int -> real)
    requires m1 <= m2
    ensures AfterDecrement(o, m2, area) <= AfterDecrement(o, m1, area)
    decreases if o < 0 then 0 else o
  {
    if 7 <= o {
      AfterDecrementFacts(o - 1, m2, area);
      if area(o) < m1 {
        AfterDecrementMonotone(o - 1, m1, m2, area);
      }
    }
  }

  /** A larger containment angle never yields a finer output order. */
  lemma MatchedOrderMonotone(inOrder: nat, c1: real, c2: real, area: int -> real)
    requires 0.0 <= c1 <= c2
    ensures MatchedOrder(inOrder, c2 * c2, area) <= MatchedOrder(inOrder, c1 * c1, area)
  {
    assert c1 * c1 <= c1 * c2 by {
      assert c1 * (c2 - c1) >= 0.0;
    }
    assert c1 * c2 <= c2 * c2 by {
      assert c2 * (c2 - c1) >= 0.0;
    }
    AfterDecrementMonotone(inOrder - 1, c1 * c1, c2 * c2, area);
    AfterDecrementFacts(inOrder - 1, c2 * c2, area);
  }

  /**
   * udgrade_as_psf's loop: the order of the map that ud_grade is asked for,
   * given the input order and the PSF containment angle (radians).
   */
  method UdgradeAsPsfOrder(inOrder: nat, contAng: real, area: int -> real) returns (order: int)
    ensures order == MatchedOrder(inOrder, contAng * contAng, area)
  {
    order := inOrder;
    var minPixArea := contAng * contAng;
    var pixArea := area(order);
    while pixArea < minPixArea
      invariant pixArea == area(order)
      invariant MatchedOrder(inOrder, minPixArea, area)
        == if pixArea < minPixArea then AfterDecrement(order - 1, minPixArea, area) else order
      decreases order
    {
      order := order - 1;
      pixArea := area(order);
      if order < 7 {
        break;
      }
    }
  }
}
