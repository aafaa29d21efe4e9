/** Mapping a pointer position in the advertised display back to the captured one. */
module Pointer {
  import opened Raster

  /** The rounded linear interpolation, before the final clamp. */
  function Interpolate(value: nat, advertised: nat, native: nat): nat
    requires advertised > 1 && native > 0
  {
    MulMonotone(0, value, native - 1);
    var p: nat := value * (native - 1) + (advertised - 1) / 2;
    Floor(p, advertised - 1);
    p / (advertised - 1)
  }

  function Remap(value: nat, advertised: nat, native: nat): nat {
    if advertised <= 1 || native == 0 then 0
    else
      var v := if value >= advertised then advertised - 1 else value;
      var mapped := Interpolate(v, advertised, native);
      if mapped >= native then native - 1 else mapped
  }

  lemma FloorMonotone(p: nat, q: nat, s: nat)
    requires 0 < s && p <= q
    ensures p / s <= q / s
  {
    if q / s < p / s {
      Floor(p, s);
      Floor(q, s);
      MulStep(q / s, p / s, s);
    }
  }

  lemma FloorOfMultiple(n: nat, r: nat, s: nat)
    requires r < s
    ensures (n * s + r) / s == n
  {
    RowMajor(r, n, s);
  }

  lemma FloorStep(p: nat, s: nat)
    requires 0 < s
    ensures (p + s) / s == p / s + 1
  {
    var q, r := p / s, p % s;
    assert p == q * s + r;
    Distribute(q, 1, s);
    RowMajor(r, q + 1, s);
  }

  lemma FloorSeparates(p: nat, q: nat, s: nat)
    requires 0 < s && p + s <= q
    ensures p / s < q / s
  {
    FloorStep(p, s);
    FloorMonotone(p + s, q, s);
  }

  lemma InterpolateInRange(value: nat, advertised: nat, native: nat)
    requires advertised > 1 && native > 0 && value < advertised
    ensures Interpolate(value, advertised, native) < native
  {
    var s, n := advertised - 1, native - 1;
    MulMonotone(value, s, n);
    FloorMonotone(value * n + s / 2, n * s + s / 2, s);
    FloorOfMultiple(n, s / 2, s);
  }

  /** The final clamp never fires, every position lands on the native display, and the
      result is within half a native step of the exact linear map, above it on a tie. */
  lemma RemapIsNearest(value: nat, advertised: nat, native: nat)
    requires advertised > 1 && native > 0 && value < advertised
    ensures Remap(value, advertised, native) == Interpolate(value, advertised, native) < native
    ensures var exact, got := value * (native - 1), Remap(value, advertised, native) * (advertised - 1);
            -(advertised - 1) < 2 * (got - exact) <= advertised - 1
  {
    InterpolateInRange(value, advertised, native);
    var s := advertised - 1;
    Floor(value * (native - 1) + s / 2, s);
  }

  /** First pixel to first pixel, last (or anything past it) to last. */
  lemma RemapKeepsEndpoints(value: nat, advertised: nat, native: nat)
    requires advertised > 1 && native > 0
    ensures Remap(0, advertised, native) == 0
    ensures value >= advertised - 1 ==> Remap(value, advertised, native) == native - 1
  {
    var s, n := advertised - 1, native - 1;
    FloorOfMultiple(0, s / 2, s);
    FloorOfMultiple(n, s / 2, s);
    assert s * n == n * s;
  }

  lemma InterpolateIsMonotone(a: nat, b: nat, advertised: nat, native: nat)
    requires advertised > 1 && native > 0 && a <= b
    ensures Interpolate(a, advertised, native) <= Interpolate(b, advertised, native)
  {
    var s, n := advertised - 1, native - 1;
    MulMonotone(a, b, n);
    FloorMonotone(a * n + s / 2, b * n + s / 2, s);
  }

  lemma InterpolateSeparates(a: nat, b: nat, advertised: nat, native: nat)
    requires advertised > 1 && a < b && advertised <= native
    ensures Interpolate(a, advertised, native) < Interpolate(b, advertised, native)
  {
    var s, n := advertised - 1, native - 1;
    MulStep(a, b, n);
    FloorSeparates(a * n + s / 2, b * n + s / 2, s);
  }

  /** Order is kept; when nothing was scaled down further apart than it is scaled back,
      distinct positions stay distinct. */
  lemma RemapIsMonotone(a: nat, b: nat, advertised: nat, native: nat)
    requires advertised > 1 && native > 0 && a <= b
    ensures Remap(a, advertised, native) <= Remap(b, advertised, native)
    ensures a < b < advertised <= native ==> Remap(a, advertised, native) < Remap(b, advertised, native)
  {
    hide Interpolate;
    var s := advertised - 1;
    var a', b' := if a > s then s else a, if b > s then s else b;
    InterpolateInRange(a', advertised, native);
    InterpolateInRange(b', advertised, native);
    InterpolateIsMonotone(a', b', advertised, native);
    if a < b < advertised <= native {
      InterpolateSeparates(a, b, advertised, native);
    }
  }

  /** A session that was never downscaled is unaffected. */
  lemma RemapIsIdentity(value: nat, size: nat)
    requires value < size
    ensures Remap(value, size, size) == value
  {
    if size > 1 {
      FloorOfMultiple(value, (size - 1) / 2, size - 1);
    }
  }
}
