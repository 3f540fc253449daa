/**
 * DPI scaling of awita/src/geometry.rs over integer coordinates: a logical
 * length at `dpi` is `a * dpi / 96` physical pixels, a physical one is
 * `a * 96 / dpi` logical units, with Rust's truncating integer division.
 */
module Geometry {
  /** `DEFAULT_DPI`. */
  const DefaultDpi: int := 96

  function Abs(a: int): nat {
    if a < 0 then -a else a
  }

  /** Rust's `/` on signed integers, which rounds toward zero (Dafny's `/`
      rounds so that the remainder is non-negative). */
  function TDiv(a: int, b: int): int
    requires b != 0
  {
    var m: int := Abs(a) / Abs(b);
    if (a < 0) != (b < 0) then -m else m
  }

  /** Where the two divisions part: a negative dividend rounds toward zero. */
  lemma TDivExample()
    ensures TDiv(-1, 2) == 0 && -1 / 2 == -1
    ensures TDiv(-7, 2) == -3 && -7 / 2 == -4
    ensures TDiv(7, -2) == -3 && 7 / -2 == -3
  {
  }

  lemma MulAbs(k: int, b: int)
    ensures Abs(k * b) == Abs(k) * Abs(b)
  {
    if k < 0 && b < 0 {
      assert k * b == (-k) * (-b);
    } else if k < 0 {
      assert -(k * b) == (-k) * b;
    } else if b < 0 {
      assert -(k * b) == k * (-b);
    }
  }

  lemma MulGe(x: int, b: int)
    requires x >= 1 && b > 0
    ensures x * b >= b
  {
    assert (x - 1) * b >= 0;
  }

  lemma MulLe(x: int, b: int)
    requires x <= -1 && b > 0
    ensures x * b <= -b
  {
    assert (-x - 1) * b >= 0;
  }

  /** A multiple of `b` smaller than `b` is 0. */
  lemma MulSmall(x: int, b: int, r: int)
    requires b > 0 && x * b == r && 0 <= r < b
    ensures x == 0
  {
    if x >= 1 {
      MulGe(x, b);
      assert false;
    } else if x <= -1 {
      MulLe(x, b);
      assert false;
    }
  }

  lemma MulDiv(k: nat, b: nat)
    requires b > 0
    ensures k * b / b == k
  {
    var q := k * b / b;
    var r := k * b % b;
    assert k * b == q * b + r;
    assert (k - q) * b == r;
    MulSmall(k - q, b, r);
  }

  /** Truncating division is exact on multiples. */
  lemma TDivExact(k: int, b: int)
    requires b != 0
    ensures TDiv(k * b, b) == k
  {
    MulAbs(k, b);
    MulDiv(Abs(k), Abs(b));
  }

  /** `to_physical_value`: `a * dpi / DEFAULT_DPI`. */
  function ToPhysicalValue(a: int, dpi: int): int {
    TDiv(a * dpi, DefaultDpi)
  }

  /** `to_logical_value`: `a * DEFAULT_DPI / dpi`; Rust panics on a zero
      divisor, so `dpi` must not be 0. */
  function ToLogicalValue(a: int, dpi: int): int
    requires dpi != 0
  {
    TDiv(a * DefaultDpi, dpi)
  }

  /** At the default DPI both conversions are the identity. */
  lemma DefaultDpiIdentity(a: int)
    ensures ToPhysicalValue(a, DefaultDpi) == a
    ensures ToLogicalValue(a, DefaultDpi) == a
  {
  }

  /** At twice the default DPI, logical to physical doubles a length and
      physical to logical halves it, rounding toward zero. */
  lemma DoubleDpi(a: int)
    ensures ToPhysicalValue(a, 2 * DefaultDpi) == 2 * a
    ensures ToLogicalValue(a, 2 * DefaultDpi) == TDiv(a, 2)
  {
  }

  /** Scaling by a whole factor of the default DPI and back is exact. */
  lemma ValueRoundTrip(a: int, k: int)
    requires k > 0
    ensures ToLogicalValue(ToPhysicalValue(a, k * DefaultDpi), k * DefaultDpi) == a
  {
    assert a * (k * DefaultDpi) == (a * k) * DefaultDpi;
    TDivExact(a * k, DefaultDpi);
    TDivExact(a, k * DefaultDpi);
  }

  /** The other way round precision is lost: one physical pixel at twice the
      default DPI is half a logical unit, which truncates to 0. */
  lemma PhysicalRoundTripLossy()
    ensures ToPhysicalValue(ToLogicalValue(1, 2 * DefaultDpi), 2 * DefaultDpi) == 0
  {
  }

  // ---------------------------------------------------------------------
  // Points, sizes and their units
  // ---------------------------------------------------------------------

  /** `gecl::Point<i32>` and `gecl::Size<i32>`. */
  datatype Point = Point(x: int, y: int)
  datatype Size = Size(width: int, height: int)

  /** The payload of a `Logical`, `Physical` or `Screen` wrapper. */
  datatype Extent = AtPoint(p: Point) | OfSize(s: Size)

  /** Which wrapper holds the value: `Logical<T>`, `Physical<T>` or
      `Screen<T>`. */
  datatype Unit = Logical | Physical | Screen

  datatype Measured = Measured(unit: Unit, value: Extent)

  /** Scales each component of an extent by `f`. */
  function MapExtent(e: Extent, f: int -> int): Extent {
    match e
    case AtPoint(p) => AtPoint(Point(f(p.x), f(p.y)))
    case OfSize(s) => OfSize(Size(f(s.width), f(s.height)))
  }

  /** The inherent `Logical::to_physical` on points and sizes. */
  function LogicalToPhysical(e: Extent, dpi: int): Extent {
    MapExtent(e, a => ToPhysicalValue(a, dpi))
  }

  /** The inherent `Physical::to_logical` on points and sizes. */
  function PhysicalToLogical(e: Extent, dpi: int): Extent
    requires dpi != 0
  {
    MapExtent(e, a => ToLogicalValue(a, dpi))
  }

  /** Trait `ToPhysical`: a logical value is scaled, a physical one is
      returned as it is, whatever the DPI. */
  function ToPhysical(m: Measured, dpi: int): (r: Measured)
    requires m.unit != Screen
    ensures r.unit == Physical
    ensures m.unit == Physical ==> r == m
    ensures m.value.AtPoint? <==> r.value.AtPoint?
    ensures m.unit == Logical && m.value.AtPoint? ==>
      r.value.p == Point(ToPhysicalValue(m.value.p.x, dpi), ToPhysicalValue(m.value.p.y, dpi))
    ensures m.unit == Logical && m.value.OfSize? ==>
      r.value.s == Size(ToPhysicalValue(m.value.s.width, dpi), ToPhysicalValue(m.value.s.height, dpi))
  {
    if m.unit == Physical then m
    else Measured(Physical, LogicalToPhysical(m.value, dpi))
  }

  /** Trait `ToLogical`: a physical value is scaled, a logical one is
      returned as it is, whatever the DPI (so only the scaling needs a
      non-zero DPI). */
  function ToLogical(m: Measured, dpi: int): (r: Measured)
    requires m.unit != Screen
    requires m.unit == Physical ==> dpi != 0
    ensures r.unit == Logical
    ensures m.unit == Logical ==> r == m
    ensures m.value.AtPoint? <==> r.value.AtPoint?
    ensures m.unit == Physical && m.value.AtPoint? ==>
      r.value.p == Point(ToLogicalValue(m.value.p.x, dpi), ToLogicalValue(m.value.p.y, dpi))
    ensures m.unit == Physical && m.value.OfSize? ==>
      r.value.s == Size(ToLogicalValue(m.value.s.width, dpi), ToLogicalValue(m.value.s.height, dpi))
  {
    if m.unit == Logical then m
    else Measured(Logical, PhysicalToLogical(m.value, dpi))
  }

  /** A logical value converted to physical at a whole multiple of the
      default DPI converts back to itself. */
  lemma MeasuredRoundTrip(m: Measured, k: int)
    requires m.unit == Logical && k > 0
    ensures ToLogical(ToPhysical(m, k * DefaultDpi), k * DefaultDpi) == m
  {
    match m.value
    case AtPoint(p) =>
      ValueRoundTrip(p.x, k);
      ValueRoundTrip(p.y, k);
    case OfSize(s) =>
      ValueRoundTrip(s.width, k);
      ValueRoundTrip(s.height, k);
  }

  /** At twice the default DPI each coordinate doubles on the way to
      physical pixels and halves on the way back. */
  lemma PointDoubleDpi(p: Point)
    ensures ToPhysical(Measured(Logical, AtPoint(p)), 2 * DefaultDpi)
         == Measured(Physical, AtPoint(Point(2 * p.x, 2 * p.y)))
    ensures ToLogical(Measured(Physical, AtPoint(Point(2 * p.x, 2 * p.y))), 2 * DefaultDpi)
         == Measured(Logical, AtPoint(p))
  {
    DoubleDpi(p.x);
    DoubleDpi(p.y);
    DoubleDpi(2 * p.x);
    DoubleDpi(2 * p.y);
    TDivExact(p.x, 2);
    TDivExact(p.y, 2);
  }
}
