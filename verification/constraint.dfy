/** The layout limit of src/lib.rs: a widget is measured either to fill a
    known size or to fit its contents within a size. Pixels are unsigned
    32-bit (`UPx`), and the `+`/`-` operators saturate. */
module CushyConstraint {
  import opened Common

  /** `figures::Size`. */
  datatype Size<T> = Size(width: T, height: T)

  /** `ConstraintLimit`. */
  datatype ConstraintLimit = Fill(px: UPx) | SizeToFit(px: UPx)

  /** `ConstraintLimit::min`: the size being filled, or zero when sizing to
      fit. */
  function MinOf(c: ConstraintLimit): (r: UPx)
    ensures c.Fill? ==> r == c.px
    ensures c.SizeToFit? ==> r == 0
  {
    match c
    case Fill(v) => v
    case SizeToFit(_) => 0
  }

  /** `ConstraintLimit::max`: the largest measurement that fits. */
  function MaxOf(c: ConstraintLimit): (r: UPx)
    ensures r == c.px
  {
    match c
    case Fill(v) => v
    case SizeToFit(v) => v
  }

  /** The minimum never exceeds the maximum, and they agree exactly when the
      limit is a fill or a size-to-fit of nothing. */
  lemma MinAtMostMax(c: ConstraintLimit)
    ensures MinOf(c) <= MaxOf(c)
    ensures MinOf(c) == MaxOf(c) <==> c.Fill? || c.px == 0
  {
  }

  /** `ConstraintLimit::fit_measured`, with the measurement already converted
      to unsigned pixels: a fill keeps at least its size, a size-to-fit
      reports the measurement. */
  function FitMeasured(c: ConstraintLimit, measured: UPx): (r: UPx)
    ensures c.Fill? ==> r == Max(c.px, measured)
    ensures c.SizeToFit? ==> r == measured
  {
    match c
    case Fill(size) => Max(size, measured)
    case SizeToFit(_) => measured
  }

  /** A fitted measurement is at least the measurement and at least the
      constraint's minimum; it is the smallest such value. */
  lemma FitMeasuredIsLeastCover(c: ConstraintLimit, measured: UPx, x: UPx)
    ensures FitMeasured(c, measured) >= measured && FitMeasured(c, measured) >= MinOf(c)
    ensures x >= measured && x >= MinOf(c) ==> x >= FitMeasured(c, measured)
  {
  }

  /** `FitMeasuredSize::fit_measured`: `fit_measured` on each axis. */
  function FitMeasuredSize(s: Size<ConstraintLimit>, measured: Size<UPx>): (r: Size<UPx>)
    ensures r.width == FitMeasured(s.width, measured.width)
    ensures r.height == FitMeasured(s.height, measured.height)
  {
    Size(FitMeasured(s.width, measured.width), FitMeasured(s.height, measured.height))
  }

  /** `ConstraintLimit + UPx`: the same variant, its pixels increased with
      saturation. */
  function Add(c: ConstraintLimit, rhs: UPx): (r: ConstraintLimit)
    ensures r.Fill? == c.Fill?
    ensures r.px == SatAdd(c.px, rhs)
  {
    match c
    case Fill(px) => Fill(SatAdd(px, rhs))
    case SizeToFit(px) => SizeToFit(SatAdd(px, rhs))
  }

  /** `ConstraintLimit - UPx`: the same variant, its pixels decreased with
      saturation. */
  function Sub(c: ConstraintLimit, rhs: UPx): (r: ConstraintLimit)
    ensures r.Fill? == c.Fill?
    ensures r.px == SatSub(c.px, rhs)
  {
    match c
    case Fill(px) => Fill(SatSub(px, rhs))
    case SizeToFit(px) => SizeToFit(SatSub(px, rhs))
  }

  /** Taking away what was added gives the limit back unless the addition
      saturated; adding back what was taken away gives it back unless the
      subtraction bottomed out at zero. */
  lemma AddSubRoundTrip(c: ConstraintLimit, d: UPx)
    ensures c.px + d <= U32_MAX ==> Sub(Add(c, d), d) == c
    ensures d <= c.px ==> Add(Sub(c, d), d) == c
  {
  }

  /** Saturating arithmetic never changes the kind of limit and moves the
      pixels in the direction of the operator. */
  lemma AddSubMonotone(c: ConstraintLimit, d: UPx)
    ensures MaxOf(Sub(c, d)) <= MaxOf(c) <= MaxOf(Add(c, d))
    ensures MinOf(Sub(c, d)) <= MinOf(c) <= MinOf(Add(c, d))
  {
  }

  /** `Px::into_unsigned`: negative pixels become zero. */
  function IntoUnsigned(px: int): (r: UPx)
    ensures px <= 0 ==> r == 0
    ensures 0 <= px <= U32_MAX ==> r == px
  {
    if px <= 0 then 0 else Min(px, U32_MAX)
  }
}
