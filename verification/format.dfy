/**
 Unit selection of the hashrate formatter: a threshold ladder picks one of the
 decimal SI units and divides the rate by the matching power of 1000. Only the
 unit and the scaled magnitude are modelled; the two-decimal text rendering is not.
 */
module HashrateFormat {

  datatype Unit = HS | KHS | MHS | GHS | THS

  /** The scaled magnitude together with the unit it is expressed in. */
  datatype Scaled = Scaled(magnitude: real, unit: Unit)

  /** The suffix printed after the magnitude. */
  function Suffix(u: Unit): string
  {
    match u
    case HS => "H/s"
    case KHS => "kH/s"
    case MHS => "MH/s"
    case GHS => "GH/s"
    case THS => "TH/s"
  }

  /** One unit of `u` expressed in H/s. */
  function Divisor(u: Unit): (d: real)
    ensures d >= 1.0
  {
    match u
    case HS => 1.0
    case KHS => 1000.0
    case MHS => 1000000.0
    case GHS => 1000000000.0
    case THS => 1000000000000.0
  }

  /** The band of raw rates for which `u` is the right unit. The first band is
      open below (any rate under 1e3, negatives included) and the last is open above. */
  predicate InBand(u: Unit, value: real)
  {
    match u
    case HS => value < 1000.0
    case KHS => 1000.0 <= value < 1000000.0
    case MHS => 1000000.0 <= value < 1000000000.0
    case GHS => 1000000000.0 <= value < 1000000000000.0
    case THS => 1000000000000.0 <= value
  }

  /** The bands partition the reals: every rate lies in exactly one band. */
  lemma BandsPartition(value: real, u: Unit, u': Unit)
    ensures exists w :: InBand(w, value)
    ensures InBand(u, value) && InBand(u', value) ==> u == u'
  {
    if value < 1000.0 {
      assert InBand(HS, value);
    } else if value < 1000000.0 {
      assert InBand(KHS, value);
    } else if value < 1000000000.0 {
      assert InBand(MHS, value);
    } else if value < 1000000000000.0 {
      assert InBand(GHS, value);
    } else {
      assert InBand(THS, value);
    }
  }

  /** The unit choice of the formatter: the chosen unit's band holds the rate,
      and dividing by the unit's size loses nothing (the magnitude times the
      unit size gives back the rate). */
  function Scale(value: real): (r: Scaled)
    ensures InBand(r.unit, value)
    ensures r.magnitude * Divisor(r.unit) == value
  {
    if value < 1000.0 then Scaled(value, HS)
    else if value < 1000000.0 then Scaled(value / 1000.0, KHS)
    else if value < 1000000000.0 then Scaled(value / 1000000.0, MHS)
    else if value < 1000000000000.0 then Scaled(value / 1000000000.0, GHS)
    else Scaled(value / 1000000000000.0, THS)
  }

  /** From 1e3 up to 1e12 the magnitude shown is in [1, 1000); above, it is at
      least 1; a non-negative rate under 1e3 is shown unscaled in [0, 1000). */
  lemma ScaledMagnitudeRange(value: real)
    ensures 1000.0 <= value < 1000000000000.0 ==> 1.0 <= Scale(value).magnitude < 1000.0
    ensures 1000000000000.0 <= value ==> 1.0 <= Scale(value).magnitude
    ensures 0.0 <= value < 1000.0 ==> Scale(value).magnitude == value
  {
    var r := Scale(value);
    if 1000.0 <= value {
      assert Divisor(r.unit) * 1.0 <= value;
      if value < 1000000000000.0 {
        assert value < Divisor(r.unit) * 1000.0;
      }
    }
  }

  /** Scaling is monotone in the sense that a larger rate never gets a smaller unit. */
  lemma UnitMonotone(v: real, w: real)
    requires v <= w
    ensures Divisor(Scale(v).unit) <= Divisor(Scale(w).unit)
  {
  }

  /** Worked examples: one rate in each band. */
  lemma WorkedExamples()
    ensures Scale(500.0) == Scaled(500.0, HS)
    ensures Scale(1500.0) == Scaled(1.5, KHS)
    ensures Scale(2500000.0) == Scaled(2.5, MHS)
    ensures Scale(3000000000.0) == Scaled(3.0, GHS)
    ensures Scale(4000000000000.0) == Scaled(4.0, THS)
    ensures Suffix(Scale(500.0).unit) == "H/s" && Suffix(Scale(1500.0).unit) == "kH/s"
    ensures Suffix(Scale(4000000000000.0).unit) == "TH/s"
  {
  }
}
