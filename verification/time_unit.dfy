/** The unit in which a device reports time values (`TimeUnit`), and the
    conversions between it and seconds. Values are exact reals; the `f64`
    rounding of the multiplications and divisions is not modelled. */
module TimeUnits {

  datatype TimeUnit = Us | Ms | S

  /** The unit used until the user picks another. */
  const DefaultUnit: TimeUnit := S

  /** How many of the unit make up one second. */
  function PerSecond(u: TimeUnit): (k: real)
    ensures k >= 1.0
  {
    match u
    case Us => 1_000_000.0
    case Ms => 1000.0
    case S => 1.0
  }

  /** `convert_to_secs`: a value in the unit, as seconds. */
  function ToSecs(u: TimeUnit, v: real): (secs: real)
    ensures secs * PerSecond(u) == v
  {
    match u
    case Us => v / 1_000_000.0
    case Ms => v / 1000.0
    case S => v
  }

  /** `convert_from_secs`: seconds, as a value in the unit. */
  function FromSecs(u: TimeUnit, secs: real): (v: real)
    ensures v == secs * PerSecond(u)
  {
    match u
    case Us => secs * 1_000_000.0
    case Ms => secs * 1000.0
    case S => secs
  }

  /** The two conversions are inverse to each other, in both orders. */
  lemma ConvertRoundTrip(u: TimeUnit, v: real, secs: real)
    ensures FromSecs(u, ToSecs(u, v)) == v
    ensures ToSecs(u, FromSecs(u, secs)) == secs
  {
  }

  /** Both conversions keep order and sign: a later time stays later. */
  lemma ConvertMonotone(u: TimeUnit, a: real, b: real)
    requires a <= b
    ensures ToSecs(u, a) <= ToSecs(u, b)
    ensures FromSecs(u, a) <= FromSecs(u, b)
    ensures ToSecs(u, 0.0) == 0.0 && FromSecs(u, 0.0) == 0.0
  {
  }

  /** The default unit converts nothing. */
  lemma DefaultIsIdentity(v: real)
    ensures ToSecs(DefaultUnit, v) == v && FromSecs(DefaultUnit, v) == v
  {
  }
}
