/** One sample of the cell, in the units the kernel reports: `core/src/battery.rs`. */
module Battery {
  import opened Wrappers
  import opened Arithmetic

  type Percent = x: int | 0 <= x <= 100

  /**
   `temp` is in tenths of a degree, `chargeFull` and `chargeFullDesign` in microamp-hours.
   The vendor's own opinion of the cell is carried by the source and never consulted.
   */
  datatype Reading = Reading(
    capacity: Percent, voltageUv: i64, currentUa: i64, temp: i32, cycles: u32, chargeFull: i64, chargeFullDesign: i64)

  datatype StateOfHealth = Measured(percent: Percent) | Unknown

  /** Rust's integer division: the quotient is truncated toward zero. */
  function TruncDiv(a: int, b: int): int
    requires b > 0
  {
    if a >= 0 then a / b else -(-a / b)
  }

  function ToCelsius(deci: i32): int {
    TruncDiv(deci, 10)
  }

  function Clamped(v: int): Percent {
    if v < 0 then 0 else if v > 100 then 100 else v
  }

  /** Clamping gives the percentage nearest to the value. */
  lemma ClampedNearest(v: int, p: Percent)
    ensures if v <= p then v <= Clamped(v) <= p || Clamped(v) == 0 <= p else v >= Clamped(v) >= p
  {
  }

  function Health(r: Reading): StateOfHealth {
    if r.chargeFullDesign <= 0 || r.chargeFull < 0 then Unknown
    else if r.chargeFull * 100 > I64_MAX then Unknown
    else Measured(Clamped(TruncDiv(r.chargeFull * 100, r.chargeFullDesign)))
  }

  /** A threshold in whole degrees, stated on the kernel's tenths. */
  predicate AtLeastDegrees(deci: i32, degrees: int) {
    if degrees > 0 then deci >= 10 * degrees else deci >= 10 * degrees - 9
  }

  /** A health threshold, stated on the kernel's capacities without dividing. */
  predicate HealthBelow(r: Reading, percent: Percent) {
    && r.chargeFullDesign > 0 && 0 <= r.chargeFull && r.chargeFull * 100 <= I64_MAX
    && r.chargeFull * 100 < percent * r.chargeFullDesign
  }

  lemma DegreesExactly(deci: i32, degrees: int)
    ensures ToCelsius(deci) >= degrees <==> AtLeastDegrees(deci, degrees)
  {
  }

  lemma HealthExactly(r: Reading, percent: Percent)
    ensures Health(r).Measured? && Health(r).percent < percent <==> HealthBelow(r, percent)
    ensures Health(r).Unknown? <==> r.chargeFullDesign <= 0 || r.chargeFull < 0 || r.chargeFull * 100 > 0x7FFF_FFFF_FFFF_FFFF
  {
    if r.chargeFullDesign > 0 && r.chargeFull >= 0 {
      QuotientBelow(r.chargeFull * 100, r.chargeFullDesign, percent);
    }
  }
}
