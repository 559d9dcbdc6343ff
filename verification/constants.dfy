/** The fixed parameters of a dispatch run (the static fields of DialARide). */
module Constants {

  /** Start of the working day, in minutes. */
  const DayStartTime: int := 0

  /** End of the working day, in minutes (24 hours). */
  const DayEndTime: int := 24 * 60

  /** Minutes needed to drive one distance unit. */
  const TimePerKm: nat := 2

  /** Fare charged per distance unit of the direct ride. */
  const RatePerKm: nat := 1

  /** How much longer than the direct ride a drop may be delayed (a factor). */
  const DeviationFactor: nat := 2
}
