/** The limits of a 64-bit microsecond time, used throughout as "not set". */
module UTime {
  const MIN_TIME: int := -0x8000_0000_0000_0000
  const MAX_TIME: int := 0x7fff_ffff_ffff_ffff

  /** `UTime::isSet`. */
  predicate IsSet(t: int) { t != MIN_TIME && t != MAX_TIME }
}
