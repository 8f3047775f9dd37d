/** The integer clamp of shared_functions/constrain_sf.c.  Note the
    argument order of the source: value, then maximum, then minimum. */
module SharedFunctions {

  /** `sf_constrain(userValue, max, min)`: the minimum test comes first, so
      when `min > max` a value below `min` yields `min`. */
  function Constrain(userValue: int, max: int, min: int): (r: int)
    ensures userValue < min ==> r == min
    ensures min <= userValue && userValue > max ==> r == max
    ensures min <= userValue <= max ==> r == userValue
    ensures min <= max ==> min <= r <= max
    ensures r == userValue || r == min || r == max
  {
    if userValue < min then min
    else if userValue > max then max
    else userValue
  }

  /** Clamping a clamped value changes nothing. */
  lemma ConstrainIdempotent(v: int, max: int, min: int)
    requires min <= max
    ensures Constrain(Constrain(v, max, min), max, min) == Constrain(v, max, min)
  {
  }

  /** The clamp is monotone in the clamped value. */
  lemma ConstrainMonotone(v: int, w: int, max: int, min: int)
    requires min <= max && v <= w
    ensures Constrain(v, max, min) <= Constrain(w, max, min)
  {
  }
}
