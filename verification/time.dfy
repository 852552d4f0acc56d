/** Integer time. Instants are whole seconds; a calendar day is a fixed
    number of seconds, and the day an instant falls on is the floor of the
    instant divided by that length. This stands in for the Gregorian
    calendar in a fixed time zone. */
module Time {

  /** Seconds in one calendar day. */
  const DayLength: int := 86400

  /** Index of the calendar day that instant `t` falls on. */
  function DayOf(t: int): int
  {
    t / DayLength
  }

  /** First instant of the day `t` falls on: the only day boundary at or
      before `t` that is less than one day away. */
  function StartOfDay(t: int): (r: int)
    ensures r <= t < r + DayLength
    ensures r % DayLength == 0
    ensures DayOf(r) == DayOf(t)
  {
    DayOf(t) * DayLength
  }

  /** `t` lies on day `d` exactly when it lies in the half-open interval
      from the start of day `d` to the start of day `d + 1`. */
  lemma DayOfBounds(t: int, d: int)
    ensures DayOf(t) == d <==> d * DayLength <= t < (d + 1) * DayLength
  {
    var q := t / DayLength;
    assert q * DayLength <= t < q * DayLength + DayLength;
    if d < q {
      assert (d + 1) * DayLength <= q * DayLength;
    } else if d > q {
      assert d * DayLength >= (q + 1) * DayLength;
    }
  }

  /** Moving an instant by `k` whole days moves its day index by `k`. */
  lemma DayOfShift(t: int, k: int)
    ensures DayOf(t + k * DayLength) == DayOf(t) + k
  {
    var d := DayOf(t);
    DayOfBounds(t, d);
    DayOfBounds(t + k * DayLength, d + k);
  }

  /** Later instants never fall on earlier days. */
  lemma DayOfMonotone(s: int, t: int)
    requires s <= t
    ensures DayOf(s) <= DayOf(t)
  {
    DayOfBounds(s, DayOf(s));
    DayOfBounds(t, DayOf(t));
  }

}
