/** Clamping of page and cell numbers. */
module NumberUtils {

  /**
    `limit(number, between, and)`: the lower bound wins first, then the upper
    bound, otherwise the number itself. Both bounds are inclusive.
  */
  function Limit(number: int, between: int, and: int): (r: int)
    ensures number <= between ==> r == between
    ensures between < number && number >= and ==> r == and
    ensures between < number < and ==> r == number
    ensures between <= and ==> between <= r <= and
  {
    if number <= between then between
    else if number >= and then and
    else number
  }

  /** With ordered bounds, `Limit` is the usual clamp: the nearest value of [between, and]. */
  lemma LimitIsClamp(number: int, between: int, and: int)
    requires between <= and
    ensures var r := Limit(number, between, and);
            && (between <= number <= and ==> r == number)
            && (number < between ==> r == between)
            && (number > and ==> r == and)
  {
  }

  /** Limiting twice changes nothing. */
  lemma LimitIdempotent(number: int, between: int, and: int)
    requires between <= and
    ensures Limit(Limit(number, between, and), between, and) == Limit(number, between, and)
  {
  }

  /** With ordered bounds, `Limit` never reverses the order of two numbers. */
  lemma LimitMonotone(x: int, y: int, between: int, and: int)
    requires between <= and && x <= y
    ensures Limit(x, between, and) <= Limit(y, between, and)
  {
  }

  /** With crossed bounds the result is `between` or `and`, never the number itself. */
  lemma LimitCrossedBounds(number: int, between: int, and: int)
    requires between > and
    ensures Limit(number, between, and) == (if number <= between then between else and)
  {
  }
}
