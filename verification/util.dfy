/** Small shared vocabulary: optional values (Java's nullable references)
    and the three-way result of a Java Comparator. */
module Util {

  /** A Java reference that may be null. */
  datatype Option<+T> = None | Some(value: T)

  /** The sign of a `Comparator.compare` / `compareTo` result. */
  datatype Ordering = LT | EQ | GT

  /** The ordering seen from the other side: `sign(compare(b, a))` for a consistent comparator. */
  function Flip(o: Ordering): Ordering
  {
    match o
    case LT => GT
    case EQ => EQ
    case GT => LT
  }

  /** Sign of `x - y`, the idiom the source's comparators use on ordinals. */
  function CompareInts(x: int, y: int): (o: Ordering)
    ensures o == LT <==> x < y
    ensures o == EQ <==> x == y
    ensures o == GT <==> x > y
  {
    if x < y then LT else if x == y then EQ else GT
  }
}
