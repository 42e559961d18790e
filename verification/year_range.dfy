/** The inclusive year window both pages read from two inputs. Each
    `update` swaps the two bounds when the first exceeds the second, so the
    window never comes out empty because of the order the user typed them
    in. */
module YearRange {

  /** An inclusive range of years `lo..hi`. */
  datatype Range = Range(lo: int, hi: int)

  /** `if (a > b) [a, b] = [b, a]`: the two bounds in ascending order. */
  function Ordered(a: int, b: int): (r: Range)
    ensures r.lo <= r.hi
    ensures (r.lo == a && r.hi == b) || (r.lo == b && r.hi == a)
  {
    if a > b then Range(b, a) else Range(a, b)
  }

  /** Both ends of the window are part of it. */
  predicate Contains(r: Range, year: int)
  {
    r.lo <= year <= r.hi
  }

  /** Swapping the two inputs yields the same window, and a year lies in it
      exactly when it lies between the two inputs in either order. */
  lemma OrderedIsSymmetric(a: int, b: int, year: int)
    ensures Ordered(a, b) == Ordered(b, a)
    ensures Contains(Ordered(a, b), year) <==> (a <= year <= b || b <= year <= a)
  {
  }
}
