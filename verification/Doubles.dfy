/**
 IEEE 754 double precision on exact reals: the doubles, and rounding to the nearest one as strtod does it, ties to
 even. Underflow is gradual; what is rounded to 2^1024 or beyond is an infinity. Zero has no sign here.
 */
module Doubles {
  import opened Powers

  datatype Double = Finite(x: real) | Infinity(minus: bool) | NaN

  /** The comparison ==, which does not hold between NaNs. */
  predicate Equal(a: Double, b: Double) { a == b && !a.NaN? }

  const TWO_52: int := 4503599627370496
  const TWO_53: int := 9007199254740992

  /** The exponents of the last place of the least and of the greatest doubles. */
  const MIN_PLACE: int := -1074
  const MAX_PLACE: int := 971

  predicate Represents(d: real, m: int, place: int) { d == Shift(Two, m as real, place) }

  ghost predicate IsDouble(d: real) {
    exists m: int, place: int :: -TWO_53 < m < TWO_53 && MIN_PLACE <= place <= MAX_PLACE && Represents(d, m, place)
  }

  /** x, at this last place, has 53 bits, or fewer at the least place. */
  ghost predicate PlacedAt(x: real, place: int) {
    && MIN_PLACE <= place && x < Shift(Two, TWO_53 as real, place)
    && (place == MIN_PLACE || Shift(Two, TWO_52 as real, place) <= x)
  }

  function LastPlace(x: real): (place: int)
    requires x > 0.0
    ensures PlacedAt(x, place)
  {
    var top := LogUp(Two, x, MIN_PLACE + 53);
    TopBits(top);
    top - 53
  }

  lemma TopBits(top: int)
    ensures Shift(Two, TWO_53 as real, top - 53) == Shift(Two, 1.0, top)
    ensures Shift(Two, TWO_52 as real, top - 53) == Shift(Two, 1.0, top - 1)
  {
    PowerOfTwo();
    Adds(Two, 1.0, 52, top - 53);
    Doubled(TWO_52 as real, top - 53);
  }

  lemma PowerOfTwo()
    ensures Shift(Two, 1.0, 52) == TWO_52 as real
  {
    assert Shift(Two, 1.0, 4) == 16.0;
    assert Shift(Two, 1.0, 8) == 256.0;
    assert Shift(Two, 1.0, 12) == 4096.0;
    assert Shift(Two, 1.0, 13) == 8192.0;
    Squares(8192.0, 13, 26);
    Squares(67108864.0, 26, 52);
  }

  lemma Squares(x: real, e: int, e': int)
    requires Shift(Two, 1.0, e) == x && e' == e + e
    ensures Shift(Two, 1.0, e') == x * x
  {
    Adds(Two, 1.0, e, e);
    Proportional(Two, x, e);
  }

  lemma Doubled(x: real, place: int)
    ensures Shift(Two, x + x, place) == Shift(Two, x, place + 1)
  {
    Sums(Two, x, x, place);
    Next(Two, x, place);
  }

  /** strtod's result. */
  function ToDouble(x: real): (d: Double)
    ensures !d.NaN? && (d.Finite? ==> IsDouble(d.x))
  {
    var rounded := Round(x);
    if rounded >= Shift(Two, 1.0, MAX_PLACE + 53) then Infinity(false)
    else if rounded <= -Shift(Two, 1.0, MAX_PLACE + 53) then Infinity(true)
    else
      RoundIsDouble(x);
      Finite(rounded)
  }

  /** Rounding to 53 bits. */
  function Round(x: real): real {
    if x == 0.0 then 0.0 else if x < 0.0 then -RoundPositive(-x) else RoundPositive(x)
  }

  function RoundPositive(x: real): real
    requires x > 0.0
  {
    var place := LastPlace(x);
    Ordered(Two, 0.0, x, -place);
    Shift(Two, Nearest(Shift(Two, x, -place)) as real, place)
  }

  // ------------------------------------------------------ what rounding gives

  lemma PlaceUnique(x: real, place: int)
    requires x > 0.0 && PlacedAt(x, place)
    ensures LastPlace(x) == place
  {
    var found := LastPlace(x);
    Doubled(TWO_52 as real, found);
    Doubled(TWO_52 as real, place);
    if found < place {
      Grows(Two, TWO_52 as real, found + 1, place);
    } else if place < found {
      Grows(Two, TWO_52 as real, place + 1, found);
    }
  }

  /** y units of the last place are rounded to the integer k that is nearest. */
  lemma RoundsUnits(x: real, place: int, y: real, k: int)
    requires x == Shift(Two, y, place) && MIN_PLACE <= place && 0.0 < y < TWO_53 as real
    requires TWO_52 as real <= y || place == MIN_PLACE
    requires -0.5 < y - k as real < 0.5
    ensures x > 0.0 && Round(x) == Shift(Two, k as real, place)
  {
    UnitsPlaced(x, place, y);
    PlaceUnique(x, place);
    Adds(Two, y, place, -place);
    assert Shift(Two, x, -place) == y;
    assert Nearest(y) == k;
  }

  lemma UnitsPlaced(x: real, place: int, y: real)
    requires x == Shift(Two, y, place) && MIN_PLACE <= place && 0.0 < y < TWO_53 as real
    requires TWO_52 as real <= y || place == MIN_PLACE
    ensures x > 0.0 && PlacedAt(x, place)
  {
    Ordered(Two, 0.0, y, place);
    Ordered(Two, y, TWO_53 as real, place);
    Ordered(Two, y, TWO_52 as real, place);
  }

  /** Every double in positive form with all the bits it can have. */
  lemma {:induction false} Normal(d: real, m: int, place: int) returns (m': int, place': int)
    requires Represents(d, m, place) && 0 < m < TWO_53 && MIN_PLACE <= place
    ensures Represents(d, m', place') && 0 < m' < TWO_53 && MIN_PLACE <= place' <= place
    ensures TWO_52 <= m' || place' == MIN_PLACE
    decreases place - MIN_PLACE
  {
    m', place' := m, place;
    if m < TWO_52 && place > MIN_PLACE {
      Doubled(m as real, place - 1);
      m', place' := Normal(d, 2 * m, place - 1);
    }
  }

  const CLOSE: real := 20_000_000_000_000_000.0

  /** What is off from a double by no more than one part in 2 * 10^16 is rounded to that double. */
  lemma CloseRounds(x: real, d: real, m: int, place: int)
    requires Represents(d, m, place) && 0 < m < TWO_53 && MIN_PLACE <= place
    requires CLOSE * (x - d) <= d && CLOSE * (d - x) <= d
    ensures Round(x) == d
  {
    var m', place' := Normal(d, m, place);
    var y := Units(x, d, m', place');
    if y < TWO_52 as real && place' > MIN_PLACE {
      assert m' == TWO_52;
      Doubled(y, place' - 1);
      Doubled(TWO_52 as real, place' - 1);
      RoundsUnits(x, place' - 1, y + y, TWO_53);
    } else {
      RoundsUnits(x, place', y, m');
    }
  }

  /** The same bound in units of the last place. */
  lemma Units(x: real, d: real, m: int, place: int) returns (y: real)
    requires Represents(d, m, place)
    requires CLOSE * (x - d) <= d && CLOSE * (d - x) <= d
    ensures x == Shift(Two, y, place)
    ensures CLOSE * (y - m as real) <= m as real && CLOSE * (m as real - y) <= m as real
  {
    y := Shift(Two, x, -place);
    Adds(Two, x, -place, place);
    Scaled(y, m as real, m as real, place);
    Scaled(m as real, y, m as real, place);
  }

  lemma Scaled(a: real, b: real, limit: real, place: int)
    ensures CLOSE * (Shift(Two, a, place) - Shift(Two, b, place)) <= Shift(Two, limit, place) <==> CLOSE * (a - b) <= limit
  {
    Subtracts(a, b, place);
    ScaledBy(CLOSE, a - b, limit, place);
  }

  lemma ScaledBy(c: real, x: real, limit: real, place: int)
    ensures c * Shift(Two, x, place) <= Shift(Two, limit, place) <==> c * x <= limit
  {
    Factors(Two, c, x, place);
    var product := c * x;
    Ordered(Two, limit, product, place);
  }

  lemma Subtracts(a: real, b: real, place: int)
    ensures Shift(Two, a - b, place) == Shift(Two, a, place) - Shift(Two, b, place)
  {
    var difference := a - b;
    Sums(Two, difference, b, place);
    assert difference + b == a;
  }

  /** A double is rounded to itself. */
  lemma RoundKeepsDoubles(d: real)
    requires IsDouble(d)
    ensures Round(d) == d
  {
    var m, place :| -TWO_53 < m < TWO_53 && MIN_PLACE <= place <= MAX_PLACE && Represents(d, m, place);
    Ordered(Two, m as real, 0.0, place);
    Ordered(Two, 0.0, m as real, place);
    if m > 0 {
      CloseRounds(d, d, m, place);
    } else if m < 0 {
      Factors(Two, -1.0, m as real, place);
      CloseRounds(-d, -d, -m, place);
    }
  }

  function Distance(x: real, y: real): real { if x < y then y - x else x - y }

  /** Rounding gives a nearest double: no double is closer. */
  lemma RoundIsNearest(x: real, k: int, place: int)
    requires -TWO_53 < k < TWO_53 && MIN_PLACE <= place
    ensures Distance(Round(x), x) <= Distance(Shift(Two, k as real, place), x)
  {
    if x > 0.0 {
      PositiveIsNearest(x, k, place);
    } else if x < 0.0 {
      PositiveIsNearest(-x, -k, place);
      Opposite(Two, k as real, place);
    }
  }

  lemma PositiveIsNearest(x: real, k: int, place: int)
    requires x > 0.0 && -TWO_53 < k < TWO_53 && MIN_PLACE <= place
    ensures Distance(Round(x), x) <= Distance(Shift(Two, k as real, place), x)
  {
    var last := LastPlace(x);
    if place >= last {
      var j := OnGrid(k, place, last);
      NearestOnGrid(x, j);
    } else {
      NearestOnGrid(x, TWO_52);
      Ordered(Two, k as real, TWO_53 as real, place);
      Doubled(TWO_52 as real, place);
      Grows(Two, TWO_52 as real, place + 1, last);
    }
  }

  lemma {:induction false} OnGrid(k: int, place: int, last: int) returns (j: int)
    requires place >= last
    ensures Shift(Two, k as real, place) == Shift(Two, j as real, last)
    decreases place - last
  {
    j := k;
    if place > last {
      Doubled(k as real, place - 1);
      j := OnGrid(2 * k, place - 1, last);
    }
  }

  lemma NearestOnGrid(x: real, j: int)
    requires x > 0.0
    ensures Distance(Round(x), x) <= Distance(Shift(Two, j as real, LastPlace(x)), x)
  {
    var last := LastPlace(x);
    var y := Rounded(x, last);
    var n := Nearest(y);
    DistanceShifts(n as real, y, last);
    DistanceShifts(j as real, y, last);
    NoneNearer(y, j);
    Ordered(Two, Distance(j as real, y), Distance(n as real, y), last);
  }

  lemma NoneNearer(y: real, j: int)
    requires y >= 0.0
    ensures Distance(Nearest(y) as real, y) <= Distance(j as real, y)
  {
    var n := Nearest(y);
    if j < n {
      assert j as real <= (n - 1) as real == n as real - 1.0;
    } else if j > n {
      assert j as real >= (n + 1) as real == n as real + 1.0;
    }
  }

  lemma Rounded(x: real, last: int) returns (y: real)
    requires x > 0.0 && last == LastPlace(x)
    ensures y >= 0.0 && x == Shift(Two, y, last) && Round(x) == Shift(Two, Nearest(y) as real, last)
  {
    Ordered(Two, 0.0, x, -last);
    y := Shift(Two, x, -last);
    Adds(Two, x, -last, last);
  }

  lemma DistanceShifts(a: real, b: real, place: int)
    ensures Distance(Shift(Two, a, place), Shift(Two, b, place)) == Shift(Two, Distance(a, b), place)
  {
    Ordered(Two, a, b, place);
    Subtracts(a, b, place);
    Subtracts(b, a, place);
  }

  // ---------------------------------------------------- what strtod can give

  /** Every finite double is below 2^1024. */
  lemma DoubleBound(d: real)
    requires IsDouble(d)
    ensures -Shift(Two, 1.0, MAX_PLACE + 53) < d < Shift(Two, 1.0, MAX_PLACE + 53)
  {
    var m, place :| -TWO_53 < m < TWO_53 && MIN_PLACE <= place <= MAX_PLACE && Represents(d, m, place);
    TopBits(MAX_PLACE + 53);
    Ordered(Two, m as real, TWO_53 as real, place);
    Ordered(Two, -(TWO_53 as real), m as real, place);
    Opposite(Two, TWO_53 as real, place);
    Grows(Two, TWO_53 as real, place, MAX_PLACE);
  }

  lemma ToDoubleKeeps(d: real)
    requires IsDouble(d)
    ensures ToDouble(d) == Finite(d)
  {
    RoundKeepsDoubles(d);
    DoubleBound(d);
  }

  /** And only doubles are given. */
  lemma RoundIsDouble(x: real)
    requires -Shift(Two, 1.0, MAX_PLACE + 53) < Round(x) < Shift(Two, 1.0, MAX_PLACE + 53)
    ensures IsDouble(Round(x))
  {
    if x > 0.0 {
      var m, place := RoundedForm(x);
    } else if x < 0.0 {
      var m, place := RoundedForm(-x);
      Opposite(Two, m as real, place);
      assert Represents(Round(x), -m, place);
    } else {
      Ordered(Two, 0.0, 0.0, 0);
      assert Represents(0.0, 0, 0);
    }
  }

  lemma RoundedForm(x: real) returns (m: int, place: int)
    requires x > 0.0 && Round(x) < Shift(Two, 1.0, MAX_PLACE + 53)
    ensures 0 <= m < TWO_53 && MIN_PLACE <= place <= MAX_PLACE && Represents(Round(x), m, place)
  {
    place := LastPlace(x);
    var y := Rounded(x, place);
    m := Nearest(y);
    BitsOfLast(x, place, y);
    Doubled(TWO_52 as real, place);
    if m == TWO_53 {
      m, place := TWO_52, place + 1;
    }
    if place > MAX_PLACE {
      TopBits(MAX_PLACE + 54);
      Grows(Two, TWO_52 as real, MAX_PLACE + 1, place);
      Ordered(Two, m as real, TWO_52 as real, place);
    }
  }

  /** In units of its last place x has 53 bits. */
  lemma BitsOfLast(x: real, place: int, y: real)
    requires x > 0.0 && place == LastPlace(x) && y >= 0.0 && x == Shift(Two, y, place)
    ensures y < TWO_53 as real && (place == MIN_PLACE || TWO_52 as real <= y)
    ensures 0 <= Nearest(y) <= TWO_53 && (place == MIN_PLACE || TWO_52 <= Nearest(y))
  {
    Ordered(Two, y, TWO_53 as real, place);
    Ordered(Two, y, TWO_52 as real, place);
  }

  /** A real half-way between two units of its last place is rounded to an even number of them. */
  lemma HalfwayGoesToEven(x: real) returns (n: int)
    requires x > 0.0 && Distance(Round(x), x) == Shift(Two, 0.5, LastPlace(x))
    ensures Round(x) == Shift(Two, n as real, LastPlace(x)) && n % 2 == 0
  {
    var last := LastPlace(x);
    var y := Rounded(x, last);
    n := Nearest(y);
    DistanceShifts(n as real, y, last);
    var d := Distance(n as real, y);
    Ordered(Two, d, 0.5, last);
    Ordered(Two, 0.5, d, last);
    TiesToEven(y);
  }

  /** Overflow: exactly what is rounded to 2^1024 or beyond becomes an infinity, of its sign. */
  lemma OverflowIff(x: real)
    ensures ToDouble(x).Infinity? <==> Distance(Round(x), 0.0) >= Shift(Two, 1.0, 1024)
    ensures ToDouble(x).Infinity? ==> (ToDouble(x).minus <==> x < 0.0)
    ensures ToDouble(x).Finite? ==> ToDouble(x).x == Round(x)
  {
    Ordered(Two, 0.0, 1.0, 1024);
    RoundSign(x);
  }

  lemma RoundSign(x: real)
    ensures x >= 0.0 ==> Round(x) >= 0.0
    ensures x <= 0.0 ==> Round(x) <= 0.0
  {
    if x != 0.0 {
      var y := if x < 0.0 then -x else x;
      var last := LastPlace(y);
      var units := Rounded(y, last);
      Ordered(Two, 0.0, Nearest(units) as real, last);
    }
  }
}
