/** Multiplying by powers of two and ten with integer exponents, and rounding to integers. */
module Powers {
  datatype Base = Two | Ten

  function Times(b: Base, x: real): real {
    if b == Two then 2.0 * x else 10.0 * x
  }

  function Over(b: Base, x: real): real {
    if b == Two then x / 2.0 else x / 10.0
  }

  /** x times the power e of the base. */
  function Shift(b: Base, x: real, e: int): real
    decreases if e < 0 then -e else e
  {
    if e == 0 then x
    else if e > 0 then Times(b, Shift(b, x, e - 1))
    else Over(b, Shift(b, x, e + 1))
  }

  lemma Next(b: Base, x: real, e: int)
    ensures Shift(b, x, e + 1) == Times(b, Shift(b, x, e))
  {
  }

  lemma {:induction false} Adds(b: Base, x: real, e: int, f: int)
    ensures Shift(b, Shift(b, x, e), f) == Shift(b, x, e + f)
    decreases if f < 0 then -f else f
  {
    if f > 0 {
      Adds(b, x, e, f - 1);
      Next(b, x, e + f - 1);
    } else if f < 0 {
      Adds(b, x, e, f + 1);
      Next(b, x, e + f);
    }
  }

  lemma {:induction false} Sums(b: Base, x: real, y: real, e: int)
    ensures Shift(b, x + y, e) == Shift(b, x, e) + Shift(b, y, e)
    decreases if e < 0 then -e else e
  {
    if e > 0 {
      Sums(b, x, y, e - 1);
    } else if e < 0 {
      Sums(b, x, y, e + 1);
    }
  }

  lemma {:induction false} Factors(b: Base, c: real, x: real, e: int)
    ensures Shift(b, c * x, e) == c * Shift(b, x, e)
    decreases if e < 0 then -e else e
  {
    if e > 0 {
      Factors(b, c, x, e - 1);
    } else if e < 0 {
      Factors(b, c, x, e + 1);
    }
  }

  lemma Proportional(b: Base, x: real, e: int)
    ensures Shift(b, x, e) == x * Shift(b, 1.0, e)
  {
    Factors(b, x, 1.0, e);
    var same := x * 1.0;
    assert same == x;
  }

  lemma Opposite(b: Base, x: real, e: int)
    ensures Shift(b, -x, e) == -Shift(b, x, e)
  {
    Factors(b, -1.0, x, e);
  }

  /** Order is kept. */
  lemma {:induction false} Ordered(b: Base, x: real, y: real, e: int)
    ensures x < y <==> Shift(b, x, e) < Shift(b, y, e)
    ensures x == 0.0 ==> Shift(b, x, e) == 0.0
    decreases if e < 0 then -e else e
  {
    if e > 0 {
      Ordered(b, x, y, e - 1);
    } else if e < 0 {
      Ordered(b, x, y, e + 1);
    }
  }

  /** Positive numbers grow with the exponent. */
  lemma {:induction false} Grows(b: Base, x: real, e: int, f: int)
    requires e <= f && x > 0.0
    ensures 0.0 < Shift(b, x, e) <= Shift(b, x, f)
    ensures e < f ==> Times(b, Shift(b, x, e)) <= Shift(b, x, f)
    decreases f - e
  {
    Ordered(b, 0.0, x, e);
    if e < f {
      Grows(b, x, e, f - 1);
      Next(b, x, f - 1);
    }
  }

  /** A power is above its exponent. */
  lemma {:induction false} AboveExponent(b: Base, n: nat)
    ensures Shift(b, 1.0, n) >= 1.0 && Shift(b, 1.0, n) > n as real
  {
    if n > 0 {
      AboveExponent(b, n - 1);
    }
  }

  /** The least e from `start` on with x below the power e. */
  function LogUp(b: Base, x: real, start: int): (e: int)
    ensures start <= e && x < Shift(b, 1.0, e) && (e == start || Shift(b, 1.0, e - 1) <= x)
    decreases x.Floor + 1 - start
  {
    if x < Shift(b, 1.0, start) then start
    else
      BelowFloor(b, x, start);
      LogUp(b, x, start + 1)
  }

  lemma BelowFloor(b: Base, x: real, e: int)
    requires Shift(b, 1.0, e) <= x
    ensures e <= x.Floor
  {
    if e >= 0 {
      AboveExponent(b, e);
    } else {
      Ordered(b, 0.0, 1.0, e);
    }
  }

  /** The largest e up to `start` with the power e not above x. */
  function LogDown(b: Base, x: real, start: int): (e: int)
    requires x > 0.0
    ensures e <= start && Shift(b, 1.0, e) <= x && (e == start || x < Shift(b, 1.0, e + 1))
    decreases (1.0 / x).Floor + 1 + start
  {
    if Shift(b, 1.0, start) <= x then start
    else
      AboveInverse(b, x, start);
      LogDown(b, x, start - 1)
  }

  lemma AboveInverse(b: Base, x: real, e: int)
    requires 0.0 < x < Shift(b, 1.0, e)
    ensures 0 <= (1.0 / x).Floor + 1 + e
  {
    if e < 0 {
      // x * b^-e < 1, and b^-e > -e
      AboveExponent(b, -e);
      var product := BelowOne(b, x, e);
      Inverted(x, Shift(b, 1.0, -e), product);
    } else {
      assert 1.0 / x > 0.0;
    }
  }

  lemma BelowOne(b: Base, x: real, e: int) returns (product: real)
    requires 0.0 < x < Shift(b, 1.0, e)
    ensures product == x * Shift(b, 1.0, -e) && product < 1.0
  {
    Ordered(b, x, Shift(b, 1.0, e), -e);
    Adds(b, 1.0, e, -e);
    Proportional(b, x, -e);
    product := Shift(b, x, -e);
  }

  lemma Inverted(x: real, q: real, product: real)
    requires 0.0 < x && product == x * q && product < 1.0
    ensures 1.0 / x > q
  {
    var gap := 1.0 / x - q;
    assert gap * x == 1.0 - product;
  }

  /** The nearest integer, and the even one of two. */
  function Nearest(x: real): (n: int)
    requires x >= 0.0
    ensures n >= 0 && -0.5 <= n as real - x <= 0.5
  {
    var below := x.Floor;
    var rest := x - below as real;
    if rest < 0.5 || (rest == 0.5 && below % 2 == 0) then below else below + 1
  }

  /** Half-way between two integers the even one is taken. */
  lemma TiesToEven(x: real)
    requires x >= 0.0 && (Nearest(x) as real - x == 0.5 || x - Nearest(x) as real == 0.5)
    ensures Nearest(x) % 2 == 0
  {
  }
}
