/** Python's integer division and remainder, which round toward negative
    infinity, and the facts about them that the frame sampler relies on.
    Dafny's own `/` and `%` are Euclidean; the two agree for a positive divisor. */
module PyInt {

  /** Python's `a // b`. */
  function FloorDiv(a: int, b: int): int
    requires b != 0
  {
    if b > 0 then a / b else (-a) / (-b)
  }

  /** Python's `a % b`: what remains of `a` after `b * (a // b)`. */
  function FloorMod(a: int, b: int): int
    requires b != 0
  {
    a - b * FloorDiv(a, b)
  }

  /** The remainder takes the sign of the divisor and is smaller than it in magnitude. */
  lemma {:induction false} FloorModRange(a: int, b: int)
    requires b != 0
    ensures a == b * FloorDiv(a, b) + FloorMod(a, b)
    ensures b > 0 ==> 0 <= FloorMod(a, b) < b
    ensures b < 0 ==> b < FloorMod(a, b) <= 0
  {
    if b < 0 {
      var q, r := (-a) / (-b), (-a) % (-b);
      assert -a == (-b) * q + r && 0 <= r < -b;
      assert FloorMod(a, b) == -r;
    }
  }

  /** Multiplying both sides by a non-negative factor keeps an inequality. */
  lemma {:induction false} MulMono(x: int, y: int, d: int)
    requires x <= y && 0 <= d
    ensures x * d <= y * d
  {
    var k := y - x;
    assert y * d == x * d + k * d;
  }

  /** A quotient and remainder in range are the only ones there are. */
  lemma {:induction false} DivUnique(a: int, d: int, q: int, r: int)
    requires 0 < d && 0 <= r < d
    requires a == q * d + r
    ensures a / d == q && a % d == r
  {
    var q0, r0 := a / d, a % d;
    assert a == q0 * d + r0 && 0 <= r0 < d;
    if q > q0 {
      assert (q0 + 1) * d == q0 * d + d;
      MulMono(q0 + 1, q, d);
    } else if q < q0 {
      assert (q + 1) * d == q * d + d;
      MulMono(q + 1, q0, d);
    }
  }

  /** `k` is `q` times `b` exactly when Python finds no remainder and the quotient `q`. */
  lemma {:induction false} MultipleIff(k: int, b: int, q: int)
    requires b != 0
    ensures q * b == k <==> FloorMod(k, b) == 0 && FloorDiv(k, b) == q
  {
    if q * b == k {
      if b > 0 {
        DivUnique(k, b, q, 0);
      } else {
        assert -k == q * (-b);
        DivUnique(-k, -b, q, 0);
      }
    }
  }

  /** Python's `-(-n // d)` for a positive `d`: the number of multiples of `d` in `0 .. n-1`. */
  function CeilDiv(n: nat, d: nat): nat
    requires d > 0
  {
    (n + d - 1) / d
  }

  /** A multiple `q * d` lies in `0 .. n-1` exactly when `q` lies in `0 .. CeilDiv(n, d) - 1`. */
  lemma {:induction false} MultipleBelowIff(q: int, d: nat, n: nat)
    requires d > 0
    ensures 0 <= q * d < n <==> 0 <= q < CeilDiv(n, d)
  {
    var c := CeilDiv(n, d);
    var s := n + d - 1;
    assert s == c * d + s % d && 0 <= s % d < d;
    if 0 <= q < c {
      MulMono(q + 1, c, d);
      assert (q + 1) * d == q * d + d;
    }
    if q < 0 {
      MulMono(q, -1, d);
    }
    if q >= c && q >= 0 {
      MulMono(c + 1, q + 1, d);
      assert (c + 1) * d == c * d + d;
      assert (q + 1) * d == q * d + d;
    }
  }

  /** Counting one more position `n` adds one multiple exactly when `n` is itself a multiple. */
  lemma {:induction false} CeilDivStep(n: nat, d: nat)
    requires d > 0
    ensures CeilDiv(n + 1, d) == if n % d == 0 then CeilDiv(n, d) + 1 else CeilDiv(n, d)
    ensures n % d == 0 ==> n / d == CeilDiv(n, d)
  {
    var q, r := n / d, n % d;
    var lo, hi := n + d - 1, (n + 1) + d - 1;
    assert CeilDiv(n, d) == lo / d && CeilDiv(n + 1, d) == hi / d;
    DivUnique(n, d, q, r);
    var qd := q * d;
    assert (q + 1) * d == qd + d;
    if r == 0 {
      DivUnique(lo, d, q, d - 1);
      DivUnique(hi, d, q + 1, 0);
    } else {
      DivUnique(lo, d, q + 1, r - 1);
      DivUnique(hi, d, q + 1, r);
    }
  }
}
