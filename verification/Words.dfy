/** Fixed-width machine arithmetic: the wrap-around of Go's uint64 and int64,
    and the 128-bit multiply-then-divide the reward split uses. */
module Words {
  import opened Wrappers

  const TWO63 := 0x8000_0000_0000_0000
  const TWO64 := 0x1_0000_0000_0000_0000

  /** The uint64 holding x after wrap-around. */
  function Uint64(x: int): (r: nat)
    ensures r < TWO64
    ensures 0 <= x < TWO64 ==> r == x
  {
    x % 0x1_0000_0000_0000_0000
  }

  /** The int64 holding x after two's complement wrap-around. */
  function Int64(x: int): (r: int)
    ensures -TWO63 <= r < TWO63
    ensures -TWO63 <= x < TWO63 ==> r == x
  {
    (x + 0x8000_0000_0000_0000) % 0x1_0000_0000_0000_0000 - 0x8000_0000_0000_0000
  }

  lemma Uint64Absorbs(x: int, y: int)
    ensures Uint64(Uint64(x) + y) == Uint64(x + y)
    ensures Uint64(x + Uint64(y)) == Uint64(x + y)
  {
    Uint64Laps(x + y, Uint64(x) + y, x / 0x1_0000_0000_0000_0000);
    Uint64Laps(x + y, x + Uint64(y), y / 0x1_0000_0000_0000_0000);
  }

  lemma Uint64Laps(x: int, y: int, k: int)
    requires x == y + k * TWO64
    ensures Uint64(x) == Uint64(y)
  {
  }

  lemma Int64Absorbs(x: int, y: int)
    ensures Int64(Int64(x) + y) == Int64(x + y)
    ensures Int64(x + Int64(y)) == Int64(x + y)
    ensures Int64(x - Int64(y)) == Int64(x - y)
  {
    Int64Laps(x + y, Int64(x) + y, (x + TWO63) / 0x1_0000_0000_0000_0000);
    Int64Laps(x + y, x + Int64(y), (y + TWO63) / 0x1_0000_0000_0000_0000);
    Int64Laps(x - y, x - Int64(y), -((y + TWO63) / 0x1_0000_0000_0000_0000));
  }

  lemma Int64Laps(x: int, y: int, k: int)
    requires x == y + k * TWO64
    ensures Int64(x) == Int64(y)
  {
  }

  /** a*b/c at 128-bit width. None is the panic of bits.Div64, which happens
      when the divisor is not above the product's high word. */
  function MulDiv(a: nat, b: nat, c: nat): (r: Option<nat>)
  {
    var hi := a * b / TWO64;
    var lo := a * b % TWO64;
    if c <= hi then None else Some((hi * TWO64 + lo) / c)
  }

  /** The exact inputs on which mulDiv survives, and that it then returns the
      true quotient, which fits a uint64. */
  lemma MulDivExact(a: nat, b: nat, c: nat)
    ensures MulDiv(a, b, c).Some? <==> 0 < c && a * b < c * TWO64
    ensures MulDiv(a, b, c).Some? ==>
              && MulDiv(a, b, c).value < TWO64
              && c * MulDiv(a, b, c).value <= a * b < c * (MulDiv(a, b, c).value + 1)
  {
    var hi, lo := a * b / TWO64, a * b % TWO64;
    assert hi * TWO64 + lo == a * b;
    if hi < c {
      Bounds(hi * TWO64 + lo, c);
      assert (hi + 1) * TWO64 <= c * TWO64;
      QuotientBelow(a * b, c, TWO64);
    } else if c > 0 {
      assert hi * TWO64 >= c * TWO64;
    }
  }

  /** The callers' guarantee is enough: a divisor at least as large as b, and
      not zero, never panics. */
  lemma MulDivCallersSafe(a: nat, b: nat, c: nat)
    requires a < TWO64 && b <= c && 0 < c
    ensures MulDiv(a, b, c) == Some(a * b / c)
  {
    MulMono(a, b, c);
    MulMono(c, a, TWO64 - 1);
    MulDivExact(a, b, c);
    assert a * b / TWO64 * TWO64 + a * b % TWO64 == a * b;
  }

  lemma MulMono(a: nat, b: int, c: int)
    requires b <= c
    ensures a * b <= a * c
  {
    assert a * (c - b) >= 0;
  }

  lemma Bounds(x: nat, c: nat)
    requires 0 < c
    ensures 0 <= x / c && c * (x / c) <= x < c * (x / c + 1)
  {
    assert x == c * (x / c) + x % c;
  }

  lemma QuotientBelow(x: nat, c: nat, m: nat)
    requires 0 < c && x < c * m
    ensures x / c < m
  {
    Bounds(x, c);
    if x / c >= m {
      MulMono(c, m, x / c);
    }
  }
}
