/** The integer arithmetic the trees and the layouts are built on: powers of two as Rust's
    `next_power_of_two`, `is_power_of_two` and `trailing_zeros` see them, and rounding division. */
module Numbers {

  datatype Option<+T> = None | Some(value: T)

  /** How many numbers a 64-bit word holds. */
  const U64: nat := 0x1_0000_0000_0000_0000

  function Min(a: int, b: int): int {
    if a <= b then a else b
  }

  function Max(a: int, b: int): int {
    if a <= b then b else a
  }

  function Pow2(k: nat): (r: nat)
    ensures r >= 1
  {
    if k == 0 then 1 else 2 * Pow2(k - 1)
  }

  /** `n >> k`. */
  function Shr(n: nat, k: nat): nat {
    if k == 0 then n else Shr(n / 2, k - 1)
  }

  /** `u32::trailing_zeros` of a positive number. */
  function TrailingZeros(n: nat): nat
    requires n > 0
  {
    if n % 2 == 1 then 0 else 1 + TrailingZeros(n / 2)
  }

  predicate IsPowerOfTwo(n: nat) {
    n == 1 || (n > 1 && n % 2 == 0 && IsPowerOfTwo(n / 2))
  }

  /** `usize::next_power_of_two`: 1 for 0 and 1. */
  function NextPowerOfTwo(n: nat): nat {
    if n <= 1 then 1 else 2 * NextPowerOfTwo((n + 1) / 2)
  }

  /** `u64::div_ceil`. */
  function CeilDiv(a: nat, b: nat): nat
    requires b > 0
  {
    if a % b == 0 then a / b else a / b + 1
  }

  lemma {:induction false} PowerOfTwoForm(n: nat)
    requires IsPowerOfTwo(n)
    ensures n == Pow2(TrailingZeros(n))
  {
    if n > 1 { PowerOfTwoForm(n / 2); }
  }

  lemma {:induction false} Pow2IsPowerOfTwo(k: nat)
    ensures IsPowerOfTwo(Pow2(k)) && TrailingZeros(Pow2(k)) == k
  {
    if k > 0 {
      Pow2IsPowerOfTwo(k - 1);
      assert Pow2(k) / 2 == Pow2(k - 1) && Pow2(k) % 2 == 0;
    }
  }

  lemma {:induction false} Pow2Add(a: nat, b: nat)
    ensures Pow2(a + b) == Pow2(a) * Pow2(b)
  {
    if a > 0 {
      Pow2Add(a - 1, b);
      assert Pow2(a + b) == 2 * Pow2(a - 1 + b);
    }
  }

  /** A shift is the rounded-down division by a power of two. */
  lemma {:induction false} ShrBounds(n: nat, k: nat)
    ensures Shr(n, k) * Pow2(k) <= n < Shr(n, k) * Pow2(k) + Pow2(k)
  {
    if k > 0 {
      ShrBounds(n / 2, k - 1);
      TwiceProduct(Shr(n / 2, k - 1), Pow2(k - 1));
    }
  }

  lemma TwiceProduct(q: nat, w: nat)
    ensures q * (2 * w) == 2 * (q * w) == (2 * q) * w
    ensures (2 * q + 1) * w == 2 * (q * w) + w
  {
  }

  lemma {:induction false} ShrShr(n: nat, a: nat, b: nat)
    ensures Shr(Shr(n, a), b) == Shr(n, a + b)
    decreases a
  {
    if a > 0 { ShrShr(n / 2, a - 1, b); }
  }

  lemma ShrBelow(n: nat, k: nat, top: nat)
    requires k <= top && n < Pow2(top)
    ensures Shr(n, k) < Pow2(top - k)
  {
    ShrBounds(n, k);
    Pow2Add(top - k, k);
    if Shr(n, k) >= Pow2(top - k) { MulMono(Pow2(top - k), Shr(n, k), Pow2(k)); }
  }

  /** A multiple of a power of two, shifted down and scaled up again, is itself. */
  lemma ShrExact(n: nat, k: nat)
    requires n % Pow2(k) == 0
    ensures Shr(n, k) * Pow2(k) == n
  {
    ShrBounds(n, k);
    var q := n / Pow2(k);
    assert n == q * Pow2(k);
    if q < Shr(n, k) {
      MulMono(q, Shr(n, k), Pow2(k));
    } else if Shr(n, k) < q {
      MulMono(Shr(n, k), q, Pow2(k));
    }
  }

  lemma Pow2Even(k: nat)
    requires Pow2(k) > 1
    ensures k > 0 && Pow2(k) == 2 * Pow2(k - 1) && Pow2(k) % 2 == 0
  {
  }

  lemma {:induction false} Pow2Monotone(a: nat, b: nat)
    requires a <= b
    ensures Pow2(a) <= Pow2(b)
    ensures a < b ==> 2 * Pow2(a) <= Pow2(b)
  {
    if a < b { Pow2Monotone(a, b - 1); }
  }

  /** The power of two at or above `n`: no smaller one will do. */
  lemma {:induction false} NextPowerOfTwoLeast(n: nat)
    ensures IsPowerOfTwo(NextPowerOfTwo(n)) && n <= NextPowerOfTwo(n)
    ensures n > 1 ==> NextPowerOfTwo(n) < 2 * n
  {
    if n > 1 { NextPowerOfTwoLeast((n + 1) / 2); }
  }

  /** A power of two between `n` and `2n - 1` is the next one after `n`. */
  lemma {:induction false} NextPowerOfTwoUnique(n: nat, k: nat)
    requires n >= 1 && n <= Pow2(k) < 2 * n
    ensures NextPowerOfTwo(n) == Pow2(k)
  {
    if n > 1 { NextPowerOfTwoUnique((n + 1) / 2, k - 1); }
  }

  lemma CeilDivBounds(a: nat, b: nat)
    requires b > 0
    ensures a <= CeilDiv(a, b) * b < a + b
    ensures a > 0 ==> CeilDiv(a, b) > 0 && (CeilDiv(a, b) - 1) * b < a
  {
    var q := a / b;
    assert a == q * b + a % b;
    assert (q + 1) * b == q * b + b;
    if a % b == 0 { assert (q - 1) * b == q * b - b; }
  }

  /** Rounding division is pinned down by its two bounds. */
  lemma CeilDivUnique(a: nat, b: nat, q: nat)
    requires b > 0 && a <= q * b < a + b
    ensures q == CeilDiv(a, b)
  {
    CeilDivBounds(a, b);
    var r := CeilDiv(a, b);
    if q < r {
      MulMono(q, r, b);
    } else if r < q {
      MulMono(r, q, b);
    }
  }

  lemma MulMono(a: nat, b: nat, c: nat)
    requires a <= b
    ensures a * c <= b * c
    ensures a < b ==> a * c + c <= b * c
  {
    var d := b - a;
    assert b * c == a * c + d * c;
    if d > 0 { assert d * c == (d - 1) * c + c; }
  }

  lemma CeilDivTwice(a: nat, b: nat, c: nat)
    requires b > 0 && c > 0
    ensures b * c > 0 && CeilDiv(CeilDiv(a, b), c) == CeilDiv(a, b * c)
  {
    CeilDivBounds(a, b);
    CeilDivBounds(CeilDiv(a, b), c);
    NestedBounds(a, b, c, CeilDiv(a, b), CeilDiv(CeilDiv(a, b), c));
    CeilDivUnique(a, b * c, CeilDiv(CeilDiv(a, b), c));
  }

  lemma NestedBounds(a: nat, b: nat, c: nat, n: nat, m: nat)
    requires b > 0 && c > 0
    requires a <= n * b < a + b && n <= m * c < n + c
    ensures b * c > 0 && a <= m * (b * c) < a + b * c
  {
    assert m * (b * c) == (m * c) * b;
    MulMono(n, m * c, b);
    MulMono(m * c, n + c - 1, b);
    assert (n + c - 1) * b == n * b + c * b - b;
  }

  /** Dividing by `2^k` and rounding up commutes with taking the next power of two. */
  lemma NextPowerOfTwoOfPieces(n: nat, k: nat)
    requires n > Pow2(k)
    ensures NextPowerOfTwo(n) == NextPowerOfTwo(CeilDiv(n, Pow2(k))) * Pow2(k)
  {
    var w := Pow2(k);
    var m := CeilDiv(n, w);
    CeilDivBounds(n, w);
    if m <= 1 { MulMono(m, 1, w); }
    NextPowerOfTwoLeast(m);
    PowerOfTwoForm(NextPowerOfTwo(m));
    var j := TrailingZeros(NextPowerOfTwo(m));
    Pow2Add(j, k);
    HalfBelow(m, j);
    ScaledBounds(n, m, Pow2(j), w);
    NextPowerOfTwoUnique(n, j + k);
  }

  lemma ScaledBounds(n: nat, m: nat, top: nat, w: nat)
    requires m > 1 && m <= top <= 2 * (m - 1)
    requires n <= m * w && (m - 1) * w < n
    ensures n <= top * w < 2 * n
  {
    MulMono(m, top, w);
    MulMono(top, 2 * (m - 1), w);
    assert 2 * (m - 1) * w == 2 * ((m - 1) * w);
  }

  lemma HalfBelow(m: nat, j: nat)
    requires m > 1 && Pow2(j) < 2 * m
    ensures Pow2(j) <= 2 * (m - 1)
  {
    assert j == 0 || Pow2(j) % 2 == 0;
  }

  lemma DivisionForm(a: nat, b: nat, q: nat, r: nat)
    requires b > 0 && a == q * b + r && r < b
    ensures a / b == q && a % b == r
  {
    var q', r' := a / b, a % b;
    assert a == q' * b + r';
    if q' < q {
      MulMono(q', q, b);
    } else if q < q' {
      MulMono(q, q', b);
    }
  }
}
