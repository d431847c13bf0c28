/** Division in steps, powers of two, and bytes. */
module Numerals {

  type byte = b: nat | b < 256

  lemma Regroup(n: nat, a: nat, b: nat, q: nat, r: nat, rest: nat)
    requires n == a * (b * q + r) + rest && r < b && rest < a
    ensures n == (a * b) * q + (r * a + rest) && r * a + rest < a * b
  {
    assert a * (b * q + r) == a * (b * q) + a * r;
    assert a * (b * q) == (a * b) * q;
    assert (r + 1) * a <= b * a;
    assert (r + 1) * a == r * a + a;
  }

  /** Dividing in two steps. */
  lemma DivDiv(n: nat, a: nat, b: nat)
    requires a > 0 && b > 0
    ensures a * b > 0 && n / (a * b) == n / a / b
    ensures n % (a * b) == n / a % b * a + n % a
  {
    Division(n, a);
    Division(n / a, b);
    var q, r := n / a / b, n / a % b;
    Regroup(n, a, b, q, r, n % a);
    Quotient(n, a * b, q, r * a + n % a);
  }

  lemma Division(n: nat, d: nat)
    requires d > 0
    ensures n == d * (n / d) + n % d && 0 <= n % d < d
  {}

  lemma Quotient(n: nat, d: nat, q: nat, r: nat)
    requires d > 0 && n == d * q + r && r < d
    ensures n / d == q && n % d == r
  {
    var m := n / d;
    assert n == d * m + n % d;
    assert d * (q - m) == n % d - r by { assert d * (q - m) == d * q - d * m; }
    SmallMultiple(d, q - m);
  }

  lemma SmallMultiple(d: int, k: int)
    requires d > 0 && -d < d * k < d
    ensures k == 0
  {}

  function Pow2(k: nat): (p: nat)
    ensures p > 0
  {
    if k == 0 then 1 else 2 * Pow2(k - 1)
  }

  lemma TwiceProduct(a: nat, b: nat)
    ensures 2 * (a * b) == (2 * a) * b
  {}

  lemma {:induction false} Pow2Add(j: nat, k: nat)
    ensures Pow2(j + k) == Pow2(j) * Pow2(k)
  {
    if j > 0 {
      Pow2Add(j - 1, k);
      TwiceProduct(Pow2(j - 1), Pow2(k));
    }
  }

  /** The number that `bytes` writes in base 256. */
  function Value(bytes: seq<byte>): nat {
    if bytes == [] then 0 else Value(bytes[..|bytes| - 1]) * 256 + bytes[|bytes| - 1]
  }

  const TWO_32 := 0x1_0000_0000

  lemma Pow2Of32()
    ensures Pow2(32) == TWO_32 && Pow2(8) == 256 && Pow2(5) == 32
  {
    assert Pow2(5) == 32;
    assert Pow2(8) == 8 * 32;
    assert Pow2(12) == 4096;
    assert Pow2(16) == 16 * 4096;
    assert Pow2(20) == 0x10_0000;
    assert Pow2(24) == 0x100_0000;
    assert Pow2(28) == 0x1000_0000;
  }
}
