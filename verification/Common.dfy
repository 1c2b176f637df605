/** Constants, small definitions and facts of arithmetic that several models use. */
module Common {

  const PAGE_SIZE := 4096
  const UINT32_MAX := 0xffff_ffff
  const UINT64_MAX := 0xffff_ffff_ffff_ffff

  datatype Option<T> = None | Some(value: T)

  function Min(a: nat, b: nat): nat { if a <= b then a else b }

  function Max(a: nat, b: nat): nat { if a >= b then a else b }

  /** No number is listed twice. */
  ghost predicate Distinct(s: seq<nat>) { forall i, j :: 0 <= i < j < |s| ==> s[i] != s[j] }

  lemma MulAtLeast(n: nat, a: int)
    requires a >= 1
    ensures n * a >= n
  {
    assert n * a == n * (a - 1) + n;
  }

  lemma QuotientUnique(n: nat, q: int, r: nat, p: int, t: nat)
    requires r < n && t < n && n * q + r == n * p + t
    ensures q == p && r == t
  {
    assert n * (q - p) == t - r;
    if q > p {
      MulAtLeast(n, q - p);
    } else if q < p {
      assert n * (p - q) == r - t;
      MulAtLeast(n, p - q);
    }
  }

  lemma DivModUnique(x: int, n: nat, q: int, r: nat)
    requires n > 0 && x == n * q + r && r < n
    ensures x / n == q && x % n == r
  {
    QuotientUnique(n, x / n, x % n, q, r);
  }

  lemma ModShift(x: int, n: nat, m: int)
    requires n > 0
    ensures (x + n * m) % n == x % n
  {
    assert n * (x / n + m) == n * (x / n) + n * m;
    DivModUnique(x + n * m, n, x / n + m, x % n);
  }
}
