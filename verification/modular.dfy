/** Facts about remainders, the round-robin cursor's arithmetic. */
module Modular {

  /** A cursor below n advanced by one step, wrapping to 0 at n: what
      `nextProviderIndex++` followed by `nextProviderIndex %= size` does to an
      index that was in range. */
  function NextCursor(c: nat, n: nat): nat
  {
    if c + 1 < n then c + 1 else 0
  }

  /** A remainder is determined by any quotient-remainder decomposition. */
  lemma ModUnique(x: int, n: int, d: int, r: int)
    requires n > 0 && 0 <= r < n && x == d * n + r
    ensures x % n == r
  {
    var q, m := x / n, x % n;
    assert x == q * n + m && 0 <= m < n;
    var k := d - q;
    assert k * n == m - r;
    if k >= 1 {
      MulAtLeast(k, n);
    } else if k <= -1 {
      MulAtLeast(-k, n);
    }
  }

  lemma {:induction false} MulAtLeast(k: int, n: int)
    requires k >= 1 && n > 0
    ensures k * n >= n
    decreases k
  {
    if k > 1 {
      MulAtLeast(k - 1, n);
      assert k * n == (k - 1) * n + n;
    }
  }

  /** Adding one and then reducing is stepping the reduced value. */
  lemma ModSucc(m: nat, n: nat)
    requires n > 0
    ensures (m + 1) % n == NextCursor(m % n, n)
  {
    var d, x := m / n, m % n;
    assert m == d * n + x;
    if x + 1 < n {
      ModUnique(m + 1, n, d, x + 1);
    } else {
      assert m + 1 == (d + 1) * n;
      ModUnique(m + 1, n, d + 1, 0);
    }
  }

  /** For a cursor in range, stepping is adding one modulo n. */
  lemma NextCursorIsMod(c: nat, n: nat)
    requires c < n
    ensures NextCursor(c, n) == (c + 1) % n
  {
    ModUnique(c, n, 0, c);
    ModSucc(c, n);
  }

  /** The cursor after j steps from c. */
  function CursorAfter(c: nat, j: nat, n: nat): nat
  {
    if j == 0 then c else NextCursor(CursorAfter(c, j - 1, n), n)
  }

  /** Stepping j times from a cursor in range is adding j modulo n. */
  lemma {:induction false} CursorAfterIsMod(c: nat, j: nat, n: nat)
    requires c < n
    ensures CursorAfter(c, j, n) == (c + j) % n
  {
    if j == 0 {
      ModUnique(c, n, 0, c);
    } else {
      CursorAfterIsMod(c, j - 1, n);
      ModSucc(c + j - 1, n);
    }
  }

  /** Taking one step first and j - 1 afterwards is taking j steps. */
  lemma {:induction false} CursorShift(c: nat, j: nat, n: nat)
    requires j >= 1
    ensures CursorAfter(c, j, n) == CursorAfter(NextCursor(c, n), j - 1, n)
  {
    if j > 1 {
      CursorShift(c, j - 1, n);
    }
  }

  /** From 0 the cursor counts the steps until it wraps at n. */
  lemma {:induction false} CursorFromZero(j: nat, n: nat)
    requires j <= n
    ensures CursorAfter(0, j, n) == (if j < n then j else 0)
  {
    if j > 0 {
      CursorFromZero(j - 1, n);
    }
  }
}
