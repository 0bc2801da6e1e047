/** Integer powers, the capacity arithmetic of a Refs tree. */
module Powers {

  function Pow(a: int, b: nat): int {
    if b == 0 then 1 else a * Pow(a, b - 1)
  }

  lemma MulMono(a: int, b: int, c: int)
    requires a <= b && 0 <= c
    ensures a * c <= b * c
  {
  }

  lemma {:induction false} PowSquare(a: int, b: nat)
    ensures Pow(a * a, b) == Pow(a, 2 * b)
  {
    if b > 0 {
      PowSquare(a, b - 1);
      assert Pow(a, 2 * b) == a * (a * Pow(a, 2 * b - 2));
    }
  }

  lemma {:induction false} PowNat(a: int, b: nat)
    requires a >= 0
    ensures Pow(a, b) >= 0
  {
    if b > 0 {
      PowNat(a, b - 1);
      MulMono(0, a, Pow(a, b - 1));
    }
  }

  lemma {:induction false} PowPositive(a: int, b: nat)
    requires a >= 1
    ensures Pow(a, b) >= 1
  {
    if b > 0 {
      PowPositive(a, b - 1);
      MulMono(1, a, Pow(a, b - 1));
    }
  }

  lemma {:induction false} PowGrows(a: int, b: nat)
    requires a >= 2
    ensures Pow(a, b) > b
  {
    if b > 0 {
      PowGrows(a, b - 1);
      MulMono(2, a, Pow(a, b - 1));
    }
  }

  lemma {:induction false} PowMono(a: int, b: nat, c: nat)
    requires a >= 1 && b <= c
    ensures Pow(a, b) <= Pow(a, c)
    decreases c - b
  {
    if b < c {
      PowPositive(a, b);
      MulMono(1, a, Pow(a, b));
      PowMono(a, b + 1, c);
    }
  }

  /** `k` copies of `c`: multiplication the solver only unfolds on demand. */
  function Times(c: nat, k: nat): (p: nat) {
    if k == 0 then 0 else c + Times(c, k - 1)
  }

  lemma {:induction false} TimesIs(c: nat, k: nat)
    ensures Times(c, k) == c * k
  {
    if k > 0 {
      TimesIs(c, k - 1);
    }
  }

  lemma {:induction false} TimesMono(c: nat, j: nat, k: nat)
    requires j <= k
    ensures Times(c, j) <= Times(c, k)
  {
    if j < k {
      TimesMono(c, j, k - 1);
    }
  }

  /** Capacity `d` to the power `h`, by repeated addition. */
  function Cap(d: nat, h: nat): nat {
    if h == 0 then 1 else Times(Cap(d, h - 1), d)
  }

  lemma {:induction false} CapIsPow(d: nat, h: nat)
    ensures Cap(d, h) == Pow(d, h)
  {
    if h > 0 {
      CapIsPow(d, h - 1);
      TimesIs(Cap(d, h - 1), d);
    }
  }

  lemma {:induction false} CapPositive(d: nat, h: nat)
    requires d >= 1
    ensures Cap(d, h) >= 1
  {
    if h > 0 {
      CapPositive(d, h - 1);
      assert Times(Cap(d, h - 1), d) == Cap(d, h - 1) + Times(Cap(d, h - 1), d - 1);
    }
  }

  lemma CapBase(d: nat)
    ensures Cap(d, 0) == 1 && Cap(d, 1) == d
  {
    TimesIs(1, d);
  }

  /** Square and multiply. */
  method PowLoop(a: int, b: nat) returns (p: int)
    ensures p == Pow(a, b)
  {
    var a', b' := a, b;
    p := 1;
    while b' > 0
      invariant p * Pow(a', b') == Pow(a, b)
    {
      PowSquare(a', b' / 2);
      ghost var rest := Pow(a' * a', b' / 2);
      if b' % 2 != 0 {
        assert Pow(a', b') == a' * rest;
        assert p * (a' * rest) == (p * a') * rest;
        p := p * a';
      }
      b' := b' / 2;
      a' := a' * a';
    }
  }
}
