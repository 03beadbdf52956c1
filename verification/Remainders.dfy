/** The remainder by repeated subtraction, which is the `%` of the sources on natural numbers, and the
    facts about it the ring and the assembler rest on. */
module Remainders {

  function Rem(n: nat, c: nat): (r: nat)
    requires c > 0
    ensures r < c && r <= n
    decreases n
  {
    if n < c then n else Rem(n - c, c)
  }

  lemma {:induction false} RemIsMod(n: nat, c: nat)
    requires c > 0
    ensures Rem(n, c) == n % c
    decreases n
  {
    if n >= c {
      RemIsMod(n - c, c);
      ModStep(n, c);
    }
  }

  lemma {:induction false} TurnsApart(x: int, y: int, c: nat)
    requires x < y
    ensures x * c + c <= y * c
    decreases y - x
  {
    assert y * c == (y - 1) * c + c;
    if x < y - 1 {
      TurnsApart(x, y - 1, c);
    }
  }

  lemma Divided(a: nat, c: nat)
    requires c > 0
    ensures a == (a / c) * c + a % c
  {
  }

  lemma ModStep(n: nat, c: nat)
    requires 0 < c <= n
    ensures (n - c) % c == n % c
  {
    Divided(n, c);
    Divided(n - c, c);
    var x, y := n / c - 1, (n - c) / c;
    assert (n / c) * c == x * c + c;
    if x < y {
      TurnsApart(x, y, c);
    } else if y < x {
      TurnsApart(y, x, c);
    }
  }

  /** Two numbers less than one divisor apart have different remainders. */
  lemma {:induction false} RemsDiffer(a: nat, b: nat, c: nat)
    requires 0 < b - a < c
    ensures Rem(a, c) != Rem(b, c)
    decreases a
  {
    if a >= c {
      RemsDiffer(a - c, b - c, c);
    } else if b >= c {
      assert Rem(b - c, c) == b - c;
    }
  }

  /** Adding a multiple keeps the remainder. */
  lemma {:induction false} RemAdd(a: nat, b: nat, c: nat)
    requires c > 0 && Rem(b, c) == 0
    ensures Rem(a + b, c) == Rem(a, c)
    decreases b
  {
    if b >= c {
      RemAdd(a, b - c, c);
      assert a + b - c == a + (b - c);
    }
  }

  /** Taking the remainder away leaves a multiple. */
  lemma {:induction false} RemRest(n: nat, c: nat)
    requires c > 0
    ensures Rem(n - Rem(n, c), c) == 0
    decreases n
  {
    if n >= c {
      RemRest(n - c, c);
      RemAdd(n - c - Rem(n - c, c), c, c);
    }
  }
}
