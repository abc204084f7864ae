/** Natural-number arithmetic for the counting arguments of the enumerations,
    written recursively so that every proof about it stays linear. */
module Powers {

  /** a copies of n added together. */
  function Mul(a: nat, n: nat): nat {
    if a == 0 then 0 else n + Mul(a - 1, n)
  }

  function Pow(b: nat, e: nat): (r: nat)
    ensures b >= 1 ==> r >= 1
  {
    if e == 0 then 1 else Mul(b, Pow(b, e - 1))
  }

  /** How many whole copies of n fit in i. */
  function Quot(i: nat, n: nat): nat
    requires n > 0
    decreases i
  {
    if i < n then 0 else 1 + Quot(i - n, n)
  }

  /** What is left of i once the whole copies of n are taken away. */
  function Rem(i: nat, n: nat): nat
    requires n > 0
    decreases i
  {
    if i < n then i else Rem(i - n, n)
  }

  /** Quotient and remainder put i back together, and the remainder is below n. */
  lemma {:induction false} QuotRem(i: nat, n: nat)
    requires n > 0
    ensures Rem(i, n) < n
    ensures i == Mul(Quot(i, n), n) + Rem(i, n)
    decreases i
  {
    if i >= n {
      QuotRem(i - n, n);
    }
  }

  /** Taking more copies of n never gives less. */
  lemma {:induction false} MulMonotone(a: nat, c: nat, n: nat)
    requires a <= c
    ensures Mul(a, n) <= Mul(c, n)
    decreases c
  {
    if a < c {
      MulMonotone(a, c - 1, n);
    }
  }

  /** Of two numbers, the smaller has the smaller quotient, or the same quotient
      and the smaller remainder. */
  lemma {:induction false} QuotOrder(i: nat, j: nat, n: nat)
    requires n > 0 && i < j
    ensures Quot(i, n) < Quot(j, n) || (Quot(i, n) == Quot(j, n) && Rem(i, n) < Rem(j, n))
    decreases i
  {
    if i >= n {
      QuotOrder(i - n, j - n, n);
    }
  }
}
