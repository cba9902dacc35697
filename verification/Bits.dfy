/** Binary digits of natural numbers: single bits, shifts and truncation. */
module Bits {

  function Pow2(n: nat): (p: nat)
    ensures p > 0
  {
    if n == 0 then 1 else 2 * Pow2(n - 1)
  }

  function Bit(v: nat, k: nat): (b: nat)
    ensures b <= 1
  {
    if k == 0 then v % 2 else Bit(v / 2, k - 1)
  }

  // b << n for a single bit b.
  function Shl(b: nat, n: nat): nat
    requires b <= 1
  {
    if b == 0 then 0 else Pow2(n)
  }

  // v >> n
  function Shr(v: nat, n: nat): nat {
    if n == 0 then v else Shr(v / 2, n - 1)
  }

  // The lowest n bits of v.
  function Trunc(v: nat, n: nat): (t: nat)
    ensures t < Pow2(n)
  {
    if n == 0 then 0 else 2 * Trunc(v / 2, n - 1) + v % 2
  }

  // v with bit k replaced.
  function WithBit(v: nat, k: nat, bit: nat): nat
    requires bit <= 1
  {
    if k == 0 then v / 2 * 2 + bit else 2 * WithBit(v / 2, k - 1, bit) + v % 2
  }

  lemma Twice(p: nat, s: nat)
    ensures 2 * (p * s) == (2 * p) * s == (p * s) * 2 == s * (2 * p)
  {
  }

  lemma {:induction false} SplitAt(v: nat, n: nat)
    ensures v == Pow2(n) * Shr(v, n) + Trunc(v, n)
  {
    if n > 0 {
      var p, s, t := Pow2(n - 1), Shr(v / 2, n - 1), Trunc(v / 2, n - 1);
      assert Pow2(n) == 2 * p && Shr(v, n) == s && Trunc(v, n) == 2 * t + v % 2;
      hide Pow2, Shr, Trunc;
      SplitAt(v / 2, n - 1);
      Twice(p, s);
    }
  }

  lemma {:induction false} BitOfShr(v: nat, n: nat, k: nat)
    ensures Bit(Shr(v, n), k) == Bit(v, n + k)
  {
    if n > 0 {
      BitOfShr(v / 2, n - 1, k);
    }
  }

  lemma {:induction false} ShrOfShr(v: nat, n: nat, k: nat)
    ensures Shr(Shr(v, n), k) == Shr(v, n + k)
  {
    if n > 0 {
      ShrOfShr(v / 2, n - 1, k);
    }
  }

  lemma {:induction false} BitOfTrunc(v: nat, n: nat, k: nat)
    requires k < n
    ensures Bit(Trunc(v, n), k) == Bit(v, k)
  {
    if k > 0 {
      BitOfTrunc(v / 2, n - 1, k - 1);
    }
  }

  lemma {:induction false} TruncStep(v: nat, n: nat)
    ensures Trunc(v, n + 1) == Trunc(v, n) + Shl(Bit(v, n), n)
  {
    if n > 0 {
      TruncStep(v / 2, n - 1);
    }
  }

  lemma AtLeast(p: nat, s: nat)
    ensures if s == 0 then p * s == 0 else p * s >= p
  {
  }

  // A number fits n bits exactly when nothing is left after shifting them out.
  lemma Fits(v: nat, n: nat)
    ensures v < Pow2(n) <==> Shr(v, n) == 0
    ensures v < Pow2(n) ==> Trunc(v, n) == v
  {
    hide Pow2, Shr, Trunc;
    SplitAt(v, n);
    AtLeast(Pow2(n), Shr(v, n));
  }

  // Numbers of n bits that agree on all of them are equal.
  lemma {:induction false} BitsDetermine(v: nat, w: nat, n: nat)
    requires v < Pow2(n) && w < Pow2(n)
    requires forall k: nat :: k < n ==> Bit(v, k) == Bit(w, k)
    ensures v == w
  {
    if n > 0 {
      assert Bit(v, 0) == Bit(w, 0);
      forall k: nat | k < n - 1 ensures Bit(v / 2, k) == Bit(w / 2, k) {
        assert Bit(v, k + 1) == Bit(w, k + 1);
      }
      BitsDetermine(v / 2, w / 2, n - 1);
    }
  }

  lemma {:induction false} BitOfWithBit(v: nat, k: nat, bit: nat, j: nat)
    requires bit <= 1
    ensures Bit(WithBit(v, k, bit), j) == if j == k then bit else Bit(v, j)
  {
    if k > 0 && j > 0 {
      BitOfWithBit(v / 2, k - 1, bit, j - 1);
      assert WithBit(v, k, bit) / 2 == WithBit(v / 2, k - 1, bit);
    } else if j > 0 {
      assert WithBit(v, 0, bit) / 2 == v / 2;
    }
  }

  lemma {:induction false} WithBitFits(v: nat, k: nat, bit: nat, n: nat)
    requires bit <= 1 && k < n && v < Pow2(n)
    ensures WithBit(v, k, bit) < Pow2(n)
  {
    if k > 0 {
      WithBitFits(v / 2, k - 1, bit, n - 1);
    }
  }

  // The lowest byte of v, and v without it.
  lemma LowByte(v: nat)
    ensures v % 256 == Trunc(v, 8) && v / 256 == Shr(v, 8)
  {
    assert Pow2(8) == 256 by { assert Pow2(4) == 16; assert Pow2(6) == 64; }
    SplitAt(v, 8);
    Quotient(v, Shr(v, 8), Trunc(v, 8));
  }

  lemma Quotient(v: nat, s: nat, t: nat)
    requires v == 256 * s + t && t < 256
    ensures v % 256 == t && v / 256 == s
  {
  }

  lemma {:induction false} BitAbove(v: nat, n: nat, k: nat)
    requires v < Pow2(n) && n <= k
    ensures Bit(v, k) == 0
    decreases k
  {
    if k > 0 {
      BitAbove(v / 2, if n > 0 then n - 1 else 0, k - 1);
    }
  }

  // A bit placed above the digits of g.
  lemma {:induction false} BitOfSum(g: nat, r: nat, b: nat, k: nat)
    requires g < Pow2(r) && b <= 1
    ensures Bit(g + Shl(b, r), k) == if k == r then b else if k < r then Bit(g, k) else 0
    decreases k
  {
    if r > 0 {
      var h := Shl(b, r - 1);
      assert Shl(b, r) == 2 * h;
      assert (g + 2 * h) / 2 == g / 2 + h && (g + 2 * h) % 2 == g % 2;
      if k > 0 {
        BitOfSum(g / 2, r - 1, b, k - 1);
      }
    } else {
      if k > 0 { BitAbove(b, 1, k); }
    }
  }

  lemma {:induction false} Pow2Grows(a: nat, b: nat)
    requires a <= b
    ensures Pow2(a) <= Pow2(b)
  {
    if a < b { Pow2Grows(a, b - 1); }
  }
}
