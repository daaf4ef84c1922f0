/** Right shifts and single-bit flips of naturals, by repeated halving. */
module BitShift {
  function Pow2(k: nat): (r: nat)
    ensures r >= 1
  {
    if k == 0 then 1 else 2 * Pow2(k - 1)
  }

  /** x >> k */
  function Shr(x: nat, k: nat): nat {
    if k == 0 then x else Shr(x / 2, k - 1)
  }

  /** x ^ (1 << k) */
  function FlipBit(x: nat, k: nat): nat {
    if k == 0 then (if x % 2 == 0 then x + 1 else x - 1)
    else 2 * FlipBit(x / 2, k - 1) + x % 2
  }

  lemma {:induction false} ShrAdd(x: nat, a: nat, b: nat)
    ensures Shr(Shr(x, a), b) == Shr(x, a + b)
  {
    if a > 0 {
      ShrAdd(x / 2, a - 1, b);
    }
  }

  lemma ShrSucc(x: nat, k: nat)
    ensures Shr(x, k + 1) == Shr(x, k) / 2
  {
    ShrAdd(x, k, 1);
  }

  /** A shift by k gives p exactly on the aligned group of Pow2(k) numbers starting at p * Pow2(k). */
  lemma {:induction false} ShrGroup(x: nat, k: nat, p: nat)
    ensures Shr(x, k) == p <==> p * Pow2(k) <= x < (p + 1) * Pow2(k)
  {
    if k > 0 {
      ShrGroup(x / 2, k - 1, p);
      Regroup(p, Pow2(k - 1));
      Regroup(p + 1, Pow2(k - 1));
    }
  }

  lemma Regroup(p: nat, q: nat)
    ensures p * (2 * q) == 2 * (p * q)
  {
  }

  lemma {:induction false} ShrBound(x: nat, a: nat, b: nat)
    requires x < Pow2(a + b)
    ensures Shr(x, a) < Pow2(b)
  {
    if a > 0 {
      ShrBound(x / 2, a - 1, b);
    }
  }

  lemma {:induction false} ShrMono(x: nat, y: nat, a: nat, b: nat)
    requires Shr(x, a) == Shr(y, a) && a <= b
    ensures Shr(x, b) == Shr(y, b)
  {
    ShrAdd(x, a, b - a);
    ShrAdd(y, a, b - a);
  }

  lemma {:induction false} FlipBound(x: nat, k: nat, d: nat)
    requires x < Pow2(d) && k < d
    ensures FlipBit(x, k) < Pow2(d)
  {
    assert Pow2(d) == 2 * Pow2(d - 1);
    if k > 0 {
      FlipBound(x / 2, k - 1, d - 1);
    }
  }

  function Sibling(p: nat): nat {
    if p % 2 == 0 then p + 1 else p - 1
  }

  /** Flipping bit k changes exactly that bit. */
  lemma {:induction false} FlipFacts(x: nat, k: nat)
    ensures Shr(FlipBit(x, k), k) == Sibling(Shr(x, k))
    ensures Shr(FlipBit(x, k), k + 1) == Shr(x, k + 1)
  {
    if k > 0 {
      FlipFacts(x / 2, k - 1);
      assert FlipBit(x, k) / 2 == FlipBit(x / 2, k - 1);
    }
    ShrSucc(x, k);
    ShrSucc(FlipBit(x, k), k);
  }

  /** Every prefix of b bits is the prefix of some number of a + b bits. */
  lemma {:induction false} ShrOnto(q: nat, a: nat, b: nat) returns (x: nat)
    requires q < Pow2(b)
    ensures x < Pow2(a + b) && Shr(x, a) == q
  {
    if a == 0 {
      x := q;
    } else {
      var y := ShrOnto(q, a - 1, b);
      x := 2 * y;
    }
  }

  lemma {:induction false} Pow2Mono(a: nat, b: nat)
    requires a <= b
    ensures Pow2(a) <= Pow2(b)
  {
    if a < b {
      Pow2Mono(a, b - 1);
    }
  }
}
