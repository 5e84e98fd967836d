/** Powers of two, the bitwise operators that the buddy system applies to page indices, and alignment. */
module BitIndex {

  function Pow2(k: nat): (r: nat)
    ensures r > 0
  {
    if k == 0 then 1 else 2 * Pow2(k - 1)
  }

  /** a ^ b, bit by bit. */
  function Xor(a: nat, b: nat): nat
    decreases a + b
  {
    if a == 0 && b == 0 then 0
    else 2 * Xor(a / 2, b / 2) + if a % 2 == b % 2 then 0 else 1
  }

  /** a & b, bit by bit. */
  function And(a: nat, b: nat): nat {
    if a == 0 then 0
    else 2 * And(a / 2, b / 2) + if a % 2 == 1 && b % 2 == 1 then 1 else 0
  }

  /** The k low bits of i are zero. */
  predicate Aligned(i: nat, k: nat) {
    k == 0 || (i % 2 == 0 && Aligned(i / 2, k - 1))
  }

  lemma DivMod(i: nat, p: nat, q: nat, r: nat)
    requires p > 0 && i == q * p + r && r < p
    ensures i / p == q && i % p == r
  {
    var d := i / p - q;
    assert d * p == r - i % p;
    assert d > 0 ==> d * p >= p;
    assert d < 0 ==> d * p + p <= 0;
  }

  lemma Double(q: nat, p: nat, r: nat)
    ensures 2 * (q * p + r) == q * (2 * p) + 2 * r
  {
  }

  lemma HalfMod(i: nat, p: nat)
    requires p > 0
    ensures i % (2 * p) == 2 * (i / 2 % p) + i % 2
  {
    var q, r := i / 2 / p, i / 2 % p;
    assert i / 2 == q * p + r;
    Double(q, p, r);
    DivMod(i, 2 * p, q, 2 * r + i % 2);
  }

  lemma {:induction false} AlignedMeaning(i: nat, k: nat)
    ensures Aligned(i, k) <==> i % Pow2(k) == 0
  {
    if k > 0 {
      AlignedMeaning(i / 2, k - 1);
      HalfMod(i, Pow2(k - 1));
    }
  }

  lemma {:induction false} XorZero(a: nat)
    ensures Xor(a, 0) == a
  {
    if a > 0 {
      XorZero(a / 2);
    }
  }

  lemma {:induction false} AndSelf(a: nat)
    ensures And(a, a) == a
  {
    if a > 0 {
      AndSelf(a / 2);
    }
  }

  /** A common zero bit below two indices is one below their xor and their and. */
  lemma ShiftTogether(a: nat, b: nat)
    ensures Xor(2 * a, 2 * b) == 2 * Xor(a, b) && And(2 * a, 2 * b) == 2 * And(a, b)
  {
    assert 2 * a / 2 == a && 2 * b / 2 == b && 2 * a % 2 == 0 && 2 * b % 2 == 0;
  }

  lemma BuddyIndexZero(i: nat)
    ensures Xor(i, 1) == if i % 2 == 0 then i + 1 else i - 1
    ensures And(i, Xor(i, 1)) == i - i % 2
  {
    XorZero(i / 2);
    AndSelf(i / 2);
    var x := Xor(i, 1);
    assert x == 2 * Xor(i / 2, 0) + 1 - i % 2;
    assert x / 2 == i / 2;
  }

  /** xor with one bit moves an aligned index to its buddy, and and-ing the two gives the lower one. */
  lemma {:induction false} BuddyIndex(i: nat, k: nat)
    requires Aligned(i, k)
    ensures Aligned(i, k + 1) ==> Xor(i, Pow2(k)) == i + Pow2(k) && And(i, Xor(i, Pow2(k))) == i
    ensures !Aligned(i, k + 1) ==> Pow2(k) <= i && Xor(i, Pow2(k)) == And(i, Xor(i, Pow2(k))) == i - Pow2(k)
    decreases k
  {
    hide Xor, And;
    if k == 0 {
      BuddyIndexZero(i);
      assert Aligned(i, k + 1) <==> i % 2 == 0;
    } else {
      var h, p := i / 2, Pow2(k - 1);
      BuddyIndex(h, k - 1);
      ShiftTogether(h, p);
      ShiftTogether(h, Xor(h, p));
    }
  }

  lemma {:induction false} AlignedShift(i: nat, k: nat)
    requires Aligned(i, k)
    ensures Aligned(i + Pow2(k), k)
    ensures Aligned(i, k + 1) <==> !Aligned(i + Pow2(k), k + 1)
    ensures i >= Pow2(k) ==> Aligned(i - Pow2(k), k) && (Aligned(i, k + 1) <==> !Aligned(i - Pow2(k), k + 1))
  {
    if k > 0 {
      AlignedShift(i / 2, k - 1);
      assert (i + Pow2(k)) / 2 == i / 2 + Pow2(k - 1);
      assert i >= Pow2(k) ==> (i - Pow2(k)) / 2 == i / 2 - Pow2(k - 1);
    }
  }

  lemma {:induction false} AlignedTo(i: nat, k: nat, m: nat)
    requires Aligned(i, m) && k <= m
    ensures Aligned(i, k)
    decreases k
  {
    if k > 0 {
      AlignedTo(i / 2, k - 1, m - 1);
    }
  }

  /** Two aligned blocks are disjoint or nested. */
  lemma {:induction false} Nested(i: nat, k: nat, j: nat, m: nat)
    requires Aligned(i, k) && Aligned(j, m) && k <= m
    ensures i + Pow2(k) <= j || j + Pow2(m) <= i || (j <= i && i + Pow2(k) <= j + Pow2(m))
    decreases k
  {
    if k > 0 {
      Nested(i / 2, k - 1, j / 2, m - 1);
    }
  }

  lemma {:induction false} Pow2Monotone(k: nat, m: nat)
    requires k <= m
    ensures Pow2(k) <= Pow2(m)
    ensures k < m ==> 2 * Pow2(k) <= Pow2(m)
    decreases m - k
  {
    if k < m {
      Pow2Monotone(k, m - 1);
    }
  }
}
