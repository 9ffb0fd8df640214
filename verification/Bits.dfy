/** Bitwise operations on words as numbers, bit by bit. */
module Bits {
  /** Bitwise conjunction and disjunction of two words. */
  function And(a: nat, b: nat): (r: nat)
    ensures r <= a
  {
    if a == 0 || b == 0 then 0 else (if a % 2 == 1 && b % 2 == 1 then 1 else 0) + 2 * And(a / 2, b / 2)
  }

  function Or(a: nat, b: nat): nat {
    if a == 0 then b else if b == 0 then a
    else (if a % 2 == 1 || b % 2 == 1 then 1 else 0) + 2 * Or(a / 2, b / 2)
  }

  /** The bits of `a` outside `mask`. */
  function Beyond(a: nat, mask: nat, limit: nat): nat
    requires mask < limit
  {
    And(a, limit - 1 - mask)
  }

  function Pow2(k: nat): (n: nat)
    ensures n >= 1
  {
    if k == 0 then 1 else 2 * Pow2(k - 1)
  }

  /** A low word joined with a shifted high word is their sum: no bits meet. */
  lemma {:induction false} JoinIsSum(low: nat, high: nat, k: nat)
    requires low < Pow2(k)
    ensures Or(low, high * Pow2(k)) == low + high * Pow2(k)
  {
    if low != 0 && high != 0 {
      var h := high * Pow2(k - 1);
      assert high * Pow2(k) == 2 * h;
      JoinIsSum(low / 2, high, k - 1);
    }
  }

  lemma Pow2Four(k: nat)
    ensures Pow2(k + 4) == 16 * Pow2(k)
  {
    assert Pow2(k + 2) == 2 * Pow2(k + 1) == 4 * Pow2(k);
    assert Pow2(k + 4) == 2 * Pow2(k + 3) == 4 * Pow2(k + 2);
  }

  lemma Pow2Sixteen(k: nat)
    ensures Pow2(k + 16) == 0x1_0000 * Pow2(k)
  {
    Pow2Four(k);
    Pow2Four(k + 4);
    Pow2Four(k + 8);
    Pow2Four(k + 12);
  }

  lemma Word(k: nat)
    requires k == 32
    ensures Pow2(k) == 0x1_0000_0000
  {
    Pow2Sixteen(k - 16);
    Pow2Sixteen(k - 32);
  }

  // ---- bits of small words ----

  lemma AndDouble(a: nat, b: nat)
    ensures And(2 * a, b) == 2 * And(a, b / 2)
  {
  }

  lemma AndOne(b: nat)
    ensures And(1, b) == b % 2
  {
  }

  lemma AndFour(b: nat)
    ensures And(4, b) == b / 4 % 2 * 4
  {
    AndDouble(2, b);
    AndDouble(1, b / 2);
    AndOne(b / 4);
  }

  lemma AndSixteen(a: nat, b: nat)
    ensures And(16 * a, b) == 16 * And(a, b / 16)
  {
    hide And;
    AndDouble(8 * a, b);
    AndDouble(4 * a, b / 2);
    AndDouble(2 * a, b / 4);
    AndDouble(a, b / 8);
  }

  lemma And1024(b: nat)
    ensures And(0x400, b) == b / 1024 % 2 * 1024
  {
    AndSixteen(64, b);
    AndSixteen(4, b / 16);
    AndFour(b / 256);
  }

  lemma And66(b: nat)
    ensures And(0x42, b) == b / 2 % 2 * 2 + b / 64 % 2 * 64
  {
    AndDouble(33, b);
    var c := b / 2;
    assert And(33, c) == c % 2 + 2 * And(16, c / 2);
    AndSixteen(1, c / 2);
    AndOne(c / 2 / 16);
  }

  // ---- bit by bit ----

  /** Bit number `k` of `n`. */
  predicate Bit(n: nat, k: nat) {
    if k == 0 then n % 2 == 1 else Bit(n / 2, k - 1)
  }

  lemma {:induction false} BitZero(k: nat)
    ensures !Bit(0, k)
  {
    if k > 0 {
      BitZero(k - 1);
    }
  }

  lemma {:induction false} NoCommonBit(a: nat, b: nat, k: nat)
    requires And(a, b) == 0
    ensures !(Bit(a, k) && Bit(b, k))
  {
    if a == 0 || b == 0 {
      BitZero(k);
    } else if k > 0 {
      NoCommonBit(a / 2, b / 2, k - 1);
    }
  }

  lemma {:induction false} CommonBit(a: nat, b: nat) returns (k: nat)
    requires And(a, b) != 0
    ensures Bit(a, k) && Bit(b, k)
  {
    if a % 2 == 1 && b % 2 == 1 {
      k := 0;
      assert Bit(a, 0) && Bit(b, 0);
    } else {
      var j := CommonBit(a / 2, b / 2);
      k := j + 1;
      assert Bit(a, k) == Bit(a / 2, j) && Bit(b, k) == Bit(b / 2, j);
    }
  }

  predicate Common(a: nat, b: nat, k: nat) { Bit(a, k) && Bit(b, k) }

  /** A conjunction is zero exactly when no bit is in both words. */
  lemma AndZero(a: nat, b: nat)
    ensures And(a, b) == 0 <==> forall k: nat :: !Common(a, b, k)
  {
    hide And, Bit;
    if And(a, b) == 0 {
      forall k: nat ensures !Common(a, b, k) {
        NoCommonBit(a, b, k);
      }
    } else {
      var k := CommonBit(a, b);
      assert Common(a, b, k);
    }
  }

  /** One more bit above those of `n`. */
  lemma {:induction false} AddBit(n: nat, j: nat, k: nat)
    requires n < Pow2(j)
    ensures Bit(n + Pow2(j), k) <==> Bit(n, k) || k == j
  {
    if j == 0 {
      BitZero(k);
      if k > 0 {
        BitZero(k - 1);
      }
    } else {
      var m := n + Pow2(j);
      assert m / 2 == n / 2 + Pow2(j - 1) && m % 2 == n % 2;
      if k > 0 {
        AddBit(n / 2, j - 1, k - 1);
      }
    }
  }

  /** The bits of the complement within `w` bits. */
  lemma {:induction false} Complement(n: nat, w: nat, k: nat)
    requires n < Pow2(w)
    ensures Bit(Pow2(w) - 1 - n, k) <==> k < w && !Bit(n, k)
  {
    if w == 0 {
      BitZero(k);
    } else {
      var m := Pow2(w) - 1 - n;
      assert m / 2 == Pow2(w - 1) - 1 - n / 2 && m % 2 == 1 - n % 2;
      if k > 0 {
        Complement(n / 2, w - 1, k - 1);
      }
    }
  }

  lemma {:induction false} BitsBelow(n: nat, w: nat, k: nat)
    requires n < Pow2(w) && Bit(n, k)
    ensures k < w
  {
    if w == 0 {
      BitZero(k);
    } else if k > 0 {
      BitsBelow(n / 2, w - 1, k - 1);
    }
  }

  /** Every bit set in the word has one of these numbers. */
  ghost predicate OnlyBits(n: nat, allowed: set<nat>) {
    forall k: nat :: Bit(n, k) ==> k in allowed
  }

  /** The mask has exactly these bits. */
  ghost predicate IsMask(mask: nat, bits: set<nat>) {
    forall k: nat :: Bit(mask, k) <==> k in bits
  }

  /** No bit lies beyond a mask exactly when every bit is one of the mask. */
  lemma BeyondZero(n: nat, mask: nat, bits: set<nat>, w: nat)
    requires n < Pow2(w) && mask < Pow2(w) && IsMask(mask, bits)
    ensures Beyond(n, mask, Pow2(w)) == 0 <==> OnlyBits(n, bits)
  {
    hide And, Bit, Pow2;
    var rest := Pow2(w) - 1 - mask;
    AndZero(n, rest);
    if OnlyBits(n, bits) {
      forall k: nat ensures !Common(n, rest, k) {
        Complement(mask, w, k);
      }
    }
    if forall k: nat :: !Common(n, rest, k) {
      forall k: nat | Bit(n, k) ensures k in bits {
        assert !Common(n, rest, k);
        Complement(mask, w, k);
        BitsBelow(n, w, k);
      }
    }
  }

  /** A mask with one more bit. */
  lemma MaskMore(mask: nat, bits: set<nat>, j: nat)
    requires mask < Pow2(j) && IsMask(mask, bits)
    ensures IsMask(mask + Pow2(j), bits + {j}) && mask + Pow2(j) < Pow2(j + 1)
  {
    hide Bit;
    forall k: nat ensures Bit(mask + Pow2(j), k) <==> k in bits + {j} {
      AddBit(mask, j, k);
    }
  }

  lemma NoMask()
    ensures IsMask(0, {})
  {
    forall k: nat ensures !Bit(0, k) {
      BitZero(k);
    }
  }

  lemma LongWord(k: nat)
    requires k == 64
    ensures Pow2(k) == 0x1_0000_0000_0000_0000
  {
    Word(k - 32);
    Pow2Sixteen(k - 32);
    Pow2Sixteen(k - 16);
  }

  lemma {:induction false} AndCommutes(a: nat, b: nat)
    ensures And(a, b) == And(b, a)
  {
    if a != 0 && b != 0 {
      AndCommutes(a / 2, b / 2);
    }
  }
}
