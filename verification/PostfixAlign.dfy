// The alignment operator: "a result that is a multiple of the alignment size by truncating the
// input". It masks bits off, so it does that for powers of two and for no other size.

module PostfixAlign {
  import opened Unsigned
  import opened PostfixMachine

  lemma {:induction false} AndWithAllOnes(x: nat, w: nat)
    requires x < Pow2(w)
    ensures BitAnd(x, Pow2(w) - 1) == x
  {
    if w > 0 {
      AndWithAllOnes(x / 2, w - 1);
      assert (Pow2(w) - 1) / 2 == Pow2(w - 1) - 1;
    }
  }

  lemma {:induction false} AndWithComplement(x: nat, w: nat)
    requires x < Pow2(w)
    ensures BitAnd(x, Pow2(w) - 1 - x) == 0
  {
    if w > 0 {
      AndWithComplement(x / 2, w - 1);
      assert (Pow2(w) - 1 - x) / 2 == Pow2(w - 1) - 1 - x / 2;
    }
  }

  // x with its k lowest bits cleared.
  function Truncate(x: nat, k: nat): nat {
    if k == 0 then x else 2 * Truncate(x / 2, k - 1)
  }

  lemma {:induction false} AndWithHighOnes(x: nat, k: nat, w: nat)
    requires x < Pow2(w) && k <= w
    ensures Pow2(k) <= Pow2(w)
    ensures BitAnd(x, Pow2(w) - Pow2(k)) == Truncate(x, k)
  {
    if k == 0 {
      AndWithAllOnes(x, w);
    } else {
      AndWithHighOnes(x / 2, k - 1, w - 1);
      assert (Pow2(w) - Pow2(k)) / 2 == Pow2(w - 1) - Pow2(k - 1);
      if x == 0 {
        TruncateZero(k);
      } else if Pow2(w) == Pow2(k) {
        assert BitAnd(x / 2, 0) == 0;
      }
    }
  }

  lemma {:induction false} TruncateZero(k: nat)
    ensures Truncate(0, k) == 0
  {
    if k > 0 {
      TruncateZero(k - 1);
    }
  }

  // r is the greatest multiple of a that is not above x.
  ghost predicate TruncatedTo(r: nat, x: nat, a: nat) {
    r <= x < r + a && exists q: nat :: r == q * a
  }

  lemma {:induction false} TruncateIsMultiple(x: nat, k: nat) returns (q: nat)
    ensures Truncate(x, k) == q * Pow2(k) && Truncate(x, k) <= x < Truncate(x, k) + Pow2(k)
  {
    if k == 0 {
      q := x;
    } else {
      q := TruncateIsMultiple(x / 2, k - 1);
    }
  }

  function LowestBit(a: nat): nat
    requires a > 0
  {
    if a % 2 == 1 then 1 else 2 * LowestBit(a / 2)
  }

  lemma {:induction false} AndWithNegative(a: nat, w: nat)
    requires 0 < a < Pow2(w)
    ensures BitAnd(a, Pow2(w) - a) == LowestBit(a)
  {
    assert w > 0 && Pow2(w) == 2 * Pow2(w - 1);
    if a % 2 == 1 {
      AndWithComplement(a / 2, w - 1);
      assert (Pow2(w) - a) / 2 == Pow2(w - 1) - 1 - a / 2;
    } else {
      AndWithNegative(a / 2, w - 1);
      assert (Pow2(w) - a) / 2 == Pow2(w - 1) - a / 2;
    }
  }

  ghost predicate IsPowerOfTwo(a: nat) {
    exists k: nat :: a == Pow2(k)
  }

  lemma {:induction false} OwnLowestBit(a: nat) returns (k: nat)
    requires a > 0 && LowestBit(a) == a
    ensures a == Pow2(k)
  {
    if a == 1 {
      k := 0;
    } else {
      k := OwnLowestBit(a / 2);
      k := k + 1;
    }
  }

  lemma {:induction false} Pow2Grows(k: nat, w: nat)
    requires Pow2(k) < Pow2(w)
    ensures k < w
  {
    if k > 0 && w > 0 {
      Pow2Grows(k - 1, w - 1);
    }
  }

  lemma AlignMasks(env: Env, x: nat, a: nat)
    requires x < env.Modulus() && 0 < a < env.Modulus()
    ensures Apply(env, Align, x, a) == Reduce(BitAnd(x, env.Modulus() - a), env.Modulus())
  {
  }

  // For a size that the type can hold, zero included, the documented promise is kept for every input
  // exactly when the size is a power of two.
  lemma AlignTruncatesIffPowerOfTwo(env: Env, a: nat)
    requires a < env.Modulus()
    ensures (forall x: nat :: x < env.Modulus() ==> TruncatedTo(Apply(env, Align, x, a), x, a)) <==> IsPowerOfTwo(a)
  {
    var m := env.Modulus();
    if IsPowerOfTwo(a) {
      var k: nat :| a == Pow2(k);
      Pow2Grows(k, env.width);
      forall x: nat | x < m ensures TruncatedTo(Apply(env, Align, x, a), x, a) {
        AlignMasks(env, x, a);
        AndWithHighOnes(x, k, env.width);
        var q := TruncateIsMultiple(x, k);
      }
    }
    if forall x: nat :: x < m ==> TruncatedTo(Apply(env, Align, x, a), x, a) {
      assert TruncatedTo(Apply(env, Align, 0, a), 0, a);
      AlignMasks(env, a, a);
      AndWithNegative(a, env.width);
      LowestBitBound(a);
      assert TruncatedTo(LowestBit(a), a, a);
      MultipleBetween(LowestBit(a), a);
      var k := OwnLowestBit(a);
    }
  }

  // 3 aligned to 3 gives 1.
  lemma AlignToThreeFails(env: Env)
    requires env.width >= 2
    ensures Apply(env, Align, 3, 3) == 1 && !TruncatedTo(1, 3, 3)
  {
    assert Pow2(2) == 4 && Pow2(0) == 1;
    if env.width > 2 {
      Pow2Monotone(2, env.width);
    }
    AlignMasks(env, 3, 3);
    AndWithNegative(3, env.width);
  }

  lemma {:induction false} Pow2Monotone(k: nat, w: nat)
    requires k <= w
    ensures Pow2(k) <= Pow2(w)
  {
    if k < w {
      Pow2Monotone(k, w - 1);
    }
  }

  lemma {:induction false} LowestBitBound(a: nat)
    requires a > 0
    ensures 0 < LowestBit(a) <= a
  {
    if a % 2 == 0 {
      LowestBitBound(a / 2);
    }
  }

  lemma MultipleBetween(r: nat, a: nat)
    requires 0 < r <= a && exists q: nat :: r == q * a
    ensures r == a
  {
  }
}
