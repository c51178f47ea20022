/** Monomials over eight Boolean variables, encoded as 8-bit masks (bit v set
    means variable x_{v+1} occurs in the product), and the two value-returning
    bit functions of the Polynomial class: swap_bit and permute_bits. */
module Bits {

  /** A variable index, 0..7, kept as a uchar-width shift amount. */
  type Var = v: bv8 | v < 8

  /** The variable with int index i (the source indexes variables by int). */
  function V(i: int): Var
    requires 0 <= i < 8
  {
    if i == 0 then 0 else if i == 1 then 1 else if i == 2 then 2 else if i == 3 then 3
    else if i == 4 then 4 else if i == 5 then 5 else if i == 6 then 6 else 7
  }
  /** V is the inverse of the widening of a variable to int. */
  lemma VOf(v: Var)
    ensures V(v as int) == v
  {
  }

  /** Widening V(i) to int gives i back. */
  lemma VInt(i: int)
    requires 0 <= i < 8
    ensures V(i) as int == i
  {
  }


  /** V is injective. */
  lemma VInjective(i: int, j: int)
    requires 0 <= i < 8 && 0 <= j < 8
    ensures V(i) == V(j) <==> i == j
  {
  }

  /** The one-bit mask (uchar)1 << v. */
  function Mask(v: Var): bv8 {
    (1 as bv8) << v
  }

  /** Variable v occurs in monomial x. */
  predicate Has(x: bv8, v: Var) {
    x & Mask(v) != 0
  }

  /** Two monomials with the same eight bits are the same mask. */
  lemma Ext(x: bv8, y: bv8)
    requires Has(x, 0) == Has(y, 0) && Has(x, 1) == Has(y, 1)
    requires Has(x, 2) == Has(y, 2) && Has(x, 3) == Has(y, 3)
    requires Has(x, 4) == Has(y, 4) && Has(x, 5) == Has(y, 5)
    requires Has(x, 6) == Has(y, 6) && Has(x, 7) == Has(y, 7)
    ensures x == y
  {
  }

  /** Two monomials with the same variables are the same mask. */
  lemma ExtAll(x: bv8, y: bv8)
    requires forall v: Var :: Has(x, v) == Has(y, v)
    ensures x == y
  {
    Ext(x, y);
  }

  /** Two monomials with the same variables, indexed by int, are the same mask. */
  lemma ExtInt(x: bv8, y: bv8)
    requires forall i | 0 <= i < 8 :: Has(x, V(i)) == Has(y, V(i))
    ensures x == y
  {
    assert Has(x, V(0)) == Has(y, V(0)) && Has(x, V(1)) == Has(y, V(1));
    assert Has(x, V(2)) == Has(y, V(2)) && Has(x, V(3)) == Has(y, V(3));
    assert Has(x, V(4)) == Has(y, V(4)) && Has(x, V(5)) == Has(y, V(5));
    assert Has(x, V(6)) == Has(y, V(6)) && Has(x, V(7)) == Has(y, V(7));
    Ext(x, y);
  }

  /** The zero mask (the constant monomial 1) has no variable. */
  lemma ZeroHasNone(x: bv8)
    ensures x == 0 <==> forall v: Var :: !Has(x, v)
  {
    if forall v: Var :: !Has(x, v) {
      ExtAll(x, 0);
    }
  }

  /** Setting bit a leaves the other bits alone. */
  lemma SetBit(x: bv8, a: Var, k: Var)
    ensures Has(x | Mask(a), k) == (Has(x, k) || k == a)
  {
  }

  /** Flipping bit a flips it. */
  lemma FlipBitSame(x: bv8, a: Var)
    ensures Has(x ^ Mask(a), a) == !Has(x, a)
  {
  }

  /** Flipping bit a leaves the other bits alone. */
  lemma FlipBitOther(x: bv8, a: Var, k: Var)
    requires k != a
    ensures Has(x ^ Mask(a), k) == Has(x, k)
  {
  }

  /** Adding a mask whose bit is absent does not carry. */
  lemma AddAbsentBit(x: bv8, a: Var)
    requires !Has(x, a)
    ensures x + Mask(a) == x | Mask(a)
  {
  }

  /** 1 if variable v occurs in x, else 0. */
  function Bit(x: bv8, v: Var): nat {
    if Has(x, v) then 1 else 0
  }

  /** x shifted right j times, one place at a time. */
  function Shifted(x: bv8, j: nat): bv8 {
    if j == 0 then x else Shifted(x >> 1, j - 1)
  }

  /** One more shift is the next step of Shifted. */
  lemma {:induction false} ShiftedStep(x: bv8, j: nat)
    ensures Shifted(x, j) >> 1 == Shifted(x, j + 1)
  {
    if j > 0 {
      ShiftedStep(x >> 1, j - 1);
    }
  }

  lemma VSucc(j: int)
    requires 0 <= j < 7
    ensures V(j + 1) == V(j) + 1
  {
  }

  lemma HasShift(x: bv8, v: Var)
    requires v < 7
    ensures Has(x >> 1, v) == Has(x, v + 1)
  {
  }

  /** The lowest bit of x shifted right j times is the bit of variable j. */
  lemma {:induction false} LowBit(x: bv8, j: int)
    requires 0 <= j < 8
    ensures (Shifted(x, j) & 1) as int == Bit(x, V(j))
  {
    if j == 0 {
      LowBitOf(x, 0);
    } else {
      LowBit(x >> 1, j - 1);
      VSucc(j - 1);
      HasShift(x, V(j - 1));
    }
  }

  lemma LowBitOf(x: bv8, v: Var)
    ensures ((x >> v) & 1) as int == Bit(x, v)
  {
    if Has(x, v) {
      assert (x >> v) & 1 == 1;
    } else {
      assert (x >> v) & 1 == 0;
    }
  }

  /** Degree of a monomial (population count of the mask). */
  function PopCount(x: bv8): nat {
    Bit(x, 0) + Bit(x, 1) + Bit(x, 2) + Bit(x, 3) + Bit(x, 4) + Bit(x, 5) + Bit(x, 6) + Bit(x, 7)
  }

  /** swap_bit(num, var1, var2): the source copies bit var1 into position var2
      and bit var2 into position var1, through four masked assignments. */
  function SwapBit(num: bv8, var1: Var, var2: Var): bv8 {
    var f1 := Has(num, var1);
    var f2 := Has(num, var2);
    var output := if f1 then num | Mask(var2) else num & !Mask(var2);
    if f2 then output | Mask(var1) else output & !Mask(var1)
  }

  /** swap_bit of two set bits changes nothing. */
  lemma SwapBitBothSet(x: bv8, a: Var, b: Var)
    requires Has(x, a) && Has(x, b)
    ensures SwapBit(x, a, b) == x
  {
  }

  /** swap_bit of two clear bits changes nothing. */
  lemma SwapBitBothClear(x: bv8, a: Var, b: Var)
    requires !Has(x, a) && !Has(x, b)
    ensures SwapBit(x, a, b) == x
  {
  }

  /** swap_bit of a set bit var1 and a clear bit var2 flips both. */
  lemma SwapBitSetClear(x: bv8, a: Var, b: Var)
    requires Has(x, a) && !Has(x, b)
    ensures SwapBit(x, a, b) == x ^ Mask(a) ^ Mask(b)
  {
  }

  /** swap_bit of a clear bit var1 and a set bit var2 flips both. */
  lemma SwapBitClearSet(x: bv8, a: Var, b: Var)
    requires !Has(x, a) && Has(x, b)
    ensures SwapBit(x, a, b) == x ^ Mask(a) ^ Mask(b)
  {
  }

  /** swap_bit changes nothing when the two bits agree, and flips both when
      they differ. */
  lemma SwapBitCases(x: bv8, a: Var, b: Var)
    ensures Has(x, a) == Has(x, b) ==> SwapBit(x, a, b) == x
    ensures Has(x, a) != Has(x, b) ==> SwapBit(x, a, b) == x ^ Mask(a) ^ Mask(b)
  {
    if Has(x, a) && Has(x, b) {
      SwapBitBothSet(x, a, b);
    } else if !Has(x, a) && !Has(x, b) {
      SwapBitBothClear(x, a, b);
    } else if Has(x, a) {
      SwapBitSetClear(x, a, b);
    } else {
      SwapBitClearSet(x, a, b);
    }
  }

  /** Flipping bits a and b twice restores the mask. */
  lemma FlipTwiceCancels(x: bv8, a: Var, b: Var)
    ensures x ^ Mask(a) ^ Mask(b) ^ Mask(a) ^ Mask(b) == x
  {
  }

  /** The position whose bit swap_bit(., a, b) puts at position k. */
  function Swap(a: Var, b: Var, k: Var): Var {
    if k == a then b else if k == b then a else k
  }

  /** Flipping two distinct bits a and b flips bit a. */
  lemma FlipTwoFirst(x: bv8, a: Var, b: Var)
    requires a != b
    ensures Has(x ^ Mask(a) ^ Mask(b), a) == !Has(x, a)
  {
    FlipBitSame(x, a);
    FlipBitOther(x ^ Mask(a), b, a);
  }

  /** Flipping two distinct bits a and b flips bit b. */
  lemma FlipTwoSecond(x: bv8, a: Var, b: Var)
    requires a != b
    ensures Has(x ^ Mask(a) ^ Mask(b), b) == !Has(x, b)
  {
    FlipBitOther(x, a, b);
    FlipBitSame(x ^ Mask(a), b);
  }

  /** Flipping bits a and b keeps every other bit. */
  lemma FlipTwoOther(x: bv8, a: Var, b: Var, k: Var)
    requires k != a && k != b
    ensures Has(x ^ Mask(a) ^ Mask(b), k) == Has(x, k)
  {
    FlipBitOther(x, a, k);
    FlipBitOther(x ^ Mask(a), b, k);
  }

  /** Bit k of swap_bit(num, var1, var2) is bit Swap(var1, var2, k) of num. */
  lemma SwapBitAt(num: bv8, var1: Var, var2: Var, k: Var)
    ensures Has(SwapBit(num, var1, var2), k) == Has(num, Swap(var1, var2, k))
  {
    SwapBitCases(num, var1, var2);
    if Has(num, var1) != Has(num, var2) {
      if k == var1 {
        FlipTwoFirst(num, var1, var2);
      } else if k == var2 {
        FlipTwoSecond(num, var1, var2);
      } else {
        FlipTwoOther(num, var1, var2, k);
      }
    }
  }

  /** swap_bit exchanges bits var1 and var2 and keeps every other bit. */
  lemma SwapBitBits(num: bv8, var1: Var, var2: Var)
    ensures forall k: Var :: Has(SwapBit(num, var1, var2), k) == Has(num, Swap(var1, var2, k))
  {
    forall k: Var ensures Has(SwapBit(num, var1, var2), k) == Has(num, Swap(var1, var2, k)) {
      SwapBitAt(num, var1, var2, k);
    }
  }

  /** swap_bit is an involution. */
  lemma SwapBitInvolution(x: bv8, a: Var, b: Var)
    ensures SwapBit(SwapBit(x, a, b), a, b) == x
  {
    var y := SwapBit(x, a, b);
    var z := SwapBit(y, a, b);
    SwapBitBits(x, a, b);
    SwapBitBits(y, a, b);
    SwapTwice(x, y, z, a, b);
    ExtAll(z, x);
  }

  /** Two exchanges of the same two bits, stated bit by bit, cancel. */
  lemma SwapTwice(x: bv8, y: bv8, z: bv8, a: Var, b: Var)
    requires forall k: Var :: Has(y, k) == Has(x, Swap(a, b, k))
    requires forall k: Var :: Has(z, k) == Has(y, Swap(a, b, k))
    ensures forall k: Var :: Has(z, k) == Has(x, k)
  {
    forall k: Var ensures Has(z, k) == Has(x, k) {
      assert Has(z, k) == Has(y, Swap(a, b, k));
      assert Has(y, Swap(a, b, k)) == Has(x, Swap(a, b, Swap(a, b, k)));
    }
  }



  /** swap_bit is injective. */
  lemma SwapBitInjective(x: bv8, y: bv8, a: Var, b: Var)
    ensures SwapBit(x, a, b) == SwapBit(y, a, b) <==> x == y
  {
    SwapBitInvolution(x, a, b);
    SwapBitInvolution(y, a, b);
  }

  /** swap_bit maps the constant monomial to itself and nothing else to it. */
  lemma SwapBitZero(x: bv8, a: Var, b: Var)
    ensures SwapBit(x, a, b) == 0 <==> x == 0
  {
    SwapBitBothClear(0, a, b);
    SwapBitInjective(x, 0, a, b);
  }

  /** The indices held by an int[8] array are all valid variables. */
  predicate InRange(perm: seq<int>) {
    |perm| == 8 && forall k | 0 <= k < 8 :: 0 <= perm[k] < 8
  }

  /** Distinct positions of perm hold distinct values. */
  predicate Injective(perm: seq<int>)
    requires |perm| == 8
  {
    forall a, b | 0 <= a < b < 8 :: perm[a] != perm[b]
  }

  /** An int[8] array holding a permutation of the eight variable indices. */
  predicate IsBijection(perm: seq<int>) {
    InRange(perm) && Injective(perm) && (forall l | 0 <= l < 8 :: l in perm)
  }

  /** The addend permute_bits contributes for bit i of num. */
  function Term(num: bv8, perm: seq<int>, i: nat): bv8
    requires InRange(perm) && i < 8
  {
    if Has(num, V(i)) then Mask(V(perm[i])) else 0
  }

  /** What permute_bits has accumulated after looking at bits 0..k-1 of num:
      the sum of (uchar)1 << perm[i] over the set bits i < k, in uchar arithmetic. */
  function PermutedUpTo(num: bv8, perm: seq<int>, k: nat): bv8
    requires InRange(perm) && k <= 8
  {
    if k == 0 then 0 else PermutedUpTo(num, perm, k - 1) + Term(num, perm, k - 1)
  }

  /** permute_bits(num, perm). */
  function Permuted(num: bv8, perm: seq<int>): bv8
    requires InRange(perm)
  {
    PermutedUpTo(num, perm, |perm|)
  }

  /** acc holds bit perm[i] exactly when num holds bit i, for i < k. */
  predicate PresentBelow(acc: bv8, num: bv8, perm: seq<int>, k: nat)
    requires InRange(perm) && k <= 8
  {
    forall i | 0 <= i < k :: Has(acc, V(perm[i])) == Has(num, V(i))
  }

  /** acc holds none of the bits perm[k..7]. */
  predicate AbsentFrom(acc: bv8, perm: seq<int>, k: nat)
    requires InRange(perm) && k <= 8
  {
    forall l | k <= l < 8 :: !Has(acc, V(perm[l]))
  }

  /** Adding t, which is zero or the mask of a bit q that acc lacks, sets
      bit q when t is not zero and keeps every other bit. */
  lemma AddAbsentBitAt(acc: bv8, t: bv8, q: Var, r: Var, adds: bool)
    requires !Has(acc, q) && t == if adds then Mask(q) else 0
    ensures Has(acc + t, r) == (Has(acc, r) || (adds && r == q))
  {
    if adds {
      AddAbsentBit(acc, q);
      SetBit(acc, q, r);
    }
  }

  /** Step k of permute_bits on an accumulator that lacks bit perm[k]: bit
      perm[l] of the result is bit perm[l] of acc, or bit k of num for l = k
      (the addition does not carry). */
  lemma AccBitAt(acc: bv8, num: bv8, perm: seq<int>, k: nat, l: int)
    requires InRange(perm) && Injective(perm) && k < 8 && 0 <= l < 8
    requires !Has(acc, V(perm[k]))
    ensures Has(acc + Term(num, perm, k), V(perm[l])) == (Has(acc, V(perm[l])) || (l == k && Has(num, V(k))))
  {
    var t := Term(num, perm, k);
    assert t == if Has(num, V(k)) then Mask(V(perm[k])) else 0;
    AddAbsentBitAt(acc, t, V(perm[k]), V(perm[l]), Has(num, V(k)));
    VInjective(perm[l], perm[k]);
  }

  /** One step of permute_bits keeps both invariants, one position further. */
  lemma AccStep(acc: bv8, num: bv8, perm: seq<int>, k: nat)
    requires InRange(perm) && Injective(perm) && k < 8
    requires PresentBelow(acc, num, perm, k) && AbsentFrom(acc, perm, k)
    ensures PresentBelow(acc + Term(num, perm, k), num, perm, k + 1)
    ensures AbsentFrom(acc + Term(num, perm, k), perm, k + 1)
  {
    forall l | 0 <= l < 8
      ensures Has(acc + Term(num, perm, k), V(perm[l])) == (Has(acc, V(perm[l])) || (l == k && Has(num, V(k))))
    {
      AccBitAt(acc, num, perm, k, l);
    }
  }

  /** For an injective perm, after k steps the accumulator of permute_bits holds
      bit perm[i] exactly when num holds bit i (i < k) and no bit perm[l], l >= k. */
  lemma {:induction false} PermutedUpToBits(num: bv8, perm: seq<int>, k: nat)
    requires InRange(perm) && Injective(perm) && k <= 8
    ensures PresentBelow(PermutedUpTo(num, perm, k), num, perm, k)
    ensures AbsentFrom(PermutedUpTo(num, perm, k), perm, k)
  {
    if k == 0 {
      forall l | 0 <= l < 8 ensures !Has(0, V(perm[l])) {
      }
    } else {
      PermutedUpToBits(num, perm, k - 1);
      AccStep(PermutedUpTo(num, perm, k - 1), num, perm, k - 1);
    }
  }

  /** permute_bits with an injective perm moves bit i of num to bit perm[i]. */
  lemma PermutedBits(num: bv8, perm: seq<int>)
    requires InRange(perm) && Injective(perm)
    ensures forall i | 0 <= i < 8 :: Has(Permuted(num, perm), V(perm[i])) == Has(num, V(i))
  {
    PermutedUpToBits(num, perm, |perm|);
  }

  /** One bit of PermutedBits. */
  lemma PermutedBitAt(num: bv8, perm: seq<int>, k: int)
    requires InRange(perm) && Injective(perm) && 0 <= k < 8
    ensures Has(Permuted(num, perm), V(perm[k])) == Has(num, V(k))
  {
    PermutedBits(num, perm);
  }

  /** permute_bits with an injective perm maps distinct monomials to distinct
      monomials. */
  lemma PermutedInjective(x: bv8, y: bv8, perm: seq<int>)
    requires InRange(perm) && Injective(perm)
    ensures Permuted(x, perm) == Permuted(y, perm) <==> x == y
  {
    if Permuted(x, perm) == Permuted(y, perm) {
      PermutedBits(x, perm);
      PermutedBits(y, perm);
      ExtInt(x, y);
    }
  }

  /** permute_bits maps the constant monomial to itself. */
  lemma {:induction false} PermutedZero(perm: seq<int>, k: nat)
    requires InRange(perm) && k <= 8
    ensures PermutedUpTo(0, perm, k) == 0
  {
    if k > 0 {
      PermutedZero(perm, k - 1);
    }
  }

  /** The identity assignment perm[i] = i. */
  const Identity: seq<int> := [0, 1, 2, 3, 4, 5, 6, 7]

  lemma IdentityAt(k: int)
    requires 0 <= k < 8
    ensures Identity[k] == k
  {
  }

  lemma IdentityBijection()
    ensures IsBijection(Identity)
  {
    forall l | 0 <= l < 8 ensures l in Identity {
      assert Identity[l] == l;
    }
  }

  /** permute_bits with the identity assignment changes nothing. */
  lemma PermutedIdentity(x: bv8)
    ensures Permuted(x, Identity) == x
  {
    IdentityBijection();
    forall i | 0 <= i < 8 ensures Has(Permuted(x, Identity), V(i)) == Has(x, V(i)) {
      assert Identity[i] == i;
      PermutedBitAt(x, Identity, i);
    }
    ExtInt(Permuted(x, Identity), x);
  }

  /** The exchange of indices i and j, on int. */
  function SwapInt(i: int, j: int, k: int): int {
    if k == i then j else if k == j then i else k
  }

  /** Swap on variables agrees with SwapInt on their indices. */
  lemma SwapV(i: int, j: int, l: int)
    requires 0 <= i < 8 && 0 <= j < 8 && 0 <= l < 8
    ensures Swap(V(i), V(j), V(l)) == V(SwapInt(i, j, l))
  {
    VInjective(l, i);
    VInjective(l, j);
  }

  /** The assignment perm followed by the exchange of variables i and j. */
  function ThenSwap(perm: seq<int>, i: int, j: int): (r: seq<int>)
    requires InRange(perm) && 0 <= i < 8 && 0 <= j < 8
    ensures InRange(r)
  {
    seq(8, k requires 0 <= k < 8 => SwapInt(i, j, perm[k]))
  }

  /** Following a bijection by an exchange of two variables gives a bijection. */
  lemma ThenSwapBijection(perm: seq<int>, i: int, j: int)
    requires IsBijection(perm) && 0 <= i < 8 && 0 <= j < 8
    ensures IsBijection(ThenSwap(perm, i, j))
  {
    var r := ThenSwap(perm, i, j);
    forall l | 0 <= l < 8 ensures l in r {
      var w := SwapInt(i, j, l);
      assert w in perm;
      var k :| 0 <= k < 8 && perm[k] == w;
      assert r[k] == l;
    }
  }

  /** Bit l of both sides of PermutedThenSwap. */
  lemma PermutedThenSwapAt(x: bv8, perm: seq<int>, i: int, j: int, l: int)
    requires IsBijection(perm) && 0 <= i < 8 && 0 <= j < 8 && 0 <= l < 8
    ensures Has(SwapBit(Permuted(x, perm), V(i), V(j)), V(l)) == Has(Permuted(x, ThenSwap(perm, i, j)), V(l))
  {
    var r := ThenSwap(perm, i, j);
    ThenSwapBijection(perm, i, j);
    var w := SwapInt(i, j, l);
    assert w in perm;
    var k :| 0 <= k < 8 && perm[k] == w;
    assert r[k] == l;
    PermutedBitAt(x, perm, k);
    PermutedBitAt(x, r, k);
    SwapBitThrough(x, Permuted(x, perm), Permuted(x, r), i, j, l, k, perm[k], r[k]);
  }

  /** The bit-level step of PermutedThenSwapAt: if y holds bit a and z holds
      bit b exactly when x holds bit k, where a is the partner of l under the
      exchange of i and j and b is l, then exchanging bits i and j of y gives
      bit l of z. */
  lemma SwapBitThrough(x: bv8, y: bv8, z: bv8, i: int, j: int, l: int, k: int, a: int, b: int)
    requires 0 <= i < 8 && 0 <= j < 8 && 0 <= l < 8 && 0 <= k < 8 && 0 <= a < 8 && 0 <= b < 8
    requires a == SwapInt(i, j, l) && b == l
    requires Has(y, V(a)) == Has(x, V(k)) && Has(z, V(b)) == Has(x, V(k))
    ensures Has(SwapBit(y, V(i), V(j)), V(l)) == Has(z, V(l))
  {
    SwapBitAt(y, V(i), V(j), V(l));
    SwapV(i, j, l);
  }

  /** Exchanging bits i and j after permute_bits(x, perm) is permute_bits with
      the composed assignment. */
  lemma PermutedThenSwap(x: bv8, perm: seq<int>, i: int, j: int)
    requires IsBijection(perm) && 0 <= i < 8 && 0 <= j < 8
    ensures SwapBit(Permuted(x, perm), V(i), V(j)) == Permuted(x, ThenSwap(perm, i, j))
  {
    forall l | 0 <= l < 8
      ensures Has(SwapBit(Permuted(x, perm), V(i), V(j)), V(l)) == Has(Permuted(x, ThenSwap(perm, i, j)), V(l))
    {
      PermutedThenSwapAt(x, perm, i, j, l);
    }
    ExtInt(SwapBit(Permuted(x, perm), V(i), V(j)), Permuted(x, ThenSwap(perm, i, j)));
  }

  /** Bit k of x, or 0 for k == a. */
  function Other(x: bv8, a: Var, k: Var): nat {
    if k == a then 0 else Bit(x, k)
  }

  /** The set bits of x other than bit a. */
  function Rest(x: bv8, a: Var): nat {
    Other(x, a, 0) + Other(x, a, 1) + Other(x, a, 2) + Other(x, a, 3)
    + Other(x, a, 4) + Other(x, a, 5) + Other(x, a, 6) + Other(x, a, 7)
  }

  /** The degree of x counted as bit a plus the other bits. */
  lemma PopCountSplit(x: bv8, a: Var)
    ensures PopCount(x) == Bit(x, a) + Rest(x, a)
  {
    if a == 0 {
    } else if a == 1 {
    } else if a == 2 {
    } else if a == 3 {
    } else if a == 4 {
    } else if a == 5 {
    } else if a == 6 {
    } else {
    }
  }

  /** Flipping bit a leaves every other bit alone. */
  lemma OtherFlip(x: bv8, a: Var, k: Var)
    ensures Other(x ^ Mask(a), a, k) == Other(x, a, k)
  {
    if k != a {
      FlipBitOther(x, a, k);
    }
  }

  /** Flipping bit a leaves the count of the other bits alone. */
  lemma RestFlip(x: bv8, a: Var)
    ensures Rest(x ^ Mask(a), a) == Rest(x, a)
  {
    OtherFlip(x, a, 0); OtherFlip(x, a, 1); OtherFlip(x, a, 2); OtherFlip(x, a, 3);
    OtherFlip(x, a, 4); OtherFlip(x, a, 5); OtherFlip(x, a, 6); OtherFlip(x, a, 7);
  }

  /** Flipping one bit moves the degree by one: up if the bit was clear, down if set. */
  lemma FlipPopCount(x: bv8, a: Var)
    ensures PopCount(x ^ Mask(a)) + Bit(x, a) == PopCount(x) + 1 - Bit(x, a)
  {
    PopCountSplit(x, a);
    PopCountSplit(x ^ Mask(a), a);
    FlipBitSame(x, a);
    RestFlip(x, a);
  }

  /** swap_bit never changes the degree of a monomial. */
  lemma SwapBitPopCount(x: bv8, a: Var, b: Var)
    ensures PopCount(SwapBit(x, a, b)) == PopCount(x)
  {
    if Has(x, a) && !Has(x, b) {
      SwapBitSetClear(x, a, b);
      FlipTwice(x, a, b);
    } else if !Has(x, a) && Has(x, b) {
      SwapBitClearSet(x, a, b);
      FlipTwice(x, a, b);
    } else if Has(x, a) {
      SwapBitBothSet(x, a, b);
    } else {
      SwapBitBothClear(x, a, b);
    }
  }

  /** Flipping a set bit and a clear bit keeps the degree. */
  lemma FlipTwice(x: bv8, a: Var, b: Var)
    requires Has(x, a) != Has(x, b)
    ensures PopCount(x ^ Mask(a) ^ Mask(b)) == PopCount(x)
  {
    FlipPopCount(x, a);
    FlipBitOther(x, a, b);
    FlipPopCount(x ^ Mask(a), b);
  }

  /** Adding the mask of an absent variable raises the degree by one. */
  lemma AddBitPopCount(acc: bv8, q: Var)
    requires !Has(acc, q)
    ensures PopCount(acc + Mask(q)) == PopCount(acc) + 1
  {
    AddAbsentBit(acc, q);
    assert acc | Mask(q) == acc ^ Mask(q);
    FlipPopCount(acc, q);
  }

  /** The number of set bits of x below position k. */
  function BitsBelow(x: bv8, k: int): nat
    requires 0 <= k <= 8
  {
    if k == 0 then 0 else BitsBelow(x, k - 1) + Bit(x, V(k - 1))
  }

  /** One step of permute_bits' accumulation, on degrees. */
  lemma PopCountStep(acc: bv8, t: bv8, next: bv8, q: Var, adds: bool)
    requires !Has(acc, q) && t == (if adds then Mask(q) else 0) && next == acc + t
    ensures BitsBelow(next, 8) == BitsBelow(acc, 8) + if adds then 1 else 0
  {
    BitsBelowAll(next);
    BitsBelowAll(acc);
    if adds {
      AddBitPopCount(acc, q);
    }
  }

  /** The bit permute_bits is about to add is not yet in the accumulator. */
  lemma AbsentNext(num: bv8, perm: seq<int>, k: nat)
    requires InRange(perm) && Injective(perm) && k < 8
    ensures !Has(PermutedUpTo(num, perm, k), V(perm[k]))
  {
    PermutedUpToBits(num, perm, k);
  }

  /** Counting the bits below 8 is the degree. */
  lemma BitsBelowAll(x: bv8)
    ensures BitsBelow(x, 8) == PopCount(x)
  {
    assert BitsBelow(x, 1) == Bit(x, 0);
    assert BitsBelow(x, 2) == Bit(x, 0) + Bit(x, 1);
    assert BitsBelow(x, 4) == Bit(x, 0) + Bit(x, 1) + Bit(x, 2) + Bit(x, 3);
    assert BitsBelow(x, 6) == BitsBelow(x, 4) + Bit(x, 4) + Bit(x, 5);
  }

  /** After k steps permute_bits has as many variables as num has below k. */
  lemma {:induction false} PermutedUpToPopCount(num: bv8, perm: seq<int>, k: nat)
    requires InRange(perm) && Injective(perm) && k <= 8
    ensures BitsBelow(PermutedUpTo(num, perm, k), 8) == BitsBelow(num, k)
  {
    if k > 0 {
      PermutedUpToPopCount(num, perm, k - 1);
      PopCountAt(num, perm, k - 1);
      assert BitsBelow(num, k) == BitsBelow(num, k - 1) + Bit(num, V(k - 1));
    } else {
      BitsBelowAll(0);
    }
  }

  /** Step k of permute_bits adds one to the degree of the accumulator
      exactly when num holds bit k. */
  lemma PopCountAt(num: bv8, perm: seq<int>, k: nat)
    requires InRange(perm) && Injective(perm) && k < 8
    ensures BitsBelow(PermutedUpTo(num, perm, k + 1), 8) == BitsBelow(PermutedUpTo(num, perm, k), 8) + Bit(num, V(k))
  {
    AbsentNext(num, perm, k);
    PermutedUpToNext(num, perm, k);
    var q, adds := V(perm[k]), Has(num, V(k));
    PopCountStep(PermutedUpTo(num, perm, k), Term(num, perm, k), PermutedUpTo(num, perm, k + 1), q, adds);
  }

  /** One more step of permute_bits adds the next term. */
  lemma PermutedUpToNext(num: bv8, perm: seq<int>, k: nat)
    requires InRange(perm) && k < 8
    ensures PermutedUpTo(num, perm, k + 1) == PermutedUpTo(num, perm, k) + Term(num, perm, k)
  {
  }

  /** permute_bits by a permutation preserves the degree of a monomial. */
  lemma PermutedPopCount(num: bv8, perm: seq<int>)
    requires InRange(perm) && Injective(perm)
    ensures PopCount(Permuted(num, perm)) == PopCount(num)
  {
    PermutedUpToPopCount(num, perm, 8);
    BitsBelowAll(num);
    BitsBelowAll(Permuted(num, perm));
  }

  // ---------------------------------------------------------------------
  // Composing and inverting renamings

  /** The assignment perm followed by the assignment next: variable k goes
      to next[perm[k]]. */
  function Compose(next: seq<int>, perm: seq<int>): (r: seq<int>)
    requires InRange(perm) && InRange(next)
    ensures InRange(r)
  {
    seq(8, k requires 0 <= k < 8 => next[perm[k]])
  }

  /** Two bijections compose to a bijection. */
  lemma ComposeBijection(next: seq<int>, perm: seq<int>)
    requires IsBijection(next) && IsBijection(perm)
    ensures IsBijection(Compose(next, perm))
  {
    var r := Compose(next, perm);
    forall l | 0 <= l < 8 ensures l in r {
      assert l in next;
      var m :| 0 <= m < 8 && next[m] == l;
      assert m in perm;
      var k :| 0 <= k < 8 && perm[k] == m;
      assert r[k] == l;
    }
  }

  /** Bit l of both sides of PermutedCompose, for l = Compose(next, perm)[k]. */
  lemma PermutedComposeAt(x: bv8, next: seq<int>, perm: seq<int>, k: int)
    requires IsBijection(next) && IsBijection(perm) && 0 <= k < 8
    ensures Has(Permuted(Permuted(x, perm), next), V(Compose(next, perm)[k]))
         == Has(Permuted(x, Compose(next, perm)), V(Compose(next, perm)[k]))
  {
    ComposeBijection(next, perm);
    PermutedBitAt(Permuted(x, perm), next, perm[k]);
    PermutedBitAt(x, perm, k);
    PermutedBitAt(x, Compose(next, perm), k);
  }

  /** permute_bits by perm and then by next is permute_bits by the composed
      bijection. */
  lemma PermutedCompose(x: bv8, next: seq<int>, perm: seq<int>)
    requires IsBijection(next) && IsBijection(perm)
    ensures Permuted(Permuted(x, perm), next) == Permuted(x, Compose(next, perm))
  {
    var r := Compose(next, perm);
    ComposeBijection(next, perm);
    forall l | 0 <= l < 8
      ensures Has(Permuted(Permuted(x, perm), next), V(l)) == Has(Permuted(x, r), V(l))
    {
      assert l in r;
      var k :| 0 <= k < 8 && r[k] == l;
      PermutedComposeAt(x, next, perm, k);
    }
    ExtInt(Permuted(Permuted(x, perm), next), Permuted(x, r));
  }

  /** The inverse of a bijection: variable l goes back to the k with
      perm[k] == l. */
  ghost function Inverse(perm: seq<int>): (inv: seq<int>)
    requires IsBijection(perm)
    ensures InRange(inv)
    ensures forall k | 0 <= k < 8 :: inv[perm[k]] == k
    ensures forall l | 0 <= l < 8 :: perm[inv[l]] == l
  {
    var inv := seq(8, l requires 0 <= l < 8 && l in perm => var k :| 0 <= k < |perm| && perm[k] == l; k);
    assert forall k | 0 <= k < 8 :: inv[perm[k]] == k by {
      forall k | 0 <= k < 8 ensures inv[perm[k]] == k {
        var j := inv[perm[k]];
        assert perm[j] == perm[k];
      }
    }
    inv
  }

  /** The inverse of a bijection is a bijection. */
  lemma InverseBijection(perm: seq<int>)
    requires IsBijection(perm)
    ensures IsBijection(Inverse(perm))
  {
    var inv := Inverse(perm);
    forall l | 0 <= l < 8 ensures l in inv {
      assert inv[perm[l]] == l;
    }
    forall a, b | 0 <= a < b < 8 ensures inv[a] != inv[b] {
      assert perm[inv[a]] == a && perm[inv[b]] == b;
    }
  }

  /** permute_bits by the inverse undoes permute_bits. */
  lemma PermutedInverse(x: bv8, perm: seq<int>)
    requires IsBijection(perm)
    ensures Permuted(Permuted(x, perm), Inverse(perm)) == x
  {
    InverseBijection(perm);
    PermutedCompose(x, Inverse(perm), perm);
    ComposeInverse(perm);
    PermutedIdentity(x);
  }

  /** A bijection followed by its inverse is the identity. */
  lemma ComposeInverse(perm: seq<int>)
    requires IsBijection(perm)
    ensures Compose(Inverse(perm), perm) == Identity
  {
    var inv := Inverse(perm);
    var r := Compose(inv, perm);
    forall k | 0 <= k < 8 ensures r[k] == Identity[k] {
      assert r[k] == inv[perm[k]] == k;
      IdentityAt(k);
    }
    assert |r| == |Identity|;
  }
}
