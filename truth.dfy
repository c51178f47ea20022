/** Truth tables of polynomials in the first six variables, stored as the 64
    bits of an unsigned long: bit i is the value of the polynomial at the point
    whose coordinates are the binary digits of i. */
module Truth {
  import opened Bits

  /** A position of a 64-entry truth table (the source's uchar loop index). */
  type Cell = i: bv8 | i < 64

  /** The one-bit table ((ulong)1) << i. */
  function Bit64(i: Cell): bv64 {
    (1 as bv64) << (i as bv64)
  }

  /** Bit i of table t is set. */
  predicate At(t: bv64, i: Cell) {
    t & Bit64(i) != 0
  }

  /** The monomial m evaluates to 1 at point i: every variable of m is 1 in i.
      The source tests ~((~m) | i) == 0 on int-promoted operands, which is
      m & ~i == 0 on the low eight bits. */
  predicate Covers(m: bv8, i: Cell) {
    m & !(i as bv8) == 0
  }

  /** Setting table bit j sets it. */
  lemma SetAtSame(t: bv64, j: Cell)
    ensures At(t | Bit64(j), j)
  {
  }

  /** Setting table bit j leaves the other bits alone. */
  lemma SetAtOther(t: bv64, j: Cell, i: Cell)
    requires i != j
    ensures At(t | Bit64(j), i) == At(t, i)
  {
  }

  /** Bit i after setting bit j. */
  lemma SetAt(t: bv64, j: Cell, i: Cell)
    ensures At(t | Bit64(j), i) == (At(t, i) || i == j)
  {
    if i == j {
      SetAtSame(t, j);
    } else {
      SetAtOther(t, j, i);
    }
  }

  /** Bit i of an exclusive or is the exclusive or of the bits. */
  lemma XorAt(s: bv64, t: bv64, i: Cell)
    ensures At(s ^ t, i) == (At(s, i) != At(t, i))
  {
  }

  /** The empty table has no bit set. */
  lemma ZeroAt(i: Cell)
    ensures !At(0, i)
  {
  }

  /** No point of the six-variable cube covers a monomial in x7 or x8. */
  lemma NoCoverOutside(m: bv8, i: Cell)
    requires Has(m, 6) || Has(m, 7)
    ensures !Covers(m, i)
  {
  }

  /** t is the truth table of monomial m. */
  ghost predicate IsTableOf(t: bv64, m: bv8) {
    forall i: Cell :: At(t, i) == Covers(m, i)
  }

  /** monomial_truth(m): bit i of the result is set iff m covers i, so the
      constant monomial gives all ones and a monomial in x7 or x8 gives 0. */
  method MonomialTruth(m: bv8) returns (table: bv64)
    ensures IsTableOf(table, m)
    ensures (Has(m, 6) || Has(m, 7)) ==> table == 0
  {
    table := 0;
    var i: bv8 := 0;
    forall j: Cell ensures !At(0, j) {
      ZeroAt(j);
    }
    while i < 64
      invariant i <= 64
      invariant forall j: Cell :: At(table, j) == (j < i && Covers(m, j))
      invariant (Has(m, 6) || Has(m, 7)) ==> table == 0
      decreases 64 - i
    {
      var t := table;
      if (Has(m, 6) || Has(m, 7)) {
        NoCoverOutside(m, i);
      }
      if Covers(m, i) {
        table := table | Bit64(i);
        forall j: Cell ensures At(table, j) == (At(t, j) || j == i) {
          SetAt(t, i, j);
        }
      }
      i := i + 1;
    }
  }

  /** The constant monomial is 1 at every point. */
  lemma CoversOne(i: Cell)
    ensures Covers(0, i)
  {
  }

  /** Value at point i of the polynomial whose terms are s: the number of its
      monomials covering i, taken mod 2. */
  function Eval(s: seq<bv8>, i: Cell): bool {
    if |s| == 0 then false else Eval(s[..|s| - 1], i) != Covers(s[|s| - 1], i)
  }

  /** t is the truth table of the polynomial whose terms are s. */
  ghost predicate IsTruthOf(t: bv64, s: seq<bv8>) {
    forall i: Cell :: At(t, i) == Eval(s, i)
  }

  /** The low byte of a 64-bit value (a truncating cast to uchar). */
  function LowByte(n: bv64): bv8 {
    (n & 0xFF) as bv8
  }

  /** The count of set bits of the 64-bit n, taken byte by byte from the low
      end over the given number of bytes. */
  function Weight(n: bv64, bytes: nat): nat {
    if bytes == 0 then 0 else PopCount(LowByte(n)) + Weight(n >> 8, bytes - 1)
  }

  /** Hamming weight of a 64-bit table. */
  function HammingWeightOf(n: bv64): nat {
    Weight(n, 8)
  }

  /** A byte holds at most eight set bits. */
  lemma PopCountBound(x: bv8)
    ensures PopCount(x) <= 8
  {
  }

  /** The Hamming weight over b bytes is at most 8 b. */
  lemma {:induction false} WeightBound(n: bv64, bytes: nat)
    ensures Weight(n, bytes) <= 8 * bytes
  {
    if bytes > 0 {
      PopCountBound(LowByte(n));
      WeightBound(n >> 8, bytes - 1);
    }
  }

  /** The Hamming weight of a table is in [0, 64]. */
  lemma HammingWeightBound(n: bv64)
    ensures 0 <= HammingWeightOf(n) <= 64
  {
    WeightBound(n, 8);
  }

  /** Bit k of x as a 0 or 1 byte. */
  function Digit(x: bv8, k: Var): bv8 {
    if Has(x, k) then 1 else 0
  }

  /** The summand ((n & one_bit[k]) >> k) of hamming_weight when bit k is set. */
  lemma ByteTermSet(n: bv64, k: Var)
    requires n & Bit64(k) != 0
    ensures (n & Bit64(k)) >> k == 1 && Has(LowByte(n), k)
  {
  }

  /** The summand ((n & one_bit[k]) >> k) of hamming_weight when bit k is clear. */
  lemma ByteTermClear(n: bv64, k: Var)
    requires n & Bit64(k) == 0
    ensures (n & Bit64(k)) >> k == 0 && !Has(LowByte(n), k)
  {
  }

  /** The k-th summand of a round of hamming_weight is bit k of the low byte. */
  lemma Summand(n: bv64, ob: bv64, k: Var)
    requires ob == Bit64(k)
    ensures (n & ob) >> k == Digit(LowByte(n), k) as bv64
  {
    if n & Bit64(k) != 0 {
      ByteTermSet(n, k);
    } else {
      ByteTermClear(n, k);
    }
  }

  /** The eight digits of a byte add up to its population count. */
  lemma DigitsSum(x: bv8)
    ensures (Digit(x, 0) + Digit(x, 1) + Digit(x, 2) + Digit(x, 3) + Digit(x, 4) + Digit(x, 5)
            + Digit(x, 6) + Digit(x, 7)) as int == PopCount(x)
  {
  }

  /** Widening a byte to 64 bits keeps its value. */
  lemma Widen(y: bv8)
    ensures (y as bv64) as int == y as int
  {
  }

  /** One round of hamming_weight: the eight low bits of n, each masked with
      one_bit[k] and shifted down by k, summed as an unsigned long. */
  function RoundSum(n: bv64, o0: bv64, o1: bv64, o2: bv64, o3: bv64,
                    o4: bv64, o5: bv64, o6: bv64, o7: bv64): (r: bv64)
    requires o0 == Bit64(0) && o1 == Bit64(1) && o2 == Bit64(2) && o3 == Bit64(3)
    requires o4 == Bit64(4) && o5 == Bit64(5) && o6 == Bit64(6) && o7 == Bit64(7)
    ensures r as int == PopCount(LowByte(n))
  {
    var x := LowByte(n);
    Summand(n, o0, 0); Summand(n, o1, 1); Summand(n, o2, 2); Summand(n, o3, 3);
    Summand(n, o4, 4); Summand(n, o5, 5); Summand(n, o6, 6); Summand(n, o7, 7);
    assert n & o0 == (n & o0) >> 0;
    var d := Digit(x, 0) + Digit(x, 1) + Digit(x, 2) + Digit(x, 3) + Digit(x, 4) + Digit(x, 5)
             + Digit(x, 6) + Digit(x, 7);
    assert (n & o0) + ((n & o1) >> 1) + ((n & o2) >> 2) + ((n & o3) >> 3) + ((n & o4) >> 4)
           + ((n & o5) >> 5) + ((n & o6) >> 6) + ((n & o7) >> 7) == d as bv64;
    Widen(d);
    DigitsSum(x);
    (n & o0) + ((n & o1) >> 1) + ((n & o2) >> 2) + ((n & o3) >> 3) + ((n & o4) >> 4)
    + ((n & o5) >> 5) + ((n & o6) >> 6) + ((n & o7) >> 7)
  }

  /** A round adds the weight of the low byte and consumes it. */
  lemma WeightAdvance(weight: int, n: bv64, n0: bv64, i: nat, s: int)
    requires i < 8
    requires weight + Weight(n, 8 - i) == Weight(n0, 8)
    requires s == PopCount(LowByte(n))
    ensures weight + s + Weight(n >> 8, 8 - (i + 1)) == Weight(n0, 8)
  {
  }

  /** The 21 monomials of degree 1 and 2 in x1 .. x6, in the order init
      stores them; BasisSingle and BasisPair state that order. */
  const Basis: seq<bv8> := [1, 2, 4, 8, 16, 32, 3, 5, 9, 17, 33, 6, 10, 18, 34,
                            12, 20, 36, 24, 40, 48]

  /** Index at which init stores the first pair whose lower variable is x(i+1):
      after the 6 singletons, row i holds the 5 - i pairs (i, j), j > i. */
  function RowStart(i: int): int
    requires 0 <= i <= 6
  {
    if i == 0 then 6 else if i == 1 then 11 else if i == 2 then 15
    else if i == 3 then 18 else if i == 4 then 20 else 21
  }

  /** Index of the pair x(i+1) x(j+1), i < j: pairs in lexicographic order. */
  function PairIndex(i: int, j: int): int
    requires 0 <= i < j < 6
  {
    RowStart(i) + (j - i - 1)
  }

  /** Consecutive rows are adjacent: row i has 5 - i entries. */
  lemma RowStartStep(i: int)
    requires 0 <= i < 6
    ensures RowStart(i + 1) == RowStart(i) + (5 - i)
  {
  }

  /** The first six basis entries are the singletons, in order. */
  lemma BasisSingle(i: int)
    requires 0 <= i < 6
    ensures Basis[i] == Mask(V(i))
  {
  }

  /** The remaining entries are the pairs i < j in lexicographic order. */
  lemma BasisPair(i: int, j: int)
    requires 0 <= i < j < 6
    ensures Basis[PairIndex(i, j)] == Mask(V(i)) ^ Mask(V(j))
  {
    assert i == 0 || i == 1 || i == 2 || i == 3 || i == 4;
    assert j == 1 || j == 2 || j == 3 || j == 4 || j == 5;
  }

  /** The position of a monomial in the basis, or -1. */
  function IndexOfBasis(m: bv8): (r: int)
    ensures -1 <= r < 21
    ensures 0 <= r ==> Basis[r] == m
  {
    if m == 1 then 0 else if m == 2 then 1 else if m == 4 then 2 else if m == 8 then 3
    else if m == 16 then 4 else if m == 32 then 5 else if m == 3 then 6 else if m == 5 then 7
    else if m == 9 then 8 else if m == 17 then 9 else if m == 33 then 10 else if m == 6 then 11
    else if m == 10 then 12 else if m == 18 then 13 else if m == 34 then 14 else if m == 12 then 15
    else if m == 20 then 16 else if m == 36 then 17 else if m == 24 then 18 else if m == 40 then 19
    else if m == 48 then 20 else -1
  }

  /** Every basis entry is found at its own index. */
  lemma IndexOfBasisEntry(a: int)
    requires 0 <= a < 21
    ensures IndexOfBasis(Basis[a]) == a
  {
    assert a == 0 || a == 1 || a == 2 || a == 3 || a == 4 || a == 5 || a == 6 || a == 7
      || a == 8 || a == 9 || a == 10 || a == 11 || a == 12 || a == 13 || a == 14 || a == 15
      || a == 16 || a == 17 || a == 18 || a == 19 || a == 20;
  }

  /** The basis entries are distinct. */
  lemma BasisDistinct(a: int, b: int)
    requires 0 <= a < 21 && 0 <= b < 21
    ensures Basis[a] == Basis[b] <==> a == b
  {
    IndexOfBasisEntry(a);
    IndexOfBasisEntry(b);
  }

  /** Every basis entry is a nonconstant monomial in x1 .. x6. */
  lemma BasisInSix(a: int)
    requires 0 <= a < 21
    ensures Basis[a] != 0 && !Has(Basis[a], 6) && !Has(Basis[a], 7)
  {
    IndexOfBasisEntry(a);
  }

  /** The first n entries of ts are the truth tables of the first n of ms. */
  ghost predicate TablesOf(ts: seq<bv64>, ms: seq<bv8>, n: nat) {
    n <= |ts| && n <= |ms| && forall k | 0 <= k < n :: IsTableOf(ts[k], ms[k])
  }

  /** Storing the table of ms[n] at index n extends TablesOf by one. */
  lemma TablesOfStep(ts: seq<bv64>, ms: seq<bv8>, n: nat, t: bv64)
    requires TablesOf(ts, ms, n) && n < |ts| && n < |ms| && IsTableOf(t, ms[n])
    ensures TablesOf(ts[n := t], ms, n + 1)
  {
    assert forall k | 0 <= k < n :: ts[n := t][k] == ts[k];
  }

  /** The global tables of classes.cpp: the second-order basis, its truth
      tables, and the one-bit masks read by hamming_weight. */
  class Tables {
    const secondOrderMonomials: array<bv8>
    const secondOrderTable: array<bv64>
    const oneBit: array<bv64>

    /** The tables as a program starts: zero-filled globals. */
    constructor ()
      ensures secondOrderMonomials.Length == 21 && secondOrderTable.Length == 21
      ensures oneBit.Length == 64
      ensures fresh(secondOrderMonomials) && fresh(secondOrderTable) && fresh(oneBit)
    {
      secondOrderMonomials := new bv8[21](_ => 0);
      secondOrderTable := new bv64[21](_ => 0);
      oneBit := new bv64[64](_ => 0);
    }

    /** one_bit[0..7] hold the masks hamming_weight uses. */
    ghost predicate OneBitReady()
      reads oneBit
    {
      oneBit.Length == 64 && forall k | 0 <= k < 8 :: oneBit[k] == Bit64(k as bv8)
    }

    /** The basis and its truth tables are in place. */
    ghost predicate BasisReady()
      reads secondOrderMonomials, secondOrderTable
    {
      && secondOrderMonomials.Length == 21 && secondOrderTable.Length == 21
      && secondOrderMonomials[..] == Basis
      && TablesOf(secondOrderTable[..], Basis, 21)
    }

    /** init(): stores the singletons, then the pairs in lexicographic order,
        then the truth table of each, then one_bit[i] = 1 << i. */
    method Init()
      requires secondOrderMonomials.Length == 21 && secondOrderTable.Length == 21
      requires oneBit.Length == 64
      modifies secondOrderMonomials, secondOrderTable, oneBit
      ensures BasisReady() && OneBitReady()
      ensures forall k | 0 <= k < 31 :: oneBit[k] == Bit64(k as bv8)
    {
      StoreBasis();
      StoreTables();
      StoreOneBits();
    }

    /** The two loops of init that fill second_order_monomials. */
    method StoreBasis()
      requires secondOrderMonomials.Length == 21
      modifies secondOrderMonomials
      ensures secondOrderMonomials[..] == Basis
    {
      var indx := 0;
      for i := 0 to 6
        invariant indx == i
        invariant secondOrderMonomials[..indx] == Basis[..indx]
      {
        BasisSingle(i);
        secondOrderMonomials[indx] := Mask(V(i));
        indx := indx + 1;
      }
      for i := 0 to 6
        invariant indx == RowStart(i)
        invariant secondOrderMonomials[..indx] == Basis[..indx]
      {
        for j := i + 1 to 6
          invariant indx == RowStart(i) + (j - i - 1)
          invariant secondOrderMonomials[..indx] == Basis[..indx]
        {
          RowStartStep(i);
          BasisPair(i, j);
          secondOrderMonomials[indx] := Mask(V(i)) ^ Mask(V(j));
          indx := indx + 1;
        }
        RowStartStep(i);
      }
      assert secondOrderMonomials[..] == secondOrderMonomials[..indx];
    }

    /** The loop of init that fills second_order_table. */
    method StoreTables()
      requires secondOrderMonomials.Length == 21 && secondOrderTable.Length == 21
      requires secondOrderMonomials[..] == Basis
      modifies secondOrderTable
      ensures TablesOf(secondOrderTable[..], Basis, 21)
    {
      for i := 0 to 21
        invariant TablesOf(secondOrderTable[..], Basis, i)
      {
        var t := MonomialTruth(secondOrderMonomials[i]);
        TablesOfStep(secondOrderTable[..], Basis, i, t);
        secondOrderTable[i] := t;
      }
    }

    /** The loop of init that fills one_bit. The source computes 1 << i as an
        int, which is undefined for i >= 31; those entries are never read and
        are left as they were. */
    method StoreOneBits()
      requires oneBit.Length == 64
      modifies oneBit
      ensures OneBitReady()
      ensures forall k | 0 <= k < 31 :: oneBit[k] == Bit64(k as bv8)
    {
      for i := 0 to 64
        invariant forall k | 0 <= k < i && k < 31 :: oneBit[k] == Bit64(k as bv8)
      {
        if i < 31 {
          oneBit[i] := Bit64(i as bv8);
        }
      }
    }

    /** hamming_weight(n): eight rounds, each adding the eight low bits of n
        read through one_bit[0..7], then shifting n right by a byte. */
    method HammingWeight(n0: bv64) returns (weight: int)
      requires OneBitReady()
      ensures weight == HammingWeightOf(n0)
      ensures 0 <= weight <= 64
    {
      var i := 0;
      weight := 0;
      var n := n0;
      while i != 8
        invariant 0 <= i <= 8
        invariant weight + Weight(n, 8 - i) == Weight(n0, 8)
      {
        var round := RoundSum(n, oneBit[0], oneBit[1], oneBit[2], oneBit[3],
                              oneBit[4], oneBit[5], oneBit[6], oneBit[7]);
        WeightAdvance(weight, n, n0, i, round as int);
        i := i + 1;
        weight := weight + round as int;
        n := n >> 8;
      }
      HammingWeightBound(n0);
    }
  }
}
