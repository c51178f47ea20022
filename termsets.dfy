/** Polynomials over GF(2) as lists of monomials, and the meaning of the
    list operations of the Polynomial class: adding two term lists modulo 2
    (mix_buffer_to_replica) and the two moves plus_one and transposition. */
module TermSets {
  import opened Bits

  /** The terms of a list, as a set. */
  function Elems(s: seq<bv8>): set<bv8> {
    set x | x in s
  }

  /** No term occurs twice. */
  predicate Distinct(s: seq<bv8>) {
    forall i, j | 0 <= i < j < |s| :: s[i] != s[j]
  }

  /** The shape every polynomial of the program keeps: distinct terms and no
      constant term (the constant only flips the weight w to 64 - w). */
  predicate Proper(s: seq<bv8>) {
    Distinct(s) && 0 !in s
  }

  /** Number of occurrences of x in s. */
  function Count(s: seq<bv8>, x: bv8): nat {
    if |s| == 0 then 0 else Count(s[..|s| - 1], x) + (if s[|s| - 1] == x then 1 else 0)
  }

  /** Extending a slice by one entry adds that entry's match. */
  lemma CountSlice(s: seq<bv8>, from: int, j: int, x: bv8)
    requires 0 <= from <= j < |s|
    ensures Count(s[from..j + 1], x) == Count(s[from..j], x) + (if s[j] == x then 1 else 0)
  {
    assert s[from..j + 1][..j - from] == s[from..j];
  }

  lemma {:induction false} CountAbsent(s: seq<bv8>, x: bv8)
    requires x !in s
    ensures Count(s, x) == 0
  {
    if |s| > 0 {
      assert x !in s[..|s| - 1];
      CountAbsent(s[..|s| - 1], x);
    }
  }

  lemma {:induction false} CountPresent(s: seq<bv8>, x: bv8)
    requires x in s
    ensures Count(s, x) > 0
  {
    if s[|s| - 1] != x {
      assert x in s[..|s| - 1];
      CountPresent(s[..|s| - 1], x);
    }
  }

  /** Exclusive union of two term sets: addition of polynomials over GF(2). */
  function SymDiff(a: set<bv8>, b: set<bv8>): set<bv8> {
    (a - b) + (b - a)
  }

  lemma SymDiffInvolution(a: set<bv8>, b: set<bv8>)
    ensures SymDiff(SymDiff(a, b), b) == a
  {
  }

  // ---------------------------------------------------------------------
  // Sizes

  /** The integers lo+1 .. hi. */
  function Range(lo: int, hi: int): set<int>
    decreases hi - lo
  {
    if hi <= lo then {} else Range(lo, hi - 1) + {hi}
  }

  lemma {:induction false} RangeCard(lo: int, hi: int)
    requires lo <= hi
    ensures |Range(lo, hi)| == hi - lo
    decreases hi - lo
  {
    if hi > lo {
      RangeCard(lo, hi - 1);
      assert hi !in Range(lo, hi - 1) by {
        RangeMembers(lo, hi - 1);
      }
    }
  }

  lemma {:induction false} RangeMembers(lo: int, hi: int)
    ensures forall i :: i in Range(lo, hi) <==> lo < i <= hi
    decreases hi - lo
  {
    if hi > lo {
      RangeMembers(lo, hi - 1);
    }
  }

  lemma SubsetCard(a: set<int>, b: set<int>)
    requires a <= b
    ensures |a| <= |b|
  {
    assert b == a + (b - a);
  }

  /** Distinct bytes have distinct integer values. */
  lemma ToIntInjective(x: bv8, y: bv8)
    requires x != y
    ensures x as int != y as int
  {
  }

  /** A nonzero byte has value 1 .. 255. */
  lemma ToIntRange(x: bv8)
    requires x != 0
    ensures 0 < x as int <= 255
  {
  }

  /** The values of the terms of a list, as integers. */
  function Values(s: seq<bv8>): seq<int> {
    seq(|s|, i requires 0 <= i < |s| => s[i] as int)
  }

  /** The elements of an integer list. */
  function IntElems(t: seq<int>): set<int> {
    set x | x in t
  }

  lemma ValuesDistinct(s: seq<bv8>)
    requires Distinct(s)
    ensures forall i, j | 0 <= i < j < |s| :: Values(s)[i] != Values(s)[j]
  {
    forall i, j | 0 <= i < j < |s|
      ensures Values(s)[i] != Values(s)[j]
    {
      ToIntInjective(s[i], s[j]);
    }
  }

  lemma {:induction false} IntElemsCard(t: seq<int>)
    requires forall i, j | 0 <= i < j < |t| :: t[i] != t[j]
    ensures |IntElems(t)| == |t|
  {
    if |t| > 0 {
      var t' := t[..|t| - 1];
      assert t == t' + [t[|t| - 1]];
      IntElemsCard(t');
      assert IntElems(t) == IntElems(t') + {t[|t| - 1]};
    }
  }

  /** A proper polynomial has at most 255 terms, so the 265-entry term
      array of the Polynomial class never overflows. */
  lemma ProperBound(s: seq<bv8>)
    requires Proper(s)
    ensures |s| <= 255
  {
    ValuesDistinct(s);
    IntElemsCard(Values(s));
    RangeMembers(0, 255);
    RangeCard(0, 255);
    forall v | v in IntElems(Values(s))
      ensures v in Range(0, 255)
    {
      var i :| 0 <= i < |s| && Values(s)[i] == v;
      ToIntRange(s[i]);
    }
    SubsetCard(IntElems(Values(s)), Range(0, 255));
  }

  // ---------------------------------------------------------------------
  // mix_buffer_to_replica

  /** The self terms mix_buffer_to_replica keeps: those matched an even
      number of times in the buffer, in their order. */
  function KeepEven(p: seq<bv8>, b: seq<bv8>): seq<bv8> {
    if |p| == 0 then []
    else KeepEven(p[..|p| - 1], b) + (if Count(b, p[|p| - 1]) % 2 == 0 then [p[|p| - 1]] else [])
  }

  /** A buffer entry at index i is added by the second pass iff it survived the
      first pass (nonzero, no self term equals it), it is the first occurrence of
      its value, and its value occurs an odd number of times in the buffer. */
  predicate AddsAt(b: seq<bv8>, p: seq<bv8>, i: int)
    requires 0 <= i < |b|
  {
    b[i] != 0 && b[i] !in p && b[i] !in b[..i] && Count(b, b[i]) % 2 == 1
  }

  /** The buffer terms the second pass adds among the first n entries. */
  function OddFirsts(b: seq<bv8>, p: seq<bv8>, n: nat): seq<bv8>
    requires n <= |b|
  {
    if n == 0 then []
    else OddFirsts(b, p, n - 1) + (if AddsAt(b, p, n - 1) then [b[n - 1]] else [])
  }

  /** The list mix_buffer_to_replica writes into replica. */
  function MixSeq(p: seq<bv8>, b: seq<bv8>): seq<bv8> {
    KeepEven(p, b) + OddFirsts(b, p, |b|)
  }

  /** The nonzero values occurring an odd number of times. */
  function OddNZ(b: seq<bv8>): set<bv8> {
    set x | x in b && x != 0 && Count(b, x) % 2 == 1
  }

  lemma {:induction false} KeepEvenElems(p: seq<bv8>, b: seq<bv8>)
    ensures forall y :: y in KeepEven(p, b) <==> y in p && Count(b, y) % 2 == 0
  {
    if |p| > 0 {
      KeepEvenElems(p[..|p| - 1], b);
      assert p == p[..|p| - 1] + [p[|p| - 1]];
    }
  }

  lemma {:induction false} KeepEvenDistinct(p: seq<bv8>, b: seq<bv8>)
    requires Distinct(p)
    ensures Distinct(KeepEven(p, b))
  {
    if |p| > 0 {
      var p' := p[..|p| - 1];
      assert Distinct(p');
      KeepEvenDistinct(p', b);
      KeepEvenElems(p', b);
      assert p[|p| - 1] !in p';
    }
  }

  lemma {:induction false} OddFirstsElems(b: seq<bv8>, p: seq<bv8>, n: nat)
    requires n <= |b|
    ensures forall y :: y in OddFirsts(b, p, n) <==>
      y in b[..n] && y != 0 && y !in p && Count(b, y) % 2 == 1
  {
    if n > 0 {
      OddFirstsElems(b, p, n - 1);
      assert b[..n] == b[..n - 1] + [b[n - 1]];
    }
  }

  lemma {:induction false} OddFirstsDistinct(b: seq<bv8>, p: seq<bv8>, n: nat)
    requires n <= |b|
    ensures Distinct(OddFirsts(b, p, n))
  {
    if n > 0 {
      OddFirstsDistinct(b, p, n - 1);
      OddFirstsElems(b, p, n - 1);
    }
  }

  /** replica holds exactly the terms occurring an odd number of times across
      self and the buffer, zero entries of the buffer ignored. */
  lemma MixSeqElems(p: seq<bv8>, b: seq<bv8>)
    requires Proper(p)
    ensures Elems(MixSeq(p, b)) == SymDiff(Elems(p), OddNZ(b))
  {
    KeepEvenElems(p, b);
    OddFirstsElems(b, p, |b|);
    assert b[..|b|] == b;
    forall y
      ensures y in Elems(MixSeq(p, b)) <==> y in SymDiff(Elems(p), OddNZ(b))
    {
      if y !in b {
        CountAbsent(b, y);
      }
    }
  }

  /** Every prefix of what replica receives is proper. */
  lemma MixPrefixProper(p: seq<bv8>, b: seq<bv8>, n: nat)
    requires Proper(p) && n <= |b|
    ensures Proper(KeepEven(p, b) + OddFirsts(b, p, n))
  {
    KeepEvenDistinct(p, b);
    OddFirstsDistinct(b, p, n);
    KeepEvenElems(p, b);
    OddFirstsElems(b, p, n);
    var m := KeepEven(p, b) + OddFirsts(b, p, n);
    var k := KeepEven(p, b);
    forall i, j | 0 <= i < j < |m|
      ensures m[i] != m[j]
    {
      if j < |k| || |k| <= i {
      } else {
        assert m[i] == k[i] && k[i] in k;
        assert m[j] == OddFirsts(b, p, n)[j - |k|];
      }
    }
  }

  /** replica is again proper: distinct terms, no constant. */
  lemma MixSeqProper(p: seq<bv8>, b: seq<bv8>)
    requires Proper(p)
    ensures Proper(MixSeq(p, b))
  {
    MixPrefixProper(p, b, |b|);
  }

  /** The first pass keeps at most the self terms. */
  lemma {:induction false} KeepEvenLength(p: seq<bv8>, b: seq<bv8>)
    ensures |KeepEven(p, b)| <= |p|
  {
    if |p| > 0 {
      KeepEvenLength(p[..|p| - 1], b);
    }
  }

  /** Count distributes over concatenation. */
  lemma {:induction false} CountConcat(a: seq<bv8>, b: seq<bv8>, x: bv8)
    ensures Count(a + b, x) == Count(a, x) + Count(b, x)
  {
    if |b| > 0 {
      var b' := b[..|b| - 1];
      assert (a + b)[..|a + b| - 1] == a + b';
      assert (a + b)[|a + b| - 1] == b[|b| - 1];
      CountConcat(a, b', x);
    } else {
      assert a + b == a;
    }
  }

  /** Two lists that agree on where x occurs count x alike. */
  lemma {:induction false} CountAgree(a: seq<bv8>, b: seq<bv8>, x: bv8)
    requires |a| == |b|
    requires forall k | 0 <= k < |a| :: (a[k] == x) == (b[k] == x)
    ensures Count(a, x) == Count(b, x)
  {
    if |a| > 0 {
      CountAgree(a[..|a| - 1], b[..|b| - 1], x);
    }
  }

  /** The matching loop of both passes: entries from index from on that
      equal x become 0. */
  function Cancel(s: seq<bv8>, x: bv8, from: int): (r: seq<bv8>)
    ensures |r| == |s|
  {
    seq(|s|, k requires 0 <= k < |s| => if from <= k && s[k] == x then 0 else s[k])
  }

  /** The buffer during the first pass, once the terms q are processed. */
  function FirstState(b: seq<bv8>, q: seq<bv8>): (r: seq<bv8>)
    ensures |r| == |b|
  {
    seq(|b|, k requires 0 <= k < |b| => if b[k] in q then 0 else b[k])
  }

  /** The buffer during the second pass, before index i is processed. */
  function SecondState(b: seq<bv8>, p: seq<bv8>, i: int): (r: seq<bv8>)
    requires 0 <= i <= |b|
    ensures |r| == |b|
  {
    seq(|b|, k requires 0 <= k < |b| => if k < i || b[k] in p || b[k] in b[..i] then 0 else b[k])
  }

  /** One step of the first pass: zeroing the entries equal to p[i] in a
      buffer from which the terms p[..i] are already gone removes p[..i + 1],
      and the matches counted are those of the original buffer. */
  lemma FirstStep(b: seq<bv8>, p: seq<bv8>, i: int)
    requires Proper(p) && 0 <= i < |p|
    ensures Cancel(FirstState(b, p[..i]), p[i], 0) == FirstState(b, p[..i + 1])
    ensures Count(FirstState(b, p[..i]), p[i]) == Count(b, p[i])
  {
    assert p[..i + 1] == p[..i] + [p[i]];
    assert p[i] !in p[..i];
    CountAgree(FirstState(b, p[..i]), b, p[i]);
  }

  /** The first pass leaves exactly the buffer entries that are not self terms. */
  lemma FirstDone(b: seq<bv8>, p: seq<bv8>)
    requires Proper(p)
    ensures FirstState(b, p) == SecondState(b, p, 0)
  {
    assert b[..0] == [];
  }

  /** One step of the second pass at a surviving entry: the entry is the
      buffer value b[i], and it is added iff the count flag stays true. */
  lemma SecondStep(b: seq<bv8>, p: seq<bv8>, i: int)
    requires 0 <= i < |b| && SecondState(b, p, i)[i] != 0
    ensures SecondState(b, p, i)[i] == b[i]
    ensures (Count(SecondState(b, p, i)[i + 1..], b[i]) % 2 == 0) == AddsAt(b, p, i)
    ensures Cancel(SecondState(b, p, i), b[i], i + 1)[i := 0] == SecondState(b, p, i + 1)
  {
    SecondLive(b, p, i);
    SecondCount(b, p, i);
    SecondCancel(b, p, i);
  }

  lemma SecondLive(b: seq<bv8>, p: seq<bv8>, i: int)
    requires 0 <= i < |b| && SecondState(b, p, i)[i] != 0
    ensures SecondState(b, p, i)[i] == b[i] && b[i] !in p && b[i] !in b[..i] && b[i] != 0
  {
  }

  lemma SecondCount(b: seq<bv8>, p: seq<bv8>, i: int)
    requires 0 <= i < |b| && b[i] !in p && b[i] !in b[..i] && b[i] != 0
    ensures (Count(SecondState(b, p, i)[i + 1..], b[i]) % 2 == 0) == AddsAt(b, p, i)
  {
    SecondTail(b, p, i);
    FirstOccurrence(b, i);
  }

  /** Past index i, the second-pass buffer holds b[i] where b does. */
  lemma SecondTail(b: seq<bv8>, p: seq<bv8>, i: int)
    requires 0 <= i < |b| && b[i] !in p && b[i] !in b[..i] && b[i] != 0
    ensures Count(SecondState(b, p, i)[i + 1..], b[i]) == Count(b[i + 1..], b[i])
  {
    var x := b[i];
    var tail := SecondState(b, p, i)[i + 1..];
    var rest := b[i + 1..];
    forall k | 0 <= k < |tail|
      ensures (tail[k] == x) == (rest[k] == x)
    {
      assert tail[k] == SecondState(b, p, i)[i + 1 + k] && rest[k] == b[i + 1 + k];
    }
    CountAgree(tail, rest, x);
  }

  /** The first occurrence of x = b[i] accounts for one count of x in b. */
  lemma FirstOccurrence(b: seq<bv8>, i: int)
    requires 0 <= i < |b| && b[i] !in b[..i]
    ensures Count(b, b[i]) == 1 + Count(b[i + 1..], b[i])
  {
    var x := b[i];
    var head := b[..i + 1];
    assert b == head + b[i + 1..];
    CountConcat(head, b[i + 1..], x);
    assert head[..i] == b[..i] && head[i] == x;
    CountAbsent(b[..i], x);
  }

  lemma SecondCancel(b: seq<bv8>, p: seq<bv8>, i: int)
    requires 0 <= i < |b| && b[i] !in p && b[i] !in b[..i] && b[i] != 0
    ensures Cancel(SecondState(b, p, i), b[i], i + 1)[i := 0] == SecondState(b, p, i + 1)
  {
    assert b[..i + 1] == b[..i] + [b[i]];
  }

  /** One step of the second pass at an entry already zeroed: nothing is
      added, and the buffer is already the state before index i + 1. */
  lemma SecondSkip(b: seq<bv8>, p: seq<bv8>, i: int)
    requires 0 <= i < |b| && SecondState(b, p, i)[i] == 0
    ensures !AddsAt(b, p, i)
    ensures SecondState(b, p, i) == SecondState(b, p, i + 1)
  {
    assert b[..i + 1] == b[..i] + [b[i]];
  }

  /** n zero entries. */
  function Zeros(n: nat): (r: seq<bv8>)
    ensures |r| == n
  {
    seq(n, k => 0)
  }

  /** After the second pass the buffer is all zero. */
  lemma SecondDone(b: seq<bv8>, p: seq<bv8>)
    ensures SecondState(b, p, |b|) == Zeros(|b|)
  {
  }

  /** What the first pass writes to replica: each self term matched an even
      number of times in the buffer, once, in the order of self. */
  lemma FirstPassKeeps(p: seq<bv8>, b: seq<bv8>)
    requires Distinct(p)
    ensures Distinct(KeepEven(p, b)) && |KeepEven(p, b)| <= |p|
    ensures forall y :: y in KeepEven(p, b) <==> y in p && Count(b, y) % 2 == 0
  {
    KeepEvenDistinct(p, b);
    KeepEvenLength(p, b);
    KeepEvenElems(p, b);
  }

  /** What the second pass appends to replica: each nonzero buffer value
      that is no self term and occurs an odd number of times in the buffer,
      once, at its first occurrence. */
  lemma SecondPassAdds(b: seq<bv8>, p: seq<bv8>)
    ensures Distinct(OddFirsts(b, p, |b|))
    ensures forall y :: y in OddFirsts(b, p, |b|) <==> y in b && y != 0 && y !in p && Count(b, y) % 2 == 1
  {
    OddFirstsDistinct(b, p, |b|);
    OddFirstsElems(b, p, |b|);
    assert b[..|b|] == b;
  }

  // ---------------------------------------------------------------------
  // plus_one and transposition

  /** The two affine moves: Flip(v) is plus_one(v), which substitutes
      x_v + 1 for x_v, and Transvect(s, t) is transposition(s, t), which
      substitutes x_s + x_t for x_s. */
  datatype Move = Flip(v: Var) | Transvect(src: Var, tgt: Var)

  /** transposition is only performed with two different variables. */
  predicate ValidMove(m: Move) {
    m.Transvect? ==> m.src != m.tgt
  }

  /** The variable a move substitutes for. */
  function Src(m: Move): Var {
    match m
    case Flip(v) => v
    case Transvect(s, _) => s
  }

  /** The extra term a term containing Src(m) produces: t ^ bit v for plus_one,
      and for transposition poly[i] ^ (1 << s) | (1 << t), where C's
      precedence applies the exclusive or first. */
  function Image(t: bv8, m: Move): bv8 {
    match m
    case Flip(v) => t ^ Mask(v)
    case Transvect(s, g) => (t ^ Mask(s)) | Mask(g)
  }

  /** The buffer a move writes: the image of every term containing Src(m),
      in term order. */
  function BufferOf(s: seq<bv8>, m: Move): seq<bv8> {
    if |s| == 0 then []
    else BufferOf(s[..|s| - 1], m) + (if Has(s[|s| - 1], Src(m)) then [Image(s[|s| - 1], m)] else [])
  }

  /** The buffer holds at most one entry per term. */
  lemma {:induction false} BufferLength(s: seq<bv8>, m: Move)
    ensures |BufferOf(s, m)| <= |s|
  {
    if |s| > 0 {
      BufferLength(s[..|s| - 1], m);
    }
  }

  /** The terms a move leaves in replica. */
  function MoveSeq(s: seq<bv8>, m: Move): seq<bv8> {
    MixSeq(s, BufferOf(s, m))
  }

  /** The terms of S that contain the substituted variable. */
  function SrcPart(S: set<bv8>, m: Move): set<bv8> {
    set t | t in S && Has(t, Src(m))
  }

  /** The terms of S whose image is y. */
  function Pre(S: set<bv8>, y: bv8, m: Move): set<bv8> {
    set t | t in SrcPart(S, m) && Image(t, m) == y
  }

  /** The images of the terms of S that contain the substituted variable. */
  function Images(S: set<bv8>, m: Move): set<bv8> {
    set t | t in SrcPart(S, m) :: Image(t, m)
  }

  /** The nonconstant terms the substitution adds an odd number of times. */
  function Toggled(S: set<bv8>, m: Move): set<bv8> {
    set y | y in Images(S, m) && y != 0 && |Pre(S, y, m)| % 2 == 1
  }

  /** The term set after a move: the substitution expanded over GF(2), the
      constant term dropped. */
  function MoveSet(S: set<bv8>, m: Move): set<bv8> {
    SymDiff(S, Toggled(S, m))
  }

  /** An image no longer contains the substituted variable. */
  lemma ImageFlip(t: bv8, v: Var)
    requires Has(t, v)
    ensures !Has(Image(t, Flip(v)), v)
  {
  }

  lemma ImageTransvectSrc(t: bv8, a: Var, b: Var)
    requires a != b && Has(t, a)
    ensures !Has(Image(t, Transvect(a, b)), a)
  {
  }

  lemma ImageTransvectTgt(t: bv8, a: Var, b: Var)
    ensures Has(Image(t, Transvect(a, b)), b)
  {
  }

  /** The images of a valid move lack Src(m); those of a transposition are
      never the constant term. */
  lemma ImageLacksSrc(t: bv8, m: Move)
    requires ValidMove(m) && Has(t, Src(m))
    ensures !Has(Image(t, m), Src(m))
    ensures m.Transvect? ==> Image(t, m) != 0
  {
    match m
    case Flip(v) =>
      ImageFlip(t, v);
    case Transvect(a, b) =>
      ImageTransvectSrc(t, a, b);
      ImageTransvectTgt(t, a, b);
  }

  /** A move changes nothing among the terms that contain Src(m). */
  lemma SrcPartOfMove(S: set<bv8>, m: Move)
    requires ValidMove(m)
    ensures SrcPart(MoveSet(S, m), m) == SrcPart(S, m)
  {
    forall y | y in Toggled(S, m)
      ensures !Has(y, Src(m))
    {
      var t :| t in SrcPart(S, m) && Image(t, m) == y;
      ImageLacksSrc(t, m);
    }
  }

  /** Applying the same move twice restores the term set. */
  lemma MoveSetInvolution(S: set<bv8>, m: Move)
    requires ValidMove(m)
    ensures MoveSet(MoveSet(S, m), m) == S
  {
    SrcPartOfMove(S, m);
    assert Toggled(MoveSet(S, m), m) == Toggled(S, m);
    SymDiffInvolution(S, Toggled(S, m));
  }

  /** Exclusive or with a fixed mask is injective. */
  lemma XorInjective(x: bv8, y: bv8, k: bv8)
    requires x ^ k == y ^ k
    ensures x == y
  {
  }

  /** plus_one adds each term containing x_v, with x_v removed, once. */
  lemma FlipToggled(S: set<bv8>, v: Var)
    ensures Toggled(S, Flip(v)) == Images(S, Flip(v)) - {0}
  {
    forall y | y in Images(S, Flip(v))
      ensures |Pre(S, y, Flip(v))| == 1
    {
      FlipPreOne(S, v, y);
    }
  }

  /** Under plus_one every image has exactly one preimage. */
  lemma FlipPreOne(S: set<bv8>, v: Var, y: bv8)
    requires y in Images(S, Flip(v))
    ensures |Pre(S, y, Flip(v))| == 1
  {
    var m := Flip(v);
    var t :| t in SrcPart(S, m) && Image(t, m) == y;
    forall u | u in Pre(S, y, m)
      ensures u == t
    {
      XorInjective(u, t, Mask(v));
    }
    assert Pre(S, y, m) == {t};
  }

  // ---------------------------------------------------------------------
  // The buffer and its counts

  /** The number of terms of s containing Src(m) whose image is y. */
  function PreCount(s: seq<bv8>, y: bv8, m: Move): nat {
    if |s| == 0 then 0
    else PreCount(s[..|s| - 1], y, m)
         + (if Has(s[|s| - 1], Src(m)) && Image(s[|s| - 1], m) == y then 1 else 0)
  }

  lemma CountAppend(a: seq<bv8>, z: bv8, y: bv8)
    ensures Count(a + [z], y) == Count(a, y) + (if z == y then 1 else 0)
  {
    assert (a + [z])[..|a|] == a;
  }

  lemma {:induction false} BufferCount(s: seq<bv8>, y: bv8, m: Move)
    ensures Count(BufferOf(s, m), y) == PreCount(s, y, m)
  {
    if |s| > 0 {
      BufferCount(s[..|s| - 1], y, m);
      var x := s[|s| - 1];
      if Has(x, Src(m)) {
        CountAppend(BufferOf(s[..|s| - 1], m), Image(x, m), y);
      } else {
        assert BufferOf(s, m) == BufferOf(s[..|s| - 1], m);
      }
    }
  }

  lemma ElemsSnoc(s: seq<bv8>, x: bv8)
    ensures Elems(s + [x]) == Elems(s) + {x}
  {
  }

  lemma PreAdd(S: set<bv8>, x: bv8, y: bv8, m: Move)
    ensures Pre(S + {x}, y, m)
            == Pre(S, y, m) + (if Has(x, Src(m)) && Image(x, m) == y then {x} else {})
  {
    var hit := Has(x, Src(m)) && Image(x, m) == y;
    forall t
      ensures t in Pre(S + {x}, y, m) <==> t in Pre(S, y, m) + (if hit then {x} else {})
    {
      PreAddAt(S, x, y, m, t);
    }
  }

  /** PreAdd for one term t. */
  lemma PreAddAt(S: set<bv8>, x: bv8, y: bv8, m: Move, t: bv8)
    ensures t in Pre(S + {x}, y, m)
            <==> t in Pre(S, y, m) + (if Has(x, Src(m)) && Image(x, m) == y then {x} else {})
  {
    assert t in Pre(S + {x}, y, m) <==> t in SrcPart(S + {x}, m) && Image(t, m) == y;
    assert t in SrcPart(S + {x}, m) <==> (t in S || t == x) && Has(t, Src(m));
    assert t in Pre(S, y, m) <==> t in SrcPart(S, m) && Image(t, m) == y;
  }

  lemma {:induction false} PreCountCard(s: seq<bv8>, y: bv8, m: Move)
    requires Distinct(s)
    ensures PreCount(s, y, m) == |Pre(Elems(s), y, m)|
  {
    if |s| > 0 {
      var s' := s[..|s| - 1];
      var x := s[|s| - 1];
      assert s == s' + [x];
      assert Distinct(s');
      PreCountCard(s', y, m);
      ElemsSnoc(s', x);
      PreAdd(Elems(s'), x, y, m);
      assert x !in Elems(s');
      assert x !in Pre(Elems(s'), y, m);
      assert PreCount(s, y, m) == PreCount(s', y, m) + (if Has(x, Src(m)) && Image(x, m) == y then 1 else 0);
    }
  }

  lemma {:induction false} BufferElems(s: seq<bv8>, m: Move)
    ensures forall y :: y in BufferOf(s, m) <==> y in Images(Elems(s), m)
  {
    if |s| > 0 {
      var s' := s[..|s| - 1];
      assert s == s' + [s[|s| - 1]];
      BufferElems(s', m);
    }
  }

  /** For a list of distinct terms, the nonzero values the buffer holds an
      odd number of times are the terms the move toggles. */
  lemma BufferToggled(s: seq<bv8>, m: Move)
    requires Distinct(s)
    ensures OddNZ(BufferOf(s, m)) == Toggled(Elems(s), m)
  {
    BufferElems(s, m);
    forall y
      ensures y in OddNZ(BufferOf(s, m)) <==> y in Toggled(Elems(s), m)
    {
      BufferCount(s, y, m);
      PreCountCard(s, y, m);
    }
  }

  /** The entries of a valid move's buffer lack Src(m); a transposition's
      buffer holds no zero. */
  lemma BufferShape(s: seq<bv8>, m: Move)
    requires ValidMove(m)
    ensures forall y | y in BufferOf(s, m) :: !Has(y, Src(m)) && (m.Transvect? ==> y != 0)
  {
    BufferElems(s, m);
    forall y | y in BufferOf(s, m)
      ensures !Has(y, Src(m)) && (m.Transvect? ==> y != 0)
    {
      var t :| t in SrcPart(Elems(s), m) && Image(t, m) == y;
      ImageLacksSrc(t, m);
    }
  }

  /** What the move leaves in replica is the move's term set, and is proper. */
  lemma MoveSeqMeaning(s: seq<bv8>, m: Move)
    requires Proper(s)
    ensures Elems(MoveSeq(s, m)) == MoveSet(Elems(s), m)
    ensures Proper(MoveSeq(s, m))
  {
    MixSeqElems(s, BufferOf(s, m));
    MixSeqProper(s, BufferOf(s, m));
    BufferToggled(s, m);
  }

  /** Applying a move to its own result restores the original term set. */
  lemma MoveSeqInvolution(s: seq<bv8>, m: Move)
    requires Proper(s) && ValidMove(m)
    ensures Elems(MoveSeq(MoveSeq(s, m), m)) == Elems(s)
  {
    MoveSeqMeaning(s, m);
    MoveSeqMeaning(MoveSeq(s, m), m);
    MoveSetInvolution(Elems(s), m);
  }

  // ---------------------------------------------------------------------
  // Profiles

  /** The number of terms in which variable v occurs. */
  function Occ(s: seq<bv8>, v: Var): nat {
    if |s| == 0 then 0 else Occ(s[..|s| - 1], v) + Bit(s[|s| - 1], v)
  }

  /** profile_maker: the number of occurrences of each of the eight variables. */
  function ProfileOf(s: seq<bv8>): (r: seq<int>)
    ensures |r| == 8
  {
    [Occ(s, 0), Occ(s, 1), Occ(s, 2), Occ(s, 3), Occ(s, 4), Occ(s, 5), Occ(s, 6), Occ(s, 7)]
  }

  lemma ProfileAt(s: seq<bv8>, j: int)
    requires 0 <= j < 8
    ensures ProfileOf(s)[j] == Occ(s, V(j))
  {
  }

  /** A variable occurs in at most every term. */
  lemma {:induction false} OccBound(s: seq<bv8>, v: Var)
    ensures Occ(s, v) <= |s|
  {
    if |s| > 0 {
      OccBound(s[..|s| - 1], v);
    }
  }

  // ---------------------------------------------------------------------
  // Sequences of moves

  /** Every move of ms is valid. */
  predicate ValidMoves(ms: seq<Move>) {
    forall k | 0 <= k < |ms| :: ValidMove(ms[k])
  }

  /** The term set after the moves ms, in order. */
  function ApplyMoves(S: set<bv8>, ms: seq<Move>): set<bv8> {
    if |ms| == 0 then S else MoveSet(ApplyMoves(S, ms[..|ms| - 1]), ms[|ms| - 1])
  }

  lemma ApplyMovesSnoc(S: set<bv8>, ms: seq<Move>, m: Move)
    ensures ApplyMoves(S, ms + [m]) == MoveSet(ApplyMoves(S, ms), m)
  {
    assert (ms + [m])[..|ms|] == ms;
  }

  /** Moves compose. */
  lemma {:induction false} ApplyMovesConcat(S: set<bv8>, a: seq<Move>, b: seq<Move>)
    ensures ApplyMoves(S, a + b) == ApplyMoves(ApplyMoves(S, a), b)
  {
    if |b| == 0 {
      assert a + b == a;
    } else {
      var b' := b[..|b| - 1];
      assert a + b == (a + b') + [b[|b| - 1]];
      ApplyMovesConcat(S, a, b');
      ApplyMovesSnoc(S, a + b', b[|b| - 1]);
      ApplyMovesSnoc(ApplyMoves(S, a), b', b[|b| - 1]);
      assert b == b' + [b[|b| - 1]];
    }
  }

  // ---------------------------------------------------------------------
  // Greedy descent

  /** The move m leaves fewer terms than S has. */
  predicate Lowers(S: set<bv8>, m: Move) {
    |MoveSet(S, m)| < |S|
  }

  /** No plus_one lowers the term count of S. */
  predicate FlipMinimal(S: set<bv8>) {
    forall v | 0 <= v < 8 :: !Lowers(S, Flip(V(v)))
  }

  /** No plus_one on a variable below v lowers the term count of S. */
  predicate NoFlipBelow(S: set<bv8>, v: int) {
    forall u | 0 <= u < v && u < 8 :: !Lowers(S, Flip(V(u)))
  }

  /** One more variable that no plus_one on it lowers. */
  lemma NoFlipNext(S: set<bv8>, v: int)
    requires 0 <= v < 8 && NoFlipBelow(S, v) && !Lowers(S, Flip(V(v)))
    ensures NoFlipBelow(S, v + 1)
  {
  }

  /** All eight variables checked. */
  lemma NoFlipAll(S: set<bv8>)
    requires NoFlipBelow(S, 8)
    ensures FlipMinimal(S)
  {
  }

  /** No transposition (a, b) with a below s, or with a == s and b below t,
      lowers the term count of S. */
  predicate NoTransvectBelow(S: set<bv8>, s: int, t: int) {
    && (forall a, b | 0 <= a < s && a < 8 && 0 <= b < 8 && a != b :: !Lowers(S, Transvect(V(a), V(b))))
    && (forall b | 0 <= b < t && b < 8 && 0 <= s < 8 && s != b :: !Lowers(S, Transvect(V(s), V(b))))
  }

  /** One more pair (s, t) that does not lower. */
  lemma NoTransvectNext(S: set<bv8>, s: int, t: int)
    requires 0 <= s < 8 && 0 <= t < 8 && NoTransvectBelow(S, s, t)
    requires s != t ==> !Lowers(S, Transvect(V(s), V(t)))
    ensures NoTransvectBelow(S, s, t + 1)
  {
  }

  /** The next first variable. */
  lemma NoTransvectRow(S: set<bv8>, s: int)
    requires 0 <= s < 8 && NoTransvectBelow(S, s, 8)
    ensures NoTransvectBelow(S, s + 1, 0)
  {
  }

  /** All ordered pairs checked. */
  lemma NoTransvectAll(S: set<bv8>)
    requires NoTransvectBelow(S, 8, 0)
    ensures TransvectMinimal(S)
  {
  }

  /** No transposition of two distinct variables lowers the term count of S. */
  predicate TransvectMinimal(S: set<bv8>) {
    forall s, t | 0 <= s < 8 && 0 <= t < 8 && s != t :: !Lowers(S, Transvect(V(s), V(t)))
  }

  /** S is a local minimum of the term count under every single move. */
  predicate Minimal(S: set<bv8>) {
    FlipMinimal(S) && TransvectMinimal(S)
  }

  /** Each move of ms lowers the term count of the set it is applied to. */
  predicate Descending(S: set<bv8>, ms: seq<Move>) {
    forall k | 0 <= k < |ms| :: Lowers(ApplyMoves(S, ms[..k]), ms[k])
  }

  /** A lowering move after a descent is a descent. */
  lemma DescendingSnoc(S: set<bv8>, ms: seq<Move>, m: Move)
    requires Descending(S, ms) && Lowers(ApplyMoves(S, ms), m)
    ensures Descending(S, ms + [m])
  {
    forall k | 0 <= k < |ms + [m]|
      ensures Lowers(ApplyMoves(S, (ms + [m])[..k]), (ms + [m])[k])
    {
      SnocAt(S, ms, m, k);
    }
  }

  lemma SnocAt(S: set<bv8>, ms: seq<Move>, m: Move, k: int)
    requires Descending(S, ms) && Lowers(ApplyMoves(S, ms), m) && 0 <= k <= |ms|
    ensures Lowers(ApplyMoves(S, (ms + [m])[..k]), (ms + [m])[k])
  {
    if k < |ms| {
      assert (ms + [m])[..k] == ms[..k];
    } else {
      assert (ms + [m])[..k] == ms;
    }
  }

  /** Descents compose. */
  lemma {:induction false} DescendingConcat(S: set<bv8>, a: seq<Move>, b: seq<Move>)
    requires Descending(S, a) && Descending(ApplyMoves(S, a), b)
    ensures Descending(S, a + b)
    decreases |b|
  {
    if |b| == 0 {
      assert a + b == a;
    } else {
      var n := |b| - 1;
      DescendingPrefix(ApplyMoves(S, a), b, n);
      DescendingConcat(S, a, b[..n]);
      LateLowers(S, a, b[..n], b[n]);
      DescendingSnoc(S, a + b[..n], b[n]);
      SplitLast(a, b);
    }
  }

  lemma SplitLast<T>(a: seq<T>, b: seq<T>)
    requires |b| > 0
    ensures a + b == (a + b[..|b| - 1]) + [b[|b| - 1]]
  {
    assert b == b[..|b| - 1] + [b[|b| - 1]];
  }

  lemma LateLowers(S: set<bv8>, a: seq<Move>, c: seq<Move>, m: Move)
    requires Lowers(ApplyMoves(ApplyMoves(S, a), c), m)
    ensures Lowers(ApplyMoves(S, a + c), m)
  {
    ApplyMovesConcat(S, a, c);
  }

  /** A prefix of a descent is a descent. */
  lemma DescendingPrefix(S: set<bv8>, ms: seq<Move>, n: int)
    requires Descending(S, ms) && 0 <= n <= |ms|
    ensures Descending(S, ms[..n])
  {
    forall k | 0 <= k < n
      ensures Lowers(ApplyMoves(S, ms[..n][..k]), ms[..n][k])
    {
      assert ms[..n][..k] == ms[..k];
    }
  }

  /** Along a descent the term count drops by at least one per move. */
  lemma {:induction false} DescendingCount(S: set<bv8>, ms: seq<Move>)
    requires Descending(S, ms)
    ensures |ApplyMoves(S, ms)| <= |S| - |ms|
    decreases |ms|
  {
    if |ms| > 0 {
      var n := |ms| - 1;
      DescendingPrefix(S, ms, n);
      DescendingCount(S, ms[..n]);
      assert Lowers(ApplyMoves(S, ms[..n]), ms[n]);
    }
  }

  function Reverse(ms: seq<Move>): (r: seq<Move>)
    ensures |r| == |ms|
  {
    if |ms| == 0 then [] else [ms[|ms| - 1]] + Reverse(ms[..|ms| - 1])
  }

  lemma {:induction false} ReverseValid(ms: seq<Move>)
    requires ValidMoves(ms)
    ensures ValidMoves(Reverse(ms))
  {
    if |ms| > 0 {
      ReverseValid(ms[..|ms| - 1]);
      assert forall k | 1 <= k < |ms| :: Reverse(ms)[k] == Reverse(ms[..|ms| - 1])[k - 1];
    }
  }

  /** Valid moves can be undone by the same moves in reverse order: the
      simplification only ever moves within one affine equivalence class. */
  lemma {:induction false} UndoMoves(S: set<bv8>, ms: seq<Move>)
    requires ValidMoves(ms)
    ensures ApplyMoves(ApplyMoves(S, ms), Reverse(ms)) == S
  {
    if |ms| > 0 {
      var ms' := ms[..|ms| - 1];
      var m := ms[|ms| - 1];
      var T := ApplyMoves(S, ms');
      assert Reverse(ms) == [m] + Reverse(ms');
      ApplyMovesConcat(ApplyMoves(S, ms), [m], Reverse(ms'));
      assert ApplyMoves(ApplyMoves(S, ms), [m]) == MoveSet(ApplyMoves(S, ms), m);
      MoveSetInvolution(T, m);
      UndoMoves(S, ms');
    }
  }
}
