/** The enumerator of classes.cpp: rec walks all 2^21 subsets of the
    second-order basis, keeps the truth table of base + subset as it goes,
    and at every leaf whose Hamming weight is the target (or its complement)
    builds the tagged polynomial, simplifies it and inserts it into the list
    unless an == entry is already there. generate_poly_list starts it. */
module Enumerator {
  import opened Bits
  import opened Truth
  import opened TermSets
  import opened Canon
  import opened Equivalence
  import opened Poly

  /** 2^n. */
  function Pow2(n: nat): nat {
    if n == 0 then 1 else 2 * Pow2(n - 1)
  }

  // ---------------------------------------------------------------------
  // The path of the recursion

  /** The levels at which the path encoded by code took the include branch,
      in ascending order. Each level shifts code left, so the lowest bit of
      code belongs to the last level. */
  function Chosen(code: int, lev: nat): (ks: seq<int>)
    ensures forall k | 0 <= k < |ks| :: 0 <= ks[k] < lev
    decreases lev
  {
    if lev == 0 then [] else Chosen(code / 2, lev - 1) + (if code % 2 == 1 then [lev - 1] else [])
  }

  /** The table at node code of level lev: the starting table, xored at
      every level of the path that took the include branch with the table
      of that level. */
  function PathTable(start: bv64, ts: seq<bv64>, code: int, lev: nat): bv64
    requires lev <= |ts|
    decreases lev, ts
  {
    if lev == 0 then start
    else PathTable(start, ts, code / 2, lev - 1) ^ (if code % 2 == 1 then ts[lev - 1] else 0)
  }

  /** The empty path chooses nothing. */
  lemma {:induction false} ChosenZero(lev: nat)
    ensures Chosen(0, lev) == []
  {
    if lev > 0 {
      ChosenZero(lev - 1);
    }
  }

  /** A path chooses each level at most once, in ascending order. */
  lemma {:induction false} ChosenAscending(code: int, lev: nat)
    ensures forall a, b | 0 <= a < b < |Chosen(code, lev)| :: Chosen(code, lev)[a] < Chosen(code, lev)[b]
    decreases lev
  {
    if lev > 0 {
      ChosenAscending(code / 2, lev - 1);
    }
  }

  /** Going down the exclude branch keeps the table. */
  lemma ExcludeStep(start: bv64, ts: seq<bv64>, code: int, lev: nat)
    requires lev < |ts| && 0 <= code
    ensures PathTable(start, ts, 2 * code, lev + 1) == PathTable(start, ts, code, lev)
  {
    assert (2 * code) / 2 == code && (2 * code) % 2 == 0;
  }

  /** Going down the include branch adds the table of the current level. */
  lemma IncludeStep(start: bv64, ts: seq<bv64>, code: int, lev: nat)
    requires lev < |ts| && 0 <= code
    ensures PathTable(start, ts, 2 * code + 1, lev + 1) == PathTable(start, ts, code, lev) ^ ts[lev]
  {
    assert (2 * code + 1) / 2 == code && (2 * code + 1) % 2 == 1;
  }

  /** The include child's table, as rec computes it from its parent's. */
  lemma IncludeChild(start: bv64, ts: seq<bv64>, code: int, lev: nat, parent: bv64, t: bv64, child: bv64)
    requires lev < |ts| && 0 <= code && parent == PathTable(start, ts, code, lev) && t == ts[lev]
    requires child == parent ^ t
    ensures child == PathTable(start, ts, 2 * code + 1, lev + 1)
  {
    IncludeStep(start, ts, code, lev);
  }

  // ---------------------------------------------------------------------
  // The tagged polynomial of a leaf

  /** A base or basis term moved up two places, with the tag in bits 0 and 1:
      tag 1 for Base1, 2 for Base2 and 3 for the second-order terms. The
      shift is on eight bits, as add_term takes an unsigned char. */
  function Tagged(t: bv8, tag: bv8): bv8 {
    tag ^ (t << 2)
  }

  /** The complement term ((uchar)1)^((uchar)2): both tag bits and nothing else. */
  const ComplementTerm: bv8 := 3

  /** The terms of a base, tagged. */
  function TagAll(s: seq<bv8>, tag: bv8): (r: seq<bv8>)
    ensures |r| == |s|
  {
    seq(|s|, k requires 0 <= k < |s| => Tagged(s[k], tag))
  }

  /** The decode loop of rec: starting at position i, while code is nonzero
      step i down, add the tagged basis term i if the low bit of code is
      set, and shift code right. */
  function Decoded(code: int, i: nat): seq<bv8>
    requires 0 <= code < Pow2(i) && i <= 21
  {
    if code == 0 then []
    else (if code % 2 == 1 then [Tagged(Basis[i - 1], 3)] else []) + Decoded(code / 2, i - 1)
  }

  /** The tagged basis terms of the given levels, the highest level first. */
  function Spelled(ks: seq<int>): (r: seq<bv8>)
    requires forall k | 0 <= k < |ks| :: 0 <= ks[k] < 21
    ensures |r| == |ks|
  {
    if |ks| == 0 then [] else [Tagged(Basis[ks[|ks| - 1]], 3)] + Spelled(ks[..|ks| - 1])
  }

  /** The polynomial a leaf builds: the tagged Base1 terms, the tagged Base2
      terms, the decoded basis terms, and the complement term when the
      weight is 64 - target. */
  function Candidate(b1: seq<bv8>, b2: seq<bv8>, code: int, complement: bool): seq<bv8>
    requires 0 <= code < Pow2(21)
  {
    TagAll(b1, 1) + TagAll(b2, 2) + Decoded(code, 21) + (if complement then [ComplementTerm] else [])
  }

  /** A base polynomial as the enumerator needs it: distinct terms in the six
      variables x1 .. x6, so that moving them up two places loses nothing. */
  predicate SixVar(s: seq<bv8>) {
    Distinct(s) && forall k | 0 <= k < |s| :: s[k] < 64
  }

  /** Halving a code of i bits leaves one of i - 1 bits. */
  lemma HalfBelow(code: int, i: nat)
    requires 0 <= code < Pow2(i) && i > 0
    ensures 0 <= code / 2 < Pow2(i - 1)
  {
  }

  /** The decode loop adds exactly the tagged basis terms of the chosen
      levels, the highest level first: the lowest bit of code is level i - 1. */
  lemma {:induction false} DecodedChosen(code: int, i: nat)
    requires 0 <= code < Pow2(i) && i <= 21
    ensures Decoded(code, i) == Spelled(Chosen(code, i))
  {
    if code == 0 {
      ChosenZero(i);
    } else {
      HalfBelow(code, i);
      DecodedChosen(code / 2, i - 1);
      var ks := Chosen(code, i);
      if code % 2 == 1 {
        assert ks[..|ks| - 1] == Chosen(code / 2, i - 1);
      } else {
        assert ks == Chosen(code / 2, i - 1);
      }
    }
  }

  /** Every basis entry lies in x1 .. x6 and is not the constant. */
  lemma BasisBelow(a: int)
    requires 0 <= a < 21
    ensures 0 < Basis[a] < 64
  {
    assert a == 0 || a == 1 || a == 2 || a == 3 || a == 4 || a == 5 || a == 6 || a == 7
      || a == 8 || a == 9 || a == 10 || a == 11 || a == 12 || a == 13 || a == 14 || a == 15
      || a == 16 || a == 17 || a == 18 || a == 19 || a == 20;
  }

  /** A tagged six-variable term keeps its tag in the low two bits and the
      term above them. */
  lemma TaggedParts(t: bv8, tag: bv8)
    requires t < 64 && tag < 4
    ensures Tagged(t, tag) & 3 == tag && Tagged(t, tag) >> 2 == t
  {
  }

  /** Position j of Spelled(ks) holds the level |ks| - 1 - j. */
  lemma {:induction false} SpelledAt(ks: seq<int>, j: int)
    requires forall k | 0 <= k < |ks| :: 0 <= ks[k] < 21
    requires 0 <= j < |ks|
    ensures Spelled(ks)[j] == Tagged(Basis[ks[|ks| - 1 - j]], 3)
  {
    if j > 0 {
      SpelledAt(ks[..|ks| - 1], j - 1);
    }
  }

  /** Joining two distinct lists with nothing in common gives a distinct list. */
  lemma DistinctConcat(a: seq<bv8>, b: seq<bv8>)
    requires Distinct(a) && Distinct(b)
    requires forall i, j | 0 <= i < |a| && 0 <= j < |b| :: a[i] != b[j]
    ensures Distinct(a + b)
  {
  }

  /** Every term of s carries the tag in its low two bits. */
  predicate TaggedWith(s: seq<bv8>, tag: bv8) {
    forall k | 0 <= k < |s| :: s[k] & 3 == tag
  }

  /** A tagged base is distinct and carries its tag. */
  lemma TagAllDistinct(s: seq<bv8>, tag: bv8)
    requires SixVar(s) && tag < 4
    ensures Distinct(TagAll(s, tag)) && TaggedWith(TagAll(s, tag), tag)
  {
    var r := TagAll(s, tag);
    forall k | 0 <= k < |s|
      ensures r[k] & 3 == tag && r[k] >> 2 == s[k]
    {
      TaggedParts(s[k], tag);
    }
  }

  /** The decoded terms of an ascending list of levels are distinct, carry
      tag 3 and are never the bare tag. */
  lemma SpelledDistinct(ks: seq<int>)
    requires forall k | 0 <= k < |ks| :: 0 <= ks[k] < 21
    requires forall a, b | 0 <= a < b < |ks| :: ks[a] < ks[b]
    ensures Distinct(Spelled(ks)) && TaggedWith(Spelled(ks), 3)
    ensures ComplementTerm !in Spelled(ks)
  {
    var r := Spelled(ks);
    forall j | 0 <= j < |ks|
      ensures r[j] & 3 == 3 && r[j] >> 2 == Basis[ks[|ks| - 1 - j]] != 0
    {
      SpelledAt(ks, j);
      BasisBelow(ks[|ks| - 1 - j]);
      TaggedParts(Basis[ks[|ks| - 1 - j]], 3);
    }
    forall i, j | 0 <= i < j < |ks|
      ensures r[i] != r[j]
    {
      BasisDistinct(ks[|ks| - 1 - i], ks[|ks| - 1 - j]);
    }
    assert ComplementTerm >> 2 == 0;
  }

  /** The leaf polynomial is proper: its four parts carry different tags or,
      for the basis terms against the complement term, differ above the tag. */
  lemma CandidateProper(b1: seq<bv8>, b2: seq<bv8>, code: int, complement: bool)
    requires SixVar(b1) && SixVar(b2) && 0 <= code < Pow2(21)
    ensures Proper(Candidate(b1, b2, code, complement))
  {
    var p1, p2, p3 := TagAll(b1, 1), TagAll(b2, 2), Decoded(code, 21);
    var tail: seq<bv8> := if complement then [ComplementTerm] else [];
    assert Candidate(b1, b2, code, complement) == p1 + p2 + p3 + tail;
    DecodedChosen(code, 21);
    ChosenAscending(code, 21);
    TagAllDistinct(b1, 1);
    TagAllDistinct(b2, 2);
    SpelledDistinct(Chosen(code, 21));
    DistinctConcat(p1, p2);
    var front := p1 + p2;
    assert forall i | 0 <= i < |front| :: front[i] & 3 == 1 || front[i] & 3 == 2;
    DistinctConcat(front, p3);
    var body := front + p3;
    assert forall i | 0 <= i < |body| :: body[i] & 3 != 0;
    assert forall i | 0 <= i < |body| :: body[i] != ComplementTerm;
    DistinctConcat(body, tail);
  }

  /** The leaf polynomial has one term per base term, one per chosen level,
      and the complement term when asked for. */
  lemma CandidateLength(b1: seq<bv8>, b2: seq<bv8>, code: int, complement: bool)
    requires 0 <= code < Pow2(21)
    ensures |Candidate(b1, b2, code, complement)| == |b1| + |b2| + |Chosen(code, 21)| + (if complement then 1 else 0)
  {
    DecodedChosen(code, 21);
  }

  /** The decoded terms hold the tagged basis term k exactly when k is one
      of the levels. */
  lemma SpelledHas(ks: seq<int>, k: int)
    requires forall j | 0 <= j < |ks| :: 0 <= ks[j] < 21
    requires 0 <= k < 21
    ensures Tagged(Basis[k], 3) in Spelled(ks) <==> k in ks
  {
    if k in ks {
      SpelledHasLevel(ks, k);
    }
    if Tagged(Basis[k], 3) in Spelled(ks) {
      SpelledOnlyLevels(ks, k);
    }
  }

  /** A level's basis term is among the decoded terms. */
  lemma SpelledHasLevel(ks: seq<int>, k: int)
    requires forall j | 0 <= j < |ks| :: 0 <= ks[j] < 21
    requires k in ks
    ensures Tagged(Basis[k], 3) in Spelled(ks)
  {
    var a :| 0 <= a < |ks| && ks[a] == k;
    var r, j := Spelled(ks), |ks| - 1 - a;
    assert ks[|ks| - 1 - j] == k;
    SpelledAt(ks, j);
    assert r[j] == Tagged(Basis[k], 3);
  }

  /** Only the levels' basis terms are among the decoded terms. */
  lemma SpelledOnlyLevels(ks: seq<int>, k: int)
    requires forall j | 0 <= j < |ks| :: 0 <= ks[j] < 21
    requires 0 <= k < 21 && Tagged(Basis[k], 3) in Spelled(ks)
    ensures k in ks
  {
    var r := Spelled(ks);
    var j :| 0 <= j < |r| && r[j] == Tagged(Basis[k], 3);
    var l := ks[|ks| - 1 - j];
    SpelledAt(ks, j);
    BasisBelow(k);
    BasisBelow(l);
    TaggedParts(Basis[k], 3);
    TaggedParts(Basis[l], 3);
    BasisDistinct(k, l);
  }

  /** The leaf polynomial holds the tagged basis term k exactly when level k
      took the include branch. */
  lemma CandidateBasis(b1: seq<bv8>, b2: seq<bv8>, code: int, complement: bool, k: int)
    requires SixVar(b1) && SixVar(b2) && 0 <= code < Pow2(21) && 0 <= k < 21
    ensures Tagged(Basis[k], 3) in Candidate(b1, b2, code, complement) <==> k in Chosen(code, 21)
  {
    var x := Tagged(Basis[k], 3);
    BasisBelow(k);
    TaggedParts(Basis[k], 3);
    var p1, p2, p3 := TagAll(b1, 1), TagAll(b2, 2), Decoded(code, 21);
    var tail: seq<bv8> := if complement then [ComplementTerm] else [];
    assert Candidate(b1, b2, code, complement) == p1 + p2 + p3 + tail;
    TagAllDistinct(b1, 1);
    TagAllDistinct(b2, 2);
    assert x !in p1 && x !in p2;
    assert x !in tail by {
      assert ComplementTerm >> 2 == 0;
    }
    DecodedChosen(code, 21);
    SpelledHas(Chosen(code, 21), k);
  }

  /** The leaf polynomial holds the complement term exactly when asked for. */
  lemma CandidateComplement(b1: seq<bv8>, b2: seq<bv8>, code: int, complement: bool)
    requires SixVar(b1) && SixVar(b2) && 0 <= code < Pow2(21)
    ensures ComplementTerm in Candidate(b1, b2, code, complement) <==> complement
  {
    var p1, p2, p3 := TagAll(b1, 1), TagAll(b2, 2), Decoded(code, 21);
    assert Candidate(b1, b2, code, complement) == p1 + p2 + p3 + (if complement then [ComplementTerm] else []);
    TagAllDistinct(b1, 1);
    TagAllDistinct(b2, 2);
    DecodedChosen(code, 21);
    ChosenAscending(code, 21);
    SpelledDistinct(Chosen(code, 21));
    assert ComplementTerm & 3 == 3;
  }

  // ---------------------------------------------------------------------
  // The list of polynomials

  /** Every stored entry is a proper term list that fits a Polynomial. */
  ghost predicate Stored(l: seq<seq<bv8>>) {
    forall k | 0 <= k < |l| :: Proper(l[k]) && |l[k]| <= Capacity
  }

  /** No entry from index from on is == to an entry before it. */
  ghost predicate NoneEqualBefore(l: seq<seq<bv8>>, from: int) {
    forall i, j {:trigger EqualPolys(l[i], l[j])} | 0 <= i < j < |l| && from <= j :: !EqualPolys(l[i], l[j])
  }

  /** Strictly ascending codes. */
  predicate Increasing(cs: seq<int>) {
    forall a, b | 0 <= a < b < |cs| :: cs[a] < cs[b]
  }

  /** The end of a leaf in the order the source writes it: the entry goes to
      index count, the count goes up, and only then is the new count compared
      with the capacity; the run aborts when it exceeds it. */
  datatype LeafStore = LeafStore(written: int, newCount: int, aborts: bool)

  function StoreAsWritten(count: int, capacity: int): LeafStore {
    LeafStore(count, count + 1, count + 1 > capacity)
  }

  /** With capacity entries in the list, storing the last one does not abort,
      so the next new entry is written at index capacity, one past the end
      of the list, before the abort. */
  lemma StoreOverflows(capacity: int)
    requires capacity > 0
    ensures !StoreAsWritten(capacity - 1, capacity).aborts
    ensures StoreAsWritten(capacity - 1, capacity).newCount == capacity
    ensures StoreAsWritten(capacity, capacity).written == capacity
  {
  }

  /** The end of a leaf, with the capacity check before the write: the scan
      for an entry == e, then the write at index count. ok == false is the
      abort on a full list; nothing is written then. */
  method Insert(list: array<seq<bv8>>, count: int, e: seq<bv8>, ghost prefix: seq<seq<bv8>>) returns (newCount: int, ok: bool)
    requires 0 <= count <= list.Length && list[..count] == prefix && Stored(prefix) && Proper(e) && |e| <= Capacity
    modifies list
    ensures newCount == count || (newCount == count + 1 && count < list.Length)
    ensures list[..newCount] == prefix + if newCount == count + 1 then [e] else []
    ensures newCount == count + 1 <==> ok && forall i | 0 <= i < count :: !EqualPolys(prefix[i], e)
    ensures !ok <==> count == list.Length && forall i | 0 <= i < count :: !EqualPolys(prefix[i], e)
    ensures Stored(list[..newCount]) && NoneEqualBefore(list[..newCount], count)
  {
    var i := 0;
    while i < count
      invariant 0 <= i <= count
      invariant list[..] == old(list[..])
      invariant forall k | 0 <= k < i :: !EqualPolys(prefix[k], e)
    {
      assert list[i] == prefix[i];
      var same := PolysEqual(list[i], e);
      if same {
        return count, true;
      }
      i := i + 1;
    }
    if count >= list.Length {
      return count, false;
    }
    list[count] := e;
    assert list[..count + 1] == list[..count] + [e];
    return count + 1, true;
  }

  /** Entries and codes of two runs of leaves, one after the other. */
  lemma NoneEqualJoin(l: seq<seq<bv8>>, count: int, mid: int)
    requires 0 <= count <= mid <= |l|
    requires NoneEqualBefore(l[..mid], count) && NoneEqualBefore(l, mid)
    ensures NoneEqualBefore(l, count)
  {
    forall i, j | 0 <= i < j < |l| && count <= j
      ensures !EqualPolys(l[i], l[j])
    {
      if j < mid {
        assert l[..mid][i] == l[i] && l[..mid][j] == l[j];
      }
    }
  }

  /** All codes lie in [lo, hi). */
  predicate Within(cs: seq<int>, lo: int, hi: int) {
    forall k | 0 <= k < |cs| :: lo <= cs[k] < hi
  }

  lemma IncreasingJoin(c1: seq<int>, c2: seq<int>, lo: int, mid: int, hi: int)
    requires lo <= mid <= hi && Increasing(c1) && Increasing(c2) && Within(c1, lo, mid) && Within(c2, mid, hi)
    ensures Increasing(c1 + c2) && Within(c1 + c2, lo, hi)
  {
    var c := c1 + c2;
    forall a, b | 0 <= a < b < |c|
      ensures c[a] < c[b]
    {
      if b < |c1| {
        assert c[a] == c1[a] && c[b] == c1[b];
      } else if a < |c1| {
        assert c[a] == c1[a] && c[b] == c2[b - |c1|];
      } else {
        assert c[a] == c2[a - |c1|] && c[b] == c2[b - |c1|];
      }
    }
    forall k | 0 <= k < |c|
      ensures lo <= c[k] < hi
    {
      if k < |c1| {
        assert c[k] == c1[k];
      } else {
        assert c[k] == c2[k - |c1|];
      }
    }
  }

  lemma WithinWiden(cs: seq<int>, lo: int, mid: int, hi: int)
    requires Within(cs, lo, mid) && mid <= hi
    ensures Within(cs, lo, hi)
  {
  }

  /** Strictly ascending codes in [lo, hi) are at most hi - lo many: the
      number of leaves under a node bounds what rec can add there. */
  lemma {:induction false} IncreasingBound(cs: seq<int>, lo: int, hi: int)
    requires Increasing(cs) && Within(cs, lo, hi)
    ensures |cs| <= if hi < lo then 0 else hi - lo
    decreases |cs|
  {
    if cs != [] {
      var rest := cs[1..];
      assert Increasing(rest) by {
        forall a, b | 0 <= a < b < |rest|
          ensures rest[a] < rest[b]
        {
          assert rest[a] == cs[a + 1] && rest[b] == cs[b + 1];
        }
      }
      assert Within(rest, cs[0] + 1, hi) by {
        forall k | 0 <= k < |rest|
          ensures cs[0] + 1 <= rest[k] < hi
        {
          assert rest[k] == cs[k + 1];
        }
      }
      IncreasingBound(rest, cs[0] + 1, hi);
    }
  }

  /** The first leaf under node code at level lev: code shifted left until
      level 21. The leaves under it are [First(code, lev), First(code + 1, lev)). */
  function First(code: int, lev: nat): int
    requires lev <= 21
    decreases 21 - lev
  {
    if lev == 21 then code else First(2 * code, lev + 1)
  }

  /** First is code * 2^(21 - lev). */
  lemma {:induction false} FirstIsShift(code: int, lev: nat)
    requires lev <= 21
    ensures First(code, lev) == code * Pow2(21 - lev)
    decreases 21 - lev
  {
    if lev < 21 {
      FirstIsShift(2 * code, lev + 1);
    }
  }

  /** First is monotonic in code. */
  lemma {:induction false} FirstMonotonic(a: int, b: int, lev: nat)
    requires lev <= 21 && a <= b
    ensures First(a, lev) <= First(b, lev)
    decreases 21 - lev
  {
    if lev < 21 {
      FirstMonotonic(2 * a, 2 * b, lev + 1);
    }
  }

  // ---------------------------------------------------------------------
  // rec and generate_poly_list

  /** What rec only reads: the basis, its truth tables and the one-bit
      masks, as init leaves them. */
  ghost predicate TablesReady(tables: Tables)
    reads tables.secondOrderMonomials, tables.secondOrderTable, tables.oneBit
  {
    && tables.secondOrderMonomials.Length == 21 && tables.secondOrderTable.Length == 21
    && tables.secondOrderMonomials[..] == Basis && tables.OneBitReady()
    && TablesOf(tables.secondOrderTable[..], Basis, 21)
  }

  /** Nothing rec writes, the working polynomial and its scratch polynomials,
      is one of the tables it reads. */
  ghost predicate Apart(poly: Polynomial, tables: Tables)
    reads poly
  {
    var m: object, t: object, o: object := tables.secondOrderMonomials, tables.secondOrderTable, tables.oneBit;
    {m, t, o} !! ({poly, poly.poly} + poly.Scratch())
  }

  /** The list is neither a table nor any storage of the working
      polynomial. */
  ghost predicate Unshared(list: array<seq<bv8>>, poly: Polynomial, tables: Tables)
    reads poly
  {
    var l: object, m: object, t: object, o: object :=
      list, tables.secondOrderMonomials, tables.secondOrderTable, tables.oneBit;
    l !in {poly, poly.poly, poly.profile, m, t, o} + poly.Scratch()
  }

  /** A stored entry from a leaf: code is a leaf whose table has the target
      weight or its complement, and e is what quick_simplify made of the
      polynomial built there. */
  ghost predicate FromLeaf(e: seq<bv8>, b1: seq<bv8>, b2: seq<bv8>, start: bv64, ts: seq<bv64>,
                           target: int, code: int, red: Reduction)
    requires |ts| == 21
  {
    && 0 <= code < Pow2(21)
    && var w := HammingWeightOf(PathTable(start, ts, code, 21));
       && (w == target || w == 64 - target)
       && Reduces(Candidate(b1, b2, code, w == 64 - target), e, red)
  }

  /** Entry k of l came from leaf codes[k], reduced as reds[k] says. */
  ghost predicate Found(l: seq<seq<bv8>>, b1: seq<bv8>, b2: seq<bv8>, start: bv64, ts: seq<bv64>,
                        target: int, codes: seq<int>, reds: seq<Reduction>)
  {
    && |ts| == 21 && |l| == |codes| == |reds|
    && forall k {:trigger FromLeaf(l[k], b1, b2, start, ts, target, codes[k], reds[k])} | 0 <= k < |l| ::
         FromLeaf(l[k], b1, b2, start, ts, target, codes[k], reds[k])
  }

  lemma FoundJoin(l1: seq<seq<bv8>>, l2: seq<seq<bv8>>, b1: seq<bv8>, b2: seq<bv8>, start: bv64,
                  ts: seq<bv64>, target: int, c1: seq<int>, c2: seq<int>, r1: seq<Reduction>, r2: seq<Reduction>)
    requires Found(l1, b1, b2, start, ts, target, c1, r1) && Found(l2, b1, b2, start, ts, target, c2, r2)
    ensures Found(l1 + l2, b1, b2, start, ts, target, c1 + c2, r1 + r2)
  {
    var l, c, r := l1 + l2, c1 + c2, r1 + r2;
    forall k | 0 <= k < |l|
      ensures FromLeaf(l[k], b1, b2, start, ts, target, c[k], r[k])
    {
      if k < |l1| {
        assert l[k] == l1[k] && c[k] == c1[k] && r[k] == r1[k];
      } else {
        var m := k - |l1|;
        assert l[k] == l2[m] && c[k] == c2[m] && r[k] == r2[m];
      }
    }
  }

  /** Leaf code is accepted: the Hamming weight of its table is target or
      64 - target. */
  ghost predicate Accepted(start: bv64, ts: seq<bv64>, target: int, code: int)
    requires |ts| == 21
  {
    && 0 <= code < Pow2(21)
    && var w := HammingWeightOf(PathTable(start, ts, code, 21));
       w == target || w == 64 - target
  }

  /** The polynomial rec builds at leaf code, with the complement term
      exactly when the weight of the table is 64 - target. */
  ghost function LeafCandidate(b1: seq<bv8>, b2: seq<bv8>, start: bv64, ts: seq<bv64>, target: int,
                               code: int): seq<bv8>
    requires |ts| == 21 && 0 <= code < Pow2(21)
  {
    Candidate(b1, b2, code, HammingWeightOf(PathTable(start, ts, code, 21)) == 64 - target)
  }

  /** Some result of quick_simplify on c is == to an entry of l. */
  ghost predicate Matched(l: seq<seq<bv8>>, c: seq<bv8>) {
    exists e, red, i | 0 <= i < |l| :: Reduces(c, e, red) && EqualPolys(l[i], e)
  }

  /** Every accepted leaf among the codes [lo, hi) is matched in l. */
  ghost predicate Complete(l: seq<seq<bv8>>, b1: seq<bv8>, b2: seq<bv8>, start: bv64, ts: seq<bv64>,
                           target: int, lo: int, hi: int)
  {
    && |ts| == 21
    && forall c | lo <= c < hi && Accepted(start, ts, target, c) ::
         Matched(l, LeafCandidate(b1, b2, start, ts, target, c))
  }

  /** A match stays a match when the list grows at its end. */
  lemma MatchedGrow(l: seq<seq<bv8>>, l': seq<seq<bv8>>, c: seq<bv8>)
    requires Matched(l, c) && |l| <= |l'| && l'[..|l|] == l
    ensures Matched(l', c)
  {
    var e, red, i :| 0 <= i < |l| && Reduces(c, e, red) && EqualPolys(l[i], e);
    assert l'[i] == l[i];
  }

  /** Two runs of leaves, the second after the first has added to the list,
      match every accepted leaf of both. */
  lemma CompleteJoin(l1: seq<seq<bv8>>, l2: seq<seq<bv8>>, b1: seq<bv8>, b2: seq<bv8>, start: bv64,
                     ts: seq<bv64>, target: int, lo: int, mid: int, hi: int)
    requires Complete(l1, b1, b2, start, ts, target, lo, mid) && Complete(l2, b1, b2, start, ts, target, mid, hi)
    requires |l1| <= |l2| && l2[..|l1|] == l1
    ensures Complete(l2, b1, b2, start, ts, target, lo, hi)
  {
    forall c | lo <= c < hi && Accepted(start, ts, target, c)
      ensures Matched(l2, LeafCandidate(b1, b2, start, ts, target, c))
    {
      if c < mid {
        MatchedGrow(l1, l2, LeafCandidate(b1, b2, start, ts, target, c));
      }
    }
  }

  /** Leaf code, when accepted, is matched in l. */
  ghost predicate LeafMatched(l: seq<seq<bv8>>, b1: seq<bv8>, b2: seq<bv8>, start: bv64, ts: seq<bv64>,
                              target: int, code: int)
    requires |ts| == 21
  {
    Accepted(start, ts, target, code) ==> Matched(l, LeafCandidate(b1, b2, start, ts, target, code))
  }

  /** Every accepted leaf under node code of level lev is matched in l: the
      leaf itself at level 21, both children above it. */
  ghost predicate Covered(l: seq<seq<bv8>>, b1: seq<bv8>, b2: seq<bv8>, start: bv64, ts: seq<bv64>,
                          target: int, code: int, lev: nat)
    requires |ts| == 21 && lev <= 21
    decreases |ts| - lev
  {
    if lev == 21 then LeafMatched(l, b1, b2, start, ts, target, code)
    else Covered(l, b1, b2, start, ts, target, 2 * code, lev + 1)
         && Covered(l, b1, b2, start, ts, target, 2 * code + 1, lev + 1)
  }

  /** A node stays covered when the list grows at its end. */
  lemma {:induction false} CoveredGrow(l: seq<seq<bv8>>, l': seq<seq<bv8>>, b1: seq<bv8>, b2: seq<bv8>,
                                       start: bv64, ts: seq<bv64>, target: int, code: int, lev: nat)
    requires |ts| == 21 && lev <= 21 && Covered(l, b1, b2, start, ts, target, code, lev)
    requires |l| <= |l'| && l'[..|l|] == l
    ensures Covered(l', b1, b2, start, ts, target, code, lev)
    decreases 21 - lev
  {
    if lev == 21 {
      if Accepted(start, ts, target, code) {
        MatchedGrow(l, l', LeafCandidate(b1, b2, start, ts, target, code));
      }
    } else {
      CoveredGrow(l, l', b1, b2, start, ts, target, 2 * code, lev + 1);
      CoveredGrow(l, l', b1, b2, start, ts, target, 2 * code + 1, lev + 1);
    }
  }

  /** The first child of a node covered by the list after it, the second by
      the list after both: the node is covered by the list after both. */
  lemma CoveredNode(prefix: seq<seq<bv8>>, a1: seq<seq<bv8>>, a2: seq<seq<bv8>>, b1: seq<bv8>, b2: seq<bv8>,
                    start: bv64, ts: seq<bv64>, target: int, code: int, lev: nat)
    requires |ts| == 21 && lev < 21
    requires Covered(prefix + a1, b1, b2, start, ts, target, 2 * code, lev + 1)
    requires Covered(prefix + a1 + a2, b1, b2, start, ts, target, 2 * code + 1, lev + 1)
    ensures Covered(prefix + (a1 + a2), b1, b2, start, ts, target, code, lev)
  {
    var whole := prefix + a1 + a2;
    assert whole == prefix + (a1 + a2);
    assert whole[..|prefix + a1|] == prefix + a1;
    CoveredGrow(prefix + a1, whole, b1, b2, start, ts, target, 2 * code, lev + 1);
    CoveredChildren(whole, b1, b2, start, ts, target, code, lev);
  }

  /** A node whose two children are covered is covered. */
  lemma CoveredChildren(l: seq<seq<bv8>>, b1: seq<bv8>, b2: seq<bv8>, start: bv64, ts: seq<bv64>,
                        target: int, code: int, lev: nat)
    requires |ts| == 21 && lev < 21
    requires Covered(l, b1, b2, start, ts, target, 2 * code, lev + 1)
    requires Covered(l, b1, b2, start, ts, target, 2 * code + 1, lev + 1)
    ensures Covered(l, b1, b2, start, ts, target, code, lev)
  {
  }

  /** A covered leaf is complete for its one code. */
  lemma LeafComplete(l: seq<seq<bv8>>, b1: seq<bv8>, b2: seq<bv8>, start: bv64, ts: seq<bv64>,
                     target: int, code: int)
    requires |ts| == 21 && Covered(l, b1, b2, start, ts, target, code, 21)
    ensures Complete(l, b1, b2, start, ts, target, First(code, 21), First(code + 1, 21))
  {
    assert First(code, 21) == code && First(code + 1, 21) == code + 1;
    assert LeafMatched(l, b1, b2, start, ts, target, code);
    forall c | code <= c < code + 1 && Accepted(start, ts, target, c)
      ensures Matched(l, LeafCandidate(b1, b2, start, ts, target, c))
    {
      assert c == code;
    }
  }

  /** The leaves under a node are those under its first child, then those
      under its second. */
  lemma FirstHalves(code: int, lev: nat)
    requires lev < 21
    ensures First(code, lev) == First(2 * code, lev + 1) && First(code + 1, lev) == First(2 * code + 1 + 1, lev + 1)
  {
    assert 2 * (code + 1) == 2 * code + 1 + 1;
  }

  /** A covered node is complete for the leaves under it. */
  lemma {:induction false} CoveredComplete(l: seq<seq<bv8>>, b1: seq<bv8>, b2: seq<bv8>, start: bv64,
                                           ts: seq<bv64>, target: int, code: int, lev: nat)
    requires |ts| == 21 && lev <= 21 && Covered(l, b1, b2, start, ts, target, code, lev)
    ensures Complete(l, b1, b2, start, ts, target, First(code, lev), First(code + 1, lev))
    decreases 21 - lev
  {
    if lev == 21 {
      LeafComplete(l, b1, b2, start, ts, target, code);
    } else {
      CoveredComplete(l, b1, b2, start, ts, target, 2 * code, lev + 1);
      CoveredComplete(l, b1, b2, start, ts, target, 2 * code + 1, lev + 1);
      FirstHalves(code, lev);
      CompleteJoin(l, l, b1, b2, start, ts, target,
                   First(2 * code, lev + 1), First(2 * code + 1, lev + 1), First(2 * code + 1 + 1, lev + 1));
    }
  }

  /** What rec at node code of level lev appends to the list prefix: the
      entries added, from the leaves codes (ascending, all under the node),
      reduced as reds says; the list stays stored and no entry it gains is
      == to an entry before it. */
  ghost predicate Adds(prefix: seq<seq<bv8>>, added: seq<seq<bv8>>, codes: seq<int>, reds: seq<Reduction>,
                       b1: seq<bv8>, b2: seq<bv8>, start: bv64, ts: seq<bv64>, target: int, code: int, lev: int)
  {
    && 0 <= lev <= 21
    && Stored(prefix + added) && NoneEqualBefore(prefix + added, |prefix|)
    && Found(added, b1, b2, start, ts, target, codes, reds)
    && Increasing(codes) && Within(codes, First(code, lev), First(code + 1, lev))
  }

  /** The two children of a node, one after the other, add what the node
      adds. */
  lemma AddsJoin(prefix: seq<seq<bv8>>, a1: seq<seq<bv8>>, a2: seq<seq<bv8>>, c1: seq<int>, c2: seq<int>,
                 r1: seq<Reduction>, r2: seq<Reduction>, b1: seq<bv8>, b2: seq<bv8>, start: bv64,
                 ts: seq<bv64>, target: int, code: int, lev: int)
    requires 0 <= lev < 21
    requires Adds(prefix, a1, c1, r1, b1, b2, start, ts, target, 2 * code, lev + 1)
    requires Adds(prefix + a1, a2, c2, r2, b1, b2, start, ts, target, 2 * code + 1, lev + 1)
    ensures Adds(prefix, a1 + a2, c1 + c2, r1 + r2, b1, b2, start, ts, target, code, lev)
    ensures prefix + a1 + a2 == prefix + (a1 + a2)
  {
    var whole := prefix + a1 + a2;
    assert whole == prefix + (a1 + a2);
    assert whole[..|prefix + a1|] == prefix + a1;
    NoneEqualJoin(whole, |prefix|, |prefix + a1|);
    FoundJoin(a1, a2, b1, b2, start, ts, target, c1, c2, r1, r2);
    var lo, mid, hi := First(2 * code, lev + 1), First(2 * code + 1, lev + 1), First(2 * code + 1 + 1, lev + 1);
    assert First(code, lev) == lo && First(code + 1, lev) == hi;
    FirstMonotonic(2 * code, 2 * code + 1, lev + 1);
    FirstMonotonic(2 * code + 1, 2 * code + 1 + 1, lev + 1);
    IncreasingJoin(c1, c2, lo, mid, hi);
  }

  /** What the first child of a node adds, the node adds. */
  lemma AddsWiden(prefix: seq<seq<bv8>>, a1: seq<seq<bv8>>, c1: seq<int>, r1: seq<Reduction>,
                  b1: seq<bv8>, b2: seq<bv8>, start: bv64, ts: seq<bv64>, target: int, code: int, lev: int)
    requires 0 <= lev < 21
    requires Adds(prefix, a1, c1, r1, b1, b2, start, ts, target, 2 * code, lev + 1)
    ensures Adds(prefix, a1, c1, r1, b1, b2, start, ts, target, code, lev)
  {
    var lo, mid, hi := First(2 * code, lev + 1), First(2 * code + 1, lev + 1), First(2 * code + 1 + 1, lev + 1);
    assert First(code, lev) == lo && First(code + 1, lev) == hi;
    FirstMonotonic(2 * code + 1, 2 * code + 1 + 1, lev + 1);
    WithinWiden(c1, lo, mid, hi);
  }

  /** One of the two base loops of a leaf: add_term of every base term,
      tagged. */
  method AddTagged(poly: Polynomial, s: seq<bv8>, tag: bv8)
    requires poly.Valid() && poly.numTerms + |s| <= Capacity
    modifies poly, poly.poly
    ensures poly.Valid() && poly.SameBuffers()
    ensures poly.Terms() == old(poly.Terms()) + TagAll(s, tag)
  {
    ghost var t0 := poly.Terms();
    ghost var r := TagAll(s, tag);
    var i := 0;
    while i < |s|
      invariant 0 <= i <= |s|
      invariant poly.Valid() && poly.SameBuffers() && poly.Terms() == t0 + r[..i]
    {
      poly.AddTerm(Tagged(s[i], tag));
      assert r[..i + 1] == r[..i] + [Tagged(s[i], tag)];
      i := i + 1;
    }
    assert r[..i] == r;
  }

  /** The decode loop of a leaf: while code is nonzero, step i down from 21,
      add the tagged basis term i when the low bit is set, shift code right. */
  method AddDecoded(poly: Polynomial, code: int, tables: Tables)
    requires poly.Valid() && poly.poly != tables.secondOrderMonomials
    requires tables.secondOrderMonomials.Length == 21 && tables.secondOrderMonomials[..] == Basis
    requires 0 <= code < Pow2(21) && poly.numTerms + |Decoded(code, 21)| <= Capacity
    modifies poly, poly.poly
    ensures poly.Valid() && poly.SameBuffers()
    ensures poly.Terms() == old(poly.Terms()) + Decoded(code, 21)
  {
    ghost var t0, d0 := poly.Terms(), Decoded(code, 21);
    var i := 21;
    var k := code;
    while k != 0
      invariant 0 <= i <= 21 && 0 <= k < Pow2(i)
      invariant poly.Valid() && poly.SameBuffers()
      invariant poly.Terms() + Decoded(k, i) == t0 + d0
      decreases k
    {
      k, i := DecodeRound(poly, k, i, tables);
    }
  }

  /** The body of the decode loop. */
  method DecodeRound(poly: Polynomial, k: int, i: int, tables: Tables) returns (k': int, i': int)
    requires poly.Valid() && poly.poly != tables.secondOrderMonomials
    requires tables.secondOrderMonomials.Length == 21 && tables.secondOrderMonomials[..] == Basis
    requires 0 <= i <= 21 && 0 < k < Pow2(i) && poly.numTerms + |Decoded(k, i)| <= Capacity
    modifies poly, poly.poly
    ensures poly.Valid() && poly.SameBuffers()
    ensures 0 <= i' <= 21 && 0 <= k' < Pow2(i') && k' < k
    ensures poly.Terms() + Decoded(k', i') == old(poly.Terms()) + Decoded(k, i)
  {
    DecodedStep(k, i);
    i' := i - 1;
    if k % 2 == 1 {
      var m := tables.secondOrderMonomials[i'];
      assert m == Basis[i'];
      poly.AddTerm(Tagged(m, 3));
    }
    k' := k / 2;
  }

  /** One round of the decode loop. */
  lemma DecodedStep(k: int, i: nat)
    requires 0 < k < Pow2(i) && i <= 21
    ensures i > 0 && 0 <= k / 2 < Pow2(i - 1)
    ensures Decoded(k, i) == (if k % 2 == 1 then [Tagged(Basis[i - 1], 3)] else []) + Decoded(k / 2, i - 1)
  {
  }

  /** The leaf polynomial: num_terms = 0, the tagged Base1 terms, the tagged
      Base2 terms, the decoded basis terms, and the complement term. */
  method BuildCandidate(poly: Polynomial, b1: seq<bv8>, b2: seq<bv8>, code: int,
                        complement: bool, tables: Tables)
    requires poly.Valid() && poly.poly != tables.secondOrderMonomials
    requires tables.secondOrderMonomials.Length == 21 && tables.secondOrderMonomials[..] == Basis
    requires SixVar(b1) && SixVar(b2) && 0 <= code < Pow2(21)
    modifies poly, poly.poly
    ensures poly.Valid() && poly.SameBuffers()
    ensures poly.Terms() == Candidate(b1, b2, code, complement)
  {
    ghost var p1, p2, p3 := TagAll(b1, 1), TagAll(b2, 2), Decoded(code, 21);
    ghost var tail: seq<bv8> := if complement then [ComplementTerm] else [];
    ghost var c := Candidate(b1, b2, code, complement);
    assert c == p1 + p2 + p3 + tail;
    CandidateProper(b1, b2, code, complement);
    ProperBound(c);
    poly.numTerms := 0;
    AddTagged(poly, b1, 1);
    assert poly.Terms() == p1;
    AddTagged(poly, b2, 2);
    assert poly.Terms() == p1 + p2;
    AddDecoded(poly, code, tables);
    assert poly.Terms() == p1 + p2 + p3;
    if complement {
      poly.AddTerm(ComplementTerm);
    }
    assert poly.Terms() == p1 + p2 + p3 + tail;
  }

  /** The polynomial of a leaf, built and then simplified by quick_simplify. */
  method Simplified(poly: Polynomial, b1: seq<bv8>, b2: seq<bv8>, code: int,
                    complement: bool, tables: Tables, wait: int, randomJumps: int,
                    rand: nat -> nat, cursor: nat)
    returns (e: seq<bv8>, next: nat, ghost red: Reduction)
    requires poly.Valid() && poly.BuffersReady() && TablesReady(tables) && Apart(poly, tables)
    requires SixVar(b1) && SixVar(b2) && 0 <= code < Pow2(21)
    modifies poly, poly.poly, poly.profile, poly.Scratch()
    ensures poly.Valid() && poly.BuffersReady() && TablesReady(tables) && Apart(poly, tables) && poly.SameBuffers()
    ensures Reduces(Candidate(b1, b2, code, complement), e, red)
  {
    BuildCandidate(poly, b1, b2, code, complement, tables);
    CandidateProper(b1, b2, code, complement);
    next, red := poly.Reduce(wait, randomJumps, rand, cursor);
    e := poly.poly[..poly.numTerms];
  }

  /** An accepted leaf: the polynomial is built, simplified to e and
      inserted unless the list holds an == entry. The list before the call is
      prefix; added is what the call appends to it (nothing or one entry):
      e exactly when no entry is == to it and the list has room. */
  method Keep(poly: Polynomial, b1: seq<bv8>, b2: seq<bv8>, code: int, complement: bool,
              list: array<seq<bv8>>, count: int, tables: Tables, ghost prefix: seq<seq<bv8>>,
              wait: int, randomJumps: int, rand: nat -> nat, cursor: nat)
    returns (newCount: int, ok: bool, next: nat, ghost added: seq<seq<bv8>>, ghost reds: seq<Reduction>,
             ghost e: seq<bv8>, ghost red: Reduction)
    requires poly.Valid() && poly.BuffersReady() && TablesReady(tables) && Apart(poly, tables)
    requires SixVar(b1) && SixVar(b2) && 0 <= code < Pow2(21)
    requires 0 <= count <= list.Length && list[..count] == prefix && Stored(prefix) && Unshared(list, poly, tables)
    modifies poly, poly.poly, poly.profile, poly.Scratch(), list
    ensures poly.Valid() && poly.BuffersReady() && TablesReady(tables) && Apart(poly, tables) && poly.SameBuffers()
    ensures Unshared(list, poly, tables)
    ensures newCount == count + |added| <= list.Length && list[..newCount] == prefix + added
    ensures Stored(prefix + added) && NoneEqualBefore(prefix + added, count)
    ensures |added| <= 1 && |reds| == |added|
    ensures |added| == 1 ==> Reduces(Candidate(b1, b2, code, complement), added[0], reds[0])
    ensures Reduces(Candidate(b1, b2, code, complement), e, red)
    ensures |added| == 1 ==> added == [e] && reds == [red]
    ensures |added| == 1 <==> ok && forall i | 0 <= i < count :: !EqualPolys(prefix[i], e)
    ensures ok ==> Matched(prefix + added, Candidate(b1, b2, code, complement))
    ensures !ok ==> newCount == list.Length
  {
    var r;
    r, next, red := Simplified(poly, b1, b2, code, complement, tables, wait, randomJumps, rand, cursor);
    e := r;
    newCount, ok := Insert(list, count, r, prefix);
    if newCount == count + 1 {
      added, reds := [r], [red];
      EqualPolysReflexive(r);
      assert (prefix + added)[count] == r;
    } else {
      added, reds := [], [];
      assert prefix + added == prefix;
    }
  }

  /** A leaf of rec: the Hamming weight of the table; if it is target or
      64 - target, the leaf is kept. */
  method Leaf(table: bv64, code: int, target: int, wait: int, randomJumps: int,
              poly: Polynomial, b1: seq<bv8>, b2: seq<bv8>,
              list: array<seq<bv8>>, count: int, tables: Tables, ghost prefix: seq<seq<bv8>>,
              rand: nat -> nat, cursor: nat)
    returns (newCount: int, ok: bool, next: nat, ghost added: seq<seq<bv8>>, ghost codes: seq<int>,
             ghost reds: seq<Reduction>, ghost e: seq<bv8>, ghost red: Reduction)
    requires poly.Valid() && poly.BuffersReady() && TablesReady(tables) && Apart(poly, tables)
    requires SixVar(b1) && SixVar(b2) && 0 <= code < Pow2(21)
    requires 0 <= count <= list.Length && list[..count] == prefix && Stored(prefix) && Unshared(list, poly, tables)
    modifies poly, poly.poly, poly.profile, poly.Scratch(), list
    ensures poly.Valid() && poly.BuffersReady() && TablesReady(tables) && Apart(poly, tables) && poly.SameBuffers()
    ensures Unshared(list, poly, tables)
    ensures newCount == count + |added| <= list.Length && list[..newCount] == prefix + added
    ensures Stored(prefix + added) && NoneEqualBefore(prefix + added, count)
    ensures |codes| == |reds| == |added| && (codes == [] || codes == [code])
    ensures |codes| == 1 ==> var w := HammingWeightOf(table);
      && (w == target || w == 64 - target)
      && Reduces(Candidate(b1, b2, code, w == 64 - target), added[0], reds[0])
    ensures var w := HammingWeightOf(table); w != target && w != 64 - target ==> ok && added == []
    ensures var w := HammingWeightOf(table); w == target || w == 64 - target ==>
      && Reduces(Candidate(b1, b2, code, w == 64 - target), e, red)
      && (|codes| == 1 <==> ok && forall i | 0 <= i < count :: !EqualPolys(prefix[i], e))
      && (ok ==> Matched(prefix + added, Candidate(b1, b2, code, w == 64 - target)))
    ensures !ok ==> newCount == list.Length
  {
    var w := tables.HammingWeight(table);
    if w != target && w != 64 - target {
      assert prefix + [] == prefix;
      return count, true, cursor, [], [], [], [], Reduction([], [], []);
    }
    newCount, ok, next, added, reds, e, red := Keep(poly, b1, b2, code, w == 64 - target, list, count, tables,
                                                    prefix, wait, randomJumps, rand, cursor);
    codes := if |added| == 1 then [code] else [];
  }

  /** What a leaf on the path of code adds is Found. */
  lemma FoundAtLeaf(l: seq<seq<bv8>>, b1: seq<bv8>, b2: seq<bv8>, start: bv64, ts: seq<bv64>,
                    table: bv64, target: int, code: int, codes: seq<int>, reds: seq<Reduction>)
    requires 0 <= code < Pow2(21) && |ts| == 21 && table == PathTable(start, ts, code, 21)
    requires |l| == |reds| == |codes| && (codes == [] || codes == [code])
    requires |codes| == 1 ==> var w := HammingWeightOf(table);
      && (w == target || w == 64 - target)
      && Reduces(Candidate(b1, b2, code, w == 64 - target), l[0], reds[0])
    ensures Found(l, b1, b2, start, ts, target, codes, reds)
    ensures Increasing(codes) && Within(codes, code, code + 1)
  {
    if |codes| == 1 {
      assert FromLeaf(l[0], b1, b2, start, ts, target, code, reds[0]);
      assert l == [l[0]] && reds == [reds[0]];
      FoundOne(l[0], b1, b2, start, ts, target, code, reds[0]);
    }
  }

  lemma FoundOne(e: seq<bv8>, b1: seq<bv8>, b2: seq<bv8>, start: bv64, ts: seq<bv64>,
                 target: int, code: int, red: Reduction)
    requires |ts| == 21 && FromLeaf(e, b1, b2, start, ts, target, code, red)
    ensures Found([e], b1, b2, start, ts, target, [code], [red])
  {
    assert [e][0] == e && [code][0] == code && [red][0] == red;
  }

  /** A leaf that, when accepted, is matched in l is covered by l. */
  lemma CoveredAtLeaf(l: seq<seq<bv8>>, b1: seq<bv8>, b2: seq<bv8>, start: bv64, ts: seq<bv64>,
                      table: bv64, target: int, code: int)
    requires |ts| == 21 && 0 <= code < Pow2(21) && table == PathTable(start, ts, code, 21)
    requires var w := HammingWeightOf(table);
      w == target || w == 64 - target ==> Matched(l, Candidate(b1, b2, code, w == 64 - target))
    ensures Covered(l, b1, b2, start, ts, target, code, 21)
  {
  }

  /** rec at a leaf: the leaf, with what it adds read along the path. */
  method AtLeaf(table: bv64, code: int, target: int, wait: int, randomJumps: int,
                poly: Polynomial, b1: seq<bv8>, b2: seq<bv8>,
                list: array<seq<bv8>>, count: int, tables: Tables, ghost prefix: seq<seq<bv8>>,
                ghost start: bv64, ghost ts: seq<bv64>, rand: nat -> nat, cursor: nat)
    returns (newCount: int, ok: bool, next: nat, ghost added: seq<seq<bv8>>, ghost codes: seq<int>,
             ghost reds: seq<Reduction>)
    requires poly.Valid() && poly.BuffersReady() && TablesReady(tables) && Apart(poly, tables)
    requires SixVar(b1) && SixVar(b2)
    requires 0 <= code < Pow2(21) && |ts| == 21 && table == PathTable(start, ts, code, 21)
    requires 0 <= count <= list.Length && list[..count] == prefix && Stored(prefix) && Unshared(list, poly, tables)
    modifies poly, poly.poly, poly.profile, poly.Scratch(), list
    ensures poly.Valid() && poly.BuffersReady() && TablesReady(tables) && Apart(poly, tables) && poly.SameBuffers()
    ensures Unshared(list, poly, tables)
    ensures newCount == count + |added| <= list.Length && list[..newCount] == prefix + added
    ensures Adds(prefix, added, codes, reds, b1, b2, start, ts, target, code, 21)
    ensures ok ==> Covered(prefix + added, b1, b2, start, ts, target, code, 21)
    ensures !ok ==> newCount == list.Length
  {
    ghost var e, red;
    newCount, ok, next, added, codes, reds, e, red := Leaf(table, code, target, wait, randomJumps, poly, b1, b2,
                                                           list, count, tables, prefix, rand, cursor);
    FoundAtLeaf(added, b1, b2, start, ts, table, target, code, codes, reds);
    if ok {
      CoveredAtLeaf(prefix + added, b1, b2, start, ts, table, target, code);
    }
  }

  /** rec, at the node code of level lev of the tree of all choices of the
      21 basis terms, whose table is the start table xored with the terms
      chosen so far: a leaf (lev == 21) is tried as a candidate; an inner
      node visits its two children. The leaves under code are the codes
      [First(code, lev), First(code + 1, lev)), reached in ascending order. */
  method Rec(table: bv64, lev: int, code: int, target: int, wait: int, randomJumps: int,
             poly: Polynomial, b1: seq<bv8>, b2: seq<bv8>,
             list: array<seq<bv8>>, count: int, tables: Tables, ghost prefix: seq<seq<bv8>>,
             ghost start: bv64, ghost ts: seq<bv64>, rand: nat -> nat, cursor: nat)
    returns (newCount: int, ok: bool, next: nat, ghost added: seq<seq<bv8>>, ghost codes: seq<int>,
             ghost reds: seq<Reduction>)
    requires poly.Valid() && poly.BuffersReady() && TablesReady(tables) && Apart(poly, tables)
    requires SixVar(b1) && SixVar(b2) && ts == tables.secondOrderTable[..]
    requires 0 <= lev <= 21 && 0 <= code < Pow2(lev) && table == PathTable(start, ts, code, lev)
    requires 0 <= count <= list.Length && list[..count] == prefix && Stored(prefix) && Unshared(list, poly, tables)
    modifies poly, poly.poly, poly.profile, poly.Scratch(), list
    ensures poly.Valid() && poly.BuffersReady() && TablesReady(tables) && Apart(poly, tables) && poly.SameBuffers()
    ensures Unshared(list, poly, tables)
    ensures newCount == count + |added| <= list.Length && list[..newCount] == prefix + added
    ensures Adds(prefix, added, codes, reds, b1, b2, start, ts, target, code, lev)
    ensures ok ==> Covered(prefix + added, b1, b2, start, ts, target, code, lev)
    ensures !ok ==> newCount == list.Length
    decreases 21 - lev, 2
  {
    if lev == 21 {
      newCount, ok, next, added, codes, reds := AtLeaf(table, code, target, wait, randomJumps, poly, b1, b2,
                                                       list, count, tables, prefix, start, ts, rand, cursor);
    } else {
      newCount, ok, next, added, codes, reds := Node(table, lev, code, target, wait, randomJumps, poly, b1, b2,
                                                     list, count, tables, prefix, start, ts, rand, cursor);
    }
  }

  /** An inner node of rec: first the child that leaves basis term lev out
      (code shifted left, same table); then the child that puts it in. */
  method Node(table: bv64, lev: int, code: int, target: int, wait: int, randomJumps: int,
              poly: Polynomial, b1: seq<bv8>, b2: seq<bv8>,
              list: array<seq<bv8>>, count: int, tables: Tables, ghost prefix: seq<seq<bv8>>,
              ghost start: bv64, ghost ts: seq<bv64>, rand: nat -> nat, cursor: nat)
    returns (newCount: int, ok: bool, next: nat, ghost added: seq<seq<bv8>>, ghost codes: seq<int>,
             ghost reds: seq<Reduction>)
    requires poly.Valid() && poly.BuffersReady() && TablesReady(tables) && Apart(poly, tables)
    requires SixVar(b1) && SixVar(b2) && ts == tables.secondOrderTable[..]
    requires 0 <= lev < 21 && 0 <= code < Pow2(lev) && table == PathTable(start, ts, code, lev)
    requires 0 <= count <= list.Length && list[..count] == prefix && Stored(prefix) && Unshared(list, poly, tables)
    modifies poly, poly.poly, poly.profile, poly.Scratch(), list
    ensures poly.Valid() && poly.BuffersReady() && TablesReady(tables) && Apart(poly, tables) && poly.SameBuffers()
    ensures Unshared(list, poly, tables)
    ensures newCount == count + |added| <= list.Length && list[..newCount] == prefix + added
    ensures Adds(prefix, added, codes, reds, b1, b2, start, ts, target, code, lev)
    ensures ok ==> Covered(prefix + added, b1, b2, start, ts, target, code, lev)
    ensures !ok ==> newCount == list.Length
    decreases 21 - lev, 1
  {
    ExcludeStep(start, ts, code, lev);
    var c1, ok1, next1;
    ghost var added1, codes1, reds1;
    c1, ok1, next1, added1, codes1, reds1 := Rec(table, lev + 1, 2 * code, target, wait, randomJumps, poly,
                                                 b1, b2, list, count, tables, prefix, start, ts, rand, cursor);
    newCount, ok, next, added, codes, reds := Second(table, lev, code, target, wait, randomJumps, poly, b1, b2,
                                                     list, count, tables, prefix, start, ts, rand,
                                                     c1, ok1, next1, added1, codes1, reds1);
  }

  /** The table of the include child: the node's table xored with the
      table of basis term lev. */
  method Included(table: bv64, lev: int, tables: Tables, ghost start: bv64, ghost ts: seq<bv64>, ghost code: int)
    returns (included: bv64)
    requires 0 <= lev < tables.secondOrderTable.Length && ts == tables.secondOrderTable[..]
    requires 0 <= code && table == PathTable(start, ts, code, lev)
    ensures included == PathTable(start, ts, 2 * code + 1, lev + 1)
  {
    var t := tables.secondOrderTable[lev];
    included := table ^ t;
    IncludeChild(start, ts, code, lev, table, t, included);
  }

  /** The second child of an inner node of rec, once the first child has
      added added1 from the leaves codes1 and left c1 entries: the table
      xored with the table of basis term lev, code shifted left plus one.
      Nothing happens when the first child aborted (ok1 false). */
  method Second(table: bv64, lev: int, code: int, target: int, wait: int, randomJumps: int,
                poly: Polynomial, b1: seq<bv8>, b2: seq<bv8>,
                list: array<seq<bv8>>, count: int, tables: Tables, ghost prefix: seq<seq<bv8>>,
                ghost start: bv64, ghost ts: seq<bv64>, rand: nat -> nat,
                c1: int, ok1: bool, cursor: nat, ghost added1: seq<seq<bv8>>, ghost codes1: seq<int>,
                ghost reds1: seq<Reduction>)
    returns (newCount: int, ok: bool, next: nat, ghost added: seq<seq<bv8>>, ghost codes: seq<int>,
             ghost reds: seq<Reduction>)
    requires poly.Valid() && poly.BuffersReady() && TablesReady(tables) && Apart(poly, tables)
    requires SixVar(b1) && SixVar(b2) && ts == tables.secondOrderTable[..]
    requires 0 <= lev < 21 && 0 <= code < Pow2(lev) && table == PathTable(start, ts, code, lev)
    requires 0 <= count <= c1 <= list.Length && list[..c1] == prefix + added1 && c1 == count + |added1|
    requires Unshared(list, poly, tables)
    requires Adds(prefix, added1, codes1, reds1, b1, b2, start, ts, target, 2 * code, lev + 1)
    requires ok1 ==> Covered(prefix + added1, b1, b2, start, ts, target, 2 * code, lev + 1)
    requires !ok1 ==> c1 == list.Length
    modifies poly, poly.poly, poly.profile, poly.Scratch(), list
    ensures poly.Valid() && poly.BuffersReady() && TablesReady(tables) && Apart(poly, tables) && poly.SameBuffers()
    ensures Unshared(list, poly, tables)
    ensures newCount == count + |added| <= list.Length && list[..newCount] == prefix + added
    ensures Adds(prefix, added, codes, reds, b1, b2, start, ts, target, code, lev)
    ensures ok ==> Covered(prefix + added, b1, b2, start, ts, target, code, lev)
    ensures !ok ==> newCount == list.Length
    decreases 21 - lev, 0
  {
    if !ok1 {
      AddsWiden(prefix, added1, codes1, reds1, b1, b2, start, ts, target, code, lev);
      return c1, false, cursor, added1, codes1, reds1;
    }
    var included := Included(table, lev, tables, start, ts, code);
    var c2, ok2, next2;
    ghost var added2, codes2, reds2;
    c2, ok2, next2, added2, codes2, reds2 := Rec(included, lev + 1, 2 * code + 1,
                                                 target, wait, randomJumps, poly, b1, b2, list, c1, tables,
                                                 prefix + added1, start, ts, rand, cursor);
    AddsJoin(prefix, added1, added2, codes1, codes2, reds1, reds2, b1, b2, start, ts, target, code, lev);
    if ok2 {
      CoveredNode(prefix, added1, added2, b1, b2, start, ts, target, code, lev);
    }
    return c2, ok2, next2, added1 + added2, codes1 + codes2, reds1 + reds2;
  }

  /** The polynomial list is none of the tables and neither base. */
  ghost predicate OwnList(list: array<seq<bv8>>, tables: Tables, base1: Polynomial, base2: Polynomial)
    reads base1, base2
  {
    var l: object, m: object, t: object, o: object := list, tables.secondOrderMonomials, tables.secondOrderTable, tables.oneBit;
    var p1: object, p2: object := base1.poly, base2.poly;
    l !in {m, t, o, base1, base2, p1, p2}
  }

  /** The working polynomial of generate_poly_list: Polynomial poly,
      buffers[3] and poly.set_buffers(buffers). */
  method Working() returns (poly: Polynomial)
    ensures poly.Valid() && poly.BuffersReady()
    ensures fresh(poly) && fresh(poly.poly) && fresh(poly.profile) && fresh(poly.Scratch())
  {
    poly := new Polynomial();
    var r := new Polynomial();
    var b := new Polynomial();
    var s := new Polynomial();
    poly.SetBuffers(r, b, s);
  }

  /** The leaves under the root are all the codes of 21 bits. */
  lemma RootRange()
    ensures First(0, 0) == 0 && First(1, 0) == Pow2(21)
  {
    FirstIsShift(0, 0);
    FirstIsShift(1, 0);
  }

  /** At the root nothing is chosen yet: the table is the starting one. */
  lemma RootTable(start: bv64, ts: seq<bv64>)
    ensures PathTable(start, ts, 0, 0) == start
  {
  }

  /** A covered root is complete for all the codes of 21 bits. */
  lemma RootComplete(l: seq<seq<bv8>>, b1: seq<bv8>, b2: seq<bv8>, start: bv64, ts: seq<bv64>, target: int)
    requires |ts| == 21 && Covered(l, b1, b2, start, ts, target, 0, 0)
    ensures Complete(l, b1, b2, start, ts, target, 0, Pow2(21))
  {
    CoveredComplete(l, b1, b2, start, ts, target, 0, 0);
    RootRange();
  }

  /** rec from the root: start is the table of the root and 0 its code. */
  method FromRoot(start: bv64, target: int, wait: int, randomJumps: int, poly: Polynomial, b1: seq<bv8>, b2: seq<bv8>,
                  list: array<seq<bv8>>, count: int, tables: Tables, rand: nat -> nat, cursor: nat)
    returns (newCount: int, ok: bool, next: nat, ghost added: seq<seq<bv8>>, ghost codes: seq<int>,
             ghost reds: seq<Reduction>)
    requires poly.Valid() && poly.BuffersReady() && TablesReady(tables) && Apart(poly, tables)
    requires SixVar(b1) && SixVar(b2)
    requires 0 <= count <= list.Length && Stored(list[..count]) && Unshared(list, poly, tables)
    modifies poly, poly.poly, poly.profile, poly.Scratch(), list
    ensures newCount == count + |added| <= list.Length && list[..newCount] == old(list[..count]) + added
    ensures Stored(list[..newCount]) && NoneEqualBefore(list[..newCount], count)
    ensures Found(added, b1, b2, start, tables.secondOrderTable[..], target, codes, reds)
    ensures Increasing(codes) && Within(codes, 0, Pow2(21))
    ensures ok ==> Complete(list[..newCount], b1, b2, start, tables.secondOrderTable[..], target, 0, Pow2(21))
    ensures !ok ==> newCount == list.Length
  {
    ghost var ts := tables.secondOrderTable[..];
    RootTable(start, ts);
    newCount, ok, next, added, codes, reds := Rec(start, 0, 0, target, wait, randomJumps, poly, b1, b2,
                                                  list, count, tables, list[..count], start, ts, rand, cursor);
    RootRange();
    if ok {
      RootComplete(list[..newCount], b1, b2, start, ts, target);
    }
  }

  /** The starting table of generate_poly_list, the xor of the truth tables
      of the two bases, and the target weight of the added part. */
  method BaseTables(base1: Polynomial, base2: Polynomial, weight: int, tables: Tables)
    returns (table: bv64, target: int, ghost t1: bv64, ghost t2: bv64)
    requires base1.Valid() && base2.Valid() && tables.OneBitReady()
    ensures IsTruthOf(t1, base1.Terms()) && IsTruthOf(t2, base2.Terms())
    ensures table == t1 ^ t2 && target == weight - HammingWeightOf(t1) - HammingWeightOf(t2)
  {
    var a1 := base1.TruthTable();
    var a2 := base2.TruthTable();
    t1, t2 := a1, a2;
    var w1 := tables.HammingWeight(a1);
    var w2 := tables.HammingWeight(a2);
    table, target := a1 ^ a2, weight - w1 - w2;
  }

  /** What one call of generate_poly_list did for a pair of bases: the truth
      tables of the bases, the leaf table and weight it searched for, the
      polynomials it added with their leaf codes and reductions. */
  datatype PairRun = PairRun(t1: bv64, t2: bv64, start: bv64, target: int,
                             added: seq<seq<bv8>>, codes: seq<int>, reds: seq<Reduction>)

  /** run is a search for the pair (b1, b2) appended to the list before: t1
      and t2 are the truth tables of b1 and b2, every added polynomial is a
      reduced accepted leaf of the pair, in increasing leaf order, and when
      the search was not cut short every accepted leaf is matched in the list
      after it. */
  ghost predicate Ran(run: PairRun, b1: seq<bv8>, b2: seq<bv8>, weight: int, ts: seq<bv64>,
                      before: seq<seq<bv8>>, complete: bool)
  {
    && IsTruthOf(run.t1, b1) && IsTruthOf(run.t2, b2)
    && run.start == run.t1 ^ run.t2
    && run.target == weight - HammingWeightOf(run.t1) - HammingWeightOf(run.t2)
    && Found(run.added, b1, b2, run.start, ts, run.target, run.codes, run.reds)
    && Increasing(run.codes) && Within(run.codes, 0, Pow2(21))
    && (complete ==> Complete(before + run.added, b1, b2, run.start, ts, run.target, 0, Pow2(21)))
  }

  /** Ran from its parts. */
  lemma RanOf(t1: bv64, t2: bv64, start: bv64, target: int, added: seq<seq<bv8>>, codes: seq<int>,
              reds: seq<Reduction>, b1: seq<bv8>, b2: seq<bv8>, weight: int, ts: seq<bv64>,
              before: seq<seq<bv8>>, after: seq<seq<bv8>>, complete: bool)
    returns (run: PairRun)
    requires after == before + added
    requires IsTruthOf(t1, b1) && IsTruthOf(t2, b2)
    requires start == t1 ^ t2 && target == weight - HammingWeightOf(t1) - HammingWeightOf(t2)
    requires Found(added, b1, b2, start, ts, target, codes, reds)
    requires Increasing(codes) && Within(codes, 0, Pow2(21))
    requires complete ==> Complete(after, b1, b2, start, ts, target, 0, Pow2(21))
    ensures run == PairRun(t1, t2, start, target, added, codes, reds)
    ensures Ran(run, b1, b2, weight, ts, before, complete)
  {
    run := PairRun(t1, t2, start, target, added, codes, reds);
  }

  /** generate_poly_list: a working polynomial with three fresh scratch
      polynomials, the target weight of the added part (weight less the
      weights of the two bases), and rec from the root, whose table is the
      xor of the two base tables and whose code is 0. Every leaf code
      0 .. 2^21 - 1 lies under the root. The list keeps what it held and
      gains the entries added. */
  method GeneratePolyList(base1: Polynomial, base2: Polynomial, weight: int, list: array<seq<bv8>>, count: int,
                          tables: Tables, wait: int, randomJumps: int, rand: nat -> nat, cursor: nat)
    returns (newCount: int, ok: bool, next: nat, ghost run: PairRun)
    requires base1.Valid() && base2.Valid() && TablesReady(tables)
    requires SixVar(base1.Terms()) && SixVar(base2.Terms())
    requires 0 <= count <= list.Length && Stored(list[..count]) && OwnList(list, tables, base1, base2)
    modifies list
    ensures base1.Terms() == old(base1.Terms()) && base2.Terms() == old(base2.Terms())
    ensures newCount == count + |run.added| <= list.Length && list[..newCount] == old(list[..count]) + run.added
    ensures Stored(list[..newCount]) && NoneEqualBefore(list[..newCount], count)
    ensures Ran(run, base1.Terms(), base2.Terms(), weight, tables.secondOrderTable[..], old(list[..count]), ok)
    ensures !ok ==> newCount == list.Length
  {
    var poly := Working();
    var table, goal;
    ghost var t1, t2;
    table, goal, t1, t2 := BaseTables(base1, base2, weight, tables);
    var b1 := base1.poly[..base1.numTerms];
    var b2 := base2.poly[..base2.numTerms];
    assert b1 == base1.Terms() && b2 == base2.Terms();
    newCount, ok, next, run := Search(table, goal, wait, randomJumps, poly, b1, b2, list, count, tables, rand, cursor,
                                      t1, t2, weight);
  }

  /** The search of generate_poly_list once the leaf table and the weight to
      reach are known: rec from the root, and what it did as a run. */
  method Search(start: bv64, target: int, wait: int, randomJumps: int, poly: Polynomial, b1: seq<bv8>, b2: seq<bv8>,
                list: array<seq<bv8>>, count: int, tables: Tables, rand: nat -> nat, cursor: nat,
                ghost t1: bv64, ghost t2: bv64, ghost weight: int)
    returns (newCount: int, ok: bool, next: nat, ghost run: PairRun)
    requires poly.Valid() && poly.BuffersReady() && TablesReady(tables) && Apart(poly, tables)
    requires SixVar(b1) && SixVar(b2)
    requires 0 <= count <= list.Length && Stored(list[..count]) && Unshared(list, poly, tables)
    requires IsTruthOf(t1, b1) && IsTruthOf(t2, b2)
    requires start == t1 ^ t2 && target == weight - HammingWeightOf(t1) - HammingWeightOf(t2)
    modifies poly, poly.poly, poly.profile, poly.Scratch(), list
    ensures newCount == count + |run.added| <= list.Length && list[..newCount] == old(list[..count]) + run.added
    ensures Stored(list[..newCount]) && NoneEqualBefore(list[..newCount], count)
    ensures Ran(run, b1, b2, weight, tables.secondOrderTable[..], old(list[..count]), ok)
    ensures !ok ==> newCount == list.Length
  {
    ghost var added, codes, reds;
    newCount, ok, next, added, codes, reds := FromRoot(start, target, wait, randomJumps, poly, b1, b2,
                                                       list, count, tables, rand, cursor);
    run := RanOf(t1, t2, start, target, added, codes, reds, b1, b2, weight, tables.secondOrderTable[..],
                 old(list[..count]), list[..newCount], ok);
  }
}
