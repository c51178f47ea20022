/** The Polynomial class: a polynomial over GF(2) in eight variables, stored as
    a list of distinct nonconstant monomials in a 265-entry array, with the
    three scratch polynomials (replica, buffer, second replica) its
    simplification works through. */
module Poly {
  import opened Bits
  import opened Truth
  import opened TermSets
  import opened Canon
  import opened Equivalence

  /** The size of the term array. */
  const Capacity := 265

  class Polynomial {
    /** The monomials; only the first numTerms entries are terms. */
    const poly: array<bv8>
    var numTerms: int
    /** The number of terms each variable occurs in, as last computed. */
    const profile: array<int>
    /** The scratch polynomials set by set_buffers; null once cleared. */
    var replica: Polynomial?
    var buffer: Polynomial?
    var secondReplica: Polynomial?

    /** The storage is in place and the term count fits it. */
    ghost predicate Valid()
      reads this
    {
      poly.Length == Capacity && profile.Length == 8 && 0 <= numTerms <= Capacity
    }

    /** The terms, in storage order. */
    ghost function Terms(): seq<bv8>
      reads this, poly
      requires Valid()
    {
      poly[..numTerms]
    }

    /** The three scratch polynomials are set and share no storage with each
        other or with this polynomial. */
    ghost predicate Separate()
      reads this
    {
      replica != null && buffer != null && secondReplica != null
      && this != replica && this != buffer && this != secondReplica
      && replica != buffer && replica != secondReplica && buffer != secondReplica
      && poly != replica.poly && poly != buffer.poly && poly != secondReplica.poly
      && replica.poly != buffer.poly && replica.poly != secondReplica.poly
      && buffer.poly != secondReplica.poly
      && profile != replica.profile && profile != buffer.profile && profile != secondReplica.profile
    }

    /** The scratch polynomials and their term arrays, when they are set. */
    ghost function Scratch(): set<object>
      reads this
    {
      if Separate() then {replica, replica.poly, buffer, buffer.poly, secondReplica, secondReplica.poly} else {}
    }

    /** The scratch polynomials are set, separate and valid. */
    ghost predicate BuffersReady()
      reads this, replica, buffer, secondReplica
    {
      Separate() && replica.Valid() && buffer.Valid() && secondReplica.Valid()
    }

    /** The constructor sets num_terms = 0. The scratch pointers, which the
        source leaves uninitialised, start out null. */
    constructor ()
      ensures Valid() && Terms() == []
      ensures fresh(poly) && fresh(profile)
      ensures replica == null && buffer == null && secondReplica == null
    {
      poly := new bv8[Capacity];
      profile := new int[8];
      numTerms := 0;
      replica := null;
      buffer := null;
      secondReplica := null;
    }

    /** clear: no terms and no scratch polynomials. */
    method Clear()
      requires Valid()
      modifies this
      ensures Valid() && Terms() == []
      ensures replica == null && buffer == null && secondReplica == null
    {
      numTerms := 0;
      replica := null;
      buffer := null;
      secondReplica := null;
    }

    /** set_buffers: the three scratch polynomials, in the order replica,
        buffer, second replica. */
    method SetBuffers(r: Polynomial, b: Polynomial, s: Polynomial)
      modifies this
      ensures replica == r && buffer == b && secondReplica == s
      ensures numTerms == old(numTerms)
    {
      replica := r;
      buffer := b;
      secondReplica := s;
    }

    /** add_term: appends t; the caller must leave room for it. */
    method AddTerm(t: bv8)
      requires Valid() && numTerms < Capacity
      modifies this, poly
      ensures Valid() && Terms() == old(Terms()) + [t]
      ensures replica == old(replica) && buffer == old(buffer) && secondReplica == old(secondReplica)
    {
      poly[numTerms] := t;
      numTerms := numTerms + 1;
    }

    /** operator=: copies the term count and the terms of p, nothing else. */
    method Assign(p: Polynomial)
      requires Valid() && p.Valid()
      modifies this, poly
      ensures Valid() && Terms() == old(p.Terms())
      ensures replica == old(replica) && buffer == old(buffer) && secondReplica == old(secondReplica)
      ensures p.poly == poly || p.poly[..] == old(p.poly[..])
    {
      ghost var src := p.poly[..];
      numTerms := p.numTerms;
      var i := 0;
      while i < numTerms
        invariant 0 <= i <= numTerms == old(p.numTerms)
        invariant p.poly == poly || p.poly[..] == src
        invariant forall k | 0 <= k < i :: poly[k] == src[k]
        invariant forall k | i <= k < Capacity :: p.poly[k] == src[k]
        invariant replica == old(replica) && buffer == old(buffer) && secondReplica == old(secondReplica)
      {
        poly[i] := p.poly[i];
        i := i + 1;
      }
      assert Terms() == src[..old(p.numTerms)];
    }

    /** operator= from a stored entry: copies the term count and the terms
        of s, nothing else. */
    method Load(s: seq<bv8>)
      requires Valid() && |s| <= Capacity
      modifies this, poly
      ensures Valid() && Terms() == s
      ensures replica == old(replica) && buffer == old(buffer) && secondReplica == old(secondReplica)
    {
      numTerms := |s|;
      var i := 0;
      while i < |s|
        invariant 0 <= i <= |s| == numTerms
        invariant poly[..i] == s[..i]
        invariant replica == old(replica) && buffer == old(buffer) && secondReplica == old(secondReplica)
      {
        poly[i] := s[i];
        i := i + 1;
      }
    }

    /** truth_table: the exclusive or of the truth tables of the terms, that
        is, the value of the polynomial at every point of the six-variable cube. */
    method TruthTable() returns (a: bv64)
      requires Valid()
      ensures forall j: Cell :: At(a, j) == Eval(Terms(), j)
    {
      a := 0;
      var i := 0;
      while i < numTerms
        invariant 0 <= i <= numTerms
        invariant forall j: Cell :: At(a, j) == Eval(poly[..i], j)
      {
        var t := MonomialTruth(poly[i]);
        var next := a ^ t;
        assert poly[..i + 1][..i] == poly[..i];
        forall j: Cell
          ensures At(next, j) == Eval(poly[..i + 1], j)
        {
          XorAt(a, t, j);
        }
        a := next;
        i := i + 1;
      }
      assert poly[..i] == Terms();
    }
  
    /** profile_maker: profile[j] becomes the number of terms containing x_j. */
    method ProfileMaker()
      requires Valid()
      modifies profile
      ensures profile[..] == ProfileOf(Terms())
    {
      var i := 0;
      while i < 8
        invariant 0 <= i <= 8
        invariant forall k | 0 <= k < i :: profile[k] == 0
      {
        profile[i] := 0;
        i := i + 1;
      }
      i := 0;
      while i < numTerms
        invariant 0 <= i <= numTerms
        invariant forall k | 0 <= k < 8 :: profile[k] == Occ(poly[..i], V(k))
      {
        AddBits(poly[i]);
        assert poly[..i + 1][..i] == poly[..i];
        i := i + 1;
      }
      forall k | 0 <= k < 8
        ensures profile[k] == ProfileOf(Terms())[k]
      {
        ProfileAt(Terms(), k);
      }
    }
  
    /** The inner loop of profile_maker: adds the bits of one term, lowest
        first, shifting the term right after each. */
    method AddBits(x: bv8)
      requires profile.Length == 8
      modifies profile
      ensures forall k | 0 <= k < 8 :: profile[k] == old(profile[k]) + Bit(x, V(k))
    {
      var c := x;
      var j := 0;
      while j < 8
        invariant 0 <= j <= 8
        invariant c == Shifted(x, j)
        invariant forall k | 0 <= k < j :: profile[k] == old(profile[k]) + Bit(x, V(k))
        invariant forall k | j <= k < 8 :: profile[k] == old(profile[k])
      {
        LowBit(x, j);
        ShiftedStep(x, j);
        profile[j] := profile[j] + (c & 1) as int;
        c := c >> 1;
        j := j + 1;
      }
    }
  
    // -------------------------------------------------------------------
    // mix_buffer_to_replica

    /** The matching loop mix_buffer_to_replica runs in both passes: every
        buffer entry from index from on that equals x becomes 0, and flag,
        starting true, flips at each match, so it ends true iff the number of
        matches is even. */
    method CancelInBuffer(x: bv8, from: int) returns (flag: bool)
      requires buffer != null && buffer.Valid() && 0 <= from <= buffer.numTerms
      modifies buffer.poly
      ensures buffer.Terms() == Cancel(old(buffer.Terms()), x, from)
      ensures flag == (Count(old(buffer.Terms())[from..], x) % 2 == 0)
    {
      var a := buffer.poly;
      var n := buffer.numTerms;
      ghost var b := a[..n];
      ghost var c := 0;
      flag := true;
      var j := from;
      while j < n
        invariant from <= j <= n
        invariant forall k | 0 <= k < n :: a[k] == (if from <= k < j && b[k] == x then 0 else b[k])
        invariant c == Count(b[from..j], x) && flag == (c % 2 == 0)
      {
        CountSlice(b, from, j, x);
        if a[j] == x {
          a[j] := 0;
          flag := !flag;
          c := c + 1;
        }
        j := j + 1;
      }
      assert b[from..j] == b[from..];
      assert a[..n] == Cancel(b, x, from);
    }

    /** The first pass of mix_buffer_to_replica: each self term goes to
        replica iff the buffer holds it an even number of times, and those
        buffer entries become 0. */
    method MixSelf()
      requires Valid() && BuffersReady() && Proper(Terms()) && replica.numTerms == 0
      modifies replica, replica.poly, buffer.poly
      ensures BuffersReady()
      ensures replica.Terms() == KeepEven(Terms(), old(buffer.Terms()))
      ensures buffer.Terms() == FirstState(old(buffer.Terms()), Terms())
    {
      ghost var p := Terms();
      ghost var b := buffer.Terms();
      assert FirstState(b, p[..0]) == b;
      var i := 0;
      while i < numTerms
        invariant 0 <= i <= numTerms
        invariant replica.Valid()
        invariant replica.Terms() == KeepEven(p[..i], b)
        invariant buffer.Terms() == FirstState(b, p[..i])
      {
        assert p[..i + 1][..i] == p[..i];
        FirstStep(b, p, i);
        var flag := CancelInBuffer(poly[i], 0);
        KeepEvenLength(p[..i], b);
        if flag {
          replica.AddTerm(poly[i]);
        }
        i := i + 1;
      }
      assert p[..i] == p;
    }

    /** The second pass of mix_buffer_to_replica: each surviving buffer entry
        goes to replica once iff its value occurs an odd number of times in the
        buffer, and the whole buffer becomes 0. */
    method MixBuffer(ghost p: seq<bv8>, ghost b: seq<bv8>)
      requires Separate() && replica.Valid() && buffer.Valid()
      requires Proper(p) && |b| == buffer.numTerms
      requires replica.Terms() == KeepEven(p, b)
      requires buffer.Terms() == SecondState(b, p, 0)
      modifies replica, replica.poly, buffer.poly
      ensures replica.Valid() && replica.Terms() == MixSeq(p, b)
      ensures buffer.Terms() == SecondState(b, p, |b|)
    {
      var i := 0;
      while i < buffer.numTerms
        invariant SecondPass(p, b, i)
      {
        SecondPassStep(p, b, i);
        i := i + 1;
      }
    }

    /** The state of the second pass before buffer index i. */
    ghost predicate SecondPass(p: seq<bv8>, b: seq<bv8>, i: int)
      reads this, Scratch()
    {
      Separate() && replica.Valid() && buffer.Valid()
      && Proper(p) && |b| == buffer.numTerms && 0 <= i <= |b|
      && replica.Terms() == KeepEven(p, b) + OddFirsts(b, p, i)
      && buffer.Terms() == SecondState(b, p, i)
    }

    /** One iteration of the second pass, at buffer index i. */
    method SecondPassStep(ghost p: seq<bv8>, ghost b: seq<bv8>, i: int)
      requires SecondPass(p, b, i) && i < |b|
      modifies replica, replica.poly, buffer.poly
      ensures SecondPass(p, b, i + 1)
    {
      if buffer.poly[i] != 0 {
        SecondPassLive(p, b, i);
      } else {
        SecondSkip(b, p, i);
      }
    }

    /** The second pass at a surviving entry x: cancel the later copies of x,
        add x to replica if their number is even, and zero the entry. */
    method SecondPassLive(ghost p: seq<bv8>, ghost b: seq<bv8>, i: int)
      requires SecondPass(p, b, i) && i < |b| && buffer.poly[i] != 0
      modifies replica, replica.poly, buffer.poly
      ensures SecondPass(p, b, i + 1)
    {
      SecondStep(b, p, i);
      var flag := CancelInBuffer(buffer.poly[i], i + 1);
      if flag {
        MixPrefixProper(p, b, i + 1);
        ProperBound(KeepEven(p, b) + OddFirsts(b, p, i + 1));
        replica.AddTerm(buffer.poly[i]);
      }
      buffer.poly[i] := 0;
    }

    /** mix_buffer_to_replica: replica receives the self terms the buffer
        holds an even number of times, then the nonzero buffer values it holds
        an odd number of times that are not self terms, each once; the buffer
        ends all zero. */
    method MixBufferToReplica()
      requires Valid() && BuffersReady() && Proper(Terms())
      modifies replica, replica.poly, buffer.poly
      ensures BuffersReady()
      ensures replica.Terms() == MixSeq(Terms(), old(buffer.Terms()))
      ensures Elems(replica.Terms()) == SymDiff(Elems(Terms()), OddNZ(old(buffer.Terms())))
      ensures Proper(replica.Terms())
      ensures buffer.Terms() == Zeros(buffer.numTerms)
    {
      ghost var b := buffer.Terms();
      replica.numTerms := 0;
      MixSelf();
      FirstDone(b, Terms());
      MixBuffer(Terms(), b);
      SecondDone(b, Terms());
      MixSeqElems(Terms(), b);
      MixSeqProper(Terms(), b);
    }
  
    // -------------------------------------------------------------------
    // plus_one and transposition

    /** The loop plus_one and transposition share: the buffer receives the
        image of every term containing the substituted variable, in order. */
    method FillBuffer(m: Move)
      requires Valid() && BuffersReady()
      modifies buffer, buffer.poly
      ensures BuffersReady()
      ensures buffer.Terms() == BufferOf(Terms(), m)
    {
      buffer.numTerms := 0;
      var i := 0;
      while i < numTerms
        invariant 0 <= i <= numTerms
        invariant buffer.Valid() && buffer.Terms() == BufferOf(poly[..i], m)
      {
        assert poly[..i + 1][..i] == poly[..i];
        BufferLength(poly[..i], m);
        if poly[i] & Mask(Src(m)) != 0 {
          buffer.AddTerm(Image(poly[i], m));
        }
        i := i + 1;
      }
      assert poly[..i] == Terms();
    }

    /** plus_one(v): the buffer receives every term containing x_v with x_v
        removed, and replica the sum modulo 2 of self and buffer without the
        constant term, which is the polynomial with x_v + 1 for x_v. */
    method PlusOne(v: int)
      requires Valid() && BuffersReady() && Proper(Terms()) && 0 <= v < 8
      modifies buffer, buffer.poly, replica, replica.poly
      ensures BuffersReady()
      ensures replica.Terms() == MoveSeq(Terms(), Flip(V(v)))
      ensures Elems(replica.Terms()) == MoveSet(Elems(Terms()), Flip(V(v)))
      ensures Proper(replica.Terms())
      ensures buffer.Terms() == Zeros(|BufferOf(Terms(), Flip(V(v)))|)
    {
      FillBuffer(Flip(V(v)));
      MixBufferToReplica();
      MoveSeqMeaning(Terms(), Flip(V(v)));
    }

    /** transposition(s, t): the same with (term ^ bit s) | bit t, which is
        the polynomial with x_s + x_t for x_s. */
    method Transposition(s: int, t: int)
      requires Valid() && BuffersReady() && Proper(Terms()) && 0 <= s < 8 && 0 <= t < 8
      modifies buffer, buffer.poly, replica, replica.poly
      ensures BuffersReady()
      ensures replica.Terms() == MoveSeq(Terms(), Transvect(V(s), V(t)))
      ensures Elems(replica.Terms()) == MoveSet(Elems(Terms()), Transvect(V(s), V(t)))
      ensures Proper(replica.Terms())
      ensures buffer.Terms() == Zeros(|BufferOf(Terms(), Transvect(V(s), V(t)))|)
    {
      FillBuffer(Transvect(V(s), V(t)));
      MixBufferToReplica();
      MoveSeqMeaning(Terms(), Transvect(V(s), V(t)));
    }
  
    // -------------------------------------------------------------------
    // Greedy minimisation

    /** The scratch pointers are those of the old state. */
    twostate predicate SameBuffers()
      reads this
    {
      replica == old(replica) && buffer == old(buffer) && secondReplica == old(secondReplica)
    }

    /** The acceptance test of plus_ones and transpositions: if replica has
        fewer terms, copy it into this polynomial. */
    method KeepIfShorter() returns (accepted: bool)
      requires Valid() && BuffersReady()
      modifies this, poly
      ensures SameBuffers() && Valid() && BuffersReady()
      ensures accepted <==> replica.numTerms < old(numTerms)
      ensures Terms() == if accepted then replica.Terms() else old(Terms())
    {
      if replica.numTerms < numTerms {
        Assign(replica);
        accepted := true;
      } else {
        accepted := false;
      }
    }

    /** One attempt of plus_ones or transpositions: perform the move and
        keep the result when it has fewer terms. */
    method TryMove(m: Move) returns (accepted: bool)
      requires Valid() && BuffersReady() && Proper(Terms()) && ValidMove(m)
      modifies this, poly, buffer, buffer.poly, replica, replica.poly
      ensures SameBuffers() && Valid() && BuffersReady() && Proper(Terms())
      ensures accepted <==> numTerms < old(numTerms)
      ensures accepted <==> Lowers(old(Elems(Terms())), m)
      ensures !accepted ==> numTerms == old(numTerms) && Terms() == old(Terms())
      ensures Elems(Terms()) == if accepted then MoveSet(old(Elems(Terms())), m) else old(Elems(Terms()))
    {
      ghost var S := Elems(Terms());
      DistinctCard(Terms());
      match m {
        case Flip(v) =>
          VOf(v);
          PlusOne(v as int);
        case Transvect(s, t) =>
          VOf(s);
          VOf(t);
          Transposition(s as int, t as int);
      }
      ghost var R := replica.Terms();
      assert Elems(R) == MoveSet(S, m);
      DistinctCard(R);
      accepted := KeepIfShorter();
      assert accepted ==> Terms() == R;
    }

    /** plus_ones: tries plus_one on every variable in turn, and keeps the
        result whenever it has fewer terms than the current polynomial.
        Returns true iff the term count went down; ms are the moves kept,
        each of which lowered the count. When nothing was kept, no plus_one
        lowers the count of the polynomial. */
    method PlusOnes() returns (flag: bool, ghost ms: seq<Move>)
      requires Valid() && BuffersReady() && Proper(Terms())
      modifies this, poly, buffer, buffer.poly, replica, replica.poly
      ensures SameBuffers() && Valid() && BuffersReady() && Proper(Terms())
      ensures flag <==> numTerms < old(numTerms)
      ensures flag <==> |ms| > 0
      ensures numTerms <= old(numTerms)
      ensures ValidMoves(ms) && Elems(Terms()) == ApplyMoves(old(Elems(Terms())), ms)
      ensures Descending(old(Elems(Terms())), ms)
      ensures !flag ==> Terms() == old(Terms()) && FlipMinimal(Elems(Terms()))
    {
      ghost var S := Elems(Terms());
      flag := false;
      ms := [];
      var v := 0;
      while v < 8
        invariant 0 <= v <= 8
        invariant SameBuffers() && Valid() && BuffersReady() && Proper(Terms())
        invariant flag <==> numTerms < old(numTerms)
        invariant flag <==> |ms| > 0
        invariant numTerms <= old(numTerms)
        invariant ValidMoves(ms) && Elems(Terms()) == ApplyMoves(S, ms)
        invariant Descending(S, ms)
        invariant !flag ==> Terms() == old(Terms()) && Elems(old(Terms())) == S && NoFlipBelow(S, v)
      {
        flag, ms := PlusOneStep(v, S, old(Terms()), old(numTerms), flag, ms);
        v := v + 1;
      }
      if !flag {
        NoFlipAll(S);
      }
    }

    /** One plus_one of the sweep, on variable v: kept when shorter. flag0
        and ms0 are what the sweep has kept so far, from the term set S (the
        sequence T0, of n0 terms). */
    method PlusOneStep(v: int, ghost S: set<bv8>, ghost T0: seq<bv8>, ghost n0: int, flag0: bool,
                       ghost ms0: seq<Move>)
      returns (flag: bool, ghost ms: seq<Move>)
      requires 0 <= v < 8 && Valid() && BuffersReady() && Proper(Terms())
      requires (flag0 <==> numTerms < n0) && (flag0 <==> |ms0| > 0) && numTerms <= n0
      requires ValidMoves(ms0) && Elems(Terms()) == ApplyMoves(S, ms0) && Descending(S, ms0)
      requires !flag0 ==> Terms() == T0 && Elems(T0) == S && NoFlipBelow(S, v)
      modifies this, poly, buffer, buffer.poly, replica, replica.poly
      ensures SameBuffers() && Valid() && BuffersReady() && Proper(Terms())
      ensures (flag <==> numTerms < n0) && (flag <==> |ms| > 0) && numTerms <= n0
      ensures ValidMoves(ms) && Elems(Terms()) == ApplyMoves(S, ms) && Descending(S, ms)
      ensures !flag ==> Terms() == T0 && NoFlipBelow(S, v + 1)
    {
      flag, ms := flag0, ms0;
      var m := Flip(V(v));
      var accepted := TryMove(m);
      if !accepted && !flag {
        NoFlipNext(S, v);
      }
      if accepted {
        DescendingSnoc(S, ms, m);
        ApplyMovesSnoc(S, ms, m);
        flag := true;
        ms := ms + [m];
      }
    }

    /** transpositions: tries transposition on every ordered pair of distinct
        variables, keeping each result that has fewer terms. When nothing was
        kept, no transposition lowers the count of the polynomial. */
    method Transpositions() returns (flag: bool, ghost ms: seq<Move>)
      requires Valid() && BuffersReady() && Proper(Terms())
      modifies this, poly, buffer, buffer.poly, replica, replica.poly
      ensures SameBuffers() && Valid() && BuffersReady() && Proper(Terms())
      ensures flag <==> numTerms < old(numTerms)
      ensures flag <==> |ms| > 0
      ensures numTerms <= old(numTerms)
      ensures ValidMoves(ms) && Elems(Terms()) == ApplyMoves(old(Elems(Terms())), ms)
      ensures Descending(old(Elems(Terms())), ms)
      ensures !flag ==> Terms() == old(Terms()) && TransvectMinimal(Elems(Terms()))
    {
      ghost var S := Elems(Terms());
      flag := false;
      ms := [];
      var s := 0;
      while s < 8
        invariant 0 <= s <= 8
        invariant SameBuffers() && Valid() && BuffersReady() && Proper(Terms())
        invariant flag <==> numTerms < old(numTerms)
        invariant flag <==> |ms| > 0
        invariant numTerms <= old(numTerms)
        invariant ValidMoves(ms) && Elems(Terms()) == ApplyMoves(S, ms)
        invariant Descending(S, ms)
        invariant !flag ==> Terms() == old(Terms()) && NoTransvectBelow(S, s, 0)
      {
        flag, ms := TranspositionRow(s, S, old(Terms()), old(numTerms), flag, ms);
        s := s + 1;
      }
      if !flag {
        NoTransvectAll(S);
      }
    }

    /** The inner loop of transpositions for the first variable s: the
        transposition (s, t) for every t != s, accepted when shorter. flag0
        and ms0 are what the sweep has accepted so far, from the term set S
        (the sequence T0, of n0 terms). */
    method TranspositionRow(s: int, ghost S: set<bv8>, ghost T0: seq<bv8>, ghost n0: int, flag0: bool,
                            ghost ms0: seq<Move>)
      returns (flag: bool, ghost ms: seq<Move>)
      requires 0 <= s < 8 && Valid() && BuffersReady() && Proper(Terms())
      requires (flag0 <==> numTerms < n0) && (flag0 <==> |ms0| > 0) && numTerms <= n0
      requires ValidMoves(ms0) && Elems(Terms()) == ApplyMoves(S, ms0) && Descending(S, ms0)
      requires !flag0 ==> Terms() == T0 && Elems(T0) == S && NoTransvectBelow(S, s, 0)
      modifies this, poly, buffer, buffer.poly, replica, replica.poly
      ensures SameBuffers() && Valid() && BuffersReady() && Proper(Terms())
      ensures (flag <==> numTerms < n0) && (flag <==> |ms| > 0) && numTerms <= n0
      ensures ValidMoves(ms) && Elems(Terms()) == ApplyMoves(S, ms) && Descending(S, ms)
      ensures !flag ==> Terms() == T0 && NoTransvectBelow(S, s + 1, 0)
    {
      flag, ms := flag0, ms0;
      var t := 0;
      while t < 8
        invariant 0 <= t <= 8
        invariant SameBuffers() && Valid() && BuffersReady() && Proper(Terms())
        invariant (flag <==> numTerms < n0) && (flag <==> |ms| > 0) && numTerms <= n0
        invariant ValidMoves(ms) && Elems(Terms()) == ApplyMoves(S, ms) && Descending(S, ms)
        invariant !flag ==> Terms() == T0 && NoTransvectBelow(S, s, t)
      {
        if t != s {
          flag, ms := TranspositionStep(s, t, S, T0, n0, flag, ms);
        } else if !flag {
          NoTransvectNext(S, s, t);
        }
        t := t + 1;
      }
      if !flag {
        NoTransvectRow(S, s);
      }
    }

    /** One transposition (s, t), s != t, of the sweep: kept when shorter. */
    method TranspositionStep(s: int, t: int, ghost S: set<bv8>, ghost T0: seq<bv8>, ghost n0: int,
                             flag0: bool, ghost ms0: seq<Move>)
      returns (flag: bool, ghost ms: seq<Move>)
      requires 0 <= s < 8 && 0 <= t < 8 && s != t && Valid() && BuffersReady() && Proper(Terms())
      requires (flag0 <==> numTerms < n0) && (flag0 <==> |ms0| > 0) && numTerms <= n0
      requires ValidMoves(ms0) && Elems(Terms()) == ApplyMoves(S, ms0) && Descending(S, ms0)
      requires !flag0 ==> Terms() == T0 && Elems(T0) == S && NoTransvectBelow(S, s, t)
      modifies this, poly, buffer, buffer.poly, replica, replica.poly
      ensures SameBuffers() && Valid() && BuffersReady() && Proper(Terms())
      ensures (flag <==> numTerms < n0) && (flag <==> |ms| > 0) && numTerms <= n0
      ensures ValidMoves(ms) && Elems(Terms()) == ApplyMoves(S, ms) && Descending(S, ms)
      ensures !flag ==> Terms() == T0 && NoTransvectBelow(S, s, t + 1)
    {
      flag, ms := flag0, ms0;
      var m := Transvect(V(s), V(t));
      VInjective(s, t);
      var accepted := TryMove(m);
      if !accepted && !flag {
        NoTransvectNext(S, s, t);
      }
      if accepted {
        DescendingSnoc(S, ms, m);
        ApplyMovesSnoc(S, ms, m);
        flag := true;
        ms := ms + [m];
      }
    }

    /** One evaluation of the condition plus_ones() || transpositions():
        transpositions runs only when plus_ones kept nothing. When neither
        kept anything, the polynomial is unchanged and no single move lowers
        its count. */
    method GreedyCondition() returns (lowered: bool, ghost ms: seq<Move>)
      requires Valid() && BuffersReady() && Proper(Terms())
      modifies this, poly, buffer, buffer.poly, replica, replica.poly
      ensures SameBuffers() && Valid() && BuffersReady() && Proper(Terms())
      ensures lowered <==> numTerms < old(numTerms)
      ensures numTerms <= old(numTerms)
      ensures ValidMoves(ms) && Elems(Terms()) == ApplyMoves(old(Elems(Terms())), ms)
      ensures Descending(old(Elems(Terms())), ms)
      ensures !lowered ==> Terms() == old(Terms()) && Minimal(Elems(Terms()))
    {
      ghost var S := Elems(Terms());
      lowered, ms := PlusOnes();
      if !lowered {
        var b, ms2 := Transpositions();
        lowered := b;
        assert ms == [];
        assert ms + ms2 == ms2;
        ms := ms + ms2;
      }
    }

    /** while (plus_ones() || transpositions()); -- every round that
        continues lowers the term count, so the loop ends. Every move kept
        lowers the count, and at the end no single move lowers it any more:
        the number of terms is constant under every plus-one and
        transposition. */
    method Greedy() returns (ghost ms: seq<Move>)
      requires Valid() && BuffersReady() && Proper(Terms())
      modifies this, poly, buffer, buffer.poly, replica, replica.poly
      ensures SameBuffers() && Valid() && BuffersReady() && Proper(Terms())
      ensures numTerms <= old(numTerms)
      ensures ValidMoves(ms) && Elems(Terms()) == ApplyMoves(old(Elems(Terms())), ms)
      ensures Descending(old(Elems(Terms())), ms)
      ensures Minimal(Elems(Terms()))
    {
      ghost var S := Elems(Terms());
      ms := [];
      var lowered := true;
      while lowered
        invariant SameBuffers() && Valid() && BuffersReady() && Proper(Terms())
        invariant numTerms <= old(numTerms)
        invariant ValidMoves(ms) && Elems(Terms()) == ApplyMoves(S, ms)
        invariant Descending(S, ms)
        invariant !lowered ==> Minimal(Elems(Terms()))
        decreases numTerms, lowered
      {
        ghost var ms1;
        lowered, ms1 := GreedyCondition();
        ApplyMovesConcat(S, ms, ms1);
        DescendingConcat(S, ms, ms1);
        ms := ms + ms1;
      }
    }

    // -------------------------------------------------------------------
    // Stagnation-counter minimisation

    /** A random jump of simplify: transposition(s, t) followed by
        *this = *replica, accepted whatever its term count. */
    method Jump(s: int, t: int)
      requires Valid() && BuffersReady() && Proper(Terms()) && 0 <= s < 8 && 0 <= t < 8
      modifies this, poly, buffer, buffer.poly, replica, replica.poly
      ensures SameBuffers() && Valid() && BuffersReady() && Proper(Terms())
      ensures Elems(Terms()) == MoveSet(old(Elems(Terms())), Transvect(V(s), V(t)))
    {
      ghost var S := Elems(Terms());
      Transposition(s, t);
      ghost var R := replica.Terms();
      assert Elems(R) == MoveSet(S, Transvect(V(s), V(t)));
      Assign(replica);
      assert Terms() == R;
    }

    /** The random_steps draws of one simplify round. The C library's rand()
        is the sequence rand(cursor), rand(cursor + 1), ...: each draw pair
        gives a = rand(c) % 8 and b = rand(c + 1) % 8, and a jump is made
        when a != b. */
    method RandomJumps(randomSteps: int, rand: nat -> nat, cursor: nat) returns (next: nat, ghost ms: seq<Move>)
      requires Valid() && BuffersReady() && Proper(Terms())
      modifies this, poly, buffer, buffer.poly, replica, replica.poly
      ensures SameBuffers() && Valid() && BuffersReady() && Proper(Terms())
      ensures next == cursor + 2 * (if randomSteps < 0 then 0 else randomSteps)
      ensures ValidMoves(ms) && Elems(Terms()) == ApplyMoves(old(Elems(Terms())), ms)
      ensures randomSteps <= 0 ==> Terms() == old(Terms())
    {
      ghost var T := Terms();
      ghost var S := Elems(T);
      ms := [];
      next := cursor;
      var i := 0;
      while i < randomSteps
        invariant 0 <= i && (randomSteps >= 0 ==> i <= randomSteps) && (randomSteps < 0 ==> i == 0)
        invariant next == cursor + 2 * i
        invariant SameBuffers() && Valid() && BuffersReady() && Proper(Terms())
        invariant randomSteps <= 0 ==> Terms() == T
        invariant ValidMoves(ms) && Elems(Terms()) == ApplyMoves(S, ms)
      {
        var a := rand(next) % 8;
        var b := rand(next + 1) % 8;
        next := next + 2;
        if a != b {
          Jump(a, b);
          VInjective(a, b);
          ApplyMovesSnoc(S, ms, Transvect(V(a), V(b)));
          ms := ms + [Transvect(V(a), V(b))];
        }
        i := i + 1;
      }
    }

    /** One round of simplify: the random jumps, then
        while (plus_ones() || transpositions()). */
    method Round(randomSteps: int, rand: nat -> nat, cursor: nat) returns (next: nat, ghost ms: seq<Move>)
      requires Valid() && BuffersReady() && Proper(Terms())
      modifies this, poly, buffer, buffer.poly, replica, replica.poly
      ensures SameBuffers() && Valid() && BuffersReady() && Proper(Terms())
      ensures ValidMoves(ms) && Elems(Terms()) == ApplyMoves(old(Elems(Terms())), ms)
      ensures randomSteps <= 0 ==> numTerms <= old(numTerms)
      ensures Minimal(Elems(Terms()))
    {
      ghost var S := Elems(Terms());
      ghost var ms1, ms2;
      next, ms1 := RandomJumps(randomSteps, rand, cursor);
      ms2 := Greedy();
      ApplyMovesConcat(S, ms1, ms2);
      ms := ms1 + ms2;
    }

    /** simplify(wait, random_steps): rounds of random jumps followed by the
        greedy loop. A round whose result has fewer than min_terms terms
        (initially 255) becomes the snapshot in second_replica and restarts
        the stagnation counter; after wait rounds without such an
        improvement the snapshot is copied back. Returns the advanced
        cursor into rand and, as ghost, the moves that lead from the input
        term set to the result. */
    method Simplify(wait: int, randomSteps: int, rand: nat -> nat, cursor: nat)
      returns (next: nat, ghost ms: seq<Move>)
      requires Valid() && BuffersReady() && Proper(Terms())
      modifies this, poly, buffer, buffer.poly, replica, replica.poly, secondReplica, secondReplica.poly
      ensures SameBuffers() && Valid() && BuffersReady() && Proper(Terms())
      ensures Terms() == secondReplica.Terms()
      ensures ValidMoves(ms) && Elems(Terms()) == ApplyMoves(old(Elems(Terms())), ms)
      ensures wait <= 0 ==> Terms() == old(Terms())
      ensures randomSteps <= 0 ==> numTerms <= old(numTerms)
      ensures Terms() == old(Terms()) || Minimal(Elems(Terms()))
      ensures wait >= 1 && randomSteps <= 0 && old(numTerms) < 255 ==> Minimal(Elems(Terms()))
    {
      ghost var S := Elems(Terms());
      var minTerms := 255;
      var steps := 0;
      next := cursor;
      secondReplica.Assign(this);
      ghost var cur: seq<Move> := [];
      ghost var taken := false;
      ms := [];
      while steps < wait
        invariant 0 <= steps && 0 <= minTerms <= 255
        invariant SameBuffers() && Valid() && BuffersReady() && Proper(Terms())
        invariant Proper(secondReplica.Terms())
        invariant ValidMoves(cur) && Elems(Terms()) == ApplyMoves(S, cur)
        invariant ValidMoves(ms) && Elems(secondReplica.Terms()) == ApplyMoves(S, ms)
        invariant wait <= 0 ==> secondReplica.Terms() == old(Terms())
        invariant randomSteps <= 0 ==> numTerms <= old(numTerms) && secondReplica.numTerms <= old(numTerms)
        invariant taken ==> Minimal(Elems(secondReplica.Terms()))
        invariant !taken ==> secondReplica.Terms() == old(Terms()) && minTerms == 255
        invariant randomSteps <= 0 && old(numTerms) < 255 && !taken ==> steps == 0
        decreases minTerms, wait - steps
      {
        steps := steps + 1;
        ghost var ms1;
        next, ms1 := Round(randomSteps, rand, next);
        ApplyMovesConcat(S, cur, ms1);
        cur := cur + ms1;
        if numTerms < minTerms {
          minTerms := numTerms;
          steps := 0;
          secondReplica.Assign(this);
          ms := cur;
          taken := true;
        }
      }
      Assign(secondReplica);
    }

    // -------------------------------------------------------------------
    // Canonical form: sort_variables, sort_terms, sort

    /** The inner loop of sort_variables: swap_bit(., i, i + 1) on every term. */
    method SwapInTerms(i: int)
      requires Valid() && 0 <= i < 7
      modifies poly
      ensures Terms() == SwapAll(old(Terms()), i, i + 1)
    {
      ghost var T := Terms();
      var j := 0;
      while j < numTerms
        invariant 0 <= j <= numTerms
        invariant forall k | 0 <= k < j :: poly[k] == SwapBit(T[k], V(i), V(i + 1))
        invariant forall k | j <= k < numTerms :: poly[k] == T[k]
      {
        poly[j] := SwapBit(poly[j], V(i), V(i + 1));
        j := j + 1;
      }
      assert Terms() == SwapAll(T, i, i + 1);
    }

    /** The state sort_variables keeps: the terms are the renaming of T by
        perm, still distinct and nonzero, and the profile is theirs. */
    ghost predicate RenamedState(T: seq<bv8>, perm: seq<int>)
      reads this, poly, profile
    {
      Valid() && IsBijection(perm) && Terms() == Renamed(T, perm) && Proper(Terms())
      && profile[..] == ProfileOf(Terms())
    }

    /** The body of the test profile[i] < profile[i + 1] in sort_variables:
        exchange variables i and i + 1 in every term and in the profile. */
    method ExchangeVariables(i: int, ghost T: seq<bv8>, ghost perm: seq<int>) returns (ghost next: seq<int>)
      requires 0 <= i < 7 && RenamedState(T, perm)
      modifies poly, profile
      ensures RenamedState(T, next)
      ensures profile[..] == Swapped(old(profile[..]), i)
    {
      ghost var before := Terms();
      ghost var pb := profile[..];
      SwapInTerms(i);
      var c := profile[i];
      profile[i] := profile[i + 1];
      profile[i + 1] := c;
      assert profile[..] == Swapped(pb, i);
      ProfileSwapAll(before, i);
      SwapAllProper(before, i, i + 1);
      RenamedSwap(T, perm, i, i + 1);
      ThenSwapBijection(perm, i, i + 1);
      next := ThenSwap(perm, i, i + 1);
    }

    /** One test of sort_variables' for loop, at index i. */
    method VariablesStep(i: int, ghost T: seq<bv8>, ghost perm: seq<int>) returns (swapped: bool, ghost next: seq<int>)
      requires 0 <= i < 7 && RenamedState(T, perm)
      modifies poly, profile
      ensures RenamedState(T, next)
      ensures swapped <==> old(profile[i] < profile[i + 1])
      ensures swapped ==> Moment(profile[..]) < Moment(old(profile[..]))
      ensures !swapped ==> Terms() == old(Terms()) && profile[..] == old(profile[..]) && next == perm
    {
      next := perm;
      swapped := false;
      if profile[i] < profile[i + 1] {
        swapped := true;
        ghost var pb := profile[..];
        next := ExchangeVariables(i, T, perm);
        ProfileSwappedMoment(pb, i);
      }
    }

    /** One pass of sort_variables' for loop; flag tells whether any pair
        was exchanged. */
    method VariablesPass(ghost T: seq<bv8>, ghost perm: seq<int>) returns (flag: bool, ghost next: seq<int>)
      requires RenamedState(T, perm)
      modifies poly, profile
      ensures RenamedState(T, next)
      ensures flag ==> Moment(profile[..]) < Moment(old(profile[..]))
      ensures !flag ==> NonIncreasing(profile[..]) && Terms() == old(Terms()) && profile[..] == old(profile[..])
      ensures NonIncreasing(old(profile[..])) ==> !flag
    {
      ghost var P := profile[..];
      ghost var Q := Terms();
      next := perm;
      flag := false;
      var i := 0;
      while i < 7
        invariant 0 <= i <= 7
        invariant RenamedState(T, next)
        invariant flag ==> Moment(profile[..]) < Moment(P)
        invariant !flag ==> Terms() == Q && profile[..] == P
        invariant !flag ==> forall k | 0 <= k < i :: P[k] >= P[k + 1]
        invariant NonIncreasing(P) ==> !flag
      {
        var swapped;
        swapped, next := VariablesStep(i, T, next);
        flag := flag || swapped;
        i := i + 1;
      }
    }

    /** sort_variables: bubble sort of the variables by profile, largest
        first. Each exchange of adjacent variables swaps their bits in every
        term and their profile entries, so the terms stay a renaming of the
        input and the profile stays the profile of the terms. The ghost perm
        is the renaming: variable l of the input becomes variable perm[l].
        Called by sort right after profile_maker. */
    method SortVariables() returns (ghost perm: seq<int>)
      requires Valid() && Proper(Terms()) && profile[..] == ProfileOf(Terms())
      modifies poly, profile
      ensures IsBijection(perm) && Terms() == Renamed(old(Terms()), perm)
      ensures Proper(Terms())
      ensures profile[..] == ProfileOf(Terms()) && NonIncreasing(profile[..])
      ensures NonIncreasing(old(profile[..])) ==> Terms() == old(Terms())
    {
      ghost var T := Terms();
      ghost var P := profile[..];
      perm := Identity;
      IdentityBijection();
      RenamedIdentity(T);
      MomentNonneg(profile[..]);
      var flag := true;
      while flag
        invariant RenamedState(T, perm) && Moment(profile[..]) >= 0
        invariant !flag ==> NonIncreasing(profile[..])
        invariant NonIncreasing(P) ==> Terms() == T && profile[..] == P
        decreases Moment(profile[..]) + (if flag then 1 else 0)
      {
        flag, perm := VariablesPass(T, perm);
        MomentNonneg(profile[..]);
      }
    }

    /** The body of the test poly[i] > poly[i + 1] in sort_terms. */
    method ExchangeTerms(i: int)
      requires Valid() && Proper(Terms()) && 0 <= i < numTerms - 1 && poly[i] > poly[i + 1]
      modifies poly
      ensures Proper(Terms()) && Terms() == Swapped(old(Terms()), i)
      ensures multiset(Terms()) == multiset(old(Terms()))
      ensures ProfileOf(Terms()) == ProfileOf(old(Terms()))
      ensures Moment(Down(Terms())) < Moment(Down(old(Terms())))
    {
      ghost var before := Terms();
      var c := poly[i];
      poly[i] := poly[i + 1];
      poly[i + 1] := c;
      assert Terms() == Swapped(before, i);
      SwappedMultiset(before, i);
      SwappedProper(before, i);
      ProfileSwapped(before, i);
      DownSwapped(before, i);
    }

    /** What one pass of sort_terms keeps, after the tests at indices below
        i: the terms are a rearrangement of T with its profile, lower in
        potential if a pair was exchanged, and T itself, ascending below i,
        if none was. */
    ghost predicate PassState(T: seq<bv8>, flag: bool, i: int)
      reads this, poly
    {
      Valid() && Proper(Terms()) && 0 <= i && (i == 0 || i <= numTerms - 1)
      && multiset(Terms()) == multiset(T) && ProfileOf(Terms()) == ProfileOf(T)
      && (flag ==> Moment(Down(Terms())) < Moment(Down(T)))
      && (!flag ==> Terms() == T && forall k | 0 <= k < i :: T[k] <= T[k + 1])
      && (Ascending(T) ==> !flag)
    }

    /** The test at index i of sort_terms' for loop. */
    method TermsStep(i: int, ghost T: seq<bv8>, flag: bool) returns (next: bool)
      requires PassState(T, flag, i) && i < numTerms - 1
      modifies poly
      ensures PassState(T, next, i + 1)
    {
      next := flag;
      if poly[i] > poly[i + 1] {
        next := true;
        ExchangeTerms(i);
      }
    }

    /** One pass of sort_terms' for loop; flag tells whether any pair was
        exchanged. */
    method TermsPass() returns (flag: bool)
      requires Valid() && Proper(Terms())
      modifies poly
      ensures Proper(Terms())
      ensures multiset(Terms()) == multiset(old(Terms()))
      ensures ProfileOf(Terms()) == ProfileOf(old(Terms()))
      ensures flag ==> Moment(Down(Terms())) < Moment(Down(old(Terms())))
      ensures !flag ==> Ascending(Terms()) && Terms() == old(Terms())
      ensures Ascending(old(Terms())) ==> !flag
    {
      ghost var T := Terms();
      flag := false;
      var i := 0;
      while i < numTerms - 1
        invariant PassState(T, flag, i)
      {
        flag := TermsStep(i, T, flag);
        i := i + 1;
      }
    }

    /** sort_terms: bubble sort of the terms in ascending order of their
        masks. */
    method SortTerms()
      requires Valid() && Proper(Terms())
      modifies poly
      ensures Proper(Terms()) && StrictlyAscending(Terms())
      ensures multiset(Terms()) == multiset(old(Terms()))
      ensures ProfileOf(Terms()) == ProfileOf(old(Terms()))
      ensures Ascending(old(Terms())) ==> Terms() == old(Terms())
    {
      ghost var T := Terms();
      MomentNonneg(Down(Terms()));
      var flag := true;
      while flag
        invariant Valid() && Proper(Terms()) && Moment(Down(Terms())) >= 0
        invariant multiset(Terms()) == multiset(T)
        invariant ProfileOf(Terms()) == ProfileOf(T)
        invariant !flag ==> Ascending(Terms())
        invariant Ascending(T) ==> Terms() == T
        decreases Moment(Down(Terms())) + (if flag then 1 else 0)
      {
        flag := TermsPass();
        MomentNonneg(Down(Terms()));
      }
      AscendingStrict(Terms());
    }

    /** sort: profile_maker, sort_variables, sort_terms. The result is a
        renaming of the input's terms (up to order), canonical in both
        orders; a polynomial already in that form is left as it is, so a
        second sort changes nothing. */
    method Sort() returns (ghost perm: seq<int>)
      requires Valid() && Proper(Terms())
      modifies poly, profile
      ensures IsBijection(perm) && multiset(Terms()) == multiset(Renamed(old(Terms()), perm))
      ensures Proper(Terms()) && StrictlyAscending(Terms())
      ensures profile[..] == ProfileOf(Terms()) && NonIncreasing(profile[..])
      ensures forall l | 0 <= l < 8 :: profile[perm[l]] == ProfileOf(old(Terms()))[l]
      ensures NonIncreasing(ProfileOf(old(Terms()))) && Ascending(old(Terms())) ==> Terms() == old(Terms())
    {
      ghost var T := Terms();
      ProfileMaker();
      perm := SortVariables();
      ProfileRenamed(T, perm);
      SortTerms();
    }

    // -------------------------------------------------------------------
    // quick_simplify

    /** quick_simplify(wait, random_jumps): simplify, then sort. The source
        aborts the program when replica is NULL; here that outcome is
        ok == false, with nothing changed. The ghost outputs are the moves
        simplify made, the term list it left (simplified) and the renaming
        sort applied to it. */
    method QuickSimplify(wait: int, randomJumps: int, rand: nat -> nat, cursor: nat)
      returns (ok: bool, next: nat, ghost ms: seq<Move>, ghost simplified: seq<bv8>, ghost perm: seq<int>)
      requires Valid() && Proper(Terms())
      requires replica != null ==> BuffersReady()
      modifies this, poly, profile, Scratch()
      ensures ok <==> old(replica) != null
      ensures Valid() && SameBuffers() && Proper(Terms())
      ensures !ok ==> Terms() == old(Terms()) && next == cursor
      ensures ok ==> BuffersReady()
      ensures ok ==> ValidMoves(ms) && Elems(simplified) == ApplyMoves(old(Elems(Terms())), ms)
      ensures ok ==> IsBijection(perm) && multiset(Terms()) == multiset(Renamed(simplified, perm))
      ensures ok ==> StrictlyAscending(Terms()) && profile[..] == ProfileOf(Terms()) && NonIncreasing(profile[..])
      ensures ok && wait <= 0 ==> simplified == old(Terms())
      ensures ok && randomJumps <= 0 ==> numTerms <= old(numTerms)
    {
      ms, simplified, perm := [], Terms(), Identity;
      if replica == null {
        ok := false;
        next := cursor;
        return;
      }
      ok := true;
      next, ms := Simplify(wait, randomJumps, rand, cursor);
      simplified := Terms();
      perm := Sort();
    }

    /** quick_simplify as rec and shorten_poly_list call it, with the scratch
        polynomials set: what it makes of the terms, as a Reduction. */
    method Reduce(wait: int, randomJumps: int, rand: nat -> nat, cursor: nat)
      returns (next: nat, ghost red: Reduction)
      requires Valid() && Proper(Terms()) && BuffersReady()
      modifies this, poly, profile, Scratch()
      ensures Valid() && BuffersReady() && SameBuffers()
      ensures Reduces(old(Terms()), Terms(), red)
    {
      var ok;
      ghost var ms, simplified, perm;
      ok, next, ms, simplified, perm := QuickSimplify(wait, randomJumps, rand, cursor);
      red := Reduction(ms, simplified, perm);
    }

    // -------------------------------------------------------------------
    // Equivalence: rec_permutation_maker, operator==

    /** The level-8 case of rec_permutation_maker: does every term, renamed
        by perm, equal one of the first numTerms terms of p? */
    method MapsAll(perm: array<int>, p: Polynomial) returns (ok: bool)
      requires Valid() && p.Valid() && perm.Length == 8 && InRange(perm[..])
      ensures ok <==> Maps(perm[..], Terms(), p.poly[..numTerms])
    {
      var i := 0;
      while i < numTerms
        invariant 0 <= i <= numTerms
        invariant Maps(perm[..], poly[..i], p.poly[..numTerms])
      {
        var c := Permuted(poly[i], perm[..]);
        var flag := false;
        var j := 0;
        while j < numTerms
          invariant 0 <= j <= numTerms
          invariant flag <==> c in p.poly[..j]
        {
          if p.poly[j] == c {
            flag := true;
          }
          assert p.poly[..j + 1] == p.poly[..j] + [p.poly[j]];
          j := j + 1;
        }
        if !flag {
          assert Terms()[i] == poly[i];
          return false;
        }
        assert forall k | 0 <= k < i + 1 :: poly[..i + 1][k] == poly[k];
        i := i + 1;
      }
      assert poly[..i] == Terms();
      return true;
    }

    /** rec_permutation_maker: extends the partial renaming perm, built for
        levels below lev, to one that maps every term into p. On success
        perm is such a renaming, compatible with the profile; on failure no
        completion of the state at entry works, and perm is the entry state
        again except for zero-profile variables fixed on the way. */
    method RecPermutationMaker(perm: array<int>, p: Polynomial, lev: int, ghost start: seq<int>) returns (found: bool)
      requires Valid() && p.Valid() && perm != profile
      requires perm.Length == 8 && perm[..] == start && SearchState(start, profile[..], lev)
      modifies perm
      decreases 8 - lev
      ensures found ==> Compatible(perm[..], profile[..]) && Maps(perm[..], Terms(), p.poly[..numTerms])
      ensures !found ==> NoneMaps(start, profile[..], lev, Terms(), p.poly[..numTerms])
      ensures !found ==> Restored(perm[..], start, profile[..], lev)
    {
      ghost var prof := profile[..];
      ghost var T := Terms();
      ghost var target := p.poly[..numTerms];
      if lev == 8 {
        LeafState(start, prof);
        found := MapsAll(perm, p);
        if !found {
          LeafFailure(start, prof, T, target);
        }
        return;
      }
      if profile[lev] == 0 {
        perm[lev] := lev;
        ChoiceState(start, prof, lev, lev);
        found := RecPermutationMaker(perm, p, lev + 1, start[lev := lev]);
        if !found {
          ZeroFailure(start, perm[..], prof, lev, T, target);
        }
        return;
      }
      var i := 0;
      while i < 8
        invariant 0 <= i <= 8 && profile[..] == prof && Terms() == T && p.poly[..numTerms] == target
        invariant Restored(perm[..], start, prof, lev)
        invariant NoneMapsBelow(start, prof, lev, i, T, target)
      {
        if profile[lev] == profile[i] && perm[i] == -1 {
          found := Extend(perm, p, lev, i, start);
          if found {
            return;
          }
        } else {
          SkipChoice(perm[..], start, prof, lev, i);
        }
        NoneMapsBelowStep(start, prof, lev, i, T, target);
        i := i + 1;
      }
      found := false;
      NoneMapsAll(start, prof, lev, T, target);
    }

    /** One branch of rec_permutation_maker's loop: assign variable i to level
        lev, search the levels above, and reset entry i if that fails. */
    method Extend(perm: array<int>, p: Polynomial, lev: int, i: int, ghost start: seq<int>) returns (found: bool)
      requires Valid() && p.Valid() && perm != profile && perm.Length == 8
      requires 0 <= lev < 8 && 0 <= i < 8 && profile[lev] != 0 && profile[i] == profile[lev] && perm[i] == -1
      requires SearchState(start, profile[..], lev) && Restored(perm[..], start, profile[..], lev)
      modifies perm
      decreases 8 - lev, 0
      ensures found ==> Compatible(perm[..], profile[..]) && Maps(perm[..], Terms(), p.poly[..numTerms])
      ensures !found ==> NoneMapsVia(start, profile[..], lev, i, Terms(), p.poly[..numTerms])
      ensures !found ==> Restored(perm[..], start, profile[..], lev)
    {
      ghost var prof := profile[..];
      ghost var before := perm[..];
      RestoredState(before, start, prof, lev);
      perm[i] := lev;
      ChoiceState(before, prof, lev, i);
      found := RecPermutationMaker(perm, p, lev + 1, before[i := lev]);
      if found {
        return;
      }
      ghost var cur := perm[..];
      perm[i] := -1;
      assert perm[..] == cur[i := -1];
      ExtendFailure(start, before, cur, prof, lev, i, Terms(), p.poly[..numTerms]);
    }

    /** operator==: false when the term counts differ; otherwise the profiles
        of both are made (p's on a copy, as p is passed by value), false when
        they differ at some index, and otherwise the result of the search
        for a renaming from the all-unassigned state. */
    method Equals(p: Polynomial) returns (r: bool)
      requires Valid() && p.Valid()
      modifies profile
      ensures r <==> numTerms == p.numTerms && ProfileOf(Terms()) == ProfileOf(p.Terms()) && Equivalent(Terms(), p.Terms())
      ensures numTerms == p.numTerms ==> profile[..] == ProfileOf(Terms())
    {
      if numTerms != p.numTerms {
        return false;
      }
      var q := new Polynomial();
      q.Assign(p);
      q.ProfileMaker();
      ProfileMaker();
      var i := 0;
      while i < 8
        invariant 0 <= i <= 8
        invariant forall k | 0 <= k < i :: profile[k] == q.profile[k]
      {
        if profile[i] != q.profile[i] {
          assert ProfileOf(Terms())[i] != ProfileOf(p.Terms())[i];
          return false;
        }
        i := i + 1;
      }
      assert profile[..] == q.profile[..];
      var perm := new int[8](_ => -1);
      assert perm[..] == seq(8, _ => -1);
      StartState(profile[..], Identity);
      r := RecPermutationMaker(perm, q, 0, seq(8, _ => -1));
      assert q.poly[..numTerms] == p.Terms();
      if !r {
        forall sigma | Compatible(sigma, profile[..]) ensures !Maps(sigma, Terms(), p.Terms()) {
          StartState(profile[..], sigma);
        }
      }
    }
  }

  // ---------------------------------------------------------------------
  // operator== and quick_simplify on stored term lists

  /** What operator== decides for two term lists: equal term counts, equal
      profiles position by position, and a profile-compatible renaming that
      maps every term of a into b. */
  ghost predicate EqualPolys(a: seq<bv8>, b: seq<bv8>) {
    |a| == |b| && ProfileOf(a) == ProfileOf(b) && Equivalent(a, b)
  }

  /** Every list is == to itself. */
  lemma EqualPolysReflexive(a: seq<bv8>)
    ensures EqualPolys(a, a)
  {
    EquivalentReflexive(a);
  }

  /** Between duplicate-free lists, == holds in both directions or in
      neither. */
  lemma EqualPolysSymmetric(a: seq<bv8>, b: seq<bv8>)
    requires Distinct(a) && Distinct(b)
    ensures EqualPolys(a, b) <==> EqualPolys(b, a)
  {
    if EqualPolys(a, b) {
      EquivalentSymmetric(a, b);
    }
    if EqualPolys(b, a) {
      EquivalentSymmetric(b, a);
    }
  }

  /** == is transitive. */
  lemma EqualPolysTransitive(a: seq<bv8>, b: seq<bv8>, c: seq<bv8>)
    requires EqualPolys(a, b) && EqualPolys(b, c)
    ensures EqualPolys(a, c)
  {
    EquivalentTransitive(a, b, c);
  }

  /** poly_list[i] == poly_list[j] on two stored entries: each is put in a
      Polynomial of its own and operator== runs on them. The profile the
      comparison computes for the first is not written back; every reader
      of a profile recomputes it first. */
  method PolysEqual(a: seq<bv8>, b: seq<bv8>) returns (r: bool)
    requires |a| <= Capacity && |b| <= Capacity
    ensures r <==> EqualPolys(a, b)
  {
    var x := new Polynomial();
    x.Load(a);
    var y := new Polynomial();
    y.Load(b);
    r := x.Equals(y);
  }

  /** What one quick_simplify did to a term list: the moves simplify made,
      the list it left, and the renaming sort applied to that list. */
  datatype Reduction = Reduction(moves: seq<Move>, simplified: seq<bv8>, perm: seq<int>)

  /** e is what quick_simplify makes of c through red: the moves carry the
      terms of c to those of red.simplified, and e is that list renamed and
      sorted. */
  ghost predicate Reduces(c: seq<bv8>, e: seq<bv8>, red: Reduction) {
    && ValidMoves(red.moves) && Elems(red.simplified) == ApplyMoves(Elems(c), red.moves)
    && IsBijection(red.perm) && multiset(e) == multiset(Renamed(red.simplified, red.perm))
    && StrictlyAscending(e) && Proper(e) && |e| <= Capacity
  }
}
