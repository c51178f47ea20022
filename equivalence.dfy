/** Equivalence of polynomials under a renaming of variables, as operator==
    of the Polynomial class decides it, and the search state of
    rec_permutation_maker, which builds the renaming one level (target
    variable) at a time. */
module Equivalence {
  import opened Bits
  import opened TermSets
  import opened Canon

  // ---------------------------------------------------------------------
  // The relation

  /** A renaming the search can produce for profile prof: a bijection that
      sends each variable to one with the same profile entry and keeps every
      variable that occurs in no term. */
  ghost predicate Compatible(sigma: seq<int>, prof: seq<int>)
    requires |prof| == 8
  {
    IsBijection(sigma)
    && forall i | 0 <= i < 8 :: prof[sigma[i]] == prof[i] && (prof[i] == 0 ==> sigma[i] == i)
  }

  /** permute_bits(., sigma) sends every term of s to a term of target. */
  ghost predicate Maps(sigma: seq<int>, s: seq<bv8>, target: seq<bv8>)
    requires InRange(sigma)
  {
    forall k | 0 <= k < |s| :: Permuted(s[k], sigma) in target
  }

  /** What operator== tests once the term counts and the profiles agree:
      some compatible renaming sends every term of s into target. */
  ghost predicate Equivalent(s: seq<bv8>, target: seq<bv8>) {
    exists sigma :: Compatible(sigma, ProfileOf(s)) && Maps(sigma, s, target)
  }

  // ---------------------------------------------------------------------
  // What the relation means

  /** The elements of a duplicate-free sequence are as many as its entries. */
  lemma {:induction false} DistinctCard(s: seq<bv8>)
    requires Distinct(s)
    ensures |Elems(s)| == |s|
  {
    if |s| > 0 {
      var s' := s[..|s| - 1];
      assert Elems(s) == Elems(s') + {s[|s| - 1]};
      assert s[|s| - 1] !in Elems(s');
      DistinctCard(s');
    }
  }

  /** A renaming keeps distinct terms distinct. */
  lemma RenamedDistinct(s: seq<bv8>, sigma: seq<int>)
    requires IsBijection(sigma) && Distinct(s)
    ensures Distinct(Renamed(s, sigma))
  {
    forall i, j | 0 <= i < j < |s| ensures Renamed(s, sigma)[i] != Renamed(s, sigma)[j] {
      PermutedInjective(s[i], s[j], sigma);
    }
  }

  /** For two duplicate-free term lists of the same length, a renaming that
      sends every term of s into target renames s onto target exactly. */
  lemma MapsOnto(s: seq<bv8>, target: seq<bv8>, sigma: seq<int>)
    requires IsBijection(sigma) && Distinct(s) && Distinct(target) && |s| == |target|
    requires Maps(sigma, s, target)
    ensures Elems(Renamed(s, sigma)) == Elems(target)
  {
    var r := Renamed(s, sigma);
    RenamedDistinct(s, sigma);
    DistinctCard(r);
    DistinctCard(target);
    assert Elems(r) <= Elems(target) by {
      forall x | x in Elems(r) ensures x in Elems(target) {
        var k :| 0 <= k < |r| && r[k] == x;
        assert Permuted(s[k], sigma) in target;
      }
    }
    var d := Elems(target) - Elems(r);
    assert Elems(target) == Elems(r) + d && Elems(r) * d == {};
    assert |Elems(target)| == |Elems(r)| + |d|;
    assert d == {};
  }

  /** Every polynomial is equivalent to itself, through the identity. */
  lemma EquivalentReflexive(s: seq<bv8>)
    ensures Equivalent(s, s)
  {
    IdentityBijection();
    RenamedIdentity(s);
    forall k | 0 <= k < |s| ensures Permuted(s[k], Identity) in s {
      assert Renamed(s, Identity)[k] == s[k];
    }
    forall i | 0 <= i < 8 ensures Identity[i] == i {
    }
    assert Compatible(Identity, ProfileOf(s));
  }

  /** The inverse of a compatible renaming is compatible with the same
      profile. */
  lemma InverseCompatible(sigma: seq<int>, prof: seq<int>)
    requires |prof| == 8 && Compatible(sigma, prof)
    ensures Compatible(Inverse(sigma), prof)
  {
    InverseBijection(sigma);
    var inv := Inverse(sigma);
    forall l | 0 <= l < 8 ensures prof[inv[l]] == prof[l] && (prof[l] == 0 ==> inv[l] == l) {
      assert sigma[inv[l]] == l;
    }
  }

  /** Two compatible renamings compose to a compatible renaming. */
  lemma ComposeCompatible(rho: seq<int>, sigma: seq<int>, prof: seq<int>)
    requires |prof| == 8 && Compatible(sigma, prof) && Compatible(rho, prof)
    ensures Compatible(Compose(rho, sigma), prof)
  {
    ComposeBijection(rho, sigma);
  }

  /** Between duplicate-free lists of the same length and the same profile,
      equivalence goes both ways: the inverse renaming maps back. */
  lemma EquivalentSymmetric(s: seq<bv8>, t: seq<bv8>)
    requires Distinct(s) && Distinct(t) && |s| == |t| && ProfileOf(s) == ProfileOf(t)
    requires Equivalent(s, t)
    ensures Equivalent(t, s)
  {
    var sigma :| Compatible(sigma, ProfileOf(s)) && Maps(sigma, s, t);
    MapsOnto(s, t, sigma);
    InverseCompatible(sigma, ProfileOf(t));
    MapsBack(s, t, sigma);
  }

  /** If renaming s gives exactly the terms of t, the inverse renaming sends
      every term of t into s. */
  lemma MapsBack(s: seq<bv8>, t: seq<bv8>, sigma: seq<int>)
    requires IsBijection(sigma) && Elems(Renamed(s, sigma)) == Elems(t)
    ensures Maps(Inverse(sigma), t, s)
  {
    forall k | 0 <= k < |t| ensures Permuted(t[k], Inverse(sigma)) in s {
      assert t[k] in Elems(Renamed(s, sigma));
      var m :| 0 <= m < |s| && Renamed(s, sigma)[m] == t[k];
      PermutedInverse(s[m], sigma);
    }
  }

  /** Equivalence is transitive between lists of the same profile: the two
      renamings compose. */
  lemma EquivalentTransitive(s: seq<bv8>, t: seq<bv8>, u: seq<bv8>)
    requires ProfileOf(s) == ProfileOf(t) && Equivalent(s, t) && Equivalent(t, u)
    ensures Equivalent(s, u)
  {
    var sigma :| Compatible(sigma, ProfileOf(s)) && Maps(sigma, s, t);
    var rho :| Compatible(rho, ProfileOf(t)) && Maps(rho, t, u);
    ComposeCompatible(rho, sigma, ProfileOf(s));
    var r := Compose(rho, sigma);
    forall k | 0 <= k < |s| ensures Permuted(s[k], r) in u {
      var x := Permuted(s[k], sigma);
      assert x in t;
      var m :| 0 <= m < |t| && t[m] == x;
      assert Permuted(t[m], rho) in u;
      PermutedCompose(s[k], rho, sigma);
    }
    assert Maps(r, s, u);
  }

  /** The exchange of variables x1 and x2: renaming {x1} by it gives {x2},
      yet the profiles of {x1} and {x2} differ in position 0, so operator==
      rejects the pair before it searches for a renaming. */
  lemma ProfilesArePositional()
    ensures Renamed([1], [1, 0, 2, 3, 4, 5, 6, 7]) == [2]
    ensures ProfileOf([1]) != ProfileOf([2])
  {
    var s: seq<bv8> := [1];
    var t: seq<bv8> := [2];
    var sigma := [1, 0, 2, 3, 4, 5, 6, 7];
    assert PermutedUpTo(1, sigma, 1) == 2;
    assert PermutedUpTo(1, sigma, 2) == 2;
    assert PermutedUpTo(1, sigma, 3) == 2;
    assert PermutedUpTo(1, sigma, 4) == 2;
    assert PermutedUpTo(1, sigma, 5) == 2;
    assert PermutedUpTo(1, sigma, 6) == 2;
    assert PermutedUpTo(1, sigma, 7) == 2;
    assert Permuted(1, sigma) == 2;
    assert Renamed(s, sigma) == t;
    assert s[..0] == [] && Occ(s, 0) == 1;
    assert t[..0] == [] && Occ(t, 0) == 0;
  }

  // ---------------------------------------------------------------------
  // The search state of rec_permutation_maker

  /** perm (entries -1 for unassigned) after levels 0 .. lev-1 of the
      search: an assigned variable with a nonzero profile entry went to a
      lower level with the same entry, no two of them to the same level, and
      every lower level with a nonzero entry has a variable; a variable with
      a zero entry is fixed if it is below lev, and unassigned or fixed (an
      assignment left by an abandoned branch) otherwise. */
  ghost predicate SearchState(perm: seq<int>, prof: seq<int>, lev: int) {
    |perm| == 8 && |prof| == 8 && 0 <= lev <= 8
    && Bounded(perm) && Below(perm, prof, lev) && ZeroFixed(perm, prof, lev)
    && Unclashed(perm, prof) && Covered(perm, prof, lev)
  }

  /** Every entry is -1 (unassigned) or a variable. */
  ghost predicate Bounded(perm: seq<int>)
    requires |perm| == 8
  {
    forall i | 0 <= i < 8 :: -1 <= perm[i] < 8
  }

  /** Assigned nonzero-profile variables went to a handled level with the
      same profile entry. */
  ghost predicate Below(perm: seq<int>, prof: seq<int>, lev: int)
    requires |perm| == 8 && |prof| == 8
  {
    forall i | 0 <= i < 8 && prof[i] != 0 && perm[i] != -1 :: 0 <= perm[i] < lev && perm[i] < 8 && prof[perm[i]] == prof[i]
  }

  /** Zero-profile variables below lev are fixed; the others are unassigned
      or fixed. */
  ghost predicate ZeroFixed(perm: seq<int>, prof: seq<int>, lev: int)
    requires |perm| == 8 && |prof| == 8
  {
    forall i | 0 <= i < 8 && prof[i] == 0 :: if i < lev then perm[i] == i else perm[i] == -1 || perm[i] == i
  }

  /** No two assigned nonzero-profile variables share a level. */
  ghost predicate Unclashed(perm: seq<int>, prof: seq<int>)
    requires |perm| == 8 && |prof| == 8
  {
    forall i, j | 0 <= i < 8 && 0 <= j < 8 && i != j && prof[i] != 0 && prof[j] != 0 && perm[i] != -1 :: perm[i] != perm[j]
  }

  /** Every handled level with a nonzero profile entry has a variable. */
  ghost predicate Covered(perm: seq<int>, prof: seq<int>, lev: int)
    requires |perm| == 8 && |prof| == 8
  {
    forall l | 0 <= l < lev && l < 8 && prof[l] != 0 :: l in perm
  }

  /** The compatible renamings that complete the search state perm at level
      lev: they agree with every assignment made and send every unassigned
      variable to a level not yet handled. */
  ghost predicate Extends(sigma: seq<int>, perm: seq<int>, prof: seq<int>, lev: int)
    requires |perm| == 8 && |prof| == 8
  {
    Compatible(sigma, prof)
    && forall i | 0 <= i < 8 && prof[i] != 0 :: if perm[i] == -1 then sigma[i] >= lev else sigma[i] == perm[i]
  }

  /** perm is old with its assignments of nonzero-profile variables intact;
      zero-profile variables from lev on may have been fixed meanwhile. */
  ghost predicate Restored(perm: seq<int>, old_: seq<int>, prof: seq<int>, lev: int)
    requires |perm| == 8 && |old_| == 8 && |prof| == 8
  {
    forall i | 0 <= i < 8 :: perm[i] == old_[i] || (prof[i] == 0 && i >= lev && perm[i] == i)
  }

  /** All entries -1 is the search state at level 0, and its completions are
      all compatible renamings. */
  lemma StartState(prof: seq<int>, sigma: seq<int>)
    requires |prof| == 8
    ensures SearchState(seq(8, _ => -1), prof, 0)
    ensures Compatible(sigma, prof) ==> Extends(sigma, seq(8, _ => -1), prof, 0)
  {
  }

  /** Restoring keeps the search state and its completions. */
  lemma RestoredState(perm: seq<int>, old_: seq<int>, prof: seq<int>, lev: int)
    requires SearchState(old_, prof, lev) && |perm| == 8 && Restored(perm, old_, prof, lev)
    ensures SearchState(perm, prof, lev)
  {
    forall l | 0 <= l < lev && prof[l] != 0 ensures l in perm {
      var i :| 0 <= i < 8 && old_[i] == l;
      assert perm[i] == l;
    }
  }

  /** Restoring keeps the completions: it changes no entry of a variable with
      a nonzero profile entry. */
  lemma RestoredExtends(sigma: seq<int>, perm: seq<int>, old_: seq<int>, prof: seq<int>, lev: int)
    requires |perm| == 8 && |old_| == 8 && |prof| == 8 && Restored(perm, old_, prof, lev)
    ensures Extends(sigma, perm, prof, lev) <==> Extends(sigma, old_, prof, lev)
  {
  }

  /** Restored is transitive. */
  lemma RestoredTrans(a: seq<int>, b: seq<int>, c: seq<int>, prof: seq<int>, lev: int)
    requires |a| == 8 && |b| == 8 && |c| == 8 && |prof| == 8
    requires Restored(a, b, prof, lev) && Restored(b, c, prof, lev)
    ensures Restored(a, c, prof, lev)
  {
  }

  /** A failed call one level down, made after fixing the zero-profile
      variable lev, leaves a state restored from the one before the fix. */
  lemma RestoredZero(cur: seq<int>, old_: seq<int>, prof: seq<int>, lev: int)
    requires |cur| == 8 && |old_| == 8 && |prof| == 8 && 0 <= lev < 8 && prof[lev] == 0
    requires Restored(cur, old_[lev := lev], prof, lev + 1)
    ensures Restored(cur, old_, prof, lev)
  {
  }

  /** A failed call one level down, made after assigning variable i, followed
      by resetting entry i, leaves a state restored from the one before the
      assignment. */
  lemma RestoredReset(cur: seq<int>, old_: seq<int>, prof: seq<int>, lev: int, i: int)
    requires |cur| == 8 && |old_| == 8 && |prof| == 8 && 0 <= i < 8 && prof[i] != 0
    requires Restored(cur, old_[i := lev], prof, lev + 1)
    ensures Restored(cur[i := old_[i]], old_, prof, lev)
  {
  }

  /** At level 8 the search state is a complete compatible renaming. */
  lemma LeafState(perm: seq<int>, prof: seq<int>)
    requires SearchState(perm, prof, 8)
    ensures Compatible(perm, prof)
  {
    LeafOnto(perm, prof);
    AllAssigned(perm);
    LeafInjective(perm, prof);
  }

  lemma LeafOnto(perm: seq<int>, prof: seq<int>)
    requires |perm| == 8 && |prof| == 8 && ZeroFixed(perm, prof, 8) && Covered(perm, prof, 8)
    ensures forall l | 0 <= l < 8 :: l in perm
  {
    forall l | 0 <= l < 8 ensures l in perm {
      if prof[l] == 0 {
        assert perm[l] == l;
      }
    }
  }

  lemma LeafInjective(perm: seq<int>, prof: seq<int>)
    requires |perm| == 8 && |prof| == 8 && forall i | 0 <= i < 8 :: 0 <= perm[i] < 8
    requires Below(perm, prof, 8) && ZeroFixed(perm, prof, 8) && Unclashed(perm, prof)
    ensures forall i, j | 0 <= i < j < 8 :: perm[i] != perm[j]
  {
    forall i, j | 0 <= i < j < 8 ensures perm[i] != perm[j] {
      if prof[i] == 0 && prof[j] != 0 {
        assert prof[perm[j]] == prof[j];
      } else if prof[i] != 0 && prof[j] == 0 {
        assert prof[perm[i]] == prof[i];
      }
    }
  }

  /** At level 8 the search state is its own only completion. */
  lemma LeafUnique(sigma: seq<int>, perm: seq<int>, prof: seq<int>)
    requires SearchState(perm, prof, 8) && Extends(sigma, perm, prof, 8)
    ensures sigma == perm
  {
    forall i | 0 <= i < 8 ensures sigma[i] == perm[i] {
      if prof[i] == 0 {
        assert sigma[i] == i;
      }
    }
  }

  /** Eight entries in -1 .. 7 that include every value 0 .. 7 are all
      assigned. */
  lemma AllAssigned(perm: seq<int>)
    requires |perm| == 8 && forall i | 0 <= i < 8 :: -1 <= perm[i] < 8
    requires forall l | 0 <= l < 8 :: l in perm
    ensures forall i | 0 <= i < 8 :: 0 <= perm[i] < 8
  {
    if i :| 0 <= i < 8 && perm[i] == -1 {
      var values := set x | x in perm;
      assert Range(-2, 7) <= values by {
        RangeMembers(-2, 7);
        forall x | x in Range(-2, 7) ensures x in values {
          if x == -1 {
            assert perm[i] == x;
          } else {
            assert x in perm;
          }
        }
      }
      RangeCard(-2, 7);
      SubsetCard(Range(-2, 7), values);
      ElemsBound(perm);
      assert false;
    }
  }

  /** A sequence has at most as many elements as entries. */
  lemma {:induction false} ElemsBound(t: seq<int>)
    ensures |set x | x in t| <= |t|
  {
    if |t| > 0 {
      var t' := t[..|t| - 1];
      assert (set x | x in t) == (set x | x in t') + {t[|t| - 1]};
      ElemsBound(t');
    }
  }

  /** The choices rec_permutation_maker makes at level lev: the level
      itself when its profile entry is zero, otherwise an unassigned
      variable with the level's profile entry. */
  ghost predicate Choice(perm: seq<int>, prof: seq<int>, lev: int, i: int)
    requires |perm| == 8 && |prof| == 8 && 0 <= lev < 8 && 0 <= i < 8
  {
    if prof[lev] == 0 then i == lev else prof[i] == prof[lev] && perm[i] == -1
  }

  /** Making a choice at level lev gives the search state at lev + 1. */
  lemma ChoiceState(perm: seq<int>, prof: seq<int>, lev: int, i: int)
    requires SearchState(perm, prof, lev) && lev < 8 && 0 <= i < 8 && Choice(perm, prof, lev, i)
    ensures SearchState(perm[i := lev], prof, lev + 1)
  {
    ChoiceBelow(perm, prof, lev, i);
    ChoiceZeroFixed(perm, prof, lev, i);
    ChoiceUnclashed(perm, prof, lev, i);
    ChoiceCovered(perm, prof, lev, i);
  }

  lemma ChoiceBelow(perm: seq<int>, prof: seq<int>, lev: int, i: int)
    requires |perm| == 8 && |prof| == 8 && 0 <= lev < 8 && 0 <= i < 8
    requires Choice(perm, prof, lev, i) && Below(perm, prof, lev)
    ensures Below(perm[i := lev], prof, lev + 1)
  {
  }

  lemma ChoiceZeroFixed(perm: seq<int>, prof: seq<int>, lev: int, i: int)
    requires |perm| == 8 && |prof| == 8 && 0 <= lev < 8 && 0 <= i < 8
    requires Choice(perm, prof, lev, i) && ZeroFixed(perm, prof, lev)
    ensures ZeroFixed(perm[i := lev], prof, lev + 1)
  {
  }

  lemma ChoiceUnclashed(perm: seq<int>, prof: seq<int>, lev: int, i: int)
    requires |perm| == 8 && |prof| == 8 && 0 <= lev < 8 && 0 <= i < 8
    requires Choice(perm, prof, lev, i) && Below(perm, prof, lev) && Unclashed(perm, prof)
    ensures Unclashed(perm[i := lev], prof)
  {
  }

  lemma ChoiceCovered(perm: seq<int>, prof: seq<int>, lev: int, i: int)
    requires |perm| == 8 && |prof| == 8 && 0 <= lev < 8 && 0 <= i < 8
    requires Choice(perm, prof, lev, i) && ZeroFixed(perm, prof, lev) && Covered(perm, prof, lev)
    ensures Covered(perm[i := lev], prof, lev + 1)
  {
    var next := perm[i := lev];
    forall l | 0 <= l < lev + 1 && prof[l] != 0 ensures l in next {
      if l < lev {
        var k :| 0 <= k < 8 && perm[k] == l;
        assert next[k] == l;
      } else {
        assert next[i] == l;
      }
    }
  }

  /** Every completion of the state before a zero-profile level completes
      the state after it. */
  lemma ZeroLevelExtends(sigma: seq<int>, perm: seq<int>, prof: seq<int>, lev: int)
    requires |perm| == 8 && |prof| == 8 && 0 <= lev < 8 && prof[lev] == 0
    requires Extends(sigma, perm, prof, lev)
    ensures Extends(sigma, perm[lev := lev], prof, lev + 1)
  {
    var next := perm[lev := lev];
    forall i | 0 <= i < 8 && prof[i] != 0 && next[i] == -1 ensures sigma[i] >= lev + 1 {
      assert sigma[lev] == lev;
    }
  }

  /** A completion of the state before a nonzero level that sends i to the
      level completes the state after the assignment of i. */
  lemma AssignLevelExtends(sigma: seq<int>, perm: seq<int>, prof: seq<int>, lev: int, i: int)
    requires |perm| == 8 && |prof| == 8 && 0 <= lev < 8 && 0 <= i < 8
    requires Extends(sigma, perm, prof, lev) && sigma[i] == lev
    ensures Extends(sigma, perm[i := lev], prof, lev + 1)
  {
    var next := perm[i := lev];
    forall j | 0 <= j < 8 && prof[j] != 0 && next[j] == -1 ensures sigma[j] >= lev + 1 {
      assert sigma[j] != sigma[i];
    }
  }

  /** At a nonzero level, a variable that a completion sends to lev is one
      rec_permutation_maker may choose there. */
  lemma PreimageChoice(sigma: seq<int>, perm: seq<int>, prof: seq<int>, lev: int, i: int)
    requires SearchState(perm, prof, lev) && lev < 8 && prof[lev] != 0 && 0 <= i < 8
    requires Extends(sigma, perm, prof, lev) && sigma[i] == lev
    ensures Choice(perm, prof, lev, i)
  {
    assert prof[sigma[i]] == prof[i];
  }

  // ---------------------------------------------------------------------
  // Failed branches of the search

  /** No completion of the search state perm at level lev maps the terms T
      into target. */
  ghost predicate NoneMaps(perm: seq<int>, prof: seq<int>, lev: int, T: seq<bv8>, target: seq<bv8>)
    requires |perm| == 8 && |prof| == 8
  {
    forall sigma :: Extends(sigma, perm, prof, lev) ==> !Maps(sigma, T, target)
  }

  /** No completion of perm that sends one of the variables 0 .. i-1 to
      level lev maps T into target. */
  ghost predicate NoneMapsBelow(perm: seq<int>, prof: seq<int>, lev: int, i: int, T: seq<bv8>, target: seq<bv8>)
    requires |perm| == 8 && |prof| == 8
  {
    forall sigma, k | 0 <= k < i && k < 8 && Extends(sigma, perm, prof, lev) && sigma[k] == lev :: !Maps(sigma, T, target)
  }

  /** No completion of perm that sends variable i to level lev maps T into
      target. */
  ghost predicate NoneMapsVia(perm: seq<int>, prof: seq<int>, lev: int, i: int, T: seq<bv8>, target: seq<bv8>)
    requires |perm| == 8 && |prof| == 8 && 0 <= i < 8
  {
    forall sigma | Extends(sigma, perm, prof, lev) && sigma[i] == lev :: !Maps(sigma, T, target)
  }

  /** A complete renaming that fails is the only completion there is. */
  lemma LeafFailure(perm: seq<int>, prof: seq<int>, T: seq<bv8>, target: seq<bv8>)
    requires SearchState(perm, prof, 8) && Compatible(perm, prof) && !Maps(perm, T, target)
    ensures NoneMaps(perm, prof, 8, T, target)
  {
    forall sigma | Extends(sigma, perm, prof, 8) ensures !Maps(sigma, T, target) {
      LeafUnique(sigma, perm, prof);
    }
  }

  /** A failure one level down after fixing the zero-profile variable lev is
      a failure at lev. */
  lemma ZeroFailure(start: seq<int>, cur: seq<int>, prof: seq<int>, lev: int, T: seq<bv8>, target: seq<bv8>)
    requires |start| == 8 && |cur| == 8 && |prof| == 8 && 0 <= lev < 8 && prof[lev] == 0
    requires NoneMaps(start[lev := lev], prof, lev + 1, T, target)
    requires Restored(cur, start[lev := lev], prof, lev + 1)
    ensures NoneMaps(start, prof, lev, T, target) && Restored(cur, start, prof, lev)
  {
    forall sigma | Extends(sigma, start, prof, lev) ensures !Maps(sigma, T, target) {
      ZeroLevelExtends(sigma, start, prof, lev);
    }
    RestoredZero(cur, start, prof, lev);
  }

  /** A failure one level down after assigning variable i to lev, followed
      by the reset of entry i, rules out every completion of the loop's entry
      state start that sends i to lev, and restores the state. */
  lemma ExtendFailure(start: seq<int>, before: seq<int>, cur: seq<int>, prof: seq<int>, lev: int, i: int,
                      T: seq<bv8>, target: seq<bv8>)
    requires |start| == 8 && |before| == 8 && |cur| == 8 && |prof| == 8
    requires 0 <= lev < 8 && 0 <= i < 8 && prof[i] != 0 && before[i] == -1
    requires Restored(before, start, prof, lev) && Restored(cur, before[i := lev], prof, lev + 1)
    requires NoneMaps(before[i := lev], prof, lev + 1, T, target)
    ensures Restored(cur[i := -1], start, prof, lev)
    ensures NoneMapsVia(start, prof, lev, i, T, target)
  {
    var reset := cur[i := -1];
    assert reset == cur[i := before[i]];
    RestoredReset(cur, before, prof, lev, i);
    RestoredTrans(reset, before, start, prof, lev);
    forall sigma | Extends(sigma, start, prof, lev) && sigma[i] == lev ensures !Maps(sigma, T, target) {
      RestoredExtends(sigma, before, start, prof, lev);
      AssignLevelExtends(sigma, before, prof, lev, i);
    }
  }

  /** A variable the loop of a nonzero level skips goes to that level in no
      completion. */
  lemma SkipChoice(perm: seq<int>, start: seq<int>, prof: seq<int>, lev: int, i: int)
    requires SearchState(start, prof, lev) && |perm| == 8 && Restored(perm, start, prof, lev)
    requires lev < 8 && prof[lev] != 0 && 0 <= i < 8 && !Choice(perm, prof, lev, i)
    ensures forall sigma | Extends(sigma, start, prof, lev) :: sigma[i] != lev
    ensures forall T, target :: NoneMapsVia(start, prof, lev, i, T, target)
  {
    RestoredState(perm, start, prof, lev);
    forall sigma | Extends(sigma, start, prof, lev) ensures sigma[i] != lev {
      RestoredExtends(sigma, perm, start, prof, lev);
      if sigma[i] == lev {
        PreimageChoice(sigma, perm, prof, lev, i);
        assert false;
      }
    }
  }

  /** One more variable ruled out at level lev. */
  lemma NoneMapsBelowStep(perm: seq<int>, prof: seq<int>, lev: int, i: int, T: seq<bv8>, target: seq<bv8>)
    requires |perm| == 8 && |prof| == 8 && 0 <= i < 8
    requires NoneMapsBelow(perm, prof, lev, i, T, target)
    requires NoneMapsVia(perm, prof, lev, i, T, target)
    ensures NoneMapsBelow(perm, prof, lev, i + 1, T, target)
  {
  }

  /** Once every variable is ruled out at level lev, no completion works:
      every completion sends some variable to lev. */
  lemma NoneMapsAll(perm: seq<int>, prof: seq<int>, lev: int, T: seq<bv8>, target: seq<bv8>)
    requires |perm| == 8 && |prof| == 8 && 0 <= lev < 8
    requires NoneMapsBelow(perm, prof, lev, 8, T, target)
    ensures NoneMaps(perm, prof, lev, T, target)
  {
    forall sigma | Extends(sigma, perm, prof, lev) ensures !Maps(sigma, T, target) {
      assert lev in sigma;
      var k :| 0 <= k < 8 && sigma[k] == lev;
    }
  }
}
