/** The canonical form that sort produces: variables renamed so that the
    profile is non-increasing, then the terms in ascending order. These are
    the specification functions and lemmas of sort_variables, sort_terms and
    sort. */
module Canon {
  import opened Bits
  import opened TermSets

  // ---------------------------------------------------------------------
  // Adjacent exchanges

  /** s with the entries at i and i + 1 exchanged: one step of a bubble sort. */
  function Swapped<T>(s: seq<T>, i: int): seq<T>
    requires 0 <= i < |s| - 1
  {
    s[i := s[i + 1]][i + 1 := s[i]]
  }

  /** An adjacent exchange keeps the multiset of entries. */
  lemma SwappedMultiset<T>(s: seq<T>, i: int)
    requires 0 <= i < |s| - 1
    ensures multiset(Swapped(s, i)) == multiset(s)
  {
  }

  /** An adjacent exchange keeps distinct nonzero terms distinct and nonzero. */
  lemma SwappedProper(s: seq<bv8>, i: int)
    requires 0 <= i < |s| - 1 && Proper(s)
    ensures Proper(Swapped(s, i))
  {
    var r := Swapped(s, i);
    forall j, k | 0 <= j < k < |r| ensures r[j] != r[k] {
      var j' := SwapInt(i, i + 1, j);
      var k' := SwapInt(i, i + 1, k);
      assert r[j] == s[j'] && r[k] == s[k'];
    }
    SwappedMultiset(s, i);
    assert 0 !in multiset(r);
  }

  /** Bubble sort's potential: the sum of k * s[k]. */
  function Moment(s: seq<int>): int {
    if |s| == 0 then 0 else Moment(s[..|s| - 1]) + (|s| - 1) * s[|s| - 1]
  }

  lemma {:induction false} MomentNonneg(s: seq<int>)
    requires forall k | 0 <= k < |s| :: s[k] >= 0
    ensures Moment(s) >= 0
  {
    if |s| > 0 {
      MomentNonneg(s[..|s| - 1]);
    }
  }

  /** Exchanging entries i and i + 1 moves the potential by their difference. */
  lemma {:induction false} MomentSwapped(s: seq<int>, i: int)
    requires 0 <= i < |s| - 1
    ensures Moment(Swapped(s, i)) == Moment(s) - (s[i + 1] - s[i])
  {
    var n := |s|;
    var r := Swapped(s, i);
    if i + 2 == n {
      var p := s[..i];
      assert s[..n - 1][..i] == p && r[..n - 1][..i] == p;
      assert Moment(s[..n - 1]) == Moment(p) + i * s[i];
      assert Moment(r[..n - 1]) == Moment(p) + i * s[i + 1];
      assert (i + 1) * s[i + 1] - i * s[i + 1] == s[i + 1];
      assert (i + 1) * s[i] - i * s[i] == s[i];
    } else {
      assert r[..n - 1] == Swapped(s[..n - 1], i);
      MomentSwapped(s[..n - 1], i);
    }
  }

  /** Each term as the distance of its mask below 255: sort_terms' potential
      is the moment of this sequence. */
  function Down(s: seq<bv8>): (r: seq<int>)
    ensures |r| == |s| && forall k | 0 <= k < |s| :: r[k] >= 0
  {
    seq(|s|, k requires 0 <= k < |s| => 255 - s[k] as int)
  }

  /** Exchanging an out-of-order pair of terms lowers sort_terms' potential. */
  lemma DownSwapped(s: seq<bv8>, i: int)
    requires 0 <= i < |s| - 1 && s[i] > s[i + 1]
    ensures Moment(Down(Swapped(s, i))) < Moment(Down(s))
  {
    var d := Down(s);
    DownOfSwapped(s, i);
    NarrowOrder(s[i], s[i + 1]);
    assert d[i] == 255 - s[i] as int && d[i + 1] == 255 - s[i + 1] as int;
    MomentSwapped(d, i);
  }

  /** Down commutes with an adjacent exchange. */
  lemma DownOfSwapped(s: seq<bv8>, i: int)
    requires 0 <= i < |s| - 1
    ensures Down(Swapped(s, i)) == Swapped(Down(s), i)
  {
    var d := Down(s);
    var r := Down(Swapped(s, i));
    forall k | 0 <= k < |s| ensures r[k] == Swapped(d, i)[k] {
      if k == i {
        assert r[k] == 255 - s[i + 1] as int;
      } else if k == i + 1 {
        assert r[k] == 255 - s[i] as int;
      } else {
        assert r[k] == 255 - s[k] as int;
      }
    }
  }

  /** The order of two masks is the order of their values. */
  lemma NarrowOrder(a: bv8, b: bv8)
    requires a > b
    ensures a as int > b as int
  {
  }

  /** Exchanging an out-of-order pair of profile entries lowers its potential. */
  lemma ProfileSwappedMoment(p: seq<int>, i: int)
    requires 0 <= i < |p| - 1 && p[i] < p[i + 1]
    ensures Moment(Swapped(p, i)) < Moment(p)
  {
    MomentSwapped(p, i);
  }

  /** An adjacent exchange of terms keeps the count of every variable. */
  lemma {:induction false} OccSwapped(s: seq<bv8>, i: int, v: Var)
    requires 0 <= i < |s| - 1
    ensures Occ(Swapped(s, i), v) == Occ(s, v)
  {
    var n := |s|;
    var r := Swapped(s, i);
    if i + 2 == n {
      var p := s[..i];
      assert s[..n - 1][..i] == p && r[..n - 1][..i] == p;
      assert Occ(s[..n - 1], v) == Occ(p, v) + Bit(s[i], v);
      assert Occ(r[..n - 1], v) == Occ(p, v) + Bit(s[i + 1], v);
    } else {
      assert r[..n - 1] == Swapped(s[..n - 1], i);
      OccSwapped(s[..n - 1], i, v);
    }
  }

  /** An adjacent exchange of terms keeps the profile. */
  lemma ProfileSwapped(s: seq<bv8>, i: int)
    requires 0 <= i < |s| - 1
    ensures ProfileOf(Swapped(s, i)) == ProfileOf(s)
  {
    forall l | 0 <= l < 8 ensures ProfileOf(Swapped(s, i))[l] == ProfileOf(s)[l] {
      ProfileAt(s, l);
      ProfileAt(Swapped(s, i), l);
      OccSwapped(s, i, V(l));
    }
  }

  // ---------------------------------------------------------------------
  // Exchanging two variables in every term

  /** swap_bit(., i, j) applied to every term. */
  function SwapAll(s: seq<bv8>, i: int, j: int): seq<bv8>
    requires 0 <= i < 8 && 0 <= j < 8
  {
    seq(|s|, k requires 0 <= k < |s| => SwapBit(s[k], V(i), V(j)))
  }

  /** After exchanging variables i and j, variable l occurs where variable
      SwapInt(i, j, l) occurred. */
  lemma {:induction false} OccSwapAll(s: seq<bv8>, i: int, j: int, l: int)
    requires 0 <= i < 8 && 0 <= j < 8 && 0 <= l < 8
    ensures Occ(SwapAll(s, i, j), V(l)) == Occ(s, V(SwapInt(i, j, l)))
  {
    if |s| > 0 {
      var n := |s|;
      assert SwapAll(s, i, j)[..n - 1] == SwapAll(s[..n - 1], i, j);
      OccSwapAll(s[..n - 1], i, j, l);
      SwapBitAt(s[n - 1], V(i), V(j), V(l));
      SwapV(i, j, l);
    }
  }

  /** Exchanging variables i and i + 1 exchanges their profile entries. */
  lemma ProfileSwapAll(s: seq<bv8>, i: int)
    requires 0 <= i < 7
    ensures ProfileOf(SwapAll(s, i, i + 1)) == Swapped(ProfileOf(s), i)
  {
    var r := SwapAll(s, i, i + 1);
    forall l | 0 <= l < 8 ensures ProfileOf(r)[l] == Swapped(ProfileOf(s), i)[l] {
      ProfileAt(r, l);
      ProfileAt(s, SwapInt(i, i + 1, l));
      OccSwapAll(s, i, i + 1, l);
    }
  }

  /** Exchanging two variables keeps distinct nonzero terms distinct and nonzero. */
  lemma SwapAllProper(s: seq<bv8>, i: int, j: int)
    requires 0 <= i < 8 && 0 <= j < 8 && Proper(s)
    ensures Proper(SwapAll(s, i, j))
  {
    var r := SwapAll(s, i, j);
    forall a, b | 0 <= a < b < |r| ensures r[a] != r[b] {
      SwapBitInjective(s[a], s[b], V(i), V(j));
    }
    forall a | 0 <= a < |r| ensures r[a] != 0 {
      SwapBitZero(s[a], V(i), V(j));
    }
  }

  // ---------------------------------------------------------------------
  // Renaming variables

  /** permute_bits(., perm) applied to every term. */
  function Renamed(s: seq<bv8>, perm: seq<int>): seq<bv8>
    requires InRange(perm)
  {
    seq(|s|, k requires 0 <= k < |s| => Permuted(s[k], perm))
  }

  /** Renaming by the identity changes nothing. */
  lemma RenamedIdentity(s: seq<bv8>)
    ensures Renamed(s, Identity) == s
  {
    forall k | 0 <= k < |s| ensures Renamed(s, Identity)[k] == s[k] {
      PermutedIdentity(s[k]);
    }
  }

  /** After a renaming, variable perm[l] occurs where variable l occurred. */
  lemma {:induction false} OccRenamed(s: seq<bv8>, perm: seq<int>, l: int)
    requires IsBijection(perm) && 0 <= l < 8
    ensures Occ(Renamed(s, perm), V(perm[l])) == Occ(s, V(l))
  {
    if |s| > 0 {
      var n := |s|;
      assert Renamed(s, perm)[..n - 1] == Renamed(s[..n - 1], perm);
      OccRenamed(s[..n - 1], perm, l);
      PermutedBits(s[n - 1], perm);
    }
  }

  /** A renaming carries the profile along: entry perm[l] of the new profile
      is entry l of the old one. */
  lemma ProfileRenamed(s: seq<bv8>, perm: seq<int>)
    requires IsBijection(perm)
    ensures forall l | 0 <= l < 8 :: ProfileOf(Renamed(s, perm))[perm[l]] == ProfileOf(s)[l]
  {
    forall l | 0 <= l < 8 ensures ProfileOf(Renamed(s, perm))[perm[l]] == ProfileOf(s)[l] {
      ProfileAt(Renamed(s, perm), perm[l]);
      ProfileAt(s, l);
      OccRenamed(s, perm, l);
    }
  }

  /** A renaming followed by an exchange of two variables is a renaming. */
  lemma RenamedSwap(s: seq<bv8>, perm: seq<int>, i: int, j: int)
    requires IsBijection(perm) && 0 <= i < 8 && 0 <= j < 8
    ensures SwapAll(Renamed(s, perm), i, j) == Renamed(s, ThenSwap(perm, i, j))
  {
    forall k | 0 <= k < |s|
      ensures SwapAll(Renamed(s, perm), i, j)[k] == Renamed(s, ThenSwap(perm, i, j))[k]
    {
      PermutedThenSwap(s[k], perm, i, j);
    }
  }

  // ---------------------------------------------------------------------
  // Sortedness

  /** The profile order sort_variables establishes. */
  predicate NonIncreasing(p: seq<int>) {
    forall k | 0 <= k < |p| - 1 :: p[k] >= p[k + 1]
  }

  /** The term order sort_terms establishes: no adjacent pair out of order. */
  predicate Ascending(s: seq<bv8>) {
    forall k | 0 <= k < |s| - 1 :: s[k] <= s[k + 1]
  }

  /** Every earlier term has a smaller mask. */
  predicate StrictlyAscending(s: seq<bv8>) {
    forall j, k | 0 <= j < k < |s| :: s[j] < s[k]
  }

  /** Distinct terms with no adjacent pair out of order are strictly ascending. */
  lemma {:induction false} AscendingStrict(s: seq<bv8>)
    requires Distinct(s) && Ascending(s)
    ensures StrictlyAscending(s)
  {
    if |s| > 1 {
      var n := |s|;
      var p := s[..n - 1];
      assert Distinct(p) && Ascending(p) by {
        forall k | 0 <= k < |p| - 1 ensures p[k] <= p[k + 1] {
          assert p[k] == s[k] && p[k + 1] == s[k + 1];
        }
      }
      AscendingStrict(p);
      forall j, k | 0 <= j < k < n ensures s[j] < s[k] {
        if k < n - 1 {
          assert s[j] == p[j] && s[k] == p[k];
        } else if j < n - 2 {
          assert s[j] == p[j] && s[n - 2] == p[n - 2];
        }
      }
    }
  }

  /** A strictly ascending sequence is ascending and distinct. */
  lemma StrictAscending(s: seq<bv8>)
    requires StrictlyAscending(s)
    ensures Ascending(s) && Distinct(s)
  {
  }
}
