/** The list passes of classes.cpp: shorten_poly_list simplifies every entry
    of a polynomial list and removes the entries == to an earlier surviving
    one, keeping the order of the rest; simplify_poly_list runs it on a fixed
    schedule; a worker (thread_function) generates the list of its bases and
    shortens it; mix_poly_lists concatenates the worker lists and simplifies
    the result; the bases are dealt out to the workers in contiguous
    blocks. */
module Lists {
  import opened TermSets
  import opened Truth
  import opened Poly
  import opened Enumerator

  // The duplicate scan of shorten_poly_list, as a reference definition, for
  // any comparison same; shorten_poly_list compares with ==, EqualPolys.

  type Relation = (seq<bv8>, seq<bv8>) -> bool

  /** Entry j stays active when no earlier entry among the first i that
      stayed active is == to it. */
  ghost predicate ClearOf(l: seq<seq<bv8>>, same: Relation, j: int, i: int)
    requires 0 <= j < |l| && 0 <= i <= j
  {
    forall k | 0 <= k < i :: Active(l, same, k) ==> !same(l[k], l[j])
  }

  /** Entry j survives the scan: no earlier surviving entry is == to it. */
  ghost predicate Active(l: seq<seq<bv8>>, same: Relation, j: int)
    requires 0 <= j < |l|
  {
    forall k | 0 <= k < j :: Active(l, same, k) ==> !same(l[k], l[j])
  }

  /** The indices below n of the surviving entries, in ascending order. */
  ghost function Kept(l: seq<seq<bv8>>, same: Relation, n: int): (ks: seq<int>)
    requires 0 <= n <= |l|
    ensures |ks| <= n && forall a | 0 <= a < |ks| :: 0 <= ks[a] < n
  {
    if n == 0 then [] else Kept(l, same, n - 1) + (if Active(l, same, n - 1) then [n - 1] else [])
  }

  /** The surviving entries below n, in their order in the list. */
  ghost function Survivors(l: seq<seq<bv8>>, same: Relation, n: int): (s: seq<seq<bv8>>)
    requires 0 <= n <= |l|
    ensures |s| == |Kept(l, same, n)|
  {
    if n == 0 then [] else Survivors(l, same, n - 1) + (if Active(l, same, n - 1) then [l[n - 1]] else [])
  }

  /** One more index of the scan: ClearOf with respect to i + 1 entries. */
  lemma ClearOfStep(l: seq<seq<bv8>>, same: Relation, j: int, i: int)
    requires 0 <= i < j < |l|
    ensures ClearOf(l, same, j, i + 1) == (ClearOf(l, same, j, i) && (Active(l, same, i) ==> !same(l[i], l[j])))
  {
  }

  /** The survivors are the entries at the kept indices. */
  lemma {:induction false} SurvivorsAt(l: seq<seq<bv8>>, same: Relation, n: int)
    requires 0 <= n <= |l|
    ensures forall a | 0 <= a < |Kept(l, same, n)| :: Survivors(l, same, n)[a] == l[Kept(l, same, n)[a]]
  {
    if n > 0 {
      SurvivorsAt(l, same, n - 1);
    }
  }

  /** The kept indices are active. */
  lemma {:induction false} KeptActive(l: seq<seq<bv8>>, same: Relation, n: int)
    requires 0 <= n <= |l|
    ensures forall a | 0 <= a < |Kept(l, same, n)| :: Active(l, same, Kept(l, same, n)[a])
  {
    if n > 0 {
      KeptActive(l, same, n - 1);
    }
  }

  /** The kept indices ascend. */
  lemma {:induction false} KeptAscending(l: seq<seq<bv8>>, same: Relation, n: int)
    requires 0 <= n <= |l|
    ensures forall a, b | 0 <= a < b < |Kept(l, same, n)| :: Kept(l, same, n)[a] < Kept(l, same, n)[b]
  {
    if n > 0 {
      KeptAscending(l, same, n - 1);
    }
  }

  /** Every active index below n is kept. */
  lemma {:induction false} KeptComplete(l: seq<seq<bv8>>, same: Relation, n: int)
    requires 0 <= n <= |l|
    ensures forall i | 0 <= i < n && Active(l, same, i) :: i in Kept(l, same, n)
  {
    if n > 0 {
      KeptComplete(l, same, n - 1);
    }
  }

  /** shorten_poly_list never lengthens a list. */
  lemma SurvivorsBound(l: seq<seq<bv8>>, same: Relation)
    ensures |Survivors(l, same, |l|)| <= |l|
  {
  }

  /** No two survivors are ==. */
  lemma SurvivorsApart(l: seq<seq<bv8>>, same: Relation)
    ensures forall a, b | 0 <= a < b < |Survivors(l, same, |l|)| :: !same(Survivors(l, same, |l|)[a], Survivors(l, same, |l|)[b])
  {
    var s, kept := Survivors(l, same, |l|), Kept(l, same, |l|);
    SurvivorsAt(l, same, |l|);
    KeptActive(l, same, |l|);
    KeptAscending(l, same, |l|);
    forall a, b | 0 <= a < b < |s|
      ensures !same(s[a], s[b])
    {
      assert Active(l, same, kept[b]) && Active(l, same, kept[a]) && kept[a] < kept[b];
    }
  }

  /** In a stored list where no entry is == to an earlier one, no two
      different entries are ==, in either order. */
  lemma ApartBothWays(l: seq<seq<bv8>>)
    requires Stored(l) && NoneEqualBefore(l, 0)
    ensures forall i, j | 0 <= i < |l| && 0 <= j < |l| && i != j :: !EqualPolys(l[i], l[j])
  {
    forall i, j | 0 <= i < |l| && 0 <= j < |l| && i != j
      ensures !EqualPolys(l[i], l[j])
    {
      if j < i {
        EqualPolysSymmetric(l[i], l[j]);
      }
    }
  }

  /** The survivors of a stored list under == are stored, and no two of
      them are ==, in either order. */
  lemma SurvivorsDistinct(reduced: seq<seq<bv8>>, kept: seq<seq<bv8>>)
    requires Stored(reduced) && kept == Survivors(reduced, EqualPolys, |reduced|)
    ensures Stored(kept) && NoneEqualBefore(kept, 0)
    ensures forall i, j | 0 <= i < |kept| && 0 <= j < |kept| && i != j :: !EqualPolys(kept[i], kept[j])
  {
    SurvivorsStored(reduced, EqualPolys);
    SurvivorsApart(reduced, EqualPolys);
    ApartBothWays(kept);
  }

  /** Every dropped entry is == to a survivor that came before it. */
  lemma DroppedCovered(l: seq<seq<bv8>>, same: Relation, j: int)
    requires 0 <= j < |l| && !Active(l, same, j)
    ensures exists a | 0 <= a < |Kept(l, same, |l|)| :: Kept(l, same, |l|)[a] < j && same(Survivors(l, same, |l|)[a], l[j])
  {
    var k :| 0 <= k < j && Active(l, same, k) && same(l[k], l[j]);
    KeptComplete(l, same, |l|);
    SurvivorsAt(l, same, |l|);
    var a :| 0 <= a < |Kept(l, same, |l|)| && Kept(l, same, |l|)[a] == k;
    assert Survivors(l, same, |l|)[a] == l[k];
  }

  /** Every entry is == to a survivor at or before it. */
  lemma EveryEntryRepresented(l: seq<seq<bv8>>, same: Relation, j: int)
    requires 0 <= j < |l| && same(l[j], l[j])
    ensures exists a | 0 <= a < |Kept(l, same, |l|)| :: Kept(l, same, |l|)[a] <= j && same(Survivors(l, same, |l|)[a], l[j])
  {
    if Active(l, same, j) {
      KeptComplete(l, same, |l|);
      SurvivorsAt(l, same, |l|);
      var a :| 0 <= a < |Kept(l, same, |l|)| && Kept(l, same, |l|)[a] == j;
    } else {
      DroppedCovered(l, same, j);
    }
  }

  /** The survivors of stored entries are stored. */
  lemma SurvivorsStored(l: seq<seq<bv8>>, same: Relation)
    requires Stored(l)
    ensures Stored(Survivors(l, same, |l|))
  {
    SurvivorsAt(l, same, |l|);
  }

  // The four loops of shorten_poly_list

  /** The first loop: every entry below count is active. */
  method Activate(active: array<bool>, count: int)
    requires 0 <= count <= active.Length
    modifies active
    ensures forall k | 0 <= k < count :: active[k]
    ensures active[count..] == old(active[count..])
  {
    var i := 0;
    while i < count
      invariant 0 <= i <= count
      invariant forall k | 0 <= k < i :: active[k]
      invariant active[count..] == old(active[count..])
    {
      active[i] := true;
      i := i + 1;
    }
  }

  /** One entry of the second loop: loaded into the working polynomial,
      simplified, and read back. */
  method ReduceEntry(poly: Polynomial, c: seq<bv8>, wait: int, randomJumps: int, rand: nat -> nat, cursor: nat)
    returns (e: seq<bv8>, next: nat, ghost red: Reduction)
    requires poly.Valid() && poly.BuffersReady() && Proper(c) && |c| <= Capacity
    modifies poly, poly.poly, poly.profile, poly.Scratch()
    ensures poly.Valid() && poly.BuffersReady() && poly.SameBuffers() && poly.Scratch() == old(poly.Scratch())
    ensures Reduces(c, e, red)
  {
    poly.Load(c);
    next, red := poly.Reduce(wait, randomJumps, rand, cursor);
    e := poly.poly[..poly.numTerms];
  }

  /** The second loop: every entry through quick_simplify, with the scratch
      polynomials of shorten_poly_list. Each entry is reduced in a working
      polynomial and stored back. */
  method ReduceAll(list: array<seq<bv8>>, count: int, wait: int, randomJumps: int, rand: nat -> nat, cursor: nat)
    returns (next: nat, ghost reduced: seq<seq<bv8>>, ghost reds: seq<Reduction>)
    requires 0 <= count <= list.Length && Stored(list[..count])
    modifies list
    ensures |reduced| == |reds| == count && list[..count] == reduced
    ensures forall k | 0 <= k < count :: Reduces(old(list[..count])[k], reduced[k], reds[k])
    ensures list[count..] == old(list[count..])
    ensures Stored(reduced)
  {
    ghost var orig := list[..count];
    next, reduced, reds := ReduceLoop(list, count, wait, randomJumps, rand, cursor);
    AllReduceStored(orig, reduced, reds);
  }

  /** The loop of ReduceAll, stated on the prefixes it has reduced. */
  method ReduceLoop(list: array<seq<bv8>>, count: int, wait: int, randomJumps: int, rand: nat -> nat, cursor: nat)
    returns (next: nat, ghost reduced: seq<seq<bv8>>, ghost reds: seq<Reduction>)
    requires 0 <= count <= list.Length && Stored(list[..count])
    modifies list
    ensures |reduced| == count && AllReduce(old(list[..count]), reduced, reds) && list[..count] == reduced
    ensures list[count..] == old(list[count..])
  {
    ghost var orig := list[..count];
    var poly := Working();
    next := cursor;
    reduced, reds := [], [];
    var i := 0;
    while i < count
      invariant 0 <= i <= count && |reduced| == |reds| == i
      invariant poly.Valid() && poly.BuffersReady()
      invariant fresh(poly) && fresh(poly.poly) && fresh(poly.profile) && fresh(poly.Scratch())
      invariant list[..count] == reduced + orig[i..] && list[count..] == old(list[count..])
      invariant AllReduce(orig, reduced, reds)
    {
      var e;
      ghost var red;
      e, next, red := ReduceAt(list, count, i, poly, wait, randomJumps, rand, next, orig, reduced, reds);
      reduced, reds := reduced + [e], reds + [red];
      i := i + 1;
    }
    assert orig[count..] == [];
  }

  /** One pass of the loop of ReduceAll: entry i reduced and stored back. */
  method ReduceAt(list: array<seq<bv8>>, count: int, i: int, poly: Polynomial, wait: int, randomJumps: int, rand: nat -> nat, cursor: nat,
                  ghost orig: seq<seq<bv8>>, ghost reduced: seq<seq<bv8>>, ghost reds: seq<Reduction>)
    returns (e: seq<bv8>, next: nat, ghost red: Reduction)
    requires 0 <= i < count <= list.Length && |orig| == count && Stored(orig)
    requires |reduced| == i && list[..count] == reduced + orig[i..] && AllReduce(orig, reduced, reds)
    requires poly.Valid() && poly.BuffersReady() 
    requires list as object != poly.poly && list as object != poly.profile && list !in poly.Scratch()
    modifies list, poly, poly.poly, poly.profile, poly.Scratch()
    ensures poly.Valid() && poly.BuffersReady() && poly.Scratch() == old(poly.Scratch())
    ensures list[..count] == (reduced + [e]) + orig[i + 1..] && list[count..] == old(list[count..])
    ensures AllReduce(orig, reduced + [e], reds + [red])
  {
    ghost var before := list[..count];
    StoreNext(reduced, orig, i);
    assert list[i] == before[i];
    e, next, red := ReduceEntry(poly, list[i], wait, randomJumps, rand, cursor);
    list[i] := e;
    assert list[..count] == before[i := e];
    AllReduceSnoc(orig, reduced, reds, e, red);
  }

  /** Entry k of reduced is what quick_simplify made of entry k of orig, by reds[k]. */
  ghost predicate AllReduce(orig: seq<seq<bv8>>, reduced: seq<seq<bv8>>, reds: seq<Reduction>) {
    |reduced| == |reds| <= |orig| && forall k | 0 <= k < |reduced| :: Reduces(orig[k], reduced[k], reds[k])
  }

  /** One more reduced entry. */
  lemma AllReduceSnoc(orig: seq<seq<bv8>>, reduced: seq<seq<bv8>>, reds: seq<Reduction>, e: seq<bv8>, red: Reduction)
    requires AllReduce(orig, reduced, reds) && |reduced| < |orig| && Reduces(orig[|reduced|], e, red)
    ensures AllReduce(orig, reduced + [e], reds + [red])
  {
  }

  /** Reduced entries are proper and fit the buffers. */
  lemma AllReduceStored(orig: seq<seq<bv8>>, reduced: seq<seq<bv8>>, reds: seq<Reduction>)
    requires AllReduce(orig, reduced, reds)
    ensures Stored(reduced) && forall k | 0 <= k < |reduced| :: Reduces(orig[k], reduced[k], reds[k])
  {
  }

  /** Storing the reduced entry i moves it from the part of the list still
      to be reduced into the part already reduced. */
  lemma StoreNext(reduced: seq<seq<bv8>>, orig: seq<seq<bv8>>, i: int)
    requires |reduced| == i < |orig|
    ensures (reduced + orig[i..])[i] == orig[i]
    ensures forall e :: (reduced + orig[i..])[i := e] == (reduced + [e]) + orig[i + 1..]
  {
    forall e ensures (reduced + orig[i..])[i := e] == (reduced + [e]) + orig[i + 1..] {
      assert (reduced + orig[i..])[i := e] == (reduced + [e]) + orig[i + 1..];
    }
  }

  /** The third loop: for every entry i still active, each later entry j
      == to it is made inactive. */
  method MarkDuplicates(list: array<seq<bv8>>, count: int, active: array<bool>)
    requires 0 <= count <= list.Length && count <= active.Length
    requires Stored(list[..count]) && forall k | 0 <= k < count :: active[k]
    modifies active
    ensures forall k | 0 <= k < count :: active[k] == Active(list[..count], EqualPolys, k)
  {
    ghost var l := list[..count];
    var i := 0;
    while i < count
      invariant 0 <= i <= count
      invariant forall k | 0 <= k < i :: active[k] == Active(l, EqualPolys, k)
      invariant forall k | i <= k < count :: active[k] == ClearOf(l, EqualPolys, k, i)
    {
      assert active[i] == Active(l, EqualPolys, i);
      if active[i] {
        Sweep(list, count, active, i);
      }
      forall k | i + 1 <= k < count
        ensures active[k] == ClearOf(l, EqualPolys, k, i + 1)
      {
        ClearOfStep(l, EqualPolys, k, i);
      }
      i := i + 1;
    }
  }

  /** The inner loop of the third: entry i is active; every later entry ==
      to it becomes inactive. */
  method Sweep(list: array<seq<bv8>>, count: int, active: array<bool>, i: int)
    requires 0 <= i < count <= list.Length && count <= active.Length
    requires Stored(list[..count]) && active[i]
    modifies active
    ensures forall k | 0 <= k <= i :: active[k] == old(active[k])
    ensures forall k | i < k < count :: active[k] == (old(active[k]) && !EqualPolys(list[i], list[k]))
  {
    var j := i + 1;
    while j < count
      invariant i + 1 <= j <= count
      invariant forall k | 0 <= k <= i :: active[k] == old(active[k])
      invariant forall k | i < k < j :: active[k] == (old(active[k]) && !EqualPolys(list[i], list[k]))
      invariant forall k | j <= k < count :: active[k] == old(active[k])
    {
      assert list[..count][i] == list[i] && list[..count][j] == list[j];
      var same := PolysEqual(list[i], list[j]);
      if same {
        active[j] := false;
      }
      j := j + 1;
    }
  }

  /** The entries below n whose flag is set, in their order in the list. */
  function Filter(l: seq<seq<bv8>>, flags: seq<bool>, n: int): seq<seq<bv8>>
    requires 0 <= n <= |l| && n <= |flags|
  {
    if n == 0 then [] else Filter(l, flags, n - 1) + (if flags[n - 1] then [l[n - 1]] else [])
  }

  /** Filtering by the flags the duplicate scan leaves gives the survivors. */
  lemma {:induction false} FilterSurvivors(l: seq<seq<bv8>>, same: Relation, flags: seq<bool>, n: int)
    requires 0 <= n <= |l| && n <= |flags|
    requires forall k | 0 <= k < n :: flags[k] == Active(l, same, k)
    ensures Filter(l, flags, n) == Survivors(l, same, n)
  {
    if n > 0 {
      FilterSurvivors(l, same, flags, n - 1);
    }
  }

  /** The last loop: the active entries are moved down, in order, to the
      front of the list. */
  method Compact(list: array<seq<bv8>>, count: int, active: array<bool>) returns (newCount: int)
    requires 0 <= count <= list.Length && count <= active.Length
    modifies list
    ensures 0 <= newCount <= count
    ensures list[..newCount] == Filter(old(list[..count]), active[..count], count)
    ensures list[count..] == old(list[count..])
  {
    ghost var l := list[..count];
    ghost var flags := active[..count];
    newCount := 0;
    var i := 0;
    while i < count
      invariant 0 <= newCount <= i <= count
      invariant list[..newCount] == Filter(l, flags, i)
      invariant list[i..] == old(list[i..])
    {
      assert list[i] == l[i] && active[i] == flags[i];
      if active[i] {
        ghost var front := list[..newCount];
        if i > newCount {
          list[newCount] := list[i];
        }
        assert list[..newCount + 1] == front + [l[i]];
        newCount := newCount + 1;
      }
      i := i + 1;
    }
  }

  // Lineage: where the entries of a shortened list come from. Each
  // direction is its own predicate, so that a proof about one direction does
  // not see the other.

  /** One pass of shorten_poly_list can turn a into b: some result of
      quick_simplify on a is == to b. */
  ghost predicate Step(a: seq<bv8>, b: seq<bv8>) {
    exists e, red :: Reduces(a, e, red) && EqualPolys(b, e)
  }

  /** b comes from a through n steps of step. */
  ghost predicate DescendsIn(a: seq<bv8>, b: seq<bv8>, step: Relation, n: nat)
    decreases n
  {
    if n == 0 then a == b else exists m :: DescendsIn(a, m, step, n - 1) && step(m, b)
  }

  /** b comes from a through some number of steps. */
  ghost predicate Descends(a: seq<bv8>, b: seq<bv8>, step: Relation) {
    exists n: nat :: DescendsIn(a, b, step, n)
  }

  /** Every polynomial descends from itself. */
  lemma DescendsSelf(a: seq<bv8>, step: Relation)
    ensures Descends(a, a, step)
  {
    assert DescendsIn(a, a, step, 0);
  }

  /** A step after a descent is a descent. */
  lemma DescendsThen(a: seq<bv8>, m: seq<bv8>, b: seq<bv8>, step: Relation)
    requires Descends(a, m, step) && step(m, b)
    ensures Descends(a, b, step)
  {
    var n: nat :| DescendsIn(a, m, step, n);
    assert DescendsIn(a, b, step, n + 1);
  }

  lemma {:induction false} DescendsInTrans(a: seq<bv8>, m: seq<bv8>, b: seq<bv8>, step: Relation, n1: nat, n2: nat)
    requires DescendsIn(a, m, step, n1) && DescendsIn(m, b, step, n2)
    ensures DescendsIn(a, b, step, n1 + n2)
    decreases n2
  {
    if n2 > 0 {
      var x :| DescendsIn(m, x, step, n2 - 1) && step(x, b);
      DescendsInTrans(a, m, x, step, n1, n2 - 1);
      assert DescendsIn(a, x, step, n1 + n2 - 1);
    }
  }

  /** Descent is transitive. */
  lemma DescendsTrans(a: seq<bv8>, m: seq<bv8>, b: seq<bv8>, step: Relation)
    requires Descends(a, m, step) && Descends(m, b, step)
    ensures Descends(a, b, step)
  {
    var n1: nat :| DescendsIn(a, m, step, n1);
    var n2: nat :| DescendsIn(m, b, step, n2);
    DescendsInTrans(a, m, b, step, n1, n2);
  }

  /** Every entry of l has a pass to an entry of l'. */
  ghost predicate PassReaches(l: seq<seq<bv8>>, l': seq<seq<bv8>>) {
    forall a | a in l :: exists b | b in l' :: Step(a, b)
  }

  /** Every entry of l' is a pass from an entry of l. */
  ghost predicate PassComesFrom(l: seq<seq<bv8>>, l': seq<seq<bv8>>) {
    forall b | b in l' :: exists a | a in l :: Step(a, b)
  }

  /** Every entry of orig has a descendant in l. */
  ghost predicate Reaches(orig: seq<seq<bv8>>, l: seq<seq<bv8>>) {
    forall a | a in orig :: exists b | b in l :: Descends(a, b, Step)
  }

  /** Every entry of l descends from an entry of orig. */
  ghost predicate ComesFrom(orig: seq<seq<bv8>>, l: seq<seq<bv8>>) {
    forall b | b in l :: exists a | a in orig :: Descends(a, b, Step)
  }

  /** l is where a number of passes took orig, both ways. */
  ghost predicate Linked(orig: seq<seq<bv8>>, l: seq<seq<bv8>>) {
    Reaches(orig, l) && ComesFrom(orig, l)
  }

  /** A list is linked to itself. */
  lemma LinkedSelf(l: seq<seq<bv8>>)
    ensures Linked(l, l)
  {
    forall a | a in l
      ensures exists b | b in l :: Descends(a, b, Step)
    {
      DescendsSelf(a, Step);
    }
    forall b | b in l
      ensures exists a | a in l :: Descends(a, b, Step)
    {
      DescendsSelf(b, Step);
    }
  }

  /** A polynomial matched in l (one of its reductions is == to an entry)
      has a descendant in every list that l reaches. */
  lemma MatchedReaches(l: seq<seq<bv8>>, l': seq<seq<bv8>>, c: seq<bv8>)
    requires Matched(l, c) && Reaches(l, l')
    ensures exists y | y in l' :: Descends(c, y, Step)
  {
    var e, red, i :| 0 <= i < |l| && Reduces(c, e, red) && EqualPolys(l[i], e);
    assert Step(c, l[i]);
    DescendsSelf(c, Step);
    DescendsThen(c, c, l[i], Step);
    assert l[i] in l;
    var y :| y in l' && Descends(l[i], y, Step);
    DescendsTrans(c, l[i], y, Step);
  }

  lemma ReachesPass(orig: seq<seq<bv8>>, l: seq<seq<bv8>>, l': seq<seq<bv8>>)
    requires Reaches(orig, l) && PassReaches(l, l')
    ensures Reaches(orig, l')
  {
    forall a | a in orig
      ensures exists b | b in l' :: Descends(a, b, Step)
    {
      var m :| m in l && Descends(a, m, Step);
      var b :| b in l' && Step(m, b);
      DescendsThen(a, m, b, Step);
    }
  }

  lemma ComesFromPass(orig: seq<seq<bv8>>, l: seq<seq<bv8>>, l': seq<seq<bv8>>)
    requires ComesFrom(orig, l) && PassComesFrom(l, l')
    ensures ComesFrom(orig, l')
  {
    forall b | b in l'
      ensures exists a | a in orig :: Descends(a, b, Step)
    {
      var m :| m in l && Step(m, b);
      var a :| a in orig && Descends(a, m, Step);
      DescendsThen(a, m, b, Step);
    }
  }

  /** One more pass keeps a list linked to where it came from. */
  lemma LinkedPass(orig: seq<seq<bv8>>, l: seq<seq<bv8>>, l': seq<seq<bv8>>)
    requires Linked(orig, l) && PassReaches(l, l') && PassComesFrom(l, l')
    ensures Linked(orig, l')
  {
    ReachesPass(orig, l, l');
    ComesFromPass(orig, l, l');
  }

  lemma ReachesTrans(x: seq<seq<bv8>>, y: seq<seq<bv8>>, z: seq<seq<bv8>>)
    requires Reaches(x, y) && Reaches(y, z)
    ensures Reaches(x, z)
  {
    forall a | a in x
      ensures exists b | b in z :: Descends(a, b, Step)
    {
      var m :| m in y && Descends(a, m, Step);
      var b :| b in z && Descends(m, b, Step);
      DescendsTrans(a, m, b, Step);
    }
  }

  lemma ComesFromTrans(x: seq<seq<bv8>>, y: seq<seq<bv8>>, z: seq<seq<bv8>>)
    requires ComesFrom(x, y) && ComesFrom(y, z)
    ensures ComesFrom(x, z)
  {
    forall b | b in z
      ensures exists a | a in x :: Descends(a, b, Step)
    {
      var m :| m in y && Descends(m, b, Step);
      var a :| a in x && Descends(a, m, Step);
      DescendsTrans(a, m, b, Step);
    }
  }

  /** Linked lists compose. */
  lemma LinkedTrans(x: seq<seq<bv8>>, y: seq<seq<bv8>>, z: seq<seq<bv8>>)
    requires Linked(x, y) && Linked(y, z)
    ensures Linked(x, z)
  {
    ReachesTrans(x, y, z);
    ComesFromTrans(x, y, z);
  }

  /** Reducing a to e and finding e == to b is a pass. */
  lemma StepBy(a: seq<bv8>, e: seq<bv8>, red: Reduction, b: seq<bv8>)
    requires Reduces(a, e, red) && EqualPolys(b, e)
    ensures Step(a, b)
  {
  }

  /** Each entry's reduced form is == to a survivor, so every entry has a
      pass to a survivor. */
  lemma SurvivorsReached(l: seq<seq<bv8>>, reduced: seq<seq<bv8>>, reds: seq<Reduction>)
    requires |reduced| == |reds| == |l|
    requires forall k | 0 <= k < |l| :: Reduces(l[k], reduced[k], reds[k])
    ensures PassReaches(l, Survivors(reduced, EqualPolys, |l|))
  {
    var s := Survivors(reduced, EqualPolys, |l|);
    forall k | 0 <= k < |l|
      ensures exists b | b in s :: Step(l[k], b)
    {
      var b := SurvivorOf(reduced, k, l[k], reds[k]);
    }
    ReachesByIndex(l, s);
  }

  lemma ReachesByIndex(l: seq<seq<bv8>>, l': seq<seq<bv8>>)
    requires forall k | 0 <= k < |l| :: exists b | b in l' :: Step(l[k], b)
    ensures PassReaches(l, l')
  {
    forall x | x in l
      ensures exists b | b in l' :: Step(x, b)
    {
      var k :| 0 <= k < |l| && l[k] == x;
    }
  }

  /** The survivor that stands for the reduced form of entry k. */
  lemma SurvivorOf(reduced: seq<seq<bv8>>, k: int, x: seq<bv8>, red: Reduction) returns (b: seq<bv8>)
    requires 0 <= k < |reduced| && Reduces(x, reduced[k], red)
    ensures b in Survivors(reduced, EqualPolys, |reduced|) && Step(x, b)
  {
    var s, kept := Survivors(reduced, EqualPolys, |reduced|), Kept(reduced, EqualPolys, |reduced|);
    EqualPolysReflexive(reduced[k]);
    EveryEntryRepresented(reduced, EqualPolys, k);
    var a :| 0 <= a < |kept| && kept[a] <= k && EqualPolys(s[a], reduced[k]);
    b := s[a];
    StepBy(x, reduced[k], red, b);
  }

  /** Each survivor is the reduced form of an entry, so every survivor is a
      pass from an entry. */
  lemma SurvivorsCome(l: seq<seq<bv8>>, reduced: seq<seq<bv8>>, reds: seq<Reduction>)
    requires |reduced| == |reds| == |l|
    requires forall k | 0 <= k < |l| :: Reduces(l[k], reduced[k], reds[k])
    ensures PassComesFrom(l, Survivors(reduced, EqualPolys, |l|))
  {
    var s, kept := Survivors(reduced, EqualPolys, |l|), Kept(reduced, EqualPolys, |l|);
    SurvivorsAt(reduced, EqualPolys, |l|);
    forall b | b in s
      ensures exists x | x in l :: Step(x, b)
    {
      var j :| 0 <= j < |s| && s[j] == b;
      var k := kept[j];
      EqualPolysReflexive(reduced[k]);
      StepBy(l[k], reduced[k], reds[k], s[j]);
      assert l[k] in l;
    }
  }

  /** shorten_poly_list: the active flags (an array of maxPolys entries,
      MAX_NUM_POLYS, so the list may hold no more), every entry simplified by
      quick_simplify, the later entries == to an earlier active one marked
      inactive, and the active entries moved to the front in order. */
  method ShortenPolyList(wait: int, randomJumps: int, list: array<seq<bv8>>, count: int, maxPolys: int,
                         rand: nat -> nat, cursor: nat)
    returns (newCount: int, next: nat, ghost reduced: seq<seq<bv8>>, ghost reds: seq<Reduction>)
    requires 0 <= count <= list.Length && count <= maxPolys && Stored(list[..count])
    modifies list
    ensures |reduced| == |reds| == count
    ensures forall k | 0 <= k < count :: Reduces(old(list[..count])[k], reduced[k], reds[k])
    ensures 0 <= newCount <= count && list[..newCount] == Survivors(reduced, EqualPolys, count)
    ensures Stored(list[..newCount]) && NoneEqualBefore(list[..newCount], 0)
    ensures forall i, j | 0 <= i < newCount && 0 <= j < newCount && i != j :: !EqualPolys(list[i], list[j])
    ensures list[count..] == old(list[count..])
    ensures PassReaches(old(list[..count]), list[..newCount]) && PassComesFrom(old(list[..count]), list[..newCount])
  {
    ghost var orig := list[..count];
    var active := new bool[maxPolys];
    Activate(active, count);
    next, reduced, reds := ReduceAll(list, count, wait, randomJumps, rand, cursor);
    MarkDuplicates(list, count, active);
    newCount := Compact(list, count, active);
    FilterSurvivors(reduced, EqualPolys, active[..count], count);
    ghost var kept := list[..newCount];
    SurvivorsDistinct(reduced, kept);
    forall i, j | 0 <= i < newCount && 0 <= j < newCount && i != j
      ensures !EqualPolys(list[i], list[j])
    {
      assert list[i] == kept[i] && list[j] == kept[j];
    }
    SurvivorsReached(orig, reduced, reds);
    SurvivorsCome(orig, reduced, reds);
  }

  /** One loop of simplify_poly_list: times passes of shorten_poly_list with
      the same wait and random jumps. */
  method Passes(times: int, wait: int, randomJumps: int, list: array<seq<bv8>>, count: int, maxPolys: int,
                rand: nat -> nat, cursor: nat)
    returns (newCount: int, next: nat)
    requires 0 <= count <= list.Length && count <= maxPolys && Stored(list[..count])
    requires NoneEqualBefore(list[..count], 0) || times > 0
    modifies list
    ensures 0 <= newCount <= count && Stored(list[..newCount]) && NoneEqualBefore(list[..newCount], 0)
    ensures Linked(old(list[..count]), list[..newCount])
  {
    ghost var orig := list[..count];
    LinkedSelf(orig);
    newCount, next := count, cursor;
    var i := 0;
    while i < times
      invariant 0 <= newCount <= count && Stored(list[..newCount])
      invariant NoneEqualBefore(list[..newCount], 0) || (i == 0 && times > 0)
      invariant Linked(orig, list[..newCount])
    {
      ghost var before := list[..newCount];
      ghost var reduced, reds;
      newCount, next, reduced, reds := ShortenPolyList(wait, randomJumps, list, newCount, maxPolys, rand, next);
      LinkedPass(orig, before, list[..newCount]);
      i := i + 1;
    }
  }

  /** simplify_poly_list: shorten_poly_list with (wait, random jumps)
      (10, 3), (50, 5), 100 times (50, 5), 10 times (100, 10), 100 times
      (50, 5) and 10 times (100, 10). */
  method SimplifyPolyList(list: array<seq<bv8>>, count: int, maxPolys: int, rand: nat -> nat, cursor: nat)
    returns (newCount: int, next: nat)
    requires 0 <= count <= list.Length && count <= maxPolys && Stored(list[..count])
    modifies list
    ensures 0 <= newCount <= count && Stored(list[..newCount]) && NoneEqualBefore(list[..newCount], 0)
    ensures Linked(old(list[..count]), list[..newCount])
  {
    ghost var l0 := list[..count];
    ghost var reduced, reds;
    LinkedSelf(l0);
    newCount, next, reduced, reds := ShortenPolyList(10, 3, list, count, maxPolys, rand, cursor);
    ghost var l1 := list[..newCount];
    LinkedPass(l0, l0, l1);
    newCount, next, reduced, reds := ShortenPolyList(50, 5, list, newCount, maxPolys, rand, next);
    ghost var l2 := list[..newCount];
    LinkedPass(l0, l1, l2);
    newCount, next := Passes(100, 50, 5, list, newCount, maxPolys, rand, next);
    ghost var l3 := list[..newCount];
    LinkedTrans(l0, l2, l3);
    newCount, next := Passes(10, 100, 10, list, newCount, maxPolys, rand, next);
    ghost var l4 := list[..newCount];
    LinkedTrans(l0, l3, l4);
    newCount, next := Passes(100, 50, 5, list, newCount, maxPolys, rand, next);
    ghost var l5 := list[..newCount];
    LinkedTrans(l0, l4, l5);
    newCount, next := Passes(10, 100, 10, list, newCount, maxPolys, rand, next);
    LinkedTrans(l0, l5, list[..newCount]);
  }
}
