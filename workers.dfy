/** The work of classes.cpp around the enumerator: the bases are dealt out
    to the workers in contiguous blocks whose sizes differ by at most one;
    each worker (thread_function) generates the list of its bases and
    shortens it; mix_poly_lists concatenates the worker lists in worker
    order and simplifies the result. */
module Workers {
  import opened TermSets
  import opened Truth
  import opened Poly
  import opened Enumerator
  import opened Lists

  /** The blocks one after the other. */
  function Concat<T>(ws: seq<seq<T>>): seq<T> {
    if |ws| == 0 then [] else Concat(ws[..|ws| - 1]) + ws[|ws| - 1]
  }

  /** The sum of the entries. */
  function Sum(cs: seq<int>): int {
    if |cs| == 0 then 0 else Sum(cs[..|cs| - 1]) + cs[|cs| - 1]
  }

  /** The blocks up to i + 1 are those up to i and block i. */
  lemma ConcatStep<T>(ws: seq<seq<T>>, i: int)
    requires 0 <= i < |ws|
    ensures Concat(ws[..i + 1]) == Concat(ws[..i]) + ws[i]
  {
    assert ws[..i + 1][..i] == ws[..i];
  }

  /** The concatenation is as long as the blocks together. */
  lemma {:induction false} ConcatLength<T>(ws: seq<seq<T>>)
    ensures |Concat(ws)| == Sum(seq(|ws|, i requires 0 <= i < |ws| => |ws[i]|))
  {
    if |ws| > 0 {
      var n := |ws| - 1;
      ConcatLength(ws[..n]);
      var lens := seq(|ws|, i requires 0 <= i < |ws| => |ws[i]|);
      assert lens[..n] == seq(n, i requires 0 <= i < n => |ws[..n][i]|);
    }
  }

  /** A prefix of the blocks concatenates to a prefix of the whole. */
  lemma {:induction false} ConcatPrefix<T>(ws: seq<seq<T>>, i: int)
    requires 0 <= i <= |ws|
    ensures Concat(ws) == Concat(ws[..i]) + Concat(ws[i..])
    decreases |ws|
  {
    if i < |ws| {
      var n := |ws| - 1;
      ConcatPrefix(ws[..n], i);
      assert ws[..n][..i] == ws[..i];
      assert ws[i..][..|ws[i..]| - 1] == ws[..n][i..];
    } else {
      assert ws[..i] == ws;
      assert ws[i..] == [];
    }
  }

  /** Every entry of stored lists, one after another, is stored. */
  lemma {:induction false} ConcatStored(ws: seq<seq<seq<bv8>>>)
    requires forall i | 0 <= i < |ws| :: Stored(ws[i])
    ensures Stored(Concat(ws))
  {
    if |ws| > 0 {
      ConcatStored(ws[..|ws| - 1]);
    }
  }

  // The partition of read_file_init_thread_data

  /** How many bases worker t gets: one in turn to each worker, starting with
      worker 0. */
  function Share(numBases: int, threads: int, t: int): int
    requires threads > 0
  {
    numBases / threads + (if t < numBases % threads then 1 else 0)
  }

  /** Euclidean division is unique. */
  lemma DivModUnique(n: int, d: int, q: int, r: int)
    requires d > 0 && 0 <= r < d && 0 <= q && n == q * d + r
    ensures n / d == q && n % d == r
  {
    var k, m := n / d, n % d;
    assert n == k * d + m;
    var x := q - k;
    assert x * d == m - r by {
      assert x * d == q * d - k * d;
    }
    if x >= 1 {
      assert x * d >= d by {
        assert x * d == (x - 1) * d + d;
        MulNonNegative(x - 1, d);
      }
    } else if x <= -1 {
      MulNonNegative(-x - 1, d);
    }
  }

  /** A product of non-negative factors is not negative. */
  lemma MulNonNegative(a: int, b: int)
    requires a >= 0 && b >= 0
    ensures a * b >= 0
  {
  }

  /** The shares add up to the number of bases. */
  lemma {:induction false} ShareSum(numBases: int, threads: int, n: int)
    requires threads > 0 && 0 <= numBases && 0 <= n <= threads
    ensures Sum(seq(n, t requires 0 <= t < n => Share(numBases, threads, t)))
            == n * (numBases / threads) + (if n < numBases % threads then n else numBases % threads)
  {
    if n > 0 {
      ShareSum(numBases, threads, n - 1);
      var s := seq(n, t requires 0 <= t < n => Share(numBases, threads, t));
      assert s[..n - 1] == seq(n - 1, t requires 0 <= t < n - 1 => Share(numBases, threads, t));
    }
  }

  /** All the bases are handed out. */
  lemma AllShared(numBases: int, threads: int)
    requires threads > 0 && 0 <= numBases
    ensures Sum(seq(threads, t requires 0 <= t < threads => Share(numBases, threads, t))) == numBases
  {
    ShareSum(numBases, threads, threads);
    assert numBases == threads * (numBases / threads) + numBases % threads;
  }

  /** The counting loops of read_file_init_thread_data: every worker starts
      with no bases; then the bases are counted out one at a time, a counter
      c running over the workers. */
  method CountBases(numBases: int, threads: int) returns (counts: array<int>)
    requires threads > 0 && 0 <= numBases
    ensures fresh(counts) && counts.Length == threads
    ensures forall t | 0 <= t < threads :: counts[t] == Share(numBases, threads, t)
    ensures forall a, b | 0 <= a < threads && 0 <= b < threads :: counts[a] <= counts[b] + 1
  {
    counts := new int[threads];
    var i := 0;
    while i < threads
      invariant 0 <= i <= threads
      invariant forall t | 0 <= t < i :: counts[t] == 0
    {
      counts[i] := 0;
      i := i + 1;
    }
    var c := 0;
    ghost var q := 0;
    i := 0;
    while i < numBases
      invariant 0 <= i <= numBases && 0 <= c < threads && i == q * threads + c
      invariant forall t | 0 <= t < threads :: counts[t] == q + (if t < c then 1 else 0)
    {
      counts[c] := counts[c] + 1;
      c := c + 1;
      if c == threads {
        DivModUnique(c, threads, 1, 0);
        q := q + 1;
      } else {
        DivModUnique(c, threads, 0, c);
      }
      c := c % threads;
      i := i + 1;
    }
    DivModUnique(numBases, threads, q, c);
  }

  /** Where the block of worker t starts. */
  function Start(counts: seq<int>, t: int): int
    requires 0 <= t <= |counts|
  {
    Sum(counts[..t])
  }

  /** The block of worker t ends where the block of worker t + 1 starts, and
      within all the bases. */
  lemma StartStep(counts: seq<int>, t: int)
    requires 0 <= t < |counts|
    ensures Start(counts, t + 1) == Start(counts, t) + counts[t]
  {
    assert counts[..t + 1][..t] == counts[..t];
  }

  /** With no negative count, the starts ascend up to the sum. */
  lemma {:induction false} StartBound(counts: seq<int>, t: int)
    requires 0 <= t <= |counts| && forall u | 0 <= u < |counts| :: counts[u] >= 0
    ensures 0 <= Start(counts, t) <= Sum(counts)
    decreases |counts| - t
  {
    SumNonNegative(counts[..t]);
    if t < |counts| {
      StartStep(counts, t);
      StartBound(counts, t + 1);
    } else {
      assert counts[..t] == counts;
    }
  }

  /** A sum of counts is not negative. */
  lemma {:induction false} SumNonNegative(cs: seq<int>)
    requires forall u | 0 <= u < |cs| :: cs[u] >= 0
    ensures Sum(cs) >= 0
  {
    if |cs| > 0 {
      SumNonNegative(cs[..|cs| - 1]);
    }
  }

  /** The inner copying loop of read_file_init_thread_data: the next n
      bases of each list, a counter c running over the bases. */
  method CopyBlock(bases1: seq<seq<bv8>>, bases2: seq<seq<bv8>>, c: int, n: int)
    returns (block1: seq<seq<bv8>>, block2: seq<seq<bv8>>, next: int)
    requires 0 <= c && 0 <= n && c + n <= |bases1| == |bases2|
    ensures next == c + n && block1 == bases1[c..next] && block2 == bases2[c..next]
  {
    block1, block2, next := [], [], c;
    var j := 0;
    while j < n
      invariant 0 <= j <= n && next == c + j
      invariant block1 == bases1[c..next] && block2 == bases2[c..next]
    {
      block1 := block1 + [bases1[next]];
      block2 := block2 + [bases2[next]];
      next := next + 1;
      j := j + 1;
    }
  }

  /** Worker t's block of a base list is the next cs[t] bases after the
      blocks of workers 0 to t - 1. */
  ghost predicate Dealt(block: seq<seq<bv8>>, bases: seq<seq<bv8>>, cs: seq<int>, t: int) {
    && 0 <= t < |cs|
    && 0 <= Start(cs, t) <= Start(cs, t) + cs[t] <= |bases|
    && block == bases[Start(cs, t)..Start(cs, t) + cs[t]]
  }

  /** The copying loops of read_file_init_thread_data: worker i gets the next
      counts[i] bases of each list. */
  method Distribute(bases1: seq<seq<bv8>>, bases2: seq<seq<bv8>>, counts: array<int>)
    returns (blocks1: array<seq<seq<bv8>>>, blocks2: array<seq<seq<bv8>>>)
    requires |bases1| == |bases2| && Sum(counts[..]) == |bases1|
    requires forall t | 0 <= t < counts.Length :: counts[t] >= 0
    ensures fresh(blocks1) && fresh(blocks2) && blocks1.Length == blocks2.Length == counts.Length
    ensures forall t | 0 <= t < counts.Length ::
              Dealt(blocks1[t], bases1, counts[..], t) && Dealt(blocks2[t], bases2, counts[..], t)
  {
    blocks1 := new seq<seq<bv8>>[counts.Length](_ => []);
    blocks2 := new seq<seq<bv8>>[counts.Length](_ => []);
    ghost var cs := counts[..];
    var c := 0;
    var i := 0;
    while i < counts.Length
      invariant 0 <= i <= counts.Length && c == Start(cs, i)
      invariant forall t | 0 <= t < i :: Dealt(blocks1[t], bases1, cs, t) && Dealt(blocks2[t], bases2, cs, t)
    {
      StartStep(cs, i);
      StartBound(cs, i + 1);
      StartBound(cs, i);
      var b1, b2, next := CopyBlock(bases1, bases2, c, counts[i]);
      blocks1[i] := b1;
      blocks2[i] := b2;
      assert Dealt(blocks1[i], bases1, cs, i) && Dealt(blocks2[i], bases2, cs, i);
      c := next;
      i := i + 1;
    }
    assert cs == counts[..];
  }

  /** Laying the blocks of Distribute one after another gives back the base
      list, so every base goes to exactly one worker, in order. */
  lemma {:induction false} DealtPrefix(blocks: seq<seq<seq<bv8>>>, bases: seq<seq<bv8>>, cs: seq<int>, i: int)
    requires |blocks| == |cs| && 0 <= i <= |cs|
    requires forall t | 0 <= t < |cs| :: Dealt(blocks[t], bases, cs, t)
    ensures 0 <= Start(cs, i) <= |bases| && Concat(blocks[..i]) == bases[..Start(cs, i)]
  {
    if i == 0 {
      assert blocks[..0] == [];
    } else {
      DealtPrefix(blocks, bases, cs, i - 1);
      ConcatStep(blocks, i - 1);
      StartStep(cs, i - 1);
      assert Dealt(blocks[i - 1], bases, cs, i - 1);
      assert bases[..Start(cs, i - 1)] + bases[Start(cs, i - 1)..Start(cs, i)] == bases[..Start(cs, i)];
    }
  }

  /** All the blocks together are the base list. */
  lemma DealtAll(blocks: seq<seq<seq<bv8>>>, bases: seq<seq<bv8>>, cs: seq<int>)
    requires |blocks| == |cs| && Sum(cs) == |bases|
    requires forall t | 0 <= t < |cs| :: Dealt(blocks[t], bases, cs, t)
    ensures Concat(blocks) == bases
  {
    DealtPrefix(blocks, bases, cs, |cs|);
    assert blocks[..|cs|] == blocks && cs[..|cs|] == cs;
  }

  /** read_file_init_thread_data after the file is read: the bases are
      counted out to the workers, then dealt to them in contiguous blocks.
      Each worker gets its share, the shares differ by at most one, and the
      blocks laid end to end give back both base lists. */
  method InitThreadData(bases1: seq<seq<bv8>>, bases2: seq<seq<bv8>>, threads: int)
    returns (counts: array<int>, blocks1: array<seq<seq<bv8>>>, blocks2: array<seq<seq<bv8>>>)
    requires threads > 0 && |bases1| == |bases2|
    ensures counts.Length == blocks1.Length == blocks2.Length == threads
    ensures forall t | 0 <= t < threads :: |blocks1[t]| == |blocks2[t]| == Share(|bases1|, threads, t)
    ensures forall a, b | 0 <= a < threads && 0 <= b < threads :: |blocks1[a]| <= |blocks1[b]| + 1
    ensures Concat(blocks1[..]) == bases1 && Concat(blocks2[..]) == bases2
  {
    counts := CountBases(|bases1|, threads);
    AllShared(|bases1|, threads);
    assert counts[..] == seq(threads, t requires 0 <= t < threads => Share(|bases1|, threads, t));
    blocks1, blocks2 := Distribute(bases1, bases2, counts);
    DealtAll(blocks1[..], bases1, counts[..]);
    DealtAll(blocks2[..], bases2, counts[..]);
  }

  // One worker

  /** A worker's list is none of the tables. */
  ghost predicate ListApart(list: array<seq<bv8>>, tables: Tables) {
    var l: object, m: object, t: object, o: object :=
      list, tables.secondOrderMonomials, tables.secondOrderTable, tables.oneBit;
    l !in {m, t, o}
  }

  /** Every run is a run of its pair of bases on the list the earlier runs
      left, all but the last one finished, and the last one finished when
      complete holds. */
  ghost predicate AllRan(runs: seq<PairRun>, bases1: seq<seq<bv8>>, bases2: seq<seq<bv8>>, weight: int,
                         ts: seq<bv64>, complete: bool)
    decreases |runs|
  {
    && |runs| <= |bases1| && |runs| <= |bases2|
    && (|runs| == 0 ||
        var n := |runs| - 1;
        && AllRan(runs[..n], bases1, bases2, weight, ts, true)
        && Ran(runs[n], bases1[n], bases2[n], weight, ts, Outputs(runs[..n]), complete))
  }

  /** AllRan, run by run. */
  lemma {:induction false} AllRanAt(runs: seq<PairRun>, bases1: seq<seq<bv8>>, bases2: seq<seq<bv8>>, weight: int,
                                    ts: seq<bv64>, complete: bool, i: int)
    requires AllRan(runs, bases1, bases2, weight, ts, complete) && 0 <= i < |runs|
    ensures Ran(runs[i], bases1[i], bases2[i], weight, ts, Outputs(runs[..i]), complete || i < |runs| - 1)
    decreases |runs|
  {
    var n := |runs| - 1;
    if i < n {
      AllRanAt(runs[..n], bases1, bases2, weight, ts, true, i);
      assert runs[..n][..i] == runs[..i];
    }
  }

  /** The polynomials the runs added, one run after another. */
  function Outputs(runs: seq<PairRun>): seq<seq<bv8>> {
    if |runs| == 0 then [] else Outputs(runs[..|runs| - 1]) + runs[|runs| - 1].added
  }

  /** The runs' outputs up to run k come first in the outputs of all runs. */
  lemma {:induction false} OutputsPrefix(runs: seq<PairRun>, k: int)
    requires 0 <= k <= |runs|
    ensures |Outputs(runs[..k])| <= |Outputs(runs)| && Outputs(runs)[..|Outputs(runs[..k])|] == Outputs(runs[..k])
    decreases |runs|
  {
    if k < |runs| {
      var n := |runs| - 1;
      OutputsPrefix(runs[..n], k);
      assert runs[..n][..k] == runs[..k];
    } else {
      assert runs[..k] == runs;
    }
  }

  /** Every accepted leaf of every run, the polynomial rec builds there, has
      a descendant in l through passes of shorten_poly_list. */
  ghost predicate LeavesReach(runs: seq<PairRun>, bases1: seq<seq<bv8>>, bases2: seq<seq<bv8>>, ts: seq<bv64>,
                              l: seq<seq<bv8>>)
  {
    && |ts| == 21
    && forall i, c | 0 <= i < |runs| && i < |bases1| && i < |bases2| && 0 <= c < Pow2(21)
                       && Accepted(runs[i].start, ts, runs[i].target, c) ::
         exists y | y in l :: Descends(LeafCandidate(bases1[i], bases2[i], runs[i].start, ts, runs[i].target, c), y, Step)
  }

  /** Finished runs match every accepted leaf in their outputs, so a list
      their outputs reach holds a descendant of each. */
  lemma LeavesReachOf(runs: seq<PairRun>, bases1: seq<seq<bv8>>, bases2: seq<seq<bv8>>, weight: int,
                      ts: seq<bv64>, l: seq<seq<bv8>>)
    requires |ts| == 21 && AllRan(runs, bases1, bases2, weight, ts, true) && Reaches(Outputs(runs), l)
    ensures LeavesReach(runs, bases1, bases2, ts, l)
  {
    forall i, c | 0 <= i < |runs| && i < |bases1| && i < |bases2| && 0 <= c < Pow2(21)
                  && Accepted(runs[i].start, ts, runs[i].target, c)
      ensures exists y | y in l :: Descends(LeafCandidate(bases1[i], bases2[i], runs[i].start, ts, runs[i].target, c), y, Step)
    {
      LeafReaches(runs, bases1, bases2, weight, ts, l, i, c);
    }
  }

  /** LeavesReachOf for one run i and one leaf c. */
  lemma LeafReaches(runs: seq<PairRun>, bases1: seq<seq<bv8>>, bases2: seq<seq<bv8>>, weight: int,
                    ts: seq<bv64>, l: seq<seq<bv8>>, i: int, c: int)
    requires |ts| == 21 && AllRan(runs, bases1, bases2, weight, ts, true) && Reaches(Outputs(runs), l)
    requires 0 <= i < |runs| && 0 <= c < Pow2(21) && Accepted(runs[i].start, ts, runs[i].target, c)
    ensures exists y | y in l :: Descends(LeafCandidate(bases1[i], bases2[i], runs[i].start, ts, runs[i].target, c), y, Step)
  {
    AllRanAt(runs, bases1, bases2, weight, ts, true, i);
    var cand := LeafCandidate(bases1[i], bases2[i], runs[i].start, ts, runs[i].target, c);
    var upTo := Outputs(runs[..i]) + runs[i].added;
    assert Matched(upTo, cand);
    assert runs[..i + 1][..i] == runs[..i];
    assert Outputs(runs[..i + 1]) == upTo;
    OutputsPrefix(runs, i + 1);
    MatchedGrow(upTo, Outputs(runs), cand);
    MatchedReaches(Outputs(runs), l, cand);
  }

  /** The first half of a turn of the loop of thread_function: both base
      polynomials cleared, then given the pair of bases. */
  method LoadPair(b1: seq<bv8>, b2: seq<bv8>, base1: Polynomial, base2: Polynomial)
    requires |b1| <= Capacity && |b2| <= Capacity
    requires base1.Valid() && base2.Valid() && base1 != base2 && base1.poly != base2.poly
    modifies base1, base1.poly, base2, base2.poly
    ensures base1.Valid() && base2.Valid() && base1.Terms() == b1 && base2.Terms() == b2
  {
    base1.Clear();
    base2.Clear();
    base1.Load(b1);
    base2.Load(b2);
  }

  /** One turn of the loop of thread_function: clear the two base
      polynomials, copy the pair of bases into them and let
      generate_poly_list add to the list. */
  method GeneratePair(b1: seq<bv8>, b2: seq<bv8>, base1: Polynomial, base2: Polynomial, weight: int,
                      list: array<seq<bv8>>, count: int, tables: Tables, wait: int, randomJumps: int,
                      rand: nat -> nat, cursor: nat)
    returns (newCount: int, ok: bool, next: nat, ghost run: PairRun)
    requires SixVar(b1) && |b1| <= Capacity && SixVar(b2) && |b2| <= Capacity
    requires base1.Valid() && base2.Valid() && base1 != base2 && base1.poly != base2.poly
    requires TablesReady(tables) && OwnList(list, tables, base1, base2)
    requires 0 <= count <= list.Length && Stored(list[..count]) && NoneEqualBefore(list[..count], 0)
    modifies list, base1, base1.poly, base2, base2.poly
    ensures base1.Valid() && base2.Valid()
    ensures 0 <= newCount <= list.Length && Stored(list[..newCount]) && NoneEqualBefore(list[..newCount], 0)
    ensures list[..newCount] == old(list[..count]) + run.added
    ensures Ran(run, b1, b2, weight, tables.secondOrderTable[..], old(list[..count]), ok)
    ensures !ok ==> newCount == list.Length
  {
    LoadPair(b1, b2, base1, base2);
    newCount, ok, next, run := GeneratePolyList(base1, base2, weight, list, count, tables, wait, randomJumps, rand, cursor);
    assert base1.Terms() == b1 && base2.Terms() == b2;
    NoneEqualJoin(list[..newCount], 0, count);
  }

  /** thread_function: for each pair of bases in turn, load them into two
      polynomials and let generate_poly_list add its polynomials to the
      worker's list; then shorten the list twice, with wait and random jumps
      (10, 3) and (20, 4). ok == false is the abort of a full list, after
      which nothing more happens. */
  method ThreadFunction(bases1: seq<seq<bv8>>, bases2: seq<seq<bv8>>, weight: int, list: array<seq<bv8>>,
                        tables: Tables, wait: int, randomJumps: int, rand: nat -> nat, cursor: nat)
    returns (numPolys: int, ok: bool, next: nat, ghost runs: seq<PairRun>)
    requires |bases1| == |bases2| && TablesReady(tables) && ListApart(list, tables)
    requires forall i | 0 <= i < |bases1| :: SixVar(bases1[i]) && |bases1[i]| <= Capacity
    requires forall i | 0 <= i < |bases2| :: SixVar(bases2[i]) && |bases2[i]| <= Capacity
    modifies list
    ensures 0 <= numPolys <= list.Length && Stored(list[..numPolys])
    ensures |runs| <= |bases1| && (ok ==> |runs| == |bases1|)
    ensures AllRan(runs, bases1, bases2, weight, tables.secondOrderTable[..], ok)
    ensures ok ==> NoneEqualBefore(list[..numPolys], 0) && Linked(Outputs(runs), list[..numPolys])
    ensures ok ==> LeavesReach(runs, bases1, bases2, tables.secondOrderTable[..], list[..numPolys])
    ensures !ok ==> numPolys == list.Length && list[..numPolys] == Outputs(runs)
  {
    var base1 := new Polynomial();
    var base2 := new Polynomial();
    ghost var ts := tables.secondOrderTable[..];
    numPolys, ok, next, runs := 0, true, cursor, [];
    var i := 0;
    while i < |bases1| && ok
      invariant 0 <= i <= |bases1| && 0 <= numPolys <= list.Length
      invariant Stored(list[..numPolys]) && NoneEqualBefore(list[..numPolys], 0)
      invariant !ok ==> numPolys == list.Length
      invariant base1.Valid() && base2.Valid() && fresh(base1) && fresh(base2) && fresh(base1.poly) && fresh(base2.poly)
      invariant TablesReady(tables) && tables.secondOrderTable[..] == ts
      invariant |runs| == i && list[..numPolys] == Outputs(runs)
      invariant AllRan(runs, bases1, bases2, weight, ts, ok)
    {
      ghost var run;
      ghost var before := runs;
      numPolys, ok, next, run := GeneratePair(bases1[i], bases2[i], base1, base2, weight, list, numPolys, tables,
                                              wait, randomJumps, rand, next);
      runs := runs + [run];
      RunsStep(before, run, bases1, bases2, weight, ts, ok);
      i := i + 1;
    }
    if !ok {
      return;
    }
    ghost var generated := list[..numPolys];
    ghost var reduced, reds;
    LinkedSelf(generated);
    numPolys, next, reduced, reds := ShortenPolyList(10, 3, list, numPolys, list.Length, rand, next);
    ghost var first := list[..numPolys];
    LinkedPass(generated, generated, first);
    numPolys, next, reduced, reds := ShortenPolyList(20, 4, list, numPolys, list.Length, rand, next);
    LinkedPass(generated, first, list[..numPolys]);
    LeavesReachOf(runs, bases1, bases2, weight, ts, list[..numPolys]);
  }

  /** A run appended to finished runs. */
  lemma RunsStep(before: seq<PairRun>, run: PairRun, bases1: seq<seq<bv8>>, bases2: seq<seq<bv8>>,
                 weight: int, ts: seq<bv64>, ok: bool)
    requires |before| < |bases1| && |before| < |bases2| && AllRan(before, bases1, bases2, weight, ts, true)
    requires Ran(run, bases1[|before|], bases2[|before|], weight, ts, Outputs(before), ok)
    ensures Outputs(before + [run]) == Outputs(before) + run.added
    ensures AllRan(before + [run], bases1, bases2, weight, ts, ok)
  {
    assert (before + [run])[..|before|] == before;
  }

  // Mixing the worker lists

  /** The inner loop of mix_poly_lists: the entries of one worker list go to
      the final list from index c on. */
  method CopyList(finalList: array<seq<bv8>>, c: int, w: seq<seq<bv8>>) returns (next: int)
    requires 0 <= c && c + |w| <= finalList.Length
    modifies finalList
    ensures next == c + |w| && finalList[..next] == old(finalList[..c]) + w
    ensures finalList[next..] == old(finalList[next..])
  {
    next := c;
    var j := 0;
    while j < |w|
      invariant 0 <= j <= |w| && next == c + j
      invariant finalList[..next] == old(finalList[..c]) + w[..j]
      invariant finalList[next..] == old(finalList[next..])
    {
      finalList[next] := w[j];
      assert w[..j + 1] == w[..j] + [w[j]];
      next := next + 1;
      j := j + 1;
    }
    assert w[..|w|] == w;
  }

  /** The copying loops of mix_poly_lists: the worker lists, in worker
      order, one after another at the front of the final list. */
  method Concatenate(finalList: array<seq<bv8>>, workers: seq<seq<seq<bv8>>>) returns (c: int)
    requires |Concat(workers)| <= finalList.Length
    modifies finalList
    ensures c == |Concat(workers)| && finalList[..c] == Concat(workers)
  {
    c := 0;
    var i := 0;
    while i < |workers|
      invariant 0 <= i <= |workers| && c == |Concat(workers[..i])| <= finalList.Length
      invariant finalList[..c] == Concat(workers[..i])
    {
      ConcatPrefix(workers, i + 1);
      ConcatStep(workers, i);
      c := CopyList(finalList, c, workers[i]);
      i := i + 1;
    }
    assert workers[..i] == workers;
  }

  /** mix_poly_lists as written: the worker lists are concatenated and
      simplified by simplify_poly_list, whose passes each flag the entries in
      an array of maxPolys entries (MAX_NUM_POLYS), so the total must fit
      there. */
  method MixPolyLists(finalList: array<seq<bv8>>, workers: seq<seq<seq<bv8>>>, maxPolys: int,
                      rand: nat -> nat, cursor: nat)
    returns (finalCount: int, next: nat)
    requires |Concat(workers)| <= finalList.Length && |Concat(workers)| <= maxPolys
    requires forall i | 0 <= i < |workers| :: Stored(workers[i])
    modifies finalList
    ensures 0 <= finalCount <= |Concat(workers)|
    ensures Stored(finalList[..finalCount]) && NoneEqualBefore(finalList[..finalCount], 0)
    ensures Linked(Concat(workers), finalList[..finalCount])
  {
    var c := Concatenate(finalList, workers);
    ConcatStored(workers);
    finalCount, next := SimplifyPolyList(finalList, c, maxPolys, rand, cursor);
  }

  /** Every worker list fits MAX_NUM_POLYS (each is at most one worker's
      list), yet two of them together may not: a full list and one more
      entry overflow the flag array of the first pass of mix_poly_lists. */
  lemma MixOverflow(full: seq<seq<bv8>>, other: seq<seq<bv8>>, maxPolys: int)
    requires |full| == maxPolys && |other| > 0
    ensures |full| <= maxPolys && |Concat([full, other])| > maxPolys
  {
    assert [full, other][..1] == [full];
    assert [full][..0] == [];
  }

  /** mix_poly_lists with the flag arrays sized by the list they flag rather
      than by MAX_NUM_POLYS: any worker lists that fit the final list can be
      mixed. */
  method MixPolyListsSized(finalList: array<seq<bv8>>, workers: seq<seq<seq<bv8>>>, rand: nat -> nat, cursor: nat)
    returns (finalCount: int, next: nat)
    requires |Concat(workers)| <= finalList.Length
    requires forall i | 0 <= i < |workers| :: Stored(workers[i])
    modifies finalList
    ensures 0 <= finalCount <= |Concat(workers)|
    ensures Stored(finalList[..finalCount]) && NoneEqualBefore(finalList[..finalCount], 0)
    ensures Linked(Concat(workers), finalList[..finalCount])
  {
    var c := Concatenate(finalList, workers);
    ConcatStored(workers);
    finalCount, next := SimplifyPolyList(finalList, c, c, rand, cursor);
  }
}
