# Tri_from_RM in Dafny

This project models the search of Tri_from_RM. The program looks for representatives of low-weight
Reed-Muller polynomials of eight variables and degree 4. A polynomial over GF(2) is a list of
monomials. Each monomial is an eight-bit mask: bit i stands for variable x(i+1). The truth table of
a polynomial in the first six variables is the 64 bits of an unsigned long.

The model follows the program's two files.

- `classes.cpp` has four parts:
  - the truth-table helpers `monomial_truth`, `hamming_weight` and `init`;
  - the enumerator: `rec` walks all 2^21 subsets of the 21 monomials of degree at most two in
    x1..x6, and `generate_poly_list` starts it;
  - the list reducers `shorten_poly_list` and `simplify_poly_list`;
  - the work of one worker, the merge of the worker lists, and the way the base pairs are dealt
    to the workers.
- `polynomial.h` is the `Polynomial` class:
  - term storage and copying;
  - the affine moves `plus_one` and `transposition`, and their addition modulo 2 (`mix_buffer_to_replica`);
  - the greedy, randomised minimiser `simplify` / `quick_simplify`;
  - the canonical form `sort`;
  - `operator==`, a backtracking search for a renaming of variables.

Modules:

| file | module | what |
|---|---|---|
| bits.dfy | Bits | monomials as `bv8`: `swap_bit`, `permute_bits`, popcount |
| truth.dfy | Truth | truth tables as `bv64`, `monomial_truth`, `hamming_weight`, class `Tables` (the global tables and `init`) |
| termsets.dfy | TermSets | term lists and their meaning as sets; addition modulo 2; the moves as set transformations |
| canon.dfy | Canon | specification of `sort`: renamings, profiles, orders, bubble-sort potentials |
| equivalence.dfy | Equivalence | what `operator==` decides, and the search state of `rec_permutation_maker` |
| polynomial.dfy | Poly | class `Polynomial` and its methods |
| enumerator.dfy | Enumerator | `rec` and `generate_poly_list` |
| lists.dfy | Lists | `shorten_poly_list`, `simplify_poly_list` |
| workers.dfy | Workers | `thread_function`, `mix_poly_lists`, the partition of the bases |

Representation choices:

- `Polynomial` is a class.
  - Terms are held in a 265-entry `array<bv8>` plus `numTerms`.
  - The profile is an 8-entry `array<int>`.
  - The three buffer pointers are `Polynomial?` fields; null means cleared.
  - `Terms()` is the array prefix, and `Elems(Terms())` is the set it stands for.
- A list of polynomials (`Polynomial poly_list[]`, copied by value in C++) is an `array<seq<bv8>>`.
  Each entry holds one polynomial's terms.
- `rand()` is an explicit function `rand: nat -> nat` read from a cursor. Each method returns the
  advanced cursor.
- Aborts are modelled as a result flag `ok == false` that stops the run:
  - `abort()` in `quick_simplify` when no buffers are set;
  - the capacity check in `rec`.

## Model

| member | source | states |
|---|---|---|
| Bits.SwapBitBits | polynomial.h:229-249 | bit k of swap_bit(num, a, b) is bit Swap(a, b, k) of num: bits a and b are exchanged and every other bit is kept |
| Bits.SwapBitInvolution | polynomial.h:229-249 | swapping the same two bits twice gives back the monomial |
| Bits.SwapBitInjective | polynomial.h:229-249 | swap_bit maps different monomials to different monomials |
| Bits.SwapBitZero | polynomial.h:229-249 | swap_bit gives the constant monomial exactly from the constant monomial |
| Bits.SwapBitPopCount | polynomial.h:229-249 | swap_bit keeps the number of variables of a monomial |
| Bits.PermutedBits | polynomial.h:183-190 | for an injective perm, bit perm[i] of permute_bits(num, perm) is bit i of num |
| Bits.PermutedInjective | polynomial.h:183-190 | permute_bits with a bijection maps distinct monomials to distinct monomials |
| Bits.PermutedPopCount | polynomial.h:183-190 | permute_bits with a bijection keeps the number of variables of a monomial |
| Bits.PermutedIdentity | polynomial.h:183-190 | permute_bits with the identity returns its argument |
| Bits.PermutedThenSwap | polynomial.h:183-190 | a swap_bit after a permute_bits is one permute_bits with the composed bijection |
| Bits.PermutedCompose | polynomial.h:183-190 | permute_bits with perm, then with next, is one permute_bits with the composed bijection |
| Bits.PermutedInverse | polynomial.h:183-190 | permute_bits with the inverse bijection undoes permute_bits |
| Bits.ThenSwapBijection | polynomial.h:272-289 | composing a bijection with an exchange of two variables gives a bijection |
| Truth.MonomialTruth | classes.cpp:79-86 | bit i of the table is set iff every variable of m is set in i; a monomial in x7 or x8 gives 0 |
| Truth.CoversOne | classes.cpp:79-86 | the constant monomial covers every point, so its table is all ones |
| Truth.Tables.HammingWeight | classes.cpp:89-109 | the result is the number of set bits of the 64-bit argument and lies in 0..64; only one_bit[0..7] is read |
| Truth.HammingWeightBound | classes.cpp:89-109 | the number of set bits of a table is between 0 and 64 |
| Truth.RoundSum | classes.cpp:96-105 | the eight masked, shifted summands of one round add up to the popcount of the low byte |
| Truth.Tables.Init | classes.cpp:112-131 | second_order_monomials holds the 21 basis masks in source order, each second_order_table[k] is the truth table of entry k, and one_bit[k] == 1 << k for k < 31 |
| Truth.BasisSingle | classes.cpp:115-118 | entries 0..5 of the basis are the singletons 1 << i |
| Truth.BasisPair | classes.cpp:119-123 | entry PairIndex(i, j) of the basis is (1 << i) ^ (1 << j), in lexicographic order of i < j |
| Truth.BasisDistinct | classes.cpp:112-126 | the 21 basis masks are pairwise distinct |
| Truth.BasisInSix | classes.cpp:112-126 | every basis mask is nonzero and uses only x1..x6 |
| Truth.IndexOfBasisEntry | classes.cpp:112-126 | each basis mask is found back at its own index |
| TermSets.MixSeqElems | polynomial.h:423-456 | the terms written to replica are those occurring an odd number of times across self and buffer, with zeros of the buffer ignored |
| TermSets.MixSeqProper | polynomial.h:423-456 | when self has distinct nonzero terms, so does replica |
| TermSets.FirstPassKeeps | polynomial.h:426-438 | the first loop keeps, in order and distinct, exactly the terms of self that occur an even number of times in the buffer |
| TermSets.SecondPassAdds | polynomial.h:439-454 | the second loop appends, distinct, exactly the nonzero buffer values not in self that occur an odd number of times in the buffer |
| TermSets.BufferShape | polynomial.h:477-487 | buffer entries lack the source variable, and a transposition writes no zero entry |
| TermSets.BufferToggled | polynomial.h:461-487 | for distinct terms, the buffer's nonzero values of odd multiplicity are the terms the move toggles |
| TermSets.FlipToggled | polynomial.h:461-471 | plus_one toggles each term containing x_v, with x_v removed, exactly once (constant dropped) |
| TermSets.MoveSeqMeaning | polynomial.h:461-487 | what a move leaves in replica is the set self xor buffer, again distinct and nonzero |
| TermSets.MoveSetInvolution | polynomial.h:461-487 | applying the same plus_one or transposition (s != t) twice restores the term set |
| TermSets.MoveSeqInvolution | polynomial.h:461-487 | as lists: moving the result of a move again gives back the original term set |
| TermSets.UndoMoves | polynomial.h:334-359 | any series of valid moves is undone by the same moves in reverse order |
| TermSets.DescendingConcat | polynomial.h:350 | a series of count-lowering moves followed by another from where it ended is a series of count-lowering moves |
| TermSets.DescendingCount | polynomial.h:350 | after a series of k count-lowering moves the set has at least k fewer terms than before |
| TermSets.ProperBound | polynomial.h:18 | distinct nonzero monomials are at most 255, so the 265-entry term array suffices |
| Poly.Polynomial.constructor | polynomial.h:126-129 | a new polynomial has no terms |
| Poly.Polynomial.Clear | polynomial.h:172-178 | no terms and all three buffer pointers unset |
| Poly.Polynomial.SetBuffers | polynomial.h:162-167 | the three buffer pointers are set; the terms stay |
| Poly.Polynomial.AddTerm | polynomial.h:377-382 | the term is appended; the buffers stay |
| Poly.Polynomial.Assign | polynomial.h:134-139 | the terms become a copy of p's terms; the buffer pointers are not copied |
| Poly.Polynomial.TruthTable | polynomial.h:365-371 | bit j of the result is the value of the polynomial at point j (xor of the monomial tables) |
| Poly.Polynomial.ProfileMaker | polynomial.h:254-267 | profile[j] is the number of terms containing variable j |
| Poly.Polynomial.MixBufferToReplica | polynomial.h:423-456 | replica holds exactly the terms of odd multiplicity across self and buffer (zeros ignored), it is distinct and nonzero, and the buffer ends all zero |
| Poly.Polynomial.PlusOne | polynomial.h:461-471 | the buffer is the terms containing x_v with x_v cleared, and replica's set is the move's set self xor toggled images |
| Poly.Polynomial.Transposition | polynomial.h:477-487 | the buffer is (t ^ bit s) or bit t for each term t containing s, and replica's set is the move's set |
| Poly.Polynomial.TryMove | polynomial.h:497-501 | one move of plus_ones or transpositions, kept exactly when it lowers the term count of the set (both directions); a rejected move leaves the terms unchanged |
| Poly.Polynomial.PlusOnes | polynomial.h:493-504 | the result is true iff the term count dropped; the count never rises; the new set is the old one under the kept moves, each of which lowered the count of the set it was applied to; when the result is false nothing changed and no plus_one on any of the 8 variables lowers the count |
| Poly.Polynomial.PlusOneStep | polynomial.h:497-501 | one plus_one of the sweep, kept exactly when it lowers the count, extending the sweep's invariant by that variable |
| Poly.Polynomial.Transpositions | polynomial.h:510-523 | the result is true iff the term count dropped; the count never rises; the new set is the old one under the kept moves, each of which lowered the count; when the result is false nothing changed and no transposition (s, t), s != t, lowers the count |
| Poly.Polynomial.TranspositionRow | polynomial.h:514-521 | the inner loop for source s keeps the sweep's invariant: flag iff the count dropped, kept moves each lower the count, and, while nothing was kept, no transposition from a source up to s lowers it |
| Poly.Polynomial.TranspositionStep | polynomial.h:515-520 | one transposition (s, t) of the sweep, kept exactly when it lowers the count, extending the same invariant by that pair |
| Poly.Polynomial.GreedyCondition | polynomial.h:350 | one evaluation of plus_ones() \|\| transpositions(), short-circuit: true iff the count dropped; every kept move lowers the count; when false the polynomial is unchanged and no single plus_one or transposition lowers its count |
| Poly.Polynomial.Greedy | polynomial.h:350 | the loop of plus_ones and transpositions ends and never raises the term count; every move it keeps lowers the count; at the end no single plus_one or transposition lowers the count (the count is constant under every move) |
| Poly.Polynomial.RandomJumps | polynomial.h:342-349 | random_steps draws of two variables, each pair with a != b applied as a transposition; two draws are used per step; nothing changes when random_steps <= 0 |
| Poly.Polynomial.Simplify | polynomial.h:334-359 | the result is the last snapshot kept in second_replica; it is reached by valid moves; it is the input or a polynomial no single move shortens; with wait >= 1, random_steps <= 0 and fewer than 255 input terms it is always the latter; wait <= 0 leaves the polynomial unchanged; random_steps <= 0 never raises the term count |
| Poly.Polynomial.Round | polynomial.h:342-350 | random jumps then the greedy loop: reached by valid moves and ends with no single move shortening the polynomial |
| Poly.Polynomial.QuickSimplify | polynomial.h:321-329 | aborts exactly when replica is null and then changes nothing; otherwise the result is simplify followed by sort: a renaming of an affine image of the input, strictly ascending, with a non-increasing profile |
| Poly.Polynomial.SwapInTerms | polynomial.h:282-283 | every term has variables i and i + 1 exchanged |
| Poly.Polynomial.SortVariables | polynomial.h:272-289 | the terms are renamed by a bijection, the profile still matches the terms and is non-increasing; an already non-increasing profile leaves the terms unchanged |
| Poly.Polynomial.ExchangeTerms | polynomial.h:302-307 | one exchange keeps the multiset of terms and the profile and lowers the bubble-sort potential |
| Poly.Polynomial.SortTerms | polynomial.h:294-309 | the terms end strictly ascending, as a permutation of the input, with the same profile; already ascending terms are left unchanged |
| Poly.Polynomial.Sort | polynomial.h:314-319 | the terms are a permutation of a renaming of the input, strictly ascending, the profile is that of the terms and non-increasing, and profile[perm[l]] is the old profile entry l; a sorted input is unchanged, so a second sort changes nothing |
| Poly.Polynomial.MapsAll | polynomial.h:197-210 | the leaf test is true iff permute_bits(., perm) sends every term of self to a term of p |
| Poly.Polynomial.RecPermutationMaker | polynomial.h:195-224 | true only with a profile-compatible renaming that sends every term into p; false only when no completion of the current search state does, with perm restored |
| Poly.Polynomial.Extend | polynomial.h:215-222 | one branch of the search: assigning variable i to level lev finds a renaming or rules out every completion through it |
| Poly.Polynomial.Equals | polynomial.h:144-157 | true iff the term counts agree, the profiles agree position by position, and some profile-compatible renaming sends every term of self into p |
| Poly.PolysEqual | polynomial.h:144-157 | operator== on two stored term lists decides EqualPolys |
| Poly.EqualPolysReflexive | polynomial.h:144-157 | every term list is == to itself |
| Poly.EqualPolysSymmetric | polynomial.h:144-157 | for lists of distinct terms, a == b holds iff b == a |
| Poly.EqualPolysTransitive | polynomial.h:144-157 | a == b and b == c give a == c |
| Equivalence.EquivalentReflexive | polynomial.h:195-224 | the identity renaming is compatible with any profile and maps a list onto itself |
| Equivalence.EquivalentSymmetric | polynomial.h:195-224 | for distinct lists of equal length and equal profile, a compatible renaming of s into t has a compatible inverse from t into s |
| Equivalence.EquivalentTransitive | polynomial.h:195-224 | with the profiles of s and t equal, renamings s to t and t to u compose to a compatible renaming s to u |
| Equivalence.MapsOnto | polynomial.h:197-210 | for distinct lists of equal length, a renaming sending every term into the other list renames onto it exactly |
| Equivalence.ProfilesArePositional | polynomial.h:150-152 | {x1} and {x2} are renamings of each other, yet their profiles differ at index 0, so operator== rejects the pair |
| Equivalence.NoneMapsAll | polynomial.h:195-224 | a search that fails at level 0 rules out every compatible renaming |
| Canon.ProfileRenamed | polynomial.h:254-267 | after a renaming, profile entry perm[l] is the old entry l |
| Canon.ProfileSwapAll | polynomial.h:280-287 | exchanging variables i and i + 1 in all terms exchanges their profile entries |
| Canon.SwapAllProper | polynomial.h:282-283 | exchanging two variables keeps the terms distinct and nonzero |
| Canon.ProfileSwapped | polynomial.h:302-307 | exchanging two terms keeps the profile |
| Canon.AscendingStrict | polynomial.h:294-309 | distinct terms with no adjacent pair out of order are strictly ascending |
| Enumerator.IncludeStep | classes.cpp:240 | the include branch xors second_order_table[lev] into the table and appends a 1 to code |
| Enumerator.ExcludeStep | classes.cpp:239 | the exclude branch keeps the table and appends a 0 to code |
| Enumerator.DecodedChosen | classes.cpp:217-223 | the decode loop adds the basis terms of exactly the levels whose bit is set in code, the lowest bit standing for level 20 |
| Enumerator.CandidateLength | classes.cpp:211-225 | the candidate has |B1| + |B2| + (number of included levels) + (1 if complemented) terms |
| Enumerator.CandidateBasis | classes.cpp:217-223 | the tagged basis term k is in the candidate iff level k took the include branch |
| Enumerator.CandidateComplement | classes.cpp:224-225 | the complement term 0b11 is in the candidate iff its weight is 64 - target |
| Enumerator.CandidateProper | classes.cpp:211-225 | with base terms in x1..x6, the candidate's terms are distinct and nonzero |
| Enumerator.TagAllDistinct | classes.cpp:212-215 | tagging keeps a base's terms distinct and marks every one with its tag bits |
| Enumerator.Insert | classes.cpp:227-235 | the entry is appended iff it is == to no entry already present and there is room; the list is full exactly when the run aborts; existing entries are kept |
| Enumerator.StoreOverflows | classes.cpp:230-235 | as written, with the list holding capacity entries, the next new entry is written at index capacity before the run aborts |
| Enumerator.Keep | classes.cpp:226-235 | the candidate is reduced to e as quick_simplify does; e is appended iff the run goes on and e is == to no entry present; when the run goes on some entry is == to a reduction of the candidate |
| Enumerator.Leaf | classes.cpp:208-237 | a leaf whose weight is neither target nor 64 - target adds nothing; otherwise the candidate (complement term exactly for 64 - target) is reduced to e, which is appended iff the run goes on and e is == to no entry already present, and when the run goes on the candidate is matched in the list |
| Enumerator.AtLeaf | classes.cpp:208-237 | what a leaf adds is found at that leaf, and when the run goes on an accepted leaf is matched in the list |
| Enumerator.Rec | classes.cpp:206-242 | everything a node adds comes from accepted leaves below it, in increasing code order, reduced as quick_simplify does; the list stays stored and gains no entry == to an earlier one; when the run goes on, the candidate of every accepted leaf below the node is matched in the list |
| Enumerator.Node | classes.cpp:239-240 | the exclude child then the include child: together they add what the node adds and cover every leaf below it |
| Enumerator.Second | classes.cpp:240 | the include child, run only when the first did not abort, completes what the node adds and covers |
| Enumerator.FoundAtLeaf | classes.cpp:208-237 | the entry a leaf adds is recorded as coming from that leaf |
| Enumerator.FirstIsShift | classes.cpp:239-240 | the leaves below node code of level lev start at code * 2^(21 - lev) |
| Enumerator.IncludeChild | classes.cpp:240 | the table of the include child is the parent table xor second_order_table[lev] |
| Enumerator.MatchedGrow | classes.cpp:227-235 | a list that only grows at its end keeps every match |
| Enumerator.CompleteJoin | classes.cpp:239-240 | leaves matched in two consecutive code ranges, the second after the first has added, are matched across the union |
| Enumerator.CoveredGrow | classes.cpp:227-235 | a covered node stays covered when the list grows at its end |
| Enumerator.CoveredNode | classes.cpp:239-240 | a node whose first child is covered by the list after it and whose second child by the list after both is covered |
| Enumerator.CoveredChildren | classes.cpp:239-240 | a node whose two children are covered is covered |
| Enumerator.LeafComplete | classes.cpp:208-237 | a covered leaf matches its own code if accepted |
| Enumerator.CoveredComplete | classes.cpp:206-242 | a covered node matches every accepted leaf code in its range [First(code, lev), First(code + 1, lev)) |
| Enumerator.RootComplete | classes.cpp:255-256 | a covered root matches every accepted leaf code in [0, 2^21) |
| Enumerator.FromRoot | classes.cpp:255-256 | rec from the root adds only found entries with increasing codes in [0, 2^21) and, when the run goes on, every accepted leaf of all 2^21 codes is matched in the list |
| Enumerator.RanOf | classes.cpp:251-257 | the truth tables, the start table and target, the found entries and, when complete, the matching of all accepted leaves together make one run of the pair |
| Enumerator.Search | classes.cpp:255-256 | given start = t1 xor t2 and target = weight - w(t1) - w(t2), the list grows by exactly the run's entries, with no added entry == to an earlier one, and the run is a run of the pair (complete when not aborted) |
| Enumerator.GeneratePolyList | classes.cpp:251-257 | the bases are unchanged; the list grows by exactly the entries of a run whose t1, t2 are the truth tables of the bases, whose start is t1 xor t2 and target weight - w(t1) - w(t2); each added entry is a reduced candidate of an accepted leaf, in increasing code order, == to no earlier entry; when not aborted, every accepted leaf of all 2^21 codes is matched in the list |
| Lists.ShortenPolyList | classes.cpp:266-289 | every entry is replaced by its simplified form, then the list keeps in order exactly the entries == to no earlier kept one; later entries untouched; every old entry has a pass to a survivor and every survivor is a pass from an old entry |
| Lists.ReduceAll | classes.cpp:272-275 | each entry becomes an affine and renaming image of itself, stored strictly ascending |
| Lists.MarkDuplicates | classes.cpp:276-280 | active[k] ends true iff entry k is == to no earlier active entry |
| Lists.Compact | classes.cpp:281-288 | the active entries move to the front in their order; the count is at most the old count |
| Lists.SurvivorsApart | classes.cpp:266-289 | no two survivors are == |
| Lists.ApartBothWays | classes.cpp:266-289 | for a stored list with no entry == to an earlier one, no two distinct positions are == in either order |
| Lists.SurvivorsDistinct | classes.cpp:266-289 | the survivors of a stored list are stored, and no two survivors at distinct positions are == |
| Lists.DroppedCovered | classes.cpp:276-280 | every dropped entry is == to an earlier survivor |
| Lists.KeptAscending | classes.cpp:281-288 | survivors keep their original relative order |
| Lists.SurvivorsBound | classes.cpp:281-289 | the survivors are at most as many as the entries |
| Lists.SurvivorsReached | classes.cpp:272-288 | each entry has a pass (a quick_simplify result == to it) to some survivor |
| Lists.SurvivorsCome | classes.cpp:272-288 | each survivor is a pass from some entry |
| Lists.SurvivorOf | classes.cpp:276-288 | the reduced form of entry k is represented by a survivor that is a pass from the entry |
| Lists.DescendsTrans | classes.cpp:291-303 | descent through passes is transitive |
| Lists.LinkedSelf | classes.cpp:291-303 | a list is linked to itself: no passes made |
| Lists.LinkedPass | classes.cpp:291-303 | one more pass of shorten_poly_list keeps a list linked to where it started, in both directions |
| Lists.LinkedTrans | classes.cpp:291-303 | linked lists compose |
| Lists.Passes | classes.cpp:296-302 | a loop of shorten_poly_list passes never raises the count, leaves a stored list with no two entries ==, and links the result to the input both ways |
| Lists.MatchedReaches | classes.cpp:291-303 | a polynomial one of whose reductions is == to an entry of a list has a descendant in every list that list reaches through shorten passes |
| Lists.SimplifyPolyList | classes.cpp:291-303 | the 222-pass schedule never raises the count and leaves a stored list with no two entries ==; every input entry has a descendant in the result and every result entry descends from an input entry |
| Workers.CountBases | classes.cpp:379-384 | thread t receives num_bases / threads bases, plus one for the first num_bases % threads threads; counts differ by at most one |
| Workers.AllShared | classes.cpp:379-384 | the per-thread counts sum to num_bases |
| Workers.Distribute | classes.cpp:390-396 | thread t's block is the next counts[t] bases of each list, starting where thread t - 1's ended |
| Workers.DealtAll | classes.cpp:390-396 | the blocks in thread order reproduce the base sequence |
| Workers.InitThreadData | classes.cpp:373-396 | block sizes follow the round-robin counts and differ by at most one; the blocks in thread order concatenate to the two base lists |
| Workers.LoadPair | classes.cpp:316-319 | both base polynomials end holding exactly the pair of bases |
| Workers.GeneratePair | classes.cpp:316-320 | the list grows by exactly the entries of a run of generate_poly_list on the pair, stays stored, and no two entries are == |
| Workers.AllRanAt | classes.cpp:315-321 | run i is a run of pair i on the list the runs before it left, finished for every run but possibly the last |
| Workers.RunsStep | classes.cpp:315-321 | appending a run extends the outputs by its entries and keeps every run a run of its pair |
| Workers.ThreadFunction | classes.cpp:310-325 | pair i of the bases is run through generate_poly_list on the list the earlier pairs left, all pairs when no run aborts; then the two shorten passes leave a stored list with no two entries ==, linked both ways to everything the runs added, and holding a descendant of the polynomial of every accepted leaf of every pair; on an abort the list is full and holds exactly what the runs added |
| Workers.LeavesReachOf | classes.cpp:310-325 | when every run finished, any list the runs' outputs reach holds a descendant of every accepted leaf polynomial of every pair |
| Workers.Concatenate | classes.cpp:330-335 | the final list starts with the worker lists concatenated in worker order |
| Workers.MixPolyLists | classes.cpp:328-338 | the result has at most the total count of entries, is stored with no two entries ==, and is linked both ways to the concatenated worker lists; stated under the requirement that the total fits MAX_NUM_POLYS |
| Workers.MixOverflow | classes.cpp:269 | one full worker list and one more entry give a merged list longer than MAX_NUM_POLYS, the size of the flag array |
| Workers.MixPolyListsSized | classes.cpp:328-338 | with a flag array as long as the merged list, the merge has the same guarantee, linkage included, without a bound on the total |

## Left out

- Input and output are not modelled. This covers `main` (classes.cpp:401-473), the file reading in `read_file_init_thread_data` (its bases are parameters here), `print`, `print_bin`, `bin_representation` and the timing.
- Threads are not modelled. `pthread_create`, `pthread_join` and `pthread_exit` only fork and join independent sequential calls, so `ThreadFunction` is the body of a single worker.
- `rand()` is not modelled as a generator. Its values are the parameter `rand`.
- `thread_data.num_polys` is never initialised in the source. The model starts each worker's list empty.
- MAX_NUM_POLYS is read from the instruction file in the source. In the model it is the length of the list arrays.
- Workers.MixPolyLists: needs the merged total to fit MAX_NUM_POLYS, because `shorten_poly_list` sizes its flag array by it. See Findings.
- Enumerator.Rec: is split into three mutually recursive methods (Rec, Node, Second, with AtLeaf and Leaf at level 21) for the two recursive calls.
- Enumerator.GeneratePolyList: requires the base terms to be distinct and in x1..x6. The source notes this (the truth table covers six variables), and the tagging by `<< 2` assumes it.
- Lists.SimplifyPolyList: states lineage through passes as "some quick_simplify result of the predecessor is == to it" (Lists.Step). It says no more about which input entry a survivor stands for.
- Workers.ThreadFunction: states lineage, from the runs' outputs and from each accepted leaf polynomial, through the Lists.Step lineage of Lists.SimplifyPolyList. It does not say which final entry stands for which leaf.
- Workers.MixPolyLists: the lineage it states is the Lists.Step lineage of Lists.SimplifyPolyList.
- Workers.MixPolyListsSized: the lineage it states is the Lists.Step lineage of Lists.SimplifyPolyList.
- Poly.Polynomial.Simplify: does not say the result has the fewest terms of all rounds. It states the snapshot, that the result is reachable by moves, that a snapshot is a local minimum, and the special cases.
- Poly.Polynomial.QuickSimplify: the constructor leaves `replica` uninitialised (polynomial.h:126-129). The model treats a never-set pointer as null, so the abort test works without a prior `clear`.
- `one_bit[i] = 1 << i` overflows an int for i >= 31 (classes.cpp:128). Those entries are never read, so Truth.Tables.Init states only entries 0..30.
- A move does not keep `hamming_weight(truth_table())`. The table covers only six variables and constant terms are dropped. The model claims no such property.
- Memory management (the `active_poly` array is never freed) is not modelled.
- `operator==` compares profiles position by position (polynomial.h:150-152). So it decides equivalence under a renaming only for polynomials that are already sorted. The model follows the code; Equivalence.ProfilesArePositional shows the difference.
- The bases are dealt as the code does it: round-robin counts (classes.cpp:379-384), then contiguous blocks (classes.cpp:390-396). A round-robin assignment of the bases themselves would differ from this.

## Findings

| source | as written | input that shows it | evidently intended | confidence | as-written member | corrected member |
|---|---|---|---|---|---|---|
| classes.cpp:230-235 | a new polynomial is written at index `*num_polys`, the count goes up, and the run aborts only when it exceeds MAX_NUM_POLYS | a list already holding MAX_NUM_POLYS entries and a leaf whose polynomial is new: it is written one past the end of `poly_list` before the abort | check the capacity before writing, and abort when the list is full | not executed | Enumerator.StoreOverflows | Enumerator.Insert |
| classes.cpp:269 | `shorten_poly_list` allocates MAX_NUM_POLYS flags, while `mix_poly_lists` passes the concatenation of all worker lists (classes.cpp:449-455) | two workers, one holding MAX_NUM_POLYS entries and the other at least one: the flag loop writes past the flag array | size the flag array by the number of polynomials passed | not executed | Workers.MixOverflow | Workers.MixPolyListsSized |
