# qcdg-nv-simulation: the exact core, modelled in Dafny

qcdg-nv-simulation simulates a nitrogen-vacancy (NV) centre in diamond coupled to a bath of
carbon-13 nuclei, and synthesises quantum gates on that register. Most of it is floating-point
linear algebra. This project models the exact, discrete layer underneath and proves what that
layer promises:

- **Qubit-index arithmetic.** The bit helpers `int_bit`, `qbit_state`, `bit_int` and
  `in_vector` are modelled in module `Bits`. The index bijection between per-qubit and global
  basis indices (qubit 0 is the most significant bit) is in `QubitIndex`.
- **Operator embedding.** `act`, `ptrace` and the block extraction of `submatrix` are in
  `Embedding`, with trace preservation in `Traces`; `SetSums` reindexes a sum over a
  one-to-one table of indices into a sum over the set of its entries. The Kronecker fold `tp`, the Pauli
  labelling `U_basis_element_text` and the `get_phase` scan are in `Operators`. The `mvec`
  container is the class `MatrixVectors.MVec`. Matrices are `seq<seq<int>>` values: integers
  stand in for the complex entries, and every index property holds over any ring.
- **Spin clustering.** `Clustering` holds `cluster_nuclei`, `largest_cluster_size` and the two
  cluster lookups. `Grouping` holds `group_clusters`. `Spins` holds the spin record and the
  older `get_clusters`, and `Calibration` holds the `find_target_coupling` search. Coupling
  strength is an abstract function on index pairs. The larmor-pair test is equality of an
  abstract integer key, as in the source.
- **AXY pulse schedule.** `Schedule` holds `axy_pulse_times`, the older `pulse_times` and
  `advanced_pulse_times`, over `real`.
- **Propagators, kept symbolic.** In `Propagator`, `Hamiltonian` and `Coherence`, a free
  evolution `exp(-i H dt)` becomes `Evolve(dt)` and a pulse `X` becomes `Flip`. The static
  `simulate_propagator` then builds a sequence of such operations. The Hamiltonians `H_int`,
  `H_nZ` and `H_Z` become the lists of qubits their terms act on. The coherence functions
  become products of per-cluster factors and the operation sequences of their propagators.
- **Gate synthesis arithmetic.** `Control` holds the exact real arithmetic of
  nv-control.cpp: the floor-mod and reflection folding, the cycle split and its phase
  bookkeeping, the flush time, the correction phases, the choice of the decoupling frequency
  and harmonic, and the zero-angle case of `act_target`.

The file nv-math.h is an older revision of nv-math.cpp. Where the two differ (`get_clusters`
over spins, `pulse_times`, the uninitialised flag of `find_target_coupling`, `H_Z`'s term
order), both are modelled and related to each other.

## Model

| member | source | states |
|---|---|---|
| Bits.InVector | qp-math.h:11-13 | true exactly when some element of vec equals val |
| Bits.IntBitIsShift | qp-math.h:50-53 | int_bit, with its early return when 2^n exceeds num, is bit n of num: (num / 2^n) % 2 |
| Bits.FromBitsQbit | qp-math.h:56 | qbit_state(q, N, s) is entry q of the N-bit expansion of s, most significant bit first, so qubit 0 is the top bit |
| Bits.BitIntQbits | qp-math.h:56-59 | for q < N, qubit q' of bit_int(q, N) is on exactly when q' == q |
| Bits.BitDecomposition | qp-math.h:50-59 | every s < 2^N is the sum of bit_int(q, N) over the qubits q that are on in s |
| Bits.FromToBits | qp-math.h:56 | the N-bit expansion of any x < 2^N reads back as x |
| Bits.SameQbitsSameIndex | qp-math.h:56 | two N-qubit basis indices whose qubits all agree are equal |
| Bits.ScatterSumQbits | qp-math.cpp:92-96 | the accumulator b_m sets qubit qs_act[q] of the global index to bit q of m and leaves every other qubit off |
| Bits.ScatterSumAppend | qp-math.cpp:100-105 | accumulating the ignored qubits after the acted ones adds the two partial sums |
| QubitIndex.Complement | qp-math.cpp:77-82 | qs_ignore ascends and holds exactly the qubits below N not in qs_act |
| QubitIndex.Unlisted | qp-math.cpp:77-82 | the push_back loop builds exactly that complement |
| QubitIndex.ComplementSize | qp-math.cpp:127 | the complement of distinct qubits below N has N - k elements, k the number of listed qubits, which is ptrace's size assertion |
| QubitIndex.ComplementPartition | qp-math.cpp:77-82 | qs and its complement together list every qubit below N exactly once |
| QubitIndex.JoinParts | qp-math.cpp:92-107 | the global index joined from m on the acted qubits and s on the ignored ones is below 2^N and splits back into m and s |
| QubitIndex.SplitJoin | qp-math.cpp:92-107 | every global index is the join of its own two sub-indices, so joining is onto |
| Embedding.Act | qp-math.cpp:58-112 | with qs_act == [0..N-1] act returns A itself; otherwise it returns the embedding of A on qs_act, the identity elsewhere |
| Embedding.ActLoops | qp-math.cpp:72-111 | the loops fill B entry by entry to exactly the embedding: A at the sub-indices where the ignored qubits agree, 0 everywhere else |
| Embedding.FillBlock | qp-math.cpp:98-107 | the s-loop for one entry A(m,n) writes A(m,n) at every pair of indices that join m and n with the same ignored-qubit state s, and the entries already written stay |
| Embedding.EmbeddedIdentityMap | qp-math.cpp:61-70 | the early return agrees with the loops: embedding on [0..N-1] is A |
| Embedding.Ptrace | qp-math.cpp:115-157 | ptrace's output is 2^(N-t) square for t traced qubits, entry (m, n) summing A over every state of the traced qubits |
| Embedding.PtraceLoops | qp-math.cpp:129-156 | the loops with the accumulators a_m, a_n, a_out and a_in compute that partial trace |
| Embedding.PtraceOfEmbedded | qp-math.cpp:88-110 | for ascending qs, tracing act(A, qs, N) over the other qubits gives 2^(N-k) A for k acted qubits, not A |
| Traces.PartialTraceKeepsTrace | qp-math.cpp:133-155 | the partial trace of a 2^N-square operator has the same trace as the operator; the double sum over kept and traced states is reindexed through the generic helpers of `SetSums` |
| Traces.RowsCover | qp-math.cpp:132-153 | the indices joined from every kept state m and traced state s are exactly 0..2^N-1 |
| Embedding.ExtractBlock | qp-math.cpp:174-201 | the copy loops take exactly the diagonal block of A for one ignored state |
| Embedding.AddBlocks | qp-math.cpp:173-204 | the loop adds the diagonal block of every ignored state to the start matrix |
| Embedding.Submatrix | qp-math.cpp:160-209 | starting from zero, submatrix is act of the sum of the diagonal blocks over the ignored qubits |
| Embedding.SubmatrixOfEmbedded | qp-math.cpp:160-209 | from a zero start, the blocks of an embedded G sum to 2^(N-k) G for k qubits, a multiple of G |
| Embedding.SubmatrixAsWritten | qp-math.cpp:171 | as written, the identity start is added to the sum of the blocks |
| Embedding.SubmatrixAsWrittenCounterexample | qp-math.cpp:171 | for G = diag(1, -1) on qubit 0 of 2, the as-written block sum is diag(3, -1), which is no multiple of G |
| Operators.Tp | qp-math.cpp:20-26 | the fold starts from the 1x1 identity; the result is as large as the product of the factors' sizes |
| Operators.TpFoldSingle | qp-math.cpp:20-26 | an empty list gives the 1x1 identity and a one-factor list gives that factor |
| Operators.BasisElementText | qp-math.cpp:226-233 | the label has N letters, letter n being "IXYZ" at int_bit(p,2n) + 2 int_bit(p,2n+1) |
| Operators.LabelRoundTrip | qp-math.cpp:226-233 | reading the label back as base-4 digits gives p, for every p < 4^N, so distinct basis elements get distinct labels |
| Operators.PhaseEntry | qp-math.cpp:41-51 | the scan returns the first entry in row-major order above the threshold; when it returns none, every entry is within the threshold |
| MatrixVectors.MVec.FromScaled | qp-math.h:76-80 | the mvec built from a matrix and a 3-vector has exactly the three components v_vec(i) v_mat, in order |
| MatrixVectors.MVec.Equals | qp-math.h:86-92 | for equal sizes, == holds exactly when every component is equal |
| MatrixVectors.MVec.NotEquals | qp-math.h:93 | != is the negation of == |
| MatrixVectors.MVec.Plus | qp-math.h:96-102 | += adds the components in place and returns a copy equal to the new receiver |
| MatrixVectors.MVec.Minus | qp-math.h:103-109 | -= subtracts the components in place and returns a copy equal to the new receiver |
| MatrixVectors.MVec.TimesScalar | qp-math.h:110-115 | *= s scales every component in place and returns a copy |
| MatrixVectors.MVec.TimesMatrix | qp-math.h:117-122 | *= G right-multiplies every component in place and returns a copy |
| MatrixVectors.MVec.DotM | qp-math.h:129-136 | dot(w) is the sum over i of tp(v_i, w_i) |
| MatrixVectors.LeftMultiply | qp-math.cpp:282-288 | G * v is a new mvec whose components are G v_i |
| MatrixVectors.SubEachAddEach | qp-math.h:96-109 | subtracting w after adding it gives the mvec back |
| MatrixVectors.MulEachIdentity | qp-math.h:117-122 | multiplying by the identity changes nothing |
| MatrixVectors.DotVectorOfScaled | qp-math.h:76-80 | dot(r) of the mvec built from A and x is (x . r) A |
| MatrixVectors.KronSumAddRight | qp-math.h:129-136 | dot(w) is additive in w |
| Clustering.ClusterNuclei | nv-math.cpp:92-127 | the loops of cluster_nuclei compute the clustering function Clusters |
| Clustering.GrowCluster | nv-math.cpp:109-122 | the ci-loop extends the cluster by what it appends to clustered, and keeps clustered duplicate-free |
| Clustering.ClustersProperties | nv-math.cpp:99-121 | the clusters partition 0..n-1; each starts with its smallest member; they ascend by first member; every later member is coupled at the threshold to an earlier one |
| Clustering.ClusterOfIndex | nv-math.cpp:92-127 | every index below n lies in exactly one cluster |
| Clustering.ClustersSingletons | nv-math.cpp:178-187 | when every coupling is below the threshold, the clusters are [[0], [1], ..., [n-1]] |
| Clustering.NotConnectedComponents | nv-math.cpp:112 | with couplings 0-2 and 1-2 but not 0-1, nucleus 1 stays alone although it is coupled to 2: clusters are not connected components |
| Clustering.LargestClusterSize | nv-math.cpp:164-170 | the result is the largest cluster size: no cluster is larger, one has that size, and it is 0 for no clusters |
| Clustering.ClusterContaining | nv-math.cpp:216-225 | returns the first cluster holding index, or None exactly when no cluster holds it |
| Clustering.ClusterContainingFound | nv-math.cpp:216-225 | over the output of cluster_nuclei, the lookup always finds a cluster |
| Clustering.IndexInCluster | nv-math.cpp:227-234 | returns the first position of index in the cluster |
| Grouping.WrapRoundTrip | nv-math.cpp:148 | c-- on a 32-bit unsigned 0 wraps to 2^32-1, and the loop's c++ brings it back to 0 |
| Grouping.MergePairs | nv-math.cpp:142-153 | the c-loop moves every remaining cluster with a larmor pair to member i into the group, keeps the multiset of nuclei, and leaves none paired with member i |
| Grouping.GrowGroup | nv-math.cpp:141-154 | the i-loop leaves no remaining cluster paired with any member of the group |
| Grouping.GroupClusters | nv-math.cpp:130-161 | the groups hold the input nuclei as a multiset, are no more than the clusters, each contains an input cluster, and no two groups hold a larmor pair |
| Grouping.GroupNext | nv-math.cpp:134-158 | one pass of the while loop keeps the grouping invariant (nuclei preserved as a multiset, groups pair-free) and strictly shortens the list of pending clusters |
| Grouping.MergeAt | nv-math.cpp:143-152 | one c iteration either leaves everything unchanged and moves on to the next cluster, or moves the candidate into the group, erases it from the list and steps c back so that the cluster moved into its place is examined next |
| Grouping.CloseGroup | nv-math.cpp:134-158 | closing a group keeps the outer loop's invariant |
| Spins.Equal | nv-math.h:57-59 | spin == holds exactly when position, ratio and spin vector all agree |
| Spins.NotEqual | nv-math.h:60 | != is the negation of == |
| Spins.GetClusters | nv-math.h:82-118 | get_clusters gives the index clusters of cluster_nuclei with every index replaced by its spin |
| Spins.GetClustersPlacement | nv-math.h:82-118 | every spin lies in exactly one cluster and the clusters are ordered by their first spin's index |
| Spins.SpinLargestSize | nv-math.h:121-127 | largest_cluster_size over spin clusters equals that over the index clusters |
| Calibration.TestCoupling | nv-math.cpp:192-193 | the exit test is whether the largest cluster at the coupling reaches the target |
| Calibration.SearchCoupling | nv-math.cpp:189-213 | when the loop exits, the largest cluster at the result reaches the target and the last step is below the cutoff |
| Calibration.MaxPairCoupling | nv-math.cpp:178-185 | returns the largest pair coupling: none is larger and one attains it, or 0 |
| Calibration.FindTargetCoupling | nv-math.cpp:173-214 | for a target of 1 the result makes every nucleus its own cluster; any result either reaches the target or comes from an empty nucleus list, where the source still returns max_coupling + dcc_cutoff |
| Calibration.SingletonsLargest | nv-math.cpp:178-187 | all-singleton clusters have largest size 1 (0 for no nuclei) |
| Calibration.FindTargetCouplingSpins | nv-math.h:130-158 | whatever the uninitialised flag holds, an exit means the largest spin cluster reaches the target |
| Schedule.AxyPulseTimes | nv-math.cpp:286-300 | twelve times with t0 = 0, t3 = 1/4, t8 = 3/4, t11 = 1, symmetric about 1/2 |
| Schedule.AxyPulseTimesIncreasing | nv-math.cpp:286-300 | for 0 < x1 < x2 < 1/4 the times ascend strictly |
| Schedule.HeaderPulseTimesAsWritten | nv-math.h:176-202 | for k = 1 the two atan2 times; for k = 3 each time plus its phase is 0, because 1/4 is a division of two ints |
| Schedule.HeaderPulseTimesNegative | nv-math.h:194-195 | as written, for k = 3 with positive a1 and a2 both times are negative, outside the period |
| Schedule.HeaderPulseTimes | nv-math.h:176-202 | exactly two times; for k = 3 they are 1/4 - a and lie in (0, 1/4) |
| Propagator.HeaderTimesFramed | nv-math.h:194-195 | for k = 3 and phases 0 < a2 < a1 < 1/4, the corrected times start a framed AXY schedule (even length, from 0 to 1, interior ascending within [0, 1)); the times as written start a schedule that is not framed |
| Schedule.AdvancedPulseTimes | nv-math.cpp:303-321 | an integer advance gives the input back; otherwise the result runs from 0 to 1 (and is exactly [0, 1] for a schedule of two times), and for a regular input it has the same length, its interior is the input's interior moved back by the advance mod 1, starting from the first time not before it, and ascends within [0, 1) |
| Schedule.AdvanceLoop | nv-math.cpp:311-318 | the loop starts from 0 and, for a regular schedule, collects the interior times not before the advance moved back by it, then those before it moved into the next period, one per interior time; with no interior time it leaves [0] |
| Propagator.Additive | nv-math.cpp:459-492 | flips and free-evolution time add over concatenation |
| Propagator.RepeatCounts | nv-math.cpp:470-478 | n repetitions of a block have n times its flips and duration |
| Propagator.LeadingPulses | nv-math.cpp:461-465 | the loop counts the interior pulses before the advance |
| Propagator.WholePeriod | nv-math.cpp:470-476 | one whole period flips once per advanced time and evolves for its span times t_DD |
| Propagator.AxyPeriods | nv-math.cpp:468-477 | no periods for a simulation shorter than t_DD; otherwise int(simulation_time/t_DD) periods, flipping that many times the advanced schedule's length and lasting that many times its span times t_DD |
| Propagator.Remainder | nv-math.cpp:481-490 | the remainder's flips extend the pulse count and its evolutions sum to the remaining time |
| Propagator.RemainingTime | nv-math.cpp:477-481 | the whole periods plus the remaining time make up the simulation time, the remainder being less than a period |
| Propagator.SimulatePropagator | nv-math.cpp:442-498 | the NV starts flipped exactly when an odd number of interior pulses precede the advance; for a framed schedule the flips are even and the evolutions sum to the simulation time |
| Propagator.AxyFramed | nv-math.cpp:286-300 | the AXY schedule is framed: even length, from 0 to 1, ascending interior |
| Hamiltonian.InteractionTerms | nv-math.cpp:334-343 | the double loop of H_int adds the pair terms in loop order |
| Hamiltonian.PairTermsArePairs | nv-math.h:212-224 | every H_int term couples two distinct qubits of the NV and cluster, lower first |
| Hamiltonian.PairTermsComplete | nv-math.h:212-224 | every pair a < b of qubits is coupled by a term |
| Hamiltonian.PairTermsDistinct | nv-math.h:212-224 | no pair is coupled twice |
| Hamiltonian.PairTermsCount | nv-math.cpp:331-345 | H_int has n(n+1)/2 terms, one per unordered pair of the n+1 qubits |
| Hamiltonian.NuclearZeemanTerms | nv-math.cpp:371-382 | H_nZ subtracts one single-qubit term per nucleus s, on qubit s+1 |
| Hamiltonian.HeaderZeemanTerms | nv-math.h:227-236 | the older H_Z adds the NV term then subtracts the nuclear ones: the same terms as nv-math.cpp's H_Z in another order |
| Hamiltonian.ZeemanOnePerQubit | nv-math.cpp:385-387 | every qubit carries exactly one single-qubit Zeeman term, added for the NV and subtracted for the nuclei |
| Coherence.CombineClusters | nv-math.cpp:396-433 | coherence starts at 1 and is the product of the cluster factors |
| Coherence.ProductAppend | nv-math.h:257-286 | the product over two lists of clusters is the product of the two products |
| Coherence.ProductBounded | nv-math.h:304-346 | factors in [-1, 1] give a coherence in [-1, 1] |
| Coherence.ProductZero | nv-math.h:304-346 | one vanishing factor makes the coherence 0 |
| Coherence.SequencePalindromes | nv-math.cpp:421-422 | U_m and U_0 read the same backwards |
| Coherence.SequencesExchanged | nv-math.cpp:421-422 | U_0 is U_m with the two NV states exchanged |
| Coherence.HeaderSequenceSame | nv-math.h:320-338 | the older header's six-factor U_m is the same sequence |
| Coherence.SequenceTime | nv-math.cpp:421 | U_m spends as long under H_m as under H_0, 2(d1 + d2 + d3) each |
| Coherence.AxySequenceTime | nv-math.cpp:412-418 | with the AXY section durations, each NV state is held for half a period t_DD |
| Coherence.HalfSequenceCounts | nv-math.h:270-276 | the half sequence has five flips and lasts 2 t3 |
| Coherence.ExactScan | nv-math.h:279 | the scanned power of the half sequence has an even number of flips and lasts whole periods of t_DD |
| Control.WrapCongruent | nv-control.cpp:127-128 | the floor-mod of x by p differs from x by a whole number of p |
| Control.WrapUnique | nv-control.cpp:127-128 | it is the only value in [0, p) that does |
| Control.Fold | nv-control.cpp:79-84 | after folding, the time is the floor-mod of the input time, reflected to period minus it exactly when it exceeds period/2, so it lies in [0, period/2]; the strength is negated exactly in that case; and the phase strength*time is unchanged mod strength*period |
| Control.SplitCycles | nv-control.cpp:250-252 | leading time in [0, period), and leading + cycles * period == time |
| Control.AdjustedCycles | nv-control.cpp:93-116 | both adjust_AXY branches give leading + cycles (trailing + leading) == control_time with leading in [0, period) |
| Control.AdjustFrequency | nv-control.cpp:93-116 | below the Larmor frequency the ratio is even, one cycle lasts ratio Larmor periods and one adjusted DD period; above it one cycle lasts one Larmor period and ratio adjusted DD periods |
| Control.CyclePiecesElapsed | nv-control.cpp:103-108 | U_leading (U_trailing U_leading)^cycles has 2 cycles + 1 pieces lasting leading + cycles * period |
| Control.CyclePiecesPhases | nv-control.cpp:118-123 | every piece starts at the phase its elapsed time gives it, mod the period |
| Control.FlushTime | nv-control.cpp:127-128 | flush_time lies in [0, t_larmor) and completes a whole number of Larmor periods |
| Control.InteractionPhases | nv-control.cpp:267-274 | z_phase and xy_phase lie in [0, 2 pi) and match the precession mod 2 pi; z_flush_phase is the nearer of z_phase and 2 pi - z_phase, in [0, pi] |
| Control.DDFrequency | nv-control.cpp:52-65 | w_DD is positive; it is (w_larmor + sA)/3, or the smaller frequency when that exceeds sA and puts w_larmor on an even harmonic |
| Control.Harmonic | nv-control.cpp:68 | k_DD is 1 or 3, the harmonic nearer w_larmor, and 3 on a tie |
| Control.DDHarmonic | nv-control.cpp:52-68 | below sA the first harmonic is chosen; with the smaller frequency the third is |
| Control.ZeroRotation | nv-control.cpp:152-153 | a zero rotation angle gives the 2^spins identity, and only a zero angle takes this path; the exact-gate return of lines 142-145, which comes first, is not modelled |

## Left out

- Floating point: matrices hold integers, so phases, `exp`, `log`, `sqrt`, `pow` and every
  rounding or renormalisation are not modelled. This covers `remove_artifacts`, the phase
  removal and normalisation in `submatrix`, and the unitarity fixes of `simulate_propagator`
  (nv-math.cpp:495).
- mvec's `/` (qp-math.h:116) divides complex matrices; integers have no exact division.
- MatrixVectors.MVec.Dot3 (dot(r)) is a function with no contract of its own; its value is
  stated by MatrixVectors.DotVectorOfScaled.
- The physics formulas are parameters or abstract functions: `coupling_strength`, `H_ss`, the
  Zeeman matrices, the keys of `is_larmor_pair`, the trigonometric x1 and x2 of
  `axy_pulse_times`, and pi in `Control`.
- The pulse_times bound on |f pi| (nv-math.h:177-201) belongs to the formulas for the times. It
  is not modelled; HeaderPulseTimes takes the computed offsets as parameters.
- Calibration.SearchCoupling: the loop of find_target_coupling need not terminate. It takes a
  fuel bound instead and returns None when the bound runs out, so only the exit case is proved.
- Calibration.FindTargetCouplingSpins: the uninitialised flag of nv-math.h:139 is a parameter,
  so any value it may hold is covered.
- Clustering.ClusterContaining: the missing return of nv-math.cpp:225 and 234 is modelled as
  None. Clustering.IndexInCluster requires the index to be present.
- Control.ZeroRotation: the rotation angle comes from the matrix logarithm of the target gate,
  so the angle is taken as already computed, not from rx, ry and rz. act_target's earlier
  return for an exact gate (nv-control.cpp:142-145) conjugates U by a floating-point rotation
  and is not modelled.
- Control.SplitCycles, Control.AdjustedCycles: the cycle counts are unbounded integers. The
  source truncates them to 32 bits (`const uint cycles = int(...)` at nv-control.cpp:250 and the
  matching casts of U_ctl at lines 98 and 112); a count above 2^31 - 1 is not modelled.
- Control: the rest of `U_ctl`, `U_int` and `act_target` composes opaque propagators and is not
  modelled. This includes U_int's identity return for a nucleus that cannot be addressed
  (nv-control.cpp:203-207), which prints a message.
- The time-varying `simulate_propagator` (nv-math.cpp:500-609) is not modelled: its step count
  and field sampling are numerical integration.
- Gate recipes (`iSWAP`, `SWAP_NVST`, `rotate`, `U_basis_element`, `U_basis_matrix`,
  `U_decompose`, `gate_fidelity`) and printing are not modelled.
- The spin constructor's assertion of three spin components (nv-math.h:51) is the predicate
  Spins.WellBuilt; spins are built as plain values.
- Schedule.AdvancedPulseTimes: the interior is proved shifted and ascending only for a regular
  input, one whose interior ascends strictly within [0, 1).

## Findings

| source | as written | input that shows it | evidently intended | confidence | as-written member | corrected member |
|---|---|---|---|---|---|---|
| qp-math.cpp:171 | submatrix starts its block sum B from the identity | G = diag(1, -1) acted on qubit 0 of 2: the sum is I + 2G = diag(3, -1), no multiple of G | B starts from zero, so the block sum of act(G) is 2^(N-k) G for k qubits and normalises back to G | not executed | Embedding.SubmatrixAsWrittenCounterexample | Embedding.SubmatrixOfEmbedded |
| nv-math.h:194-195 | pulse_times for k = 3 computes 1/4 - a with integer 1/4, which is 0 | k = 3 with any a1, a2 > 0: both times are negative | 1/4 as a real, as axy_pulse_times writes 0.25 | not executed | Schedule.HeaderPulseTimesNegative | Propagator.HeaderTimesFramed |
