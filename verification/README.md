# A verification model of the ordeal certificate checkers

Ordeal answers quantifier-free bitvector queries and hands out certificates.
A small string-free crate re-checks them: an LRAT refutation checker, a proven
bit-blasting lowering with compaction and Tseitin encoding, a re-check of
queries and of models, a correspondence check between a term and its lowered
DAG, a correspondence check for the elimination of arrays and uninterpreted
functions (the "sliver"), and a flattener from named trees to node lists. This
project models those checkers in Dafny and proves what acceptance means, layer
by layer, up to one statement about the trees a caller writes: if the stacked
checks accept a refutation, no interpretation of the named variables, arrays
and functions makes every asserted tree true (`TreeCert.CheckExtTreeUnsat`),
and if they accept a model, every interpretation that agrees with the returned
tables of variables, array cells and call results does
(`TreeCert.CheckExtTreeSat`).

How the layers stack:

- `Dimacs`, `Lrat`, `LratTheorems`, `LratExact`, `SatWitness`: the clause
  database as it is updated in place, refutation soundness and completeness,
  exactly which deletions, hints and runs are accepted, assignments.
- `AigGraph`, `Compact`, `Strash`, `Tseitin`: the and-inverter arena, the
  hint-driven compaction and the hash-consed arena it reproduces, the CNF.
- `Bits`, `BvOps`, `BlastArith`, `BlastShift`, `BlastMulDiv`, `BlastRotate`,
  `BlastSigned`, `SignedMeaning`: words of any width, the operations as the
  SMT-LIB 2.6 theory FixedSizeBitVectors and logic QF_BV define them (division
  by zero and INT_MIN / -1 included), and the circuits that compute them.
- `GateList`, `GateFacts`, `GateLaws`: every rule's gates as a function of the
  arena it appends to, where each gate stands, exact sizes, and the derived
  operators as the compositions they stand for, gate for gate.
- `Dag`, `Encoder`, `Query`: term DAGs, their encoding, the two query
  re-checks.
- `TermCheck`, `TermExact`, `TermSound`: a term against its lowered DAG, and
  exactly which nodes correspond.
- `Sliver`, `SliverCheck`, `SliverExact`, `SliverSound`, `SliverModel`: arrays
  and functions against the core they were eliminated into.
- `SliverElim`, `SliverGrow`, `SliverComplete`: the read-over-write elimination
  written out, and the proof that the check accepts it, so that every
  unsatisfiable query whose calls agree in their widths can be certified.
- `ModelInputs`, `Pullback`, `PullbackLoss`, `SliverWidths`: input lists and
  values read from a model by name, the finite tables of a model read back from
  a core model, exactly when they lose an entry, inputs on which they do, and
  why queries built from trees never do.
- `Tree`, `FlatSpec`, `FlatState`, `FlatLeaves`, `FlatList`, `FlatCount`,
  `FlatOrder`, `Flatten`, `TreeSound`, `TreeCert`: named trees, the flattener,
  its exact refusals and its exact node list, and the end-to-end certificates.
- `DagBuild`, `Canon`, `CanonFold`, `Bmc`: the untrusted front: the hash-consing builder,
  canonicalisation, and the bounded-model-checking query families.

Words are boolean lists, least significant bit first, of any length; no width
is ever fixed. Code that changes state is a class or an in-place array
(`Assignment`, `ClauseDb`, `Aig`, `HashedAig`, `Flat`, `DagBuilder`, the
classification arrays of the sliver check), proved against a specification
function or a declarative predicate, whose meaning is then proved in lemmas.
Untrusted advice (hints, maps, tables) is never constrained by a precondition.

Where the code and its comments differ, the model follows the code: the bound
k <= 255 that the queue family's comment gives is not needed for k steps and
capacities below 255, and past 255 steps the only failing capacity is 255
(`Bmc.QueueSatInRange`).  The pulled-back model is claimed to hold every cell
and every call's result, but its tables key on the name of the array or function
and on the low 128 bits of each argument.  So two calls whose arguments differ
only above those bits collide (`PullbackLoss.WideCallLost`), and so do two arrays
or functions of one name, which no check of the block excludes
(`PullbackLoss.NamesakeLost`).  `Pullback.CellsExact` and `Pullback.ResultsExact`
say exactly when an entry is lost.  A caller can test beforehand that the block
lists every name once (`NamesOnce`) and that no call entry is wide
(`NarrowCalls`): then nothing is lost.  Trees always pass both tests, because the
flattener lists names once and caps widths (`TreeCert.TreesNamed`,
`TreeCert.TreesNarrow`).

## Model

| member | source | states |
|---|---|---|
| Lrat.Assignment.Value | crates/ordeal-lrat/src/kernel.rs:165-180 | the stored truth value of a literal is true exactly when the literal is in the assignment, false exactly when its negation is |
| Lrat.Assignment.AssignTrue | crates/ordeal-lrat/src/kernel.rs:184-197 | reports a conflict exactly when the negation was assigned; otherwise the assignment gains this literal and nothing else, growing its table on demand |
| Lrat.Assignment.AssumeNegation | crates/ordeal-lrat/src/kernel.rs:214-223 | assumes every literal of the clause false, or reports the clause a tautology |
| Lrat.ClassifyHint | crates/ordeal-lrat/src/kernel.rs:252-273 | satisfied, falsified, unit on one literal, or neither, under the assignment; a repeated open literal is not two |
| Lrat.ClauseDb.Load | crates/ordeal-lrat/src/kernel.rs:340-351 | the slots are the clauses in order; the first clause with an invalid literal is named otherwise |
| Lrat.ClauseDb.CheckRup | crates/ordeal-lrat/src/kernel.rs:281-323 | the verdict of unit propagation along the hints, with the exact error at the exact hint |
| Lrat.ClauseDb.ApplyDelete | crates/ordeal-lrat/src/kernel.rs:363-376 | clears the named live slots in order, or names the first dead one; `LratExact.DeleteExact` says which slots, without the specification |
| Lrat.ClauseDb.ApplyAdd | crates/ordeal-lrat/src/kernel.rs:380-410 | appends a clause that passes the propagation check; a rejected clause leaves the database unchanged |
| Lrat.HasInvalidLiteral | crates/ordeal-lrat/src/kernel.rs:327-336 | true exactly when a literal is zero or the most negative 32-bit number |
| Lrat.CheckSteps | crates/ordeal-lrat/src/kernel.rs:418-453 | the in-place run over all steps gives the verdict of the step-by-step specification |
| LratTheorems.RupSound | crates/ordeal-lrat/src/kernel.rs:281-323 | a clause that passes the check holds in every total assignment that satisfies the live clauses |
| LratTheorems.StepSound | crates/ordeal-lrat/src/kernel.rs:363-410 | every add and delete step keeps every model of the live clauses, and never reports the empty clause while one exists |
| LratTheorems.RefutationSound | crates/ordeal-lrat/src/kernel.rs:413-453 | acceptance implies the CNF is unsatisfiable |
| LratTheorems.RefutationComplete | crates/ordeal-lrat/src/kernel.rs:418-453 | every unsatisfiable CNF over n variables has an accepted refutation, of exactly 2^(n+1) - 1 steps |
| LratTheorems.RefutableIffUnsatisfiable | crates/ordeal-lrat/src/kernel.rs:418-453 | some step list is accepted exactly when the CNF is well-formed and unsatisfiable |
| LratExact.DeleteExact | crates/ordeal-lrat/src/kernel.rs:363-376 | deletion succeeds exactly when every id is known and live beforehand and none repeats; then the listed slots are empty and every other slot is as before; else the first unknown, dead or repeated id is named with its own error |
| LratExact.PropagationExact | crates/ordeal-lrat/src/kernel.rs:281-323 | hints are accepted exactly when they propagate units up to a conflict; a refusal names the first hint that is unknown, dead, satisfied or not unit, or says they ran out |
| LratExact.VerdictExact | crates/ordeal-lrat/src/kernel.rs:413-453 | acceptance exactly when some run of the steps, each deleting live clauses or adding a propagated one under the next id, reaches the empty clause; a refusal is the first bad step with its own error |
| SatWitness.ClauseSatisfied | crates/ordeal-lrat/src/kernel.rs:496-519 | stops at the first true literal; literals after it are not validated |
| SatWitness.CheckSat | crates/ordeal-lrat/src/kernel.rs:535-544 | accepts exactly when every clause has a true literal with only usable literals before it; a rejection names the first clause and literal at fault |
| SatWitness.WitnessSound | crates/ordeal-lrat/src/kernel.rs:535-544 | an accepted assignment satisfies the CNF |
| SatWitness.WitnessExact | crates/ordeal-lrat/src/kernel.rs:535-544 | over usable literals acceptance is satisfaction |
| SatWitness.VerdictsExclusive | crates/ordeal-lrat/src/kernel.rs:418-544 | no CNF has both an accepted refutation and an accepted assignment |
| SatWitness.CheckBinding | crates/ordeal-lrat/src/kernel.rs:556-599 | accepts exactly when the first |bits| bits of the value are the assigned ones; says nothing of higher bits |
| AigGraph.Aig.constructor | crates/ordeal-lrat/src/blast_kernel.rs:94-98 | a new arena holds the false node alone |
| AigGraph.Aig.PushInput | crates/ordeal-lrat/src/blast_kernel.rs:101-108 | the new literal reads the given input bit; nothing else changes |
| AigGraph.Aig.PushAnd | crates/ordeal-lrat/src/blast_kernel.rs:112-119 | one gate, whose literal is the conjunction under every input |
| AigGraph.Aig.PushOr | crates/ordeal-lrat/src/blast_kernel.rs:122-125 | one gate, the negated conjunction of the negations; its literal is the disjunction under every input |
| AigGraph.Aig.PushXor | crates/ordeal-lrat/src/blast_kernel.rs:133-137 | exactly the three gates listed, in that order; the literal is the exclusive or under every input |
| AigGraph.Aig.PushMux | crates/ordeal-lrat/src/blast_kernel.rs:341-345 | exactly the three gates listed, in that order; the literal is the selected operand under every input |
| AigGraph.Simulate | crates/ordeal-lrat/src/blast_kernel.rs:149-168 | the forward pass gives every node its recursive value, and every literal its own |
| Compact.FoldExact | crates/ordeal-lrat/src/blast_kernel.rs:1202-1217 | an AND folds exactly when an operand is a constant or both are on one variable, into the constant or the operand it always equals |
| Compact.CompactAnd | crates/ordeal-lrat/src/blast_kernel.rs:1208-1224 | folds, reuses the hinted gate only when it matches, or pushes |
| Compact.Compact | crates/ordeal-lrat/src/blast_kernel.rs:1235-1256 | the loop over the arena is the node-by-node specification along the hints |
| Compact.CompactedSound | crates/ordeal-lrat/src/blast_kernel.rs:1235-1256 | for arbitrary hints: every source node maps to a literal of equal value under every input, the arena stays topologically ordered and never larger, distinct input numbers stay distinct |
| Compact.MapWord | crates/ordeal-lrat/src/blast_kernel.rs:1176-1185 | maps each literal through the compaction |
| Compact.MapLitValue | crates/ordeal-lrat/src/blast_kernel.rs:1169-1172 | a mapped literal has the source literal's value under every input |
| Strash.HashedAig.NewInput | crates/ordeal/src/aig.rs:178-183 | appends an input and keeps the hash table, under any options |
| Strash.HashedAig.AndGate | crates/ordeal/src/aig.rs:187-215 | folding and the table lookup, each as the options enable it, and the operand order; under every setting the literal is the conjunction of its operands, and nodes are only appended |
| Strash.HashAndValid | crates/ordeal/src/aig.rs:187-215 | with both options on, every gate keeps ordered, non-constant operands on different variables, found under its own key |
| Strash.NoDuplicateGates | crates/ordeal/src/aig.rs:187-215 | in a valid arena no operand pair occurs twice |
| Strash.GateMeans | crates/ordeal/src/aig.rs:187-215 | under any options an AND computes the conjunction and keeps operands before gates |
| Strash.GateExact | crates/ordeal/src/aig.rs:187-215 | folding catches exactly constants and operands on one variable, hashing exactly a recorded pair in either order; anything else is one new gate over the operands in order, recorded exactly when hashing is on |
| Strash.OptionsInvisible | crates/ordeal/src/aig.rs:93-106 | the same gates asked for under any two option settings give literals that compute the same under every input: folding and hashing only change which gates exist |
| Strash.StrashHints | crates/ordeal/src/dag.rs:340-392 | the hint pass over the raw arena |
| Strash.CompactionIsReplay | crates/ordeal/src/dag.rs:331-392 | compacting along these hints gives, gate for gate and literal for literal, the arena that replaying the source through the hash table gives |
| Tseitin.Encode | crates/ordeal-lrat/src/blast_kernel.rs:887-929 | the clauses: the pinned constant, three per gate, one per output |
| Tseitin.CnfLitTrue | crates/ordeal-lrat/src/blast_kernel.rs:866-872 | the DIMACS literal of a node is true exactly when the arena literal is |
| Tseitin.CnfSize | crates/ordeal-lrat/src/blast_kernel.rs:887-929 | exactly 1 + 3 * gates + outputs clauses, all well-formed |
| Tseitin.ClausePositions | crates/ordeal-lrat/src/blast_kernel.rs:874-929 | clause 0 pins the constant; the gate with g gates before it has clauses 1 + 3g, 2 + 3g and 3 + 3g, each spelled from the node's operands; output j stands at 1 + 3 * gates + j |
| Tseitin.SimulationSatisfies | crates/ordeal-lrat/src/blast_kernel.rs:872-886 | the simulation values of any input satisfy the CNF exactly when every output is true |
| Tseitin.SatisfyingIsSimulation | crates/ordeal-lrat/src/blast_kernel.rs:887-929 | with distinct input numbers, every satisfying assignment is a simulation on every node, with all outputs true |
| Tseitin.Equisatisfiable | crates/ordeal/src/cnf.rs:53-81 | the CNF is satisfiable exactly when some input makes every output true |
| BlastArith.BlastAnd | crates/ordeal-lrat/src/blast_kernel.rs:171-181 | bitwise and |
| BlastArith.BlastOr | crates/ordeal-lrat/src/blast_kernel.rs:184-194 | bitwise or |
| BlastArith.BlastXor | crates/ordeal-lrat/src/blast_kernel.rs:197-207 | bitwise exclusive or |
| BlastArith.WordNot | crates/ordeal-lrat/src/blast_kernel.rs:236-245 | the complement, adding no gate |
| BlastArith.FullAdder | crates/ordeal-lrat/src/blast_kernel.rs:636-643 | sum bit and majority carry, nine gates |
| BlastArith.RippleCarry | crates/ordeal-lrat/src/blast_kernel.rs:212-227 | sum plus 2^w times the carry out is a + b + carry in, as numbers |
| BlastArith.BlastAdd | crates/ordeal-lrat/src/blast_kernel.rs:230-233 | addition modulo 2^w |
| BlastArith.SubWithUge | crates/ordeal-lrat/src/blast_kernel.rs:647-660 | the w-bit difference, and a carry that decides a >= b |
| BlastArith.BlastSub | crates/ordeal-lrat/src/blast_kernel.rs:248-252 | subtraction modulo 2^w |
| BlastArith.BlastUlt | crates/ordeal-lrat/src/blast_kernel.rs:256-260 | unsigned less-than by the carry chain |
| BlastArith.FlipSign | crates/ordeal-lrat/src/blast_kernel.rs:280-293 | the sign bit flipped, which adds 2^(w-1) to the signed value |
| BlastArith.BlastSlt | crates/ordeal-lrat/src/blast_kernel.rs:297-301 | two's-complement less-than by flipping the sign bits |
| BlastArith.BlastEq | crates/ordeal-lrat/src/blast_kernel.rs:321-332 | equality of words |
| BlastArith.BlastCmp | crates/ordeal-lrat/src/blast_kernel.rs:256-338 | all ten comparisons by the theory's meaning |
| BlastArith.BlastIte | crates/ordeal-lrat/src/blast_kernel.rs:348-358 | the selected word |
| BlastArith.BlastExtract | crates/ordeal-lrat/src/blast_kernel.rs:361-369 | bits lo to hi |
| BlastArith.BlastConcat | crates/ordeal-lrat/src/blast_kernel.rs:373-388 | the first operand becomes the high bits |
| BlastArith.BlastZeroExt | crates/ordeal-lrat/src/blast_kernel.rs:391-405 | zero extension |
| BlastArith.BlastSignExt | crates/ordeal-lrat/src/blast_kernel.rs:408-423 | sign extension |
| BlastArith.WordConst | crates/ordeal-lrat/src/blast_kernel.rs:453-467 | the w low bits of a number |
| BlastArith.WordBits | crates/ordeal-lrat/src/blast_kernel.rs:1040-1052 | a slice of the constant table |
| BlastArith.BlastNeg | crates/ordeal-lrat/src/blast_kernel.rs:794-797 | two's-complement negation |
| BlastShift.StageCount | crates/ordeal-lrat/src/blast_kernel.rs:435-447 | the stage count s with 2^(s-1) < w <= 2^s, and whether w is 2^s |
| BlastShift.StagesLeast | crates/ordeal-lrat/src/blast_kernel.rs:435-447 | that count is the least with w <= 2^s |
| BlastShift.OutOfRange | crates/ordeal-lrat/src/blast_kernel.rs:472-481 | true exactly when the amount's bits from the stage count on are not zero |
| BlastShift.BarrelRightStage | crates/ordeal-lrat/src/blast_kernel.rs:485-496 | one stage: a shift by s places when selected |
| BlastShift.BarrelLeftStage | crates/ordeal-lrat/src/blast_kernel.rs:529-540 | one stage: a left shift by s places when selected |
| BlastShift.BarrelRight | crates/ordeal-lrat/src/blast_kernel.rs:501-525 | a right shift by the full amount with the fill bit, amounts at or past the width included |
| BlastShift.BlastShl | crates/ordeal-lrat/src/blast_kernel.rs:544-569 | bvshl for every amount |
| BlastShift.BlastLshr | crates/ordeal-lrat/src/blast_kernel.rs:572-574 | bvlshr for every amount |
| BlastShift.BlastAshr | crates/ordeal-lrat/src/blast_kernel.rs:577-580 | bvashr for every amount |
| BlastMulDiv.BlastMul | crates/ordeal-lrat/src/blast_kernel.rs:665-687 | multiplication modulo 2^w by in-place shift and add |
| BlastMulDiv.MulRow | crates/ordeal-lrat/src/blast_kernel.rs:674-685 | one row adds the partial product at bit i |
| BlastMulDiv.TopBitDecides | crates/ordeal-lrat/src/blast_kernel.rs:707-731 | the w-bit difference and the shifted-out top bit decide the (w+1)-bit comparison of the restoring step |
| BlastMulDiv.ShiftWord | crates/ordeal-lrat/src/blast_kernel.rs:708-718 | the remainder shifted left in place, the dividend bit brought in |
| BlastMulDiv.DivStep | crates/ordeal-lrat/src/blast_kernel.rs:707-731 | one round keeps remainder below divisor and the quotient-remainder equation |
| BlastMulDiv.BlastUdivrem | crates/ordeal-lrat/src/blast_kernel.rs:695-753 | a / b and a mod b for b > 0; all ones and a for b = 0 |
| BlastMulDiv.BlastUdiv | crates/ordeal-lrat/src/blast_kernel.rs:756-759 | bvudiv |
| BlastMulDiv.UremIsMultiplicative | crates/ordeal-lrat/src/blast_kernel.rs:761-768 | a - (a / b) * b is the remainder, zero divisor included |
| BlastMulDiv.BlastUrem | crates/ordeal-lrat/src/blast_kernel.rs:764-768 | bvurem, through the multiplicative form |
| BlastRotate.RotrStage | crates/ordeal-lrat/src/blast_kernel.rs:584-595 | one stage: a rotation by s places when selected |
| BlastRotate.RotrStages | crates/ordeal-lrat/src/blast_kernel.rs:600-615 | the stages together rotate by the number of the amount bits they read |
| BlastRotate.BlastRotr | crates/ordeal-lrat/src/blast_kernel.rs:623-633 | right rotation by the amount modulo w, at power-of-two and other widths |
| BlastRotate.LeftAmount | crates/ordeal-lrat/src/blast_kernel.rs:805-818 | the right-rotation amount congruent to minus the left one modulo w: 0 - b at power-of-two widths, (w - b mod w) mod w elsewhere |
| BlastRotate.BlastRotl | crates/ordeal-lrat/src/blast_kernel.rs:805-818 | left rotation by the amount modulo w at every width |
| BlastSigned.SignMask | crates/ordeal-lrat/src/blast_kernel.rs:822-825 | the sign bit in every place |
| BlastSigned.Magnitude | crates/ordeal-lrat/src/blast_kernel.rs:831-834 | the absolute value by the sign mask, with the mask |
| BlastSigned.BlastSdiv | crates/ordeal-lrat/src/blast_kernel.rs:842-851 | bvsdiv by sign masks and magnitudes |
| BlastSigned.SremIsMultiplicative | crates/ordeal-lrat/src/blast_kernel.rs:859-863 | a - (a sdiv b) * b is bvsrem, zero divisor and INT_MIN / -1 included |
| BlastSigned.BlastSrem | crates/ordeal-lrat/src/blast_kernel.rs:859-863 | bvsrem |
| SignedMeaning.SdivTruncates | crates/ordeal-lrat/src/blast_kernel.rs:836-851 | as signed numbers, bvsdiv truncates toward zero, except INT_MIN / -1 which is INT_MIN |
| SignedMeaning.SremRemains | crates/ordeal-lrat/src/blast_kernel.rs:853-863 | as signed numbers, bvsrem is the remainder of the truncating quotient, smaller than the divisor and with the dividend's sign |
| GateFacts.AndAt | crates/ordeal-lrat/src/blast_kernel.rs:171-181 | bit k of bvand is the k-th gate, on bit k of both operands in order |
| GateFacts.OrAt | crates/ordeal-lrat/src/blast_kernel.rs:184-194 | bit k of bvor is the k-th gate, by De Morgan |
| GateFacts.XorAt | crates/ordeal-lrat/src/blast_kernel.rs:127-137 | bit k's three gates start at 3k |
| GateFacts.IteAt | crates/ordeal-lrat/src/blast_kernel.rs:341-358 | bit k's multiplexer starts at 3k |
| GateFacts.RippleAt | crates/ordeal-lrat/src/blast_kernel.rs:209-227 | column k's nine gates start at 9k, on the carry out of column k - 1 |
| GateFacts.EqAt | crates/ordeal-lrat/src/blast_kernel.rs:321-332 | bit k's four gates start at 4k, the last joining the answer so far |
| GateFacts.AnyAt | crates/ordeal-lrat/src/blast_kernel.rs:472-481 | gate k joins bit lo + k to the disjunction so far |
| GateFacts.BarrelAt | crates/ordeal-lrat/src/blast_kernel.rs:485-540 | stage k of a shift or rotation starts after k stages of 3w gates and selects on amount bit k between each bit and the bit it would be |
| GateFacts.CellsAt | crates/ordeal-lrat/src/blast_kernel.rs:674-685 | in a multiplier row the ten-gate cell of bit c is the (c - i)-th, on the carry of the one before |
| GateFacts.MulAt | crates/ordeal-lrat/src/blast_kernel.rs:665-687 | row i starts after the shrinking rows before it and adds a, gated by bit i of b, into their sums |
| GateFacts.RestoreAt | crates/ordeal-lrat/src/blast_kernel.rs:707-731 | one division step: the columns of the difference, the deciding gate, the restoring multiplexers |
| GateFacts.DivideAt | crates/ordeal-lrat/src/blast_kernel.rs:695-731 | division step k starts after k steps of 12w + 1 gates and brings in dividend bit w - 1 - k |
| GateFacts.BinSize | crates/ordeal-lrat/src/blast_kernel.rs:171-863 | the number of gates of every binary operator at every width, exactly |
| GateFacts.DagSize | crates/ordeal-lrat/src/blast_kernel.rs:1125-1150 | the arena of a DAG has one node and every DAG node's own number, exactly |
| GateFacts.BlockOf | crates/ordeal-lrat/src/blast_kernel.rs:1068-1150 | the query's arena holds, from the sizes before a node on, exactly what that node's rule appends over the words of the nodes before it |
| GateLaws.UremLaw | crates/ordeal-lrat/src/blast_kernel.rs:761-768 | a bvurem node and the nodes of a - (a / b) * b encode to the same arena, gate for gate, with the same word |
| GateLaws.SremLaw | crates/ordeal-lrat/src/blast_kernel.rs:853-863 | likewise bvsrem and a - (a sdiv b) * b |
| GateLaws.NegLaw | crates/ordeal-lrat/src/blast_kernel.rs:791-797 | likewise bvneg and 0 - a |
| GateLaws.SdivLaw | crates/ordeal-lrat/src/blast_kernel.rs:836-851 | likewise bvsdiv and the sign-mask construction of eleven nodes over bvudiv |
| GateLaws.RotlLaw | crates/ordeal-lrat/src/blast_kernel.rs:799-818 | likewise bvrotl and bvrotr by 0 - b at a power-of-two width |
| GateLaws.RotlReducedLaw | crates/ordeal-lrat/src/blast_kernel.rs:799-818 | likewise bvrotl and bvrotr by (w - b urem w) urem w at every other width |
| GateLaws.NegatedLaw | crates/ordeal-lrat/src/blast_kernel.rs:262-338 | distinct and the non-strict comparisons encode as the complement of equality or of the strict one, operands exchanged or not |
| GateLaws.MirroredLaw | crates/ordeal-lrat/src/blast_kernel.rs:268-312 | the greater-than comparisons encode as less-than of exchanged operands |
| Dag.CheckWf | crates/ordeal-lrat/src/kernel.rs:762-776 | accepts exactly the well-formed DAGs with their widths, or names the first bad node |
| Dag.CheckRoots | crates/ordeal-lrat/src/kernel.rs:780-792 | accepts exactly boolean roots, or names the first bad one |
| Dag.MaxWidth | crates/ordeal-lrat/src/kernel.rs:796-807 | the greatest width, zero for none |
| Dag.SatByInputs | crates/ordeal-lrat/src/blast_kernel.rs:1119-1150 | satisfiability by assignments and by input lists, numbered least significant bit first in node order, is the same |
| Encoder.WordInputs | crates/ordeal-lrat/src/blast_kernel.rs:1027-1036 | a variable takes the next w inputs, least significant bit first |
| Encoder.EncodeNode | crates/ordeal-lrat/src/blast_kernel.rs:1068-1117 | the node's word has the node's value under every input, within the node budget 70w^2 + 70w + 1; the gates appended are exactly the ones the rule lists |
| Encoder.Encode | crates/ordeal-lrat/src/blast_kernel.rs:1125-1150 | every node of a well-formed DAG gets a word with that node's value under every input; the arena and the root literals are exactly the ones `GateList.QueryOf` lists; at most 1 + n * budget arena nodes; input numbers distinct |
| Query.EncodeFits | crates/ordeal-lrat/src/kernel.rs:818-842 | decides the capacity bound, every intermediate value typed as a machine index; exact for n >= 1, and for n = 0 also requires the budget itself to fit |
| Query.TseitinFits | crates/ordeal-lrat/src/kernel.rs:846-856 | exactly 1 + 3 * nodes + outputs below the largest machine index, every intermediate value a machine index |
| Query.Lower | crates/ordeal-lrat/src/kernel.rs:889-903 | builds an arena whose words encode the roots within the node budget; the answer is that arena's CNF compacted along the hints, satisfiable exactly when the DAG is, or a refusal when that CNF exceeds the variable or clause bound |
| Query.BudgetFits | crates/ordeal-lrat/src/kernel.rs:889-903 | compaction never grows an arena, so such a refusal needs a query whose budgeted size already exceeds a bound |
| Query.CnfFaithful | crates/ordeal-lrat/src/kernel.rs:867-903 | the clauses of an arena that encodes the DAG are satisfiable exactly when the DAG is, along any hints, and their number is below the largest machine index |
| Query.FaithfulRefutable | crates/ordeal-lrat/src/kernel.rs:867-878 | completeness at the DAG: the re-encoded CNF has an accepted step list exactly when no assignment makes every root true |
| Query.CheckQuery | crates/ordeal-lrat/src/kernel.rs:879-908 | refuses a malformed query at its first bad node or root and one beyond capacity as too large; otherwise the answer, acceptance and rejection alike, is the verdict of these hints and steps on the CNF of the query's listed arena, or that CNF's refusal for size; so it accepts exactly when they refute that arena, and then no assignment makes every root true |
| Query.DagNin | crates/ordeal-lrat/src/kernel.rs:942-959 | the number of input bits the variables take, or a refusal past the machine index |
| Query.VarOffset | crates/ordeal-lrat/src/kernel.rs:1713-1730 | the offset of a node's input block, or a refusal |
| Query.CheckQueryModel | crates/ordeal-lrat/src/kernel.rs:989-1026 | accepts exactly well-formed queries within capacity whose inputs are long enough and make every root true; a rejection names the first false root, or the first bad node or root |
| Query.QueryVerdictsExclusive | crates/ordeal-lrat/src/kernel.rs:872-1026 | no query has both an accepted refutation and an accepted model |
| Query.CheckInputValue | crates/ordeal-lrat/src/kernel.rs:1738-1756 | the w low bits of the value are the input block; higher bits are not read |
| TermCheck.DagConst | crates/ordeal-lrat/src/kernel.rs:1423-1434 | the flags of the nodes whose value no input changes |
| TermCheck.Conditions | crates/ordeal-lrat/src/kernel.rs:1338-1346 | the simulated truth of every node's first literal, none when it is out of range |
| TermCheck.ConstSound | crates/ordeal-lrat/src/kernel.rs:1349-1434 | a flagged node has under every assignment the value it has with every variable zero, decided ites and connectives included |
| TermCheck.CheckBitsEq | crates/ordeal-lrat/src/kernel.rs:1438-1450 | the two table slices exist and are equal |
| TermCheck.FoldBitsOk | crates/ordeal-lrat/src/kernel.rs:1454-1470 | the slice is the word's simulated value |
| TermCheck.TermStep | crates/ordeal-lrat/src/kernel.rs:1540-1562 | accepts exactly a corresponding node, marking a variable's image in place, or gives the exact complaint |
| TermCheck.CheckRootsCorr | crates/ordeal-lrat/src/kernel.rs:1567-1592 | the roots correspond one for one through the map |
| TermCheck.CheckTermDag | crates/ordeal-lrat/src/kernel.rs:1625-1704 | accepts exactly when the declarative correspondence along the map holds and the term is within capacity; a rejection says that everything checked earlier holds and names the first complaint |
| TermExact.CmpExact | crates/ordeal-lrat/src/kernel.rs:1284-1327 | a mapped comparison passes exactly when its image compares the images in order by the same meaning, or exchanged by the exchanged meaning: over all words of one width, without the swap and mirror tables |
| TermExact.BinExact | crates/ordeal-lrat/src/kernel.rs:1284-1327 | a mapped binary operator passes exactly when its image is the same function of the images in order, or of the exchanged ones |
| TermExact.ConnectiveExact | crates/ordeal-lrat/src/kernel.rs:1284-1327 | a mapped boolean connective passes exactly when its image has the same two operands in either order |
| TermExact.PlainExact | crates/ordeal-lrat/src/kernel.rs:1234-1282 | every other mapped operator passes exactly when its image is the operator over its operands' images |
| TermExact.FlagsExact | crates/ordeal-lrat/src/kernel.rs:1349-1434 | the constant flags are exactly the nodes whose value the conditions decided at zero settle |
| TermExact.FoldExact | crates/ordeal-lrat/src/kernel.rs:1454-1562 | an operator mapped to a constant passes exactly when it is settled and is that constant under every assignment |
| TermSound.MappedNodeValue | crates/ordeal-lrat/src/kernel.rs:1600-1624 | under assignments agreeing on mapped variables every mapped node has its image's value, through swaps, mirrors, sharing and folds |
| TermSound.PulledAgrees | crates/ordeal-lrat/src/kernel.rs:1600-1624 | every DAG assignment pulls back to an agreeing term assignment |
| TermSound.PushedAgrees | crates/ordeal-lrat/src/kernel.rs:1600-1624 | every term assignment pushes forward to an agreeing DAG assignment |
| TermSound.TermSatIffDagSat | crates/ordeal-lrat/src/kernel.rs:1600-1704 | satisfiability carries both ways |
| TermSound.CheckTermUnsat | crates/ordeal-lrat/src/kernel.rs:1600-1624 | accepts exactly when the correspondence holds within capacity and these hints and steps refute the DAG's listed arena, returned as a ghost; then no assignment makes every root of the term true |
| TermSound.CheckTermModel | crates/ordeal-lrat/src/kernel.rs:1600-1624 | accepts exactly when the correspondence holds within capacity and the inputs are long enough and make every root true; then the pulled-back assignment satisfies the term |
| Sliver.CheckChainWf | crates/ordeal-lrat/src/sliver_kernel.rs:195-216 | every chain level is in the side table, with a 32-bit index and an 8-bit value |
| Sliver.CheckArgsWf | crates/ordeal-lrat/src/sliver_kernel.rs:220-240 | every argument is an earlier node in the side table |
| Sliver.CheckExtWf | crates/ordeal-lrat/src/sliver_kernel.rs:267-285 | accepts exactly the well-formed extended queries, or names the first bad node |
| SliverCheck.ReadDup | crates/ordeal-lrat/src/sliver_kernel.rs:290-300 | an earlier entry has the same array and index |
| SliverCheck.ReadEntries | crates/ordeal-lrat/src/sliver_kernel.rs:304-337 | accepts exactly a valid read table and classifies its variables in place; a refusal names the first bad entry |
| SliverCheck.CheckArgsInRange | crates/ordeal-lrat/src/sliver_kernel.rs:341-355 | the argument range is in the table and names core nodes |
| SliverCheck.ArgsEq | crates/ordeal-lrat/src/sliver_kernel.rs:359-369 | two argument ranges list the same nodes |
| SliverCheck.CallDup | crates/ordeal-lrat/src/sliver_kernel.rs:373-383 | an earlier entry has the same function and arguments |
| SliverCheck.CallEntries | crates/ordeal-lrat/src/sliver_kernel.rs:387-420 | accepts exactly a valid call table, disjoint from the reads, and classifies its variables in place; a refusal names the first bad entry |
| SliverCheck.CoreCorr | crates/ordeal-lrat/src/sliver_kernel.rs:428-461 | a closed node corresponds to its image; a variable claims it |
| SliverCheck.BaseReadOk | crates/ordeal-lrat/src/sliver_kernel.rs:500-518 | the node is the read variable registered for this array and index |
| SliverCheck.ChainWalk | crates/ordeal-lrat/src/sliver_kernel.rs:530-587 | the walk succeeds exactly on a read-over-write elimination, and marks the read variable it reaches |
| SliverCheck.ArgsMatch | crates/ordeal-lrat/src/sliver_kernel.rs:591-608 | the images of the extended arguments are the listed core nodes |
| SliverCheck.CallCorr | crates/ordeal-lrat/src/sliver_kernel.rs:614-643 | the image is the registered result variable of its width, which is marked reached |
| SliverCheck.ExtStep | crates/ordeal-lrat/src/sliver_kernel.rs:649-689 | accepts exactly a corresponding extended node, or gives the exact complaint |
| SliverCheck.DeadEntry | crates/ordeal-lrat/src/sliver_kernel.rs:694-706 | names the first table variable nothing reached, or every entry is live |
| SliverCheck.CheckExtRootsCorr | crates/ordeal-lrat/src/sliver_kernel.rs:711-726 | the extended roots' images lead the core roots |
| SliverCheck.ImplicationShape | crates/ordeal-lrat/src/sliver_kernel.rs:731-752 | the antecedent, exactly when the root is or(not(ante), vp = vq) |
| SliverCheck.CheckConstPair | crates/ordeal-lrat/src/sliver_kernel.rs:756-767 | both nodes are constants, with unequal bits |
| SliverSound.ConstPairApart | crates/ordeal-lrat/src/sliver_kernel.rs:756-767 | a skipped pair has different index values, so owes no root |
| SliverCheck.ArrayCongFor | crates/ordeal-lrat/src/sliver_kernel.rs:771-805 | one row of read congruence roots, or the first root that is not the owed one |
| SliverCheck.ArrayCong | crates/ordeal-lrat/src/sliver_kernel.rs:808-826 | every read congruence root, in table order |
| SliverCheck.CheckAnte | crates/ordeal-lrat/src/sliver_kernel.rs:831-855 | the antecedent is the nested conjunction of the argument equalities |
| SliverCheck.UfCongFor | crates/ordeal-lrat/src/sliver_kernel.rs:860-902 | one row of call congruence roots, or the first root that is not the owed one |
| SliverCheck.UfCong | crates/ordeal-lrat/src/sliver_kernel.rs:905-923 | every call congruence root, in table order |
| SliverCheck.CheckSliverLowering | crates/ordeal-lrat/src/sliver_kernel.rs:954-1028 | accepts exactly the declarative correspondence; a rejection says that everything checked earlier holds and names the first thing that does not |
| SliverExact.ReadsOwe | crates/ordeal-lrat/src/sliver_kernel.rs:756-826 | two read entries of different arrays owe no root; of one array they owe one exactly when not both index nodes are constants or both are of one value |
| SliverExact.CallsOwe | crates/ordeal-lrat/src/sliver_kernel.rs:860-923 | two call entries owe a root exactly when function and arity agree |
| SliverExact.OnlyPairs | crates/ordeal-lrat/src/sliver_kernel.rs:771-923 | nothing but a pair of two different entries, the earlier first, owes a root |
| SliverExact.OwedOrder | crates/ordeal-lrat/src/sliver_kernel.rs:771-923 | the owed roots are strictly ordered: reads before calls, then by first and by second entry |
| SliverComplete.EliminationAccepted | crates/ordeal-lrat/src/sliver_kernel.rs:20-52 | the read-over-write elimination of every well-formed extended query whose calls agree in their widths is accepted: every node has an image, every table entry is live, every owed root stands in its place |
| SliverComplete.LoweredSignature | crates/ordeal-lrat/src/sliver_kernel.rs:860-923 | an accepted lowering that leaves no node out has calls of one function and arity agree in result and argument widths |
| SliverComplete.LoweringExists | crates/ordeal-lrat/src/sliver_kernel.rs:954-1028 | completeness: a well-formed extended query whose elimination fits in an index has an accepted lowering that leaves no node out exactly when its calls of one function and arity agree in their widths |
| SliverComplete.SliverCertifiable | crates/ordeal-lrat/src/sliver_kernel.rs:925-952 | every such query with boolean roots and a core within capacity can be certified: its elimination is accepted, its core corresponds to itself, and where the listed arena's clauses fit some steps refute them exactly when no interpretation satisfies the query |
| SliverSound.WalkValue | crates/ordeal-lrat/src/sliver_kernel.rs:520-587 | a walk that is not broken ends with the value reading the store chain gives |
| SliverSound.RootMeaning | crates/ordeal-lrat/src/sliver_kernel.rs:28-53 | a root at its owed place says: equal index (argument) values imply equal variable values |
| SliverSound.PushForward | crates/ordeal-lrat/src/sliver_kernel.rs:53-60 | an extended model gives a core assignment that satisfies every core root exactly when the model satisfies every extended root; this rests on every entry being live |
| SliverSound.ReadsFunctional | crates/ordeal-lrat/src/sliver_kernel.rs:756-826 | in a core model, read entries of one array with equal index values hold one value |
| SliverSound.CallsFunctional | crates/ordeal-lrat/src/sliver_kernel.rs:860-923 | in a core model, call entries of one function on equal argument values hold one value |
| SliverSound.InterpretationSatisfies | crates/ordeal-lrat/src/sliver_kernel.rs:53-60 | every interpretation that holds a core model's cells and results satisfies the extended roots, whatever it holds elsewhere |
| SliverSound.PullBack | crates/ordeal-lrat/src/sliver_kernel.rs:53-60 | a core model of every core root gives an extended model of the extended roots |
| SliverSound.SliverSatIffCoreSat | crates/ordeal-lrat/src/sliver_kernel.rs:53-65 | the extended query is satisfiable under array and function interpretations exactly when the core is |
| SliverModel.CheckSliverUnsat | crates/ordeal-cert/src/query.rs:1270-1281 | accepts exactly when both correspondences hold within capacity and these hints and steps refute the DAG's listed arena, returned as a ghost; then no interpretation satisfies the extended query |
| SliverModel.CheckSliverModel | crates/ordeal-lrat/src/sliver_kernel.rs:945-952 | accepts exactly when both correspondences hold within capacity and the inputs are long enough and make every DAG root true; then the pulled-back model satisfies the extended query |
| SliverModel.SliverVerdictsExclusive | crates/ordeal-lrat/src/sliver_kernel.rs:62-65 | no extended query has both certificates |
| Pullback.CutIsModulo | crates/ordeal-cert/src/query.rs:1203-1212 | the number read off a word is its value modulo 2^128 |
| Pullback.TableExact | crates/ordeal-cert/src/query.rs:1219-1230 | for any keys and values inserted in order: some insertion overwrites another value exactly when two insertions share a key and differ in value, exactly when the final table does not hold every insertion |
| ModelInputs.FromModel | crates/ordeal-cert/src/query.rs:546-568 | the input list read from a model by name: it assigns every variable node the 128-bit value of the first binding of the first name listed for it, zero without one, and zeros above |
| ModelInputs.NamedValuesAre | crates/ordeal-cert/src/query.rs:1213-1218 | the environment by name lists exactly the bound names of the variable table, each with its first binding |
| Pullback.CellsExact | crates/ordeal-cert/src/query.rs:1219-1224 | for every input, naming and assignment: an array cell is overwritten with another value exactly when two read entries of one array name agree on the index and differ in the value, and exactly then the table misses an entry |
| Pullback.CellsNeverLost | crates/ordeal-cert/src/query.rs:1219-1224 | in a core model of an accepted lowering a cell is lost exactly when two arrays of one name are read at one index with different values; never when every array is named once, at any core width |
| Pullback.ResultsExact | crates/ordeal-cert/src/query.rs:1225-1230 | for every input, naming and assignment: a call result is overwritten with another value exactly when two entries of one function name agree on the low 128 bits of every argument and differ in those of the result, and exactly then the table misses an entry |
| Pullback.ArgumentWidths | crates/ordeal-lrat/src/sliver_kernel.rs:860-923 | an accepted core relates calls of one function and arity at equal argument widths |
| Pullback.NarrowClash | crates/ordeal-cert/src/query.rs:1225-1230 | when no argument or result of a call entry is wider than 128 bits, only two functions of one name can overwrite each other's result |
| Pullback.NarrowNeverLost | crates/ordeal-cert/src/query.rs:1225-1230 | so with every function named once and no wide call, tests on the names and the call table alone, no result is ever lost |
| Pullback.CarriedAgree | crates/ordeal-cert/src/query.rs:1213-1218 | when every named query variable's image carries the same name in the core's variable table, the environment by name agrees with the core assignment at the images, whatever the model |
| Pullback.PullbackTables | crates/ordeal-cert/src/query.rs:1219-1232 | nothing exactly when an entry's array or function has no name; else exactly the insertions in order, keyed by name |
| Pullback.PullbackModel | crates/ordeal-cert/src/query.rs:1188-1232 | from a model by name, encodes, simulates and reads back the environment by name and the two tables by name, or nothing exactly when an entry's array or function has no name; every cell and result is kept exactly when no two entries clash; with names listed once, no wide call and named variables that agree with their images, the interpretation read back satisfies every extended root |
| PullbackLoss.WideCallLost | crates/ordeal-cert/src/query.rs:1203-1230 | a concrete accepted lowering and core model by name, every name listed once, with two 136-bit call arguments: the second result overwrites the first, and the model read back falsifies the query |
| PullbackLoss.NamesakeLost | crates/ordeal-cert/src/query.rs:1219-1224 | a concrete accepted lowering and core model by name with no wide node and two arrays of one name: the second cell overwrites the first, and the model read back falsifies the query; with no array listed nothing is read back |
| SliverWidths.MappedWidth | crates/ordeal-lrat/src/sliver_kernel.rs:53-60 | along an accepted map a node is exactly as wide as its image |
| SliverWidths.NarrowFromQuery | crates/ordeal-lrat/src/sliver_kernel.rs:694-706 | a query with no node wider than 128 bits has no wide call entry: every entry is reached by a call of the query |
| FlatState.NameIs | crates/ordeal-lrat/src/term_kernel.rs:261-273 | the arena slice is the name |
| FlatState.TableFind | crates/ordeal-lrat/src/term_kernel.rs:276-287 | the entry of a name, or none has it |
| FlatState.PushName | crates/ordeal-lrat/src/term_kernel.rs:290-296 | appends the name's bytes as the last entry |
| Flatten.Flat.ConstFind | crates/ordeal-lrat/src/term_kernel.rs:309-320 | the memo entry of a value and width |
| Flatten.Flat.BitsOf | crates/ordeal-lrat/src/term_kernel.rs:299-306 | the low w bits, least significant first |
| Flatten.Flat.FlatConst | crates/ordeal-lrat/src/term_kernel.rs:340-353 | a node that means the constant, shared through the memo |
| Flatten.Flat.FlatVar | crates/ordeal-lrat/src/term_kernel.rs:357-377 | the one node of a name, or a refusal of a second width |
| Flatten.Flat.FlatArrayId | crates/ordeal-lrat/src/term_kernel.rs:380-391 | the one id of an array name |
| Flatten.Flat.FlatFuncId | crates/ordeal-lrat/src/term_kernel.rs:395-410 | the one id of a function name, or a refusal of a second width |
| Flatten.Flat.PushCore | crates/ordeal-lrat/src/term_kernel.rs:415-419 | the operator node, which means the tree it spells |
| Flatten.Flat.FlatBv | crates/ordeal-lrat/src/term_kernel.rs:423-586 | success gives a node that means the tree by name, of its width, with the names used added to the tables; a refusal is the first complaint of the walk, left to right; the node list is exactly the one `FlatList` gives |
| Flatten.Flat.FlatBin | crates/ordeal-lrat/src/term_kernel.rs:627-641 | a width-preserving operator over operands of one width |
| Flatten.Flat.FlatConcat | crates/ordeal-lrat/src/term_kernel.rs:470-484 | a concatenation of at most 128 bits |
| Flatten.Flat.FlatIte | crates/ordeal-lrat/src/term_kernel.rs:509-527 | the condition first, then branches of one width |
| Flatten.Flat.FlatUnary | crates/ordeal-lrat/src/term_kernel.rs:458-543 | extract, the extensions, bvnot and bvneg, with their bounds |
| Flatten.Flat.FlatSelect | crates/ordeal-lrat/src/term_kernel.rs:544-563 | a select: index, then chain outermost store first; the node means the read of the array tree |
| Flatten.Flat.FlatCall | crates/ordeal-lrat/src/term_kernel.rs:564-584 | a call: arguments in order, then the function; the node means the application |
| Flatten.Flat.FlatArray | crates/ordeal-lrat/src/term_kernel.rs:647-670 | the chain levels and base array id mean the array tree |
| Flatten.Flat.FlatArgs | crates/ordeal-lrat/src/term_kernel.rs:674-686 | the nodes mean the arguments, in order |
| Flatten.Flat.FlatCmp | crates/ordeal-lrat/src/term_kernel.rs:716-729 | a comparison over operands of one width |
| Flatten.Flat.FlatBool | crates/ordeal-lrat/src/term_kernel.rs:733-775 | success gives a boolean node that means the tree by name; a refusal is the walk's first complaint; the node list is exactly the one `FlatList` gives |
| Flatten.Flat.FlattenRoots | crates/ordeal-lrat/src/term_kernel.rs:779-790 | every asserted tree becomes a root that means it |
| FlatSpec.WalkExact | crates/ordeal-lrat/src/term_kernel.rs:423-586 | the left-to-right walk over a tree complains exactly when the tree is ill-sorted or gives a name a second width; else it adds exactly the names the tree uses |
| FlatSpec.AllExact | crates/ordeal-lrat/src/term_kernel.rs:779-790 | the same for a list of asserted trees, in order |
| Flatten.FlattenTree | crates/ordeal-lrat/src/term_kernel.rs:794-800 | succeeds exactly on sorted trees that use every variable and function name at one width; then every root means its tree and the names are exactly those used; a refusal is the first complaint of the walk over the trees; the node list and its tables are exactly `FlatList.PutAll` |
| FlatCount.FlatSize | crates/ordeal-lrat/src/term_kernel.rs:423-800 | a flattening has exactly one node per operator occurrence, one per constant and one per variable name |
| FlatOrder.FlatInOrder | crates/ordeal-lrat/src/term_kernel.rs:423-800 | without constants and variables the node list is the trees' operators in post-order, operands left to right, a select's index before its stores |
| Flatten.ProjectCore | crates/ordeal-lrat/src/term_kernel.rs:805-820 | succeeds exactly on closed node lists, and is the list |
| TreeSound.ModelOfMatches | crates/ordeal-lrat/src/term_kernel.rs:47-53 | every interpretation of the names gives a matching model of the node list |
| TreeSound.InterpOfMatches | crates/ordeal-lrat/src/term_kernel.rs:47-53 | every model of the node list gives a matching interpretation, names being listed once |
| TreeSound.FlattenedSat | crates/ordeal-lrat/src/term_kernel.rs:47-56 | the extended query of the flattening is satisfiable exactly when the trees are |
| TreeSound.CoreWf | crates/ordeal-lrat/src/term_kernel.rs:802-820 | the projected term of closed trees is well-formed with boolean roots |
| TreeSound.ProjectedSat | crates/ordeal-lrat/src/term_kernel.rs:47-56 | the projected term is satisfiable exactly when the trees are |
| TreeCert.CheckTreeUnsat | crates/ordeal-lrat/src/term_kernel.rs:53-56 | end to end for closed trees: accepts exactly when the trees flatten to closed nodes, the map takes those onto the DAG within capacity, and these hints and steps refute the DAG's listed arena; then no interpretation satisfies the trees |
| TreeCert.CheckExtTreeUnsat | crates/ordeal-lrat/src/term_kernel.rs:53-56 | end to end with arrays and functions: accepts exactly when the trees flatten, both correspondences hold within capacity, and these hints and steps refute the DAG's listed arena; then no interpretation satisfies the trees |
| TreeCert.CheckBoundAt | crates/ordeal-lrat/src/term_kernel.rs:840-851 | the value's low bits are the image's input block |
| TreeCert.CheckTreeModel | crates/ordeal-lrat/src/term_kernel.rs:857-879 | accepts exactly when every named variable with an image has its listed value there |
| TreeCert.CheckTreeModelExt | crates/ordeal-lrat/src/term_kernel.rs:885-920 | the same through both maps, the core image being a variable of the right width |
| TreeCert.CheckTreeSat | crates/ordeal-lrat/src/term_kernel.rs:853-879 | accepts exactly when the trees flatten to closed nodes, the map takes those onto the DAG within capacity, the inputs are long enough and make every root true, and every named variable has its listed value; then every interpretation giving those values satisfies the trees |
| TreeCert.BoundCoreModel | crates/ordeal-cert/src/query.rs:958-982 | when the DAG's inputs satisfy the DAG and every binding of a mapped variable is checked at its image, the core assignment read by name is a model of the core |
| TreeCert.TreesNamed | crates/ordeal-lrat/src/term_kernel.rs:380-410 | a flattening lists every array and function its entries name, and none twice |
| TreeCert.TreesNarrow | crates/ordeal-lrat/src/term_kernel.rs:470-502 | no node of a flattening is wider than 128 bits, so its calls pass the width test |
| TreeCert.GivesHolds | crates/ordeal-lrat/src/term_kernel.rs:881-920 | an interpretation that agrees with the listed values, cells and results satisfies every asserted tree |
| TreeCert.CheckExtTreeSat | crates/ordeal-lrat/src/term_kernel.rs:881-920 | acceptance returns named tables of variables, array cells and call results; every interpretation that gives what is listed its listed number satisfies the trees, whatever it holds elsewhere, and one does; the names are exactly those the trees use; it accepts exactly when the trees flatten, both correspondences hold within capacity, the inputs are long enough and make every root true, and every named variable has its listed value |
| DagBuild.KeyInjective | crates/ordeal/src/dag.rs:141-185 | no two operator nodes have one hash-consing key |
| DagBuild.DagBuilder.Place | crates/ordeal/src/dag.rs:119-136 | looked up under its key, the node is shared with an equal one exactly when hash-consing; the list is exactly the one `FlatList` gives with that sharing |
| DagBuild.DagBuilder.Constant | crates/ordeal/src/dag.rs:198-209 | a constant shared by value and width; the list is exactly the one `FlatList` gives with that sharing |
| DagBuild.DagBuilder.Variable | crates/ordeal/src/dag.rs:210-218 | a variable shared by name; the list is exactly the one `FlatList` gives with that sharing |
| DagBuild.DagBuilder.Bv | crates/ordeal/src/dag.rs:195-267 | the node has the term's value under every interpretation of the names; variables stay in first-seen order; the list is exactly the one `FlatList` gives with that sharing |
| DagBuild.DagBuilder.Boolean | crates/ordeal/src/dag.rs:292-317 | the same for boolean terms |
| DagBuild.DagBuilder.AssertAll | crates/ordeal/src/dag.rs:320-324 | each asserted term's node becomes a root, in order; the list is exactly the one `FlatList` gives with that sharing |
| DagBuild.SharedMeans | crates/ordeal/src/dag.rs:125-136 | an operator node found in the memo has the value the new node would have |
| DagBuild.BuildDag | crates/ordeal/src/dag.rs:320-329 | a well-formed DAG whose roots have the terms' values; no operator twice when hash-consing; the list is exactly `FlatList.PutAll` with that sharing, so unshared it is the flattening's |
| DagBuild.SharedAndPlain | crates/ordeal/src/dag.rs:105-117 | hash-consed and unshared runs give the same variables in the same order and roots of equal values under every interpretation |
| Canon.EvalSound | crates/ordeal/src/eval.rs:103-204 | on sorted closed constants the evaluator gives the value under every interpretation, taking only the branch an ite selects |
| Canon.CanonAlike | crates/ordeal/src/canon.rs:61-108 | canonicalisation keeps width and value of every sorted term under every interpretation |
| CanonFold.FoldsExactly | crates/ordeal/src/canon.rs:40-48 | a sorted closed term becomes a constant exactly when it has no variable left once every decided ite has taken its branch, and then the constant of its value under every interpretation; a constant itself stays as written |
| CanonFold.VariablelessFolds | crates/ordeal/src/canon.rs:40-108 | so every variable-free term folds to its value, and so does an ite whose condition and taken branch are variable-free |
| Canon.CanonBoolAlike | crates/ordeal/src/canon.rs:122-151 | and the truth of every sorted boolean term |
| Canon.CanonSat | crates/ordeal/src/canon.rs:120-151 | the canonical query holds under exactly the same interpretations |
| Canon.CanonIdempotent | crates/ordeal/src/canon.rs:61-108 | canonicalisation is idempotent for any total order on terms |
| Canon.CanonBoolIdempotent | crates/ordeal/src/canon.rs:122-151 | likewise on boolean terms |
| Canon.CommutedAlike | crates/ordeal/src/canon.rs:51-57 | commuted operands have one canonical form |
| Canon.MirroredAlike | crates/ordeal/src/canon.rs:112-151 | commuted equalities and mirrored comparisons have one canonical form |
| Bmc.QueueOverflow | crates/ordeal/src/bmc_corpus.rs:76-108 | the assertions built by the loops are the specified query |
| Bmc.QueueSat | crates/ordeal/src/bmc_corpus.rs:62-108 | for k >= 1 the query is satisfiable exactly when cap < k and cap < 255 |
| Bmc.QueueSatInRange | crates/ordeal/src/bmc_corpus.rs:73-76 | for 1 <= k <= 255, satisfiable exactly when cap < k; past 255 steps a capacity of 255 is below k yet never exceeded |
| Bmc.Deadlock | crates/ordeal/src/bmc_corpus.rs:122-220 | the assertions built by the loops are the specified query |
| Bmc.DeadlockSat | crates/ordeal/src/bmc_corpus.rs:110-220 | the query is satisfiable exactly when some schedule of the two-thread system reaches a circular wait within k steps |
| Bmc.OrderedRunOwns | crates/ordeal/src/bmc_corpus.rs:110-121 | with one lock order, in every state of every run, a thread past its first acquisition owns lock 1, so no circular wait |
| Bmc.OrderedLocksSafe | crates/ordeal/src/bmc_corpus.rs:110-121 | deadlock(k, false) is unsatisfiable for every k >= 1 |
| Bmc.InvertedLocksDeadlock | crates/ordeal/src/bmc_corpus.rs:110-121 | deadlock(k, true) is satisfiable exactly when k >= 2 |
| Bmc.QueueDepthZero | crates/ordeal/src/bmc_corpus.rs:76-108 | at depth 0 no step constrains the count, so the query is satisfiable exactly when cap < 255 |
| Bmc.DepthZero | crates/ordeal/src/bmc_corpus.rs:199-218 | at depth 0 the bad state is unconstrained, so the deadlock query is satisfiable with either lock order |

## Left out

- JSON envelopes, canonical text, hashing and the command line: serialisation around the checks.
- The LRAT text parser and its error messages: the checker starts from parsed steps.
- The SAT engines, the SMT-LIB front end and `term_map`: untrusted searches whose output the modelled checks judge.
- The evaluator on open terms: the tree semantics stands in its place; only its constant folding is modelled.
- Canon.EvalSound: the operators are evaluated by the semantics' own functions, so only the evaluator's width and control structure (which branch, which operand stops) is proved; its 128-bit mask and shift arithmetic is not modelled.
- `cnf.rs`: the same clauses as the kernel's encoder, in the same order; its `eval` is plain satisfaction.
- Machine indices: a 64-bit `usize` is modelled as an unbounded natural with the source's own capacity checks; the methods that need it require lists no longer than the largest index.
- Vectors local to one function are sequence values reassigned by its loops; the arena, the clause slots, the flattener's tables and the sliver's classification arrays are updated in place.
- The node constructors of the width-preserving binary operators and of the comparisons are grouped under one constructor that carries the operator.
- A variable's bit past the end of an input list reads as false in the semantics; the re-checks refuse such lists first.
- The outcome variables the source uses in place of early returns are early returns here.
- Error payloads: every rejection names the first offender where the source does; the builder's own refusals are not modelled.
- Lrat.CheckSteps: `usize` overflow of the clause count is excluded by `Query.CheckQuery`'s capacity test, not by the checker itself.
- The model read back is computed after an accepted check, as the re-check does; the source's early `None` for a node or argument range outside its list cannot occur then. The result widths listed beside function names are not read, and the nested map of an array's cells is one map keyed by (array name, index).
- SliverSound.SliverSatIffCoreSat: a function is interpreted at each result width separately; a core accepted by the check never relates calls of one function and arity at two widths.
- DagBuild.DagBuilder.Bv: built terms are closed, sorted and use each name at one width, as the solver's callers ensure; the sort errors of ill-sorted terms are not modelled, and `intern_node` and `flatten` are not.
- DagBuild.DagBuilder.Boolean: likewise.
- Canon.CanonAlike: selects and calls, which the canonicaliser's terms do not have, are left as they are.
- Flatten.FlattenTree: a constant's value is an unbounded natural where the source holds 128 bits; only its low bits are read.
- `QueryInputs::check_consistent` and the comparison of an advertised extended model with the one read back: equality tests; the per-variable test is `Query.CheckInputValue`.
