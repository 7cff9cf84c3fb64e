# Verified cores of Opto

Opto is a logic-synthesis shell. This project models the parts of it whose correctness is not visible
from any single function body, and proves what those parts are for.

**The canonicalising Boolean network** (`LogicNetwork`, `Canonical`, `CanonicalRules`, `CanonicalMeaning`, `CanonicalReplay`, `CanonicalSymmetry`, `CanonicalReduced`, `LogicBuilder`, `LogicProbe`, `LogicAbsence`, `LogicDetour`, `LogicRuns`).
A store is a sequence of AND/XOR/MUX rows with complemented edges and an intern table. The rewrite rules of
`canonical_and/or/xor/mux` are functions from a store to a store and an answer, capacity errors included; one set of
rules serves the allocating builder and the read-only probe, as in the source. Termination of the mutual recursion is by the
unfolded expression size of the arguments, carried together with a size bound on every result. The stateful builder is a class
whose methods are proved to compute those functions. Proved: every operation denotes its Boolean
operation, older nodes keep their meaning, each rewrite fires exactly where the rows call for it, a builder fails only when its literals are exhausted, every reachable network is in canonical form, repeating an operation is free for ever
after, and the probe answers exactly the operations that would allocate nothing.

**SAT equivalence checking** (`Cnf`, `LogicCone`, `LogicMiter`, `LogicEquivalence`, `SweepSchedule`, `LogicSweep`, `WordEncoder`, `Fsm*`).
The solver is a parameter known only by its contract: a model it returns satisfies clauses and assumptions, and UNSAT means that nothing does.
Proved: the Tseitin encoding is exact, the miter proves precisely the equivalent output lists, the budgeted sweep tries a schedule of pairs that
only the classes and the budget determine and so has one outcome under every solver, the FSM partition proof succeeds precisely when both successors always
fall into one class, and the enumerated transition relation holds precisely the feasible steps.

**Structures that stand in for a simple object**: intrusive pin lists (`MappedConnectivity`), copy-on-write paged vectors with forks
(`PagedVectors`, `PagedFamily`), row packing by in-place cycles (`PackedRows`), the archive arena (`Archive`, `ArchiveProof`), the
two-level interner (`NameStores`, `NameTables`), glob matching (`Glob`), the definition graph (`Hierarchy`, `HierarchyOrder`,
`HierarchyCount`), net counting by union-find (`DisjointSets`, `NetCount`) and calendar arithmetic (`CivilDate`).

Findings where code and expectation differ:

- The comment at `crates/opto-ir/src/logic.rs:531-533` can be read as saying that a missing key means the expression's node is absent.
  That holds, in both directions, for every conjunction and exclusive-or (`LogicAbsence.AbsentAnd`, `LogicAbsence.AbsentXor`) and for every
  disjunction and multiplexer whose rewrites never factor two arms around a missing inner multiplexer that takes several keys
  (`LogicAbsence.AbsentOr`, `LogicAbsence.AbsentMux`); the guard is read off the frozen network. Outside it the reading can fail:
  `LogicDetour.NestedSettles` and `LogicDetour.NestedLastSettles` give, for every network, two families of calls with the exact condition
  on which nodes must be present, and `LogicDetour.MissingKeyOfPresentNode` a failing member that a builder reaches. What holds without any guard is `LogicProbe.ProbeMux` and its
  companions: the probe succeeds exactly when the builder would allocate nothing.
- `wildcard_match` decides the glob relation for all patterns exactly when the name contains no `*`
  (`Glob.ExactlyStarFreeNames`); reported matches are always right (`Glob.MatchesAreSound`).
- A name table can hold more bytes than its wire form admits, because the 32-bit arena limit is per store:
  `NameTables.OutgrowsTheWire`. Serialising and decoding succeeds exactly when the stored bytes fit one arena
  (`NameTables.RoundTrip`), and that is also exactly when `freeze` succeeds on a non-empty delta.

Verify the whole project with `dafny verify dfyconfig.toml`.

## Model

| member | source | states |
|---|---|---|
| `Canonical.Resolve` | crates/opto-ir/src/logic.rs:349-364 | Looking up or allocating a canonical key keeps the store invariant, extends the store without touching older rows, and answers with a literal no heavier than the key's unfolded size; a probe never grows, and a builder fails only when no literal is left for a further node |
| `Canonical.PushKeeps` | crates/opto-ir/src/logic.rs:366-397 | Appending the row of a canonical key keeps canonical form, levels and interning, on the capacity error path too |
| `Canonical.LevelsKept` | crates/opto-ir/src/logic.rs:374-389 | The stored level of a new gate is strictly above its fanins and never exceeds its own index |
| `Canonical.BuildInput` | crates/opto-ir/src/logic.rs:241-243 | A new input is the next node as long as a literal for it is left, and a capacity error otherwise; it keeps the invariant and every older row |
| `Canonical.BuildAnd` | crates/opto-ir/src/logic.rs:611-660 | Conjunction terminates, keeps the invariant and older rows, its result weighs at most one more than both arguments, and a builder fails only when no literal is left |
| `Canonical.BuildOr` | crates/opto-ir/src/logic.rs:664-681 | Disjunction, through the recovered multiplexer or De Morgan, with the same guarantees; its recursive call is on strictly smaller arguments |
| `Canonical.BuildXor` | crates/opto-ir/src/logic.rs:685-743 | Exclusive-or with phase on the result, with the same guarantees |
| `Canonical.BuildMux` | crates/opto-ir/src/logic.rs:751-885 | Multiplexer decision table, including calls whose arguments were allocated by an earlier call, with the same guarantees |
| `Canonical.MuxCollapse` | crates/opto-ir/src/logic.rs:800-818 | Collapsing arms under the same select strictly lowers the unfolded size of the recursive call |
| `Canonical.MuxFactor` | crates/opto-ir/src/logic.rs:819-854 | Merging a nested select terminates although the combined select is a fresh literal |
| `Canonical.MuxShare` | crates/opto-ir/src/logic.rs:855-884 | Factoring two arms under one select terminates although the second call takes the first call's result |
| `CanonicalRules.AndTrivial` | crates/opto-ir/src/logic.rs:620-628 | Constants, equal and complementary operands of a conjunction are answered without a node |
| `CanonicalRules.AndFactor` | crates/opto-ir/src/logic.rs:629-638 | Read off the rows alone: a product absorbs each of its factors, in either operand order |
| `CanonicalRules.AndComplement` | crates/opto-ir/src/logic.rs:639-650 | Read off the rows alone: a literal absorbs the complement of a product that contains its own complement |
| `CanonicalRules.AndOtherwise` | crates/opto-ir/src/logic.rs:651-660 | Every other conjunction is looked up under its ordered operands |
| `CanonicalRules.OrOfProducts` | crates/opto-ir/src/logic.rs:672-679 | Read off the rows alone: two products with a complementary pair of fanins, in any of the four positions, give exactly the multiplexer of the other two fanins |
| `CanonicalRules.OrOtherwise` | crates/opto-ir/src/logic.rs:680-680 | Operands that are not such products are combined by De Morgan exactly |
| `CanonicalRules.XorTrivial` | crates/opto-ir/src/logic.rs:691-716 | Constant operands and operands on one node are answered without a node |
| `CanonicalRules.XorPhases` | crates/opto-ir/src/logic.rs:709-713 | Operand phases move to the result |
| `CanonicalRules.XorCancels` | crates/opto-ir/src/logic.rs:719-724 | Read off the rows alone: an exclusive-or with one of its own terms gives the other term |
| `CanonicalRules.XorShares` | crates/opto-ir/src/logic.rs:725-731 | Read off the rows alone: a term common to two exclusive-ors is cancelled, whatever its positions |
| `CanonicalRules.XorOtherwise` | crates/opto-ir/src/logic.rs:732-743 | Positive operands without a common term are looked up in order |
| `CanonicalRules.MuxTrivial` | crates/opto-ir/src/logic.rs:758-769 | Constant selects, equal arms and opposite constant arms need no node |
| `CanonicalRules.MuxPhases` | crates/opto-ir/src/logic.rs:770-781 | A complemented select swaps the arms, and a phase common to both arms moves to the result |
| `CanonicalRules.MuxReduces` | crates/opto-ir/src/logic.rs:782-799 | An arm that is constant, the select or the complement of the other arm leaves the right conjunction, disjunction or exclusive-or |
| `CanonicalRules.MuxCollapses` | crates/opto-ir/src/logic.rs:800-818 | Read off the rows alone: a nested multiplexer under the same select gives way to the arm that the select picks |
| `CanonicalRules.MuxCollapsesBoth` | crates/opto-ir/src/logic.rs:800-818 | With both arms nested under the same select, each gives way to its own arm |
| `CanonicalRules.MuxMergesAnd` | crates/opto-ir/src/logic.rs:819-836 | A then-arm multiplexer that shares its else-arm merges under the conjunction of the selects |
| `CanonicalRules.MuxMergesOr` | crates/opto-ir/src/logic.rs:819-836 | A then-arm multiplexer that shares its then-arm merges under the implication of the selects |
| `CanonicalRules.MuxMergesElseOr` | crates/opto-ir/src/logic.rs:837-854 | An else-arm multiplexer that shares its then-arm merges under the disjunction of the selects |
| `CanonicalRules.MuxMergesElseAnd` | crates/opto-ir/src/logic.rs:837-854 | An else-arm multiplexer that shares its else-arm merges under the inner select without the outer one |
| `CanonicalRules.MuxSharesThen` | crates/opto-ir/src/logic.rs:855-875 | Two arms with one select and one then-arm are factored around the multiplexer of their else-arms |
| `CanonicalRules.MuxSharesElse` | crates/opto-ir/src/logic.rs:855-875 | Two arms with one select and one else-arm are factored around the multiplexer of their then-arms |
| `CanonicalMeaning.ResolveMeaning` | crates/opto-ir/src/logic.rs:349-364 | The literal for a key evaluates to the key's gate under every input assignment |
| `CanonicalMeaning.AndMeaning` | crates/opto-ir/src/logic.rs:611-660 | The returned literal is the conjunction of the arguments under every input assignment |
| `CanonicalMeaning.OrMeaning` | crates/opto-ir/src/logic.rs:664-681 | The returned literal is the disjunction of the arguments under every input assignment |
| `CanonicalMeaning.XorMeaning` | crates/opto-ir/src/logic.rs:685-743 | The returned literal is the exclusive-or of the arguments under every input assignment |
| `CanonicalMeaning.MuxMeaning` | crates/opto-ir/src/logic.rs:751-885 | The returned literal is the multiplexer of the arguments under every input assignment |
| `CanonicalMeaning.ParityMeaning` | crates/opto-ir/src/logic.rs:408-424 | Cancelling a shared exclusive-or term keeps the value |
| `CanonicalReplay.ReplayAnd` | crates/opto-ir/src/logic.rs:611-660 | A conjunction answered once gets the same literal and allocates nothing on any store that covers the result |
| `CanonicalReplay.ReplayOr` | crates/opto-ir/src/logic.rs:664-681 | The same for disjunction, through every rewrite |
| `CanonicalReplay.ReplayXor` | crates/opto-ir/src/logic.rs:685-743 | The same for exclusive-or |
| `CanonicalReplay.ReplayMux` | crates/opto-ir/src/logic.rs:751-885 | The same for multiplexers |
| `CanonicalSymmetry.AndCommutes` | crates/opto-ir/src/logic.rs:611-660 | Swapping the operands gives the same store and literal |
| `CanonicalSymmetry.OrCommutes` | crates/opto-ir/src/logic.rs:664-681 | Swapping the operands gives the same store and literal |
| `CanonicalSymmetry.XorCommutes` | crates/opto-ir/src/logic.rs:685-743 | Swapping the operands gives the same store and literal |
| `LogicBuilder.Builder.constructor` | crates/opto-ir/src/logic.rs:224-236 | A new builder is the one-row store holding the constant |
| `LogicBuilder.Builder.Append` | crates/opto-ir/src/logic.rs:366-397 | The six parallel vectors grow by exactly one row, with the level computed from the fanins; the row stays even when the literal does not fit |
| `LogicBuilder.Builder.Intern` | crates/opto-ir/src/logic.rs:349-364 | The table and vectors change exactly as key resolution says |
| `LogicBuilder.Builder.AddInput` | crates/opto-ir/src/logic.rs:241-243 | The stateful builder leaves exactly the store and answer of the rule for inputs |
| `LogicBuilder.Builder.AddAnd` | crates/opto-ir/src/logic.rs:303-305 | The stateful builder leaves exactly the store and answer of the rule for conjunction |
| `LogicBuilder.Builder.AddOr` | crates/opto-ir/src/logic.rs:293-295 | The stateful builder leaves exactly the store and answer of the rule for disjunction |
| `LogicBuilder.Builder.AddXor` | crates/opto-ir/src/logic.rs:313-315 | The stateful builder leaves exactly the store and answer of the rule for exclusive-or |
| `LogicBuilder.Builder.AddMux` | crates/opto-ir/src/logic.rs:326-334 | The stateful builder leaves exactly the store and answer of the rule for multiplexers |
| `LogicProbe.StructuralIndex` | crates/opto-ir/src/logic.rs:502-522 | The rebuilt index maps exactly the structural keys of the frozen rows, each to its last row |
| `LogicProbe.FrozenCovers` | crates/opto-ir/src/logic.rs:498-522 | The index rebuilt from a frozen builder equals the builder's intern table on every addressable node |
| `LogicProbe.ProbeAnd` | crates/opto-ir/src/logic.rs:552-554 | The probe answers a literal exactly when the builder would return that literal and allocate nothing |
| `LogicProbe.ProbeOr` | crates/opto-ir/src/logic.rs:561-563 | The same equivalence for disjunction |
| `LogicProbe.ProbeXor` | crates/opto-ir/src/logic.rs:570-572 | The same equivalence for exclusive-or |
| `LogicProbe.ProbeMux` | crates/opto-ir/src/logic.rs:579-581 | The same equivalence for multiplexers |
| `CanonicalReduced.IrreducibleMux` | crates/opto-ir/src/logic.rs:800-884 | A canonical multiplexer to which no rewrite applies is looked up under its own key |
| `CanonicalReduced.ReducedMux` | crates/opto-ir/src/logic.rs:751-885 | Building a multiplexer keeps every stored multiplexer irreducible: no collapse, merge or factoring applies to it |
| `LogicAbsence.AbsentAnd` | crates/opto-ir/src/logic.rs:526-533 | A conjunction is reported absent exactly when its node would be new |
| `LogicAbsence.AbsentXor` | crates/opto-ir/src/logic.rs:526-533 | An exclusive-or is reported absent exactly when its node would be new |
| `LogicAbsence.AbsentOr` | crates/opto-ir/src/logic.rs:526-533 | A disjunction is reported absent exactly when its node would be new, if the multiplexer it may hide is direct |
| `LogicAbsence.AbsentMux` | crates/opto-ir/src/logic.rs:526-533 | A direct multiplexer is reported absent exactly when its node would be new; direct means that no pair of arms is factored around a missing inner multiplexer that takes several keys |
| `LogicAbsence.FreshSelect` | crates/opto-ir/src/logic.rs:819-854 | Merging a nested select into a new combined select always makes a new node |
| `LogicAbsence.FreshArm` | crates/opto-ir/src/logic.rs:855-875 | Factoring a pair of arms around a new inner node that took a single key always makes a new node |
| `LogicDetour.NestedSettles` | crates/opto-ir/src/logic.rs:531-533 | On every network, for the whole family where a select narrows a nested one to an existing select: the comment holds exactly when the inner multiplexer is present; when it is missing the probe reports it although the answer is the existing right arm |
| `LogicDetour.NestedLastSettles` | crates/opto-ir/src/logic.rs:531-533 | On every network, for the family with the shared arm last: the comment holds exactly when the inner multiplexer is present or the one where the detour ends is missing |
| `LogicDetour.Reached` | crates/opto-ir/src/logic.rs:221-336 | Nine builder operations lead from a new builder to the network of the counterexample |
| `LogicDetour.MissingKeyOfPresentNode` | crates/opto-ir/src/logic.rs:531-533 | On that reachable network the probe reports an absent key although the builder's answer is an existing node |
| `LogicRuns.ApplyMeaning` | crates/opto-ir/src/logic.rs:221-334 | Every public operation returns a literal that denotes its operation |
| `LogicRuns.ApplyAgain` | crates/opto-ir/src/logic.rs:349-364 | Repeating an operation on any later store returns the same literal and leaves the store unchanged |
| `LogicRuns.RunKeepsAnswers` | crates/opto-ir/src/logic.rs:200-397 | In every run of builder operations, each literal handed out still denotes its operation at the end, repeating any operation at the end allocates nothing, and an operation is refused only in a run that exhausts the literals |
| `LogicRuns.ReachableIsCanonical` | crates/opto-ir/src/logic.rs:200-397 | Every reachable network has ordered, distinct, non-constant AND/XOR fanins, positive XOR fanins and MUX selects, topological levels, no AND that absorption would have removed, no XOR with a term left to cancel, no MUX to which a rewrite applies, and no two addressable gates with one key |
| `LogicRuns.ApplyReduced` | crates/opto-ir/src/logic.rs:366-397 | Every operation keeps that normal form, and every node it adds carries the origin of the call |
| `LogicRuns.LevelIsLongestPath` | crates/opto-ir/src/logic.rs:374-389 | In every reachable network the stored level of a node is the length of its longest path of fanins |
| `LogicRuns.FreshBuilderIsValid` | crates/opto-ir/src/logic.rs:224-236 | The empty builder satisfies the invariant that all runs keep |
| `Cnf.GateClauses` | crates/opto-formal/src/logic.rs:341-365 | An assignment satisfies the clauses of an AND, XOR or MUX gate exactly when the output variable has the gate's value |
| `Cnf.FormulaMeaning` | crates/opto-formal/src/logic.rs:341-365 | An assignment that agrees with a boundary on the inputs satisfies the whole definitional formula exactly when every variable has its evaluated value |
| `Cnf.ModelSatisfies` | crates/opto-formal/src/logic.rs:313-329 | Any completion of a solver model satisfies clauses and assumptions |
| `LogicCone.Collect` | crates/opto-formal/src/logic.rs:215-242 | The worklist collects, without repetition, exactly the non-constant nodes reachable from the outputs, and fails exactly when some output lies outside the network |
| `LogicCone.SortIsTopological` | crates/opto-formal/src/logic.rs:243-243 | In the level-sorted order every non-constant fanin comes strictly before its gate |
| `LogicCone.SortKeeps` | crates/opto-formal/src/logic.rs:243-243 | Sorting by level loses and adds no node |
| `LogicMiter.Miter.constructor` | crates/opto-formal/src/logic.rs:299-311 | A new miter pins its constant to false by one clause |
| `LogicMiter.Miter.Input` | crates/opto-formal/src/logic.rs:378-383 | One variable per boundary origin, shared by both networks |
| `LogicMiter.Miter.And` | crates/opto-formal/src/logic.rs:341-347 | Appends the defining clauses of a fresh conjunction and keeps the encoding valid |
| `LogicMiter.Miter.Xor` | crates/opto-formal/src/logic.rs:349-356 | Appends the defining clauses of a fresh exclusive-or and keeps the encoding valid |
| `LogicMiter.Miter.Mux` | crates/opto-formal/src/logic.rs:358-365 | Appends the defining clauses of a fresh multiplexer and keeps the encoding valid |
| `LogicMiter.Miter.EncodeNode` | crates/opto-formal/src/logic.rs:249-276 | The literal of an encoded node evaluates to the node under every boundary |
| `LogicMiter.Miter.EncodeNetwork` | crates/opto-formal/src/logic.rs:206-296 | On builder-made networks encoding never meets an unencoded fanin; it fails exactly for outputs outside the network, counts exactly the cone, and every output literal evaluates to its output |
| `LogicEquivalence.BoundaryMeaning` | crates/opto-formal/src/logic.rs:206-296 | Every boundary assignment extends to a model that gives every encoded literal its evaluated value |
| `LogicEquivalence.AssignmentMeaning` | crates/opto-formal/src/logic.rs:206-296 | Every model evaluates the network on its own boundary |
| `LogicEquivalence.MiterMeaning` | crates/opto-formal/src/logic.rs:21-63 | The miter formula is satisfiable exactly when some output pair differs on some boundary |
| `LogicEquivalence.ProveEquivalence` | crates/opto-formal/src/logic.rs:21-63 | Proved exactly when all output pairs agree on every boundary; invalid exactly for empty, mismatched or dangling outputs; the only other error is a solver failure; the report counts the nodes of both cones, and the clauses of their gates and of the output pairs |
| `LogicSweep.ModelSeparates` | crates/opto-formal/src/logic.rs:313-329 | The boundary read off a model of the query gives the two literals different values |
| `LogicSweep.ProvePair` | crates/opto-formal/src/logic.rs:167-188 | True means the literals agree on every input; otherwise the returned refutation separates them |
| `LogicSweep.SweepClass` | crates/opto-formal/src/logic.rs:137-157 | One pass compares the first open member with all others: it keeps representatives least and separates settled members from open ones, tries exactly the due pairs of that round and class, and records each as an assignment or as a refutation that separates it |
| `LogicSweep.SweepRound` | crates/opto-formal/src/logic.rs:130-162 | A round tries exactly the due pairs of all classes in order, and stops short only when the budget is spent or the solver fails |
| `LogicSweep.ProvePartitions` | crates/opto-formal/src/logic.rs:89-165 | The pairs tried are, in order and without gaps, those of first members with later members of no earlier kind, up to the pair budget; a member is assigned exactly to the first member it was tried with and equals, and there is exactly one separating refutation for each differing pair; with budget left, a member of a class of any size is assigned exactly when it equals the first member of one of the first `max_representatives` kinds; declines exactly when the cone is too large; the only errors are dangling outputs and solver failures |
| `SweepSchedule.OneOutcome` | crates/opto-formal/src/logic.rs:130-165 | Under equal budgets two runs try the same pairs and report the same representatives, whichever solver decides them |
| `SweepSchedule.CompleteDetermines` | crates/opto-formal/src/logic.rs:130-165 | Once every due pair has been tried, equivalence of members alone determines every assignment |
| `SweepSchedule.FrontMoves` | crates/opto-formal/src/logic.rs:137-157 | Sweeping the first open member settles exactly the next kind |
| `SweepSchedule.DueIsOpen` | crates/opto-formal/src/logic.rs:133-141 | Every pair still due compares two open members, so skipping small classes and stopping early misses nothing |
| `LogicMiter.Miter.FreshInput` | crates/opto-formal/src/word_miter/encoding.rs:526-528 | A signal bit that is not known gets a new variable |
| `WordEncoder.Encoder.Bind` | crates/opto-formal/src/word_miter.rs:732-747 | Exactly the bits of one signal become constants; every other known bit keeps its literal |
| `WordEncoder.Encoder.Signal` | crates/opto-formal/src/word_miter/encoding.rs:522-529 | A known bit keeps its literal and any other bit gets a new variable, which is then known; the literal denotes the bit |
| `WordEncoder.Encoder.Or` | crates/opto-formal/src/word_miter/encoding.rs:545-551 | The literal denotes the disjunction under every environment |
| `WordEncoder.Encoder.Select` | crates/opto-formal/src/word_miter/encoding.rs:562-569 | The literal denotes the conditional under every environment |
| `WordEncoder.Encoder.PrepareSecondEvaluation` | crates/opto-formal/src/word_miter.rs:827-840 | Exactly the bits of the bound state are forgotten; every other bit keeps its literal, so no free bit can get a second variable |
| `FsmPartition.AssignmentKeepsNumber` | crates/opto-formal/src/word_miter.rs:174-196 | A constant that is accepted, most significant bit first, gives a least-significant-first bit vector of the same number |
| `FsmPartition.BitsOfInjective` | crates/opto-formal/src/word_miter.rs:865-871 | Distinct resolved constants have distinct bit vectors, so the duplicate-state check is enough |
| `FsmPartition.NextMeaning` | crates/opto-formats/src/verilog.rs:291-341 | Folding the resets in reverse equals the emitted priority chain: first active reset, then enable, else hold |
| `FsmPartition.CodeInjective` | crates/opto-formal/src/word_miter.rs:872-877 | Class identifiers that agree on every bit of the logarithmic code are equal |
| `FsmPartition.CodeWidthIsLeast` | crates/opto-formal/src/word_miter.rs:872-872 | The code width is the least positive number of bits that can tell the classes apart |
| `FsmPartition.CodeMeaning` | crates/opto-formal/src/word_miter.rs:875-893 | On a listed state the code bits spell the state's class |
| `FsmPartition.ValidMeaning` | crates/opto-formal/src/word_miter.rs:894-897 | The validity bit is true exactly on listed states |
| `FsmProof.RegisterNext` | crates/opto-formal/src/word_miter.rs:775-814 | The encoded next state denotes the reversed reset fold; malformed widths or controls are the only errors |
| `FsmProof.EncodePartition` | crates/opto-formal/src/word_miter.rs:842-898 | Accepts exactly the partitions in which every class number up to the largest is used, over distinct resolved states of the right width; the literals denote code and validity |
| `FsmProof.DenseIsCounted` | crates/opto-formal/src/word_miter.rs:854-865 | Counting distinct class numbers decides that every number up to the largest is used |
| `FsmProof.ClauseParts` | crates/opto-formal/src/word_miter.rs:457-476 | The difference clause is true under an environment exactly when the two values do not lie in one class |
| `FsmProof.ProofMeaning` | crates/opto-formal/src/word_miter.rs:457-512 | The whole formula is satisfiable exactly when some shared environment parts the successors |
| `FsmProof.ProveSuccessors` | crates/opto-formal/src/word_miter.rs:487-512 | Proved exactly when for every shared environment both register successors are listed states of the same class; rejects exactly the malformed queries |
| `FsmTransitions.StepMeaning` | crates/opto-formal/src/word_miter.rs:99-109 | A step between two states exists exactly when some environment holds the source and drives the encoded next state to the target |
| `FsmTransitions.AssumptionMeaning` | crates/opto-formal/src/word_miter.rs:135-162 | Assumptions can be met together with the encoding exactly when some boundary makes them all true |
| `FsmTransitions.QueryMeaning` | crates/opto-formal/src/word_miter.rs:135-162 | The query for a pair of states is satisfiable exactly when the register can step from one to the other |
| `FsmTransitions.StateAssignments` | crates/opto-formal/src/word_miter.rs:129-132 | All states are read exactly when each has the right width and no X or Z bit |
| `FsmTransitions.EnumerateTransitions` | crates/opto-formal/src/word_miter.rs:99-172 | The successor rows list, in ascending order, exactly the states that some behaviour of the other signals reaches in one register update; malformed registers or states are the only other errors |
| `MappedConnectivity.WalkNet` | crates/opto-ir/src/mapped.rs:931-976 | The walk of one net succeeds exactly when its links form a complete list with inverse links and the right tail, and marks exactly that list |
| `MappedConnectivity.ValidateConnectivity` | crates/opto-ir/src/mapped.rs:911-1022 | With zeroed scratch, accepts exactly the netlists whose lists visit precisely the pins of live cells on each live net, once each, with consistent owners and ranges and no links on unlinked pins |
| `MappedConnectivity.AcceptedIsSound` | crates/opto-ir/src/mapped.rs:978-1021 | The per-cell and per-owner tests, after all walks, imply that lists and connections are the same relation |
| `MappedConnectivity.SoundIsAccepted` | crates/opto-ir/src/mapped.rs:978-1021 | Conversely a consistent netlist passes every per-cell and per-owner test |
| `MappedConnectivity.PinsOnNet` | crates/opto-ir/src/mapped.rs:518-540 | On an accepted netlist the enumeration ends, follows the net's list in order, and yields each attached pin exactly once |
| `MappedConnectivity.ValidateAppendedRanges` | crates/opto-ir/src/mapped.rs:1025-1047 | Accepts exactly the consecutive ranges that tile the arena |
| `MappedConnectivity.TilesPartition` | crates/opto-ir/src/mapped.rs:1025-1047 | In accepted ranges every arena position lies in exactly one |
| `PagedFamily.Family.New` | crates/opto-core/src/paged.rs:25-31 | A new vector is empty and leaves all others as they were |
| `PagedFamily.Family.Fork` | crates/opto-core/src/paged.rs:35-42 | A fork shows the same sequence while sharing every page |
| `PagedFamily.Family.Get` | crates/opto-core/src/paged.rs:44-50 | Reads exactly the visible sequence, nothing beyond its length |
| `PagedFamily.Family.Set` | crates/opto-core/src/paged.rs:57-75 | Writes one element, growing with defaults, returns what was visible there, and changes no other member |
| `PagedFamily.Family.Resize` | crates/opto-core/src/paged.rs:82-143 | Truncates or pads with the default; hidden values never come back, and no other member changes |
| `PagedFamily.Family.Truncate` | crates/opto-core/src/paged.rs:146-151 | Keeps exactly the prefix and changes no other member |
| `PagedFamily.Family.UniquePage` | crates/opto-core/src/paged.rs:184-197 | After it the page is owned by one vector only, with every visible sequence unchanged |
| `PagedVectors.GrowsContents` | crates/opto-core/src/paged.rs:82-143 | Grown pages show the old sequence followed by defaults |
| `PagedFamily.PerformAll` | crates/opto-core/src/paged.rs:35-151 | Any interleaving of fork, set, resize and truncate acts on every member as on an independent sequence, and a member that is never written shows what it showed before |
| `PackedRows.CountOffsets` | crates/opto-core/src/rows.rs:257-268 | Offsets are the prefix sums of the row sizes |
| `PackedRows.Destinations` | crates/opto-core/src/rows.rs:269-275 | Every entry is sent to its row's block, at its rank among the entries of that row |
| `PackedRows.DestInjective` | crates/opto-core/src/rows.rs:269-275 | No two entries share a destination |
| `PackedRows.SwapFixes` | crates/opto-core/src/rows.rs:276-282 | Each swap strictly lowers the number of misplaced positions |
| `PackedRows.Settle` | crates/opto-core/src/rows.rs:276-282 | The in-place cycles end with every entry at its destination |
| `PackedRows.PackedRow` | crates/opto-core/src/rows.rs:283-291 | Entries in place make each row's slice its subsequence of the input |
| `PackedRows.TryFromEntries` | crates/opto-core/src/rows.rs:243-291 | Succeeds exactly for in-range rows within capacity, naming the first bad row otherwise; offsets ascend from zero to the number of entries, and every row is exactly its entries in input order |
| `Archive.DocumentSerializer.Push` | crates/opto-archive/src/lib.rs:176-186 | Appends one node and returns its index |
| `Archive.DocumentSerializer.Serialize` | crates/opto-archive/src/lib.rs:376-404 | Serialising appends exactly the post-order encoding of the tree and returns its root |
| `Archive.DecodeMeaning` | crates/opto-archive/src/lib.rs:773-809 | Where children come earlier, decoding gives the unfolded tree exactly when it stays within the depth limit |
| `ArchiveProof.EncodeRefs` | crates/opto-archive/src/lib.rs:376-404 | In a serialised tree every node but the root is referenced exactly once |
| `ArchiveProof.UnfoldEncoded` | crates/opto-archive/src/lib.rs:773-809 | A stretch of nodes that encodes a tree unfolds to that tree |
| `ArchiveProof.ValidateDocument` | crates/opto-archive/src/lib.rs:602-646 | Accepts exactly the documents of the right version that are one tree rooted at the last node, children first, within the depth limit |
| `ArchiveProof.DepthMeaning` | crates/opto-archive/src/lib.rs:735-749 | The recursive depth check bounds exactly the nesting depth of the unfolded tree |
| `ArchiveProof.EveryNodeOnce` | crates/opto-archive/src/lib.rs:602-646 | Reading an accepted document visits every node exactly once |
| `ArchiveProof.AcceptedIsOneTree` | crates/opto-archive/src/lib.rs:602-646 | An accepted document decodes without error to one finite tree with as many nodes as the document |
| `ArchiveProof.RoundTrip` | crates/opto-archive/src/lib.rs:102-152 | A tree archives exactly when its depth is at most 128, and then reads back as itself |
| `ArchiveProof.ToDocument` | crates/opto-archive/src/lib.rs:102-117 | Serialising and validating succeeds exactly within the depth limit |
| `NameStores.AppendSound` | crates/opto-core/src/names.rs:471-501 | Appending a new name within capacity extends the stored sequence by it and keeps arena, hashes and index consistent |
| `NameStores.TruncateSound` | crates/opto-core/src/names.rs:503-527 | Cutting arena and entries keeps exactly the prefix of names |
| `NameStores.Locate` | crates/opto-core/src/names.rs:456-461 | Under any hash function the indexed slots with a name's hash include its own, and every slot belongs to a stored entry |
| `NameStores.Store.Get` | crates/opto-core/src/names.rs:456-461 | Finds a name exactly when it is stored, whatever the hash function |
| `NameStores.Store.Resolve` | crates/opto-core/src/names.rs:463-469 | Identifiers in range, and no others, resolve to their stored name |
| `NameStores.Store.Insert` | crates/opto-core/src/names.rs:471-501 | Returns the position of a stored name, appends a new one, or reports which capacity limit is exceeded and changes nothing |
| `NameStores.Store.Truncate` | crates/opto-core/src/names.rs:503-527 | Keeps exactly a prefix of the names and its index |
| `NameStores.Store.Compact` | crates/opto-core/src/names.rs:415-429 | The rebuilt index equals the old one |
| `NameTables.Table.constructor` | crates/opto-core/src/names.rs:103-113 | A new table denotes just the empty name |
| `NameTables.Table.Get` | crates/opto-core/src/names.rs:153-159 | A name is found exactly at its only position over both levels |
| `NameTables.Table.Resolve` | crates/opto-core/src/names.rs:217-219 | An identifier resolves to its position in the denoted sequence |
| `NameTables.Table.Intern` | crates/opto-core/src/names.rs:170-175 | A present name keeps its identifier; a new one is appended with the next identifier or refused for capacity with nothing changed |
| `NameTables.Table.Rollback` | crates/opto-core/src/names.rs:192-213 | Accepted exactly for checkpoints of the current frozen revision within the delta, and then keeps exactly the prefix; otherwise nothing changes |
| `NameTables.Table.Merged` | crates/opto-core/src/names.rs:236-256 | Rebuilding one store from both levels succeeds exactly when all bytes fit one arena, and keeps every identifier |
| `NameTables.Table.Freeze` | crates/opto-core/src/names.rs:232-261 | Freezing never changes the denoted sequence, and fails exactly when a non-empty delta makes the bytes exceed the arena |
| `NameTables.Table.Compact` | crates/opto-core/src/names.rs:130-135 | Compacting changes no name and touches only the indexes, which end up equal to what they were |
| `NameTables.Table.Serialize` | crates/opto-core/src/names.rs:269-295 | The wire form is the denoted sequence |
| `NameTables.Clone` | crates/opto-core/src/names.rs:63-68 | A clone denotes the same sequence, shares the frozen store and owns its delta |
| `NameTables.RunBeside` | crates/opto-core/src/names.rs:573-586 | Any run of interns, rollbacks, freezes and compactions acts on its table as on a plain list of names with a frozen count, and leaves the names of a table that shares its frozen store unchanged |
| `NameTables.CloneIsolated` | crates/opto-core/src/names.rs:573-586 | A run on a clone or on its original acts as on a plain list of names, and the other keeps its names |
| `NameTables.Deserialize` | crates/opto-core/src/names.rs:312-349 | Accepts exactly non-empty duplicate-free lists starting with the empty name and within 32 bits, and gives every name its list position as identifier |
| `NameTables.RoundTrip` | crates/opto-core/src/names.rs:269-348 | Serialising and decoding keeps every identifier, and succeeds exactly when the stored bytes fit one arena |
| `NameTables.OutgrowsTheWire` | crates/opto-core/src/names.rs:312-349 | A table made by interning, freezing and interning holds more bytes than one arena, and its wire form is refused |
| `NameTables.Speculate` | crates/opto-core/src/names.rs:550-570 | Interning any names and rolling back restores the checkpointed table, even when some interns fail |
| `Glob.WildcardMatch` | crates/opto-db/src/lib.rs:454-478 | The loop terminates; a reported match satisfies the glob relation, and when the name or the pattern has no star the answer is the glob relation |
| `Glob.GreedyIsSound` | crates/opto-db/src/lib.rs:454-478 | From any loop state reached on a match, acceptance implies the declarative glob relation |
| `Glob.GreedyIsComplete` | crates/opto-db/src/lib.rs:454-478 | On names without a star one backtrack point loses no match |
| `Glob.StarFreeIsExact` | crates/opto-db/src/lib.rs:454-478 | For every pattern and every name without a star, the matcher equals the glob relation |
| `Glob.PlainPatternIsExact` | crates/opto-db/src/lib.rs:454-478 | For every pattern without a star and every name, the matcher equals the glob relation |
| `Glob.ExactlyStarFreeNames` | crates/opto-db/src/lib.rs:447-478 | The matcher agrees with the glob relation on all patterns exactly for the names without a star |
| `Glob.MatchesAreSound` | crates/opto-db/src/lib.rs:447-478 | A reported match is a match, for every name |
| `Hierarchy.FindStep` | crates/opto-db/src/hierarchy.rs:733-748 | The first step of a definition is where the first unresolved path of its full expansion starts |
| `Hierarchy.FindFirstUnresolved` | crates/opto-db/src/hierarchy.rs:727-771 | The linear pass returns exactly the first unresolved path of a source-order preorder walk of the expanded hierarchy, and none exactly when there is none |
| `Hierarchy.ExpandAnyOrder` | crates/opto-db/src/hierarchy.rs:727-771 | The expansion does not depend on the children-first order that is supplied |
| `HierarchyOrder.ComputePostorder` | crates/opto-db/src/hierarchy/occurrence.rs:387-460 | An order is returned exactly when nothing reachable from the root contains itself; it lists exactly the reachable definitions, once each, children first, and is the order of the recursive visit that takes links in source order; otherwise a closed walk reachable from the root with no other repetition is returned |
| `HierarchyOrder.VisitAnyOrder` | crates/opto-db/src/hierarchy/occurrence.rs:387-460 | The recursive visit does not depend on the children-first order that bounds its depth |
| `HierarchyOrder.OrderedIsAcyclic` | crates/opto-db/src/hierarchy/occurrence.rs:387-460 | A children-first order of the reachable definitions excludes every reachable cycle |
| `HierarchyOrder.Leave` | crates/opto-db/src/hierarchy/occurrence.rs:454-457 | Finishing a definition keeps the search invariant: gray is the current walk, black is children-first |
| `HierarchyCount.BelowIsExpansion` | crates/opto-db/src/hierarchy/occurrence.rs:462-504 | The recursive count of unresolved instances is the number of paths in the expansion |
| `HierarchyCount.PushChild` | crates/opto-db/src/hierarchy/occurrence.rs:474-488 | Pushing a parent's count to a child conserves the total of every query |
| `HierarchyCount.CountOccurrences` | crates/opto-db/src/hierarchy/occurrence.rs:462-504 | Pushing counts once per definition gives the exact sizes of the exponential expansion; an overflow error is raised only when that exact size exceeds 64 bits |
| `HierarchyCount.Summarize` | crates/opto-db/src/hierarchy.rs:552-556 | Order, count and search together: a summary is refused exactly for recursive hierarchies or for sizes past 64 bits, and otherwise gives the exact sizes and the first unresolved path, which exists exactly when the unresolved count is positive |
| `DisjointSets.DisjointSetRoot` | crates/opto-formats/src/reports.rs:620-632 | Both loops end, the true root is returned, and path compression keeps every root and the forest acyclic |
| `DisjointSets.UnionRoots` | crates/opto-formats/src/reports.rs:612-618 | After a union the forest stands for the equivalence generated by one more pair |
| `DisjointSets.Compress` | crates/opto-formats/src/reports.rs:625-630 | Pointing an element at its root changes no root |
| `DisjointSets.RootsDecide` | crates/opto-formats/src/reports.rs:612-632 | Two elements share a root exactly when a chain of joined pairs connects them |
| `DisjointSets.RootsCountClasses` | crates/opto-formats/src/reports.rs:597-601 | The number of distinct roots is the number of classes |
| `NetCount.BitIndexNumbers` | crates/opto-formats/src/reports.rs:604-610 | The offset lookup yields an index exactly for existing bits of existing signals |
| `NetCount.NumberedOnce` | crates/opto-formats/src/reports.rs:552-563 | No index numbers two bits |
| `NetCount.NumberedBit` | crates/opto-formats/src/reports.rs:552-563 | Every index below the total numbers a bit |
| `NetCount.ReportNetCount` | crates/opto-formats/src/reports.rs:552-602 | The count is the number of classes of the least equivalence that joins, for each signal-to-signal connect of equal widths, every selected target bit with the source bit at the same offset |
| `NetCount.StripLinesUp` | crates/opto-formats/src/reports.rs:576-593 | The slices a connect is walked by run, on existing targets, over exactly the bits that line up between the smaller and the larger range bound and the referenced slice |
| `NetCount.JoinsMeaning` | crates/opto-formats/src/reports.rs:576-593 | Joining at some offset of a connect is exactly joining two bits that line up |
| `NetCount.NetsPartition` | crates/opto-formats/src/reports.rs:597-601 | The counted nets are non-empty, pairwise disjoint and cover every bit, and two bits share one exactly when a chain of connects leads from one to the other |
| `CivilDate.YearRecovered` | crates/opto-formats/src/reports.rs:160-161 | The year-of-era formula recovers the year from every day of every year of an era |
| `CivilDate.EraRoundsDown` | crates/opto-formats/src/reports.rs:154-158 | The adjusted truncating division rounds down, for negative days too |
| `CivilDate.MonthRecovered` | crates/opto-formats/src/reports.rs:164-166 | The month formula recovers the month from every day of it |
| `CivilDate.DayRoundTrip` | crates/opto-formats/src/reports.rs:149-171 | Every integer day number gives a real Gregorian date whose standard day number is that integer |
| `CivilDate.DateRoundTrip` | crates/opto-formats/src/reports.rs:149-171 | Every real Gregorian date is recovered from its day number |
| `CivilDate.TomorrowCounts` | crates/opto-formats/src/reports.rs:149-171 | The day after a real date, by the calendar's rules, is a real date numbered one higher |
| `CivilDate.NextDay` | crates/opto-formats/src/reports.rs:149-171 | Consecutive day numbers give consecutive dates under the Gregorian leap-year rule, with 1970-01-01 at zero |

## Left out

- LogicAbsence.AbsentMux: the guard is sufficient and not necessary; past it the outcome depends on nodes that the call itself would create, and the exact condition is stated for the families of `LogicDetour.NestedSettles` and `LogicDetour.NestedLastSettles` only.
- LogicAbsence.AbsentOr: the same guard, for the multiplexer that a disjunction may hide.
- Hash functions, allocation failure, memory accounting and shrinking capacities: only their effect on contents is modelled (lookup by equality, explicit 32-bit limits).
- The varisat solver itself: only its SAT, UNSAT and failure contract is used.
- Ascending order of the assignment pairs inside a refutation: refutations are maps from origin to value.
- Bit-blasting of word operators (`word_miter/encoding.rs`, `word_miter/arithmetic.rs`): a word value is a list of Boolean expressions over signal bits.
- Fresh unit-clause variables for word constants: constants are the miter's constant literal in either phase, which has the same meaning.
- Transition enumeration from a plain next-state value, cut values, observation equivalence and the other word-level proofs: they reuse the same encoder and queries.
- `usize` overflow of pair counters, class offsets, signal offsets and class counts, and `u32` overflow of bit positions in the net count: integers are unbounded there.
- A connect target with a runtime-indexed range is treated as the source treats it, as a whole-signal target; the dynamic part has no effect on the count.
- Building, editing and publishing mapped netlists: the validator and the enumeration are modelled, on any netlist value.
- ID construction from indices in the mapped netlist, and the text of error messages everywhere: errors are kinds, not messages.
- Atomic reference counts of shared pages and shared frozen stores: a page is exclusive when exactly one vector of the family lists it once.
- Page allocation failure in the paged vector, and its memory report.
- The incremental row builder, `try_from_rows` and the row arena: they pack rows that are already in order.
- The rkyv byte layer, the validator over archived bytes, and the order protocol of map keys and values: node kinds are a tag plus a list of children.
- Typed deserialisation through serde visitors: decoding yields the value tree.
- UTF-8 validity of stored names: names are byte strings.
- The lazy design-row cache and `exact_name_rows`: sorting and deduplication only.
- Provider-order binding in the definition graph: bindings are given; only order, counting and first-unresolved search are modelled.
- Names in reported cycles and overflow errors: definitions are reported by identifier.
- Which of several cycles is reported for a recursive hierarchy: only that it is a cycle below the root is stated.
- Size reports (encoded values, clauses) of the word-level proofs.
- Weekday and clock formatting of report timestamps, and 64-bit overflow of day numbers near the limits of `i64`.
- Report text, power and timing values, Verilog text emission (apart from the reset priority order), HDL lowering, Python tooling and Tcl macros.
