# Verified models of Mago's core algorithms

This project models the parts of Mago whose correctness rests on an argument rather than on a few
examples, and proves that argument in Dafny 4.11.

- **Prelude loader** (`PreludeFrames`, `PreludeProtocol`, `PreludeGuarantees`): the build script cuts the
  encoded prelude into at most four frames and compresses each; at start-up any number of threads
  claim frames, decompress them into one shared buffer and publish them, while a finisher claims what
  is left, waits for the rest and reads everything. The model is a step relation over any number of
  threads and any frame table; every atomic access is one step, and writing is one step per byte.
- **Fix until stable** (`FixLoop`): repeated passes that change files, with a test for repetition on
  an overlay of the touched files only.
- **Assertion algebra** (`Assertions`, `ActualValues`, `AssertionSets`, `OrderedMaps`, `Clauses`): the table
  of negations, checked against what assertions say of actual values, formulas in conjunctive normal
  form built in place and negated by De Morgan and distribution, and clauses over several variables
  kept in insertion order.
- **Saturation** (`Saturation`, `SaturationInference`, `SaturationMeaning`, `SaturationLoops`,
  `SaturateClauses`, `SaturationConsensus`, `SaturationUnits`, `SaturationLimits`): unit propagation,
  resolution, common consequences, absorption and consensus over such clauses. The stages are specified without any index; the loops,
  with their literal index, clause chains, bit masks and shortcuts, are proved to compute the same.
  When each rule fires is stated on the clauses alone (`SaturationRules`, `SaturationStages`).
- **Configuration layers** (`ConfigMerge`, `ConfigLayers`): deep merging of JSON-like values, and the
  recursive resolution of `extends` with a set of visited files.
- **Download once** (`DownloadOnce`): double-checked locking between processes that may die at any step.
- **Baselines** (`ReportedIssues`, `StrictBaselines`, `LooseBaselines`): generating a baseline from
  issues, filtering issues by it, comparing it with issues and pruning it. **Baseline report**
  (`BaselineReport`, `BaselineGroups`, `BaselineFlatten`): counting and ranking its entries.
- **Path de-duplication** (`PathDedup`), **version pins and release search** (`Decimal`, `VersionPin`,
  `ReleaseSearch`), **heading ids** (`Slugs`, `HeadingIds`). `Names`, `SortedMaps` and `Sorting` hold
  the order on text, maps in key order and sorting.

What comes from outside is a parameter: the compressor and decompressor (which are inverse to each
other), what a tool reports in a pass, the file system and the parser behind a configuration file,
hash functions, the pages of a release listing, and where an offset lies in a source file. Where the
source relies on hashes being distinct, the theorems say so in a `requires`.

`dafny verify dfyconfig.toml` checks everything.

## Where the code does less than it says

Each of these is a lemma, with an input or for a whole class of inputs, and the condition under which the
code does meet the property is another. The condition is exact unless the text says otherwise.

- Saturating clauses is documented to give an equivalent set (`crates/algebra/src/lib.rs:88-89`). It is
  always a consequence of the input when unit assertions have opposites
  (`SaturationConsensus.SaturateSound`), but it can say less, for two reasons. The consensus stage
  drops every consensus, also one over several variables, which does not follow even from clauses
  that are kept (`SaturationLimits.TwoVariablesLose`); a consensus follows from its two clauses exactly
  when it is over one variable or holds anyway (`SaturationConsensus.ConsensusFollowsIff`). And two
  clauses that are each the consensus of the other and a third are both dropped
  (`SaturationLimits.ConsensusLoses`). `SaturationConsensus.SaturateLosslessIff` gives the exact
  condition for every threshold, inferred units included. As it says which clauses follow from others,
  `SaturationConsensus.SaturateLossless` adds one that can be read off the clauses, which is sufficient
  only.
- Two opposed unit clauses alone leave nothing (`SaturationLimits.OpposedUnitsVanish`). Of units and wedges
  exactly those remain that no other unit opposes, so that they keep their meaning exactly when none is
  opposed (`SaturationUnits.UnitsLosslessIff`). With an opposed pair among larger clauses the result is
  equivalent exactly when it can never hold (`SaturationConsensus.SaturateLosslessIff`), which is not
  read off the input.
- A unit assertion that negates to itself makes the result say too much
  (`SaturationLimits.UncomplementedInvents`). That all unit assertions have opposites is sufficient for
  the whole function; for a single step the condition is exact: the assertion has an opposite, or
  is itself among what is left, or that holds anyway (`SaturationLimits.StrikeFollowsIff`).
- Assertions such as `Any` count as negatable although they negate to themselves: a clause negates
  soundly exactly when its literals have opposites or it is a tautology (`AssertionSets.ClauseNegation`,
  `Clauses.ImpossibilitiesAreNegation`); `AssertionSets.NegationSoundIff` says it of a whole formula. OR
  on an empty formula, which is true, gives the other operand (`AssertionSets.OrOnEmpty`), and negating
  it twice gives false (`AssertionSets.NegationTwice`).
- A file that two layers extend is reported as a circular extension although there is no cycle
  (`ConfigLayers.DiamondIsCircular`): the error means just that the files are not a tree
  (`ConfigLayers.CircularIffNotTree`). Merging is not associative (`ConfigMerge.FlipBreaksAssociativity`),
  exactly when some value changes kind twice (`ConfigMerge.AssociativeIff`).
- The first look of the downloader takes no lock and may return a path while the binary is still being
  written (`DownloadOnce.FirstLookMaySeePartial`): it is complete exactly when no extraction is under
  way or was cut short (`DownloadOnce.FirstLookReturnsCompleteIff`). A binary that was left half
  written is never downloaded again (`DownloadOnce.InterruptedForGood`).
- A strict baseline that holds exactly the current issues in another order is reported as outdated with
  nothing listed (`StrictBaselines.SwappedIsOutdated`, `StrictBaselines.OutdatedUnlistedIff`). Pruning a loose
  baseline that stores a key twice can change what is reported (`LooseBaselines.PruneHidesIssue`,
  `LooseBaselines.PruneKeepsReportsIff`).
- A path with two slashes at its end can be kept beside a path under it (`PathDedup.TwoSlashesFail`;
  `PathDedup.AntichainIff` says for which inputs that cannot happen).
- A pin of a major alone never stops the release search early, since its text has no minor
  (`ReleaseSearch.MajorPinReadsOn`), and the early stop can miss a match in a listing that is not in
  version order (`ReleaseSearch.StoppingEarlyCanMiss`); it is harmless exactly when no unread match is
  newer than the release found (`ReleaseSearch.StoppingEarlyIff`).
- Heading ids can repeat (`HeadingIds.IdsRepeat`, `HeadingIds.DistinctIff`).

## Model

| member | source | states |
|---|---|---|
| PreludeFrames.BuildFrames | build.rs:36-54 | between one and four non-empty frames are emitted, and table and stream describe the whole encoding: each frame's slice of the stream decompresses to its slice of the encoding |
| PreludeFrames.FramesPartition | src/prelude.rs:82-98 | the prefix sums of the sizes partition the buffer: every byte lies in exactly one frame |
| PreludeFrames.ChunkCount | build.rs:36-42 | cutting into pieces of the rounded-up quarter never gives a fifth piece, and gives one at least |
| PreludeProtocol.InvClaim | src/prelude.rs:77-80 | claiming keeps the invariant: one owner for each claimed frame, none for the others |
| PreludeProtocol.InvWriteByte | src/prelude.rs:82-98 | writing one byte of an owned frame keeps every other frame's bytes and the part already filled |
| PreludeProtocol.InvPublish | src/prelude.rs:95-100 | publishing a frame keeps the invariant: a published frame holds the bytes of the encoding |
| PreludeProtocol.InvAlways | src/prelude.rs:77-117 | the invariant holds after any number of steps of any number of threads in any order |
| PreludeGuarantees.ReachableIsSafe | src/prelude.rs:77-117 | in every reachable state no two threads write the same frame, nothing panics, a waiting finisher sees no unclaimed frame, a reading one only published frames |
| PreludeGuarantees.StepOnSharedMemory | src/prelude.rs:77-100 | frame states move only from pending to claimed to done, one at a time; a byte is changed only by the owner of its frame and never once published |
| PreludeGuarantees.ReadAfterDone | src/prelude.rs:103-117 | when a finisher reads a byte, its frame is published, then and ever after, and the byte is and stays that of the encoding |
| PreludeGuarantees.FinishReturnsEncoding | src/prelude.rs:103-117 | whatever the interleaving, the slice that `finish` returns is the original encoding |
| PreludeGuarantees.BuildThenLoad | build.rs:36-54 | build and load together: for every non-empty encoding and every schedule, every finisher that returns has the encoding |
| PreludeGuarantees.WaitingHasOwner | src/prelude.rs:108-113 | no deadlock: a frame that is waited for is owned by another thread, which can step |
| PreludeGuarantees.OwnStepDecreases | src/prelude.rs:77-117 | every own step of a thread that does not wait lowers its rank |
| PreludeGuarantees.FinishTerminates | src/prelude.rs:103-117 | when every thread there is keeps getting its turn, every thread ends, and a finisher ends by returning the encoding |
| FixLoop.WithChanges | src/commands/outcome.rs:19-33 | the outcome holds the hash of the current content of exactly the changed files, or fails if one is unknown |
| FixLoop.RunPass | src/commands/fix.rs:103-131 | one pass: the changes of all enabled tools, later ones over earlier ones; it fails exactly when a tool does |
| FixLoop.PassIsFaithful | src/commands/fix.rs:103-131 | when every tool reports its changes faithfully, the pass does: every file not reported is as it was |
| FixLoop.RunUntilStable | src/commands/fix.rs:134-169 | the loop ends for the first reason that applies: a quiet pass with its own exit code, a repeated overlay, a failed pass or too many passes |
| FixLoop.OverlayTracks | src/commands/fix.rs:138-155 | the overlay holds the hashes of all files touched so far as they are now; all others are as at the start |
| FixLoop.RepeatedOverlayRepeatsFiles | src/commands/fix.rs:138-155 | soundness of comparing overlays: equal overlays mean equal full file states |
| FixLoop.RepeatNeverSettles | src/commands/fix.rs:148-155 | when repetition is reported, the file states really are in a cycle and no later pass could ever be quiet |
| FixLoop.SettledIsStable | src/commands/fix.rs:141-146 | when the loop settles, every further pass would change nothing and end with the same code |
| FixLoop.CycleIsReported | src/commands/fix.rs:138-155 | completeness: files that come round again after m passes with period p end the loop by pass m + 2p, and by a reported repetition whenever they really change in between, although the initial state is never recorded |
| FixLoop.EnoughPassesDecide | src/commands/fix.rs:134-169 | with finitely many file states and enough passes the loop never ends for lack of passes |
| Assertions.NegationTables | crates/codex/src/assertion.rs:325-520 | the two hand-written tables agree: b is the opposite of a exactly when negating a gives b and not `Any` |
| Assertions.NegationIsComplement | crates/codex/src/assertion.rs:461-520 | `get_negation` is Boolean negation under all coherent truth values exactly for assertions with an opposite |
| ActualValues.TruthIsCoherent | crates/codex/src/assertion.rs:325-455 | opposite assertions are opposite of every actual value: of its number, length, count, kind and keys |
| ActualValues.NegationIsFalse | crates/codex/src/assertion.rs:461-520 | except for one-way assertions the negation holds of exactly the actual values of which the assertion does not |
| ActualValues.NegationIsRightIff | crates/codex/src/assertion.rs:461-520 | that is so exactly for assertions that are not one-way; those, named one by one, are the ones without an opposite |
| ActualValues.BoundFollows | crates/analyzer/src/assertion.rs:1693-1737 | a fact from a bound follows from the comparison with a variable in its range |
| ActualValues.BoundIsOneWay | crates/codex/src/assertion.rs:521-534 | where the comparison fails the fact may hold or fail, so negating it would be wrong |
| AssertionSets.Builder.AddOrAssertion | crates/algebra/src/assertion_set.rs:37-50 | the new state in place, and what it means: the disjunction exactly when there was a clause or the assertion is true |
| AssertionSets.Builder.AddAndAssertion | crates/algebra/src/assertion_set.rs:56-60 | the new state in place means, for all truth values, the old formula and the assertion |
| AssertionSets.Builder.AddAndDisjunction | crates/algebra/src/assertion_set.rs:67-76 | the new state in place means, for all truth values, the old formula and the clause, an empty clause included |
| AssertionSets.AppendAllMeaning | crates/algebra/src/assertion_set.rs:37-50 | adding an assertion to every clause is disjunction with it |
| AssertionSets.OrOnEmpty | crates/algebra/src/assertion_set.rs:37-50 | the OR operation is disjunction exactly when the formula has a clause or the assertion is true |
| AssertionSets.AndClauseMeaning | crates/algebra/src/assertion_set.rs:67-76 | adding a clause is conjunction with it, whether or not it replaces an empty formula |
| AssertionSets.HashEqualIffReordered | crates/algebra/src/assertion_set.rs:153-158 | when the two hashers have no collisions, on literals and on rising lists of their hashes, two clauses hash alike exactly when one is a reordering of the other |
| AssertionSets.AndAssertionSets | crates/algebra/src/assertion_set.rs:130-148 | the loop with its set of hashes keeps the first formula and of the second only clauses not seen |
| AssertionSets.FreshDropsReordered | crates/algebra/src/assertion_set.rs:136-146 | de-duplication invents nothing, keeps a reordering of everything and leaves the first formula in place |
| AssertionSets.FreshAddsNew | crates/algebra/src/assertion_set.rs:136-146 | what it adds is no reordering of anything before it |
| AssertionSets.AndIs | crates/algebra/src/assertion_set.rs:130-148 | just false if either formula is; else the first formula as it is and then clauses of the second, a reordering of each and none that is a reordering of an earlier one |
| AssertionSets.AndMeaning | crates/algebra/src/assertion_set.rs:130-148 | the AND of two formulas is their conjunction, special cases and de-duplication included |
| AssertionSets.BuildMeaning | crates/algebra/src/assertion_set.rs:37-148 | a formula built by any sequence of the operations means the corresponding Boolean expression |
| AssertionSets.NegateAssertionSet | crates/algebra/src/assertion_set.rs:85-123 | the nested loops build the distribution of the negated clauses |
| ActualValues.BoundsAreDropped | crates/algebra/src/assertion_set.rs:85-95 | clauses with a fact from a bound, wherever they stand, leave the negation as it is without them |
| ActualValues.NegationOfComparison | crates/algebra/src/assertion_set.rs:85-123 | a comparison together with facts from bounds negates to the opposite comparison alone |
| ActualValues.NegationOfCondition | crates/algebra/src/assertion_set.rs:85-123 | of every actual value the negation of a condition holds exactly when the condition does not, facts from bounds included that follow from it |
| AssertionSets.NegateMeaning | crates/algebra/src/assertion_set.rs:85-123 | what a negation says, for every formula: some clause that was not dropped has all its literals negated |
| AssertionSets.NegationIsSound | crates/algebra/src/assertion_set.rs:85-123 | the negation implies the Boolean negation, for every formula each of whose clauses that are not dropped has opposites for all literals or is a tautology |
| AssertionSets.NegationSoundIff | crates/algebra/src/assertion_set.rs:85-123 | for every formula, the negation is sound exactly when the negated literals of each clause that is not dropped, with any choice of one literal from every clause, contain two opposites |
| AssertionSets.NegationIsExact | crates/algebra/src/assertion_set.rs:85-123 | it is equivalent to it exactly when the dropped clauses make no difference |
| AssertionSets.NegationOfKeptIsExact | crates/algebra/src/assertion_set.rs:85-123 | it is equivalent to it when every clause is non-empty and negatable |
| AssertionSets.NegationTwice | crates/algebra/src/assertion_set.rs:85-123 | negating twice gives the meaning back, for a formula of which nothing is dropped, exactly when it is not empty |
| AssertionSets.ClauseNegation | crates/algebra/src/assertion_set.rs:85-123 | a single clause that is not dropped negates soundly, and then exactly, if and only if all its literals have opposites or two of them are opposite |
| AssertionSets.LiteralNegation | crates/codex/src/assertion.rs:526-534 | a negatable literal negates soundly exactly when it has an opposite |
| Assertions.NegationsRefuteIff | crates/codex/src/assertion.rs:461-520 | the negations of several assertions together are the negation of their disjunction exactly when each has an opposite or two are opposite |
| Assertions.CanHoldIff | crates/codex/src/assertion.rs:325-520 | several assertions can hold at once exactly when no two of them are opposite |
| AssertionSets.NegationShape | crates/algebra/src/assertion_set.rs:99-120 | the clauses are exactly the choices of one literal from each conjunction, and their number is the product of the lengths |
| AssertionSets.NegationOfKeptShape | crates/algebra/src/assertion_set.rs:85-123 | in terms of the input: when nothing is dropped, the clauses are the choices of one negated literal from each clause, as many as the product of the clauses' lengths |
| Clauses.ContainsIsInclusion | crates/algebra/src/clause.rs:125-143 | `contains` with its length check and positional shortcuts is plain inclusion of keys |
| Clauses.ContainsReflexive | crates/algebra/src/clause.rs:125-143 | every clause contains itself |
| Clauses.ContainsTransitive | crates/algebra/src/clause.rs:125-143 | containment is transitive |
| Clauses.ContainsIsImplication | crates/algebra/src/clause.rs:125-143 | a contained clause implies the one that contains it |
| Clauses.ImpossibilitiesAreNegation | crates/algebra/src/clause.rs:147-156 | the impossibilities, all together, say that the clause is false exactly when every assertion has an opposite or the clause is a tautology |
| Clauses.AddPossibility | crates/algebra/src/clause.rs:95-121 | the loop replaces a variable's assertions in its place, or appends them at the end |
| Clauses.AddThenRemove | crates/algebra/src/clause.rs:71-121 | whatever was added for a variable, removing the variable gives the same ordered result, hash included |
| Clauses.RemoveFalseVariable | crates/algebra/src/clause.rs:71-91 | removing a variable of which nothing holds keeps a true clause true, and so never removes all of it |
| SaturationMeaning.WithoutLiteralMeaning | crates/algebra/src/lib.rs:370-384 | a clause means what is left of it without one literal, or that literal |
| SaturationMeaning.StrikeSound | crates/algebra/src/lib.rs:330-385 | unit propagation: from (A) and (not A or B) follows what is left, and something is left |
| SaturationMeaning.ResolveSound | crates/algebra/src/lib.rs:386-449 | resolution: two clauses that differ in one opposite literal give the rest |
| SaturationMeaning.SimplifyKeeps | crates/algebra/src/lib.rs:322-450 | what every single propagation and resolution step keeps, the whole loop keeps |
| SaturationRules.ResolvesIff | crates/algebra/src/lib.rs:386-449 | two clauses resolve exactly when the later one takes part and they have the same several variables with the same literals, but for one variable with single opposite ones |
| SaturationRules.RemovedIff | crates/algebra/src/lib.rs:322-450 | the main loop removes a clause exactly when a clause of one literal has its opposite, or it differs in one literal from a later clause that was not hit before |
| SaturationRules.AddedIff | crates/algebra/src/lib.rs:322-450 | and adds exactly what is left of clauses when they are first hit, and what such pairs have in common |
| SaturationRules.TakenOutSays | crates/algebra/src/lib.rs:370-384 | what is left of a clause says all it said but the one literal |
| SaturationMeaning.SaturationSound | crates/algebra/src/lib.rs:263-622 | every clause of the result is satisfied whenever all clauses are, wedges always being so, whatever the thresholds |
| SaturationMeaning.WedgesSayNothing | crates/algebra/src/lib.rs:263-622 | wedges, which stand for clauses of which nothing is known, make no difference to whether all clauses are satisfied |
| SaturationMeaning.AbsorbHolds | crates/algebra/src/lib.rs:474-535 | absorbed clauses follow from those that are kept, through any chain of absorptions |
| SaturationStages.AbsorbIff | crates/algebra/src/lib.rs:474-532 | absorption keeps all clauses if those that take part are about one variable each, else exactly those in which no clause with fewer variables that takes part is included |
| SaturationMeaning.EarlierStagesLossless | crates/algebra/src/lib.rs:263-532 | up to absorption, inferred units included and wedges satisfied, nothing is lost: what is left is equivalent when no two units are opposed and hashes can be trusted |
| SaturationInference.BinaryImplies | crates/algebra/src/lib.rs:167-207 | a clause of two literals makes the opposite of each imply the other |
| SaturationInference.CommonConsequencesFollow | crates/algebra/src/lib.rs:163-257 | every inferred unit follows from the clauses |
| SaturationStages.InferredIff | crates/algebra/src/lib.rs:163-257 | a literal is inferred exactly when there are more than two clauses, fewer than the limit and one of them about several variables, it is no clause itself, and every literal of some clause implies it through a clause of two literals |
| SaturationStages.InferredConcludes | crates/algebra/src/lib.rs:211-257 | every inferred clause is a single literal that some clause concludes, with the spans of that clause, and it can be reconciled and is no wedge |
| SaturationInference.InferCommonConsequences | crates/algebra/src/lib.rs:163-257 | the loops over implications and candidates compute that inference |
| SaturationLoops.Propagate | crates/algebra/src/lib.rs:330-385 | the literal index only skips scans that would do nothing |
| SaturationLoops.Link | crates/algebra/src/lib.rs:288-300 | each chain leads to the next clause with the same signature, leaving none out |
| SaturationLoops.ResolveChain | crates/algebra/src/lib.rs:386-449 | following the chain resolves exactly as comparing with every later clause would |
| SaturationLoops.MainLoop | crates/algebra/src/lib.rs:280-450 | with both indexes the loop computes the plain simplification |
| SaturateClauses.IsRedundant | crates/algebra/src/lib.rs:495-528 | the bit masks never hide a clause that is contained |
| SaturateClauses.AbsorbRedundant | crates/algebra/src/lib.rs:474-535 | absorption with masks and its shortcut keeps exactly the clauses that no smaller usable clause is part of |
| SaturateClauses.ConsensusHashes | crates/algebra/src/lib.rs:544-616 | the nested loops with masks find the consensus of every pair |
| SaturationStages.CommonIff | crates/algebra/src/lib.rs:563-587 | the common variables are exactly those in which both clauses have a single assertion, opposite to the other's |
| SaturationStages.ConflictSays | crates/algebra/src/lib.rs:589-613 | the consensus has exactly the literals of the two clauses in the other variables |
| SaturateClauses.SaturateAll | crates/algebra/src/lib.rs:259-628 | the whole function with its indexes computes the specification |
| SaturationStages.MergeIs | crates/algebra/src/lib.rs:464-472 | adding clauses keeps those there in place, has each hash once and loses none |
| SaturationStages.MergeKeepsFirst | crates/algebra/src/lib.rs:624-627 | of clauses with one hash the first is kept |
| SaturationStages.CombinedIs | crates/algebra/src/lib.rs:456-472 | before absorption there are the clauses that were not removed, and by hash all that was added or inferred, and nothing else |
| SaturationStages.AbsorbedIff | crates/algebra/src/lib.rs:263-532 | what is left of the given clauses after absorption |
| SaturationStages.SaturateIff | crates/algebra/src/lib.rs:263-628 | a clause is in the result exactly when it is left after absorption and has not the hash of a consensus, if that stage runs; nothing of too many clauses, and all of clauses that are alone |
| SaturationStages.TwoResolve | crates/algebra/src/lib.rs:1140-1157 | two clauses that differ in one opposite literal leave just what they have in common |
| SaturationConsensus.OneVariableFollows | crates/algebra/src/lib.rs:563-613 | a consensus over exactly one variable follows from its two clauses |
| SaturationConsensus.ConsensusFailsIff | crates/algebra/src/lib.rs:563-613 | when both clauses hold, their consensus fails exactly when each holds by its literals in the common variables alone, which are then two different ones |
| SaturationConsensus.ConsensusFollowsIff | crates/algebra/src/lib.rs:563-613 | a consensus follows from its two clauses exactly when it is over one variable or always holds |
| SaturationConsensus.StageIff | crates/algebra/src/lib.rs:544-619 | the consensus stage keeps the meaning exactly when every clause it drops, wedges aside, follows from those it keeps |
| SaturationConsensus.WedgeChangesNothing | crates/algebra/src/lib.rs:544-619 | adding a wedge changes neither which other clauses the stage keeps nor whether it keeps the meaning |
| SaturationConsensus.JustifiedKeeps | crates/algebra/src/lib.rs:544-619 | which is so when every dropped clause is a wedge, or a one-variable consensus of clauses that are no wedges and are kept or ranked lower |
| SaturationConsensus.AbsorbedLossless | crates/algebra/src/lib.rs:263-532 | the stages before it lose nothing of the given clauses, repetitions and inferred units included |
| SaturationConsensus.WedgesStay | crates/algebra/src/lib.rs:263-532 | the stages before consensus never remove a wedge |
| SaturationConsensus.SaturateSound | crates/algebra/src/lib.rs:85-130 | whatever the thresholds, all clauses of the result hold when all given clauses do |
| SaturationConsensus.SaturateLosslessIff | crates/algebra/src/lib.rs:85-130 | for every threshold, the result is equivalent to the input exactly when: with too many clauses they always hold; with opposed units the result never holds; otherwise the consensus stage, if reached, drops only what follows from the rest |
| SaturationConsensus.SaturateLossless | crates/algebra/src/lib.rs:85-130 | for every threshold, it is equivalent when no units are opposed and what is dropped is a one-variable consensus of clauses kept or ranked lower |
| SaturationUnits.UnitsSaturate | crates/algebra/src/lib.rs:330-385 | of units and wedges the result is, in order, exactly those that no other unit opposes |
| SaturationUnits.ResultCanHold | crates/algebra/src/lib.rs:330-385 | whatever the units were, what is left holds under some sensible truth values |
| SaturationUnits.UnitsLosslessIff | crates/algebra/src/lib.rs:85-130 | read off the input: units and wedges keep their meaning exactly when none is opposed, or, if there are too many, when all are wedges |
| SaturationLimits.OpposedUnitsVanish | crates/algebra/src/lib.rs:330-385 | two opposed units leave no clause at all, although together they cannot hold |
| SaturationLimits.StrikeFollowsIff | crates/algebra/src/lib.rs:330-385 | striking out a literal gives a consequence exactly when the unit's assertion has an opposite, or is itself among what is left, or the rest always holds |
| SaturationLimits.UncomplementedInvents | crates/algebra/src/lib.rs:330-385 | a unit that negates to itself adds a clause that does not follow, for every hash that some truth values respect |
| SaturationLimits.TwoVariablesLose | crates/algebra/src/lib.rs:538-619 | three clauses, with any wedges among them, of which the third, a consensus over two variables, is dropped although it does not follow from the others, which are kept |
| SaturationLimits.ConsensusLoses | crates/algebra/src/lib.rs:538-619 | four clauses of which two, each the consensus of the other and a third, are both dropped, so that the result is not equivalent |
| ConfigMerge.MergeValueInto | src/config/mod.rs:1613-1640 | merging in place along a path stack computes the recursive merge and restores the stack |
| ConfigMerge.MergeIs | src/config/mod.rs:1595-1640 | what is at every place after merging: arrays one after the other with the earlier layer's first, an argv and anything else from the later layer, the rest of the earlier one as it was |
| ConfigMerge.LeftIdentity | src/config/mod.rs:1599-1605 | the empty object is a left identity |
| ConfigMerge.AbsorbedMeaning | src/config/mod.rs:1613-1640 | exactly when merging into a value gives the source alone |
| ConfigMerge.AssociativeIff | src/config/mod.rs:1608-1640 | merging three values is associative exactly when no shared place changes kind and back |
| ConfigMerge.AgreeingAssociative | src/config/mod.rs:1608-1640 | values whose kinds agree merge associatively |
| ConfigMerge.FlipBreaksAssociativity | src/config/mod.rs:1608-1640 | three values whose kinds differ and for which it fails |
| ConfigMerge.FoldedBlock | src/config/mod.rs:1599-1640 | merging in a block of layers that was folded on its own is folding the block in |
| ConfigLayers.ExtractExtends | src/config/mod.rs:1529-1593 | the entries are the string or the strings of the array, every other key stays as it was, and it fails exactly when the directive is something else |
| ConfigLayers.DirectoryLeadsTo | src/config/mod.rs:1575-1588 | a directory leads to its toml, yaml, yml or json file, the first of these that is there, or to none |
| ConfigLayers.LoadKeepsOwn | src/config/mod.rs:1512-1525 | whatever a file says at any place but the directive, the loaded value says there; arrays may follow those of its parents |
| ConfigLayers.LastParentDecides | src/config/mod.rs:1512-1525 | where the file says nothing, the last of its parents decides |
| ConfigLayers.DirectiveGone | src/config/mod.rs:1529-1536 | no loaded value has the directive |
| ConfigLayers.LoadLayer | src/config/mod.rs:1486-1525 | the recursive loader with its mutable set computes the specified load, and ends for every finite disk |
| ConfigLayers.OpensOnce | src/config/mod.rs:1486-1525 | no canonical file is opened twice, on success and on failure |
| ConfigLayers.LoadSucceedsIffTree | src/config/mod.rs:1486-1525 | loading succeeds exactly when what is reached is a tree without repeated files, with the nested merge as its value |
| ConfigLayers.NestedIsFlat | src/config/mod.rs:1486-1525 | the nested merge of a tree is the left fold over its layers in depth-first post-order |
| ConfigLayers.LoadIsFlat | src/config/mod.rs:1486-1525 | so the loaded value is that flat fold |
| ConfigLayers.OnlyRepetitionFails | src/config/mod.rs:1486-1525 | when every file is healthy, the circular error is the only possible one |
| ConfigLayers.CycleNeverLoads | src/config/mod.rs:1486-1500 | a load over a cycle never succeeds, whatever else is wrong with the files |
| ConfigLayers.CycleIsReported | src/config/mod.rs:1486-1500 | every cycle reached through healthy files is reported as circular |
| ConfigLayers.CircularIffNotTree | src/config/mod.rs:1486-1500 | the circular error is given exactly when the files reached are not a tree |
| ConfigLayers.DiamondIsCircular | src/config/mod.rs:1486-1500 | four files without any cycle, of which the last is reached twice, reported as circular |
| DownloadOnce.InvAlways | composer/src/internal.php:85-100 | exactly the lock's owner is between acquiring and releasing it, at every step of every run |
| DownloadOnce.ReachableIsSafe | composer/src/internal.php:85-100 | at most one process is inside, finished and dead processes hold no lock, every returned path exists, one download at most completes |
| DownloadOnce.ReturnedFromLockIsComplete | composer/src/internal.php:610-650 | a path returned from under the lock is the complete binary unless an extraction was cut short |
| DownloadOnce.OutcomeIff | composer/src/internal.php:606-650 | how a process that ends alive has ended, by the answers it got: which look found the binary, its own download when that and the extraction succeeded and left a binary, and a throw exactly when something failed or none was left |
| DownloadOnce.FineReturns | composer/src/internal.php:606-650 | a process that gets good answers and is not killed can only end by returning a path |
| DownloadOnce.NoDownloadAfterSuccess | composer/src/internal.php:624-638 | no download starts after one has completed |
| DownloadOnce.InterruptedForGood | composer/src/internal.php:624-638 | a half-written binary is never downloaded again |
| DownloadOnce.NoDeadlock | composer/src/internal.php:85-100 | while any process is unfinished, some process can take a step towards its end |
| DownloadOnce.FirstLookMaySeePartial | composer/src/internal.php:606-608 | one run in which a path is returned while another process is extracting |
| DownloadOnce.PresentIsCompleteIff | composer/src/internal.php:606-638 | at any moment of any run a binary that is there is complete exactly when no extraction is under way or was cut short |
| DownloadOnce.FirstLookReturnsCompleteIff | composer/src/internal.php:606-608 | a first look returns a path exactly when there is a binary, and that is complete exactly when no extraction is under way or was cut short |
| DownloadOnce.ReturnedIsCompleteIff | composer/src/internal.php:606-650 | the same of every returned path at any later moment |
| ReportedIssues.LocateIs | crates/reporting/src/baseline.rs:33-60 | an issue is where its first primary annotation is, or its first one if none is primary, from the line of its start to that of its end, in the file under its name; nowhere if the file is unknown |
| StrictBaselines.KeyIs | crates/reporting/src/baseline.rs:178-200 | an issue is held under its file, its code or "unknown", and the lines from the start to the end of that annotation |
| StrictBaselines.CanonicalUnique | crates/reporting/src/baseline.rs:173-208 | a baseline as it is written is determined by the issues it holds |
| StrictBaselines.WrittenOrder | crates/reporting/src/baseline.rs:64-91 | a written baseline lists files by name, and in each the issues by code, then start line, then end line |
| StrictBaselines.Generate | crates/reporting/src/baseline.rs:173-208 | it holds exactly the issues with a place, each once, sorted, with no empty file |
| StrictBaselines.Filter | crates/reporting/src/baseline.rs:215-250 | the look-ups by file and issue keep, in order, exactly the issues not held |
| StrictBaselines.UnheldOfBoth | crates/reporting/src/baseline.rs:215-250 | filtering in portions gives the same, in the order reported |
| StrictBaselines.GeneratedCoversAll | crates/reporting/src/baseline.rs:173-250 | filtering by a baseline generated from the same issues leaves only issues without a place |
| StrictBaselines.Compare | crates/reporting/src/baseline.rs:257-338 | the new and the removed issues are the two differences; it is up to date exactly when both are empty and the baseline is in written form; which files count as changed |
| StrictBaselines.OutdatedUnlistedIff | crates/reporting/src/baseline.rs:257-338 | a baseline is outdated with nothing listed exactly when it holds the current issues and no others but is not in written form |
| StrictBaselines.SwappedIsOutdated | crates/reporting/src/baseline.rs:257-338 | two issues stored the other way round: outdated, nothing listed, no file changed |
| StrictBaselines.Prune | crates/reporting/src/baseline.rs:346-374 | what is held and occurs, still in written form; the count is what was dropped |
| StrictBaselines.PruneKeepsReports | crates/reporting/src/baseline.rs:346-374 | pruning changes nothing about what filtering the same issues reports |
| StrictBaselines.GenerateThenCompare | crates/reporting/src/baseline.rs:173-338 | generating and comparing at once finds nothing |
| StrictBaselines.PruneThenCompare | crates/reporting/src/baseline.rs:215-374 | after pruning nothing is listed as removed, and as new exactly what filtering reports |
| LooseBaselines.KeyIs | crates/reporting/src/baseline.rs:388-412 | an issue is counted under its file, its code or "unknown", and its message |
| LooseBaselines.CanonicalUnique | crates/reporting/src/baseline.rs:388-417 | a baseline as it is written is determined by its counts |
| LooseBaselines.WrittenOrder | crates/reporting/src/baseline.rs:97-117 | a written baseline lists issues by file, then code, then message |
| LooseBaselines.Generate | crates/reporting/src/baseline.rs:388-417 | the stored counts are how often each key occurs, sorted, whatever order the hash map yields |
| LooseBaselines.Filter | crates/reporting/src/baseline.rs:423-456 | counting down reports exactly the occurrences of a key beyond what is allowed |
| LooseBaselines.FilterReportsSurplus | crates/reporting/src/baseline.rs:423-456 | of every key the surplus over the baseline is reported, no more and no less |
| LooseBaselines.ExcessOfBoth | crates/reporting/src/baseline.rs:423-456 | filtering in portions, each with what the ones before have left of the counts, gives the same in the order reported |
| LooseBaselines.GeneratedCoversAll | crates/reporting/src/baseline.rs:388-456 | filtering by a baseline generated from the same issues leaves only issues without a key |
| LooseBaselines.Compare | crates/reporting/src/baseline.rs:462-518 | it lists both differences with multiplicity and is up to date exactly when the counts are equal |
| LooseBaselines.ListsNames | crates/reporting/src/baseline.rs:462-518 | the changes listed name the file and the code of exactly the keys that differ |
| LooseBaselines.CompareAgreesWithFilter | crates/reporting/src/baseline.rs:423-518 | one new issue is listed for each issue with a key that filtering reports |
| LooseBaselines.Prune | crates/reporting/src/baseline.rs:526-557 | every count cut down to the occurrences, sorted again, and how many were dropped |
| LooseBaselines.PruneRemovesStale | crates/reporting/src/baseline.rs:526-557 | after pruning comparing lists no removed issue, even for repeated keys |
| LooseBaselines.PruneKeepsReportsIff | crates/reporting/src/baseline.rs:423-557 | pruning keeps what filtering reports exactly when no occurring key is stored again with a smaller count |
| LooseBaselines.PruneHidesIssue | crates/reporting/src/baseline.rs:526-557 | a key stored with 2 and then 1: an issue is reported before pruning and not after |
| LooseBaselines.PruneIntersects | crates/reporting/src/baseline.rs:526-557 | with distinct keys pruning is the intersection with the occurrences, in written form, and drops the rest |
| LooseBaselines.PruneTwice | crates/reporting/src/baseline.rs:526-557 | pruning again changes nothing, whatever was stored |
| BaselineReport.SortByCountThenName | src/commands/inspect_baseline.rs:396-398 | the same items by falling count, then rising name |
| BaselineReport.RankedUnique | src/commands/inspect_baseline.rs:396-398 | there is only one way to rank a set of items |
| BaselineReport.CollectMembers | src/commands/inspect_baseline.rs:377-393 | every name that occurs, once, with the sum of its counts, ranked |
| BaselineGroups.GroupBy | src/commands/inspect_baseline.rs:350-374 | a group for every name that occurs, with its total and the ranked count of its entries in the other dimension, ranked |
| BaselineGroups.GroupingUnique | src/commands/inspect_baseline.rs:350-374 | that leaves no choice: the result is unique |
| BaselineGroups.CountConserves | src/commands/inspect_baseline.rs:350-393 | a ranked count adds up to the sum of its entries |
| BaselineGroups.GroupsConserve | src/commands/inspect_baseline.rs:350-374 | grouping by file and by code have the same grand total, and every group's members add up to it |
| BaselineGroups.GroupingsTranspose | src/commands/inspect_baseline.rs:350-374 | the two groupings show the same number at every (file, code) |
| BaselineGroups.HeadingsAreCount | src/commands/inspect_baseline.rs:127-141 | the group headings alone are the default summary |
| BaselineGroups.DrillDownAgrees | src/commands/inspect_baseline.rs:169-200 | drilling into a code shows the members of its group |
| BaselineGroups.TotalsBounded | src/commands/inspect_baseline.rs:350-374 | no sum exceeds the number of issues, so none overflows when that fits |
| BaselineFlatten.FlattenStrict | src/commands/inspect_baseline.rs:323-346 | one entry for every code in every file with the number of its issues, in order; all issues are counted once |
| BaselineFlatten.FlatUnique | src/commands/inspect_baseline.rs:323-346 | that determines the entries |
| BaselineFlatten.LooseSum | src/commands/inspect_baseline.rs:325-330 | the entries of a loose baseline with distinct keys add up to all it allows |
| PathDedup.DeduplicatePaths | src/commands/init.rs:813-827 | in order, exactly the given paths for which no smaller given path is above them, for all inputs |
| PathDedup.UnderTransitive | src/commands/init.rs:823-823 | lying under passes on, so that comparing with kept paths is enough |
| PathDedup.EveryPathCovered | src/commands/init.rs:813-827 | every given path is kept or lies under a kept one |
| PathDedup.OrderDoesNotMatter | src/commands/init.rs:813-827 | the result depends on the set of given paths only |
| PathDedup.AntichainIff | src/commands/init.rs:813-827 | no kept path lies under another exactly when a path that sorts after one under it lies under a smaller path itself |
| PathDedup.OneSlashSuffices | src/commands/init.rs:813-827 | which holds when every path has at most one slash at its end |
| PathDedup.TwoSlashesFail | src/commands/init.rs:813-827 | two paths, both kept, one under the other |
| Decimal.ParseOfPrint | src/version_check.rs:108-119 | parsing a printed number gives it back exactly when it fits in 64 bits |
| Decimal.PrintOfValue | src/version_check.rs:164-170 | printing the value of digits without leading zeros gives the digits back |
| Decimal.ParseU64Iff | src/version_check.rs:110-110 | a text is read as a number exactly when the number fits in 64 bits and the text is its digits after any zeros and an optional plus sign |
| Decimal.TrimIs | src/version_check.rs:95-95 | trimming takes all white space off both ends and nothing else |
| Decimal.TrimUnique | src/version_check.rs:95-95 | and white space around a text without any at its ends is what is taken off |
| Decimal.JoinOfSplit | src/version_check.rs:105-105 | joining what was split gives the text back |
| VersionPin.ParsedIsWellFormed | src/version_check.rs:94-132 | a parsed pin has a minor whenever it has a patch, and 64-bit components |
| VersionPin.ParseOfPrinted | src/version_check.rs:94-170 | parsing what a pin prints gives the pin back, exactly for the pins that parsing can give |
| VersionPin.PrintedIsNormalForm | src/version_check.rs:94-170 | printing after parsing is a normal form: equal texts exactly for equal pins |
| VersionPin.ParseIff | src/version_check.rs:94-132 | which texts are pins, and which are refused for their length alone |
| VersionPin.ParseErrorIff | src/version_check.rs:94-132 | which error is given: an empty pin, the first of the three components that is no number, or only then too many components |
| VersionPin.MatchIff | src/version_check.rs:139-160 | a pin matches exactly the readable versions that it is a less specific form of |
| VersionPin.DriftIff | src/version_check.rs:139-160 | otherwise the drift is that of the first component that the pin has and that differs |
| VersionPin.CoreIs | src/version_check.rs:192-192 | a suffix and the white space before it and at the start make no difference to what is looked at |
| VersionPin.InstalledIff | src/version_check.rs:191-202 | an installed version is understood exactly when its first three components are numbers of 64 bits, and as these |
| VersionPin.SuffixIgnored | src/version_check.rs:191-202 | a pre-release or build suffix makes no difference |
| VersionPin.MatchesItsExtensions | src/version_check.rs:139-202 | among printed versions with any suffix a pin matches those that extend it |
| ReleaseSearch.MatchingParses | src/commands/self_update.rs:232-243 | the parse filter drops no release that the check would match |
| ReleaseSearch.NewerIs | src/commands/self_update.rs:245-247 | the first component that differs decides which version is newer |
| ReleaseSearch.ComponentsIff | src/commands/self_update.rs:267-282 | a release is understood exactly when its first two components are numbers; a third that is missing or none counts as 0 |
| ReleaseSearch.ComponentsOfPrinted | src/commands/self_update.rs:267-282 | a version of two or three components with any suffix reads as these, a missing patch as 0; one component is not enough |
| ReleaseSearch.ScanIff | src/commands/self_update.rs:215-252 | the releases looked at are those of the first ten pages up to the first one without a release of the pin's major or a later one, and the search fails exactly when such a page does |
| ReleaseSearch.FindLatest | src/commands/self_update.rs:206-262 | the first of the newest matching releases on the pages read, an error only if none matches there, and a listing error exactly when a page that is read fails |
| ReleaseSearch.BestUnique | src/commands/self_update.rs:245-247 | which determines the release |
| ReleaseSearch.BestIsNewest | src/commands/self_update.rs:232-247 | every match is older than the one found, or as new and not before it |
| ReleaseSearch.StoppingEarlyIff | src/commands/self_update.rs:250-252 | for all pins and listings: stopping early gives the release of the whole listing exactly when no match on an unread page is newer than the one found, or none matches there if none was found |
| ReleaseSearch.StoppingEarlyIsRight | src/commands/self_update.rs:250-252 | when readable majors never increase and every page has one, stopping early changes neither the release found nor whether one is found |
| ReleaseSearch.MajorPinReadsOn | src/commands/self_update.rs:209-209 | a pin of a major alone never stops at a page with a readable release |
| ReleaseSearch.StoppingEarlyCanMiss | src/commands/self_update.rs:250-252 | a listing out of version order in which the only match is missed |
| Slugs.Slugify | docs/src/content.rs:327-346 | the loop with its dash flag gives the words of the heading joined by single dashes, or "section" |
| Slugs.LettersAndDigits | docs/src/content.rs:327-346 | the characters of words are the 62 ASCII letters and digits, capital letters in lower case |
| Slugs.SlugsAre | docs/src/content.rs:327-346 | the slugs are exactly the non-empty sequences of lower-case words joined by single dashes |
| Slugs.SlugIdempotent | docs/src/content.rs:327-346 | making a slug of a slug changes nothing |
| Slugs.SameSlug | docs/src/content.rs:327-346 | two headings share a slug exactly when they have the same words |
| HeadingIds.SeenIds.MakeUniqueSlug | docs/src/content.rs:348-358 | the new counters, and the base numbered by its occurrence |
| HeadingIds.CollectIds | docs/src/content.rs:251-281 | over a whole page, with or without overrides, each heading gets its base numbered by its occurrence |
| HeadingIds.CollectedIs | docs/src/content.rs:251-358 | each id is the override or the dash-joined words of the title, followed by the number of its occurrence from the second on |
| HeadingIds.NumberedUnique | docs/src/content.rs:355-355 | a base with a number can be read in one way only |
| HeadingIds.DistinctIff | docs/src/content.rs:251-358 | the ids of a page are pairwise distinct exactly when no base is another base with a number that the other one reaches |
| HeadingIds.IdsRepeat | docs/src/content.rs:251-358 | three headings of which two get the same id |

## Left out

- PreludeProtocol.InvAlways: does not model memory ordering; every atomic access is one indivisible step, and a failing decompressor is a panic that the frame table excludes.
- PreludeGuarantees.FinishTerminates: assumes a fair scheduler, as a spin loop needs.
- FixLoop.RunUntilStable: does not model what a tool does to a file, only what it reports; a pass is any function of its number.
- FixLoop.RepeatedOverlayRepeatsFiles: assumes that contents that occur have distinct hashes.
- AssertionSets.HashEqualIffReordered: assumes that neither literals that occur nor rising lists of their hashes collide; the 64-bit width of hashes is not modelled.
- Clauses.ContainsIsImplication: assumes that assertions of the two clauses with one hash are the same.
- SaturationUnits.UnitsLosslessIff: takes assertions of one hash to have the same negation, and clauses of one hash to say the same.
- SaturationConsensus.SaturateLosslessIff: takes clauses of one hash to say the same, which the 32-bit clause hash does not guarantee, and unit assertions to have opposites.
- SaturateClauses.SaturateAll: takes the hash of the opposite assertion to be the hash of the negation, as the source describes it, and the combined hash of a clause's variables to be a function of their set.
- The rest of `crates/algebra/src/lib.rs` (truth extraction, disjunction and negation of clause sets): the first extracts, the others repeat the distribution that is modelled for assertion sets.
- The display text and the concrete hash of a clause and of an assertion: they are parameters.
- ConfigLayers.LoadLayer: takes the disk, the parsers and canonicalisation as given and unchanging; read and parse errors are opaque.
- ConfigMerge.MergeValueInto: numbers are integers, and the fields of an object have no order.
- Typed decoding, normalisation, environment overrides and file discovery of the configuration: each is settled by reading one branch.
- DownloadOnce.NoDeadlock: does not model a refused lock, which the source ignores, nor fairness of the lock: a waiting process may be overtaken forever.
- Downloading and unpacking themselves, checksums and the schema file of the downloader.
- StrictBaselines.Compare: the order in which a file's new and removed issues are listed is that of a hash set and is left open.
- LooseBaselines.Compare: the order of the lists is that of a hash map and is left open.
- LooseBaselines.Generate: counts are unbounded; a count that exceeds 32 bits is not modelled.
- Reading and writing baseline files, and backups of them.
- BaselineReport.SortByCountThenName: the library sort is modelled by insertion; with distinct names its result is the only ranked one.
- Bars, headings and links of the report, and the choice of the configured baseline.
- PathDedup.DeduplicatePaths: the library sort is modelled by insertion; which paths are proposed in the first place is not modelled.
- VersionPin.CheckInstalled: the failure level of a drift is a look-up and is left out.
- ReleaseSearch.FindLatest: a page is given as a whole; the assets of a release, the download and the replacement of the executable are left out.
- HeadingIds.CollectIds: the titles are given; parsing Markdown and rewriting HTML are left out. Counters are unbounded.
- Rendering, redirects, search index and sitemap of the documentation site.
