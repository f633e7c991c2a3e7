# Serialisation sequences, verified

A Dafny model of the serialisation solver and of three self-contained parts of the
CaDiCaL release it bundles, with proofs about every run.

The solver works on an abstract argumentation framework: a set of arguments and an
attack relation. It builds *serialisation sequences* by repeatedly choosing an initial
set (a minimal non-empty admissible set) of what is left, and passing to the reduct.
What it prints is meant to characterise the classical semantics. The project has three
layers for this, and the main results go through all of them:

1. `Encodings` is the CNF for "non-empty admissible set", `SatSolver` the incremental
   solver wrapper, `InitialSets` the nested minimise/block loop over them.
2. `Algorithms` holds the reduct and the cone on the array/bitset pair of `Framework`.
3. `Enumeration` holds the recursions. `Serialisation` is the state machine they run,
   `Output` relates printed lists to sets of runs, and `Dung` has the textbook
   semantics, which mention neither the solver nor sequences.

`dafny verify dfyconfig.toml` checks everything.

## The reduct as written and as meant

`get_reduct` sets the bit of every argument the chosen set attacks, and clears it again
only if the argument is still in the active array. An argument that an earlier set
already defeated keeps a stale bit until the next step. The array is always exact.

Every recursion here takes a `Mode`: `AsWritten` uses the reduct of the code, `Meant`
the one with the stale bits cleared. Each is proved to print exactly the runs of the
state machine in that mode, each once. With `Meant`, the entry points of `Enumeration`
print exactly what they are named after.

With `AsWritten`, some of it holds on every framework (`TasksAsWritten`): every admissible
set, every complete and every stable extension is printed, and the query for one argument
prints something whenever the argument is in an admissible set. The strongly admissible
recursion prints only strongly admissible sets. The rest can fail (`Witnesses`):

* With attacks 0→2, 1→2, 2→3, 3→4 the admissible, preferred, complete and stable
  recursions all print [0], [1], [4], [3], although 3 attacks 4: the stale variable of 2
  lets the solver treat 3 as defeated. Asked for argument 4, the query prints
  [0], [1], [4], although no admissible set contains 4.
* With attacks 0→2, 1→2, 2→3, 3→3, 3→4 the unchallenged recursion prints [0], [1], [4],
  which is not admissible, and the preferred recursion never prints the preferred
  extension {0, 1}.
* With attacks 0→2, 1→2, 2→3, 3→4, 4→5, 5→4 the unchallenged recursion loses the meant
  sequence [0], [1], [5].
* With attacks 0→1, 0→2, 3→1, 1→4, 4→2, 2→3 the grounded extension {0, 3, 4} is never
  printed, by the grounded or the strongly admissible recursion; the grounded and the
  complete recursion print [0], [3] instead, which is not complete.

When exactly the code does what is meant is proved in `StaleBits` and `AsMeant`. Except
for the stable recursion, whose condition follows runs of the code after a false step,
the conditions are about the attack relation or about meant runs:

* Admissible, preferred, and the query for all arguments: exactly the meant sequences are
  printed iff, for every admissible set U and every initial set L of what U leaves, any
  set that the arguments attacked by both U and L help to defend has a non-empty part
  that defends itself (`NeverFalselyDefended`). For the admissible recursion this is also
  equivalent to soundness. Frameworks in which no argument has two attackers are safe.
* Complete: iff in addition the arguments attacked by both U and L never hide all the
  arguments that U ∪ L defends and misses (`NeverAllHidden`).
* Stable: only meant sequences are printed iff no run with a false step can be continued
  until nothing is left (`FalseStepsGetStuck`).
* For any sequence printed by the preferred, stable or maximal unchallenged recursion,
  its union is what it should be iff every attacker that was waved through is attacked by
  the same set or a later one (`Repaired`).
* Grounded: the grounded extension is printed iff one of the meant sequences for it has
  no masked step, and nothing else is printed iff each meant run without masked steps
  that misses an argument misses one that is not masked.
* Unchallenged: exactly the meant sequences are printed iff the challenge filter keeps
  the same sets with and without stale bits on every meant run, and every union is
  admissible iff it never keeps a set that does not defend itself.

A second discrepancy is in the LRAT checker: restoring a clause under an id that is still
in the table adds a second record. Growing the table reverses the records with one id, so
a lookup changes iff the first and the last of them differ (`ClauseTable.GrowthLookups`).
Three insertions reach this case (`LratChecker.RestoreThenGrow`). Lookups are a plain map
as long as ids are unique, and an insertion keeps them so iff its id was not in use.

## Model

| member | source | states |
|---|---|---|
| `Framework.VariablesDistinct` | src/AF.cpp:17-23 | with 2·args within `int32_t`, the two variables of all arguments are positive and pairwise distinct |
| `Framework.AF.constructor` | src/AF.cpp:4 | a new framework is empty and well-formed |
| `Framework.AF.SetArguments` | src/AF.cpp:6-10 | both lists are resized; growing keeps all attacks, and keeps the lists well-formed as long as the variables fit `int32_t` |
| `Framework.RelationMeans` | src/AF.cpp:12-15 | the attack relation is what the attacker lists hold |
| `Framework.AF.AddAttack` | src/AF.cpp:12-15 | exactly one attack is added and the two adjacency lists stay transposed, with multiplicities |
| `Framework.AF.AttackedLists` | src/AF.cpp:12-15 | both adjacency lists describe the same relation |
| `Framework.IterableBitSet.constructor` | include/IterableBitSet.h:14 | takes over array and bitset |
| `Framework.IterableBitSet.Clear` | include/IterableBitSet.h:21-24 | empties both |
| `Framework.IterableBitSet.BitMeaning` | include/IterableBitSet.h:7-26 | a bit is set iff the argument is active or stale |
| `Framework.IterableBitSet.AgreesIffNotStale` | include/IterableBitSet.h:7-26 | array and bitset agree iff no bit is stale |
| `Framework.SelectOrder` | src/EE-IT.cpp:48-53 | filtering an array keeps the order of what is left |
| `SatSolver.CadicalSatSolver.constructor` | src/CadicalSatSolver.cpp:4-9 | no clauses, no assumptions, an all-false model |
| `SatSolver.CadicalSatSolver.AddClause` | src/CadicalSatSolver.cpp:11-16 | the clause is added for good |
| `SatSolver.CadicalSatSolver.AddClause2` | src/CadicalSatSolver.cpp:23-27 | the binary clause is added for good |
| `SatSolver.CadicalSatSolver.Assume` | src/CadicalSatSolver.cpp:36-38 | the assumption is kept for the next call |
| `SatSolver.Search` | lib/cadical-1.9.5/src/cadical.hpp:272-287 | finds a satisfying assignment iff one exists over the given variables |
| `SatSolver.CadicalSatSolver.Solve` | src/CadicalSatSolver.cpp:40-54 | decides clauses under assumptions, drops the assumptions, and rebuilds the model only on SAT |
| `Encodings.EncodeArgument` | src/Encodings.cpp:9-21 | adds exactly the clauses of one argument |
| `Encodings.AdmissibleNonempty` | src/Encodings.cpp:5-24 | adds exactly the encoding |
| `Encodings.EncodingMeaning` | src/Encodings.cpp:5-24 | a model is an assignment that respects acceptance, rejection and non-emptiness at every active argument |
| `Encodings.EncodingSound` | src/Encodings.cpp:5-24 | the accepted set of every model is non-empty, conflict-free and defended, where an attacker with a stale attacker counts as defeated |
| `Encodings.EncodingComplete` | src/Encodings.cpp:5-24 | every such set is accepted by a model |
| `Serialisation.CleanAcceptable` | src/Encodings.cpp:5-24 | without stale bits that is admissibility in the active sub-framework |
| `InitialSets.Narrow` | src/EE-IT.cpp:31-41 | the clause excludes exactly the supersets of the model, the assumptions keep to exactly its subsets |
| `InitialSets.LastIsMinimal` | src/EE-IT.cpp:25-42 | when nothing open is left below the last model, it is minimal, although all larger models were blocked for good |
| `InitialSets.ReachNext` | src/EE-IT.cpp:25-42 | each further model is strictly smaller |
| `InitialSets.Minimise` | src/EE-IT.cpp:24-42 | ends in a minimal acceptable set, or reports that no candidate is open |
| `InitialSets.ProjectedModels` | src/EE-IT.cpp:23-59 | after every round the models of all clauses accept exactly the non-empty acceptable sets that include no returned set |
| `InitialSets.ComplementClauseRedundant` | src/EE-IT.cpp:51-55 | the commented-out complement clause would change no model |
| `InitialSets.FewerOpen` | src/EE-IT.cpp:23-59 | every round leaves strictly fewer open sets |
| `InitialSets.Extract` | src/EE-IT.cpp:44-53 | reads exactly the found set off the model, any two arguments in the order they have in the array |
| `InitialSets.EnumerateInitial` | src/EE-IT.cpp:6-61 | returns exactly the minimal non-empty acceptable sets, each once, and inside each set any two arguments in the order they have in the array |
| `Dung.ReductTwice` | include/Algorithms.h:19-42 | reducing by S and then T is reducing by their union |
| `Dung.Modularity` | src/ES-AD.cpp:14-15 | for admissible S ⊆ E: E is admissible iff E∖S is admissible in the reduct by S |
| `Dung.InitialWithin` | src/EE-IT.cpp:5-6 | every non-empty admissible set includes an initial set |
| `Algorithms.Touch` | include/Algorithms.h:20-30 | sets exactly the bits of the given arguments and of what they attack |
| `Algorithms.FlipActive` | include/Algorithms.h:32-39 | flips the bits of exactly the active arguments in place and collects exactly the untouched ones, in array order |
| `Algorithms.GetReduct` | include/Algorithms.h:19-42 | the array is exactly active minus S minus what S attacks, in the old order; the bits are the array plus the inactive touched arguments |
| `Algorithms.ReductAgreesIff` | include/Algorithms.h:25-41 | as written and as meant agree iff S attacks no inactive argument |
| `Algorithms.TakeReduct` | include/Algorithms.h:19-42 | the step of the state machine in the given mode |
| `Algorithms.PoppedAgain` | include/Algorithms.h:57-69 | an argument popped again has no unvisited active attacker |
| `Algorithms.ConeRound` | include/Algorithms.h:57-69 | one round keeps the search invariant |
| `Algorithms.PushAttackers` | include/Algorithms.h:64-68 | pushes exactly the unvisited attackers whose bit is set |
| `Algorithms.ConeVisit` | include/Algorithms.h:58-68 | every round visits a new argument or shortens the stack |
| `Algorithms.GetCone` | include/Algorithms.h:44-72 | fails iff the argument is inactive; otherwise returns, without duplicates and with agreeing bits, exactly the arguments that reach it along active attacks |
| `Algorithms.ConeKeepsAdmissible` | include/Algorithms.h:44-72 | intersecting an admissible set with a cone keeps it admissible |
| `Serialisation.PathShape` | src/ES-AD.cpp:4-22 | in either mode the sets of a run are non-empty, disjoint and active, so a run is no longer than the array |
| `Serialisation.ChoiceShrinks` | src/ES-AD.cpp:7-16 | every recursive call has strictly fewer active arguments |
| `Serialisation.MeantStates` | include/Algorithms.h:19-42 | the state after a run depends only on the union of its sets |
| `Serialisation.PathIsAdmissible` | src/ES-AD.cpp:4-22 | the union of every run, under any choice rule, is admissible |
| `Serialisation.Serialise` | src/ES-AD.cpp:4-22 | every admissible set is the union of a run |
| `Serialisation.AdmissibleUnions` | src/ES-AD.cpp:4-22 | the unions of the printed sequences are exactly the admissible sets |
| `Serialisation.PreferredStop` | src/ES-AD.cpp:18-21 | a run has no initial set left iff its union is preferred |
| `Serialisation.CompleteStop` | src/ES-CO.cpp:7-30 | a run has no unattacked singleton left iff its union is complete |
| `Serialisation.StableStop` | src/ES-ST.cpp:6-10 | a run ends on the empty array iff its union is stable |
| `Serialisation.ExtensionUnions` | src/ES-CO.cpp:4-31 | the printed unions are exactly the preferred, complete and stable extensions, respectively |
| `Serialisation.GroundedRuns` | src/ES-GR.cpp:4-35 | every maximal run lists the least fixed point of the characteristic function, one argument at a time |
| `Serialisation.GroundedConfluence` | src/ES-GR.cpp:4-35 | any two maximal runs have the same union and the same length |
| `Serialisation.GroundedIsPrinted` | src/ES-GR.cpp:31-34 | a set is printed iff it is the grounded extension |
| `Serialisation.StronglyAdmissibleUnions` | src/ES-GR.cpp:4-35 | the printed unions are exactly the strongly admissible sets |
| `Serialisation.InitialSetsAttackBack` | src/ES-UC.cpp:7-26 | attack between initial sets is symmetric |
| `Serialisation.UnchallengedTogether` | src/ES-UC.cpp:7-26 | sets that pass the filter never attack each other and are jointly admissible |
| `Serialisation.UnchallengedIsComplete` | src/ES-UC.cpp:38-41 | the union of every maximal run is a complete extension |
| `Serialisation.QueryIsCredulous` | src/AS-AD.cpp:4-46 | some sequence is printed for an argument iff it is in some admissible set |
| `Output.LoopStep` | src/ES-AD.cpp:7-16 | one iteration adds exactly the runs that start with the chosen set, each after all its extensions |
| `Output.LoopEnd` | src/ES-AD.cpp:18-21 | after the loop the stop test completes the list of runs, the shortest last |
| `Enumeration.EnumerateSequencesAdmissible` | src/ES-AD.cpp:4-22 | prints exactly the runs, each once and after all its extensions, sets in array order, for both values of `preferred` and in both modes |
| `Enumeration.SeesAttacker` | src/ES-GR.cpp:7-13 | the scan finds an attacker whose bit is set iff there is one |
| `Enumeration.EnumerateSequencesStronglyAdmissible` | src/ES-GR.cpp:4-35 | prints exactly the runs, each once and after all its extensions, and otherwise in the array order of the first argument in which they differ, for both values of `grounded` and in both modes |
| `Enumeration.IsUnattackedSingleton` | src/ES-CO.cpp:8-17 | recognises an unattacked singleton |
| `Enumeration.EnumerateSequencesComplete` | src/ES-CO.cpp:4-31 | prints exactly the runs, each once and after all its extensions, sets in array order, in both modes |
| `Enumeration.EnumerateSequencesStable` | src/ES-ST.cpp:4-22 | prints exactly the runs, each once and after all its extensions, sets in array order, in both modes |
| `Enumeration.MarkAttackers` | src/ES-UC.cpp:9-14 | marks exactly the attackers whose bit is set |
| `Enumeration.IsChallenged` | src/ES-UC.cpp:8-23 | true iff one of the initial sets attacks the given one |
| `Enumeration.ChallengeFilter` | src/ES-UC.cpp:15-26 | the filter keeps exactly the unchallenged sets |
| `Enumeration.EnumerateSequencesUnchallenged` | src/ES-UC.cpp:4-42 | prints exactly the runs, each once and after all its extensions, sets in array order, for both values of `maximal` and in both modes |
| `Enumeration.ScanLast` | src/AS-AD.cpp:8-23 | decides containment and attack although the scan stops early |
| `Enumeration.PruningLosesNothing` | src/AS-AD.cpp:31-33 | once the argument is attacked, no continuation contains it |
| `Enumeration.SequencesArgumentAdmissible` | src/AS-AD.cpp:4-46 | prints exactly the runs whose last set contains the argument and no earlier one does, each once, sets in array order |
| `Enumeration.AdmissibleSequences` | src/ES-AD.cpp:24-26 | the printed unions are exactly the admissible sets, or the preferred extensions |
| `Enumeration.StronglyAdmissibleSequences` | src/ES-GR.cpp:37-39 | the printed unions are exactly the strongly admissible sets, or the grounded extension |
| `Enumeration.CompleteSequences` | src/ES-CO.cpp:33-35 | the printed unions are exactly the complete extensions |
| `Enumeration.StableSequences` | src/ES-ST.cpp:24-26 | the printed unions are exactly the stable extensions |
| `Enumeration.UnchallengedSequences` | src/ES-UC.cpp:44-46 | every printed union is admissible, and complete if maximal |
| `Enumeration.ArgumentSequences` | src/AS-AD.cpp:48-51 | something is printed iff the argument is credulously accepted |
| `StaleBits.SameActive` | include/Algorithms.h:32-39 | the array is the exact reduct along every run as written |
| `StaleBits.StaleIffHitTwice` | include/Algorithms.h:25-39 | a bit is stale iff the last set and an earlier one both attack the argument |
| `StaleBits.RunStateIsState` | include/Algorithms.h:19-42 | along meant runs, array and bits of the code told from the attacks and the chosen sets alone |
| `StaleBits.BitsAgreeIff` | include/Algorithms.h:25-41 | bits and array agree all along a run iff no two of its sets attack a common argument |
| `StaleBits.InitialSetsCorrectIff` | src/EE-IT.cpp:6-61 | on a state with stale bits exactly the initial sets are returned iff every set that stale bits help to defend has an admissible part, iff each returned set is admissible |
| `StaleBits.MeantIffAdmissible` | src/ES-AD.cpp:4-22 | a run as written is a meant run iff every union on the way is admissible |
| `StaleBits.SoundIffAsMeant` | src/ES-AD.cpp:4-22 | as written: all unions admissible iff exactly the meant sequences are printed iff arguments attacked both by an admissible set and by an initial set after it never stand in for a defence |
| `StaleBits.NoSharedTargetsSuffice` | src/ES-AD.cpp:4-22 | if no meant run has two sets attacking a common argument, the code is sound as written |
| `StaleBits.SingleAttackersSuffice` | src/ES-AD.cpp:4-22 | in particular if no argument has two attackers |
| `TasksAsWritten.SerialiseAsWritten` | src/ES-AD.cpp:4-22 | from any state, with any stale bits, every admissible set is the union of a run as written |
| `TasksAsWritten.AdmissibleIsPrinted` | src/ES-AD.cpp:4-22 | as written every admissible set is printed, on every framework |
| `TasksAsWritten.StableIsPrinted` | src/ES-ST.cpp:4-22 | as written every stable extension is printed, on every framework |
| `TasksAsWritten.CompleteIsPrinted` | src/ES-CO.cpp:4-31 | as written every complete extension is printed, on every framework |
| `TasksAsWritten.CredulousIsAnswered` | src/AS-AD.cpp:4-46 | as written something is printed for every credulously accepted argument |
| `TasksAsWritten.AdmissibleIffRepaired` | src/ES-AD.cpp:4-22 | the union of a run as written is admissible iff every remaining attacker of a chosen argument is attacked by the same set or a later one |
| `TasksAsWritten.PrintedPreferred` | src/ES-AD.cpp:18-21 | as written a union printed as preferred is preferred iff the run is repaired in this sense |
| `TasksAsWritten.PrintedStable` | src/ES-ST.cpp:6-10 | as written a union printed as stable is stable iff the run is repaired |
| `TasksAsWritten.PrintedUnchallenged` | src/ES-UC.cpp:38-41 | as written a union printed with `maximal` is complete iff the run is repaired |
| `AsMeant.MaximalAsMeantIff` | src/ES-AD.cpp:18-21 | a recursion that prints its maximal runs prints the meant ones iff all its runs are the meant ones |
| `AsMeant.PreferredAsWrittenIff` | src/ES-AD.cpp:18-21 | the preferred recursion prints the meant sequences, or only meant ones, iff doubly attacked arguments never stand in for a defence |
| `AsMeant.PreferredStopAsWritten` | src/ES-AD.cpp:18-21 | a run as written for a preferred extension is printed iff its last stale bits help to defend nothing that is left |
| `AsMeant.FirstFalseStep` | src/ES-ST.cpp:4-22 | a run as written that is not meant has a first set that does not defend itself |
| `AsMeant.StableAsWrittenIff` | src/ES-ST.cpp:6-10 | the stable recursion prints only meant sequences iff runs with a false step never use up the array; where the admissible recursion is sound it prints all of them |
| `AsMeant.UnattackedAsWritten` | src/ES-CO.cpp:8-17 | after a meant run an argument is seen as unattacked iff it is defended, missed and not masked |
| `AsMeant.CompleteStopAsWritten` | src/ES-CO.cpp:7-30 | after a meant run the complete recursion stops iff every argument it defends and misses is masked |
| `AsMeant.CompleteAsWrittenIff` | src/ES-CO.cpp:4-31 | the complete recursion prints the meant sequences, or only meant ones, iff doubly attacked arguments neither stand in for a defence nor hide all missed arguments |
| `AsMeant.CompleteSoundIff` | src/ES-CO.cpp:26-30 | where the admissible recursion is sound, all unions printed are complete iff not all missed arguments are ever hidden |
| `AsMeant.PrintedComplete` | src/ES-CO.cpp:26-30 | on any framework a printed union is complete iff the run is repaired and leaves nothing unattacked |
| `AsMeant.StrongAsWrittenIff` | src/ES-GR.cpp:6-16 | as written exactly the meant sequences are printed in which no argument is masked when it is chosen |
| `AsMeant.StrongSoundAsWritten` | src/ES-GR.cpp:8-16 | as written every printed union is strongly admissible |
| `AsMeant.GroundedAsWrittenIff` | src/ES-GR.cpp:31-34 | as written the grounded recursion prints exactly the meant unmasked runs that miss nothing but masked arguments |
| `AsMeant.GroundedPrintedIff` | src/ES-GR.cpp:31-34 | as written the grounded extension is printed iff some meant sequence for it has no masked step |
| `AsMeant.GroundedSoundIff` | src/ES-GR.cpp:31-34 | as written only the grounded extension is printed iff each meant unmasked run that misses something misses something not masked |
| `AsMeant.AnswersAsMeantIff` | src/AS-AD.cpp:4-46 | the answers to all queries are the meant ones iff doubly attacked arguments never stand in for a defence |
| `AsMeant.UnchallengedAsWrittenIff` | src/ES-UC.cpp:4-42 | for both values of `maximal` the meant sequences are printed iff the filter keeps the same sets with and without stale bits on every meant run |
| `AsMeant.UnchallengedSoundIff` | src/ES-UC.cpp:4-42 | all unions are admissible iff all runs are meant runs of initial sets iff the filter never keeps a set that does not defend itself |
| `Witnesses.AsWrittenIsUnsound` | include/Algorithms.h:27-39 | a framework for which four recursions print a set with a conflict |
| `Witnesses.AsWrittenAnswersWrongly` | include/Algorithms.h:27-39 | there the query answers for an argument that no admissible set contains |
| `Witnesses.AsWrittenKeepsUndefended` | include/Algorithms.h:27-39 | a framework for which the unchallenged recursion prints a set that is not admissible |
| `Witnesses.AsWrittenMissesPreferred` | include/Algorithms.h:27-39 | there a preferred extension is never printed |
| `Witnesses.AsWrittenLosesUnchallenged` | include/Algorithms.h:27-39 | a framework for which the unchallenged recursion loses a meant sequence |
| `Witnesses.AsWrittenMissesGrounded` | include/Algorithms.h:27-39 | a framework whose grounded extension is never printed |
| `Witnesses.AsWrittenStopsEarly` | include/Algorithms.h:27-39 | there the grounded and the complete recursion print a set that is not complete |
| `PrintedAsWritten.AdmissibleSequencesAsWritten` | src/ES-AD.cpp:24-26 | prints every admissible set, and only those iff doubly attacked arguments never stand in for a defence; with `preferred`, only meant sequences under the same condition |
| `PrintedAsWritten.CompleteSequencesAsWritten` | src/ES-CO.cpp:33-35 | prints every complete extension; only meant sequences, and only complete unions, under the exact conditions |
| `PrintedAsWritten.StableSequencesAsWritten` | src/ES-ST.cpp:24-26 | prints every stable extension; says exactly when a printed union is stable and when only meant sequences are printed |
| `PrintedAsWritten.StronglyAdmissibleSequencesAsWritten` | src/ES-GR.cpp:37-39 | every printed union is strongly admissible; with `grounded`, exactly when the grounded extension is printed and when nothing else is |
| `PrintedAsWritten.UnchallengedSequencesAsWritten` | src/ES-UC.cpp:44-46 | exactly when the meant sequences are printed, when all unions are admissible, and when a maximal one is complete |
| `PrintedAsWritten.ArgumentSequencesAsWritten` | src/AS-AD.cpp:48-51 | prints something for every credulously accepted argument, and for no other where doubly attacked arguments never stand in for a defence |
| `Reconstruction.External.constructor` | lib/cadical-1.9.5/src/external.cpp:6-13 | starts with an empty stack |
| `Reconstruction.External.Ival` | lib/cadical-1.9.5/src/external.hpp:294-306 | a literal's value; variables without one count as false |
| `Reconstruction.External.PushClause` | lib/cadical-1.9.5/src/extend.cpp:47-61 | appends the cells of one entry |
| `Reconstruction.External.ScanClause` | lib/cadical-1.9.5/src/extend.cpp:149-158 | decides whether the saved clause is satisfied and stops in front of it |
| `Reconstruction.External.ScanPivots` | lib/cadical-1.9.5/src/extend.cpp:169-190 | makes the false witness literals true iff the clause was not satisfied |
| `Reconstruction.External.FlipValue` | lib/cadical-1.9.5/src/extend.cpp:179-182 | makes exactly the given false literal true |
| `Reconstruction.External.ImportValues` | lib/cadical-1.9.5/src/extend.cpp:127-137 | an external literal becomes true iff its internal literal is true, or it is negative and that has no value, or its variable is unmapped and it was true before |
| `Reconstruction.External.WalkStack` | lib/cadical-1.9.5/src/extend.cpp:146-191 | the walk over the flat stack undoes every entry, last first |
| `Reconstruction.External.Extend` | lib/cadical-1.9.5/src/extend.cpp:114-197 | copies the internal assignment in this sense, then undoes every entry |
| `Reconstruction.ImportedHolds` | lib/cadical-1.9.5/src/extend.cpp:127-137 | the copy, for positive and negative literals |
| `Reconstruction.ImageSatisfied` | lib/cadical-1.9.5/src/extend.cpp:127-137 | a clause over mapped variables with values is satisfied after the copy iff its image is satisfied inside |
| `Reconstruction.FlipMakesTrue` | lib/cadical-1.9.5/src/extend.cpp:172-189 | afterwards every witness literal holds that no earlier one contradicts |
| `Reconstruction.FlipKeeps` | lib/cadical-1.9.5/src/extend.cpp:172-189 | variables without a witness literal keep their value |
| `Reconstruction.UndoBlocked` | lib/cadical-1.9.5/src/extend.cpp:104-112 | flipping the blocking literal of a falsified blocked clause satisfies it and keeps all other clauses satisfied |
| `Reconstruction.ReconstructionSound` | lib/cadical-1.9.5/src/extend.cpp:148-191 | reconstruction from any model of what is left satisfies every clause removed, for any number of removals |
| `Reconstruction.RemovesBounded` | lib/cadical-1.9.5/src/extend.cpp:47-61 | removals from clauses over external variables save entries over external variables |
| `Reconstruction.ExtendModel` | lib/cadical-1.9.5/src/extend.cpp:114-197 | if every remaining clause is satisfied inside, `extend` yields a model of the original formula |
| `BlockedClauses.Mark` | lib/cadical-1.9.5/src/block.cpp:55 | a mark is negative iff the negated literal is in the candidate |
| `BlockedClauses.FindClash` | lib/cadical-1.9.5/src/block.cpp:85-127 | finds a clashing literal iff the resolvent is tautological; moves exactly the first one to the front, or leaves the clause as it was |
| `BlockedClauses.Scan` | lib/cadical-1.9.5/src/block.cpp:60-128 | stops at the first clause with a non-tautological resolvent, moved to the front; every clause before it has its first clashing literal in front, all others are unchanged |
| `BlockedClauses.RestoreOrder` | lib/cadical-1.9.5/src/block.cpp:134-142 | undoes the shift of the occurrence list |
| `BlockedClauses.IsBlockedClause` | lib/cadical-1.9.5/src/block.cpp:43-145 | true iff every resolvent on the literal is tautological; exactly the visited tautological clauses have their first clashing literal moved to the front, and the list is restored or has its first other clause moved to the front |
| `BlockedClauses.RotatedPermutes` | lib/cadical-1.9.5/src/block.cpp:92-123 | the reordering is a permutation |
| `BlockedClauses.Visit` | lib/cadical-1.9.5/src/block.cpp:69-128 | one clause of the list: is its resolvent tautological? If so its first clashing literal is in front |
| `BlockedClauses.ShiftIn` | lib/cadical-1.9.5/src/block.cpp:69-81 | one step of the shift of the occurrence list |
| `BlockedClauses.TryCandidate` | lib/cadical-1.9.5/src/block.cpp:618-630 | saves the candidate on the stack iff all its resolvents with the occurrence list are tautological |
| `BlockedClauses.SavedTakesOut` | lib/cadical-1.9.5/src/block.cpp:614-632 | the saved entries are a valid removal sequence: each clause is still blocked after the earlier removals |
| `BlockedClauses.BlockCandidates` | lib/cadical-1.9.5/src/block.cpp:614-632 | exactly the blocked candidates become garbage, what is left is the formula without them, and the stack records a valid removal sequence from the one to the other |
| `BlockedClauses.BlockThenExtend` | lib/cadical-1.9.5/src/block.cpp:614-632 | after any earlier removals: if every clause other than the blocked candidates is satisfied inside, `extend` yields a model of the whole original formula |
| `ClauseTable.ReduceHash` | lib/cadical-1.9.5/src/lratchecker.cpp:187-198 | the slot is in range |
| `ClauseTable.SlotIsRemainder` | lib/cadical-1.9.5/src/lratchecker.cpp:187-198 | in a table of 2^n chains the slot is the folded hash modulo the size |
| `ClauseTable.XorBits` | lib/cadical-1.9.5/src/lratchecker.cpp:191-194 | the exclusive or of the folding, bit by bit |
| `ClauseTable.ShiftBits` | lib/cadical-1.9.5/src/lratchecker.cpp:191-194 | the shift of the folding, bit by bit |
| `ClauseTable.AndBits` | lib/cadical-1.9.5/src/lratchecker.cpp:195 | the mask, bit by bit |
| `ClauseTable.FindMeaning` | lib/cadical-1.9.5/src/lratchecker.cpp:207-219 | a lookup misses iff no record has the id, and finds the only one |
| `ClauseTable.LookupIsMap` | lib/cadical-1.9.5/src/lratchecker.cpp:207-219 | with unique ids lookups are a map from ids to records |
| `ClauseTable.RehashKeeps` | lib/cadical-1.9.5/src/lratchecker.cpp:74-94 | growth loses, duplicates and misplaces no record |
| `ClauseTable.LookupIsFirst` | lib/cadical-1.9.5/src/lratchecker.cpp:207-219 | a lookup finds the first record with the id in its chain |
| `ClauseTable.GrowthLookups` | lib/cadical-1.9.5/src/lratchecker.cpp:74-94 | after growth a lookup finds the last record with the id; so growth keeps the lookup iff the first and the last are equal |
| `ClauseTable.GrowthKeepsLookups` | lib/cadical-1.9.5/src/lratchecker.cpp:74-94 | growth keeps the lookup of an id that at most one record has |
| `ClauseTable.InsertedLookups` | lib/cadical-1.9.5/src/lratchecker.cpp:221-229 | a lookup of the inserted id finds the new record; the records of every other id are met in the old order, or reversed if the table grew |
| `ClauseTable.InsertedTotal` | lib/cadical-1.9.5/src/lratchecker.cpp:221-229 | there are never more records than chains |
| `ClauseTable.UnlinkMet` | lib/cadical-1.9.5/src/lratchecker.cpp:560-566 | unlinking the record a lookup finds uncovers the next one of its id and leaves every other id as it was |
| `ClauseTable.InsertionsSwapDuplicates` | lib/cadical-1.9.5/src/lratchecker.cpp:83-90 | three insertions into an empty table, two of them of one id, after which the older of the two is found |
| `LratChecker.Propagate` | lib/cadical-1.9.5/src/lratchecker.cpp:336-346 | tells falsified, unit and other hint clauses apart |
| `LratChecker.ClosesSound` | lib/cadical-1.9.5/src/lratchecker.cpp:313-358 | a chain of hints that propagates to a falsified clause proves the checked clause |
| `LratChecker.CheckSound` | lib/cadical-1.9.5/src/lratchecker.cpp:296-367 | a successful check of an arbitrary chain proves the clause from the table |
| `LratChecker.ClosesIff` | lib/cadical-1.9.5/src/lratchecker.cpp:313-358 | a chain is accepted iff a beginning of it, of distinct non-tautological hints, yields one unit after the other and then a conflict |
| `LratChecker.CheckIff` | lib/cadical-1.9.5/src/lratchecker.cpp:296-367 | the check succeeds iff the clause has complementary literals or the hints propagate from its negation to a conflict |
| `LratChecker.AssumeNegations` | lib/cadical-1.9.5/src/lratchecker.cpp:301-310 | assumes the negated literals unless the clause is tautological |
| `LratChecker.FindInChain` | lib/cadical-1.9.5/src/lratchecker.cpp:212-217 | first match of a chain |
| `LratChecker.Checker.constructor` | lib/cadical-1.9.5/src/lratchecker.cpp:114-133 | an empty table |
| `LratChecker.Checker.Find` | lib/cadical-1.9.5/src/lratchecker.cpp:207-219 | finds the record of the lookup; misses iff none has the id |
| `LratChecker.Checker.EnlargeClauses` | lib/cadical-1.9.5/src/lratchecker.cpp:74-94 | doubles the table and keeps its records |
| `LratChecker.Checker.Insert` | lib/cadical-1.9.5/src/lratchecker.cpp:221-229 | grows a full table and puts exactly the new record in front of its chain |
| `LratChecker.Checker.NewClause` | lib/cadical-1.9.5/src/lratchecker.cpp:30-60 | the record has the id, its hash and the literals, and is flagged iff a literal and its negation are among them |
| `LratChecker.Checker.CheckHints` | lib/cadical-1.9.5/src/lratchecker.cpp:313-358 | true iff the hints propagate from the assumed literals to a conflict |
| `LratChecker.Checker.Check` | lib/cadical-1.9.5/src/lratchecker.cpp:296-367 | true iff the clause has complementary literals or the hints propagate from its negation to a conflict; then it follows from the table |
| `LratChecker.Checker.AddOriginalClause` | lib/cadical-1.9.5/src/lratchecker.cpp:371-398 | keeps every kept clause implied by the originals; says exactly when it is fatal; afterwards a lookup of the id finds these literals with the right tautology flag, and ids are unique iff they were and the id was not in use |
| `LratChecker.Checker.RestoreClause` | lib/cadical-1.9.5/src/lratchecker.cpp:623-664 | a clause that was saved before needs no trust |
| `LratChecker.Checker.AddDerivedClause` | lib/cadical-1.9.5/src/lratchecker.cpp:400-433 | accepted iff the id is new, the clause has complementary literals or its hints propagate to a conflict, and the further test agrees; then it is implied by the originals and is what a lookup of the id finds |
| `LratChecker.RestoreThenGrow` | lib/cadical-1.9.5/src/lratchecker.cpp:371-398 | restoring an id in use and adding one more clause makes the lookup of that id fall back to the older clause |
| `LratChecker.Checker.DeleteClause` | lib/cadical-1.9.5/src/lratchecker.cpp:531-580 | removes exactly the record a lookup finds iff its literals are all given; the records of all ids are met in the old order |
| `LratChecker.Checker.WeakenMinus` | lib/cadical-1.9.5/src/lratchecker.cpp:584-621 | saves only implied clauses |
| `LratChecker.Checker.ConcludeUnsat` | lib/cadical-1.9.5/src/lratchecker.cpp:482-489 | an accepted conflict means the originals are unsatisfiable |
| `PriorityHeap.UpStep` | lib/cadical-1.9.5/src/heap.hpp:73-77 | one step up moves the only possible failure one level higher |
| `PriorityHeap.DownStep` | lib/cadical-1.9.5/src/heap.hpp:81-93 | one step down moves it one level lower |
| `PriorityHeap.RankChange` | lib/cadical-1.9.5/src/heap.hpp:176-183 | if only one rank changed, order can only fail around that element |
| `PriorityHeap.FrontIsMaximum` | lib/cadical-1.9.5/src/heap.hpp:156-159 | nothing in the heap is above the front |
| `PriorityHeap.Heap.Exchange` | lib/cadical-1.9.5/src/heap.hpp:65-69 | swaps two elements and keeps positions inverse |
| `PriorityHeap.Heap.Up` | lib/cadical-1.9.5/src/heap.hpp:73-77 | leaves order broken at most below the element |
| `PriorityHeap.Heap.Down` | lib/cadical-1.9.5/src/heap.hpp:81-93 | restores heap order |
| `PriorityHeap.Heap.Contains` | lib/cadical-1.9.5/src/heap.hpp:135-139 | the position entry is valid iff the element is in the heap |
| `PriorityHeap.Heap.PushBack` | lib/cadical-1.9.5/src/heap.hpp:143-152 | adds the element, keeping order and positions |
| `PriorityHeap.Heap.Front` | lib/cadical-1.9.5/src/heap.hpp:156-159 | a maximum of the set |
| `PriorityHeap.Heap.PopFront` | lib/cadical-1.9.5/src/heap.hpp:163-174 | removes a maximum, keeping order and positions |
| `PriorityHeap.Heap.Update` | lib/cadical-1.9.5/src/heap.hpp:178-183 | restores order after one element's rank has changed |

## Left out

- Command line, parsing and printing formats (`src/Main.cpp`, `src/Parse.cpp`): printing is appending to the returned list, and a run starts from a framework built by `SetArguments` and `AddAttack`.
- CaDiCaL's search: `Solve` is an exhaustive search that meets the contract of the incremental interface, and callers use only that contract.
- Clause ids on the extension stack: two cells whose contents do not matter.
- `SatSolver.CadicalSatSolver.AddClause`: requires literals to be non-zero, because zero ends a clause in the interface.
- `Framework.AF.AddAttack`: requires both arguments to exist, because the code indexes its lists with them unchecked.
- `LratChecker.Checker.Find`: requires a non-empty table, as the assertion in `reduce_hash` does; so `Check` and `AddDerivedClause` take an empty table only if they have no hint to look up or the clause is tautological.
- `LratChecker.Checker.AddDerivedClause`: takes the verdict of the further test `check_resolution` as a parameter, because that test can only reject more.
- `LratChecker.Checker.RestoreClause`: compares clauses as multisets where the code sorts and compares.
- The `used` flags of the checker: a set of ids that lives for one check.
- The garbage list of the checker and the collection of it: deleted records leave the model at once.
- `PriorityHeap.Heap.Update`: receives the changed order as an argument, where the code's comparison reads it from elsewhere.
- The choice of candidates (`block_candidates`, `block_impossible`), scheduling, statistics and logging.
- Translation between internal and external literals when a clause is saved (`externalize`): candidates are given with their external literals.
