# Hospital/student stable matching: engine and verifier

This project models, in Dafny, the two in-memory components of a small stable-matching
system over integer IDs in `[0, n)`. Both take `n` and two lists of `n` preference lists:
hospitals rank students, and students rank hospitals. Each list is most-preferred first.

- **The engine** (`gale_shapley`) runs hospital-proposing Gale–Shapley. It builds a
  student-side rank table. Then it loops while the FIFO queue of unmatched hospitals is not
  empty. The head of the queue proposes to the next student on its list and its pointer
  advances. A free student accepts. A matched student keeps whichever of the two hospitals
  she ranks higher, and the loser goes to the back of the queue. At the end the
  student → hospital array becomes a hospital → student dictionary.
  - It is modelled as the class `Engine.Engine`. The arrays `hospitalNext` and
    `studentMatch` and the rank table `studentRank` are updated in place. The queue
    `unmatched`, the `proposals` counter and the proposal `trace` are fields.
  - `Step` is one loop iteration, `Run` is the loop, and `Matching` is the final
    conversion. `Engine.GaleShapley` is the whole function.
- **The verifier** works on a candidate matching read as two dictionaries,
  `hospital_to_student` and `student_to_hospital`.
  - `check_validity` collects every structural violation. Here it is `Verifier.CheckValidity`,
    specified by the function `ValidityErrors`.
  - `check_stability` lists every blocking pair. Here it is `Verifier.CheckStability`,
    specified by the function `BlockingPairs`.
  - `Verifier.VerifyMatching` is the decision logic of `verify_matching`.
  - `Verifier.ParseMatching` is the loop of `parse_matching` that turns lines into
    dictionaries. It takes lines already split into integers.

The main results:

- **The engine** (`Engine.GaleShapley`): for complete strict preference lists the result is
  a perfect matching with no blocking pair. It takes between `n` and `n * n` proposals, and
  the exhausted-pointer guard is never taken.
  - The loop keeps `Engine.EngineInvariant`: every hospital is either queued or held by
    exactly one student, never both.
  - A student's partner changes only to a hospital she ranks strictly higher.
  - `proposals` equals the sum of the pointers.
- **The verifier:**
  - validity holds exactly when the two dictionaries are mutually inverse bijections of
    `[0, n)`, and every violation present is reported;
  - a pair is reported exactly when it blocks, in lexicographic order;
  - stability is judged only for a valid matching.
- **End to end** (`Pipeline.MatchThenVerify`): the matcher's matching lines, read back by
  the verifier's parser, are judged valid and stable.

Modules:

| file | module | contents |
|---|---|---|
| counting.dfy | `Counting` | the ID range, duplicate-free sequences, injective maps, and the pigeonhole facts |
| preferences.dfy | `Preferences` | complete preference lists and `RankOf`, a participant's position in a list |
| rank_index.dfy | `RankIndex` | the nested loops that fill a rank table |
| matching.dfy | `Matching` | perfect matchings, mutual inverses, blocking pairs and stability |
| engine.dfy | `Engine` | the proposal engine |
| verifier.dfy | `Verifier` | the validity and stability checks, the verdict and the matching reader |
| pipeline.dfy | `Pipeline` | the engine's output fed back through the verifier |

Where the code and the system's design description disagree, the model follows the code:

- The description says all IDs are checked to lie in `[0, n)`. `check_validity` range-checks
  only the items of `hospital_to_student` (src/verifier.py:62-66), and so does
  `Verifier.RangeErrors`.
- The description says malformed preference lists are rejected when loaded. No code of the
  core checks this, so the model requires complete permutations of its callers (see
  "Left out").

## Model

| member | source | states |
|---|---|---|
| Preferences.RankOfPerm | src/matcher.py:29-32 | in a complete preference list an ID's rank is its index, every ID has a rank below n at which it is listed, and different IDs have different ranks |
| RankIndex.BuildRankTable | src/matcher.py:29-32 | the n × n table filled row by row has `rank[x, prefs[x][i]] == i`, so each entry is the ID's position in the list (lower means more preferred) |
| Engine.SumIncrement | src/matcher.py:47-48 | advancing one pointer by one adds exactly one to the sum of the pointers, which is the proposal count |
| Engine.SumBounds | src/matcher.py:40-48 | pointers each between lo and hi have a sum between n·lo and n·hi; with hi = n this bounds the proposals by n·n |
| Engine.TraceExtend | src/matcher.py:59 | appending a proposal line whose student holds a hospital ranked at least as high as the proposer keeps every trace line in range and truthful |
| Engine.InitialInvariant | src/matcher.py:35-38 | pointers at 0, no student matched and every hospital queued in ID order satisfy the engine invariant, with pointer sum 0 |
| Engine.LatestHeldOnce | src/matcher.py:51-57 | since each student holds the hospital whose latest proposal went to her, no hospital is held by two students |
| Engine.ProposesQueueIsFree | src/matcher.py:51-57 | after a proposal the queue again lists, once each, exactly the hospitals no student holds |
| Engine.ProposesHonoured | src/matcher.py:51-57 | after a proposal every student a hospital has proposed to is matched, to a hospital she ranks at least as high as that proposer |
| Engine.ProposesHeldByLatest | src/matcher.py:46-55 | after a proposal every held hospital is held by the student its latest proposal went to |
| Engine.NotHeldCanPropose | src/matcher.py:43-44 | a hospital that no student holds has a student left to propose to (pigeonhole), so the exhausted-pointer guard cannot fire for it |
| Engine.ProposesCanPropose | src/matcher.py:43-44 | after a proposal every queued hospital still has a student left to propose to |
| Engine.ProposesPreserves | src/matcher.py:40-57 | one proposal preserves the whole engine invariant: queue exactly the free hospitals, each held hospital held once, proposals honoured, queued hospitals not exhausted |
| Engine.ProposesAdvances | src/matcher.py:46-57 | a proposal moves only the proposer's pointer, by exactly one, adding one to the proposal count; a matched student stays matched, and her partner changes only to a hospital she ranks strictly higher |
| Engine.FinalNotBlocking | src/matcher.py:40-57 | with the queue empty, a student whom a hospital prefers to its own partner holds a hospital she ranks at least as high as that one |
| Engine.FinalAllHeld | src/matcher.py:40 | with the queue empty every hospital is held by some student |
| Engine.FinalPerfect | src/matcher.py:62-65 | the hospital → student dictionary read off a student array in which every hospital occurs is a perfect matching of [0, n) |
| Engine.FinalStable | src/matcher.py:40-57 | with the queue empty the matching has no blocking pair |
| Engine.FinalCount | src/matcher.py:40-48 | with the queue empty every hospital has proposed at least once, so at least n proposals were made |
| Engine.Engine.constructor | src/matcher.py:29-38 | the rank table inverts every student's list; all pointers are 0, every student is free, all hospitals are queued in ID order, no proposals; the engine invariant holds |
| Engine.Engine.Step | src/matcher.py:41-57 | one iteration: the queue head is not exhausted, the new pointers, matches and queue are exactly one `Proposes` transition (accept if free, trade up if strictly preferred, else requeue), the invariant is kept, proposals grow by one and the trace gains one line naming the student's holder |
| Engine.Engine.Run | src/matcher.py:40-57 | the loop ends with an empty queue and the invariant intact after at most n·n proposals |
| Engine.Engine.Matching | src/matcher.py:62-65 | the dictionary has a key exactly for each hospital some student holds, mapped to that student |
| Engine.GaleShapley | src/matcher.py:20-67 | n = 0 gives the empty matching, 0 proposals and no trace; otherwise the result is a perfect matching of [0, n) with no blocking pair, after between n and n·n proposals, one truthful trace line per proposal |
| Matching.PerfectIsMutualInverse | src/matcher.py:78-79 | a perfect matching and its inverse are mutually inverse bijections of [0, n), so indexing the matching at every hospital is safe |
| Matching.MutualInverseIsPerfect | src/verifier.py:42-70 | mutually inverse dictionaries form a perfect matching, and each is the other's inverse |
| Counting.InjectiveValuesCard | src/verifier.py:55-61 | a dictionary has as many distinct values as entries exactly when no two keys share a value |
| Verifier.MissingIds | src/verifier.py:48-53 | every error the scan over [0, n) produces is an `Unmatched` error of the scanned side naming an id in [0, n) |
| Verifier.MissingIdsMembers | src/verifier.py:48-53 | an `Unmatched(side, id)` error is produced exactly for each id in [0, n) that is not a key, in strictly increasing id order |
| Verifier.RangeErrorsMembers | src/verifier.py:62-66 | a hospital id is reported out of range exactly when it is a key outside [0, n); a student id exactly when some hospital maps to it and it lies outside [0, n) |
| Verifier.HospitalRangeErrors | src/verifier.py:63-64 | the hospital half: a hospital id is reported exactly when it is among the visited keys and outside [0, n) |
| Verifier.StudentRangeErrors | src/verifier.py:65-66 | the student half: a student id is reported exactly when it is outside [0, n) and some visited hospital maps to it |
| Verifier.Inconsistencies | src/verifier.py:68-70 | an `Inconsistent(h, s, h')` error is produced exactly when h → s, s is a student key, and s → h' with h' ≠ h |
| Verifier.AppendMissing | src/verifier.py:48-53 | the scan over [0, n) appends exactly the missing-ID errors to what was already collected |
| Verifier.AppendRangeErrors | src/verifier.py:62-66 | the pass over the items appends exactly the range errors, in item order |
| Verifier.AppendInconsistencies | src/verifier.py:68-70 | the pass over the items appends exactly the inconsistency errors, in item order |
| Verifier.CheckValidity | src/verifier.py:39-72 | the collected errors are all checks' findings in check order, each check running whatever earlier ones found; valid exactly when the list is empty |
| Verifier.MissingIdsEmpty | src/verifier.py:48-53 | no missing-ID error exactly when every id in [0, n) is a key |
| Verifier.RangeErrorsEmpty | src/verifier.py:62-66 | no range error exactly when every item has both IDs in [0, n) |
| Verifier.InconsistenciesEmpty | src/verifier.py:68-70 | no inconsistency error exactly when every h → s with s a student key maps back to h |
| Verifier.NoErrorsIffPasses | src/verifier.py:39-72 | the error list is empty exactly when every individual check's condition holds |
| Verifier.MutualInverseMeansPasses | src/verifier.py:42-70 | mutually inverse bijections of [0, n) pass every check |
| Verifier.PassesMeansMutualInverse | src/verifier.py:42-70 | dictionaries passing every check are mutually inverse bijections of [0, n) |
| Verifier.ValidityIff | src/verifier.py:42-72 | validity holds exactly when the two dictionaries are mutually inverse bijections of [0, n) |
| Verifier.ValidityErrorsComplete | src/verifier.py:42-70 | every violation present is reported regardless of others: each missing ID, a repeated partner on either side, each out-of-range ID, each inconsistency |
| Verifier.RowPairs | src/verifier.py:89-104 | the pairs reported for one hospital all name that hospital (1-based) and a 1-based student below the bound |
| Verifier.BlockingPairs | src/verifier.py:88-104 | every reported pair names a hospital (1-based) below the bound |
| Verifier.RowPairsMembers | src/verifier.py:89-104 | (h+1, s+1) is reported for hospital h exactly when s is below the bound and (h, s) is a blocking pair |
| Verifier.BlockingPairsMembers | src/verifier.py:88-104 | (h+1, s+1) is reported exactly when h is below the bound and (h, s) is a blocking pair: not matched to each other, both have partners, each ranks the other strictly above its partner |
| Verifier.RowPairsSorted | src/verifier.py:89-104 | one hospital's pairs come in strictly increasing student order |
| Verifier.BlockingPairsSorted | src/verifier.py:88-104 | all pairs come in strictly increasing lexicographic (h, s) order, hence without duplicates |
| Verifier.ScanStep | src/verifier.py:99-104 | scanning one more student of a hospital appends (h + 1, s + 1) exactly when (h, s) blocks, and nothing otherwise |
| Verifier.CheckStability | src/verifier.py:75-106 | the scan over both rank tables returns exactly the blocking pairs in (h, s) order, and reports stable exactly when there are none |
| Verifier.NoBlockingPairsIffStable | src/verifier.py:103-106 | the pair list is empty exactly when no (h, s) blocks the matching |
| Verifier.InvalidReport | src/verifier.py:121-123 | one report line per violation, in the order found |
| Verifier.BlockingReport | src/verifier.py:133-134 | one report line per blocking pair, in the order found |
| Verifier.BlockingLines | src/verifier.py:133-134 | the loop builds exactly the blocking-pair report lines |
| Verifier.VerifyMatching | src/verifier.py:112-139 | n = 0 is valid and stable with the single empty-instance message; otherwise valid iff mutually inverse bijections, stable iff valid and no blocking pair; an invalid matching is reported with all its violations and never judged stable; an unstable one lists every blocking pair |
| Verifier.ValidityVerdict | src/verifier.py:119-123 | valid exactly for mutually inverse bijections; an invalid matching's messages are its violations |
| Verifier.StabilityVerdict | src/verifier.py:125-139 | for a valid matching: stable exactly when no blocking pair, with VALID then STABLE, or VALID, UNSTABLE, a header and one line per blocking pair |
| Verifier.MutualInverseInRange | src/verifier.py:99-101 | for a valid matching every partner the stability scan looks up in a rank table lies in [0, n) |
| Verifier.Pairs | src/verifier.py:27-32 | the pairs read are at most as many as the lines |
| Verifier.PairsMembers | src/verifier.py:27-32 | a pair is read exactly from each line holding exactly two numbers, made 0-based; other lines are skipped |
| Verifier.PairsNext | src/verifier.py:28-32 | one more line adds its 0-based pair at the end when it holds two numbers and nothing otherwise |
| Verifier.Assign | src/verifier.py:33-34 | after the assignments the last pair's key holds the last pair's value |
| Verifier.AssignKeys | src/verifier.py:33-34 | the dictionary's keys are exactly the pairs' first components |
| Verifier.AssignLastWins | src/verifier.py:33-34 | a key holds the value of its last pair: a later line for the same ID overwrites the earlier one |
| Verifier.AssignNext | src/verifier.py:33-34 | one more pair updates the hospital dictionary at its hospital and the student dictionary at its student |
| Verifier.Record | src/verifier.py:33-34 | stores the pair in both dictionaries and keeps the key order complete and repeat-free |
| Verifier.FirstKeysOrder | src/verifier.py:33 | `FirstKeys`, the hospitals in the order they are first stored, lists every key of the assigned dictionary exactly once; this is the order its items are visited in |
| Verifier.FirstKeysNext | src/verifier.py:33 | one more pair adds its hospital at the end of that order exactly when the hospital is not yet a key; a repeated one keeps its first place |
| Verifier.ReadLine | src/verifier.py:28-34 | one iteration keeps both dictionaries equal to the assignments of the lines read so far, and the key order equal to their hospitals in order of first storage |
| Verifier.ParseMatching | src/verifier.py:27-34 | the hospital dictionary is the assignment of the lines' pairs; the student dictionary is the assignment of the same pairs with their sides swapped (`Swap`); the key order is `FirstKeys` of the pairs, the order in which the hospitals were first stored |
| Pipeline.MatchingLines | src/matcher.py:78-79 | the output has one line of two numbers per hospital |
| Pipeline.PairsOfMatchingLines | src/matcher.py:78-79 | reading the output's lines back gives the matching's pairs in hospital order, 0-based again |
| Pipeline.AssignMatchingPairs | src/verifier.py:33 | assigning a perfect matching's pairs rebuilds the matching |
| Pipeline.AssignSwappedPairs | src/verifier.py:34 | assigning the swapped pairs of an injective matching gives a dictionary that undoes it in both directions |
| Pipeline.ParseMatchingLines | src/verifier.py:27-34 | parsing the output gives exactly the engine's matching and its inverse |
| Pipeline.MatchThenVerify | src/verifier.py:109-139 | the engine's matching, written as its result lines and read back, is judged valid and stable, with the passing report |

## Left out

- Reading files, splitting lines and `int()` conversion in both `parse_input` functions and
  in `parse_matching` are not part of this model. `ParseMatching` takes the lines already
  split into integers.
- Both `main` functions (argument handling, printing, exit codes) are not part of this
  model. `Pipeline.MatchingLines` stands for the matcher's output loop.
- `verify_matching` reads its two files itself. `Verifier.VerifyMatching` receives the parsed
  preference lists and dictionaries as parameters.
- The proposal `print` in the loop is modelled as the `trace` of `Proposal(hospital, student,
  holder)` values, one appended per proposal.
- Message wording is not modelled. Violations and report lines are the datatypes `Violation`
  and `Message`, with the IDs they name.
- Python's dictionary iteration order is the explicit key sequence `order`, in
  first-insertion order (`FirstKeys`). It affects only the order of the range and
  inconsistency errors.
- The proposal lines the matcher also prints are not part of `Pipeline.MatchingLines`; only
  the result lines of src/matcher.py:78-79 are fed back to the parser.
- Engine.GaleShapley: requires every preference list to be a permutation of [0, n). The code
  never checks this; with other input it may index out of range or end with hospitals unmatched.
- Engine.Engine.Step: the exhausted-pointer branch (`continue` when `hospital_next[h] >= n`)
  is proved unreachable under the invariant, so no behaviour is modelled for it.
- Verifier.CheckStability: requires every in-range key's partner to lie in [0, n). The code
  indexes its rank tables with those partners, where Python would wrap a negative index. It
  is reached only after validity has passed, which guarantees the range.
- Verifier.ValidityVerdict: states no messages for a valid matching, since
  `VerifyMatching` discards them.
- The engine's result being hospital-optimal, and the final matching not depending on queue
  order, are not proved.
- Integer widths do not matter here: Python integers are unbounded, and so are Dafny's.
