# org-builder hierarchy engine, in Dafny

org-builder reads a table of employee records. Each record has an id, an optional manager id, a
cost center, a job title and a count of people below. The tool builds the reporting hierarchy
and computes, for every employee, the number of people who report to them directly or
indirectly. It then writes everyone out, from the largest count to the smallest. All of this
happens in `main` (src/main.rs:32-131). This project models that engine in five stages:

1. **Loading** (`Repair.Ingest`). The records go into a map keyed by id; a later record with
   the same id replaces an earlier one. Each record without a manager id is remembered as a
   root. That stays true even when a later record with the same id names a manager: the
   later manager id is then cleared.
2. **Repair** (`Repair.CollectDangling`, `Repair.ClearManagers`). A manager id that names
   nobody in the map is reported as a `Diagnostic`. The employee holding it becomes a root,
   and every root's manager id is cleared. Afterwards every remaining manager id names
   someone in the map (`Forest.Closed`).
3. **Linking and cycle detection** (`Linking.Walk`, `Linking.LinkReports`). From every
   employee no earlier walk has seen, the engine walks up the manager chain. It appends each
   newly seen employee to its manager's report list. If a walk comes back to an employee on
   its own chain, the engine stops with that chain. This happens exactly when the manager
   relation has a cycle. Otherwise every position lists exactly its direct reports, once each.
4. **Counting** (`Counting.CountReports` as written, `Exact.CountExact` corrected). The
   employees without reports are queued, and the queue is drained from the back. Each popped
   employee adds its count plus one to its manager's count. The manager goes to the front of
   the queue unless it is already there.
5. **Ranking** (`Ranking.Rank`). Everyone is listed, stably sorted by count ascending, then
   reversed.

Some things are parameters of the model:

- The hash map's iteration order is an explicit parameter `order`: a list of the map's ids,
  each once. No id is added after loading, so every later pass sees the same order.
- The manager relation is a `Forest.Chart`, a map from id to optional manager id.
- The abort (`panic!`) on a cycle becomes the `Err` case of a `Result` that carries the
  offending chain.
- The printed messages about missing managers become the returned list of diagnostics.

`Pipeline.Run` strings the stages together. It uses the corrected counting pass; see
Findings.

## Model

| member | source | states |
|---|---|---|
| Repair.Latest | src/main.rs:37-43 | the record kept under an id is the last input record with that id: it has that id and no later record shares it |
| Repair.LoadedSnoc | src/main.rs:42 | loading one more record stores it, with no reports, under its id and replaces whatever that id held; nothing else changes |
| Repair.UnmanagedMembers | src/main.rs:38-40 | every id collected as a root while loading is an id of the input |
| Repair.Ingest | src/main.rs:37-43 | the loaded map holds, for every input id, its last record with an empty report list, keyed by its own id; the roots are the ids of the records without manager id, in input order, all present in the map |
| Repair.CollectDangling | src/main.rs:47-56 | the diagnostics name, once each, exactly the people whose manager id names nobody in the map, each with that manager id; their ids are appended to the roots in report order |
| Repair.ClearManagers | src/main.rs:59-61 | exactly the roots lose their manager id; the ids, the reports and all other fields are unchanged; once every dangling reference is a root, every manager id left names someone in the map |
| Pipeline.RepairedPeople | src/main.rs:37-61 | after loading and repair, each id holds its last record with the repaired manager: none if any record of the id lacked one or if it named nobody, otherwise the last record's |
| Pipeline.RepairStage | src/main.rs:37-61 | the repaired map holds every input id's last record with the repaired manager and no reports; its manager relation is closed; the diagnostics describe exactly the dangling references |
| Linking.AppendedReports | src/main.rs:81-84 | appending the employees of a sequence to their managers adds to each report list exactly the employees of the sequence that report to it, in sequence order |
| Linking.ManagerAfterAppending | src/main.rs:81-84 | appending reports never changes a person's manager id, and in a closed map the manager looked up at a step is always present |
| Linking.Walk | src/main.rs:72-96 | one walk marks seen and appends to their managers exactly the employees of its chain; the chain starts at the start employee, climbs the manager relation, repeats nobody and avoids the earlier walks; it ends at a root, at an employee an earlier walk saw, or at one on its own chain |
| Linking.WalkOutcome | src/main.rs:76-95 | a walk that closes on its own chain proves a cycle; any other walk leaves every employee it saw with a way up to a root |
| Forest.ChainBackEdgeIsCycle | src/main.rs:89-92 | a chain whose last employee's manager is on the chain is a cycle of the manager relation |
| Forest.CycleExcludesAcyclic | src/main.rs:89-92 | a manager relation with a cycle is not a forest |
| Forest.ChainReachesRoot | src/main.rs:85-87 | if the last employee of a chain reaches a root, so does every employee of the chain |
| Linking.AllLinked | src/main.rs:64-98 | appending every employee once to empty report lists lists under each position exactly its direct reports, once each, and changes no person |
| Linking.LinkReports | src/main.rs:64-98 | the pass fails exactly when the manager relation has a cycle, and it then returns a chain closing on itself; it succeeds exactly when the relation is a forest, and then every position lists exactly its direct reports and no person changes |
| Counting.LeavesOfMembers | src/main.rs:101-103 | the initial queue holds exactly the positions without reports, each once |
| Counting.ResetLeaves | src/main.rs:105-108 | each queued position's count becomes its number of reports; every other position is unchanged |
| Counting.ResetIsZeroLeaves | src/main.rs:101-108 | resetting the queued positions zeroes exactly the counts of the positions without reports and changes no manager |
| Counting.Requeue | src/main.rs:114-116 | after requeueing, the queue holds its former ids and the manager, and nothing else |
| Counting.RequeuePop | src/main.rs:110-116 | a pop followed by a requeue keeps a queue free of duplicates |
| Forest.PopLowersHeadroom | src/main.rs:110-116 | each pop lowers a measure of the queue, whether or not the manager is then queued, so the loop ends on every forest |
| Counting.DrainPop | src/main.rs:110-118 | one pop: a root is dropped; otherwise the manager, which is present, gets the popped count plus one and is queued at the front unless already queued |
| Counting.DrainQueue | src/main.rs:110-118 | the loop's result is the specification Drain of the starting counts and queue |
| Counting.DrainRaises | src/main.rs:110-118 | draining changes nothing but counts and never lowers one |
| Forest.NoUnfinished | src/main.rs:110-118 | in a forest, if every unfinished employee has an unfinished direct report, everyone is finished |
| Counting.DrainTally | src/main.rs:110-118 | from any state between pops of the as-written loop, the final counts are each at least the sum, over direct reports, of their counts plus one |
| Forest.DescSize | src/main.rs:112 | the number of people below a manager is the sum, over its direct reports, of one plus the number below each |
| Counting.CountsCoverDescendants | src/main.rs:110-118 | counts that cover their reports' counts plus one are each at least the number of people below |
| Counting.AsWrittenCovers | src/main.rs:100-118 | starting from the zeroed leaves, the as-written pass changes nothing but counts and leaves every count at least the number of people below |
| Counting.CountReports | src/main.rs:100-118 | the as-written pass computes Drain of the reset counts and the queued leaves; nothing but counts changes, and each count is at least the number of people below |
| Counting.ExampleLeaves | src/main.rs:101-103 | on the six-person example in iteration order 6, 3, 1, 2, 4, 5 the initial queue is 6, 3 |
| Counting.ExampleZeroLeaves | src/main.rs:105-108 | on the example, resetting the leaves changes nothing |
| Counting.OvercountExample | src/main.rs:110-118 | on the example the as-written loop gives the root the count 7, though at most 5 people are below it |
| Exact.ResetAll | src/main.rs:105-108 | the corrected pass starts from every count zero |
| Exact.SettleQueue | src/main.rs:110-118 | the corrected loop computes Settle of its starting counts and queue |
| Exact.SettleRaises | src/main.rs:110-118 | the corrected loop changes nothing but counts and never lowers one |
| Exact.SettleUp | src/main.rs:110-116 | one corrected pop: the manager gets the popped count plus one and is queued only once all of its reports are done; the queue measure drops |
| Exact.ProgressStart | src/main.rs:101-108 | at the start the queue holds, once each, exactly the positions whose reports are all done, and every count is the sum of what done reports passed up |
| Exact.QueuedUp | src/main.rs:114-116 | after a corrected pop the queue still holds, once each, exactly the unfinished positions whose reports are all done |
| Exact.TalliedUp | src/main.rs:111-112 | a popped position whose reports are all done passes up exactly one plus its number of people below |
| Exact.FinishedSize | src/main.rs:112 | once all of a position's reports are done, what they passed up is its number of people below |
| Exact.SettleExact | src/main.rs:110-118 | from any queued, tallied state the corrected loop leaves every count equal to the number of people below |
| Exact.ExactCounts | src/main.rs:100-118 | from zero counts and the positions without reports, the corrected pass changes nothing but counts and makes every count the number of people below |
| Exact.CountExact | src/main.rs:100-118 | the corrected counting pass: nothing but counts changes, and every count equals the number of people below the position |
| Ranking.InsertPerm | src/main.rs:122 | inserting a person into the sorted prefix adds that person and nothing else |
| Ranking.InsertTier | src/main.rs:122 | an insertion puts the person at the end of its own count's group and leaves every other group alone |
| Ranking.SortFacts | src/main.rs:122 | the sort ascends by count, is a permutation, and keeps the input order among equal counts |
| Ranking.SortUnique | src/main.rs:122 | two lists that ascend by count and keep the same order among equal counts are equal, so any stable sort by count agrees with this one |
| Ranking.SortByCount | src/main.rs:122 | sort_by_key on the count: the result ascends, is a permutation of the input, and is stable |
| Ranking.ReversedFacts | src/main.rs:123 | reversal keeps the length and the elements and moves element i to the mirrored index |
| Ranking.ReversedTier | src/main.rs:123 | reversing a list reverses the order within each group of equal counts |
| Ranking.ReversedDescends | src/main.rs:122-123 | the reverse of an ascending list descends |
| Ranking.Reverse | src/main.rs:123 | reverse: element i of the result is element n-1-i of the input |
| Ranking.ListedSize | src/main.rs:121 | listing the map's values in iteration order lists as many people as the map holds |
| Ranking.RankedList | src/main.rs:121-123 | the ranking of a list keeps its elements, descends by count, and reverses the list order among equal counts |
| Ranking.Rank | src/main.rs:121-129 | everyone appears exactly once, from the largest count to the smallest; equal counts come in the reverse of the iteration order |
| Pipeline.ExactlyListed | src/main.rs:121-129 | listing the exactly counted linked map gives each id's last record with its repaired manager and its number of people below |
| Pipeline.Emitted | src/main.rs:121-129 | the output holds each input id once, as its final record, from the largest count to the smallest; equal counts come in the reverse of the iteration order |
| Pipeline.CountAndRank | src/main.rs:100-129 | on a linked forest, counting and ranking emit the people with exact counts, ranked |
| Pipeline.Run | src/main.rs:32-129 | the diagnostics name exactly the dangling manager references; the run fails exactly when the repaired relation has a cycle, and it then returns a chain closing on itself; otherwise it emits the final records ranked |

## Left out

- Reading `people.csv` and writing `sorted.csv` (src/main.rs:36, 130, 133-153) are left out, and so are the serde column aliases and defaults (src/main.rs:4-23). The input is a sequence of `Person` values, and the ranked sequence is returned instead of written. A failed load (the `expect` at line 36) is not modelled.
- The printed messages (src/main.rs:51-52, 90-91, 125-127) are left out. Missing managers come back as `Diagnostic` values, and a cycle comes back as the `Err` chain. The report listing printed at line 126 is not produced.
- The `unwrap` calls at src/main.rs:60, 72, 82, 106, 111 and 112 are not modelled as panics. Each method's preconditions guarantee that the looked-up id is present, and the callers prove those preconditions.
- Hash map iteration order is not modelled. It is the parameter `order`, and the same order is assumed for every pass, since no id is added after loading.
- Counting.Bump: counts are unbounded naturals. The `u64` addition at src/main.rs:112 would overflow past 2^64 - 1 (a panic in debug builds, wrap-around in release builds); this is not modelled. Ids are naturals as well.
- Counting.CountReports: states only that each count is at least the number of people below. The as-written loop can exceed it (see Findings), so no exact value holds. When the input supplies non-zero counts, the as-written pass keeps them for positions with reports; the lower bound holds whatever counts it starts from.
- Ranking.Rank: sorts `Person` values rather than whole `Position` values. The report lists only feed the printout at line 126, and mapping each position to its person afterwards (line 129) gives the same list. `sort_by_key` is a stable merge sort; the model uses a stable insertion sort, and `Ranking.SortUnique` shows that every stable sort by count gives the same result.
- Pipeline.Run: counts with the corrected pass `Exact.CountExact`, not the as-written one, so its output has exact counts; the as-written pass is modelled by `Counting.CountReports`.

## Findings

| source | as written | input that shows it | evidently intended | confidence | as-written member | corrected member |
|---|---|---|---|---|---|---|
| src/main.rs:110-118 | A manager is put back on the queue as soon as one of its reports passes a count up. It can then pass a partial count up to its own manager, and pass it up again after its other reports finish, so the counts above it are added twice. | Six people: 1 has no manager, 2 reports to 1, 3 and 4 report to 2, 5 reports to 4, 6 reports to 5. With iteration order 6, 3, 1, 2, 4, 5 the queue starts as 6, 3. Person 2 passes up 1 + 1 and later 4 + 1, so person 1 ends with 7, but only 5 people are below it. | each `recursive_reports` equals the number of people directly or indirectly below that employee | not executed | Counting.OvercountExample | Exact.CountExact |
