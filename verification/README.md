# A key-value store with a background merge, and a timer driver

This project models two programs of the repository and proves what they do.

**hw1** is a key-value store for a small board. `put_pair` fills a memory table of three rows; a full memory table is
flushed to a text file (`N.sst`) that joins a doubly linked list kept in a pool of twenty slots in shared memory.
`get_pair` looks through the memory table and then through the files, newest first, reading each file backwards one
character at a time. `merge` replaces the two oldest files by one sorted file with one row for each key. A second
process merges in the background whenever main counts three files; the two processes share one semaphore set and a
small message segment.

**hw2** is a kernel timer driver that counts on a four-digit display, LEDs, a dot matrix and an LCD.

## How it is organised

| file | what it holds |
|---|---|
| `CText.dfy` | the C library text routines in use: `%d` and `%s` in both directions, `atoi`, `strtok`, `fgets` |
| `Rows.dfy` | rows, their text form, the row-file round trip, and what a list of rows means |
| `TableSearch.dfy` | the backward scan of one table file |
| `Compaction.dfy`, `MergeRows.dfy` | the stable sort, the in-place removal of duplicates, the renumbering, and what merging rows comes to |
| `StoragePool.dfy` | the pooled doubly linked list |
| `StoreModel.dfy`, `StoreRuns.dfy` | the store as a value, its invariant, and whole runs against a plain map |
| `Ledger.dfy` | what every call returns, row numbers and file names included, told from the calls alone |
| `Storage.dfy` | the store as code: buffers, list and files updated in place, each method proved to do what the value-level operation does |
| `Handshake.dfy` | main and the merge process as atomic steps on the two semaphores, `SEM_UNDO` included, and the segment |
| `Background.dfy` | the two processes on one store: what holds in every interleaving, and when the store is still a map |
| `Progress.dfy` | when the two processes can still come to their ends, how long a message takes, one merge for each request |
| `Schedules.dfy` | concrete runs that show what can go wrong |
| `Processes.dfy` | the two processes as code that updates the segment, the semaphores and the store in place |
| `Timer.dfy` | the timer driver: configuration, closed form of the ticks, run length, and the handlers as code |

The concrete layers are connected to the abstract ones by equations on states: a method of `Storage.Store` ensures that
the value it represents becomes the value-level result, and `Storage.RunFromEmpty` and `Processes.RunSchedule` carry the
map theorems down to files, pool slots and buffers. `Handshake` alone lets counts and merges turn out as they like, so
what it says of all runs holds of the program, and runs that show something to be possible are given on `Background`,
where the store decides.

## What was found

- **The store is a map only while the pool has a free slot.** With twenty tables on the list `insert_node` finds no slot
  and returns silently, so a flush loses the rows it wrote. `FlushConserves` says exactly when a flush keeps all rows,
  and `FullListLosesAPut` runs into the loss from an empty directory.
- **A missing key in a store without tables is not reported.** `get_pair` then returns a struct it never wrote
  (hw1/store.c:126,143,151). `LookupIsMap` says NOT_FOUND is returned exactly when there is a table. Over whole runs,
  `StoreRefinesMap` and `Storage.RunFromEmpty` predict each such answer from the calls, and say that the answers are
  a plain map's if and only if no key that was never put is asked for before the first table (`TableBeforeMiss`).
- **A merge renumbers.** `get_pair` answers the number that the latest put of the key returned until a merge takes that row; from
  then on it answers the key's place in the oldest table (`NumberAnswered`), and the calls alone tell which
  (`Ledger.OutcomesExpected`, `Storage.RunFromEmpty`).
- **A merge fits its 1000-row buffer as long as at most 997 distinct keys are in use** (`MergeFits`): only the first table
  of the list can hold more than three rows. The bound is exact (`FitsIff`): `BoundIsTight` reaches a merge of 998 + 3 rows.
- **Both semaphore ids name the same set** (hw1/main.c:46-47, hw1/shmem.c:78), so `P`/`V` and
  `write_shm`/`read_shm` share semaphore 0. One token still circulates, which gives mutual exclusion in every
  interleaving (`MutualExclusion`), and at most 44 steps pass between two messages (`AnswersInTime`).
- **The merge process can take back the token that `V(merge_sem)` released for main's `P`**; it then merges again on the
  old message. A request finds three tables and each merge takes one away, so at most two merges come of a request
  (`TwoMergesPerRequest`, reached by `TwoMergesForOneRequest`). A take with fewer than two tables left is a starved one:
  it leads to a merge that removes the last table and follows a null pointer, whatever main does (`StarvedTakeIff`,
  `StarvedTakeCrashes`, `NinePutsCanCrash`). Without a starved take, and with a slot for each flush, every interleaving
  behaves like the map (`BackgroundRefinesMap`, `ServedLikeAMap`, `Processes.RunSchedule`).
- **One merge for each request is not guaranteed** either. There is exactly one merge for each request if and only if no
  token of V was taken back (`OneMergeEachIff`). There is at least one if and only if main's `P` never takes back the
  token that main itself put out (`EachMergedIff`); `RequestWithoutMerge` is a run in which it does.
- **The number of tables stays small under the same condition.** There never are more than two tables while main waits, works
  on a message or is on its way out, if and only if main's `P` never takes back its own token (`TwoWhenSettledIff`); then
  there are never more than three at all and every flush finds a slot (`NoOwnTakeKeepsFew`, `MapWithoutOwnTakes`).
  Otherwise a fourth table can appear, `storage_cnt() == 3` need never hold again, and tables pile up to a full list
  (`TablesPileUp`). A flush then loses its rows without a word (`WorkConservesIff`, `PutsVanish`).
- **The program can hang.** `EndsIff` gives the exact condition: both processes can still end if and only if no fatal move
  was made. There are three: a starved take; the merge process leaving before main has passed its last `p2`, because
  `SEM_UNDO` (hw1/shmem.c:6) then takes back the unit that `p2` waits for (`LastMessageCanHang`, a plain BACK is enough);
  and main leaving, its token undone, before the merge process has taken it (`MainCanTakeTokenAlong`). If tokens are
  always handed over, only the second can happen (`LastMessageOnly`).
- **The timer's first tick needs a digit to start from.** With all four digits 0 the LED shift count is -1; with a first
  digit of 9 the first tick lights no LED. `StartValueIff` and `LedsOfRun` give the exact conditions on the start value. The comment at
  hw2/module/new_timer_driver.c:303 says the rotation index runs through 1-9; the code runs it through 1-8, and so
  does the model. The usage text of hw2/app/fpga_test_timer.c:25 announces start values up to 8000, which the
  application does not check; five-digit values lose their first digit (`TimerDriver.SetOption`).

## Assumptions

- `qsort` is taken to be a stable sort; section 7.22.5.2 of ISO/IEC 9899:2011 does not promise that. The insertion sort
  in its place is proved stable, and `StableSortIsUnique` shows that any stable sort gives the same result.
- Keys are 0 to 9999 and values are 1 to 5 characters that are neither white space nor NUL. That the key pad keeps to
  this is not shown. Row numbers and the file counter stay within a 32-bit `int`; runs are shorter than that.
- The store starts in an empty directory and is the only one to use its files.
- Between two steps a process may stand still for any time, also right before a `semop`; so the model leaves open which
  process takes a free token. In the runs of `Schedules` the one that is overtaken has not called its `semop` yet.
- What main does to the store for one message is one step, and so is a background `merge`. `MutualExclusion` shows that
  the other process touches nothing shared meanwhile.

## Model

| member | source | states |
|---|---|---|
| `CText.ScanIntPrinted` | hw1/store.c:172 | `%d` reads back every number `%d` printed, negative ones too, behind any white space, and stops right behind it |
| `CText.ScanWordPrinted` | hw1/store.c:172 | `%s` reads back a word up to the white space behind it |
| `CText.AtoiPrinted` | hw1/store.c:289-293 | `atoi` of a printed number is that number |
| `CText.FgetsLine` | hw1/store.c:282 | `fgets` reads one whole line when it fits the buffer |
| `CText.TokenIs` | hw1/store.c:286-298 | `strtok` cuts the next word at the next blank |
| `Rows.LineShape` | hw1/store.c:115 | a row is written as one line without line ends or NULs inside, short enough for the search buffer |
| `Rows.ScanRowPrinted` | hw1/store.c:172 | one `fscanf` call reads back exactly one printed row |
| `Rows.RoundTrip` | hw1/store.c:172-176 | the reading loop of merge returns exactly the rows that were written to a file, in order |
| `Rows.FoldIsLast` | hw1/store.c:122-152 | replaying rows oldest first into a map gives each key the value of its last row |
| `TableSearch.ParseRendered` | hw1/store.c:286-303 | the fields cut from a written line are the row's, the value without its line end |
| `TableSearch.LineAt` | hw1/store.c:113-116 | where each row's line lies in a file, and that only its last character ends a line |
| `TableSearch.LineReached` | hw1/store.c:260-280 | each round of the backward scan stops at the start of a whole line: the next older one, or the first one again |
| `TableSearch.LineRead` | hw1/store.c:282-311 | reading that line gives its row complete; either it has the key and no later row does, or one row less is left |
| `TableSearch.SearchStorage` | hw1/store.c:245-315 | the scan ends on any file, and on a table file returns exactly the last row with the key, or NOT_FOUND |
| `Compaction.SortByKey` | hw1/store.c:347-350 | the array becomes sorted by key with rows of equal keys in their old order, nothing beyond the count changes |
| `Compaction.StableSortIsUnique` | hw1/store.c:347-350 | two sortings of the same rows that both keep the order of equal keys are equal |
| `Compaction.StableKeepsRows` | hw1/store.c:347-350 | keeping each key's rows in order means no row is lost, invented or repeated |
| `Compaction.StableKeepsLast` | hw1/store.c:347-350 | such a reordering leaves the last row of every key the same |
| `Compaction.RemoveDuplicates` | hw1/store.c:328-342 | reading and writing in one array yields what is left when each row followed by an equal key is dropped |
| `Compaction.DedupKeepsLast` | hw1/store.c:328-342 | dropping those rows changes the last row of no key |
| `Compaction.DedupStrict` | hw1/store.c:328-342 | on a sorted array the result has strictly ascending keys |
| `Compaction.Reindex` | hw1/store.c:355-362 | rows get the numbers 1, 2, 3 and so on and are otherwise unchanged |
| `Compaction.RenumberKeepsValue` | hw1/store.c:355-362 | renumbering changes no key's value |
| `MergeRows.StableSortSpec` | hw1/store.c:347-350 | the reference sort is sorted and stable |
| `MergeRows.KeepsLastRows` | hw1/store.c:184-185 | after sort and removal of duplicates each key has the row that came last in the two tables read one after the other |
| `MergeRows.CompactKeepsLookups` | hw1/store.c:184-186 | the merged rows answer every lookup with the same value as the rows they were made from |
| `MergeRows.CompactShape` | hw1/store.c:184-205 | strictly ascending keys, rows numbered from 1, one row for each distinct key |
| `MergeRows.CompactValid` | hw1/store.c:184-186 | merged rows are valid rows again |
| `MergeRows.ReadTable` | hw1/store.c:171-176 | the loop appends to the buffer exactly the rows the file holds |
| `MergeRows.CompactInPlace` | hw1/store.c:184-186 | the three array passes together compute the merged rows |
| `StoragePool.ChainFits` | hw1/store.c:373-376 | the list has twenty nodes exactly when no slot is free |
| `StoragePool.PointersAgree` | hw1/store.c:369-466 | next from head meets each used slot once and ends, prev from tail meets the same slots in reverse, and a slot has index 0 exactly when it is unreachable |
| `StoragePool.CountsUsedSlots` | hw1/store.c:422-433 | the length of the list is the number of slots in use |
| `StoragePool.StorageList.constructor` | hw1/store.c:67-75 | a zeroed segment is an empty list with counter 1 |
| `StoragePool.StorageList.InsertNode` | hw1/store.c:369-420 | the list stays well linked; the entry goes in front of the first one whose index is not smaller; with no free slot nothing changes |
| `StoragePool.StorageList.FindPlace` | hw1/store.c:387-392 | the walk ends at that place and remembers the node before it |
| `StoragePool.StorageList.LinkIn` | hw1/store.c:394-415 | the pointer updates enter one slot there and change no other link |
| `StoragePool.StorageList.PopLeft` | hw1/store.c:437-466 | the first entry leaves and its slot is free; an empty list stays empty |
| `StoragePool.StorageList.StorageCnt` | hw1/store.c:422-433 | the count is the list's length and the number of used slots |
| `StoreModel.FileNameInjective` | hw1/store.c:109 | different counters give different file names |
| `StoreModel.FileNameLoads` | hw1/store.c:229-231 | a file name ends in .sst and is read back as the number it was made from |
| `StoreModel.FlushLandsLast` | hw1/store.c:107-118 | a flushed table comes after all tables on the list |
| `StoreModel.MergeLandsFirst` | hw1/store.c:167-203 | a merged table comes before all tables left on the list, which stay as they are |
| `StoreModel.FlushKeepsInv` | hw1/store.c:99-120 | flush keeps orders ascending and files distinct below the counter, at most 20 tables, and only the first one large |
| `StoreModel.PutKeepsInv` | hw1/store.c:82-97 | put keeps the same, with at most two rows left in memory |
| `StoreModel.MergeKeepsInv` | hw1/store.c:154-211 | merge keeps the same |
| `StoreModel.FlushConserves` | hw1/store.c:99-120 | a flush conserves the rows of the store if and only if memory is empty or a slot is free |
| `StoreModel.FlushLosesKey` | hw1/store.c:373-419 | with a full list a key held only in memory is found before the flush and missing after it |
| `StoreModel.PutAppends` | hw1/store.c:82-97 | put adds one row behind all others, and changes the map at its key only |
| `StoreModel.MergeKeepsMeaning` | hw1/store.c:154-211 | merge changes no lookup, no other table and not the memory table |
| `StoreModel.LookupIsMap` | hw1/store.c:122-152 | get answers with the map's value exactly for the keys in the map, and NOT_FOUND for others exactly when there is a table |
| `StoreModel.LookupIsNewestRow` | hw1/store.c:122-152 | get answers with the very row, number included, behind which no row has the key, and finds nothing exactly if no row has it |
| `StoreRuns.ApplyKeeps` | hw1/store.c:82-211 | every admissible operation keeps the invariant and acts as on a map |
| `StoreRuns.StoreRefinesMap` | hw1/store.c:82-211 | for every run of operations, the contents are a plain map's, and each answer on the way is the map's value, NOT_FOUND, or undefined, as the calls determine; the answers are a plain map's if and only if no missing key is asked for before the first table |
| `StoreRuns.MapAnswersIff` | hw1/store.c:122-152 | answers that agree with the replies told from the calls are a plain map's if and only if no missing key is asked for before the first table |
| `StoreRuns.MapHoldsLatestPut` | hw1/store.c:82-97 | the map holds the value of the most recent put of a key |
| `StoreRuns.GetReturnsLatestPut` | hw1/store.c:122-152 | after any run from an empty directory get yields the value of the most recent put, or none if the key was never put |
| `StoreRuns.GetAfterPut` | hw1/store.c:82-97 | a get right after a put finds the row just put with the number put returned; numbers go up by one |
| `StoreRuns.RunsStayOrdered` | hw1/store.c:99-203 | along every run list indices ascend, file numbers differ, both stay below the counter, and row numbers count the puts |
| `StoreRuns.PutsAreNumbered` | hw1/store.c:82-97 | along every run put returns the number of puts before it plus the first number |
| `StoreRuns.MergeFits` | hw1/store.c:156-176 | with at most 997 distinct keys the two tables of a merge always fit its buffer |
| `StoreRuns.BoundIsTight` | hw1/store.c:156-176 | 998 keys and three more puts reach two tables of 1001 rows, one more than the buffer of merge has |
| `StoreRuns.PacedIsAdmissible` | hw1/store.c:82-211 | valid arguments, a free slot at each flush, two tables at each merge and at most 997 keys are enough for a whole run |
| `StoreRuns.PacedFromEmpty` | hw1/store.c:72-80 | the same from an empty directory, from the calls alone |
| `StoreRuns.FitsIff` | hw1/store.c:156-176 | all paced runs with at most n distinct keys stay within the conditions of their operations if and only if n is at most 997 |
| `StoreRuns.FullListLosesAPut` | hw1/store.c:373-419 | twenty puts with flushes, then one more: its key is lost by the next flush |
| `Ledger.PlaceIs` | hw1/store.c:355-362 | in rows with ascending keys a row stands behind as many rows as there are smaller keys |
| `Ledger.EntriesCompact` | hw1/store.c:184-186 | merging two tables gives each key its newest value and its place among their keys for a number |
| `Ledger.LookupIsNewest` | hw1/store.c:122-152 | get answers the newest entry of the key among memory and tables |
| `Ledger.BookFollows` | hw1/store.c:82-211 | every call changes memory and tables as it changes the ledger's maps |
| `Ledger.OutcomesExpected` | hw1/store.c:82-211 | along every run each call returns what the ledger expects: put the number of puts, merge the number of different keys in the two oldest tables and a name with the number of files written, get the newest entry |
| `Ledger.NumberAlong` | hw1/store.c:122-211 | as long as a key is not put again its entry stays until a merge takes it, and then its number is its place in the oldest table |
| `Ledger.NumberAnswered` | hw1/store.c:122-211 | after any run from an empty directory get answers the latest put's value and number until a merge takes the row, and from then on the number of keys in the first table that are not larger |
| `Storage.FlushMatches` | hw1/store.c:107-118 | list entry, new file and counter after a flush are those of the flushed value |
| `Storage.MergeMatches` | hw1/store.c:167-203 | list, removed files, new file and counter after a merge are those of the merged value |
| `Storage.Store.constructor` | hw1/store.c:72-80 | an empty store on an empty directory |
| `Storage.Store.WriteTable` | hw1/store.c:192-199 | the file holds exactly the rows, and no other file changes |
| `Storage.Store.Flush` | hw1/store.c:99-120 | the store becomes the flushed value; exactly one new file is written, under a fresh name |
| `Storage.Store.PutPair` | hw1/store.c:82-97 | the store becomes the value with the row added, flushed if it was the third; the row's number is returned |
| `Storage.Store.GetPair` | hw1/store.c:122-152 | the answer is the most recent row with the key in the whole store |
| `Storage.Store.SearchTables` | hw1/store.c:142-151 | the tables from tail to head give that answer when memory has no such key |
| `Storage.Store.TakeTable` | hw1/store.c:169-181 | one round moves the head table's rows to the buffer, its node off the list and its file away |
| `Storage.Store.Collect` | hw1/store.c:169-181 | two rounds leave both tables' rows in the buffer, in order |
| `Storage.Store.Merge` | hw1/store.c:154-211 | the store becomes the merged value, two files go and one comes; the result is the number of rows and the new name |
| `Storage.Store.MergeFault` | hw1/store.c:167-181 | with fewer than two tables merge has read and removed the one there is, and its file, when it fails |
| `Storage.Store.CountTables` | hw1/store.c:422-433 | the number of tables |
| `Storage.Call` | hw1/store.c:82-211 | one call changes the store as the operation does; a merge returns the number of rows of the new first table and that table's file name |
| `Storage.Replay` | hw1/store.c:82-211 | calls on a store, made one after the other, return what the value-level run says, and the store ends as the value of that run |
| `Storage.RunFromEmpty` | hw1/store.c:72-211 | on files, pool and buffers, in every paced run with at most 997 keys every call returns what the ledger of the calls expects; the answers are a plain map's if and only if no missing key is asked for before the first table |
| `Handshake.StepKeepsToken` | hw1/shmem.c:86-136 | semaphore 0, main and the merge process hold one token between them, before and after each semop and each exit; only main's end can take it away |
| `Handshake.StepKeepsUndoLaw` | hw1/shmem.c:3-104 | the adjustments of SEM_UNDO are what each process took and has not given back; once the merge process is gone semaphore 1 is 0 until main ends |
| `Handshake.StepKeepsMailbox` | hw1/shmem.c:116-136 | the segment or the reader holds main's last message whenever main does not hold the token |
| `Handshake.StepKeepsAcknowledged` | hw1/shmem.c:116-130 | once a message is taken, main's p2 has or will get its unit; a token put back by V waits for a main that asked for a merge |
| `Handshake.StepKeepsReadAccount` | hw1/shmem.c:116-130 | units of semaphore 1 balance reads and writes |
| `Handshake.StepKeepsTokenAccount` | hw1/shmem.c:86-130 | tokens put out by writes balance reads, retaken tokens and tokens main took back itself |
| `Handshake.StepKeepsNoSelfTake` | hw1/main.c:170-174 | main can take back its own token only after one of V's was retaken |
| `Handshake.Reachable` | hw1/main.c:71-315 | all of these hold in every reachable state |
| `Handshake.MutualExclusion` | hw1/shmem.c:73-136 | in every interleaving the processes are never both at the store or the segment, and a message acted on is main's last one |
| `Handshake.StopsIff` | hw1/main.c:96-115 | in a state with these invariants nothing can move if and only if both processes have ended or one waits for a unit that nobody is left to give |
| `Handshake.MergesAndRequests` | hw1/main.c:165-175 | in every interleaving, when main is in control, merges exceed requests by the value of semaphore 1, and retaken tokens less self-taken ones account for it |
| `Handshake.RetakenStep` | hw1/main.c:294-315 | after a first retaken token only V's tokens are about until main is in control again |
| `Background.TwoMergesPerRequest` | hw1/main.c:165-175 | in every interleaving there are at most two merges for each request |
| `Background.Reachable` | hw1/main.c:71-315 | in every interleaving the invariants of the handshake hold, a request is made with three tables, and each merge for it leaves one less |
| `Background.StarvedTakeIff` | hw1/main.c:297-307 | no token of V was taken back with fewer than two tables left, if and only if the merge process has not been killed and is not on its way into a merge without two tables |
| `Background.StarvedTakeCrashes` | hw1/store.c:167-181 | after such a take the merge process can always go on and six of its moves end it, whatever main does meanwhile |
| `Background.WorkConservesIff` | hw1/main.c:96-265 | what main does for a message, a merge apart, keeps all rows and adds those of the message if and only if a flush finds a slot; otherwise the tables there were are all that is left |
| `Background.PerformKeepsSequence` | hw1/main.c:99-265 | every effect on the store is one more operation of a sequential run |
| `Background.OpAdmissible` | hw1/main.c:148-265 | with a free slot at hand what main does for a message meets the conditions of the store's operations |
| `Background.MergingSafe` | hw1/main.c:301-306 | a merge process that is not lost finds two tables |
| `Background.KeptAlong` | hw1/main.c:71-315 | in every run without a starved take and with a slot for each flush the store is that of a sequential run of the logged operations |
| `Background.DoneAsTold` | hw1/main.c:90-265 | in every interleaving main does exactly the puts, gets and flushes it was told, in that order |
| `Background.MergeCommandMerges` | hw1/main.c:251-264 | the merge command turns the two oldest tables into one if there are two, and otherwise does nothing; contents as a map and memory stay, and main waits again |
| `Background.AsksIff` | hw1/main.c:96-175 | main asks for a merge exactly if the message was an accepted put or BACK and there are three tables after it; without a request BACK sends the last message and any other message leaves main waiting |
| `Background.LogIsDone` | hw1/main.c:71-315 | in every interleaving the operations done are exactly what messages ask for and the merges, move by move; the merges are those of merge commands with two tables and those the merge process did |
| `Background.EndsFlushed` | hw1/main.c:96-115 | in every interleaving nothing is left in memory once main has worked on BACK |
| `Background.MergesDoNotShow` | hw1/main.c:251-264 | contents and replies are the same with the merges of a run as without them |
| `Background.BackgroundRefinesMap` | hw1/main.c:71-315 | in every interleaving without a starved take and with a slot for each flush nothing crashes, and contents and answers are those of a sequential map |
| `Background.ServedLikeAMap` | hw1/main.c:90-266 | then, whenever main is not at work on a message, its answers are the map's for the messages received; when it has ended, the tables alone hold the map |
| `Background.AnswersExpected` | hw1/main.c:214-250 | without a starved take and with a slot for each flush main's answers, numbers included, are those a ledger expects of the operations done |
| `Background.OwnTake` | hw1/main.c:165-175 | main's P finds three tables if it takes the token main put out, and at most two otherwise |
| `Background.NoOwnTakeKeepsFew` | hw1/main.c:96-175 | in every interleaving in which main's P never takes back its own token there are at most three tables, at most two while main waits, works or is on its way out, and each flush finds a slot |
| `Background.TwoWhenSettledIff` | hw1/main.c:96-175 | there never were more than two tables at such points if and only if main's P never took back its own token |
| `Background.MapWithoutOwnTakes` | hw1/main.c:71-315 | without a starved take and without such a take contents and answers are a map's, with no condition on the list |
| `Background.MergingHasTables` | hw1/main.c:301-306 | with the hand-off a background merge finds the three tables main counted |
| `Background.StepKeepsBound` | hw1/main.c:96-175 | with the hand-off the number of tables stays within the bound of main's place in its loop |
| `Background.HandedOffIsSafe` | hw1/main.c:294-315 | with the hand-off no take is starved and main takes back no token of its own |
| `Background.HandedOffTables` | hw1/main.c:96-175 | with the hand-off the number of tables follows from where main is |
| `Background.WaitingHandedOff` | hw1/main.c:170-174 | with the hand-off, whenever main waits for a message, there are at most two tables, one merge was done for each request, and both semaphores are 0 |
| `Progress.NothingMovesIff` | hw1/main.c:71-315 | in every interleaving on the store no process can move and no message is awaited, if and only if both have ended or one is blocked for good |
| `Progress.NeverFatalIff` | hw1/shmem.c:3-6 | no fatal move was made if and only if the state is none of three: a merge without tables ahead, the merge process gone before main's last p2, main gone with the token |
| `Progress.FinishedIsEnded` | hw1/main.c:309-313 | when both processes are gone both have left by their last statements; the merge process was not killed |
| `Progress.StepsFall` | hw1/main.c:90-315 | every step but the arrival of a message brings the next wait or the end nearer, retaken tokens included |
| `Progress.AnswersInTime` | hw1/main.c:90-315 | in every interleaving at most 44 steps pass between two messages |
| `Progress.Completion` | hw1/main.c:71-315 | after a run without fatal moves some continuation brings both processes to their last statements |
| `Progress.EndsIff` | hw1/main.c:71-315 | freedom from deadlock: no fatal move was made if and only if some continuation brings both processes to their own last statements; as long as none was made the merge process was not killed, and until both have ended main waits for a message or one of them can move |
| `Progress.LastMessageOnly` | hw1/main.c:96-115 | with the hand-off the only fatal move is that the merge process leaves before main has passed its last p2 |
| `Progress.OneMergeEachIff` | hw1/main.c:165-315 | when main is in control: so far there was one merge for each request at all such points, if and only if no token of V was taken back |
| `Progress.EachMergedIff` | hw1/main.c:165-175 | in every interleaving no request came back without a merge if and only if main's P never took back its own token |
| `Schedules.TwoMergesForOneRequest` | hw1/main.c:294-315 | nine puts from an empty directory, one request, two merges: the bound is reached, with nothing crashed |
| `Schedules.RequestWithoutMerge` | hw1/shmem.c:116-123 | fifteen puts from an empty directory can lead to two requests, one of which came back with no merge done, and leave three tables |
| `Schedules.NinePutsCanCrash` | hw1/store.c:167-181 | nine puts from an empty directory can end with all tables removed, the merge process killed, and main blocked |
| `Schedules.LastMessageCanHang` | hw1/shmem.c:3-6 | BACK alone can leave main blocked in its last p2, with every token handed over |
| `Schedules.MainCanTakeTokenAlong` | hw1/shmem.c:3-6 | nine puts and BACK from an empty directory can leave the merge process blocked for ever |
| `Schedules.TablesPileUp` | hw1/main.c:170-174 | from an empty directory puts alone can lead to any number of tables from four to a full list, with nothing crashed |
| `Schedules.PutsVanish` | hw1/store.c:373-419 | with a full list three puts leave the contents as they were |
| `Processes.Machine.MergeEnds` | hw1/shmem.c:3-6 | the end of the merge process undoes its operations on both semaphores |
| `Processes.Machine.MainMove` | hw1/shmem.c:116-123 | main's steps on segment and semaphores, in place, its exit included, are those of the handshake |
| `Processes.Machine.MergeMove` | hw1/main.c:294-315 | the merge process's steps likewise |
| `Processes.Machine.UseStore` | hw1/main.c:148-265 | what main does for one message on the real store, with refused keys and values |
| `Processes.Machine.CountTables` | hw1/main.c:170-174 | three tables, and no other number, make main ask for a merge |
| `Processes.Machine.BackgroundMerge` | hw1/main.c:301-306 | the merge process merges the real store; with fewer than two tables it removes the one there is, and its file, and is killed |
| `Processes.Machine.Move` | hw1/main.c:71-315 | each move happens exactly when it is possible and leads to the state of the two-process model |
| `Processes.RunSchedule` | hw1/main.c:71-315 | executing any schedule without a starved take and with a slot for each flush, from an empty directory, leads to the model's state; the answers are those a ledger expects of the operations done; unless main is at work they are the map's for the messages received, and after its end the tables alone hold the map |
| `Timer.PackUnpack` | hw2/app/fpga_test_timer.c:55 | the driver unpacks the three fields the application packed, cut to their 14, 7 and 7 bits |
| `Timer.FndWordInjective` | hw2/module/new_timer_driver.c:144-153 | the word sent to the display determines the four digits |
| `Timer.LedWord` | hw2/module/new_timer_driver.c:156-160 | one LED is lit exactly for the numbers 1 to 8 |
| `Timer.LedOrder` | hw2/module/new_timer_driver.c:156-160 | number 1 lights the highest bit, each further one the next lower bit, and a number beyond 8 none |
| `Timer.DigitsRecombine` | hw2/module/new_timer_driver.c:100-104 | the four digits recombine to the configured value without what lies beyond the thousands |
| `Timer.TickedCloses` | hw2/module/new_timer_driver.c:208-218 | one tick takes the closed form for n to that for n + 1, for any configured digits |
| `Timer.TicksAreClosedForm` | hw2/module/new_timer_driver.c:265-311 | after n ticks the fields and all devices are those of the closed form, for every n up to the count |
| `Timer.OneDigitShows` | hw2/module/new_timer_driver.c:208-218 | with one configured digit the display is zero but for the number at the active digit |
| `Timer.NumberGoesRound` | hw2/module/new_timer_driver.c:302 | from a start in 1 to 8 the number after n ticks is the start n further round |
| `Timer.OneLedPerTick` | hw2/module/new_timer_driver.c:156-160 | each tick lights exactly one LED, except a first tick with digit 9 |
| `Timer.LedsOfRun` | hw2/module/new_timer_driver.c:156-160 | in terms of the packed word: each tick lights exactly one LED, except the first one after a start value that begins with 9 |
| `Timer.LedRuns` | hw2/module/new_timer_driver.c:265-311 | in a run the light moves one place towards the lowest bit at each tick and starts again after eight |
| `Timer.TickScreenShows` | hw2/module/new_timer_driver.c:171-205 | two lines of sixteen: the student number and the count, right-aligned, and the name at the offset, going round |
| `Timer.FinishScreenShows` | hw2/module/new_timer_driver.c:236-262 | two lines of sixteen with the seconds left before the dots |
| `Timer.RunLength` | hw2/module/new_timer_driver.c:236-311 | count + 1 tick handlers, then four finish handlers; one timer is pending until the last; the screen stays at the last tick's and then counts down, and at the end every device is cleared and the fields are those after the last tick |
| `Timer.RunsThroughIff` | hw2/module/new_timer_driver.c:156-160 | a run can go through if and only if the count is 0 or the start digit is not 0 |
| `Timer.StartValueIff` | hw2/module/new_timer_driver.c:95-113 | in terms of the packed word: a run can go through if and only if its count is 0 or its start value is no multiple of 10000 |
| `Timer.TimerDriver.SetOption` | hw2/module/new_timer_driver.c:95-113 | count and interval are the packed ones, the digits denote the value below 10000, the active digit is the leftmost nonzero one or stays |
| `Timer.TimerDriver.SplitDigits` | hw2/module/new_timer_driver.c:100-106 | the digit loop alone |
| `Timer.TimerDriver.Fire` | hw2/module/new_timer_driver.c:236-311 | the pending handler does what the value-level step says |
| `Timer.TimerDriver.TimerHandler` | hw2/module/new_timer_driver.c:265-311 | the tick handler |
| `Timer.TimerDriver.FinishHandler` | hw2/module/new_timer_driver.c:236-262 | the finish handler |
| `Timer.TimerDriver.UpdateDigitAndRotation` | hw2/module/new_timer_driver.c:208-218 | the digit moves on every eighth tick and shows the number |
| `Timer.TimerDriver.PlaceName` | hw2/module/new_timer_driver.c:187-191 | the name stands at the offset and goes round the end of the line |
| `Timer.TimerDriver.UpdateLcdDisplay` | hw2/module/new_timer_driver.c:171-205 | the screen shows the count and the name at the offset, which moves on by one |
| `Timer.TimerDriver.RunOut` | hw2/module/new_timer_driver.c:115-311 | firing until no timer is pending takes exactly count + 1 ticks and four finish handlers, clears all devices, and leaves the fields of the closed form and the interval, if and only if the count is 0 or the start digit is not 0 |
| `Timer.RunApplication` | hw2/app/fpga_test_timer.c:36-58 | from the arguments to the end: nothing starts outside 1 to 100; otherwise the driver is configured with interval, count and start value, also during another run, and if no timer was pending the run goes through exactly if the low 14 bits of the start value are no multiple of 10000, with count + 1 ticks, four finish handlers, all devices cleared and the fields of the closed form |

## Left out

- Starting from existing files (hw1/store.c:218-240): a merged file's number is not its place in the list, so recency does not survive a restart.
- Creating and removing the segments, the semaphore set and the processes, and the message queue: operating-system plumbing.
- Failed `fopen`, full disks and signals from outside: file operations succeed.
- What `fscanf("%s")` does with a word longer than the value buffer: table files hold valid rows only.
- Key-pad input (`add_char_and_update`, `process_value` in hw1/io.c), mode changes and all display output of hw1: a message is modelled by what it makes main do.
- The split of main's work on one message, and of `merge`, into smaller steps of the interleaving: each is one step.
- A merge of more than 1000 rows: the model's `merge` has no such case; `BoundIsTight` shows that 998 keys are enough to reach one.
- Timer expiry times (`interval * HZ / 10`), the wait for the reset switch, opening and closing the device, and the dot patterns of the digits.
- RunApplication: a second start while a timer is pending is followed up to COMMAND; what the kernel does when a pending timer is added again is not modelled.
- hw3/module/stopwatch_driver.c and the exercise directories: they would add only easy members.
- SearchStorage: on a file that is not a table file only termination is stated.
- SortByKey: states stability, which `qsort` does not promise; with an unstable sort an older value could survive a merge.
- BackgroundRefinesMap: asks for a slot at each flush; a flush without one loses its rows (`FlushConserves`, `PutsVanish`).
