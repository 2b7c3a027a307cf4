# pdxer task-schedule model in Dafny

This project models the task-schedule core of pdxer, a small tool that reads a
project schedule (activities with planned start and end dates and
predecessor/successor relationships) and analyses it with pandas. The model covers
three parts of that core:

- **Table builder** (`Project`). This is `ProjHandler._activities_to_df`. It turns
  each activity into a row with `task_id`, `task_code`, `task_name`, `task_type`,
  `start_date` and `end_date`. It can also add two list columns: the predecessor
  ids and successor ids of each activity. The table is keyed by `task_code` and
  sorted by `end_date`. The module also holds the two first-match activity
  lookups and the task-id to task-name map.
- **Query engine** (`TaskList`). This is `TaskListHandler`. `filter` builds one
  boolean mask per supplied argument and ANDs them. Within the type argument,
  masks are ORed. `get_selection` selects rows by code. `get_successors` and
  `get_predecessors` return the rows listed in a task's successor or
  predecessor column.
- **Snapshot comparator** (`Comparator`). This is `ProjComparator.merge`. It
  joins two tables on `task_code`, `task_name` and `task_type`, in left or inner
  mode. It adds the signed differences `start_diff` and `end_diff` (A minus B)
  and sorts the result by A's `end_date`.

Supporting modules:

- `Schedule` holds the records.
- `Seqs` holds the generic sequence operations behind pandas' boolean indexing,
  `isin` selection, `sort_values` and `next(iter(...), None)`.

Modelling choices:

- Timestamps are integer seconds, matching `datetime64[s]`. Date differences
  are therefore exact integers.
- A table is a sequence of rows.
- The builder is a method. It fills one list per column in a loop, then
  assembles and sorts the rows.
- The filter is a set of methods that build masks, fold them with `|=` and
  `&=`, and apply the result.
- The selections and the comparison are functions.
- Errors the Python code raises are modelled as `Failure` values:
  - an empty activity list (`activities[0]`);
  - an unknown code (`df.loc`);
  - a missing list column (`.successors` on a table built without it);
  - an empty type list (`type_masks[0]`).

The model follows what the code does, also where that departs from pdxer's stated
intent or from its own log messages:

- The builder reads each activity's own relationship records. It does not
  build an index over a separate edge list.
- The builder does not reject duplicate task codes. The model makes unique codes
  a precondition of the queries that need them.
- The sort is pandas' default sort, which is not stable. The model promises
  only "sorted and a permutation".
- `min_end` keeps rows whose end date is strictly before the bound. Its log
  message says `>`, but the code compares with `<`. The model keeps `<`, so
  `min_end` acts as a second upper bound. `MinEndIsUpperBound` states this.
- The comparison has no "no common key" error. Every row of the model has the
  three key fields.
- The comparison joins on task code, name and type together. The cardinality
  lemmas `MergeCardinality` and `MergeInnerBound` assume unique task codes,
  which is the table's index. Unique (code, name, type) keys would be a weaker
  condition that also suffices; the lemmas are stated with the index's
  uniqueness because that is what every built table's queries rely on.

## Model

| member | source | states |
|---|---|---|
| `Project.FindActivityByTaskCode` | src/pdxer/project.py:46-47 | It returns `None` exactly when no activity has the code. Otherwise it returns the activity at the first index whose code matches. |
| `Project.FindActivityByTaskId` | src/pdxer/project.py:49-50 | It returns `None` exactly when no activity has the id. Otherwise it returns the activity at the first index whose id matches. |
| `Project.TaskIdToNameMap` | src/pdxer/project.py:31 | The keys are exactly the ids of the activities. Each id maps to the name of the last activity with that id, so when ids repeat the later activity wins. |
| `Project.ActivitiesToTable` | src/pdxer/project.py:52-96 | It fails with `EmptyActivityList` exactly when the list is empty. Otherwise the table is a permutation of the activities' rows, one row per activity, sorted ascending by end date. Rows have the list columns exactly when `add_prec_succ` is set. |
| `Project.TableRows` | src/pdxer/project.py:72-92 | A built table has as many rows as there were activities. Each row is the row of some activity, and each activity's row is in the table. List columns are present exactly when requested. |
| `Project.RowOf` | src/pdxer/project.py:72-83 | A row carries the activity's six fields unchanged. It has the list columns exactly when `add_prec_succ` is set, and then they hold the activity's predecessor ids and successor ids. |
| `Project.PredIds` | src/pdxer/project.py:82 | The predecessor list has one entry per predecessor record, in record order, and each entry is that record's `pred_task_id`. An id is in the list exactly when some predecessor record carries it. |
| `Project.SuccIds` | src/pdxer/project.py:83 | The successor list has one entry per successor record, in record order, and each entry is that record's `task_id`. An id is in the list exactly when some successor record carries it. |
| `Project.SuccessorEdgeVisible` | src/pdxer/project.py:82-83 | An activity has a successor record, and the built table has a row with that record's task id. Then the successor query for the activity's code succeeds and returns that row. |
| `Project.PredecessorEdgeVisible` | src/pdxer/project.py:82-83 | An activity has a predecessor record, and the built table has a row with that record's predecessor id. Then the predecessor query for the activity's code succeeds and returns that row. |
| `Project.OneEdgeSuccessors` | src/pdxer/tasklist.py:62-69 | Take tasks A100 and A200 with one record from A100 to A200, and any table sorted by end date that holds exactly their rows. That table has unique codes, and the successors of A100 are exactly A200's row. |
| `Project.OneEdgePredecessors` | src/pdxer/tasklist.py:72-79 | In the same example and for any such table, the predecessors of A200 are exactly A100's row. |
| `Seqs.SortBy` | src/pdxer/project.py:94 | The result is a permutation of its input and is sorted ascending by the key. Nothing is promised about the order of equal keys. |
| `Seqs.ApplyMask` | src/pdxer/tasklist.py:54 | Boolean indexing keeps at most the table's rows. A row is in the result exactly when the mask is true at one of its positions. |
| `Seqs.ApplyMaskIsWhere` | src/pdxer/tasklist.py:54 | Boolean indexing with a mask computed row by row from a predicate selects exactly the rows satisfying it, in order. |
| `TaskList.HasSubstringAt` | src/pdxer/tasklist.py:45 | The substring test used for the name argument holds exactly when the pattern occurs at some offset of the name. |
| `TaskList.ContainsIgnoreCase` | src/pdxer/tasklist.py:45 | The case-insensitive test holds exactly when the lower-cased pattern occurs at some offset of the lower-cased name. An empty pattern matches every name. |
| `TaskList.ContainsIgnoresCase` | src/pdxer/tasklist.py:45 | Lower-casing the name or the pattern beforehand does not change the result of the test. |
| `TaskList.MaskOf` | src/pdxer/tasklist.py:20-45 | For every argument except the type list, the mask has one entry per row, and the entry is true exactly when that argument's comparison accepts the row. |
| `TaskList.TypeMask` | src/pdxer/tasklist.py:36-42 | It fails with `EmptyTypeList` exactly when the type list is empty. Otherwise the ORed mask is true at a row exactly when the row's type is one of the listed types. |
| `TaskList.DateMasks` | src/pdxer/tasklist.py:19-34 | It builds one mask for each supplied date bound, in argument order. Each mask is true at exactly the rows that bound accepts. |
| `TaskList.BuildMasks` | src/pdxer/tasklist.py:19-45 | It builds one mask per supplied argument, in argument order. Each mask is true at exactly the rows its argument's comparison accepts. It fails only for an empty type list. |
| `TaskList.Conjoin` | src/pdxer/tasklist.py:50-52 | Folding the masks with `&=` gives a mask that is true at a row exactly when every criterion holds of it. |
| `TaskList.Filter` | src/pdxer/tasklist.py:13-54 | It fails exactly when an empty type list is supplied. With no argument supplied it returns the table unchanged. Otherwise it returns exactly the selection of rows satisfying every supplied argument, in table order. |
| `TaskList.Selected` | src/pdxer/tasklist.py:50-54 | The filtered rows are exactly the table's rows that pass all supplied criteria. They form an order-preserving subsequence of the table. |
| `TaskList.KeepMeaning` | src/pdxer/tasklist.py:20-45 | A row passes exactly when every supplied argument accepts it. `min_start`: start after the bound. `max_start`: start before. `min_end` and `max_end`: end before the bound, as written. Types: the row's type equals at least one listed type. Name: case-insensitive containment. |
| `TaskList.MinEndIsUpperBound` | src/pdxer/tasklist.py:28-34 | Filtering with `min_end = d` selects the same rows as `max_end = d`, namely the rows ending strictly before `d`. |
| `TaskList.FilterKeepsOrder` | src/pdxer/tasklist.py:54 | A filtered table that was sorted by end date is still sorted by end date. |
| `TaskList.GetSelection` | src/pdxer/tasklist.py:56-60 | It returns exactly the rows whose code is in the collection, with their multiplicities, in table order. Codes absent from the table are ignored. |
| `TaskList.RowsWithIds` | src/pdxer/tasklist.py:69 | The `isin` selection on task ids keeps exactly the table's rows whose id is in the list, as an order-preserving subsequence of the table. |
| `TaskList.LookupCode` | src/pdxer/tasklist.py:68 | In a table with unique codes it returns `None` exactly when no row has the code. Otherwise it returns the row indexed by the code. |
| `TaskList.GetSuccessors` | src/pdxer/tasklist.py:62-69 | It fails with `UnknownTaskCode` when no row has the code, and with `MissingColumn` when the table has no successor column. Otherwise it returns exactly the rows whose task id is in that task's successor list, in table order. `levels` has no effect. |
| `TaskList.GetPredecessors` | src/pdxer/tasklist.py:72-79 | It fails with `UnknownTaskCode` when no row has the code, and with `MissingColumn` when the table has no predecessor column. Otherwise it returns exactly the rows whose task id is in that task's predecessor list, in table order. `levels` has no effect. |
| `Comparator.Matches` | src/pdxer/project.py:106 | A row of B joins a row of A exactly when task code, name and type are all equal. |
| `Comparator.JoinRow` | src/pdxer/project.py:106 | A row of A contributes exactly one joined row per matching B row, counted with B's multiplicities, so its length is the number of matches. When nothing matches it contributes one unmatched row in left mode and nothing in inner mode. |
| `Comparator.Join` | src/pdxer/project.py:104-106 | Every joined row comes from A and any B part shares its key. Every matching pair appears. An unmatched row appears only in left mode, and in left mode every row of A appears. |
| `Comparator.JoinPairCount` | src/pdxer/project.py:106 | A pair of rows with the same key occurs in the join as many times as the A row occurs in A times the number of times the B row occurs in B. |
| `Comparator.JoinUnmatchedCount` | src/pdxer/project.py:106 | An unmatched row for an A row occurs once per occurrence of that row in A in left mode when no B row shares its key, and never otherwise. |
| `Comparator.WithDiffs` | src/pdxer/project.py:107-108 | `start_diff` and `end_diff` are A minus B for a matched row, and both are absent for an unmatched one. |
| `Comparator.AllWithDiffsCount` | src/pdxer/project.py:107-108 | Adding the differences column by column keeps every joined row's multiplicity. |
| `Comparator.Merge` | src/pdxer/project.py:104-111 | The comparison is sorted by A's end date. It is a permutation of the joined rows with their differences. |
| `Comparator.MergePairCount` | src/pdxer/project.py:104-111 | A matched comparison row with its exact differences occurs as many times as the A row occurs in A times the number of times the B row occurs in B. |
| `Comparator.MergeUnmatchedCount` | src/pdxer/project.py:104-111 | An unmatched comparison row with no differences occurs once per occurrence of the A row in left mode when no B row shares its key, and never otherwise. |
| `Comparator.MergeRowMeaning` | src/pdxer/project.py:106-108 | Every row of the comparison comes from A. A matched row carries a B row with the same key and the exact signed differences. An unmatched row occurs only in left mode, has no differences, and no B row shares its key. |
| `Comparator.MergeHasEveryMatch` | src/pdxer/project.py:106-108 | In either mode, every pair of A and B rows with the same key appears, with its differences. |
| `Comparator.MergeLeftKeepsA` | src/pdxer/project.py:104-106 | In left mode every row of A appears in the comparison. |
| `Comparator.MergeCardinality` | src/pdxer/project.py:104-106 | When B's codes are unique, a left comparison has exactly as many rows as A and an inner comparison at most that many. |
| `Comparator.MergeInnerBound` | src/pdxer/project.py:106 | When both snapshots have unique codes, an inner comparison has at most as many rows as the smaller snapshot. |
| `Comparator.MergeWithItself` | src/pdxer/project.py:104-109 | Comparing a table with unique codes against itself gives one row per task in either mode. Every row's `start_diff` and `end_diff` is zero. |
| `Comparator.TwoDaysLater` | src/pdxer/project.py:104-111 | A task moved from 2024-01-01..05 in A to 2024-01-03..07 in B gives one inner row. Both differences are minus two days (-172800 s). |

## Left out

- Loading the schedule file (`_load_proj`, `list_projects`) is not modelled. It is file I/O through a foreign reader library, so the model takes the activity list as input. `_load_proj` returns `None` for an unknown project name; that path is not modelled either.
- The `ProjHandler` and `TaskListHandler` objects are not modelled as classes. Their constructors store `filename`, `projname`, the id-to-name map and the table, and nothing ever updates them afterwards. The model passes the table and the activity list as values.
- Console output through `rich.print` and the `perf_counter` timings are not modelled. They are presentation side effects.
- Column type inference (`col_types`) and pandas dtype conversion are not modelled. They are library behaviour. The model has one type per field. Only the inference's effect on an empty activity list is kept, as the `EmptyActivityList` error.
- The columnar `values` dictionary is not modelled as one dictionary. It becomes one list per column, filled in the same loop. The nested `for f in fields` loop is unrolled over the six fields.
- `TaskList.HasSubstringAt`: `str.contains` uses regular-expression matching (its default is `regex=True`) and Unicode case folding. The model uses plain substring matching with ASCII lower-casing. This is exact only for patterns without metacharacters and for ASCII names.
- The filter's date bounds are strings that pandas parses into timestamps. The model takes them as integer seconds.
- Missing values (NaN/NaT) and how they propagate through masks and differences are not modelled. The only missing values the model has are the differences of unmatched comparison rows.
- The index pandas builds after `merge`, the `_other` column suffixes and the reset of the `task_code` index are not modelled. A comparison row carries A's row, B's row when one matched, and the two differences.
- `ProjComparator`'s configurable `common` key list is not modelled. The model fixes it to its default: task code, name and type.
- The order among rows with equal end dates is not modelled. Pandas' default sort is not stable, so the contracts promise only "sorted and a permutation".
- `TaskList.GetSuccessors`: duplicate task codes are not detected by the code. For such tables `df.loc` yields several rows, which is not modelled. The precondition requires unique codes, and so does `TaskList.GetPredecessors`.
- The commented-out quadratic resolution of predecessor and successor codes in `_activities_to_df` is not modelled, because it is not executed.
