# Wikimedia users harvester, modelled in Dafny

The repository walks a catalog of Hebrew Wikipedia pages and writes, for every page, one row per
editor: the editor's name and id, the bytes the editor's revisions add up to, the tags and
hidden-user flags seen on those revisions, and the comments on the page's talk page that mention
the editor. The harvest runs in groups of catalog rows. After each group it writes that group's
users file and rewrites the whole catalog. Every row is stamped before its page is fetched, so a
run that dies resumes where the last written catalog left off.

This project models that core of `main.py` in five modules:

- `Seqs` (`seqs.dfy`): sequence helpers: `Option`, duplicate-free lists, the positions of a
  boolean mask, concatenation of groups.
- `Aggregator` (`aggregator.dfy`): `agg_tags`, as the imperative set-filling loop and as the
  function the aggregation uses, and `normalize_user_df`, which reduces a page's revisions to
  one row per (user_name, user_id).
- `Talk` (`talk.dfy`): the talk matching of `add_user_talk`. It splits the talk text on
  `"(IST)"`, keeps the segments that contain the user's name, and gives None when there are none.
- `Scheduler` (`scheduler.dfy`): the catalog rows and the due rule. A due row's group number is
  its catalog index divided by `max_users_per_file`. `GroupBy` is the order in which pandas'
  `groupby('group')` hands out the due rows, and `Stamped` is the catalog once visited rows carry
  the run's stamp.
- `Harvest` (`harvest.dfy`): one page's processing (`HarvestPage`), the in-place `add_user_talk`
  over an array frame, and the `Harvester` class. Its fields are the catalog file (every
  version written), the users files written (the sink) and the in-memory catalog array.
  `FetchUsersEditsByPage` runs the group and row loops and is proved against `CompletedRun` and
  `AbortedRun`. These are predicates over the functions `Buffer`, `SinkFiles` and `Snapshots`,
  which describe what a run writes. Lemmas state what those promise: a completed run leaves
  nothing due, within one run no row is lost or repeated across the users files it writes, rows
  that were not due are never changed, and an aborted run resumes at its failing group.
  The sink is the log of file writes. `OnDisk` is the users directory it leaves behind, where the
  last write of a group number wins. Across runs a reused group number therefore replaces the
  earlier file (`Harvest.ResumedRunReplacesFile`).

The wiki is reached through two ports, given as function parameters:
- `revisions: string -> Revisions`, for `page.revisions()`: the records, `InvalidTitle`,
  `NoPage`, or `RevisionsFailure` for any other exception;
- `talk: string -> TalkPage`, for `page.toggleTalkPage().get()`: the text, `TalkMissing` for an
  invalid, missing or redirect page, or `TalkFailure` for any other exception.

The clock is a parameter too: `now`, a non-empty stamp.

The model follows what the code does:
- The group number is the row's original catalog index `// max_users_per_file`, not its position
  among the due rows. A resumed run therefore reuses the old numbers and can write partial groups
  (`Scheduler.ResumedRunKeepsCatalogGroups`).
- The `group` column is not temporary. `to_csv` writes every column, so it is persisted with the
  catalog, and rows that are not due keep the group an earlier run gave them (`CatalogRow.group`).
- Only a missing (NaN) page name skips a row. An empty name would be fetched.
- A page with no revisions, or with no revision that carries a user (or a user id), has no such
  column. `groupby` then raises KeyError, which aborts the run (`HasKeyColumns`).
- The talk page is fetched even when the page's normalised frame is empty, so a talk error aborts
  the run there too.
- When no row is due, the loop body never runs, so nothing is written: neither a users file nor
  the catalog.

## Model

| member | source | states |
|---|---|---|
| Aggregator.AggTags | main.py:69-76 | the returned list has no duplicates and holds a tag exactly when some truthy tag list holds it; None and empty lists add nothing; it holds the same tags as `TagUnion`, the form the aggregation uses |
| Aggregator.TruthyTags | main.py:71-74 | the concatenated truthy lists hold exactly the observed tags |
| Aggregator.TagUnion | main.py:69-76 | the value the aggregation stores in `tags`: duplicate-free, and exactly the observed tags |
| Aggregator.KeyOf | main.py:83 | defines the (user_name, user_id) group a revision falls in, None when either column is missing so that `groupby` drops the record; GroupKeys and MembersCount state the groups it gives |
| Aggregator.HasKeyColumns | main.py:81-83 | defines when the frame has both key columns; NormalizeUserDf fails exactly when it does not hold |
| Aggregator.Members | main.py:83 | a group's revisions are exactly the revisions carrying its (user_name, user_id) key |
| Aggregator.MembersCount | main.py:83-85 | a group keeps each of its revisions exactly as often as the page lists it, and no revision of another key |
| Aggregator.RepeatedEditsAreSummed | main.py:83-85 | two identical edits by one user give one row whose size is twice the edit's |
| Aggregator.AggregateGroup | main.py:84-87 | defines the `agg` of one group: the summed size, `agg_tags` of the tags and the distinct hidden flags; NormalizedRow, MembersBytes, AggregatedTags and AggregatedFlags state its columns against the revisions |
| Aggregator.KeyBytes | main.py:85 | defines, straight from the page's revisions, the summed size of those carrying a key: the reference for `edits_size_bytes` |
| Aggregator.MembersBytes | main.py:83-85 | a group's summed size is KeyBytes of its key, whatever order the group lists its revisions in |
| Aggregator.GroupKeys | main.py:81-83 | the keys are duplicate-free, and a key is listed exactly when some revision carries both `user` and `userid` with that value; records missing either are dropped |
| Aggregator.NormalizeUserDf | main.py:79-90 | fails (KeyError) exactly when no revision has a user or none has a user id; otherwise the rows' (user_name, user_id) keys are pairwise distinct, and a key has a row exactly when some revision carries it |
| Aggregator.RowsForGroupKeys | main.py:83-88 | one row per distinct key: the keys of the aggregated rows are pairwise distinct and cover exactly the keyed revisions |
| Aggregator.NormalizedRow | main.py:84-87 | each row's `edits_size_bytes` is KeyBytes of its pair, the summed size of the revisions carrying it; `tags` is duplicate-free and holds exactly the tags of the pair's revisions; `is_hidden_user` is duplicate-free and holds exactly the flags observed for the pair |
| Aggregator.AggregatedTags | main.py:86 | a group's `tags` are duplicate-free and hold a tag exactly when one of the group's revisions lists it |
| Aggregator.AggregatedFlags | main.py:87 | a group's `is_hidden_user` is duplicate-free and holds a flag exactly when one of the group's revisions has it |
| Aggregator.SingleUser | main.py:79-90 | a page whose revisions all belong to one user normalises to that user's single aggregated row |
| Aggregator.SumOverGroupKeys | main.py:83-85 | summing each key's sizes over all keys gives the total size of the keyed revisions |
| Aggregator.NormalizeConservesBytes | main.py:83-85 | the rows' `edits_size_bytes` add up to the total size of the revisions `groupby` keeps |
| Aggregator.HiddenFlagsAreNotCollapsed | main.py:87 | one user seen visible and hidden gets one row with `is_hidden_user` == [false, true], 15 bytes and the merged tags |
| Talk.Contains | main.py:103 | defines Python's `in` on strings: the needle occurs at some index; MentionsOnly and MentioningSelects use it |
| Talk.IndexOf | main.py:102 | finds the first occurrence of the separator at or after the start index, or reports that there is none |
| Talk.Split | main.py:102 | `split('(IST)')` gives at least one segment and no segment contains the separator |
| Talk.JoinSplit | main.py:102 | joining the segments again with the separator gives back the talk text |
| Talk.Mentioning | main.py:103 | defines the `filter` of `add_user_talk`: the segments that contain the user, in text order; MentioningSelects and MentionsOnly state what it keeps |
| Talk.MentioningSelects | main.py:103 | the filter keeps exactly the segments whose text contains the user name, in text order |
| Talk.MentionsOnly | main.py:103 | every segment the talk filter keeps contains the user name |
| Talk.UserTalk | main.py:97-106 | None exactly when the talk page is missing or no segment mentions the user; otherwise the non-empty list of mentioning segments |
| Talk.SplitHead | main.py:102 | a text that starts with a separator-free head and the separator splits into that head followed by the split of the rest |
| Talk.SplitExample | main.py:102 | two signed comments split into three segments, the last one empty |
| Talk.MentioningExample | main.py:103 | only the segment naming the user is kept; an unnamed user keeps nothing |
| Talk.UserTalkExample | main.py:102-106 | the mentioned user gets their comment; a user nobody mentions gets None |
| Scheduler.JobMask | main.py:152-155 | a row is due exactly when the run reproduces or the row has no users timestamp; the `.any()` guard changes nothing |
| Scheduler.FileOf | main.py:158 | defines a due row's group number, its catalog index `// max_users_per_file`; FileOfMonotone states that it never decreases |
| Scheduler.Grouped | main.py:158 | the catalog with each due row's `group` set and the row count kept; LoadCatalog computes it in place, and SnapshotsKeepUndueRows states that rows not due keep their values |
| Scheduler.GroupBy | main.py:159 | the groups `groupby('group')` yields, one per run of due rows sharing a group number, at least one when some row is due; GroupByFlatten, GroupByKeyed and GroupByAscending state them |
| Scheduler.Stamped | main.py:165 | the catalog once the visited rows carry the run's stamp; the row count is kept, and LastCatalogStamps and SnapshotsKeepUndueRows state which rows change |
| Scheduler.FileOfMonotone | main.py:158 | `index // max_users_per_file` never decreases along the catalog |
| Scheduler.GroupByFlatten | main.py:159-163 | reading the groups in order gives back every due row once, in catalog order |
| Scheduler.GroupByKeyed | main.py:158-159 | every group is non-empty and all its rows share its group number |
| Scheduler.GroupByAscending | main.py:159-162 | groups come in strictly ascending group-number order |
| Scheduler.CommittedRows | main.py:159-163 | the rows of the groups before group g are exactly the due rows whose group number is below g's |
| Scheduler.EarlierGroups | main.py:159-163 | over non-empty groups whose rows share their group number, in ascending number order, the groups before g hold exactly the rows whose number is below g's |
| Scheduler.VisitedRows | main.py:162-165 | when the run reaches the j-th row of group g, it has visited exactly the due rows up to that row |
| Scheduler.PlaceAscending | main.py:159 | adding the next due row, whose group number is at least every earlier one, keeps the group numbers strictly ascending |
| Scheduler.FiveRowsTwoPerFile | main.py:158-159 | five due rows, two per file, give the groups [0,1], [2,3], [4] |
| Scheduler.ResumedRunKeepsCatalogGroups | main.py:158-159 | with row 0 already fetched, the first group holds row 1 alone |
| Harvest.ProcessPage | main.py:166-178 | a row with no page name is skipped, and so is one whose fetch raises InvalidTitle or NoPage; the run aborts exactly on another fetch error, a KeyError in normalisation or a talk error; otherwise the rows all carry the page's name |
| Harvest.Tagged | main.py:176 | the normalised rows with the page's name column added, one per user; TalkRows and PagesNamePages state what they carry |
| Harvest.WithTalk | main.py:104-106 | the rows with `user_talk` filled by UserTalk of each row's user, one per row; AddUserTalk is proved to compute it in place |
| Harvest.NewFrame | main.py:174-176 | a fresh array frame holding the page's normalised rows tagged with its name |
| Harvest.PageRowsAreNormalizedUsers | main.py:174-177 | a page's rows have pairwise distinct user keys covering exactly the keys in its revisions; a non-None `user_talk` is non-empty and every segment in it names the user |
| Harvest.TalkRows | main.py:174-177 | the tagged rows keep their users in order, and every kept talk segment names its row's user |
| Harvest.PagesNamePages | main.py:176 | every row a processed page contributes carries that page's name |
| Harvest.AddUserTalk | main.py:93-110 | in place: a talk error leaves the frame unchanged; otherwise each row's `user_talk` becomes UserTalk of its user, and nothing else changes |
| Harvest.HarvestPage | main.py:166-177 | the page processing the loop body performs equals ProcessPage |
| Harvest.LoadCatalog | main.py:158 | a fresh frame holding the loaded catalog with each due row's group set |
| Harvest.VisitRow | main.py:165-177 | visiting a due row stamps exactly that row with the run's time and gives ProcessPage of its page |
| Harvest.RowStep | main.py:163-178 | visiting one more row of a group extends the visited rows by it and the buffer by its page's output |
| Harvest.Buffer | main.py:161-178 | defines `users_df` after the visited rows: the concatenation of their pages' rows; BufferAppend, BufferPageNames and SinkFilesHoldEveryRow state it |
| Harvest.GroupFiles | main.py:179-181 | defines the write after one group: one file named by the group number holding the buffer, none when the buffer is empty; SinkStep states it |
| Harvest.SinkFiles | main.py:161-181 | defines the writes after the groups in order; SinkFilesHoldEveryRow and SinkFilesAscend state them |
| Harvest.Snapshots | main.py:182 | the catalogs written after the groups, one per group with every row visited so far stamped; SnapshotStep, SnapshotsKeepUndueRows and LastCatalogStamps state them |
| Harvest.CompletedRun | main.py:159-183 | defines a run that goes through every group: no visited row failed, every due row is stamped, and the files are the groups' SinkFiles and Snapshots; CompletedRunLeavesNothingDue, CompletedRunFiles and CompletedRunKeepsUndueRows state what it promises |
| Harvest.AbortedRun | main.py:162-182 | defines a run stopped by the first failing row: rows up to it stamped in memory, files as of the group before; AbortedRunKeepsUndueRows and AbortedRunResumesAtItsGroup state what it promises |
| Harvest.Harvester.constructor | main.py:150-151 | the state a run starts from: the catalog file as page discovery wrote it, no users file, and that catalog in memory |
| Harvest.HarvestGroup | main.py:163-178 | over one group: either every row is stamped, none fails and the buffer is the group's Buffer; or the run stops at the first failing row, with the rows up to and including it stamped |
| Harvest.Harvester.SaveParquet | main.py:123-131 | an empty frame writes nothing; otherwise one users file write is logged, and in the directory the group number's file is replaced by the frame |
| Harvest.OnDisk | main.py:131 | defines the users directory after a sequence of writes, where `to_parquet` replaces a file of the same group number; OnDiskLastWriteWins and OnDiskDomain state it |
| Harvest.OnDiskLastWriteWins | main.py:130-131 | a group number's file on disk holds the last frame written under that number |
| Harvest.OnDiskDomain | main.py:130-131 | the directory holds a file for a group number exactly when some write used that number |
| Harvest.OnDiskOverwrite | main.py:130-131 | two writes of one group number leave only the second in the directory |
| Harvest.OneRowGroupFile | main.py:178-181 | a group of one due row whose page yields rows writes one file, numbered by that row's group, holding those rows |
| Harvest.FirstRunFile | main.py:152-182 | a first run over one unstamped row, two users per file, writes group 0 with that page's rows and leaves the row stamped in group 0 |
| Harvest.ResumedRunGroups | main.py:152-159 | over a stamped row followed by an unstamped one, only row 1 is due and it falls in group 0 |
| Harvest.ResumedRunFile | main.py:152-181 | that run writes one file, group 0, holding the new page's rows |
| Harvest.ResumedRunReplacesFile | main.py:152-181 | the SinkFiles of a run over a one-row catalog write group 0 with that page's rows; after a row is added to the catalog that run leaves, the next run's SinkFiles write group 0 again with the new page's rows, and OnDisk of both runs keeps only the second |
| Harvest.Harvester.FetchUsersEditsByPage | main.py:149-184 | a completed run is a CompletedRun and leaves nothing due; an aborted run is an AbortedRun at the first failing row |
| Harvest.NoFailureStep | main.py:163-178 | a group with no failing row extends the failure-free prefix of the run by that group |
| Harvest.SinkStep | main.py:179-181 | a completed group extends the users files by exactly that group's file, or by nothing when its buffer is empty |
| Harvest.SnapshotStep | main.py:165-182 | a completed group adds its rows to the stamped rows and one catalog, with those rows stamped, to the written catalogs |
| Harvest.CompletedAllGroups | main.py:159-184 | when the group loop ends, the run is a CompletedRun and its last written catalog has nothing due |
| Harvest.AbortedInGroup | main.py:170-173 | the first failing row ends the run with the files as of the previous group |
| Harvest.CompletedRunLeavesNothingDue | main.py:152-182 | after a completed run, a run without `reproduce` selects no row |
| Harvest.BufferAppend | main.py:178 | the buffer of two runs of rows is the concatenation of their buffers |
| Harvest.SinkFilesHoldEveryRow | main.py:178-183 | read in order, the users files hold every buffered row of the visited groups exactly once; empty buffers lose nothing |
| Harvest.SinkFilesAscend | main.py:159-181 | every users file has rows, their group numbers strictly ascend, and each holds one group's buffer |
| Harvest.BufferPageNames | main.py:176-178 | every buffered row carries the page name of one of the visited catalog rows |
| Harvest.CompletedRunFiles | main.py:159-183 | a completed run's users files hold the rows of the due pages in catalog order, each has rows, their group numbers ascend, and each row names a due page |
| Harvest.SnapshotsKeepUndueRows | main.py:158-165 | each catalog written after groups of due rows keeps every row that was not due as loaded |
| Harvest.CompletedRunKeepsUndueRows | main.py:158-165 | a completed run changes no row that was not due, in memory or in any written catalog |
| Harvest.AbortedRunKeepsUndueRows | main.py:158-165 | an aborted run changes no row that was not due, in memory or in any written catalog |
| Harvest.LastCatalogStamps | main.py:165-182 | the last written catalog stamps exactly the rows of the committed groups and keeps every other row's stamp |
| Harvest.AbortedRunResumesAtItsGroup | main.py:152-182 | after a run without `reproduce` aborts at a row, the next run selects exactly the rows that were due and whose group number is at least the failing row's |

## Left out

- pywikibot access (`get_wiki_site`, `get_page`, `get_user_contribution`, `page.revisions()`,
  `toggleTalkPage().get()`) is replaced by the two port functions described above.
- Page discovery and CSV appending (`fetch_all_pages`, `append_csv_line`) are only I/O over a
  wiki generator and are not modelled.
- Parquet and CSV writing, the file name `f"{int(group)}_{suffix}"`, the users directory, and
  `os.makedirs('datafolder')` are not modelled. A written users file is a `GroupFile` appended to
  the sink. A written catalog is a snapshot appended to the catalog file.
- Reading the catalog back from CSV is taken to give back the rows as written: dtype coercion
  and NaN handling are not modelled.
- The catalog is assumed to have the `last_fetch_users_ts` column. Without it `.get` returns None
  and the run raises.
- Logging, tqdm, argparse, dataconf and asyncio carry no logic and are not modelled.
- consts.py holds only column-name constants. They appear here as field names.
- Harvest.Harvester.FetchUsersEditsByPage: takes `maxUsersPerFile` as a `nat` and requires it to be
  greater than 0, whereas the source reads `max_users_per_file` as an unchecked int. With 0 the
  floor division gives no usable group number and `int(group)` raises after the group's rows are
  processed; with a negative value the groups run in reverse catalog order. Neither case is modelled. The same requirement is on
  `Scheduler.FileOf`, `Harvest.RunCatalog`, `Harvest.RunGroups` and the run-level lemmas.
- Harvest.Harvester.SaveParquet: the sink logs every write. Row-conservation lemmas such as
  `Harvest.SinkFilesHoldEveryRow` are about one run's writes. The directory itself is `OnDisk`,
  where a later run's file of the same group number replaces an earlier one.
- Harvest.Harvester.FetchUsersEditsByPage: stamps every row with one `now`, whereas the source
  reads the clock for each row.
- Harvest.Harvester.FetchUsersEditsByPage: does not model `normalize_user=False`. On that path the
  raw frame has no `user_name` column, so `add_user_talk` raises KeyError at main.py:104 whenever
  the page's talk page exists; when the talk page is invalid, missing or a redirect it returns
  before that line with `user_talk` None, and the page's raw rows are kept.
- Harvest.AddUserTalk: models only the in-place form (`inplace=True`), the only one the harvest
  calls.
- Aggregator.NormalizeUserDf: lists rows in order of a key's first appearance, whereas pandas
  `groupby` sorts them by (user_name, user_id). Its contract states no order.
- Aggregator.TagUnion: lists tags, and `is_hidden_user` its flags, in order of first appearance,
  whereas `list(set(...))` gives the set's iteration order. Only membership and absence of
  duplicates are stated.
- Sizes are unbounded integers. pandas' int64 sum and NaN sizes are not modelled.
