/**
 * The harvest loop of `fetch_users_edits_by_page` in main.py: for every due
 * catalog row, group by group, stamp the row, fetch the page's revisions,
 * normalise them, attach the talk matches and buffer the rows; after each
 * group write the buffer (when it holds rows) and the whole catalog.
 *
 * The wiki is reached through two ports given as function parameters: the
 * revisions of a page and the text of its talk page.
 */
module Harvest {
  import opened Seqs
  import opened Aggregator
  import opened Talk
  import opened Scheduler

  /** What `page.revisions()` gives: the records, one of the two skipped errors, or any other error. */
  datatype Revisions = Fetched(records: seq<Revision>) | InvalidTitle | NoPage | RevisionsFailure

  /**
   * What `page.toggleTalkPage().get()` gives: the text; TalkMissing for an
   * invalid title, a missing page or a redirect; TalkFailure for any other error.
   */
  datatype TalkPage = TalkText(text: string) | TalkMissing | TalkFailure

  /** One row of a users file: a normalised user row, its page's name and its talk matches. */
  datatype OutputRow = OutputRow(user: UserRow, pageName: string, userTalk: Option<seq<string>>)

  /** What one due catalog row contributes to its group's buffer. */
  datatype PageResult = NoPageName | PageSkipped | PageRows(rows: seq<OutputRow>) | PageFailed

  /** One users file: `f"{int(group)}_{suffix}"` and the rows written to it. */
  datatype GroupFile = GroupFile(group: nat, rows: seq<OutputRow>)

  /** A run either goes through every group or stops at the row whose fetch raised. */
  datatype RunOutcome = Completed | Aborted(row: nat)

  // ---------------------------------------------------------------------------
  // One page

  /** The talk text `add_user_talk` matches against; None when the talk page is missing. */
  function TalkOf(page: TalkPage): Option<string>
    requires !page.TalkFailure?
  {
    if page.TalkText? then Some(page.text) else None
  }

  /** The normalised rows tagged with the page's name, before the talk column is filled. */
  function Tagged(users: seq<UserRow>, pageName: string): (rows: seq<OutputRow>)
    ensures |rows| == |users|
  {
    seq(|users|, i requires 0 <= i < |users| => OutputRow(users[i], pageName, None))
  }

  /** The rows with their `user_talk` column filled from `talk`. */
  function WithTalk(rows: seq<OutputRow>, talk: Option<string>): (r: seq<OutputRow>)
    ensures |r| == |rows|
  {
    seq(|rows|, i requires 0 <= i < |rows| =>
      rows[i].(userTalk := UserTalk(talk, rows[i].user.userName)))
  }

  /**
   * The loop body of `fetch_users_edits_by_page` for one due row after it
   * is stamped: no name skips the row; InvalidTitle and NoPage skip it; any
   * other revisions error, a KeyError in normalisation or a talk error
   * aborts the run; otherwise the page contributes its normalised rows.
   */
  function ProcessPage(pageName: Option<string>, revisions: string -> Revisions, talk: string -> TalkPage): (r: PageResult)
    ensures r.NoPageName? <==> pageName.None?
    ensures r.PageSkipped? <==>
            pageName.Some? && (revisions(pageName.value).InvalidTitle? || revisions(pageName.value).NoPage?)
    ensures r.PageFailed? <==>
            pageName.Some? &&
            (revisions(pageName.value).RevisionsFailure? ||
             (revisions(pageName.value).Fetched? &&
              (!HasKeyColumns(revisions(pageName.value).records) || talk(pageName.value).TalkFailure?)))
    ensures r.PageRows? ==> forall o :: o in r.rows ==> o.pageName == pageName.value
  {
    match pageName
    case None => NoPageName
    case Some(name) =>
      match revisions(name)
      case InvalidTitle => PageSkipped
      case NoPage => PageSkipped
      case RevisionsFailure => PageFailed
      case Fetched(records) =>
        match NormalizeUserDf(records)
        case None => PageFailed
        case Some(users) =>
          if talk(name).TalkFailure? then PageFailed
          else PageRows(WithTalk(Tagged(users, name), TalkOf(talk(name))))
  }

  /**
   * A page's rows are its normalised users, one per distinct (user_name,
   * user_id) among its revisions, each tagged with the page's name; a
   * user's talk matches are None or a non-empty list of talk segments that
   * each mention the user.
   */
  lemma PageRowsAreNormalizedUsers(pageName: Option<string>, revisions: string -> Revisions,
                                   talk: string -> TalkPage)
    requires ProcessPage(pageName, revisions, talk).PageRows?
    ensures pageName.Some? && revisions(pageName.value).Fetched?
    ensures forall i, j :: 0 <= i < j < |ProcessPage(pageName, revisions, talk).rows| ==>
              RowKey(ProcessPage(pageName, revisions, talk).rows[i].user) !=
              RowKey(ProcessPage(pageName, revisions, talk).rows[j].user)
    ensures forall k ::
              (exists i :: 0 <= i < |ProcessPage(pageName, revisions, talk).rows| &&
                           RowKey(ProcessPage(pageName, revisions, talk).rows[i].user) == k) <==>
              (exists j :: 0 <= j < |revisions(pageName.value).records| &&
                           KeyOf(revisions(pageName.value).records[j]) == Some(k))
    ensures forall o :: o in ProcessPage(pageName, revisions, talk).rows && o.userTalk.Some? ==>
              o.userTalk.value != [] && forall s :: s in o.userTalk.value ==> Contains(s, o.user.userName)
  {
    var name := pageName.value;
    var users := NormalizeUserDf(revisions(name).records).value;
    var rows := WithTalk(Tagged(users, name), TalkOf(talk(name)));
    assert ProcessPage(pageName, revisions, talk).rows == rows;
    TalkRows(users, name, TalkOf(talk(name)));
  }

  /** The tagged rows with their talk column carry the given users, in order, and only mentioning segments. */
  lemma TalkRows(users: seq<UserRow>, name: string, text: Option<string>)
    ensures forall i :: 0 <= i < |users| ==> WithTalk(Tagged(users, name), text)[i].user == users[i]
    ensures forall o :: o in WithTalk(Tagged(users, name), text) && o.userTalk.Some? ==>
              o.userTalk.value != [] && forall s :: s in o.userTalk.value ==> Contains(s, o.user.userName)
  {
    forall o | o in WithTalk(Tagged(users, name), text) && o.userTalk.Some?
      ensures o.userTalk.value != [] && forall s :: s in o.userTalk.value ==> Contains(s, o.user.userName)
    {
      MentionsOnly(Split(text.value, IstDelimiter), o.user.userName);
    }
  }

  /**
   * `add_user_talk` on a page's frame, in place: a failing talk page raises
   * and leaves the frame as it was; a missing one sets every row's
   * `user_talk` to None; otherwise each row gets the segments of the talk
   * text that mention its user, or None when there are none.
   */
  method AddUserTalk(frame: array<OutputRow>, page: TalkPage) returns (completed: bool)
    modifies frame
    ensures completed == !page.TalkFailure?
    ensures completed ==> frame[..] == WithTalk(old(frame[..]), TalkOf(page))
    ensures !completed ==> frame[..] == old(frame[..])
  {
    if page.TalkFailure? {
      return false;
    }
    if page.TalkMissing? {
      for i := 0 to frame.Length
        invariant forall j :: 0 <= j < i ==> frame[j] == old(frame[j]).(userTalk := None)
        invariant forall j :: i <= j < frame.Length ==> frame[j] == old(frame[j])
      {
        frame[i] := frame[i].(userTalk := None);
      }
      return true;
    }
    var talksList := Split(page.text, IstDelimiter);
    for i := 0 to frame.Length
      invariant forall j :: 0 <= j < i ==>
                  frame[j] == old(frame[j]).(userTalk := UserTalk(Some(page.text), old(frame[j]).user.userName))
      invariant forall j :: i <= j < frame.Length ==> frame[j] == old(frame[j])
    {
      var matched := Mentioning(talksList, frame[i].user.userName);
      frame[i] := frame[i].(userTalk := if matched == [] then None else Some(matched));
    }
    return true;
  }

  /** One due row's fetch, normalisation and talk matching, as the loop body runs it. */
  method HarvestPage(pageName: Option<string>, revisions: string -> Revisions, talk: string -> TalkPage)
    returns (result: PageResult)
    ensures result == ProcessPage(pageName, revisions, talk)
  {
    if pageName.None? {
      return NoPageName;
    }
    var name := pageName.value;
    var fetched := revisions(name);
    if fetched.InvalidTitle? || fetched.NoPage? {
      return PageSkipped;
    }
    if fetched.RevisionsFailure? {
      return PageFailed;
    }
    var normalized := NormalizeUserDf(fetched.records);
    if normalized.None? {
      return PageFailed;
    }
    var users := normalized.value;
    var frame := NewFrame(users, name);
    var completed := AddUserTalk(frame, talk(name));
    if !completed {
      return PageFailed;
    }
    assert ProcessPage(pageName, revisions, talk) == PageRows(WithTalk(Tagged(users, name), TalkOf(talk(name))));
    return PageRows(frame[..]);
  }

  /** The page's frame: its normalised users tagged with the page's name. */
  method NewFrame(users: seq<UserRow>, name: string) returns (frame: array<OutputRow>)
    ensures fresh(frame) && frame[..] == Tagged(users, name)
  {
    frame := new OutputRow[|users|](i requires 0 <= i < |users| => OutputRow(users[i], name, None));
  }

  // ---------------------------------------------------------------------------
  // A whole run, as functions of the catalog it loads

  /**
   * The processing of one page with the given ports. The run-level
   * functions below take such a processing as a parameter.
   */
  function Pages(revisions: string -> Revisions, talk: string -> TalkPage): Option<string> -> PageResult {
    pageName => ProcessPage(pageName, revisions, talk)
  }

  /** Every row a page contributes carries that page's name. */
  ghost predicate NamesPages(process: Option<string> -> PageResult) {
    forall pageName :: process(pageName).PageRows? ==>
      pageName.Some? && forall o :: o in process(pageName).rows ==> o.pageName == pageName.value
  }

  lemma PagesNamePages(revisions: string -> Revisions, talk: string -> TalkPage)
    ensures NamesPages(Pages(revisions, talk))
  {
  }

  /** The rows catalog row `x` adds to its group's buffer. */
  function PageOutput(catalog: seq<CatalogRow>, x: nat, process: Option<string> -> PageResult): seq<OutputRow>
  {
    if x < |catalog| && process(catalog[x].pageName).PageRows? then
      process(catalog[x].pageName).rows
    else []
  }

  /** Catalog row `x` makes the run abort. */
  predicate Failed(catalog: seq<CatalogRow>, x: nat, process: Option<string> -> PageResult) {
    x < |catalog| && process(catalog[x].pageName).PageFailed?
  }

  /** The buffer after visiting `xs` in order: `pd.concat` of their rows. */
  function Buffer(catalog: seq<CatalogRow>, xs: seq<nat>, process: Option<string> -> PageResult): seq<OutputRow>
  {
    if xs == [] then []
    else Buffer(catalog, xs[..|xs| - 1], process) + PageOutput(catalog, Last(xs), process)
  }

  /** `save_parquet` after group `g`: one file, unless the buffer is empty. */
  function GroupFiles(catalog: seq<CatalogRow>, g: seq<nat>, key: nat -> nat, process: Option<string> -> PageResult): seq<GroupFile>
  {
    var rows := Buffer(catalog, g, process);
    if rows == [] then [] else [GroupFile(GroupKey(g, key), rows)]
  }

  /** The users files written after the groups `gs`, in order. */
  function SinkFiles(catalog: seq<CatalogRow>, gs: seq<seq<nat>>, key: nat -> nat, process: Option<string> -> PageResult): seq<GroupFile>
  {
    if gs == [] then []
    else SinkFiles(catalog, gs[..|gs| - 1], key, process) + GroupFiles(catalog, Last(gs), key, process)
  }

  /**
   * The users directory after the writes in `files`: `to_parquet` replaces a
   * file of the same name, and the name is the group number, so the last
   * write of a group number wins.
   */
  function OnDisk(files: seq<GroupFile>): map<nat, seq<OutputRow>> {
    if files == [] then map[] else OnDisk(files[..|files| - 1])[Last(files).group := Last(files).rows]
  }

  /** A group number is on disk exactly when some write used it, and it holds that number's last write. */
  lemma {:induction false} OnDiskLastWriteWins(files: seq<GroupFile>, i: nat)
    requires i < |files|
    requires forall j :: i < j < |files| ==> files[j].group != files[i].group
    ensures files[i].group in OnDisk(files) && OnDisk(files)[files[i].group] == files[i].rows
    decreases |files|
  {
    var n := |files| - 1;
    if i < n {
      OnDiskLastWriteWins(files[..n], i);
    }
  }

  lemma {:induction false} OnDiskDomain(files: seq<GroupFile>)
    ensures forall g :: g in OnDisk(files) <==> exists i :: 0 <= i < |files| && files[i].group == g
    decreases |files|
  {
    if files != [] {
      var n := |files| - 1;
      OnDiskDomain(files[..n]);
      forall g | g in OnDisk(files) && g != files[n].group
        ensures exists i :: 0 <= i < |files| && files[i].group == g
      {
        assert g in OnDisk(files[..n]);
        var i :| 0 <= i < |files[..n]| && files[..n][i].group == g;
        assert files[i].group == g;
      }
      forall g | (exists i :: 0 <= i < |files| && files[i].group == g) && g != files[n].group
        ensures g in OnDisk(files[..n])
      {
        var i :| 0 <= i < |files| && files[i].group == g;
        assert files[..n][i].group == g;
      }
    }
  }

  /** The catalogs written after the groups `gs`: each with every row visited so far stamped. */
  function Snapshots(catalog: seq<CatalogRow>, gs: seq<seq<nat>>, now: Stamp): (r: seq<seq<CatalogRow>>)
    ensures |r| == |gs|
  {
    if gs == [] then []
    else Snapshots(catalog, gs[..|gs| - 1], now) + [Stamped(catalog, Flatten(gs), now)]
  }

  /** The catalog of a run once its group column is set (main.py:158). */
  function RunCatalog(loaded: seq<CatalogRow>, reproduce: bool, maxUsersPerFile: nat): (r: seq<CatalogRow>)
    requires maxUsersPerFile > 0
    ensures |r| == |loaded|
  {
    Grouped(loaded, JobMask(loaded, reproduce), maxUsersPerFile)
  }

  /** The groups of a run, in the order `groupby('group')` yields them. */
  function RunGroups(loaded: seq<CatalogRow>, reproduce: bool, maxUsersPerFile: nat): seq<seq<nat>>
    requires maxUsersPerFile > 0
  {
    GroupBy(Positions(JobMask(loaded, reproduce)), FileOf(maxUsersPerFile))
  }

  /** Two writes of one group number leave the second in the directory. */
  lemma OnDiskOverwrite(group: nat, earlier: seq<OutputRow>, later: seq<OutputRow>)
    ensures OnDisk([GroupFile(group, earlier), GroupFile(group, later)]) == map[group := later]
  {
    var files := [GroupFile(group, earlier), GroupFile(group, later)];
    assert files[..1][..0] == [];
    assert OnDisk(files[..1]) == map[group := earlier];
  }

  /** A due row alone in its group, whose page yields rows, makes one users file holding those rows. */
  lemma OneRowGroupFile(catalog: seq<CatalogRow>, x: nat, key: nat -> nat, process: Option<string> -> PageResult)
    requires x < |catalog| && process(catalog[x].pageName).PageRows? && process(catalog[x].pageName).rows != []
    ensures SinkFiles(catalog, [[x]], key, process) == [GroupFile(key(x), process(catalog[x].pageName).rows)]
  {
    var g: seq<nat> := [x];
    assert g[..0] == [] && Last(g) == x;
    assert Buffer(catalog, g, process) == process(catalog[x].pageName).rows;
    var gs: seq<seq<nat>> := [g];
    assert gs[..0] == [] && Last(gs) == g;
  }

  /**
   * A first run over a single unstamped row, two users per file: one group,
   * number 0, holding row 0, whose file holds that page's rows; the run
   * leaves the row stamped and in group 0.
   */
  lemma FirstRunFile(first: CatalogRow, now: Stamp, process: Option<string> -> PageResult)
    requires first.lastFetchUsersTs.None?
    requires process(first.pageName).PageRows? && process(first.pageName).rows != []
    ensures SinkFiles(RunCatalog([first], false, 2), RunGroups([first], false, 2), FileOf(2), process)
            == [GroupFile(0, process(first.pageName).rows)]
    ensures Stamped(RunCatalog([first], false, 2), Flatten(RunGroups([first], false, 2)), now)
            == [first.(group := Some(0), lastFetchUsersTs := Some(now))]
  {
    var mask := JobMask([first], false);
    assert mask == [true];
    assert mask[..0] == [];
    assert Positions(mask) == [0];
    var xs: seq<nat> := [0];
    GroupBySingle(0, FileOf(2));
    assert RunGroups([first], false, 2) == [xs];
    var grouped := RunCatalog([first], false, 2);
    assert grouped == [first.(group := Some(0))];
    OneRowGroupFile(grouped, 0, FileOf(2), process);
    assert Flatten([xs]) == xs by { assert [xs][..0] == []; }
  }

  /**
   * A later run over a stamped row followed by an unstamped one: only row 1
   * is due, and numbered by its catalog index it falls in group 0, whose
   * file holds that page's rows.
   */
  lemma ResumedRunFile(done: CatalogRow, added: CatalogRow, process: Option<string> -> PageResult)
    requires done.lastFetchUsersTs.Some? && added.lastFetchUsersTs.None?
    requires process(added.pageName).PageRows? && process(added.pageName).rows != []
    ensures SinkFiles(RunCatalog([done, added], false, 2), RunGroups([done, added], false, 2), FileOf(2), process)
            == [GroupFile(0, process(added.pageName).rows)]
  {
    ResumedRunGroups(done, added);
    OneRowGroupFile(RunCatalog([done, added], false, 2), 1, FileOf(2), process);
    assert FileOf(2)(1) == 0;
  }

  /** Only row 1 of a stamped row followed by an unstamped one is due; it falls in group 0. */
  lemma ResumedRunGroups(done: CatalogRow, added: CatalogRow)
    requires done.lastFetchUsersTs.Some? && added.lastFetchUsersTs.None?
    ensures RunGroups([done, added], false, 2) == [[1]]
    ensures RunCatalog([done, added], false, 2)[1] == added.(group := Some(0))
  {
    var mask := JobMask([done, added], false);
    assert mask[0] == false && mask[1] == true;
    assert mask == [false, true];
    var head := mask[..1];
    assert head == [false] && head[..0] == [];
    assert Positions(head) == [];
    assert Positions(mask) == [1];
    GroupBySingle(1, FileOf(2));
  }

  /**
   * A run over a one-row catalog writes group 0 with that row's users. Once
   * a row is added to the catalog that run leaves, the next run finds only
   * the new row due; numbered by its catalog index, it falls in group 0
   * again, so its file replaces the earlier one and the first page's users
   * are no longer in the directory.
   */
  lemma ResumedRunReplacesFile(first: CatalogRow, added: CatalogRow, now: Stamp, process: Option<string> -> PageResult)
    requires first.lastFetchUsersTs.None? && added.lastFetchUsersTs.None?
    requires process(first.pageName).PageRows? && process(first.pageName).rows != []
    requires process(added.pageName).PageRows? && process(added.pageName).rows != []
    ensures var sink1 := SinkFiles(RunCatalog([first], false, 2), RunGroups([first], false, 2), FileOf(2), process);
            var resumed := Stamped(RunCatalog([first], false, 2), Flatten(RunGroups([first], false, 2)), now) + [added];
            var sink2 := SinkFiles(RunCatalog(resumed, false, 2), RunGroups(resumed, false, 2), FileOf(2), process);
            && sink1 == [GroupFile(0, process(first.pageName).rows)]
            && sink2 == [GroupFile(0, process(added.pageName).rows)]
            && OnDisk(sink1 + sink2) == map[0 := process(added.pageName).rows]
  {
    FirstRunFile(first, now, process);
    var done := first.(group := Some(0), lastFetchUsersTs := Some(now));
    assert [done] + [added] == [done, added];
    ResumedRunFile(done, added, process);
    OnDiskOverwrite(0, process(first.pageName).rows, process(added.pageName).rows);
  }

  /**
   * Row `row`, the `j`-th of group `g`, is the first row of the run whose
   * fetch fails: it fails and every row visited before it does not.
   */
  ghost predicate AbortPoint(loaded: seq<CatalogRow>, reproduce: bool, maxUsersPerFile: nat,
                             process: Option<string> -> PageResult, row: nat, g: int, j: int)
    requires maxUsersPerFile > 0
  {
    var grouped := RunCatalog(loaded, reproduce, maxUsersPerFile);
    var gs := RunGroups(loaded, reproduce, maxUsersPerFile);
    && 0 <= g < |gs| && 0 <= j < |gs[g]| && gs[g][j] == row
    && Failed(grouped, row, process)
    && (forall x :: x in Flatten(gs[..g]) + gs[g][..j] ==> !Failed(grouped, x, process))
  }

  /**
   * A run over `loaded` that went through every group: no visited row
   * failed, every due row is stamped, one users file was written per group
   * whose buffer held rows, and one catalog per group.
   */
  ghost predicate CompletedRun(loaded: seq<CatalogRow>, reproduce: bool, maxUsersPerFile: nat, now: Stamp,
                               process: Option<string> -> PageResult,
                               inMemory: seq<CatalogRow>, sink0: seq<GroupFile>, sink: seq<GroupFile>,
                               persisted0: seq<seq<CatalogRow>>, persisted: seq<seq<CatalogRow>>)
    requires maxUsersPerFile > 0
  {
    var grouped := RunCatalog(loaded, reproduce, maxUsersPerFile);
    var gs := RunGroups(loaded, reproduce, maxUsersPerFile);
    && (forall x :: x in Flatten(gs) ==> !Failed(grouped, x, process))
    && inMemory == Stamped(grouped, Flatten(gs), now)
    && sink == sink0 + SinkFiles(grouped, gs, FileOf(maxUsersPerFile), process)
    && persisted == persisted0 + Snapshots(grouped, gs, now)
  }

  /**
   * A run over `loaded` that stopped at `row`: the rows up to it are
   * stamped in memory, while the files hold what the groups before its
   * group wrote.
   */
  ghost predicate AbortedRun(loaded: seq<CatalogRow>, reproduce: bool, maxUsersPerFile: nat, now: Stamp,
                             process: Option<string> -> PageResult, row: nat,
                             inMemory: seq<CatalogRow>, sink0: seq<GroupFile>, sink: seq<GroupFile>,
                             persisted0: seq<seq<CatalogRow>>, persisted: seq<seq<CatalogRow>>)
    requires maxUsersPerFile > 0
  {
    var grouped := RunCatalog(loaded, reproduce, maxUsersPerFile);
    var gs := RunGroups(loaded, reproduce, maxUsersPerFile);
    exists g, j :: AbortPoint(loaded, reproduce, maxUsersPerFile, process, row, g, j)
      && inMemory == Stamped(grouped, Flatten(gs[..g]) + gs[g][..j + 1], now)
      && sink == sink0 + SinkFiles(grouped, gs[..g], FileOf(maxUsersPerFile), process)
      && persisted == persisted0 + Snapshots(grouped, gs[..g], now)
  }

  /** No row is due for a run without `reproduce`. */
  predicate NoneDue(catalog: seq<CatalogRow>) {
    forall i :: 0 <= i < |catalog| ==> !JobMask(catalog, false)[i]
  }

  // ---------------------------------------------------------------------------
  // The harvester

  /**
   * The state `fetch_users_edits_by_page` works on: the catalog file (every
   * version written, the first being the one page discovery produced), the
   * users files written, and the in-memory catalog of the latest run.
   */
  class Harvester {
    var persisted: seq<seq<CatalogRow>>
    var sink: seq<GroupFile>
    var catalog: array<CatalogRow>

    ghost predicate Valid()
      reads this
    {
      |persisted| > 0
    }

    /** The catalog file's current content, which a run reads. */
    function CatalogFile(): seq<CatalogRow>
      reads this
      requires Valid()
    {
      Last(persisted)
    }

    constructor(discovered: seq<CatalogRow>)
      ensures Valid() && CatalogFile() == discovered
      ensures persisted == [discovered] && sink == [] && catalog[..] == discovered
    {
      persisted := [discovered];
      sink := [];
      catalog := new CatalogRow[|discovered|](i requires 0 <= i < |discovered| => discovered[i]);
    }

    /** `save_parquet`: an empty frame writes nothing. */
    method SaveParquet(group: nat, frame: seq<OutputRow>)
      modifies this
      ensures sink == old(sink) + (if frame == [] then [] else [GroupFile(group, frame)])
      ensures OnDisk(sink) == if frame == [] then old(OnDisk(sink)) else old(OnDisk(sink))[group := frame]
      ensures persisted == old(persisted) && catalog == old(catalog)
    {
      if frame == [] {
        return;
      }
      sink := sink + [GroupFile(group, frame)];
      assert sink[..|sink| - 1] == old(sink);
    }

    /**
     * One run. It reads the catalog file, marks the due rows with their
     * group, and walks the groups in order; each visited row is stamped
     * with `now` before its page is fetched. After each group the buffer is
     * written when it holds rows and the whole catalog is written. A failing
     * fetch ends the run at that row, with the files as of the previous group.
     */
    method FetchUsersEditsByPage(reproduce: bool, maxUsersPerFile: nat, now: Stamp,
                                 revisions: string -> Revisions, talk: string -> TalkPage)
      returns (outcome: RunOutcome)
      requires Valid() && maxUsersPerFile > 0
      modifies this
      ensures Valid() && fresh(catalog)
      ensures outcome.Completed? ==>
                CompletedRun(old(CatalogFile()), reproduce, maxUsersPerFile, now, Pages(revisions, talk),
                             catalog[..], old(sink), sink, old(persisted), persisted)
      ensures outcome.Completed? ==> NoneDue(CatalogFile())
      ensures outcome.Aborted? ==>
                AbortedRun(old(CatalogFile()), reproduce, maxUsersPerFile, now, Pages(revisions, talk), outcome.row,
                           catalog[..], old(sink), sink, old(persisted), persisted)
    {
      var loaded := CatalogFile();
      var mask := JobMask(loaded, reproduce);
      var key := FileOf(maxUsersPerFile);
      ghost var grouped := RunCatalog(loaded, reproduce, maxUsersPerFile);
      ghost var process := Pages(revisions, talk);
      ghost var sink0 := sink;
      ghost var persisted0 := persisted;
      var frame := LoadCatalog(loaded, mask, maxUsersPerFile);
      assert loaded == old(CatalogFile());
      catalog := frame;
      var groups := GroupBy(Positions(mask), key);
      assert groups == RunGroups(loaded, reproduce, maxUsersPerFile);
      assert groups[..0] == [];
      assert Stamped(grouped, [], now) == grouped;
      var g := 0;
      while g < |groups|
        invariant 0 <= g <= |groups|
        invariant catalog == frame && frame.Length == |loaded|
        invariant |persisted| > 0
        invariant forall x :: x in Flatten(groups[..g]) ==> !Failed(grouped, x, process)
        invariant frame[..] == Stamped(grouped, Flatten(groups[..g]), now)
        invariant sink == sink0 + SinkFiles(grouped, groups[..g], key, process)
        invariant persisted == persisted0 + Snapshots(grouped, groups[..g], now)
      {
        var rows := groups[g];
        RowsInRange(loaded, reproduce, maxUsersPerFile, g);
        ghost var before := Flatten(groups[..g]);
        var buffer, failed := HarvestGroup(frame, grouped, before, rows, now, revisions, talk);
        if failed.Some? {
          ghost var j :| 0 <= j < |rows| && rows[j] == failed.value
                && Failed(grouped, rows[j], process)
                && (forall x :: x in rows[..j] ==> !Failed(grouped, x, process))
                && frame[..] == Stamped(grouped, before + rows[..j + 1], now);
          AbortedInGroup(loaded, reproduce, maxUsersPerFile, now, process, g, j,
                         frame[..], sink0, sink, persisted0, persisted);
          return Aborted(failed.value);
        }
        SaveParquet(GroupKey(rows, key), buffer);
        persisted := persisted + [frame[..]];
        NoFailureStep(grouped, groups, g, process);
        SinkStep(grouped, groups, g, key, process, sink0);
        SnapshotStep(grouped, groups, g, now, persisted0);
        g := g + 1;
      }
      CompletedAllGroups(loaded, reproduce, maxUsersPerFile, now, process, g,
                         catalog[..], sink0, sink, persisted0, persisted);
      outcome := Completed;
    }
  }

  /** main.py:158: the loaded catalog with each due row's group set, in a fresh frame. */
  method LoadCatalog(loaded: seq<CatalogRow>, mask: seq<bool>, maxUsersPerFile: nat) returns (frame: array<CatalogRow>)
    requires |mask| == |loaded| && maxUsersPerFile > 0
    ensures fresh(frame) && frame[..] == Grouped(loaded, mask, maxUsersPerFile)
  {
    frame := new CatalogRow[|loaded|](i requires 0 <= i < |loaded| => loaded[i]);
    forall i | 0 <= i < frame.Length && mask[i] {
      frame[i] := frame[i].(group := Some(i / maxUsersPerFile));
    }
  }

  /**
   * The inner loop over one group's rows: stamp the row, process its page,
   * and add its rows to the group's buffer; stop at the first row whose
   * fetch fails.
   */
  method HarvestGroup(frame: array<CatalogRow>, ghost grouped: seq<CatalogRow>, ghost before: seq<nat>,
                      rows: seq<nat>, now: Stamp, revisions: string -> Revisions, talk: string -> TalkPage)
    returns (buffer: seq<OutputRow>, failed: Option<nat>)
    requires frame.Length == |grouped| && frame[..] == Stamped(grouped, before, now)
    requires forall j :: 0 <= j < |rows| ==> rows[j] < |grouped|
    modifies frame
    ensures failed.None? ==>
              && buffer == Buffer(grouped, rows, Pages(revisions, talk))
              && (forall x :: x in rows ==> !Failed(grouped, x, Pages(revisions, talk)))
              && frame[..] == Stamped(grouped, before + rows, now)
    ensures failed.Some? ==>
              exists j :: 0 <= j < |rows| && rows[j] == failed.value
                && Failed(grouped, rows[j], Pages(revisions, talk))
                && (forall x :: x in rows[..j] ==> !Failed(grouped, x, Pages(revisions, talk)))
                && frame[..] == Stamped(grouped, before + rows[..j + 1], now)
  {
    ghost var process := Pages(revisions, talk);
    buffer := [];
    var j := 0;
    while j < |rows|
      invariant 0 <= j <= |rows|
      invariant forall x :: x in rows[..j] ==> !Failed(grouped, x, process)
      invariant frame[..] == Stamped(grouped, before + rows[..j], now)
      invariant buffer == Buffer(grouped, rows[..j], process)
    {
      var x := rows[j];
      RowStep(grouped, before, rows, j, process);
      var result := VisitRow(frame, grouped, before + rows[..j], x, now, revisions, talk);
      assert result == process(grouped[x].pageName);
      if result.PageFailed? {
        return buffer, Some(x);
      }
      buffer := buffer + (if result.PageRows? then result.rows else []);
      j := j + 1;
    }
    assert rows[..j] == rows;
    return buffer, None;
  }

  /** One due row (main.py:165-177): stamp it, then process its page. */
  method VisitRow(frame: array<CatalogRow>, ghost grouped: seq<CatalogRow>, ghost visited: seq<nat>, x: nat,
                  now: Stamp, revisions: string -> Revisions, talk: string -> TalkPage)
    returns (result: PageResult)
    requires frame.Length == |grouped| && x < |grouped| && frame[..] == Stamped(grouped, visited, now)
    modifies frame
    ensures frame[..] == Stamped(grouped, visited + [x], now)
    ensures result == ProcessPage(grouped[x].pageName, revisions, talk)
  {
    StampOne(grouped, visited, x, now);
    frame[x] := frame[x].(lastFetchUsersTs := Some(now));
    result := HarvestPage(frame[x].pageName, revisions, talk);
  }

  // ---------------------------------------------------------------------------
  // Steps of the run loop

  lemma RowsInRange(loaded: seq<CatalogRow>, reproduce: bool, maxUsersPerFile: nat, g: nat)
    requires maxUsersPerFile > 0
    requires g < |RunGroups(loaded, reproduce, maxUsersPerFile)|
    ensures forall j :: 0 <= j < |RunGroups(loaded, reproduce, maxUsersPerFile)[g]| ==>
              RunGroups(loaded, reproduce, maxUsersPerFile)[g][j] < |loaded|
  {
    var xs := Positions(JobMask(loaded, reproduce));
    var gs := RunGroups(loaded, reproduce, maxUsersPerFile);
    GroupByFlatten(xs, FileOf(maxUsersPerFile));
    forall j | 0 <= j < |gs[g]| ensures gs[g][j] < |loaded| {
      FlattenMember(gs, gs[g][j]);
    }
  }

  /** Stamping one more visited row changes that row's users timestamp and nothing else. */
  lemma StampOne(catalog: seq<CatalogRow>, visited: seq<nat>, x: nat, now: Stamp)
    requires x < |catalog|
    ensures Stamped(catalog, visited + [x], now) ==
            Stamped(catalog, visited, now)[x := catalog[x].(lastFetchUsersTs := Some(now))]
  {
  }

  /** What visiting the `j`-th row of a group adds to the visited rows, the failures and the buffer. */
  lemma RowStep(catalog: seq<CatalogRow>, before: seq<nat>, rows: seq<nat>, j: nat,
                process: Option<string> -> PageResult)
    requires j < |rows|
    ensures before + rows[..j + 1] == (before + rows[..j]) + [rows[j]]
    ensures !Failed(catalog, rows[j], process) ==>
              forall x :: x in rows[..j + 1] ==> x in rows[..j] || !Failed(catalog, x, process)
    ensures Buffer(catalog, rows[..j + 1], process) ==
            Buffer(catalog, rows[..j], process) + PageOutput(catalog, rows[j], process)
  {
    assert rows[..j + 1] == rows[..j] + [rows[j]];
  }

  /** No row of the groups so far failed, one group further. */
  lemma NoFailureStep(grouped: seq<CatalogRow>, gs: seq<seq<nat>>, g: nat,
                      process: Option<string> -> PageResult)
    requires g < |gs|
    requires forall x :: x in Flatten(gs[..g]) ==> !Failed(grouped, x, process)
    requires forall x :: x in gs[g] ==> !Failed(grouped, x, process)
    ensures forall x :: x in Flatten(gs[..g + 1]) ==> !Failed(grouped, x, process)
  {
    var next := gs[..g + 1];
    assert next[..|next| - 1] == gs[..g] && Last(next) == gs[g];
  }

  /** The users files written so far, one group further. */
  lemma SinkStep(grouped: seq<CatalogRow>, gs: seq<seq<nat>>, g: nat, key: nat -> nat,
                 process: Option<string> -> PageResult, sink0: seq<GroupFile>)
    requires g < |gs|
    ensures (sink0 + SinkFiles(grouped, gs[..g], key, process)) + GroupFiles(grouped, gs[g], key, process) ==
            sink0 + SinkFiles(grouped, gs[..g + 1], key, process)
  {
    var next := gs[..g + 1];
    assert next[..|next| - 1] == gs[..g] && Last(next) == gs[g];
  }

  /** The catalogs written so far, one group further. */
  lemma SnapshotStep(grouped: seq<CatalogRow>, gs: seq<seq<nat>>, g: nat, now: Stamp,
                     persisted0: seq<seq<CatalogRow>>)
    requires g < |gs|
    ensures Flatten(gs[..g + 1]) == Flatten(gs[..g]) + gs[g]
    ensures (persisted0 + Snapshots(grouped, gs[..g], now)) + [Stamped(grouped, Flatten(gs[..g]) + gs[g], now)] ==
            persisted0 + Snapshots(grouped, gs[..g + 1], now)
  {
    var next := gs[..g + 1];
    assert next[..|next| - 1] == gs[..g] && Last(next) == gs[g];
  }

  /** A group that stops at its `j`-th row ends the run as an aborted run. */
  lemma AbortedInGroup(loaded: seq<CatalogRow>, reproduce: bool, maxUsersPerFile: nat, now: Stamp,
                       process: Option<string> -> PageResult, g: nat, j: nat,
                       inMemory: seq<CatalogRow>, sink0: seq<GroupFile>, sink: seq<GroupFile>,
                       persisted0: seq<seq<CatalogRow>>, persisted: seq<seq<CatalogRow>>)
    requires maxUsersPerFile > 0
    requires g < |RunGroups(loaded, reproduce, maxUsersPerFile)|
    requires j < |RunGroups(loaded, reproduce, maxUsersPerFile)[g]|
    requires Failed(RunCatalog(loaded, reproduce, maxUsersPerFile),
                    RunGroups(loaded, reproduce, maxUsersPerFile)[g][j], process)
    requires forall x :: x in Flatten(RunGroups(loaded, reproduce, maxUsersPerFile)[..g]) ==>
               !Failed(RunCatalog(loaded, reproduce, maxUsersPerFile), x, process)
    requires forall x :: x in RunGroups(loaded, reproduce, maxUsersPerFile)[g][..j] ==>
               !Failed(RunCatalog(loaded, reproduce, maxUsersPerFile), x, process)
    requires inMemory == Stamped(RunCatalog(loaded, reproduce, maxUsersPerFile),
                                 Flatten(RunGroups(loaded, reproduce, maxUsersPerFile)[..g]) +
                                 RunGroups(loaded, reproduce, maxUsersPerFile)[g][..j + 1], now)
    requires sink == sink0 + SinkFiles(RunCatalog(loaded, reproduce, maxUsersPerFile),
                                       RunGroups(loaded, reproduce, maxUsersPerFile)[..g],
                                       FileOf(maxUsersPerFile), process)
    requires persisted == persisted0 + Snapshots(RunCatalog(loaded, reproduce, maxUsersPerFile),
                                                 RunGroups(loaded, reproduce, maxUsersPerFile)[..g], now)
    ensures AbortedRun(loaded, reproduce, maxUsersPerFile, now, process,
                       RunGroups(loaded, reproduce, maxUsersPerFile)[g][j],
                       inMemory, sink0, sink, persisted0, persisted)
  {
    var row := RunGroups(loaded, reproduce, maxUsersPerFile)[g][j];
    assert AbortPoint(loaded, reproduce, maxUsersPerFile, process, row, g, j);
  }

  // ---------------------------------------------------------------------------
  // What a run promises

  /** The loop of `fetch_users_edits_by_page` went through every group: the run completed and nothing is left due. */
  lemma CompletedAllGroups(loaded: seq<CatalogRow>, reproduce: bool, maxUsersPerFile: nat, now: Stamp,
                           process: Option<string> -> PageResult, g: nat,
                           inMemory: seq<CatalogRow>, sink0: seq<GroupFile>, sink: seq<GroupFile>,
                           persisted0: seq<seq<CatalogRow>>, persisted: seq<seq<CatalogRow>>)
    requires maxUsersPerFile > 0 && g == |RunGroups(loaded, reproduce, maxUsersPerFile)|
    requires |persisted0| > 0 && Last(persisted0) == loaded
    requires forall x :: x in Flatten(RunGroups(loaded, reproduce, maxUsersPerFile)[..g]) ==>
               !Failed(RunCatalog(loaded, reproduce, maxUsersPerFile), x, process)
    requires inMemory == Stamped(RunCatalog(loaded, reproduce, maxUsersPerFile),
                                 Flatten(RunGroups(loaded, reproduce, maxUsersPerFile)[..g]), now)
    requires sink == sink0 + SinkFiles(RunCatalog(loaded, reproduce, maxUsersPerFile),
                                       RunGroups(loaded, reproduce, maxUsersPerFile)[..g],
                                       FileOf(maxUsersPerFile), process)
    requires persisted == persisted0 + Snapshots(RunCatalog(loaded, reproduce, maxUsersPerFile),
                                                 RunGroups(loaded, reproduce, maxUsersPerFile)[..g], now)
    ensures CompletedRun(loaded, reproduce, maxUsersPerFile, now, process, inMemory, sink0, sink, persisted0, persisted)
    ensures |persisted| > 0 && NoneDue(Last(persisted))
  {
    var gs := RunGroups(loaded, reproduce, maxUsersPerFile);
    var snapshots := Snapshots(RunCatalog(loaded, reproduce, maxUsersPerFile), gs, now);
    assert gs[..g] == gs;
    CompletedRunLeavesNothingDue(loaded, reproduce, maxUsersPerFile, now);
    assert Last(persisted) == Last([loaded] + snapshots) by {
      if snapshots == [] {
        assert persisted == persisted0;
      } else {
        assert Last(persisted) == Last(snapshots);
      }
    }
  }

  /**
   * After a run that completes, a second run without `reproduce` selects no
   * row: every due row was stamped and every other row already had a stamp.
   */
  lemma CompletedRunLeavesNothingDue(loaded: seq<CatalogRow>, reproduce: bool, maxUsersPerFile: nat, now: Stamp)
    requires maxUsersPerFile > 0
    ensures NoneDue(Last([loaded] + Snapshots(RunCatalog(loaded, reproduce, maxUsersPerFile),
                                              RunGroups(loaded, reproduce, maxUsersPerFile), now)))
  {
    var mask := JobMask(loaded, reproduce);
    var grouped := RunCatalog(loaded, reproduce, maxUsersPerFile);
    var gs := RunGroups(loaded, reproduce, maxUsersPerFile);
    GroupByFlatten(Positions(mask), FileOf(maxUsersPerFile));
    if gs == [] {
      assert Positions(mask) == [];
      assert Last([loaded] + Snapshots(grouped, gs, now)) == loaded;
      forall i | 0 <= i < |loaded| ensures loaded[i].lastFetchUsersTs.Some? {
        assert i !in Positions(mask);
      }
    } else {
      var after := Stamped(grouped, Flatten(gs), now);
      assert Last([loaded] + Snapshots(grouped, gs, now)) == after;
      forall i | 0 <= i < |after| ensures after[i].lastFetchUsersTs.Some? {
        assert mask[i] ==> i in Positions(mask);
      }
    }
  }

  // ---------------------------------------------------------------------------
  // What the users files hold

  /** The rows of `files`, in the order they were written. */
  function FileRows(files: seq<GroupFile>): seq<OutputRow> {
    if files == [] then [] else FileRows(files[..|files| - 1]) + Last(files).rows
  }

  /** Every file written has rows, and the group numbers strictly ascend. */
  predicate FilesAscending(files: seq<GroupFile>) {
    && (forall f :: f in files ==> f.rows != [])
    && (forall a, b :: 0 <= a < b < |files| ==> files[a].group < files[b].group)
  }

  /** The buffer of two runs of rows is the concatenation of their buffers. */
  lemma {:induction false} BufferAppend(catalog: seq<CatalogRow>, xs: seq<nat>, ys: seq<nat>,
                                        process: Option<string> -> PageResult)
    ensures Buffer(catalog, xs + ys, process) ==
            Buffer(catalog, xs, process) + Buffer(catalog, ys, process)
    decreases |ys|
  {
    if ys == [] {
      assert xs + ys == xs;
    } else {
      var init := ys[..|ys| - 1];
      var last := PageOutput(catalog, Last(ys), process);
      assert Buffer(catalog, xs + ys, process) == Buffer(catalog, xs + init, process) + last by {
        assert (xs + ys)[..|xs + ys| - 1] == xs + init;
        assert Last(xs + ys) == Last(ys);
      }
      BufferAppend(catalog, xs, init, process);
      var a, b := Buffer(catalog, xs, process), Buffer(catalog, init, process);
      assert a + (b + last) == (a + b) + last;
    }
  }

  /**
   * Writing each group's buffer to its own file, and skipping the empty
   * ones, loses and repeats no row: the files hold the buffer of every row
   * the groups visited, in visiting order.
   */
  lemma {:induction false} SinkFilesHoldEveryRow(catalog: seq<CatalogRow>, gs: seq<seq<nat>>, key: nat -> nat,
                                                 process: Option<string> -> PageResult)
    ensures FileRows(SinkFiles(catalog, gs, key, process)) == Buffer(catalog, Flatten(gs), process)
    decreases |gs|
  {
    if gs != [] {
      var init := gs[..|gs| - 1];
      var earlier := SinkFiles(catalog, init, key, process);
      var files := SinkFiles(catalog, gs, key, process);
      SinkFilesHoldEveryRow(catalog, init, key, process);
      BufferAppend(catalog, Flatten(init), Last(gs), process);
      if Buffer(catalog, Last(gs), process) == [] {
        assert files == earlier;
      } else {
        assert files[..|files| - 1] == earlier;
      }
    }
  }

  /**
   * The files written after groups whose keys ascend have rows and
   * ascending group numbers; each is the buffer of one of the groups.
   */
  lemma {:induction false} SinkFilesAscend(catalog: seq<CatalogRow>, gs: seq<seq<nat>>, key: nat -> nat,
                                           process: Option<string> -> PageResult)
    requires KeysAscending(gs, key)
    ensures FilesAscending(SinkFiles(catalog, gs, key, process))
    ensures forall f :: f in SinkFiles(catalog, gs, key, process) ==>
              exists a :: 0 <= a < |gs| && f.group == GroupKey(gs[a], key) &&
                          f.rows == Buffer(catalog, gs[a], process)
    decreases |gs|
  {
    if gs != [] {
      var n := |gs| - 1;
      var init := gs[..n];
      var earlier := SinkFiles(catalog, init, key, process);
      assert KeysAscending(init, key) by {
        assert forall a :: 0 <= a < n ==> init[a] == gs[a];
      }
      SinkFilesAscend(catalog, init, key, process);
      var top := GroupFiles(catalog, gs[n], key, process);
      var files := earlier + top;
      assert SinkFiles(catalog, gs, key, process) == files;
      forall f | f in earlier
        ensures f.group < GroupKey(gs[n], key)
        ensures exists a :: 0 <= a < |gs| && f.group == GroupKey(gs[a], key) &&
                            f.rows == Buffer(catalog, gs[a], process)
      {
        var a :| 0 <= a < n && f.group == GroupKey(init[a], key) && f.rows == Buffer(catalog, init[a], process);
        assert init[a] == gs[a];
      }
      forall a, b | 0 <= a < b < |files| ensures files[a].group < files[b].group {
        if b >= |earlier| {
          assert files[a] in earlier;
        }
      }
    }
  }

  /** Every buffered row names the page of one of the visited catalog rows (main.py:176). */
  lemma {:induction false} BufferPageNames(catalog: seq<CatalogRow>, xs: seq<nat>,
                                           process: Option<string> -> PageResult)
    requires NamesPages(process)
    ensures forall o :: o in Buffer(catalog, xs, process) ==>
              exists x :: x in xs && x < |catalog| && catalog[x].pageName == Some(o.pageName)
    decreases |xs|
  {
    if xs != [] {
      var init := xs[..|xs| - 1];
      BufferPageNames(catalog, init, process);
      forall o | o in Buffer(catalog, xs, process)
        ensures exists x :: x in xs && x < |catalog| && catalog[x].pageName == Some(o.pageName)
      {
        if o in Buffer(catalog, init, process) {
          var x :| x in init && x < |catalog| && catalog[x].pageName == Some(o.pageName);
          assert x in xs;
        } else {
          assert o in PageOutput(catalog, Last(xs), process);
          assert catalog[Last(xs)].pageName == Some(o.pageName);
        }
      }
    }
  }

  /**
   * The users files a completed run writes hold, in order and once each,
   * the rows of the due pages in catalog order; each file has rows, the
   * group numbers ascend, and every row names a due page of the catalog.
   */
  lemma CompletedRunFiles(loaded: seq<CatalogRow>, reproduce: bool, maxUsersPerFile: nat, now: Stamp,
                          revisions: string -> Revisions, talk: string -> TalkPage,
                          inMemory: seq<CatalogRow>, sink0: seq<GroupFile>, sink: seq<GroupFile>,
                          persisted0: seq<seq<CatalogRow>>, persisted: seq<seq<CatalogRow>>)
    requires maxUsersPerFile > 0
    requires CompletedRun(loaded, reproduce, maxUsersPerFile, now, Pages(revisions, talk),
                          inMemory, sink0, sink, persisted0, persisted)
    ensures |sink0| <= |sink|
    ensures FileRows(sink[|sink0|..]) ==
            Buffer(RunCatalog(loaded, reproduce, maxUsersPerFile), Positions(JobMask(loaded, reproduce)),
                   Pages(revisions, talk))
    ensures FilesAscending(sink[|sink0|..])
    ensures forall o :: o in FileRows(sink[|sink0|..]) ==>
              exists x :: 0 <= x < |loaded| && JobMask(loaded, reproduce)[x] &&
                          loaded[x].pageName == Some(o.pageName)
  {
    var mask := JobMask(loaded, reproduce);
    var xs := Positions(mask);
    var key := FileOf(maxUsersPerFile);
    var grouped := RunCatalog(loaded, reproduce, maxUsersPerFile);
    var gs := RunGroups(loaded, reproduce, maxUsersPerFile);
    var files := SinkFiles(grouped, gs, key, Pages(revisions, talk));
    assert sink[|sink0|..] == files;
    GroupByFlatten(xs, key);
    SinkFilesHoldEveryRow(grouped, gs, key, Pages(revisions, talk));
    FileOfMonotone(maxUsersPerFile);
    GroupByAscending(xs, key);
    SinkFilesAscend(grouped, gs, key, Pages(revisions, talk));
    PagesNamePages(revisions, talk);
    BufferPageNames(grouped, xs, Pages(revisions, talk));
  }

  // ---------------------------------------------------------------------------
  // What the catalog file holds

  /** Rows that are not due keep their loaded value in every catalog written after groups of due rows. */
  lemma {:induction false} SnapshotsKeepUndueRows(loaded: seq<CatalogRow>, reproduce: bool, maxUsersPerFile: nat,
                                                  gs: seq<seq<nat>>, now: Stamp)
    requires maxUsersPerFile > 0
    requires forall x :: x in Flatten(gs) ==> x in Positions(JobMask(loaded, reproduce))
    ensures forall m, i ::
              0 <= m < |gs| && 0 <= i < |loaded| && !JobMask(loaded, reproduce)[i] ==>
              |Snapshots(RunCatalog(loaded, reproduce, maxUsersPerFile), gs, now)[m]| == |loaded| &&
              Snapshots(RunCatalog(loaded, reproduce, maxUsersPerFile), gs, now)[m][i] == loaded[i]
    decreases |gs|
  {
    if gs != [] {
      var init := gs[..|gs| - 1];
      assert Flatten(gs) == Flatten(init) + Last(gs);
      SnapshotsKeepUndueRows(loaded, reproduce, maxUsersPerFile, init, now);
    }
  }

  /** Stamping due rows leaves the other rows as they were loaded. */
  lemma StampedKeepsUndueRows(loaded: seq<CatalogRow>, reproduce: bool, maxUsersPerFile: nat,
                              visited: seq<nat>, now: Stamp)
    requires maxUsersPerFile > 0
    requires forall x :: x in visited ==> x in Positions(JobMask(loaded, reproduce))
    ensures forall i :: 0 <= i < |loaded| && !JobMask(loaded, reproduce)[i] ==>
              Stamped(RunCatalog(loaded, reproduce, maxUsersPerFile), visited, now)[i] == loaded[i]
  {
  }

  /**
   * A completed run never changes a row that was not due: not in memory
   * and not in any catalog it writes (main.py:158, 165).
   */
  lemma CompletedRunKeepsUndueRows(loaded: seq<CatalogRow>, reproduce: bool, maxUsersPerFile: nat, now: Stamp,
                                   process: Option<string> -> PageResult,
                                   inMemory: seq<CatalogRow>, sink0: seq<GroupFile>, sink: seq<GroupFile>,
                                   persisted0: seq<seq<CatalogRow>>, persisted: seq<seq<CatalogRow>>)
    requires maxUsersPerFile > 0
    requires CompletedRun(loaded, reproduce, maxUsersPerFile, now, process,
                          inMemory, sink0, sink, persisted0, persisted)
    ensures |persisted0| <= |persisted| && |inMemory| == |loaded|
    ensures forall i :: 0 <= i < |loaded| && !JobMask(loaded, reproduce)[i] ==> inMemory[i] == loaded[i]
    ensures forall m, i ::
              |persisted0| <= m < |persisted| && 0 <= i < |loaded| && !JobMask(loaded, reproduce)[i] ==>
              |persisted[m]| == |loaded| && persisted[m][i] == loaded[i]
  {
    var xs := Positions(JobMask(loaded, reproduce));
    var grouped := RunCatalog(loaded, reproduce, maxUsersPerFile);
    var gs := RunGroups(loaded, reproduce, maxUsersPerFile);
    GroupByFlatten(xs, FileOf(maxUsersPerFile));
    assert persisted[|persisted0|..] == Snapshots(grouped, gs, now);
    StampedKeepsUndueRows(loaded, reproduce, maxUsersPerFile, Flatten(gs), now);
    SnapshotsKeepUndueRows(loaded, reproduce, maxUsersPerFile, gs, now);
  }

  /**
   * An aborted run never changes a row that was not due: not in memory
   * and not in any catalog it writes (main.py:158, 165).
   */
  lemma AbortedRunKeepsUndueRows(loaded: seq<CatalogRow>, reproduce: bool, maxUsersPerFile: nat, now: Stamp,
                                 process: Option<string> -> PageResult, row: nat,
                                 inMemory: seq<CatalogRow>, sink0: seq<GroupFile>, sink: seq<GroupFile>,
                                 persisted0: seq<seq<CatalogRow>>, persisted: seq<seq<CatalogRow>>)
    requires maxUsersPerFile > 0
    requires AbortedRun(loaded, reproduce, maxUsersPerFile, now, process, row,
                        inMemory, sink0, sink, persisted0, persisted)
    ensures |persisted0| <= |persisted| && |inMemory| == |loaded|
    ensures forall i :: 0 <= i < |loaded| && !JobMask(loaded, reproduce)[i] ==> inMemory[i] == loaded[i]
    ensures forall m, i ::
              |persisted0| <= m < |persisted| && 0 <= i < |loaded| && !JobMask(loaded, reproduce)[i] ==>
              |persisted[m]| == |loaded| && persisted[m][i] == loaded[i]
  {
    var xs := Positions(JobMask(loaded, reproduce));
    var grouped := RunCatalog(loaded, reproduce, maxUsersPerFile);
    var gs := RunGroups(loaded, reproduce, maxUsersPerFile);
    var g, j :| AbortPoint(loaded, reproduce, maxUsersPerFile, process, row, g, j)
      && inMemory == Stamped(grouped, Flatten(gs[..g]) + gs[g][..j + 1], now)
      && persisted == persisted0 + Snapshots(grouped, gs[..g], now);
    var earlier := gs[..g];
    var visited := Flatten(earlier) + gs[g][..j + 1];
    GroupByFlatten(xs, FileOf(maxUsersPerFile));
    forall x | x in visited ensures x in xs {
      FlattenMember(gs, x);
      if x in Flatten(earlier) {
        FlattenMember(earlier, x);
        var a :| 0 <= a < g && x in earlier[a];
        assert x in gs[a];
      } else {
        assert x in gs[g];
      }
    }
    StampedKeepsUndueRows(loaded, reproduce, maxUsersPerFile, visited, now);
    var written := Snapshots(grouped, earlier, now);
    assert persisted[|persisted0|..] == written;
    assert forall x :: x in Flatten(earlier) ==> x in xs by {
      forall x | x in Flatten(earlier) ensures x in xs {
        assert x in visited;
      }
    }
    SnapshotsKeepUndueRows(loaded, reproduce, maxUsersPerFile, earlier, now);
  }

  /**
   * After a run without `reproduce` aborts at `row`, the catalog file holds
   * the catalog as of the end of the previous group, so the next run
   * selects exactly the rows that were due and whose group number is not
   * below that of the failing row: it redoes the failing group whole.
   */
  lemma AbortedRunResumesAtItsGroup(loaded: seq<CatalogRow>, maxUsersPerFile: nat, now: Stamp,
                                    process: Option<string> -> PageResult, row: nat,
                                    inMemory: seq<CatalogRow>, sink0: seq<GroupFile>, sink: seq<GroupFile>,
                                    persisted0: seq<seq<CatalogRow>>, persisted: seq<seq<CatalogRow>>)
    requires maxUsersPerFile > 0
    requires |persisted0| > 0 && Last(persisted0) == loaded
    requires AbortedRun(loaded, false, maxUsersPerFile, now, process, row,
                        inMemory, sink0, sink, persisted0, persisted)
    ensures |persisted| > 0 && |Last(persisted)| == |loaded|
    ensures forall i :: 0 <= i < |loaded| ==>
              (JobMask(Last(persisted), false)[i] <==>
               JobMask(loaded, false)[i] && i / maxUsersPerFile >= row / maxUsersPerFile)
  {
    var mask := JobMask(loaded, false);
    var xs := Positions(mask);
    var key := FileOf(maxUsersPerFile);
    var grouped := RunCatalog(loaded, false, maxUsersPerFile);
    var gs := RunGroups(loaded, false, maxUsersPerFile);
    var g, j :| AbortPoint(loaded, false, maxUsersPerFile, process, row, g, j)
      && persisted == persisted0 + Snapshots(grouped, gs[..g], now);
    FileOfMonotone(maxUsersPerFile);
    CommittedRows(xs, key, g);
    GroupByKeyed(xs, key);
    assert WellKeyed(gs[g], key) && row in gs[g];
    assert GroupKey(gs[g], key) == row / maxUsersPerFile;
    LastCatalogStamps(loaded, grouped, gs[..g], now, persisted0, persisted);
  }

  /**
   * The last catalog written after the groups `earlier`: the rows they hold
   * are stamped, every other row has its loaded stamp.
   */
  lemma LastCatalogStamps(loaded: seq<CatalogRow>, grouped: seq<CatalogRow>, earlier: seq<seq<nat>>, now: Stamp,
                          persisted0: seq<seq<CatalogRow>>, persisted: seq<seq<CatalogRow>>)
    requires |grouped| == |loaded|
    requires forall i :: 0 <= i < |loaded| ==> grouped[i].lastFetchUsersTs == loaded[i].lastFetchUsersTs
    requires |persisted0| > 0 && Last(persisted0) == loaded
    requires persisted == persisted0 + Snapshots(grouped, earlier, now)
    ensures |persisted| > 0 && |Last(persisted)| == |loaded|
    ensures forall i :: 0 <= i < |loaded| ==>
              Last(persisted)[i].lastFetchUsersTs ==
              if i in Flatten(earlier) then Some(now) else loaded[i].lastFetchUsersTs
  {
    if earlier == [] {
      assert persisted == persisted0;
    } else {
      assert Last(persisted) == Stamped(grouped, Flatten(earlier), now);
    }
  }
}
