/**
 * The edit aggregator of main.py: `agg_tags` and `normalize_user_df`.
 *
 * A page's revisions are reduced to one row per distinct (user_name, user_id)
 * pair: the sizes are summed, the tag lists are merged without duplicates and
 * the observed hidden flags are kept as a duplicate-free list.
 */
module Aggregator {
  import opened Seqs

  /**
   * One revision of a page, restricted to the columns `normalize_user_df`
   * keeps (`user`, `userid`, `userhidden`, `tags`, `size`). `user` and
   * `userid` are None when the revision carries no value for them.
   */
  datatype Revision = Revision(
    user: Option<string>,
    userid: Option<int>,
    userhidden: bool,
    size: int,
    tags: Option<seq<string>>)

  /** The grouping key (user_name, user_id). */
  datatype UserKey = UserKey(name: string, id: int)

  /**
   * One row of a normalised page, with the column names that
   * USER_COLUMN_LOOKUP gives: user -> user_name, userid -> user_id,
   * userhidden -> is_hidden_user, size -> edits_size_bytes.
   */
  datatype UserRow = UserRow(
    userName: string,
    userId: int,
    editsSizeBytes: int,
    tags: seq<string>,
    isHiddenUser: seq<bool>)

  /** The group a revision falls in; None when a key column is missing, which `groupby` drops. */
  function KeyOf(r: Revision): Option<UserKey> {
    if r.user.Some? && r.userid.Some? then Some(UserKey(r.user.value, r.userid.value)) else None
  }

  function RowKey(row: UserRow): UserKey {
    UserKey(row.userName, row.userId)
  }

  // ---------------------------------------------------------------------------
  // agg_tags

  /** Tag `t` is in one of the lists (a None or empty list holds nothing). */
  ghost predicate TagObserved(tagsLists: seq<Option<seq<string>>>, t: string) {
    exists i :: 0 <= i < |tagsLists| && tagsLists[i].Some? && t in tagsLists[i].value
  }

  lemma TagObservedStep(tagsLists: seq<Option<seq<string>>>, n: nat, t: string)
    requires n < |tagsLists|
    ensures TagObserved(tagsLists[..n + 1], t) <==>
            TagObserved(tagsLists[..n], t) || (tagsLists[n].Some? && t in tagsLists[n].value)
  {
    if TagObserved(tagsLists[..n + 1], t) && !(tagsLists[n].Some? && t in tagsLists[n].value) {
      var i :| 0 <= i < n + 1 && tagsLists[..n + 1][i].Some? && t in tagsLists[..n + 1][i].value;
      assert tagsLists[..n][i] == tagsLists[i];
    }
    if TagObserved(tagsLists[..n], t) {
      var i :| 0 <= i < n && tagsLists[..n][i].Some? && t in tagsLists[..n][i].value;
      assert tagsLists[..n + 1][i] == tagsLists[i];
    }
    if tagsLists[n].Some? && t in tagsLists[n].value {
      assert tagsLists[..n + 1][n] == tagsLists[n];
    }
  }

  /**
   * `agg_tags` as the source writes it: a set filled by nested loops over the
   * truthy tag lists, then turned into a list. The order of that list is the
   * set's iteration order, which the method leaves unspecified.
   */
  method AggTags(tagsLists: seq<Option<seq<string>>>) returns (cleanTags: seq<string>)
    ensures NoDup(cleanTags)
    ensures forall t :: t in cleanTags <==> TagObserved(tagsLists, t)
    ensures forall t :: t in cleanTags <==> t in TagUnion(tagsLists)
  {
    var cleanSet: set<string> := {};
    for i := 0 to |tagsLists|
      invariant forall t :: t in cleanSet <==> TagObserved(tagsLists[..i], t)
    {
      var tags := tagsLists[i];
      if tags.Some? && tags.value != [] {
        for j := 0 to |tags.value|
          invariant forall t :: t in cleanSet <==> TagObserved(tagsLists[..i], t) || t in tags.value[..j]
        {
          assert tags.value[..j + 1] == tags.value[..j] + [tags.value[j]];
          cleanSet := cleanSet + {tags.value[j]};
        }
        assert tags.value[..|tags.value|] == tags.value;
      }
      forall t ensures TagObserved(tagsLists[..i + 1], t) <==>
                       TagObserved(tagsLists[..i], t) || (tags.Some? && t in tags.value) {
        TagObservedStep(tagsLists, i, t);
      }
    }
    assert tagsLists[..|tagsLists|] == tagsLists;
    cleanTags := [];
    var rest := cleanSet;
    while rest != {}
      invariant NoDup(cleanTags)
      invariant forall t :: t in cleanSet <==> t in cleanTags || t in rest
      invariant forall t :: t in cleanTags ==> t !in rest
      decreases |rest|
    {
      var t :| t in rest;
      cleanTags := cleanTags + [t];
      rest := rest - {t};
    }
  }

  /** The truthy tag lists concatenated. */
  function TruthyTags(tagsLists: seq<Option<seq<string>>>): (r: seq<string>)
    ensures forall t :: t in r <==> TagObserved(tagsLists, t)
  {
    if tagsLists == [] then []
    else
      var n := |tagsLists| - 1;
      assert tagsLists[..n + 1] == tagsLists;
      forall t ensures TagObserved(tagsLists, t) <==>
                       TagObserved(tagsLists[..n], t) || (tagsLists[n].Some? && t in tagsLists[n].value) {
        TagObservedStep(tagsLists, n, t);
      }
      TruthyTags(tagsLists[..n]) + (if tagsLists[n].Some? then tagsLists[n].value else [])
  }

  /**
   * The value `agg_tags` computes, as the aggregation pipeline uses it:
   * the same elements as AggTags returns, in order of first appearance.
   */
  function TagUnion(tagsLists: seq<Option<seq<string>>>): (r: seq<string>)
    ensures NoDup(r)
    ensures forall t :: t in r <==> TagObserved(tagsLists, t)
  {
    Distinct(TruthyTags(tagsLists))
  }

  // ---------------------------------------------------------------------------
  // normalize_user_df

  /** The revisions of one (user_name, user_id) group, in revision order. */
  function Members(revs: seq<Revision>, key: UserKey): (ms: seq<Revision>)
    ensures forall r :: r in ms ==> r in revs && KeyOf(r) == Some(key)
    ensures forall i :: 0 <= i < |revs| && KeyOf(revs[i]) == Some(key) ==> revs[i] in ms
  {
    if revs == [] then []
    else
      var n := |revs| - 1;
      assert forall i :: 0 <= i < n ==> revs[..n][i] == revs[i];
      Members(revs[..n], key) + (if KeyOf(revs[n]) == Some(key) then [revs[n]] else [])
  }

  /**
   * A group keeps each of its revisions as often as the page lists it, so
   * two identical edits by one user are both summed.
   */
  lemma {:induction false} MembersCount(revs: seq<Revision>, key: UserKey)
    ensures forall r :: multiset(Members(revs, key))[r] == if KeyOf(r) == Some(key) then multiset(revs)[r] else 0
    decreases |revs|
  {
    if revs != [] {
      var n := |revs| - 1;
      MembersCount(revs[..n], key);
      assert revs == revs[..n] + [revs[n]];
    }
  }

  /** The distinct keys of the keyed revisions, in order of first appearance. */
  function GroupKeys(revs: seq<Revision>): (ks: seq<UserKey>)
    ensures NoDup(ks)
    ensures forall k :: k in ks <==> exists i :: 0 <= i < |revs| && KeyOf(revs[i]) == Some(k)
  {
    if revs == [] then []
    else
      var n := |revs| - 1;
      var prev := GroupKeys(revs[..n]);
      forall k ensures (exists i :: 0 <= i < |revs| && KeyOf(revs[i]) == Some(k)) <==>
                       (exists i :: 0 <= i < n && KeyOf(revs[..n][i]) == Some(k)) || KeyOf(revs[n]) == Some(k) {
        if exists i :: 0 <= i < |revs| && KeyOf(revs[i]) == Some(k) {
          var i :| 0 <= i < |revs| && KeyOf(revs[i]) == Some(k);
          if i < n {
            assert revs[..n][i] == revs[i];
          }
        }
        if exists i :: 0 <= i < n && KeyOf(revs[..n][i]) == Some(k) {
          var i :| 0 <= i < n && KeyOf(revs[..n][i]) == Some(k);
          assert revs[..n][i] == revs[i];
        }
      }
      match KeyOf(revs[n])
      case None => prev
      case Some(k) => if k in prev then prev else prev + [k]
  }

  function SumSizes(revs: seq<Revision>): int {
    if revs == [] then 0 else SumSizes(revs[..|revs| - 1]) + Last(revs).size
  }

  function TagLists(revs: seq<Revision>): seq<Option<seq<string>>> {
    seq(|revs|, i requires 0 <= i < |revs| => revs[i].tags)
  }

  function HiddenFlags(revs: seq<Revision>): seq<bool> {
    seq(|revs|, i requires 0 <= i < |revs| => revs[i].userhidden)
  }

  /** The `agg` of one group: sum of sizes, `agg_tags`, and `list(set(...))` of the hidden flags. */
  function AggregateGroup(revs: seq<Revision>, key: UserKey): UserRow {
    var ms := Members(revs, key);
    UserRow(key.name, key.id, SumSizes(ms), TagUnion(TagLists(ms)), Distinct(HiddenFlags(ms)))
  }

  function RowsFor(revs: seq<Revision>, ks: seq<UserKey>): seq<UserRow> {
    seq(|ks|, i requires 0 <= i < |ks| => AggregateGroup(revs, ks[i]))
  }

  /**
   * pandas builds the frame's columns from the keys present in the records,
   * so a page where no revision has a user (or a user id) — an empty page
   * among them — has no such column, and `groupby` raises KeyError.
   */
  predicate HasKeyColumns(revs: seq<Revision>) {
    (exists i :: 0 <= i < |revs| && revs[i].user.Some?) &&
    (exists i :: 0 <= i < |revs| && revs[i].userid.Some?)
  }

  /**
   * `normalize_user_df`: one row per distinct (user_name, user_id) among the
   * revisions that carry both; None for the KeyError case.
   */
  function NormalizeUserDf(revs: seq<Revision>): (r: Option<seq<UserRow>>)
    ensures r.None? <==> !HasKeyColumns(revs)
    ensures r.Some? ==> forall i, j :: 0 <= i < j < |r.value| ==> RowKey(r.value[i]) != RowKey(r.value[j])
    ensures r.Some? ==> forall k ::
              (exists i :: 0 <= i < |r.value| && RowKey(r.value[i]) == k) <==>
              (exists j :: 0 <= j < |revs| && KeyOf(revs[j]) == Some(k))
  {
    if !HasKeyColumns(revs) then None
    else
      RowsForGroupKeys(revs);
      Some(RowsFor(revs, GroupKeys(revs)))
  }

  /** The aggregated rows carry the group keys, one row per key, in the same order. */
  lemma RowsForGroupKeys(revs: seq<Revision>)
    ensures |RowsFor(revs, GroupKeys(revs))| == |GroupKeys(revs)|
    ensures forall i :: 0 <= i < |GroupKeys(revs)| ==> RowKey(RowsFor(revs, GroupKeys(revs))[i]) == GroupKeys(revs)[i]
    ensures forall i, j :: 0 <= i < j < |RowsFor(revs, GroupKeys(revs))| ==>
              RowKey(RowsFor(revs, GroupKeys(revs))[i]) != RowKey(RowsFor(revs, GroupKeys(revs))[j])
    ensures forall k ::
              (exists i :: 0 <= i < |RowsFor(revs, GroupKeys(revs))| && RowKey(RowsFor(revs, GroupKeys(revs))[i]) == k) <==>
              (exists j :: 0 <= j < |revs| && KeyOf(revs[j]) == Some(k))
  {
    var ks := GroupKeys(revs);
    var rows := RowsFor(revs, ks);
    forall i | 0 <= i < |ks| ensures RowKey(rows[i]) == ks[i] {
      assert rows[i] == AggregateGroup(revs, ks[i]);
    }
    forall k | exists j :: 0 <= j < |revs| && KeyOf(revs[j]) == Some(k)
      ensures exists i :: 0 <= i < |rows| && RowKey(rows[i]) == k
    {
      assert k in ks;
      var i :| 0 <= i < |ks| && ks[i] == k;
      assert RowKey(rows[i]) == k;
    }
    forall k | exists i :: 0 <= i < |rows| && RowKey(rows[i]) == k
      ensures exists j :: 0 <= j < |revs| && KeyOf(revs[j]) == Some(k)
    {
      var i :| 0 <= i < |rows| && RowKey(rows[i]) == k;
      assert ks[i] in ks;
    }
  }

  /** An aggregated row holds every tag of its group's revisions, once each. */
  lemma AggregatedTags(revs: seq<Revision>, key: UserKey)
    ensures NoDup(AggregateGroup(revs, key).tags)
    ensures forall t :: t in AggregateGroup(revs, key).tags <==>
              exists j :: 0 <= j < |revs| && KeyOf(revs[j]) == Some(key) &&
                          revs[j].tags.Some? && t in revs[j].tags.value
  {
    var ms := Members(revs, key);
    var tags := AggregateGroup(revs, key).tags;
    assert tags == TagUnion(TagLists(ms));
    forall t | t in tags
      ensures exists j :: 0 <= j < |revs| && KeyOf(revs[j]) == Some(key) &&
                          revs[j].tags.Some? && t in revs[j].tags.value
    {
      assert TagObserved(TagLists(ms), t);
      var m :| 0 <= m < |ms| && TagLists(ms)[m].Some? && t in TagLists(ms)[m].value;
      assert ms[m] in revs;
      var j :| 0 <= j < |revs| && revs[j] == ms[m];
    }
    forall t | exists j :: 0 <= j < |revs| && KeyOf(revs[j]) == Some(key) &&
                           revs[j].tags.Some? && t in revs[j].tags.value
      ensures t in tags
    {
      var j :| 0 <= j < |revs| && KeyOf(revs[j]) == Some(key) && revs[j].tags.Some? && t in revs[j].tags.value;
      assert revs[j] in ms;
      var m :| 0 <= m < |ms| && ms[m] == revs[j];
      assert TagLists(ms)[m] == revs[j].tags;
      assert TagObserved(TagLists(ms), t);
    }
  }

  /** An aggregated row holds every hidden flag its group's revisions show, once each. */
  lemma AggregatedFlags(revs: seq<Revision>, key: UserKey)
    ensures NoDup(AggregateGroup(revs, key).isHiddenUser)
    ensures forall b :: b in AggregateGroup(revs, key).isHiddenUser <==>
              exists j :: 0 <= j < |revs| && KeyOf(revs[j]) == Some(key) && revs[j].userhidden == b
  {
    var ms := Members(revs, key);
    var flags := AggregateGroup(revs, key).isHiddenUser;
    assert flags == Distinct(HiddenFlags(ms));
    forall b | b in flags
      ensures exists j :: 0 <= j < |revs| && KeyOf(revs[j]) == Some(key) && revs[j].userhidden == b
    {
      assert b in HiddenFlags(ms);
      var m :| 0 <= m < |ms| && HiddenFlags(ms)[m] == b;
      assert ms[m] in revs;
      var j :| 0 <= j < |revs| && revs[j] == ms[m];
    }
    forall b | exists j :: 0 <= j < |revs| && KeyOf(revs[j]) == Some(key) && revs[j].userhidden == b
      ensures b in flags
    {
      var j :| 0 <= j < |revs| && KeyOf(revs[j]) == Some(key) && revs[j].userhidden == b;
      assert revs[j] in ms;
      var m :| 0 <= m < |ms| && ms[m] == revs[j];
      assert HiddenFlags(ms)[m] == b;
    }
  }

  /**
   * Each normalised row sums the sizes of exactly its pair's revisions, and
   * holds every tag and every hidden flag any of them shows, once each.
   * The hidden flags stay a list: a pair seen both hidden and not hidden
   * keeps both values.
   */
  lemma NormalizedRow(revs: seq<Revision>, i: nat)
    requires NormalizeUserDf(revs).Some? && i < |NormalizeUserDf(revs).value|
    ensures NormalizeUserDf(revs).value[i].editsSizeBytes ==
            SumSizes(Members(revs, RowKey(NormalizeUserDf(revs).value[i])))
    ensures NormalizeUserDf(revs).value[i].editsSizeBytes == KeyBytes(revs, RowKey(NormalizeUserDf(revs).value[i]))
    ensures NoDup(NormalizeUserDf(revs).value[i].tags)
    ensures forall t :: t in NormalizeUserDf(revs).value[i].tags <==>
              exists j :: 0 <= j < |revs| && KeyOf(revs[j]) == Some(RowKey(NormalizeUserDf(revs).value[i])) &&
                          revs[j].tags.Some? && t in revs[j].tags.value
    ensures NoDup(NormalizeUserDf(revs).value[i].isHiddenUser)
    ensures forall b :: b in NormalizeUserDf(revs).value[i].isHiddenUser <==>
              exists j :: 0 <= j < |revs| && KeyOf(revs[j]) == Some(RowKey(NormalizeUserDf(revs).value[i])) &&
                          revs[j].userhidden == b
  {
    var ks := GroupKeys(revs);
    RowsForGroupKeys(revs);
    var key := ks[i];
    assert NormalizeUserDf(revs).value[i] == AggregateGroup(revs, key);
    AggregatedTags(revs, key);
    AggregatedFlags(revs, key);
    MembersBytes(revs, key);
  }

  // ---------------------------------------------------------------------------
  // Conservation of bytes

  function TotalBytes(rows: seq<UserRow>): int {
    if rows == [] then 0 else TotalBytes(rows[..|rows| - 1]) + Last(rows).editsSizeBytes
  }

  /** The summed size of the revisions that carry `key`, in page order. */
  function KeyBytes(revs: seq<Revision>, key: UserKey): int {
    if revs == [] then 0
    else KeyBytes(revs[..|revs| - 1], key) + (if KeyOf(Last(revs)) == Some(key) then Last(revs).size else 0)
  }

  /** A group's summed size is the size of the revisions carrying its key. */
  lemma {:induction false} MembersBytes(revs: seq<Revision>, key: UserKey)
    ensures SumSizes(Members(revs, key)) == KeyBytes(revs, key)
    decreases |revs|
  {
    if revs != [] {
      var n := |revs| - 1;
      MembersBytes(revs[..n], key);
      MembersSnoc(revs[..n], revs[n], key);
      assert revs[..n] + [revs[n]] == revs;
    }
  }

  /** The summed size of the revisions `groupby` keeps. */
  function KeyedBytes(revs: seq<Revision>): int {
    if revs == [] then 0
    else KeyedBytes(revs[..|revs| - 1]) + (if KeyOf(Last(revs)).Some? then Last(revs).size else 0)
  }

  /** Sum, over the keys `ks`, of each key's summed sizes. */
  function SumOver(revs: seq<Revision>, ks: seq<UserKey>): int {
    if ks == [] then 0 else SumOver(revs, ks[..|ks| - 1]) + SumSizes(Members(revs, Last(ks)))
  }

  lemma {:induction false} TotalBytesOfRows(revs: seq<Revision>, ks: seq<UserKey>)
    ensures TotalBytes(RowsFor(revs, ks)) == SumOver(revs, ks)
    decreases |ks|
  {
    if ks != [] {
      var n := |ks| - 1;
      assert RowsFor(revs, ks)[..n] == RowsFor(revs, ks[..n]);
      TotalBytesOfRows(revs, ks[..n]);
    }
  }

  /** Adding one revision at the end adds its size to the sum of its own key, if that key is listed. */
  lemma {:induction false} SumOverAppend(revs: seq<Revision>, r: Revision, ks: seq<UserKey>)
    requires NoDup(ks)
    ensures SumOver(revs + [r], ks) ==
            SumOver(revs, ks) + (if KeyOf(r).Some? && KeyOf(r).value in ks then r.size else 0)
    decreases |ks|
  {
    if ks != [] {
      var n := |ks| - 1;
      var k := ks[n];
      MembersSnoc(revs, r, k);
      assert NoDup(ks[..n]);
      SumOverAppend(revs, r, ks[..n]);
      assert forall x :: x in ks <==> x in ks[..n] || x == k by {
        assert ks == ks[..n] + [k];
      }
      assert k !in ks[..n];
    }
  }

  /** A revision added at the end adds its size to its key's group. */
  lemma MembersSnoc(revs: seq<Revision>, r: Revision, k: UserKey)
    ensures SumSizes(Members(revs + [r], k)) ==
            SumSizes(Members(revs, k)) + (if KeyOf(r) == Some(k) then r.size else 0)
  {
    assert (revs + [r])[..|revs|] == revs;
    var ms := Members(revs, k);
    if KeyOf(r) == Some(k) {
      assert Members(revs + [r], k) == ms + [r];
      assert (ms + [r])[..|ms|] == ms;
    } else {
      assert Members(revs + [r], k) == ms;
    }
  }


  /** A key no revision carries has no members. */
  lemma NoMembersOfFreshKey(revs: seq<Revision>, k: UserKey)
    requires k !in GroupKeys(revs)
    ensures Members(revs, k) == []
  {
  }

  /** Appending a revision with a key not seen before adds a new last key whose only member it is. */
  lemma NewKeyStep(init: seq<Revision>, r: Revision, k: UserKey)
    requires KeyOf(r) == Some(k) && k !in GroupKeys(init)
    ensures GroupKeys(init + [r]) == GroupKeys(init) + [k]
    ensures Members(init + [r], k) == [r]
    ensures SumOver(init + [r], GroupKeys(init) + [k]) ==
            SumOver(init + [r], GroupKeys(init)) + r.size
  {
    var revs := init + [r];
    assert revs[..|init|] == init;
    NoMembersOfFreshKey(init, k);
    assert Members(revs, k) == [r];
    assert [r][..0] == [];
    var ks := GroupKeys(init);
    assert (ks + [k])[..|ks|] == ks;
    assert SumSizes([r]) == r.size;
    assert SumOver(revs, ks + [k]) == SumOver(revs, ks) + SumSizes(Members(revs, k));
  }

  /** The grouping keeps the keyed revisions' sizes: they are all summed into exactly one row. */
  lemma {:induction false} SumOverGroupKeys(revs: seq<Revision>)
    ensures SumOver(revs, GroupKeys(revs)) == KeyedBytes(revs)
    decreases |revs|
  {
    if revs != [] {
      var n := |revs| - 1;
      var init, r := revs[..n], revs[n];
      assert revs == init + [r];
      var ks := GroupKeys(init);
      SumOverGroupKeys(init);
      SumOverAppend(init, r, ks);
      assert KeyedBytes(revs) == KeyedBytes(init) + (if KeyOf(r).Some? then r.size else 0);
      if KeyOf(r).Some? && KeyOf(r).value !in ks {
        NewKeyStep(init, r, KeyOf(r).value);
      } else {
        assert GroupKeys(revs) == ks;
      }
    }
  }

  /** The normalised rows of a page hold, summed, every byte of its keyed revisions. */
  lemma NormalizeConservesBytes(revs: seq<Revision>)
    requires NormalizeUserDf(revs).Some?
    ensures TotalBytes(NormalizeUserDf(revs).value) == KeyedBytes(revs)
  {
    TotalBytesOfRows(revs, GroupKeys(revs));
    SumOverGroupKeys(revs);
  }

  /** One user seen once visible and once hidden keeps both flags. */
  lemma HiddenFlagsAreNotCollapsed(name: string, id: int)
    ensures var revs := [Revision(Some(name), Some(id), false, 10, None),
                         Revision(Some(name), Some(id), true, 5, Some(["mobile edit"]))];
            var rows := NormalizeUserDf(revs);
            && rows.Some? && |rows.value| == 1
            && rows.value[0].editsSizeBytes == 15
            && rows.value[0].isHiddenUser == [false, true]
            && rows.value[0].tags == ["mobile edit"]
  {
    var r0 := Revision(Some(name), Some(id), false, 10, None);
    var r1 := Revision(Some(name), Some(id), true, 5, Some(["mobile edit"]));
    var revs := [r0, r1];
    var key := UserKey(name, id);
    SameUserPair(r0, r1, key);
    SingleUser(revs, key);
    SizesOfPair(r0, r1);
    assert HiddenFlags(revs) == [false, true];
    DistinctPair(false, true);
    TagsOfPair(r0, r1, "mobile edit");
  }

  /** Two identical edits by one user are both summed: the row counts the size twice. */
  lemma RepeatedEditsAreSummed(r: Revision)
    requires KeyOf(r).Some?
    ensures NormalizeUserDf([r, r]).Some?
    ensures |NormalizeUserDf([r, r]).value| == 1
    ensures NormalizeUserDf([r, r]).value[0].editsSizeBytes == 2 * r.size
  {
    var key := KeyOf(r).value;
    SameUserPair(r, r, key);
    SingleUser([r, r], key);
    SizesOfPair(r, r);
  }

  /** Two revisions of the same user form that user's only group. */
  lemma SameUserPair(r0: Revision, r1: Revision, key: UserKey)
    requires KeyOf(r0) == Some(key) && KeyOf(r1) == Some(key)
    ensures GroupKeys([r0, r1]) == [key]
    ensures Members([r0, r1], key) == [r0, r1]
    ensures HasKeyColumns([r0, r1])
  {
    var revs := [r0, r1];
    assert revs[..1] == [r0] && [r0][..0] == [];
    assert GroupKeys([r0]) == [key];
    assert Members([r0], key) == [r0];
    assert revs[0].user.Some? && revs[0].userid.Some?;
  }

  /** A page with a single user normalises to that user's aggregated row. */
  lemma SingleUser(revs: seq<Revision>, key: UserKey)
    requires HasKeyColumns(revs) && GroupKeys(revs) == [key]
    ensures NormalizeUserDf(revs) == Some([AggregateGroup(revs, key)])
  {
    assert RowsFor(revs, [key]) == [AggregateGroup(revs, key)];
  }

  lemma SizesOfPair(r0: Revision, r1: Revision)
    ensures SumSizes([r0, r1]) == r0.size + r1.size
  {
    var revs := [r0, r1];
    var first := [r0];
    assert first[..0] == [] && Last(first) == r0;
    assert SumSizes(first) == r0.size;
    assert revs[..1] == first && Last(revs) == r1;
  }

  /** An untagged revision followed by one with a single tag: that tag is the union. */
  lemma TagsOfPair(r0: Revision, r1: Revision, tag: string)
    requires r0.tags == None && r1.tags == Some([tag])
    ensures TagUnion(TagLists([r0, r1])) == [tag]
  {
    var noTags: seq<Option<seq<string>>> := [None];
    var lists := TagLists([r0, r1]);
    assert lists == noTags + [Some([tag])];
    assert lists[..1] == noTags && noTags[..0] == [];
    assert TruthyTags(noTags) == [];
    assert TruthyTags(lists) == [tag];
    DistinctOne(tag);
  }

}
