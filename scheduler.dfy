/**
 * The catalog side of `fetch_users_edits_by_page` in main.py: which rows are
 * due, which group each due row belongs to, and how the run stamps rows.
 */
module Scheduler {
  import opened Seqs

  /** A `str(datetime.today())` value: never empty, so always truthy. */
  type Stamp = s: string | s != [] witness "0"

  /**
   * One row of the pages catalog. `group` is the column the harvest adds;
   * it is written back with the rest of the catalog, so a later run reads it.
   */
  datatype CatalogRow = CatalogRow(
    pageName: Option<string>,
    pageUrl: string,
    lastFetchPageNameTs: Option<string>,
    lastFetchUsersTs: Option<Stamp>,
    group: Option<nat>)

  /** `last_fetched_users.any()`: some row carries a users timestamp. */
  predicate AnyFetched(catalog: seq<CatalogRow>) {
    exists i :: 0 <= i < |catalog| && catalog[i].lastFetchUsersTs.Some?
  }

  /**
   * `job_rows_mask`: every row, unless some row has a timestamp and the run
   * does not reproduce, in which case the rows without one. The guard on
   * `.any()` makes no difference: a row is due exactly when the run
   * reproduces or the row has no timestamp.
   */
  function JobMask(catalog: seq<CatalogRow>, reproduce: bool): (mask: seq<bool>)
    ensures |mask| == |catalog|
    ensures forall i :: 0 <= i < |catalog| ==>
              mask[i] == (reproduce || catalog[i].lastFetchUsersTs.None?)
  {
    if AnyFetched(catalog) && !reproduce then
      seq(|catalog|, i requires 0 <= i < |catalog| => catalog[i].lastFetchUsersTs.None?)
    else
      seq(|catalog|, i => true)
  }

  /** The group number the source gives a due row: its catalog index `// max_users_per_file`. */
  function FileOf(maxUsersPerFile: nat): nat -> nat
    requires maxUsersPerFile > 0
  {
    (i: nat) => i / maxUsersPerFile
  }

  /** A key that never decreases along the catalog index. */
  ghost predicate Monotone(key: nat -> nat) {
    forall a: nat, b: nat :: a <= b ==> key(a) <= key(b)
  }

  lemma FileOfMonotone(maxUsersPerFile: nat)
    requires maxUsersPerFile > 0
    ensures Monotone(FileOf(maxUsersPerFile))
  {
    forall a: nat, b: nat | a <= b ensures a / maxUsersPerFile <= b / maxUsersPerFile {
      DivMonotone(a, b, maxUsersPerFile);
    }
  }

  lemma MulMonotone(k: nat, p: nat, q: nat)
    requires p <= q
    ensures k * p <= k * q
  {
    assert k * q == k * p + k * (q - p);
  }

  lemma DivMonotone(a: nat, b: nat, k: nat)
    requires a <= b && k > 0
    ensures a / k <= b / k
  {
    var qa := a / k;
    var qb := b / k;
    assert k * qa <= a;
    assert b < k * qb + k;
    if qb < qa {
      MulMonotone(k, qb + 1, qa);
    }
  }

  /** The key of a group: that of its first row. */
  function GroupKey(g: seq<nat>, key: nat -> nat): nat {
    if g == [] then 0 else key(g[0])
  }

  predicate KeysAscending(gs: seq<seq<nat>>, key: nat -> nat) {
    forall a, b :: 0 <= a < b < |gs| ==> GroupKey(gs[a], key) < GroupKey(gs[b], key)
  }

  /** A group is non-empty and its rows all share its key. */
  predicate WellKeyed(g: seq<nat>, key: nat -> nat) {
    g != [] && forall x :: x in g ==> key(x) == GroupKey(g, key)
  }

  /** Adds the next due row: to the open group when it shares its key, else as a new group. */
  function Place(gs: seq<seq<nat>>, x: nat, key: nat -> nat): seq<seq<nat>> {
    if gs != [] && GroupKey(Last(gs), key) == key(x) then
      gs[..|gs| - 1] + [Last(gs) + [x]]
    else
      gs + [[x]]
  }

  /**
   * `groupby` over the due rows: the maximal runs of rows that share a key.
   * Its properties are the lemmas below.
   */
  function GroupBy(xs: seq<nat>, key: nat -> nat): (gs: seq<seq<nat>>)
    ensures |xs| > 0 ==> |gs| > 0
  {
    if xs == [] then []
    else Place(GroupBy(xs[..|xs| - 1], key), Last(xs), key)
  }

  /** A single due row forms one group. */
  lemma GroupBySingle(x: nat, key: nat -> nat)
    ensures GroupBy([x], key) == [[x]]
  {
    var xs: seq<nat> := [x];
    assert xs[..0] == [];
  }

  lemma PlaceFlatten(gs: seq<seq<nat>>, x: nat, key: nat -> nat)
    ensures Flatten(Place(gs, x, key)) == Flatten(gs) + [x]
  {
    var r := Place(gs, x, key);
    if gs != [] && GroupKey(Last(gs), key) == key(x) {
      var m := |gs| - 1;
      assert r[..m] == gs[..m];
      assert Flatten(gs) == Flatten(gs[..m]) + gs[m];
    } else {
      assert r[..|gs|] == gs;
    }
  }

  lemma PlaceKeyed(gs: seq<seq<nat>>, x: nat, key: nat -> nat)
    requires forall a :: 0 <= a < |gs| ==> WellKeyed(gs[a], key)
    ensures forall a :: 0 <= a < |Place(gs, x, key)| ==> WellKeyed(Place(gs, x, key)[a], key)
  {
    var r := Place(gs, x, key);
    if gs != [] && GroupKey(Last(gs), key) == key(x) {
      var m := |gs| - 1;
      var g := gs[m] + [x];
      assert g[0] == gs[m][0];
      assert forall y :: y in g ==> y in gs[m] || y == x;
      assert WellKeyed(g, key);
      assert forall a :: 0 <= a < m ==> r[a] == gs[a];
    } else {
      assert forall a :: 0 <= a < |gs| ==> r[a] == gs[a];
      assert WellKeyed([x], key);
    }
  }

  lemma PlaceAscending(gs: seq<seq<nat>>, x: nat, key: nat -> nat)
    requires KeysAscending(gs, key)
    requires forall a :: 0 <= a < |gs| ==> WellKeyed(gs[a], key)
    requires forall y :: y in Flatten(gs) ==> key(y) <= key(x)
    ensures KeysAscending(Place(gs, x, key), key)
  {
    if gs != [] {
      var m := |gs| - 1;
      assert WellKeyed(gs[m], key);
      if GroupKey(Last(gs), key) == key(x) {
        JoinKeepsKeys(gs, x, key);
      } else {
        FlattenMember(gs, gs[m][0]);
        NewGroupAscends(gs, x, key);
      }
    }
  }

  /** Joining the open group keeps every group's key. */
  lemma JoinKeepsKeys(gs: seq<seq<nat>>, x: nat, key: nat -> nat)
    requires gs != [] && Last(gs) != [] && GroupKey(Last(gs), key) == key(x)
    requires KeysAscending(gs, key)
    ensures KeysAscending(Place(gs, x, key), key)
  {
    var r := Place(gs, x, key);
    var m := |gs| - 1;
    assert (gs[m] + [x])[0] == gs[m][0];
    assert forall i :: 0 <= i < |r| ==> GroupKey(r[i], key) == GroupKey(gs[i], key);
  }

  /** A new group whose key is above the open group's keeps the keys ascending. */
  lemma NewGroupAscends(gs: seq<seq<nat>>, x: nat, key: nat -> nat)
    requires gs != [] && GroupKey(Last(gs), key) < key(x)
    requires KeysAscending(gs, key)
    ensures KeysAscending(Place(gs, x, key), key)
  {
    var r := Place(gs, x, key);
    assert forall i :: 0 <= i < |gs| ==> r[i] == gs[i];
    assert forall i :: 0 <= i < |gs| ==> GroupKey(r[i], key) < key(x) by {
      forall i | 0 <= i < |gs| ensures GroupKey(gs[i], key) <= GroupKey(Last(gs), key) {
      }
    }
    assert GroupKey(r[|gs|], key) == key(x);
  }


  /** Reading the groups one after the other gives back the due rows in order. */
  lemma {:induction false} GroupByFlatten(xs: seq<nat>, key: nat -> nat)
    ensures Flatten(GroupBy(xs, key)) == xs
    decreases |xs|
  {
    if xs != [] {
      var n := |xs| - 1;
      GroupByFlatten(xs[..n], key);
      PlaceFlatten(GroupBy(xs[..n], key), xs[n], key);
      assert xs == xs[..n] + [xs[n]];
    }
  }

  /** Every group is non-empty and its rows share its key. */
  lemma {:induction false} GroupByKeyed(xs: seq<nat>, key: nat -> nat)
    ensures forall a :: 0 <= a < |GroupBy(xs, key)| ==> WellKeyed(GroupBy(xs, key)[a], key)
    decreases |xs|
  {
    if xs != [] {
      var n := |xs| - 1;
      GroupByKeyed(xs[..n], key);
      PlaceKeyed(GroupBy(xs[..n], key), xs[n], key);
    }
  }

  /** Over increasing due rows and a monotone key the groups come in strictly ascending key order. */
  lemma {:induction false} GroupByAscending(xs: seq<nat>, key: nat -> nat)
    requires Monotone(key) && StrictlyIncreasing(xs)
    ensures KeysAscending(GroupBy(xs, key), key)
    decreases |xs|
  {
    if xs != [] {
      var n := |xs| - 1;
      var init := xs[..n];
      var gs := GroupBy(init, key);
      assert KeysAscending(gs, key) by {
        assert StrictlyIncreasing(init);
        GroupByAscending(init, key);
      }
      assert forall y :: y in Flatten(gs) ==> key(y) <= key(xs[n]) by {
        GroupByFlatten(init, key);
        forall y | y in init ensures key(y) <= key(xs[n]) {
          var i :| 0 <= i < |init| && init[i] == y;
          assert xs[i] == y && y <= xs[n];
        }
      }
      GroupByKeyed(init, key);
      PlaceAscending(gs, xs[n], key);
      assert GroupBy(xs, key) == Place(gs, xs[n], key);
    }
  }

  /** main.py:158: each due row gets the group number of its catalog index. */
  function Grouped(catalog: seq<CatalogRow>, mask: seq<bool>, maxUsersPerFile: nat): (r: seq<CatalogRow>)
    requires |mask| == |catalog| && maxUsersPerFile > 0
    ensures |r| == |catalog|
  {
    seq(|catalog|, i requires 0 <= i < |catalog| =>
      if mask[i] then catalog[i].(group := Some(i / maxUsersPerFile)) else catalog[i])
  }

  /** The catalog once the rows in `visited` have been stamped with `now` (main.py:165). */
  function Stamped(catalog: seq<CatalogRow>, visited: seq<nat>, now: Stamp): (r: seq<CatalogRow>)
    ensures |r| == |catalog|
  {
    seq(|catalog|, i requires 0 <= i < |catalog| =>
      if i in visited then catalog[i].(lastFetchUsersTs := Some(now)) else catalog[i])
  }

  /**
   * The rows of the groups before group `g` are exactly the due rows whose
   * key is smaller than that of group `g`.
   */
  lemma CommittedRows(xs: seq<nat>, key: nat -> nat, g: nat)
    requires Monotone(key) && StrictlyIncreasing(xs)
    requires g < |GroupBy(xs, key)|
    ensures forall x :: x in Flatten(GroupBy(xs, key)[..g]) <==>
                        x in xs && key(x) < GroupKey(GroupBy(xs, key)[g], key)
  {
    var gs: seq<seq<nat>> := GroupBy(xs, key);
    GroupByFlatten(xs, key);
    GroupByKeyed(xs, key);
    GroupByAscending(xs, key);
    forall x: nat ensures x in Flatten(gs[..g]) <==> x in xs && key(x) < GroupKey(gs[g], key) {
      EarlierGroups(gs, key, g, x);
    }
  }

  /** Over well-keyed groups in ascending key order, the groups before `g` hold exactly the rows keyed below it. */
  lemma {:induction false} EarlierGroups(gs: seq<seq<nat>>, key: nat -> nat, g: nat, x: nat)
    requires g < |gs| && KeysAscending(gs, key)
    requires forall a :: 0 <= a < |gs| ==> WellKeyed(gs[a], key)
    ensures x in Flatten(gs[..g]) <==> x in Flatten(gs) && key(x) < GroupKey(gs[g], key)
  {
    var earlier := gs[..g];
    FlattenMember(earlier, x);
    FlattenMember(gs, x);
    if x in Flatten(earlier) {
      var a :| 0 <= a < g && x in earlier[a];
      assert x in gs[a] && WellKeyed(gs[a], key);
    }
    if x in Flatten(gs) && key(x) < GroupKey(gs[g], key) {
      var a :| 0 <= a < |gs| && x in gs[a];
      assert WellKeyed(gs[a], key);
      assert a < g;
      assert x in earlier[a];
    }
  }

  /**
   * Once the run has reached the `j`-th row of group `g`, it has visited
   * exactly the due rows up to and including that row.
   */
  lemma VisitedRows(xs: seq<nat>, key: nat -> nat, g: nat, j: nat)
    requires StrictlyIncreasing(xs)
    requires g < |GroupBy(xs, key)| && j < |GroupBy(xs, key)[g]|
    ensures forall x :: x in Flatten(GroupBy(xs, key)[..g]) + GroupBy(xs, key)[g][..j + 1] <==>
                        x in xs && x <= GroupBy(xs, key)[g][j]
  {
    var gs: seq<seq<nat>> := GroupBy(xs, key);
    var before := Flatten(gs[..g]);
    GroupByFlatten(xs, key);
    FlattenAround(gs, g);
    var n := |before| + j + 1;
    assert xs[..n] == before + gs[g][..j + 1];
    assert xs[n - 1] == gs[g][j];
    PrefixUpTo(xs, n);
  }

  /** The groups up to and including group `g` flatten to those before it followed by it. */
  lemma {:induction false} FlattenUpTo<T>(gs: seq<seq<T>>, g: nat)
    requires g < |gs|
    ensures Flatten(gs[..g + 1]) == Flatten(gs[..g]) + gs[g]
  {
    var upTo := gs[..g + 1];
    assert upTo[..|upTo| - 1] == gs[..g] && Last(upTo) == gs[g];
  }

  /** A concatenation of groups splits around any one group. */
  lemma {:induction false} FlattenAround<T>(gs: seq<seq<T>>, g: nat)
    requires g < |gs|
    ensures Flatten(gs) == Flatten(gs[..g]) + gs[g] + Flatten(gs[g + 1..])
  {
    FlattenUpTo(gs, g);
    assert gs == gs[..g + 1] + gs[g + 1..];
    FlattenAppend(gs[..g + 1], gs[g + 1..]);
  }

  lemma GroupBySnoc(xs: seq<nat>, x: nat, key: nat -> nat)
    ensures GroupBy(xs + [x], key) == Place(GroupBy(xs, key), x, key)
  {
    assert (xs + [x])[..|xs|] == xs;
  }

  /** Rows 0 and 1 under a key that pairs them form one group. */
  lemma FirstPair(key: nat -> nat)
    requires key(0) == key(1)
    ensures GroupBy([0, 1], key) == [[0, 1]]
  {
    var x1: seq<nat> := [0];
    var x2: seq<nat> := [0, 1];
    var g1: seq<seq<nat>> := [x1];
    assert GroupBy(x1, key) == g1 by {
      assert x1[..0] == [];
      assert [] + [x1] == g1;
    }
    assert x2[..1] == x1 && Last(x2) == 1;
    assert Last(g1) + [1] == x2;
  }

  /** Rows 0 to 3 under a key that pairs 0 with 1 and 2 with 3 form two groups. */
  lemma TwoPairs(key: nat -> nat)
    requires key(0) == key(1) && key(1) != key(2) && key(2) == key(3)
    ensures GroupBy([0, 1, 2, 3], key) == [[0, 1], [2, 3]]
  {
    var x2: seq<nat> := [0, 1];
    var x3: seq<nat> := [0, 1, 2];
    var x4: seq<nat> := [0, 1, 2, 3];
    var y2: seq<nat> := [2];
    var y23: seq<nat> := [2, 3];
    var g2: seq<seq<nat>> := [x2];
    var g3: seq<seq<nat>> := [x2, y2];
    var g4: seq<seq<nat>> := [x2, y23];
    FirstPair(key);
    assert GroupBy(x3, key) == g3 by { GroupBySnoc(x2, 2, key); assert x2 + [2] == x3; }
    GroupBySnoc(x3, 3, key);
    assert x3 + [3] == x4;
    assert y2 + [3] == y23;
    assert g3[..1] + [y23] == g4;
  }

  /** Rows 0 to 4 under a key that pairs 0 with 1 and 2 with 3 form three groups. */
  lemma PairedKeys(key: nat -> nat)
    requires key(0) == key(1) && key(1) != key(2) && key(2) == key(3) && key(3) != key(4)
    ensures GroupBy([0, 1, 2, 3, 4], key) == [[0, 1], [2, 3], [4]]
  {
    var x4: seq<nat> := [0, 1, 2, 3];
    var x5: seq<nat> := [0, 1, 2, 3, 4];
    var y23: seq<nat> := [2, 3];
    var z4: seq<nat> := [4];
    var g4: seq<seq<nat>> := [[0, 1], y23];
    TwoPairs(key);
    GroupBySnoc(x4, 4, key);
    assert x4 + [4] == x5;
    assert GroupKey(Last(g4), key) == key(3);
  }

  /** Five due rows, two per file: three groups of two, two and one rows. */
  lemma FiveRowsTwoPerFile()
    ensures GroupBy([0, 1, 2, 3, 4], FileOf(2)) == [[0, 1], [2, 3], [4]]
  {
    var key := FileOf(2);
    assert key(0) == 0 && key(1) == 0 && key(2) == 1 && key(3) == 1 && key(4) == 2;
    PairedKeys(key);
  }

  /** Rows 1 to 4 under a key that sets 1 apart and pairs 2 with 3 form three groups. */
  lemma ResumedKeys(key: nat -> nat)
    requires key(1) != key(2) && key(2) == key(3) && key(3) != key(4)
    ensures GroupBy([1, 2, 3, 4], key) == [[1], [2, 3], [4]]
  {
    var x1: seq<nat> := [1];
    var x2: seq<nat> := [1, 2];
    var x3: seq<nat> := [1, 2, 3];
    var x4: seq<nat> := [1, 2, 3, 4];
    var y2: seq<nat> := [2];
    var y23: seq<nat> := [2, 3];
    var z4: seq<nat> := [4];
    var g1: seq<seq<nat>> := [x1];
    var g2: seq<seq<nat>> := [x1, y2];
    var g3: seq<seq<nat>> := [x1, y23];
    var g4: seq<seq<nat>> := [x1, y23, z4];
    assert GroupBy(x1, key) == g1 by { GroupBySnoc([], 1, key); assert [] + [1] == x1; }
    assert GroupBy(x2, key) == g2 by { GroupBySnoc(x1, 2, key); assert x1 + [2] == x2; }
    assert GroupBy(x3, key) == g3 by { GroupBySnoc(x2, 3, key); assert x2 + [3] == x3; assert y2 + [3] == y23; assert g2[..1] + [y23] == g3; }
    assert GroupBy(x4, key) == g4 by { GroupBySnoc(x3, 4, key); assert x3 + [4] == x4; assert g3 + [z4] == g4; }
  }

  /**
   * A resumed run: row 0 was fetched before, rows 1 to 4 are due. Group
   * numbers come from the catalog index, so the first group holds row 1 alone.
   */
  lemma ResumedRunKeepsCatalogGroups()
    ensures GroupBy([1, 2, 3, 4], FileOf(2)) == [[1], [2, 3], [4]]
  {
    var key := FileOf(2);
    assert key(1) == 0 && key(2) == 1 && key(3) == 1 && key(4) == 2;
    ResumedKeys(key);
  }

}
