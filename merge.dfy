/**
 * The effect of the two merge statements of the load, on table contents.
 *
 * `DELETE FROM reddit USING our_staging_table WHERE reddit.id =
 * our_staging_table.id` keeps exactly the prior rows whose id is not
 * staged; `INSERT INTO reddit SELECT * FROM our_staging_table` then appends
 * every staged row. A table is a sequence of rows: SQL tables are bags, and
 * the order fixed here (kept rows in their old order, then the staged rows)
 * is one representative. Nothing in the table's type stops two rows from
 * sharing an id, because the INSERT does not enforce the declared primary
 * key; uniqueness is proved from hypotheses instead.
 */
module Merge {
  import opened Wrappers
  import opened StageFile

  /** The identifiers of a set of rows. */
  function Ids(rows: seq<Row>): set<string>
  {
    set r | r in rows :: r.id
  }

  /** No two rows share an id. */
  predicate UniqueIds(rows: seq<Row>) {
    forall i, j :: 0 <= i < j < |rows| ==> rows[i].id != rows[j].id
  }

  /** The rows of a table before the load: an absent table has none. */
  function Prior(table: Option<seq<Row>>): (rows: seq<Row>)
    ensures table.Some? ==> rows == table.value
    ensures table.None? ==> rows == []
  {
    if table.Some? then table.value else []
  }

  /** The DELETE ... USING statement: the prior rows whose id is not among `stagedIds`, in order. */
  function Keep(prior: seq<Row>, stagedIds: set<string>): seq<Row>
  {
    if prior == [] then []
    else if prior[0].id in stagedIds then Keep(prior[1..], stagedIds)
    else [prior[0]] + Keep(prior[1..], stagedIds)
  }

  /** How many prior rows the DELETE removes. */
  function Matching(prior: seq<Row>, stagedIds: set<string>): nat
  {
    if prior == [] then 0
    else (if prior[0].id in stagedIds then 1 else 0) + Matching(prior[1..], stagedIds)
  }

  /** DELETE followed by INSERT: the target after the merge statements. */
  function Upsert(prior: seq<Row>, staged: seq<Row>): seq<Row>
  {
    Keep(prior, Ids(staged)) + staged
  }

  // ---------------------------------------------------------------------
  // The DELETE statement.

  /** A row survives the DELETE if and only if it was a prior row whose id is not staged. */
  lemma {:induction false} KeepMembership(prior: seq<Row>, stagedIds: set<string>, r: Row)
    ensures r in Keep(prior, stagedIds) <==> r in prior && r.id !in stagedIds
  {
    if prior != [] {
      KeepMembership(prior[1..], stagedIds, r);
      assert prior == [prior[0]] + prior[1..];
    }
  }

  /**
   * The DELETE leaves each unmatched prior row unchanged and as often as it
   * was there, and removes every copy of each matched one.
   */
  lemma {:induction false} KeepMultiplicity(prior: seq<Row>, stagedIds: set<string>, r: Row)
    ensures multiset(Keep(prior, stagedIds))[r] == if r.id in stagedIds then 0 else multiset(prior)[r]
  {
    if prior != [] {
      KeepMultiplicity(prior[1..], stagedIds, r);
      assert prior == [prior[0]] + prior[1..];
      assert multiset(prior) == multiset([prior[0]]) + multiset(prior[1..]);
      if prior[0].id !in stagedIds {
        assert multiset(Keep(prior, stagedIds)) == multiset([prior[0]]) + multiset(Keep(prior[1..], stagedIds));
      }
    }
  }

  /** The DELETE removes exactly the matching prior rows. */
  lemma {:induction false} KeepCount(prior: seq<Row>, stagedIds: set<string>)
    ensures |Keep(prior, stagedIds)| + Matching(prior, stagedIds) == |prior|
  {
    if prior != [] {
      KeepCount(prior[1..], stagedIds);
    }
  }

  /** With unique prior ids, the DELETE removes one row per identifier that already existed. */
  lemma {:induction false} MatchingCountsExistingIds(prior: seq<Row>, stagedIds: set<string>)
    requires UniqueIds(prior)
    ensures Matching(prior, stagedIds) == |Ids(prior) * stagedIds|
  {
    if prior == [] {
      assert Ids(prior) == {};
    } else {
      var rest := prior[1..];
      UniqueTail(prior);
      MatchingCountsExistingIds(rest, stagedIds);
      assert prior == [prior[0]] + rest;
      IdsCons(prior[0], rest);
      FirstIdFresh(prior);
      CountAddedKey(prior[0].id, Ids(rest), stagedIds);
    }
  }

  /** Adding one fresh key to a set adds one to its intersection with `s` exactly when the key is in `s`. */
  lemma CountAddedKey(k: string, rest: set<string>, s: set<string>)
    requires k !in rest
    ensures |({k} + rest) * s| == (if k in s then 1 else 0) + |rest * s|
  {
    if k in s {
      assert ({k} + rest) * s == {k} + rest * s;
    } else {
      assert ({k} + rest) * s == rest * s;
    }
  }

  /** Dropping the first row keeps ids unique. */
  lemma UniqueTail(rows: seq<Row>)
    requires UniqueIds(rows) && rows != []
    ensures UniqueIds(rows[1..])
  {
    forall i, j | 0 <= i < j < |rows[1..]| ensures rows[1..][i].id != rows[1..][j].id {
      assert rows[1..][i] == rows[i + 1] && rows[1..][j] == rows[j + 1];
    }
  }

  /** The ids of a row followed by more rows. */
  lemma IdsCons(r: Row, rest: seq<Row>)
    ensures Ids([r] + rest) == {r.id} + Ids(rest)
  {
    assert forall x :: x in [r] + rest <==> x == r || x in rest;
  }

  /** With unique ids, the first row's id occurs nowhere else. */
  lemma FirstIdFresh(rows: seq<Row>)
    requires UniqueIds(rows) && rows != []
    ensures rows[0].id !in Ids(rows[1..])
  {
    forall r | r in rows[1..] ensures r.id != rows[0].id {
      var j :| 0 <= j < |rows[1..]| && rows[1..][j] == r;
      assert rows[j + 1] == r;
    }
  }

  /** The DELETE keeps prior rows in a sub-sequence, so it cannot create a duplicate id. */
  lemma {:induction false} KeepUnique(prior: seq<Row>, stagedIds: set<string>)
    requires UniqueIds(prior)
    ensures UniqueIds(Keep(prior, stagedIds))
  {
    if prior != [] {
      var rest := prior[1..];
      UniqueTail(prior);
      KeepUnique(rest, stagedIds);
      if prior[0].id !in stagedIds {
        var kept := Keep(rest, stagedIds);
        forall j | 0 <= j < |kept| ensures kept[j].id != prior[0].id {
          KeepMembership(rest, stagedIds, kept[j]);
          var m :| 0 <= m < |rest| && rest[m] == kept[j];
          assert prior[m + 1] == kept[j];
        }
        UniqueCons(prior[0], kept);
      }
    }
  }

  /** Prepending a row with a fresh id keeps the ids unique. */
  lemma UniqueCons(r: Row, rows: seq<Row>)
    requires UniqueIds(rows)
    requires forall j :: 0 <= j < |rows| ==> rows[j].id != r.id
    ensures UniqueIds([r] + rows)
  {
    var all := [r] + rows;
    forall i, j | 0 <= i < j < |all| ensures all[i].id != all[j].id {
      assert all[j] == rows[j - 1];
      if i > 0 {
        assert all[i] == rows[i - 1];
      }
    }
  }

  /** The DELETE distributes over concatenation. */
  lemma {:induction false} KeepAppend(a: seq<Row>, b: seq<Row>, stagedIds: set<string>)
    ensures Keep(a + b, stagedIds) == Keep(a, stagedIds) + Keep(b, stagedIds)
  {
    if a == [] {
      assert a + b == b;
    } else {
      assert (a + b)[0] == a[0];
      assert (a + b)[1..] == a[1..] + b;
      KeepAppend(a[1..], b, stagedIds);
    }
  }

  /** A second DELETE with the same staged ids removes nothing more. */
  lemma {:induction false} KeepTwice(prior: seq<Row>, stagedIds: set<string>)
    ensures Keep(Keep(prior, stagedIds), stagedIds) == Keep(prior, stagedIds)
  {
    if prior != [] {
      KeepTwice(prior[1..], stagedIds);
      if prior[0].id !in stagedIds {
        var k := Keep(prior[1..], stagedIds);
        assert ([prior[0]] + k)[0] == prior[0];
        assert ([prior[0]] + k)[1..] == k;
      }
    }
  }

  /** Deleting by the staged rows' own ids removes all of them. */
  lemma {:induction false} KeepNone(rows: seq<Row>, stagedIds: set<string>)
    requires forall r :: r in rows ==> r.id in stagedIds
    ensures Keep(rows, stagedIds) == []
  {
    if rows != [] {
      assert rows[0] in rows;
      assert forall r :: r in rows[1..] ==> r in rows;
      KeepNone(rows[1..], stagedIds);
    }
  }

  // ---------------------------------------------------------------------
  // DELETE followed by INSERT.

  /**
   * Replace and keep: after the merge a row is present if and only if it is
   * a staged row, or a prior row whose id was not staged.
   */
  lemma UpsertMembership(prior: seq<Row>, staged: seq<Row>, r: Row)
    ensures r in Upsert(prior, staged) <==> r in staged || (r in prior && r.id !in Ids(staged))
  {
    KeepMembership(prior, Ids(staged), r);
  }

  /** Every staged row lands in the target. */
  lemma UpsertContainsStaged(prior: seq<Row>, staged: seq<Row>)
    ensures forall r :: r in staged ==> r in Upsert(prior, staged)
    ensures Upsert(prior, staged)[|Upsert(prior, staged)| - |staged|..] == staged
  {
  }

  /** New count = old count - prior rows whose id is staged + staged count. */
  lemma UpsertCount(prior: seq<Row>, staged: seq<Row>)
    ensures |Upsert(prior, staged)| == |prior| - Matching(prior, Ids(staged)) + |staged|
    ensures UniqueIds(prior) ==> |Upsert(prior, staged)| == |prior| - |Ids(prior) * Ids(staged)| + |staged|
  {
    KeepCount(prior, Ids(staged));
    if UniqueIds(prior) {
      MatchingCountsExistingIds(prior, Ids(staged));
    }
  }

  /** Unique prior ids and unique staged ids give unique ids after the merge. */
  lemma UpsertUnique(prior: seq<Row>, staged: seq<Row>)
    requires UniqueIds(prior) && UniqueIds(staged)
    ensures UniqueIds(Upsert(prior, staged))
  {
    var kept := Keep(prior, Ids(staged));
    KeepUnique(prior, Ids(staged));
    var all := kept + staged;
    forall i, j | 0 <= i < j < |all| ensures all[i].id != all[j].id {
      if j < |kept| {
        assert all[i] == kept[i] && all[j] == kept[j];
      } else if i >= |kept| {
        assert all[i] == staged[i - |kept|] && all[j] == staged[j - |kept|];
      } else {
        assert all[i] == kept[i] && all[j] == staged[j - |kept|];
        assert all[j] in staged;
        KeepMembership(prior, Ids(staged), kept[i]);
      }
    }
  }

  /** Duplicated staged ids always survive into the target: the staged uniqueness hypothesis is needed. */
  lemma UpsertUniqueNeedsUniqueStaged(prior: seq<Row>, staged: seq<Row>)
    requires UniqueIds(Upsert(prior, staged))
    ensures UniqueIds(staged)
  {
    var all := Upsert(prior, staged);
    var offset := |all| - |staged|;
    forall i, j | 0 <= i < j < |staged| ensures staged[i].id != staged[j].id {
      assert all[offset + i] == staged[i] && all[offset + j] == staged[j];
    }
  }

  /** A staged row replaces every prior version: it is the only row with its id afterwards. */
  lemma UpsertLatestVersion(prior: seq<Row>, staged: seq<Row>, r: Row)
    requires UniqueIds(staged) && r in staged
    ensures forall x :: x in Upsert(prior, staged) && x.id == r.id ==> x == r
  {
    forall x | x in Upsert(prior, staged) && x.id == r.id ensures x == r {
      UpsertMembership(prior, staged, x);
      var i :| 0 <= i < |staged| && staged[i] == x;
      var j :| 0 <= j < |staged| && staged[j] == r;
      assert i == j;
    }
  }

  /** Merging the same staged rows twice gives the same target as merging them once. */
  lemma UpsertIdempotent(prior: seq<Row>, staged: seq<Row>)
    ensures Upsert(Upsert(prior, staged), staged) == Upsert(prior, staged)
  {
    var ids := Ids(staged);
    KeepAppend(Keep(prior, ids), staged, ids);
    KeepTwice(prior, ids);
    KeepNone(staged, ids);
  }

  /** Merging into a freshly created, empty table yields exactly the staged rows. */
  lemma UpsertIntoEmpty(staged: seq<Row>)
    ensures Upsert([], staged) == staged
  {
  }

  /**
   * Two staged row lists with the same ids in the same places delete the
   * same prior rows and agree on uniqueness: the merge looks at nothing but
   * the ids of the staged rows.
   */
  lemma SameIdsMergeAlike(prior: seq<Row>, a: seq<Row>, b: seq<Row>)
    requires SameIds(a, b)
    ensures Ids(a) == Ids(b)
    ensures Keep(prior, Ids(a)) == Keep(prior, Ids(b))
    ensures |Upsert(prior, a)| == |Upsert(prior, b)|
    ensures UniqueIds(a) <==> UniqueIds(b)
  {
    forall x | x in Ids(a) ensures x in Ids(b) {
      var i :| 0 <= i < |a| && a[i].id == x;
      assert b[i] in b;
    }
    forall x | x in Ids(b) ensures x in Ids(a) {
      var i :| 0 <= i < |b| && b[i].id == x;
      assert a[i] in a;
    }
  }
}
