/**
 * The Redshift loader: the COPY source and IAM role it is configured with,
 * and the transaction that merges one stage file into the `reddit` table.
 *
 * The database is a `Warehouse` object holding the two tables the load
 * touches. Each SQL statement of the load is a method that either fails and
 * changes nothing, or has its effect on the tables. Failures the database
 * reports for reasons outside the model (a dropped statement, permissions,
 * a missing S3 object, a value that does not convert to its column type)
 * are an input: the `fail` flag of a step, or `failAt` for the whole load.
 * The rollback after such a failure is taken to succeed.
 */
module RedshiftLoad {
  import opened Wrappers
  import opened Text
  import opened StageFile
  import opened Merge

  // ---------------------------------------------------------------------
  // Configuration derived at start-up.

  /** The S3 location the COPY statement reads: `s3://<bucket>/<run>.csv`. */
  function CopySource(bucket: string, outputName: string): string
  {
    "s3://" + bucket + "/" + outputName + ".csv"
  }

  const ArnPrefix: string := "arn:aws:iam::"
  const RoleMarker: string := ":role/"

  /** The IAM role the COPY statement authenticates with. */
  function RoleArn(accountId: string, role: string): string
  {
    ArnPrefix + accountId + RoleMarker + role
  }

  /**
   * Reads an account id and a role name back out of a role ARN; a string not
   * of the form `arn:aws:iam::<account>:role/<role>` gives None.
   */
  function ParseRoleArn(arn: string): (parsed: Option<(string, string)>)
    ensures parsed.Some? ==> ':' !in parsed.value.0 && RoleArn(parsed.value.0, parsed.value.1) == arn
  {
    if |arn| < |ArnPrefix| || arn[..|ArnPrefix|] != ArnPrefix then None
    else
      var rest := arn[|ArnPrefix|..];
      match Find(rest, ':')
      case None => None
      case Some(k) =>
        var tail := rest[k..];
        if |tail| < |RoleMarker| || tail[..|RoleMarker|] != RoleMarker then None
        else
          var account, role := rest[..k], tail[|RoleMarker|..];
          SplitThree(arn, |ArnPrefix|, |ArnPrefix| + k, |ArnPrefix| + k + |RoleMarker|);
          Some((account, role))
  }

  /** A string is the concatenation of its slices at three cut points. */
  lemma SplitThree(s: string, i: nat, j: nat, k: nat)
    requires i <= j <= k <= |s|
    ensures s == s[..i] + s[i..][..j - i] + s[i..][j - i..][..k - j] + s[i..][j - i..][k - j..]
  {
  }

  /** The role string names exactly the configured account and role. */
  lemma RoleArnRoundTrip(accountId: string, role: string)
    requires ':' !in accountId
    ensures ParseRoleArn(RoleArn(accountId, role)) == Some((accountId, role))
  {
    var arn := RoleArn(accountId, role);
    assert arn[..|ArnPrefix|] == ArnPrefix;
    var rest := arn[|ArnPrefix|..];
    assert rest == accountId + [':'] + ("role/" + role);
    FindAfterPrefix(accountId, ':', "role/" + role);
    assert rest[..|accountId|] == accountId;
    assert rest[|accountId|..] == RoleMarker + role;
  }

  /** Different configurations never produce the same role string. */
  lemma RoleArnInjective(account1: string, role1: string, account2: string, role2: string)
    requires ':' !in account1 && ':' !in account2
    requires RoleArn(account1, role1) == RoleArn(account2, role2)
    ensures account1 == account2 && role1 == role2
  {
    RoleArnRoundTrip(account1, role1);
    RoleArnRoundTrip(account2, role2);
  }

  // ---------------------------------------------------------------------
  // The load transaction.

  /** The statements of the load, in the order they run, and the final commit. */
  datatype Step = CreateTarget | CreateStaging | CopyFile | DeleteStaged | InsertStaged | DropStaging | Commit

  /** The two tables the load touches; None means the table does not exist. */
  class Warehouse {
    var target: Option<seq<Row>>
    var staging: Option<seq<Row>>

    /** A fresh session: temporary tables of earlier sessions are gone. */
    constructor (existing: Option<seq<Row>>)
      ensures target == existing && staging == None
    {
      target := existing;
      staging := None;
    }

    /** CREATE TABLE IF NOT EXISTS: an empty table if there was none, a no-op otherwise. */
    method CreateTargetIfAbsent(fail: bool) returns (ok: bool)
      modifies this
      ensures ok == !fail
      ensures staging == old(staging)
      ensures ok ==> target.Some? && Prior(target) == Prior(old(target))
      ensures ok && old(target).Some? ==> target == old(target)
      ensures !ok ==> target == old(target)
    {
      ok := !fail;
      if ok && target.None? {
        target := Some([]);
      }
    }

    /** CREATE TEMP TABLE ... (LIKE reddit): needs the target and fails if the name is taken. */
    method CreateStagingTable(fail: bool) returns (ok: bool)
      modifies this
      ensures ok == (!fail && old(target).Some? && old(staging).None?)
      ensures target == old(target)
      ensures staging == if ok then Some([]) else old(staging)
    {
      ok := !fail && target.Some? && staging.None?;
      if ok {
        staging := Some([]);
      }
    }

    /**
     * COPY ... IGNOREHEADER 1, with no column list: appends the data rows,
     * loaded by position, of every object under the source path, or fails
     * without loading any.
     */
    method CopyIntoStaging(files: seq<seq<Line>>, fail: bool) returns (ok: bool)
      modifies this
      ensures ok == (!fail && old(staging).Some? && CopyObjects(ByPosition, files).Some?)
      ensures target == old(target)
      ensures staging == if ok then Some(old(staging).value + CopyObjects(ByPosition, files).value) else old(staging)
    {
      var rows := CopyObjects(ByPosition, files);
      ok := !fail && staging.Some? && rows.Some?;
      if ok {
        staging := Some(staging.value + rows.value);
      }
    }

    /** DELETE FROM reddit USING our_staging_table WHERE reddit.id = our_staging_table.id. */
    method DeleteStagedIds(fail: bool) returns (ok: bool)
      modifies this
      ensures ok == (!fail && old(target).Some? && old(staging).Some?)
      ensures staging == old(staging)
      ensures target == if ok then Some(Keep(old(target).value, Ids(old(staging).value))) else old(target)
    {
      ok := !fail && target.Some? && staging.Some?;
      if ok {
        target := Some(Keep(target.value, Ids(staging.value)));
      }
    }

    /** INSERT INTO reddit SELECT * FROM our_staging_table: no key check, the rows are appended. */
    method InsertStagedRows(fail: bool) returns (ok: bool)
      modifies this
      ensures ok == (!fail && old(target).Some? && old(staging).Some?)
      ensures staging == old(staging)
      ensures target == if ok then Some(old(target).value + old(staging).value) else old(target)
    {
      ok := !fail && target.Some? && staging.Some?;
      if ok {
        target := Some(target.value + staging.value);
      }
    }

    /** DROP TABLE our_staging_table. */
    method DropStagingTable(fail: bool) returns (ok: bool)
      modifies this
      ensures ok == (!fail && old(staging).Some?)
      ensures target == old(target)
      ensures staging == if ok then None else old(staging)
    {
      ok := !fail && staging.Some?;
      if ok {
        staging := None;
      }
    }

    /**
     * The whole load: the six statements in order, then the commit; the first
     * failure stops the sequence and the rollback restores both tables. The
     * error is reported, not raised, so the call returns whenever the
     * rollback succeeds; `committed` tells which way it went.
     */
    method Load(files: seq<seq<Line>>, failAt: Option<Step>) returns (committed: bool)
      modifies this
      ensures committed <==> failAt.None? && old(staging).None? && CopyObjects(ByPosition, files).Some?
      ensures committed ==> target == Some(Upsert(Prior(old(target)), CopyObjects(ByPosition, files).value))
      ensures committed ==> staging == None
      ensures !committed ==> target == old(target) && staging == old(staging)
    {
      var savedTarget, savedStaging := target, staging;
      ghost var rows := CopyObjects(ByPosition, files);
      var ok := CreateTargetIfAbsent(failAt == Some(CreateTarget));
      if ok {
        ok := CreateStagingTable(failAt == Some(CreateStaging));
        if ok {
          ok := CopyIntoStaging(files, failAt == Some(CopyFile));
          if ok {
            assert [] + rows.value == rows.value;
            assert staging == Some(rows.value) && target == Some(Prior(savedTarget));
            ok := DeleteStagedIds(failAt == Some(DeleteStaged));
            if ok {
              assert target == Some(Keep(Prior(savedTarget), Ids(rows.value)));
              ok := InsertStagedRows(failAt == Some(InsertStaged));
              if ok {
                assert target == Some(Upsert(Prior(savedTarget), rows.value));
                ok := DropStagingTable(failAt == Some(DropStaging));
                if ok {
                  if failAt.Some? {
                    assert failAt.value.Commit?;
                  }
                  ok := failAt != Some(Commit);
                }
              }
            }
          }
        }
      }
      if !ok {
        target, staging := savedTarget, savedStaging;
      }
      committed := ok;
    }
  }

  // ---------------------------------------------------------------------
  // What a successful load guarantees about the target table.

  /** A committed load keeps ids unique when the table and the file each had unique ids. */
  lemma LoadKeepsIdsUnique(prior: Option<seq<Row>>, files: seq<seq<Line>>)
    requires CopyObjects(ByPosition, files).Some?
    requires UniqueIds(Prior(prior)) && UniqueIds(CopyObjects(ByPosition, files).value)
    ensures UniqueIds(Upsert(Prior(prior), CopyObjects(ByPosition, files).value))
  {
    UpsertUnique(Prior(prior), CopyObjects(ByPosition, files).value);
  }

  /** Loading the same stage file a second time leaves the table as the first load left it. */
  lemma ReloadIsIdempotent(prior: Option<seq<Row>>, files: seq<seq<Line>>)
    requires CopyObjects(ByPosition, files).Some?
    ensures Upsert(Prior(Some(Upsert(Prior(prior), CopyObjects(ByPosition, files).value))), CopyObjects(ByPosition, files).value)
         == Upsert(Prior(prior), CopyObjects(ByPosition, files).value)
  {
    UpsertIdempotent(Prior(prior), CopyObjects(ByPosition, files).value);
  }

  /**
   * The DELETE removes the same prior rows, and the table keeps the same
   * size and the same uniqueness, whether COPY loads by position as written
   * or by name: both put the stage file's first field in the `id` column.
   */
  lemma MergeIgnoresColumnOrder(prior: Option<seq<Row>>, files: seq<seq<Line>>)
    requires CopyObjects(ByPosition, files).Some?
    ensures CopyObjects(ByName, files).Some?
    ensures Keep(Prior(prior), Ids(CopyObjects(ByPosition, files).value))
         == Keep(Prior(prior), Ids(CopyObjects(ByName, files).value))
    ensures |Upsert(Prior(prior), CopyObjects(ByPosition, files).value)|
         == |Upsert(Prior(prior), CopyObjects(ByName, files).value)|
    ensures UniqueIds(Upsert(Prior(prior), CopyObjects(ByPosition, files).value))
        <==> UniqueIds(Upsert(Prior(prior), CopyObjects(ByName, files).value))
  {
    CopyObjectsIdsAgree(files);
    var p, n := CopyObjects(ByPosition, files).value, CopyObjects(ByName, files).value;
    SameIdsMergeAlike(Prior(prior), p, n);
    var kept := Keep(Prior(prior), Ids(p));
    assert SameIds(kept + p, kept + n) by {
      forall i | 0 <= i < |kept + p| ensures (kept + p)[i].id == (kept + n)[i].id {
        if i >= |kept| {
          assert (kept + p)[i] == p[i - |kept|] && (kept + n)[i] == n[i - |kept|];
        }
      }
    }
    SameIdsMergeAlike([], kept + p, kept + n);
  }

  /** The first load into a fresh session on a database without the table. */
  method FirstLoad(files: seq<seq<Line>>) returns (w: Warehouse, committed: bool)
    ensures committed <==> CopyObjects(ByPosition, files).Some?
    ensures committed ==> w.target == CopyObjects(ByPosition, files)
    ensures !committed ==> w.target == None
    ensures w.staging == None
  {
    w := new Warehouse(None);
    committed := w.Load(files, None);
    if committed {
      UpsertIntoEmpty(CopyObjects(ByPosition, files).value);
    }
  }

  /** Two loads of the same objects in a row, through the Warehouse methods. */
  method LoadTwice(w: Warehouse, files: seq<seq<Line>>) returns (first: bool, second: bool)
    requires w.staging.None?
    modifies w
    ensures first == second
    ensures second <==> CopyObjects(ByPosition, files).Some?
    ensures second ==> w.target == Some(Upsert(Prior(old(w.target)), CopyObjects(ByPosition, files).value))
    ensures !second ==> w.target == old(w.target)
    ensures w.staging == None
  {
    first := w.Load(files, None);
    second := w.Load(files, None);
    if second {
      ReloadIsIdempotent(old(w.target), files);
    }
  }
}
