# Reddit pipeline: staging-and-merge load, in Dafny

This project models the core of a small ELT pipeline that moves Reddit posts
into an Amazon Redshift table called `reddit`, with an S3 bucket as the
landing zone for one CSV stage file per run (a run is named by a date string
such as `20240131`).

- **The load** (`load_data_into_redshift`): inside one transaction it creates
  the `reddit` table if it is absent, creates an empty temporary staging table
  shaped like it, COPYs the run's CSV file from S3 into the staging table
  while skipping one header line (by position, and from every object under
  the file's key), deletes every target row whose `id` is
  staged, inserts every staged row, drops the staging table and commits. If
  any statement or the commit fails, it rolls back, prints the error and
  returns normally, provided the rollback itself succeeds. `RedshiftLoad.Warehouse` is the database: the target and
  staging tables are fields (`None` for an absent table), each statement is a
  method, and `Load` runs them in order and restores the saved tables on
  failure. Which statement the database rejects for reasons outside the
  model is an input (`failAt`). The pure module `Merge` says what DELETE and
  INSERT do to the table contents. It proves replace/keep, the row count,
  conditional id uniqueness and idempotence.
- **The stage file and COPY** (`StageFile`): a file is a list of lines, each
  already split into fields. COPY with `IGNOREHEADER 1` skips exactly one
  line, and it fails as a whole when a line has the wrong number of fields.
  COPY as written has no column list, so it loads fields by position (see
  Findings), and its source path is a key prefix: it reads every object
  whose key starts with `<run>.csv`, and fails if there is none.
- **The upload** (`S3Upload`): the key `<run>.csv`, the local path
  `/tmp/<run>.csv`, the bucket create-if-absent rule driven by S3's answer to
  `head_bucket`, and an `ObjectStore` whose upload replaces exactly one
  object. `Pipeline` proves that the loader's COPY source names the uploaded
  object's bucket and key, that COPY reads the uploaded object, and that it
  reads nothing else unless the bucket already held other objects whose keys
  start with `<run>.csv`.
- **The download** (`RedshiftDownload`): the fetched tuples with a header
  tuple of column names inserted in front.

A table is a `seq<Row>`. SQL tables are bags, so the order the model keeps
(surviving rows in their old order, then the staged rows) is one
representative. The sequence is never a map: the declared `PRIMARY KEY` is
not enforced by `INSERT ... SELECT *`, so id uniqueness is proved from
hypotheses and never assumed.

Two guarantees one might expect of such a loader are weaker in the code,
and the model states what the code does. A failed load does not raise an
error (unless the rollback fails too): `Load` returns `committed = false`
and the tables are as before. The
one-row-per-id rule of the table is not enforced: it holds after a load only
when it held before and the file itself had unique ids
(`Merge.UpsertUnique`). The count "old − ids already present + staged"
likewise needs unique prior ids. Without that, the count is
`old − matching prior rows + staged` (`Merge.UpsertCount`).

## Model

| member | source | states |
|---|---|---|
| `StageFile.TableColumns` | airflow/extraction/upload_aws_redshift_etl.py:44-57 | the twelve columns of the `reddit` table in declared order, `num_comments` before `score`; `StageFile.PositionalCopySwapsScore` contrasts them with the stage file's field order |
| `StageFile.PositionalRow` | airflow/extraction/upload_aws_redshift_etl.py:64 | COPY as written (no column list): a line loads iff it has one field per table column, and table column i receives field i |
| `StageFile.PositionalCopySwapsScore` | airflow/extraction/upload_aws_redshift_etl.py:45-64 | for every well-formed line, positional COPY stores the file's `num_comments` in the `score` column and its `score` in the `num_comments` column (the extractor writes them in the other order); whenever the two differ, the `score` column is wrong |
| `StageFile.NamedRow` | airflow/extraction/upload_aws_redshift_etl.py:64 | corrected COPY (with the stage file's header as column list): a line loads iff it has one field per header name, and every table column holds the file value under its own name |
| `StageFile.DataLines` | airflow/extraction/upload_aws_redshift_etl.py:64 | `IGNOREHEADER 1`: exactly the first line is skipped and line i + 1 becomes data line i; an empty file gives no data |
| `StageFile.LoadRow` | airflow/extraction/upload_aws_redshift_etl.py:64 | a line loads, by position or by name, iff it has one field per table column; either way the row's `id` is the line's first field |
| `StageFile.LoadLines` | airflow/extraction/upload_aws_redshift_etl.py:64 | COPY succeeds iff every data line has the right number of fields; then it yields one row per line, in order, each the load of its line |
| `StageFile.CopyEach` | airflow/extraction/upload_aws_redshift_etl.py:64 | the objects under the source path load all or nothing: one rejected object rejects the statement; on success there is one row per data line over all objects |
| `StageFile.CopyEachMembership` | airflow/extraction/upload_aws_redshift_etl.py:64 | a row is loaded from the objects iff it is loaded from one of them |
| `StageFile.CopyObjects` | airflow/extraction/upload_aws_redshift_etl.py:64 | COPY succeeds iff at least one object matches its source path and every matching object loads; then it yields one row per data line over all matching objects |
| `StageFile.CopyObjectsMembership` | airflow/extraction/upload_aws_redshift_etl.py:64 | the rows of one COPY are exactly the rows loaded from the objects under its source path, and no others |
| `StageFile.CopyOneObject` | airflow/extraction/upload_aws_redshift_etl.py:64 | when a single object matches the source path, COPY loads exactly that object's rows |
| `StageFile.CopyObjectsIdsAgree` | airflow/extraction/upload_aws_redshift_etl.py:64 | the positional COPY as written and the by-name COPY accept the same objects and put the same ids at the same positions |
| `StageFile.CopyRows` | airflow/extraction/upload_aws_redshift_etl.py:64 | the rows COPY takes from one object: `IGNOREHEADER 1` then all-or-nothing loading of the data lines (`StageFile.CopySkipsHeader`, `StageFile.LoadLines`) |
| `StageFile.CopySkipsHeader` | airflow/extraction/upload_aws_redshift_etl.py:64 | the staging table receives the file's lines minus exactly one header line, row i from line i + 1, whatever the header says |
| `Merge.SameIdsMergeAlike` | airflow/extraction/upload_aws_redshift_etl.py:66-72 | staged rows with the same ids in the same places delete the same prior rows, give a table of the same size and agree on id uniqueness |
| `Merge.Keep` | airflow/extraction/upload_aws_redshift_etl.py:66-68 | the DELETE ... USING on table contents, characterised by `Merge.KeepMembership`, `Merge.KeepMultiplicity`, `Merge.KeepCount` and `Merge.KeepUnique` |
| `Merge.Upsert` | airflow/extraction/upload_aws_redshift_etl.py:66-72 | DELETE then INSERT on table contents, characterised by `Merge.UpsertMembership`, `Merge.UpsertCount`, `Merge.UpsertUnique` and `Merge.UpsertIdempotent` |
| `Merge.KeepMembership` | airflow/extraction/upload_aws_redshift_etl.py:66-68 | a row survives the DELETE iff it was a prior row and its id is not staged |
| `Merge.KeepMultiplicity` | airflow/extraction/upload_aws_redshift_etl.py:66-68 | the DELETE keeps each unmatched prior row unchanged with its multiplicity, and removes every copy of a matched one |
| `Merge.KeepCount` | airflow/extraction/upload_aws_redshift_etl.py:66-68 | rows kept + rows matched = prior rows |
| `Merge.MatchingCountsExistingIds` | airflow/extraction/upload_aws_redshift_etl.py:66-68 | with unique prior ids, the DELETE removes one row per staged id that already existed in the target |
| `Merge.KeepUnique` | airflow/extraction/upload_aws_redshift_etl.py:66-68 | the DELETE cannot introduce a duplicate id |
| `Merge.UpsertMembership` | airflow/extraction/upload_aws_redshift_etl.py:66-72 | replace/keep: after DELETE + INSERT a row is present iff it is staged, or it is a prior row whose id is not staged |
| `Merge.UpsertContainsStaged` | airflow/extraction/upload_aws_redshift_etl.py:70-72 | every staged row lands, and the target ends with the staged rows |
| `Merge.UpsertCount` | airflow/extraction/upload_aws_redshift_etl.py:66-72 | new count = old count − matching prior rows + staged count; with unique prior ids, old − ids already present + staged |
| `Merge.UpsertUnique` | airflow/extraction/upload_aws_redshift_etl.py:45-72 | unique prior ids and unique staged ids give unique ids after the merge |
| `Merge.UpsertUniqueNeedsUniqueStaged` | airflow/extraction/upload_aws_redshift_etl.py:70-72 | conversely, unique ids after the merge imply the staged ids were unique: the INSERT does not enforce the key |
| `Merge.UpsertLatestVersion` | airflow/extraction/upload_aws_redshift_etl.py:66-72 | with unique staged ids, a staged row is the only row with its id afterwards (the older version is replaced) |
| `Merge.UpsertIdempotent` | airflow/extraction/upload_aws_redshift_etl.py:66-72 | merging the same staged rows twice gives the same target as merging them once |
| `Merge.UpsertIntoEmpty` | airflow/extraction/upload_aws_redshift_etl.py:43-72 | merging into the freshly created empty table gives exactly the staged rows |
| `RedshiftLoad.CopySource` | airflow/extraction/upload_aws_redshift_etl.py:39 | the COPY source `s3://<bucket>/<run>.csv`; `Pipeline.CopySourceIsUploadedObject`, `Pipeline.CopySourceLocation` and `Pipeline.CopySourceInjective` say what it names |
| `RedshiftLoad.RoleArn` | airflow/extraction/upload_aws_redshift_etl.py:40 | the IAM role string `arn:aws:iam::<account>:role/<role>`; `RedshiftLoad.RoleArnRoundTrip` and `RedshiftLoad.RoleArnInjective` say what it names |
| `RedshiftLoad.ParseRoleArn` | airflow/extraction/upload_aws_redshift_etl.py:40 | any string it accepts is exactly the role string built from the account (free of `:`) and role it returns |
| `RedshiftLoad.RoleArnRoundTrip` | airflow/extraction/upload_aws_redshift_etl.py:40 | the role string built from an account id without `:` and a role parses back to that account and role |
| `RedshiftLoad.RoleArnInjective` | airflow/extraction/upload_aws_redshift_etl.py:40 | two configurations with different account or role never give the same role string |
| `RedshiftLoad.Warehouse.CreateTargetIfAbsent` | airflow/extraction/upload_aws_redshift_etl.py:43-58 | CREATE TABLE IF NOT EXISTS: on success the target exists with its rows unchanged (a no-op if present, empty if absent); on failure nothing changes |
| `RedshiftLoad.Warehouse.CreateStagingTable` | airflow/extraction/upload_aws_redshift_etl.py:60-62 | CREATE TEMP TABLE ... LIKE: succeeds iff not rejected, the target exists and the name is free; then staging is empty |
| `RedshiftLoad.Warehouse.CopyIntoStaging` | airflow/extraction/upload_aws_redshift_etl.py:64 | COPY appends the data rows of every object under the source path, loaded by position, to the staging table, or fails leaving it unchanged |
| `RedshiftLoad.Warehouse.DeleteStagedIds` | airflow/extraction/upload_aws_redshift_etl.py:66-68 | the DELETE USING statement replaces the target by its rows whose id is not staged |
| `RedshiftLoad.Warehouse.InsertStagedRows` | airflow/extraction/upload_aws_redshift_etl.py:70-72 | the INSERT appends every staged row to the target, with no key check |
| `RedshiftLoad.Warehouse.DropStagingTable` | airflow/extraction/upload_aws_redshift_etl.py:74 | DROP TABLE removes the staging table |
| `RedshiftLoad.Warehouse.Load` | airflow/extraction/upload_aws_redshift_etl.py:93-107 | commits iff no statement or commit is rejected, no staging table is left over and the COPY succeeds; then target = merge of prior rows and the positionally loaded rows and the staging table is gone; otherwise both tables are exactly as before |
| `RedshiftLoad.FirstLoad` | airflow/extraction/upload_aws_redshift_etl.py:93-107 | a load in a fresh session on a database without the table commits iff the COPY succeeds, and then the table holds exactly the loaded rows |
| `RedshiftLoad.MergeIgnoresColumnOrder` | airflow/extraction/upload_aws_redshift_etl.py:64-72 | the DELETE removes the same prior rows, and the merged table has the same size and the same id uniqueness, whether COPY loads by position as written or by name |
| `RedshiftLoad.LoadKeepsIdsUnique` | airflow/extraction/upload_aws_redshift_etl.py:98-104 | a committed load keeps ids unique when the table and the file each had unique ids |
| `RedshiftLoad.ReloadIsIdempotent` | airflow/extraction/upload_aws_redshift_etl.py:98-104 | loading the same file again leaves the table as the first load left it |
| `RedshiftLoad.LoadTwice` | airflow/extraction/upload_aws_redshift_etl.py:93-107 | two loads of the same objects through the `Warehouse` methods: both commit or neither does, the target equals that of a single load, and no staging table is left |
| `S3Upload.StageKey` | airflow/extraction/upload_aws_s3_etl.py:50-52 | the object key `<run>.csv`; `S3Upload.StageKeyInjective` shows it determines the run |
| `S3Upload.SourceFile` | airflow/extraction/upload_aws_s3_etl.py:51 | the local file `/tmp/<run>.csv` that is uploaded (`S3Upload.ObjectStore.UploadStageFile`) |
| `S3Upload.ObjectUri` | airflow/extraction/upload_aws_redshift_etl.py:39 | the `s3://<bucket>/<key>` form of an object location; `S3Upload.ObjectUriRoundTrip` and `S3Upload.ParseObjectUri` show it names exactly one bucket and key |
| `S3Upload.StageKeyInjective` | airflow/extraction/upload_aws_s3_etl.py:50-52 | distinct runs write distinct keys |
| `S3Upload.ParseObjectUri` | airflow/extraction/upload_aws_s3_etl.py:53 | any URI it accepts is exactly `s3://<bucket>/<key>` for the `/`-free bucket and the key it returns |
| `S3Upload.ObjectUriRoundTrip` | airflow/extraction/upload_aws_s3_etl.py:53 | the URI of an object in a bucket (bucket names have no `/`) parses back to that bucket and key |
| `S3Upload.EnsureBucket` | airflow/extraction/upload_aws_s3_etl.py:36-46 | no bucket is ever removed, no other bucket changes, nothing changes unless head answered 404, and on 404 the bucket exists with the given region |
| `S3Upload.EnsureBucketIdempotent` | airflow/extraction/upload_aws_s3_etl.py:36-46 | a second call leaves the buckets unchanged, when S3's head answers agree with the buckets and a non-404 error repeats |
| `S3Upload.EnsureBucketExists` | airflow/extraction/upload_aws_s3_etl.py:36-46 | with a truthful head answer, the bucket exists afterwards iff head found it or answered 404 |
| `S3Upload.ObjectStore.CreateBucketIfNotExists` | airflow/extraction/upload_aws_s3_etl.py:36-46 | found: no change; 404: exactly that bucket is created in the region; any other code: no change and no error escapes; objects untouched |
| `S3Upload.ObjectStore.UploadStageFile` | airflow/extraction/upload_aws_s3_etl.py:48-54 | the object at key `<run>.csv` becomes the local file `/tmp/<run>.csv`; every other object and every bucket is unchanged |
| `S3Upload.ObjectStore.ListUnderPrefix` | airflow/extraction/upload_aws_redshift_etl.py:64 | the objects COPY reads: each key in the bucket that starts with the source path, exactly once, in an order S3 does not fix |
| `RedshiftDownload.Headers` | airflow/extraction/download_redshift_to_csv.py:48 | the header has one name per description entry, `header[i] = description[i].name` |
| `RedshiftDownload.AssembleOutput` | airflow/extraction/download_redshift_to_csv.py:47-49 | one more row than fetched; row 0 is the header tuple; rows 1..n are the fetched tuples in order, unchanged |
| `Pipeline.CopySourceIsUploadedObject` | airflow/extraction/upload_aws_redshift_etl.py:39 | the COPY source `s3://<bucket>/<run>.csv` is the URI of the object the upload writes |
| `Pipeline.CopySourceLocation` | airflow/extraction/upload_aws_redshift_etl.py:39 | the COPY source names exactly the upload's bucket and key |
| `Pipeline.CopySourceInjective` | airflow/extraction/upload_aws_redshift_etl.py:39 | in any bucket, different runs give different COPY source paths (one run's path can still be a prefix of another's, as `a.csv` is of `a.csv.csv`, which `Pipeline.StageAndLoad` accounts for) |
| `Pipeline.UploadLeavesKeyAlone` | airflow/extraction/upload_aws_s3_etl.py:53 | once the stage file is written under a prefix that no other object of the bucket used, `<run>.csv` is the only key under that prefix |
| `Pipeline.StageAndLoad` | airflow/extraction/upload_aws_s3_etl.py:33-34 | the upload script then the loader for one run, whatever S3 answers to `head_bucket`: the upload succeeds iff the local file exists and the bucket exists after the create-if-absent step (with a truthful answer: iff head found it or answered 404); COPY reads every object whose key starts with `<run>.csv`, the uploaded one included; a committed load merges their rows, loaded by position; when the bucket held no other object under that prefix, it merges exactly the rows of the local file `/tmp/<run>.csv`; an uncommitted load changes neither table; afterwards the buckets are those of the create-if-absent step, the objects are the old ones with only `<run>.csv` replaced by the local file when the upload succeeded, and a committed load leaves no staging table |

## Findings

| source | as written | input that shows it | evidently intended | confidence | as-written member | corrected member |
|---|---|---|---|---|---|---|
| airflow/extraction/upload_aws_redshift_etl.py:64 | COPY has no column list, so field i of a line goes to table column i; the extractor writes `score` before `num_comments` (extract_reddit_etl.py:36-37) while the table declares `num_comments` before `score` (upload_aws_redshift_etl.py:47-48) | any post whose score and comment count differ, e.g. a line with `score` field `120` and `num_comments` field `7`: the table gets score 7 and num_comments 120, and COPY reports no error because both columns are integers | every value lands in the table column of its own name (a column list on the COPY, or the same order in both places) | high; not executed | `StageFile.PositionalCopySwapsScore` | `StageFile.NamedRow` |

The load itself (`RedshiftLoad.Warehouse.CopyIntoStaging` and everything
built on it) loads by position, as written, so the staged rows carry the
swap. The merge reads only `id`, which is the first field in both orders:
`RedshiftLoad.MergeIgnoresColumnOrder` proves that the rows deleted, the
row count and id uniqueness are the same under the corrected COPY.

## Left out

- `validate_input` comes from a module that is not part of this model. Run identifiers are opaque strings and no date format is checked.
- Configuration parsing, `sys.argv`, `sys.exit`, `psycopg2.connect` and `boto3` client construction are left out. The model's objects stand for an open session or client.
- SQL text is left out: rendering, `sql.Identifier` quoting, and the unescaped f-string COPY statement (a quote in the bucket name or role would break it). The model gives each statement's effect, not its text.
- CSV quoting and escaping, and the conversion of each field to its column type, are left out. A line is a list of fields. A value that does not convert makes COPY fail, which the model represents only through `failAt`.
- Row payloads (title, the float `upvote_ratio`, the timestamp, the booleans) are uninterpreted strings. Only `id` matters to the merge.
- The printed error and upload messages are left out. `Load` returns `committed` instead.
- Concurrency and locking are left out. The load runs in one session, and nothing guards two loads against each other. Whether the temporary table survives a rollback is also left out: the rollback restores the tables as they were when `Load` began.
- `RedshiftLoad.Warehouse.Load`: a statement that fails for a reason outside the model is named by `failAt`. Only the first such statement matters, so one step is enough.
- `RedshiftLoad.Warehouse.Load`: the rollback is taken to succeed. When the connection is lost mid-load, the rollback's own error escapes the function instead of being printed; the server then discards the open transaction, so the tables are still as before, but the call does not return normally.
- `S3Upload.ObjectStore.CreateBucketIfNotExists`: a failing `create_bucket` (the name is taken by another account, or the name is invalid) raises out of the handler. This is not modelled: creation after a 404 always succeeds.
- `S3Upload.ObjectStore.CreateBucketIfNotExists`: only a `ClientError` from `head_bucket` is handled. Any other exception (no connection to the endpoint, no credentials) escapes the function. `HeadResponse` cannot represent it.
- `S3Upload.ObjectStore.UploadStageFile`: failures other than a missing local file or a missing bucket (network, permissions) are not modelled. A failed upload raises in the original and changes nothing here.
- `Pipeline.StageAndLoad`: the orchestration that runs the scripts one after another is not part of this model. The method only composes the two scripts for one run.
- `Pipeline.StageAndLoad`: the order in which COPY reads the objects under its prefix is chosen by `ObjectStore.ListUnderPrefix`. The table contents are a bag, so a different order gives the same rows in another sequence.
- The extractor (`extract_reddit_etl.py`) is left out: API calls, Spark casts, timestamp parsing and the CSV write. Only its field order is used, as `StageFile.StageFileFields`.
- `download_redshift_data`: the `SELECT *` query, the connection and the CSV file write are left out. Fetched tuples are abstract values.
