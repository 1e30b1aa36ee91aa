/**
 * The S3 side of the pipeline: where a run's stage file is written, and the
 * bucket that must exist first.
 *
 * The object store is an `ObjectStore` object: the buckets of the account
 * (name to region) and the objects in them, keyed by bucket and key. What
 * S3 answers to `head_bucket` is an input of the model, as is the content of
 * the local file system.
 */
module S3Upload {
  import opened Wrappers
  import opened Text
  import opened StageFile

  // ---------------------------------------------------------------------
  // Names.

  /** The object key of a run's stage file: `<run>.csv`. */
  function StageKey(outputName: string): string
  {
    outputName + ".csv"
  }

  /** The local file that is uploaded: `/tmp/<key>`. */
  function SourceFile(outputName: string): string
  {
    "/tmp/" + StageKey(outputName)
  }

  /** The `s3://` URI of an object. */
  function ObjectUri(bucket: string, key: string): string
  {
    "s3://" + bucket + "/" + key
  }

  /** Distinct runs write distinct keys, so no run overwrites another's stage file. */
  lemma StageKeyInjective(run1: string, run2: string)
    requires StageKey(run1) == StageKey(run2)
    ensures run1 == run2
  {
    assert |run1| == |run2|;
    assert run1 == StageKey(run1)[..|run1|];
    assert run2 == StageKey(run2)[..|run2|];
  }

  /** Reads the bucket and key back out of an `s3://bucket/key` URI. */
  function ParseObjectUri(uri: string): (location: Option<(string, string)>)
    ensures location.Some? ==> '/' !in location.value.0 && ObjectUri(location.value.0, location.value.1) == uri
  {
    if |uri| < 5 || uri[..5] != "s3://" then None
    else
      var rest := uri[5..];
      match Find(rest, '/')
      case None => None
      case Some(k) =>
        assert uri == uri[..5] + rest[..k] + [rest[k]] + rest[k + 1..];
        Some((rest[..k], rest[k + 1..]))
  }

  /** A URI names exactly one bucket and key, because bucket names contain no `/`. */
  lemma ObjectUriRoundTrip(bucket: string, key: string)
    requires '/' !in bucket
    ensures ParseObjectUri(ObjectUri(bucket, key)) == Some((bucket, key))
  {
    var uri := ObjectUri(bucket, key);
    assert uri[..5] == "s3://";
    var rest := uri[5..];
    assert rest == bucket + ['/'] + key;
    FindAfterPrefix(bucket, '/', key);
    assert rest[..|bucket|] == bucket;
    assert rest[|bucket| + 1..] == key;
  }

  // ---------------------------------------------------------------------
  // The store.

  /** What `head_bucket` answers: the bucket is reachable, or a client error with its code. */
  datatype HeadResponse = Found | ClientError(code: string)

  /** S3 answers `Found` exactly for the account's own buckets. */
  predicate HeadAgrees(buckets: map<string, string>, bucket: string, head: HeadResponse)
  {
    head.Found? <==> bucket in buckets
  }

  /** The buckets after `create_bucket_if_not_exists`, given S3's answer to the head request. */
  function EnsureBucket(buckets: map<string, string>, bucket: string, region: string, head: HeadResponse): (after: map<string, string>)
    ensures buckets.Keys <= after.Keys
    ensures forall b :: b in after && b != bucket ==> b in buckets && after[b] == buckets[b]
    ensures after != buckets ==> head == ClientError("404")
    ensures head == ClientError("404") ==> bucket in after && after[bucket] == region
  {
    if head.ClientError? && head.code == "404" then buckets[bucket := region] else buckets
  }

  /**
   * Calling `create_bucket_if_not_exists` a second time leaves the buckets
   * as the first call left them, as long as S3's answers agree with the
   * buckets that exist and an error other than 404 is answered again.
   */
  lemma EnsureBucketIdempotent(buckets: map<string, string>, bucket: string, region: string, head1: HeadResponse, head2: HeadResponse)
    requires HeadAgrees(buckets, bucket, head1)
    requires HeadAgrees(EnsureBucket(buckets, bucket, region, head1), bucket, head2)
    requires head1.ClientError? && head1.code != "404" ==> head2 == head1
    ensures EnsureBucket(EnsureBucket(buckets, bucket, region, head1), bucket, region, head2)
         == EnsureBucket(buckets, bucket, region, head1)
  {
  }

  /** With a truthful head answer, the bucket exists afterwards unless S3 reported an error other than 404. */
  lemma EnsureBucketExists(buckets: map<string, string>, bucket: string, region: string, head: HeadResponse)
    requires HeadAgrees(buckets, bucket, head)
    ensures bucket in EnsureBucket(buckets, bucket, region, head) <==> head.Found? || head.code == "404"
  {
  }

  /** No key appears twice. */
  predicate Distinct(keys: seq<string>)
  {
    forall i, j :: 0 <= i < j < |keys| ==> keys[i] != keys[j]
  }

  /** The keys in `bucket` that start with `prefix`. */
  function KeysUnder(objects: map<(string, string), seq<Line>>, bucket: string, prefix: string): set<string>
  {
    set loc | loc in objects && loc.0 == bucket && prefix <= loc.1 :: loc.1
  }

  /** The contents of the objects at `keys` in `bucket`, in the order of `keys`. */
  function ObjectsAt(objects: map<(string, string), seq<Line>>, bucket: string, keys: seq<string>): (files: seq<seq<Line>>)
    requires forall k :: k in keys ==> (bucket, k) in objects
    ensures |files| == |keys| && forall i :: 0 <= i < |keys| ==> files[i] == objects[(bucket, keys[i])]
  {
    seq(|keys|, i requires 0 <= i < |keys| => objects[(bucket, keys[i])])
  }

  class ObjectStore {
    var buckets: map<string, string>
    var objects: map<(string, string), seq<Line>>

    constructor (buckets0: map<string, string>, objects0: map<(string, string), seq<Line>>)
      ensures buckets == buckets0 && objects == objects0
    {
      buckets := buckets0;
      objects := objects0;
    }

    /**
     * `create_bucket_if_not_exists`: nothing happens when the head request
     * succeeds; on a 404 the bucket is created in `region`; any other client
     * error is swallowed and nothing is created.
     */
    method CreateBucketIfNotExists(bucket: string, region: string, head: HeadResponse)
      modifies this
      ensures buckets == EnsureBucket(old(buckets), bucket, region, head)
      ensures head.Found? ==> buckets == old(buckets)
      ensures head.ClientError? && head.code != "404" ==> buckets == old(buckets)
      ensures objects == old(objects)
    {
      if head.ClientError? {
        var errorCode := head.code;
        if errorCode == "404" {
          buckets := buckets[bucket := region];
        }
      }
    }

    /**
     * `upload_file_to_s3`: copies `/tmp/<run>.csv` to the object `<run>.csv`
     * of `bucket`, replacing any earlier object there. The upload fails, and
     * nothing changes, when the local file or the bucket is missing.
     */
    method UploadStageFile(localFiles: map<string, seq<Line>>, outputName: string, bucket: string) returns (ok: bool)
      modifies this
      ensures ok <==> SourceFile(outputName) in localFiles && bucket in old(buckets)
      ensures buckets == old(buckets)
      ensures ok ==> (bucket, StageKey(outputName)) in objects
      ensures ok ==> objects[(bucket, StageKey(outputName))] == localFiles[SourceFile(outputName)]
      ensures ok ==> objects == old(objects)[(bucket, StageKey(outputName)) := localFiles[SourceFile(outputName)]]
      ensures forall loc :: loc != (bucket, StageKey(outputName)) ==>
                (loc in objects <==> loc in old(objects)) && (loc in objects ==> objects[loc] == old(objects)[loc])
      ensures !ok ==> objects == old(objects)
    {
      var fileName := outputName + ".csv";
      var sourceFile := "/tmp/" + fileName;
      var key := fileName;
      ok := sourceFile in localFiles && bucket in buckets;
      if ok {
        objects := objects[(bucket, key) := localFiles[sourceFile]];
      }
    }
  
    /**
     * The keys in `bucket` that start with `prefix`, each once. This is how
     * COPY finds its input: its source path is a key prefix, not one key. S3
     * does not fix the order in which COPY reads the objects; it is chosen
     * here.
     */
    method ListUnderPrefix(bucket: string, prefix: string) returns (keys: seq<string>)
      ensures Distinct(keys)
      ensures forall k :: k in keys <==> (bucket, k) in objects && prefix <= k
      ensures |keys| == |KeysUnder(objects, bucket, prefix)|
    {
      var matching := set loc | loc in objects && loc.0 == bucket && prefix <= loc.1 :: loc.1;
      var remaining := matching;
      keys := [];
      while remaining != {}
        invariant Distinct(keys)
        invariant forall k :: k in matching <==> k in keys || k in remaining
        invariant forall k :: k in keys ==> k !in remaining
        invariant |keys| + |remaining| == |matching|
        decreases |remaining|
      {
        var k :| k in remaining;
        keys := keys + [k];
        remaining := remaining - {k};
      }
    }
  }
}
