/**
 * How the upload script and the loader fit together for one run: the object
 * the upload writes is the object the COPY statement reads.
 */
module Pipeline {
  import opened Wrappers
  import opened StageFile
  import opened Merge
  import opened S3Upload
  import opened RedshiftLoad

  /** The loader's COPY source is the URI of the object the upload writes. */
  lemma CopySourceIsUploadedObject(bucket: string, run: string)
    ensures CopySource(bucket, run) == ObjectUri(bucket, StageKey(run))
  {
  }

  /** The COPY source names exactly the upload's bucket and key. */
  lemma CopySourceLocation(bucket: string, run: string)
    requires '/' !in bucket
    ensures ParseObjectUri(CopySource(bucket, run)) == Some((bucket, StageKey(run)))
  {
    CopySourceIsUploadedObject(bucket, run);
    ObjectUriRoundTrip(bucket, StageKey(run));
  }

  /** Different runs give different COPY source paths. */
  lemma CopySourceInjective(bucket: string, run1: string, run2: string)
    requires CopySource(bucket, run1) == CopySource(bucket, run2)
    ensures run1 == run2
  {
    var prefix := "s3://" + bucket + "/";
    assert CopySource(bucket, run1) == prefix + StageKey(run1);
    assert CopySource(bucket, run2) == prefix + StageKey(run2);
    assert StageKey(run1) == CopySource(bucket, run1)[|prefix|..];
    assert StageKey(run2) == CopySource(bucket, run2)[|prefix|..];
    StageKeyInjective(run1, run2);
  }

  /** No object in `bucket` other than `key` itself has a key starting with `key`. */
  predicate AloneUnder(objects: map<(string, string), seq<Line>>, bucket: string, key: string)
  {
    forall k :: k in KeysUnder(objects, bucket, key) ==> k == key
  }

  /** After the stage file is written under a prefix no other object used, it is the only key there. */
  lemma UploadLeavesKeyAlone(before: map<(string, string), seq<Line>>, bucket: string, key: string, content: seq<Line>)
    requires AloneUnder(before, bucket, key)
    ensures KeysUnder(before[(bucket, key) := content], bucket, key) == {key}
  {
    var after := before[(bucket, key) := content];
    assert (bucket, key) in after && key <= key;
    forall k | k in KeysUnder(after, bucket, key) ensures k == key {
      var loc :| loc in after && loc.0 == bucket && key <= loc.1 && loc.1 == k;
      assert loc == (bucket, k);
      assert k != key ==> (bucket, k) in before;
      assert (bucket, k) in before ==> k in KeysUnder(before, bucket, key);
    }
  }

  /**
   * The upload script followed by the loader, for the same run and bucket.
   * COPY reads every object whose key starts with the key in its source
   * URI, in an order S3 does not fix, and fails if there is none. After a
   * successful upload the stage file is among them, and it is the only one
   * unless the bucket already held other objects under that prefix.
   */
  method StageAndLoad(store: ObjectStore, w: Warehouse, localFiles: map<string, seq<Line>>,
                      run: string, bucket: string, region: string, head: HeadResponse, failAt: Option<Step>)
    returns (uploaded: bool, listed: seq<string>, committed: bool)
    requires '/' !in bucket
    modifies store, w
    ensures uploaded <==> SourceFile(run) in localFiles && bucket in EnsureBucket(old(store.buckets), bucket, region, head)
    ensures HeadAgrees(old(store.buckets), bucket, head) ==>
              (uploaded <==> SourceFile(run) in localFiles && (head.Found? || head == ClientError("404")))
    ensures Distinct(listed)
    ensures forall k :: k in listed <==> (bucket, k) in store.objects && StageKey(run) <= k
    ensures uploaded ==> StageKey(run) in listed
    ensures uploaded && AloneUnder(old(store.objects), bucket, StageKey(run)) ==> listed == [StageKey(run)]
    ensures committed <==> failAt.None? && old(w.staging).None?
                           && CopyObjects(ByPosition, ObjectsAt(store.objects, bucket, listed)).Some?
    ensures committed ==>
              w.target == Some(Upsert(Prior(old(w.target)), CopyObjects(ByPosition, ObjectsAt(store.objects, bucket, listed)).value))
    ensures uploaded && committed && AloneUnder(old(store.objects), bucket, StageKey(run)) ==>
              CopyRows(ByPosition, localFiles[SourceFile(run)]).Some? &&
              w.target == Some(Upsert(Prior(old(w.target)), CopyRows(ByPosition, localFiles[SourceFile(run)]).value))
    ensures committed ==> w.staging == None
    ensures !committed ==> w.target == old(w.target) && w.staging == old(w.staging)
    ensures store.buckets == EnsureBucket(old(store.buckets), bucket, region, head)
    ensures uploaded ==> store.objects == old(store.objects)[(bucket, StageKey(run)) := localFiles[SourceFile(run)]]
    ensures !uploaded ==> store.objects == old(store.objects)
  {
    ghost var before := store.objects;
    store.CreateBucketIfNotExists(bucket, region, head);
    assert store.objects == before;
    if HeadAgrees(old(store.buckets), bucket, head) {
      EnsureBucketExists(old(store.buckets), bucket, region, head);
    }
    uploaded := store.UploadStageFile(localFiles, run, bucket);
    CopySourceLocation(bucket, run);
    var location := ParseObjectUri(CopySource(bucket, run));
    listed := store.ListUnderPrefix(location.value.0, location.value.1);
    var key := StageKey(run);
    if uploaded && AloneUnder(before, bucket, key) {
      UploadLeavesKeyAlone(before, bucket, key, localFiles[SourceFile(run)]);
      assert |listed| == 1 && listed[0] in listed;
    }
    var files := ObjectsAt(store.objects, bucket, listed);
    committed := w.Load(files, failAt);
    if uploaded && committed && AloneUnder(old(store.objects), bucket, key) {
      assert files == [localFiles[SourceFile(run)]];
      CopyOneObject(ByPosition, localFiles[SourceFile(run)]);
    }
  }
}
