/** One run of the program: validate the flags, build the content-type
    table, walk the directory, open a session, upload every file and,
    with -s, delete the objects the run did not upload. */
module Webload {
  import opened Common
  import opened Flags
  import opened Mime
  import opened Store
  import opened Upload
  import opened Sync

  /** The uploads a run that reaches the upload loop makes: one per
      walked entry that is not a directory, in walk order, with the
      content-type table of the literal. */
  function RunUploads(cfg: Config, walked: seq<Entry>, host: Host, unwritable: set<Key>): Uploads
  {
    UploadsOf(NonDirectories(walked), host, cfg.compression, TableOf(MimeRecords()), unwritable)
  }

  /** The program (l.24-120, with the table of `init`, l.143-157). The
      directory walk, the session and the files are given: `walk` is what
      the walk visited or its error, `sessionOk` whether a session could
      be created, `host` the files' contents. A successful run returns the
      number of deleted objects when -s is given. */
  method Run(flags: Flags, walk: Result<seq<Entry>>, sessionOk: bool, host: Host, bucket: Bucket)
    returns (r: Result<Option<nat>>)
    requires DistinctTokens(bucket.listing)
    modifies bucket
    ensures Validate(flags).Failure? ==> r == Failure(UsageError) && unchanged(bucket)
    ensures Validate(flags).Success? && walk.Failure? ==> r == Failure(TraversalError) && unchanged(bucket)
    ensures Validate(flags).Success? && walk.Success? && !sessionOk ==> r == Failure(SessionError) && unchanged(bucket)
    ensures Validate(flags).Success? && walk.Success? && sessionOk ==>
      var cfg := Validate(flags).value;
      var u := RunUploads(cfg, walk.value, host, bucket.unwritable);
      var stored := Stored(old(bucket.objects), u.done);
      && (u.failure.Some? ==>
            && r == Failure(u.failure.value) && bucket.objects == stored
            && bucket.listRequests == old(bucket.listRequests)
            && bucket.deleteRequests == old(bucket.deleteRequests))
      && (u.failure.None? && !cfg.sync ==>
            && r == Success(None) && bucket.objects == stored
            && bucket.listRequests == old(bucket.listRequests)
            && bucket.deleteRequests == old(bucket.deleteRequests))
      && (u.failure.None? && cfg.sync ==>
            var s := SweepAll(bucket.listing, KeysOf(u.done), bucket.undeletable);
            && (Report(s).Success? ==> r == Success(Some(Report(s).value)))
            && (Report(s).Failure? ==> r == Failure(Report(s).error))
            && bucket.objects == stored - Elements(s.deleted)
            && bucket.listRequests == old(bucket.listRequests) + Requests(bucket.listing, s.pages)
            && bucket.deleteRequests == old(bucket.deleteRequests) + DeleteCalls(s))
  {
    var table := BuildMimeTable(MimeRecords());
    var cfg := Validate(flags);
    if cfg.Failure? {
      return Failure(cfg.error);
    }
    if walk.Failure? {
      return Failure(TraversalError);
    }
    var files := CollectFiles(walk.value);
    if !sessionOk {
      return Failure(SessionError);
    }
    var uploaded := UploadAll(bucket, files, host, cfg.value.compression, table);
    if uploaded.Failure? {
      return Failure(uploaded.error);
    }
    if !cfg.value.sync {
      return Success(None);
    }
    var deleted := SyncBucket(bucket, uploaded.value);
    if deleted.Failure? {
      return Failure(deleted.error);
    }
    r := Success(Some(deleted.value));
  }

  /** The purpose of -s: when every upload succeeded, the listing shows
      the bucket as the uploads left it, every page is served and the
      store lets every orphan go, the sweep succeeds and the bucket ends
      up holding exactly the uploaded keys. */
  lemma SyncedBucketMirrorsUploads(objects: map<Key, Object>, done: seq<Put>, listing: seq<Reply>, undeletable: set<Key>)
    requires Complete(listing)
    requires Elements(ListedFrom(listing, 0, |listing|)) == Stored(objects, done).Keys
    requires Releasable(ListedFrom(listing, 0, |listing|), KeysOf(done), undeletable)
    ensures var s := SweepAll(listing, KeysOf(done), undeletable);
      && s.failure.None? && s.pages == |listing|
      && (Stored(objects, done) - Elements(s.deleted)).Keys == KeysOf(done)
  {
    var listed := ListedFrom(listing, 0, |listing|);
    var stored := Stored(objects, done);
    SweepVisitsEveryPage(listing, 0, KeysOf(done), undeletable);
    MarkAndSweep(stored.Keys, listed, KeysOf(done));
    forall k | k in KeysOf(done)
      ensures k in stored
    {
      StoredHolds(objects, done, k);
    }
    assert (stored - Elements(Orphans(listed, KeysOf(done)))).Keys == stored.Keys - Elements(Orphans(listed, KeysOf(done)));
  }
}
