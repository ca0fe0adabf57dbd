/** The upload phase: the files the directory walk collects, and the loop
    that opens, optionally compresses and uploads each of them, recording
    the key of every upload that succeeded. The first failure ends the run;
    objects uploaded before it stay in the bucket. */
module Upload {
  import opened Common
  import opened Flags
  import opened Compress
  import opened Mime
  import opened Store

  /** One path the directory walk visits, whether it is a directory, the
      key `filepath.Rel` gives it relative to the directory and the
      extension `filepath.Ext` gives it. */
  datatype Entry = Entry(path: string, isDir: bool, key: Key, ext: string)

  /** The walked entries that are not directories, in walk order. */
  function NonDirectories(walked: seq<Entry>): seq<Entry>
  {
    if walked == [] then []
    else
      var last := walked[|walked| - 1];
      NonDirectories(walked[..|walked| - 1]) + (if last.isDir then [] else [last])
  }

  /** The walk callback (l.37-43): every visited entry that is not a
      directory is appended to `files`. */
  method CollectFiles(walked: seq<Entry>) returns (files: seq<Entry>)
    ensures files == NonDirectories(walked)
  {
    files := [];
    var i := 0;
    while i < |walked|
      invariant i <= |walked|
      invariant files == NonDirectories(walked[..i])
    {
      assert walked[..i + 1][..i] == walked[..i];
      if !walked[i].isDir {
        files := files + [walked[i]];
      }
      i := i + 1;
    }
    assert walked[..i] == walked;
  }

  /** An entry is collected exactly when the walk visited it and it is not
      a directory. */
  lemma {:induction false} NonDirectoriesMembers(walked: seq<Entry>, e: Entry)
    ensures e in NonDirectories(walked) <==> e in walked && !e.isDir
  {
    if walked != [] {
      var init := walked[..|walked| - 1];
      NonDirectoriesMembers(init, e);
      assert walked == init + [walked[|walked| - 1]];
    }
  }

  /** Collecting keeps the walk order: the files of two consecutive parts
      of the walk are those of the first part followed by those of the
      second. */
  lemma {:induction false} NonDirectoriesAppend(a: seq<Entry>, b: seq<Entry>)
    ensures NonDirectories(a + b) == NonDirectories(a) + NonDirectories(b)
    decreases |b|
  {
    if b == [] {
      assert a + b == a;
    } else {
      var init := b[..|b| - 1];
      assert (a + b)[..|a + b| - 1] == a + init;
      NonDirectoriesAppend(a, init);
      var tail := if b[|b| - 1].isDir then [] else [b[|b| - 1]];
      AppendAssoc(NonDirectories(a), NonDirectories(init), tail);
    }
  }

  /** What the program reaches outside itself for the files: their
      contents (a path it cannot open has none) and the gzip encoder. */
  datatype Host = Host(contents: map<string, Bytes>, encoder: Bytes -> Option<Bytes>)

  /** One upload: the key and the object stored under it. */
  datatype Put = Put(key: Key, obj: Object)

  /** The object a file is uploaded as (l.75-82): the selected encoding of
      its contents, readable by anyone, typed by its extension, and with
      the -c value as its Content-Encoding. */
  function ObjectFor(body: Bytes, f: Entry, table: map<string, string>, c: Compression): (obj: Object)
    ensures obj.acl == PUBLIC_READ && obj.contentEncoding == CompressionName(c)
    ensures obj.contentType.Some? <==> f.ext in table
  {
    Object(body, PUBLIC_READ, ContentType(table, f.ext), CompressionName(c))
  }

  /** The first steps of one pass of the upload loop (l.58-82): open the
      file, compress its contents, and make the object to upload. */
  function Prepare(f: Entry, host: Host, c: Compression, table: map<string, string>): Result<Put>
  {
    if f.path !in host.contents then Failure(OpenError(f.path))
    else
      var body := MaybeCompress(host.contents[f.path], c, host.encoder);
      if body.Failure? then Failure(body.error)
      else Success(Put(f.key, ObjectFor(body.value, f, table, c)))
  }

  /** One pass of the upload loop (l.58-86) for file `f`: open, compress,
      upload; the first step that fails gives the run's error. */
  function Attempt(f: Entry, host: Host, c: Compression, table: map<string, string>, unwritable: set<Key>): Result<Put>
  {
    var prepared := Prepare(f, host, c, table);
    if prepared.Failure? then prepared
    else if prepared.value.key in unwritable then Failure(UploadError(f.path))
    else prepared
  }

  /** The steps of one pass fail in order: a file that cannot be opened
      gives an open error, then a failed compression gives its error, and
      only then is the upload issued, which the store may refuse. */
  lemma AttemptSteps(f: Entry, host: Host, c: Compression, table: map<string, string>, unwritable: set<Key>)
    ensures var a := Attempt(f, host, c, table, unwritable);
      && (f.path !in host.contents ==> a == Failure(OpenError(f.path)))
      && (f.path in host.contents ==>
            var body := MaybeCompress(host.contents[f.path], c, host.encoder);
            && (body.Failure? ==> a == Failure(body.error))
            && (body.Success? && f.key in unwritable ==> a == Failure(UploadError(f.path)))
            && (body.Success? && f.key !in unwritable ==> a == Success(Put(f.key, ObjectFor(body.value, f, table, c)))))
  {
  }

  /** The effect of the upload loop over some files: the uploads made, in
      order, and the error that ended it, if any. */
  datatype Uploads = Uploads(done: seq<Put>, failure: Option<Error>)

  /** The upload loop over the first `n` files, stopping at the first
      failure. */
  function UploadsUpTo(files: seq<Entry>, n: nat, host: Host, c: Compression, table: map<string, string>, unwritable: set<Key>): Uploads
    requires n <= |files|
  {
    if n == 0 then Uploads([], None)
    else
      var u := UploadsUpTo(files, n - 1, host, c, table, unwritable);
      if u.failure.Some? then u
      else
        var a := Attempt(files[n - 1], host, c, table, unwritable);
        if a.Failure? then Uploads(u.done, Some(a.error)) else Uploads(u.done + [a.value], None)
  }

  /** The upload loop over all of `files`. */
  function UploadsOf(files: seq<Entry>, host: Host, c: Compression, table: map<string, string>, unwritable: set<Key>): Uploads
  {
    UploadsUpTo(files, |files|, host, c, table, unwritable)
  }

  /** The bucket's objects after the uploads, a later upload of a key
      replacing an earlier one. */
  function Stored(objects: map<Key, Object>, done: seq<Put>): map<Key, Object>
  {
    if done == [] then objects
    else
      var last := done[|done| - 1];
      Stored(objects, done[..|done| - 1])[last.key := last.obj]
  }

  /** The keys of the uploads made: the `uploaded` set. */
  function KeysOf(done: seq<Put>): set<Key>
  {
    set p | p in done :: p.key
  }

  /** One pass of the upload loop (l.58-86): open and compress the file,
      then upload it. */
  method UploadFile(bucket: Bucket, f: Entry, host: Host, c: Compression, table: map<string, string>)
    returns (r: Result<Put>)
    modifies bucket`objects
    ensures r == Attempt(f, host, c, table, bucket.unwritable)
    ensures bucket.objects == if r.Success? then old(bucket.objects)[r.value.key := r.value.obj] else old(bucket.objects)
  {
    r := Prepare(f, host, c, table);
    if r.Failure? {
      return;
    }
    var ok := bucket.Upload(r.value.key, r.value.obj);
    if !ok {
      r := Failure(UploadError(f.path));
    }
  }

  /** The upload loop of the program (l.56-89). On success it returns the
      set of uploaded keys. */
  method UploadAll(bucket: Bucket, files: seq<Entry>, host: Host, c: Compression, table: map<string, string>)
    returns (r: Result<set<Key>>)
    modifies bucket`objects
    ensures var u := UploadsOf(files, host, c, table, bucket.unwritable);
      r == LoopResult(u) && bucket.objects == Stored(old(bucket.objects), u.done)
  {
    ghost var objects0 := bucket.objects;
    ghost var done: seq<Put> := [];
    var uploaded: set<Key> := {};
    var i := 0;
    while i < |files|
      invariant i <= |files| && |done| == i
      invariant UploadsUpTo(files, i, host, c, table, bucket.unwritable) == Uploads(done, None)
      invariant uploaded == KeysOf(done)
      invariant bucket.objects == Stored(objects0, done)
    {
      var a := UploadFile(bucket, files[i], host, c, table);
      if a.Failure? {
        UploadsFail(files, i, done, host, c, table, bucket.unwritable);
        return Failure(a.error);
      }
      UploadStep(files, i, done, host, c, table, bucket.unwritable);
      PutAppend(objects0, done, a.value);
      done := done + [a.value];
      uploaded := uploaded + {a.value.key};
      i := i + 1;
    }
    r := Success(uploaded);
  }

  /** What the loop reports: the `uploaded` set, or the error. */
  function LoopResult(u: Uploads): Result<set<Key>>
  {
    if u.failure.None? then Success(KeysOf(u.done)) else Failure(u.failure.value)
  }

  /** The loop over all files when the attempt for file `i` fails. */
  lemma UploadsFail(files: seq<Entry>, i: nat, done: seq<Put>, host: Host, c: Compression, table: map<string, string>, unwritable: set<Key>)
    requires i < |files| && |done| == i && UploadsUpTo(files, i, host, c, table, unwritable) == Uploads(done, None)
    requires Attempt(files[i], host, c, table, unwritable).Failure?
    ensures UploadsOf(files, host, c, table, unwritable) == Uploads(done, Some(Attempt(files[i], host, c, table, unwritable).error))
  {
    UploadStep(files, i, done, host, c, table, unwritable);
    UploadsStop(files, i + 1, host, c, table, unwritable);
  }

  /** The loop over one more file. */
  lemma UploadStep(files: seq<Entry>, i: nat, done: seq<Put>, host: Host, c: Compression, table: map<string, string>, unwritable: set<Key>)
    requires i < |files| && UploadsUpTo(files, i, host, c, table, unwritable) == Uploads(done, None)
    ensures var a := Attempt(files[i], host, c, table, unwritable);
      UploadsUpTo(files, i + 1, host, c, table, unwritable) ==
        if a.Failure? then Uploads(done, Some(a.error)) else Uploads(done + [a.value], None)
  {
  }

  /** One more upload. */
  lemma PutAppend(objects: map<Key, Object>, done: seq<Put>, p: Put)
    ensures Stored(objects, done + [p]) == Stored(objects, done)[p.key := p.obj]
    ensures KeysOf(done + [p]) == KeysOf(done) + {p.key}
  {
    assert (done + [p])[..|done|] == done;
    KeysOfAppend(done, p);
  }

  lemma KeysOfAppend(done: seq<Put>, p: Put)
    ensures KeysOf(done + [p]) == KeysOf(done) + {p.key}
  {
    assert p in done + [p];
    forall q | q in done + [p] ensures q in done || q == p {
    }
  }

  /** Once an upload failed, the files after it change nothing. */
  lemma {:induction false} UploadsStop(files: seq<Entry>, n: nat, host: Host, c: Compression, table: map<string, string>, unwritable: set<Key>)
    requires n <= |files|
    requires UploadsUpTo(files, n, host, c, table, unwritable).failure.Some?
    ensures UploadsOf(files, host, c, table, unwritable) == UploadsUpTo(files, n, host, c, table, unwritable)
    decreases |files| - n
  {
    if n < |files| {
      UploadsStop(files, n + 1, host, c, table, unwritable);
    }
  }

  /** The loop uploads the files in order, one upload each, up to the first
      file whose attempt fails; that file's error is the run's error, and
      without one every file was uploaded. */
  lemma UploadsInOrder(files: seq<Entry>, host: Host, c: Compression, table: map<string, string>, unwritable: set<Key>)
    ensures var u := UploadsOf(files, host, c, table, unwritable);
      && |u.done| <= |files|
      && (forall i :: 0 <= i < |u.done| ==> Attempt(files[i], host, c, table, unwritable) == Success(u.done[i]))
      && (u.failure.None? ==> |u.done| == |files|)
      && (u.failure.Some? ==> |u.done| < |files| && Attempt(files[|u.done|], host, c, table, unwritable) == Failure(u.failure.value))
  {
    UploadsUpToInOrder(files, |files|, host, c, table, unwritable);
  }

  lemma {:induction false} UploadsUpToInOrder(files: seq<Entry>, n: nat, host: Host, c: Compression, table: map<string, string>, unwritable: set<Key>)
    requires n <= |files|
    ensures var u := UploadsUpTo(files, n, host, c, table, unwritable);
      && |u.done| <= n
      && (forall i :: 0 <= i < |u.done| ==> Attempt(files[i], host, c, table, unwritable) == Success(u.done[i]))
      && (u.failure.None? ==> |u.done| == n)
      && (u.failure.Some? ==> |u.done| < n && Attempt(files[|u.done|], host, c, table, unwritable) == Failure(u.failure.value))
  {
    if n > 0 {
      UploadsUpToInOrder(files, n - 1, host, c, table, unwritable);
    }
  }

  /** Every object uploaded is readable by anyone, carries the -c value as
      its Content-Encoding, and has a Content-Type exactly when its
      extension is in the MIME table. */
  lemma UploadedHeaders(files: seq<Entry>, host: Host, c: Compression, table: map<string, string>, unwritable: set<Key>)
    ensures var u := UploadsOf(files, host, c, table, unwritable);
      && |u.done| <= |files|
      && forall i :: 0 <= i < |u.done| ==>
        && u.done[i].key == files[i].key
        && u.done[i].obj.acl == PUBLIC_READ
        && u.done[i].obj.contentEncoding == CompressionName(c)
        && u.done[i].obj.contentType == ContentType(table, files[i].ext)
  {
    UploadsInOrder(files, host, c, table, unwritable);
  }

  /** The `uploaded` set of a run whose uploads all succeeded holds the key
      of every file and nothing else. */
  lemma UploadedKeys(files: seq<Entry>, host: Host, c: Compression, table: map<string, string>, unwritable: set<Key>)
    requires UploadsOf(files, host, c, table, unwritable).failure.None?
    ensures KeysOf(UploadsOf(files, host, c, table, unwritable).done) == set f | f in files :: f.key
  {
    var u := UploadsOf(files, host, c, table, unwritable);
    UploadsInOrder(files, host, c, table, unwritable);
    forall k | k in KeysOf(u.done) ensures k in set f | f in files :: f.key {
      var i :| 0 <= i < |u.done| && u.done[i].key == k;
      assert files[i] in files;
    }
    forall k | k in set f | f in files :: f.key ensures k in KeysOf(u.done) {
      var i :| 0 <= i < |files| && files[i].key == k;
      assert u.done[i] in u.done;
    }
  }

  /** After the uploads, every uploaded key is in the bucket; keys not
      uploaded are as before. */
  lemma {:induction false} StoredHolds(objects: map<Key, Object>, done: seq<Put>, k: Key)
    ensures k in KeysOf(done) ==> k in Stored(objects, done)
    ensures k !in KeysOf(done) ==> (k in Stored(objects, done) <==> k in objects)
    ensures k !in KeysOf(done) && k in objects ==> Stored(objects, done)[k] == objects[k]
  {
    if done != [] {
      var init := done[..|done| - 1];
      StoredHolds(objects, init, k);
      assert done == init + [done[|done| - 1]];
      KeysOfAppend(init, done[|done| - 1]);
    }
  }

  /** After the uploads, an uploaded key holds the object of its last
      upload. */
  lemma {:induction false} StoredLast(objects: map<Key, Object>, done: seq<Put>, i: nat)
    requires i < |done| && forall j :: i < j < |done| ==> done[j].key != done[i].key
    ensures done[i].key in Stored(objects, done) && Stored(objects, done)[done[i].key] == done[i].obj
  {
    if i < |done| - 1 {
      StoredLast(objects, done[..|done| - 1], i);
    }
  }

  /** With "br" selected, the loop ends at the first file: with the open
      error when it cannot be opened, with the unsupported-compression
      error otherwise. Nothing is uploaded. */
  lemma BrotliUploadsNothing(files: seq<Entry>, host: Host, table: map<string, string>, unwritable: set<Key>)
    requires |files| > 0
    ensures UploadsOf(files, host, Brotli, table, unwritable) ==
      Uploads([], Some(if files[0].path in host.contents then UnsupportedCompression else OpenError(files[0].path)))
  {
    UploadsStop(files, 1, host, Brotli, table, unwritable);
  }
}
