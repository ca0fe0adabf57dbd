/** The sync phase (`-s`): a mark-and-sweep over the bucket listing. Every
    key the listing shows that was not uploaded in this run is deleted, one
    at a time, page after page, until a page carries no continuation token.
    The first refused listing or delete ends the run; deletions already made
    stay made. */
module Sync {
  import opened Common
  import opened Store

  /** The listed keys that were not uploaded in this run, in listing order. */
  function Orphans(keys: seq<Key>, uploaded: set<Key>): seq<Key>
  {
    if keys == [] then []
    else if keys[0] in uploaded then Orphans(keys[1..], uploaded)
    else [keys[0]] + Orphans(keys[1..], uploaded)
  }

  /** The keys shown by the `n` pages from page `i` on, in listing order. */
  function ListedFrom(listing: seq<Reply>, i: nat, n: nat): seq<Key>
    decreases n
  {
    if n == 0 then []
    else (if i < |listing| && listing[i].Served? then listing[i].contents else []) + ListedFrom(listing, i + 1, n - 1)
  }

  /** The effect of sweeping one page: the keys deleted, in order, and the
      refused delete that stopped the sweep, if any. */
  datatype PageSweep = PageSweep(deleted: seq<Key>, failure: Option<Error>)

  /** The inner loop over one page's keys (l.101-112). */
  function SweepKeys(keys: seq<Key>, uploaded: set<Key>, undeletable: set<Key>): PageSweep
  {
    if keys == [] then PageSweep([], None)
    else if keys[0] in uploaded then SweepKeys(keys[1..], uploaded, undeletable)
    else if keys[0] in undeletable then PageSweep([], Some(DeleteError(keys[0])))
    else
      var rest := SweepKeys(keys[1..], uploaded, undeletable);
      PageSweep([keys[0]] + rest.deleted, rest.failure)
  }

  /** The effect of the sweep from the `i`-th request on: how many listing
      requests it issues, the keys it deletes, and the error that ends the
      run, if any. */
  datatype Sweep = Sweep(pages: nat, deleted: seq<Key>, failure: Option<Error>)

  /** One pass of the outer loop (l.96-112): request page `i` and sweep
      its keys. A request past the last page is one the service refuses. */
  function Visit(listing: seq<Reply>, i: nat, uploaded: set<Key>, undeletable: set<Key>): Sweep
  {
    if i >= |listing| || listing[i].Refused? then Sweep(1, [], Some(ListError))
    else
      var page := SweepKeys(listing[i].contents, uploaded, undeletable);
      Sweep(1, page.deleted, page.failure)
  }

  /** The outer loop (l.95-117) from the request for page `i` on: it goes
      on to the next page as long as no call failed and the page carried a
      continuation token. */
  function SweepFrom(listing: seq<Reply>, i: nat, uploaded: set<Key>, undeletable: set<Key>): Sweep
    decreases |listing| - i
  {
    var v := Visit(listing, i, uploaded, undeletable);
    if v.failure.Some? || TokenFor(listing, i + 1).None? then v
    else After(1, v.deleted, SweepFrom(listing, i + 1, uploaded, undeletable))
  }

  /** The whole sweep of a bucket, from the request without a token. */
  function SweepAll(listing: seq<Reply>, uploaded: set<Key>, undeletable: set<Key>): Sweep
  {
    SweepFrom(listing, 0, uploaded, undeletable)
  }

  /** A sweep prefixed by `pages` requests that deleted `deleted`. */
  function After(pages: nat, deleted: seq<Key>, s: Sweep): Sweep
  {
    Sweep(pages + s.pages, deleted + s.deleted, s.failure)
  }

  /** Prefixing in two steps is prefixing once. */
  lemma AfterAfter(a: nat, d1: seq<Key>, b: nat, d2: seq<Key>, s: Sweep)
    ensures After(a, d1, After(b, d2, s)) == After(a + b, d1 + d2, s)
  {
    assert d1 + (d2 + s.deleted) == (d1 + d2) + s.deleted;
  }

  /** The calls the sweep issues to the delete endpoint: every deletion,
      then the refused one, if any. */
  function DeleteCalls(s: Sweep): seq<Key>
  {
    if s.failure.Some? && s.failure.value.DeleteError? then s.deleted + [s.failure.value.key] else s.deleted
  }

  /** The delete calls of a prefixed sweep follow those of the prefix. */
  lemma DeleteCallsAfter(pages: nat, deleted: seq<Key>, s: Sweep)
    ensures DeleteCalls(After(pages, deleted, s)) == deleted + DeleteCalls(s)
  {
    if s.failure.Some? && s.failure.value.DeleteError? {
      AppendAssoc(deleted, s.deleted, [s.failure.value.key]);
    }
  }

  /** What the run reports: the number of deleted objects, or the error. */
  function Report(s: Sweep): Result<nat>
  {
    if s.failure.None? then Success(|s.deleted|) else Failure(s.failure.value)
  }

  /** Whether `a` is a prefix of `b`. */
  predicate IsPrefix(a: seq<Key>, b: seq<Key>)
  {
    |a| <= |b| && a == b[..|a|]
  }

  /** Sweeping one page deletes exactly its orphans, unless a delete is
      refused: then what was deleted is the orphans up to the refused one,
      which is an orphan the store keeps. Uploaded keys are never deleted. */
  lemma SweepKeysOrphans(keys: seq<Key>, uploaded: set<Key>, undeletable: set<Key>)
    ensures var p := SweepKeys(keys, uploaded, undeletable);
      && (p.failure.None? ==> p.deleted == Orphans(keys, uploaded))
      && (p.failure.Some? ==>
            && p.failure.value.DeleteError?
            && p.failure.value.key in undeletable && p.failure.value.key !in uploaded
            && IsPrefix(p.deleted + [p.failure.value.key], Orphans(keys, uploaded)))
      && (forall k :: k in p.deleted ==> k !in uploaded && k !in undeletable)
  {
    SweepKeysComplete(keys, uploaded, undeletable);
    SweepKeysRefused(keys, uploaded, undeletable);
    SweepKeysSpares(keys, uploaded, undeletable);
  }

  lemma {:induction false} SweepKeysComplete(keys: seq<Key>, uploaded: set<Key>, undeletable: set<Key>)
    ensures var p := SweepKeys(keys, uploaded, undeletable);
      p.failure.None? ==> p.deleted == Orphans(keys, uploaded)
  {
    if keys != [] {
      SweepKeysComplete(keys[1..], uploaded, undeletable);
    }
  }

  lemma {:induction false} SweepKeysRefused(keys: seq<Key>, uploaded: set<Key>, undeletable: set<Key>)
    ensures var p := SweepKeys(keys, uploaded, undeletable);
      p.failure.Some? ==>
        && p.failure.value.DeleteError?
        && p.failure.value.key in undeletable && p.failure.value.key !in uploaded
        && IsPrefix(p.deleted + [p.failure.value.key], Orphans(keys, uploaded))
  {
    if keys != [] && (keys[0] in uploaded || keys[0] !in undeletable) {
      var rest := SweepKeys(keys[1..], uploaded, undeletable);
      SweepKeysRefused(keys[1..], uploaded, undeletable);
      if keys[0] !in uploaded && rest.failure.Some? {
        var k := keys[0];
        var o := Orphans(keys[1..], uploaded);
        var tail := rest.deleted + [rest.failure.value.key];
        assert [k] + rest.deleted + [rest.failure.value.key] == [k] + tail;
        assert ([k] + o)[..|[k] + tail|] == [k] + o[..|tail|];
      }
    }
  }

  lemma {:induction false} SweepKeysSpares(keys: seq<Key>, uploaded: set<Key>, undeletable: set<Key>)
    ensures forall k :: k in SweepKeys(keys, uploaded, undeletable).deleted ==> k !in uploaded && k !in undeletable
  {
    if keys != [] {
      SweepKeysSpares(keys[1..], uploaded, undeletable);
    }
  }

  /** The first page's part of a sweep that goes on to the next page. */
  lemma SweepFromStep(listing: seq<Reply>, i: nat, uploaded: set<Key>, undeletable: set<Key>)
    requires i < |listing| && listing[i].Served? && listing[i].next.Some?
    requires SweepKeys(listing[i].contents, uploaded, undeletable).failure.None?
    ensures SweepFrom(listing, i, uploaded, undeletable) ==
      After(1, Orphans(listing[i].contents, uploaded), SweepFrom(listing, i + 1, uploaded, undeletable))
  {
    SweepKeysOrphans(listing[i].contents, uploaded, undeletable);
  }

  /** The keys shown by a page followed by those of the pages after it. */
  lemma ListedFromStep(listing: seq<Reply>, i: nat, n: nat)
    requires i < |listing| && listing[i].Served?
    ensures ListedFrom(listing, i, n + 1) == listing[i].contents + ListedFrom(listing, i + 1, n)
    ensures ListedFrom(listing, i, 1) == listing[i].contents
  {
    assert ListedFrom(listing, i + 1, 0) == [];
    assert listing[i].contents + [] == listing[i].contents;
  }

  /** The sweep never deletes a key uploaded in this run, nor one the
      store refuses to delete. */
  lemma {:induction false} SweepKeepsUploaded(listing: seq<Reply>, i: nat, uploaded: set<Key>, undeletable: set<Key>)
    ensures forall k :: k in SweepFrom(listing, i, uploaded, undeletable).deleted ==> k !in uploaded && k !in undeletable
    decreases |listing| - i
  {
    if i < |listing| && listing[i].Served? {
      SweepKeysOrphans(listing[i].contents, uploaded, undeletable);
      if listing[i].next.Some? {
        SweepKeepsUploaded(listing, i + 1, uploaded, undeletable);
      }
    }
  }

  /** A sweep that ends without error deleted exactly the listed keys
      absent from `uploaded`, on all the pages it requested. */
  lemma {:induction false} SweepDeletesOrphans(listing: seq<Reply>, i: nat, uploaded: set<Key>, undeletable: set<Key>)
    requires SweepFrom(listing, i, uploaded, undeletable).failure.None?
    ensures var s := SweepFrom(listing, i, uploaded, undeletable);
      s.deleted == Orphans(ListedFrom(listing, i, s.pages), uploaded)
    decreases |listing| - i
  {
    var c := listing[i].contents;
    SweepKeysOrphans(c, uploaded, undeletable);
    if listing[i].next.None? {
      ListedFromStep(listing, i, 0);
    } else {
      SweepFromStep(listing, i, uploaded, undeletable);
      var rest := SweepFrom(listing, i + 1, uploaded, undeletable);
      SweepDeletesOrphans(listing, i + 1, uploaded, undeletable);
      ListedFromStep(listing, i, rest.pages);
      OrphansAppend(c, ListedFrom(listing, i + 1, rest.pages), uploaded);
    }
  }

  /** The count `dc` reported at the end of a sweep without error is the
      number of orphans on the pages it requested. */
  lemma DeletedCountIsOrphans(listing: seq<Reply>, uploaded: set<Key>, undeletable: set<Key>)
    ensures var s := SweepAll(listing, uploaded, undeletable);
      Report(s).Success? ==> Report(s).value == |Orphans(ListedFrom(listing, 0, s.pages), uploaded)|
  {
    if SweepAll(listing, uploaded, undeletable).failure.None? {
      SweepDeletesOrphans(listing, 0, uploaded, undeletable);
    }
  }

  /** A refused listing request ends the sweep after the orphans of the
      pages before it were deleted. */
  lemma {:induction false} SweepStopsAtRefusedListing(listing: seq<Reply>, i: nat, uploaded: set<Key>, undeletable: set<Key>)
    requires SweepFrom(listing, i, uploaded, undeletable).failure == Some(ListError)
    ensures var s := SweepFrom(listing, i, uploaded, undeletable);
      && s.pages >= 1
      && ReplyAt(listing, i + s.pages - 1).Refused?
      && s.deleted == Orphans(ListedFrom(listing, i, s.pages - 1), uploaded)
    decreases |listing| - i
  {
    if i < |listing| && listing[i].Served? {
      var c := listing[i].contents;
      SweepKeysOrphans(c, uploaded, undeletable);
      SweepFromStep(listing, i, uploaded, undeletable);
      var rest := SweepFrom(listing, i + 1, uploaded, undeletable);
      SweepStopsAtRefusedListing(listing, i + 1, uploaded, undeletable);
      ListedFromStep(listing, i, rest.pages - 1);
      OrphansAppend(c, ListedFrom(listing, i + 1, rest.pages - 1), uploaded);
      assert rest.pages - 1 + 1 == rest.pages;
    } else {
      assert ListedFrom(listing, i, 0) == [];
    }
  }

  /** A refused delete ends the sweep: the refused key is an orphan the
      store keeps, and the deletions made before it are the orphans that
      precede it in listing order. */
  lemma {:induction false} SweepStopsAtRefusedDelete(listing: seq<Reply>, i: nat, uploaded: set<Key>, undeletable: set<Key>)
    requires var s := SweepFrom(listing, i, uploaded, undeletable);
      s.failure.Some? && s.failure.value.DeleteError?
    ensures var s := SweepFrom(listing, i, uploaded, undeletable);
      && s.failure.value.key in undeletable && s.failure.value.key !in uploaded
      && IsPrefix(s.deleted + [s.failure.value.key], Orphans(ListedFrom(listing, i, s.pages), uploaded))
    decreases |listing| - i
  {
    var c := listing[i].contents;
    var page := SweepKeys(c, uploaded, undeletable);
    SweepKeysOrphans(c, uploaded, undeletable);
    if page.failure.Some? {
      ListedFromStep(listing, i, 0);
    } else {
      SweepFromStep(listing, i, uploaded, undeletable);
      var rest := SweepFrom(listing, i + 1, uploaded, undeletable);
      SweepStopsAtRefusedDelete(listing, i + 1, uploaded, undeletable);
      ListedFromStep(listing, i, rest.pages);
      var o := Orphans(ListedFrom(listing, i + 1, rest.pages), uploaded);
      OrphansAppend(c, ListedFrom(listing, i + 1, rest.pages), uploaded);
      var k := rest.failure.value.key;
      var d := page.deleted;
      assert d + rest.deleted + [k] == d + (rest.deleted + [k]);
      assert (d + o)[..|d + rest.deleted + [k]|] == d + o[..|rest.deleted + [k]|];
    }
  }

  /** Orphans are taken page by page. */
  lemma {:induction false} OrphansAppend(a: seq<Key>, b: seq<Key>, uploaded: set<Key>)
    ensures Orphans(a + b, uploaded) == Orphans(a, uploaded) + Orphans(b, uploaded)
  {
    if a != [] {
      assert (a + b)[0] == a[0] && (a + b)[1..] == a[1..] + b;
      OrphansAppend(a[1..], b, uploaded);
    } else {
      assert a + b == b;
    }
  }

  /** The keys of the orphans are the listed keys not uploaded. */
  lemma {:induction false} OrphanElements(keys: seq<Key>, uploaded: set<Key>)
    ensures Elements(Orphans(keys, uploaded)) == Elements(keys) - uploaded
  {
    if keys != [] {
      OrphanElements(keys[1..], uploaded);
      assert keys == [keys[0]] + keys[1..];
      assert Elements(keys) == {keys[0]} + Elements(keys[1..]);
      if keys[0] !in uploaded {
        assert Elements(Orphans(keys, uploaded)) == {keys[0]} + Elements(Orphans(keys[1..], uploaded));
      }
    }
  }

  /** The pagination protocol: a sweep that ends without error stopped at
      the first page without a continuation token, after following the
      tokens of all pages before it. */
  lemma {:induction false} SweepFollowsTokens(listing: seq<Reply>, i: nat, uploaded: set<Key>, undeletable: set<Key>)
    ensures var s := SweepFrom(listing, i, uploaded, undeletable);
      s.failure.None? ==>
        && i + s.pages <= |listing|
        && listing[i + s.pages - 1].Served? && listing[i + s.pages - 1].next.None?
        && forall k :: i <= k < i + s.pages - 1 ==> listing[k].Served? && listing[k].next.Some?
    decreases |listing| - i
  {
    if i < |listing| && listing[i].Served? && listing[i].next.Some? {
      SweepFollowsTokens(listing, i + 1, uploaded, undeletable);
    }
  }

  /** A listing whose pages are all served, each but the last carrying a
      continuation token. */
  ghost predicate Complete(listing: seq<Reply>)
  {
    && |listing| > 0
    && (forall k :: 0 <= k < |listing| ==> listing[k].Served?)
    && (forall k :: 0 <= k < |listing| - 1 ==> listing[k].next.Some?)
    && listing[|listing| - 1].next.None?
  }

  /** On a complete listing whose orphans the store lets go, the sweep
      requests every page and deletes exactly the orphans of the whole
      listing, however many pages it spans. */
  lemma {:induction false} SweepVisitsEveryPage(listing: seq<Reply>, i: nat, uploaded: set<Key>, undeletable: set<Key>)
    requires Complete(listing) && i < |listing|
    requires Releasable(ListedFrom(listing, i, |listing| - i), uploaded, undeletable)
    ensures SweepFrom(listing, i, uploaded, undeletable) ==
      Sweep(|listing| - i, Orphans(ListedFrom(listing, i, |listing| - i), uploaded), None)
    decreases |listing| - i
  {
    var c := listing[i].contents;
    var rest := ListedFrom(listing, i + 1, |listing| - (i + 1));
    ListedFromStep(listing, i, |listing| - (i + 1));
    ReleasableAppend(c, rest, uploaded, undeletable);
    VisitCompletePage(listing, i, uploaded, undeletable);
    OrphansAppend(c, rest, uploaded);
    if i + 1 < |listing| {
      SweepVisitsEveryPage(listing, i + 1, uploaded, undeletable);
    } else {
      assert rest == [];
      assert c + [] == c;
    }
  }

  /** Every key of `keys` that was not uploaded is one the store lets go. */
  ghost predicate Releasable(keys: seq<Key>, uploaded: set<Key>, undeletable: set<Key>)
  {
    forall k :: k in keys && k !in uploaded ==> k !in undeletable
  }

  /** Keys are releasable exactly when both runs of them are. */
  lemma ReleasableAppend(a: seq<Key>, b: seq<Key>, uploaded: set<Key>, undeletable: set<Key>)
    ensures Releasable(a + b, uploaded, undeletable) <==>
      Releasable(a, uploaded, undeletable) && Releasable(b, uploaded, undeletable)
  {
    if Releasable(a + b, uploaded, undeletable) {
      forall k | k in a && k !in uploaded
        ensures k !in undeletable
      {
        assert k in a + b;
      }
      forall k | k in b && k !in uploaded
        ensures k !in undeletable
      {
        assert k in a + b;
      }
    }
  }

  /** One page of a complete listing, none of whose orphans the store
      refuses to delete: its visit deletes exactly its orphans, and the
      sweep goes on exactly when a later page exists. */
  lemma VisitCompletePage(listing: seq<Reply>, i: nat, uploaded: set<Key>, undeletable: set<Key>)
    requires Complete(listing) && i < |listing|
    requires Releasable(listing[i].contents, uploaded, undeletable)
    ensures Visit(listing, i, uploaded, undeletable) == Sweep(1, Orphans(listing[i].contents, uploaded), None)
    ensures TokenFor(listing, i + 1).None? <==> i + 1 == |listing|
  {
    NoRefusedDelete(listing[i].contents, uploaded, undeletable);
    SweepKeysOrphans(listing[i].contents, uploaded, undeletable);
  }

  /** A page none of whose orphans the store refuses to delete is swept
      without error. */
  lemma {:induction false} NoRefusedDelete(keys: seq<Key>, uploaded: set<Key>, undeletable: set<Key>)
    requires Releasable(keys, uploaded, undeletable)
    ensures SweepKeys(keys, uploaded, undeletable).failure.None?
  {
    if keys != [] {
      NoRefusedDelete(keys[1..], uploaded, undeletable);
    }
  }

  /** Mark-and-sweep: when the listing shows every object of the bucket,
      what remains after the sweep is exactly the objects uploaded in this
      run; in particular a second run over the same tree deletes nothing. */
  lemma MarkAndSweep(objects: set<Key>, listed: seq<Key>, uploaded: set<Key>)
    requires Elements(listed) == objects
    ensures objects - Elements(Orphans(listed, uploaded)) == objects * uploaded
    ensures objects <= uploaded ==> Orphans(listed, uploaded) == []
  {
    OrphanElements(listed, uploaded);
    NoElementsEmpty(Orphans(listed, uploaded));
  }

  lemma NoElementsEmpty(s: seq<Key>)
    ensures Elements(s) == {} ==> s == []
  {
    if s != [] {
      assert s[0] in Elements(s);
    }
  }

  /** The sweep after page `i` when it stops there. */
  lemma SweepStops(listing: seq<Reply>, i: nat, uploaded: set<Key>, undeletable: set<Key>, done: seq<Key>)
    requires var v := Visit(listing, i, uploaded, undeletable);
      v.failure.Some? || TokenFor(listing, i + 1).None?
    ensures var v := Visit(listing, i, uploaded, undeletable);
      After(i, done, SweepFrom(listing, i, uploaded, undeletable)) == After(i, done, v)
  {
  }

  /** The sweep after page `i` when it goes on to page `i + 1`. */
  lemma SweepGoesOn(listing: seq<Reply>, i: nat, uploaded: set<Key>, undeletable: set<Key>, done: seq<Key>)
    requires var v := Visit(listing, i, uploaded, undeletable);
      v.failure.None? && TokenFor(listing, i + 1).Some?
    ensures var v := Visit(listing, i, uploaded, undeletable);
      After(i, done, SweepFrom(listing, i, uploaded, undeletable)) ==
        After(i + 1, done + v.deleted, SweepFrom(listing, i + 1, uploaded, undeletable))
  {
    var v := Visit(listing, i, uploaded, undeletable);
    AfterAfter(i, done, 1, v.deleted, SweepFrom(listing, i + 1, uploaded, undeletable));
  }

  /** Removing one more key. */
  lemma RemoveOne(objects: map<Key, Object>, done: seq<Key>, key: Key)
    ensures objects - Elements(done) - {key} == objects - Elements(done + [key])
  {
    ElementsAppend(done, [key]);
    assert Elements([key]) == {key};
  }

  /** Removing two sets of keys one after the other. */
  lemma RemoveBoth(objects: map<Key, Object>, a: seq<Key>, b: seq<Key>)
    ensures objects - Elements(a) - Elements(b) == objects - Elements(a + b)
  {
    ElementsAppend(a, b);
  }

  /** Sweeping the keys from the `j`-th on starts with the `j`-th key. */
  lemma SweepKeysAt(keys: seq<Key>, j: nat, uploaded: set<Key>, undeletable: set<Key>)
    requires j < |keys|
    ensures var k, rest := keys[j], SweepKeys(keys[j + 1..], uploaded, undeletable);
      SweepKeys(keys[j..], uploaded, undeletable) ==
        if k in uploaded then rest
        else if k in undeletable then PageSweep([], Some(DeleteError(k)))
        else PageSweep([k] + rest.deleted, rest.failure)
  {
    assert keys[j..][1..] == keys[j + 1..];
  }

  /** The sweep of a page whose first keys deleted `done` and whose
      remaining keys swept as `p`. */
  function Prefixed(done: seq<Key>, p: PageSweep): (r: PageSweep)
    ensures |r.deleted| == |done| + |p.deleted| && r.failure == p.failure
  {
    PageSweep(done + p.deleted, p.failure)
  }

  /** The sweep of a page after one more deleted key. */
  lemma PrefixedStep(done: seq<Key>, key: Key, rest: PageSweep)
    ensures Prefixed(done, PageSweep([key] + rest.deleted, rest.failure)) == Prefixed(done + [key], rest)
  {
    AppendAssoc(done, [key], rest.deleted);
  }

  /** The sweep of a page that ends at a refused delete, and the delete
      calls it makes. */
  lemma PrefixedRefused(done: seq<Key>, key: Key)
    ensures Prefixed(done, PageSweep([], Some(DeleteError(key)))) == PageSweep(done, Some(DeleteError(key)))
    ensures DeleteCalls(Sweep(1, done, Some(DeleteError(key)))) == done + [key]
  {
    assert done + [] == done;
  }

  /** The sweep of a page whose keys are all handled. */
  lemma PrefixedDone(done: seq<Key>)
    ensures Prefixed(done, PageSweep([], None)) == PageSweep(done, None)
  {
    assert done + [] == done;
  }

  /** The inner loop of one pass (l.101-112): delete the keys of a page
      that were not uploaded, one at a time, stopping at the first refused
      delete. Returns that refusal, if any, and the number of deletions. */
  method SweepPage(bucket: Bucket, contents: seq<Key>, uploaded: set<Key>) returns (failure: Option<Error>, count: nat)
    modifies bucket
    ensures var p := SweepKeys(contents, uploaded, bucket.undeletable);
      && failure == p.failure && count == |p.deleted|
      && bucket.deleteRequests == old(bucket.deleteRequests) + DeleteCalls(Sweep(1, p.deleted, p.failure))
      && bucket.objects == old(bucket.objects) - Elements(p.deleted)
    ensures bucket.listRequests == old(bucket.listRequests)
  {
    ghost var objects0 := bucket.objects;
    ghost var calls0 := bucket.deleteRequests;
    ghost var whole := SweepKeys(contents, uploaded, bucket.undeletable);
    ghost var done: seq<Key> := [];
    count := 0;
    var j := 0;
    assert contents[0..] == contents;
    PrefixedDone([]);
    assert [] + whole.deleted == whole.deleted;
    while j < |contents|
      invariant j <= |contents|
      invariant whole == Prefixed(done, SweepKeys(contents[j..], uploaded, bucket.undeletable))
      invariant count == |done|
      invariant bucket.deleteRequests == calls0 + done
      invariant bucket.objects == objects0 - Elements(done)
      invariant bucket.listRequests == old(bucket.listRequests)
    {
      var key := contents[j];
      ghost var rest := SweepKeys(contents[j + 1..], uploaded, bucket.undeletable);
      SweepKeysAt(contents, j, uploaded, bucket.undeletable);
      if key !in uploaded {
        var ok := bucket.Delete(key);
        AppendAssoc(calls0, done, [key]);
        if !ok {
          PrefixedRefused(done, key);
          return Some(DeleteError(key)), count;
        }
        count := count + 1;
        RemoveOne(objects0, done, key);
        PrefixedStep(done, key, rest);
        done := done + [key];
      }
      j := j + 1;
    }
    assert contents[j..] == [];
    PrefixedDone(done);
    failure := None;
  }

  /** One pass of the sync loop's body (l.96-112): request the page `ct`
      leads to and sweep its keys. Returns the error that ends the run, if
      any, the number of deletions, and the page's continuation token. */
  method VisitPage(bucket: Bucket, ct: Option<Token>, uploaded: set<Key>, ghost i: nat)
    returns (failure: Option<Error>, count: nat, next: Option<Token>)
    requires DistinctTokens(bucket.listing)
    requires ct == TokenFor(bucket.listing, i)
    requires i > 0 ==> i <= |bucket.listing| && bucket.listing[i - 1].Served? && bucket.listing[i - 1].next.Some?
    modifies bucket
    ensures var v := Visit(bucket.listing, i, uploaded, bucket.undeletable);
      && failure == v.failure && count == |v.deleted|
      && (failure.None? ==> next == TokenFor(bucket.listing, i + 1))
      && bucket.listRequests == old(bucket.listRequests) + [ct]
      && bucket.deleteRequests == old(bucket.deleteRequests) + DeleteCalls(v)
      && bucket.objects == old(bucket.objects) - Elements(v.deleted)
  {
    if i > 0 {
      PageOfNextToken(bucket.listing, i - 1);
    }
    var reply := bucket.ListObjects(ct);
    if reply.Refused? {
      return Some(ListError), 0, None;
    }
    failure, count := SweepPage(bucket, reply.contents, uploaded);
    next := reply.next;
  }

  /** The sync loop of the program (l.90-119): `ct` is the continuation
      token of the next request and `dc` the number of deleted objects. */
  method SyncBucket(bucket: Bucket, uploaded: set<Key>) returns (r: Result<nat>)
    requires DistinctTokens(bucket.listing)
    modifies bucket
    ensures var s := SweepAll(bucket.listing, uploaded, bucket.undeletable);
      && r == Report(s)
      && bucket.listRequests == old(bucket.listRequests) + Requests(bucket.listing, s.pages)
      && bucket.deleteRequests == old(bucket.deleteRequests) + DeleteCalls(s)
      && bucket.objects == old(bucket.objects) - Elements(s.deleted)
  {
    ghost var listing := bucket.listing;
    ghost var undeletable := bucket.undeletable;
    ghost var whole := SweepAll(listing, uploaded, undeletable);
    var ct: Option<Token> := None;
    var dc := 0;
    ghost var i := 0;
    ghost var done: seq<Key> := [];
    while true
      invariant i <= |listing|
      invariant i > 0 ==> listing[i - 1].Served? && listing[i - 1].next.Some?
      invariant ct == TokenFor(listing, i)
      invariant whole == After(i, done, SweepFrom(listing, i, uploaded, undeletable))
      invariant dc == |done|
      invariant bucket.listRequests == old(bucket.listRequests) + Requests(listing, i)
      invariant bucket.deleteRequests == old(bucket.deleteRequests) + done
      invariant bucket.objects == old(bucket.objects) - Elements(done)
      decreases |listing| - i
    {
      ghost var v := Visit(listing, i, uploaded, undeletable);
      var failure, count, next := VisitPage(bucket, ct, uploaded, i);
      RemoveBoth(old(bucket.objects), done, v.deleted);
      AppendAssoc(old(bucket.deleteRequests), done, DeleteCalls(v));
      AppendAssoc(old(bucket.listRequests), Requests(listing, i), [ct]);
      if failure.Some? || next.None? {
        SweepStops(listing, i, uploaded, undeletable, done);
        DeleteCallsAfter(i, done, v);
        if failure.Some? {
          return Failure(failure.value);
        }
        dc, done := dc + count, done + v.deleted;
        break;
      }
      SweepGoesOn(listing, i, uploaded, undeletable, done);
      dc, done := dc + count, done + v.deleted;
      ct, i := next, i + 1;
    }
    r := Success(dc);
  }
}
