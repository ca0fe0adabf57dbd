/** The S3 bucket as the program sees it through the SDK: uploads,
    paginated listings and deletes. Which calls fail is fixed when the
    bucket is created (`unwritable`, `undeletable`, refused listing pages),
    so each run against it has one outcome. Ghost logs record every call the
    program issues, so that specifications can say which calls happen. */
module Store {
  import opened Common

  type Key = string
  type Token = string

  /** The access policy every upload carries. */
  const PUBLIC_READ: string := "public-read"

  /** A stored object: body and the headers the upload sets. */
  datatype Object = Object(body: Bytes, acl: string, contentType: Option<string>, contentEncoding: string)

  /** The answer to one listing request: the keys of a page with the token
      that continues the listing, if any, or a refusal. */
  datatype Reply = Served(contents: seq<Key>, next: Option<Token>) | Refused

  /** The listing service hands out each continuation token at most once. */
  ghost predicate DistinctTokens(listing: seq<Reply>)
  {
    forall i, j :: 0 <= i < j < |listing| && listing[i].Served? && listing[j].Served? && listing[i].next.Some? ==>
      listing[i].next != listing[j].next
  }

  /** The first page at or after `from` that hands out token `t`, or
      `|listing|` when none does. */
  function FindToken(listing: seq<Reply>, t: Token, from: nat): (i: nat)
    requires from <= |listing|
    ensures from <= i <= |listing|
    ensures i < |listing| ==> listing[i].Served? && listing[i].next == Some(t)
    ensures forall j :: from <= j < i ==> !(listing[j].Served? && listing[j].next == Some(t))
    decreases |listing| - from
  {
    if from == |listing| then |listing|
    else if listing[from].Served? && listing[from].next == Some(t) then from
    else FindToken(listing, t, from + 1)
  }

  /** The page a request asks for: the first page for no token, and the page
      after the one that handed out the token otherwise. */
  function PageOf(listing: seq<Reply>, ct: Option<Token>): nat
  {
    match ct
    case None => 0
    case Some(t) => FindToken(listing, t, 0) + 1
  }

  /** The service's answer for page `i`; there is no page past the end. */
  function ReplyAt(listing: seq<Reply>, i: nat): Reply
  {
    if i < |listing| then listing[i] else Refused
  }

  /** The token the program sends for the `i`-th request: none for the
      first, the previous page's continuation token for the others. */
  function TokenFor(listing: seq<Reply>, i: nat): Option<Token>
  {
    if i == 0 || i > |listing| || listing[i - 1].Refused? then None else listing[i - 1].next
  }

  /** The tokens of the first `n` requests of a complete pass. */
  function Requests(listing: seq<Reply>, n: nat): (rs: seq<Option<Token>>)
    ensures |rs| == n
  {
    if n == 0 then [] else Requests(listing, n - 1) + [TokenFor(listing, n - 1)]
  }

  /** Sending a page's continuation token gets the following page. */
  lemma {:induction false} PageOfNextToken(listing: seq<Reply>, i: nat)
    requires DistinctTokens(listing)
    requires i < |listing| && listing[i].Served? && listing[i].next.Some?
    ensures PageOf(listing, listing[i].next) == i + 1
  {
    var t := listing[i].next.value;
    FindTokenFrom(listing, t, 0, i);
  }

  lemma {:induction false} FindTokenFrom(listing: seq<Reply>, t: Token, from: nat, i: nat)
    requires DistinctTokens(listing)
    requires from <= i < |listing| && listing[i].Served? && listing[i].next == Some(t)
    ensures FindToken(listing, t, from) == i
    decreases i - from
  {
    if from < i {
      assert !(listing[from].Served? && listing[from].next == Some(t));
      FindTokenFrom(listing, t, from + 1, i);
    }
  }

  class Bucket {
    /** The objects in the bucket, by key. */
    var objects: map<Key, Object>
    /** The pages the listing service serves, in order. */
    const listing: seq<Reply>
    /** Keys whose upload the store refuses. */
    const unwritable: set<Key>
    /** Keys whose delete the store refuses. */
    const undeletable: set<Key>

    /** Continuation tokens of the listing calls issued, in order. */
    ghost var listRequests: seq<Option<Token>>
    /** Keys of the delete calls issued, in order. */
    ghost var deleteRequests: seq<Key>

    constructor (objects: map<Key, Object>, listing: seq<Reply>, unwritable: set<Key>, undeletable: set<Key>)
      ensures this.objects == objects && this.listing == listing
      ensures this.unwritable == unwritable && this.undeletable == undeletable
      ensures listRequests == [] && deleteRequests == []
    {
      this.objects := objects;
      this.listing := listing;
      this.unwritable := unwritable;
      this.undeletable := undeletable;
      listRequests, deleteRequests := [], [];
    }

    /** `Upload`: stores the object under the key unless the store refuses. */
    method Upload(key: Key, obj: Object) returns (ok: bool)
      modifies this`objects
      ensures ok <==> key !in unwritable
      ensures objects == if ok then old(objects)[key := obj] else old(objects)
    {
      ok := key !in unwritable;
      if ok {
        objects := objects[key := obj];
      }
    }

    /** `ListObjectsV2`: the page the continuation token leads to. */
    method ListObjects(ct: Option<Token>) returns (reply: Reply)
      modifies this`listRequests
      ensures reply == ReplyAt(listing, PageOf(listing, ct))
      ensures listRequests == old(listRequests) + [ct]
    {
      reply := ReplyAt(listing, PageOf(listing, ct));
      listRequests := listRequests + [ct];
    }

    /** `DeleteObject`: removes the key unless the store refuses. */
    method Delete(key: Key) returns (ok: bool)
      modifies this`objects, this`deleteRequests
      ensures ok <==> key !in undeletable
      ensures objects == if ok then old(objects) - {key} else old(objects)
      ensures deleteRequests == old(deleteRequests) + [key]
    {
      ok := key !in undeletable;
      if ok {
        objects := objects - {key};
      }
      deleteRequests := deleteRequests + [key];
    }
  }
}
