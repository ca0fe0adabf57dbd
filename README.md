# webload in Dafny

webload is a command-line tool. It uploads the files of a local directory to an S3 bucket as public-read objects. Each object gets a Content-Type looked up from its file extension. With `-c gzip` it also gets a compressed body. With `-s` the tool then deletes every object in the bucket that the run did not upload, walking the bucket's paginated listing. Any failure prints a message and ends the program with status 1.

This project models that program (`main.go`) in Dafny and proves properties of the model:

- `Flags` is the command line and its usage check.
- `Compress` is the `maybeCompress` selector, as written and corrected.
- `Mime` is the table literal, the loop of `init` that builds the extension-to-type map, and the lookup made per file. The records are written in seven functions of at most ten records each, so that proofs about one part need not unfold the others.
- `Store` is the S3 bucket seen through the SDK. It is a class whose object map changes in place. Fixed listing pages and fixed sets of refused keys decide how each upload, listing and delete call turns out. Ghost logs record the listing and delete calls issued.
- `Upload` is the directory walk's callback and the upload loop. The loop is a method that is proved against a recursive specification of the uploads it makes.
- `Sync` is the mark-and-sweep reconciler. It has three methods: one for the outer pagination loop, one for a single pass, and one for the inner loop over a page's keys. Each is proved against a specification function (`SweepFrom`, `Visit`, `SweepKeys`), and lemmas state what that specification guarantees.
- `Webload.Run` is the whole program, stage by stage. Every fatal exit is a `Failure` carrying the reason.

## Model

| member | source | states |
|---|---|---|
| Flags.Validate | main.go:32-35 | The run goes on exactly when -b and -d are non-empty and -c is "", "gzip" or "br". Otherwise it stops with the usage error. A passing configuration keeps every flag, and its compression is the one -c names. |
| Flags.ParseCompression | main.go:32 | A -c value is accepted exactly when it is the name of one of the three compressions, and the result is that compression. |
| Flags.ParseCompressionName | main.go:29 | Every compression's -c name parses back to that compression. |
| Flags.UsageExamples | main.go:32-33 | A missing bucket, a missing directory or `-c zip` is rejected; `-c br` with both given is accepted. |
| Compress.MaybeCompressAsWritten | main.go:122-141 | As written, the selector crashes (nil writer) exactly for "br". With no compression it returns the body unchanged. |
| Compress.MaybeCompress | main.go:122-141 | The corrected selector: "" passes the body through; "gzip" succeeds exactly when the encoder does, with the encoder's output; "br" fails with the unsupported-compression error. The only errors are compression errors. |
| Compress.MaybeCompressAgrees | main.go:122-141 | For "" and "gzip", the corrected selector succeeds exactly when the written one produces a body, and yields the same body. |
| Compress.BrotliPassesUsageThenPanics | main.go:128-135 | With -b and -d given, `-c br` passes the usage check, and the written selector then crashes on the file. |
| Compress.CompressRoundTrip | main.go:79 | The Content-Encoding sent (the -c value) lets a reader with a matching gzip decoder recover the file's exact contents. |
| Mime.BuildMimeTable | main.go:153-156 | The loop of `init` builds `TableOf` the records, one map update per record in order. |
| Mime.TableOfDomain | main.go:153-156 | An extension is in the table exactly when some record carries it. |
| Mime.TableOfLastWins | main.go:153-156 | When an extension occurs more than once, the type of its last record is the one stored. |
| Mime.TableOfAppend | main.go:154-156 | Storing two runs of records gives the first run's table overridden by the second's. |
| Mime.TableOfMimeRecords | main.go:160-228 | The table of the literal is the union of its parts' tables, with a later part winning. |
| Mime.ContentType | main.go:78 | A file gets a Content-Type exactly when its extension is in the table, and then it is the table's entry. An unknown extension sends no Content-Type. |
| Mime.HtmlIsTextHtml | main.go:178 | The type looked up for ".html" is "text/html" (the record on line 178 is the last one for ".html"). |
| Mime.UnknownExtensionHasNoType | main.go:78 | An extension no record carries (".xyz123") gets no Content-Type. |
| Store.FindToken | main.go:96 | The page found for a continuation token hands out that token, and no earlier page does; the length of the listing is returned exactly when no page hands it out. |
| Store.PageOfNextToken | main.go:113-116 | When tokens are distinct, sending page i's continuation token gets page i + 1. |
| Store.Bucket.Upload | main.go:75-82 | The upload succeeds exactly when the store accepts the key. On success it stores the object under the key; otherwise the bucket is unchanged. |
| Store.Bucket.ListObjects | main.go:96 | The reply is the page the token leads to, and the request is logged. |
| Store.Bucket.Delete | main.go:104 | The delete succeeds exactly when the store lets the key go. On success it removes the key; the call is logged either way. |
| Upload.CollectFiles | main.go:37-43 | The collected files are the walked entries that are not directories, in walk order. |
| Upload.NonDirectoriesMembers | main.go:38-42 | An entry is collected exactly when it was walked and is not a directory. |
| Upload.NonDirectoriesAppend | main.go:37-43 | Collection is per entry: collecting a concatenation concatenates the collections. |
| Upload.ObjectFor | main.go:75-82 | Each uploaded object is public-read and carries the -c value as its Content-Encoding. It has a Content-Type exactly when its extension is in the table. |
| Upload.AttemptSteps | main.go:58-86 | One pass fails at the first failing step, in order: open, then compress, then upload. Only when all three succeed is the object stored under the file's key. |
| Upload.UploadFile | main.go:58-86 | One pass of the loop returns the attempt's outcome and stores the object exactly when it succeeds. |
| Upload.UploadAll | main.go:56-89 | The loop's result is the `uploaded` key set of the uploads made, or the first error. The bucket holds exactly the effect of those uploads. |
| Upload.UploadsInOrder | main.go:57-89 | Files are uploaded in order, one upload each, up to the first failing attempt. That attempt's error is the run's error; without one, every file was uploaded. |
| Upload.UploadsStop | main.go:83-86 | Once an attempt fails, no later file is attempted. |
| Upload.UploadedHeaders | main.go:75-82 | Every uploaded object has the key of its file and is public-read. It carries the -c value and the table's type for its file's extension. |
| Upload.UploadedKeys | main.go:87 | After a loop with no failure, `uploaded` holds the key of every collected file and nothing else. |
| Upload.StoredHolds | main.go:75-87 | After the uploads, every uploaded key is in the bucket; other keys are as before. |
| Upload.StoredLast | main.go:75-87 | After the uploads, an uploaded key holds the object of its last upload. |
| Upload.BrotliUploadsNothing | main.go:60-69 | With "br", the loop ends at the first file: with the open error if it cannot be opened, with the unsupported-compression error otherwise; nothing is uploaded. |
| Sync.SyncBucket | main.go:90-119 | The sync loop returns the number of deleted objects or the error of the sweep. The listing requests carry the tokens in order, the delete calls are the ones the sweep makes, and the objects left are those not deleted. |
| Sync.VisitPage | main.go:96-116 | One pass requests the page for `ct`, sweeps it, and returns the next token. The logs and objects change as one visit of that page prescribes. |
| Sync.SweepPage | main.go:101-112 | The inner loop deletes the page's keys that are absent from `uploaded`, in order, stopping at the first refused delete. `dc` grows by one per deletion. |
| Sync.SweepKeysOrphans | main.go:101-112 | A page sweep without error deletes exactly the page's orphans. A refused delete names an orphan the store keeps, and it follows the deletions made before it. Nothing uploaded or refused is deleted. |
| Sync.SweepKeepsUploaded | main.go:102-104 | No key in `uploaded` is ever deleted. |
| Sync.SweepDeletesOrphans | main.go:95-117 | A sweep that ends without error deleted exactly the listed keys not in `uploaded`, over all the pages it requested, in listing order. |
| Sync.SweepStopsAtRefusedListing | main.go:96-100 | A refused listing request ends the run after the orphans of the earlier pages were deleted. |
| Sync.SweepStopsAtRefusedDelete | main.go:104-108 | A refused delete ends the run. The refused key is an orphan, and the deletions before it are the orphans that precede it. |
| Sync.SweepFollowsTokens | main.go:113-116 | A sweep without error follows every page's continuation token, and stops at the first page without one. |
| Sync.SweepVisitsEveryPage | main.go:95-117 | On a fully served listing whose orphans can all be deleted, every page is requested, and exactly the orphans of the whole listing are deleted. |
| Sync.MarkAndSweep | main.go:90-119 | When the listing shows the whole bucket, what remains is exactly the uploaded part. If everything was uploaded, nothing is deleted. |
| Sync.OrphanElements | main.go:102 | The deleted keys are the listed keys minus the uploaded ones. |
| Sync.OrphansAppend | main.go:101-112 | Orphans are taken page by page: the orphans of two runs of keys are the orphans of the first, then those of the second. |
| Sync.NoRefusedDelete | main.go:104-108 | A page none of whose orphans is refused is swept without error. |
| Sync.DeletedCountIsOrphans | main.go:94-118 | The count `dc` reported after a sweep without error is the number of orphans (listed keys not uploaded) on the pages it requested. |
| Webload.Run | main.go:24-120 | The whole run fails at its first failing stage: usage, then walk, then session, each leaving the bucket untouched. After that, the upload loop either fails (no listing or delete calls) or, without -s, succeeds with the uploads' effect. With -s the sweep over the uploaded keys follows, and its count or error is the result. |
| Webload.SyncedBucketMirrorsUploads | main.go:28 | The purpose of -s: after the uploads, with a fully served listing of the bucket whose orphans can be deleted, the bucket ends up holding exactly the uploaded keys. |

## Left out

- The AWS SDK is not part of this model. The bucket is a class whose listing pages and sets of refused uploads and deletes are fixed when it is created. Upload and delete calls that fail for other reasons fall under those sets, a refused listing page stands for a failed listing call, and a request past the last page is refused.
- Region and session: creating the AWS session is a boolean input (`sessionOk`). The region flag is carried in `Config` but has no effect on the model.
- `filepath.Walk`, `filepath.Rel`, `filepath.Ext` and `os.Open` are inputs. The walk is a sequence of entries, or a traversal error. Each entry carries its key and extension. The file contents are a map from path to bytes, and a path missing from it cannot be opened.
- The Walk callback ignores its error argument and reads `info.IsDir()`. When a path cannot be stat'ed, `info` is nil and the program crashes instead of taking the "Failed to list" exit. The model reports a failed walk as `TraversalError`, the exit the code intends. As written, the callback always returns nil, so `filepath.Walk` never returns an error and the "Failed to list" exit (l.44-47) is unreachable. When reading a subdirectory fails, the callback gets that directory's own info, `IsDir()` is true, and the subtree is silently skipped; with -s its objects are then deleted as orphans. The model expresses this as a successful walk without those entries.
- The `filepath.Rel` panic (l.71-74) cannot happen for paths found under the directory. The model takes the key as given.
- gzip compression is a parameter (`encoder`) that yields the compressed bytes, or nothing when copying into or closing the writer fails. Brotli compression does not exist in main.go.
- CSV parsing in `init` is not modelled: the records are written out in the model. The parse of the fixed literal cannot fail, so its panic path is omitted. The description column is never read and is not kept.
- Sync.SyncBucket (with Sync.VisitPage, which it calls, and Webload.Run, which calls it) requires that the listing service hands out each continuation token at most once (`DistinctTokens`). If a token were handed out twice, a request with it would lead back to an earlier page, and the loop of l.95-117 could run forever. The model does not cover that non-terminating case, and the termination proof of the loop relies on this assumption.
- Store.Bucket: upload calls are not logged, because the object map already shows their effect.
- Printing, `os.Exit` and the exit status are not modelled: every exit with status 1 is a `Failure` carrying its reason, and the printed messages are omitted.
- The Content-Encoding sent is the raw -c string, including "" when nothing is compressed. The model follows the code here, and does not omit the header for an uncompressed file.
- `-c br` crashes the program as written. The model's upload loop uses the corrected selector (see Findings).

## Findings

| source | as written | input that shows it | evidently intended | confidence | as-written member | corrected member |
|---|---|---|---|---|---|---|
| main.go:128-139 | For "br", the switch leaves the writer `w` nil, and `io.Copy(w, r)` or `w.Close()` then dereferences it, after the usage check accepted "br". | `webload -b B -d D -c br` on a directory holding one file | Compress with brotli, or reject "br" with an error | not executed | Compress.BrotliPassesUsageThenPanics | Compress.MaybeCompress |
