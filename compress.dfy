/** `maybeCompress`: the selector that passes a file's contents through
    unchanged or through a compressing writer. The gzip encoder is a
    library the model does not contain; it is a parameter `encoder` that
    yields the compressed bytes, or nothing when copying into the writer or
    closing it fails. */
module Compress {
  import opened Common
  import opened Flags

  /** What `maybeCompress` in main.go can do: produce a body, report an
      error, or crash on the nil writer left by the "br" case. */
  datatype Outcome = Produced(body: Bytes) | Failed(error: Error) | NilWriterPanic

  /** `maybeCompress` as written: for "br" no writer is created, and the
      copy into the nil writer (or, for an empty file, the close of it)
      panics. */
  function MaybeCompressAsWritten(body: Bytes, c: Compression, encoder: Bytes -> Option<Bytes>): (o: Outcome)
    ensures o == NilWriterPanic <==> c == Brotli
    ensures c == NoCompression ==> o == Produced(body)
  {
    match c
    case NoCompression => Produced(body)
    case Gzip => if encoder(body).Some? then Produced(encoder(body).value) else Failed(CompressionError)
    case Brotli => NilWriterPanic
  }

  /** `maybeCompress` with the "br" case reporting that no encoder exists
      instead of crashing. */
  function MaybeCompress(body: Bytes, c: Compression, encoder: Bytes -> Option<Bytes>): (r: Result<Bytes>)
    ensures c == NoCompression ==> r == Success(body)
    ensures c == Brotli ==> r == Failure(UnsupportedCompression)
    ensures c == Gzip ==> (r.Success? <==> encoder(body).Some?)
    ensures c == Gzip && r.Success? ==> r.value == encoder(body).value
    ensures r.Failure? ==> r.error == CompressionError || r.error == UnsupportedCompression
  {
    match c
    case NoCompression => Success(body)
    case Gzip => if encoder(body).Some? then Success(encoder(body).value) else Failure(CompressionError)
    case Brotli => Failure(UnsupportedCompression)
  }

  /** The corrected selector behaves as the Go code does for every
      selection the Go code handles without crashing. */
  lemma MaybeCompressAgrees(body: Bytes, c: Compression, encoder: Bytes -> Option<Bytes>)
    requires c != Brotli
    ensures MaybeCompress(body, c, encoder).Success? <==> MaybeCompressAsWritten(body, c, encoder).Produced?
    ensures MaybeCompress(body, c, encoder).Success? ==>
      MaybeCompress(body, c, encoder).value == MaybeCompressAsWritten(body, c, encoder).body
  {
  }

  /** An invocation with -c br passes the usage check and then crashes on
      the first file it compresses. */
  lemma BrotliPassesUsageThenPanics(f: Flags, body: Bytes, encoder: Bytes -> Option<Bytes>)
    requires f.bucket != "" && f.dir != "" && f.compression == "br"
    ensures Validate(f).Success?
    ensures MaybeCompressAsWritten(body, Validate(f).value.compression, encoder) == NilWriterPanic
  {
    assert CompressionName(Brotli) == f.compression;
  }

  /** What a reader of the object does with its Content-Encoding header:
      nothing for an empty one, the gzip decoder for "gzip". */
  function DecodeBody(encoding: string, data: Bytes, decoder: Bytes -> Option<Bytes>): Option<Bytes>
  {
    if encoding == "" then Some(data)
    else if encoding == "gzip" then decoder(data)
    else None
  }

  /** The Content-Encoding sent with a body (the -c value) tells a reader
      how to get the file's contents back, given a gzip decoder that undoes
      the encoder. */
  lemma CompressRoundTrip(body: Bytes, c: Compression, encoder: Bytes -> Option<Bytes>, decoder: Bytes -> Option<Bytes>)
    requires forall b :: encoder(b).Some? ==> decoder(encoder(b).value) == Some(b)
    requires MaybeCompress(body, c, encoder).Success?
    ensures DecodeBody(CompressionName(c), MaybeCompress(body, c, encoder).value, decoder) == Some(body)
  {
  }
}
