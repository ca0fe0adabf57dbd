/** The command line: the five flags and the check that decides whether
    the run proceeds or stops with a usage message. */
module Flags {
  import opened Common

  /** The compression selected with -c. */
  datatype Compression = NoCompression | Gzip | Brotli

  /** The -c value that selects each compression. */
  function CompressionName(c: Compression): string
  {
    match c
    case NoCompression => ""
    case Gzip => "gzip"
    case Brotli => "br"
  }

  /** The compression a -c value names, if any. */
  function ParseCompression(s: string): (c: Option<Compression>)
    ensures c.Some? ==> CompressionName(c.value) == s
    ensures c.None? ==> forall k :: CompressionName(k) != s
  {
    if s == "" then Some(NoCompression)
    else if s == "gzip" then Some(Gzip)
    else if s == "br" then Some(Brotli)
    else None
  }

  /** Parsing the name of a compression gives that compression back. */
  lemma ParseCompressionName(c: Compression)
    ensures ParseCompression(CompressionName(c)) == Some(c)
  {
  }

  /** The flags as given: -b, -r, -d, -s and -c. */
  datatype Flags = Flags(bucket: string, region: string, dir: string, sync: bool, compression: string)

  /** The flags of a run that passed validation. */
  datatype Config = Config(bucket: string, region: string, dir: string, sync: bool, compression: Compression)

  /** The usage check: the bucket and the directory must be given and -c
      must be empty, "gzip" or "br". */
  function Validate(f: Flags): (r: Result<Config>)
    ensures r.Failure? ==> r.error == UsageError
    ensures r.Success? <==> f.bucket != "" && f.dir != "" && exists c :: CompressionName(c) == f.compression
    ensures r.Success? ==>
      && r.value.bucket == f.bucket && r.value.region == f.region
      && r.value.dir == f.dir && r.value.sync == f.sync
      && CompressionName(r.value.compression) == f.compression
  {
    if f.bucket == "" || f.dir == "" || (f.compression != "" && f.compression != "gzip" && f.compression != "br") then
      Failure(UsageError)
    else
      var c := ParseCompression(f.compression);
      Success(Config(f.bucket, f.region, f.dir, f.sync, c.value))
  }

  /** The three rejected invocations named by the usage message: no bucket,
      no directory, or an unknown compression such as "zip". */
  lemma UsageExamples(bucket: string, dir: string, sync: bool)
    ensures Validate(Flags("", "", dir, sync, "")).Failure?
    ensures Validate(Flags(bucket, "", "", sync, "")).Failure?
    ensures bucket != "" && dir != "" ==> Validate(Flags(bucket, "", dir, sync, "zip")).Failure?
    ensures bucket != "" && dir != "" ==> Validate(Flags(bucket, "", dir, sync, "br")).Success?
  {
    if bucket != "" && dir != "" {
      assert CompressionName(Brotli) == "br";
    }
  }
}
