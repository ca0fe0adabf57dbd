/** The extension-to-content-type table that `init` builds from a
    tab-separated literal of (extension, description, type) records, and
    the lookup the upload loop performs with a file's extension. The
    description column is never read, so a record keeps only the two
    columns `init` stores. */
module Mime {
  import opened Common

  /** One row of the table literal: its extension and its content type. */
  datatype Record = Record(ext: string, mimeType: string)

  /** The records of the literal (l.160-228), in their order of
      appearance, written in parts of ten records. */
  function MimeRecords(): seq<Record>
  {
    RecordsAacToCsh() + RecordsCssToIco() + RecordsIcsToMp3() + RecordsMpegToPng() + RecordsPdfToTif() + RecordsTiffToWoff2() + RecordsXhtmlTo7z()
  }

  function RecordsAacToCsh(): seq<Record>
  {
    [
      Record(".aac", "audio/aac"),
      Record(".abw", "application/x-abiword"),
      Record(".arc", "application/x-freearc"),
      Record(".avi", "video/x-msvideo"),
      Record(".azw", "application/vnd.amazon.ebook"),
      Record(".bin", "application/octet-stream"),
      Record(".bmp", "image/bmp"),
      Record(".bz", "application/x-bzip"),
      Record(".bz2", "application/x-bzip2"),
      Record(".csh", "application/x-csh")
    ]
  }

  function RecordsCssToIco(): seq<Record>
  {
    [
      Record(".css", "text/css"),
      Record(".csv", "text/csv"),
      Record(".doc", "application/msword"),
      Record(".docx", "application/vnd.openxmlformats-officedocument.wordprocessingml.document"),
      Record(".eot", "application/vnd.ms-fontobject"),
      Record(".epub", "application/epub+zip"),
      Record(".gif", "image/gif"),
      Record(".htm", "text/html"),
      Record(".html", "text/html"),
      Record(".ico", "image/vnd.microsoft.icon")
    ]
  }

  function RecordsIcsToMp3(): seq<Record>
  {
    [
      Record(".ics", "text/calendar"),
      Record(".jar", "application/java-archive"),
      Record(".jpeg", "image/jpeg"),
      Record(".jpg", "image/jpeg"),
      Record(".js", "text/javascript"),
      Record(".json", "application/json"),
      Record(".mid", "audio/midi audio/x-midi"),
      Record(".midi", "audio/midi audio/x-midi"),
      Record(".mjs", "application/javascript"),
      Record(".mp3", "audio/mpeg")
    ]
  }

  function RecordsMpegToPng(): seq<Record>
  {
    [
      Record(".mpeg", "video/mpeg"),
      Record(".mpkg", "application/vnd.apple.installer+xml"),
      Record(".odp", "application/vnd.oasis.opendocument.presentation"),
      Record(".ods", "application/vnd.oasis.opendocument.spreadsheet"),
      Record(".odt", "application/vnd.oasis.opendocument.text"),
      Record(".oga", "audio/ogg"),
      Record(".ogv", "video/ogg"),
      Record(".ogx", "application/ogg"),
      Record(".otf", "font/otf"),
      Record(".png", "image/png")
    ]
  }

  function RecordsPdfToTif(): seq<Record>
  {
    [
      Record(".pdf", "application/pdf"),
      Record(".ppt", "application/vnd.ms-powerpoint"),
      Record(".pptx", "application/vnd.openxmlformats-officedocument.presentationml.presentation"),
      Record(".rar", "application/x-rar-compressed"),
      Record(".rtf", "application/rtf"),
      Record(".sh", "application/x-sh"),
      Record(".svg", "image/svg+xml"),
      Record(".swf", "application/x-shockwave-flash"),
      Record(".tar", "application/x-tar"),
      Record(".tif", "image/tiff")
    ]
  }

  function RecordsTiffToWoff2(): seq<Record>
  {
    [
      Record(".tiff", "image/tiff"),
      Record(".ttf", "font/ttf"),
      Record(".txt", "text/plain"),
      Record(".vsd", "application/vnd.visio"),
      Record(".wav", "audio/wav"),
      Record(".weba", "audio/webm"),
      Record(".webm", "video/webm"),
      Record(".webp", "image/webp"),
      Record(".woff", "font/woff"),
      Record(".woff2", "font/woff2")
    ]
  }

  function RecordsXhtmlTo7z(): seq<Record>
  {
    [
      Record(".xhtml", "application/xhtml+xml"),
      Record(".xls", "application/vnd.ms-excel"),
      Record(".xlsx", "application/vnd.openxmlformats-officedocument.spreadsheetml.sheet"),
      Record(".xml", "application/xml"),
      Record(".xul", "application/vnd.mozilla.xul+xml"),
      Record(".zip", "application/zip"),
      Record(".3gp", "video/3gpp"),
      Record(".3g2", "video/3gpp2"),
      Record(".7z", "application/x-7z-compressed")
    ]
  }

  /** The table after storing every record in order: a later record with
      the same extension replaces an earlier one. */
  function TableOf(rs: seq<Record>): map<string, string>
  {
    if rs == [] then map[]
    else TableOf(rs[..|rs| - 1])[rs[|rs| - 1].ext := rs[|rs| - 1].mimeType]
  }

  /** Index of the last record carrying `ext`. */
  ghost predicate IsLastWith(rs: seq<Record>, ext: string, i: int)
  {
    && 0 <= i < |rs|
    && rs[i].ext == ext
    && forall j :: i < j < |rs| ==> rs[j].ext != ext
  }

  /** The loop of `init`: one map update per record. */
  method BuildMimeTable(rs: seq<Record>) returns (table: map<string, string>)
    ensures table == TableOf(rs)
  {
    table := map[];
    var i := 0;
    while i < |rs|
      invariant 0 <= i <= |rs|
      invariant table == TableOf(rs[..i])
    {
      assert rs[..i + 1][..i] == rs[..i];
      table := table[rs[i].ext := rs[i].mimeType];
      i := i + 1;
    }
    assert rs[..i] == rs;
  }

  /** The content type sent with a file: the table's entry for its
      extension, or no content type at all for an unknown extension. */
  function ContentType(table: map<string, string>, ext: string): (ct: Option<string>)
    ensures ct.Some? <==> ext in table
    ensures ct.Some? ==> ct.value == table[ext]
  {
    if ext in table then Some(table[ext]) else None
  }

  /** An extension is in the table exactly when some record carries it. */
  lemma {:induction false} TableOfDomain(rs: seq<Record>, ext: string)
    ensures ext in TableOf(rs) <==> exists i :: 0 <= i < |rs| && rs[i].ext == ext
  {
    if rs != [] {
      var init := rs[..|rs| - 1];
      TableOfDomain(init, ext);
      if ext in TableOf(init) {
        var i :| 0 <= i < |init| && init[i].ext == ext;
        assert rs[i].ext == ext;
      }
      if exists i :: 0 <= i < |rs| && rs[i].ext == ext {
        var i :| 0 <= i < |rs| && rs[i].ext == ext;
        if i < |init| {
          assert init[i].ext == ext;
        }
      }
    }
  }

  /** The last record carrying an extension decides its content type. */
  lemma {:induction false} TableOfLastWins(rs: seq<Record>, ext: string, i: int)
    requires IsLastWith(rs, ext, i)
    ensures ext in TableOf(rs) && TableOf(rs)[ext] == rs[i].mimeType
  {
    var n := |rs| - 1;
    if i < n {
      var init := rs[..n];
      assert IsLastWith(init, ext, i);
      TableOfLastWins(init, ext, i);
    }
  }

  /** Storing two runs of records: the second run's entries win. */
  lemma {:induction false} TableOfAppend(a: seq<Record>, b: seq<Record>)
    ensures TableOf(a + b) == TableOf(a) + TableOf(b)
    decreases |b|
  {
    if b == [] {
      assert a + b == a;
    } else {
      var init := b[..|b| - 1];
      assert (a + b)[..|a + b| - 1] == a + init;
      TableOfAppend(a, init);
    }
  }

  /** An extension no record of a run carries is not stored by it. */
  lemma Absent(rs: seq<Record>, ext: string)
    requires forall j :: 0 <= j < |rs| ==> rs[j].ext != ext
    ensures ext !in TableOf(rs)
  {
    TableOfDomain(rs, ext);
  }

  /** The table of the literal is the union of the tables of its parts,
      a later part winning. */
  lemma TableOfMimeRecords()
    ensures TableOf(MimeRecords()) ==
      TableOf(RecordsAacToCsh()) + TableOf(RecordsCssToIco()) + TableOf(RecordsIcsToMp3()) + TableOf(RecordsMpegToPng()) + TableOf(RecordsPdfToTif()) + TableOf(RecordsTiffToWoff2()) + TableOf(RecordsXhtmlTo7z())
  {
    TableOfAppend(RecordsAacToCsh(), RecordsCssToIco());
    TableOfAppend(RecordsAacToCsh() + RecordsCssToIco(), RecordsIcsToMp3());
    TableOfAppend(RecordsAacToCsh() + RecordsCssToIco() + RecordsIcsToMp3(), RecordsMpegToPng());
    TableOfAppend(RecordsAacToCsh() + RecordsCssToIco() + RecordsIcsToMp3() + RecordsMpegToPng(), RecordsPdfToTif());
    TableOfAppend(RecordsAacToCsh() + RecordsCssToIco() + RecordsIcsToMp3() + RecordsMpegToPng() + RecordsPdfToTif(), RecordsTiffToWoff2());
    TableOfAppend(RecordsAacToCsh() + RecordsCssToIco() + RecordsIcsToMp3() + RecordsMpegToPng() + RecordsPdfToTif() + RecordsTiffToWoff2(), RecordsXhtmlTo7z());
  }

  /** No record from Aac to Csh carries ".xyz123". */
  lemma AbsentFromAacToCsh()
    ensures ".xyz123" !in TableOf(RecordsAacToCsh())
  {
    Absent(RecordsAacToCsh(), ".xyz123");
  }

  /** No record from Css to Ico carries ".xyz123". */
  lemma AbsentFromCssToIco()
    ensures ".xyz123" !in TableOf(RecordsCssToIco())
  {
    Absent(RecordsCssToIco(), ".xyz123");
  }

  /** No record from Ics to Mp3 carries ".xyz123" or ".html". */
  lemma AbsentFromIcsToMp3()
    ensures ".xyz123" !in TableOf(RecordsIcsToMp3()) && ".html" !in TableOf(RecordsIcsToMp3())
  {
    Absent(RecordsIcsToMp3(), ".xyz123");
    Absent(RecordsIcsToMp3(), ".html");
  }

  /** No record from Mpeg to Png carries ".xyz123" or ".html". */
  lemma AbsentFromMpegToPng()
    ensures ".xyz123" !in TableOf(RecordsMpegToPng()) && ".html" !in TableOf(RecordsMpegToPng())
  {
    Absent(RecordsMpegToPng(), ".xyz123");
    Absent(RecordsMpegToPng(), ".html");
  }

  /** No record from Pdf to Tif carries ".xyz123" or ".html". */
  lemma AbsentFromPdfToTif()
    ensures ".xyz123" !in TableOf(RecordsPdfToTif()) && ".html" !in TableOf(RecordsPdfToTif())
  {
    Absent(RecordsPdfToTif(), ".xyz123");
    Absent(RecordsPdfToTif(), ".html");
  }

  /** No record from Tiff to Woff2 carries ".xyz123" or ".html". */
  lemma AbsentFromTiffToWoff2()
    ensures ".xyz123" !in TableOf(RecordsTiffToWoff2()) && ".html" !in TableOf(RecordsTiffToWoff2())
  {
    Absent(RecordsTiffToWoff2(), ".xyz123");
    Absent(RecordsTiffToWoff2(), ".html");
  }

  /** No record from Xhtml to 7z carries ".xyz123" or ".html". */
  lemma AbsentFromXhtmlTo7z()
    ensures ".xyz123" !in TableOf(RecordsXhtmlTo7z()) && ".html" !in TableOf(RecordsXhtmlTo7z())
  {
    Absent(RecordsXhtmlTo7z(), ".xyz123");
    Absent(RecordsXhtmlTo7z(), ".html");
  }

  /** A file named `index.html` is uploaded as "text/html": the record on
      the 19th record of the literal (main.go:178) is the last one for ".html". */
  lemma HtmlIsTextHtml()
    ensures ContentType(TableOf(MimeRecords()), ".html") == Some("text/html")
  {
    TableOfMimeRecords();
    TableOfLastWins(RecordsCssToIco(), ".html", 8);
    AbsentFromIcsToMp3();
    AbsentFromMpegToPng();
    AbsentFromPdfToTif();
    AbsentFromTiffToWoff2();
    AbsentFromXhtmlTo7z();
  }

  /** An extension no record carries gets no content type. */
  lemma UnknownExtensionHasNoType()
    ensures ContentType(TableOf(MimeRecords()), ".xyz123") == None
  {
    TableOfMimeRecords();
    AbsentFromAacToCsh();
    AbsentFromCssToIco();
    AbsentFromIcsToMp3();
    AbsentFromMpegToPng();
    AbsentFromPdfToTif();
    AbsentFromTiffToWoff2();
    AbsentFromXhtmlTo7z();
  }
}
