/**
 * How the controller obtains a PDF: the upload or the URL (with Google Drive
 * share links rewritten to direct downloads), then the `%PDF` magic check; and
 * the validation that precedes a fill.
 */
module PdfInput {
  import opened Wrappers
  import opened Text
  import Seqs
  import opened Streams

  // ---------------------------------------------------------------- magic number

  /** The first four bytes of every PDF file: "%PDF". */
  const PdfMagic: seq<byte> := [0x25, 0x50, 0x44, 0x46]

  predicate StartsWithPdfMagic(bytes: seq<byte>) {
    |bytes| >= 4 && bytes[..4] == PdfMagic
  }

  /**
   * `IsPdfFile(stream)`: reads up to four bytes from the position into a fresh
   * buffer; false when fewer than four could be read, else whether they are the
   * magic number. The position moves past what was read.
   */
  method IsPdfFile(stream: MemoryStream) returns (isPdf: bool)
    modifies stream
    ensures isPdf <==> StartsWithPdfMagic(old(stream.Remaining()))
    ensures isPdf <==> (|old(stream.Remaining())| >= 4 &&
      forall i :: 0 <= i < 4 ==> old(stream.Remaining())[i] as int == "%PDF"[i] as int)
    ensures stream.data == old(stream.data)
    ensures stream.position == old(stream.position) + (if |old(stream.Remaining())| < 4 then |old(stream.Remaining())| else 4)
  {
    var magic := new byte[4];
    var read := stream.Read(magic, 0, 4);
    if read != 4 {
      return false;
    }
    isPdf := magic[0] == 0x25 && magic[1] == 0x50 && magic[2] == 0x44 && magic[3] == 0x46;
    assert magic[..] == old(stream.Remaining())[..4];
  }

  // ---------------------------------------------------------- Google Drive links

  /**
   * The `NameValueCollection` that `HttpUtility.ParseQueryString` returns, as `Get`
   * reads it. The collection compares keys with `OrdinalIgnoreCase`, so each key
   * is held here folded to lower case, and a key given several times holds its
   * values joined by ','.
   */
  type Query = q: map<string, string> | forall k :: k in q ==> FoldCase(k) == k witness map[]

  /** `qs.Get(key)`: the value filed under `key` in any letter case, or null (`None`). */
  function QueryGet(q: Query, key: string): (v: Option<string>)
    ensures v.None? <==> forall k :: k in q ==> !EqualsIgnoreCase(k, key)
    ensures forall k :: k in q && EqualsIgnoreCase(k, key) ==> v == Some(q[k])
  {
    var f := FoldCase(key);
    assert forall k :: k in q ==> (EqualsIgnoreCase(k, key) <==> k == f) by {
      forall k | k in q
        ensures EqualsIgnoreCase(k, key) <==> k == f
      {
        FoldCaseDecides(k, key);
      }
    }
    if f in q then Some(q[f]) else None
  }

  /**
   * The collection `ParseQueryString` builds from the query's name/value pairs,
   * taken in order: a name already present, in any letter case, gets the new
   * value appended after a ','.
   */
  function ParsedQuery(pairs: seq<(string, string)>): Query
  {
    if pairs == [] then map[]
    else
      var q := ParsedQuery(pairs[..|pairs| - 1]);
      var (name, value) := pairs[|pairs| - 1];
      var f := FoldCase(name);
      FoldCaseIdempotent(name);
      q[f := if f in q then q[f] + "," + value else value]
  }

  /** The values of the pairs whose name equals `key` ignoring case, in order. */
  function ValuesNamed(pairs: seq<(string, string)>, key: string): seq<string>
  {
    if pairs == [] then []
    else
      ValuesNamed(pairs[..|pairs| - 1], key)
      + (if EqualsIgnoreCase(pairs[|pairs| - 1].0, key) then [pairs[|pairs| - 1].1] else [])
  }

  /** `parts` joined with `sep` between each two neighbours. */
  function Join(parts: seq<string>, sep: char): string
  {
    if parts == [] then []
    else if |parts| == 1 then parts[0]
    else Join(parts[..|parts| - 1], sep) + [sep] + parts[|parts| - 1]
  }

  /**
   * `qs.Get(key)` on the parsed query is null when no name equals `key` ignoring
   * case, and otherwise the values of all such names, in order, joined by ','.
   */
  lemma {:induction false} ParsedQueryGet(pairs: seq<(string, string)>, key: string)
    ensures var vals := ValuesNamed(pairs, key);
      QueryGet(ParsedQuery(pairs), key) == if vals == [] then None else Some(Join(vals, ','))
  {
    if pairs != [] {
      var init := pairs[..|pairs| - 1];
      var (name, value) := pairs[|pairs| - 1];
      ParsedQueryGet(init, key);
      FoldCaseDecides(name, key);
      var q0, f, g := ParsedQuery(init), FoldCase(name), FoldCase(key);
      var xs := ValuesNamed(init, key);
      assert ParsedQuery(pairs) == q0[f := if f in q0 then q0[f] + "," + value else value];
      assert QueryGet(q0, key) == if g in q0 then Some(q0[g]) else None;
      if EqualsIgnoreCase(name, key) {
        assert ValuesNamed(pairs, key) == xs + [value];
        if xs != [] {
          assert (xs + [value])[..|xs|] == xs;
          assert Join(xs + [value], ',') == Join(xs, ',') + "," + value;
        }
      } else {
        assert ValuesNamed(pairs, key) == xs;
      }
    }
  }

  /** The parts of a `System.Uri` the rewrite reads, with the query as `ParseQueryString` gives it. */
  datatype Uri = Uri(host: string, absolutePath: string, query: Query)

  const DriveHost := "drive.google.com"
  const DownloadPrefix := "https://drive.google.com/uc?export=download&id="

  /** The canonical direct-download URL of the Drive file `id`. */
  function DownloadUrl(id: string): (url: string)
    ensures |url| == |DownloadPrefix| + |id|
    ensures url[..|DownloadPrefix|] == DownloadPrefix && url[|DownloadPrefix|..] == id
  {
    DownloadPrefix + id
  }

  /** The path test of the rewrite, as the code writes it with `Array.IndexOf`. */
  predicate IsFileLink(seg: seq<string>) {
    |seg| >= 3 && Seqs.IndexOf(seg, "file") == 0 && Seqs.IndexOf(seg, "d") == 1
  }

  /** The path test means: the path starts with the segments `file` and `d`, and a third follows. */
  lemma FileLinkShape(seg: seq<string>)
    ensures IsFileLink(seg) <==> |seg| >= 3 && seg[0] == "file" && seg[1] == "d"
  {
    if |seg| >= 3 && seg[0] == "file" && seg[1] == "d" {
      assert seg[..1] == ["file"];
    }
  }

  /**
   * The file id a Drive URI carries: the third path segment of a
   * `/file/d/<id>/...` path; failing that, a non-blank `id` query parameter.
   */
  function DriveFileId(u: Uri): (id: Option<string>)
    ensures var seg := SplitRemoveEmpty(u.absolutePath, '/');
      && (IsFileLink(seg) ==> id == Some(seg[2]) && seg[2] != [] && '/' !in seg[2])
      && (!IsFileLink(seg) ==> id == match QueryGet(u.query, "id") {
            case Some(p) => if IsBlank(p) then None else Some(p)
            case None => None })
    ensures id.Some? ==> id.value != []
  {
    var seg := SplitRemoveEmpty(u.absolutePath, '/');
    if IsFileLink(seg) then Some(seg[2])
    else
      var idParam := QueryGet(u.query, "id");
      if idParam.Some? && !IsBlank(idParam.value) then idParam else None
  }

  /**
   * `NormalizeGoogleDriveUrl(url)`, with `parsed` the outcome of `new Uri(url)`
   * (`None` when the constructor throws). A URL whose host does not contain
   * "drive.google.com" in any letter case, or that does not parse, or that
   * carries no file id, comes back unchanged; any other becomes the canonical
   * download URL of its file id.
   */
  function NormalizeGoogleDriveUrl(url: string, parsed: Option<Uri>): (r: string)
    ensures parsed.None? ==> r == url
    ensures parsed.Some? && !ContainsIgnoreCase(parsed.value.host, DriveHost) ==> r == url
    ensures parsed.Some? && ContainsIgnoreCase(parsed.value.host, DriveHost) ==>
      r == match DriveFileId(parsed.value) { case Some(id) => DownloadUrl(id) case None => url }
  {
    match parsed
    case None => url
    case Some(u) =>
      if !ContainsIgnoreCase(u.host, DriveHost) then url
      else
        var seg := SplitRemoveEmpty(u.absolutePath, '/');
        if IsFileLink(seg) then
          DownloadUrl(seg[2])
        else
          var idParam := QueryGet(u.query, "id");
          if !IsNullOrWhiteSpace(idParam) then DownloadUrl(idParam.value) else url
  }

  /** The characters of an id that survive in a URL as they are: ASCII letters, digits, '-' and '_'. */
  predicate UrlSafeId(id: string) {
    forall c :: c in id ==> 'a' <= c <= 'z' || 'A' <= c <= 'Z' || '0' <= c <= '9' || c == '-' || c == '_'
  }

  /**
   * The canonical download URL is left as it is by a second rewrite. The parse
   * below is what `new Uri` and `ParseQueryString` give for it when the id is
   * URL-safe; an id holding '#', '&' or '%' would be parsed differently.
   */
  lemma CanonicalUrlIsFixedPoint(id: string)
    requires UrlSafeId(id)
    ensures NormalizeGoogleDriveUrl(DownloadUrl(id),
      Some(Uri("drive.google.com", "/uc", map["export" := "download", "id" := id]))) == DownloadUrl(id)
  {
    var u := Uri("drive.google.com", "/uc", map["export" := "download", "id" := id]);
    assert MatchesAt(u.host, DriveHost, 0);
    SplitSlash("uc");
    SplitFirstPart("uc", [], '/');
    assert "/" + "uc" == u.absolutePath && "uc" + [] == "uc";
    FileLinkShape(SplitRemoveEmpty(u.absolutePath, '/'));
  }

  /**
   * Off a share-link path, a Drive URL is rewritten to the download URL of its
   * `id` parameter whatever letter case the query spells the name in; a name
   * given several times contributes all its values, joined by ','.
   */
  lemma IdParameterInAnyCase(url: string, host: string, path: string, pairs: seq<(string, string)>)
    requires ContainsIgnoreCase(host, DriveHost)
    requires !IsFileLink(SplitRemoveEmpty(path, '/'))
    requires ValuesNamed(pairs, "id") != [] && !IsBlank(Join(ValuesNamed(pairs, "id"), ','))
    ensures NormalizeGoogleDriveUrl(url, Some(Uri(host, path, ParsedQuery(pairs))))
      == DownloadUrl(Join(ValuesNamed(pairs, "id"), ','))
  {
    ParsedQueryGet(pairs, "id");
  }

  /** The path `/open` is no share link. */
  lemma OpenIsNoFileLink()
    ensures !IsFileLink(SplitRemoveEmpty("/open", '/'))
  {
    SplitSlash("open");
    SplitFirstPart("open", [], '/');
    assert "/" + "open" == "/open" && "open" + [] == "open";
    FileLinkShape(SplitRemoveEmpty("/open", '/'));
  }

  /** `https://drive.google.com/open?ID=abc` is rewritten to the download URL of "abc". */
  lemma UpperCaseIdKey()
    ensures NormalizeGoogleDriveUrl("https://drive.google.com/open?ID=abc",
      Some(Uri(DriveHost, "/open", ParsedQuery([("ID", "abc")])))) == DownloadUrl("abc")
  {
    assert MatchesAt(DriveHost, DriveHost, 0);
    OpenIsNoFileLink();
    var pairs := [("ID", "abc")];
    assert pairs[..0] == [];
    assert EqualsIgnoreCase("ID", "id");
    assert ValuesNamed(pairs, "id") == ["abc"];
    assert Join(["abc"], ',') == "abc" && "abc"[0] == 'a' && !IsWhiteSpace('a');
    IdParameterInAnyCase("https://drive.google.com/open?ID=abc", DriveHost, "/open", pairs);
  }

  /** Two values of the `id` parameter, the second spelled `Id`, reach the rewrite as "a,b". */
  lemma RepeatedIdKey()
    ensures QueryGet(ParsedQuery([("id", "a"), ("Id", "b")]), "id") == Some("a,b")
  {
    var pairs := [("id", "a"), ("Id", "b")];
    assert pairs[..1] == [("id", "a")] && pairs[..1][..0] == [];
    assert EqualsIgnoreCase("id", "id") && EqualsIgnoreCase("Id", "id");
    assert ValuesNamed(pairs[..1], "id") == ["a"];
    assert ValuesNamed(pairs, "id") == ["a", "b"];
    assert ["a", "b"][..1] == ["a"];
    assert Join(["a", "b"], ',') == "a" + [','] + "b" == "a,b";
    ParsedQueryGet(pairs, "id");
  }

  /** Two words between slashes at the start of a path are its first two segments. */
  lemma SplitTwoWords(w1: string, w2: string, tail: string)
    requires w1 != [] && '/' !in w1 && w2 != [] && '/' !in w2
    ensures SplitRemoveEmpty("/" + w1 + "/" + w2 + "/" + tail, '/') == [w1, w2] + SplitRemoveEmpty(tail, '/')
  {
    var u := w2 + "/" + tail;
    assert "/" + w1 + "/" + w2 + "/" + tail == "/" + w1 + "/" + u;
    SlashWord(w1, u);
    SplitWord(w2, tail);
  }

  /** The segments of a share-link path `/file/d/<id>/...` are `file`, `d`, `<id>`, ... */
  lemma SharePathSegments(id: string, rest: string)
    requires id != [] && '/' !in id && (rest == [] || rest[0] == '/')
    ensures var seg := SplitRemoveEmpty("/file/d/" + id + rest, '/');
      |seg| >= 3 && seg[0] == "file" && seg[1] == "d" && seg[2] == id
  {
    assert "/file/d/" + id + rest == "/" + "file" + "/" + "d" + "/" + (id + rest);
    SplitTwoWords("file", "d", id + rest);
    SplitFirstPart(id, rest, '/');
  }

  /**
   * A share link `/file/d/<id>` or `/file/d/<id>/...` carries the id `<id>`,
   * whatever its query says, and on a Drive host it is rewritten to the download
   * URL of that id.
   */
  lemma ShareLinkId(url: string, host: string, id: string, rest: string, query: Query)
    requires id != [] && '/' !in id && (rest == [] || rest[0] == '/')
    ensures DriveFileId(Uri(host, "/file/d/" + id + rest, query)) == Some(id)
    ensures ContainsIgnoreCase(host, DriveHost) ==>
      NormalizeGoogleDriveUrl(url, Some(Uri(host, "/file/d/" + id + rest, query))) == DownloadUrl(id)
  {
    SharePathSegments(id, rest);
    FileLinkShape(SplitRemoveEmpty("/file/d/" + id + rest, '/'));
  }

  // ------------------------------------------------------------ source selection

  /** Where the PDF comes from: a (normalised) URL, or the bytes of the upload. */
  datatype Source = FromUrl(url: string) | FromUpload(upload: seq<byte>)

  /** The exceptions of `ValidateAndLoadPdfFileAsync`. */
  datatype LoadError =
    | SourceRequired      // "pdfUrl oder pdf erforderlich"
    | DownloadFailed(reason: string)
    | NotAPdf             // "Quelle ist keine PDF-Datei"

  /**
   * The branch of `ValidateAndLoadPdfFileAsync` that picks the source. A URL that
   * is not null or white space wins, even when a file was uploaded too; the upload
   * is used only when the URL is blank; with neither the request fails.
   */
  function SelectSource(pdf: Option<seq<byte>>, pdfUrl: Option<string>, parseUri: string -> Option<Uri>): (r: Result<Source, LoadError>)
    ensures !IsNullOrWhiteSpace(pdfUrl) ==> r.Success? && r.value.FromUrl?
    ensures IsNullOrWhiteSpace(pdfUrl) && pdf.Some? ==> r == Success(FromUpload(pdf.value))
    ensures IsNullOrWhiteSpace(pdfUrl) && pdf.None? ==> r == Failure(SourceRequired)
    ensures r.Success? && r.value.FromUrl? ==>
      var trimmed := Trim(pdfUrl.value); r.value.url == NormalizeGoogleDriveUrl(trimmed, parseUri(trimmed))
  {
    if !IsNullOrWhiteSpace(pdfUrl) then
      var trimmed := Trim(pdfUrl.value);
      Success(FromUrl(NormalizeGoogleDriveUrl(trimmed, parseUri(trimmed))))
    else if pdf.Some? then Success(FromUpload(pdf.value))
    else Failure(SourceRequired)
  }

  /** The bytes the chosen source delivers; `download` stands for the HTTP GET. */
  function SourceBytes(pdf: Option<seq<byte>>, pdfUrl: Option<string>, parseUri: string -> Option<Uri>,
                       download: string -> Result<seq<byte>, string>): Result<seq<byte>, LoadError>
  {
    match SelectSource(pdf, pdfUrl, parseUri)
    case Failure(e) => Failure(e)
    case Success(FromUpload(bytes)) => Success(bytes)
    case Success(FromUrl(url)) =>
      match download(url)
      case Success(bytes) => Success(bytes)
      case Failure(reason) => Failure(DownloadFailed(reason))
  }

  /** Writing into an empty stream leaves exactly what was written. */
  lemma OverwriteEmpty(bytes: seq<byte>)
    ensures Overwrite([], 0, bytes) == bytes
  {
    var r := Overwrite([], 0, bytes);
    assert r == r[0..|bytes|];
  }

  /**
   * `ValidateAndLoadPdfFileAsync(pdf, pdfUrl)`: copies the chosen source into a
   * new stream, rejects it unless it starts with "%PDF", and hands it back
   * rewound to the start.
   */
  method ValidateAndLoadPdfFile(pdf: Option<seq<byte>>, pdfUrl: Option<string>, parseUri: string -> Option<Uri>,
                                download: string -> Result<seq<byte>, string>)
    returns (r: Result<MemoryStream, LoadError>)
    ensures var src := SourceBytes(pdf, pdfUrl, parseUri, download);
      && (r.Success? <==> src.Success? && StartsWithPdfMagic(src.value))
      && (r.Success? ==> r.value.data == src.value && r.value.position == 0)
      && (r.Failure? && src.Failure? ==> r.error == src.error)
      && (r.Failure? && src.Success? ==> r.error == NotAPdf)
    ensures r.Success? ==> fresh(r.value)
  {
    ghost var src := SourceBytes(pdf, pdfUrl, parseUri, download);
    var inStream := new MemoryStream();
    if !IsNullOrWhiteSpace(pdfUrl) {
      var trimmed := Trim(pdfUrl.value);
      var url := NormalizeGoogleDriveUrl(trimmed, parseUri(trimmed));
      assert SelectSource(pdf, pdfUrl, parseUri) == Success(FromUrl(url));
      match download(url) {
        case Failure(reason) =>
          assert src == Failure(DownloadFailed(reason));
          return Failure(DownloadFailed(reason));
        case Success(bytes) =>
          assert src == Success(bytes);
          inStream.Write(bytes);
      }
    } else if pdf.Some? {
      assert src == Success(pdf.value);
      inStream.Write(pdf.value);
    } else {
      assert src == Failure(SourceRequired);
      return Failure(SourceRequired);
    }
    assert inStream.data == src.value by {
      OverwriteEmpty(src.value);
    }
    inStream.Seek(0);
    var isPdf := IsPdfFile(inStream);
    if !isPdf {
      return Failure(NotAPdf);
    }
    inStream.Seek(0);
    return Success(inStream);
  }

  // ------------------------------------------------------------- fill validation

  /** Why a fill request is refused before any document is opened. */
  datatype FillError =
    | FieldsRequired      // "fields (JSON) erforderlich"
    | InvalidJson(message: string)
    | LoadFailed(error: LoadError)

  /**
   * The steps of the `Fill` action before the document is opened: a null or
   * white-space `fields` payload is refused first, before any PDF is loaded; a
   * JSON `null` stands for no values; then the PDF is loaded. `parseJson` stands
   * for `JsonSerializer.Deserialize<Dictionary<string, string>>`.
   */
  method PrepareFill(pdf: Option<seq<byte>>, pdfUrl: Option<string>, fields: Option<string>,
                     parseJson: string -> Result<Option<seq<(string, string)>>, string>,
                     parseUri: string -> Option<Uri>, download: string -> Result<seq<byte>, string>)
    returns (r: Result<(MemoryStream, seq<(string, string)>), FillError>)
    ensures IsNullOrWhiteSpace(fields) ==> r == Failure(FieldsRequired)
    ensures !IsNullOrWhiteSpace(fields) && parseJson(fields.value).Failure? ==>
      r == Failure(InvalidJson(parseJson(fields.value).error))
    ensures !IsNullOrWhiteSpace(fields) && parseJson(fields.value).Success? ==>
      var src := SourceBytes(pdf, pdfUrl, parseUri, download);
      && (r.Success? <==> src.Success? && StartsWithPdfMagic(src.value))
      && (r.Success? ==> r.value.0.data == src.value && r.value.0.position == 0
                         && r.value.1 == parseJson(fields.value).value.GetOr([]))
      && (r.Failure? ==> r.error == LoadFailed(if src.Failure? then src.error else NotAPdf))
  {
    if IsNullOrWhiteSpace(fields) {
      return Failure(FieldsRequired);
    }
    var fieldValues: seq<(string, string)>;
    match parseJson(fields.value) {
      case Failure(message) =>
        return Failure(InvalidJson(message));
      case Success(parsed) =>
        fieldValues := parsed.GetOr([]);
    }
    var file := ValidateAndLoadPdfFile(pdf, pdfUrl, parseUri, download);
    match file {
      case Failure(e) =>
        return Failure(LoadFailed(e));
      case Success(stream) =>
        return Success((stream, fieldValues));
    }
  }
}
