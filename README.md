# PDFfill, modelled in Dafny

PDFfill is a small ASP.NET service built on iText. It fills the AcroForm fields of
a PDF and lists them. Both actions take the PDF either as an upload or from a URL.
A Google Drive share link is rewritten to its direct-download URL first. The bytes
must start with the `%PDF` magic number. This project models the core of that
service:

- `PdfFieldExtensions` holds the four extension methods on a form field:
  - `SetNewValue` writes a value, and a `/Btn` button (checkbox, radio or push button) gets "Yes"/"Off" through `bool.TryParse`;
  - `GetFillOptions` gives the labels of a choice field's `/Opt` entries;
  - `GetPageNumber` gives the page of the first widget;
  - `GetPosition` gives the rectangle of the first widget.
- `PdfController` holds `FillFieldsAsync` and `GetFieldInfos`, applied to an open
  document. `FillFieldsAsync` gets or creates the form, sets `NeedAppearances`,
  writes each requested field, skips unknown names and may flatten.
  `GetFieldInfos` builds one descriptor per field.
- `PdfInput` holds:
  - `IsPdfFile` on a memory stream;
  - `NormalizeGoogleDriveUrl`;
  - the source selection and loading of `ValidateAndLoadPdfFileAsync`;
  - the checks the `Fill` action makes before a document is opened.
- `PdfModel` holds the iText objects these methods touch. A field is a class whose
  value is updated in place. The form is a class holding the name-to-field map,
  the enumeration order and the `NeedAppearances` flag. The document is a class
  with its page tree and its optional AcroForm.
- `DotNetBool`, `Text`, `Seqs` and `Streams` model the .NET library behaviour the
  code relies on:
  - `bool.TryParse`;
  - `char.IsWhiteSpace`, `string.Trim`, `string.Split` with `RemoveEmptyEntries`,
    and the `OrdinalIgnoreCase` `Contains`;
  - `Array.IndexOf`;
  - `MemoryStream` with `Read`, `Write` and `Position`.

Some behaviour of the code is easy to misread, and the model keeps it as written:

- An `/Opt` entry that is a one-element array `[display]` gets the label "". The
  comment at `PDFfill/PdfFieldExtensions.cs:35` mentions that form, but the code
  at line 37 reads an array only when it has exactly two elements, and at line 39
  it takes the entry itself only when it is a string.
- In a two-element entry, a display string that is present but empty gives "". The
  export value is used only when the display entry is not a string.
- The page number is iText's 1-based page index, so it is 0 for a widget page that
  is not in the page tree.
- The type of a field is the name of its form type: `/Tx`, `/Btn`, `/Ch`, `/Sig`
  or any other name the field carries.

## Model

| member | source | states |
|---|---|---|
| DotNetBool.TryParse | PDFfill/PdfFieldExtensions.cs:12 | `bool.TryParse` yields true, false or failure exactly when the input, trimmed of white space and NULs, reads "true", "false" (any ASCII case) or neither. Recognising the literal before trimming does not change this. |
| DotNetBool.TrimWhiteSpaceAndNull | PDFfill/PdfFieldExtensions.cs:12 | `bool.TryParse` cuts only white space and NUL characters, and only from the ends. The piece it keeps starts and ends with neither. |
| PdfFieldExtensions.CoercedValue | PDFfill/PdfFieldExtensions.cs:10-17 | A `/Btn` button field stores "Off" exactly when the input parses as false, and "Yes" otherwise, garbage included. Any other field stores the input verbatim. |
| PdfFieldExtensions.SetNewValue | PDFfill/PdfFieldExtensions.cs:8-18 | The field's new value is the coerced input. |
| PdfFieldExtensions.GetFillOptions | PDFfill/PdfFieldExtensions.cs:20-43 | The result is null exactly for a field that is not a choice field, or whose option list is missing or empty. Otherwise it is a new array with one label per option, in the order of the list. |
| PdfFieldExtensions.LabelsAt | PDFfill/PdfFieldExtensions.cs:30-42 | The label list has as many entries as the option list, and label i depends on option i alone. |
| PdfFieldExtensions.PairsGiveDisplayLabels | PDFfill/PdfFieldExtensions.cs:37-38 | A list made only of `[export, display]` pairs yields its display strings, in order. |
| PdfFieldExtensions.OptionLabelRules | PDFfill/PdfFieldExtensions.cs:34-39 | For any entry: a two-element array gives its display string, else its export string, else "". Any other entry, arrays of every other size included, is its own label when it is a string and "" otherwise. |
| PdfFieldExtensions.FillOptionsAgree | PDFfill/PdfFieldExtensions.cs:20-43 | The array `GetFillOptions` builds in its loop equals the option-label function, null cases included. |
| PdfFieldExtensions.GetPageNumber | PDFfill/PdfFieldExtensions.cs:45-58 | The result is -1 exactly when there is no widget or the first widget has no page, and 0 exactly when that page is not in the page tree. Otherwise it is n, with page n (1-based) being the first widget's page. |
| PdfFieldExtensions.GetPosition | PDFfill/PdfFieldExtensions.cs:60-81 | The rectangle has 0 or 4 components. It has 4 exactly when the first widget's rectangle has 4, and then it is that rectangle in order. |
| PdfModel.PdfDocument.GetPageNumber | PDFfill/PdfFieldExtensions.cs:55 | The page number is in 0..pages. It is 0 exactly for a page not in the tree, and otherwise names the page's first occurrence. |
| PdfModel.PdfDocument.GetAcroForm | PDFfill/Program.cs:60 | An existing form is returned unchanged. Otherwise, when creation is asked for, a fresh empty valid form is attached to the document and returned. |
| PdfModel.Form.SetNeedAppearances | PDFfill/Program.cs:68 | Sets the flag and changes no field. |
| PdfModel.Form.FlattenFields | PDFfill/Program.cs:80-83 | After flattening the form has no fields left, and it stays valid. |
| PdfModel.FormTypeName | PDFfill/Program.cs:108 | The reported type is the tag's PDF name after a slash. It is "/Tx", "/Btn", "/Ch" or "/Sig" exactly for those four field types. |
| PdfModel.FormTypeNameInjective | PDFfill/Program.cs:108 | Distinct tags are reported under distinct type names, because each PDF name has one representation. |
| PdfModel.FormField.IsReadOnly | PDFfill/Program.cs:113 | A field is read-only exactly when bit position 1 of its `/Ff` flags (value 1) is set. |
| PdfModel.FormField.IsRequired | PDFfill/Program.cs:114 | A field is required exactly when bit position 2 of its `/Ff` flags (value 2) is set. |
| PdfController.FillFields | PDFfill/Program.cs:49-87 | The form exists (the same object, or a fresh one when the document had none) and `NeedAppearances` is set. Every field named in the request holds the coerced requested value, and every other field keeps its value. Flattening leaves no fields. Without flattening the same fields stay in the same order. |
| PdfController.SetNewValues | PDFfill/Program.cs:70-78 | After the loop over the request, each field holds the coerced value of the last pair naming it, or its old value when no pair does. Names that are no field are skipped. |
| PdfController.RequestedValueIsLookup | PDFfill/Program.cs:72-75 | For a request whose names are unique (a dictionary), the value taken for a name is v exactly when the pair (name, v) is in the request. |
| PdfController.UnrequestedIsNone | PDFfill/Program.cs:72-78 | A name that the request does not mention takes no value from it. |
| PdfController.GetFieldInfos | PDFfill/Program.cs:90-120 | No AcroForm gives the empty list. Otherwise there is one descriptor per field, in the form's order, carrying that field's name, type name, current value, options, page, rectangle and flags. No two descriptors share a name. |
| PdfController.DescribeAll | PDFfill/Program.cs:102-117 | The loop yields exactly one descriptor per name of the enumeration, in the same order, each describing the field under that name. |
| PdfController.FieldInfo | PDFfill/Program.cs:106-114 | The descriptor built from the extension methods equals the field's description: the option array `GetFillOptions` returns becomes the option labels. |
| PdfController.FillThenInspect | PDFfill/Program.cs:49-120 | After a fill with flattening, the inspection lists nothing. Without flattening it lists every field of the form once, in the form's original order and under distinct names, each with the value the fill left in it; a requested text value is listed exactly as it was sent. |
| PdfInput.IsPdfFile | PDFfill/Program.cs:163-169 | The result is true exactly when at least four bytes remain and they are the characters "%PDF" (25 50 44 46). The stream advances by the bytes read (at most 4) and its contents are untouched. |
| PdfInput.FileLinkShape | PDFfill/Program.cs:178-180 | The `Array.IndexOf` test holds exactly when the path has at least three segments and starts with "file", "d". |
| PdfInput.DriveFileId | PDFfill/Program.cs:177-191 | The file id is the third segment of a `/file/d/<id>` path. Failing that, it is the value `Get("id")` finds in the query, with the name in any letter case, if that value is not blank. Otherwise there is none. Any id it gives is non-empty. |
| PdfInput.QueryGet | PDFfill/Program.cs:187 | `Get(key)` finds a value exactly when some key of the collection equals `key` ignoring case, and then it is that key's value. |
| PdfInput.ParsedQueryGet | PDFfill/Program.cs:186-187 | On the collection built from the query's pairs, `Get(key)` is null when no name equals `key` ignoring case. Otherwise it is the values of all such names, in order, joined by ','. |
| PdfInput.IdParameterInAnyCase | PDFfill/Program.cs:186-190 | Off a share-link path, a Drive URL is rewritten to the download URL of its joined `id` values, whatever the letter case of the name. |
| PdfInput.UpperCaseIdKey | PDFfill/Program.cs:186-190 | `https://drive.google.com/open?ID=abc` is rewritten to the download URL of "abc". |
| PdfInput.RepeatedIdKey | PDFfill/Program.cs:186-187 | The query `id=a&Id=b` gives the id "a,b". |
| PdfInput.NormalizeGoogleDriveUrl | PDFfill/Program.cs:171-197 | A URL that does not parse, whose host does not contain "drive.google.com" in any case, or that has no file id, comes back unchanged. Any other URL becomes the direct-download URL of its id. |
| PdfInput.ShareLinkId | PDFfill/Program.cs:177-184 | A `/file/d/<id>/...` share link on a Drive host is rewritten to the download URL of exactly that id, whatever its query says. |
| PdfInput.CanonicalUrlIsFixedPoint | PDFfill/Program.cs:183-191 | For an id made of ASCII letters, digits, '-' and '_', a second rewrite leaves the download URL as it is. The URL parse is stated for such ids. An id with '#', '&' or '%' parses differently, and the lemma does not cover it. |
| PdfInput.SelectSource | PDFfill/Program.cs:126-138 | A URL that is not blank wins, even over an upload. The upload is used only when the URL is blank. With neither the result is the "source required" error. The URL used is the trimmed, normalised one. |
| PdfInput.ValidateAndLoadPdfFile | PDFfill/Program.cs:122-147 | Loading succeeds exactly when the chosen source delivers bytes that start with "%PDF". The stream is then a new object holding exactly those bytes, rewound to 0. Failures carry the source's own error or "not a PDF". |
| PdfInput.PrepareFill | PDFfill/Program.cs:24-36 | A null or white-space `fields` payload is refused before any PDF is loaded. Invalid JSON is refused next, and JSON `null` means no values. Then the load succeeds or fails as above. |
| Text.SplitRemoveEmpty | PDFfill/Program.cs:177 | The parts are non-empty and contain no separator. |
| Text.SplitKeepsText | PDFfill/Program.cs:177 | Concatenated, the parts are the input with its separators removed. |
| Text.SplitIsRuns | PDFfill/Program.cs:177 | The parts are exactly the maximal non-empty runs of non-separator characters, in order. They equal a character-by-character scan that closes a run at each separator and drops empty runs. |
| Text.IsWhiteSpace | PDFfill/Program.cs:126-128 | `char.IsWhiteSpace` accepts the Unicode space separators (U+0020, U+00A0, U+1680, U+2000-U+200A, U+202F, U+205F, U+3000), U+2028, U+2029, and the controls U+0009-U+000D and U+0085. Among ASCII characters it accepts exactly the space and U+0009-U+000D, and nothing above U+3000. |
| Text.Trim | PDFfill/Program.cs:128 | The result is a contiguous piece of the input, and every character cut before or after it is white space. It starts and ends with a character that is not white space. An input with no white space at its ends is unchanged. |
| Text.IsNullOrWhiteSpace | PDFfill/Program.cs:126 | A value is null or white space exactly when it is null or trimming leaves nothing of it. |
| Text.FoldCase | PDFfill/Program.cs:187 | The key an ordinal case-insensitive comparer files a string under equals it ignoring case and holds no upper-case letter. |
| Text.FoldCaseDecides | PDFfill/Program.cs:187 | Two strings are equal ignoring case exactly when they fold to the same key. |
| Text.ContainsIgnoreCase | PDFfill/Program.cs:176 | The result is true exactly when the needle occurs at some position, ignoring ASCII case. |
| Streams.MemoryStream.Read | PDFfill/Program.cs:166 | Reads min(count, remaining) bytes into the buffer at the offset. Other buffer entries and the contents are unchanged, and the position advances by what was read. |
| Streams.MemoryStream.Write | PDFfill/Program.cs:133 | Copying into the stream overwrites the bytes from the position on with the ones written, extending the stream as needed. The position moves past them. |
| Streams.MemoryStream.Seek | PDFfill/Program.cs:140-145 | Setting the position changes only the position, never the contents. |
| Seqs.IndexOf | PDFfill/Program.cs:178-180 | `Array.IndexOf` gives -1 exactly when the element is absent. Otherwise it gives the index of its first occurrence. |

## Left out

- The HTTP layer is not modelled: routing, model binding, `Main`, the `IActionResult`s, and the translation of exceptions into responses. A failure is a `Failure` value here.
- The HTTP download (`DownloadPdfToStreamAsync`, its 30-second timeout and status check) is a function parameter that yields bytes or a failure reason.
- JSON deserialisation is a function parameter. The request dictionary is a sequence of pairs, and the value taken for a name is that of its last pair.
- `new Uri(url)` is an input: the parsed host, absolute path and query collection, or `None` when the constructor throws. The collection is modelled as `ParseQueryString` builds it from the query's name/value pairs: keys are compared ignoring case, and a repeated name holds its values joined by ','. How the query string is cut into pairs and percent-decoded is not modelled.
- iText internals are left out: opening and serialising documents, regenerating appearances, and the real flattening. Flattening is modelled only as "the form has no fields left". The PDF written out is not modelled.
- `PdfNumber.FloatValue` is not modelled. Rectangle components are `real`s and keep their value.
- `PdfString` decoding is not modelled. A PDF string is its text.
- `GetValueAsString` is not modelled separately: it is the value last stored in the field.
- Null references are not modelled: a null widget list, a null form type, null request values, a null first widget, and a `/Rect` entry that is not a number (`GetAsNumber` gives null and `FloatValue` throws; a rectangle here is a sequence of `real`s).
- Asynchrony and the disposal of streams, readers and writers are not modelled.
- Text.ContainsIgnoreCase: folds ASCII letters only, whereas `OrdinalIgnoreCase` also folds non-ASCII letters.
- Text.FoldCase: folds ASCII letters only, whereas the `OrdinalIgnoreCase` comparer of the query collection also folds non-ASCII letters. A query name whose non-ASCII letters fold to "id" under that comparer is not found here.
- DotNetBool.TryParse: a null input is not modelled, and the literals are compared in ASCII case only, as .NET does.
- PdfInput.IsPdfFile: models `Stream.Read` on a `MemoryStream` only, which returns everything available up to the count. A network stream may return fewer bytes.
- PdfInput.CanonicalUrlIsFixedPoint: covers only ids made of ASCII letters, digits, '-' and '_'. For those, the parse of the download URL is known. An id holding '#', '&' or '%' (reachable through a percent-encoded `id` query parameter) would be cut or re-decoded by `new Uri` and `ParseQueryString`, and the second rewrite could then change it.
