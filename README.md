# SendToCrosspoint, modelled in Dafny

SendToCrosspoint is an Obsidian plugin that sends the open note to a
Crosspoint e-ink reader over the local network. Its command
`sendNoteToDevice` does five things:

- reads the device address;
- optionally converts the note to an EPUB 2 book;
- builds a multipart/form-data body by hand;
- asks the device to create the upload directory, one segment at a time;
- uploads the file and reports the response.

A second, stand-alone builder, `generateEpubBuffer`, makes the same EPUB
from markdown, through `marked` and the DOM serialiser.

This project models the logic of both files that works on strings and bytes,
and proves what it promises:

- XML escaping of the note text, with its inverse and the shape of what it
  produces;
- the export name, and the choice of payload with its fallback to plain text;
- normalisation of the port and the upload path;
- the directory-creation plan;
- the multipart header and footer, with a reader that recovers them, and the
  byte-level assembly of the body into a fresh array;
- the archive both builders fill: a mutable JSZip object with its
  `file`/`folder` semantics and the compression each entry ends up with;
- the four EPUB template documents;
- the marked-based builder with its two DOM guards;
- the whole command, as a method that returns the requests it issues and the
  notices it shows.

Foreign code is passed in as functions:

- the ZIP/DEFLATE writer (`JsZip.ZipWriter`);
- `marked.parse`, and the DOM parser together with `serializeToString`
  (`Epub.Environment`);
- the device's response to the upload (`Sender.Device`).

`TextEncoder` is modelled as a real UTF-8 encoder (`Utf8.Encode`).

Modules, one per file:

- `Wrappers`: Option and Result.
- `Text`: JavaScript `trim`, `split`, `join`, global one-character
  `replace`, and prefix and suffix tests.
- `Utf8`: the encoder.
- `Escaping`: main.ts:120-126.
- `JsZip`: the archive object.
- `EpubContainer`: the templates, the entry set, and the builder steps
  both builders share.
- `Epub`: epub.ts.
- `Upload`: the request-building pieces of main.ts.
- `Sender`: `sendNoteToDevice`.

Where the code and its documentation disagree, the model follows the code:

- The titles in the three EPUB documents are the note's file name
  interpolated verbatim (epub.ts:61, 76, 97 and main.ts:133, 148, 169).
  The name is not XML-escaped, so a name holding `<` or `&` gives
  documents that are not well-formed XML.
- When the conversion fails, the code uploads the UTF-8 note but keeps the
  `.epub` export name and the `application/epub+zip` type it set before
  converting (main.ts:99-100, 190-193). Its own notice says "Sending as
  markdown instead" (main.ts:192). `Sender.PayloadSpec` states this
  behaviour as written.
- The `if (!fileBuffer)` guard of main.ts:200 cannot fire. Every branch
  before it assigns a buffer. In `Sender.SelectPayload` this is Dafny's
  definite-assignment rule on `fileBuffer`.
- The mkdir responses are never consulted: every outcome is caught and
  ignored. `Sender.Device` is therefore applied only to the upload request.
- `Sender.CheckResponse` follows main.ts:256-262, which treats any status
  other than 200 as a failure. Obsidian's `requestUrl` itself rejects on a
  status of 400 or more unless told otherwise, so in practice a 404 arrives
  as the rejection and the status branch only sees the other statuses.
  `Sender.Device` is an unconstrained parameter, so the model covers both.

## Model

| member | source | states |
|---|---|---|
| Text.Trim | main.ts:74 | `trim()`: the leading and then the trailing JavaScript whitespace are dropped; its meaning is stated by `Text.TrimSplits` and `Text.TrimIdempotent` |
| Text.Split | main.ts:231 | `split("/")` on one character: the pieces between separators, empty ones included, never an empty list; stated by `Text.JoinSplit`, `Text.SplitConcat` and `Text.SplitOne` |
| Text.Join | epub.ts:54 | `join(sep)`: the pieces with the separator between neighbours, `""` for no pieces; stated by `Text.JoinSplit` and `Text.SplitJoin` |
| Text.ReplaceAll | main.ts:121-126 | `replace(/c/g, rep)`: every occurrence of one character becomes the replacement, the rest is kept; used by `Escaping.EscapeContent` |
| Text.TrimSplits | main.ts:74 | `trim` removes only JavaScript whitespace, from both ends, and leaves a string with neither end whitespace |
| Text.TrimIdempotent | main.ts:224-225 | trimming twice gives the same result as trimming once |
| Text.JoinSplit | main.ts:231 | joining the pieces of `split("/")` with `/` gives back the path |
| Text.SplitJoin | main.ts:231 | splitting a `/`-join of `/`-free pieces gives back the pieces |
| Text.NonEmpty | main.ts:231 | the filter keeps exactly the non-empty pieces and adds nothing |
| Text.NonEmptyConcat | main.ts:231 | filtering a concatenation filters each part, so the kept pieces stay in order and are not repeated |
| Text.NonEmptyOne | main.ts:231 | a single piece is kept exactly when it is non-empty |
| Text.SplitConcat | main.ts:231 | the pieces of `a` + separator + `b` are the pieces of `a` followed by the pieces of `b` |
| Text.SplitOne | main.ts:231 | a text without the separator splits into itself alone |
| Utf8.Encode | main.ts:193 | `TextEncoder.encode`: the UTF-8 bytes of each character in turn; stated by `Utf8.EncodeConcat` and `Utf8.AsciiByteIn` |
| Utf8.EncodeChar | main.ts:196 | one character becomes 1 to 4 bytes; an ASCII character becomes its own code; a non-ASCII character gives only bytes from 0x80 up |
| Utf8.EncodeConcat | main.ts:212-215 | the encoding of a concatenation is the concatenation of the encodings |
| Utf8.AsciiByteIn | main.ts:212 | an ASCII byte occurs in the encoding exactly when its character occurs in the text |
| Escaping.EscapeContent | main.ts:120-126 | the six `replace` passes in source order: `&`, `<`, `>`, `"`, `'`, then line feed to `<br/>` + line feed; its meaning is stated by `Escaping.ChainIsPerCharacter` and `Escaping.UnescapeEscape` |
| Escaping.ChainIsPerCharacter | main.ts:120-126 | the six replacement passes, `&` first, equal escaping each character on its own; every line feed becomes exactly `<br/>` + line feed |
| Escaping.UnescapeEscape | main.ts:120-126 | reading the escaped text back (entities, and `<br/>` before a line feed) recovers the note exactly |
| Escaping.EscapedIsSafe | main.ts:120-126 | the escaped text has no `"` or `'`; every `<` and `>` lies inside a `<br/>` before a line feed; every line feed follows `<br/>`; every `&` starts one of the five entity references |
| Escaping.NewlinesKept | main.ts:126 | the escaped text has exactly as many line feeds as the note |
| JsZip.Put | epub.ts:15 | `files[name] = o` inside `file()`: an entry of the same name is replaced where it stands, otherwise the entry is appended; stated by `JsZip.PutSpec` |
| JsZip.Lookup | epub.ts:15 | finds the entry with the given name, or reports that no entry has it |
| JsZip.PutSpec | epub.ts:15 | adding a file keeps names unique, holds the new entry, keeps every entry under another name, and appends a new name at the end |
| JsZip.FolderName | epub.ts:18 | a folder name ends with `/`; it is the name itself when that already ends with `/`, and otherwise the name with `/` appended |
| JsZip.FolderNameIdempotent | epub.ts:18 | naming a folder name again gives the same name |
| JsZip.Zip.constructor | epub.ts:12 | a new archive object is empty |
| JsZip.Zip.File | epub.ts:15 | `file` puts the entry under its name, replacing an entry of the same name in place, and keeps names unique |
| JsZip.Zip.Folder | epub.ts:18 | `folder` returns the name with a trailing `/`, and adds that folder only when it is not there yet |
| JsZip.Generate | epub.ts:112-116 | one member per entry, in order; a file without its own compression option gets the one given to `generateAsync` |
| EpubContainer.ContainerXml | epub.ts:20-25 | the container.xml template, the same text as main.ts:111-116; stated by `EpubContainer.ContainerRootfile` |
| EpubContainer.ContentOpf | epub.ts:73-86 | the content.opf template with the title placed in `<dc:title>`, the same text as main.ts:145-159; stated by `EpubContainer.OpfTitle` and `EpubContainer.OpfManifestAndSpine` |
| EpubContainer.TocNcx | epub.ts:92-104 | the toc.ncx template with the title placed in `<docTitle>`, the same text as main.ts:164-177; stated by `EpubContainer.NcxTitle` and `EpubContainer.NcxNavPoint` |
| EpubContainer.ContentHtml | epub.ts:57-68 | the XHTML 1.1 document with the title and the body in a `<div>`, the same text as main.ts:129-141; stated by `EpubContainer.HtmlShape` and `EpubContainer.HtmlPrologue` |
| EpubContainer.FiveEntries | epub.ts:15-116 | exactly five file members: `mimetype`, `META-INF/container.xml`, `OEBPS/content.opf`, `OEBPS/toc.ncx` and `OEBPS/content.html`, each with its template; `mimetype` holds `application/epub+zip` and is the only file stored with STORE; every other file is DEFLATE |
| EpubContainer.ReferencesResolve | epub.ts:20-104 | the one rootfile is the package document; the manifest items `content` and `toc` are files of the archive; the spine holds the one itemref `content` and its `toc` names the NCX item; the one navPoint plays first and points at a manifest item |
| EpubContainer.ContainerRootfile | epub.ts:20-25 | container.xml holds the rootfile with full-path `OEBPS/content.opf` and the OPF media type |
| EpubContainer.OpfManifestAndSpine | epub.ts:79-85 | content.opf lists both manifest items and the itemref `content` |
| EpubContainer.OpfTitle | epub.ts:76 | content.opf has `<dc:title>` + title + `</dc:title>`, the title verbatim |
| EpubContainer.NcxTitle | epub.ts:97 | toc.ncx has the title verbatim in `<docTitle><text>` |
| EpubContainer.NcxNavPoint | epub.ts:98-103 | toc.ncx holds the navPoint `navPoint-1` with playOrder `1`, label `Start` and src `content.html` |
| EpubContainer.HtmlShape | epub.ts:57-68 | content.html starts with the XML declaration, the XHTML 1.1 DOCTYPE and the XHTML root with `xml:lang="en"`; it has the title verbatim in `<title>` and the body verbatim inside the `<div>` |
| EpubContainer.AddMimetypeAndContainer | epub.ts:15-26 | after the first additions the archive object holds `mimetype` (STORE), the META-INF folder and `container.xml` |
| EpubContainer.AddPackageDocuments | epub.ts:71-108 | the three `folder("OEBPS")` calls add the folder once, and the three documents follow it in order |
| Epub.BodyFragment | epub.ts:52-54 | the serialised body nodes joined by the two characters backslash and `n`; stated by `Epub.BodyFragmentNewlines` and `Epub.BodyFragmentLength` |
| Epub.BodyFragmentNewlines | epub.ts:52-54 | the two-character separator adds no line feed: the fragment has one exactly when some node has one |
| Epub.BodyFragmentLength | epub.ts:52-54 | the fragment is the nodes' lengths plus two characters between each neighbouring pair |
| Epub.GenerateEpubBuffer | epub.ts:8-118 | a rejected parse, a missing DOMParser or a missing XMLSerializer each reject with their own error; otherwise the result is the writer's output for the five-entry EPUB with the joined body nodes, at DEFLATE level 5 |
| Epub.GuardsDecide | epub.ts:30-50 | a buffer is produced exactly when parsing succeeds, both DOM globals exist and the writer succeeds |
| Upload.EpubName | main.ts:99 | `replace(/\.md$/i, "") + ".epub"`; stated by `Upload.EpubNameSpec` |
| Upload.NormalizePort | main.ts:224 | the trimmed setting, or `"80"` when it is empty; stated by `Upload.NormalizePortSpec` |
| Upload.NormalizeUploadPath | main.ts:225-228 | the trimmed setting, or `/` when it is empty, then a `/` in front when missing; stated by `Upload.NormalizeUploadPathSpec` |
| Upload.Advance | main.ts:241 | the next accumulated path: `/` + segment at the root, otherwise path + `/` + segment; stated by `Upload.AdvanceParent` |
| Upload.Boundary | main.ts:205 | the fixed `----WebKitFormBoundary` prefix followed by the random suffix, which is a parameter |
| Upload.MultipartHeader | main.ts:208-210 | the delimiter line, the `Content-Disposition` line with the export name and the `Content-Type` line, then the blank line; stated by `Upload.HeaderShape` and `Upload.HeaderRoundTrip` |
| Upload.MultipartFooter | main.ts:214 | CRLF, `--`, the boundary, `--`, CRLF; stated by `Upload.FooterShape` |
| Upload.MultipartContentType | main.ts:251 | `multipart/form-data; boundary=` + the boundary; stated by `Upload.AnnouncedBoundary` |
| Upload.EpubNameSpec | main.ts:99 | the export name ends in `.epub`; a name with a `.md` suffix in any case loses exactly those three characters; any other name is kept whole |
| Upload.EpubNameOfMarkdown | main.ts:99 | for every stem and every spelling of `.md`, the export name is the stem plus `.epub`, so only one suffix goes |
| Upload.NormalizePortSpec | main.ts:224 | the port is never blank, is trimmed, is the trimmed setting unless that is blank (then `80`), and normalising it again changes nothing |
| Upload.NormalizeUploadPathSpec | main.ts:225-228 | the upload path is non-empty, starts with `/` and is trimmed; a blank setting gives `/`; a `/` is added only when missing; normalising it again changes nothing |
| Upload.UploadPathCases | main.ts:225-228 | a blank setting gives `/`; a trimmed path starting with `/` is kept; any other trimmed path gets a `/` in front |
| Upload.UploadPathIdempotent | main.ts:225-228 | normalising a normalised upload path changes nothing |
| Upload.Segments | main.ts:231 | every segment is non-empty and free of `/` |
| Upload.SegmentsConcat | main.ts:231 | the segments of `a` + `/` + `b` are the segments of `a` followed by those of `b`, in order |
| Upload.SegmentsOfPiece | main.ts:231 | a piece without `/` is one segment, or none when it is empty; with `Upload.SegmentsConcat` this fixes the segments of every path, `/notes/` and `/a//b` included |
| Upload.AdvanceParent | main.ts:241 | each loop step moves the accumulated path from the k-th parent to the next one, `/` + the first k+1 segments joined by `/` |
| Upload.FinalParentIsUploadPath | main.ts:230-242 | when the path has no empty segment, the accumulated path ends as the upload path itself |
| Upload.HeaderShape | main.ts:208-210 | the header opens with `--` + boundary + CRLF, carries `name="file"; filename="` + export name + `"`, carries the content type, and ends with a blank line; the footer is CRLF + `--` + boundary and ends with `--` + CRLF |
| Upload.FooterShape | main.ts:214 | the footer is CRLF + `--` + boundary, closed by `--` + CRLF |
| Upload.HeaderRoundTrip | main.ts:205-214 | a reader of the header recovers the boundary, the export name and the content type when none holds a carriage return; the request's Content-Type header announces that boundary |
| Upload.AnnouncedBoundary | main.ts:251 | the boundary read back from the request's `multipart/form-data; boundary=` header is the boundary the body uses |
| Upload.SetAt | main.ts:220-222 | `set` writes the source bytes at the offset and leaves every other byte as it was |
| Upload.CombineBody | main.ts:218-222 | the body has the total length; bytes [0,h) are the header, [h,h+f) the file and the rest the footer |
| Sender.SelectedPayload | main.ts:93-197 | the bytes, export name and content type the upload carries, with the fallback flag; stated by `Sender.PayloadSpec` |
| Sender.Requests | main.ts:224-254 | the mkdir requests (only with auto-creation on and a path other than `/`) followed by the upload; stated by `Sender.RequestsShape` |
| Sender.Run | main.ts:73-267 | the requests and notices of one command, early returns included; stated by `Sender.EarlyReturns`, `Sender.SendRequests` and `Sender.SendOutcome` |
| Sender.CheckResponse | main.ts:256-262 | only status 200 is a success; any other status is an error carrying the status and the response text; a rejected request is an error |
| Sender.BuildInlineEpub | main.ts:103-189 | the inline builder gives the writer's output for the five-entry EPUB whose body is the escaped note, at DEFLATE level 5 |
| Sender.PayloadSpec | main.ts:93-194 | conversion off: the UTF-8 note, its own name, `text/markdown`; conversion on: the archive under the `.epub` name as `application/epub+zip`, or, if the archive fails, the UTF-8 note under the same `.epub` name and type |
| Sender.SelectPayload | main.ts:93-197 | the mutable buffer, name and type end as the payload specification says, with the converting and fallback notices shown in order |
| Sender.CreateDirectories | main.ts:231-242 | one mkdir request per segment, in order, the k-th under `/` + the first k segments joined; the accumulated path ends as `/` + all segments joined |
| Sender.BuildBody | main.ts:205-222 | the combined body is the encoded header, then the payload's bytes, then the encoded footer |
| Sender.IssueRequests | main.ts:205-254 | the requests are the mkdir requests (only with auto-creation on and a path other than `/`) and then the upload with the assembled body |
| Sender.SendNoteToDevice | main.ts:73-267 | the command issues exactly the requests and shows exactly the notices of its specification `Run` |
| Sender.EarlyReturns | main.ts:74-86 | a blank device address sends nothing and asks for configuration; no open note sends nothing; otherwise a request is made |
| Sender.SendRequests | main.ts:224-254 | the run's requests satisfy `SendsAsPromised`: one mkdir per segment, in order and under the right parent, only when asked for; then one upload to the normalised path whose Content-Type announces the boundary, with body = encoded header + payload + encoded footer |
| Sender.RequestsShape | main.ts:224-254 | for any chosen payload the requests keep the promise `SendsAsPromised` states: the mkdirs in segment order under their parents, then the upload to the normalised path announcing the boundary |
| Sender.OutcomeCases | main.ts:256-266 | for each kind of answer the last notice is the success notice exactly on status 200, otherwise the failure with the status and text, or the rejection |
| Sender.SendOutcome | main.ts:256-266 | the run satisfies `EndsAsPromised`: the first notice names the note; the last notice is the success notice exactly when the upload is answered with 200; otherwise it is the failure with the status and text, or the rejection |
| Sender.SendHeaderReadable | main.ts:205-212 | the upload header can be read back into the boundary, the export name and the content type the payload chose |

## Left out

- ZIP and DEFLATE byte serialisation, and the JSZip folder entries created implicitly for a path. The writer is a parameter; the model stops at the list of members and their compression.
- `marked.parse` and `DOMParser`/`XMLSerializer`: parameters of `Epub.Environment`. A rejected parse is modelled as an error.
- The network calls, the URL strings built with `encodeURIComponent`, the texts of `Notice` and `console`, and async/await. Requests and notices are values that carry their data.
- `Math.random`: the boundary's random suffix is a parameter. The model does not check that the boundary is absent from the file bytes, and neither does the code.
- Lone UTF-16 surrogates, which `TextEncoder` replaces: Dafny strings here hold Unicode scalar values only.
- Plugin lifecycle, command registration, settings load and save, and the settings tab (main.ts:31-71, 270-354).
- Upload.HeaderRoundTrip: holds only for a boundary, export name and content type without a carriage return, because the code does not escape them.
