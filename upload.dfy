/** The request-building pieces of `sendNoteToDevice` (main.ts:93-262):
    the name the note is exported under, the normalised port and upload
    path, the directory-creation plan, and the multipart/form-data body of
    RFC 7578 (section 4.1 for the boundary delimiters, section 4.2 for the
    Content-Disposition header), assembled byte by byte. */
module Upload {
  import opened Wrappers
  import opened Utf8
  import opened Text

  // ---- export name ----

  /** The name ends in `.md`, the letters in any case (`/\.md$/i`). */
  predicate HasMdSuffix(name: string) {
    |name| >= 3 && name[|name| - 3] == '.'
    && (name[|name| - 2] == 'm' || name[|name| - 2] == 'M')
    && (name[|name| - 1] == 'd' || name[|name| - 1] == 'D')
  }

  /** `filename.replace(/\.md$/i, "") + ".epub"` */
  function EpubName(filename: string): string {
    (if HasMdSuffix(filename) then filename[..|filename| - 3] else filename) + ".epub"
  }

  /** The export name is the note's name with at most one `.md` suffix, in
      any case, dropped, and `.epub` after it: a `.md` note `base.md` becomes
      `base.epub`, any other name is kept whole. */
  lemma EpubNameSpec(filename: string)
    ensures EndsWith(EpubName(filename), ".epub")
    ensures HasMdSuffix(filename) ==> EpubName(filename) == filename[..|filename| - 3] + ".epub"
    ensures !HasMdSuffix(filename) ==> EpubName(filename) == filename + ".epub"
    ensures var stem := EpubName(filename)[..|EpubName(filename)| - 5];
            filename == stem || (HasMdSuffix(filename) && filename == stem + filename[|filename| - 3..])
  {
    var e := EpubName(filename);
    var stem := e[..|e| - 5];
    assert e[|e| - 5..] == ".epub";
    if HasMdSuffix(filename) {
      assert stem == filename[..|filename| - 3];
      assert filename == stem + filename[|filename| - 3..];
    } else {
      assert stem == filename;
    }
  }

  /** Any stem with any spelling of `.md` maps back to the stem plus `.epub`;
      only one suffix goes, so `a.md.md` becomes `a.md.epub`. */
  lemma EpubNameOfMarkdown(stem: string, m: char, d: char)
    requires m == 'm' || m == 'M'
    requires d == 'd' || d == 'D'
    ensures EpubName(stem + ['.', m, d]) == stem + ".epub"
  {
    var name := stem + ['.', m, d];
    assert HasMdSuffix(name);
    assert name[..|name| - 3] == stem;
  }

  // ---- port and upload path ----

  /** `devicePort.trim() || "80"` */
  function NormalizePort(port: string): string {
    if Trim(port) == [] then "80" else Trim(port)
  }

  /** The port is never blank, is trimmed, is `80` for a blank setting and
      the trimmed setting otherwise, and is kept once normalised. */
  lemma NormalizePortSpec(port: string)
    ensures var p := NormalizePort(port);
      && p != [] && IsTrimmed(p)
      && (Trim(port) == [] ==> p == "80")
      && (Trim(port) != [] ==> p == Trim(port))
      && NormalizePort(p) == p
  {
    TrimSplits(port);
    var p := NormalizePort(port);
    TrimOfTrimmed(p);
  }

  /** `uploadPath.trim() || "/"`, then a `/` in front when missing. */
  function NormalizeUploadPath(path: string): string {
    var t := if Trim(path) == [] then "/" else Trim(path);
    if StartsWith(t, "/") then t else "/" + t
  }

  /** The upload path is trimmed, non-empty and absolute; a blank setting
      gives `/`; and normalising it again changes nothing. */
  lemma NormalizeUploadPathSpec(path: string)
    ensures var u := NormalizeUploadPath(path);
      && u != [] && u[0] == '/' && IsTrimmed(u)
      && (Trim(path) == [] ==> u == "/")
      && (Trim(path) != [] && Trim(path)[0] == '/' ==> u == Trim(path))
      && (Trim(path) != [] && Trim(path)[0] != '/' ==> u == "/" + Trim(path))
      && NormalizeUploadPath(u) == u
  {
    UploadPathTrimmed(path);
    UploadPathCases(path);
    UploadPathIdempotent(path);
  }

  lemma UploadPathCases(path: string)
    ensures var u := NormalizeUploadPath(path);
      && (Trim(path) == [] ==> u == "/")
      && (Trim(path) != [] && Trim(path)[0] == '/' ==> u == Trim(path))
      && (Trim(path) != [] && Trim(path)[0] != '/' ==> u == "/" + Trim(path))
  {
    var t := Trim(path);
    if t == [] {
      assert StartsWith("/", "/");
    } else if t[0] == '/' {
      assert t[..1] == "/";
    } else {
      assert !StartsWith(t, "/");
    }
  }

  lemma UploadPathIdempotent(path: string)
    ensures NormalizeUploadPath(NormalizeUploadPath(path)) == NormalizeUploadPath(path)
  {
    UploadPathTrimmed(path);
    NormalizedIsFixed(NormalizeUploadPath(path));
  }

  /** A trimmed absolute path is already normal. */
  lemma NormalizedIsFixed(u: string)
    requires u != [] && u[0] == '/' && IsTrimmed(u)
    ensures NormalizeUploadPath(u) == u
  {
    TrimOfTrimmed(u);
    assert u[..1] == "/";
  }

  lemma UploadPathTrimmed(path: string)
    ensures var u := NormalizeUploadPath(path); u != [] && u[0] == '/' && IsTrimmed(u)
  {
    UploadPathCases(path);
    TrimIsTrimmed(path);
    var t := Trim(path);
    if t == [] {
      RootIsTrimmed();
    } else if t[0] != '/' {
      SlashedIsTrimmed(t);
    }
  }

  lemma RootIsTrimmed()
    ensures IsTrimmed("/")
  {
    assert !IsJsWhitespace("/"[0]);
  }

  /** A slash in front of a non-empty trimmed string keeps it trimmed. */
  lemma SlashedIsTrimmed(t: string)
    requires t != [] && IsTrimmed(t)
    ensures IsTrimmed("/" + t)
  {
    var u := "/" + t;
    assert u[|u| - 1] == t[|t| - 1];
    assert !IsJsWhitespace(u[0]);
  }

  // ---- directory creation ----

  /** `uploadPath.split("/").filter(s => s.length > 0)` */
  function Segments(uploadPath: string): (segs: seq<string>)
    ensures forall i :: 0 <= i < |segs| ==> segs[i] != [] && '/' !in segs[i]
  {
    var r := NonEmpty(Split(uploadPath, '/'));
    assert forall i :: 0 <= i < |r| ==> r[i] in Split(uploadPath, '/');
    r
  }

  /** A `/` between two paths: the directories of the whole are those of
      the left path followed by those of the right; with SegmentsOfPiece
      this fixes the directory list of every path, in order. */
  lemma SegmentsConcat(a: string, b: string)
    ensures Segments(a + "/" + b) == Segments(a) + Segments(b)
  {
    SplitConcat(a, b, '/');
    NonEmptyConcat(Split(a, '/'), Split(b, '/'));
  }

  /** A piece without `/` is one directory, or none when it is empty. */
  lemma SegmentsOfPiece(p: string)
    requires '/' !in p
    ensures Segments(p) == if p == [] then [] else [p]
  {
    SplitOne(p, '/');
    NonEmptyOne(p);
  }

  /** The parent of the k-th mkdir request: `/` and then the segments before
      it, joined with `/`. */
  function ParentAt(segs: seq<string>, k: nat): string
    requires k <= |segs|
  {
    "/" + Join(segs[..k], "/")
  }

  /** `currentPath === "/" ? `/${segment}` : `${currentPath}/${segment}`` */
  function Advance(currentPath: string, segment: string): string {
    if currentPath == "/" then "/" + segment else currentPath + "/" + segment
  }

  /** One step of the loop moves the accumulated path from one parent to the
      next, whatever the request's outcome. */
  lemma AdvanceParent(segs: seq<string>, k: nat)
    requires forall i :: 0 <= i < |segs| ==> segs[i] != []
    requires k < |segs|
    ensures Advance(ParentAt(segs, k), segs[k]) == ParentAt(segs, k + 1)
  {
    assert segs[..k + 1] == segs[..k] + [segs[k]];
    if k == 0 {
      assert segs[..1] == [segs[0]];
    } else {
      JoinSnoc(segs[..k], segs[k], "/");
      JoinFirst(segs[..k], "/");
      AdvanceBelowRoot(Join(segs[..k], "/"), segs[k]);
    }
  }

  /** Below the root, a step appends `/` and the segment. */
  lemma AdvanceBelowRoot(joined: string, segment: string)
    requires joined != []
    ensures Advance("/" + joined, segment) == "/" + (joined + "/" + segment)
  {
    assert |"/" + joined| > 1;
  }

  /** A join starts with its first piece. */
  lemma JoinFirst(parts: seq<string>, sep: string)
    requires parts != []
    ensures |Join(parts, sep)| >= |parts[0]|
    ensures Join(parts, sep)[..|parts[0]|] == parts[0]
  {
  }

  /** The mkdir requests as (parent, name) pairs: one per segment, in
      order, the k-th under the path the segments before it make. */
  function MkdirPlan(segs: seq<string>): (plan: seq<(string, string)>)
    ensures |plan| == |segs|
    ensures forall k :: 0 <= k < |segs| ==> plan[k] == (ParentAt(segs, k), segs[k])
  {
    seq(|segs|, k requires 0 <= k < |segs| => (ParentAt(segs, k), segs[k]))
  }

  /** Once every segment is created the accumulated path is the upload path
      itself, when that path has no empty segment (no doubled or trailing
      `/`). */
  lemma FinalParentIsUploadPath(rest: string)
    requires forall i :: 0 <= i < |Split(rest, '/')| ==> Split(rest, '/')[i] != []
    ensures var segs := Segments("/" + rest); ParentAt(segs, |segs|) == "/" + rest
  {
    var p := "/" + rest;
    assert p[0] == '/' && p[1..] == rest;
    assert Split(p, '/') == [""] + Split(rest, '/');
    NonEmptyKeeps(Split(rest, '/'));
    var segs := Segments(p);
    assert segs == Split(rest, '/');
    JoinSplit(rest, '/');
    assert segs[..|segs|] == segs;
  }

  // ---- multipart body ----

  /** `"----WebKitFormBoundary" + Math.random().toString(36).substring(2)`,
      the random part given. */
  function Boundary(suffix: string): string {
    ("----WebKit" + "FormBoundary") + suffix
  }

  const DispositionLine := ("Content-" + "Disposition: " + "form-data; ") + FileField
  const FileField := ("name=\"file\"; " + "filename=\"")
  const TypeLine := "Content-Type: "

  /** The opening delimiter and the part's two header lines, then the blank line. */
  function MultipartHeader(boundary: string, filename: string, contentType: string): string {
    "--" + boundary + "\r\n"
    + DispositionLine + filename + "\"\r\n"
    + TypeLine + contentType + "\r\n\r\n"
  }

  /** The close delimiter. */
  function MultipartFooter(boundary: string): string {
    "\r\n--" + boundary + "--\r\n"
  }

  const MultipartPrefix := ("multipart/form-" + "data; boundary=")

  /** The request's `Content-Type` header. */
  function MultipartContentType(boundary: string): string {
    MultipartPrefix + boundary
  }

  /** The fields a multipart reader recovers from a part header. */
  datatype PartHeader = PartHeader(boundary: string, filename: string, contentType: string)

  /** Reads a part header line by line: each line ends at a carriage return
      and the next begins with the line feed that follows it. */
  function ReadHeader(h: string): Option<PartHeader> {
    var lines := Split(h, '\r');
    if |lines| == 5 && StartsWith(lines[0], "--")
       && StartsWith(lines[1], "\n" + DispositionLine) && |lines[1]| > |DispositionLine| + 1
       && lines[1][|lines[1]| - 1] == '"'
       && StartsWith(lines[2], "\n" + TypeLine)
       && lines[3] == "\n" && lines[4] == "\n"
    then Some(PartHeader(lines[0][2..], lines[1][|DispositionLine| + 1..|lines[1]| - 1],
                         lines[2][|TypeLine| + 1..]))
    else None
  }

  /** The boundary a `Content-Type` header announces. */
  function BoundaryParameter(contentType: string): Option<string> {
    if StartsWith(contentType, MultipartPrefix) then Some(contentType[|MultipartPrefix|..]) else None
  }

  /** The header lines as ReadHeader sees them. */
  function HeaderLines(boundary: string, filename: string, contentType: string): seq<string> {
    ["--" + boundary, "\n" + DispositionLine + filename + "\"", "\n" + TypeLine + contentType, "\n", "\n"]
  }

  lemma HeaderIsLines(boundary: string, filename: string, contentType: string)
    ensures MultipartHeader(boundary, filename, contentType)
            == Join(HeaderLines(boundary, filename, contentType), "\r")
  {
    var l := HeaderLines(boundary, filename, contentType);
    HeaderRegrouped(boundary, DispositionLine, filename, TypeLine, contentType);
    JoinFiveLines(l[0], l[1], l[2], MultipartHeader(boundary, filename, contentType));
  }

  /** The header text regrouped at its carriage returns. */
  lemma HeaderRegrouped(b: string, dl: string, f: string, tl: string, ct: string)
    ensures "--" + b + "\r\n" + dl + f + "\"\r\n" + tl + ct + "\r\n\r\n"
            == ("--" + b) + "\r" + ("\n" + dl + f + "\"") + "\r" + ("\n" + tl + ct) + "\r" + "\n" + "\r" + "\n"
  {
    assert "\r\n" == "\r" + "\n";
    assert "\"\r\n" == "\"" + "\r" + "\n";
    assert "\r\n\r\n" == "\r" + "\n" + "\r" + "\n";
  }

  /** Five lines, the last two empty but for their line feed, joined at
      carriage returns. */
  lemma JoinFiveLines(p0: string, p1: string, p2: string, s: string)
    requires s == p0 + "\r" + p1 + "\r" + p2 + "\r" + "\n" + "\r" + "\n"
    ensures s == Join([p0, p1, p2, "\n", "\n"], "\r")
  {
    var l := [p0, p1, p2, "\n", "\n"];
    assert l[3..][1..] == ["\n"] && l[2..][1..] == l[3..] && l[1..][1..] == l[2..];
    var j3 := Join(l[3..], "\r");
    assert l[3..][0] == "\n" && Join(l[3..][1..], "\r") == "\n";
    assert j3 == "\n" + "\r" + "\n";
    var j2 := Join(l[2..], "\r");
    assert j2 == p2 + "\r" + j3;
    var j1 := Join(l[1..], "\r");
    assert j1 == p1 + "\r" + j2;
    assert Join(l, "\r") == p0 + "\r" + j1;
  }

  /** Whoever reads the body gets back the boundary, the export name and the
      content type from the header, provided none of them holds a carriage
      return; and the request's `Content-Type` announces that boundary. */
  lemma HeaderRoundTrip(boundary: string, filename: string, contentType: string)
    requires '\r' !in boundary && '\r' !in filename && '\r' !in contentType
    ensures ReadHeader(MultipartHeader(boundary, filename, contentType))
            == Some(PartHeader(boundary, filename, contentType))
    ensures BoundaryParameter(MultipartContentType(boundary)) == Some(boundary)
  {
    var l := HeaderLines(boundary, filename, contentType);
    HeaderIsLines(boundary, filename, contentType);
    assert '\r' !in ("Content-" + "Disposition: " + "form-data; ") && '\r' !in FileField;
    assert '\r' !in DispositionLine && '\r' !in TypeLine;
    forall i | 0 <= i < |l| ensures '\r' !in l[i] {
      if i == 1 {
        assert l[1] == "\n" + DispositionLine + filename + "\"";
      } else if i == 2 {
        assert l[2] == "\n" + TypeLine + contentType;
      }
    }
    SplitJoin(l, '\r');
    assert l[1][|DispositionLine| + 1..|l[1]| - 1] == filename;
    assert l[2][|TypeLine| + 1..] == contentType;
    assert l[0][2..] == boundary;
    AnnouncedBoundary(boundary);
  }

  /** The request's `Content-Type` announces the boundary the body uses. */
  lemma AnnouncedBoundary(boundary: string)
    ensures BoundaryParameter(MultipartContentType(boundary)) == Some(boundary)
  {
    var c := MultipartContentType(boundary);
    assert c[|MultipartPrefix|..] == boundary;
  }

  /** The header opens with the delimiter line, names the form field `file`
      and the export name, gives the content type, and ends with the blank
      line; the footer closes with the same boundary. */
  lemma HeaderShape(boundary: string, filename: string, contentType: string)
    ensures var h := MultipartHeader(boundary, filename, contentType);
      && StartsWith(h, "--" + boundary + "\r\n")
      && Contains(h, ("name=\"file\"; " + "filename=\"") + filename + "\"\r\n")
      && Contains(h, "Content-Type: " + contentType + "\r\n")
      && EndsWith(h, "\r\n\r\n")
    ensures StartsWith(MultipartFooter(boundary), "\r\n--" + boundary)
    ensures EndsWith(MultipartFooter(boundary), "--\r\n")
  {
    var x := "Content-" + "Disposition: " + "form-data; ";
    HeaderGrouping(boundary, x, FileField, filename, TypeLine, contentType);
    HeaderPieces("--" + boundary + "\r\n", x, FileField + filename + "\"\r\n", TypeLine + contentType);
    FooterShape(boundary);
  }

  lemma HeaderGrouping(b: string, x: string, ff: string, fn: string, tl: string, ct: string)
    ensures "--" + b + "\r\n" + (x + ff) + fn + "\"\r\n" + tl + ct + "\r\n\r\n"
         == ("--" + b + "\r\n") + x + (ff + fn + "\"\r\n") + (tl + ct) + "\r\n\r\n"
  {
  }

  /** Where the delimiter line, the disposition's field, the type line and
      the blank line sit in a header laid out from its pieces. */
  lemma HeaderPieces(a: string, x: string, f: string, t: string)
    ensures var h := a + x + f + t + "\r\n\r\n";
      StartsWith(h, a) && Contains(h, f) && Contains(h, t + "\r\n") && EndsWith(h, "\r\n\r\n")
  {
    var h := a + x + f + t + "\r\n\r\n";
    assert h == a + (x + f + t) + "\r\n\r\n";
    Pieces(a, x + f + t, "\r\n\r\n");
    assert h == (a + x) + f + (t + "\r\n\r\n");
    ContainsIn(a + x, f, t + "\r\n\r\n");
    assert "\r\n\r\n" == "\r\n" + "\r\n";
    assert h == (a + x + f) + (t + "\r\n") + "\r\n";
    ContainsIn(a + x + f, t + "\r\n", "\r\n");
  }

  /** The first piece starts a text laid out from three pieces, and the last
      ends it. */
  lemma Pieces(a: string, b: string, c: string)
    ensures StartsWith(a + b + c, a) && EndsWith(a + b + c, c)
  {
    var h := a + b + c;
    assert h[..|a|] == a;
    assert h[|h| - |c|..] == c;
  }

  lemma FooterShape(boundary: string)
    ensures StartsWith(MultipartFooter(boundary), "\r\n--" + boundary)
    ensures EndsWith(MultipartFooter(boundary), "--\r\n")
  {
    var f := MultipartFooter(boundary);
    var p := "\r\n--" + boundary;
    assert f == p + "--\r\n";
    assert f[..|p|] == p;
    assert f[|f| - 4..] == "--\r\n";
  }

  /** `target.set(src, offset)` on a Uint8Array: the bytes at
      [offset, offset + |src|) become `src`, the others stay. */
  method SetAt(target: array<byte>, src: seq<byte>, offset: nat)
    requires offset + |src| <= target.Length
    modifies target
    ensures target[..] == old(target[..offset]) + src + old(target[offset + |src|..])
  {
    var i := 0;
    while i < |src|
      invariant 0 <= i <= |src|
      invariant target[..offset] == old(target[..offset])
      invariant target[offset..offset + i] == src[..i]
      invariant target[offset + |src|..] == old(target[offset + |src|..])
      invariant target[offset + i..offset + |src|] == old(target[offset + i..offset + |src|])
    {
      target[offset + i] := src[i];
      i := i + 1;
    }
    assert target[..] == target[..offset] + target[offset..offset + |src|] + target[offset + |src|..];
  }

  /** The combined body (main.ts:218-222): a fresh array of the total length,
      the header bytes at 0, the file bytes right after them and the footer
      bytes after those. */
  method CombineBody(header: seq<byte>, file: seq<byte>, footer: seq<byte>) returns (body: seq<byte>)
    ensures |body| == |header| + |file| + |footer|
    ensures body[..|header|] == header
    ensures body[|header|..|header| + |file|] == file
    ensures body[|header| + |file|..] == footer
    ensures body == header + file + footer
  {
    var totalLength := |header| + |file| + |footer|;
    var combinedBody := new byte[totalLength];
    SetAt(combinedBody, header, 0);
    SetAt(combinedBody, file, |header|);
    SetAt(combinedBody, footer, |header| + |file|);
    body := combinedBody[..];
    assert body == body[..|header|] + body[|header|..|header| + |file|] + body[|header| + |file|..];
  }
}
