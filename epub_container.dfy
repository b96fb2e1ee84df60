/** The EPUB 2 container both builders produce (main.ts:103-180 and
    epub.ts:12-108 add the same entries with the same template texts; only
    the XHTML body differs): the `mimetype` file, the OCF container
    document, the OPF 2.0 package document, the NCX 2005-1 navigation
    document and the XHTML 1.1 content document. The title is placed in
    the documents as it is, without escaping. */
module EpubContainer {
  import opened Wrappers
  import opened Text
  import opened JsZip

  const MimeType := ("application/" + "epub+zip")
  const XmlDeclaration := ("<?xml version=" + "\"1.0\" encoding=" + "\"UTF-8\"?>")
  const Xhtml11Doctype :=
    ("<!DOCTYPE html " + "PUBLIC \"-//W3C/" + "/DTD XHTML 1.1/" + "/EN\" \"http://" + "www.w3.org/TR/" + "xhtml11/DTD/" + "xhtml11.dtd\">")
  const HtmlRootTag := ("<html xmlns=" + "\"http://www.w3." + "org/1999/xhtml" + "\" xml:lang=\"en\">")

  /** Archive paths, and the folder under which the package documents sit. */
  const MimetypePath := "mimetype"
  const ContainerPath := ("META-INF/" + "container.xml")
  const PackageFolder := "OEBPS/"
  const PackagePath := "OEBPS/content.opf"
  const NcxPath := "OEBPS/toc.ncx"
  const ContentPath := "OEBPS/content.html"

  /** The templates are written as lists of literal parts and interpolated
      values laid end to end. A long literal is written as short pieces
      joined by `+`: the text is the same, and the verifier reasons about
      the length of short pieces far faster than about one long literal. */
  function Concat(parts: seq<string>): string {
    if parts == [] then "" else parts[0] + Concat(parts[1..])
  }

  lemma {:induction false} ConcatSplit(parts: seq<string>, k: nat)
    requires k <= |parts|
    ensures Concat(parts) == Concat(parts[..k]) + Concat(parts[k..])
  {
    if k > 0 {
      ConcatSplit(parts[1..], k - 1);
      assert parts[1..][..k - 1] == parts[1..k] && parts[1..][k - 1..] == parts[k..];
      assert Concat(parts[..k]) == parts[0] + Concat(parts[1..k]) by {
        assert parts[..k][1..] == parts[1..k];
      }
    } else {
      assert parts[..0] == [] && parts[0..] == parts;
    }
  }

  /** Every part of a template occurs in the text. */
  lemma ConcatContains(parts: seq<string>, k: nat)
    requires k < |parts|
    ensures Contains(Concat(parts), parts[k])
  {
    ConcatSplit(parts, k);
    var rest := parts[k..];
    assert rest[0] == parts[k];
    assert Concat(rest) == parts[k] + Concat(rest[1..]);
    assert Concat(parts) == Concat(parts[..k]) + parts[k] + Concat(rest[1..]);
    ContainsIn(Concat(parts[..k]), parts[k], Concat(rest[1..]));
  }

  // ---- META-INF/container.xml ----

  datatype Rootfile = Rootfile(fullPath: string, mediaType: string)

  const Rootfiles := [Rootfile(PackagePath, ("application/" + "oebps-package+xml"))]

  function RootfileXml(r: Rootfile): string {
    ("    <rootfile " + "full-path=\"") + r.fullPath + "\" media-type=\"" + r.mediaType + "\"/>\n"
  }

  function ContainerXml(): string {
    ("<?xml version=" + "\"1.0\"?>\n")
    + ("<container " + "version=\"1.0\" " + "xmlns=\"urn:" + "oasis:names:tc:" + "opendocument:" + "xmlns:container\">\n")
    + "  <rootfiles>\n"
    + Concat(seq(|Rootfiles|, i requires 0 <= i < |Rootfiles| => RootfileXml(Rootfiles[i])))
    + "  </rootfiles>\n"
    + "</container>"
  }

  // ---- OEBPS/content.opf ----

  datatype ManifestItem = ManifestItem(id: string, href: string, mediaType: string)

  const NcxMediaType := ("application/x-" + "dtbncx+xml")
  const Manifest := [
    ManifestItem("content", "content.html", ("application/" + "xhtml+xml")),
    ManifestItem("toc", "toc.ncx", NcxMediaType)
  ]
  /** The `toc` attribute of the spine, and its `itemref` idrefs. */
  const SpineToc := "toc"
  const Spine := ["content"]

  function ItemXml(m: ManifestItem): string {
    "    <item id=\"" + m.id + "\" href=\"" + m.href + "\" media-type=\"" + m.mediaType + "\"/>\n"
  }

  function ItemrefXml(idref: string): string {
    ("    <itemref " + "idref=\"") + idref + "\"/>\n"
  }

  function DcTitle(title: string): string {
    "<dc:title>" + title + "</dc:title>"
  }

  function ContentOpf(title: string): string {
    Concat(ContentOpfParts(title))
  }

  function ContentOpfParts(title: string): seq<string> {
    [
      XmlDeclaration + "\n"
      + ("<package " + "version=\"2.0\" " + "xmlns=\"http://" + "www.idpf.org/" + "2007/opf\" " + "unique-" + "identifier=" + "\"BookId\">\n")
      + ("  <metadata " + "xmlns:dc=\"http:" + "//purl.org/dc/" + "elements/1.1/\" " + "xmlns:opf=" + "\"http://www." + "idpf.org/2007/" + "opf\">\n")
      + "    ",
      DcTitle(title),
      "\n"
      + ("    <dc:" + "language>en</" + "dc:language>\n")
      + "  </metadata>\n"
      + "  <manifest>\n",
      Concat(seq(|Manifest|, i requires 0 <= i < |Manifest| => ItemXml(Manifest[i]))),
      "  </manifest>\n"
      + "  <spine toc=\"" + SpineToc + "\">\n",
      Concat(seq(|Spine|, i requires 0 <= i < |Spine| => ItemrefXml(Spine[i]))),
      "  </spine>\n"
      + "</package>"
    ]
  }

  // ---- OEBPS/toc.ncx ----

  datatype NavPoint = NavPoint(id: string, playOrder: string, navLabel: string, src: string)

  const NavMap := [NavPoint("navPoint-1", "1", "Start", "content.html")]

  function NavPointXml(p: NavPoint): string {
    "    <navPoint id=\"" + p.id + "\" playOrder=\"" + p.playOrder + "\">\n"
    + ("      <navLabel>" + "<text>") + p.navLabel + "</text></navLabel>\n"
    + ("      <content " + "src=\"") + p.src + "\"/>\n"
    + "    </navPoint>\n"
  }

  function DocTitle(title: string): string {
    "<docTitle><text>" + title + "</text></docTitle>"
  }

  function TocNcx(title: string): string {
    Concat(TocNcxParts(title))
  }

  function TocNcxParts(title: string): seq<string> {
    [
      XmlDeclaration + "\n"
      + ("<ncx version=" + "\"2005-1\" xmlns=" + "\"http://www." + "daisy.org/" + "z3986/2005/ncx/\">\n")
      + "  <head>\n"
      + ("    <meta name=" + "\"dtb:uid\" " + "content=" + "\"BookId\"/>\n")
      + "  </head>\n"
      + "  ",
      DocTitle(title),
      "\n"
      + "  <navMap>\n",
      Concat(seq(|NavMap|, i requires 0 <= i < |NavMap| => NavPointXml(NavMap[i]))),
      "  </navMap>\n"
      + "</ncx>"
    ]
  }

  // ---- OEBPS/content.html ----

  function TitleElement(title: string): string {
    "<title>" + title + "</title>"
  }

  /** The `<div>` that holds the body fragment. */
  function BodyDiv(body: string): string {
    "  <div>\n    " + body + "\n  </div>"
  }

  function ContentHtml(title: string, body: string): string {
    Concat(ContentHtmlParts(title, body))
  }

  function ContentHtmlParts(title: string, body: string): seq<string> {
    [
      XmlDeclaration + "\n",
      Xhtml11Doctype + "\n",
      HtmlRootTag + "\n",
      "<head>\n"
      + "  ",
      TitleElement(title),
      "\n"
      + "</head>\n"
      + "<body>\n",
      BodyDiv(body),
      "\n"
      + "</body>\n"
      + "</html>"
    ]
  }

  // ---- the archive ----

  /** The archive object once a builder has added everything, in the order
      it adds it: `mimetype` with its own STORE option, then each folder
      when it is first named, then the documents without options. */
  function EpubFiles(title: string, body: string): seq<ZipObject> {
    HeadFiles() + PackageFiles(title, ContentHtml(title, body))
  }

  /** The members `generateAsync({ compression: "DEFLATE" })` writes. */
  function EpubMembers(title: string, body: string): seq<ArchiveMember> {
    Generate(EpubFiles(title, body), Deflate)
  }

  /** What a builder leaves in its archive, once its steps have run,
      generates exactly the EPUB members. */
  lemma GeneratedMembers(files: seq<ZipObject>, title: string, body: string)
    requires files == HeadFiles() + PackageFiles(title, ContentHtml(title, body))
    ensures Generate(files, Deflate) == EpubMembers(title, body)
  {
  }

  /** Exactly five files, at the five required paths; `mimetype` holds
      exactly `application/epub+zip` and is stored uncompressed; every other
      file is DEFLATE-compressed; each document holds its template. */
  lemma {:induction false} FiveEntries(title: string, body: string)
    ensures var m := EpubMembers(title, body);
      && FilePaths(m) == [MimetypePath, ContainerPath, PackagePath, NcxPath, ContentPath]
      && FileAt(m, MimetypePath) == Some(StoredFile(MimetypePath, MimeType, Store))
      && FileAt(m, ContainerPath) == Some(StoredFile(ContainerPath, ContainerXml(), Deflate))
      && FileAt(m, PackagePath) == Some(StoredFile(PackagePath, ContentOpf(title), Deflate))
      && FileAt(m, NcxPath) == Some(StoredFile(NcxPath, TocNcx(title), Deflate))
      && FileAt(m, ContentPath) == Some(StoredFile(ContentPath, ContentHtml(title, body), Deflate))
      && (forall k :: 0 <= k < |m| && m[k].StoredFile? ==> (m[k].mode == Store <==> m[k].path == MimetypePath))
  {
    var m := EpubMembers(title, body);
    var m1, m2, m3, m4, m5, m6 := m[1..], m[2..], m[3..], m[4..], m[5..], m[6..];
    assert m[0] == StoredFile(MimetypePath, MimeType, Store);
    assert m[1] == Directory("META-INF/");
    assert m[2] == StoredFile(ContainerPath, ContainerXml(), Deflate);
    assert m[3] == Directory(PackageFolder);
    assert m[4] == StoredFile(PackagePath, ContentOpf(title), Deflate);
    assert m[5] == StoredFile(NcxPath, TocNcx(title), Deflate);
    assert m[6] == StoredFile(ContentPath, ContentHtml(title, body), Deflate);
    assert m1 == m[1..] && m2 == m1[1..] && m3 == m2[1..] && m4 == m3[1..] && m5 == m4[1..] && m6 == m5[1..];
    assert m6[1..] == [];
    assert FilePaths(m6) == [ContentPath];
    assert FilePaths(m5) == [NcxPath, ContentPath];
    assert FilePaths(m4) == [PackagePath, NcxPath, ContentPath];
    assert FilePaths(m3) == FilePaths(m4);
    assert FilePaths(m2) == [ContainerPath] + FilePaths(m3);
    assert FilePaths(m1) == FilePaths(m2);
    assert FileAt(m6, ContentPath).Some?;
    assert FileAt(m5, ContentPath) == FileAt(m6, ContentPath);
    assert FileAt(m4, ContentPath) == FileAt(m5, ContentPath);
    assert FileAt(m3, ContentPath) == FileAt(m4, ContentPath);
    assert FileAt(m2, ContentPath) == FileAt(m3, ContentPath);
    assert FileAt(m1, ContentPath) == FileAt(m2, ContentPath);
    assert FileAt(m4, NcxPath) == FileAt(m5, NcxPath);
    assert FileAt(m3, NcxPath) == FileAt(m4, NcxPath);
    assert FileAt(m2, NcxPath) == FileAt(m3, NcxPath);
    assert FileAt(m1, NcxPath) == FileAt(m2, NcxPath);
    assert FileAt(m3, PackagePath) == FileAt(m4, PackagePath);
    assert FileAt(m2, PackagePath) == FileAt(m3, PackagePath);
    assert FileAt(m1, PackagePath) == FileAt(m2, PackagePath);
    assert FileAt(m1, ContainerPath) == FileAt(m2, ContainerPath);
  }

  /** The references between the documents resolve inside the archive: the
      container's single rootfile is the package document; each manifest
      item is a file under OEBPS/; the spine has the one itemref `content`,
      a manifest id, and its `toc` attribute names the NCX item; the NCX has
      one navPoint, played first, whose source is a manifest item. */
  lemma ReferencesResolve(title: string, body: string)
    ensures var m := EpubMembers(title, body);
      && |Rootfiles| == 1 && FileAt(m, Rootfiles[0].fullPath).Some?
      && (forall i :: 0 <= i < |Manifest| ==> FileAt(m, PackageFolder + Manifest[i].href).Some?)
      && seq(|Manifest|, i requires 0 <= i < |Manifest| => Manifest[i].id) == ["content", "toc"]
      && Spine == ["content"]
      && (exists i :: 0 <= i < |Manifest| && Manifest[i].id == SpineToc && Manifest[i].mediaType == NcxMediaType)
      && |NavMap| == 1 && NavMap[0].playOrder == "1" && NavMap[0].src == "content.html"
      && (exists i :: 0 <= i < |Manifest| && Manifest[i].href == NavMap[0].src)
  {
    FiveEntries(title, body);
    assert Manifest[1].id == SpineToc;
    assert Manifest[0].href == NavMap[0].src;
    assert PackageFolder + Manifest[0].href == ContentPath;
    assert PackageFolder + Manifest[1].href == NcxPath;
  }

  /** content.html opens with the XML declaration and then the XHTML 1.1
      DOCTYPE and the XHTML-namespace root with `xml:lang="en"`; it has the
      title verbatim in `<title>` and the body fragment verbatim inside the
      `<div>`. */
  lemma HtmlShape(title: string, body: string)
    ensures var h := ContentHtml(title, body);
      && StartsWith(h, XmlDeclaration + "\n" + Xhtml11Doctype + "\n" + HtmlRootTag + "\n")
      && Contains(h, "<title>" + title + "</title>")
      && Contains(h, "  <div>\n    " + body + "\n  </div>")
  {
    var parts := ContentHtmlParts(title, body);
    ConcatContains(parts, 4);
    ConcatContains(parts, 6);
    HtmlPrologue(title, body);
  }

  /** The first three parts of content.html are its prologue. */
  lemma HtmlPrologue(title: string, body: string)
    ensures StartsWith(ContentHtml(title, body), XmlDeclaration + "\n" + Xhtml11Doctype + "\n" + HtmlRootTag + "\n")
  {
    ConcatPrefix3(ContentHtmlParts(title, body), XmlDeclaration + "\n" + Xhtml11Doctype + "\n" + HtmlRootTag + "\n");
  }

  /** A template starts with its first three parts. */
  lemma ConcatPrefix3(parts: seq<string>, p: string)
    requires |parts| >= 3 && p == parts[0] + parts[1] + parts[2]
    ensures StartsWith(Concat(parts), p)
  {
    var r := Concat(parts[3..]);
    assert parts[1..][1..] == parts[2..] && parts[2..][1..] == parts[3..];
    assert Concat(parts[2..]) == parts[2] + r;
    assert Concat(parts[1..]) == parts[1] + (parts[2] + r);
    PrefixOfThree(parts[0], parts[1], parts[2], r);
  }

  lemma PrefixOfThree(a: string, b: string, c: string, r: string)
    ensures StartsWith(a + (b + (c + r)), a + b + c)
  {
    assert a + (b + (c + r)) == (a + b + c) + r;
    assert ((a + b + c) + r)[..|a + b + c|] == a + b + c;
  }

  /** content.opf carries the title verbatim in `<dc:title>`. */
  lemma OpfTitle(title: string)
    ensures Contains(ContentOpf(title), "<dc:title>" + title + "</dc:title>")
  {
    ConcatContains(ContentOpfParts(title), 1);
  }

  /** container.xml holds its one rootfile element, which names the
      package document. */
  lemma ContainerRootfile()
    ensures Contains(ContainerXml(), RootfileXml(Rootfile(PackagePath, ("application/" + "oebps-package+xml"))))
  {
    var r := RootfileXml(Rootfiles[0]);
    assert Concat(seq(|Rootfiles|, i requires 0 <= i < |Rootfiles| => RootfileXml(Rootfiles[i]))) == r + "";
    var pre := ("<?xml version=" + "\"1.0\"?>\n")
      + ("<container " + "version=\"1.0\" " + "xmlns=\"urn:" + "oasis:names:tc:" + "opendocument:" + "xmlns:container\">\n")
      + "  <rootfiles>\n";
    assert ContainerXml() == pre + r + ("  </rootfiles>\n" + "</container>");
    ContainsIn(pre, r, "  </rootfiles>\n" + "</container>");
  }

  /** content.opf lists both manifest items and the spine's one itemref. */
  lemma OpfManifestAndSpine(title: string)
    ensures Contains(ContentOpf(title), ItemXml(Manifest[0]))
    ensures Contains(ContentOpf(title), ItemXml(Manifest[1]))
    ensures Contains(ContentOpf(title), ItemrefXml("content"))
  {
    var parts := ContentOpfParts(title);
    var items := seq(|Manifest|, i requires 0 <= i < |Manifest| => ItemXml(Manifest[i]));
    ConcatContainsNested(parts, 3, items, 0);
    ConcatContainsNested(parts, 3, items, 1);
    var refs := seq(|Spine|, i requires 0 <= i < |Spine| => ItemrefXml(Spine[i]));
    ConcatContainsNested(parts, 5, refs, 0);
  }

  /** toc.ncx holds the one navPoint, played first, pointing at content.html. */
  lemma NcxNavPoint(title: string)
    ensures Contains(TocNcx(title), NavPointXml(NavPoint("navPoint-1", "1", "Start", "content.html")))
  {
    var points := seq(|NavMap|, i requires 0 <= i < |NavMap| => NavPointXml(NavMap[i]));
    ConcatContainsNested(TocNcxParts(title), 3, points, 0);
  }

  /** An item of a list laid out as one part of a template occurs in the
      text. */
  lemma ConcatContainsNested(parts: seq<string>, k: nat, items: seq<string>, j: nat)
    requires k < |parts| && parts[k] == Concat(items) && j < |items|
    ensures Contains(Concat(parts), items[j])
  {
    ConcatContains(parts, k);
    ConcatContains(items, j);
    ContainsTrans(Concat(parts), Concat(items), items[j]);
  }

  /** toc.ncx carries the title verbatim in `<docTitle>`. */
  lemma NcxTitle(title: string)
    ensures Contains(TocNcx(title), "<docTitle><text>" + title + "</text></docTitle>")
  {
    ConcatContains(TocNcxParts(title), 1);
  }

  // ---- the builder steps both files share ----

  /** The DEFLATE level both builders pass to `generateAsync`. */
  const DeflateLevel: nat := 5

  /** The entries before the package documents: `mimetype` with its own
      option, the META-INF folder and `container.xml`. */
  function HeadFiles(): seq<ZipObject> {
    [ FileObject(MimetypePath, MimeType, Some(Store)),
      FolderObject("META-INF/"),
      FileObject(ContainerPath, ContainerXml(), None) ]
  }

  /** The OEBPS folder and the three documents, with the given XHTML text. */
  function PackageFiles(title: string, htmlContent: string): seq<ZipObject> {
    [ FolderObject(PackageFolder),
      FileObject(PackagePath, ContentOpf(title), None),
      FileObject(NcxPath, TocNcx(title), None),
      FileObject(ContentPath, htmlContent, None) ]
  }

  /** The first two additions: `mimetype` with the STORE option, then
      `container.xml` under a new META-INF folder. */
  method AddMimetypeAndContainer(zip: Zip)
    requires zip.Valid() && zip.files == []
    modifies zip
    ensures zip.Valid()
    ensures zip.files == HeadFiles()
  {
    HeadSteps();
    zip.File(MimetypePath, MimeType, Some(Store));
    var metaInf := zip.Folder("META-INF");
    zip.File(metaInf + "container.xml", ContainerXml(), None);
  }

  /** The archive object after each of those additions. */
  lemma HeadSteps()
    ensures FolderName("META-INF") == "META-INF/"
    ensures Put([], FileObject(MimetypePath, MimeType, Some(Store))) == HeadFiles()[..1]
    ensures Lookup(HeadFiles()[..1], "META-INF/").None?
    ensures HeadFiles()[..1] + [FolderObject("META-INF/")] == HeadFiles()[..2]
    ensures Put(HeadFiles()[..2], FileObject("META-INF/" + "container.xml", ContainerXml(), None)) == HeadFiles()
  {
    assert "META-INF/" + "container.xml" == ContainerPath;
    assert Lookup(HeadFiles()[..2], ContainerPath).None?;
  }

  /** The last additions: the package, navigation and content documents
      under the OEBPS folder, each through a fresh `zip.folder("OEBPS")`. */
  method AddPackageDocuments(zip: Zip, title: string, htmlContent: string)
    requires zip.Valid() && zip.files == HeadFiles()
    modifies zip
    ensures zip.Valid()
    ensures zip.files == HeadFiles() + PackageFiles(title, htmlContent)
  {
    PackageSteps(title, htmlContent);
    var oebps := zip.Folder("OEBPS");
    zip.File(oebps + "content.opf", ContentOpf(title), None);
    oebps := zip.Folder("OEBPS");
    zip.File(oebps + "toc.ncx", TocNcx(title), None);
    oebps := zip.Folder("OEBPS");
    zip.File(oebps + "content.html", htmlContent, None);
  }

  /** The archive object after each of those additions: the folder is added
      once, and each document under a name not yet taken. */
  lemma PackageSteps(title: string, htmlContent: string)
    ensures FolderName("OEBPS") == PackageFolder
    ensures var h, p := HeadFiles(), PackageFiles(title, htmlContent);
      && Lookup(h, PackageFolder).None?
      && h + [FolderObject(PackageFolder)] == h + p[..1]
      && Put(h + p[..1], FileObject(PackageFolder + "content.opf", ContentOpf(title), None)) == h + p[..2]
      && Lookup(h + p[..2], PackageFolder).Some?
      && Put(h + p[..2], FileObject(PackageFolder + "toc.ncx", TocNcx(title), None)) == h + p[..3]
      && Lookup(h + p[..3], PackageFolder).Some?
      && Put(h + p[..3], FileObject(PackageFolder + "content.html", htmlContent, None)) == h + p
  {
    var h, p := HeadFiles(), PackageFiles(title, htmlContent);
    PackageStep1(h, p);
    PackageStep2(h, p, title);
    PackageStep3(h, p, title);
    PackageStep4(h, p, htmlContent);
  }

  lemma PackageStep1(h: seq<ZipObject>, p: seq<ZipObject>)
    requires h == HeadFiles() && |p| == 4 && p[0] == FolderObject(PackageFolder)
    ensures FolderName("OEBPS") == PackageFolder
    ensures Lookup(h, PackageFolder).None?
    ensures h + [FolderObject(PackageFolder)] == h + p[..1]
  {
    PackageFolderNew(h);
  }

  lemma PackageFolderNew(h: seq<ZipObject>)
    requires h == HeadFiles()
    ensures Lookup(h, PackageFolder).None?
  {
    NamesNotTaken(h, PackageFolder);
  }

  lemma NamesNotTaken(h: seq<ZipObject>, n: string)
    requires h == HeadFiles()
    requires n != MimetypePath && n != "META-INF/" && n != ContainerPath
    ensures Lookup(h, n).None?
  {
  }

  lemma PackageStep2(h: seq<ZipObject>, p: seq<ZipObject>, title: string)
    requires h == HeadFiles() && |p| == 4 && p[0] == FolderObject(PackageFolder)
    requires p[1] == FileObject(PackagePath, ContentOpf(title), None)
    ensures Put(h + p[..1], FileObject(PackageFolder + "content.opf", ContentOpf(title), None)) == h + p[..2]
  {
    assert PackageFolder + "content.opf" == PackagePath;
    PutNew(h + p[..1], p[1]);
    assert (h + p[..1]) + [p[1]] == h + p[..2];
  }

  lemma PackageStep3(h: seq<ZipObject>, p: seq<ZipObject>, title: string)
    requires h == HeadFiles() && |p| == 4 && p[0] == FolderObject(PackageFolder)
    requires p[1].name == PackagePath
    requires p[2] == FileObject(NcxPath, TocNcx(title), None)
    ensures Lookup(h + p[..2], PackageFolder).Some?
    ensures Put(h + p[..2], FileObject(PackageFolder + "toc.ncx", TocNcx(title), None)) == h + p[..3]
  {
    assert PackageFolder + "toc.ncx" == NcxPath;
    PutNew(h + p[..2], p[2]);
    assert (h + p[..2]) + [p[2]] == h + p[..3];
    assert (h + p[..2])[3] == FolderObject(PackageFolder);
  }

  lemma PackageStep4(h: seq<ZipObject>, p: seq<ZipObject>, htmlContent: string)
    requires h == HeadFiles() && |p| == 4 && p[0] == FolderObject(PackageFolder)
    requires p[1].name == PackagePath && p[2].name == NcxPath
    requires p[3] == FileObject(ContentPath, htmlContent, None)
    ensures Lookup(h + p[..3], PackageFolder).Some?
    ensures Put(h + p[..3], FileObject(PackageFolder + "content.html", htmlContent, None)) == h + p
  {
    assert PackageFolder + "content.html" == ContentPath;
    PutNew(h + p[..3], p[3]);
    assert (h + p[..3]) + [p[3]] == h + p;
    assert (h + p[..3])[3] == FolderObject(PackageFolder);
  }

  /** A name none of the entries has is appended by Put. */
  lemma PutNew(files: seq<ZipObject>, o: ZipObject)
    requires forall k :: 0 <= k < |files| ==> files[k].name != o.name
    ensures Put(files, o) == files + [o]
  {
  }
}
