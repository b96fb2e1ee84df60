/** `generateEpubBuffer` (epub.ts:8-118): the marked-based EPUB builder.
    The markdown engine, the DOM parser and serialiser and the ZIP writer
    are foreign code and come in as functions; the archive object is the
    mutable JsZip.Zip the shared builder steps fill. */
module Epub {
  import opened Wrappers
  import opened Utf8
  import opened Text
  import opened JsZip
  import opened EpubContainer

  /** Why the promise rejects. */
  datatype EpubError =
    | MarkdownFailed        // `marked.parse` rejected
    | DomParserMissing      // `typeof DOMParser === 'undefined'`
    | XmlSerializerMissing  // `typeof XMLSerializer === 'undefined'`
    | ArchiveFailed         // `zip.generateAsync` rejected

  /** What the builder finds in its environment: `marked.parse` with
      `breaks` and `gfm` on, whether the two DOM globals exist, and the
      serialised top-level nodes of the body that DOMParser builds from an
      HTML text (each one passed through `serializeToString`). */
  datatype Environment = Environment(
    markedParse: string -> Option<string>,
    hasDomParser: bool,
    hasXmlSerializer: bool,
    serializedBodyNodes: string -> seq<string>)

  /** The separator the body nodes are joined with: a backslash followed by
      the letter n, two characters, not a line feed. */
  const NodeSeparator := ['\\', 'n']

  /** `Array.from(doc.body.childNodes).map(serialize).join("\\n")` */
  function BodyFragment(nodes: seq<string>): string {
    Join(nodes, NodeSeparator)
  }

  /** Joining adds no line feed: the fragment has one exactly where a node has one. */
  lemma BodyFragmentNewlines(nodes: seq<string>)
    ensures ('\n' in BodyFragment(nodes)) <==> (exists i :: 0 <= i < |nodes| && '\n' in nodes[i])
  {
    JoinHas(nodes, NodeSeparator, '\n');
  }

  /** The fragment is the nodes laid end to end with one two-character
      separator between each neighbouring pair. */
  lemma {:induction false} BodyFragmentLength(nodes: seq<string>)
    ensures |BodyFragment(nodes)| == TotalLength(nodes) + (if nodes == [] then 0 else 2 * (|nodes| - 1))
  {
    if |nodes| > 1 {
      BodyFragmentLength(nodes[1..]);
    }
  }

  function TotalLength(nodes: seq<string>): nat {
    if nodes == [] then 0 else |nodes[0]| + TotalLength(nodes[1..])
  }

  /** A character not in the separator is in a join exactly when some part has it. */
  lemma {:induction false} JoinHas(parts: seq<string>, sep: string, c: char)
    requires c !in sep
    ensures (c in Join(parts, sep)) <==> (exists i :: 0 <= i < |parts| && c in parts[i])
  {
    if |parts| > 1 {
      JoinHas(parts[1..], sep, c);
      assert Join(parts, sep) == parts[0] + sep + Join(parts[1..], sep);
      if exists i :: 0 <= i < |parts| && c in parts[i] {
        var i :| 0 <= i < |parts| && c in parts[i];
        if i > 0 {
          assert c in parts[1..][i - 1];
        }
      }
      if exists i :: 0 <= i < |parts[1..]| && c in parts[1..][i] {
        var i :| 0 <= i < |parts[1..]| && c in parts[1..][i];
        assert c in parts[i + 1];
      }
    } else if |parts| == 1 {
      assert c in parts[0] ==> exists i :: 0 <= i < |parts| && c in parts[i];
    }
  }

  /** The builder. Its steps run in the source's order: the archive gets
      `mimetype` and `container.xml`, the markdown is parsed, the two DOM
      guards throw when a global is missing, the body is serialised and
      wrapped in the XHTML document, the OEBPS documents are added, and the
      archive is written with DEFLATE at level 5. */
  method GenerateEpubBuffer(content: string, filename: string, env: Environment, writer: ZipWriter)
    returns (r: Result<seq<byte>, EpubError>)
    ensures env.markedParse(content).None? ==> r == Failure(MarkdownFailed)
    ensures env.markedParse(content).Some? && !env.hasDomParser ==> r == Failure(DomParserMissing)
    ensures env.markedParse(content).Some? && env.hasDomParser && !env.hasXmlSerializer
            ==> r == Failure(XmlSerializerMissing)
    ensures env.markedParse(content).Some? && env.hasDomParser && env.hasXmlSerializer ==>
              var body := BodyFragment(env.serializedBodyNodes(env.markedParse(content).value));
              r == Written(writer(EpubMembers(filename, body), DeflateLevel))
  {
    var zip := new Zip();
    AddMimetypeAndContainer(zip);
    var parsedHtmlRaw := env.markedParse(content);
    if parsedHtmlRaw.None? {
      return Failure(MarkdownFailed);
    }
    if !env.hasDomParser {
      return Failure(DomParserMissing);
    }
    if !env.hasXmlSerializer {
      return Failure(XmlSerializerMissing);
    }
    var xhtmlBody := BodyFragment(env.serializedBodyNodes(parsedHtmlRaw.value));
    var htmlContent := ContentHtml(filename, xhtmlBody);
    AddPackageDocuments(zip, filename, htmlContent);
    GeneratedMembers(zip.files, filename, xhtmlBody);
    var u8array := writer(Generate(zip.files, Deflate), DeflateLevel);
    if u8array.None? {
      return Failure(ArchiveFailed);
    }
    return Success(u8array.value);
  }

  /** The settled promise of `generateAsync`: the bytes, or a rejection. */
  function Written(u8array: Option<seq<byte>>): (r: Result<seq<byte>, EpubError>)
    ensures r.Success? <==> u8array.Some?
    ensures u8array.Some? ==> r.value == u8array.value
    ensures u8array.None? ==> r.error == ArchiveFailed
  {
    match u8array
    case Some(bytes) => Success(bytes)
    case None => Failure(ArchiveFailed)
  }

  /** The buffer is produced exactly when parsing succeeds, both DOM
      globals exist and the writer succeeds; a missing global always
      rejects, whatever the writer does. */
  lemma GuardsDecide(content: string, filename: string, env: Environment, writer: ZipWriter,
                     r: Result<seq<byte>, EpubError>)
    requires env.markedParse(content).None? ==> r == Failure(MarkdownFailed)
    requires env.markedParse(content).Some? && !env.hasDomParser ==> r == Failure(DomParserMissing)
    requires env.markedParse(content).Some? && env.hasDomParser && !env.hasXmlSerializer
             ==> r == Failure(XmlSerializerMissing)
    requires env.markedParse(content).Some? && env.hasDomParser && env.hasXmlSerializer ==>
               var body := BodyFragment(env.serializedBodyNodes(env.markedParse(content).value));
               r == Written(writer(EpubMembers(filename, body), DeflateLevel))
    ensures r.Success? <==>
              && env.markedParse(content).Some? && env.hasDomParser && env.hasXmlSerializer
              && writer(EpubMembers(filename,
                   BodyFragment(env.serializedBodyNodes(env.markedParse(content).value))), DeflateLevel).Some?
  {
  }
}
