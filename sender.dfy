/** `sendNoteToDevice` (main.ts:73-267): the command that sends the open
    note to the reader. The method keeps the source's mutable locals and its
    directory-creation loop; `Run` states, as a function of the inputs, the
    requests the command issues and the notices it shows. The network is a
    function from the upload request to the device's response. */
module Sender {
  import opened Wrappers
  import opened Utf8
  import opened Text
  import opened Escaping
  import opened JsZip
  import opened EpubContainer
  import opened Upload

  /** The plugin settings the command reads. */
  datatype Settings = Settings(
    deviceIp: string,
    devicePort: string,
    uploadPath: string,
    autoCreateDir: bool,
    convertToEpub: bool)

  /** A `requestUrl` POST: a directory creation (`/mkdir?path=…&name=…`) or
      the upload (`/upload?path=…`) with its Content-Type header and body. */
  datatype Request =
    | MkdirRequest(host: string, port: string, parent: string, name: string)
    | UploadRequest(host: string, port: string, path: string, contentType: string, body: seq<byte>)

  datatype Response = Response(status: int, text: string)

  /** The device's answer to the upload, or None when `requestUrl` rejects. */
  type Device = Request -> Option<Response>

  /** Why the send failed. */
  datatype SendError =
    | RequestRejected
    | DeviceStatus(status: int, text: string)

  /** The notices the command shows, with the values their texts carry. */
  datatype Notice =
    | ConfigureIpNotice
    | NoActiveFileNotice
    | SendingNotice(filename: string)
    | ConvertingNotice(filename: string)
    | FallbackNotice
    | SentNotice(exportFilename: string)
    | FailedNotice(error: SendError)

  const MarkdownType := "text/markdown"

  /** Only status 200 is a success; any other status is an error carrying the
      status and the response text. */
  function CheckResponse(response: Option<Response>): (r: Option<SendError>)
    ensures r.None? <==> response.Some? && response.value.status == 200
    ensures response.None? ==> r == Some(RequestRejected)
    ensures response.Some? && response.value.status != 200
            ==> r == Some(DeviceStatus(response.value.status, response.value.text))
  {
    match response
    case None => Some(RequestRejected)
    case Some(resp) => if resp.status == 200 then None else Some(DeviceStatus(resp.status, resp.text))
  }

  /** The notice that ends a send. */
  function OutcomeNotice(error: Option<SendError>, exportFilename: string): Notice {
    match error
    case None => SentNotice(exportFilename)
    case Some(e) => FailedNotice(e)
  }

  /** The inline EPUB builder (main.ts:103-189): the same archive as the
      marked-based one, with the escaped note text as the body. */
  method BuildInlineEpub(content: string, filename: string, writer: ZipWriter)
    returns (u8array: Option<seq<byte>>)
    ensures u8array == writer(EpubMembers(filename, EscapeContent(content)), DeflateLevel)
  {
    var zip := new Zip();
    AddMimetypeAndContainer(zip);
    var escapedContent := EscapeContent(content);
    var htmlContent := ContentHtml(filename, escapedContent);
    AddPackageDocuments(zip, filename, htmlContent);
    GeneratedMembers(zip.files, filename, escapedContent);
    u8array := writer(Generate(zip.files, Deflate), DeflateLevel);
  }

  /** What is uploaded: the bytes, the name and the content type, and
      whether the EPUB conversion fell back to the note text. */
  datatype Payload = Payload(buffer: seq<byte>, exportFilename: string, contentType: string, fellBack: bool)

  function SelectedPayload(convertToEpub: bool, filename: string, content: string, writer: ZipWriter): Payload {
    if !convertToEpub then Payload(Encode(content), filename, MarkdownType, false)
    else match writer(EpubMembers(filename, EscapeContent(content)), DeflateLevel)
      case Some(bytes) => Payload(bytes, EpubName(filename), MimeType, false)
      case None => Payload(Encode(content), EpubName(filename), MimeType, true)
  }

  /** The payload: with conversion off, the note's UTF-8 text under its own
      name as `text/markdown`; with conversion on, the EPUB archive of the
      escaped note under the `.epub` name, or, when the archive cannot be
      written, the UTF-8 text while the `.epub` name and the EPUB type stay. */
  lemma PayloadSpec(convertToEpub: bool, filename: string, content: string, writer: ZipWriter)
    ensures var p := SelectedPayload(convertToEpub, filename, content, writer);
      && (p.contentType == MimeType <==> convertToEpub)
      && (p.contentType == MarkdownType <==> !convertToEpub)
      && p.exportFilename == (if convertToEpub then EpubName(filename) else filename)
      && (p.fellBack <==> convertToEpub && writer(EpubMembers(filename, EscapeContent(content)), DeflateLevel).None?)
      && (!convertToEpub || p.fellBack ==> p.buffer == Encode(content))
      && (convertToEpub && !p.fellBack ==>
            Some(p.buffer) == writer(EpubMembers(filename, EscapeContent(content)), DeflateLevel))
  {
    assert MimeType != MarkdownType by {
      assert MimeType[0] != MarkdownType[0];
    }
  }

  /** The mkdir requests for a list of segments. */
  function MkdirRequests(ip: string, port: string, segs: seq<string>): seq<Request> {
    var plan := MkdirPlan(segs);
    seq(|plan|, k requires 0 <= k < |plan| => MkdirRequest(ip, port, plan[k].0, plan[k].1))
  }

  /** The upload request for a payload. */
  function UploadOf(ip: string, port: string, uploadPath: string, boundary: string, p: Payload): Request {
    UploadRequest(ip, port, uploadPath, MultipartContentType(boundary),
      Encode(MultipartHeader(boundary, p.exportFilename, p.contentType))
      + p.buffer + Encode(MultipartFooter(boundary)))
  }

  /** The mkdir requests, issued only when auto-creation is on and the
      upload path is not `/`, then the upload. */
  function Requests(ip: string, settings: Settings, boundarySuffix: string, p: Payload): seq<Request> {
    var port := NormalizePort(settings.devicePort);
    var uploadPath := NormalizeUploadPath(settings.uploadPath);
    var mkdirs := if settings.autoCreateDir && uploadPath != "/" then MkdirRequests(ip, port, Segments(uploadPath)) else [];
    mkdirs + [UploadOf(ip, port, uploadPath, Boundary(boundarySuffix), p)]
  }

  /** The notices shown while the payload is chosen. */
  function ConversionNotices(convertToEpub: bool, filename: string, p: Payload): seq<Notice> {
    (if convertToEpub then [ConvertingNotice(filename)] else [])
    + (if p.fellBack then [FallbackNotice] else [])
  }

  /** The requests the command issues and the notices it shows, in order. */
  function Run(settings: Settings, file: Option<string>, content: string, boundarySuffix: string,
               writer: ZipWriter, device: Device): (seq<Request>, seq<Notice>)
  {
    var ip := Trim(settings.deviceIp);
    if ip == [] then ([], [ConfigureIpNotice])
    else if file.None? then ([], [NoActiveFileNotice])
    else
      var p := SelectedPayload(settings.convertToEpub, file.value, content, writer);
      var requests := Requests(ip, settings, boundarySuffix, p);
      (requests,
       [SendingNotice(file.value)] + ConversionNotices(settings.convertToEpub, file.value, p)
       + [OutcomeNotice(CheckResponse(device(requests[|requests| - 1])), p.exportFilename)])
  }

  /** The directory-creation loop (main.ts:231-242): one request per
      segment under the accumulated path, which advances whatever the
      request's outcome; at the end it is `/` and all segments joined. */
  method CreateDirectories(ip: string, port: string, uploadPath: string)
    returns (requests: seq<Request>, currentPath: string)
    ensures requests == MkdirRequests(ip, port, Segments(uploadPath))
    ensures currentPath == "/" + Join(Segments(uploadPath), "/")
  {
    var segments := Segments(uploadPath);
    requests := [];
    currentPath := "/";
    var i := 0;
    while i < |segments|
      invariant 0 <= i <= |segments|
      invariant currentPath == ParentAt(segments, i)
      invariant requests == MkdirRequests(ip, port, segments[..i])
    {
      requests := requests + [MkdirRequest(ip, port, currentPath, segments[i])];
      AdvanceParent(segments, i);
      MkdirRequestsSnoc(ip, port, segments, i);
      currentPath := Advance(currentPath, segments[i]);
      i := i + 1;
    }
    assert segments[..i] == segments;
  }

  /** The requests for one more segment add the request for that segment. */
  lemma MkdirRequestsSnoc(ip: string, port: string, segs: seq<string>, i: nat)
    requires i < |segs|
    ensures MkdirRequests(ip, port, segs[..i + 1])
            == MkdirRequests(ip, port, segs[..i]) + [MkdirRequest(ip, port, ParentAt(segs, i), segs[i])]
  {
    var a, b := segs[..i + 1], segs[..i];
    forall k | 0 <= k < i
      ensures MkdirRequests(ip, port, a)[k] == MkdirRequests(ip, port, b)[k]
    {
      assert a[..k] == b[..k];
    }
    assert a[..i] == b;
  }

  /** The payload selection (main.ts:93-197). Its locals change as in the
      source: the export name and the content type start as the note's and
      switch to the EPUB ones when converting; the file buffer is set on
      every branch, so the null-buffer guard of main.ts:200 can never fire. */
  method SelectPayload(convertToEpub: bool, filename: string, content: string, writer: ZipWriter)
    returns (p: Payload, notices: seq<Notice>)
    ensures p == SelectedPayload(convertToEpub, filename, content, writer)
    ensures notices == ConversionNotices(convertToEpub, filename, p)
  {
    notices := [];
    var fileBuffer: seq<byte>;
    var exportFilename := filename;
    var contentType := MarkdownType;
    var fellBack := false;
    if convertToEpub {
      notices := notices + [ConvertingNotice(filename)];
      exportFilename := EpubName(filename);
      contentType := MimeType;
      var u8array := BuildInlineEpub(content, filename, writer);
      if u8array.Some? {
        fileBuffer := u8array.value;
      } else {
        notices := notices + [FallbackNotice];
        fellBack := true;
        fileBuffer := Encode(content);
      }
    } else {
      fileBuffer := Encode(content);
    }
    p := Payload(fileBuffer, exportFilename, contentType, fellBack);
  }

  /** The multipart body (main.ts:205-222): the encoded header, the
      payload's bytes and the encoded footer, copied into one buffer. */
  method BuildBody(boundary: string, p: Payload) returns (combinedBody: seq<byte>)
    ensures combinedBody == Encode(MultipartHeader(boundary, p.exportFilename, p.contentType))
                            + p.buffer + Encode(MultipartFooter(boundary))
  {
    var headerBuffer := Encode(MultipartHeader(boundary, p.exportFilename, p.contentType));
    var footerBuffer := Encode(MultipartFooter(boundary));
    combinedBody := CombineBody(headerBuffer, p.buffer, footerBuffer);
  }

  /** The requests (main.ts:205-254): the multipart body, the directories,
      then the upload. */
  method IssueRequests(ip: string, settings: Settings, boundarySuffix: string, p: Payload)
    returns (requests: seq<Request>)
    ensures requests == Requests(ip, settings, boundarySuffix, p)
  {
    var boundary := Boundary(boundarySuffix);
    var combinedBody := BuildBody(boundary, p);

    var port := NormalizePort(settings.devicePort);
    var uploadPath := NormalizeUploadPath(settings.uploadPath);
    var mkdirs: seq<Request> := [];
    if settings.autoCreateDir && uploadPath != "/" {
      var currentPath;
      mkdirs, currentPath := CreateDirectories(ip, port, uploadPath);
    }
    requests := mkdirs + [UploadRequest(ip, port, uploadPath, MultipartContentType(boundary), combinedBody)];
  }

  /** The command: the two early returns, the payload, the requests, and
      the notice the upload's response decides. */
  method SendNoteToDevice(settings: Settings, file: Option<string>, content: string, boundarySuffix: string,
                          writer: ZipWriter, device: Device)
    returns (requests: seq<Request>, notices: seq<Notice>)
    ensures (requests, notices) == Run(settings, file, content, boundarySuffix, writer, device)
  {
    var ip := Trim(settings.deviceIp);
    if ip == [] {
      return [], [ConfigureIpNotice];
    }
    if file.None? {
      return [], [NoActiveFileNotice];
    }
    var filename := file.value;
    notices := [SendingNotice(filename)];
    var p, conversionNotices := SelectPayload(settings.convertToEpub, filename, content, writer);
    notices := notices + conversionNotices;
    requests := IssueRequests(ip, settings, boundarySuffix, p);
    var response := device(requests[|requests| - 1]);
    if response.Some? && response.value.status == 200 {
      notices := notices + [SentNotice(p.exportFilename)];
    } else {
      var error := if response.None? then RequestRejected
                   else DeviceStatus(response.value.status, response.value.text);
      notices := notices + [FailedNotice(error)];
    }
  }

  // ---- what a run promises ----

  /** Without a device address nothing is sent and the user is asked to
      configure one; without an open note nothing is sent either. */
  lemma EarlyReturns(settings: Settings, file: Option<string>, content: string, boundarySuffix: string,
                     writer: ZipWriter, device: Device)
    ensures var (requests, notices) := Run(settings, file, content, boundarySuffix, writer, device);
      && (Trim(settings.deviceIp) == [] ==> requests == [] && notices == [ConfigureIpNotice])
      && (Trim(settings.deviceIp) != [] && file.None? ==> requests == [] && notices == [NoActiveFileNotice])
      && (requests == [] <==> Trim(settings.deviceIp) == [] || file.None?)
  {
  }

  /** The requests of a send: one mkdir per non-empty segment of the upload
      path, in order, each under the path the segments before it make, and
      only when auto-creation is on and the path is not `/`; then one upload
      to the normalised path whose Content-Type announces the boundary and
      whose body is the encoded header, the payload and the encoded footer. */
  predicate SendsAsPromised(requests: seq<Request>, ip: string, port: string, uploadPath: string,
                            makeDirs: bool, boundary: string, p: Payload)
  {
    var segs := Segments(uploadPath);
    && |requests| == (if makeDirs then |segs| else 0) + 1
    && (forall k :: 0 <= k < |requests| - 1 ==>
          requests[k] == MkdirRequest(ip, port, ParentAt(segs, k), segs[k]))
    && var last := requests[|requests| - 1];
    && last.UploadRequest? && last.host == ip && last.port == port && last.path == uploadPath
    && BoundaryParameter(last.contentType) == Some(boundary)
    && last.body == Encode(MultipartHeader(boundary, p.exportFilename, p.contentType))
                    + p.buffer + Encode(MultipartFooter(boundary))
  }

  /** A send that gets past the early returns issues those requests. */
  lemma SendRequests(settings: Settings, file: Option<string>, content: string, boundarySuffix: string,
                     writer: ZipWriter, device: Device)
    requires Trim(settings.deviceIp) != [] && file.Some?
    ensures var uploadPath := NormalizeUploadPath(settings.uploadPath);
      SendsAsPromised(Run(settings, file, content, boundarySuffix, writer, device).0,
        Trim(settings.deviceIp), NormalizePort(settings.devicePort), uploadPath,
        settings.autoCreateDir && uploadPath != "/", Boundary(boundarySuffix),
        SelectedPayload(settings.convertToEpub, file.value, content, writer))
  {
    var ip := Trim(settings.deviceIp);
    var p := SelectedPayload(settings.convertToEpub, file.value, content, writer);
    assert Run(settings, file, content, boundarySuffix, writer, device).0 == Requests(ip, settings, boundarySuffix, p);
    RequestsShape(ip, settings, boundarySuffix, p);
  }

  /** The requests for a chosen payload keep that promise. */
  lemma RequestsShape(ip: string, settings: Settings, boundarySuffix: string, p: Payload)
    ensures var uploadPath := NormalizeUploadPath(settings.uploadPath);
      SendsAsPromised(Requests(ip, settings, boundarySuffix, p), ip, NormalizePort(settings.devicePort),
        uploadPath, settings.autoCreateDir && uploadPath != "/", Boundary(boundarySuffix), p)
  {
    AnnouncedBoundary(Boundary(boundarySuffix));
  }

  /** The send ends with a success notice exactly when the device answers
      the upload with status 200; otherwise it ends with the failure,
      carrying the status and the response text, or the rejection. */
  predicate EndsAsPromised(requests: seq<Request>, notices: seq<Notice>, device: Device,
                           filename: string, exportFilename: string)
  {
    && requests != [] && notices != []
    && notices[0] == SendingNotice(filename)
    && var response := device(requests[|requests| - 1]);
    && var final := notices[|notices| - 1];
    && (final == SentNotice(exportFilename) <==> response.Some? && response.value.status == 200)
    && (response.Some? && response.value.status != 200 ==>
          final == FailedNotice(DeviceStatus(response.value.status, response.value.text)))
    && (response.None? ==> final == FailedNotice(RequestRejected))
  }

  /** A send that gets past the early returns ends as promised. */
  lemma SendOutcome(settings: Settings, file: Option<string>, content: string, boundarySuffix: string,
                    writer: ZipWriter, device: Device)
    requires Trim(settings.deviceIp) != [] && file.Some?
    ensures var run := Run(settings, file, content, boundarySuffix, writer, device);
      EndsAsPromised(run.0, run.1, device, file.value,
        SelectedPayload(settings.convertToEpub, file.value, content, writer).exportFilename)
  {
    var ip := Trim(settings.deviceIp);
    var p := SelectedPayload(settings.convertToEpub, file.value, content, writer);
    var requests := Requests(ip, settings, boundarySuffix, p);
    var middle := ConversionNotices(settings.convertToEpub, file.value, p);
    var outcome := OutcomeNotice(CheckResponse(device(requests[|requests| - 1])), p.exportFilename);
    assert Run(settings, file, content, boundarySuffix, writer, device)
        == (requests, [SendingNotice(file.value)] + middle + [outcome]);
    NoticesEnd(requests, middle, device, file.value, p.exportFilename);
  }

  /** The notices of a send that reached the upload keep that promise. */
  lemma NoticesEnd(requests: seq<Request>, middle: seq<Notice>, device: Device,
                   filename: string, exportFilename: string)
    requires requests != []
    ensures var notices := [SendingNotice(filename)] + middle
          + [OutcomeNotice(CheckResponse(device(requests[|requests| - 1])), exportFilename)];
      EndsAsPromised(requests, notices, device, filename, exportFilename)
  {
    OutcomeCases(device(requests[|requests| - 1]), exportFilename);
  }

  /** The final notice for each kind of answer. */
  lemma OutcomeCases(response: Option<Response>, exportFilename: string)
    ensures var final := OutcomeNotice(CheckResponse(response), exportFilename);
      && (final == SentNotice(exportFilename) <==> response.Some? && response.value.status == 200)
      && (response.Some? && response.value.status != 200 ==>
            final == FailedNotice(DeviceStatus(response.value.status, response.value.text)))
      && (response.None? ==> final == FailedNotice(RequestRejected))
  {
  }

  /** The upload's header can be read back: it names the export name and
      the content type the payload chose, under the announced boundary,
      when neither the random suffix nor the note's name holds a carriage
      return. */
  lemma SendHeaderReadable(settings: Settings, file: Option<string>, content: string, boundarySuffix: string,
                           writer: ZipWriter)
    requires file.Some? && '\r' !in file.value
    requires '\r' !in boundarySuffix
    ensures var p := SelectedPayload(settings.convertToEpub, file.value, content, writer);
      var boundary := Boundary(boundarySuffix);
      ReadHeader(MultipartHeader(boundary, p.exportFilename, p.contentType))
        == Some(PartHeader(boundary, p.exportFilename, p.contentType))
  {
    var p := SelectedPayload(settings.convertToEpub, file.value, content, writer);
    var boundary := Boundary(boundarySuffix);
    assert '\r' !in ("----WebKit" + "FormBoundary");
    assert '\r' !in MarkdownType && '\r' !in MimeType;
    if settings.convertToEpub {
      assert '\r' !in ".epub";
      EpubNameSpec(file.value);
      assert '\r' !in p.exportFilename;
    }
    HeaderRoundTrip(boundary, p.exportFilename, p.contentType);
  }
}
