/**
 * The app's local media server (`HttpServer` and its `NanoServer`): the
 * audio file path and image bytes it serves, its started/stopped lifecycle,
 * the MIME table, and how one request becomes a response, including the
 * byte-range arithmetic the server applies to the `Range` header
 * (sections 2.1, 4.1, 4.2 and 4.4 of RFC 7233, partially implemented).
 *
 * The file system enters as an `AudioFile`: the length `File.length()`
 * reports (0 for a missing file) and what opening the file and skipping to
 * the start offset yields. Sockets, stream handles and logging are not
 * modelled.
 */
module HttpServer {
  import opened Wrappers
  import opened JavaLang

  newtype byte = b: int | 0 <= b < 0x100

  const MIME_TYPE_HTML: string := "text/html"

  // ---------------------------------------------------------------------
  // MIME types
  // ---------------------------------------------------------------------

  /** The extension-to-MIME-type table `createMimeTypes` fills. */
  const MIME_TYPES: map<string, string> := map[
    "css" := "text/css", "htm" := "text/html", "html" := "text/html", "xml" := "text/xml",
    "java" := "text/x-java-source, text/java", "md" := "text/plain", "txt" := "text/plain",
    "asc" := "text/plain", "gif" := "image/gif", "jpg" := "image/jpeg", "jpeg" := "image/jpeg",
    "png" := "image/png", "mp3" := "audio/mpeg", "m3u" := "audio/mpeg-url", "mp4" := "video/mp4",
    "ogv" := "video/ogg", "flv" := "video/x-flv", "mov" := "video/quicktime",
    "swf" := "application/x-shockwave-flash", "js" := "application/javascript",
    "pdf" := "application/pdf", "doc" := "application/msword", "ogg" := "application/x-ogg",
    "zip" := "application/octet-stream", "exe" := "application/octet-stream",
    "class" := "application/octet-stream"]

  /** `Map.get`: the value stored under `key`, or `None` for Java's `null`. */
  function MapGet(m: map<string, string>, key: string): (r: Option<string>)
    ensures r.Some? <==> key in m
    ensures r.Some? ==> r.value == m[key]
  {
    if key in m then Some(m[key]) else None
  }

  /** `getMimeType`: the table entry for the text after the last dot of the path. */
  function GetMimeType(mimeTypes: map<string, string>, filePath: string): Option<string> {
    MapGet(mimeTypes, AfterLast(filePath, '.'))
  }

  /** The extension is exactly what follows the last dot. */
  lemma MimeTypeOfExtension(mimeTypes: map<string, string>, stem: string, extension: string)
    requires '.' !in extension
    ensures GetMimeType(mimeTypes, stem + "." + extension) == MapGet(mimeTypes, extension)
  {
    var path := stem + "." + extension;
    AfterLastIsSubstring(path, '.');
    LastIndexOfBefore(stem, '.', extension);
    assert path[|stem| + 1..] == extension;
  }

  /** A path without a dot is looked up whole. */
  lemma MimeTypeWithoutDot(mimeTypes: map<string, string>, path: string)
    requires '.' !in path
    ensures GetMimeType(mimeTypes, path) == MapGet(mimeTypes, path)
  {
    AfterLastIsSubstring(path, '.');
  }

  /** The lookup is case-sensitive: an upper-case extension is unknown. */
  lemma MimeTypeIsCaseSensitive()
    ensures GetMimeType(MIME_TYPES, "track.mp3") == Some("audio/mpeg")
    ensures GetMimeType(MIME_TYPES, "track.MP3") == None
  {
    assert MapGet(MIME_TYPES, "mp3") == Some("audio/mpeg");
    assert MapGet(MIME_TYPES, "MP3") == None;
    assert GetMimeType(MIME_TYPES, "track.mp3") == MapGet(MIME_TYPES, "mp3") by {
      MimeTypeOfExtension(MIME_TYPES, "track", "mp3");
      assert "track" + "." + "mp3" == "track.mp3";
    }
    assert GetMimeType(MIME_TYPES, "track.MP3") == MapGet(MIME_TYPES, "MP3") by {
      MimeTypeOfExtension(MIME_TYPES, "track", "MP3");
      assert "track" + "." + "MP3" == "track.MP3";
    }
  }

  // ---------------------------------------------------------------------
  // Server state
  // ---------------------------------------------------------------------

  /**
   * What the server serves, whether its listener is running, and the MIME
   * table it was built with.
   */
  datatype Server = Server(
    audioFileToServe: Option<string>,
    imageBytesToServe: Option<seq<byte>>,
    isStarted: bool,
    mimeTypes: map<string, string>)

  const Initial: Server := Server(None, None, false, MIME_TYPES)

  /** `serveAudio`: a non-null path replaces the served audio file; null is ignored. */
  function ServeAudio(s: Server, audioUri: Option<string>): (s': Server)
    ensures s'.imageBytesToServe == s.imageBytesToServe && s'.isStarted == s.isStarted && s'.mimeTypes == s.mimeTypes
    ensures s'.audioFileToServe == if audioUri.Some? then audioUri else s.audioFileToServe
  {
    if audioUri.Some? then s.(audioFileToServe := audioUri) else s
  }

  /** `serveImage`: non-null bytes replace the served image; null is ignored. */
  function ServeImage(s: Server, imageBytes: Option<seq<byte>>): (s': Server)
    ensures s'.audioFileToServe == s.audioFileToServe && s'.isStarted == s.isStarted && s'.mimeTypes == s.mimeTypes
    ensures s'.imageBytesToServe == if imageBytes.Some? then imageBytes else s.imageBytesToServe
  {
    if imageBytes.Some? then s.(imageBytesToServe := imageBytes) else s
  }

  /** `clearImage`: the only way to stop serving an image. */
  function ClearImage(s: Server): (s': Server)
    ensures s'.imageBytesToServe.None?
    ensures s'.audioFileToServe == s.audioFileToServe && s'.isStarted == s.isStarted && s'.mimeTypes == s.mimeTypes
  {
    s.(imageBytesToServe := None)
  }

  /**
   * `start`: binds the listener unless already started; `bindSucceeds` is
   * whether NanoHTTPD's `start` returned without an `IOException`.
   */
  function Start(s: Server, bindSucceeds: bool): (s': Server)
    ensures s'.isStarted <==> s.isStarted || bindSucceeds
    ensures s'.audioFileToServe == s.audioFileToServe && s'.imageBytesToServe == s.imageBytesToServe && s'.mimeTypes == s.mimeTypes
  {
    if !s.isStarted && bindSucceeds then s.(isStarted := true) else s
  }

  /** `stop`: unbinds the listener if started, and is a no-op otherwise. */
  function Stop(s: Server): (s': Server)
    ensures !s'.isStarted
    ensures s'.audioFileToServe == s.audioFileToServe && s'.imageBytesToServe == s.imageBytesToServe && s'.mimeTypes == s.mimeTypes
  {
    if s.isStarted then s.(isStarted := false) else s
  }

  /** Once started, a second `start` has no observable effect, whatever the bind would do. */
  lemma StartIdempotent(s: Server, first: bool, second: bool)
    requires Start(s, first).isStarted
    ensures Start(Start(s, first), second) == Start(s, first)
  {
  }

  /** `stop` before any `start` changes nothing, and a second `stop` changes nothing. */
  lemma StopIdempotent(s: Server)
    ensures !s.isStarted ==> Stop(s) == s
    ensures Stop(Stop(s)) == Stop(s)
  {
  }

  /** A call on the server's public API. */
  datatype Call =
    | ServeAudioCall(audioUri: Option<string>)
    | ServeImageCall(imageBytes: Option<seq<byte>>)
    | ClearImageCall
    | StartCall(bindSucceeds: bool)
    | StopCall

  function Step(s: Server, c: Call): Server {
    match c
    case ServeAudioCall(uri) => ServeAudio(s, uri)
    case ServeImageCall(bytes) => ServeImage(s, bytes)
    case ClearImageCall => ClearImage(s)
    case StartCall(ok) => Start(s, ok)
    case StopCall => Stop(s)
  }

  function Run(s: Server, calls: seq<Call>): Server
    decreases |calls|
  {
    if |calls| == 0 then s else Run(Step(s, calls[0]), calls[1..])
  }

  /** The audio path in force: the last non-null path handed to `serveAudio`, else `current`. */
  function LastAudioPath(current: Option<string>, calls: seq<Call>): Option<string>
    decreases |calls|
  {
    if |calls| == 0 then current
    else
      var next := if calls[0].ServeAudioCall? && calls[0].audioUri.Some? then calls[0].audioUri else current;
      LastAudioPath(next, calls[1..])
  }

  /** Last write wins for the audio path, and no call sequence can unset it once set. */
  lemma {:induction false} AudioPathIsLastNonNullWrite(s: Server, calls: seq<Call>)
    ensures Run(s, calls).audioFileToServe == LastAudioPath(s.audioFileToServe, calls)
    ensures s.audioFileToServe.Some? ==> Run(s, calls).audioFileToServe.Some?
    decreases |calls|
  {
    if |calls| > 0 {
      AudioPathIsLastNonNullWrite(Step(s, calls[0]), calls[1..]);
    }
  }

  // ---------------------------------------------------------------------
  // Requests and responses
  // ---------------------------------------------------------------------

  /** A `long` file length as `File.length()` reports it (0 when the file is missing). */
  type FileLength = n: int | 0 <= n <= MAX_LONG

  /** What opening the file and skipping to the start offset yields. */
  datatype SkipOutcome =
    | Skipped(count: int)   // `skip` returned this many bytes
    | IoFailure             // opening or skipping raised an `IOException`

  datatype AudioFile = AudioFile(length: FileLength, access: SkipOutcome)

  /**
   * The outcomes `FileInputStream.skip(start)` can have on a freshly opened
   * stream: a backward skip from offset 0 raises `IOException`, and a forward
   * skip returns at most the count asked for.
   */
  predicate SkipAsJdk(file: AudioFile, start: int) {
    file.access.Skipped? ==> 0 <= start && 0 <= file.access.count <= start
  }

  datatype Request = Request(uri: string, headers: map<string, string>)

  /** The response statuses the server uses: 200, 206, 404, 416 and 500. */
  datatype Status = Ok | PartialContent | NotFound | RangeNotSatisfiable | InternalError

  datatype Body =
    | Message(text: string)                    // a fixed text body
    | FileSlice(offset: int, length: int)      // `length` bytes of the file from `offset`
    | Bytes(bytes: seq<byte>)                  // an in-memory buffer

  /** A response header; `None` is a header whose value is Java's `null`. */
  datatype Header = Header(name: string, value: Option<string>)

  datatype Response = Response(status: Status, mimeType: Option<string>, body: Body, headers: seq<Header>)

  /** The unchecked exceptions that escape `serve` on a malformed `Range` header. */
  datatype Unchecked = StringIndexOutOfBounds | NumberFormat

  datatype Outcome = Respond(response: Response) | Escapes(exception: Unchecked)

  function HtmlPage(status: Status, text: string): Response {
    Response(status, Some(MIME_TYPE_HTML), Message(text), [])
  }

  // ---------------------------------------------------------------------
  // Byte ranges
  // ---------------------------------------------------------------------

  /**
   * Which suffix-range arithmetic to apply: the one the server ships with,
   * or the one section 2.1 of RFC 7233 prescribes (see `SuffixBounds`).
   */
  datatype RangeRule = AsShipped | Rfc7233

  /** First and last byte offsets, both inclusive. */
  datatype Bounds = Bounds(start: int, end: int)

  const DEFAULT_RANGE: string := "bytes=0-"

  /** The `range` header, or the whole-file range when the request has none. */
  function RangeHeader(headers: map<string, string>): string {
    if "range" in headers then headers["range"] else DEFAULT_RANGE
  }

  /**
   * The range specification after the unit: the trimmed header with its first
   * six characters dropped, whatever they are; a shorter header makes
   * `substring` throw.
   */
  function RangeValue(range: string): (r: Result<string, Unchecked>)
    ensures r.Failure? <==> |Trim(range)| < 6
  {
    var t := Trim(range);
    if |t| < 6 then Failure(StringIndexOutOfBounds) else Success(t[6..])
  }

  /**
   * The bounds of the suffix form `-n` on a file of `fileLength` bytes.
   * As shipped, the start is `fileLength - 1 - n` in `long` arithmetic, so the
   * range holds n + 1 bytes and starts before the file when n >= fileLength.
   * Section 2.1 of RFC 7233 asks for the last n bytes, the whole file when it
   * is shorter than n, and no bytes at all for n = 0.
   */
  function SuffixBounds(rule: RangeRule, fileLength: FileLength, n: JLong): (b: Bounds)
    ensures b.end == fileLength - 1
    ensures rule == Rfc7233 ==> 0 <= b.start <= fileLength
    ensures rule == Rfc7233 && n > 0 ==> b.end - b.start + 1 == if n < fileLength then n else fileLength
    ensures rule == Rfc7233 && n <= 0 ==> b.start > b.end
  {
    match rule
    case AsShipped => Bounds(Wrap64(fileLength - 1 - n), fileLength - 1)
    case Rfc7233 =>
      var start := if n >= fileLength then 0 else if n <= 0 then fileLength else fileLength - n;
      Bounds(start, fileLength - 1)
  }

  /** As shipped, `bytes=-n` for a non-negative n covers n + 1 bytes ending at the last one. */
  lemma SuffixAsShippedServesOneByteTooMany(fileLength: FileLength, n: JLong)
    requires 0 <= n
    ensures SuffixBounds(AsShipped, fileLength, n) == Bounds(fileLength - 1 - n, fileLength - 1)
    ensures SuffixBounds(AsShipped, fileLength, n).end - SuffixBounds(AsShipped, fileLength, n).start + 1 == n + 1
    ensures n >= fileLength ==> SuffixBounds(AsShipped, fileLength, n).start < 0
  {
    Wrap64OfJLong(fileLength - 1 - n);
  }

  /** The concrete case: 100 trailing bytes of a 1000-byte file come out as 101. */
  lemma SuffixOffByOneExample()
    ensures SuffixBounds(AsShipped, 1000, 100) == Bounds(899, 999)
    ensures SuffixBounds(Rfc7233, 1000, 100) == Bounds(900, 999)
  {
    SuffixAsShippedServesOneByteTooMany(1000, 100);
  }

  /** Start and end as parsed, before the end is clamped to the file. */
  function RequestedBounds(rule: RangeRule, value: string, fileLength: FileLength): (r: Result<Bounds, Unchecked>)
    ensures r.Success? && !(|value| > 0 && value[0] == '-') ==> r.value.start >= 0
    ensures r.Success? && rule == Rfc7233 ==> r.value.start >= 0
  {
    if |value| > 0 && value[0] == '-' then
      match ParseLong(value[1..])
      case None => Failure(NumberFormat)
      case Some(n) => Success(SuffixBounds(rule, fileLength, n))
    else
      var ranges := Split(value, '-');
      match ParseLong(ranges[0])
      case None => Failure(NumberFormat)
      case Some(start) =>
        if |ranges| > 1 then
          match ParseLong(ranges[1])
          case None => Failure(NumberFormat)
          case Some(end) => Success(Bounds(start, end))
        else
          Success(Bounds(start, fileLength - 1))
  }

  /** The end capped at the last byte of the file. */
  function Clamp(b: Bounds, fileLength: FileLength): (c: Bounds)
    ensures c.start == b.start && c.end <= fileLength - 1
    ensures c.end == if b.end > fileLength - 1 then fileLength - 1 else b.end
  {
    if b.end > fileLength - 1 then b.(end := fileLength - 1) else b
  }

  /** The requested bounds with the end capped at the last byte of the file. */
  function ClampedBounds(rule: RangeRule, range: string, fileLength: FileLength): (r: Result<Bounds, Unchecked>)
    ensures r.Success? ==> r.value.end <= fileLength - 1
    ensures r.Success? && rule == Rfc7233 ==> r.value.start >= 0
    ensures r.Failure? <==> RangeValue(range).Failure? || RequestedBounds(rule, RangeValue(range).value, fileLength).Failure?
  {
    match RangeValue(range)
    case Failure(e) => Failure(e)
    case Success(value) =>
      match RequestedBounds(rule, value, fileLength)
      case Failure(e) => Failure(e)
      case Success(b) => Success(Clamp(b, fileLength))
  }

  /** The `Content-Range` value of a partial response. */
  function ContentRange(b: Bounds, fileLength: int): string {
    "bytes " + (LongToString(b.start) + ("-" + (LongToString(b.end) + ("/" + LongToString(fileLength)))))
  }

  /** A header that is `bytes=` followed by `v` yields `v` as its range specification. */
  lemma RangeValueOfBytes(v: string)
    requires |v| > 0 && v[|v| - 1] > ' '
    ensures RangeValue("bytes=" + v) == Success(v)
  {
    var h := "bytes=" + v;
    TrimOfTrimmed(h);
    assert h[6..] == v;
  }

  /** The unit is never checked: any six characters before the value are dropped, so `items=0-5` reads like `bytes=0-5`. */
  lemma RangeUnitUnchecked(u: string, v: string)
    requires |u| == 6 && u[0] > ' ' && |v| > 0 && v[|v| - 1] > ' '
    ensures RangeValue(u + v) == Success(v)
  {
    TrimOfTrimmed(u + v);
    assert (u + v)[6..] == v;
  }

  /** The range specification `a-` is read as the bounds `a` to the last byte. */
  lemma RequestedOpen(rule: RangeRule, a: nat, fileLength: FileLength)
    requires a <= MAX_LONG
    ensures RequestedBounds(rule, NatToDecimal(a) + "-", fileLength) == Success(Bounds(a, fileLength - 1))
  {
    var d := NatToDecimal(a);
    DigitsAreNotPunctuation(d);
    SplitAround(d, '-', "");
    assert d + "-" == d + ['-'] + "";
    ParseLongOfDigits(d);
  }

  /** The range specification `a-b` is read as the bounds `a` to `b`. */
  lemma RequestedExplicit(rule: RangeRule, a: nat, b: nat, fileLength: FileLength)
    requires a <= MAX_LONG && b <= MAX_LONG
    ensures RequestedBounds(rule, NatToDecimal(a) + "-" + NatToDecimal(b), fileLength) == Success(Bounds(a, b))
  {
    var da := NatToDecimal(a);
    var db := NatToDecimal(b);
    DigitsAreNotPunctuation(da);
    DigitsAreNotPunctuation(db);
    SplitAround(da, '-', db);
    assert da + "-" + db == da + ['-'] + db;
    ParseLongOfDigits(da);
    ParseLongOfDigits(db);
  }

  /** The range specification `-n` is read as the suffix bounds. */
  lemma RequestedSuffix(rule: RangeRule, n: nat, fileLength: FileLength)
    requires n <= MAX_LONG
    ensures RequestedBounds(rule, "-" + NatToDecimal(n), fileLength) == Success(SuffixBounds(rule, fileLength, n))
  {
    var d := NatToDecimal(n);
    assert ("-" + d)[1..] == d;
    ParseLongOfDigits(d);
  }

  /** `bytes=a-` selects from `a` to the last byte of the file. */
  lemma OpenRangeBounds(rule: RangeRule, a: nat, fileLength: FileLength)
    requires a <= MAX_LONG
    ensures ClampedBounds(rule, "bytes=" + NatToDecimal(a) + "-", fileLength) == Success(Bounds(a, fileLength - 1))
  {
    var v := NatToDecimal(a) + "-";
    assert "bytes=" + NatToDecimal(a) + "-" == "bytes=" + v;
    RangeValueOfBytes(v);
    RequestedOpen(rule, a, fileLength);
  }

  /** `bytes=a-b` selects from `a` to `b`, the end capped at the last byte of the file. */
  lemma ExplicitRangeBounds(rule: RangeRule, a: nat, b: nat, fileLength: FileLength)
    requires a <= MAX_LONG && b <= MAX_LONG
    ensures ClampedBounds(rule, "bytes=" + NatToDecimal(a) + "-" + NatToDecimal(b), fileLength)
            == Success(Bounds(a, if b > fileLength - 1 then fileLength - 1 else b))
  {
    var v := NatToDecimal(a) + "-" + NatToDecimal(b);
    assert "bytes=" + NatToDecimal(a) + "-" + NatToDecimal(b) == "bytes=" + v;
    RangeValueOfBytes(v);
    RequestedExplicit(rule, a, b, fileLength);
  }

  /** `bytes=-n` selects the suffix bounds, which already end at the last byte. */
  lemma SuffixRangeBounds(rule: RangeRule, n: nat, fileLength: FileLength)
    requires n <= MAX_LONG
    ensures ClampedBounds(rule, "bytes=-" + NatToDecimal(n), fileLength) == Success(SuffixBounds(rule, fileLength, n))
  {
    var v := "-" + NatToDecimal(n);
    assert "bytes=-" + NatToDecimal(n) == "bytes=" + v;
    RangeValueOfBytes(v);
    RequestedSuffix(rule, n, fileLength);
  }

  /** The fields of a `Content-Range` value, as a client reads them. */
  datatype ContentRangeFields = ContentRangeFields(first: int, last: int, completeLength: int)

  /** The text before and after the first `c`, if there is one. */
  function SplitAtFirst(s: string, c: char): Option<(string, string)> {
    var i := IndexOf(s, c);
    if i < 0 then None else Some((s[..i], s[i + 1..]))
  }

  lemma SplitAtFirstOf(a: string, c: char, rest: string)
    requires c !in a
    ensures SplitAtFirst(a + ([c] + rest), c) == Some((a, rest))
  {
    var s := a + [c] + rest;
    assert a + ([c] + rest) == s;
    IndexOfAfter(a, c, rest);
    assert s[..|a|] == a && s[|a| + 1..] == rest;
  }

  /**
   * Reads `bytes <first>-<last>/<complete-length>` (section 4.2 of RFC 7233):
   * the first `-` ends the first position and the first `/` after it ends the last.
   */
  function ParseContentRange(h: string): Option<ContentRangeFields> {
    if !StartsWith(h, "bytes ") then None
    else
      match SplitAtFirst(h[6..], '-')
      case None => None
      case Some((first, tail)) =>
        match SplitAtFirst(tail, '/')
        case None => None
        case Some((last, complete)) =>
          match (ParseLong(first), ParseLong(last), ParseLong(complete))
          case (Some(f), Some(l), Some(c)) => Some(ContentRangeFields(f, l, c))
          case _ => None
  }

  /** `bytes <a>-<b>/<c>` with runs of digits reads back as the numbers they denote. */
  lemma ReadContentRange(da: string, db: string, dl: string)
    requires |da| > 0 && AllDigits(da) && DecimalValue(da) <= MAX_LONG
    requires |db| > 0 && AllDigits(db) && DecimalValue(db) <= MAX_LONG
    requires |dl| > 0 && AllDigits(dl) && DecimalValue(dl) <= MAX_LONG
    ensures ParseContentRange("bytes " + (da + ("-" + (db + ("/" + dl)))))
            == Some(ContentRangeFields(DecimalValue(da), DecimalValue(db), DecimalValue(dl)))
  {
    var h := "bytes " + (da + ("-" + (db + ("/" + dl))));
    assert StartsWith(h, "bytes ") && h[6..] == da + ("-" + (db + ("/" + dl)));
    DigitsAreNotPunctuation(da);
    DigitsAreNotPunctuation(db);
    SplitAtFirstOf(da, '-', db + ("/" + dl));
    SplitAtFirstOf(db, '/', dl);
    ParseLongOfDigits(da);
    ParseLongOfDigits(db);
    ParseLongOfDigits(dl);
  }

  /** For non-negative positions the `Content-Range` value reads back as what was sent. */
  lemma ContentRangeRoundTrip(b: Bounds, fileLength: FileLength)
    requires 0 <= b.start <= MAX_LONG && 0 <= b.end <= MAX_LONG
    ensures ParseContentRange(ContentRange(b, fileLength)) == Some(ContentRangeFields(b.start, b.end, fileLength))
  {
    ReadContentRange(NatToDecimal(b.start), NatToDecimal(b.end), NatToDecimal(fileLength));
  }

  /** A negative first position turns the `Content-Range` value into one no client can read. */
  lemma NegativeStartGarblesContentRange(b: Bounds, fileLength: FileLength)
    requires b.start < 0
    ensures ParseContentRange(ContentRange(b, fileLength)) == None
  {
    var h := ContentRange(b, fileLength);
    var rest := h[6..];
    var tail := "-" + (LongToString(b.end) + ("/" + LongToString(fileLength)));
    var first := LongToString(b.start);
    assert rest == first + tail;
    assert rest[0] == '-' && IndexOf(rest, '-') == 0;
    assert rest[..0] == "";
  }

  // ---------------------------------------------------------------------
  // Serving
  // ---------------------------------------------------------------------

  /**
   * The 206 response for the bounds `b` of a file of `fileLength` bytes at
   * `path`: the slice from `b.start` of `end - start + 1` bytes (a `long`
   * subtraction), with its `Content-Length`, `Content-Range` and
   * `Content-Type` headers.
   */
  function PartialResponse(b: Bounds, fileLength: FileLength, mime: Option<string>): Response {
    var contentLength := Wrap64(b.end - b.start + 1);
    Response(PartialContent, mime, FileSlice(b.start, contentLength), [
      Header("Content-Length", Some(LongToString(contentLength))),
      Header("Content-Range", Some(ContentRange(b, fileLength))),
      Header("Content-Type", mime)])
  }

  /** The audio branch of `serve`, for a set audio path. */
  function ServeAudioFile(rule: RangeRule, mimeTypes: map<string, string>, path: string, headers: map<string, string>, file: AudioFile): (o: Outcome)
    ensures o.Escapes? <==> ClampedBounds(rule, RangeHeader(headers), file.length).Failure?
    ensures o.Respond? && o.response.status == PartialContent ==>
              && ClampedBounds(rule, RangeHeader(headers), file.length).Success?
              && var b := ClampedBounds(rule, RangeHeader(headers), file.length).value;
              && b.start <= b.end
              && file.access.Skipped? && file.access.count >= b.start
              && o.response == PartialResponse(b, file.length, GetMimeType(mimeTypes, path))
    ensures o.Respond? && o.response.status == RangeNotSatisfiable ==>
              && ClampedBounds(rule, RangeHeader(headers), file.length).value.start
                 > ClampedBounds(rule, RangeHeader(headers), file.length).value.end
              && o.response.body == Message(RangeHeader(headers))
    ensures o.Respond? && o.response.status == InternalError ==>
              && file.access.Skipped?
              && file.access.count < ClampedBounds(rule, RangeHeader(headers), file.length).value.start
              <= ClampedBounds(rule, RangeHeader(headers), file.length).value.end
    ensures o.Respond? && o.response.status == NotFound ==> file.access.IoFailure?
    ensures o.Respond? ==> o.response.status in {PartialContent, RangeNotSatisfiable, InternalError, NotFound}
  {
    var range := RangeHeader(headers);
    match ClampedBounds(rule, range, file.length)
    case Failure(e) => Escapes(e)
    case Success(b) =>
      if b.start <= b.end then
        match file.access
        case IoFailure =>
          Respond(HtmlPage(NotFound, "File not found"))
        case Skipped(count) =>
          if count < b.start then
            Respond(HtmlPage(InternalError, "Unable to skip to requested byte range"))
          else
            Respond(PartialResponse(b, file.length, GetMimeType(mimeTypes, path)))
      else
        Respond(HtmlPage(RangeNotSatisfiable, range))
  }

  /**
   * `NanoServer.serve`: one request against the current server state, with
   * `file` what the file system says about the served audio path.
   */
  function Serve(rule: RangeRule, s: Server, req: Request, file: AudioFile): (o: Outcome)
    ensures s.audioFileToServe.None? ==> o == Respond(HtmlPage(NotFound, "File not found"))
    ensures o.Escapes? ==> s.audioFileToServe.Some? && Contains(req.uri, "audio")
    ensures s.audioFileToServe.Some? && Contains(req.uri, "audio") ==>
              o == ServeAudioFile(rule, s.mimeTypes, s.audioFileToServe.value, req.headers, file)
    ensures s.audioFileToServe.Some? && !Contains(req.uri, "audio") && Contains(req.uri, "image") ==>
              o == if s.imageBytesToServe.None? then Respond(HtmlPage(NotFound, "Image bytes null"))
                   else Respond(Response(Ok, Some("image/png"), Bytes(s.imageBytesToServe.value), []))
    ensures !Contains(req.uri, "audio") && !Contains(req.uri, "image") ==>
              o == Respond(HtmlPage(NotFound, "File not found"))
  {
    if s.audioFileToServe.None? then
      Respond(HtmlPage(NotFound, "File not found"))
    else if Contains(req.uri, "audio") then
      ServeAudioFile(rule, s.mimeTypes, s.audioFileToServe.value, req.headers, file)
    else if Contains(req.uri, "image") then
      match s.imageBytesToServe
      case None => Respond(HtmlPage(NotFound, "Image bytes null"))
      case Some(bytes) => Respond(Response(Ok, Some("image/png"), Bytes(bytes), []))
    else
      Respond(HtmlPage(NotFound, "File not found"))
  }

  // ---------------------------------------------------------------------
  // Properties of whole requests
  // ---------------------------------------------------------------------

  /** The body of a 206 response holds `end - start + 1` bytes when that fits a `long`. */
  lemma PartialResponseBody(b: Bounds, fileLength: FileLength, mime: Option<string>)
    requires 0 <= b.end - b.start + 1 <= MAX_LONG
    ensures PartialResponse(b, fileLength, mime).body == FileSlice(b.start, b.end - b.start + 1)
  {
    Wrap64OfJLong(b.end - b.start + 1);
  }

  /**
   * Satisfiable bounds and a successful skip give the 206 response, whose
   * body holds `end - start + 1` bytes when that fits a `long`.
   */
  lemma AudioServedWhenSatisfiable(rule: RangeRule, mimeTypes: map<string, string>, path: string, headers: map<string, string>, file: AudioFile, b: Bounds)
    requires ClampedBounds(rule, RangeHeader(headers), file.length) == Success(b)
    requires b.start <= b.end && file.access.Skipped? && file.access.count >= b.start
    ensures ServeAudioFile(rule, mimeTypes, path, headers, file) == Respond(PartialResponse(b, file.length, GetMimeType(mimeTypes, path)))
    ensures b.end - b.start + 1 <= MAX_LONG ==>
              PartialResponse(b, file.length, GetMimeType(mimeTypes, path)).body == FileSlice(b.start, b.end - b.start + 1)
  {
    if b.end - b.start + 1 <= MAX_LONG {
      PartialResponseBody(b, file.length, GetMimeType(mimeTypes, path));
    }
  }

  /** Unsatisfiable bounds give 416 with the range header as the body. */
  lemma AudioRefusedWhenUnsatisfiable(rule: RangeRule, mimeTypes: map<string, string>, path: string, headers: map<string, string>, file: AudioFile, b: Bounds)
    requires ClampedBounds(rule, RangeHeader(headers), file.length) == Success(b)
    requires b.start > b.end
    ensures ServeAudioFile(rule, mimeTypes, path, headers, file) == Respond(HtmlPage(RangeNotSatisfiable, RangeHeader(headers)))
  {
  }

  /** Satisfiable bounds on a file that cannot be opened give 404. */
  lemma AudioNotFoundWhenUnreadable(rule: RangeRule, mimeTypes: map<string, string>, path: string, headers: map<string, string>, file: AudioFile, b: Bounds)
    requires ClampedBounds(rule, RangeHeader(headers), file.length) == Success(b)
    requires b.start <= b.end && file.access.IoFailure?
    ensures ServeAudioFile(rule, mimeTypes, path, headers, file) == Respond(HtmlPage(NotFound, "File not found"))
  {
  }

  /** Satisfiable bounds with a skip that falls short of the start give 500. */
  lemma AudioInternalErrorWhenShortSkip(rule: RangeRule, mimeTypes: map<string, string>, path: string, headers: map<string, string>, file: AudioFile, b: Bounds)
    requires ClampedBounds(rule, RangeHeader(headers), file.length) == Success(b)
    requires b.start <= b.end && file.access.Skipped? && file.access.count < b.start
    ensures ServeAudioFile(rule, mimeTypes, path, headers, file) == Respond(HtmlPage(InternalError, "Unable to skip to requested byte range"))
  {
  }

  /** The default header is the open range from byte 0. */
  lemma DefaultRangeIsOpenFromZero()
    ensures DEFAULT_RANGE == "bytes=" + NatToDecimal(0) + "-"
  {
    assert NatToDecimal(0) == "0";
  }

  /** A request without a `Range` header asks for the open range from byte 0. */
  lemma DefaultRangeBounds(rule: RangeRule, headers: map<string, string>, fileLength: FileLength)
    requires "range" !in headers
    ensures ClampedBounds(rule, RangeHeader(headers), fileLength) == Success(Bounds(0, fileLength - 1))
  {
    DefaultRangeIsOpenFromZero();
    OpenRangeBounds(rule, 0, fileLength);
  }

  /** Without a `Range` header the whole file is served as one 206 range. */
  lemma WholeFileWithoutRangeHeader(rule: RangeRule, mimeTypes: map<string, string>, path: string, headers: map<string, string>, file: AudioFile)
    requires "range" !in headers
    requires file.length > 0 && file.access.Skipped? && file.access.count >= 0
    ensures ServeAudioFile(rule, mimeTypes, path, headers, file) == Respond(PartialResponse(Bounds(0, file.length - 1), file.length, GetMimeType(mimeTypes, path)))
    ensures PartialResponse(Bounds(0, file.length - 1), file.length, GetMimeType(mimeTypes, path)).body == FileSlice(0, file.length)
  {
    DefaultRangeBounds(rule, headers, file.length);
    AudioServedWhenSatisfiable(rule, mimeTypes, path, headers, file, Bounds(0, file.length - 1));
  }

  /** An empty (or missing) file cannot satisfy even the default range: 416 echoing `bytes=0-`. */
  lemma EmptyFileIsUnsatisfiable(rule: RangeRule, mimeTypes: map<string, string>, path: string, headers: map<string, string>, file: AudioFile)
    requires "range" !in headers && file.length == 0
    ensures ServeAudioFile(rule, mimeTypes, path, headers, file) == Respond(HtmlPage(RangeNotSatisfiable, "bytes=0-"))
  {
    DefaultRangeBounds(rule, headers, file.length);
    AudioRefusedWhenUnsatisfiable(rule, mimeTypes, path, headers, file, Bounds(0, -1));
  }

  /** The header `bytes=a-b`, as a request carries it, selects `a` to `b` capped at the last byte. */
  lemma ExplicitHeaderBounds(rule: RangeRule, a: nat, b: nat, fileLength: FileLength)
    requires a <= MAX_LONG && b <= MAX_LONG
    ensures ClampedBounds(rule, RangeHeader(map["range" := "bytes=" + NatToDecimal(a) + "-" + NatToDecimal(b)]), fileLength)
            == Success(Clamp(Bounds(a, b), fileLength))
  {
    var range := "bytes=" + NatToDecimal(a) + "-" + NatToDecimal(b);
    assert RangeHeader(map["range" := range]) == range;
    ExplicitRangeBounds(rule, a, b, fileLength);
  }

  /** `bytes=a-b` with a > b is answered 416 with the header itself as the body. */
  lemma ReversedRangeIsUnsatisfiable(rule: RangeRule, mimeTypes: map<string, string>, path: string, a: nat, b: nat, file: AudioFile)
    requires b < a <= MAX_LONG
    ensures var range := "bytes=" + NatToDecimal(a) + "-" + NatToDecimal(b);
            ServeAudioFile(rule, mimeTypes, path, map["range" := range], file) == Respond(HtmlPage(RangeNotSatisfiable, range))
  {
    var range := "bytes=" + NatToDecimal(a) + "-" + NatToDecimal(b);
    var headers := map["range" := range];
    ExplicitHeaderBounds(rule, a, b, file.length);
    AudioRefusedWhenUnsatisfiable(rule, mimeTypes, path, headers, file, Clamp(Bounds(a, b), file.length));
  }

  /** `bytes=a-b` within the file is answered 206 with exactly the bytes a..b. */
  lemma ExplicitRangeIsServed(rule: RangeRule, mimeTypes: map<string, string>, path: string, a: nat, b: nat, file: AudioFile)
    requires a <= b < file.length
    requires file.access.Skipped? && file.access.count >= a
    ensures var range := "bytes=" + NatToDecimal(a) + "-" + NatToDecimal(b);
            ServeAudioFile(rule, mimeTypes, path, map["range" := range], file) == Respond(PartialResponse(Bounds(a, b), file.length, GetMimeType(mimeTypes, path)))
    ensures PartialResponse(Bounds(a, b), file.length, GetMimeType(mimeTypes, path)).body == FileSlice(a, b - a + 1)
  {
    var range := "bytes=" + NatToDecimal(a) + "-" + NatToDecimal(b);
    var headers := map["range" := range];
    ExplicitHeaderBounds(rule, a, b, file.length);
    AudioServedWhenSatisfiable(rule, mimeTypes, path, headers, file, Bounds(a, b));
  }

  /** The header `bytes=-n`, as a request carries it, selects the suffix bounds. */
  lemma SuffixHeaderBounds(rule: RangeRule, n: nat, fileLength: FileLength)
    requires n <= MAX_LONG
    ensures ClampedBounds(rule, RangeHeader(map["range" := "bytes=-" + NatToDecimal(n)]), fileLength)
            == Success(SuffixBounds(rule, fileLength, n))
  {
    assert RangeHeader(map["range" := "bytes=-" + NatToDecimal(n)]) == "bytes=-" + NatToDecimal(n);
    SuffixRangeBounds(rule, n, fileLength);
  }

  /**
   * As shipped, `bytes=-n` for n below the file length is answered with the
   * last n + 1 bytes, not the last n.
   */
  lemma SuffixAsShippedResponse(mimeTypes: map<string, string>, path: string, n: nat, file: AudioFile)
    requires n < file.length
    requires file.access.Skipped? && file.access.count >= file.length - 1 - n
    ensures ServeAudioFile(AsShipped, mimeTypes, path, map["range" := "bytes=-" + NatToDecimal(n)], file)
            == Respond(PartialResponse(Bounds(file.length - 1 - n, file.length - 1), file.length, GetMimeType(mimeTypes, path)))
    ensures PartialResponse(Bounds(file.length - 1 - n, file.length - 1), file.length, GetMimeType(mimeTypes, path)).body
            == FileSlice(file.length - 1 - n, n + 1)
  {
    var headers := map["range" := "bytes=-" + NatToDecimal(n)];
    SuffixHeaderBounds(AsShipped, n, file.length);
    SuffixAsShippedServesOneByteTooMany(file.length, n);
    AudioServedWhenSatisfiable(AsShipped, mimeTypes, path, headers, file, Bounds(file.length - 1 - n, file.length - 1));
  }

  /**
   * As shipped, `bytes=-n` with n at least the file length starts before the
   * file, so the JDK's backward skip to it raises `IOException` and the
   * request is answered 404.
   */
  lemma OverlongSuffixNotFound(mimeTypes: map<string, string>, path: string, n: nat, file: AudioFile)
    requires file.length <= n <= MAX_LONG
    requires SkipAsJdk(file, file.length - 1 - n)
    ensures ServeAudioFile(AsShipped, mimeTypes, path, map["range" := "bytes=-" + NatToDecimal(n)], file)
            == Respond(HtmlPage(NotFound, "File not found"))
  {
    var headers := map["range" := "bytes=-" + NatToDecimal(n)];
    SuffixHeaderBounds(AsShipped, n, file.length);
    SuffixAsShippedServesOneByteTooMany(file.length, n);
    AudioNotFoundWhenUnreadable(AsShipped, mimeTypes, path, headers, file, Bounds(file.length - 1 - n, file.length - 1));
  }

  /**
   * As shipped, `bytes=-n` with n at least the file length, on a skip that
   * returns normally, is answered 206 from a start before the file. The
   * JDK's `skip` never returns normally there (see `SkipAsJdk`); this is the
   * response the code would build if it did.
   */
  lemma OverlongSuffixServed(mimeTypes: map<string, string>, path: string, n: nat, file: AudioFile)
    requires file.length <= n <= MAX_LONG
    requires file.access.Skipped? && file.access.count >= 0
    ensures ServeAudioFile(AsShipped, mimeTypes, path, map["range" := "bytes=-" + NatToDecimal(n)], file)
            == Respond(PartialResponse(Bounds(file.length - 1 - n, file.length - 1), file.length, GetMimeType(mimeTypes, path)))
    ensures file.length - 1 - n < 0
  {
    var headers := map["range" := "bytes=-" + NatToDecimal(n)];
    SuffixHeaderBounds(AsShipped, n, file.length);
    SuffixAsShippedServesOneByteTooMany(file.length, n);
    AudioServedWhenSatisfiable(AsShipped, mimeTypes, path, headers, file, Bounds(file.length - 1 - n, file.length - 1));
  }

  /**
   * With the suffix arithmetic of section 2.1 of RFC 7233, `bytes=-n` for
   * n > 0 is answered with the last n bytes, or the whole file when it is
   * shorter.
   */
  lemma SuffixRfcResponse(mimeTypes: map<string, string>, path: string, n: nat, file: AudioFile)
    requires 0 < n <= MAX_LONG && 0 < file.length
    requires file.access.Skipped? && file.access.count >= file.length - (if n < file.length then n else file.length)
    ensures var kept := if n < file.length then n else file.length;
            && ServeAudioFile(Rfc7233, mimeTypes, path, map["range" := "bytes=-" + NatToDecimal(n)], file)
               == Respond(PartialResponse(Bounds(file.length - kept, file.length - 1), file.length, GetMimeType(mimeTypes, path)))
            && PartialResponse(Bounds(file.length - kept, file.length - 1), file.length, GetMimeType(mimeTypes, path)).body
               == FileSlice(file.length - kept, kept)
  {
    var headers := map["range" := "bytes=-" + NatToDecimal(n)];
    var kept := if n < file.length then n else file.length;
    var b := Bounds(file.length - kept, file.length - 1);
    SuffixHeaderBounds(Rfc7233, n, file.length);
    AudioServedWhenSatisfiable(Rfc7233, mimeTypes, path, headers, file, b);
  }

  /**
   * With the suffix arithmetic of section 2.1 of RFC 7233, every 206 response
   * lies inside the file and holds between 1 and `length` bytes, so its
   * `Content-Range` reads back as its bounds (`ContentRangeRoundTrip`).
   */
  lemma RfcPartialContentIsWithinFile(mimeTypes: map<string, string>, path: string, headers: map<string, string>, file: AudioFile)
    requires ServeAudioFile(Rfc7233, mimeTypes, path, headers, file).Respond?
    requires ServeAudioFile(Rfc7233, mimeTypes, path, headers, file).response.status == PartialContent
    ensures var b := ClampedBounds(Rfc7233, RangeHeader(headers), file.length).value;
            && 0 <= b.start <= b.end < file.length
            && ServeAudioFile(Rfc7233, mimeTypes, path, headers, file).response.body == FileSlice(b.start, b.end - b.start + 1)
  {
    var b := ClampedBounds(Rfc7233, RangeHeader(headers), file.length).value;
    assert ServeAudioFile(Rfc7233, mimeTypes, path, headers, file).response == PartialResponse(b, file.length, GetMimeType(mimeTypes, path));
    PartialResponseBody(b, file.length, GetMimeType(mimeTypes, path));
  }

  /** An audio request is answered the same whatever image is being served. */
  lemma AudioRequestIgnoresImage(rule: RangeRule, s: Server, req: Request, file: AudioFile, image: Option<seq<byte>>)
    requires Contains(req.uri, "audio")
    ensures Serve(rule, s, req, file) == Serve(rule, s.(imageBytesToServe := image), req, file)
  {
  }

  /**
   * With an audio path set, an image request after `serveImage(bytes)` gets
   * those bytes back verbatim as `image/png`, and after `clearImage` gets 404.
   */
  lemma ServedImageRoundTrip(rule: RangeRule, s: Server, bytes: seq<byte>, req: Request, file: AudioFile)
    requires s.audioFileToServe.Some?
    requires !Contains(req.uri, "audio") && Contains(req.uri, "image")
    ensures Serve(rule, ServeImage(s, Some(bytes)), req, file) == Respond(Response(Ok, Some("image/png"), Bytes(bytes), []))
    ensures Serve(rule, ClearImage(s), req, file) == Respond(HtmlPage(NotFound, "Image bytes null"))
  {
  }

  /** Before any `serveAudio` call every request is 404, image requests included. */
  lemma NothingServedBeforeAudioPath(rule: RangeRule, calls: seq<Call>, req: Request, file: AudioFile)
    requires forall k :: 0 <= k < |calls| ==> !calls[k].ServeAudioCall?
    ensures Serve(rule, Run(Initial, calls), req, file) == Respond(HtmlPage(NotFound, "File not found"))
  {
    AudioPathIsLastNonNullWrite(Initial, calls);
    NoAudioWriteKeepsPath(None, calls);
  }

  lemma {:induction false} NoAudioWriteKeepsPath(current: Option<string>, calls: seq<Call>)
    requires forall k :: 0 <= k < |calls| ==> !calls[k].ServeAudioCall?
    ensures LastAudioPath(current, calls) == current
    decreases |calls|
  {
    if |calls| > 0 {
      NoAudioWriteKeepsPath(current, calls[1..]);
    }
  }
}
