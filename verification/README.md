# Shuttle music player core, modelled in Dafny

This project models five pieces of the Shuttle Android music player and
proves properties of them:

- **`HttpServer`** (`http_server.dfy`). This is the app's local media
  server, used for casting. It holds the audio file path and image bytes to
  serve and whether its listener is started. It turns a request into a
  response: the `audio` URI with HTTP byte ranges (206, 416, 404, 500), the
  `image` URI, and 404 otherwise. It also holds the extension-to-MIME-type
  table.
- **`PrefixHighlighter`** (`prefix_highlighter.dfy`). It finds the first word
  of a text that starts with a typed prefix, compared against the upper-cased
  text, and highlights that span in a text view.
- **`MultiFetcher`** (`multi_fetcher.dfy`). This is the artwork fallback
  chain. It tries the user-selected source first. MediaStore comes next, then
  embedded tags and the folder image, in the order the settings prefer and
  leaving out the ones the settings ignore. The remote fetcher comes last. A
  fetcher's exception is swallowed, and the fetcher is cleaned up. The chain
  also supplies the Glide cache id.
- **`BluetoothManager`** (`bluetooth_manager.dfy`). This is the receiver that
  pauses playback when an A2DP link or headset audio drops from connected,
  and resumes it when one connects.
- **`ImageSize`** (`size.dfy`). This is the `Size` value class: `equals`,
  `hashCode` and `toString`.

`wrappers.dfy` has `Option` (Java `null`) and `Result` (an exception that
escapes). `java_lang.dfy` models the Java library calls the core relies on:

- `int`/`long` wrap-around;
- `Long.toString` and `Long.parseLong`, with a round-trip lemma;
- `String.trim`, `contains`, `indexOf`, `lastIndexOf`, `split` and `hashCode`;
- ASCII `isLetterOrDigit` and `toUpperCase`.

Everything is a pure function over immutable values. A mutable field becomes
a datatype field, and a call that changes it returns the new value. The file
system, the fetchers' own loading, the settings and the network check enter
as parameters.

`HttpServer.Serve` takes a `RangeRule` parameter:

- `AsShipped` is the server's suffix-range arithmetic as written.
- `Rfc7233` is the arithmetic section 2.1 of RFC 7233 prescribes.

The two rules differ only for the suffix form `bytes=-N`; see "## Findings".
The server's suffix form is meant to select "the last N bytes". The model
follows the code, which serves N + 1 bytes, and proves the intended
behaviour of the corrected rule beside it.

## Model

Source paths are relative to the repository root.

| member | source | states |
|---|---|---|
| JavaLang.AfterLastIsSubstring | app/src/main/java/com/simplecity/amp_library/http/HttpServer.java:223-225 | The text after the last dot is `filePath.substring(filePath.lastIndexOf(".") + 1)`, the whole path when there is no dot. |
| HttpServer.MimeTypeOfExtension | app/src/main/java/com/simplecity/amp_library/http/HttpServer.java:223-225 | For any table, the MIME type of `stem.ext` is the table entry for `ext` when `ext` has no dot. Only the text after the last dot is looked up. |
| HttpServer.MimeTypeWithoutDot | app/src/main/java/com/simplecity/amp_library/http/HttpServer.java:223-225 | For any table, a path with no dot is looked up whole, because `lastIndexOf` gives -1. |
| HttpServer.MimeTypeIsCaseSensitive | app/src/main/java/com/simplecity/amp_library/http/HttpServer.java:192-225 | With the table `createMimeTypes` builds, `track.mp3` is `audio/mpeg` but `track.MP3` has no type: the table keys are lower-case and the lookup does not fold case. |
| HttpServer.ServeAudio | app/src/main/java/com/simplecity/amp_library/http/HttpServer.java:49-53 | A non-null path replaces the served audio path. A null path changes nothing. The image, the started flag and the MIME table are untouched. |
| HttpServer.ServeImage | app/src/main/java/com/simplecity/amp_library/http/HttpServer.java:55-59 | Non-null bytes replace the served image. Null changes nothing. The audio path, the started flag and the MIME table are untouched. |
| HttpServer.ClearImage | app/src/main/java/com/simplecity/amp_library/http/HttpServer.java:61-63 | Afterwards no image is served. Nothing else changes, the MIME table included. |
| HttpServer.Start | app/src/main/java/com/simplecity/amp_library/http/HttpServer.java:65-74 | The server is started afterwards exactly when it already was or the bind succeeded. A failed bind leaves it stopped. What it serves and its MIME table are untouched. |
| HttpServer.Stop | app/src/main/java/com/simplecity/amp_library/http/HttpServer.java:76-83 | The server is stopped afterwards. The served path, the image and the MIME table survive. |
| HttpServer.StartIdempotent | app/src/main/java/com/simplecity/amp_library/http/HttpServer.java:65-74 | Once the server is started, a second `start` is a no-op, whatever its bind would do. |
| HttpServer.StopIdempotent | app/src/main/java/com/simplecity/amp_library/http/HttpServer.java:76-83 | `stop` on a stopped server is a no-op, so a second `stop` is a no-op. |
| HttpServer.AudioPathIsLastNonNullWrite | app/src/main/java/com/simplecity/amp_library/http/HttpServer.java:49-83 | After any sequence of API calls, the served audio path is the last non-null argument of `serveAudio`. Once set, no call unsets it. |
| HttpServer.NoAudioWriteKeepsPath | app/src/main/java/com/simplecity/amp_library/http/HttpServer.java:49-53 | A call sequence without `serveAudio` keeps the audio path it started with. |
| HttpServer.NothingServedBeforeAudioPath | app/src/main/java/com/simplecity/amp_library/http/HttpServer.java:94-97 | Until `serveAudio` is called, every request is 404 "File not found", image requests included. |
| HttpServer.RangeValue | app/src/main/java/com/simplecity/amp_library/http/HttpServer.java:121 | Reading the range specification throws exactly when the trimmed header is shorter than `bytes=`. The first six characters are dropped without being checked. |
| HttpServer.RangeValueOfBytes | app/src/main/java/com/simplecity/amp_library/http/HttpServer.java:121 | A header `bytes=` followed by `v` yields exactly `v`. |
| HttpServer.RangeUnitUnchecked | app/src/main/java/com/simplecity/amp_library/http/HttpServer.java:121 | Any six characters stand where `bytes=` should: they are dropped unread, so `items=0-5` reads like `bytes=0-5`. |
| HttpServer.SuffixBounds | app/src/main/java/com/simplecity/amp_library/http/HttpServer.java:123-125 | A suffix range always ends at the last byte. Under the RFC 7233 rule: it starts inside the file; it holds min(N, length) bytes for N > 0; it is empty for N <= 0. |
| HttpServer.SuffixAsShippedServesOneByteTooMany | app/src/main/java/com/simplecity/amp_library/http/HttpServer.java:123-125 | As written, `bytes=-N` spans N + 1 bytes, and it starts before the file when N >= length. |
| HttpServer.SuffixOffByOneExample | app/src/main/java/com/simplecity/amp_library/http/HttpServer.java:123-125 | For 100 trailing bytes of a 1000-byte file, the code gives bounds 899-999 where the RFC gives 900-999. |
| HttpServer.RequestedBounds | app/src/main/java/com/simplecity/amp_library/http/HttpServer.java:123-130 | A parsed start is never negative, except for the as-written suffix form. |
| HttpServer.RequestedOpen | app/src/main/java/com/simplecity/amp_library/http/HttpServer.java:126-129 | The specification `a-` (split yields one piece) reads as `a` to the last byte. |
| HttpServer.RequestedExplicit | app/src/main/java/com/simplecity/amp_library/http/HttpServer.java:126-129 | The specification `a-b` reads as `a` to `b`. |
| HttpServer.RequestedSuffix | app/src/main/java/com/simplecity/amp_library/http/HttpServer.java:123-125 | The specification `-N` reads as the suffix bounds for N. |
| HttpServer.Clamp | app/src/main/java/com/simplecity/amp_library/http/HttpServer.java:132-134 | The end is capped at the last byte of the file. The start is kept. |
| HttpServer.ClampedBounds | app/src/main/java/com/simplecity/amp_library/http/HttpServer.java:117-134 | The resolved end never passes the last byte. The range fails exactly when reading the specification or parsing a number fails. |
| HttpServer.OpenRangeBounds | app/src/main/java/com/simplecity/amp_library/http/HttpServer.java:117-134 | `bytes=a-` resolves to `a` through the last byte. |
| HttpServer.ExplicitRangeBounds | app/src/main/java/com/simplecity/amp_library/http/HttpServer.java:117-134 | `bytes=a-b` resolves to `a` through min(b, last byte). |
| HttpServer.SuffixRangeBounds | app/src/main/java/com/simplecity/amp_library/http/HttpServer.java:117-134 | `bytes=-N` resolves to the suffix bounds, which need no clamping. |
| HttpServer.ContentRangeRoundTrip | app/src/main/java/com/simplecity/amp_library/http/HttpServer.java:147 | For non-negative bounds, a client reading the `Content-Range` value (section 4.2 of RFC 7233) recovers start, end and length. |
| HttpServer.NegativeStartGarblesContentRange | app/src/main/java/com/simplecity/amp_library/http/HttpServer.java:147 | A negative start makes the `Content-Range` value unreadable. |
| HttpServer.PartialResponseBody | app/src/main/java/com/simplecity/amp_library/http/HttpServer.java:137-149 | A 206 body is the slice from `start` of `end - start + 1` bytes. |
| HttpServer.ServeAudioFile | app/src/main/java/com/simplecity/amp_library/http/HttpServer.java:100-168 | An audio request: an unchecked exception escapes exactly when the range header is malformed. 206 only for `start <= end` after a full skip, with its three headers. 416 only for `start > end`, echoing the header. 500 only for a skip that falls short of `start`, and 404 only when opening or skipping throws `IOException`. |
| HttpServer.Serve | app/src/main/java/com/simplecity/amp_library/http/HttpServer.java:92-169 | No audio path gives 404 for every URI. An `audio` URI takes the audio branch, and only it can throw. An `image` URI gives the bytes as `image/png`, or 404 "Image bytes null". Any other URI gives 404. |
| HttpServer.AudioServedWhenSatisfiable | app/src/main/java/com/simplecity/amp_library/http/HttpServer.java:136-149 | Satisfiable bounds with a complete skip always give the 206 response for those bounds. Its body is the `end - start + 1` bytes from `start` whenever that count fits a `long`. |
| HttpServer.AudioRefusedWhenUnsatisfiable | app/src/main/java/com/simplecity/amp_library/http/HttpServer.java:150-152 | `start > end` always gives 416 with the range header as the body. |
| HttpServer.AudioNotFoundWhenUnreadable | app/src/main/java/com/simplecity/amp_library/http/HttpServer.java:136-156 | Satisfiable bounds on a file that cannot be opened always give 404 "File not found". |
| HttpServer.AudioInternalErrorWhenShortSkip | app/src/main/java/com/simplecity/amp_library/http/HttpServer.java:136-144 | Satisfiable bounds with a skip that returns fewer bytes than `start` always give 500 "Unable to skip to requested byte range". |
| HttpServer.DefaultRangeBounds | app/src/main/java/com/simplecity/amp_library/http/HttpServer.java:112-134 | A request with no `Range` header resolves to bytes 0 through the last byte. |
| HttpServer.WholeFileWithoutRangeHeader | app/src/main/java/com/simplecity/amp_library/http/HttpServer.java:112-149 | With no `Range` header, a non-empty file is sent whole: a 206 for bounds 0 to length - 1 whose body is all `length` bytes. |
| HttpServer.EmptyFileIsUnsatisfiable | app/src/main/java/com/simplecity/amp_library/http/HttpServer.java:112-152 | With no `Range` header, an empty or missing file gets 416 with body `bytes=0-`. |
| HttpServer.ExplicitHeaderBounds | app/src/main/java/com/simplecity/amp_library/http/HttpServer.java:104-134 | A request header `Range: bytes=a-b` resolves to `a` through min(b, last byte). |
| HttpServer.ReversedRangeIsUnsatisfiable | app/src/main/java/com/simplecity/amp_library/http/HttpServer.java:126-152 | `bytes=a-b` with a > b gets 416. |
| HttpServer.ExplicitRangeIsServed | app/src/main/java/com/simplecity/amp_library/http/HttpServer.java:126-149 | `bytes=a-b` inside the file gets exactly bytes a..b. |
| HttpServer.SuffixHeaderBounds | app/src/main/java/com/simplecity/amp_library/http/HttpServer.java:104-134 | A request header `Range: bytes=-N` resolves to the suffix bounds for N under either rule. |
| HttpServer.SuffixAsShippedResponse | app/src/main/java/com/simplecity/amp_library/http/HttpServer.java:123-149 | As written, `bytes=-N` (N < length) is answered with the last N + 1 bytes. |
| HttpServer.OverlongSuffixNotFound | app/src/main/java/com/simplecity/amp_library/http/HttpServer.java:123-156 | As written, `bytes=-N` with N >= length starts before the file. With `skip` behaving as the JDK's (a backward skip throws), the request always gets 404. |
| HttpServer.OverlongSuffixServed | app/src/main/java/com/simplecity/amp_library/http/HttpServer.java:123-149 | As written, `bytes=-N` with N >= length, on a skip that returns normally, gives a 206 whose start lies before the file. Its `Content-Range` is then unreadable (see `NegativeStartGarblesContentRange`). The JDK's `skip` throws instead (see "## Left out"). |
| HttpServer.SuffixRfcResponse | app/src/main/java/com/simplecity/amp_library/http/HttpServer.java:123-149 | Under the corrected rule, `bytes=-N` (N > 0) is answered with the last min(N, length) bytes whenever the skip reaches the start. |
| HttpServer.RfcPartialContentIsWithinFile | app/src/main/java/com/simplecity/amp_library/http/HttpServer.java:117-149 | Under the corrected rule, every 206 lies inside the file, and its body is exactly the bytes of its bounds. So `ContentRangeRoundTrip` applies to it. |
| HttpServer.AudioRequestIgnoresImage | app/src/main/java/com/simplecity/amp_library/http/HttpServer.java:100-156 | The answer to an audio request does not depend on the served image. |
| HttpServer.ServedImageRoundTrip | app/src/main/java/com/simplecity/amp_library/http/HttpServer.java:157-165 | After `serveImage(bytes)`, an image request returns those bytes verbatim. After `clearImage`, it returns 404. |
| JavaLang.Contains | app/src/main/java/com/simplecity/amp_library/http/HttpServer.java:100 | `contains` is true exactly when the text occurs at some position. |
| JavaLang.Trim | app/src/main/java/com/simplecity/amp_library/http/HttpServer.java:121 | `trim` is never longer than its input, and its result is empty or has both ends above `' '`. |
| JavaLang.TrimIsCut | app/src/main/java/com/simplecity/amp_library/http/HttpServer.java:121 | `trim` keeps one contiguous piece of the text and cuts only characters at or below `' '` from either end. |
| JavaLang.TrimCutUnique | app/src/main/java/com/simplecity/amp_library/http/HttpServer.java:121 | Any piece cut that way whose ends are above `' '` (or that is empty) is the result of `trim`. |
| JavaLang.TrimIdempotent | app/src/main/java/com/simplecity/amp_library/http/HttpServer.java:121 | Trimming twice is trimming once. |
| JavaLang.JoinPieces | app/src/main/java/com/simplecity/amp_library/http/HttpServer.java:127 | The pieces between separators, joined back with the separator, give the original text. |
| JavaLang.Split | app/src/main/java/com/simplecity/amp_library/http/HttpServer.java:127 | `split` gives the text itself when the separator does not occur. Otherwise it gives the pieces with exactly the trailing empty ones removed. It is non-empty when the text does not start with the separator. |
| JavaLang.ParseLongOfLongToString | app/src/main/java/com/simplecity/amp_library/http/HttpServer.java:125-147 | Parsing inverts `Long.toString` over the whole `long` range. |
| JavaLang.StringHashCode | app/src/main/java/com/simplecity/amp_library/glide/fetcher/MultiFetcher.java:141 | The character-by-character wrapping hash equals the polynomial sum of 31^k times the characters, reduced to an `int`. |
| PrefixHighlighter.SkipNonWordChars | app/src/main/java/com/simplecity/amp_library/format/PrefixHighlighter.java:106-111 | Stops at the first letter or digit at or after `i`, or at the end. Everything skipped is neither. |
| PrefixHighlighter.SkipWord | app/src/main/java/com/simplecity/amp_library/format/PrefixHighlighter.java:122-127 | Stops at the first non-word character at or after `i`, or at the end. Everything skipped is a letter or digit. |
| PrefixHighlighter.MatchesPrefix | app/src/main/java/com/simplecity/amp_library/format/PrefixHighlighter.java:113-120 | True exactly when the upper-cased text at `start` spells the prefix. |
| PrefixHighlighter.IndexOfWordPrefix | app/src/main/java/com/simplecity/amp_library/format/PrefixHighlighter.java:76-104 | Gives -1 for an empty text, a null or empty prefix, or a text shorter than the prefix. Otherwise gives the leftmost word start that spells the prefix, or -1 exactly when no word start does. |
| PrefixHighlighter.LowerCasePrefixNeverMatches | app/src/main/java/com/simplecity/amp_library/format/PrefixHighlighter.java:113-120 | Only the text is upper-cased, so a prefix starting with a lower-case letter matches nowhere. |
| PrefixHighlighter.Apply | app/src/main/java/com/simplecity/amp_library/format/PrefixHighlighter.java:62-74 | The text is kept. The highlighted span is exactly the prefix-long span at the leftmost matching word. The text stays plain only when no word matches. |
| PrefixHighlighter.SetText | app/src/main/java/com/simplecity/amp_library/format/PrefixHighlighter.java:44-53 | A null view is ignored. A null or empty prefix shows the text plain. A non-empty text is highlighted as by `apply`. An empty text with a prefix leaves the view as it was. |
| PrefixHighlighter.ReapplyPrefix | app/src/main/java/com/simplecity/amp_library/format/PrefixHighlighter.java:25-34 | Re-applying to a null view throws, because its text is read before any check. Otherwise the view's current text goes through `setText`. A null or empty prefix shows it plain. An empty text leaves the view as it was. A non-empty text gets the prefix-long span at the leftmost matching word highlighted, and stays plain only when no word matches. |
| MultiFetcher.Guarded | app/src/main/java/com/simplecity/amp_library/glide/fetcher/MultiFetcher.java:35-46 | Yields a stream exactly when the fetcher does. A throwing fetcher counts as `null` and is cleaned up right after its load. |
| MultiFetcher.Cleanup | app/src/main/java/com/simplecity/amp_library/glide/fetcher/MultiFetcher.java:124-129 | Cleans up exactly the fetcher last assigned, and does nothing when there is none. |
| MultiFetcher.Cancel | app/src/main/java/com/simplecity/amp_library/glide/fetcher/MultiFetcher.java:131-136 | Cancels exactly the fetcher last assigned, and does nothing when there is none. |
| MultiFetcher.FirstHitSingle | app/src/main/java/com/simplecity/amp_library/glide/fetcher/MultiFetcher.java:118-121 | Walking a one-source plan is one `tryLoad`. |
| MultiFetcher.LocalIsFirstHit | app/src/main/java/com/simplecity/amp_library/glide/fetcher/MultiFetcher.java:92-116 | `loadEmbeddedFirst` and `loadFolderFirst` are the walk of tags-then-folder and folder-then-tags, ignored sources dropped. |
| MultiFetcher.UserStageIsFirstHit | app/src/main/java/com/simplecity/amp_library/glide/fetcher/MultiFetcher.java:69-90 | `loadUserSelectedArtwork` fails exactly when the user's choice cannot be turned into a source. Otherwise it is the walk of that one source, or of none. |
| MultiFetcher.LoadDataIsFirstHit | app/src/main/java/com/simplecity/amp_library/glide/fetcher/MultiFetcher.java:49-116 | `loadData` fails exactly when the priority plan cannot be built. Otherwise it equals the reference walk of the plan: user choice, MediaStore, local sources in the preferred order, then remote. |
| MultiFetcher.FirstStream | app/src/main/java/com/simplecity/amp_library/glide/fetcher/MultiFetcher.java:49-67 | The position of the first planned source that yields a stream: every earlier one yields none. |
| MultiFetcher.FirstHitResult | app/src/main/java/com/simplecity/amp_library/glide/fetcher/MultiFetcher.java:49-67 | The walk returns the first stream. It leaves the last fetcher tried assigned. It has loaded exactly the sources up to the first hit, or all of them. |
| MultiFetcher.LoadDataOutcome | app/src/main/java/com/simplecity/amp_library/glide/fetcher/MultiFetcher.java:35-67 | `loadData` yields a stream exactly when some planned source does, and it is the first one's. No source after it is loaded. |
| MultiFetcher.LoadedOnlyIfPlanned | app/src/main/java/com/simplecity/amp_library/glide/fetcher/MultiFetcher.java:49-116 | No fetcher outside the plan is ever loaded. |
| MultiFetcher.LoadDataFailsOnlyForPathlessFolder | app/src/main/java/com/simplecity/amp_library/glide/fetcher/MultiFetcher.java:69-90 | `loadData` throws exactly when the user chose a folder image with a null path (`new File(null)`). Fetcher exceptions never escape. |
| MultiFetcher.IgnoredMediaStoreNotLoaded | app/src/main/java/com/simplecity/amp_library/glide/fetcher/MultiFetcher.java:51-53 | With MediaStore artwork ignored, MediaStore is loaded only when it is the user's choice. |
| MultiFetcher.RemoteOnlyWhenAllowed | app/src/main/java/com/simplecity/amp_library/glide/fetcher/MultiFetcher.java:61-64 | The remote fetcher runs only for an offline download, for automatic download while online, or when it is the user's choice. |
| MultiFetcher.UserSelectionWins | app/src/main/java/com/simplecity/amp_library/glide/fetcher/MultiFetcher.java:69-90 | A user choice that yields a stream is the only fetcher loaded. |
| MultiFetcher.PreferredLocalSourceWins | app/src/main/java/com/simplecity/amp_library/glide/fetcher/MultiFetcher.java:55-116 | With no user choice and nothing from MediaStore, the preferred local source is tried first. If it yields, neither the other local source nor the remote one is loaded. |
| MultiFetcher.PathHashText | app/src/main/java/com/simplecity/amp_library/glide/fetcher/MultiFetcher.java:141 | The path part of the suffix is empty exactly for a null path, and holds no `_`. |
| MultiFetcher.CustomArtworkSuffix | app/src/main/java/com/simplecity/amp_library/glide/fetcher/MultiFetcher.java:138-144 | The suffix is empty exactly without a user choice. Otherwise it starts with `_`. |
| MultiFetcher.GetId | app/src/main/java/com/simplecity/amp_library/glide/fetcher/MultiFetcher.java:146-149 | The id starts with the artwork key, and is the bare key exactly without a user choice. |
| MultiFetcher.SuffixParts | app/src/main/java/com/simplecity/amp_library/glide/fetcher/MultiFetcher.java:138-144 | After its leading `_`, a suffix is the type code, `_`, then the path hash, and the type code holds no `_`. |
| MultiFetcher.SuffixDeterminesEntry | app/src/main/java/com/simplecity/amp_library/glide/fetcher/MultiFetcher.java:138-144 | Equal suffixes mean the same type, the same path nullness and the same path hash. |
| MultiFetcher.GetIdAgreesIffSameEntry | app/src/main/java/com/simplecity/amp_library/glide/fetcher/MultiFetcher.java:138-149 | For one key, two ids are equal exactly when the choices agree on type and on path hash. A null path differs from every path. |
| MultiFetcher.CollidingPathsShareId | app/src/main/java/com/simplecity/amp_library/glide/fetcher/MultiFetcher.java:141 | Folder images at `Aa` and `BB` get the same id, since the paths share a `hashCode`. |
| BluetoothManager.OnReceive | app/src/main/java/com/simplecity/amp_library/playback/BluetoothManager.kt:32-81 | At most one command per intent. Nothing for a null action or extras. A pause only with the pause switch on, a play only with the resume switch on. |
| BluetoothManager.PauseIff | app/src/main/java/com/simplecity/amp_library/playback/BluetoothManager.kt:36-63 | Pauses exactly for A2DP state 0 or 3 from 2, or headset audio state 10 or 3 from 12, with the switch on. |
| BluetoothManager.PlayIff | app/src/main/java/com/simplecity/amp_library/playback/BluetoothManager.kt:40-80 | Plays exactly for A2DP state 2 or headset audio state 12, with the switch on, whatever the previous state. |
| BluetoothManager.UnrelatedIntentIgnored | app/src/main/java/com/simplecity/amp_library/playback/BluetoothManager.kt:44-80 | Another action, or both switches off, issues nothing. |
| BluetoothManager.MissingStateReadsAsDisconnected | app/src/main/java/com/simplecity/amp_library/playback/BluetoothManager.kt:46-52 | An A2DP intent with no state extra and previous state CONNECTED pauses. |
| ImageSize.Equals | app/src/main/java/com/simplecity/amp_library/glide/utils/Size.java:26-32 | Equal exactly to an object of class `Size` itself with the same width and height. Null, subclasses and other classes are unequal. |
| ImageSize.EqualsReflexive | app/src/main/java/com/simplecity/amp_library/glide/utils/Size.java:26-32 | Every size equals itself. |
| ImageSize.EqualsSymmetric | app/src/main/java/com/simplecity/amp_library/glide/utils/Size.java:26-32 | `a.equals(b)` is `b.equals(a)`. |
| ImageSize.EqualsTransitive | app/src/main/java/com/simplecity/amp_library/glide/utils/Size.java:26-32 | Equality is transitive. |
| ImageSize.HashCode | app/src/main/java/com/simplecity/amp_library/glide/utils/Size.java:35-39 | The hash is congruent to `31 * width + height` modulo 2^32. |
| ImageSize.HashCodeExact | app/src/main/java/com/simplecity/amp_library/glide/utils/Size.java:35-39 | When `31 * width + height` fits an `int`, it is the hash. |
| ImageSize.HashCodeConsistentWithEquals | app/src/main/java/com/simplecity/amp_library/glide/utils/Size.java:26-39 | Equal sizes have equal hashes. |
| ImageSize.HashCollision | app/src/main/java/com/simplecity/amp_library/glide/utils/Size.java:35-39 | 0 x 31 and 1 x 0 are unequal but share the hash 31. |
| ImageSize.ParseToString | app/src/main/java/com/simplecity/amp_library/glide/utils/Size.java:42-44 | The text `width, height` reads back as the same size. |
| ImageSize.ToStringInjective | app/src/main/java/com/simplecity/amp_library/glide/utils/Size.java:26-44 | Two sizes print the same text exactly when they are equal. |

## Left out

- **Sockets, streams and logging.** The NanoHTTPD listener on port 5000 and
  the `FileInputStream`/`ByteArrayInputStream` handles are I/O, so they are
  not modelled. So are `cleanupAudioStream`/`cleanupImageStream`, the
  `Log` calls, and writing the default range back into the session's
  headers. The file enters as its reported length plus the outcome of
  opening it and skipping, as a `SkipOutcome`.
- **The header loop (lines 104-110 of `HttpServer.java`).** It iterates
  `headers.entrySet()` as `String` keys, which does not type-check in Java.
  The model reads the `range` key of the header map, which is what the loop
  evidently intends.
- **Library lookups.** `Map.get` (`HttpServer.MapGet`) and `Bundle.getInt`
  (`BluetoothManager.GetInt`) are modelled by their documented behaviour:
  a missing key gives `null` and 0 respectively. They are assumptions about
  the platform, so they carry no row of their own.
- HttpServer.OverlongSuffixServed: the skip that returns normally for a
  negative offset does not happen with the JDK's `FileInputStream.skip`,
  which throws `IOException` for a backward skip on a fresh stream
  (`SkipAsJdk`). The lemma shows only what the code would answer if it
  did. The realistic outcome is `HttpServer.OverlongSuffixNotFound`.
  `SkipOutcome` itself is not constrained, so the whole-request lemmas
  also cover skip results outside `SkipAsJdk`.
- **The duplicate `mimeTypes` field.** `HttpServer.java` declares the
  field twice (lines 24 and 190), which javac rejects. The model keeps one
  field, filled with the table `createMimeTypes` builds.
- **`getInstance`.** The singleton plumbing of `HttpServer` is out of scope.
  The model passes the server state as a value.
- **Unicode.** `Character.isLetterOrDigit`, `Character.toUpperCase` and the
  digits `Long.parseLong` accepts are modelled on ASCII only. `String.hashCode`
  runs over Dafny characters, which agree with UTF-16 code units outside the
  supplementary planes only.
- **`split`.** `String.split` takes a regular expression. The model treats
  its argument `"-"` as the literal character it is.
- **Fetcher internals.** Each fetcher's own `loadData` (MediaStore, tag,
  folder, remote) is reduced to an outcome function from source to "stream",
  "null" or "throws". Likewise, an exception thrown by a fetcher's own
  `cleanup` is not modelled. The `Priority` argument is not modelled either.
- **Artwork type codes.** The `ArtworkProvider.Type` codes are assumed to be
  0-3, since ArtworkProvider.java is not part of this model. Only their being
  distinct matters.
- **Map entries mapped to `null`.** A user-selected artwork map that holds
  the key with a `null` value cannot be expressed by `Option`. In the source
  it makes `getCustomArtworkSuffix` throw.
- **Shuttle's own context wiring.** The `ShuttleApplication` cast, the
  `Context` objects and `ShuttleUtils.isOnline` are inputs (`isOnline` is a
  boolean).
- **The rest of `BluetoothManager`.** Registering and unregistering the
  receivers, the `PLAY_STATUS_REQUEST` listener, the two
  `send...ChangedIntent` broadcasts and the analytics breadcrumbs are
  platform plumbing around the pause/resume decision. An extra that holds a
  non-`int` value (which `getInt` also reads as 0) is not modelled.
- **`Size` construction and getters.** The constructor, `initializeSize` and
  the getters become the datatype's fields. As written, `initializeSize`
  assigns `final` fields outside the constructor, which javac rejects. The
  `this == o` shortcut in `equals` is not modelled separately: it gives the
  same answer as the field comparison.
- **Null text.** `PrefixHighlighter`'s text is a non-null string, so the null
  text that `TextUtils.isEmpty` also accepts is not modelled. The colour span
  object and its caching are reduced to the highlighted index range.
- ImageSize.ToString: its own contract states only a minimum length. The
  format is stated by `ImageSize.ParseToString` and
  `ImageSize.ToStringInjective`.

## Findings

| source | as written | input that shows it | evidently intended | confidence | as-written member | corrected member |
|---|---|---|---|---|---|---|
| app/src/main/java/com/simplecity/amp_library/http/HttpServer.java:123-125 | For `bytes=-N` the start is `fileLength - 1 - N`, so the response covers N + 1 bytes and starts before the file when N >= fileLength. | `Range: bytes=-100` on a 1000-byte file gives bytes 899-999 (101 bytes). | The last N bytes, 900-999, as section 2.1 of RFC 7233 defines the suffix range. | not executed | HttpServer.SuffixOffByOneExample | HttpServer.SuffixRfcResponse |
