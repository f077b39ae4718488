# cue-splitter core, modelled in Dafny

cue-splitter is a browser tool. It splits one long audio file into per-track
FLAC files, using a cue sheet (the track list with its timestamps). The user
saves the tracks one at a time, into a folder, or as one ZIP archive. This
project models the three pieces of logic the tool itself contains and proves
what each of them promises.

- **Character-voice extraction** (`cv_text.dfy`, module `CvText`). `extractCVs`
  reads the voice actors out of an artist credit such as
  `A (CV: B) & C (CV. D)`. It uses the global regular expression
  `\(CV[:.]\s*(.+?)\)` and joins the captured names with `/`.
  - The model writes out that one pattern's matching with backtracking. The
    greedy `\s*` tries the longest whitespace run first and gives characters
    back when no name can follow. The lazy `.+?` takes one character, which may
    itself be `)`, and stops at the first `)` after it. `.` does not match line terminators.
  - The `matchAll` loop is modelled for any matcher, and the pattern's matcher
    is plugged into it.
  - The matcher and the loop are proved equal to declarative descriptions of
    "the match at an index" and "all left-to-right, non-overlapping matches".
- **The splitter store** (`splitter.dfy`, module `Splitter`). The store holds
  the loaded audio file, the parsed cue sheet and the front cover.
  - It is a class whose three actions overwrite their own fields, with frame
    clauses.
  - A pure `Step` / `Run` on a `State` value mirrors the class, for lemmas
    about sequences of actions.
  - The cue-sheet parser is a function parameter fixed when the store is
    created.
- **Saving** (`saver.dfy`, module `Saver`).
  - The output-name sanitiser turns every `/` into `,`.
  - The single save throws when encoding yields no file.
  - The folder and ZIP saves skip such tracks.
  - The ZIP save gathers the archiver's output chunks through a callback whose
    promise resolves on the final chunk and rejects on an error.
  - The audio encoder (`splitAudio`) and the file-name formatter
    (`formatFileName`) are function parameters. Each is taken as already
    applied to the loaded audio, cue sheet, cover and naming format.

`base.dfy` (module `Base`) holds `Option`, `Result` and a byte type.

`loadCueSheet` (`src/splitter.ts:24-25`) only passes the parser's errors to
`console.error` and keeps its state. It neither throws nor shows a toast, and
the model follows it.

## Model

| member | source | states |
|---|---|---|
| CvText.IsLineTerminator | src/text.ts:1 | The ECMAScript line terminators (LF, CR, U+2028, U+2029), which `.` does not match. Its meaning in the pattern is given by `CloseParenFromIsFirst`, `LazyEndIff` and `CaptureIsClosedName`. |
| CvText.IsWhiteSpace | src/text.ts:1 | The characters of ECMAScript `\s`: TAB, VT, FF, U+FEFF, the space separators of category Zs, and the line terminators. Its meaning in the pattern is given by `WhiteSpaceRunIsLongest` and `CaptureFollowsHeader`. |
| CvText.HeaderAt | src/text.ts:1 | The literal part `\(CV[:.]` occurs at index `i`. Its meaning is given by `MatchAtIff` (a match begins exactly where the header does and a name can be closed), `ScanSkipsNoHeader` and `CaptureFollowsHeader`. |
| CvText.WhiteSpaceRun | src/text.ts:1 | The greedy `\s*` after the header: a run length that stays inside the input. Its meaning is given by `WhiteSpaceRunIsLongest`. |
| CvText.CloseParenFrom | src/text.ts:1 | The `)` that ends a lazy `.+?`: when found, it lies at or after the search index and inside the input. Its meaning is given by `CloseParenFromIsFirst`. |
| CvText.LazyEnd | src/text.ts:1 | `(.+?)\)` tried at a name start: when it closes, the `)` lies after the start and inside the input. Its meaning is given by `LazyEndIff`. |
| CvText.TryName | src/text.ts:1 | Backtracking through `\s*`: when it succeeds, the name starts within the whitespace run and is closed inside the input. Its meaning is given by `TryNameIsLongestPrefix`. |
| CvText.MatchAt | src/text.ts:1 | The match of `RE_CV` tried at index `i`: when there is one it begins at `i`, and its name lies after `(CV:` or `(CV.` and before the end of the input. Its full meaning is given by `MatchAtIff`. |
| CvText.ScanWith | src/text.ts:4 | The `matchAll` loop for any matcher. Its meaning is given by `ScanWithIsScanOf` and `ScanOfIsScanWith` (it is the unique left-to-right, non-overlapping sequence of leftmost matches), `ScanWithSpan`, `ScanWithSkips` and `ScanWithEmptyIff`. |
| CvText.Scan | src/text.ts:4 | The `matchAll` loop with the pattern's matcher: every span lies within the input. Its full meaning is given by `ScanIsGlobalScan`. |
| CvText.CaptureTexts | src/text.ts:4 | `.map(([, cv]) => cv)` over given spans: one capture per span, in order. Its meaning is given by `ExtractCVsJoinsAllMatches`. |
| CvText.Captures | src/text.ts:4 | The capture group of every match of the scan, one per match, in order. Its meaning is given by `CaptureIsClosedName`, `CaptureFollowsHeader` and `CapturesNonEmpty`. |
| CvText.ExtractCVs | src/text.ts:3-5 | `extractCVs`. Its meaning is given by `ExtractCVsJoinsAllMatches` (the `/`-join of the captures of all left-to-right, non-overlapping matches), `ExtractCVsNonEmptyIffMatch`, `NoMarkerNoVoices`, `LowerCaseMarkerIgnored` and the three worked examples. |
| CvText.WhiteSpaceRunIsLongest | src/text.ts:1 | `\s*` first takes the longest run of ECMAScript whitespace: every character of the run is whitespace and the next one is not. |
| CvText.CloseParenFromIsFirst | src/text.ts:1 | The search for `)` returns the first `)` from a given index. It fails when a line terminator or the end of the text comes before any `)`. |
| CvText.LazyEndIff | src/text.ts:1 | `(.+?)\)` at an index closes at `b` exactly when the name has at least one character, none of its characters is a line terminator, and `s[b]` is the first `)` after the name's first character. |
| CvText.TryNameIsLongestPrefix | src/text.ts:1 | Backtracking through `\s*` gives characters back one at a time. The name starts after the longest whitespace prefix that a closed name can follow, and it fails only when no prefix works. |
| CvText.MatchAtIff | src/text.ts:1 | The matcher returns a span at index `i` exactly when `(CV` then `:` or `.` begins at `i`, whitespace follows up to the name, the name is lazily closed, and no longer whitespace prefix could be followed by a name. That span is the only one. |
| CvText.LazyNameUnique | src/text.ts:1 | A lazily matched name has only one possible closing `)`. |
| CvText.WhiteSpaceDroppedGreedily | src/text.ts:1 | When a name can follow the whole whitespace run, the captured name starts right after the run and does not start with whitespace. |
| CvText.ScanWithSpan | src/text.ts:4 | Span `k` of the `matchAll` loop is the match reported at its own index, and span `k+1` begins after span `k`'s `)` (no overlap), for any matcher. |
| CvText.ScanWithSkips | src/text.ts:4 | The loop steps over indices where the matcher reports nothing. |
| CvText.ScanWithEmptyIff | src/text.ts:4 | The loop finds nothing exactly when the matcher reports nothing at any index from the start position. |
| CvText.ScanWithIsScanOf | src/text.ts:4 | The loop's result is a left-to-right sequence of non-overlapping matches, each found at the leftmost matching index from where the previous one ended. |
| CvText.ScanOfIsScanWith | src/text.ts:4 | Any sequence with that description is the loop's result, so the loop's result is the only one. |
| CvText.MatcherIff | src/text.ts:1 | The pattern's matcher, as a function of the index, reports exactly the declarative match at that index. |
| CvText.NoMatchInIff | src/text.ts:1 | "No declarative match begins in `[lo, hi)`" is the same as "the matcher reports nothing in `[lo, hi)`". |
| CvText.GlobalScanIffScanOf | src/text.ts:4 | The declarative sequence of all left-to-right, non-overlapping matches of `RE_CV` (`IsGlobalScan`) is the loop's description with the pattern's matcher. |
| CvText.ScanIsGlobalScan | src/text.ts:4 | The scan of `matchAll` equals a sequence of spans exactly when that sequence lists all left-to-right, non-overlapping matches of the pattern, in both directions. |
| CvText.ScanSpanIsMatch | src/text.ts:4 | Each reported span is the match found at its index, and consecutive spans do not overlap. |
| CvText.ScanEmptyIff | src/text.ts:4 | The scan reports nothing exactly when the pattern matches at no index. |
| CvText.ScanAtMatch | src/text.ts:4 | After a match the scan resumes right after its closing `)`. |
| CvText.ScanSkipsNoHeader | src/text.ts:4 | The scan passes over any stretch where neither `(CV:` nor `(CV.` begins. |
| CvText.Join | src/text.ts:4 | `join('/')` returns the empty string exactly when there are no parts or there is one empty part. |
| CvText.ExtractCVsJoinsAllMatches | src/text.ts:3-5 | `extractCVs` is the `/`-join of the capture groups of all left-to-right, non-overlapping matches, in order. |
| CvText.CaptureIsClosedName | src/text.ts:1 | Each captured name is a non-empty substring of the input. It contains no line terminator, is immediately followed by `)`, and has no `)` after its first character. |
| CvText.CaptureFollowsHeader | src/text.ts:1 | Each captured name is preceded in the input by `(CV`, then `:` or `.`, then only whitespace. |
| CvText.CapturesNonEmpty | src/text.ts:1 | Every captured name is non-empty. |
| CvText.ExtractCVsNonEmptyIffMatch | src/text.ts:3-5 | The result is non-empty exactly when the pattern matches somewhere. That is the test the edit dialogs apply with `match(RE_CV)` (src/ArtistEditDialog.tsx:51, src/TrackEditDialog.tsx:63). |
| CvText.NoMarkerNoVoices | src/text.ts:4 | An input containing neither `(CV:` nor `(CV.` yields `""`. |
| CvText.LowerCaseMarkerIgnored | src/text.ts:1 | Matching is case-sensitive: `(cv: X)` yields `""`. |
| CvText.TwoVoicesExample | src/text.ts:4 | `A (CV: B) & C (CV. D)` yields `B/D`. |
| CvText.LeadingWhiteSpaceExample | src/text.ts:1 | `(CV:   Name)` yields `Name`: whitespace after the separator is dropped greedily. |
| CvText.BacktrackingExample | src/text.ts:1 | `(CV: )` yields a single space. The whitespace run gives its character back, because no name can follow it. |
| Splitter.Initial | src/splitter.ts:15-31 | The store's initial state value: no audio file, cue sheet or cover, and empty file names. The store's constructor is proved to produce it. |
| Splitter.SplitterStore.constructor | src/splitter.ts:15-31 | A new store has no audio file, cue sheet or cover, and empty file names. |
| Splitter.SplitterStore.UpdateAudioFile | src/splitter.ts:18-20 | Sets the audio file and its name. The cue sheet, cover and cover name are unchanged. |
| Splitter.SplitterStore.LoadCueSheet | src/splitter.ts:22-29 | When the parser reports errors, the whole state is unchanged. Otherwise `cue` becomes the parsed sheet and no other field changes. |
| Splitter.SplitterStore.UpdateFrontCover | src/splitter.ts:32-34 | Sets the cover and its name. The audio file, its name and the cue sheet are unchanged. |
| Splitter.Step | src/splitter.ts:18-34 | One store action on a state value. Its meaning is given by `StepFrame` (each action touches only its own fields; a sheet with errors changes nothing), `StepIdempotent` and, against the class, by the contracts of the three store methods. |
| Splitter.Run | src/splitter.ts:15-35 | A sequence of store actions from a state value. Its meaning is given by `RunAppend`, `CueOnlyFromCleanParse`, `AudioUnchangedWithoutUpdate`, `CoverUnchangedWithoutUpdate`, and `ApplyAll`, which proves the class follows it. |
| Splitter.StepFrame | src/splitter.ts:15-35 | Each action leaves the other actions' fields alone, and a cue sheet with errors leaves the whole state alone. |
| Splitter.StepIdempotent | src/splitter.ts:18-34 | Every action is an overwrite: applying it twice equals applying it once. |
| Splitter.RunAppend | src/splitter.ts:15-35 | Running two lists of actions one after the other is running their concatenation. |
| Splitter.CueOnlyFromCleanParse | src/splitter.ts:22-29 | After any sequence of actions, `cue` is either its starting value or the sheet of some `loadCueSheet` whose parse reported no errors. A rejected sheet never replaces a loaded one. |
| Splitter.AudioUnchangedWithoutUpdate | src/splitter.ts:18-20 | Without `updateAudioFile`, the audio file and its name never change. |
| Splitter.CoverUnchangedWithoutUpdate | src/splitter.ts:32-34 | Without `updateFrontCover`, the cover and its name never change. |
| Splitter.ApplyAll | src/splitter.ts:15-35 | Applying a list of actions to the store yields the state `Run` predicts. |
| Saver.SanitizeFileName | src/saver.ts:35-38 | The result has the same length. Each `/` becomes `,`, every other character stays where it was, and no `/` is left. |
| Saver.SanitizeIdempotent | src/saver.ts:35-38 | Sanitising twice is sanitising once. |
| Saver.SanitizeKeepsPlainName | src/saver.ts:35-38 | A name without `/` is kept unchanged. |
| Saver.SaveSingle | src/saver.ts:21-38 | Fails with `FLAC file isn't encoded successfully.` exactly when encoding yields no file, and downloads nothing in that case. Otherwise it downloads the encoded bytes under the sanitised formatted name. |
| Saver.Encodable | src/saver.ts:70-72 | Keeps only tracks whose encoding yields a file, keeps every such track, keeps nothing that was not in the input, and is no longer than the input. |
| Saver.EncodableAppend | src/saver.ts:70-72 | The filter keeps track order: the kept tracks of `xs + ys` are those of `xs` followed by those of `ys`. |
| Saver.EncodableSingleton | src/saver.ts:70-72 | A single track is kept exactly when its encoding yields a file. |
| Saver.EncodableCounts | src/saver.ts:70-72 | Every copy of an encodable track is kept and no copy of any other: each track occurs in the result as often as in the input when it encodes, and never otherwise. |
| Saver.OutputOf | src/saver.ts:74-79 | The file saved for one encodable track: its encoded bytes under its sanitised formatted name. `OutputsAreEncodable` gives its place among the files a multi-track save writes. |
| Saver.Outputs | src/saver.ts:62-81 | The files a multi-track save writes, at most one per track. Its meaning is given by `OutputsAreEncodable` (one file per encodable track, in order), `OutputsAppend` and `AllEncodedAllSaved`. |
| Saver.OutputsAreEncodable | src/saver.ts:74-80 | A multi-track save writes exactly one file per encodable track, in track order. Each file holds that track's encoding and has the track's sanitised formatted name, which contains no `/`. |
| Saver.OutputsAppend | src/saver.ts:61-62 | The files for a concatenation of track lists are the files of each list, concatenated. |
| Saver.AllEncodedAllSaved | src/saver.ts:70-72 | When every track encodes, none is skipped. |
| Saver.Folder.constructor | src/saver.ts:59 | The folder the user picked holds the files it already had. |
| Saver.Folder.WriteFile | src/saver.ts:74-80 | Creates or replaces one file in the chosen folder and changes nothing else. |
| Saver.WriteAll | src/saver.ts:74-80 | The folder after the files are written one after another. Its meaning is given by `WriteAllFrame` and `WriteAllDistinct`, and `SaveMultipleToFolder` is proved to produce it. |
| Saver.WriteAllFrame | src/saver.ts:74-80 | Writing the files adds exactly their names to the folder, and files with other names keep their contents. |
| Saver.WriteAllDistinct | src/saver.ts:74-80 | When the names are distinct, each written file ends up with its own contents. |
| Saver.SaveMultipleToFolder | src/saver.ts:59-82 | The folder ends as it was, with one file written per encodable track, named by the sanitised format; tracks that do not encode are skipped. |
| Saver.ChunkCollector.constructor | src/saver.ts:100-101 | The collector starts with no chunks and a pending promise. |
| Saver.ChunkCollector.OnData | src/saver.ts:102-112 | An error rejects the promise if it is still pending and appends nothing. Otherwise the chunk is appended, and a final chunk resolves a pending promise with all chunks so far. A settled promise stays settled. |
| Saver.Settle | src/saver.ts:102-112 | How the chunk promise settles for a sequence of archiver callbacks. Its meaning is given by `SettleAtFirstSignal`, `SettleSkipsQuiet` and `PendingIffQuiet`, and `CollectChunks` proves the callback's class follows it. |
| Saver.SettleAtFirstSignal | src/saver.ts:102-112 | The promise settles at the first callback carrying an error or the final chunk. An error rejects it. A final chunk resolves it with every chunk emitted up to and including that one, in order. |
| Saver.SettleSkipsQuiet | src/saver.ts:108 | Callbacks without an error or a final flag only append their chunks. |
| Saver.PendingIffQuiet | src/saver.ts:100-112 | The promise stays pending exactly when no callback carries an error or the final chunk. |
| Saver.CollectChunks | src/saver.ts:100-112 | Feeding the callbacks to the collector settles its promise as `Settle` describes. |
| Saver.Concat | src/saver.ts:137 | The bytes of `new Blob(chunks)`. Its meaning is given by `ConcatAppend` and `ConcatSingleton`: the chunks' bytes laid end to end, in order. |
| Saver.ConcatAppend | src/saver.ts:137 | The blob of `xs + ys` holds the bytes of the blob of `xs` followed by those of the blob of `ys`. |
| Saver.ConcatSingleton | src/saver.ts:137 | The blob of a single chunk holds exactly that chunk's bytes. |
| Saver.ZipWriter.constructor | src/saver.ts:102 | A new archive has no entries. |
| Saver.ZipWriter.Add | src/saver.ts:127-130 | Adds one entry to the archive after those already added. |
| Saver.SaveMultipleAsZip | src/saver.ts:100-140 | The archive gets one entry per encodable track, named by the sanitised format. The save downloads `tracks.zip` holding the concatenated chunks, throws the archiver's error, or never finishes, according to how the chunk promise settles. |

## Left out

- The React components and dialogs are not part of this model: `App`, `SourceInput`, `TrackList`, `TrackEditDialog`, `ArtistEditDialog`, `FileNameFormatCombo` and `FrontCoverResizeDialog`. They are rendering, DOM events and toasts. Their `match(RE_CV)` test appears here only as `CvText.HasMatch`.
- The keep-ratio arithmetic of the cover resize dialog: it is floating-point division with truncation and `parseInt` fallbacks. `src/image.ts` is also left out, because it resizes images with browser canvas APIs.
- The cue-sheet grammar of the external `parse` is left out: `parse` is an uninterpreted, total function parameter. So is the `console.error` call in `loadCueSheet`. An exception thrown by `parse` is not modelled: it would pass through `loadCueSheet` to its callers, which catch it and show a toast.
- `splitAudio` and `formatFileName` are not part of this model. Each is a function parameter of the savers, already applied to the audio, cue sheet, cover and naming format. An exception thrown by `splitAudio` is not modelled; only its "no file" result is.
- Store members that the components use but the store does not define: `updateTrack`, `updateAlbum`, `updateAlbumArtist`, `fileNameFormat` and `setFileNameFormat`.
- Zustand's subscriptions and re-rendering are left out: the store is a plain object.
- The folder and ZIP saves run their tracks concurrently with `Promise.all`, so file writes and archive entries may come in any order. The model processes tracks in list order. For the folder the order matters only when two tracks format to the same name.
- The File System Access API is left out: `showDirectoryPicker` and its cancellation, and streams. The folder is a map from names to bytes, so it accepts every name. `getFileHandle` refuses some names, such as the empty name, `.`, `..` and names containing a path separator; for those the source's `Promise.all` rejects, while the model writes the file. That rejection is not modelled.
- Blob and object-URL downloads are left out: a download is the returned `OutputFile`.
- The internals of the ZIP archiver are left out. It is the parameter `zipOutput`, which gives the sequence of callbacks it makes for the list of entries; when those calls interleave with `add` is not modelled.
- Saver.SaveMultipleAsZip: does not relate the archive bytes to the entries' contents, because the ZIP format is produced by the archiver, which is outside this model.
- Saver.ChunkCollector.OnData: its resolved value is a copy of the chunk list at the final chunk. In the source it is the same array, which would also show any chunk pushed after the final one; the archiver emits none.
- A JavaScript string is a sequence of UTF-16 code units; here it is a sequence of Unicode scalar values. For this pattern the difference shows only as surrogate pairs, which are never `(`, `)`, whitespace or line terminators and are matched by `.` either way.
- The shared `lastIndex` of the global `RE_CV` is not modelled: `extractCVs` builds a fresh `RegExp` on each call, so every scan starts at index 0.
