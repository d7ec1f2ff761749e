# Captioned video: caption scheduling and its supporting computations

This project models the logic of the `CaptionedVideo` composition of a
Remotion short-video maker (src/CaptionedVideo/index.tsx). The composition
plays a video, loads a transcript of `{startInSeconds, text}` entries from a
JSON file beside the video, and overlays each caption as a timed `Sequence`.
The modelled parts are pure computations inside the component:

- **Caption scheduler** (`CaptionSchedule`): the `subtitles.map` with its
  look-ahead to the next entry. Entry `i` starts at frame `startInSeconds * fps`.
  It ends at the earlier of the next entry's start frame and one second
  (`fps` frames) later. A caption of zero or negative length renders `null`
  and is dropped. `Slot` is the map's callback, and `Schedule` is the list
  of non-null windows in transcript order. Each window records its entry's
  position, which the code uses as the key of the inner `Subtitle`. The
  lemmas in this module are about `Slot` and `Schedule`. Those are built
  from `Next` (index.tsx:113), `StartFrame` (index.tsx:114) and `EndFrame`
  (index.tsx:115-118).
- **Transcript path** (`TranscriptPath`): the four chained
  `replace(/.ext$/, '.json')` calls. The dot in each pattern is unescaped, so
  any single character other than a line terminator matches there. The
  lemmas are about `SubtitlesFile`, the chain of four calls. `MatchesAtEnd`
  is the meaning of `/.ext$/`, and `ReplaceAtEnd` is one `replace` call.
- **Composition metadata** (`Metadata`): fps is fixed at 30, and
  `durationInFrames = floor(durationInSeconds * 30)`.
- **Transcript existence** (`StaticFiles`): the `find` over the static-file
  list, turned into a boolean. The result chooses between captions and the
  "no caption file" placeholder.

Times are exact Dafny reals. The IEEE-754 rounding of `startInSeconds * fps`
and of `durationInSeconds * 30` is idealised away.

Two consequences of the code as written:

- Start frames are not rounded to whole frames. The start is
  `startInSeconds * fps` as it is (index.tsx:114, 126), and so is the next
  entry's bound (index.tsx:116).
- For `[{0,"a"},{0.5,"b"},{2,"c"}]` at 30 fps, the window of "b" is
  [15,45), because `min(2*30, 15+30) = 45`. `CaptionSchedule.SpacedExample`
  proves this.

## Model

| member | source | states |
|---|---|---|
| `Metadata.CalculateMetadata` | src/CaptionedVideo/index.tsx:35-41 | fps is 30; `durationInFrames` is the floor of `30*d`: `n <= 30*d < n+1`, and `n >= 0` when `d >= 0` |
| `Metadata.FramesUnique` | src/CaptionedVideo/index.tsx:40 | the frame count is the only integer `n` with `n <= 30*d < n+1` |
| `Metadata.FramesMonotone` | src/CaptionedVideo/index.tsx:40 | a longer video never gets fewer frames |
| `Metadata.TenSecondsIsThreeHundredFrames` | src/CaptionedVideo/index.tsx:35-40 | a 10-second video gives fps 30 and 300 frames |
| `StaticFiles.Find` | src/CaptionedVideo/index.tsx:46-48 | a found file has the requested `src` and is in the list; no result means no file has that `src` |
| `StaticFiles.FindFirst` | src/CaptionedVideo/index.tsx:46-48 | `find` returns the file at the first position whose `src` matches |
| `StaticFiles.FileExists` | src/CaptionedVideo/index.tsx:44-50 | true exactly when some static file's `src` equals the requested path |
| `StaticFiles.ShowsNoCaptionPlaceholder` | src/CaptionedVideo/index.tsx:133 | the placeholder is shown exactly when no static file is served at the derived transcript path |
| `TranscriptPath.JsonMatchesNoPattern` | src/CaptionedVideo/index.tsx:59-63 | a path ending in ".json" matches none of the four extension patterns |
| `TranscriptPath.SubtitlesFileCases` | src/CaptionedVideo/index.tsx:59-63 | a dot-character then mp4/mkv/mov at the end: the last 4 characters are replaced by ".json"; then webm: the last 5 are replaced; any other path is unchanged |
| `TranscriptPath.SubtitlesFileIdempotent` | src/CaptionedVideo/index.tsx:59-63 | deriving the transcript path of a derived path changes nothing |
| `TranscriptPath.SubtitlesFileChangesOnlyVideoPaths` | src/CaptionedVideo/index.tsx:59-63 | the path changes if and only if one of the four patterns matches, and a changed path ends in ".json" |
| `TranscriptPath.Mp4Example` | src/CaptionedVideo/index.tsx:60 | "clip.mp4" becomes "clip.json" |
| `TranscriptPath.WebmExample` | src/CaptionedVideo/index.tsx:63 | "talk.webm" becomes "talk.json" |
| `TranscriptPath.UnescapedDotExample` | src/CaptionedVideo/index.tsx:60 | the unescaped dot makes "xmp4" become ".json" |
| `CaptionSchedule.DurationPositiveIff` | src/CaptionedVideo/index.tsx:113-120 | a window's length is positive if and only if fps is positive and the next entry, if any, starts strictly later |
| `CaptionSchedule.Slot` | src/CaptionedVideo/index.tsx:113-131 | an entry yields a window if and only if fps > 0 and its successor starts strictly later. The window starts at the entry's start frame, carries the entry's text and lasts more than 0 and at most `fps` frames. It ends no later than the next entry's start frame, and lasts exactly `fps` frames for the last entry. It ends at the earlier of the two bounds: it lasts a full `fps` frames unless it ends exactly at the next entry's start frame |
| `CaptionSchedule.ScheduleFrom` | src/CaptionedVideo/index.tsx:112-132 | every window emitted from position `i` on comes from the slot of its own entry at or after `i`, at most one per entry, in strictly increasing entry order |
| `CaptionSchedule.Schedule` | src/CaptionedVideo/index.tsx:112-132 | at most one window per entry. Each window is longer than 0 and at most `fps` frames, starts at its entry's start frame with its entry's text, and is exactly the window its entry's slot gives. Windows follow transcript order |
| `CaptionSchedule.ScheduleFromComplete` | src/CaptionedVideo/index.tsx:112-132 | every non-null slot at or after position `i` is emitted |
| `CaptionSchedule.ShownIff` | src/CaptionedVideo/index.tsx:115-121 | an entry gets a caption if and only if fps > 0 and the next entry, if any, starts strictly later. An entry followed by one at the same time or earlier is dropped |
| `CaptionSchedule.LastFrom` | src/CaptionedVideo/index.tsx:113-118 | from any position up to the last, the emitted windows end with the last entry's full-second window |
| `CaptionSchedule.LastEntryShown` | src/CaptionedVideo/index.tsx:113-118 | with fps > 0, the last window is the last entry's, at its start frame and exactly `fps` frames long |
| `CaptionSchedule.SlotsOrdered` | src/CaptionedVideo/index.tsx:115-118 | in a non-decreasing transcript, an earlier shown entry's window ends no later than a later shown entry's window starts |
| `CaptionSchedule.ScheduleNonOverlapping` | src/CaptionedVideo/index.tsx:112-131 | for a non-decreasing transcript, windows never overlap and their start frames strictly increase |
| `CaptionSchedule.SpacedExample` | src/CaptionedVideo/index.tsx:112-131 | `[{0,"a"},{0.5,"b"},{2,"c"}]` at 30 fps gives [0,15) "a", [15,45) "b", [60,90) "c" |
| `CaptionSchedule.SimultaneousExample` | src/CaptionedVideo/index.tsx:115-121 | `[{1,"x"},{1,"y"}]` at 30 fps gives only [30,60) "y" |

## Left out

- Fetching the transcript: `fetchSubtitles`, `loadFont`, `fetch`/`res.json`, and the `watchStaticFile` hot-reload subscription and its cancellation (index.tsx:65-87). This is asynchronous I/O. The transcript is a parameter of `Schedule`. The component also calls `continueRender` after every successful fetch, reloads included, without a guard (index.tsx:71). That is not modelled.
- The render-blocking handle (`delayRender`, `continueRender`, `cancelRender`) and the React state `subtitles`/`setSubtitles` (index.tsx:55-56, 70-73). These are framework lifecycle calls and state.
- `getVideoMetadata` (index.tsx:36) is an external probe. Its `durationInSeconds` is a parameter of `CalculateMetadata`.
- `getStaticFiles()` (index.tsx:45) is an external registry. The file list is a parameter.
- Floating point: every product is exact here. NaN, infinities and IEEE-754 rounding are not modelled.
- JavaScript strings are UTF-16. A regex `.` without the `u` flag matches one code unit, so it can split a surrogate pair. Here a path is a sequence of Unicode scalar values, and the dot matches a whole character.
- Transcript validation: the code applies none (index.tsx:70). Sortedness is assumed only by `ScheduleNonOverlapping` and `SlotsOrdered`.
- Each caption `Sequence` also renders a stray ";" text node after its `Subtitle`, from the `/>;` on index.tsx:129. This is presentation only.
- Presentation: the two video `Sequence`s (index.tsx:92-109), `Subtitle`, the audio volume ramp (index.tsx:136-141), `NoCaptionFile` styling, and the upload UI and composition registration in src/Root.tsx. These contain no logic with invariants.
- Determinism of scheduling on an unchanged transcript holds because `Schedule` is a mathematical function. No separate lemma is stated.
