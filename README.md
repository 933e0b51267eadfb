# VidLingo dubbing core in Dafny

VidLingo turns a video into a dubbed video. It downloads the video, transcribes it into timed segments, has a language model translate them, synthesises speech for each translated segment, and lays the speech clips onto a track as long as the video. This project models the bookkeeping and assembly logic of three services:

- **The voice-cloning dubber** (`Dubber`, services/dubber/dubber.py):
  - picking the video and its translated transcript from a directory listing;
  - synthesising one clip per non-blank segment, where a failed synthesis drops only that segment but a segment whose text, start or end cannot be read aborts the whole call;
  - assembling the clips onto a silent track of the video's length. Each clip is re-timed to its slot `end - start` whenever its speed ratio is not exactly 1.0, then overlaid at its own start. A non-positive slot is skipped. A clip that cannot be loaded aborts the assembly.
- **The Edge-TTS dubber** (`Tts`, services/tts/tts.py):
  - choosing a voice from the service's voice list, as a first-match search with layered fallbacks;
  - the loop of `main` that records one metadata entry per non-blank segment and schedules synthesis only for clips not already on disk;
  - `build_dub_track`, which normalises each clip and overlays it at its start, skipping any clip that fails.
- **The translator's reply cleaner** (`Translator`, services/translator/translator.py): a fenced JSON array is preferred, otherwise the span from the first `[` to the last `]` is taken, otherwise the reply is rejected.

Shared modules:

- `Wrappers` defines `Option` and `Result`.
- `Text` holds Python's whitespace set and `str.strip`, ASCII `lower`, and prefix, suffix, substring and character search.
- `Paths` holds the `segment_{n}` file names and their injectivity.
- `Selection` holds first-match search and the indices an `enumerate` loop with `continue` keeps.
- `Audio` holds silence, overlay and mixing on a one-sample-per-millisecond track.

The model is driven by parameters in place of the outside world:

- the directory listing and the set of existing files;
- the files on disk, as a map from path to samples;
- the speech synthesiser, as a partial function from a segment's index and text to audio;
- the voice list and the target language;
- the per-clip preparation (`set_frame_rate` plus `effects.normalize`);
- the total duration.

Timestamps are whole milliseconds.

The two assembly loops and both bookkeeping loops are methods. Each is proved equal to a specification function, and the properties are proved about those functions. Voice selection and reply cleaning are functions.

Where the code and its tests disagree, the model follows the code:

- tests/tts/test_tts.py:28-35 expects `find_voice_for_language("Polish")` to return `pl-PL-MarekNeural`. The code's prefix is `"polish"`, which no `pl-PL` locale starts with, so it returns the default voice (`Tts.PolishByNameGetsDefault`).
- The assertion of tests/tts/test_tts.py:46-53 would hold only because the default voice is one of its accepted answers (`Tts.EnglishByNameGetsDefault`).
- tests/tts/test_tts.py:10 imports `get_audio_duration` and `apply_atempo`, and the tests expect retries. Neither function exists in services/tts/tts.py, so that test module cannot even be imported.

Neither assembly loop has a speed cap, silence padding or placement after the previous clip's real end. None of these are modelled.

## Model

| member | source | states |
|---|---|---|
| Dubber.FindMediaFiles | services/dubber/dubber.py:17-31 | no pair exactly when there is no `*.mp4` or no `*_translated.json` in the listing |
| Dubber.FindMediaFilesPicksFirst | services/dubber/dubber.py:19-31 | otherwise the pair is the first video and the first translation in glob order, joined to the downloads directory |
| Dubber.GenerateDubSegments | services/dubber/dubber.py:59-88 | the call fails naming the first segment whose text, start or end cannot be read, with the clips of the segments before it already on disk; otherwise it returns exactly the entries of the segments that yield a clip, and the disk afterwards has each such clip written |
| Dubber.ReadUpTo | services/dubber/dubber.py:65-68 | reading stops at the first segment whose text, start or end cannot be read; every segment before it is read field for field |
| Dubber.GeneratedList | services/dubber/dubber.py:59-88 | the call fails if and only if some segment cannot be read, and the error names the first one; otherwise it lists the clips of all the segments |
| Dubber.UnreadableSegmentAborts | services/dubber/dubber.py:65-68 | the first unreadable segment aborts the whole call with an error naming it, after the segments before it were processed |
| Dubber.GenerateStep | services/dubber/dubber.py:65-86 | one iteration appends segment i's entry exactly when its text is not blank and its synthesis succeeds, and nothing otherwise |
| Dubber.DubIndices | services/dubber/dubber.py:64-84 | the listed segments are in strictly increasing input order, no more than the input, and each and every yielding segment is among them |
| Dubber.DubEntries | services/dubber/dubber.py:64-84 | entry k is `segment_{i+1}.wav` with segment i's own start and end, for a non-blank segment i whose synthesis succeeded |
| Dubber.DubListsExactlyTheYieldingSegments | services/dubber/dubber.py:70-86 | segment i's clip is listed if and only if its stripped text is non-empty and synthesis did not raise |
| Dubber.DubPathsDistinct | services/dubber/dubber.py:74 | the listed clip paths are pairwise distinct |
| Dubber.ClipPathsDiffer | services/dubber/dubber.py:74 | two different segment indices get different clip files |
| Dubber.WrittenHolds | services/dubber/dubber.py:74-84 | after the loop has passed segment i, the file of a yielding segment i holds the audio synthesised for it; later writes go to other paths |
| Dubber.DubFilesHoldEveryEntry | services/dubber/dubber.py:74-84 | every listed clip is on disk afterwards with its segment's audio |
| Dubber.SpeedRatioComparesDurations | services/dubber/dubber.py:105-110 | the ratio is 1.0 exactly when clip and slot have equal length, and above 1.0 exactly when the clip is longer |
| Dubber.Retime | services/dubber/dubber.py:110-114 | a re-timed non-empty clip lasts exactly its slot and is made only of the clip's own samples |
| Dubber.AlignClipFitsSlot | services/dubber/dubber.py:105-116 | at ratio 1.0 the clip is untouched; at any other ratio, above or below 1 and uncapped, a non-empty clip is re-timed to exactly the slot, and an empty clip stays empty |
| Dubber.AlignedTrack | services/dubber/dubber.py:95-121 | a successful assembly is exactly `total_duration_ms` long |
| Dubber.AlignAndMergeAudio | services/dubber/dubber.py:90-121 | the loop returns exactly the assembled track (silence with every aligned clip overlaid at its start, in list order) or the error naming the first missing clip |
| Dubber.PlacementsErrPersists | services/dubber/dubber.py:104 | once loading a clip has failed, the later clips do not change the outcome |
| Dubber.AlignSkipsEmptySlot | services/dubber/dubber.py:98-102 | a clip with a non-positive slot leaves the track unchanged |
| Dubber.AlignPlacesClipAtItsStart | services/dubber/dubber.py:97-119 | a clip with a positive slot is overlaid, aligned, at its own start onto the track built so far |
| Dubber.AlignFailsOnlyOnMissingClip | services/dubber/dubber.py:100-104 | assembly fails if and only if some clip with a positive slot is not on disk, and then it names the first such clip |
| Dubber.AlignedTrackIsSumOfClips | services/dubber/dubber.py:97-119 | each sample of the track is the sum of each placed clip's sample there from its own start, whatever earlier clips did |
| Dubber.DubbedClipsAllLoad | services/dubber/dubber.py:78-104 | assembling the clips the generator listed, over the disk it wrote, never fails |
| Paths.SegmentFileInjective | services/dubber/dubber.py:74 | `segment_{n}` paths for distinct numbers are distinct |
| Paths.DecimalRoundTrip | services/tts/tts.py:137 | reading back the decimal digits of `str(n)` gives n |
| Text.Strip | services/tts/tts.py:134 | the stripped text is the text with a whitespace prefix and a whitespace suffix cut off and no whitespace left at either end; it is empty exactly when the text is all whitespace |
| Text.StripCutsOnlyOuterSpace | services/tts/tts.py:134 | any cut of a whitespace prefix and suffix that leaves no whitespace at either end is the stripped text, so the result is unique |
| Audio.Silence | services/dubber/dubber.py:95 | a silent track of the given length, all zero |
| Audio.Overlay | services/dubber/dubber.py:119 | overlay keeps the base length, adds the clip inside its window and leaves every other sample alone |
| Audio.OverlayCommutes | services/tts/tts.py:85 | under the unsaturated summing overlay, overlaying two clips gives the same track in either order |
| Audio.MixIsPointwiseSum | services/tts/tts.py:79-85 | a chain of overlays gives the base sample plus each clip's own contribution at every instant |
| Selection.FirstIndex | services/tts/tts.py:25-28 | first-match search: the index found satisfies the condition and no earlier one does; none found means none satisfies it |
| Selection.FirstIndexNone | services/tts/tts.py:47-56 | when no element satisfies the condition, the search falls through to the next fallback |
| Selection.Kept | services/dubber/dubber.py:65-72 | an `enumerate` loop with `continue` keeps exactly the indices passing the test, in increasing order |
| Tts.LanguagePrefix | services/tts/tts.py:21 | the prefix is the lower-cased text before the first `-` |
| Tts.FindVoiceForLanguage | services/tts/tts.py:19-39 | the result is always a listed ShortName or `en-US-ChristopherNeural` |
| Tts.FindVoicePrefersMaleNeural | services/tts/tts.py:25-28 | the first male voice whose locale starts with the prefix and whose Name contains "Neural" is chosen |
| Tts.FindVoiceFallsBackToLocale | services/tts/tts.py:31-34 | without such a voice, the first voice whose locale starts with the prefix is chosen, whatever its gender or Name |
| Tts.FindVoiceDefaultsToEnglish | services/tts/tts.py:36-39 | when no locale starts with the prefix the default voice is returned |
| Tts.LanguageNameLongerThanLocalesGetsDefault | services/tts/tts.py:21-39 | a language name without `-` longer than every listed locale always gets the default voice |
| Tts.UnknownLanguageGetsDefault | tests/tts/test_tts.py:37-43 | an unknown language with only a French voice listed gets the default voice |
| Tts.PolishByNameGetsDefault | tests/tts/test_tts.py:28-35 | on the test's voice list, "Polish" gets the default, not `pl-PL-MarekNeural` |
| Tts.EnglishByNameGetsDefault | tests/tts/test_tts.py:46-53 | on the test's voice list, "English" gets the default voice, which the test accepts |
| Tts.GetVoiceForTts | services/tts/tts.py:41-63 | the result is a listed ShortName or the default, and for "English" it is the default without consulting the list |
| Tts.GetVoicePolishPrefersMarek | services/tts/tts.py:44-50 | for "Polish", `pl-PL-MarekNeural` is returned whenever it is listed |
| Tts.GetVoicePolishAlternative | services/tts/tts.py:51-55 | otherwise the first voice with locale exactly `pl-PL` and "Neural" in its Name |
| Tts.GetVoicePolishFallback | services/tts/tts.py:56-57 | otherwise the general search for "Polish" |
| Tts.GetVoiceOtherLanguage | services/tts/tts.py:62-63 | any other language goes to the general search |
| Tts.PlanSegments | services/tts/tts.py:131-145 | the loop's task list and metadata list are exactly the tasks and metadata entries characterised below, in input order |
| Tts.InfosStep | services/tts/tts.py:134-145 | one iteration appends segment i's metadata exactly when its stripped text is non-empty |
| Tts.TasksStep | services/tts/tts.py:134-143 | one iteration appends segment i's task exactly when its stripped text is non-empty and its file does not exist |
| Tts.SpokenIndices | services/tts/tts.py:133-135 | the non-blank segments, in strictly increasing input order, all of them |
| Tts.TaskIndices | services/tts/tts.py:133-143 | the non-blank segments whose file does not exist, in strictly increasing input order, all of them |
| Tts.ClipInfos | services/tts/tts.py:133-145 | metadata entry k is `segment_{i+1}.mp3` with segment i's own start and end, for a non-blank segment i, whether or not its file exists |
| Tts.SynthesisTasks | services/tts/tts.py:133-143 | task k synthesises segment i's stripped text with the chosen voice into `segment_{i+1}.mp3`, for a non-blank segment i whose file does not exist |
| Tts.MetadataListsEverySpokenSegment | services/tts/tts.py:134-145 | segment i has a metadata entry if and only if its stripped text is non-empty |
| Tts.TaskOnlyForMissingFile | services/tts/tts.py:134-143 | segment i gets a task if and only if its stripped text is non-empty and its file does not exist |
| Tts.TasksAreAmongMetadata | services/tts/tts.py:140-145 | every task's file has a metadata entry, so there are never more tasks than entries |
| Tts.TaskHasEntry | services/tts/tts.py:137-145 | the file of any scheduled task also has a metadata entry |
| Tts.DubTrack | services/tts/tts.py:77-89 | the built track is exactly `total_duration_ms` long |
| Tts.BuildDubTrack | services/tts/tts.py:74-89 | the loop returns exactly silence with every loadable clip prepared and overlaid at its start, in list order |
| Tts.DubTrackSkipsFailingClip | services/tts/tts.py:80-87 | a clip that is not on disk or has no start leaves the track as it was, and later clips are still placed |
| Tts.DubTrackPlacesClipAtItsStart | services/tts/tts.py:81-85 | a loadable clip is prepared and overlaid at its own start onto the track built so far |
| Tts.DubTrackIsSumOfClips | services/tts/tts.py:79-85 | each sample of the track is the sum of each placed clip's sample there from its own start |
| Translator.LastClose | services/translator/translator.py:78 | the greedy `.*` settles on the last `]` that a closing fence follows |
| Translator.FenceFrom | services/translator/translator.py:78 | the search finds the leftmost position where the fenced pattern matches, and no earlier position matches |
| Translator.FenceMatchesByLastClose | services/translator/translator.py:78 | the fenced pattern matches at a position exactly when an opening is followed by a closing bracket that the greedy search finds |
| Translator.FencedArray | services/translator/translator.py:78-81 | the fenced group starts with `[`, ends with `]` and occurs in the reply |
| Translator.WidestSpan | services/translator/translator.py:83-89 | the unfenced span starts with `[`, ends with `]` and occurs in the reply; it is missing if and only if no `[` precedes a `]` |
| Translator.CleanAndExtractJson | services/translator/translator.py:74-89 | any result starts with `[`, ends with `]` and occurs in the reply; it is an error if and only if no `[` precedes a `]` |
| Translator.FencedArrayIsPreferred | services/translator/translator.py:78-81 | with a fence present, the leftmost fence's array up to the last closing `]` is returned, whatever brackets come before it |
| Translator.FenceFromIsLeftmost | services/translator/translator.py:78 | the fence search returns the leftmost matching position |
| Translator.UnfencedReplyGivesWidestSpan | services/translator/translator.py:83-86 | without a fence, the span from the first `[` to the last `]` is returned |
| Translator.NoFenceFound | services/translator/translator.py:78-79 | when the fenced pattern matches nowhere the first search finds nothing |
| Translator.BareArrayIsReturnedWhole | services/translator/translator.py:83-86 | a reply that is already a bracketed array without "```json" comes back unchanged |
| Translator.CleaningAgainKeepsBareArray | services/translator/translator.py:74-89 | cleaning a result without "```json" again changes nothing |

## Left out

- ffmpeg and ffprobe calls are not modelled: `extract_voice_sample`, `mix_and_remux`, `mix_and_remux_video` and the duration probes. The total duration is a parameter.
- Model inference and service calls (XTTS, Edge-TTS, Gemini, Whisper, yt-dlp) are not modelled. Synthesis is a partial function from a segment's index and text to audio, so two segments with the same text may fare differently, as transient failures and random sampling allow. The voice list is a parameter. In the TTS service, synthesis is not modelled at all: `disk` and `existing` stand for whatever files the tasks left. A failed save may leave an empty or partial file. `build_dub_track` then fails to decode it or overlays a truncated clip, and on a rerun the existence test suppresses re-synthesis of that segment.
- `asyncio.gather` is not modelled; only the ordered task and metadata lists are.
- Temporary-file cleanup, logging, `os.makedirs` and the choice of input files in the TTS `main` are not modelled.
- `translate_json_files`, the transcriber and the downloader are not modelled.
- Audio is one integer sample per millisecond; mp3 and wav decoding are not modelled.
- Dubber.Retime: the frame-rate respawn and `set_frame_rate` resampling are modelled as nearest-sample stretching onto exactly the slot. The model leaves out:
  - pydub's interpolation;
  - the truncation of the new frame rate to an integer, which can make the length differ from the slot by rounding;
  - a ratio so small that the frame rate becomes 0.
- Dubber.GenerateDubSegments: a synthesis that raises is modelled as writing nothing, although `tts_to_file` may raise after creating the clip file. This does not change the model's results: an unlisted path is never read by the assembly.
- Tts.GetVoiceForTts: for "Polish", `edge_tts.list_voices()` is fetched twice, once for the Polish search and again inside the general search it falls back to. The model passes one voice list to both, so it assumes the two fetches return the same list.
- Tts.BuildDubTrack: `set_frame_rate` and `effects.normalize` are an opaque per-clip function. An exception raised inside them is not modelled; only a missing file or a missing `start` makes a clip fail.
- Audio.Overlay:
  - sums samples without the saturation of 16-bit mixing, so `Audio.OverlayCommutes` holds only for the unsaturated sum: with clipping the order of overlays can matter;
  - with a negative position, cuts off the clip's first |pos| milliseconds and mixes the rest in from instant 0, whereas pydub would place the whole clip at `len(track) - |pos|`;
  - takes positions in milliseconds, whereas the source multiplies float seconds by 1000.
- Text.Strip: Python's `str.strip` and `str.lower` are modelled on the whitespace set of `str.isspace`, and lower-casing is modelled for ASCII letters only.
- Tts.FindVoiceForLanguage: every voice record is taken to have all four keys. A missing `Name` raises `KeyError` in the source only when `Gender` and `Locale` already match; this is not modelled.
- Tts.PlanSegments: a segment whose `text` is JSON `null` raises in the source; the model treats text as always a string.
- Translator.CleanAndExtractJson: the later `json.loads` of the extracted text is not modelled. So is the logging.
