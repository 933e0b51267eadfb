/**
 * The Edge-TTS dubber (services/tts/tts.py): it chooses a voice for the
 * target language from the service's voice list, plans one synthesis task
 * per non-blank segment whose clip is not already on disk while recording
 * every non-blank segment's clip and slot, and assembles the clips onto a
 * silent track, skipping any clip that cannot be loaded or placed.
 *
 * The voice list, the target language, the set of existing files, the
 * files on disk and the per-clip preparation (resampling and loudness
 * normalisation) are parameters. Times are whole milliseconds.
 */
module Tts {

  import opened Wrappers
  import opened Text
  import opened Paths
  import opened Selection
  import opened Audio

  const TempDir := "/app/temp/tts_outputs"
  const DefaultVoice := "en-US-ChristopherNeural"
  const PolishVoice := "pl-PL-MarekNeural"

  // ---------------------------------------------------------------------
  // find_voice_for_language / get_voice_for_tts
  // ---------------------------------------------------------------------

  /** One record of `edge_tts.list_voices()`. */
  datatype Voice = Voice(shortName: string, gender: string, locale: string, name: string)

  /** `lang.split('-')[0].lower()`. */
  function LanguagePrefix(lang: string): (prefix: string)
    ensures |prefix| <= |lang|
    ensures prefix == Lower(lang[..|prefix|])
    ensures '-' !in lang[..|prefix|]
    ensures |prefix| < |lang| ==> lang[|prefix|] == '-'
  {
    Lower(BeforeFirst(lang, '-'))
  }

  predicate MatchesLocale(v: Voice, prefix: string) {
    StartsWith(Lower(v.locale), prefix)
  }

  /** A male "Neural" voice whose locale starts with the language prefix. */
  predicate IsPreferred(v: Voice, prefix: string) {
    v.gender == "Male" && MatchesLocale(v, prefix) && Contains(v.name, "Neural")
  }

  predicate Listed(voices: seq<Voice>, shortName: string) {
    exists i :: 0 <= i < |voices| && voices[i].shortName == shortName
  }

  /**
   * `find_voice_for_language(lang)`: the first preferred voice, else the
   * first voice of the language, else the default English voice.
   */
  function FindVoiceForLanguage(lang: string, voices: seq<Voice>): (r: string)
    ensures r == DefaultVoice || Listed(voices, r)
  {
    var prefix := LanguagePrefix(lang);
    match FirstIndex(voices, (v: Voice) => IsPreferred(v, prefix))
    case Some(i) => voices[i].shortName
    case None =>
      match FirstIndex(voices, (v: Voice) => MatchesLocale(v, prefix))
      case Some(i) => voices[i].shortName
      case None => DefaultVoice
  }

  lemma FindVoicePrefersMaleNeural(lang: string, voices: seq<Voice>, i: nat)
    requires i < |voices| && IsPreferred(voices[i], LanguagePrefix(lang))
    requires forall j :: 0 <= j < i ==> !IsPreferred(voices[j], LanguagePrefix(lang))
    ensures FindVoiceForLanguage(lang, voices) == voices[i].shortName
  {
    var prefix := LanguagePrefix(lang);
    FirstIndexIsEarliest(voices, (v: Voice) => IsPreferred(v, prefix), i);
  }

  lemma FindVoiceFallsBackToLocale(lang: string, voices: seq<Voice>, i: nat)
    requires forall j :: 0 <= j < |voices| ==> !IsPreferred(voices[j], LanguagePrefix(lang))
    requires i < |voices| && MatchesLocale(voices[i], LanguagePrefix(lang))
    requires forall j :: 0 <= j < i ==> !MatchesLocale(voices[j], LanguagePrefix(lang))
    ensures FindVoiceForLanguage(lang, voices) == voices[i].shortName
  {
    var prefix := LanguagePrefix(lang);
    FirstIndexIsEarliest(voices, (v: Voice) => MatchesLocale(v, prefix), i);
  }

  lemma FindVoiceDefaultsToEnglish(lang: string, voices: seq<Voice>)
    requires forall j :: 0 <= j < |voices| ==> !MatchesLocale(voices[j], LanguagePrefix(lang))
    ensures FindVoiceForLanguage(lang, voices) == DefaultVoice
  {
  }

  /**
   * A language string without '-' (a language name rather than a locale
   * code) that is longer than every listed locale matches none of them, so
   * the default voice is returned.
   */
  lemma LanguageNameLongerThanLocalesGetsDefault(lang: string, voices: seq<Voice>)
    requires '-' !in lang
    requires forall j :: 0 <= j < |voices| ==> |voices[j].locale| < |lang|
    ensures FindVoiceForLanguage(lang, voices) == DefaultVoice
  {
    var prefix := LanguagePrefix(lang);
    assert |prefix| == |lang|;
    forall j | 0 <= j < |voices|
      ensures !MatchesLocale(voices[j], prefix)
    {
      assert |Lower(voices[j].locale)| < |prefix|;
    }
  }

  /** An unknown language with only a French voice listed gets the default voice. */
  lemma UnknownLanguageGetsDefault(name: string)
    ensures FindVoiceForLanguage("NonExistentLanguage", [Voice("fr-FR-Standard-A", "Female", "fr-FR", name)])
         == DefaultVoice
  {
    LanguageNameLongerThanLocalesGetsDefault("NonExistentLanguage", [Voice("fr-FR-Standard-A", "Female", "fr-FR", name)]);
  }

  /**
   * A search by the name "Polish" does not find a listed Polish male Neural
   * voice, since no locale starts with "polish": the default is returned.
   */
  lemma PolishByNameGetsDefault(nameA: string, nameB: string)
    ensures var voices := [Voice("en-US-Standard-A", "Female", "en-US", nameA),
                           Voice(PolishVoice, "Male", "pl-PL", PolishVoice),
                           Voice("de-DE-Standard-B", "Male", "de-DE", nameB)];
      FindVoiceForLanguage("Polish", voices) == DefaultVoice
  {
    var voices := [Voice("en-US-Standard-A", "Female", "en-US", nameA),
                   Voice(PolishVoice, "Male", "pl-PL", PolishVoice),
                   Voice("de-DE-Standard-B", "Male", "de-DE", nameB)];
    LanguageNameLongerThanLocalesGetsDefault("Polish", voices);
  }

  /**
   * A search by the name "English" matches no "en-US" locale either; it
   * yields the first listed voice only because that is also the default.
   */
  lemma EnglishByNameGetsDefault(name: string)
    ensures var voices := [Voice(DefaultVoice, "Male", "en-US", DefaultVoice),
                           Voice("en-US-GuyNeural", "Male", "en-US", "en-US-GuyNeural"),
                           Voice("en-GB-Standard-A", "Female", "en-GB", name)];
      FindVoiceForLanguage("English", voices) == DefaultVoice
  {
    var voices := [Voice(DefaultVoice, "Male", "en-US", DefaultVoice),
                   Voice("en-US-GuyNeural", "Male", "en-US", "en-US-GuyNeural"),
                   Voice("en-GB-Standard-A", "Female", "en-GB", name)];
    LanguageNameLongerThanLocalesGetsDefault("English", voices);
  }

  /** `get_voice_for_tts()` with `TARGET_LANG` and the voice list as inputs. */
  function GetVoiceForTts(targetLang: string, voices: seq<Voice>): (r: string)
    ensures r == DefaultVoice || Listed(voices, r)
    ensures targetLang == "English" ==> r == DefaultVoice
  {
    if targetLang == "Polish" then
      match FirstIndex(voices, (v: Voice) => v.shortName == PolishVoice)
      case Some(_) => PolishVoice
      case None =>
        match FirstIndex(voices, (v: Voice) => v.locale == "pl-PL" && Contains(v.name, "Neural"))
        case Some(i) => voices[i].shortName
        case None => FindVoiceForLanguage(targetLang, voices)
    else if targetLang == "English" then DefaultVoice
    else FindVoiceForLanguage(targetLang, voices)
  }

  lemma GetVoicePolishPrefersMarek(voices: seq<Voice>)
    requires Listed(voices, PolishVoice)
    ensures GetVoiceForTts("Polish", voices) == PolishVoice
  {
    var i :| 0 <= i < |voices| && voices[i].shortName == PolishVoice;
  }

  lemma GetVoicePolishAlternative(voices: seq<Voice>, i: nat)
    requires !Listed(voices, PolishVoice)
    requires i < |voices| && voices[i].locale == "pl-PL" && Contains(voices[i].name, "Neural")
    requires forall j :: 0 <= j < i ==> !(voices[j].locale == "pl-PL" && Contains(voices[j].name, "Neural"))
    ensures GetVoiceForTts("Polish", voices) == voices[i].shortName
  {
    FirstIndexIsEarliest(voices, (v: Voice) => v.locale == "pl-PL" && Contains(v.name, "Neural"), i);
  }

  lemma GetVoicePolishFallback(voices: seq<Voice>)
    requires !Listed(voices, PolishVoice)
    requires forall j :: 0 <= j < |voices| ==> !(voices[j].locale == "pl-PL" && Contains(voices[j].name, "Neural"))
    ensures GetVoiceForTts("Polish", voices) == FindVoiceForLanguage("Polish", voices)
  {
    FirstIndexNone(voices, (v: Voice) => v.shortName == PolishVoice);
    FirstIndexNone(voices, (v: Voice) => v.locale == "pl-PL" && Contains(v.name, "Neural"));
  }

  lemma GetVoiceOtherLanguage(targetLang: string, voices: seq<Voice>)
    requires targetLang != "Polish" && targetLang != "English"
    ensures GetVoiceForTts(targetLang, voices) == FindVoiceForLanguage(targetLang, voices)
  {
  }

  // ---------------------------------------------------------------------
  // main: the per-segment loop that plans synthesis and records metadata
  // ---------------------------------------------------------------------

  /** A transcript segment; a missing `text` key reads as "". */
  datatype TtsSegment = TtsSegment(text: string, start: Option<int>, end: Option<int>)

  /** `{"audio_path": …, "start": …, "end": …}`. */
  datatype ClipInfo = ClipInfo(audioPath: string, start: Option<int>, end: Option<int>)

  /** `generate_segment_audio(text, voice, output_path)`, scheduled but not yet run. */
  datatype SynthesisTask = SynthesisTask(text: string, voice: string, outputPath: string)

  /** The clip file of the segment at 0-based index `i`: `segment_{i+1}.mp3`. */
  function OutputPath(i: nat): string {
    SegmentFile(TempDir, i + 1, ".mp3")
  }

  predicate Speaks(segments: seq<TtsSegment>, i: nat) {
    i < |segments| && !IsBlank(segments[i].text)
  }

  predicate NeedsSynthesis(segments: seq<TtsSegment>, existing: set<string>, i: nat) {
    Speaks(segments, i) && OutputPath(i) !in existing
  }

  function SpeaksAt(segments: seq<TtsSegment>): nat -> bool {
    (i: nat) => Speaks(segments, i)
  }

  function NeedsSynthesisAt(segments: seq<TtsSegment>, existing: set<string>): nat -> bool {
    (i: nat) => NeedsSynthesis(segments, existing, i)
  }

  function InfoFor(segments: seq<TtsSegment>, i: nat): ClipInfo
    requires i < |segments|
  {
    ClipInfo(OutputPath(i), segments[i].start, segments[i].end)
  }

  function TaskFor(segments: seq<TtsSegment>, voice: string, i: nat): SynthesisTask
    requires i < |segments|
  {
    SynthesisTask(Strip(segments[i].text), voice, OutputPath(i))
  }

  function Infos(segments: seq<TtsSegment>, idx: seq<nat>): (r: seq<ClipInfo>)
    requires forall k :: 0 <= k < |idx| ==> idx[k] < |segments|
    ensures |r| == |idx|
    ensures forall k :: 0 <= k < |idx| ==> r[k] == InfoFor(segments, idx[k])
  {
    seq(|idx|, k requires 0 <= k < |idx| => InfoFor(segments, idx[k]))
  }

  function Tasks(segments: seq<TtsSegment>, voice: string, idx: seq<nat>): (r: seq<SynthesisTask>)
    requires forall k :: 0 <= k < |idx| ==> idx[k] < |segments|
    ensures |r| == |idx|
    ensures forall k :: 0 <= k < |idx| ==> r[k] == TaskFor(segments, voice, idx[k])
  {
    seq(|idx|, k requires 0 <= k < |idx| => TaskFor(segments, voice, idx[k]))
  }

  /** The indices of the non-blank segments, in input order. */
  function SpokenIndices(segments: seq<TtsSegment>): (idx: seq<nat>)
    ensures |idx| <= |segments|
    ensures forall k :: 0 <= k < |idx| ==> Speaks(segments, idx[k])
    ensures forall k1, k2 :: 0 <= k1 < k2 < |idx| ==> idx[k1] < idx[k2]
    ensures forall i :: 0 <= i < |segments| && Speaks(segments, i) ==> i in idx
  {
    Kept(|segments|, SpeaksAt(segments))
  }

  /** The indices of the non-blank segments whose clip file does not exist yet, in input order. */
  function TaskIndices(segments: seq<TtsSegment>, existing: set<string>): (idx: seq<nat>)
    ensures |idx| <= |segments|
    ensures forall k :: 0 <= k < |idx| ==> NeedsSynthesis(segments, existing, idx[k])
    ensures forall k1, k2 :: 0 <= k1 < k2 < |idx| ==> idx[k1] < idx[k2]
    ensures forall i :: 0 <= i < |segments| && NeedsSynthesis(segments, existing, i) ==> i in idx
  {
    Kept(|segments|, NeedsSynthesisAt(segments, existing))
  }

  /**
   * `generated_files_metadata`: one entry per non-blank segment, in input
   * order, with that segment's clip path and its own start and end. It does
   * not depend on which files exist.
   */
  function ClipInfos(segments: seq<TtsSegment>): (r: seq<ClipInfo>)
    ensures |r| == |SpokenIndices(segments)| <= |segments|
    ensures forall k :: 0 <= k < |r| ==>
      var i := SpokenIndices(segments)[k];
      i < |segments| && !IsBlank(segments[i].text)
      && r[k] == ClipInfo(OutputPath(i), segments[i].start, segments[i].end)
  {
    Infos(segments, SpokenIndices(segments))
  }

  /**
   * `tasks`: one synthesis of the stripped text per non-blank segment whose
   * clip file does not exist yet, in input order.
   */
  function SynthesisTasks(segments: seq<TtsSegment>, voice: string, existing: set<string>)
    : (r: seq<SynthesisTask>)
    ensures |r| == |TaskIndices(segments, existing)| <= |segments|
    ensures forall k :: 0 <= k < |r| ==>
      var i := TaskIndices(segments, existing)[k];
      i < |segments| && !IsBlank(segments[i].text) && OutputPath(i) !in existing
      && r[k] == SynthesisTask(Strip(segments[i].text), voice, OutputPath(i))
  {
    Tasks(segments, voice, TaskIndices(segments, existing))
  }

  /**
   * The loop of `main` over `enumerate(segments)`: blank segments are
   * skipped; every other one gets a metadata entry, and a synthesis task
   * only when its file does not already exist.
   */
  method PlanSegments(segments: seq<TtsSegment>, voice: string, existing: set<string>)
    returns (tasks: seq<SynthesisTask>, metadata: seq<ClipInfo>)
    ensures metadata == ClipInfos(segments)
    ensures tasks == SynthesisTasks(segments, voice, existing)
  {
    tasks, metadata := [], [];
    for i := 0 to |segments|
      invariant metadata == Infos(segments, Kept(i, SpeaksAt(segments)))
      invariant tasks == Tasks(segments, voice, Kept(i, NeedsSynthesisAt(segments, existing)))
    {
      InfosStep(segments, i);
      TasksStep(segments, voice, existing, i);
      var text := Strip(segments[i].text);
      if text == [] {
        continue;
      }
      var outputPath := OutputPath(i);
      if outputPath !in existing {
        tasks := tasks + [SynthesisTask(text, voice, outputPath)];
      }
      metadata := metadata + [ClipInfo(outputPath, segments[i].start, segments[i].end)];
    }
  }

  /** One iteration of the planning loop records segment `i` exactly when it is not blank. */
  lemma InfosStep(segments: seq<TtsSegment>, i: nat)
    requires i < |segments|
    ensures Infos(segments, Kept(i + 1, SpeaksAt(segments)))
         == Infos(segments, Kept(i, SpeaksAt(segments)))
            + (if Speaks(segments, i) then [InfoFor(segments, i)] else [])
  {
    var speaks := SpeaksAt(segments);
    assert speaks(i) == Speaks(segments, i);
    var spoken := Kept(i, speaks);
    if Speaks(segments, i) {
      assert Infos(segments, spoken + [i]) == Infos(segments, spoken) + [InfoFor(segments, i)];
    }
  }

  /** One iteration of the planning loop schedules segment `i` exactly when it needs synthesis. */
  lemma TasksStep(segments: seq<TtsSegment>, voice: string, existing: set<string>, i: nat)
    requires i < |segments|
    ensures Tasks(segments, voice, Kept(i + 1, NeedsSynthesisAt(segments, existing)))
         == Tasks(segments, voice, Kept(i, NeedsSynthesisAt(segments, existing)))
            + (if NeedsSynthesis(segments, existing, i) then [TaskFor(segments, voice, i)] else [])
  {
    var needs := NeedsSynthesisAt(segments, existing);
    assert needs(i) == NeedsSynthesis(segments, existing, i);
    var pending := Kept(i, needs);
    if NeedsSynthesis(segments, existing, i) {
      assert Tasks(segments, voice, pending + [i]) == Tasks(segments, voice, pending) + [TaskFor(segments, voice, i)];
    }
  }

  /** Segment `i` has a metadata entry exactly when its stripped text is not empty. */
  lemma MetadataListsEverySpokenSegment(segments: seq<TtsSegment>, i: nat)
    requires i < |segments|
    ensures var r := ClipInfos(segments);
      (exists k :: 0 <= k < |r| && r[k].audioPath == OutputPath(i)) <==> !IsBlank(segments[i].text)
  {
    var r := ClipInfos(segments);
    var idx := SpokenIndices(segments);
    if Speaks(segments, i) {
      var k :| 0 <= k < |idx| && idx[k] == i;
      assert r[k].audioPath == OutputPath(i);
    } else {
      forall k | 0 <= k < |r|
        ensures r[k].audioPath != OutputPath(i)
      {
        if r[k].audioPath == OutputPath(i) {
          SegmentFileInjective(TempDir, idx[k] + 1, i + 1, ".mp3");
        }
      }
    }
  }

  /** Segment `i` gets a synthesis task exactly when its stripped text is not empty and its file does not exist. */
  lemma TaskOnlyForMissingFile(segments: seq<TtsSegment>, voice: string, existing: set<string>, i: nat)
    requires i < |segments|
    ensures var r := SynthesisTasks(segments, voice, existing);
      (exists k :: 0 <= k < |r| && r[k].outputPath == OutputPath(i))
        <==> !IsBlank(segments[i].text) && OutputPath(i) !in existing
  {
    var r := SynthesisTasks(segments, voice, existing);
    var idx := TaskIndices(segments, existing);
    if NeedsSynthesis(segments, existing, i) {
      var k :| 0 <= k < |idx| && idx[k] == i;
      assert r[k].outputPath == OutputPath(i);
    } else {
      forall k | 0 <= k < |r|
        ensures r[k].outputPath != OutputPath(i)
      {
        if r[k].outputPath == OutputPath(i) {
          SegmentFileInjective(TempDir, idx[k] + 1, i + 1, ".mp3");
        }
      }
    }
  }

  predicate HasEntryFor(infos: seq<ClipInfo>, path: string) {
    exists m :: 0 <= m < |infos| && infos[m].audioPath == path
  }

  /** Every task writes a file the metadata lists, so there are never more tasks than entries. */
  lemma TasksAreAmongMetadata(segments: seq<TtsSegment>, voice: string, existing: set<string>)
    ensures |SynthesisTasks(segments, voice, existing)| <= |ClipInfos(segments)|
    ensures forall t :: t in SynthesisTasks(segments, voice, existing) ==> HasEntryFor(ClipInfos(segments), t.outputPath)
  {
    var tIdx, sIdx := TaskIndices(segments, existing), SpokenIndices(segments);
    forall k | 0 <= k < |tIdx|
      ensures tIdx[k] in sIdx
    {
      assert Speaks(segments, tIdx[k]);
    }
    SubsequenceLength(tIdx, sIdx);
    forall t | t in SynthesisTasks(segments, voice, existing)
      ensures HasEntryFor(ClipInfos(segments), t.outputPath)
    {
      TaskHasEntry(segments, voice, existing, t);
    }
  }

  lemma TaskHasEntry(segments: seq<TtsSegment>, voice: string, existing: set<string>, t: SynthesisTask)
    requires t in SynthesisTasks(segments, voice, existing)
    ensures HasEntryFor(ClipInfos(segments), t.outputPath)
  {
    var tasks := SynthesisTasks(segments, voice, existing);
    var k :| 0 <= k < |tasks| && tasks[k] == t;
    var i := TaskIndices(segments, existing)[k];
    MetadataListsEverySpokenSegment(segments, i);
  }

  /** A strictly increasing list of indices drawn from another list is no longer than it. */
  lemma SubsequenceLength(small: seq<nat>, big: seq<nat>)
    requires forall k1, k2 :: 0 <= k1 < k2 < |small| ==> small[k1] < small[k2]
    requires forall k :: 0 <= k < |small| ==> small[k] in big
    ensures |small| <= |big|
  {
    var s := set k | 0 <= k < |small| :: small[k];
    assert |s| == |small| by {
      IncreasingHasDistinctElements(small);
    }
    var b := set k | 0 <= k < |big| :: big[k];
    assert s <= b;
    SetOfSeqSize(big);
    SubsetSize(s, b);
  }

  lemma {:induction false} IncreasingHasDistinctElements(xs: seq<nat>)
    requires forall k1, k2 :: 0 <= k1 < k2 < |xs| ==> xs[k1] < xs[k2]
    ensures |set k | 0 <= k < |xs| :: xs[k]| == |xs|
  {
    if xs != [] {
      var init := xs[..|xs| - 1];
      IncreasingHasDistinctElements(init);
      var si := set k | 0 <= k < |init| :: init[k];
      var sx := set k | 0 <= k < |xs| :: xs[k];
      assert sx == si + {xs[|xs| - 1]};
      assert xs[|xs| - 1] !in si;
    }
  }

  lemma {:induction false} SetOfSeqSize(xs: seq<nat>)
    ensures |set k | 0 <= k < |xs| :: xs[k]| <= |xs|
  {
    if xs != [] {
      var init := xs[..|xs| - 1];
      SetOfSeqSize(init);
      var si := set k | 0 <= k < |init| :: init[k];
      var sx := set k | 0 <= k < |xs| :: xs[k];
      assert sx == si + {xs[|xs| - 1]};
    }
  }

  lemma SubsetSize(a: set<nat>, b: set<nat>)
    requires a <= b
    ensures |a| <= |b|
  {
    assert b == a + (b - a);
  }

  // ---------------------------------------------------------------------
  // build_dub_track
  // ---------------------------------------------------------------------

  /**
   * What happens to a loaded clip before it is overlaid: `set_frame_rate`
   * and `effects.normalize`, opaque here.
   */
  type Prepare = Samples -> Samples

  /**
   * One iteration of `build_dub_track`: a clip that cannot be loaded, or
   * whose `start` is missing (`None * 1000` raises), is logged and skipped.
   */
  function PlacementOf(c: ClipInfo, disk: map<string, Samples>, prepare: Prepare): Option<Placement> {
    if c.audioPath in disk && c.start.Some? then Some(Placement(prepare(disk[c.audioPath]), c.start.value))
    else None
  }

  function TrackPlacements(clips: seq<ClipInfo>, disk: map<string, Samples>, prepare: Prepare): seq<Placement> {
    if clips == [] then []
    else
      var ps := TrackPlacements(clips[..|clips| - 1], disk, prepare);
      match PlacementOf(clips[|clips| - 1], disk, prepare)
      case None => ps
      case Some(p) => ps + [p]
  }

  /** The track `build_dub_track` returns: the placed clips mixed onto `total_duration_ms` of silence. */
  function DubTrack(clips: seq<ClipInfo>, disk: map<string, Samples>, prepare: Prepare, totalMs: nat)
    : (r: Samples)
    ensures |r| == totalMs
  {
    Mix(Silence(totalMs), TrackPlacements(clips, disk, prepare))
  }

  /**
   * `build_dub_track(generated_files, total_duration_ms)`: start from
   * silence and overlay each clip that loads at its own start, in list
   * order; a failing clip leaves the track as it was.
   */
  method BuildDubTrack(generatedFiles: seq<ClipInfo>, disk: map<string, Samples>, prepare: Prepare, totalMs: nat)
    returns (finalTrack: Samples)
    ensures finalTrack == DubTrack(generatedFiles, disk, prepare, totalMs)
  {
    finalTrack := Silence(totalMs);
    for i := 0 to |generatedFiles|
      invariant finalTrack == DubTrack(generatedFiles[..i], disk, prepare, totalMs)
    {
      var clipInfo := generatedFiles[i];
      assert generatedFiles[..i + 1][..i] == generatedFiles[..i];
      if clipInfo.audioPath !in disk || clipInfo.start.None? {
        continue;
      }
      var segmentAudio := prepare(disk[clipInfo.audioPath]);
      finalTrack := Overlay(finalTrack, segmentAudio, clipInfo.start.value);
    }
    assert generatedFiles[..|generatedFiles|] == generatedFiles;
  }

  /** A clip that fails leaves the track unchanged and later clips are still placed. */
  lemma DubTrackSkipsFailingClip(clips: seq<ClipInfo>, c: ClipInfo, rest: seq<ClipInfo>,
                                 disk: map<string, Samples>, prepare: Prepare, totalMs: nat)
    requires c.audioPath !in disk || c.start.None?
    ensures DubTrack(clips + [c] + rest, disk, prepare, totalMs) == DubTrack(clips + rest, disk, prepare, totalMs)
  {
    SkipFailing(clips, c, rest, disk, prepare);
  }

  lemma {:induction false} SkipFailing(clips: seq<ClipInfo>, c: ClipInfo, rest: seq<ClipInfo>,
                                       disk: map<string, Samples>, prepare: Prepare)
    requires c.audioPath !in disk || c.start.None?
    ensures TrackPlacements(clips + [c] + rest, disk, prepare) == TrackPlacements(clips + rest, disk, prepare)
    decreases |rest|
  {
    if rest == [] {
      assert clips + [c] + rest == clips + [c];
      assert (clips + [c])[..|clips|] == clips;
      assert clips + rest == clips;
    } else {
      var init := rest[..|rest| - 1];
      SkipFailing(clips, c, init, disk, prepare);
      assert (clips + [c] + rest)[..|clips + [c] + rest| - 1] == clips + [c] + init;
      assert (clips + rest)[..|clips + rest| - 1] == clips + init;
    }
  }

  /** A clip that loads and has a start is overlaid onto the track built so far at its own start. */
  lemma DubTrackPlacesClipAtItsStart(clips: seq<ClipInfo>, c: ClipInfo,
                                     disk: map<string, Samples>, prepare: Prepare, totalMs: nat)
    requires c.audioPath in disk && c.start.Some?
    ensures DubTrack(clips + [c], disk, prepare, totalMs)
         == Overlay(DubTrack(clips, disk, prepare, totalMs), prepare(disk[c.audioPath]), c.start.value)
  {
    assert (clips + [c])[..|clips|] == clips;
  }

  /** What all clips of the list put at instant `j`: each placed clip's sample there, from its own start. */
  function PreparedClipsAt(clips: seq<ClipInfo>, disk: map<string, Samples>, prepare: Prepare, j: int): int {
    if clips == [] then 0
    else
      var c := clips[|clips| - 1];
      PreparedClipsAt(clips[..|clips| - 1], disk, prepare, j)
        + (if c.audioPath in disk && c.start.Some? then SampleAt(prepare(disk[c.audioPath]), c.start.value, j) else 0)
  }

  lemma {:induction false} TrackPlacementsContribute(clips: seq<ClipInfo>, disk: map<string, Samples>,
                                                     prepare: Prepare, j: int)
    ensures Contribution(TrackPlacements(clips, disk, prepare), j) == PreparedClipsAt(clips, disk, prepare, j)
  {
    if clips != [] {
      var init := clips[..|clips| - 1];
      TrackPlacementsContribute(init, disk, prepare, j);
      var qs := TrackPlacements(init, disk, prepare);
      match PlacementOf(clips[|clips| - 1], disk, prepare)
      case None =>
      case Some(p) => ContributionAppend(qs, p, j);
    }
  }

  /** Every sample of the track is the sum of what each placed clip puts there from its own start. */
  lemma DubTrackIsSumOfClips(clips: seq<ClipInfo>, disk: map<string, Samples>, prepare: Prepare, totalMs: nat)
    ensures forall j :: 0 <= j < totalMs ==> DubTrack(clips, disk, prepare, totalMs)[j] == PreparedClipsAt(clips, disk, prepare, j)
  {
    var ps := TrackPlacements(clips, disk, prepare);
    MixIsPointwiseSum(Silence(totalMs), ps);
    forall j | 0 <= j < totalMs
      ensures DubTrack(clips, disk, prepare, totalMs)[j] == PreparedClipsAt(clips, disk, prepare, j)
    {
      TrackPlacementsContribute(clips, disk, prepare, j);
    }
  }
}
