/**
 * The voice-cloning dubber (services/dubber/dubber.py): it picks the video
 * and its translated transcript, synthesises one clip per non-blank
 * segment, and assembles the clips onto a silent track as long as the
 * video, each re-timed to its segment's slot and overlaid at the segment's
 * start.
 *
 * Times are whole milliseconds. The directory listing, the speech
 * synthesiser and the files on disk are parameters.
 */
module Dubber {

  import opened Wrappers
  import opened Text
  import opened Paths
  import opened Selection
  import opened Audio

  const DownloadsDir := "/app/downloads"
  const TempDir := "/app/temp"
  const VideoSuffix := ".mp4"
  const TranslationSuffix := "_translated.json"

  // ---------------------------------------------------------------------
  // find_media_files
  // ---------------------------------------------------------------------

  /** A directory entry that `glob("*" + suffix)` returns: not hidden, ending in `suffix`. */
  predicate GlobMatches(name: string, suffix: string) {
    |name| > 0 && name[0] != '.' && EndsWith(name, suffix)
  }

  /** `listing[i]` is the first entry the glob for `suffix` returns. */
  predicate IsFirstMatch(listing: seq<string>, i: nat, suffix: string) {
    i < |listing| && GlobMatches(listing[i], suffix)
    && forall j :: 0 <= j < i ==> !GlobMatches(listing[j], suffix)
  }

  predicate HasMatch(listing: seq<string>, suffix: string) {
    exists i :: 0 <= i < |listing| && GlobMatches(listing[i], suffix)
  }

  function Join(dir: string, name: string): string {
    dir + "/" + name
  }

  datatype MediaFiles = MediaFiles(video: string, translation: string)

  /**
   * `find_media_files()`: the first `*.mp4` and the first `*_translated.json`
   * of the downloads directory, or `(None, None)` (here `None`) when either
   * is missing.
   */
  function FindMediaFiles(listing: seq<string>): (r: Option<MediaFiles>)
    ensures r.None? <==> !HasMatch(listing, VideoSuffix) || !HasMatch(listing, TranslationSuffix)
  {
    var video := FirstIndex(listing, name => GlobMatches(name, VideoSuffix));
    var translation := FirstIndex(listing, name => GlobMatches(name, TranslationSuffix));
    if video.None? then None
    else if translation.None? then None
    else Some(MediaFiles(Join(DownloadsDir, listing[video.value]),
                         Join(DownloadsDir, listing[translation.value])))
  }

  lemma FindMediaFilesPicksFirst(listing: seq<string>, v: nat, t: nat)
    requires IsFirstMatch(listing, v, VideoSuffix)
    requires IsFirstMatch(listing, t, TranslationSuffix)
    ensures FindMediaFiles(listing)
         == Some(MediaFiles(Join(DownloadsDir, listing[v]), Join(DownloadsDir, listing[t])))
  {
    FirstIndexIsEarliest(listing, name => GlobMatches(name, VideoSuffix), v);
    FirstIndexIsEarliest(listing, name => GlobMatches(name, TranslationSuffix), t);
  }

  // ---------------------------------------------------------------------
  // generate_dub_segments
  // ---------------------------------------------------------------------

  /** A transcript entry once its three fields have been read: times in whole milliseconds. */
  datatype Segment = Segment(text: string, startMs: int, endMs: int)

  /**
   * A transcript entry as `json.load` gives it. `None` stands for a field
   * that is missing, null, or (for `text`) not a string or (for the times)
   * not convertible by `float`: reading it raises.
   */
  datatype RawSegment = RawSegment(text: Option<string>, start: Option<int>, end: Option<int>)

  /** `segment['text']`, `float(segment['start'])` and `float(segment['end'])` all succeed. */
  predicate Readable(raw: RawSegment) {
    raw.text.Some? && raw.start.Some? && raw.end.Some?
  }

  function Read(raw: RawSegment): Segment
    requires Readable(raw)
  {
    Segment(raw.text.value, raw.start.value, raw.end.value)
  }

  /**
   * The exception that escapes `generate_dub_segments` when a segment cannot
   * be read: the reads come before the `try`, and `main` does not catch it.
   */
  datatype GenerateError = UnreadableSegment(index: nat)

  /** `(clip_path, start_time, end_time)`. */
  datatype ClipEntry = ClipEntry(path: string, startMs: int, endMs: int)

  /**
   * `tts_model.tts_to_file(text=…)` for the segment at index `i`: the audio
   * it writes, or `None` when it raises. It is indexed by the segment as well
   * as the text, so two segments with the same text may fare differently.
   */
  type Synthesizer = (nat, string) -> Option<Samples>

  /** The clip file of the segment at 0-based index `i`: `segment_{i+1}.wav`. */
  function ClipPath(i: nat): string {
    SegmentFile(TempDir, i + 1, ".wav")
  }

  /** Segment `i` gets a clip: its text is not blank and synthesising it succeeds. */
  predicate Yields(segments: seq<Segment>, synth: Synthesizer, i: nat) {
    i < |segments| && !IsBlank(segments[i].text) && synth(i, segments[i].text).Some?
  }

  function YieldsAt(segments: seq<Segment>, synth: Synthesizer): nat -> bool {
    (i: nat) => Yields(segments, synth, i)
  }

  function EntryFor(segments: seq<Segment>, i: nat): ClipEntry
    requires i < |segments|
  {
    ClipEntry(ClipPath(i), segments[i].startMs, segments[i].endMs)
  }

  function Entries(segments: seq<Segment>, idx: seq<nat>): (r: seq<ClipEntry>)
    requires forall k :: 0 <= k < |idx| ==> idx[k] < |segments|
    ensures |r| == |idx|
    ensures forall k :: 0 <= k < |idx| ==> r[k] == EntryFor(segments, idx[k])
  {
    seq(|idx|, k requires 0 <= k < |idx| => EntryFor(segments, idx[k]))
  }

  /** The input indices whose clips `generate_dub_segments` lists, in input order. */
  function DubIndices(segments: seq<Segment>, synth: Synthesizer): (idx: seq<nat>)
    ensures |idx| <= |segments|
    ensures forall k :: 0 <= k < |idx| ==> Yields(segments, synth, idx[k])
    ensures forall k1, k2 :: 0 <= k1 < k2 < |idx| ==> idx[k1] < idx[k2]
    ensures forall i :: 0 <= i < |segments| && Yields(segments, synth, i) ==> i in idx
  {
    Kept(|segments|, YieldsAt(segments, synth))
  }

  /**
   * The list built from readable segments: one entry per segment that yields
   * a clip, in input order, each with that segment's own start and end.
   */
  function DubEntries(segments: seq<Segment>, synth: Synthesizer): (r: seq<ClipEntry>)
    ensures |r| == |DubIndices(segments, synth)| <= |segments|
    ensures forall k :: 0 <= k < |r| ==>
      var i := DubIndices(segments, synth)[k];
      i < |segments| && !IsBlank(segments[i].text) && synth(i, segments[i].text).Some?
      && r[k] == ClipEntry(ClipPath(i), segments[i].startMs, segments[i].endMs)
  {
    Entries(segments, DubIndices(segments, synth))
  }

  /** The disk after the clips of the first `n` segments were written, in order. */
  function WrittenUpTo(disk: map<string, Samples>, segments: seq<Segment>, synth: Synthesizer, n: nat)
    : map<string, Samples>
    requires n <= |segments|
  {
    if n == 0 then disk
    else
      var before := WrittenUpTo(disk, segments, synth, n - 1);
      if Yields(segments, synth, n - 1) then before[ClipPath(n - 1) := synth(n - 1, segments[n - 1].text).value]
      else before
  }

  function DubFiles(disk: map<string, Samples>, segments: seq<Segment>, synth: Synthesizer)
    : map<string, Samples>
  {
    WrittenUpTo(disk, segments, synth, |segments|)
  }

  predicate IsUnreadable(raw: RawSegment) {
    !Readable(raw)
  }

  /** The segments the loop reads before it meets the first unreadable one (all of them if there is none). */
  function ReadUpTo(raws: seq<RawSegment>): (segments: seq<Segment>)
    ensures |segments| <= |raws|
    ensures |segments| < |raws| ==> !Readable(raws[|segments|])
    ensures forall i :: 0 <= i < |segments| ==> Readable(raws[i]) && segments[i] == Read(raws[i])
  {
    var n := match FirstIndex(raws, IsUnreadable) case Some(n) => n case None => |raws|;
    seq(n, i requires 0 <= i < n => Read(raws[i]))
  }

  /**
   * What `generate_dub_segments` returns, or the error that escapes it: the
   * first unreadable segment aborts the whole call, otherwise the list of
   * clips of the segments that yield one.
   */
  function GeneratedList(raws: seq<RawSegment>, synth: Synthesizer): (r: Result<seq<ClipEntry>, GenerateError>)
    ensures r.Err? <==> exists i :: 0 <= i < |raws| && !Readable(raws[i])
    ensures r.Err? ==> r.error.index == |ReadUpTo(raws)| < |raws|
    ensures r.Ok? ==> ReadUpTo(raws) == seq(|raws|, i requires 0 <= i < |raws| => Read(raws[i]))
    ensures r.Ok? ==> r.value == DubEntries(ReadUpTo(raws), synth)
  {
    match FirstIndex(raws, IsUnreadable)
    case Some(i) => Err(UnreadableSegment(i))
    case None => Ok(DubEntries(ReadUpTo(raws), synth))
  }

  /**
   * `generate_dub_segments(tts_model, segments, voice_sample_path)`: an
   * unreadable segment raises out of the call, leaving the clips written so
   * far on disk; blank segments are skipped, a synthesis that raises drops
   * that segment only, and every clip written is listed with its segment's
   * start and end.
   */
  method GenerateDubSegments(raws: seq<RawSegment>, synth: Synthesizer, disk: map<string, Samples>)
    returns (r: Result<seq<ClipEntry>, GenerateError>, written: map<string, Samples>)
    ensures r == GeneratedList(raws, synth)
    ensures written == DubFiles(disk, ReadUpTo(raws), synth)
  {
    ghost var segments := ReadUpTo(raws);
    var generated := [];
    written := disk;
    for i := 0 to |raws|
      invariant i <= |segments|
      invariant generated == Entries(segments, Kept(i, YieldsAt(segments, synth)))
      invariant written == WrittenUpTo(disk, segments, synth, i)
    {
      var segment := raws[i];
      if segment.text.None? || segment.start.None? || segment.end.None? {
        UnreadableSegmentAborts(raws, synth, i);
        return Err(UnreadableSegment(i)), written;
      }
      var text, startTime, endTime := segment.text.value, segment.start.value, segment.end.value;
      GenerateStep(segments, synth, i);
      if IsBlank(text) {
        continue;
      }
      var clipPath := ClipPath(i);
      match synth(i, text)
      case None =>
      case Some(audio) =>
        written := written[clipPath := audio];
        generated := generated + [ClipEntry(clipPath, startTime, endTime)];
    }
    return Ok(generated), written;
  }

  /** The first unreadable segment is where reading stops, and the call fails naming it. */
  lemma UnreadableSegmentAborts(raws: seq<RawSegment>, synth: Synthesizer, i: nat)
    requires i < |raws| && !Readable(raws[i])
    requires forall j :: 0 <= j < i ==> Readable(raws[j])
    ensures |ReadUpTo(raws)| == i
    ensures GeneratedList(raws, synth) == Err(UnreadableSegment(i))
  {
    FirstIndexIsEarliest(raws, IsUnreadable, i);
  }

  /** One iteration of the generation loop lists segment `i` exactly when it yields a clip. */
  lemma GenerateStep(segments: seq<Segment>, synth: Synthesizer, i: nat)
    requires i < |segments|
    ensures Entries(segments, Kept(i + 1, YieldsAt(segments, synth)))
         == Entries(segments, Kept(i, YieldsAt(segments, synth)))
            + (if Yields(segments, synth, i) then [EntryFor(segments, i)] else [])
  {
    var keep := YieldsAt(segments, synth);
    assert keep(i) == Yields(segments, synth, i);
    var before := Kept(i, keep);
    if Yields(segments, synth, i) {
      assert Entries(segments, before + [i]) == Entries(segments, before) + [EntryFor(segments, i)];
    }
  }

  /** The listed clip paths are pairwise distinct. */
  lemma DubPathsDistinct(segments: seq<Segment>, synth: Synthesizer)
    ensures var r := DubEntries(segments, synth);
      forall k1, k2 :: 0 <= k1 < k2 < |r| ==> r[k1].path != r[k2].path
  {
    var r := DubEntries(segments, synth);
    var idx := DubIndices(segments, synth);
    forall k1, k2 | 0 <= k1 < k2 < |r|
      ensures r[k1].path != r[k2].path
    {
      ClipPathsDiffer(idx[k1], idx[k2]);
    }
  }

  lemma ClipPathsDiffer(i: nat, j: nat)
    requires i != j
    ensures ClipPath(i) != ClipPath(j)
  {
    if ClipPath(i) == ClipPath(j) {
      SegmentFileInjective(TempDir, i + 1, j + 1, ".wav");
    }
  }

  /** Segment `i`'s clip is listed exactly when its text is not blank and its synthesis succeeded. */
  lemma DubListsExactlyTheYieldingSegments(segments: seq<Segment>, synth: Synthesizer, i: nat)
    requires i < |segments|
    ensures var r := DubEntries(segments, synth);
      (exists k :: 0 <= k < |r| && r[k].path == ClipPath(i))
        <==> !IsBlank(segments[i].text) && synth(i, segments[i].text).Some?
  {
    var r := DubEntries(segments, synth);
    var idx := DubIndices(segments, synth);
    if Yields(segments, synth, i) {
      var k :| 0 <= k < |idx| && idx[k] == i;
      assert r[k].path == ClipPath(i);
    } else {
      forall k | 0 <= k < |r|
        ensures r[k].path != ClipPath(i)
      {
        if r[k].path == ClipPath(i) {
          SegmentFileInjective(TempDir, idx[k] + 1, i + 1, ".wav");
        }
      }
    }
  }

  lemma {:induction false} WrittenHolds(disk: map<string, Samples>, segments: seq<Segment>, synth: Synthesizer,
                                        n: nat, i: nat)
    requires i < n <= |segments| && Yields(segments, synth, i)
    ensures ClipPath(i) in WrittenUpTo(disk, segments, synth, n)
    ensures WrittenUpTo(disk, segments, synth, n)[ClipPath(i)] == synth(i, segments[i].text).value
  {
    if i < n - 1 {
      WrittenHolds(disk, segments, synth, n - 1, i);
      if ClipPath(i) == ClipPath(n - 1) {
        SegmentFileInjective(TempDir, i + 1, n, ".wav");
      }
    }
  }

  /** Every listed clip is on disk afterwards, holding the audio synthesised for its segment. */
  lemma DubFilesHoldEveryEntry(disk: map<string, Samples>, segments: seq<Segment>, synth: Synthesizer)
    ensures var r, idx, files := DubEntries(segments, synth), DubIndices(segments, synth), DubFiles(disk, segments, synth);
      forall k :: 0 <= k < |r| ==>
        r[k].path in files && files[r[k].path] == synth(idx[k], segments[idx[k]].text).value
  {
    var r, idx := DubEntries(segments, synth), DubIndices(segments, synth);
    forall k | 0 <= k < |r|
      ensures r[k].path in DubFiles(disk, segments, synth)
      ensures DubFiles(disk, segments, synth)[r[k].path] == synth(idx[k], segments[idx[k]].text).value
    {
      WrittenHolds(disk, segments, synth, |segments|, idx[k]);
    }
  }

  // ---------------------------------------------------------------------
  // align_and_merge_audio
  // ---------------------------------------------------------------------

  /** `original_duration_ms / target_duration_ms`. */
  function SpeedRatio(nativeMs: nat, targetMs: nat): real
    requires targetMs > 0
  {
    nativeMs as real / targetMs as real
  }

  lemma SpeedRatioComparesDurations(nativeMs: nat, targetMs: nat)
    requires targetMs > 0
    ensures SpeedRatio(nativeMs, targetMs) == 1.0 <==> nativeMs == targetMs
    ensures SpeedRatio(nativeMs, targetMs) > 1.0 <==> nativeMs > targetMs
  {
    var q, n, t := SpeedRatio(nativeMs, targetMs), nativeMs as real, targetMs as real;
    assert q * t == n;
    assert (q - 1.0) * t == n - t;
    ProductSign(q - 1.0, t);
  }

  /** The sign of a product with a positive factor is the sign of the other factor. */
  lemma ProductSign(a: real, t: real)
    requires t > 0.0
    ensures a > 0.0 ==> a * t > 0.0
    ensures a == 0.0 ==> a * t == 0.0
    ensures a < 0.0 ==> a * t < 0.0
  {
  }

  lemma ScaledIndexBound(j: nat, n: nat, t: nat)
    requires j < t && n > 0
    ensures j * n / t < n
  {
    assert j * n < t * n by {
      assert (t - j) * n > 0;
    }
  }

  /**
   * The speed change: the clip's frames replayed at `ratio` times the frame
   * rate and resampled back, i.e. the clip stretched or squeezed onto
   * `targetMs` (nearest-sample resampling). An empty clip stays empty.
   */
  function Retime(audio: Samples, targetMs: nat): (r: Samples)
    requires targetMs > 0
    ensures |r| == if audio == [] then 0 else targetMs
    ensures forall j :: 0 <= j < |r| ==> r[j] in audio
  {
    if audio == [] then []
    else seq(targetMs, j requires 0 <= j < targetMs => audio[SourceIndex(j, |audio|, targetMs)])
  }

  /** The sample of an `n`-sample clip heard at instant `j` of its `t`-sample re-timed version. */
  function SourceIndex(j: nat, n: nat, t: nat): (i: nat)
    requires j < t && n > 0
    ensures i < n
  {
    ScaledIndexBound(j, n, t);
    j * n / t
  }

  /** One clip as `align_and_merge_audio` prepares it: re-timed unless its speed ratio is exactly 1.0. */
  function AlignClip(audio: Samples, targetMs: nat): Samples
    requires targetMs > 0
  {
    if SpeedRatio(|audio|, targetMs) != 1.0 then Retime(audio, targetMs) else audio
  }

  /**
   * Whatever the ratio, above or below 1 and with no cap, a non-empty clip
   * comes out exactly as long as its slot; at ratio 1.0 it is untouched.
   */
  lemma AlignClipFitsSlot(audio: Samples, targetMs: nat)
    requires targetMs > 0
    ensures audio != [] ==> |AlignClip(audio, targetMs)| == targetMs
    ensures audio == [] ==> AlignClip(audio, targetMs) == []
    ensures SpeedRatio(|audio|, targetMs) == 1.0 ==> AlignClip(audio, targetMs) == audio
    ensures SpeedRatio(|audio|, targetMs) != 1.0 ==> AlignClip(audio, targetMs) == Retime(audio, targetMs)
  {
    SpeedRatioComparesDurations(|audio|, targetMs);
  }

  /** `AudioSegment.from_wav` on a path that is not on disk raises; nothing catches it. */
  datatype AssemblyError = MissingClip(path: string)

  /** `(end_time - start_time) * 1000`. */
  function TargetMs(c: ClipEntry): int {
    c.endMs - c.startMs
  }

  /** What one loop iteration places: nothing for a non-positive slot, else the aligned clip at its start. */
  function PlacementFor(c: ClipEntry, disk: map<string, Samples>): Result<Option<Placement>, AssemblyError> {
    if TargetMs(c) <= 0 then Ok(None)
    else if c.path !in disk then Err(MissingClip(c.path))
    else Ok(Some(Placement(AlignClip(disk[c.path], TargetMs(c)), c.startMs)))
  }

  /** The placements of the clips in list order, or the first clip that fails to load. */
  function Placements(clips: seq<ClipEntry>, disk: map<string, Samples>): Result<seq<Placement>, AssemblyError> {
    if clips == [] then Ok([])
    else
      match Placements(clips[..|clips| - 1], disk)
      case Err(e) => Err(e)
      case Ok(ps) =>
        match PlacementFor(clips[|clips| - 1], disk)
        case Err(e) => Err(e)
        case Ok(None) => Ok(ps)
        case Ok(Some(p)) => Ok(ps + [p])
  }

  /** The track `align_and_merge_audio` returns: the placements mixed onto `total_duration_ms` of silence. */
  function AlignedTrack(clips: seq<ClipEntry>, disk: map<string, Samples>, totalMs: nat)
    : (r: Result<Samples, AssemblyError>)
    ensures r.Ok? ==> |r.value| == totalMs
  {
    match Placements(clips, disk)
    case Err(e) => Err(e)
    case Ok(ps) => Ok(Mix(Silence(totalMs), ps))
  }

  lemma {:induction false} PlacementsErrPersists(clips: seq<ClipEntry>, disk: map<string, Samples>, n: nat)
    requires n <= |clips| && Placements(clips[..n], disk).Err?
    ensures Placements(clips, disk) == Placements(clips[..n], disk)
    decreases |clips| - n
  {
    if n < |clips| {
      assert clips[..n + 1][..n] == clips[..n];
      PlacementsErrPersists(clips, disk, n + 1);
    } else {
      assert clips[..n] == clips;
    }
  }

  /**
   * `align_and_merge_audio(clips, total_duration_ms)`: start from silence,
   * skip clips whose slot is not positive, re-time each other clip to its
   * slot and overlay it at its own start, in list order.
   */
  method AlignAndMergeAudio(clips: seq<ClipEntry>, disk: map<string, Samples>, totalMs: nat)
    returns (r: Result<Samples, AssemblyError>)
    ensures r == AlignedTrack(clips, disk, totalMs)
  {
    var finalTrack := Silence(totalMs);
    ghost var placed: seq<Placement> := [];
    for i := 0 to |clips|
      invariant Placements(clips[..i], disk) == Ok(placed)
      invariant finalTrack == Mix(Silence(totalMs), placed)
    {
      var c := clips[i];
      assert clips[..i + 1][..i] == clips[..i];
      var targetMs := c.endMs - c.startMs;
      if targetMs <= 0 {
        continue;
      }
      if c.path !in disk {
        PlacementsErrPersists(clips, disk, i + 1);
        return Err(MissingClip(c.path));
      }
      var segmentAudio := disk[c.path];
      var speedRatio := SpeedRatio(|segmentAudio|, targetMs);
      var alignedAudio;
      if speedRatio != 1.0 {
        alignedAudio := Retime(segmentAudio, targetMs);
      } else {
        alignedAudio := segmentAudio;
      }
      finalTrack := Overlay(finalTrack, alignedAudio, c.startMs);
      placed := placed + [Placement(alignedAudio, c.startMs)];
    }
    assert clips[..|clips|] == clips;
    return Ok(finalTrack);
  }

  /** A clip with a non-positive slot leaves the track as it was. */
  lemma AlignSkipsEmptySlot(clips: seq<ClipEntry>, c: ClipEntry, disk: map<string, Samples>, totalMs: nat)
    requires TargetMs(c) <= 0
    ensures AlignedTrack(clips + [c], disk, totalMs) == AlignedTrack(clips, disk, totalMs)
  {
    assert (clips + [c])[..|clips|] == clips;
  }

  /**
   * A clip with a positive slot is overlaid onto the track built so far at
   * its own start, whatever earlier clips did, re-timed to its slot.
   */
  lemma AlignPlacesClipAtItsStart(clips: seq<ClipEntry>, c: ClipEntry, disk: map<string, Samples>,
                                  totalMs: nat, track: Samples)
    requires AlignedTrack(clips, disk, totalMs) == Ok(track)
    requires TargetMs(c) > 0 && c.path in disk
    ensures AlignedTrack(clips + [c], disk, totalMs)
         == Ok(Overlay(track, AlignClip(disk[c.path], TargetMs(c)), c.startMs))
  {
    assert (clips + [c])[..|clips|] == clips;
  }

  predicate Unloadable(c: ClipEntry, disk: map<string, Samples>) {
    TargetMs(c) > 0 && c.path !in disk
  }

  /** Assembly fails exactly when a clip with a positive slot is missing, and then names the first one. */
  lemma {:induction false} AlignFailsOnlyOnMissingClip(clips: seq<ClipEntry>, disk: map<string, Samples>, totalMs: nat)
    ensures AlignedTrack(clips, disk, totalMs).Err?
        <==> exists k :: 0 <= k < |clips| && Unloadable(clips[k], disk)
    ensures AlignedTrack(clips, disk, totalMs).Err? ==>
      exists k :: 0 <= k < |clips| && Unloadable(clips[k], disk)
        && AlignedTrack(clips, disk, totalMs) == Err(MissingClip(clips[k].path))
        && forall j :: 0 <= j < k ==> !Unloadable(clips[j], disk)
  {
    if clips != [] {
      var init := clips[..|clips| - 1];
      AlignFailsOnlyOnMissingClip(init, disk, totalMs);
      assert forall k :: 0 <= k < |init| ==> init[k] == clips[k];
    }
  }

  /** What all clips of the list put at instant `j`: each aligned clip's sample there, at its own start. */
  function AlignedClipsAt(clips: seq<ClipEntry>, disk: map<string, Samples>, j: int): int {
    if clips == [] then 0
    else
      var c := clips[|clips| - 1];
      AlignedClipsAt(clips[..|clips| - 1], disk, j)
        + (if TargetMs(c) > 0 && c.path in disk then SampleAt(AlignClip(disk[c.path], TargetMs(c)), c.startMs, j) else 0)
  }

  lemma {:induction false} PlacementsContribute(clips: seq<ClipEntry>, disk: map<string, Samples>, ps: seq<Placement>, j: int)
    requires Placements(clips, disk) == Ok(ps)
    ensures Contribution(ps, j) == AlignedClipsAt(clips, disk, j)
  {
    if clips != [] {
      var init, c := clips[..|clips| - 1], clips[|clips| - 1];
      var qs := Placements(init, disk).value;
      PlacementsContribute(init, disk, qs, j);
      match PlacementFor(c, disk)
      case Ok(None) =>
        assert ps == qs;
      case Ok(Some(p)) =>
        assert ps == qs + [p];
        ContributionAppend(qs, p, j);
    }
  }

  /**
   * Every sample of the assembled track is the sum of what each loadable
   * clip with a positive slot puts there from its own start: placement does
   * not depend on where earlier clips ended.
   */
  lemma AlignedTrackIsSumOfClips(clips: seq<ClipEntry>, disk: map<string, Samples>, totalMs: nat, track: Samples)
    requires AlignedTrack(clips, disk, totalMs) == Ok(track)
    ensures |track| == totalMs
    ensures forall j :: 0 <= j < totalMs ==> track[j] == AlignedClipsAt(clips, disk, j)
  {
    var ps := Placements(clips, disk).value;
    MixIsPointwiseSum(Silence(totalMs), ps);
    forall j | 0 <= j < totalMs
      ensures track[j] == AlignedClipsAt(clips, disk, j)
    {
      PlacementsContribute(clips, disk, ps, j);
    }
  }

  /** Assembling what `generate_dub_segments` wrote never meets a missing clip. */
  lemma DubbedClipsAllLoad(segments: seq<Segment>, synth: Synthesizer, disk: map<string, Samples>, totalMs: nat)
    ensures AlignedTrack(DubEntries(segments, synth), DubFiles(disk, segments, synth), totalMs).Ok?
  {
    var r := DubEntries(segments, synth);
    var files := DubFiles(disk, segments, synth);
    DubFilesHoldEveryEntry(disk, segments, synth);
    AlignFailsOnlyOnMissingClip(r, files, totalMs);
  }
}
