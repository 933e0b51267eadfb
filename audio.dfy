/**
 * The part of pydub's `AudioSegment` the two assembly loops use, at a
 * resolution of one sample per millisecond: a silent track of a given
 * length, and `overlay`, which mixes a clip into a track at a position
 * without changing the track's length (the part of the clip that would run
 * past the end of the track is dropped).
 */
module Audio {

  /** Audio as one sample per millisecond; its length is its duration in ms. */
  type Samples = seq<int>

  /** `AudioSegment.silent(duration=ms)`. */
  function Silence(ms: nat): (r: Samples)
    ensures |r| == ms
    ensures forall j :: 0 <= j < ms ==> r[j] == 0
  {
    seq(ms, _ => 0)
  }

  /** The sample a clip placed at `pos` contributes at instant `j` (0 outside the clip). */
  function SampleAt(clip: Samples, pos: int, j: int): int {
    if pos <= j < pos + |clip| then clip[j - pos] else 0
  }

  /** `base.overlay(clip, position=pos)`: mix, never extend. */
  function Overlay(base: Samples, clip: Samples, pos: int): (r: Samples)
    ensures |r| == |base|
    ensures forall j :: 0 <= j < |base| && pos <= j < pos + |clip| ==> r[j] == base[j] + clip[j - pos]
    ensures forall j :: 0 <= j < |base| && !(pos <= j < pos + |clip|) ==> r[j] == base[j]
  {
    seq(|base|, j requires 0 <= j < |base| => base[j] + SampleAt(clip, pos, j))
  }

  /**
   * Overlaying two clips gives the same track in either order. This holds
   * for the unsaturated sum only: with 16-bit clipping the order can matter.
   */
  lemma OverlayCommutes(base: Samples, c1: Samples, p1: int, c2: Samples, p2: int)
    ensures Overlay(Overlay(base, c1, p1), c2, p2) == Overlay(Overlay(base, c2, p2), c1, p1)
  {
    var a := Overlay(Overlay(base, c1, p1), c2, p2);
    var b := Overlay(Overlay(base, c2, p2), c1, p1);
    forall j | 0 <= j < |base|
      ensures a[j] == b[j]
    {
      assert a[j] == base[j] + SampleAt(c1, p1, j) + SampleAt(c2, p2, j);
      assert b[j] == base[j] + SampleAt(c2, p2, j) + SampleAt(c1, p1, j);
    }
  }

  /** A clip placed at `pos` with `pos` in the track. */
  datatype Placement = Placement(clip: Samples, pos: int)

  /** The track after overlaying every placement, in list order. */
  function Mix(base: Samples, ps: seq<Placement>): (r: Samples)
    ensures |r| == |base|
  {
    if ps == [] then base
    else
      var last := ps[|ps| - 1];
      Overlay(Mix(base, ps[..|ps| - 1]), last.clip, last.pos)
  }

  /** What all placements together add at instant `j`: the sum of each one's own sample there. */
  function Contribution(ps: seq<Placement>, j: int): int {
    if ps == [] then 0
    else Contribution(ps[..|ps| - 1], j) + SampleAt(ps[|ps| - 1].clip, ps[|ps| - 1].pos, j)
  }

  /**
   * Overlaying one clip after another is the pointwise sum: every sample of
   * the mixed track is the base sample plus what each placement puts there,
   * so where a clip lands depends on its own position only.
   */
  lemma {:induction false} MixIsPointwiseSum(base: Samples, ps: seq<Placement>)
    ensures forall j :: 0 <= j < |base| ==> Mix(base, ps)[j] == base[j] + Contribution(ps, j)
  {
    if ps != [] {
      MixIsPointwiseSum(base, ps[..|ps| - 1]);
    }
  }

  lemma ContributionAppend(ps: seq<Placement>, p: Placement, j: int)
    ensures Contribution(ps + [p], j) == Contribution(ps, j) + SampleAt(p.clip, p.pos, j)
  {
    assert (ps + [p])[..|ps|] == ps;
  }
}
