/** The frames one run of the transcript-animation effect hands to the
    display setter, as pure functions of the transcript and of the state the
    effect finds, and the properties those frames have. */
module TranscriptFrames {
  import opened Strings

  /** The segment being animated: the last one. */
  function LastSegment(t: seq<string>): string
    requires |t| > 0
  {
    t[|t| - 1]
  }

  /** The line break between the earlier segments and the last one; there
      is none when the last segment is the only one. */
  function Separator(count: nat): string
  {
    if count > 1 then "\n" else ""
  }

  /** What every frame shows before the animated segment: the earlier
      segments joined, then the separator. */
  function Settled(t: seq<string>): string
    requires |t| > 0
  {
    Join(t[..|t| - 1]) + Separator(|t|)
  }

  /** The frame that shows the first `k` characters of the last segment:
      a prefix of the joined transcript, `k` characters longer than the
      settled part. */
  function Frame(t: seq<string>, k: nat): string
    requires |t| > 0 && k <= |LastSegment(t)|
  {
    Settled(t) + LastSegment(t)[..k]
  }

  /** The frames of an animation chain started at `lo`: one frame per
      length from `lo` up to the whole last segment. */
  function FramesFrom(t: seq<string>, lo: nat): seq<string>
    requires |t| > 0 && lo <= |LastSegment(t)|
  {
    seq(|LastSegment(t)| + 1 - lo, k requires 0 <= k < |LastSegment(t)| + 1 - lo => Frame(t, lo + k))
  }

  /** The part of the displayed string that belongs to the last segment:
      what follows the settled prefix, or nothing when the display is
      shorter than that prefix (a string slice past its end is empty). */
  function ShownTail(t: seq<string>, animated: string): string
    requires |t| > 0
  {
    var offset := |Join(t[..|t| - 1])| + |Separator(|t|)|;
    if offset <= |animated| then animated[offset..] else ""
  }

  /** The test that selects the new-segment branch: the transcript's last
      index is past the last fully animated one. */
  predicate IsNewSegment(t: seq<string>, lastAnimatedIndex: int)
  {
    |t| - 1 > lastAnimatedIndex
  }

  /** Frames of the new-segment branch: the last segment from empty to full. */
  function NewSegmentFrames(t: seq<string>): seq<string>
    requires |t| > 0
  {
    FramesFrom(t, 0)
  }

  /** Frames of the extension branch: after the longest prefix that the
      display already shows of the last segment, one more character per
      frame; or the whole join at once when the segment is already shown. */
  function ExtensionFrames(t: seq<string>, animated: string): seq<string>
    requires |t| > 0
  {
    var i := CommonPrefixLen(LastSegment(t), ShownTail(t, animated));
    if i < |LastSegment(t)| then FramesFrom(t, i + 1) else [Join(t)]
  }

  /** Every frame one run of the effect sets, when its timer chain runs to
      the end: the reset for an empty transcript, otherwise the branch the
      index selects. */
  function PlannedFrames(t: seq<string>, animated: string, lastAnimatedIndex: int): (frames: seq<string>)
    ensures |frames| > 0
    ensures |t| == 0 ==> frames == [""]
  {
    if |t| == 0 then [""]
    else if IsNewSegment(t, lastAnimatedIndex) then NewSegmentFrames(t)
    else ExtensionFrames(t, animated)
  }

  /** How far an effect's timer chain gets: to the end, or until the
      cleanup of the next run clears the pending timeout after `fired`
      callbacks have run. */
  datatype Timers = RunToCompletion | CancelledAfter(fired: nat)

  /** Whether the timeout scheduled after the `emitted`-th frame runs. */
  predicate TimerFires(timers: Timers, emitted: nat)
  {
    match timers
    case RunToCompletion => true
    case CancelledAfter(fired) => emitted <= fired
  }

  /** The number of planned frames actually set: the first frame is set
      synchronously, each further one by a timer callback. */
  function DeliveredCount(total: nat, timers: Timers): nat
  {
    match timers
    case RunToCompletion => total
    case CancelledAfter(fired) => if fired + 1 < total then fired + 1 else total
  }

  /** The frames actually set. */
  function Delivered(planned: seq<string>, timers: Timers): seq<string>
  {
    planned[..DeliveredCount(|planned|, timers)]
  }

  /** A run of frames that only ever grows towards the joined transcript:
      every frame is a prefix of the join, each one character longer than
      the one before, and the last is the join itself. */
  predicate GrowsToJoin(frames: seq<string>, t: seq<string>)
  {
    && |frames| > 0
    && (forall k :: 0 <= k < |frames| ==> IsPrefix(frames[k], Join(t)))
    && (forall k :: 0 <= k < |frames| ==> |frames[k]| == |frames[0]| + k)
    && frames[|frames| - 1] == Join(t)
  }

  // ---------------------------------------------------------------------
  // Properties

  /** The `k`-th frame of a chain started at `lo` shows `lo + k` characters
      of the last segment after the settled part. */
  lemma FramesFromAt(t: seq<string>, lo: nat, k: nat)
    requires |t| > 0 && lo + k <= |LastSegment(t)|
    ensures |FramesFrom(t, lo)| == |LastSegment(t)| + 1 - lo
    ensures FramesFrom(t, lo)[k] == Settled(t) + LastSegment(t)[..lo + k]
  {
    assert FramesFrom(t, lo)[k] == Frame(t, lo + k);
  }

  /** The settled part followed by the last segment is the whole joined
      transcript. */
  lemma SettledThenLast(t: seq<string>)
    requires |t| > 0
    ensures Settled(t) + LastSegment(t) == Join(t)
  {
    JoinSplitLast(t);
  }

  /** Reading the shown tail back from a frame gives exactly the part of
      the last segment that frame showed. */
  lemma ShownTailOfFrame(t: seq<string>, k: nat)
    requires |t| > 0 && k <= |LastSegment(t)|
    ensures ShownTail(t, Frame(t, k)) == LastSegment(t)[..k]
  {
    assert Frame(t, k)[|Settled(t)|..] == LastSegment(t)[..k];
  }

  /** When the index already covers the last segment, so that the
      extension branch runs, a display cut short on the frame showing `k`
      characters resumes at `k + 1` characters: nothing already shown is
      animated again. (A cut new-segment chain never records the index, so
      the next run takes the new-segment branch and restarts from the
      settled text alone, as `NewSegmentBranch` states.) */
  lemma InterruptedChainResumes(t: seq<string>, k: nat, lastAnimatedIndex: int)
    requires |t| > 0 && !IsNewSegment(t, lastAnimatedIndex) && k < |LastSegment(t)|
    ensures PlannedFrames(t, Frame(t, k), lastAnimatedIndex) == FramesFrom(t, k + 1)
  {
    ShownTailOfFrame(t, k);
    CommonPrefixLenUnique(LastSegment(t), LastSegment(t)[..k], k);
    ExtensionPlan(t, Frame(t, k), lastAnimatedIndex, k);
  }

  /** Taking the first `m` characters past a prefix `a` of `a + b`. */
  lemma PrefixOfConcat(a: string, b: string, m: nat)
    requires m <= |b|
    ensures (a + b)[..|a| + m] == a + b[..m]
  {
  }

  /** Two prefixes of one string: the shorter is a prefix of the longer. */
  lemma PrefixesOfOneString(p: string, q: string, s: string)
    requires IsPrefix(p, s) && IsPrefix(q, s) && |p| <= |q|
    ensures IsPrefix(p, q)
  {
    assert q[..|p|] == s[..|q|][..|p|] == s[..|p|];
  }

  /** The frame showing the whole last segment is the whole joined
      transcript. */
  lemma FrameCompletesJoin(t: seq<string>)
    requires |t| > 0
    ensures Frame(t, |LastSegment(t)|) == Join(t)
  {
    SettledThenLast(t);
    assert LastSegment(t)[..|LastSegment(t)|] == LastSegment(t);
  }

  /** Each frame is a prefix of the joined transcript, `k` characters
      longer than the settled part. */
  lemma FrameIsPrefixOfJoin(t: seq<string>, k: nat)
    requires |t| > 0 && k <= |LastSegment(t)|
    ensures |Frame(t, k)| == |Settled(t)| + k
    ensures IsPrefix(Frame(t, k), Join(t))
  {
    SettledThenLast(t);
    PrefixOfConcat(Settled(t), LastSegment(t), k);
  }

  /** A chain of frames starting at `lo`: its `k`-th frame shows `lo + k`
      characters of the last segment after the settled part, and the chain
      grows one character at a time up to the whole join. */
  lemma FramesFromShape(t: seq<string>, lo: nat)
    requires |t| > 0 && lo <= |LastSegment(t)|
    ensures |FramesFrom(t, lo)| == |LastSegment(t)| + 1 - lo
    ensures forall k :: 0 <= k < |FramesFrom(t, lo)| ==> FramesFrom(t, lo)[k] == Settled(t) + LastSegment(t)[..lo + k]
    ensures GrowsToJoin(FramesFrom(t, lo), t)
  {
    var fs := FramesFrom(t, lo);
    forall k | 0 <= k < |fs|
      ensures fs[k] == Settled(t) + LastSegment(t)[..lo + k]
      ensures |fs[k]| == |Settled(t)| + lo + k && IsPrefix(fs[k], Join(t))
    {
      FramesFromAt(t, lo, k);
      FrameIsPrefixOfJoin(t, lo + k);
    }
    FrameCompletesJoin(t);
  }

  /** Each frame of a chain extends every earlier one: the display only
      ever grows while a chain runs. */
  lemma FramesFromGrow(t: seq<string>, lo: nat)
    requires |t| > 0 && lo <= |LastSegment(t)|
    ensures forall j, k :: 0 <= j <= k < |FramesFrom(t, lo)| ==> IsPrefix(FramesFrom(t, lo)[j], FramesFrom(t, lo)[k])
  {
    var fs := FramesFrom(t, lo);
    forall j, k | 0 <= j <= k < |fs|
      ensures IsPrefix(fs[j], fs[k])
    {
      FramesFromAt(t, lo, j);
      FramesFromAt(t, lo, k);
      FrameIsPrefixOfJoin(t, lo + j);
      FrameIsPrefixOfJoin(t, lo + k);
      PrefixesOfOneString(fs[j], fs[k], Join(t));
    }
  }

  /** Shape of everything one effect run plans to show for a non-empty
      transcript: at least one frame, every frame a prefix of the joined
      transcript, frames growing one character at a time, and the last
      frame the whole join. */
  lemma PlannedFramesShape(t: seq<string>, animated: string, lastAnimatedIndex: int)
    requires |t| > 0
    ensures GrowsToJoin(PlannedFrames(t, animated, lastAnimatedIndex), t)
  {
    if IsNewSegment(t, lastAnimatedIndex) {
      FramesFromShape(t, 0);
    } else {
      var i := CommonPrefixLen(LastSegment(t), ShownTail(t, animated));
      if i < |LastSegment(t)| {
        FramesFromShape(t, i + 1);
      }
    }
  }

  /** New-segment branch: one frame per prefix length of the last segment,
      from the settled part alone up to the whole join. */
  lemma NewSegmentBranch(t: seq<string>, animated: string, lastAnimatedIndex: int)
    requires |t| > 0 && IsNewSegment(t, lastAnimatedIndex)
    ensures |PlannedFrames(t, animated, lastAnimatedIndex)| == |LastSegment(t)| + 1
    ensures forall k :: 0 <= k <= |LastSegment(t)| ==>
      PlannedFrames(t, animated, lastAnimatedIndex)[k] == Settled(t) + LastSegment(t)[..k]
    ensures PlannedFrames(t, animated, lastAnimatedIndex)[0] == Settled(t)
    ensures PlannedFrames(t, animated, lastAnimatedIndex)[|LastSegment(t)|] == Join(t)
  {
    assert LastSegment(t)[..0] == "";
    FrameCompletesJoin(t);
  }

  /** Extension branch: when the display already shows the first `i`
      characters of the last segment and the segment is longer, the frames
      reveal characters `i + 1` onwards. Each is a prefix of the join, one
      character longer than the one before, and the last is the whole join.
      Otherwise a single frame shows the whole join. */
  lemma ExtensionBranch(t: seq<string>, animated: string, lastAnimatedIndex: int, i: nat)
    requires |t| > 0 && !IsNewSegment(t, lastAnimatedIndex)
    requires i == CommonPrefixLen(LastSegment(t), ShownTail(t, animated))
    ensures i < |LastSegment(t)| ==> |PlannedFrames(t, animated, lastAnimatedIndex)| == |LastSegment(t)| - i
    ensures i < |LastSegment(t)| ==> forall k :: 0 <= k < |LastSegment(t)| - i ==>
      PlannedFrames(t, animated, lastAnimatedIndex)[k] == Settled(t) + LastSegment(t)[..i + 1 + k]
    ensures i < |LastSegment(t)| ==> GrowsToJoin(PlannedFrames(t, animated, lastAnimatedIndex), t)
    ensures i == |LastSegment(t)| ==> PlannedFrames(t, animated, lastAnimatedIndex) == [Join(t)]
  {
    ExtensionPlan(t, animated, lastAnimatedIndex, i);
    if i < |LastSegment(t)| {
      FramesFromShape(t, i + 1);
    }
  }

  /** Which frames the extension branch plans, given the common prefix `i`. */
  lemma ExtensionPlan(t: seq<string>, animated: string, lastAnimatedIndex: int, i: nat)
    requires |t| > 0 && !IsNewSegment(t, lastAnimatedIndex)
    requires i == CommonPrefixLen(LastSegment(t), ShownTail(t, animated))
    ensures i < |LastSegment(t)| ==> PlannedFrames(t, animated, lastAnimatedIndex) == FramesFrom(t, i + 1)
    ensures i >= |LastSegment(t)| ==> PlannedFrames(t, animated, lastAnimatedIndex) == [Join(t)]
  {
    assert PlannedFrames(t, animated, lastAnimatedIndex) == ExtensionFrames(t, animated);
  }

  /** Running the effect again on an unchanged transcript whose display is
      complete sets a single frame, the same string again. */
  lemma RepeatIsSingleFrame(t: seq<string>, lastAnimatedIndex: int)
    requires |t| > 0 && !IsNewSegment(t, lastAnimatedIndex)
    ensures PlannedFrames(t, Join(t), lastAnimatedIndex) == [Join(t)]
  {
    FrameCompletesJoin(t);
    assert ShownTail(t, Join(t)) == LastSegment(t);
    CommonPrefixLenUnique(LastSegment(t), LastSegment(t), |LastSegment(t)|);
  }

  /** When the last segment grows by `ext` and the display shows the old
      transcript in full, only the appended characters are animated: one
      frame per new character, starting one past the old segment. */
  lemma ExtensionAnimatesOnlyAppendedText(t: seq<string>, ext: string, lastAnimatedIndex: int)
    requires |t| > 0 && !IsNewSegment(t, lastAnimatedIndex) && |ext| > 0
    ensures var t' := t[..|t| - 1] + [LastSegment(t) + ext];
      PlannedFrames(t', Join(t), lastAnimatedIndex) == FramesFrom(t', |LastSegment(t)| + 1) &&
      |PlannedFrames(t', Join(t), lastAnimatedIndex)| == |ext|
  {
    var t' := t[..|t| - 1] + [LastSegment(t) + ext];
    assert t'[..|t'| - 1] == t[..|t| - 1];
    FrameCompletesJoin(t);
    assert ShownTail(t', Join(t)) == LastSegment(t);
    CommonPrefixOfExtension(LastSegment(t), ext);
  }

  /** The delivered frames are a non-empty prefix of the planned ones; all
      of them when the chain runs to completion, at most `fired + 1` when it
      is cancelled. */
  lemma DeliveredIsPrefix(planned: seq<string>, timers: Timers)
    requires |planned| > 0
    ensures 0 < |Delivered(planned, timers)| <= |planned|
    ensures Delivered(planned, timers) == planned[..|Delivered(planned, timers)|]
    ensures timers == RunToCompletion ==> Delivered(planned, timers) == planned
    ensures timers.CancelledAfter? ==> |Delivered(planned, timers)| <= timers.fired + 1
  {
  }
}
