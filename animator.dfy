/** The `useAnimatedTranscript` hook: its two pieces of state and the effect
    that runs each time the transcript changes, written as a method that
    returns the strings it hands to the display setter, in order. */
module AnimatedTranscript {
  import opened Strings
  import opened TranscriptFrames

  /** The length of the longest common prefix of the last segment and the
      part of the display that belongs to it, found by walking both strings
      from the start. */
  method MatchedPrefix(lastSegment: string, prevAnimated: string) returns (i: nat)
    ensures i == CommonPrefixLen(lastSegment, prevAnimated)
  {
    i := 0;
    while i < |lastSegment| && i < |prevAnimated| && lastSegment[i] == prevAnimated[i]
      invariant i <= |lastSegment| && i <= |prevAnimated|
      invariant lastSegment[..i] == prevAnimated[..i]
    {
      i := i + 1;
    }
    CommonPrefixLenUnique(lastSegment, prevAnimated, i);
  }

  class TranscriptAnimator {
    /** The displayed string. */
    var animated: string
    /** Index of the last segment whose animation ran to the end; -1 for none. */
    var lastAnimatedIndex: int
    /** The transcript of the most recent effect run. */
    ghost var current: seq<string>

    /** The display never shows anything that is not in the transcript:
        it is always a prefix of the joined segments. */
    ghost predicate Valid()
      reads this
    {
      lastAnimatedIndex >= -1 && IsPrefix(animated, Join(current))
    }

    /** The hook's initial state: nothing displayed, nothing animated. */
    constructor ()
      ensures Valid()
      ensures animated == "" && lastAnimatedIndex == -1 && current == []
    {
      animated := "";
      lastAnimatedIndex := -1;
      current := [];
    }

    /** One run of the effect for `transcript`, with `timers` saying how far
        its timer chain gets before the next run's cleanup clears it. Returns
        every string set on the display, in order; the display ends on the
        last of them, and the index of the last fully animated segment moves
        only on a reset or when a new-segment animation reaches its end. */
    method Update(transcript: seq<string>, timers: Timers) returns (frames: seq<string>)
      requires Valid()
      modifies this
      ensures Valid() && current == transcript
      ensures frames == Delivered(PlannedFrames(transcript, old(animated), old(lastAnimatedIndex)), timers)
      ensures |frames| > 0 && animated == frames[|frames| - 1]
      ensures |transcript| == 0 ==> frames == [""] && animated == ""
      ensures forall k :: 0 <= k < |frames| ==> IsPrefix(frames[k], Join(transcript))
      ensures timers == RunToCompletion ==> animated == Join(transcript)
      ensures lastAnimatedIndex ==
        if |transcript| == 0 then -1
        else if IsNewSegment(transcript, old(lastAnimatedIndex)) && |frames| == |LastSegment(transcript)| + 1
        then |transcript| - 1
        else old(lastAnimatedIndex)
    {
      current := transcript;
      if |transcript| == 0 {
        animated := "";
        frames := [""];
        lastAnimatedIndex := -1;
        return;
      }
      ghost var planned := PlannedFrames(transcript, animated, lastAnimatedIndex);
      PlannedFramesShape(transcript, animated, lastAnimatedIndex);
      DeliveredIsPrefix(planned, timers);
      if |transcript| - 1 > lastAnimatedIndex {
        frames := AnimateNewSegment(transcript, timers);
      } else {
        frames := AnimateExtension(transcript, timers);
      }
      assert forall k :: 0 <= k < |frames| ==> frames[k] == planned[k];
    }

    /** The new-segment branch: show the earlier segments and the last one
        growing from empty, one character per frame; when the last frame is
        reached, record the last segment as fully animated. Only `Update`
        calls it, after setting `current`; the display it leaves is a prefix
        of the joined transcript, which restores `Valid`. */
    method AnimateNewSegment(transcript: seq<string>, timers: Timers) returns (frames: seq<string>)
      requires |transcript| > 0
      modifies this`animated, this`lastAnimatedIndex
      ensures frames == Delivered(NewSegmentFrames(transcript), timers)
      ensures |frames| > 0 && animated == frames[|frames| - 1]
      ensures IsPrefix(animated, Join(transcript))
      ensures lastAnimatedIndex ==
        if |frames| == |LastSegment(transcript)| + 1 then |transcript| - 1 else old(lastAnimatedIndex)
    {
      var n := |transcript|;
      var segment := transcript[n - 1];
      var settled := Join(transcript[..n - 1]) + Separator(n);
      ghost var planned := NewSegmentFrames(transcript);
      var count := DeliveredCount(|segment| + 1, timers);
      var i := 0;
      var running := true;
      frames := [];
      while running
        invariant 0 <= i <= |segment| + 1 && |frames| == i
        invariant frames == planned[..i]
        invariant running ==> i < count
        invariant !running ==> i == count
        invariant i > 0 ==> animated == frames[i - 1]
        invariant lastAnimatedIndex == if i == |segment| + 1 then n - 1 else old(lastAnimatedIndex)
        decreases |segment| + 1 - i
      {
        var frame := settled + segment[..i];
        animated := frame;
        frames := frames + [frame];
        i := i + 1;
        if i <= |segment| {
          running := TimerFires(timers, i);
        } else {
          lastAnimatedIndex := n - 1;
          running := false;
        }
      }
      FramesFromShape(transcript, 0);
    }

    /** The extension branch: find how much of the last segment the display
        already shows, then reveal the rest one character per frame, or set
        the whole join once when nothing is left to reveal. Only `Update`
        calls it; like the new-segment branch, it leaves a display that is
        a prefix of the joined transcript. */
    method AnimateExtension(transcript: seq<string>, timers: Timers) returns (frames: seq<string>)
      requires |transcript| > 0
      modifies this`animated
      ensures frames == Delivered(ExtensionFrames(transcript, old(animated)), timers)
      ensures |frames| > 0 && animated == frames[|frames| - 1]
      ensures IsPrefix(animated, Join(transcript))
    {
      var n := |transcript|;
      var lastSegment := transcript[n - 1];
      var prevSegments := Join(transcript[..n - 1]);
      var offset := |prevSegments| + |Separator(n)|;
      var prevAnimated := if offset <= |animated| then animated[offset..] else "";
      var i := MatchedPrefix(lastSegment, prevAnimated);
      if i < |lastSegment| {
        assert FramesFrom(transcript, i + 1) == ExtensionFrames(transcript, animated);
        frames := AnimateFrom(transcript, i + 1, timers);
      } else {
        animated := Join(transcript);
        frames := [Join(transcript)];
        assert Join(transcript)[..|Join(transcript)|] == Join(transcript);
      }
    }

    /** The extension branch's timer chain `animate(j)`: set the frame
        showing `j` characters of the last segment and, while the segment
        has more, schedule the next one. Only `AnimateExtension` calls it. */
    method AnimateFrom(transcript: seq<string>, lo: nat, timers: Timers) returns (frames: seq<string>)
      requires |transcript| > 0 && lo <= |LastSegment(transcript)|
      modifies this`animated
      ensures frames == Delivered(FramesFrom(transcript, lo), timers)
      ensures |frames| > 0 && animated == frames[|frames| - 1]
      ensures IsPrefix(animated, Join(transcript))
    {
      var n := |transcript|;
      var lastSegment := transcript[n - 1];
      var settled := Join(transcript[..n - 1]) + Separator(n);
      ghost var planned := FramesFrom(transcript, lo);
      var count := DeliveredCount(|planned|, timers);
      var j := lo;
      var running := true;
      frames := [];
      while running
        invariant lo <= j <= |lastSegment| + 1 && |frames| == j - lo
        invariant |frames| <= count <= |planned|
        invariant frames == planned[..|frames|]
        invariant running ==> |frames| < count
        invariant !running ==> |frames| == count
        invariant |frames| > 0 ==> animated == frames[|frames| - 1]
        decreases |lastSegment| + 1 - j
      {
        var frame := settled + lastSegment[..j];
        assert settled == Settled(transcript);
        FramesFromAt(transcript, lo, |frames|);
        assert planned[..|frames| + 1] == frames + [frame];
        animated := frame;
        frames := frames + [frame];
        j := j + 1;
        if j <= |lastSegment| {
          running := TimerFires(timers, |frames|);
        } else {
          running := false;
        }
      }
      FramesFromShape(transcript, lo);
    }
  }
}

/** A client of the hook's contract, following one session: a segment
    arrives and is animated, it grows by one character, a second segment
    arrives and its animation is cut short, and the transcript is cleared. */
module AnimatedTranscriptClient {
  import opened Strings
  import opened TranscriptFrames
  import opened AnimatedTranscript

  /** A segment arrives and is animated letter by letter. */
  method NewSegmentSession() returns (a: TranscriptAnimator)
    ensures fresh(a) && a.Valid() && a.animated == "Hi" && a.lastAnimatedIndex == 0
  {
    a := new TranscriptAnimator();
    NewSegmentBranch(["Hi"], "", -1);
    assert Settled(["Hi"]) == "" && LastSegment(["Hi"]) == "Hi";
    assert "Hi"[..0] == "" && "Hi"[..1] == "H" && "Hi"[..2] == "Hi";
    var frames := a.Update(["Hi"], RunToCompletion);
    assert frames == ["", "H", "Hi"] && a.lastAnimatedIndex == 0;
  }

  /** The fully shown segment then grows by one character, which alone is
      animated. */
  method ExtendedSegmentSession(a: TranscriptAnimator)
    requires a.Valid() && a.animated == "Hi" && a.lastAnimatedIndex == 0
    modifies a
    ensures a.Valid() && a.animated == "Hi!" && a.lastAnimatedIndex == 0
  {
    assert PlannedFrames(["Hi!"], "Hi", 0) == ["Hi!"] by {
      assert "Hi" + "!" == "Hi!";
      assert Join(["Hi"]) == "Hi" && ["Hi"][..0] + ["Hi" + "!"] == ["Hi!"];
      ExtensionAnimatesOnlyAppendedText(["Hi"], "!", 0);
      FramesFromShape(["Hi!"], 3);
    }
    var frames := a.Update(["Hi!"], RunToCompletion);
    assert frames == ["Hi!"] && a.lastAnimatedIndex == 0;
  }

  /** A second segment arrives and its animation is cut short after one
      timer callback: the index of the last fully animated segment stays
      where it was. Clearing the transcript then resets both. */
  method InterruptedSegment(a: TranscriptAnimator)
    requires a.Valid() && a.animated == "Hi!" && a.lastAnimatedIndex == 0
    modifies a
  {
    NewSegmentBranch(["Hi!", "Yo"], "Hi!", 0);
    assert Settled(["Hi!", "Yo"]) == "Hi!\n" && LastSegment(["Hi!", "Yo"]) == "Yo";
    assert "Yo"[..0] == "" && "Yo"[..1] == "Y";
    ghost var planned := PlannedFrames(["Hi!", "Yo"], "Hi!", 0);
    assert planned[0] == "Hi!\n" + "" == "Hi!\n" && planned[1] == "Hi!\n" + "Y" == "Hi!\nY";
    assert Delivered(planned, CancelledAfter(1)) == [planned[0], planned[1]];
    var frames := a.Update(["Hi!", "Yo"], CancelledAfter(1));
    assert frames == ["Hi!\n", "Hi!\nY"] && a.lastAnimatedIndex == 0;

    frames := a.Update([], RunToCompletion);
    assert frames == [""] && a.animated == "" && a.lastAnimatedIndex == -1;
  }

  /** The whole session, one step after the other. */
  method Session()
  {
    var a := NewSegmentSession();
    ExtendedSegmentSession(a);
    InterruptedSegment(a);
  }
}
