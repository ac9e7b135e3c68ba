# Animated transcript

A Dafny model of the `useAnimatedTranscript` React hook of the voice RAG
front end. The hook takes the transcript as a list of text segments and
returns the string to display. Each time the transcript changes, its effect
does one of three things:

- it resets the display when the transcript is empty;
- it animates a newly appended segment letter by letter, behind the earlier
  segments joined with line breaks;
- it animates only the not-yet-shown part of a last segment that grew.

The hook keeps two pieces of state. `animated` is the displayed string.
`lastAnimatedIndex` is the index of the last segment whose animation ran to
its end, or -1.

The model has three modules:

- `Strings` (strings.dfy): `Join` (`Array.prototype.join` with `"\n"`),
  `IsPrefix`, and the longest common prefix `CommonPrefixLen`, with the
  lemmas that say what each computes.
- `TranscriptFrames` (frames.dfy): the frames one effect run sets, as pure
  functions of the transcript and of the state the run finds
  (`PlannedFrames`), plus how far a timer chain gets (`Timers`,
  `Delivered`). The lemmas about these frames live here.
- `AnimatedTranscript` (animator.dfy): the class `TranscriptAnimator` with the
  hook's two state variables. `Update` is one run of the effect. It returns
  every string handed to `setAnimatedTranscript`, in order, and writes
  `animated` on every frame as the source does. The common-prefix `while`
  loop is the method `MatchedPrefix`. Each `animate` closure with its
  `setTimeout` chain is a loop (`AnimateNewSegment`, `AnimateFrom`). A timer
  chain runs to its end (`RunToCompletion`) or stops when the next run's
  cleanup clears the pending timeout after `fired` callbacks
  (`CancelledAfter(fired)`). The first frame of a chain is always set,
  because it is set synchronously. A ghost field `current` holds the latest
  transcript. The class invariant `Valid` says the display is always a
  prefix of that transcript joined. The module `AnimatedTranscriptClient`
  follows one session through three steps (a segment arrives, it grows, a
  second segment is cut short and the transcript is cleared) and proves
  what each step displays, from the class's contract and the frame lemmas.

The reset branch calls `setAnimatedTranscript("")`. Because the frames model
the setter calls, an empty transcript produces the single frame `""` rather
than no frames.

## Model

| member | source | states |
|---|---|---|
| Strings.JoinSplitLast | rag-audio/app/frontend/src/hooks/useAnimatedTranscript.tsx:25 | A non-empty list joins to the join of all but its last segment, then a line break if there was more than one segment, then the last segment. This is the shape of every frame the new-segment chain builds. |
| Strings.CommonPrefixLenIsLongest | rag-audio/app/frontend/src/hooks/useAnimatedTranscript.tsx:39-42 | The common-prefix length is at most both lengths, and both strings agree up to it. It is maximal: it reaches the end of one string, or the characters at that position differ. |
| Strings.CommonPrefixLenUnique | rag-audio/app/frontend/src/hooks/useAnimatedTranscript.tsx:39-42 | Any length that is in bounds, agreeing and maximal is the common-prefix length, so the loop's stopping point is determined. |
| Strings.CommonPrefixOfExtension | rag-audio/app/frontend/src/hooks/useAnimatedTranscript.tsx:35-42 | A segment extended by more text shares its whole old text as common prefix with the old text. |
| AnimatedTranscript.MatchedPrefix | rag-audio/app/frontend/src/hooks/useAnimatedTranscript.tsx:39-42 | The `while` loop stops at exactly the longest common prefix of the last segment and the shown tail. |
| TranscriptFrames.SettledThenLast | rag-audio/app/frontend/src/hooks/useAnimatedTranscript.tsx:25 | The text before the animated segment (earlier segments joined, then a line break only when there are earlier segments), followed by the whole segment, is `transcript.join("\n")`. |
| TranscriptFrames.ShownTailOfFrame | rag-audio/app/frontend/src/hooks/useAnimatedTranscript.tsx:38 | Slicing the settled text's length off a frame gives back exactly the `k` characters of the last segment that the frame showed. |
| TranscriptFrames.InterruptedChainResumes | rag-audio/app/frontend/src/hooks/useAnimatedTranscript.tsx:36-50 | When the index already covers the last segment (`length - 1 <= lastAnimatedIndex`, so the extension branch runs) and the display was cut short on the frame showing `k` of the segment's characters, the next run on the same transcript resumes at `k + 1` characters: the chain from there to the join, with nothing shown twice. A cut new-segment chain never records the index (:30), so the next run restarts from the settled text alone (`NewSegmentBranch`). |
| TranscriptFrames.FrameIsPrefixOfJoin | rag-audio/app/frontend/src/hooks/useAnimatedTranscript.tsx:25 | The frame showing `k` characters of the segment is a prefix of the joined transcript, `k` characters longer than the settled text. |
| TranscriptFrames.FrameCompletesJoin | rag-audio/app/frontend/src/hooks/useAnimatedTranscript.tsx:25-30 | The frame that shows the whole last segment equals `transcript.join("\n")`. |
| TranscriptFrames.FramesFromShape | rag-audio/app/frontend/src/hooks/useAnimatedTranscript.tsx:24-32 | In a chain started at `lo`, frame `k` is the settled text plus `lo + k` characters of the segment. The chain has one frame per remaining length. Every frame is a prefix of the join, each is one character longer than the one before, and the last is the whole join. |
| TranscriptFrames.FramesFromGrow | rag-audio/app/frontend/src/hooks/useAnimatedTranscript.tsx:24-32 | Within a chain, every frame extends every earlier one: the display only grows while a chain runs. |
| TranscriptFrames.PlannedFrames | rag-audio/app/frontend/src/hooks/useAnimatedTranscript.tsx:13-54 | Every run sets at least one frame. An empty transcript sets exactly the empty string. |
| TranscriptFrames.PlannedFramesShape | rag-audio/app/frontend/src/hooks/useAnimatedTranscript.tsx:13-54 | For a non-empty transcript, whichever branch runs, the frames grow one character at a time, each a prefix of the join, and the last is the join. |
| TranscriptFrames.NewSegmentBranch | rag-audio/app/frontend/src/hooks/useAnimatedTranscript.tsx:21-33 | When `length - 1 > lastAnimatedIndex`, there are `seg.length + 1` frames. Frame `k` is the earlier segments, the separator, then `seg[..k]`. The first frame is the settled text alone and the last is the whole join. |
| TranscriptFrames.ExtensionBranch | rag-audio/app/frontend/src/hooks/useAnimatedTranscript.tsx:34-53 | Otherwise, with `i` the common prefix: if `i` is short of the segment, there are `length - i` frames, showing `i + 1` up to all characters of the segment. Each is a prefix of the join and one character longer than the one before, and the last is the join. If `i` is the whole segment, one frame equal to the join is set. |
| TranscriptFrames.RepeatIsSingleFrame | rag-audio/app/frontend/src/hooks/useAnimatedTranscript.tsx:49-53 | Re-running on an unchanged, fully shown transcript sets one frame, the same string. |
| TranscriptFrames.ExtensionAnimatesOnlyAppendedText | rag-audio/app/frontend/src/hooks/useAnimatedTranscript.tsx:35-50 | If the display shows the old transcript in full and the last segment grows by `ext`, only the appended characters are animated: `|ext|` frames, starting one character past the old segment. |
| TranscriptFrames.DeliveredIsPrefix | rag-audio/app/frontend/src/hooks/useAnimatedTranscript.tsx:27-29 | The frames actually set are a non-empty prefix of the planned ones. All of them are set when the chain runs to completion; at most `fired + 1` when it is cancelled. |
| AnimatedTranscript.TranscriptAnimator.constructor | rag-audio/app/frontend/src/hooks/useAnimatedTranscript.tsx:9-11 | The hook starts with an empty display and `lastAnimatedIndex == -1`. |
| AnimatedTranscript.TranscriptAnimator.Update | rag-audio/app/frontend/src/hooks/useAnimatedTranscript.tsx:13-60 | The frames set are the delivered part of the planned frames for the old state, and the display ends on the last one. An empty transcript sets `""` and resets the index to -1. Every frame is a prefix of the join, and a completed run shows the whole join. The index becomes `length - 1` only when a new-segment chain sets its last frame; otherwise it is unchanged. The display stays a prefix of the current transcript's join (`Valid`). |
| AnimatedTranscript.TranscriptAnimator.AnimateNewSegment | rag-audio/app/frontend/src/hooks/useAnimatedTranscript.tsx:21-33 | The new-segment `animate()` chain sets the delivered part of the new-segment frames and leaves a display that is a prefix of the join. It records the segment as animated exactly when the last frame is set. |
| AnimatedTranscript.TranscriptAnimator.AnimateExtension | rag-audio/app/frontend/src/hooks/useAnimatedTranscript.tsx:34-53 | The extension branch sets the delivered part of the extension frames for the display it found, and leaves a display that is a prefix of the join. It does not write `lastAnimatedIndex` (it may modify only `animated`). |
| AnimatedTranscript.TranscriptAnimator.AnimateFrom | rag-audio/app/frontend/src/hooks/useAnimatedTranscript.tsx:43-48 | The `animate(j)` chain, started at `lo`, sets the delivered part of the frames showing `lo` up to all characters of the last segment, and leaves a display that is a prefix of the join. |

## Left out

- The backend (`rag-audio/app/backend/app.py`) is not part of this model. It reads environment variables and `.env` files, chooses between Azure key and identity credentials, wires an aiohttp application, serves static files and starts the server. All of this is configuration I/O over foreign libraries. Its system prompt is constant data.
- The realtime relay (`RTMiddleTier`) and the RAG tools (`attach_rag_tools`) are not part of this model. Their source is not among the modelled files.
- React machinery is abstracted away: `useState`, `useRef`, the effect's dependency list, and re-render scheduling. Real time is not modelled, including the 18 ms `setTimeout` delay. The `clearTimeout` cleanup appears only as the `Timers` parameter, which says how many timer callbacks of a run fire before the next run starts.
- The transcript array is assumed to be replaced, never mutated in place, as React props are. The new-segment callback re-reads the captured array on every frame: `transcript.slice(0, -1).join("\n")` and `transcript.length` for the frame (:25), and `transcript.length - 1` for the index it records at the end (:30). The extension callback uses `prevSegments`, computed once (:37), and re-reads only `transcript.length` for the separator (:44). The model takes `transcript` as an immutable value and computes the settled text once per run. It does not capture a caller that mutates the array during a chain, which would change later frames and the recorded index without re-running the effect.
- The stale closure is not modelled. The effect reads `animatedTranscript` without listing it as a dependency. The model reads the current `animated` field instead.
- JavaScript strings are sequences of UTF-16 code units. The model uses Dafny `char`s and does not model surrogate pairs.
