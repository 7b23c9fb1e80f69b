/** The SRT file the editor writes when the changes are applied to the
    timeline: the subtitle clips in start order, numbered from 1, timed from
    the start of the timeline, with the blank lines of each text dropped. */
module SrtExport {
  import opened Strings
  import opened Numbers
  import opened Clips
  import opened Order
  import Srt
  import Timecode

  // ---------------------------------------------------------------------------
  // The clips written

  /** The subtitle clips of the list, in list order. */
  function Subtitles(cs: seq<Clip>): (r: seq<Clip>)
    ensures forall i :: 0 <= i < |r| ==> r[i].kind == Subtitle
    decreases |cs|
  {
    if cs == [] then []
    else if cs[0].kind == Subtitle then [cs[0]] + Subtitles(cs[1..]) else Subtitles(cs[1..])
  }

  /** Every subtitle clip is kept as often as the list holds it, and no
      other clip. */
  lemma {:induction false} SubtitlesCount(cs: seq<Clip>)
    ensures forall c :: multiset(Subtitles(cs))[c] == if c.kind == Subtitle then multiset(cs)[c] else 0
    decreases |cs|
  {
    if cs != [] {
      SubtitlesCount(cs[1..]);
      assert cs == [cs[0]] + cs[1..];
    }
  }

  /** The subtitle clips keep their list order: the filter keeps one clip
      exactly when it is a subtitle, and distributes over concatenation. */
  lemma {:induction false} SubtitlesConcat(a: seq<Clip>, b: seq<Clip>)
    ensures Subtitles(a + b) == Subtitles(a) + Subtitles(b)
    ensures |a| == 1 ==> Subtitles(a) == if a[0].kind == Subtitle then a else []
    decreases |a|
  {
    if a == [] {
      assert a + b == b;
    } else {
      var ab := a + b;
      assert ab[0] == a[0] && ab[1..] == a[1..] + b;
      SubtitlesConcat(a[1..], b);
      if |a| == 1 {
        assert a[1..] == [];
      }
    }
  }

  /** The clips of the file, in the order they are written. */
  function Written(clips: seq<Clip>): seq<Clip> {
    SortByStart(Subtitles(clips))
  }

  /** The file holds every subtitle clip as often as the list does and no
      other clip, ordered by start frame; clips that start on the same frame
      keep their list order. */
  lemma WrittenClips(clips: seq<Clip>)
    ensures forall c :: multiset(Written(clips))[c] == if c.kind == Subtitle then multiset(clips)[c] else 0
    ensures SortedByStart(Written(clips))
    ensures forall k :: StartingAt(Written(clips), k) == StartingAt(Subtitles(clips), k)
  {
    SubtitlesCount(clips);
    SortByStartSpec(Subtitles(clips));
  }

  /** frame - timeline start, never below 0. */
  function RelativeFrame(frame: int, timelineStart: int): nat {
    if frame - timelineStart > 0 then frame - timelineStart else 0
  }

  // ---------------------------------------------------------------------------
  // The text of a block

  /** The lines that are not blank after stripping, in order. */
  function NonBlank(ls: seq<string>): (r: seq<string>)
    ensures |r| <= |ls|
    ensures forall i :: 0 <= i < |r| ==> Strip(r[i]) != [] && r[i] in ls
    decreases |ls|
  {
    if ls == [] then []
    else if Strip(ls[0]) != [] then [ls[0]] + NonBlank(ls[1..])
    else NonBlank(ls[1..])
  }

  /** The kept lines stay in order, each as often as the text holds it: one
      line is kept exactly when it is not blank, and the filter distributes
      over concatenation. */
  lemma {:induction false} NonBlankConcat(a: seq<string>, b: seq<string>)
    ensures NonBlank(a + b) == NonBlank(a) + NonBlank(b)
    ensures |a| == 1 ==> NonBlank(a) == if Strip(a[0]) != [] then a else []
    decreases |a|
  {
    if a == [] {
      assert a + b == b;
    } else {
      var ab := a + b;
      assert ab[0] == a[0] && ab[1..] == a[1..] + b;
      NonBlankConcat(a[1..], b);
      if |a| == 1 {
        assert a[1..] == [];
      }
    }
  }

  /** The text written for a clip: line and paragraph separators become
      newlines, the text is split into lines, the blank lines are dropped and
      the others joined by newlines. */
  function BlockText(raw: string): string {
    Join(NonBlank(Pieces(MapChar(MapChar(raw, '\U{2028}', '\n'), '\U{2029}', '\n'))), "\n")
  }

  /** Turning one line-break character into a newline does not move any line
      boundary. */
  lemma {:induction false} PiecesMapBreak(s: string, c: char)
    requires IsLineBreak(c)
    ensures Pieces(MapChar(s, c, '\n')) == Pieces(s)
    decreases |s|
  {
    if s != [] {
      var m := MapChar(s, c, '\n');
      assert m[1..] == MapChar(s[1..], c, '\n');
      PiecesMapBreak(s[1..], c);
    }
  }

  /** Text without a break in front of s joins the first line of s. */
  lemma {:induction false} PiecesPrefix(a: string, s: string)
    requires forall k :: 0 <= k < |a| ==> !IsLineBreak(a[k])
    ensures Pieces(a + s) == [a + Pieces(s)[0]] + Pieces(s)[1..]
    decreases |a|
  {
    if a != [] {
      var p := Pieces(s);
      PiecesPrefix(a[1..], s);
      assert (a + s)[1..] == a[1..] + s;
      var rest := Pieces(a[1..] + s);
      assert rest[0] == a[1..] + p[0] && rest[1..] == p[1..];
      assert (a + s)[0] == a[0] && !IsLineBreak(a[0]);
      assert Pieces(a + s) == [[a[0]] + rest[0]] + rest[1..];
      assert [a[0]] + (a[1..] + p[0]) == a + p[0];
    } else {
      var p := Pieces(s);
      assert a + s == s && a + p[0] == p[0];
      assert p == [p[0]] + p[1..];
    }
  }

  /** Lines without breaks, joined by newlines, split back into the same
      lines. */
  lemma {:induction false} PiecesOfJoin(ls: seq<string>)
    requires |ls| >= 1
    requires forall i :: 0 <= i < |ls| ==> forall k :: 0 <= k < |ls[i]| ==> !IsLineBreak(ls[i][k])
    ensures Pieces(Join(ls, "\n")) == ls
    decreases |ls|
  {
    if |ls| == 1 {
      PiecesWithoutBreaks(ls[0]);
    } else {
      var rest := Join(ls[1..], "\n");
      PiecesOfJoin(ls[1..]);
      assert ls[0] + "\n" + rest == ls[0] + ("\n" + rest);
      assert ("\n" + rest)[1..] == rest;
      assert Pieces("\n" + rest) == [[]] + ls[1..];
      PiecesPrefix(ls[0], "\n" + rest);
      assert ls[0] + [] == ls[0];
      assert ls == [ls[0]] + ls[1..];
    }
  }

  lemma {:induction false} NonBlankKeeps(ls: seq<string>)
    requires forall i :: 0 <= i < |ls| ==> Strip(ls[i]) != []
    ensures NonBlank(ls) == ls
    decreases |ls|
  {
    if ls != [] {
      NonBlankKeeps(ls[1..]);
      assert ls == [ls[0]] + ls[1..];
    }
  }

  /** The separator replacement changes nothing: the block text is the
      non-blank lines of the raw text joined by newlines. */
  lemma BlockTextPlain(raw: string)
    ensures BlockText(raw) == Join(NonBlank(Pieces(raw)), "\n")
  {
    var m1 := MapChar(raw, '\U{2028}', '\n');
    PiecesMapBreak(raw, '\U{2028}');
    PiecesMapBreak(m1, '\U{2029}');
  }

  /** Split at line breaks, the block text gives back the non-blank lines of
      the clip's text, in order; so no line of the block is blank. With no
      such line the text is empty. */
  lemma BlockTextLines(raw: string)
    ensures NonBlank(Pieces(raw)) == [] ==> BlockText(raw) == []
    ensures NonBlank(Pieces(raw)) != [] ==> Pieces(BlockText(raw)) == NonBlank(Pieces(raw))
  {
    BlockTextPlain(raw);
    var ls := NonBlank(Pieces(raw));
    if ls != [] {
      forall i | 0 <= i < |ls| ensures forall k :: 0 <= k < |ls[i]| ==> !IsLineBreak(ls[i][k]) {
        assert ls[i] in Pieces(raw);
      }
      PiecesOfJoin(ls);
    }
  }

  /** Cleaning a block text again changes nothing. */
  lemma BlockTextIdempotent(raw: string)
    ensures BlockText(BlockText(raw)) == BlockText(raw)
  {
    var t := BlockText(raw);
    var ls := NonBlank(Pieces(raw));
    BlockTextLines(raw);
    BlockTextPlain(t);
    if ls == [] {
      assert t == [];
      assert Pieces(t) == [[]];
      assert Strip([]) == [];
      assert NonBlank(Pieces(t)) == [];
    } else {
      assert Pieces(t) == ls;
      NonBlankKeeps(ls);
      assert NonBlank(Pieces(t)) == ls;
      assert Join(ls, "\n") == t by { BlockTextPlain(raw); }
    }
  }

  // ---------------------------------------------------------------------------
  // Blocks and the file

  /** The timestamp a block writes for a frame: frames_to_srt_timecode as
      the code has it, or, with carry set, the corrected one that carries a
      rounded-up millisecond into the seconds. */
  function Stamp(carry: bool, frames: int, framerate: real, timelineFps: real): string {
    if carry then Srt.SrtTimestamp(frames, framerate, timelineFps)
    else Srt.SrtTimecode(frames, framerate, timelineFps)
  }

  /** Block n: its number, the two timestamps relative to the timeline start
      (at the clip's rate, or the timeline's when the clip has none), the
      text and a blank line. */
  function Block(carry: bool, n: int, c: Clip, timelineStart: int, timelineFps: real): string {
    IntStr(n) + "\n"
    + Stamp(carry, RelativeFrame(c.startFrame, timelineStart), c.framerate, timelineFps) + " --> "
    + Stamp(carry, RelativeFrame(c.endFrame, timelineStart), c.framerate, timelineFps) + "\n"
    + BlockText(EffectiveText(c)) + "\n\n"
  }

  /** The blocks of cs, numbered from n. */
  function Blocks(carry: bool, cs: seq<Clip>, n: int, timelineStart: int, timelineFps: real): seq<string> {
    seq(|cs|, i requires 0 <= i < |cs| => Block(carry, n + i, cs[i], timelineStart, timelineFps))
  }

  function Concat(ss: seq<string>): string
    decreases |ss|
  {
    if ss == [] then [] else ss[0] + Concat(ss[1..])
  }

  /** The file for a timeline starting at frame timelineStart; the code
      writes it with carry unset. */
  function SrtFile(carry: bool, clips: seq<Clip>, timelineStart: int, timelineFps: real): string {
    Concat(Blocks(carry, Written(clips), 1, timelineStart, timelineFps))
  }

  /** The file is the concatenation of one block per subtitle clip; the i-th
      is numbered i + 1 and holds the i-th clip in start order. */
  lemma SrtFileBlocks(carry: bool, clips: seq<Clip>, timelineStart: int, timelineFps: real)
    ensures |Blocks(carry, Written(clips), 1, timelineStart, timelineFps)| == |Subtitles(clips)|
    ensures forall i :: 0 <= i < |Written(clips)| ==>
              Blocks(carry, Written(clips), 1, timelineStart, timelineFps)[i]
              == Block(carry, i + 1, Written(clips)[i], timelineStart, timelineFps)
  {
    var ws := Written(clips);
    assert |ws| == |Subtitles(clips)|;
    forall i | 0 <= i < |ws|
      ensures Blocks(carry, ws, 1, timelineStart, timelineFps)[i] == Block(carry, i + 1, ws[i], timelineStart, timelineFps)
    {
      BlockAt(carry, ws, 1, i, timelineStart, timelineFps);
    }
  }

  lemma BlockAt(carry: bool, cs: seq<Clip>, n: int, i: nat, timelineStart: int, timelineFps: real)
    requires i < |cs|
    ensures Blocks(carry, cs, n, timelineStart, timelineFps)[i] == Block(carry, i + n, cs[i], timelineStart, timelineFps)
  {
  }

  /** A list without subtitle clips writes an empty file. */
  lemma NoSubtitlesEmptyFile(carry: bool, clips: seq<Clip>, timelineStart: int, timelineFps: real)
    requires forall i :: 0 <= i < |clips| ==> clips[i].kind != Subtitle
    ensures SrtFile(carry, clips, timelineStart, timelineFps) == []
  {
    SubtitlesCount(clips);
    assert multiset(Subtitles(clips)) == multiset{};
    SortByStartSpec(Subtitles(clips));
  }

  /** The timestamp text of a millisecond count. */
  function MillisText(total: int): string {
    Srt.SrtText(total / 3600000, (total / 60000) % 60, (total / 1000) % 60, total % 1000)
  }

  /** Milliseconds written for a frame count grow with the frame count. */
  lemma TotalMillisMono(a: nat, b: nat, rate: real)
    requires rate > 0.0 && a <= b
    ensures Srt.TotalMillis(a, rate) <= Srt.TotalMillis(b, rate)
  {
    var x, y := a as real / rate * 1000.0, b as real / rate * 1000.0;
    assert a as real / rate <= b as real / rate by { RealMulMono(1.0 / rate, a as real, b as real); }
    assert x <= y;
  }

  /** The code's millisecond field for a frame stays below 1000. */
  predicate MillisFit(frames: nat, framerate: real, timelineFps: real)
    requires EffectiveRate(framerate, timelineFps) > 0.0
  {
    Srt.SrtFields(frames as real / EffectiveRate(framerate, timelineFps)).3 < 1000
  }

  /** In every block with a positive rate the corrected timestamps are the
      relative times rounded to whole milliseconds, and so are the written
      ones wherever the code's millisecond field stays below 1000; a clip
      that does not end before it starts gets an end time no earlier than
      its start time. */
  lemma BlockTimes(c: Clip, timelineStart: int, timelineFps: real)
    requires EffectiveRate(c.framerate, timelineFps) > 0.0
    ensures var rate := EffectiveRate(c.framerate, timelineFps);
            var s, e := RelativeFrame(c.startFrame, timelineStart), RelativeFrame(c.endFrame, timelineStart);
            && Stamp(true, s, c.framerate, timelineFps) == MillisText(Srt.TotalMillis(s, rate))
            && Stamp(true, e, c.framerate, timelineFps) == MillisText(Srt.TotalMillis(e, rate))
            && (MillisFit(s, c.framerate, timelineFps) ==>
                  Stamp(false, s, c.framerate, timelineFps) == MillisText(Srt.TotalMillis(s, rate)))
            && (MillisFit(e, c.framerate, timelineFps) ==>
                  Stamp(false, e, c.framerate, timelineFps) == MillisText(Srt.TotalMillis(e, rate)))
            && (c.startFrame <= c.endFrame ==> Srt.TotalMillis(s, rate) <= Srt.TotalMillis(e, rate))
  {
    var rate := EffectiveRate(c.framerate, timelineFps);
    var s, e := RelativeFrame(c.startFrame, timelineStart), RelativeFrame(c.endFrame, timelineStart);
    Srt.SrtTimestampSound(s, c.framerate, timelineFps);
    Srt.SrtTimestampSound(e, c.framerate, timelineFps);
    if MillisFit(s, c.framerate, timelineFps) {
      Srt.SrtTimestampAgrees(s, c.framerate, timelineFps);
    }
    if MillisFit(e, c.framerate, timelineFps) {
      Srt.SrtTimestampAgrees(e, c.framerate, timelineFps);
    }
    if c.startFrame <= c.endFrame {
      TotalMillisMono(s, e, rate);
    }
  }

  /** A clip whose block the code writes correctly: no rate (both stamps are
      zero), or both millisecond fields below 1000. */
  predicate StampsFit(c: Clip, timelineStart: int, timelineFps: real) {
    EffectiveRate(c.framerate, timelineFps) > 0.0 ==>
      && MillisFit(RelativeFrame(c.startFrame, timelineStart), c.framerate, timelineFps)
      && MillisFit(RelativeFrame(c.endFrame, timelineStart), c.framerate, timelineFps)
  }

  /** Such a clip's written block is its corrected block. */
  lemma BlockAgrees(n: int, c: Clip, timelineStart: int, timelineFps: real)
    requires EffectiveRate(c.framerate, timelineFps) >= 0.0
    requires StampsFit(c, timelineStart, timelineFps)
    ensures Block(false, n, c, timelineStart, timelineFps) == Block(true, n, c, timelineStart, timelineFps)
  {
    if EffectiveRate(c.framerate, timelineFps) > 0.0 {
      Srt.SrtTimestampAgrees(RelativeFrame(c.startFrame, timelineStart), c.framerate, timelineFps);
      Srt.SrtTimestampAgrees(RelativeFrame(c.endFrame, timelineStart), c.framerate, timelineFps);
    }
  }

  predicate AllStampsFit(cs: seq<Clip>, timelineStart: int, timelineFps: real) {
    forall i :: 0 <= i < |cs| ==>
      EffectiveRate(cs[i].framerate, timelineFps) >= 0.0 && StampsFit(cs[i], timelineStart, timelineFps)
  }

  /** Blocks whose stamps all fit are written as their corrected blocks. */
  lemma BlocksAgree(cs: seq<Clip>, n: int, timelineStart: int, timelineFps: real)
    requires AllStampsFit(cs, timelineStart, timelineFps)
    ensures Blocks(false, cs, n, timelineStart, timelineFps) == Blocks(true, cs, n, timelineStart, timelineFps)
  {
    forall i | 0 <= i < |cs|
      ensures Blocks(false, cs, n, timelineStart, timelineFps)[i] == Blocks(true, cs, n, timelineStart, timelineFps)[i]
    {
      BlockAgrees(n + i, cs[i], timelineStart, timelineFps);
    }
  }

  /** When every subtitle's stamps fit, the file the code writes is the
      corrected file; only a millisecond rounded up to 1000 tells them
      apart. */
  lemma FileAgrees(clips: seq<Clip>, timelineStart: int, timelineFps: real)
    requires AllStampsFit(Written(clips), timelineStart, timelineFps)
    ensures SrtFile(false, clips, timelineStart, timelineFps) == SrtFile(true, clips, timelineStart, timelineFps)
  {
    BlocksAgree(Written(clips), 1, timelineStart, timelineFps);
  }

  // ---------------------------------------------------------------------------
  // Applying the changes

  datatype ApplyError = NothingToApply | BadStartTimecode(error: Timecode.TcError)

  /** on_apply_changes up to the written file: an empty clip list is refused;
      the timeline's start timecode (00:00:00:00 when it has none) is read at
      the timeline rate without drop frame, and an error there stops the
      operation. */
  function ApplyFile(clips: seq<Clip>, tl: Timeline): (r: Result<string, ApplyError>) {
    if clips == [] then Err(NothingToApply)
    else
      var tc := if tl.startTimecode == [] then "00:00:00:00" else tl.startTimecode;
      match Timecode.FramesOf(tc, tl.fps, false)
      case Err(e) => Err(BadStartTimecode(e))
      case Ok(start) => Ok(SrtFile(false, clips, start, tl.fps))
  }

  /** The file is written exactly when there are clips and the start
      timecode reads, and it is timed from the frame that timecode names. */
  lemma ApplyFileOutcome(clips: seq<Clip>, tl: Timeline)
    ensures clips == [] ==> ApplyFile(clips, tl) == Err(NothingToApply)
    ensures var tc := if tl.startTimecode == [] then "00:00:00:00" else tl.startTimecode;
            && (ApplyFile(clips, tl).Ok? <==> clips != [] && Timecode.FramesOf(tc, tl.fps, false).Ok?)
            && (ApplyFile(clips, tl).Ok? ==>
                  ApplyFile(clips, tl).value == SrtFile(false, clips, Timecode.FramesOf(tc, tl.fps, false).value, tl.fps))
  {
  }
}
