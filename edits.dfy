/** Splitting one subtitle in two and merging several into one: what the
    new clips are, when the edit is refused, and list.remove on the clip
    list. */
module Edits {
  import opened Strings
  import opened Numbers
  import opened Clips
  import opened Order
  import opened Transforms

  // ---------------------------------------------------------------------------
  // list.remove

  /** The first position holding a clip equal to x. */
  function FirstIndex(xs: seq<Clip>, x: Clip): (i: nat)
    requires x in xs
    ensures i < |xs| && xs[i] == x && forall j :: 0 <= j < i ==> xs[j] != x
  {
    if xs[0] == x then 0 else 1 + FirstIndex(xs[1..], x)
  }

  /** list.remove(x): drops the first clip equal to x. */
  function RemoveFirst(xs: seq<Clip>, x: Clip): (r: seq<Clip>)
    requires x in xs
    ensures |r| == |xs| - 1
  {
    var i := FirstIndex(xs, x);
    xs[..i] + xs[i + 1..]
  }

  lemma RemoveFirstCount(xs: seq<Clip>, x: Clip)
    requires x in xs
    ensures multiset(RemoveFirst(xs, x)) == multiset(xs) - multiset{x}
  {
    var i := FirstIndex(xs, x);
    assert xs == xs[..i] + [x] + xs[i + 1..];
  }

  /** Removing each clip of rs in turn. */
  function RemoveEach(xs: seq<Clip>, rs: seq<Clip>): (r: seq<Clip>)
    requires multiset(rs) <= multiset(xs)
    decreases |rs|
  {
    if rs == [] then xs
    else
      assert rs[0] in multiset(xs);
      RemoveFirstCount(xs, rs[0]);
      assert rs == [rs[0]] + rs[1..];
      RemoveEach(RemoveFirst(xs, rs[0]), rs[1..])
  }

  /** Removing some of the clips of a list leaves the others. */
  lemma {:induction false} RemoveEachCount(xs: seq<Clip>, rs: seq<Clip>)
    requires multiset(rs) <= multiset(xs)
    ensures |RemoveEach(xs, rs)| == |xs| - |rs|
    ensures multiset(RemoveEach(xs, rs)) == multiset(xs) - multiset(rs)
    decreases |rs|
  {
    if rs != [] {
      assert rs[0] in multiset(rs);
      RemoveFirstCount(xs, rs[0]);
      assert rs == [rs[0]] + rs[1..];
      RemoveEachCount(RemoveFirst(xs, rs[0]), rs[1..]);
    }
  }

  // ---------------------------------------------------------------------------
  // Split

  const OnlySubtitlesSplit := "Only subtitles can be split"
  const EmptyText := "Empty subtitle text"
  const InvalidPosition := "Invalid split position"
  const EmptyPart := "Cannot split: one part is empty"

  /** The word index the stripped split position names among n words:
      "auto" (as str.lower() reads it) is the middle word, anything else
      must be int() of an index from 1 to n - 1. */
  function SplitIndex(ops: TextOps, splitPos: string, n: nat): (r: Result<int, string>)
    ensures r.Ok? ==> 0 <= r.value <= n
    ensures r.Ok? && ops.lower(Strip(splitPos)) != "auto" ==> 1 <= r.value < n
    ensures r.Err? ==> r.error == InvalidPosition
    ensures ops.lower(Strip(splitPos)) == "auto" ==> r == Ok(n / 2)
  {
    var sp := Strip(splitPos);
    if ops.lower(sp) == "auto" then Ok(n / 2)
    else
      match PyInt(sp)
      case None => Err(InvalidPosition)
      case Some(i) => if i < 1 || i >= n then Err(InvalidPosition) else Ok(i)
  }

  /** Any position other than "auto" is accepted exactly when int() reads
      it as a number from 1 to n - 1, and that number is the index. */
  lemma SplitIndexNumber(ops: TextOps, splitPos: string, n: nat)
    requires ops.lower(Strip(splitPos)) != "auto"
    ensures SplitIndex(ops, splitPos, n).Ok? <==> PyInt(Strip(splitPos)).Some? && 1 <= PyInt(Strip(splitPos)).value < n
    ensures SplitIndex(ops, splitPos, n).Ok? ==> SplitIndex(ops, splitPos, n).value == PyInt(Strip(splitPos)).value
  {
  }

  datatype Halves = Halves(first: Clip, second: Clip)

  /** The two copies of c with the texts t1 and t2, meeting at the middle
      frame. The middle frame floors: (end - start) / 2 is Euclidean, which
      for a divisor of 2 is Python's //, negative durations included. */
  function Halve(c: Clip, t1: string, t2: string): Halves {
    var mid := c.startFrame + (c.endFrame - c.startFrame) / 2;
    Halves(c.(text := t1, editedText := Some(t1), endFrame := mid),
           c.(text := t2, editedText := Some(t2), startFrame := mid))
  }

  /** Cutting the words at idx: a side without text is refused. */
  function SplitWith(c: Clip, words: seq<string>, idx: int): Result<Halves, string>
    requires 0 <= idx <= |words|
  {
    var t1 := Strip(Join(words[..idx], " "));
    var t2 := Strip(Join(words[idx..], " "));
    if t1 == [] || t2 == [] then Err(EmptyPart) else Ok(Halve(c, t1, t2))
  }

  /** split_subtitle after the dialog: the two halves, or the refusal. */
  function SplitClip(ops: TextOps, c: Clip, splitPos: string): Result<Halves, string> {
    if c.kind != Subtitle then Err(OnlySubtitlesSplit)
    else
      var words := Words(EffectiveText(c));
      if words == [] then Err(EmptyText)
      else
        match SplitIndex(ops, splitPos, |words|)
        case Err(e) => Err(e)
        case Ok(idx) => SplitWith(c, words, idx)
  }

  /** Words joined by single spaces have no whitespace at their ends and
      are empty only when there are no words. */
  lemma {:induction false} JoinedWords(ws: seq<string>)
    requires forall i :: 0 <= i < |ws| ==> IsWord(ws[i])
    ensures NoSpaceAtEnds(Join(ws, " "))
    ensures Join(ws, " ") == [] <==> ws == []
    decreases |ws|
  {
    if |ws| > 1 {
      JoinedWords(ws[1..]);
      var rest := Join(ws[1..], " ");
      var j := ws[0] + " " + rest;
      assert j[0] == ws[0][0];
      assert j[|j| - 1] == rest[|rest| - 1];
    }
  }

  lemma WordsSlice(words: seq<string>, i: int, j: int)
    requires forall k :: 0 <= k < |words| ==> IsWord(words[k])
    requires 0 <= i <= j <= |words|
    ensures forall k :: 0 <= k < j - i ==> IsWord(words[i..j][k])
  {
    forall k | 0 <= k < j - i ensures IsWord(words[i..j][k]) { assert words[i..j][k] == words[i + k]; }
  }

  /** Words joined by spaces: nothing to strip, and split back into the
      same words. */
  lemma SideWords(ws: seq<string>)
    requires forall k :: 0 <= k < |ws| ==> IsWord(ws[k])
    ensures Strip(Join(ws, " ")) == Join(ws, " ")
    ensures Join(ws, " ") == [] <==> ws == []
    ensures Words(Join(ws, " ")) == ws
  {
    JoinedWords(ws);
    WordsOfJoin(ws);
  }

  /** Cutting a list of words at an inner index: both sides join without
      outer whitespace, join back to the whole with one space, and split
      back into their words. */
  lemma SplitWords(words: seq<string>, idx: int)
    requires forall i :: 0 <= i < |words| ==> IsWord(words[i])
    requires 0 < idx < |words|
    ensures Strip(Join(words[..idx], " ")) == Join(words[..idx], " ") != []
    ensures Strip(Join(words[idx..], " ")) == Join(words[idx..], " ") != []
    ensures Join(words[..idx], " ") + " " + Join(words[idx..], " ") == Join(words, " ")
    ensures Words(Join(words[..idx], " ")) == words[..idx] && Words(Join(words[idx..], " ")) == words[idx..]
    ensures Words(Join(words[..idx], " ")) + Words(Join(words[idx..], " ")) == words
  {
    PrefixJoin(words, idx);
    SuffixJoin(words, idx);
    JoinSplitAt(words, idx, " ");
    CutJoin(words, idx);
  }

  lemma PrefixJoin(words: seq<string>, idx: int)
    requires forall i :: 0 <= i < |words| ==> IsWord(words[i])
    requires 0 < idx <= |words|
    ensures Strip(Join(words[..idx], " ")) == Join(words[..idx], " ") != []
    ensures Words(Join(words[..idx], " ")) == words[..idx]
  {
    SliceJoin(words, 0, idx);
    assert words[0..idx] == words[..idx];
  }

  lemma SuffixJoin(words: seq<string>, idx: int)
    requires forall i :: 0 <= i < |words| ==> IsWord(words[i])
    requires 0 <= idx < |words|
    ensures Strip(Join(words[idx..], " ")) == Join(words[idx..], " ") != []
    ensures Words(Join(words[idx..], " ")) == words[idx..]
  {
    SliceJoin(words, idx, |words|);
    assert words[idx..|words|] == words[idx..];
  }

  /** A non-empty run of the words joins without outer whitespace and
      splits back into itself. */
  lemma SliceJoin(words: seq<string>, i: int, j: int)
    requires forall k :: 0 <= k < |words| ==> IsWord(words[k])
    requires 0 <= i < j <= |words|
    ensures Strip(Join(words[i..j], " ")) == Join(words[i..j], " ") != []
    ensures Words(Join(words[i..j], " ")) == words[i..j]
  {
    WordsSlice(words, i, j);
    SideWords(words[i..j]);
  }

  lemma CutJoin<T>(xs: seq<T>, i: int)
    requires 0 <= i <= |xs|
    ensures xs[..i] + xs[i..] == xs
  {
  }

  /** A cut succeeds exactly at an inner index, and then the halves hold
      the words on either side joined by single spaces. */
  lemma SplitWithOutcome(c: Clip, words: seq<string>, idx: int)
    requires forall i :: 0 <= i < |words| ==> IsWord(words[i])
    requires 0 <= idx <= |words|
    ensures SplitWith(c, words, idx).Ok? <==> 0 < idx < |words|
    ensures 0 < idx < |words| ==>
              SplitWith(c, words, idx) == Ok(Halve(c, Join(words[..idx], " "), Join(words[idx..], " ")))
  {
    if 0 < idx < |words| {
      SplitWords(words, idx);
    } else if idx == 0 {
      assert words[..idx] == [];
    } else {
      assert words[idx..] == [];
    }
  }

  /** The first half keeps the start and ends at the middle frame, the
      second starts there and keeps the end, both show their own text, and
      nothing else of the clip changes. */
  lemma HalveFrames(c: Clip, t1: string, t2: string)
    ensures Halve(c, t1, t2).first.startFrame == c.startFrame
    ensures Halve(c, t1, t2).first.endFrame == Halve(c, t1, t2).second.startFrame
            == c.startFrame + (c.endFrame - c.startFrame) / 2
    ensures Halve(c, t1, t2).second.endFrame == c.endFrame
    ensures c.startFrame <= c.endFrame ==> c.startFrame <= Halve(c, t1, t2).first.endFrame <= c.endFrame
    ensures Halve(c, t1, t2).first.text == t1 && Halve(c, t1, t2).first.editedText == Some(t1)
    ensures Halve(c, t1, t2).second.text == t2 && Halve(c, t1, t2).second.editedText == Some(t2)
    ensures Halve(c, t1, t2).first.(text := c.text, editedText := c.editedText, endFrame := c.endFrame) == c
    ensures Halve(c, t1, t2).second.(text := c.text, editedText := c.editedText, startFrame := c.startFrame) == c
  {
  }

  /** The split succeeds exactly for a subtitle with words, at an index
      from 1 to n - 1 ("auto" is then the middle one); a subtitle without
      words is refused first. */
  lemma SplitOutcome(ops: TextOps, c: Clip, splitPos: string)
    ensures SplitClip(ops, c, splitPos).Ok? <==>
              && c.kind == Subtitle
              && SplitIndex(ops, splitPos, |Words(EffectiveText(c))|).Ok?
              && 1 <= SplitIndex(ops, splitPos, |Words(EffectiveText(c))|).value < |Words(EffectiveText(c))|
    ensures c.kind == Subtitle && Words(EffectiveText(c)) == [] ==> SplitClip(ops, c, splitPos) == Err(EmptyText)
  {
    var words := Words(EffectiveText(c));
    if c.kind == Subtitle && words != [] {
      var r := SplitIndex(ops, splitPos, |words|);
      if r.Ok? {
        SplitWithOutcome(c, words, r.value);
      }
    }
  }

  /** The halves of a split: their texts are the words before and from the
      index, which joined by a space give the words of the original text
      back. */
  lemma SplitHalves(ops: TextOps, c: Clip, splitPos: string)
    requires SplitClip(ops, c, splitPos).Ok?
    ensures SplitClip(ops, c, splitPos).value.first.text + " " + SplitClip(ops, c, splitPos).value.second.text
            == Join(Words(EffectiveText(c)), " ")
    ensures Words(SplitClip(ops, c, splitPos).value.first.text) + Words(SplitClip(ops, c, splitPos).value.second.text)
            == Words(EffectiveText(c))
    ensures SplitClip(ops, c, splitPos).value
            == Halve(c, SplitClip(ops, c, splitPos).value.first.text, SplitClip(ops, c, splitPos).value.second.text)
  {
    var words := Words(EffectiveText(c));
    SplitOutcome(ops, c, splitPos);
    var idx := SplitIndex(ops, splitPos, |words|).value;
    SplitWithOutcome(c, words, idx);
    SplitWords(words, idx);
  }

  /** "auto" on a subtitle of two words or more splits at the middle word. */
  lemma AutoSplit(ops: TextOps, c: Clip, splitPos: string)
    requires c.kind == Subtitle && |Words(EffectiveText(c))| >= 2 && ops.lower(Strip(splitPos)) == "auto"
    ensures SplitClip(ops, c, splitPos).Ok?
    ensures Words(SplitClip(ops, c, splitPos).value.first.text)
            == Words(EffectiveText(c))[..|Words(EffectiveText(c))| / 2]
  {
    var words := Words(EffectiveText(c));
    var idx := |words| / 2;
    assert SplitIndex(ops, splitPos, |words|) == Ok(idx);
    assert SplitClip(ops, c, splitPos) == SplitWith(c, words, idx);
    var a, b := Join(words[..idx], " "), Join(words[idx..], " ");
    assert SplitWith(c, words, idx) == Ok(Halve(c, a, b)) by { SplitWithOutcome(c, words, idx); }
    assert Words(a) == words[..idx] by { SplitWords(words, idx); }
  }

  // ---------------------------------------------------------------------------
  // Merge

  const TooFewToMerge := "Select at least two subtitles to merge"
  const OnlySubtitlesMerge := "Only subtitles can be merged"

  function GapMessage(gap: int): string {
    "Too large gap between subtitles: " + IntStr(gap) + " frames"
  }

  /** How many frames clip k begins after clip k - 1 ends. */
  function Gap(cs: seq<Clip>, k: int): int
    requires 1 <= k < |cs|
  {
    cs[k].startFrame - cs[k - 1].endFrame
  }

  /** The first neighbour, from i on, that begins more than maxGap frames
      after the clip before it ends. */
  function FirstWideGap(cs: seq<Clip>, maxGap: int, i: nat): (r: Option<nat>)
    requires 1 <= i
    ensures r.None? <==> forall k :: i <= k < |cs| ==> Gap(cs, k) <= maxGap
    ensures r.Some? ==> && i <= r.value < |cs|
                        && Gap(cs, r.value) > maxGap
                        && forall k :: i <= k < r.value ==> Gap(cs, k) <= maxGap
    decreases |cs| - i
  {
    if i >= |cs| then None
    else if Gap(cs, i) > maxGap then Some(i)
    else FirstWideGap(cs, maxGap, i + 1)
  }

  /** The shown texts of the clips. */
  function ShownTexts(cs: seq<Clip>): (r: seq<string>)
    ensures |r| == |cs| && forall i :: 0 <= i < |cs| ==> r[i] == EffectiveText(cs[i])
  {
    seq(|cs|, i requires 0 <= i < |cs| => EffectiveText(cs[i]))
  }

  predicate AllSubtitles(cs: seq<Clip>) {
    forall i :: 0 <= i < |cs| ==> cs[i].kind == Subtitle
  }

  /** merge_subtitles: the clip that replaces the selection, or the refusal.
      The widest gap allowed is int(2 * fps) frames. */
  function MergeClips(selected: seq<Clip>, timelineFps: real): Result<Clip, string> {
    if |selected| < 2 then Err(TooFewToMerge)
    else if !AllSubtitles(selected) then Err(OnlySubtitlesMerge)
    else
      var cs := SortByStart(selected);
      match FirstWideGap(cs, Trunc(2.0 * timelineFps), 1)
      case Some(k) => Err(GapMessage(Gap(cs, k)))
      case None => Ok(MergedClip(cs))
  }

  /** The clip standing for the clips cs, in start order: a copy of the
      first with the shown texts joined by spaces, ending where the last
      ends. */
  function MergedClip(cs: seq<Clip>): Clip
    requires cs != []
  {
    var merged := Join(ShownTexts(cs), " ");
    cs[0].(text := merged, editedText := Some(merged), startFrame := cs[0].startFrame, endFrame := cs[|cs| - 1].endFrame)
  }

  /** In order, no clip begins more than maxGap frames after the one
      before it ends. */
  predicate GapsWithin(cs: seq<Clip>, maxGap: int) {
    forall k :: 1 <= k < |cs| ==> Gap(cs, k) <= maxGap
  }

  /** The merge is refused with fewer than two clips, with a clip that is
      not a subtitle, and exactly when, in start order, some clip begins
      more than int(2 * fps) frames after its predecessor ends. */
  lemma MergeOutcome(selected: seq<Clip>, timelineFps: real)
    ensures |selected| < 2 ==> MergeClips(selected, timelineFps) == Err(TooFewToMerge)
    ensures |selected| >= 2 && !AllSubtitles(selected) ==> MergeClips(selected, timelineFps) == Err(OnlySubtitlesMerge)
    ensures MergeClips(selected, timelineFps).Ok? <==>
              |selected| >= 2 && AllSubtitles(selected) && GapsWithin(SortByStart(selected), Trunc(2.0 * timelineFps))
  {
    if |selected| >= 2 && AllSubtitles(selected) {
      var cs := SortByStart(selected);
      var g := FirstWideGap(cs, Trunc(2.0 * timelineFps), 1);
      assert g.None? <==> GapsWithin(cs, Trunc(2.0 * timelineFps));
    }
  }

  /** A merge of two or more subtitles that is refused is refused for the
      first too wide gap in start order, the one FirstWideGap finds from
      the second clip on, and the message names that gap. */
  lemma MergeGapMessage(selected: seq<Clip>, timelineFps: real)
    requires |selected| >= 2 && AllSubtitles(selected)
    requires MergeClips(selected, timelineFps).Err?
    ensures FirstWideGap(SortByStart(selected), Trunc(2.0 * timelineFps), 1).Some?
    ensures var cs := SortByStart(selected);
            var k := FirstWideGap(cs, Trunc(2.0 * timelineFps), 1).value;
            MergeClips(selected, timelineFps) == Err(GapMessage(Gap(cs, k)))
  {
  }

  /** The merged clip is a subtitle that starts with the earliest selected
      clip and ends where the last one in start order ends, and holds the
      shown texts in start order joined by single spaces; everything else
      it takes from the earliest clip. */
  lemma MergeResult(selected: seq<Clip>, timelineFps: real)
    requires MergeClips(selected, timelineFps).Ok?
    ensures MergeClips(selected, timelineFps).value.kind == Subtitle
    ensures forall i :: 0 <= i < |selected| ==>
              MergeClips(selected, timelineFps).value.startFrame <= selected[i].startFrame
    ensures SortByStart(selected)[0] in selected
    ensures MergeClips(selected, timelineFps).value.startFrame == SortByStart(selected)[0].startFrame
    ensures MergeClips(selected, timelineFps).value.endFrame == SortByStart(selected)[|selected| - 1].endFrame
    ensures MergeClips(selected, timelineFps).value.text == Join(ShownTexts(SortByStart(selected)), " ")
    ensures MergeClips(selected, timelineFps).value.editedText == Some(MergeClips(selected, timelineFps).value.text)
    ensures MergeClips(selected, timelineFps).value.(text := SortByStart(selected)[0].text,
              editedText := SortByStart(selected)[0].editedText, endFrame := SortByStart(selected)[0].endFrame)
            == SortByStart(selected)[0]
  {
    EarliestFirst(selected);
  }

  /** The first clip in start order is one of the clips and starts no later
      than any of them. */
  lemma EarliestFirst(selected: seq<Clip>)
    requires selected != []
    ensures SortByStart(selected)[0] in selected
    ensures forall i :: 0 <= i < |selected| ==> SortByStart(selected)[0].startFrame <= selected[i].startFrame
  {
    var cs := SortByStart(selected);
    SortByStartSpec(selected);
    assert cs[0] in multiset(selected);
    forall i | 0 <= i < |selected| ensures cs[0].startFrame <= selected[i].startFrame {
      assert selected[i] in multiset(cs);
      var j :| 0 <= j < |cs| && cs[j] == selected[i];
      if j > 0 { assert cs[0].startFrame <= cs[j].startFrame; }
    }
  }
}
