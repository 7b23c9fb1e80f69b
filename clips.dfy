/** The clip record the editor keeps for every timed text element, the
    identity scheme that names a clip in the CSV round trip, and the
    de-duplication that builds the clip list. */
module Clips {
  import opened Strings
  import opened Numbers
  import Timecode

  /** One timed text element. Keys the scanner may leave out of a clip's
      dictionary are `Option`s. */
  datatype Clip = Clip(
    kind: Kind,
    text: string,
    editedText: Option<string>,
    startFrame: int,
    endFrame: int,
    framerate: real,
    trackIdx: Option<int>,
    nodeName: Option<string>,
    nodeId: Option<string>,
    nodePath: Option<string>,
    layerNum: Option<int>)

  /** The clip's "type". The scanners produce the five named kinds, the
      FCPXML reader produces "Text"; `Other` carries any other name. */
  datatype Kind = Subtitle | TextPlus | MultiText | Fusion | FusionMacro | Other(name: string)

  /** The type string the clip dictionary holds. */
  function KindName(k: Kind): string {
    match k
    case Subtitle => "Subtitle"
    case TextPlus => "Text+"
    case MultiText => "MultiText"
    case Fusion => "Fusion"
    case FusionMacro => "Fusion Macro"
    case Other(n) => n
  }

  /** Reading a type string back into a kind. */
  function KindOf(name: string): (k: Kind)
    ensures KindName(k) == name
  {
    if name == "Subtitle" then Subtitle
    else if name == "Text+" then TextPlus
    else if name == "MultiText" then MultiText
    else if name == "Fusion" then Fusion
    else if name == "Fusion Macro" then FusionMacro
    else Other(name)
  }

  /** clip.get("edited_text", clip["text"]): the text shown and exported. */
  function EffectiveText(c: Clip): string {
    if c.editedText.Some? then c.editedText.value else c.text
  }

  /** The host timeline the clip list belongs to. */
  datatype Timeline = Timeline(fps: real, startTimecode: string)

  // ---------------------------------------------------------------------------
  // Identity scheme

  predicate IsUnsafe(ch: char) { ch == '.' || ch == '/' || ch == '\\' || ch == ',' }

  /** _sanitize_node_name_for_id: "Unnamed" for an empty name, otherwise the
      chained replaces of '.', '/', '\' and ',' by '_'. */
  function Sanitize(name: string): string {
    if name == [] then "Unnamed"
    else ReplaceAll(ReplaceAll(ReplaceAll(ReplaceAll(name, ".", "_"), "/", "_"), "\\", "_"), ",", "_")
  }

  /** The character-wise reading of the chained replaces. */
  function SafeChars(name: string): (r: string)
    ensures |r| == |name|
    ensures forall k :: 0 <= k < |name| ==> r[k] == if IsUnsafe(name[k]) then '_' else name[k]
  {
    MapChar(MapChar(MapChar(MapChar(name, '.', '_'), '/', '_'), '\\', '_'), ',', '_')
  }

  /** A non-empty name keeps its length, has every unsafe character turned
      into '_', and keeps every other character. */
  lemma SanitizeChars(name: string)
    requires name != []
    ensures Sanitize(name) == SafeChars(name)
    ensures |Sanitize(name)| == |name|
    ensures forall k :: 0 <= k < |name| ==> !IsUnsafe(Sanitize(name)[k])
  {
    ReplaceOneChar(name, '.', '_');
    var a := MapChar(name, '.', '_');
    ReplaceOneChar(a, '/', '_');
    var b := MapChar(a, '/', '_');
    ReplaceOneChar(b, '\\', '_');
    var c := MapChar(b, '\\', '_');
    ReplaceOneChar(c, ',', '_');
  }

  /** Sanitising twice changes nothing more. */
  lemma SanitizeIdempotent(name: string)
    ensures Sanitize(Sanitize(name)) == Sanitize(name)
  {
    var s := Sanitize(name);
    if name != [] {
      SanitizeChars(name);
    }
    assert s != [];
    SanitizeChars(s);
    assert SafeChars(s) == s;
  }

  lemma SanitizeEmpty()
    ensures Sanitize("") == "Unnamed"
  {
  }

  function Track(c: Clip): int { c.trackIdx.GetOr(0) }

  function TrackStart(c: Clip): string { IntStr(Track(c)) + "_" + IntStr(c.startFrame) }

  /** generate_unique_id: a prefix naming the kind's family, the track and
      the start frame, and for the node-based kinds the sanitised node name
      or path (and the layer of a MultiText element). */
  function UniqueId(c: Clip): string {
    IdPrefix(c.kind) + TrackStart(c) + IdRest(c)
  }

  function IdPrefix(kind: Kind): (p: string)
    ensures p in ["SUB_", "TEXTPLUS_", "MULTI_", "FUSION_", "UNKNOWN_"]
  {
    match kind
    case Subtitle => "SUB_"
    case TextPlus => "TEXTPLUS_"
    case MultiText => "MULTI_"
    case Fusion | FusionMacro => "FUSION_"
    case Other(_) => "UNKNOWN_"
  }

  function IdRest(c: Clip): string {
    match c.kind
    case TextPlus => "_" + Sanitize(c.nodeName.GetOr(""))
    case MultiText => "_" + Sanitize(c.nodeName.GetOr("")) + "_L" + IntStr(c.layerNum.GetOr(0))
    case Fusion | FusionMacro => "_" + Sanitize(c.nodePath.GetOr("root"))
    case _ => []
  }

  /** The id of a subtitle on track 1 at frame 24. */
  lemma SubtitleIdExample(c: Clip)
    requires c.kind == Subtitle && c.trackIdx == Some(1) && c.startFrame == 24
    ensures UniqueId(c) == "SUB_1_24"
  {
    TrackOneAt24(c);
  }

  /** The id of a Text+ node named "Title.1" on track 1 at frame 24. */
  lemma TextPlusIdExample(c: Clip)
    requires c.kind == TextPlus && c.trackIdx == Some(1) && c.startFrame == 24 && c.nodeName == Some("Title.1")
    ensures UniqueId(c) == "TEXTPLUS_" + "1_24" + "_" + "Title_1"
  {
    TrackOneAt24(c);
    SanitizeTitle();
    assert IdRest(c) == "_" + Sanitize("Title.1");
    assert IdPrefix(c.kind) == "TEXTPLUS_";
  }

  lemma TrackOneAt24(c: Clip)
    requires c.trackIdx == Some(1) && c.startFrame == 24
    ensures TrackStart(c) == "1_24"
  {
    assert IntStr(24) == NatStr(2) + [DigitChar(4)] == "24";
  }

  lemma SanitizeTitle()
    ensures Sanitize("Title.1") == "Title_1"
  {
    var name := "Title.1";
    SanitizeChars(name);
    var r := SafeChars(name);
    assert |r| == 7;
    assert r[5] == '_';
    assert forall k :: 0 <= k < 7 && k != 5 ==> r[k] == name[k];
  }

  /** A Fusion node without a path is named after the root. */
  lemma FusionIdExample(c: Clip)
    requires c.kind == Fusion && c.trackIdx == None && c.startFrame == 0 && c.nodePath == None
    ensures UniqueId(c) == "FUSION_" + "0_0" + "_" + "root"
  {
    assert TrackStart(c) == "0_0";
    SanitizeRoot();
    assert IdRest(c) == "_" + Sanitize("root");
  }

  lemma SanitizeRoot()
    ensures Sanitize("root") == "root"
  {
    SanitizeChars("root");
  }

  predicate NoComma(s: string) { forall k :: 0 <= k < |s| ==> s[k] != ',' }

  predicate NoUnderscore(s: string) { forall k :: 0 <= k < |s| ==> s[k] != '_' }

  lemma NoCommaConcat(a: string, b: string)
    requires NoComma(a) && NoComma(b)
    ensures NoComma(a + b)
  {
    forall k | 0 <= k < |a + b| ensures (a + b)[k] != ',' {
      if k >= |a| { assert (a + b)[k] == b[k - |a|]; }
    }
  }

  lemma IntStrPlain(i: int)
    ensures NoComma(IntStr(i)) && NoUnderscore(IntStr(i))
  {
  }

  lemma SanitizeNoComma(name: string)
    ensures NoComma(Sanitize(name))
  {
    if name != [] { SanitizeChars(name); }
  }

  lemma TrackStartNoComma(c: Clip)
    ensures NoComma(TrackStart(c))
  {
    IntStrPlain(Track(c));
    IntStrPlain(c.startFrame);
    NoCommaConcat(IntStr(Track(c)), "_");
    NoCommaConcat(IntStr(Track(c)) + "_", IntStr(c.startFrame));
  }

  /** After the prefix, the track and the start, an id goes on with nothing
      or with '_'. */
  lemma IdRestShape(c: Clip)
    ensures IdRest(c) == [] || IdRest(c)[0] == '_'
  {
  }

  /** An id contains no comma, so it is a safe CSV field. */
  lemma UniqueIdNoComma(c: Clip)
    ensures NoComma(UniqueId(c))
  {
    TrackStartNoComma(c);
    NoCommaConcat(IdPrefix(c.kind), TrackStart(c));
    if c.kind == TextPlus {
      SanitizeNoComma(c.nodeName.GetOr(""));
      NoCommaConcat("_", Sanitize(c.nodeName.GetOr("")));
    } else if c.kind == MultiText {
      var n := Sanitize(c.nodeName.GetOr(""));
      var l := IntStr(c.layerNum.GetOr(0));
      SanitizeNoComma(c.nodeName.GetOr(""));
      IntStrPlain(c.layerNum.GetOr(0));
      NoCommaConcat("_", n);
      NoCommaConcat("_" + n, "_L");
      NoCommaConcat("_" + n + "_L", l);
    } else if c.kind in {Fusion, FusionMacro} {
      SanitizeNoComma(c.nodePath.GetOr("root"));
      NoCommaConcat("_", Sanitize(c.nodePath.GetOr("root")));
    }
    NoCommaConcat(IdPrefix(c.kind) + TrackStart(c), IdRest(c));
  }

  /** Where the first '_' of a string is (its length if there is none). */
  function UnderscoreAt(s: string): (n: nat)
    ensures n <= |s|
  {
    if s == [] || s[0] == '_' then 0 else 1 + UnderscoreAt(s[1..])
  }

  lemma {:induction false} UnderscoreAtConcat(w: string, r: string)
    requires NoUnderscore(w)
    requires r == [] || r[0] == '_'
    ensures UnderscoreAt(w + r) == |w|
    decreases |w|
  {
    if w == [] {
      assert w + r == r;
    } else {
      assert (w + r)[0] == w[0];
      assert (w + r)[1..] == w[1..] + r;
      UnderscoreAtConcat(w[1..], r);
    }
  }

  /** An underscore-free word in front of a rest that is empty or starts with
      '_' can be read back off the concatenation. */
  lemma SplitAtUnderscore(w1: string, r1: string, w2: string, r2: string)
    requires NoUnderscore(w1) && NoUnderscore(w2)
    requires r1 == [] || r1[0] == '_'
    requires r2 == [] || r2[0] == '_'
    requires w1 + r1 == w2 + r2
    ensures w1 == w2 && r1 == r2
  {
    var x := w1 + r1;
    UnderscoreAtConcat(w1, r1);
    UnderscoreAtConcat(w2, r2);
    assert |w1| == |w2|;
    assert w1 == x[..|w1|];
    assert w2 == x[..|w2|];
    assert r1 == x[|w1|..];
  }

  lemma Regroup(t: string, s: string, r: string)
    ensures t + "_" + s + r == t + ("_" + s + r)
    ensures ("_" + s + r)[0] == '_' && ("_" + s + r)[1..] == s + r
  {
  }

  /** The track and the start frame can be read back off the id. */
  lemma TrackStartInjective(a: Clip, b: Clip, restA: string, restB: string)
    requires TrackStart(a) + restA == TrackStart(b) + restB
    requires restA == [] || restA[0] == '_'
    requires restB == [] || restB[0] == '_'
    ensures Track(a) == Track(b) && a.startFrame == b.startFrame
  {
    var ta, sa := IntStr(Track(a)), IntStr(a.startFrame);
    var tb, sb := IntStr(Track(b)), IntStr(b.startFrame);
    IntStrPlain(Track(a));
    IntStrPlain(a.startFrame);
    IntStrPlain(Track(b));
    IntStrPlain(b.startFrame);
    Regroup(ta, sa, restA);
    Regroup(tb, sb, restB);
    SplitAtUnderscore(ta, "_" + sa + restA, tb, "_" + sb + restB);
    SplitAtUnderscore(sa, restA, sb, restB);
    IntStrInjective(Track(a), Track(b));
    IntStrInjective(a.startFrame, b.startFrame);
  }

  /** Two subtitles share an id exactly when they share track and start. */
  lemma SubtitleIdsInjective(a: Clip, b: Clip)
    requires a.kind == Subtitle && b.kind == Subtitle
    ensures UniqueId(a) == UniqueId(b) <==> Track(a) == Track(b) && a.startFrame == b.startFrame
  {
    if UniqueId(a) == UniqueId(b) {
      assert UniqueId(a)[4..] == TrackStart(a);
      assert UniqueId(b)[4..] == TrackStart(b);
      assert TrackStart(a) + [] == TrackStart(b) + [];
      TrackStartInjective(a, b, [], []);
    }
  }

  lemma UniqueIdNonEmpty(c: Clip)
    ensures UniqueId(c) != []
  {
    assert |IdPrefix(c.kind)| > 0;
  }

  lemma UniqueIdParts(c: Clip)
    ensures UniqueId(c) == IdPrefix(c.kind) + (TrackStart(c) + IdRest(c))
  {
  }

  lemma DropPrefix(p: string, x: string, y: string)
    requires p + x == p + y
    ensures x == y
  {
    assert x == (p + x)[|p|..];
    assert y == (p + y)[|p|..];
  }

  /** Clips of one family share an id only if they share track and start. */
  lemma SameIdSamePlace(a: Clip, b: Clip)
    requires IdPrefix(a.kind) == IdPrefix(b.kind)
    requires UniqueId(a) == UniqueId(b)
    ensures Track(a) == Track(b) && a.startFrame == b.startFrame
  {
    IdRestShape(a);
    IdRestShape(b);
    UniqueIdParts(a);
    UniqueIdParts(b);
    DropPrefix(IdPrefix(a.kind), TrackStart(a) + IdRest(a), TrackStart(b) + IdRest(b));
    TrackStartInjective(a, b, IdRest(a), IdRest(b));
  }

  /** Clips whose kinds fall in different families never share an id: the
      five prefixes start with five different letters. */
  lemma FamiliesDisjoint(a: Clip, b: Clip)
    requires IdPrefix(a.kind) != IdPrefix(b.kind)
    ensures UniqueId(a) != UniqueId(b)
  {
    var pa, pb := IdPrefix(a.kind), IdPrefix(b.kind);
    assert UniqueId(a)[0] == pa[0];
    assert UniqueId(b)[0] == pb[0];
    assert pa[0] != pb[0];
  }

  /** The sanitiser is not injective: two Text+ nodes named "a.b" and "a_b"
      on the same track and frame get the same id. */
  lemma SanitizedNamesCollide(a: Clip)
    requires a.kind == TextPlus && a.nodeName == Some("a.b")
    ensures UniqueId(a) == UniqueId(a.(nodeName := Some("a_b")))
  {
    SanitizeChars("a.b");
    SanitizeChars("a_b");
    assert Sanitize("a.b") == "a_b";
    assert Sanitize("a_b") == "a_b";
  }

  // ---------------------------------------------------------------------------
  // De-duplication while the clip list is built

  /** str() of an optional dictionary value read with a default of ''. */
  function OptIntText(o: Option<int>): string { if o.Some? then IntStr(o.value) else "" }

  /** The key under which populate_tree files a clip. */
  function DedupKey(c: Clip): string {
    if c.kind == TextPlus then c.nodeId.GetOr("")
    else if c.kind == MultiText then
      "multi_" + OptIntText(c.trackIdx) + "_" + IntStr(c.startFrame) + "_" + c.nodeName.GetOr("") + "_" + OptIntText(c.layerNum)
    else "sub_" + OptIntText(c.trackIdx) + "_" + IntStr(c.startFrame) + "_" + c.text
  }

  /** Showing the start of a clip as a timecode raises for a rate that
      rounds to 0, and the clip is then left out of the list. A clip at frame
      0 of a timeline starting at 00:00:00:00 is shown without conversion. */
  predicate Shown(c: Clip, tl: Timeline) {
    (c.startFrame == 0 && tl.startTimecode == "00:00:00:00")
    || Round(EffectiveRate(c.framerate, tl.fps)) != 0
  }

  function Keys(clips: seq<Clip>): set<string> {
    set i | 0 <= i < |clips| :: DedupKey(clips[i])
  }

  predicate DistinctKeys(clips: seq<Clip>) {
    forall i, j :: 0 <= i < j < |clips| ==> DedupKey(clips[i]) != DedupKey(clips[j])
  }

  /** Scanning `clips` with the keys in `seen` already taken: the shown clips
      whose key is new, in order, each key once. */
  function KeepNew(clips: seq<Clip>, tl: Timeline, seen: set<string>): seq<Clip>
    decreases |clips|
  {
    if clips == [] then []
    else
      var c := clips[0];
      if DedupKey(c) in seen || !Shown(c, tl) then KeepNew(clips[1..], tl, seen)
      else [c] + KeepNew(clips[1..], tl, seen + {DedupKey(c)})
  }

  /** The clip list populate_tree builds from a scan. */
  function Populated(clips: seq<Clip>, tl: Timeline): seq<Clip> {
    KeepNew(clips, tl, {})
  }

  /** Scanning one clip more appends it exactly when it is shown and its key
      is new. */
  lemma {:induction false} KeepNewSnoc(clips: seq<Clip>, c: Clip, tl: Timeline, seen: set<string>)
    ensures KeepNew(clips + [c], tl, seen)
            == KeepNew(clips, tl, seen)
               + (if DedupKey(c) in seen + Keys(KeepNew(clips, tl, seen)) || !Shown(c, tl) then [] else [c])
    decreases |clips|
  {
    if clips == [] {
      assert [c] + [] == [c];
    } else {
      var d := clips[0];
      assert (clips + [c])[1..] == clips[1..] + [c];
      if DedupKey(d) in seen || !Shown(d, tl) {
        KeepNewSnoc(clips[1..], c, tl, seen);
      } else {
        var seen' := seen + {DedupKey(d)};
        KeepNewSnoc(clips[1..], c, tl, seen');
        var rest := KeepNew(clips[1..], tl, seen');
        assert Keys([d] + rest) == {DedupKey(d)} + Keys(rest) by { KeysCons(d, rest); }
      }
    }
  }

  lemma KeysCons(d: Clip, rest: seq<Clip>)
    ensures Keys([d] + rest) == {DedupKey(d)} + Keys(rest)
  {
    var xs := [d] + rest;
    forall k | k in Keys(xs) ensures k in {DedupKey(d)} + Keys(rest) {
      var i :| 0 <= i < |xs| && DedupKey(xs[i]) == k;
      if i > 0 { assert xs[i] == rest[i - 1]; }
    }
    forall k | k in Keys(rest) ensures k in Keys(xs) {
      var i :| 0 <= i < |rest| && DedupKey(rest[i]) == k;
      assert xs[i + 1] == rest[i];
    }
    assert DedupKey(xs[0]) == DedupKey(d);
  }

  /** The kept clips are shown, new to `seen`, pairwise distinct in key, and
      drawn from the input. */
  lemma {:induction false} KeepNewSound(clips: seq<Clip>, tl: Timeline, seen: set<string>)
    ensures DistinctKeys(KeepNew(clips, tl, seen))
    ensures forall i :: 0 <= i < |KeepNew(clips, tl, seen)| ==>
              var c := KeepNew(clips, tl, seen)[i];
              DedupKey(c) !in seen && Shown(c, tl) && c in clips
    decreases |clips|
  {
    if clips != [] {
      var c := clips[0];
      if DedupKey(c) in seen || !Shown(c, tl) {
        KeepNewSound(clips[1..], tl, seen);
      } else {
        var seen' := seen + {DedupKey(c)};
        KeepNewSound(clips[1..], tl, seen');
        KeptCons(c, KeepNew(clips[1..], tl, seen'), clips, tl, seen);
      }
    }
  }

  /** A new shown first clip in front of what the rest keeps. */
  lemma KeptCons(c: Clip, rest: seq<Clip>, clips: seq<Clip>, tl: Timeline, seen: set<string>)
    requires clips != [] && c == clips[0] && DedupKey(c) !in seen && Shown(c, tl)
    requires DistinctKeys(rest)
    requires forall i :: 0 <= i < |rest| ==>
               DedupKey(rest[i]) !in seen + {DedupKey(c)} && Shown(rest[i], tl) && rest[i] in clips[1..]
    ensures DistinctKeys([c] + rest)
    ensures forall i :: 0 <= i < |[c] + rest| ==>
              DedupKey(([c] + rest)[i]) !in seen && Shown(([c] + rest)[i], tl) && ([c] + rest)[i] in clips
  {
    var r := [c] + rest;
    forall i, j | 0 <= i < j < |r| ensures DedupKey(r[i]) != DedupKey(r[j]) {
      assert r[j] == rest[j - 1];
      if i > 0 { assert r[i] == rest[i - 1]; }
    }
    forall i | 0 <= i < |r| ensures DedupKey(r[i]) !in seen && Shown(r[i], tl) && r[i] in clips {
      if i > 0 { assert r[i] == rest[i - 1]; }
    }
  }

  /** Every shown clip of the scan is represented: its key is taken in the
      result, or was taken beforehand. */
  lemma {:induction false} KeepNewComplete(clips: seq<Clip>, tl: Timeline, seen: set<string>)
    ensures forall i :: 0 <= i < |clips| && Shown(clips[i], tl) ==>
              DedupKey(clips[i]) in seen + Keys(KeepNew(clips, tl, seen))
    decreases |clips|
  {
    if clips != [] {
      var c := clips[0];
      var seen' := if DedupKey(c) in seen || !Shown(c, tl) then seen else seen + {DedupKey(c)};
      KeepNewComplete(clips[1..], tl, seen');
      var rest := KeepNew(clips[1..], tl, seen');
      if !(DedupKey(c) in seen || !Shown(c, tl)) {
        KeysCons(c, rest);
      }
      forall i | 0 <= i < |clips| && Shown(clips[i], tl)
        ensures DedupKey(clips[i]) in seen + Keys(KeepNew(clips, tl, seen))
      {
        if i > 0 { assert clips[i] == clips[1..][i - 1]; }
      }
    }
  }

  /** An already de-duplicated list of shown clips is kept as it is. */
  lemma {:induction false} KeepNewIdentity(clips: seq<Clip>, tl: Timeline, seen: set<string>)
    requires DistinctKeys(clips) && forall i :: 0 <= i < |clips| ==> Shown(clips[i], tl)
    requires forall i :: 0 <= i < |clips| ==> DedupKey(clips[i]) !in seen
    ensures KeepNew(clips, tl, seen) == clips
    decreases |clips|
  {
    if clips != [] {
      var c := clips[0];
      var seen' := seen + {DedupKey(c)};
      forall i | 0 <= i < |clips[1..]| ensures DedupKey(clips[1..][i]) !in seen' {
        assert clips[1..][i] == clips[i + 1];
      }
      KeepNewIdentity(clips[1..], tl, seen');
      assert clips == [c] + clips[1..];
    }
  }

  /** populate_tree keeps a shown clip for every key, no key twice, and
      rebuilding from its own result changes nothing. */
  lemma PopulatedProperties(clips: seq<Clip>, tl: Timeline)
    ensures DistinctKeys(Populated(clips, tl))
    ensures forall i :: 0 <= i < |Populated(clips, tl)| ==> Shown(Populated(clips, tl)[i], tl) && Populated(clips, tl)[i] in clips
    ensures forall i :: 0 <= i < |clips| && Shown(clips[i], tl) ==> DedupKey(clips[i]) in Keys(Populated(clips, tl))
    ensures Populated(Populated(clips, tl), tl) == Populated(clips, tl)
  {
    var r := Populated(clips, tl);
    KeepNewSound(clips, tl, {});
    KeepNewComplete(clips, tl, {});
    KeepNewIdentity(r, tl, {});
  }

  /** The first clip of each key wins: a later duplicate is dropped. */
  lemma FirstOfKeyWins(a: Clip, b: Clip, tl: Timeline)
    requires DedupKey(a) == DedupKey(b) && Shown(a, tl)
    ensures Populated([a, b], tl) == [a]
  {
    var seen := {DedupKey(a)};
    assert [a, b][0] == a && DedupKey(a) !in {};
    assert {} + {DedupKey(a)} == seen;
    assert [a, b][1..] == [b];
    assert [b][1..] == [];
    assert KeepNew([b], tl, seen) == KeepNew([], tl, seen) == [];
    assert Populated([a, b], tl) == [a] + KeepNew([b], tl, seen);
  }
}
