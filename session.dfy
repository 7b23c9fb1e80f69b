/** The editor window's clip list and the operations that change it:
    building the list from a scan, replacing text in the selected clip or in
    all listed clips, the punctuation and case cleanup, splitting and
    merging subtitles, and applying an imported table. */
module Session {
  import opened Strings
  import opened Clips
  import opened Order
  import opened Transforms
  import opened Edits
  import Csv

  // ---------------------------------------------------------------------------
  // The list populate_tree keeps

  /** Shown clips with pairwise distinct keys: what populate_tree leaves. */
  predicate ListWf(clips: seq<Clip>, tl: Timeline) {
    DistinctKeys(clips) && forall i :: 0 <= i < |clips| ==> Shown(clips[i], tl)
  }

  /** b is a with at most the shown texts changed. */
  predicate SameButText(a: seq<Clip>, b: seq<Clip>) {
    |a| == |b| && forall i :: 0 <= i < |a| ==> b[i] == a[i].(editedText := b[i].editedText)
  }

  /** Editing shown texts changes no key and nothing about what is shown, so
      rebuilding the list afterwards keeps it as it is. */
  lemma RepopulateAfterTextEdits(a: seq<Clip>, b: seq<Clip>, tl: Timeline)
    requires ListWf(a, tl) && SameButText(a, b)
    ensures ListWf(b, tl)
    ensures Populated(b, tl) == b
  {
    forall i | 0 <= i < |b| ensures DedupKey(b[i]) == DedupKey(a[i]) && Shown(b[i], tl) {
      assert b[i] == a[i].(editedText := b[i].editedText);
    }
    KeepNewIdentity(b, tl, {});
  }

  lemma KeysSnoc(xs: seq<Clip>, c: Clip)
    ensures Keys(xs + [c]) == Keys(xs) + {DedupKey(c)}
  {
    var ys := xs + [c];
    forall k | k in Keys(ys) ensures k in Keys(xs) + {DedupKey(c)} {
      var i :| 0 <= i < |ys| && DedupKey(ys[i]) == k;
      if i < |xs| { assert ys[i] == xs[i]; }
    }
    forall k | k in Keys(xs) ensures k in Keys(ys) {
      var i :| 0 <= i < |xs| && DedupKey(xs[i]) == k;
      assert ys[i] == xs[i];
    }
    assert DedupKey(ys[|xs|]) == DedupKey(c);
  }

  /** In a list with distinct keys, list.remove of the clip at i removes
      exactly position i. */
  lemma RemoveAt(xs: seq<Clip>, i: nat)
    requires DistinctKeys(xs) && i < |xs|
    ensures RemoveFirst(xs, xs[i]) == xs[..i] + xs[i + 1..]
  {
  }

  // ---------------------------------------------------------------------------
  // Replace all

  /** The replace settings: the stripped search term, the replacement, the
      search mode, the match-case box and the type filter. */
  datatype Query = Query(search: string, replace: string, mode: SearchMode, matchCase: bool, typeFilter: string)

  /** The new shown text replace_all gives a clip, if any: clips outside
      the type filter are skipped, the others rewritten when they pass. */
  function ReplaceOne(ops: TextOps, q: Query, c: Clip): Option<string>
    requires q.search != []
  {
    if !TypeMatch(q.typeFilter, c) then None
    else RewriteAll(ops, q.mode, q.matchCase, q.search, q.replace, EffectiveText(c))
  }

  /** replace_all over the clips at the positions `order`, in turn: the new
      list and the number of clips replaced. */
  function ReplaceFold(ops: TextOps, q: Query, clips: seq<Clip>, order: seq<nat>): (r: (seq<Clip>, nat))
    requires q.search != []
    requires forall k :: 0 <= k < |order| ==> order[k] < |clips|
    ensures |r.0| == |clips|
    decreases |order|
  {
    if order == [] then (clips, 0)
    else
      var prev := ReplaceFold(ops, q, clips, order[..|order| - 1]);
      var j := order[|order| - 1];
      match ReplaceOne(ops, q, prev.0[j])
      case None => prev
      case Some(t) => (prev.0[j := prev.0[j].(editedText := Some(t))], prev.1 + 1)
  }

  /** The number of listed positions whose clip, as it was, replace_all
      rewrites. */
  function Hits(ops: TextOps, q: Query, clips: seq<Clip>, order: seq<nat>): (n: nat)
    requires q.search != []
    requires forall k :: 0 <= k < |order| ==> order[k] < |clips|
    ensures n <= |order|
    decreases |order|
  {
    if order == [] then 0
    else
      var rest := Hits(ops, q, clips, order[..|order| - 1]);
      if ReplaceOne(ops, q, clips[order[|order| - 1]]).Some? then rest + 1 else rest
  }

  predicate Distinct(order: seq<nat>) {
    forall k, m :: 0 <= k < m < |order| ==> order[k] != order[m]
  }

  /** Over distinct positions, replace_all rewrites the shown text of each
      listed clip that passes, to the text the rewrite gives for its old
      shown text; it leaves every other clip as it was, changes nothing but
      shown texts, and counts the clips rewritten. */
  lemma {:induction false} ReplaceFoldEffect(ops: TextOps, q: Query, clips: seq<Clip>, order: seq<nat>)
    requires q.search != []
    requires forall k :: 0 <= k < |order| ==> order[k] < |clips|
    requires Distinct(order)
    ensures SameButText(clips, ReplaceFold(ops, q, clips, order).0)
    ensures forall i :: 0 <= i < |clips| ==>
              ReplaceFold(ops, q, clips, order).0[i]
              == if i in order && ReplaceOne(ops, q, clips[i]).Some?
                 then clips[i].(editedText := ReplaceOne(ops, q, clips[i]))
                 else clips[i]
    ensures ReplaceFold(ops, q, clips, order).1 == Hits(ops, q, clips, order)
    decreases |order|
  {
    if order != [] {
      var pre := order[..|order| - 1];
      var j := order[|order| - 1];
      ReplaceFoldEffect(ops, q, clips, pre);
      assert j !in pre;
      forall i | 0 <= i < |clips| ensures i in order <==> i in pre || i == j {
        assert order == pre + [j];
      }
    }
  }

  /** One step of replace_all. */
  lemma ReplaceFoldStep(ops: TextOps, q: Query, clips: seq<Clip>, order: seq<nat>, n: nat)
    requires q.search != []
    requires forall k :: 0 <= k < |order| ==> order[k] < |clips|
    requires n < |order|
    ensures var prev := ReplaceFold(ops, q, clips, order[..n]);
            var j := order[n];
            ReplaceFold(ops, q, clips, order[..n + 1])
            == if ReplaceOne(ops, q, prev.0[j]).Some?
               then (prev.0[j := prev.0[j].(editedText := ReplaceOne(ops, q, prev.0[j]))], prev.1 + 1)
               else prev
  {
    assert order[..n + 1][..n] == order[..n];
  }

  /** No clip is rewritten exactly when none of the listed clips passes. */
  lemma {:induction false} HitsZero(ops: TextOps, q: Query, clips: seq<Clip>, order: seq<nat>)
    requires q.search != []
    requires forall k :: 0 <= k < |order| ==> order[k] < |clips|
    ensures Hits(ops, q, clips, order) == 0 <==> forall k :: 0 <= k < |order| ==> ReplaceOne(ops, q, clips[order[k]]).None?
    decreases |order|
  {
    if order != [] {
      var pre := order[..|order| - 1];
      HitsZero(ops, q, clips, pre);
      assert forall k :: 0 <= k < |pre| ==> pre[k] == order[k];
    }
  }

  /** The positions 0 .. n - 1. */
  function Positions(n: nat): (r: seq<nat>)
    ensures |r| == n && forall i :: 0 <= i < n ==> r[i] == i
  {
    seq(n, i requires 0 <= i < n => i)
  }

  /** The history entry of a replace_all: the raw search field, the
      replacement, the count as "N replaced", the mode name and the
      match-case box. */
  datatype HistoryEntry = HistoryEntry(timestamp: string, search: string, replace: string,
                                       count: string, mode: string, matchCase: bool)

  /** The name the mode combo box shows. */
  function ModeName(m: SearchMode): string {
    match m
    case Contains => "Contains"
    case Exact => "Exact"
    case StartsWith => "Starts With"
    case EndsWith => "Ends With"
  }

  // ---------------------------------------------------------------------------
  // Clean punctuation

  /** The cleanup changes a clip: a subtitle whose cleaned text differs
      from its shown text. */
  predicate Changes(ops: TextOps, marks: seq<char>, mode: CaseMode, c: Clip) {
    c.kind == Subtitle && Cleaned(ops, marks, mode, EffectiveText(c)) != EffectiveText(c)
  }

  /** A clip after the cleanup: a changed clip gets the cleaned text. */
  function CleanedClip(ops: TextOps, marks: seq<char>, mode: CaseMode, c: Clip): Clip {
    if Changes(ops, marks, mode, c) then c.(editedText := Some(Cleaned(ops, marks, mode, EffectiveText(c)))) else c
  }

  function CleanAll(ops: TextOps, marks: seq<char>, mode: CaseMode, clips: seq<Clip>): (r: seq<Clip>)
    ensures |r| == |clips|
  {
    seq(|clips|, i requires 0 <= i < |clips| => CleanedClip(ops, marks, mode, clips[i]))
  }

  /** The number of clips the cleanup changes. */
  function ChangedCount(ops: TextOps, marks: seq<char>, mode: CaseMode, clips: seq<Clip>): (n: nat)
    ensures n <= |clips|
    decreases |clips|
  {
    if clips == [] then 0
    else
      ChangedCount(ops, marks, mode, clips[..|clips| - 1]) + if Changes(ops, marks, mode, clips[|clips| - 1]) then 1 else 0
  }

  lemma ChangedCountStep(ops: TextOps, marks: seq<char>, mode: CaseMode, clips: seq<Clip>, n: nat)
    requires n < |clips|
    ensures ChangedCount(ops, marks, mode, clips[..n + 1])
            == ChangedCount(ops, marks, mode, clips[..n]) + if Changes(ops, marks, mode, clips[n]) then 1 else 0
  {
    assert clips[..n + 1][..n] == clips[..n];
  }

  /** A subtitle shows its cleaned text afterwards, changed or not; a
      changed clip differs from what it was. */
  lemma CleanedClipEffect(ops: TextOps, marks: seq<char>, mode: CaseMode, c: Clip)
    ensures c.kind == Subtitle ==> EffectiveText(CleanedClip(ops, marks, mode, c)) == Cleaned(ops, marks, mode, EffectiveText(c))
    ensures c.kind != Subtitle ==> CleanedClip(ops, marks, mode, c) == c
    ensures CleanedClip(ops, marks, mode, c) == c <==> !Changes(ops, marks, mode, c)
    ensures CleanedClip(ops, marks, mode, c) == c.(editedText := CleanedClip(ops, marks, mode, c).editedText)
  {
    if Changes(ops, marks, mode, c) {
      var d := CleanedClip(ops, marks, mode, c);
      assert EffectiveText(d) != EffectiveText(c);
    }
  }

  /** After the cleanup every subtitle shows its cleaned text, every other
      clip is untouched, only shown texts change, and the count is zero
      exactly when nothing changed. */
  lemma CleanAllEffect(ops: TextOps, marks: seq<char>, mode: CaseMode, clips: seq<Clip>)
    ensures SameButText(clips, CleanAll(ops, marks, mode, clips))
    ensures forall i :: 0 <= i < |clips| && clips[i].kind == Subtitle ==>
              EffectiveText(CleanAll(ops, marks, mode, clips)[i]) == Cleaned(ops, marks, mode, EffectiveText(clips[i]))
    ensures forall i :: 0 <= i < |clips| && clips[i].kind != Subtitle ==> CleanAll(ops, marks, mode, clips)[i] == clips[i]
    ensures ChangedCount(ops, marks, mode, clips) == 0 <==> CleanAll(ops, marks, mode, clips) == clips
  {
    var r := CleanAll(ops, marks, mode, clips);
    forall i | 0 <= i < |clips|
      ensures clips[i].kind == Subtitle ==> EffectiveText(r[i]) == Cleaned(ops, marks, mode, EffectiveText(clips[i]))
      ensures clips[i].kind != Subtitle ==> r[i] == clips[i]
      ensures r[i] == clips[i] <==> !Changes(ops, marks, mode, clips[i])
      ensures r[i] == clips[i].(editedText := r[i].editedText)
    {
      CleanedClipEffect(ops, marks, mode, clips[i]);
    }
    ChangedNone(ops, marks, mode, clips);
    if r != clips {
      var i :| 0 <= i < |clips| && r[i] != clips[i];
    }
  }

  predicate NoneChange(ops: TextOps, marks: seq<char>, mode: CaseMode, clips: seq<Clip>) {
    forall i :: 0 <= i < |clips| ==> !Changes(ops, marks, mode, clips[i])
  }

  lemma NoneChangeSnoc(ops: TextOps, marks: seq<char>, mode: CaseMode, clips: seq<Clip>)
    requires clips != []
    ensures NoneChange(ops, marks, mode, clips)
            <==> NoneChange(ops, marks, mode, clips[..|clips| - 1]) && !Changes(ops, marks, mode, clips[|clips| - 1])
  {
    var pre := clips[..|clips| - 1];
    var last := clips[|clips| - 1];
    if NoneChange(ops, marks, mode, pre) && !Changes(ops, marks, mode, last) {
      forall i | 0 <= i < |clips| ensures !Changes(ops, marks, mode, clips[i]) {
        if i < |pre| { assert clips[i] == pre[i]; }
      }
    }
    if NoneChange(ops, marks, mode, clips) {
      forall i | 0 <= i < |pre| ensures !Changes(ops, marks, mode, pre[i]) {
        assert pre[i] == clips[i];
      }
    }
  }

  lemma {:induction false} ChangedNone(ops: TextOps, marks: seq<char>, mode: CaseMode, clips: seq<Clip>)
    ensures ChangedCount(ops, marks, mode, clips) == 0 <==> NoneChange(ops, marks, mode, clips)
    decreases |clips|
  {
    if clips != [] {
      var pre := clips[..|clips| - 1];
      ChangedNone(ops, marks, mode, pre);
      NoneChangeSnoc(ops, marks, mode, clips);
    }
  }

  /** Removing marks alone a second time changes nothing. */
  lemma CleanMarksTwice(ops: TextOps, marks: seq<char>, clips: seq<Clip>)
    ensures CleanAll(ops, marks, NoChange, CleanAll(ops, marks, NoChange, clips)) == CleanAll(ops, marks, NoChange, clips)
    ensures ChangedCount(ops, marks, NoChange, CleanAll(ops, marks, NoChange, clips)) == 0
  {
    var once := CleanAll(ops, marks, NoChange, clips);
    forall i | 0 <= i < |once| ensures !Changes(ops, marks, NoChange, once[i]) {
      var c := clips[i];
      CleanedClipEffect(ops, marks, NoChange, c);
      if marks != [] && c.kind == Subtitle {
        CleanPunctuationIdempotent(EffectiveText(c), marks);
      }
    }
    ChangedNone(ops, marks, NoChange, once);
    CleanAllEffect(ops, marks, NoChange, once);
  }

  // ---------------------------------------------------------------------------
  // Merge: the selected clips

  /** The clips at the selected positions, in selection order. */
  function Picked(xs: seq<Clip>, sel: seq<nat>): (r: seq<Clip>)
    requires forall k :: 0 <= k < |sel| ==> sel[k] < |xs|
    ensures |r| == |sel| && forall k :: 0 <= k < |sel| ==> r[k] == xs[sel[k]]
  {
    seq(|sel|, k requires 0 <= k < |sel| => xs[sel[k]])
  }

  lemma PickedSplit(xs: seq<Clip>, sel: seq<nat>, p: nat)
    requires forall k :: 0 <= k < |sel| ==> sel[k] < |xs|
    requires p < |sel|
    ensures Picked(xs, sel) == Picked(xs, sel[..p]) + [xs[sel[p]]] + Picked(xs, sel[p + 1..])
  {
  }

  lemma PickedInit(xs: seq<Clip>, sel: seq<nat>, n: nat)
    requires n <= |xs| && forall k :: 0 <= k < |sel| ==> sel[k] < n
    ensures Picked(xs, sel) == Picked(xs[..n], sel)
  {
  }

  /** The positions without the one at p. */
  function Without(sel: seq<nat>, p: nat): (r: seq<nat>)
    requires p < |sel|
    ensures |r| == |sel| - 1 && forall k :: 0 <= k < |r| ==> r[k] == if k < p then sel[k] else sel[k + 1]
  {
    sel[..p] + sel[p + 1..]
  }

  /** Dropping position p of distinct positions up to n, where sel[p] is n,
      leaves distinct positions below n. */
  lemma DropPosition(sel: seq<nat>, p: nat, n: nat)
    requires p < |sel| && sel[p] == n && Distinct(sel)
    requires forall k :: 0 <= k < |sel| ==> sel[k] <= n
    ensures Distinct(Without(sel, p))
    ensures forall k :: 0 <= k < |sel| - 1 ==> Without(sel, p)[k] < n
  {
  }

  lemma PickedConcat(xs: seq<Clip>, a: seq<nat>, b: seq<nat>)
    requires forall k :: 0 <= k < |a| ==> a[k] < |xs|
    requires forall k :: 0 <= k < |b| ==> b[k] < |xs|
    ensures Picked(xs, a + b) == Picked(xs, a) + Picked(xs, b)
  {
  }

  /** Leaving position p out of a selection takes one copy of its clip
      out of what is picked. */
  lemma PickedDrop(xs: seq<Clip>, sel: seq<nat>, p: nat)
    requires forall k :: 0 <= k < |sel| ==> sel[k] < |xs|
    requires p < |sel|
    ensures multiset(Picked(xs, sel)) == multiset(Picked(xs, Without(sel, p))) + multiset{xs[sel[p]]}
  {
    PickedSplit(xs, sel, p);
    PickedConcat(xs, sel[..p], sel[p + 1..]);
  }

  /** Distinct positions pick each clip at most as often as the list holds
      it. */
  lemma {:induction false} PickedWithin(xs: seq<Clip>, sel: seq<nat>)
    requires forall k :: 0 <= k < |sel| ==> sel[k] < |xs|
    requires Distinct(sel)
    ensures multiset(Picked(xs, sel)) <= multiset(xs)
    decreases |xs|
  {
    if xs != [] {
      var n := |xs| - 1;
      var init := xs[..n];
      assert multiset(xs) == multiset(init) + multiset{xs[n]} by { assert xs == init + [xs[n]]; }
      if p :| 0 <= p < |sel| && sel[p] == n {
        var rest := Without(sel, p);
        DropPosition(sel, p, n);
        PickedWithin(init, rest);
        PickedDrop(xs, sel, p);
        PickedInit(xs, rest, n);
      } else {
        PickedInit(xs, sel, n);
        PickedWithin(init, sel);
      }
    }
  }

  // ---------------------------------------------------------------------------
  // Import

  /** Setting the shown text of each matched clip, in match order. */
  function ApplyMatches(clips: seq<Clip>, ms: seq<Csv.Match>): (r: seq<Clip>)
    requires forall k :: 0 <= k < |ms| ==> ms[k].index < |clips|
    ensures |r| == |clips|
    decreases |ms|
  {
    if ms == [] then clips
    else
      var prev := ApplyMatches(clips, ms[..|ms| - 1]);
      var m := ms[|ms| - 1];
      prev[m.index := prev[m.index].(editedText := Some(m.newText))]
  }

  /** With no clip matched twice, each matched clip shows its new text,
      the others are untouched, and nothing but shown texts changes. */
  lemma {:induction false} ApplyMatchesEffect(clips: seq<Clip>, ms: seq<Csv.Match>)
    requires forall k :: 0 <= k < |ms| ==> ms[k].index < |clips|
    requires forall a, b :: 0 <= a < b < |ms| ==> ms[a].index != ms[b].index
    ensures SameButText(clips, ApplyMatches(clips, ms))
    ensures forall k :: 0 <= k < |ms| ==>
              ApplyMatches(clips, ms)[ms[k].index] == clips[ms[k].index].(editedText := Some(ms[k].newText))
    ensures forall i :: 0 <= i < |clips| && (forall k :: 0 <= k < |ms| ==> ms[k].index != i) ==>
              ApplyMatches(clips, ms)[i] == clips[i]
    decreases |ms|
  {
    if ms != [] {
      var pre := ms[..|ms| - 1];
      ApplyMatchesEffect(clips, pre);
      assert forall k :: 0 <= k < |pre| ==> pre[k] == ms[k];
    }
  }

  /** Applying the matches of an import: every entry with a new text, an
      admitted type and a clip of its id sets the shown text of the first
      such clip to that new text. */
  lemma ImportEffect(data: Csv.ImportData, filters: set<string>, clips: seq<Clip>, uid: string)
    requires Csv.Wf(data)
    requires uid in data.entries && Csv.Considered(data.entries[uid], filters)
    requires Csv.FirstMatch(clips, uid, filters).Some?
    ensures forall k :: 0 <= k < |Csv.Matched(data.order, data.entries, filters, clips)| ==>
              Csv.Matched(data.order, data.entries, filters, clips)[k].index < |clips|
    ensures var i := Csv.FirstMatch(clips, uid, filters).value;
            ApplyMatches(clips, Csv.Matched(data.order, data.entries, filters, clips))[i]
            == clips[i].(editedText := Some(data.entries[uid].newText))
  {
    var ms := Csv.Matched(data.order, data.entries, filters, clips);
    Csv.MatchSound(data.order, data.entries, filters, clips);
    assert forall k :: 0 <= k < |ms| ==> ms[k] in ms;
    Csv.MatchIndicesDistinct(data.order, data.entries, filters, clips);
    Csv.MatchComplete(data.order, data.entries, filters, clips, uid);
    ApplyMatchesEffect(clips, ms);
    var m := Csv.Match(Csv.FirstMatch(clips, uid, filters).value, data.entries[uid].newText);
    var k :| 0 <= k < |ms| && ms[k] == m;
  }

  // ---------------------------------------------------------------------------
  // The loops of the editor's operations

  /** The loop of on_replace_all over the positions `order`. */
  method RunReplace(ops: TextOps, q: Query, clips: seq<Clip>, order: seq<nat>) returns (out: seq<Clip>, count: nat)
    requires q.search != []
    requires forall k :: 0 <= k < |order| ==> order[k] < |clips|
    ensures (out, count) == ReplaceFold(ops, q, clips, order)
  {
    out, count := clips, 0;
    var n := 0;
    while n < |order|
      invariant 0 <= n <= |order|
      invariant (out, count) == ReplaceFold(ops, q, clips, order[..n])
    {
      ReplaceFoldStep(ops, q, clips, order, n);
      var j := order[n];
      var c := out[j];
      if !TypeMatch(q.typeFilter, c) {
        n := n + 1;
        continue;
      }
      var r := RewriteAll(ops, q.mode, q.matchCase, q.search, q.replace, EffectiveText(c));
      if r.Some? {
        out := out[j := c.(editedText := r)];
        count := count + 1;
      }
      n := n + 1;
    }
    assert order[..n] == order;
  }

  /** One step of that loop: a subtitle whose cleaned text differs from
      its shown text takes the cleaned text. */
  method CleanOne(ops: TextOps, marks: seq<char>, mode: CaseMode, c: Clip) returns (next: Clip, changed: bool)
    ensures next == CleanedClip(ops, marks, mode, c)
    ensures changed == Changes(ops, marks, mode, c)
  {
    next, changed := c, false;
    if c.kind == Subtitle {
      var original := EffectiveText(c);
      var cleaned := Cleaned(ops, marks, mode, original);
      if cleaned != original {
        next, changed := c.(editedText := Some(cleaned)), true;
      }
    }
  }

  /** The loop of on_clean_punctuation over all clips. */
  method RunCleanup(ops: TextOps, marks: seq<char>, mode: CaseMode, clips: seq<Clip>) returns (out: seq<Clip>, count: nat)
    ensures out == CleanAll(ops, marks, mode, clips)
    ensures count == ChangedCount(ops, marks, mode, clips)
  {
    out, count := clips, 0;
    var n := 0;
    while n < |clips|
      invariant 0 <= n <= |clips| && |out| == |clips|
      invariant CleanedUpTo(ops, marks, mode, out, clips, n)
      invariant count == ChangedCount(ops, marks, mode, clips[..n])
    {
      ChangedCountStep(ops, marks, mode, clips, n);
      var next, changed := CleanOne(ops, marks, mode, out[n]);
      if changed {
        out := out[n := next];
        count := count + 1;
      }
      n := n + 1;
    }
    assert clips[..n] == clips;
    CleanedAll(ops, marks, mode, out, clips);
  }

  /** The first n clips are cleaned and the rest are as they were. */
  predicate CleanedUpTo(ops: TextOps, marks: seq<char>, mode: CaseMode, out: seq<Clip>, clips: seq<Clip>, n: nat)
    requires |out| == |clips|
  {
    && (forall i :: 0 <= i < n && i < |clips| ==> out[i] == CleanedClip(ops, marks, mode, clips[i]))
    && (forall i :: n <= i < |clips| ==> out[i] == clips[i])
  }

  lemma CleanedAll(ops: TextOps, marks: seq<char>, mode: CaseMode, out: seq<Clip>, clips: seq<Clip>)
    requires |out| == |clips| && CleanedUpTo(ops, marks, mode, out, clips, |clips|)
    ensures out == CleanAll(ops, marks, mode, clips)
  {
  }

  /** The loop of _do_import over the matches. */
  method RunMatches(clips: seq<Clip>, ms: seq<Csv.Match>) returns (out: seq<Clip>)
    requires forall k :: 0 <= k < |ms| ==> ms[k].index < |clips|
    ensures out == ApplyMatches(clips, ms)
  {
    out := clips;
    var n := 0;
    while n < |ms|
      invariant 0 <= n <= |ms|
      invariant out == ApplyMatches(clips, ms[..n])
    {
      assert ms[..n + 1][..n] == ms[..n];
      var m := ms[n];
      out := out[m.index := out[m.index].(editedText := Some(m.newText))];
      n := n + 1;
    }
    assert ms[..n] == ms;
  }

  /** any(clip["type"] == "Subtitle" for clip in clips) */
  predicate HasSubtitle(clips: seq<Clip>) {
    exists i :: 0 <= i < |clips| && clips[i].kind == Subtitle
  }

  // ---------------------------------------------------------------------------
  // The editor

  const NoSubtitleSelected := "No subtitle selected"
  const SplitCanceled := "Split canceled"
  const EnterSearchText := "Enter search text first"
  const NoClipSelected := "No clip selected. Select a clip first or use Replace All"

  /** The message replace_single shows when the selected clip does not
      pass. */
  function NoMatchMessage(mode: SearchMode): string {
    match mode
    case Contains => ""
    case Exact => "Text doesn't match exactly"
    case StartsWith => "Text doesn't start with search term"
    case EndsWith => "Text doesn't end with search term"
  }

  /** The editor window: the clip list, the replace history, and the
      timeline and text functions it works with. */
  class SubtitleEditor {
    var allClips: seq<Clip>
    var history: seq<HistoryEntry>
    const tl: Timeline
    const ops: TextOps

    predicate Valid()
      reads this
    {
      ListWf(allClips, tl)
    }

    constructor(tl: Timeline, ops: TextOps)
      ensures Valid()
      ensures this.tl == tl && this.ops == ops && allClips == [] && history == []
    {
      this.tl := tl;
      this.ops := ops;
      allClips := [];
      history := [];
    }

    /** populate_tree: the clips in scan order, skipping a clip whose key
        is already listed and one whose start cannot be shown. */
    method Populate(clips: seq<Clip>)
      modifies this
      ensures Valid()
      ensures allClips == Populated(clips, tl) && history == old(history)
    {
      var kept: seq<Clip> := [];
      var seen: set<string> := {};
      var n := 0;
      while n < |clips|
        invariant 0 <= n <= |clips|
        invariant kept == KeepNew(clips[..n], tl, {})
        invariant history == old(history)
        invariant seen == Keys(kept)
      {
        var c := clips[n];
        assert clips[..n + 1] == clips[..n] + [c];
        KeepNewSnoc(clips[..n], c, tl, {});
        var key := DedupKey(c);
        if key in seen {
          n := n + 1;
          continue;
        }
        if !Shown(c, tl) {
          n := n + 1;
          continue;
        }
        KeysSnoc(kept, c);
        kept := kept + [c];
        seen := seen + {key};
        n := n + 1;
      }
      assert clips[..n] == clips;
      PopulatedProperties(clips, tl);
      allClips := kept;
    }

    /** on_replace_single on the clip at position `selected`: the stripped
        search term is required; Contains always writes, the other modes
        only when the clip's shown text passes. The list is not rebuilt. */
    method ReplaceSingle(selected: Option<nat>, rawSearch: string, replace: string, mode: SearchMode, matchCase: bool)
      returns (status: string)
      requires Valid()
      requires selected.Some? ==> selected.value < |allClips|
      modifies this
      ensures Valid() && history == old(history)
      ensures Strip(rawSearch) == [] ==> allClips == old(allClips) && status == EnterSearchText
      ensures Strip(rawSearch) != [] && selected.None? ==> allClips == old(allClips) && status == NoClipSelected
      ensures Strip(rawSearch) != [] && selected.Some? ==>
                var i := selected.value;
                var r := RewriteSingle(ops, mode, matchCase, Strip(rawSearch), replace, EffectiveText(old(allClips)[i]));
                && (r.None? ==> allClips == old(allClips) && status == NoMatchMessage(mode))
                && (r.Some? ==> allClips == old(allClips)[i := old(allClips)[i].(editedText := r)]
                                && status == "✓ Replaced in 1 clip")
    {
      var search := Strip(rawSearch);
      if search == [] {
        return EnterSearchText;
      }
      if selected.None? {
        return NoClipSelected;
      }
      var i := selected.value;
      var c := allClips[i];
      var r := RewriteSingle(ops, mode, matchCase, search, replace, EffectiveText(c));
      if r.None? {
        return NoMatchMessage(mode);
      }
      var edited := allClips[i := c.(editedText := r)];
      RepopulateAfterTextEdits(allClips, edited, tl);
      allClips := edited;
      status := "✓ Replaced in 1 clip";
    }

    /** on_replace_all: over the listed clips (`targets`, the positions of
        the filtered list) or, with none listed, over all clips, rewrite
        each passing clip of the selected type, rebuild the list and log
        one history entry. */
    method ReplaceAll(targets: seq<nat>, rawSearch: string, replace: string, mode: SearchMode,
                      matchCase: bool, typeFilter: string, confirmed: bool, timestamp: string)
      returns (count: nat)
      requires Valid()
      requires forall k :: 0 <= k < |targets| ==> targets[k] < |allClips|
      requires Distinct(targets)
      modifies this
      ensures Valid()
      ensures Strip(rawSearch) == [] || !confirmed ==> allClips == old(allClips) && history == old(history) && count == 0
      ensures Strip(rawSearch) != [] && confirmed ==>
                var q := Query(Strip(rawSearch), replace, mode, matchCase, typeFilter);
                var order := if targets != [] then targets else Positions(|old(allClips)|);
                && allClips == ReplaceFold(ops, q, old(allClips), order).0
                && count == ReplaceFold(ops, q, old(allClips), order).1
                && history == old(history) + [HistoryEntry(timestamp, rawSearch, replace, IntStr(count) + " replaced",
                                                           ModeName(mode), matchCase)]
    {
      var search := Strip(rawSearch);
      if search == [] || !confirmed {
        return 0;
      }
      var q := Query(search, replace, mode, matchCase, typeFilter);
      var order := if targets != [] then targets else Positions(|allClips|);
      var clips;
      clips, count := RunReplace(ops, q, allClips, order);
      ReplaceFoldEffect(ops, q, allClips, order);
      var before := allClips;
      RepopulateAfterTextEdits(before, clips, tl);
      Populate(clips);
      history := history + [HistoryEntry(timestamp, rawSearch, replace, IntStr(count) + " replaced", ModeName(mode), matchCase)];
    }

    /** on_clean_punctuation: refused without subtitles, or with no marks
        and no case mode; otherwise every subtitle whose cleaned text
        differs takes it, and the changed ones are counted. */
    method CleanPunctuation(accepted: bool, marks: seq<char>, mode: CaseMode) returns (count: nat)
      requires Valid()
      modifies this
      ensures Valid() && history == old(history)
      ensures !HasSubtitle(old(allClips)) || !accepted || (marks == [] && mode == NoChange) ==>
                allClips == old(allClips) && count == 0
      ensures HasSubtitle(old(allClips)) && accepted && (marks != [] || mode != NoChange) ==>
                allClips == CleanAll(ops, marks, mode, old(allClips)) && count == ChangedCount(ops, marks, mode, old(allClips))
    {
      if !HasSubtitle(allClips) || !accepted || (marks == [] && mode == NoChange) {
        return 0;
      }
      var clips;
      clips, count := RunCleanup(ops, marks, mode, allClips);
      CleanAllEffect(ops, marks, mode, allClips);
      RepopulateAfterTextEdits(allClips, clips, tl);
      Populate(clips);
    }

    /** split_subtitle on the clip at position `current`: the clip is
        replaced by its two halves at the end of the list, and the list is
        rebuilt. */
    method Split(current: Option<nat>, accepted: bool, splitPos: string) returns (status: string)
      requires Valid()
      requires current.Some? ==> current.value < |allClips|
      modifies this
      ensures Valid() && history == old(history)
      ensures current.None? ==> allClips == old(allClips) && status == NoSubtitleSelected
      ensures current.Some? && old(allClips)[current.value].kind != Subtitle ==>
                allClips == old(allClips) && status == OnlySubtitlesSplit
      ensures current.Some? && old(allClips)[current.value].kind == Subtitle && !accepted ==>
                allClips == old(allClips) && status == SplitCanceled
      ensures current.Some? && old(allClips)[current.value].kind == Subtitle && accepted ==>
                var i := current.value;
                var r := SplitClip(ops, old(allClips)[i], splitPos);
                && (r.Err? ==> allClips == old(allClips) && status == r.error)
                && (r.Ok? ==> allClips == Populated(old(allClips)[..i] + old(allClips)[i + 1..] + [r.value.first, r.value.second], tl)
                              && status == "Subtitle split into two parts at frame " + IntStr(r.value.first.endFrame))
    {
      if current.None? {
        return NoSubtitleSelected;
      }
      var i := current.value;
      var c := allClips[i];
      if c.kind != Subtitle {
        return OnlySubtitlesSplit;
      }
      if !accepted {
        return SplitCanceled;
      }
      var r := SplitClip(ops, c, splitPos);
      if r.Err? {
        return r.error;
      }
      ReplaceByHalves(i, r.value);
      status := "Subtitle split into two parts at frame " + IntStr(r.value.first.endFrame);
    }

    /** The clip at i leaves the list, the halves are appended, and the
        list is rebuilt. */
    method ReplaceByHalves(i: nat, h: Halves)
      requires Valid() && i < |allClips|
      modifies this
      ensures Valid() && history == old(history)
      ensures allClips == Populated(old(allClips)[..i] + old(allClips)[i + 1..] + [h.first, h.second], tl)
    {
      RemoveAt(allClips, i);
      var rest := RemoveFirst(allClips, allClips[i]);
      Populate(rest + [h.first, h.second]);
    }

    /** merge_subtitles on the clips at the distinct positions `selected`:
        they are removed, in start order, and the merged clip is appended;
        the list is then rebuilt. */
    method Merge(selected: seq<nat>) returns (status: string)
      requires Valid()
      requires forall k :: 0 <= k < |selected| ==> selected[k] < |allClips|
      requires Distinct(selected)
      modifies this
      ensures Valid() && history == old(history)
      ensures multiset(SortByStart(Picked(old(allClips), selected))) <= multiset(old(allClips))
      ensures MergeClips(Picked(old(allClips), selected), tl.fps).Err? ==>
                allClips == old(allClips) && status == MergeClips(Picked(old(allClips), selected), tl.fps).error
      ensures MergeClips(Picked(old(allClips), selected), tl.fps).Ok? ==>
                && allClips == Populated(RemoveEach(old(allClips), SortByStart(Picked(old(allClips), selected)))
                                         + [MergeClips(Picked(old(allClips), selected), tl.fps).value], tl)
                && status == "Merged " + IntStr(|selected|) + " subtitles into one"
    {
      var clips := Picked(allClips, selected);
      PickedWithin(allClips, selected);
      SortByStartSpec(clips);
      var r := MergeClips(clips, tl.fps);
      if r.Err? {
        return r.error;
      }
      Populate(RemoveEach(allClips, SortByStart(clips)) + [r.value]);
      status := "Merged " + IntStr(|selected|) + " subtitles into one";
    }

    /** _do_import without the timeline update: refused without imported
        rows, without a type filter, or when nothing matches; otherwise
        every match sets its clip's shown text and the list is rebuilt. */
    method DoImport(data: Csv.ImportData, filters: set<string>) returns (ok: bool)
      requires Valid() && Csv.Wf(data)
      modifies this
      ensures Valid() && history == old(history)
      ensures forall k :: 0 <= k < |Csv.Matched(data.order, data.entries, filters, old(allClips))| ==>
                Csv.Matched(data.order, data.entries, filters, old(allClips))[k].index < |old(allClips)|
      ensures ok <==> data.entries != map[] && filters != {} && Csv.Matched(data.order, data.entries, filters, old(allClips)) != []
      ensures !ok ==> allClips == old(allClips)
      ensures ok ==> allClips == ApplyMatches(old(allClips), Csv.Matched(data.order, data.entries, filters, old(allClips)))
    {
      Csv.MatchSound(data.order, data.entries, filters, allClips);
      Csv.MatchIndicesDistinct(data.order, data.entries, filters, allClips);
      var ms0 := Csv.Matched(data.order, data.entries, filters, allClips);
      assert forall k :: 0 <= k < |ms0| ==> ms0[k] in ms0;
      if data.entries == map[] || filters == {} {
        return false;
      }
      var matched, notFound := Csv.MatchImport(data, filters, allClips);
      if matched == [] {
        return false;
      }
      var clips := RunMatches(allClips, matched);
      ApplyMatchesEffect(allClips, matched);
      RepopulateAfterTextEdits(allClips, clips, tl);
      Populate(clips);
      ok := true;
    }
  }
}
