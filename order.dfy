/** Python's stable list.sort(key=lambda c: c["start_frame"]), used on the
    clips merged together and on the subtitles written to a subtitle file. */
module Order {
  import opened Clips

  predicate SortedByStart(cs: seq<Clip>) {
    forall i, j :: 0 <= i < j < |cs| ==> cs[i].startFrame <= cs[j].startFrame
  }

  /** The clips of cs that start at frame k, in their order in cs. */
  function StartingAt(cs: seq<Clip>, k: int): (r: seq<Clip>)
    ensures |r| <= |cs|
    decreases |cs|
  {
    if cs == [] then []
    else
      var last := cs[|cs| - 1];
      StartingAt(cs[..|cs| - 1], k) + (if last.startFrame == k then [last] else [])
  }

  /** Places c after the last clip of s that starts no later than c, so
      that clips with equal start keep their order. */
  function InsertByStart(s: seq<Clip>, c: Clip): (r: seq<Clip>)
    ensures |r| == |s| + 1
    decreases |s|
  {
    if s == [] || s[|s| - 1].startFrame <= c.startFrame then s + [c]
    else InsertByStart(s[..|s| - 1], c) + [s[|s| - 1]]
  }

  /** Insertion sort by start frame. */
  function SortByStart(cs: seq<Clip>): (r: seq<Clip>)
    ensures |r| == |cs|
    decreases |cs|
  {
    if cs == [] then [] else InsertByStart(SortByStart(cs[..|cs| - 1]), cs[|cs| - 1])
  }

  lemma {:induction false} InsertPermutes(s: seq<Clip>, c: Clip)
    ensures multiset(InsertByStart(s, c)) == multiset(s) + multiset{c}
    decreases |s|
  {
    if !(s == [] || s[|s| - 1].startFrame <= c.startFrame) {
      InsertPermutes(s[..|s| - 1], c);
      assert s == s[..|s| - 1] + [s[|s| - 1]];
    }
  }

  lemma {:induction false} InsertStable(s: seq<Clip>, c: Clip, k: int)
    ensures StartingAt(InsertByStart(s, c), k) == StartingAt(s, k) + (if c.startFrame == k then [c] else [])
    decreases |s|
  {
    var r := InsertByStart(s, c);
    if s == [] || s[|s| - 1].startFrame <= c.startFrame {
      assert r[..|r| - 1] == s;
    } else {
      var init := s[..|s| - 1];
      InsertStable(init, c, k);
      assert r[..|r| - 1] == InsertByStart(init, c);
    }
  }

  lemma {:induction false} InsertSorted(s: seq<Clip>, c: Clip)
    requires SortedByStart(s)
    ensures SortedByStart(InsertByStart(s, c))
    decreases |s|
  {
    if !(s == [] || s[|s| - 1].startFrame <= c.startFrame) {
      var init, last := s[..|s| - 1], s[|s| - 1];
      InsertSorted(init, c);
      InsertPermutes(init, c);
      var r0 := InsertByStart(init, c);
      forall i | 0 <= i < |r0| ensures r0[i].startFrame <= last.startFrame {
        assert r0[i] in multiset(init) + multiset{c};
        if r0[i] != c {
          var j :| 0 <= j < |init| && init[j] == r0[i];
          assert s[j] == init[j];
        }
      }
      var r := r0 + [last];
      assert r == InsertByStart(s, c);
      forall i, j | 0 <= i < j < |r| ensures r[i].startFrame <= r[j].startFrame {
        if j < |r0| { assert r[i] == r0[i] && r[j] == r0[j]; }
      }
    }
  }

  /** The sort orders by start frame, is a permutation, and is stable: the
      clips that share a start frame come out in their input order. */
  lemma {:induction false} SortByStartSpec(cs: seq<Clip>)
    ensures SortedByStart(SortByStart(cs))
    ensures multiset(SortByStart(cs)) == multiset(cs)
    ensures forall k :: StartingAt(SortByStart(cs), k) == StartingAt(cs, k)
    decreases |cs|
  {
    if cs != [] {
      var init, last := cs[..|cs| - 1], cs[|cs| - 1];
      SortByStartSpec(init);
      InsertSorted(SortByStart(init), last);
      InsertPermutes(SortByStart(init), last);
      forall k ensures StartingAt(SortByStart(cs), k) == StartingAt(cs, k) {
        InsertStable(SortByStart(init), last, k);
      }
      assert cs == init + [last];
    }
  }
}
