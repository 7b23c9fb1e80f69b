/** The text transforms of the editor: the search filter of the clip list,
    the four search-and-replace modes, punctuation cleanup and the case
    modes. Python's Unicode case mappings and the case-insensitive regular
    expression search and substitution are parameters (`TextOps`). */
module Transforms {
  import opened Numbers
  import opened Strings
  import opened Clips

  datatype SearchMode = Contains | Exact | StartsWith | EndsWith

  /** str.lower, str.upper, str.title, and the compiled case-insensitive
      pattern of an escaped search term: its search (does the term occur,
      ignoring case) and its sub (replace every such occurrence, with the
      replacement read as a template). */
  datatype TextOps = TextOps(
    lower: string -> string,
    upper: string -> string,
    title: string -> string,
    iSearch: (string, string) -> bool,
    iSub: (string, string, string) -> string)

  // ---------------------------------------------------------------------------
  // The list filter

  /** The type filter: "All", or the clip's own type string. */
  predicate TypeMatch(typeFilter: string, c: Clip) {
    typeFilter == "All" || KindName(c.kind) == typeFilter
  }

  predicate ModeMatch(mode: SearchMode, needle: string, hay: string) {
    match mode
    case Contains => Occurs(needle, hay)
    case Exact => hay == needle
    case StartsWith => IsPrefix(needle, hay)
    case EndsWith => IsSuffix(needle, hay)
  }

  /** filter_tree's test of one clip: its type passes the type filter, and
      its lowered shown text meets the lowered search term in the search
      mode; no search term lets every clip of the type through. */
  predicate Visible(ops: TextOps, typeFilter: string, mode: SearchMode, search: string, c: Clip) {
    var needle := if search == [] then [] else ops.lower(search);
    TypeMatch(typeFilter, c) && (needle == [] || ModeMatch(mode, needle, ops.lower(EffectiveText(c))))
  }

  /** The positions filter_tree keeps, in list order. */
  function Filtered(ops: TextOps, typeFilter: string, mode: SearchMode, search: string, clips: seq<Clip>): (r: seq<nat>)
    ensures forall k :: 0 <= k < |r| ==> r[k] < |clips| && Visible(ops, typeFilter, mode, search, clips[r[k]])
    ensures forall i :: 0 <= i < |clips| && Visible(ops, typeFilter, mode, search, clips[i]) ==> i in r
    ensures forall k, m :: 0 <= k < m < |r| ==> r[k] < r[m]
    decreases |clips|
  {
    if clips == [] then []
    else
      var n := |clips| - 1;
      var init := clips[..n];
      var r := Filtered(ops, typeFilter, mode, search, init);
      assert forall k :: 0 <= k < |r| ==> clips[r[k]] == init[r[k]];
      assert forall i :: 0 <= i < n ==> clips[i] == init[i];
      r + (if Visible(ops, typeFilter, mode, search, clips[n]) then [n] else [])
  }

  /** The list filter_tree leaves behind. The start of each visible clip is
      shown as a timecode at the timeline rate; for a rate that rounds below
      1 the conversion raises at the first visible clip, before any clip is
      listed, so the list stays empty. */
  function FilterTree(ops: TextOps, typeFilter: string, mode: SearchMode, search: string, clips: seq<Clip>,
                      timelineFps: real): (r: seq<nat>)
    ensures r == [] <==> Round(timelineFps) < 1 || forall i :: 0 <= i < |clips| ==> !Visible(ops, typeFilter, mode, search, clips[i])
    ensures r != [] ==> r == Filtered(ops, typeFilter, mode, search, clips)
  {
    if Round(timelineFps) < 1 then []
    else
      var f := Filtered(ops, typeFilter, mode, search, clips);
      assert f != [] ==> f[0] < |clips| && Visible(ops, typeFilter, mode, search, clips[f[0]]);
      f
  }

  /** An exact match is also a prefix, a suffix and an occurrence, and a
      prefix or a suffix is an occurrence: the modes are nested. */
  lemma ModesNested(needle: string, hay: string)
    ensures ModeMatch(Exact, needle, hay) ==> ModeMatch(StartsWith, needle, hay) && ModeMatch(EndsWith, needle, hay)
    ensures ModeMatch(StartsWith, needle, hay) ==> ModeMatch(Contains, needle, hay)
    ensures ModeMatch(EndsWith, needle, hay) ==> ModeMatch(Contains, needle, hay)
  {
    if IsPrefix(needle, hay) {
      assert OccursAt(needle, hay, 0);
    }
    if IsSuffix(needle, hay) {
      assert OccursAt(needle, hay, |hay| - |needle|);
    }
  }

  /** With no search term the filter is the type filter alone. */
  lemma EmptySearchFiltersByType(ops: TextOps, typeFilter: string, mode: SearchMode, c: Clip)
    ensures Visible(ops, typeFilter, mode, [], c) <==> TypeMatch(typeFilter, c)
    ensures Visible(ops, "All", mode, [], c)
  {
  }

  // ---------------------------------------------------------------------------
  // Search and replace

  /** text[:-n] for n >= 1: Python clamps the end at 0. */
  function DropLast(s: string, n: nat): (r: string)
    ensures n <= |s| ==> r == s[..|s| - n]
    ensures n > |s| ==> r == []
  {
    if n <= |s| then s[..|s| - n] else []
  }

  /** The test a mode makes of the current text before it rewrites it. */
  predicate Passes(ops: TextOps, mode: SearchMode, matchCase: bool, search: string, text: string) {
    match mode
    case Contains => if matchCase then Occurs(search, text) else ops.iSearch(search, text)
    case Exact => if matchCase then text == search else ops.lower(text) == ops.lower(search)
    case StartsWith => if matchCase then IsPrefix(search, text) else IsPrefix(ops.lower(search), ops.lower(text))
    case EndsWith => if matchCase then IsSuffix(search, text) else IsSuffix(ops.lower(search), ops.lower(text))
  }

  /** The text a mode writes. */
  function NewText(ops: TextOps, mode: SearchMode, matchCase: bool, search: string, replace: string, text: string): string
    requires search != []
  {
    match mode
    case Contains => if matchCase then ReplaceAll(text, search, replace) else ops.iSub(search, replace, text)
    case Exact => replace
    case StartsWith => replace + From(text, |search|)
    case EndsWith => DropLast(text, |search|) + replace
  }

  /** on_replace_all's rewrite of one text: None where the mode's test fails. */
  function RewriteAll(ops: TextOps, mode: SearchMode, matchCase: bool, search: string, replace: string, text: string)
    : Option<string>
    requires search != []
  {
    if Passes(ops, mode, matchCase, search, text) then Some(NewText(ops, mode, matchCase, search, replace, text)) else None
  }

  /** on_replace_single's rewrite: like replace-all, except that Contains
      writes its result without testing first. */
  function RewriteSingle(ops: TextOps, mode: SearchMode, matchCase: bool, search: string, replace: string, text: string)
    : Option<string>
    requires search != []
  {
    if mode == Contains || Passes(ops, mode, matchCase, search, text) then Some(NewText(ops, mode, matchCase, search, replace, text))
    else None
  }

  /** Exact, matching case, replaces a text equal to the term by the
      replacement, and undoing it restores the text. */
  lemma ExactRewrite(ops: TextOps, search: string, replace: string, text: string)
    requires search != []
    ensures RewriteAll(ops, Exact, true, search, replace, text) == if text == search then Some(replace) else None
    ensures replace != [] && text == search ==> RewriteAll(ops, Exact, true, replace, search, replace) == Some(text)
  {
  }

  /** Starts With, matching case, fires exactly on texts that start with
      the term, puts the replacement in its place, and swapping term and
      replacement undoes it. */
  lemma StartsWithRewrite(ops: TextOps, search: string, replace: string, text: string)
    requires search != []
    ensures RewriteAll(ops, StartsWith, true, search, replace, text).Some? <==> IsPrefix(search, text)
    ensures IsPrefix(search, text) ==>
              && RewriteAll(ops, StartsWith, true, search, replace, text) == Some(replace + text[|search|..])
              && IsPrefix(replace, replace + text[|search|..])
              && (replace != [] ==> RewriteAll(ops, StartsWith, true, replace, search, replace + text[|search|..]) == Some(text))
  {
    if IsPrefix(search, text) {
      var u := replace + text[|search|..];
      assert u[..|replace|] == replace;
      assert u[|replace|..] == text[|search|..];
      assert search + text[|search|..] == text;
    }
  }

  /** Ends With, matching case, fires exactly on texts that end with the
      term, puts the replacement in its place, and swapping term and
      replacement undoes it. */
  lemma EndsWithRewrite(ops: TextOps, search: string, replace: string, text: string)
    requires search != []
    ensures RewriteAll(ops, EndsWith, true, search, replace, text).Some? <==> IsSuffix(search, text)
    ensures IsSuffix(search, text) ==>
              && RewriteAll(ops, EndsWith, true, search, replace, text) == Some(text[..|text| - |search|] + replace)
              && IsSuffix(replace, text[..|text| - |search|] + replace)
              && (replace != [] ==>
                    RewriteAll(ops, EndsWith, true, replace, search, text[..|text| - |search|] + replace) == Some(text))
  {
    if IsSuffix(search, text) {
      var head := text[..|text| - |search|];
      var u := head + replace;
      assert u[|u| - |replace|..] == replace;
      assert u[..|u| - |replace|] == head;
      assert head + search == text;
    }
  }

  /** Contains, matching case, fires exactly on texts where the term
      occurs and writes str.replace's result; replacing a term by itself
      leaves the text as it was. */
  lemma ContainsRewrite(ops: TextOps, search: string, replace: string, text: string)
    requires search != []
    ensures RewriteAll(ops, Contains, true, search, replace, text).Some? <==> Occurs(search, text)
    ensures Occurs(search, text) ==> RewriteAll(ops, Contains, true, search, replace, text) == Some(ReplaceAll(text, search, replace))
    ensures Occurs(search, text) ==> RewriteAll(ops, Contains, true, search, search, text) == Some(text)
  {
    ReplaceAllSelf(text, search);
  }

  /** A single replace writes what replace-all writes wherever replace-all
      fires; where it does not, a single replace either returns without a
      change or, in Contains mode matching case, writes the text unchanged. */
  lemma SingleAgreesWithAll(ops: TextOps, mode: SearchMode, matchCase: bool, search: string, replace: string, text: string)
    requires search != []
    ensures RewriteAll(ops, mode, matchCase, search, replace, text).Some? ==>
              RewriteSingle(ops, mode, matchCase, search, replace, text) == RewriteAll(ops, mode, matchCase, search, replace, text)
    ensures mode != Contains ==>
              RewriteSingle(ops, mode, matchCase, search, replace, text) == RewriteAll(ops, mode, matchCase, search, replace, text)
    ensures mode == Contains && matchCase && !Occurs(search, text) ==>
              RewriteSingle(ops, mode, matchCase, search, replace, text) == Some(text)
  {
    if mode == Contains && matchCase && !Occurs(search, text) {
      ReplaceAllAbsent(text, search, replace);
    }
  }

  // ---------------------------------------------------------------------------
  // Punctuation cleanup

  /** re.sub over the character class of the selected marks, with "". */
  function RemoveMarks(s: string, marks: seq<char>): (r: string)
    ensures |r| <= |s|
    ensures forall k :: 0 <= k < |r| ==> r[k] !in marks && r[k] in s
    decreases |s|
  {
    if s == [] then []
    else
      var rest := RemoveMarks(s[1..], marks);
      assert forall k :: 0 <= k < |rest| ==> rest[k] in s;
      if s[0] in marks then rest else [s[0]] + rest
  }

  /** Characters outside the marks are all kept, in order: removal
      distributes over concatenation, and a text without marks is kept. */
  lemma {:induction false} RemoveMarksConcat(a: string, b: string, marks: seq<char>)
    ensures RemoveMarks(a + b, marks) == RemoveMarks(a, marks) + RemoveMarks(b, marks)
    decreases |a|
  {
    if a != [] {
      RemoveMarksConcat(a[1..], b, marks);
      assert (a + b)[1..] == a[1..] + b;
    } else {
      assert a + b == b;
    }
  }

  lemma {:induction false} RemoveMarksKeeps(s: string, marks: seq<char>)
    requires forall k :: 0 <= k < |s| ==> s[k] !in marks
    ensures RemoveMarks(s, marks) == s
    decreases |s|
  {
    if s != [] {
      RemoveMarksKeeps(s[1..], marks);
      assert s == [s[0]] + s[1..];
    }
  }

  /** clean_punctuation: the marks removed, then str.strip(). */
  function CleanPunctuation(text: string, marks: seq<char>): (r: string)
    ensures NoSpaceAtEnds(r)
    ensures forall k :: 0 <= k < |r| ==> r[k] !in marks
  {
    var removed := RemoveMarks(text, marks);
    var r := Strip(removed);
    assert forall k :: 0 <= k < |r| ==> r[k] in removed;
    r
  }

  /** Cleaning a cleaned text changes nothing. */
  lemma CleanPunctuationIdempotent(text: string, marks: seq<char>)
    ensures CleanPunctuation(CleanPunctuation(text, marks), marks) == CleanPunctuation(text, marks)
  {
    var r := CleanPunctuation(text, marks);
    RemoveMarksKeeps(r, marks);
  }

  // ---------------------------------------------------------------------------
  // Case modes

  /** The radio buttons of the cleanup dialog, ids 0 to 4. */
  datatype CaseMode = NoChange | Upper | Lower | Title | Sentence

  predicate IsCaseLetter(c: char) {
    ('a' <= c <= 'z') || ('A' <= c <= 'Z') || ('\U{0430}' <= c <= '\U{044F}') || ('\U{0410}' <= c <= '\U{042F}')
  }

  predicate IsStop(c: char) { c == '.' || c == '!' || c == '?' }

  /** str.upper() on a character the sentence pattern can match: a-z and
      the Cyrillic а-я move up by 32, everything else the pattern matches
      (A-Z, А-Я, the three stops, whitespace) has no upper-case mapping. */
  function UpperChar(c: char): (d: char)
    ensures IsCaseLetter(c) ==> IsCaseLetter(d)
    ensures IsStop(c) || IsSpace(c) || ('A' <= c <= 'Z') || ('\U{0410}' <= c <= '\U{042F}') ==> d == c
  {
    if ('a' <= c <= 'z') || ('\U{0430}' <= c <= '\U{044F}') then (c as int - 32) as char else c
  }

  function UpperAll(s: string): (r: string)
    ensures |r| == |s| && forall k :: 0 <= k < |s| ==> r[k] == UpperChar(s[k])
  {
    seq(|s|, k requires 0 <= k < |s| => UpperChar(s[k]))
  }

  /** The length of the whitespace run at position i. */
  function SpaceRun(s: string, i: nat): (n: nat)
    requires i <= |s|
    ensures i + n <= |s|
    ensures forall k :: i <= k < i + n ==> IsSpace(s[k])
    ensures i + n < |s| ==> !IsSpace(s[i + n])
    decreases |s| - i
  {
    if i == |s| || !IsSpace(s[i]) then 0 else 1 + SpaceRun(s, i + 1)
  }

  /** Where a match of the sentence pattern starting at p ends (exclusive):
      `^` and a letter at the very start, or a stop, the whole whitespace
      run after it (a shorter run leaves a whitespace character where the
      letter must be), and a letter. */
  function MatchEnd(s: string, p: nat): (r: Option<nat>)
    requires p < |s|
    ensures r.Some? ==> p < r.value <= |s|
  {
    if p == 0 && IsCaseLetter(s[0]) then Some(1)
    else if IsStop(s[p]) then
      var n := SpaceRun(s, p + 1);
      if n >= 1 && p + 1 + n < |s| && IsCaseLetter(s[p + 1 + n]) then Some(p + n + 2) else None
    else None
  }

  /** re.sub scanning from position p: each match upper-cased, the scan
      resuming after it; elsewhere one character is copied. */
  function SubFrom(s: string, p: nat): string
    requires p <= |s|
    decreases |s| - p
  {
    if p == |s| then []
    else
      match MatchEnd(s, p)
      case Some(q) => UpperAll(s[p..q]) + SubFrom(s, q)
      case None => [s[p]] + SubFrom(s, p + 1)
  }

  /** sentence_case: strip, then upper-case each match of the pattern. */
  function SentenceCase(s: string): string {
    var t := Strip(s);
    if t == [] then t else SubFrom(t, 0)
  }

  /** ApplyCase of a cleanup mode to a text. */
  function ApplyCase(ops: TextOps, mode: CaseMode, s: string): string {
    match mode
    case NoChange => s
    case Upper => ops.upper(s)
    case Lower => ops.lower(s)
    case Title => ops.title(s)
    case Sentence => SentenceCase(s)
  }

  /** What on_clean_punctuation makes of a subtitle's shown text. */
  function Cleaned(ops: TextOps, marks: seq<char>, mode: CaseMode, text: string): string {
    ApplyCase(ops, mode, if marks != [] then CleanPunctuation(text, marks) else text)
  }

  /** A stop at q followed, up to j, by at least one whitespace character
      and nothing else. */
  predicate Opens(s: string, q: int, j: int) {
    0 <= q && q + 1 < j <= |s| && IsStop(s[q]) && forall k :: q < k < j ==> IsSpace(s[k])
  }

  /** A letter that begins a sentence: at the very start, or after a stop
      and at least one whitespace character. */
  predicate StartsSentence(s: string, j: int) {
    0 <= j < |s| && IsCaseLetter(s[j]) && (j == 0 || exists q | 0 <= q < j :: Opens(s, q, j))
  }

  /** What the sentence case makes of position j. */
  function SentenceChar(s: string, j: int): char
    requires 0 <= j < |s|
  {
    if StartsSentence(s, j) then UpperChar(s[j]) else s[j]
  }

  /** No sentence start at or after p hangs on a stop before p. */
  predicate Fresh(s: string, p: int) {
    forall q, j :: 0 <= q < p <= j < |s| && Opens(s, q, j) ==> !IsCaseLetter(s[j])
  }

  /** out is what the sentence case makes of s from position p on. */
  predicate AgreesFrom(s: string, p: nat, out: string)
    requires p <= |s|
  {
    |out| == |s| - p && forall k :: 0 <= k < |s| - p ==> out[k] == SentenceChar(s, p + k)
  }

  lemma {:induction false} SubFromChars(s: string, p: nat)
    requires p <= |s| && Fresh(s, p)
    ensures AgreesFrom(s, p, SubFrom(s, p))
    decreases |s| - p
  {
    if p < |s| {
      match MatchEnd(s, p)
      case Some(q) =>
        MatchFresh(s, p, q);
        SubFromChars(s, q);
        MatchChars(s, p, q);
        AgreesAfterMatch(s, p, q, SubFrom(s, q));
      case None =>
        NoMatchFresh(s, p);
        SubFromChars(s, p + 1);
        AgreesAfterCopy(s, p, SubFrom(s, p + 1));
    }
  }

  lemma AgreesAfterMatch(s: string, p: nat, q: nat, rest: string)
    requires p < q <= |s| && AgreesFrom(s, q, rest)
    requires forall j :: p <= j < q ==> UpperChar(s[j]) == SentenceChar(s, j)
    ensures AgreesFrom(s, p, UpperAll(s[p..q]) + rest)
  {
    var r := UpperAll(s[p..q]) + rest;
    forall k | 0 <= k < |s| - p ensures r[k] == SentenceChar(s, p + k) {
      if k >= q - p { assert r[k] == rest[k - (q - p)]; }
    }
  }

  lemma AgreesAfterCopy(s: string, p: nat, rest: string)
    requires p < |s| && !StartsSentence(s, p) && AgreesFrom(s, p + 1, rest)
    ensures AgreesFrom(s, p, [s[p]] + rest)
  {
    var r := [s[p]] + rest;
    forall k | 0 <= k < |s| - p ensures r[k] == SentenceChar(s, p + k) {
      if k >= 1 { assert r[k] == rest[k - 1]; }
    }
  }

  /** Inside a match, only its final letter starts a sentence. */
  lemma MatchChars(s: string, p: nat, q: nat)
    requires p < |s| && MatchEnd(s, p) == Some(q)
    ensures forall j :: p <= j < q ==> UpperChar(s[j]) == SentenceChar(s, j)
  {
    if !(p == 0 && IsCaseLetter(s[0])) {
      var n := SpaceRun(s, p + 1);
      assert q == p + n + 2;
      assert Opens(s, p, q - 1);
    }
  }

  /** After a match the scan is fresh: the letter that ends it breaks
      every whitespace run across it. */
  lemma MatchFresh(s: string, p: nat, q: nat)
    requires p < |s| && MatchEnd(s, p) == Some(q)
    ensures Fresh(s, q)
  {
    assert IsCaseLetter(s[q - 1]) && !IsSpace(s[q - 1]) && !IsStop(s[q - 1]);
    forall q', j | 0 <= q' < q <= j < |s| ensures !Opens(s, q', j) {
      if q' < q - 1 {
        assert q' < q - 1 < j;
      }
    }
  }

  /** Where no match starts, the character is copied, and the scan moves on
      fresh. */
  lemma NoMatchFresh(s: string, p: nat)
    requires p < |s| && Fresh(s, p) && MatchEnd(s, p).None?
    ensures !StartsSentence(s, p)
    ensures Fresh(s, p + 1)
  {
    forall q', j | 0 <= q' < p + 1 <= j < |s| && Opens(s, q', j) ensures !IsCaseLetter(s[j]) {
      if q' == p {
        var n := SpaceRun(s, p + 1);
        assert forall k :: p < k < j ==> IsSpace(s[k]);
        assert p + 1 + n >= j;
      }
    }
  }

  /** sentence_case keeps the stripped text's length and upper-cases
      exactly the letters that begin a sentence, leaving every other
      character as it is. */
  lemma SentenceCaseChars(s: string)
    ensures |SentenceCase(s)| == |Strip(s)|
    ensures forall j :: 0 <= j < |Strip(s)| ==> SentenceCase(s)[j] == SentenceChar(Strip(s), j)
  {
    if Strip(s) != [] {
      SubFromChars(Strip(s), 0);
      assert AgreesFrom(Strip(s), 0, SentenceCase(s));
    }
  }
}
