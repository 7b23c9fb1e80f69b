/** Python string primitives the editor relies on: whitespace, strip, decimal
    conversion (str(int), zfill, int()), str.replace, str.split, " ".join and
    line splitting. Strings are sequences of Unicode scalar values. */
module Strings {

  datatype Option<T> = None | Some(value: T) {
    function GetOr(default: T): T {
      match this
      case Some(v) => v
      case None => default
    }
  }

  datatype Result<T, E> = Ok(value: T) | Err(error: E)

  /** The characters for which Python's str.isspace() holds; str.strip(),
      str.split() and the regular-expression class \s use the same set. */
  predicate IsSpace(c: char) {
    || ('\t' <= c <= '\r')
    || ('\U{1C}' <= c <= '\U{1F}')
    || c == ' ' || c == '\U{85}' || c == '\U{A0}' || c == '\U{1680}'
    || ('\U{2000}' <= c <= '\U{200A}')
    || c == '\U{2028}' || c == '\U{2029}' || c == '\U{202F}' || c == '\U{205F}' || c == '\U{3000}'
  }

  predicate AllSpace(s: string) {
    forall k :: 0 <= k < |s| ==> IsSpace(s[k])
  }

  predicate NoSpaceAtEnds(s: string) {
    s == [] || (!IsSpace(s[0]) && !IsSpace(s[|s| - 1]))
  }

  /** str.strip() with no argument. */
  function Strip(s: string): (r: string)
    ensures NoSpaceAtEnds(r)
    ensures |r| <= |s|
    ensures forall k :: 0 <= k < |r| ==> r[k] in s
    ensures r == [] <==> AllSpace(s)
    ensures NoSpaceAtEnds(s) ==> r == s
    decreases |s|
  {
    if s == [] then []
    else if IsSpace(s[0]) then
      var r := Strip(s[1..]);
      assert forall k :: 0 <= k < |r| ==> r[k] in s by {
        forall k | 0 <= k < |r| ensures r[k] in s { assert r[k] in s[1..]; }
      }
      assert AllSpace(s[1..]) ==> AllSpace(s) by {
        if AllSpace(s[1..]) {
          forall k | 0 <= k < |s| ensures IsSpace(s[k]) { if k > 0 { assert s[k] == s[1..][k - 1]; } }
        }
      }
      assert AllSpace(s) ==> AllSpace(s[1..]) by {
        if AllSpace(s) { forall k | 0 <= k < |s| - 1 ensures IsSpace(s[1..][k]) { assert s[1..][k] == s[k + 1]; } }
      }
      r
    else if IsSpace(s[|s| - 1]) then
      var p := s[..|s| - 1];
      var r := Strip(p);
      assert forall k :: 0 <= k < |r| ==> r[k] in s by {
        forall k | 0 <= k < |r| ensures r[k] in s { assert r[k] in p; }
      }
      assert !AllSpace(s) && !AllSpace(p) by { assert p[0] == s[0]; }
      r
    else s
  }

  lemma {:induction false} StripIdempotent(s: string)
    ensures Strip(Strip(s)) == Strip(s)
  {
  }

  // ---------------------------------------------------------------------------
  // Decimal conversion

  predicate IsDigit(c: char) { '0' <= c <= '9' }

  predicate AllDigits(s: string) {
    forall k :: 0 <= k < |s| ==> IsDigit(s[k])
  }

  function DigitChar(d: nat): (c: char)
    requires d < 10
    ensures IsDigit(c)
  {
    (48 + d) as char
  }

  function DigitValue(c: char): (d: nat)
    requires IsDigit(c)
    ensures d < 10
  {
    c as int - 48
  }

  /** str(n) for a non-negative integer. */
  function NatStr(n: nat): (r: string)
    ensures |r| >= 1 && AllDigits(r)
    ensures n < 10 <==> |r| == 1
    ensures n < 100 ==> |r| <= 2
    ensures n < 1000 ==> |r| <= 3
    decreases n
  {
    if n < 10 then [DigitChar(n)] else NatStr(n / 10) + [DigitChar(n % 10)]
  }

  /** str(i) for any integer. */
  function IntStr(i: int): (r: string)
    ensures |r| >= 1
    ensures forall k :: 0 <= k < |r| ==> IsDigit(r[k]) || r[k] == '-'
  {
    if i < 0 then "-" + NatStr(-i) else NatStr(i)
  }

  /** The value of a run of decimal digits, read left to right. */
  function DigitsValue(s: string): nat
    requires AllDigits(s)
    decreases |s|
  {
    if s == [] then 0 else DigitsValue(s[..|s| - 1]) * 10 + DigitValue(s[|s| - 1])
  }

  lemma {:induction false} NatStrValue(n: nat)
    ensures DigitsValue(NatStr(n)) == n
    decreases n
  {
    var r := NatStr(n);
    if n < 10 {
      assert r[..0] == [];
    } else {
      NatStrValue(n / 10);
      assert r[..|r| - 1] == NatStr(n / 10);
    }
  }

  lemma {:induction false} LeadingZerosValue(z: nat, s: string)
    requires AllDigits(s)
    ensures AllDigits(Zeros(z) + s) && DigitsValue(Zeros(z) + s) == DigitsValue(s)
    decreases |s|
  {
    var t := Zeros(z) + s;
    assert AllDigits(t) by {
      forall k | 0 <= k < |t| ensures IsDigit(t[k]) { if k < z { assert t[k] == Zeros(z)[k]; } else { assert t[k] == s[k - z]; } }
    }
    if s == [] {
      assert t == Zeros(z);
      ZerosValue(z);
    } else {
      LeadingZerosValue(z, s[..|s| - 1]);
      assert t[..|t| - 1] == Zeros(z) + s[..|s| - 1];
    }
  }

  function Zeros(z: nat): (r: string)
    ensures |r| == z && forall k :: 0 <= k < z ==> r[k] == '0'
  {
    if z == 0 then [] else "0" + Zeros(z - 1)
  }

  lemma {:induction false} ZerosValue(z: nat)
    ensures AllDigits(Zeros(z)) && DigitsValue(Zeros(z)) == 0
  {
    if z > 0 {
      ZerosValue(z - 1);
      assert Zeros(z)[..z - 1] == Zeros(z - 1);
    }
  }

  /** str(n).zfill(width), which for a non-negative n is also f"{n:0<width>d}". */
  function Padded(n: nat, width: nat): (r: string)
    ensures |r| == if |NatStr(n)| >= width then |NatStr(n)| else width
    ensures AllDigits(r)
  {
    var s := NatStr(n);
    var r := if |s| >= width then s else Zeros(width - |s|) + s;
    assert AllDigits(r) by { if |s| < width { LeadingZerosValue(width - |s|, s); } }
    r
  }

  lemma {:induction false} PaddedValue(n: nat, width: nat)
    ensures DigitsValue(Padded(n, width)) == n
  {
    var s := NatStr(n);
    var p := Padded(n, width);
    NatStrValue(n);
    if |s| < width {
      LeadingZerosValue(width - |s|, s);
      assert p == Zeros(width - |s|) + s;
      assert DigitsValue(p) == DigitsValue(s);
    } else {
      assert p == s;
    }
  }

  /** int(s) for a str argument: surrounding whitespace, an optional sign and
      at least one ASCII digit. */
  function PyInt(s: string): (r: Option<int>)
    ensures AllDigits(s) && s != [] ==> r == Some(DigitsValue(s))
  {
    SignedDigits(Strip(s))
  }

  /** An optional sign followed by at least one ASCII digit, nothing else. */
  function SignedDigits(t: string): Option<int> {
    var neg := t != [] && t[0] == '-';
    var body := if t != [] && (t[0] == '-' || t[0] == '+') then t[1..] else t;
    if body == [] || !AllDigits(body) then None
    else
      var v: int := DigitsValue(body);
      Some(if neg then -v else v)
  }

  lemma {:induction false} PyIntPadded(n: nat, width: nat)
    ensures PyInt(Padded(n, width)) == Some(n)
  {
    PaddedValue(n, width);
  }

  lemma PyIntUnpadded(t: string)
    requires NoSpaceAtEnds(t)
    ensures PyInt(t) == SignedDigits(t)
  {
  }

  lemma SignedDigitsNegative(n: nat)
    ensures SignedDigits("-" + NatStr(n)) == Some(-(n as int))
  {
    var d := NatStr(n);
    NatStrValue(n);
    assert ("-" + d)[1..] == d;
  }

  /** int() reads back a negative number's str(). */
  lemma PyIntNegative(n: nat)
    ensures PyInt("-" + NatStr(n)) == Some(-(n as int))
  {
    var d := NatStr(n);
    var t := "-" + d;
    assert t[0] == '-' && t[|t| - 1] == d[|d| - 1];
    PyIntUnpadded(t);
    SignedDigitsNegative(n);
  }

  lemma {:induction false} PyIntIntStr(i: int)
    ensures PyInt(IntStr(i)) == Some(i)
  {
    if i < 0 {
      PyIntNegative(-i);
    } else {
      NatStrValue(i);
    }
  }

  /** str(i) is injective. */
  lemma IntStrInjective(i: int, j: int)
    requires IntStr(i) == IntStr(j)
    ensures i == j
  {
    PyIntIntStr(i);
    PyIntIntStr(j);
  }

  // ---------------------------------------------------------------------------
  // Substrings and str.replace

  /** s[i:j] for non-negative bounds: Python clamps them to the length. */
  function Slice(s: string, i: nat, j: nat): (r: string)
    ensures i <= j <= |s| ==> r == s[i..j]
  {
    var a := if i <= |s| then i else |s|;
    var b := if j <= |s| then j else |s|;
    if a <= b then s[a..b] else []
  }

  /** s[i:] for a non-negative start. */
  function From(s: string, i: nat): (r: string)
    ensures i <= |s| ==> r == s[i..]
  {
    if i <= |s| then s[i..] else []
  }

  predicate IsPrefix(p: string, s: string) { |p| <= |s| && s[..|p|] == p }

  predicate IsSuffix(p: string, s: string) { |p| <= |s| && s[|s| - |p|..] == p }

  /** Python's `p in s` for strings. */
  predicate Occurs(p: string, s: string) {
    exists i | 0 <= i <= |s| - |p| :: OccursAt(p, s, i)
  }

  predicate OccursAt(p: string, s: string, i: int) {
    0 <= i <= |s| - |p| && s[i..i + |p|] == p
  }

  /** s.replace(pat, rep) for a non-empty pat: every non-overlapping occurrence,
      scanning from the left. */
  function ReplaceAll(s: string, pat: string, rep: string): string
    requires |pat| > 0
    decreases |s|
  {
    if |s| < |pat| then s
    else if s[..|pat|] == pat then rep + ReplaceAll(s[|pat|..], pat, rep)
    else [s[0]] + ReplaceAll(s[1..], pat, rep)
  }

  /** Without an occurrence of pat, replace changes nothing. */
  lemma {:induction false} ReplaceAllAbsent(s: string, pat: string, rep: string)
    requires |pat| > 0 && !Occurs(pat, s)
    ensures ReplaceAll(s, pat, rep) == s
    decreases |s|
  {
    if |s| >= |pat| {
      assert !OccursAt(pat, s, 0);
      assert !Occurs(pat, s[1..]) by {
        if Occurs(pat, s[1..]) {
          var t := s[1..];
          var i :| 0 <= i <= |t| - |pat| && OccursAt(pat, t, i);
          assert t[i..i + |pat|] == s[i + 1..i + 1 + |pat|];
          assert OccursAt(pat, s, i + 1);
        }
      }
      ReplaceAllAbsent(s[1..], pat, rep);
    }
  }

  /** Replacing a term by itself is the identity. */
  lemma {:induction false} ReplaceAllSelf(s: string, x: string)
    requires |x| > 0
    ensures ReplaceAll(s, x, x) == s
    decreases |s|
  {
    if |s| >= |x| {
      if s[..|x|] == x {
        ReplaceAllSelf(s[|x|..], x);
        assert s == s[..|x|] + s[|x|..];
      } else {
        ReplaceAllSelf(s[1..], x);
        assert s == [s[0]] + s[1..];
      }
    }
  }

  /** Occurrences of pat in a suffix of s are occurrences in s, shifted. */
  lemma OccursShift(pat: string, s: string, d: nat, i: nat)
    requires d <= |s|
    ensures OccursAt(pat, s[d..], i) <==> OccursAt(pat, s, i + d)
  {
    if 0 <= i <= |s| - d - |pat| {
      assert s[d..][i..i + |pat|] == s[i + d..i + d + |pat|];
    }
  }

  /** When no occurrence of pat straddles the end of a, replacing in a + b
      is replacing in a and in b: each occurrence is replaced where it lies. */
  lemma {:induction false} ReplaceAllConcat(a: string, b: string, pat: string, rep: string)
    requires |pat| > 0
    requires forall i :: |a| - |pat| < i < |a| ==> !OccursAt(pat, a + b, i)
    ensures ReplaceAll(a + b, pat, rep) == ReplaceAll(a, pat, rep) + ReplaceAll(b, pat, rep)
    decreases |a|
  {
    var s := a + b;
    if a == [] {
      assert s == b;
    } else {
      var d := if |a| >= |pat| && a[..|pat|] == pat then |pat| else 1;
      if |a| < |pat| && |s| >= |pat| {
        assert !OccursAt(pat, s, 0);
      }
      if |a| >= |pat| {
        assert s[..|pat|] == a[..|pat|];
      }
      assert s[d..] == a[d..] + b;
      forall i | |a| - d - |pat| < i < |a| - d
        ensures !OccursAt(pat, a[d..] + b, i)
      {
        if i >= 0 {
          OccursShift(pat, s, d, i);
        }
      }
      ReplaceAllConcat(a[d..], b, pat, rep);
      if |a| < |pat| {
        assert ReplaceAll(a[1..], pat, rep) == a[1..];
      }
    }
  }

  /** A replacement can join the text around it into a new occurrence of
      the term: removing "ab" from "aabb" leaves "ab", as str.replace does. */
  lemma ReplaceAllCanLeaveTerm()
    ensures ReplaceAll("aabb", "ab", "") == "ab"
    ensures OccursAt("ab", ReplaceAll("aabb", "ab", ""), 0)
  {
    assert "aabb"[..2] == "aa" && "aa"[1] != "ab"[1];
    assert "aabb"[1..] == "abb";
    assert "abb"[..2] == "ab";
    assert "abb"[2..] == "b";
  }

  /** A character-for-character substitution. */
  function MapChar(s: string, c: char, d: char): (r: string)
    ensures |r| == |s|
    ensures forall k :: 0 <= k < |s| ==> r[k] == if s[k] == c then d else s[k]
  {
    seq(|s|, k requires 0 <= k < |s| => if s[k] == c then d else s[k])
  }

  /** Replacing a one-character string is the same as mapping that character. */
  lemma {:induction false} ReplaceOneChar(s: string, c: char, d: char)
    ensures ReplaceAll(s, [c], [d]) == MapChar(s, c, d)
    decreases |s|
  {
    if s != [] {
      ReplaceOneChar(s[1..], c, d);
      assert MapChar(s, c, d) == [if s[0] == c then d else s[0]] + MapChar(s[1..], c, d);
    }
  }

  // ---------------------------------------------------------------------------
  // str.split(), " ".join and line splitting

  /** Number of leading characters that are not whitespace. */
  function WordLength(s: string): (n: nat)
    ensures n <= |s|
    ensures forall k :: 0 <= k < n ==> !IsSpace(s[k])
    ensures n < |s| ==> IsSpace(s[n])
    decreases |s|
  {
    if s == [] || IsSpace(s[0]) then 0 else 1 + WordLength(s[1..])
  }

  predicate IsWord(w: string) {
    w != [] && forall k :: 0 <= k < |w| ==> !IsSpace(w[k])
  }

  /** s.split(): the maximal runs of non-whitespace characters. */
  function Words(s: string): (ws: seq<string>)
    ensures forall i :: 0 <= i < |ws| ==> IsWord(ws[i])
    decreases |s|
  {
    if s == [] then []
    else if IsSpace(s[0]) then Words(s[1..])
    else
      var n := WordLength(s);
      [s[..n]] + Words(s[n..])
  }

  /** sep.join(ws). */
  function Join(ws: seq<string>, sep: string): string {
    if ws == [] then [] else if |ws| == 1 then ws[0] else ws[0] + sep + Join(ws[1..], sep)
  }

  lemma {:induction false} JoinSplitAt(ws: seq<string>, k: nat, sep: string)
    requires 0 < k < |ws|
    ensures Join(ws[..k], sep) + sep + Join(ws[k..], sep) == Join(ws, sep)
    decreases k
  {
    if k > 1 {
      JoinSplitAt(ws[1..], k - 1, sep);
      assert ws[1..][..k - 1] == ws[..k][1..];
      assert ws[1..][k - 1..] == ws[k..];
    } else {
      assert ws[..1] == [ws[0]];
      assert ws[1..] == ws[k..];
    }
  }

  lemma {:induction false} WordsPrefix(w: string, rest: string)
    requires IsWord(w) && (rest == [] || IsSpace(rest[0]))
    ensures Words(w + rest) == [w] + Words(rest)
  {
    var s := w + rest;
    assert s[0] == w[0];
    WordLengthOf(w, rest);
    assert s[..|w|] == w && s[|w|..] == rest;
  }

  lemma {:induction false} WordLengthOf(w: string, rest: string)
    requires IsWord(w) && (rest == [] || IsSpace(rest[0]))
    ensures WordLength(w + rest) == |w|
    decreases |w|
  {
    var s := w + rest;
    if |w| > 1 {
      WordLengthOf(w[1..], rest);
      assert s[1..] == w[1..] + rest;
    } else {
      assert s[1..] == rest;
    }
  }

  /** A word that ends inside x ends at the same place in any extension. */
  lemma {:induction false} WordLengthAppend(x: string, y: string)
    requires WordLength(x) < |x|
    ensures WordLength(x + y) == WordLength(x)
    decreases |x|
  {
    if !IsSpace(x[0]) {
      assert (x + y)[1..] == x[1..] + y;
      WordLengthAppend(x[1..], y);
    }
  }

  /** split() splits at every whitespace character: the words on either
      side of one are the words of each side. */
  lemma {:induction false} WordsConcat(a: string, sp: char, b: string)
    requires IsSpace(sp)
    ensures Words(a + [sp] + b) == Words(a) + Words(b)
    decreases |a|
  {
    var s := a + [sp] + b;
    assert Words([sp] + b) == Words(b) by { assert ([sp] + b)[1..] == b; }
    if a == [] {
      assert s == [sp] + b;
    } else if IsSpace(a[0]) {
      assert s[1..] == a[1..] + [sp] + b;
      WordsConcat(a[1..], sp, b);
    } else {
      var n := WordLength(a);
      if n == |a| {
        WordsPrefix(a, [sp] + b);
        WordsPrefix(a, []);
        assert s == a + ([sp] + b) && a + [] == a;
      } else {
        WordLengthAppend(a, [sp] + b);
        assert s == a + ([sp] + b);
        assert s[..n] == a[..n] && s[n..] == a[n..] + [sp] + b;
        WordsConcat(a[n..], sp, b);
      }
    }
  }

  /** Splitting a space-joined list of words gives the words back. */
  lemma {:induction false} WordsOfJoin(ws: seq<string>)
    requires forall i :: 0 <= i < |ws| ==> IsWord(ws[i])
    ensures Words(Join(ws, " ")) == ws
    decreases |ws|
  {
    if |ws| == 1 {
      WordsPrefix(ws[0], []);
      assert ws[0] + [] == ws[0];
    } else if |ws| > 1 {
      var rest := Join(ws[1..], " ");
      WordsOfJoin(ws[1..]);
      WordsPrefix(ws[0], " " + rest);
      assert ws[0] + " " + rest == ws[0] + (" " + rest);
      assert Words(" " + rest) == Words(rest) by { assert (" " + rest)[1..] == rest; }
    }
  }

  /** Characters at which str.splitlines() breaks a line. */
  predicate IsLineBreak(c: char) {
    c == '\n' || c == '\r' || c == '\U{0B}' || c == '\U{0C}' || c == '\U{1C}' || c == '\U{1D}'
    || c == '\U{1E}' || c == '\U{85}' || c == '\U{2028}' || c == '\U{2029}'
  }

  /** The pieces of s between line-break characters, every break counted
      separately (so "\r\n" yields an extra empty piece, and a trailing break a
      trailing empty piece). After the blank pieces are dropped this is the
      same list as str.splitlines() with the blank lines dropped. */
  function Pieces(s: string): (ls: seq<string>)
    ensures |ls| >= 1
    ensures forall i :: 0 <= i < |ls| ==> forall k :: 0 <= k < |ls[i]| ==> !IsLineBreak(ls[i][k])
    decreases |s|
  {
    if s == [] then [[]]
    else
      var rest := Pieces(s[1..]);
      if IsLineBreak(s[0]) then [[]] + rest
      else [[s[0]] + rest[0]] + rest[1..]
  }

  lemma {:induction false} PiecesWithoutBreaks(s: string)
    requires forall k :: 0 <= k < |s| ==> !IsLineBreak(s[k])
    ensures Pieces(s) == [s]
    decreases |s|
  {
    if s != [] {
      PiecesWithoutBreaks(s[1..]);
      assert [s[0]] + s[1..] == s;
    }
  }
}
