/** The SMPTE converter: frame counts to "HH:MM:SS:FF" timecodes and back,
    without and with drop-frame (Duncan/Heidelberger) counting. The frame rate
    is an exact rational (`real`), the form in which the host reports it
    (29.97, 23.976, 25). */
module Timecode {
  import opened Strings
  import opened Numbers

  datatype TcError =
    | NotAnInteger(field: string)        // int() of a field raised ValueError
    | RateMismatch(tc: string, fps: real) // 'SMPTE timecode to frame rate mismatch.'

  // ---------------------------------------------------------------------------
  // Constants of the drop-frame computation, as the code derives them from fps

  function DropFrames(fps: real): int { Round(fps * 0.066666) }
  function FramesPerHour(fps: real): int { Round(fps * 3600.0) }
  function FramesPer24Hours(fps: real): int { FramesPerHour(fps) * 24 }
  function FramesPer10Minutes(fps: real): int { Round(fps * 600.0) }
  function FramesPerMinute(fps: real): int { Round(fps) * 60 - DropFrames(fps) }

  /** The rates for which gettc divides by non-zero numbers only. */
  predicate RateSupported(fps: real, df: bool) {
    if df then fps >= 1.0 else Round(fps) >= 1
  }

  lemma DropFrameDivisorsPositive(fps: real)
    requires fps >= 1.0
    ensures Round(fps) >= 1 && DropFrames(fps) >= 0
    ensures FramesPer24Hours(fps) > 0 && FramesPer10Minutes(fps) > 0 && FramesPerMinute(fps) > 0
  {
  }

  // ---------------------------------------------------------------------------
  // gettc

  /** The non-drop-frame fields at timebase R, computed by successive
      subtraction as the code does. */
  function NdfFields(f: nat, R: int): (int, int, int, int)
    requires R >= 1
  {
    var frHour := R * 3600;
    var frMin := R * 60;
    var hr := f / frHour;
    var mn := (f - hr * frHour) / frMin;
    var sc := (f - hr * frHour - mn * frMin) / R;
    var fr := f - hr * frHour - mn * frMin - sc * R;
    (hr, mn, sc, fr)
  }

  /** The Duncan/Heidelberger correction on integers: frames within one day
      plus the frame numbers skipped before it (D per minute, except every
      tenth minute). */
  function DfAdjust(frames: int, D: int, F10: int, FPM: int): int
    requires F10 > 0 && FPM > 0
  {
    var d := frames / F10;
    var m := frames % F10;
    if m > D then frames + D * 9 * d + D * ((m - D) / FPM)
    else frames + D * 9 * d
  }

  /** The drop-frame counter value gettc formats, for a rate of at least 1. */
  function DfCorrected(f: nat, fps: real): int
    requires fps >= 1.0
  {
    DropFrameDivisorsPositive(fps);
    DfAdjust(f % FramesPer24Hours(fps), DropFrames(fps), FramesPer10Minutes(fps), FramesPerMinute(fps))
  }

  /** The drop-frame fields of counter value g at timebase R. */
  function DfFields(g: int, R: int): (int, int, int, int)
    requires R >= 1
  {
    (g / R / 60 / 60, (g / R / 60) % 60, (g / R) % 60, g % R)
  }

  /** str(n).zfill(2) for the integers gettc produces; a negative one, which
      the supported rates never produce, is written with its sign. */
  function Field(n: int): string {
    if n >= 0 then Padded(n, 2) else IntStr(n)
  }

  function FormatFields(fields: (int, int, int, int), drop: bool): string {
    Field(fields.0) + ":" + Field(fields.1) + ":" + Field(fields.2) + (if drop then ";" else ":") + Field(fields.3)
  }

  /** gettc(frames) with the converter's fps and df. */
  function TimecodeOf(frames: int, fps: real, df: bool): string
    requires RateSupported(fps, df)
  {
    var f: nat := if frames < 0 then -frames else frames;
    if df then FormatFields(DfFields(DfCorrected(f, fps), Round(fps)), true)
    else FormatFields(NdfFields(f, Round(fps)), false)
  }

  // ---------------------------------------------------------------------------
  // getframes

  /** getframes(tc) with the converter's fps and df. The frame field is read
      and checked first, then the fixed columns tc[:2], tc[3:5], tc[6:8]; the
      separators are never looked at. */
  function FramesOf(tc: string, fps: real, df: bool): Result<int, TcError> {
    var ffText := From(tc, 9);
    match PyInt(ffText)
    case None => Err(NotAnInteger(ffText))
    case Some(ff) =>
      if ff as real > fps then Err(RateMismatch(tc, fps))
      else
        match PyInt(Slice(tc, 0, 2))
        case None => Err(NotAnInteger(Slice(tc, 0, 2)))
        case Some(hours) =>
          match PyInt(Slice(tc, 3, 5))
          case None => Err(NotAnInteger(Slice(tc, 3, 5)))
          case Some(minutes) =>
            match PyInt(Slice(tc, 6, 8))
            case None => Err(NotAnInteger(Slice(tc, 6, 8)))
            case Some(seconds) =>
              if df then Ok(DfFrameCount(hours, minutes, seconds, ff, Round(fps), DropFrames(fps)))
              else Ok(NdfFrameCount(hours, minutes, seconds, ff, Round(fps)))
  }

  /** The non-drop-frame frame count of the four fields at timebase R. */
  function NdfFrameCount(hours: int, minutes: int, seconds: int, ff: int, R: int): int {
    var totalMinutes := 60 * hours + minutes;
    (totalMinutes * 60 + seconds) * R + ff
  }

  /** The drop-frame frame count: D frame numbers dropped per minute, except
      every tenth minute. */
  function DfFrameCount(hours: int, minutes: int, seconds: int, ff: int, R: int, D: int): int {
    var totalMinutes := 60 * hours + minutes;
    R * 60 * 60 * hours + R * 60 * minutes + R * seconds + ff - DroppedBefore(totalMinutes, D)
  }

  /** The frame numbers dropped before minute totalMinutes. */
  function DroppedBefore(totalMinutes: int, D: int): int {
    D * (totalMinutes - totalMinutes / 10)
  }

  // ---------------------------------------------------------------------------
  // The converter object

  /** SMPTE: the rate and the drop-frame flag are fields; the non-drop-frame
      branches of both conversions overwrite fps with round(fps). */
  class Smpte {
    var fps: real
    var df: bool

    constructor ()
      ensures fps == 24.0 && !df
    {
      fps := 24.0;
      df := false;
    }

    method GetTc(frames: int) returns (tc: string)
      requires RateSupported(fps, df)
      modifies this
      ensures df == old(df)
      ensures tc == TimecodeOf(frames, old(fps), old(df))
      ensures fps == if df then old(fps) else Round(old(fps)) as real
    {
      if !df {
        RoundIdempotent(fps);
        fps := Round(fps) as real;
      }
      tc := TimecodeOf(frames, fps, df);
    }

    method GetFrames(tc: string) returns (r: Result<int, TcError>)
      modifies this
      ensures df == old(df)
      ensures r == FramesOf(tc, old(fps), old(df))
      ensures fps == if !df && r.Ok? then Round(old(fps)) as real else old(fps)
    {
      r := FramesOf(tc, fps, df);
      if !df && r.Ok? {
        fps := Round(fps) as real;
      }
    }
  }

  // ---------------------------------------------------------------------------
  // Field layout

  /** A value split at timebase R into hours, minutes, seconds and frames. */
  predicate MixedRadix(g: int, R: int, fields: (int, int, int, int)) {
    && 0 <= fields.0 && 0 <= fields.1 < 60 && 0 <= fields.2 < 60 && 0 <= fields.3 < R
    && g == ((60 * fields.0 + fields.1) * 60 + fields.2) * R + fields.3
  }

  /** The non-drop-frame fields are the mixed-radix digits of f. */
  lemma NdfFieldsMixedRadix(f: nat, R: int)
    requires R >= 1
    ensures MixedRadix(f, R, NdfFields(f, R))
    ensures NdfFields(f, R).0 == f / (3600 * R)
  {
    var frHour, frMin := R * 3600, R * 60;
    var hr := f / frHour;
    DivMod(f, frHour);
    DivNonneg(f, frHour);
    var rem1 := f - hr * frHour;
    var mn := rem1 / frMin;
    DivMod(rem1, frMin);
    DivNonneg(rem1, frMin);
    DivBelow(rem1, frMin, 60);
    var rem2 := rem1 - mn * frMin;
    var sc := rem2 / R;
    DivMod(rem2, R);
    DivNonneg(rem2, R);
    DivBelow(rem2, R, 60);
    var fr := rem2 - sc * R;
    assert NdfFields(f, R) == (hr, mn, sc, fr);
    assert ((60 * hr + mn) * 60 + sc) * R + fr == hr * frHour + mn * frMin + sc * R + fr;
  }

  /** The drop-frame fields of a non-negative counter value are its
      mixed-radix digits too. */
  lemma DfFieldsMixedRadix(g: int, R: int)
    requires g >= 0 && R >= 1
    ensures MixedRadix(g, R, DfFields(g, R))
    ensures DfFields(g, R).0 == g / (3600 * R)
    ensures 60 * DfFields(g, R).0 + DfFields(g, R).1 == g / (60 * R)
  {
    var s := g / R;
    var mins := s / 60;
    var hr := mins / 60;
    DivMod(g, R);
    DivMod(s, 60);
    DivMod(mins, 60);
    DivNonneg(g, R);
    DivDiv(g, R, 60);
    DivDiv(s, 60, 60);
    DivDiv(g, R * 60, 60);
    assert DfFields(g, R) == (hr, mins % 60, s % 60, g % R);
    assert g == s * R + g % R;
    assert s == mins * 60 + s % 60;
    assert mins == hr * 60 + mins % 60;
  }

  /** The layout of a formatted timecode when hours, minutes and seconds
      have two digits. */
  lemma {:induction false} FormatLayout(fields: (int, int, int, int), drop: bool)
    requires 0 <= fields.0 < 100 && 0 <= fields.1 < 100 && 0 <= fields.2 < 100 && 0 <= fields.3
    ensures var tc := FormatFields(fields, drop);
            && |tc| >= 11
            && Slice(tc, 0, 2) == Padded(fields.0, 2) && Slice(tc, 3, 5) == Padded(fields.1, 2)
            && Slice(tc, 6, 8) == Padded(fields.2, 2) && From(tc, 9) == Padded(fields.3, 2)
            && tc[2] == ':' && tc[5] == ':' && tc[8] == (if drop then ';' else ':')
  {
    var tc := FormatFields(fields, drop);
    var a, b, c, e := Padded(fields.0, 2), Padded(fields.1, 2), Padded(fields.2, 2), Padded(fields.3, 2);
    assert |a| == 2 && |b| == 2 && |c| == 2 && |e| >= 2;
    assert tc == a + ":" + b + ":" + c + (if drop then ";" else ":") + e;
    assert tc[0..2] == a;
    assert tc[3..5] == b;
    assert tc[6..8] == c;
    assert tc[9..] == e;
  }

  /** getframes once its four fields have parsed and the frame field
      passed the rate check. */
  lemma FramesOfFields(tc: string, fps: real, df: bool, hr: int, mn: int, sc: int, ff: int)
    requires PyInt(From(tc, 9)) == Some(ff) && ff as real <= fps
    requires PyInt(Slice(tc, 0, 2)) == Some(hr) && PyInt(Slice(tc, 3, 5)) == Some(mn)
    requires PyInt(Slice(tc, 6, 8)) == Some(sc)
    ensures FramesOf(tc, fps, df) == Ok(
              if df then DfFrameCount(hr, mn, sc, ff, Round(fps), DropFrames(fps))
              else NdfFrameCount(hr, mn, sc, ff, Round(fps)))
  {
  }

  /** The drop-frame count is the plain count less the dropped numbers. */
  lemma FrameCounts(hr: int, mn: int, sc: int, ff: int, R: int, D: int)
    ensures var totalMinutes := 60 * hr + mn;
            DfFrameCount(hr, mn, sc, ff, R, D)
              == NdfFrameCount(hr, mn, sc, ff, R) - DroppedBefore(totalMinutes, D)
  {
    assert ((60 * hr + mn) * 60 + sc) * R == R * 60 * 60 * hr + R * 60 * mn + R * sc;
  }

  /** Reading back a timecode laid out from mixed-radix fields of g. */
  lemma ReadBack(g: int, fps: real, fields: (int, int, int, int), drop: bool)
    requires Round(fps) >= 1 && MixedRadix(g, Round(fps), fields) && fields.0 < 100
    ensures var tc := FormatFields(fields, drop);
            var (hr, mn, sc, fr) := fields;
            && PyInt(From(tc, 9)) == Some(fr)
            && FramesOf(tc, fps, drop) == Ok(
                 if drop then DfFrameCount(hr, mn, sc, fr, Round(fps), DropFrames(fps))
                 else NdfFrameCount(hr, mn, sc, fr, Round(fps)))
  {
    var tc := FormatFields(fields, drop);
    var (hr, mn, sc, fr) := fields;
    FormatLayout(fields, drop);
    PyIntPadded(hr, 2);
    PyIntPadded(mn, 2);
    PyIntPadded(sc, 2);
    PyIntPadded(fr, 2);
    assert fr as real <= fps;
    FramesOfFields(tc, fps, drop, hr, mn, sc, fr);
  }

  // ---------------------------------------------------------------------------
  // Non-drop-frame properties

  /** Non-drop-frame round trip: getframes(gettc(f)) == f below 100 hours,
      both with the unrounded rate and with the rounded one gettc leaves. */
  lemma NdfRoundTrip(f: nat, fps: real)
    requires Round(fps) >= 1 && f < 100 * 3600 * Round(fps)
    ensures FramesOf(TimecodeOf(f, fps, false), fps, false) == Ok(f)
    ensures FramesOf(TimecodeOf(f, fps, false), Round(fps) as real, false) == Ok(f)
  {
    var R := Round(fps);
    var fields := NdfFields(f, R);
    NdfFieldsMixedRadix(f, R);
    DivBelow(f, 3600 * R, 100);
    var tc := TimecodeOf(f, fps, false);
    assert tc == FormatFields(fields, false);
    var count := NdfFrameCount(fields.0, fields.1, fields.2, fields.3, R);
    assert count == f;
    assert FramesOf(tc, fps, false) == Ok(f) by {
      ReadBack(f, fps, fields, false);
    }
    assert FramesOf(tc, R as real, false) == Ok(f) by {
      RoundIdempotent(fps);
      ReadBack(f, R as real, fields, false);
    }
  }

  /** Past 99 hours the hour field takes three digits and the fixed columns
      no longer line up: the round trip fails from 100 hours on. */
  lemma NdfRoundTripFailsAt100Hours()
    ensures TimecodeOf(100 * 3600 * 24, 24.0, false) == "100:00:00:00"
    ensures FramesOf("100:00:00:00", 24.0, false) == Err(NotAnInteger(":00"))
  {
    HundredHoursText();
    HundredHoursRead();
  }

  lemma HundredHoursText()
    ensures TimecodeOf(100 * 3600 * 24, 24.0, false) == "100:00:00:00"
  {
    assert Round(24.0) == 24;
    assert NdfFields(8640000, 24) == (100, 0, 0, 0) by {
      assert 8640000 / (24 * 3600) == 100;
    }
    assert NatStr(100) == "100" by { assert NatStr(10) == "10"; assert NatStr(1) == "1"; }
    assert Padded(100, 2) == "100";
    assert Padded(0, 2) == "00";
    assert FormatFields((100, 0, 0, 0), false) == "100" + ":" + "00" + ":" + "00" + ":" + "00";
  }

  lemma HundredHoursRead()
    ensures FramesOf("100:00:00:00", 24.0, false) == Err(NotAnInteger(":00"))
  {
    var tc := "100:00:00:00";
    assert From(tc, 9) == ":00";
    assert Strip(":00") == ":00";
    assert !IsDigit(":00"[0]);
  }

  // ---------------------------------------------------------------------------
  // The frame-field check

  /** getframes rejects a timecode for the rate exactly when its frame field
      parses to a number above fps; a frame field equal to fps passes. */
  lemma RateCheck(tc: string, fps: real, df: bool)
    ensures FramesOf(tc, fps, df).Err? && FramesOf(tc, fps, df).error.RateMismatch?
            <==> PyInt(From(tc, 9)).Some? && PyInt(From(tc, 9)).value as real > fps
  {
    var ff := PyInt(From(tc, 9));
    if ff.Some? && ff.value as real <= fps {
      RatePasses(tc, fps, df);
    }
  }

  /** Past the frame-field check only a field that is not a number can
      fail. */
  lemma RatePasses(tc: string, fps: real, df: bool)
    requires PyInt(From(tc, 9)).Some? && PyInt(From(tc, 9)).value as real <= fps
    ensures FramesOf(tc, fps, df).Ok? || FramesOf(tc, fps, df).error.NotAnInteger?
  {
    var h, m, sec := PyInt(Slice(tc, 0, 2)), PyInt(Slice(tc, 3, 5)), PyInt(Slice(tc, 6, 8));
    if h.None? {
      assert FramesOf(tc, fps, df) == Err(NotAnInteger(Slice(tc, 0, 2)));
    } else if m.None? {
      assert FramesOf(tc, fps, df) == Err(NotAnInteger(Slice(tc, 3, 5)));
    } else if sec.None? {
      assert FramesOf(tc, fps, df) == Err(NotAnInteger(Slice(tc, 6, 8)));
    } else {
      assert FramesOf(tc, fps, df).Ok?;
    }
  }

  /** Because a frame field equal to the rate is accepted, two timecodes
      read to the same frame count. */
  lemma FrameFieldEqualToRate()
    ensures FramesOf("00:00:00:24", 24.0, false) == Ok(24)
    ensures FramesOf("00:00:01:00", 24.0, false) == Ok(24)
  {
    assert Round(24.0) == 24;
    var a := FormatFields((0, 0, 0, 24), false);
    var b := FormatFields((0, 0, 1, 0), false);
    assert a == "00:00:00:24" && b == "00:00:01:00" by {
      assert NatStr(24) == "24" by { assert NatStr(2) == "2"; }
      assert Padded(0, 2) == "00" && Padded(1, 2) == "01" && Padded(24, 2) == "24";
    }
    var n, m := NdfFrameCount(0, 0, 0, 24, 24), NdfFrameCount(0, 0, 1, 0, 24);
    assert n == 24 && m == 24;
    assert FramesOf(a, 24.0, false) == Ok(n) by {
      FormatLayout((0, 0, 0, 24), false);
      PyIntPadded(0, 2);
      PyIntPadded(24, 2);
      FramesOfFields(a, 24.0, false, 0, 0, 0, 24);
    }
    assert FramesOf(b, 24.0, false) == Ok(m) by {
      FormatLayout((0, 0, 1, 0), false);
      PyIntPadded(0, 2);
      PyIntPadded(1, 2);
      FramesOfFields(b, 24.0, false, 0, 0, 1, 0);
    }
  }

  // ---------------------------------------------------------------------------
  // Drop-frame properties

  /** A rate at which the drop-frame constants fit together: ten minutes hold
      600 seconds less nine minutes' dropped numbers, and a day 144 blocks of
      ten minutes. */
  predicate DropFrameRate(fps: real) {
    && fps >= 1.0
    && FramesPer10Minutes(fps) == 600 * Round(fps) - 9 * DropFrames(fps)
    && FramesPer24Hours(fps) == 144 * FramesPer10Minutes(fps)
  }

  /** 29.97 and 59.94 are such rates, dropping 2 and 4 numbers a minute. */
  lemma BroadcastRates()
    ensures DropFrameRate(29.97) && Round(29.97) == 30 && DropFrames(29.97) == 2
    ensures FramesPer10Minutes(29.97) == 17982 && FramesPerMinute(29.97) == 1798
    ensures DropFrameRate(59.94) && Round(59.94) == 60 && DropFrames(59.94) == 4
    ensures FramesPer10Minutes(59.94) == 35964 && FramesPerMinute(59.94) == 3596
  {
    assert Round(29.97 * 0.066666) == 2;
    assert Round(29.97 * 3600.0) == 107892;
    assert Round(29.97 * 600.0) == 17982;
    assert Round(59.94 * 0.066666) == 4;
    assert Round(59.94 * 3600.0) == 215784;
    assert Round(59.94 * 600.0) == 35964;
  }

  /** The correction on integers: with F10 = 10 * FPM + D and FPM = 60R - D,
      the corrected value of f lies within a day of minutes at timebase R, and
      removing the numbers dropped before its minute gives f back. */
  lemma DfAdjustInverse(f: int, R: int, D: int, F10: int, FPM: int)
    requires R >= 1 && D >= 0 && FPM == 60 * R - D && FPM >= 1 && F10 == 10 * FPM + D
    requires 0 <= f < 144 * F10
    ensures var g := DfAdjust(f, D, F10, FPM);
            && 0 <= g < 86400 * R
            && g - DroppedBefore(g / (60 * R), D) == f
  {
    var P := 60 * R;
    var g := DfAdjust(f, D, F10, FPM);
    var d := f / F10;
    var m := f % F10;
    assert f == d * F10 + m && 0 <= m < F10 && 0 <= d < 144 by {
      DivMod(f, F10);
      DivNonneg(f, F10);
      DivBelow(f, F10, 144);
    }
    var minute, rest := DfMinute(d, m, R, D, F10, FPM);
    assert g == minute * P + rest && g - DroppedBefore(minute, D) == f;
    DivUnique(g, P, minute, rest);
    MulMono(P, minute, 1439);
  }

  /** The minute and the frame within it that the correction maps the
      frame m of ten-minute block d to. */
  lemma DfMinute(d: int, m: int, R: int, D: int, F10: int, FPM: int) returns (minute: int, rest: int)
    requires R >= 1 && D >= 0 && FPM == 60 * R - D && FPM >= 1 && F10 == 10 * FPM + D
    requires 0 <= d < 144 && 0 <= m < F10
    ensures 0 <= minute <= 1439 && 0 <= rest < 60 * R
    ensures var f := d * F10 + m;
            var g := DfAdjust(f, D, F10, FPM);
            g == minute * (60 * R) + rest && g - DroppedBefore(minute, D) == f
  {
    var f := d * F10 + m;
    assert f / F10 == d && f % F10 == m by { DivUnique(f, F10, d, m); }
    if m > D {
      var k := (m - D) / FPM;
      var r := (m - D) % FPM;
      assert m - D == k * FPM + r && 0 <= r < FPM && 0 <= k < 10 by {
        DivMod(m - D, FPM);
        DivNonneg(m - D, FPM);
        DivBelow(m - D, FPM, 10);
      }
      assert DfAdjust(f, D, F10, FPM) == f + D * 9 * d + D * k;
      DfMinuteLate(d, m, k, r, R, D, F10, FPM);
      minute, rest := 10 * d + k, D + r;
    } else {
      assert DfAdjust(f, D, F10, FPM) == f + D * 9 * d;
      DfMinuteEarly(d, m, R, D, F10, FPM);
      minute, rest := 10 * d, m;
    }
  }

  /** A frame past the first D of its block: k whole shortened minutes and
      r more frames after the block's first minute. */
  lemma DfMinuteLate(d: int, m: int, k: int, r: int, R: int, D: int, F10: int, FPM: int)
    requires FPM == 60 * R - D && F10 == 10 * FPM + D
    requires m - D == k * FPM + r && 0 <= k < 10
    ensures var minute, f := 10 * d + k, d * F10 + m;
            && f + D * 9 * d + D * k == minute * (60 * R) + (D + r)
            && f + D * 9 * d + D * k - DroppedBefore(minute, D) == f
  {
    var P := 60 * R;
    var minute := 10 * d + k;
    assert d * F10 == 10 * d * P - 9 * d * D;
    assert k * FPM == k * P - k * D;
    assert minute / 10 == d by { DivUnique(minute, 10, d, k); }
    assert DroppedBefore(minute, D) == D * (9 * d + k) == D * 9 * d + D * k;
    assert minute * P == 10 * d * P + k * P;
  }

  /** A frame among the first D of its block, which keep their numbers. */
  lemma DfMinuteEarly(d: int, m: int, R: int, D: int, F10: int, FPM: int)
    requires FPM == 60 * R - D && F10 == 10 * FPM + D
    ensures var minute, f := 10 * d, d * F10 + m;
            && f + D * 9 * d == minute * (60 * R) + m
            && f + D * 9 * d - DroppedBefore(minute, D) == f
  {
    var P := 60 * R;
    var minute := 10 * d;
    assert d * F10 == 10 * d * P - 9 * d * D;
    assert minute / 10 == d by { DivUnique(minute, 10, d, 0); }
    assert DroppedBefore(minute, D) == D * (9 * d) == D * 9 * d;
    assert minute * P == 10 * d * P;
  }

  /** Drop-frame round trip: at a drop-frame rate, getframes(gettc(n)) gives
      back |n| modulo one day of frames. */
  lemma DfRoundTrip(frames: int, fps: real)
    requires DropFrameRate(fps)
    ensures FramesOf(TimecodeOf(frames, fps, true), fps, true)
            == Ok((if frames < 0 then -frames else frames) % FramesPer24Hours(fps))
  {
    var f: nat := if frames < 0 then -frames else frames;
    DropFrameDivisorsPositive(fps);
    var R, D := Round(fps), DropFrames(fps);
    var F10, FPM := FramesPer10Minutes(fps), FramesPerMinute(fps);
    var day := f % FramesPer24Hours(fps);
    DivMod(f, FramesPer24Hours(fps));
    var g := DfAdjust(day, D, F10, FPM);
    assert g == DfCorrected(f, fps);
    DfAdjustInverse(day, R, D, F10, FPM);
    DfFieldsCount(g, R, D);
    var fields := DfFields(g, R);
    var tc := TimecodeOf(frames, fps, true);
    assert tc == FormatFields(fields, true);
    assert DfFrameCount(fields.0, fields.1, fields.2, fields.3, R, D) == day;
    ReadBack(g, fps, fields, true);
  }

  /** The drop-frame fields of a corrected count within a day are its
      mixed-radix digits, and the drop-frame count reads them back to the
      count less the frame numbers dropped before its minute. */
  lemma DfFieldsCount(g: int, R: int, D: int)
    requires R >= 1 && 0 <= g < 86400 * R
    ensures var fields := DfFields(g, R);
            && MixedRadix(g, R, fields) && fields.0 < 100
            && DfFrameCount(fields.0, fields.1, fields.2, fields.3, R, D) == g - DroppedBefore(g / (60 * R), D)
  {
    DfFieldsMixedRadix(g, R);
    var fields := DfFields(g, R);
    DivBelow(g, 3600 * R, 24);
    FrameCounts(fields.0, fields.1, fields.2, fields.3, R, D);
  }

  /** The code's own examples at 29.97: one minute in (frame 1800) reads
      00:01:00;02, and ten minutes in (frame 17982) reads 00:10:00;00. */
  lemma DropFrameExamples()
    ensures TimecodeOf(1800, 29.97, true) == "00:01:00;02"
    ensures TimecodeOf(17982, 29.97, true) == "00:10:00;00"
  {
    BroadcastRates();
    assert DfAdjust(1800, 2, 17982, 1798) == 1802;
    assert DfCorrected(1800, 29.97) == 1802;
    assert DfFields(1802, 30) == (0, 1, 0, 2);
    assert DfAdjust(17982, 2, 17982, 1798) == 18000;
    assert DfCorrected(17982, 29.97) == 18000;
    assert DfFields(18000, 30) == (0, 10, 0, 0);
    assert NatStr(0) == "0" && NatStr(1) == "1" && NatStr(2) == "2";
    assert NatStr(10) == "10";
    assert Padded(0, 2) == "00" && Padded(1, 2) == "01" && Padded(2, 2) == "02" && Padded(10, 2) == "10";
  }

  /** At an integer rate such as 30 the constants do not fit together, and
      drop-frame counting does not round-trip: frame 17999 reads back as 18001. */
  lemma ThirtyCorrected()
    ensures Round(30.0) == 30 && DropFrames(30.0) == 2
    ensures DfCorrected(17999, 30.0) == 18019
  {
    assert Round(30.0) == 30 && Round(30.0 * 0.066666) == 2;
    assert Round(30.0 * 3600.0) == 108000 && Round(30.0 * 600.0) == 18000;
    assert DfAdjust(17999, 2, 18000, 1798) == 18019;
  }

  lemma DropFrameNeedsBroadcastRate()
    ensures !DropFrameRate(30.0)
    ensures TimecodeOf(17999, 30.0, true) == "00:10:00;19"
    ensures FramesOf(TimecodeOf(17999, 30.0, true), 30.0, true) == Ok(18001)
  {
    ThirtyCorrected();
    var fields := DfFields(18019, 30);
    assert fields == (0, 10, 0, 19);
    var tc := TimecodeOf(17999, 30.0, true);
    assert tc == FormatFields(fields, true);
    assert tc == "00:10:00;19" by {
      assert NatStr(10) == "10" && NatStr(19) == "19";
      assert Padded(0, 2) == "00" && Padded(10, 2) == "10" && Padded(19, 2) == "19";
    }
    var n := DfFrameCount(0, 10, 0, 19, 30, 2);
    assert n == 18001;
    assert FramesOf(tc, 30.0, true) == Ok(n) by {
      ReadBack(18019, 30.0, fields, true);
    }
  }
}
