/** SRT timestamps "HH:MM:SS,mmm" for a frame number at a (possibly
    fractional) frame rate. */
module Srt {
  import opened Strings
  import opened Numbers

  /** Python's f"{n:0<width>d}": zero padding goes after a minus sign. */
  function FormatD(n: int, width: nat): (r: string)
    ensures n >= 0 ==> r == Padded(n, width)
  {
    if n >= 0 then Padded(n, width)
    else "-" + Padded(-n, if width >= 1 then width - 1 else 0)
  }

  function SrtText(hours: int, minutes: int, seconds: int, millis: int): string {
    FormatD(hours, 2) + ":" + FormatD(minutes, 2) + ":" + FormatD(seconds, 2) + "," + FormatD(millis, 3)
  }

  const ZeroTimestamp: string := "00:00:00,000"

  // ---------------------------------------------------------------------------
  // As written

  /** The fields as the code derives them from a time of ts seconds: each of
      hours, minutes and seconds truncated separately, and the milliseconds
      rounded from the fractional second on their own. */
  function SrtFields(ts: real): (int, int, int, int) {
    (Trunc(ts / 3600.0), Trunc(PyMod(ts, 3600.0) / 60.0), Trunc(PyMod(ts, 60.0)),
     Round(PyMod(ts, 1.0) * 1000.0))
  }

  /** frames_to_srt_timecode; a zero rate makes the division raise, which
      the code answers with the zero timestamp. */
  function SrtTimecode(frames: int, framerate: real, timelineFps: real): string {
    var rate := EffectiveRate(framerate, timelineFps);
    if rate == 0.0 then ZeroTimestamp
    else
      var f := SrtFields(frames as real / rate);
      SrtText(f.0, f.1, f.2, f.3)
  }

  /** For a non-negative time with w whole seconds, the fields are w split
      into hours, minutes and seconds, and the fractional second rounded to
      milliseconds -- which can round up to 1000. */
  lemma SrtFieldsOfTime(ts: real)
    requires ts >= 0.0
    ensures var w := ts.Floor;
            var f := SrtFields(ts);
            && f == (w / 3600, (w % 3600) / 60, w % 60, Round((ts - w as real) * 1000.0))
            && 0 <= f.1 < 60 && 0 <= f.2 < 60 && 0 <= f.3 <= 1000
            && w == 3600 * f.0 + 60 * f.1 + f.2
  {
    var w := ts.Floor;
    var frac := ts - w as real;
    FloorDiv(ts, 3600);
    assert Trunc(ts / 3600.0) == w / 3600;
    assert PyMod(ts, 3600.0) == (w % 3600) as real + frac by {
      DivMod(w, 3600);
      assert ((w / 3600) * 3600) as real == 3600.0 * (w / 3600) as real;
    }
    FloorShift(w % 3600, frac);
    FloorDiv((w % 3600) as real + frac, 60);
    assert PyMod(ts, 60.0) == (w % 60) as real + frac by {
      DivMod(w, 60);
      FloorDiv(ts, 60);
      assert ((w / 60) * 60) as real == 60.0 * (w / 60) as real;
    }
    FloorShift(w % 60, frac);
    assert PyMod(ts, 1.0) == frac;
    assert 0.0 <= frac * 1000.0 < 1000.0;
    MinuteOfHour(w);
  }

  lemma FloorShift(w: int, frac: real)
    requires 0.0 <= frac < 1.0
    ensures (w as real + frac).Floor == w
  {
  }

  /** The minute within the hour, two ways. */
  lemma MinuteOfHour(w: int)
    requires w >= 0
    ensures (w % 3600) / 60 == (w / 60) % 60
    ensures 0 <= (w % 3600) / 60 < 60
    ensures w == 3600 * (w / 3600) + 60 * ((w % 3600) / 60) + w % 60
  {
    var h, rest := w / 3600, w % 3600;
    DivMod(w, 3600);
    var mi, s := rest / 60, rest % 60;
    DivMod(rest, 60);
    DivBelow(rest, 60, 60);
    DivNonneg(rest, 60);
    assert w == (60 * h + mi) * 60 + s;
    DivUnique(w, 60, 60 * h + mi, s);
    DivUnique(60 * h + mi, 60, h, mi);
  }

  /** The millisecond field overflows: frame 1990 at 23.976 fps lies 1/2997
      of a second before 83 s, and the code writes 1000 milliseconds. */
  lemma MillisecondOverflow()
    ensures SrtTimecode(1990, 23.976, 25.0) == "00:01:22,1000"
  {
    OverflowFields();
    OverflowText();
  }

  lemma OverflowText()
    ensures SrtText(0, 1, 22, 1000) == "00:01:22,1000"
  {
    assert NatStr(1000) == "1000" by { assert NatStr(100) == "100" by { assert NatStr(10) == "10"; } }
    assert NatStr(22) == "22" by { assert NatStr(2) == "2"; }
    assert Padded(0, 2) == "00" && Padded(1, 2) == "01" && Padded(22, 2) == "22" && Padded(1000, 3) == "1000";
  }

  lemma OverflowFields()
    ensures SrtFields(1990.0 / 23.976) == (0, 1, 22, 1000)
  {
    var ts := 1990.0 / 23.976;
    assert ts == 82.0 + 2996.0 / 2997.0;
    assert ts.Floor == 82;
    SrtFieldsOfTime(ts);
    assert Round((ts - 82.0) * 1000.0) == 1000;
  }

  /** A frame whose time needs no carry: frame 1000 at 23.976 fps. */
  lemma OrdinaryTimestamp()
    ensures SrtTimecode(1000, 23.976, 25.0) == "00:00:41,708"
  {
    OrdinaryFields();
    OrdinaryText();
  }

  lemma OrdinaryText()
    ensures SrtText(0, 0, 41, 708) == "00:00:41,708"
  {
    assert NatStr(708) == "708" by { assert NatStr(70) == "70" by { assert NatStr(7) == "7"; } }
    assert NatStr(41) == "41" by { assert NatStr(4) == "4"; }
    assert Padded(0, 2) == "00" && Padded(41, 2) == "41" && Padded(708, 3) == "708";
  }

  lemma OrdinaryFields()
    ensures SrtFields(1000.0 / 23.976) == (0, 0, 41, 708)
  {
    var ts := 1000.0 / 23.976;
    assert ts == 41.0 + 2123.0 / 2997.0;
    assert ts.Floor == 41;
    SrtFieldsOfTime(ts);
    assert Round((ts - 41.0) * 1000.0) == 708;
  }

  /** With no rate at all the division raises and the zero timestamp is
      returned. */
  lemma ZeroRate(frames: int)
    ensures SrtTimecode(frames, 0.0, 0.0) == "00:00:00,000"
  {
  }

  // ---------------------------------------------------------------------------
  // Corrected: round the whole time to milliseconds first, then split it

  /** The timestamp with the rounding carried into the seconds. Negative
      times, which a non-negative frame at a positive rate never gives, are
      left as the code writes them. */
  function SrtTimestamp(frames: int, framerate: real, timelineFps: real): string {
    var rate := EffectiveRate(framerate, timelineFps);
    if rate == 0.0 then ZeroTimestamp
    else
      var ts := frames as real / rate;
      if ts < 0.0 then
        var f := SrtFields(ts);
        SrtText(f.0, f.1, f.2, f.3)
      else
        var total := Round(ts * 1000.0);
        SrtText(total / 3600000, (total / 60000) % 60, (total / 1000) % 60, total % 1000)
  }

  /** The millisecond count the corrected timestamp writes. */
  function TotalMillis(frames: int, rate: real): int
    requires rate != 0.0
  {
    Round(frames as real / rate * 1000.0)
  }

  /** The corrected timestamp has a three-digit millisecond field, minutes
      and seconds below 60, and lies within half a millisecond of the exact
      time. */
  lemma SrtTimestampSound(frames: nat, framerate: real, timelineFps: real)
    requires EffectiveRate(framerate, timelineFps) > 0.0
    ensures var rate := EffectiveRate(framerate, timelineFps);
            var total := TotalMillis(frames, rate);
            var ts := frames as real / rate;
            && total >= 0
            && SrtTimestamp(frames, framerate, timelineFps)
               == SrtText(total / 3600000, (total / 60000) % 60, (total / 1000) % 60, total % 1000)
            && 0 <= total % 1000 < 1000 && 0 <= (total / 1000) % 60 < 60 && 0 <= (total / 60000) % 60 < 60
            && total == 3600000 * (total / 3600000) + 60000 * ((total / 60000) % 60)
                        + 1000 * ((total / 1000) % 60) + total % 1000
            && ts - 0.0005 <= total as real / 1000.0 <= ts + 0.0005
  {
    var rate := EffectiveRate(framerate, timelineFps);
    var ts := frames as real / rate;
    assert ts >= 0.0;
    var total := TotalMillis(frames, rate);
    assert total >= 0;
    assert SrtTimestamp(frames, framerate, timelineFps)
           == SrtText(total / 3600000, (total / 60000) % 60, (total / 1000) % 60, total % 1000);
    MillisSplit(total);
  }

  /** A millisecond count is hours, minutes, seconds and milliseconds in
      mixed radix. */
  lemma MillisSplit(total: int)
    requires total >= 0
    ensures 0 <= total % 1000 < 1000 && 0 <= (total / 1000) % 60 < 60 && 0 <= (total / 60000) % 60 < 60
    ensures total == 3600000 * (total / 3600000) + 60000 * ((total / 60000) % 60)
                     + 1000 * ((total / 1000) % 60) + total % 1000
  {
    var secs := total / 1000;
    DivMod(total, 1000);
    MinuteOfHour(secs);
    DivDiv(total, 1000, 60);
    DivDiv(total, 1000, 3600);
    assert total / 60000 == secs / 60;
    assert total / 3600000 == secs / 3600;
    assert (secs % 3600) / 60 == (secs / 60) % 60;
  }

  /** Rounding the whole time to milliseconds gives the whole seconds in
      thousands plus the code's millisecond field: 1000 * w is even, so ties
      go the same way. */
  lemma MillisOfTime(ts: real)
    requires ts >= 0.0
    ensures Round(ts * 1000.0) == 1000 * ts.Floor + SrtFields(ts).3
  {
    var w := ts.Floor;
    var frac := ts - w as real;
    SrtFieldsOfTime(ts);
    assert ts * 1000.0 == (1000 * w) as real + frac * 1000.0;
    assert (1000 * w) % 2 == 0 by { DivUnique(1000 * w, 2, 500 * w, 0); }
    RoundShiftEven(1000 * w, frac * 1000.0);
  }

  /** Where the code's milliseconds stay below 1000 the corrected timestamp
      is the same string. */
  lemma SrtTimestampAgrees(frames: nat, framerate: real, timelineFps: real)
    requires EffectiveRate(framerate, timelineFps) > 0.0
    requires SrtFields(frames as real / EffectiveRate(framerate, timelineFps)).3 < 1000
    ensures SrtTimestamp(frames, framerate, timelineFps) == SrtTimecode(frames, framerate, timelineFps)
  {
    var rate := EffectiveRate(framerate, timelineFps);
    var ts := frames as real / rate;
    assert ts >= 0.0;
    var w := ts.Floor;
    SrtFieldsOfTime(ts);
    var f := SrtFields(ts);
    var total := Round(ts * 1000.0);
    MillisOfTime(ts);
    DivUnique(total, 1000, w, f.3);
    DivDiv(total, 1000, 60);
    DivDiv(total, 1000, 3600);
    MinuteOfHour(w);
  }

  /** Where they reach 1000 the corrected timestamp carries into the next
      second and writes 000 milliseconds. */
  lemma SrtTimestampCarries(frames: nat, framerate: real, timelineFps: real)
    requires EffectiveRate(framerate, timelineFps) > 0.0
    requires SrtFields(frames as real / EffectiveRate(framerate, timelineFps)).3 == 1000
    ensures var w := (frames as real / EffectiveRate(framerate, timelineFps)).Floor;
            SrtTimestamp(frames, framerate, timelineFps)
              == SrtText((w + 1) / 3600, ((w + 1) / 60) % 60, (w + 1) % 60, 0)
  {
    var rate := EffectiveRate(framerate, timelineFps);
    var ts := frames as real / rate;
    assert ts >= 0.0;
    var w := ts.Floor;
    var total := Round(ts * 1000.0);
    MillisOfTime(ts);
    assert total == 1000 * (w + 1);
    SrtTimestampSound(frames, framerate, timelineFps);
    assert total == TotalMillis(frames, rate);
    DivUnique(total, 1000, w + 1, 0);
    DivDiv(total, 1000, 60);
    DivDiv(total, 1000, 3600);
    var h, m, sec, ms := total / 3600000, (total / 60000) % 60, (total / 1000) % 60, total % 1000;
    assert h == (w + 1) / 3600 && m == ((w + 1) / 60) % 60 && sec == (w + 1) % 60 && ms == 0;
    assert SrtTimestamp(frames, framerate, timelineFps) == SrtText(h, m, sec, ms);
  }

  /** The corrected form of the overflowing example. */
  lemma MillisecondCarry()
    ensures SrtTimestamp(1990, 23.976, 25.0) == "00:01:23,000"
  {
    CarriedFields();
    assert SrtText(0, 1, 23, 0) == "00:01:23,000" by {
      assert NatStr(23) == "23" by { assert NatStr(2) == "2"; }
      assert Padded(0, 2) == "00" && Padded(1, 2) == "01" && Padded(23, 2) == "23" && Padded(0, 3) == "000";
    }
  }

  lemma CarriedFields()
    ensures SrtTimestamp(1990, 23.976, 25.0) == SrtText(0, 1, 23, 0)
  {
    var ts := 1990.0 / 23.976;
    assert ts * 1000.0 == 82999.0 + 1997.0 / 2997.0;
    assert (ts * 1000.0).Floor == 82999;
    var total := Round(ts * 1000.0);
    assert total == 83000;
    assert total / 3600000 == 0 && (total / 60000) % 60 == 1 && (total / 1000) % 60 == 23 && total % 1000 == 0;
    assert EffectiveRate(23.976, 25.0) == 23.976 && 1990 as real / 23.976 == ts && ts >= 0.0;
  }
}
