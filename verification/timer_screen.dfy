/** The timer screen's arithmetic: `durationText` and the hours / minutes /
    seconds split of the input duration that the entry dialog edits. A
    duration is a whole number of milliseconds. */
module TimerScreen {
  import opened Common
  import opened Decimal

  /** Kotlin's `/` on `Long`: rounds toward zero. */
  function Quot(a: int, b: int): int
    requires b > 0
  {
    if a >= 0 then a / b else -((-a) / b)
  }

  /** Kotlin's `%` on `Long`: the remainder takes the sign of `a`. */
  function Rem(a: int, b: int): int
    requires b > 0
  {
    a - b * Quot(a, b)
  }

  /** `Long.toInt()`: the low 32 bits, read as a signed `Int`. */
  function ToInt(x: int): int
  {
    var r := x % 0x1_0000_0000;
    if r > IntMax then r - 0x1_0000_0000 else r
  }

  datatype Components = Components(hours: int, minutes: int, seconds: int)

  /** `inputHours`, `inputMinutes` and `inputSeconds` of a duration. */
  function Split(ms: int): (r: Components)
    ensures IntMin <= r.hours <= IntMax
    ensures 0 <= ms ==> 0 <= r.minutes < 60 && 0 <= r.seconds < 60
  {
    Components(ToInt(Quot(ms, 3_600_000)),
               ToInt(Rem(Quot(ms, 60_000), 60)),
               ToInt(Rem(Quot(ms, 1000), 60)))
  }

  /** `durationText`: `HH:MM:SS`, each field zero-padded to two places, with
      `.mmm` after it when `displayMillis`. Hours are not wrapped. */
  function DurationText(ms: int, displayMillis: bool): (r: string)
    ensures |r| >= if displayMillis then 12 else 8
  {
    FieldsText(Quot(ms, 3_600_000), Rem(Quot(ms, 60_000), 60), Rem(Quot(ms, 1000), 60), Rem(ms, 1000),
               displayMillis)
  }

  /** The fields of a duration, printed. */
  function FieldsText(hours: int, minutes: int, seconds: int, millis: int, displayMillis: bool): string
  {
    Layout(PadZero(hours, 2), PadZero(minutes, 2), PadZero(seconds, 2), PadZero(millis, 3), displayMillis)
  }

  /** Printed fields put together: `H:M:S`, then `.X` when `displayMillis`. */
  function Layout(hs: string, ms: string, ss: string, xs: string, displayMillis: bool): string
  {
    var clock := hs + ":" + ms + ":" + ss;
    if displayMillis then clock + "." + xs else clock
  }

  /** Reads `H:MM:SS` (any number of hour digits) back into its fields. */
  function ParseClock(s: string): Option<Components>
  {
    if |s| < 7 then None else ClockFields(s[..|s| - 6], s[|s| - 6..])
  }

  /** The fields of hour digits `h` followed by `:MM:SS`. */
  function ClockFields(h: string, tail: string): Option<Components>
    requires |tail| == 6
  {
    if tail[0] != ':' || tail[3] != ':' || !AllDigits(h) ||
       !IsDigit(tail[1]) || !IsDigit(tail[2]) || !IsDigit(tail[4]) || !IsDigit(tail[5]) then None
    else Some(Components(DigitsValue(h),
                         DigitValue(tail[1]) * 10 + DigitValue(tail[2]),
                         DigitValue(tail[4]) * 10 + DigitValue(tail[5])))
  }

  /** The milliseconds in whole hours, minutes and seconds. */
  function ToMillis(c: Components): int
  {
    c.hours * 3_600_000 + c.minutes * 60_000 + c.seconds * 1000
  }

  /** Reads a duration text back as milliseconds, with or without `.mmm`. */
  function ParseDurationText(s: string, displayMillis: bool): Option<int>
  {
    if !displayMillis then
      match ParseClock(s)
      case None => None
      case Some(c) => Some(ToMillis(c))
    else
      var n := |s|;
      if n < 4 || s[n - 4] != '.' || !AllDigits(s[n - 3..]) then None
      else
        match ParseClock(s[..n - 4])
        case None => None
        case Some(c) => Some(ToMillis(c) + DigitsValue(s[n - 3..]))
  }

  /** The quotients and remainders of a duration built from in-range
      components. */
  lemma DivParts(h: int, m: int, s: int, extra: int)
    requires 0 <= h && 0 <= m < 60 && 0 <= s < 60 && 0 <= extra < 1000
    ensures var ms := h * 3_600_000 + m * 60_000 + s * 1000 + extra;
            ms / 3_600_000 == h && ms / 60_000 == h * 60 + m && ms / 1000 == h * 3600 + m * 60 + s &&
            ms % 1000 == extra && (h * 60 + m) % 60 == m && (h * 3600 + m * 60 + s) % 60 == s
  {
    var ms := h * 3_600_000 + m * 60_000 + s * 1000 + extra;
    var mins := h * 60 + m;
    var secs := mins * 60 + s;
    DivModOf(ms, 1000, secs, extra);
    DivModOf(secs, 60, mins, s);
    DivModOf(mins, 60, h, m);
    DivModOf(ms, 60_000, mins, s * 1000 + extra);
    DivModOf(ms, 3_600_000, h, m * 60_000 + s * 1000 + extra);
  }

  /** Division with a remainder in `[0, d)` has exactly one answer. */
  lemma DivModOf(x: int, d: int, q: int, r: int)
    requires d > 0 && 0 <= r < d && x == q * d + r
    ensures x / d == q && x % d == r
  {
    var q', r' := x / d, x % d;
    assert x == q' * d + r';
    assert (q - q') * d == r' - r;
    if q > q' {
      AtLeastOnce(q - q', d);
    } else if q < q' {
      AtLeastOnce(q' - q, d);
    }
  }

  lemma AtLeastOnce(k: int, d: int)
    requires k >= 1 && d > 0
    ensures k * d >= d
  {
    assert k * d == (k - 1) * d + d;
    if k > 1 {
      AtLeastOnce(k - 1, d);
    }
  }

  /** The components of a duration built from in-range components are those
      components. */
  lemma ComponentsOf(h: int, m: int, s: int, extra: int)
    requires 0 <= h <= IntMax && 0 <= m < 60 && 0 <= s < 60 && 0 <= extra < 1000
    ensures var ms := h * 3_600_000 + m * 60_000 + s * 1000 + extra;
            Split(ms) == Components(h, m, s) && ms / 1000 == h * 3600 + m * 60 + s
  {
    DivParts(h, m, s, extra);
  }

  /** A duration that is not negative is built from its whole hours, minutes
      below 60, seconds below 60 and milliseconds below 1000. */
  lemma Decompose(ms: int)
    requires 0 <= ms
    ensures var rest := ms % 3_600_000;
            ms == (ms / 3_600_000) * 3_600_000 + (rest / 60_000) * 60_000 + ((rest % 60_000) / 1000) * 1000 + ms % 1000
  {
    var h, rest := ms / 3_600_000, ms % 3_600_000;
    assert ms == h * 3_600_000 + rest;
    var m, r2 := rest / 60_000, rest % 60_000;
    assert rest == m * 60_000 + r2;
    var sec, x := r2 / 1000, r2 % 1000;
    assert r2 == sec * 1000 + x;
    assert ms == (h * 3600 + m * 60 + sec) * 1000 + x;
  }

  /** A duration that is not negative (and whose hours fit an `Int`) splits
      into whole hours, minutes below 60 and seconds below 60 that add up to
      its whole seconds. */
  lemma SplitSpec(ms: int)
    requires 0 <= ms && ms / 3_600_000 <= IntMax
    ensures var c := Split(ms);
            c.hours >= 0 && 0 <= c.minutes < 60 && 0 <= c.seconds < 60 &&
            c.hours * 3600 + c.minutes * 60 + c.seconds == ms / 1000
  {
    var rest := ms % 3_600_000;
    Decompose(ms);
    ComponentsOf(ms / 3_600_000, rest / 60_000, (rest % 60_000) / 1000, ms % 1000);
  }

  /** The text of a duration that is not negative reads back as the duration
      to the precision shown: whole seconds, or milliseconds with `.mmm`. */
  lemma DurationTextRoundTrip(ms: int, displayMillis: bool)
    requires 0 <= ms
    ensures ParseDurationText(DurationText(ms, displayMillis), displayMillis) ==
              Some(if displayMillis then ms else ms / 1000 * 1000)
  {
    var rest := ms % 3_600_000;
    var c := Components(ms / 3_600_000, rest / 60_000, (rest % 60_000) / 1000);
    var extra := ms % 1000;
    Decompose(ms);
    assert ToMillis(c) + extra == ms;
    assert ms / 1000 * 1000 == ms - extra;
    TextParts(ms, c.hours, c.minutes, c.seconds, extra);
    FieldsRoundTrip(c, extra, displayMillis);
  }

  /** The printed fields of in-range components read back as those components. */
  lemma FieldsRoundTrip(c: Components, extra: int, displayMillis: bool)
    requires 0 <= c.hours && 0 <= c.minutes < 60 && 0 <= c.seconds < 60 && 0 <= extra < 1000
    ensures ParseDurationText(FieldsText(c.hours, c.minutes, c.seconds, extra, displayMillis), displayMillis) ==
              Some(if displayMillis then ToMillis(c) + extra else ToMillis(c))
  {
    var hs, ms, ss, xs := PadZero(c.hours, 2), PadZero(c.minutes, 2), PadZero(c.seconds, 2), PadZero(extra, 3);
    assert AllDigits(hs) && |hs| >= 1 && DigitsValue(hs) == c.hours by { PadField(c.hours, 2); }
    assert AllDigits(ms) && |ms| == 2 && DigitsValue(ms) == c.minutes by { PadField(c.minutes, 2); }
    assert AllDigits(ss) && |ss| == 2 && DigitsValue(ss) == c.seconds by { PadField(c.seconds, 2); }
    assert AllDigits(xs) && |xs| == 3 && DigitsValue(xs) == extra by { PadField(extra, 3); }
    LayoutRoundTrip(hs, ms, ss, xs, displayMillis, c, extra);
  }

  /** Digit fields of the printed widths read back as their values. */
  lemma LayoutRoundTrip(hs: string, ms: string, ss: string, xs: string, displayMillis: bool, c: Components, extra: int)
    requires AllDigits(hs) && AllDigits(ms) && AllDigits(ss) && AllDigits(xs)
    requires |hs| >= 1 && |ms| == 2 && |ss| == 2 && |xs| == 3
    requires DigitsValue(hs) == c.hours && DigitsValue(ms) == c.minutes && DigitsValue(ss) == c.seconds
    requires DigitsValue(xs) == extra
    ensures ParseDurationText(Layout(hs, ms, ss, xs, displayMillis), displayMillis) ==
              Some(if displayMillis then ToMillis(c) + extra else ToMillis(c))
  {
    var clock := hs + ":" + ms + ":" + ss;
    ClockParts(hs, ms, ss);
    if displayMillis {
      MillisPart(clock, xs);
    }
  }

  /** The fields `durationText` prints for a duration built from in-range components. */
  lemma TextParts(ms: int, h: int, m: int, s: int, extra: int)
    requires 0 <= h && 0 <= m < 60 && 0 <= s < 60 && 0 <= extra < 1000
    requires ms == h * 3_600_000 + m * 60_000 + s * 1000 + extra
    ensures DurationText(ms, false) == FieldsText(h, m, s, extra, false)
    ensures DurationText(ms, true) == FieldsText(h, m, s, extra, true)
  {
    var mins := h * 60 + m;
    var secs := mins * 60 + s;
    DivModOf(ms, 1000, secs, extra);
    DivModOf(secs, 60, mins, s);
    DivModOf(mins, 60, h, m);
    DivModOf(ms, 60_000, mins, s * 1000 + extra);
    DivModOf(ms, 3_600_000, h, m * 60_000 + s * 1000 + extra);
    assert Quot(ms, 3_600_000) == h;
    assert Rem(Quot(ms, 60_000), 60) == m;
    assert Rem(Quot(ms, 1000), 60) == s;
    assert Rem(ms, 1000) == extra;
  }

  /** A padded field is digits worth its number, exactly `width` long when the
      number is below `10^width` (widths 2 and 3). */
  lemma PadField(n: nat, width: nat)
    requires width == 2 || width == 3
    ensures AllDigits(PadZero(n, width)) && DigitsValue(PadZero(n, width)) == n
    ensures |PadZero(n, width)| >= width
    ensures (width == 2 && n < 100) || (width == 3 && n < 1000) ==> |PadZero(n, width)| == width
  {
    PadZeroSpec(n, width);
    NatToStringLength(n);
  }

  lemma ClockParts(hs: string, ms: string, ss: string)
    requires AllDigits(hs) && AllDigits(ms) && AllDigits(ss) && |hs| >= 1 && |ms| == 2 && |ss| == 2
    ensures ParseClock(hs + ":" + ms + ":" + ss) == Some(Components(DigitsValue(hs), DigitsValue(ms), DigitsValue(ss)))
  {
    var tail := [':', ms[0], ms[1], ':', ss[0], ss[1]];
    assert ms == [ms[0], ms[1]] && ss == [ss[0], ss[1]];
    var c := hs + tail;
    assert hs + ":" + ms + ":" + ss == c;
    assert c[..|c| - 6] == hs && c[|c| - 6..] == tail;
    TwoDigits(ms);
    TwoDigits(ss);
    assert ParseClock(c) == ClockFields(hs, tail);
    assert tail[0] == ':' && tail[3] == ':';
    assert IsDigit(tail[1]) && IsDigit(tail[2]) && IsDigit(tail[4]) && IsDigit(tail[5]);
    assert ClockFields(hs, tail).Some?;
    assert ClockFields(hs, tail).value.hours == DigitsValue(hs);
    assert ClockFields(hs, tail).value.minutes == DigitsValue(ms);
    assert ClockFields(hs, tail).value.seconds == DigitsValue(ss);
    assert ClockFields(hs, tail) == Some(Components(DigitsValue(hs), DigitsValue(ms), DigitsValue(ss)));
  }

  lemma TwoDigits(d: string)
    requires AllDigits(d) && |d| == 2
    ensures IsDigit(d[0]) && IsDigit(d[1]) && DigitsValue(d) == DigitValue(d[0]) * 10 + DigitValue(d[1])
  {
    var first := d[..1];
    assert first[..0] == [] && first[0] == d[0];
    assert DigitsValue(first) == DigitValue(d[0]);
    assert d[..|d| - 1] == first;
  }

  lemma MillisPart(clock: string, xs: string)
    requires AllDigits(xs) && |xs| == 3
    ensures ParseDurationText(clock + "." + xs, true) ==
              match ParseClock(clock)
              case None => None
              case Some(c) => Some(ToMillis(c) + DigitsValue(xs))
  {
    var t := clock + "." + xs;
    var n := |t|;
    assert t[..n - 4] == clock && t[n - 4] == '.' && t[n - 3..] == xs;
  }

  /** Which component the entry dialog is editing, if any. */
  datatype DialogState = Hidden | HoursDialog | MinutesDialog | SecondsDialog

  /** The dialog opens on the current value of the component it edits, and on
      0 when hidden. */
  function InitialValue(dialog: DialogState, ms: int): int
  {
    var c := Split(ms);
    match dialog
    case Hidden => 0
    case HoursDialog => c.hours
    case MinutesDialog => c.minutes
    case SecondsDialog => c.seconds
  }

  /** The duration submitted when the dialog returns `v`, as the screen is
      written: the seconds branch takes `inputMinutes` as the hours. */
  function SubmitAsWritten(dialog: DialogState, ms: int, v: int): (r: int)
    ensures dialog != SecondsDialog ==> r == Submit(dialog, ms, v)
  {
    var c := Split(ms);
    match dialog
    case Hidden => 0
    case HoursDialog => v * 3_600_000 + c.minutes * 60_000 + c.seconds * 1000
    case MinutesDialog => c.hours * 3_600_000 + v * 60_000 + c.seconds * 1000
    case SecondsDialog => c.minutes * 3_600_000 + c.minutes * 60_000 + v * 1000
  }

  /** The duration submitted when the dialog returns `v`: the edited component
      is replaced and the other two are kept. */
  function Submit(dialog: DialogState, ms: int, v: int): (r: int)
    ensures dialog == Hidden ==> r == 0
    ensures 0 <= ms && ms / 3_600_000 <= IntMax && 0 <= v ==> r >= 0
  {
    var c := Split(ms);
    match dialog
    case Hidden => 0
    case HoursDialog => v * 3_600_000 + c.minutes * 60_000 + c.seconds * 1000
    case MinutesDialog => c.hours * 3_600_000 + v * 60_000 + c.seconds * 1000
    case SecondsDialog => c.hours * 3_600_000 + c.minutes * 60_000 + v * 1000
  }

  /** The value a component may take without spilling into the next one. */
  predicate InComponentRange(dialog: DialogState, v: int)
  {
    match dialog
    case Hidden => true
    case HoursDialog => 0 <= v <= IntMax
    case MinutesDialog => 0 <= v < 60
    case SecondsDialog => 0 <= v < 60
  }

  /** Submitting an in-range value replaces exactly the edited component. */
  lemma SubmitReplacesComponent(dialog: DialogState, ms: int, v: int)
    requires 0 <= ms && ms / 3_600_000 <= IntMax
    requires dialog != Hidden && InComponentRange(dialog, v)
    ensures var c := Split(ms);
            Split(Submit(dialog, ms, v)) ==
              match dialog
              case HoursDialog => c.(hours := v)
              case MinutesDialog => c.(minutes := v)
              case _ => c.(seconds := v)
  {
    SplitSpec(ms);
    var c := Split(ms);
    match dialog
    case HoursDialog =>
      assert Submit(dialog, ms, v) == v * 3_600_000 + c.minutes * 60_000 + c.seconds * 1000 + 0;
      ComponentsOf(v, c.minutes, c.seconds, 0);
    case MinutesDialog =>
      assert Submit(dialog, ms, v) == c.hours * 3_600_000 + v * 60_000 + c.seconds * 1000 + 0;
      ComponentsOf(c.hours, v, c.seconds, 0);
    case SecondsDialog =>
      assert Submit(dialog, ms, v) == c.hours * 3_600_000 + c.minutes * 60_000 + v * 1000 + 0;
      ComponentsOf(c.hours, c.minutes, v, 0);
  }

  /** Opening the dialog and submitting the value it opened on keeps the
      duration, up to its milliseconds. */
  lemma SubmitInitialValue(dialog: DialogState, ms: int)
    requires 0 <= ms && ms / 3_600_000 <= IntMax && dialog != Hidden
    ensures Submit(dialog, ms, InitialValue(dialog, ms)) == ms / 1000 * 1000
  {
    SplitSpec(ms);
  }

  /** As written, the hours and minutes dialogs keep the duration when the
      value they opened on is submitted; the seconds dialog does not (see
      `SecondsInitialValueAsWritten`). */
  lemma SubmitInitialValueAsWritten(dialog: DialogState, ms: int)
    requires 0 <= ms && ms / 3_600_000 <= IntMax
    requires dialog == HoursDialog || dialog == MinutesDialog
    ensures SubmitAsWritten(dialog, ms, InitialValue(dialog, ms)) == ms / 1000 * 1000
  {
    SplitSpec(ms);
  }

  /** As written, opening the seconds dialog on one hour exactly and submitting
      it unchanged turns the duration into 0. */
  lemma SecondsInitialValueAsWritten()
    ensures InitialValue(SecondsDialog, 3_600_000) == 0
    ensures SubmitAsWritten(SecondsDialog, 3_600_000, InitialValue(SecondsDialog, 3_600_000)) == 0
  {
    ComponentsOf(1, 0, 0, 0);
  }

  /** As written, a seconds edit puts the minutes into the hours: editing the
      seconds of one hour exactly to 5 gives 5 seconds, where the corrected
      submit gives one hour and 5 seconds. */
  lemma SecondsEditLosesHours()
    ensures Split(3_600_000) == Components(1, 0, 0)
    ensures SubmitAsWritten(SecondsDialog, 3_600_000, 5) == 5_000
    ensures Submit(SecondsDialog, 3_600_000, 5) == 3_605_000
  {
    ComponentsOf(1, 0, 0, 0);
  }

  /** As written, a seconds edit always rebuilds the hours from the minutes. */
  lemma SecondsEditAsWritten(ms: int, v: int)
    requires 0 <= ms && ms / 3_600_000 <= IntMax && 0 <= v < 60
    ensures Split(SubmitAsWritten(SecondsDialog, ms, v)) == Components(Split(ms).minutes, Split(ms).minutes, v)
  {
    SplitSpec(ms);
    ComponentsOf(Split(ms).minutes, Split(ms).minutes, v, 0);
  }
}
