/** `edx_json2srt`: conversion of edX timed-text JSON (three parallel arrays
    `start`, `end`, `text`, times in milliseconds) into SubRip text. */
module Srt {
  import opened Wrappers
  import opened Text

  const MillisPerSecond: nat := 1000
  const MillisPerMinute: nat := 60_000
  const MillisPerHour: nat := 3_600_000
  const MillisPerDay: nat := 86_400_000

  /** `datetime(1, 1, 1) + timedelta(...)` raises `OverflowError` beyond
      `datetime.max`, 9999-12-31 23:59:59.999999: 3652059 days after the epoch
      less one microsecond. */
  const DatetimeSpanDays: nat := 3_652_059
  const DatetimeSpanMillis: nat := DatetimeSpanDays * MillisPerDay

  datatype SrtError = TimestampOverflow

  /** The `.hour`, `.minute`, `.second` and `.microsecond / 1000` fields of a
      `datetime`. */
  datatype Clock = Clock(hour: nat, minute: nat, second: nat, millis: nat)

  predicate ValidClock(c: Clock) {
    c.hour < 24 && c.minute < 60 && c.second < 60 && c.millis < 1000
  }

  /** Milliseconds since midnight shown by a clock reading. */
  function MillisOfDay(c: Clock): nat {
    ((c.hour * 60 + c.minute) * 60 + c.second) * 1000 + c.millis
  }

  /** The clock reading of `datetime(1, 1, 1) + timedelta(milliseconds=m)`:
      whole days do not show, so the hour wraps modulo 24. */
  function ClockOf(m: nat): (c: Clock)
    ensures ValidClock(c)
    ensures MillisOfDay(c) == m % MillisPerDay
  {
    var ofDay := m % MillisPerDay;
    var hour := ofDay / MillisPerHour;
    var inHour := ofDay % MillisPerHour;
    var minute := inHour / MillisPerMinute;
    var inMinute := inHour % MillisPerMinute;
    Clock(hour, minute, inMinute / MillisPerSecond, inMinute % MillisPerSecond)
  }

  /** A valid clock reading is recovered from the milliseconds it shows, so
      `ClockOf` and `MillisOfDay` are inverse bijections between readings and
      `[0, MillisPerDay)`. */
  lemma ClockOfMillisOfDay(c: Clock)
    requires ValidClock(c)
    ensures MillisOfDay(c) < MillisPerDay
    ensures ClockOf(MillisOfDay(c)) == c
  {
  }

  /** Euclidean division is determined by any quotient and remainder pair. */
  lemma DivModUnique(x: int, d: int, q: int, r: int)
    requires d > 0 && 0 <= r < d && x == q * d + r
    ensures x / d == q && x % d == r
  {
    var q0 := x / d;
    var r0 := x % d;
    assert (q0 - q) * d == r - r0;
    if q0 > q {
      MulAtLeast(q0 - q, d);
      assert false;
    } else if q0 < q {
      MulAtLeast(q - q0, d);
      assert false;
    }
  }

  lemma MulAtLeast(a: int, d: int)
    requires a >= 1 && d > 0
    ensures a * d >= d
  {
    assert a * d == (a - 1) * d + d;
  }

  /** The fields of `ClockOf(m)` in closed form: each is `m` divided by its
      unit, modulo the next unit. */
  lemma ClockOfClosedForm(m: nat)
    ensures ClockOf(m).hour == (m / MillisPerHour) % 24
    ensures ClockOf(m).minute == (m / MillisPerMinute) % 60
    ensures ClockOf(m).second == (m / MillisPerSecond) % 60
    ensures ClockOf(m).millis == m % MillisPerSecond
  {
    var c := ClockOf(m);
    var days := m / MillisPerDay;
    assert m == days * MillisPerDay + MillisOfDay(c);
    var hours := days * 24 + c.hour;
    var minutes := hours * 60 + c.minute;
    var seconds := minutes * 60 + c.second;
    DivModUnique(m, MillisPerSecond, seconds, c.millis);
    DivModUnique(seconds, 60, minutes, c.second);
    DivModUnique(m, MillisPerMinute, minutes, c.second * 1000 + c.millis);
    DivModUnique(minutes, 60, hours, c.minute);
    DivModUnique(m, MillisPerHour, hours, (c.minute * 60 + c.second) * 1000 + c.millis);
    DivModUnique(hours, 24, days, c.hour);
  }

  /** `%02d:%02d:%02d,%03d` of a clock reading. */
  function FormatClock(c: Clock): string
    requires ValidClock(c)
  {
    ZeroPad(c.hour, 2) + ":" + ZeroPad(c.minute, 2) + ":" + ZeroPad(c.second, 2) + "," + ZeroPad(c.millis, 3)
  }

  /** A timestamp reads back as the clock reading it was printed from. */
  lemma ParseFormatClock(c: Clock)
    requires ValidClock(c)
    ensures |FormatClock(c)| == 12
    ensures ParseClock(FormatClock(c)) == Some(c)
  {
    ZeroPadReadsBack(c.hour, 2);
    ZeroPadReadsBack(c.minute, 2);
    ZeroPadReadsBack(c.second, 2);
    ZeroPadReadsBack(c.millis, 3);
    TimestampLayout(ZeroPad(c.hour, 2), ZeroPad(c.minute, 2), ZeroPad(c.second, 2), ZeroPad(c.millis, 3));
  }

  /** Where the four fields and the separators sit in a timestamp. */
  lemma TimestampLayout(h: string, m: string, s: string, ms: string)
    requires |h| == 2 && |m| == 2 && |s| == 2 && |ms| == 3
    ensures var r := h + ":" + m + ":" + s + "," + ms;
            && |r| == 12 && r[2] == ':' && r[5] == ':' && r[8] == ','
            && r[0..2] == h && r[3..5] == m && r[6..8] == s && r[9..12] == ms
  {
    var r := h + ":" + m + ":" + s + "," + ms;
    assert r[0..2] == h;
    assert r[3..5] == m;
    assert r[6..8] == s;
    assert r[9..12] == ms;
  }

  /** Reads an `HH:MM:SS,mmm` timestamp back into its four fields. */
  function ParseClock(s: string): Option<Clock> {
    if |s| == 12 && s[2] == ':' && s[5] == ':' && s[8] == ','
       && AllDigits(s[0..2]) && AllDigits(s[3..5]) && AllDigits(s[6..8]) && AllDigits(s[9..12])
    then Some(Clock(ParseNat(s[0..2]), ParseNat(s[3..5]), ParseNat(s[6..8]), ParseNat(s[9..12])))
    else None
  }

  /** A millisecond count `datetime` can represent after the epoch. */
  predicate Representable(m: nat) {
    m < DatetimeSpanMillis
  }

  datatype TimedText = TimedText(starts: seq<nat>, ends: seq<nat>, texts: seq<string>)

  /** Number of entries `zip(start, end, text)` yields: the shortest array. */
  function ZipLength(o: TimedText): (n: nat)
    ensures n <= |o.starts| && n <= |o.ends| && n <= |o.texts|
    ensures n == |o.starts| || n == |o.ends| || n == |o.texts|
  {
    var a := |o.starts|;
    var b := |o.ends|;
    var c := |o.texts|;
    if a <= b && a <= c then a else if b <= c then b else c
  }

  /** Zip positions below `k` with non-empty text, in ascending order: the
      entries the conversion does not skip. */
  function KeptBelow(o: TimedText, k: nat): (ps: seq<nat>)
    requires k <= ZipLength(o)
    ensures |ps| <= k
    ensures forall j :: 0 <= j < |ps| ==> ps[j] < k && o.texts[ps[j]] != ""
    ensures forall j, j' :: 0 <= j < j' < |ps| ==> ps[j] < ps[j']
  {
    if k == 0 then [] else KeptBelow(o, k - 1) + (if o.texts[k - 1] != "" then [k - 1] else [])
  }

  function Kept(o: TimedText): seq<nat> {
    KeptBelow(o, ZipLength(o))
  }

  /** Every position below `k` with non-empty text is kept. */
  lemma {:induction false} KeptBelowComplete(o: TimedText, k: nat, p: nat)
    requires k <= ZipLength(o) && p < k && o.texts[p] != ""
    ensures p in KeptBelow(o, k)
    decreases k
  {
    if p < k - 1 {
      KeptBelowComplete(o, k - 1, p);
    }
  }

  /** A position is kept exactly when it is within the zip and its text is
      non-empty. */
  lemma KeptIff(o: TimedText, p: nat)
    ensures p in Kept(o) <==> p < ZipLength(o) && o.texts[p] != ""
  {
    if p < ZipLength(o) && o.texts[p] != "" {
      KeptBelowComplete(o, ZipLength(o), p);
    }
  }

  /** With no empty text, the kept positions are `0, 1, ..., n - 1`; the cue
      numbers have gaps exactly when some text is empty. */
  lemma {:induction false} KeptBelowNoGaps(o: TimedText, k: nat)
    requires k <= ZipLength(o)
    ensures (forall p :: 0 <= p < k ==> o.texts[p] != "") <==> KeptBelow(o, k) == seq(k, p => p)
    decreases k
  {
    if k > 0 {
      KeptBelowNoGaps(o, k - 1);
      var prev := KeptBelow(o, k - 1);
      if o.texts[k - 1] == "" {
        assert |KeptBelow(o, k)| <= k - 1;
      } else {
        assert KeptBelow(o, k) == prev + [k - 1];
        assert seq(k, p => p) == seq(k - 1, p => p) + [k - 1];
        if KeptBelow(o, k) == seq(k, p => p) {
          assert prev == KeptBelow(o, k)[..k - 1];
        }
      }
    }
  }

  /** One SubRip block: the index line, the `start --> end` line, the text and
      a blank line. Each part sits at a fixed offset after the index and
      reads back as what it was printed from. */
  function Cue(index: nat, startMs: nat, endMs: nat, text: string): (cue: string)
    ensures var n := |NatToString(index)|;
            && |cue| == n + 33 + |text|
            && cue[..n] == NatToString(index)
            && ParseClock(cue[n + 1..n + 13]) == Some(ClockOf(startMs))
            && ParseClock(cue[n + 18..n + 30]) == Some(ClockOf(endMs))
            && cue[n + 31..n + 31 + |text|] == text
            && cue[n] == '\n' && cue[n + 13..n + 18] == " --> " && cue[n + 30] == '\n'
            && cue[n + 31 + |text|..] == "\n\n"
  {
    ParseFormatClock(ClockOf(startMs));
    ParseFormatClock(ClockOf(endMs));
    CueLayout(NatToString(index), FormatClock(ClockOf(startMs)), FormatClock(ClockOf(endMs)), text);
    NatToString(index) + "\n"
    + FormatClock(ClockOf(startMs)) + " --> " + FormatClock(ClockOf(endMs)) + "\n"
    + text + "\n\n"
  }

  /** Where the parts of a block sit. */
  lemma CueLayout(i: string, s: string, e: string, t: string)
    requires |s| == 12 && |e| == 12
    ensures var cue := i + "\n" + s + " --> " + e + "\n" + t + "\n\n";
            var n := |i|;
            && |cue| == n + 33 + |t|
            && cue[..n] == i && cue[n + 1..n + 13] == s && cue[n + 18..n + 30] == e
            && cue[n + 31..n + 31 + |t|] == t
            && cue[n] == '\n' && cue[n + 13..n + 18] == " --> " && cue[n + 30] == '\n'
            && cue[n + 31 + |t|..] == "\n\n"
  {
    var cue := i + "\n" + s + " --> " + e + "\n" + t + "\n\n";
    var n := |i|;
    assert cue[..n] == i;
    assert cue[n + 1..n + 13] == s;
    assert cue[n + 18..n + 30] == e;
    assert cue[n + 31..n + 31 + |t|] == t;
    assert cue[n + 13..n + 18] == " --> ";
    assert cue[n + 31 + |t|..] == "\n\n";
  }

  predicate AllRepresentable(o: TimedText, ps: seq<nat>) {
    forall j :: 0 <= j < |ps| ==> ps[j] < ZipLength(o) && Representable(o.starts[ps[j]]) && Representable(o.ends[ps[j]])
  }

  /** The blocks of the given zip positions, concatenated in order, each
      numbered with its own position. */
  function Cues(o: TimedText, ps: seq<nat>): string
    requires forall j :: 0 <= j < |ps| ==> ps[j] < ZipLength(o)
  {
    if ps == [] then ""
    else
      var p := ps[|ps| - 1];
      assert p < ZipLength(o);
      Cues(o, ps[..|ps| - 1]) + Cue(p, o.starts[p], o.ends[p], o.texts[p])
  }

  /** What `edx_json2srt` returns: the blocks of the kept entries, or the
      `OverflowError` raised when a kept entry's time is beyond `datetime`. */
  function SrtOf(o: TimedText): (r: Result<string, SrtError>)
    ensures r.Err? <==> exists p :: 0 <= p < ZipLength(o) && o.texts[p] != "" && !(Representable(o.starts[p]) && Representable(o.ends[p]))
    ensures r.Ok? ==> r.value == Cues(o, Kept(o))
  {
    KeptRepresentableIff(o);
    if AllRepresentable(o, Kept(o)) then Ok(Cues(o, Kept(o))) else Err(TimestampOverflow)
  }

  /** The kept entries are all representable exactly when no entry with
      non-empty text has a time beyond `datetime`. */
  lemma KeptRepresentableIff(o: TimedText)
    ensures AllRepresentable(o, Kept(o)) <==>
            !exists p :: 0 <= p < ZipLength(o) && o.texts[p] != "" && !(Representable(o.starts[p]) && Representable(o.ends[p]))
  {
    var ps := Kept(o);
    if !AllRepresentable(o, ps) {
      var j :| 0 <= j < |ps| && !(ps[j] < ZipLength(o) && Representable(o.starts[ps[j]]) && Representable(o.ends[ps[j]]));
      var p := ps[j];
      assert 0 <= p < ZipLength(o) && o.texts[p] != "";
    }
    forall p | 0 <= p < ZipLength(o) && o.texts[p] != ""
      ensures p in ps
    {
      KeptIff(o, p);
    }
  }

  /** After the first `i` zip entries the loop has produced the blocks of
      the kept positions below `i`, all of them representable. */
  predicate Converted(o: TimedText, i: nat, output: string) {
    && i <= ZipLength(o)
    && AllRepresentable(o, KeptBelow(o, i))
    && output == Cues(o, KeptBelow(o, i))
  }

  /** One turn of the conversion loop preserves `Converted`. */
  lemma ConvertStep(o: TimedText, i: nat, output: string)
    requires Converted(o, i, output) && i < ZipLength(o)
    requires o.texts[i] != "" ==> Representable(o.starts[i]) && Representable(o.ends[i])
    ensures o.texts[i] == "" ==> Converted(o, i + 1, output)
    ensures o.texts[i] != "" ==> Converted(o, i + 1, output + Cue(i, o.starts[i], o.ends[i], o.texts[i]))
  {
    KeptBelowStep(o, i);
    if o.texts[i] != "" {
      CuesSnoc(o, KeptBelow(o, i), i);
      AllRepresentableSnoc(o, KeptBelow(o, i), i);
    }
  }

  lemma KeptBelowStep(o: TimedText, i: nat)
    requires i < ZipLength(o)
    ensures o.texts[i] == "" ==> KeptBelow(o, i + 1) == KeptBelow(o, i)
    ensures o.texts[i] != "" ==> KeptBelow(o, i + 1) == KeptBelow(o, i) + [i]
  {
  }

  lemma CuesSnoc(o: TimedText, ps: seq<nat>, p: nat)
    requires forall j :: 0 <= j < |ps| ==> ps[j] < ZipLength(o)
    requires p < ZipLength(o)
    ensures Cues(o, ps + [p]) == Cues(o, ps) + Cue(p, o.starts[p], o.ends[p], o.texts[p])
  {
    assert (ps + [p])[..|ps|] == ps;
  }

  lemma AllRepresentableSnoc(o: TimedText, ps: seq<nat>, p: nat)
    requires AllRepresentable(o, ps)
    requires p < ZipLength(o) && Representable(o.starts[p]) && Representable(o.ends[p])
    ensures AllRepresentable(o, ps + [p])
  {
  }

  /** A kept entry whose time `datetime` cannot represent makes the whole
      conversion fail. */
  lemma OverflowIsError(o: TimedText, i: nat)
    requires i < ZipLength(o) && o.texts[i] != ""
    requires !(Representable(o.starts[i]) && Representable(o.ends[i]))
    ensures SrtOf(o) == Err(TimestampOverflow)
  {
    KeptBelowComplete(o, ZipLength(o), i);
  }

  /** One turn of the conversion loop: skip an empty text, fail on a time
      beyond `datetime`, otherwise append the entry's block. */
  method ConvertEntry(o: TimedText, i: nat, output: string) returns (ok: bool, next: string)
    requires Converted(o, i, output) && i < ZipLength(o)
    ensures ok ==> Converted(o, i + 1, next)
    ensures !ok ==> SrtOf(o) == Err(TimestampOverflow)
  {
    var text := o.texts[i];
    if text == "" {
      ConvertStep(o, i, output);
      return true, output;
    }
    var startMs, endMs := o.starts[i], o.ends[i];
    if !(Representable(startMs) && Representable(endMs)) {
      OverflowIsError(o, i);
      return false, output;
    }
    ConvertStep(o, i, output);
    return true, output + Cue(i, startMs, endMs, text);
  }

  /** The conversion loop: walk the zipped entries, skip empty texts, append
      one block per remaining entry numbered by its zip position. */
  method Json2Srt(o: TimedText) returns (r: Result<string, SrtError>)
    ensures r == SrtOf(o)
  {
    var output := "";
    var n := ZipLength(o);
    for i := 0 to n
      invariant Converted(o, i, output)
    {
      var ok;
      ok, output := ConvertEntry(o, i, output);
      if !ok {
        return Err(TimestampOverflow);
      }
    }
    return Ok(output);
  }

  /** Empty input converts to the empty string. */
  lemma SrtOfEmpty(o: TimedText)
    requires ZipLength(o) == 0
    ensures SrtOf(o) == Ok("")
  {
  }

  /** The twelve characters of a timestamp, digit by digit. */
  lemma FormatClockDigits(c: Clock)
    requires ValidClock(c)
    ensures FormatClock(c)
            == [DigitChar(c.hour / 10), DigitChar(c.hour % 10), ':',
                DigitChar(c.minute / 10), DigitChar(c.minute % 10), ':',
                DigitChar(c.second / 10), DigitChar(c.second % 10), ',',
                DigitChar(c.millis / 100), DigitChar(c.millis / 10 % 10), DigitChar(c.millis % 10)]
  {
    ZeroPadTwoDigits(c.hour);
    ZeroPadTwoDigits(c.minute);
    ZeroPadTwoDigits(c.second);
    ZeroPadThreeDigits(c.millis);
  }

  /** A block prints its index line, then both times as `HH:MM:SS,mmm`. */
  lemma CueExampleWorld(index: nat, startMs: nat, endMs: nat)
    requires index == 1 && startMs == 1500 && endMs == 3200
    ensures Cue(index, startMs, endMs, "World") == "1" + "\n" + "00:00:01,500" + " --> " + "00:00:03,200" + "\n" + "World" + "\n\n"
  {
    assert ClockOf(startMs) == Clock(0, 0, 1, 500);
    assert ClockOf(endMs) == Clock(0, 0, 3, 200);
    FormatClockDigits(Clock(0, 0, 1, 500));
    FormatClockDigits(Clock(0, 0, 3, 200));
    assert NatToString(index) == "1";
  }

  /** Times below one second print as milliseconds only. */
  lemma CueExampleHi(index: nat, startMs: nat, endMs: nat)
    requires index == 1 && startMs == 10 && endMs == 20
    ensures Cue(index, startMs, endMs, "Hi") == "1" + "\n" + "00:00:00,010" + " --> " + "00:00:00,020" + "\n" + "Hi" + "\n\n"
  {
    assert ClockOf(startMs) == Clock(0, 0, 0, 10);
    assert ClockOf(endMs) == Clock(0, 0, 0, 20);
    FormatClockDigits(Clock(0, 0, 0, 10));
    FormatClockDigits(Clock(0, 0, 0, 20));
    assert NatToString(index) == "1";
  }

  /** Below one second, only the millisecond field is non-zero. */
  lemma TimestampBelowSecond(m: nat)
    requires m < 1000
    ensures ClockOf(m) == Clock(0, 0, 0, m)
    ensures FormatClock(ClockOf(m)) == "00:00:00," + [DigitChar(m / 100), DigitChar(m / 10 % 10), DigitChar(m % 10)]
  {
    assert m % MillisPerDay == m && m / MillisPerHour == 0 && m % MillisPerHour == m;
    assert m / MillisPerMinute == 0 && m % MillisPerMinute == m;
    assert m / MillisPerSecond == 0 && m % MillisPerSecond == m;
    var c := Clock(0, 0, 0, m);
    FormatClockDigits(c);
    assert DigitChar(0) == '0';
  }

  /** With an empty first text the only block is numbered 1, its position
      in the zip, not 0: cue numbers are not renumbered after a skip. */
  lemma SrtOfEmptyFirst(o: TimedText)
    requires ZipLength(o) == 2 && o.texts[0] == "" && o.texts[1] != ""
    requires AllRepresentable(o, [1])
    ensures SrtOf(o) == Ok(Cue(1, o.starts[1], o.ends[1], o.texts[1]))
  {
    assert Kept(o) == [1] by {
      KeptBelowStep(o, 0);
      KeptBelowStep(o, 1);
    }
    assert Cues(o, [1]) == Cue(1, o.starts[1], o.ends[1], o.texts[1]) by {
      CuesSnoc(o, [], 1);
      assert [] + [1] == [1];
    }
  }
}
