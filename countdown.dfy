/**
 * The `update` closure of `startCountdown` in cards/scriptHecho.js: one tick of a card's
 * countdown, from the target instant and the current instant (both epoch milliseconds)
 * to the four displayed values.
 */
module Countdown {
  import opened Wrappers
  import opened Digits

  /** Whole days, hours, minutes and seconds of a remaining time. */
  datatype Remaining = Remaining(days: nat, hours: nat, minutes: nat, seconds: nat)

  /**
   * `Math.floor(diff / 1000) % 60`, `Math.floor(diff / (1000 * 60)) % 60`,
   * `Math.floor(diff / (1000 * 60 * 60)) % 24` and `Math.floor(diff / (1000 * 60 * 60 * 24))`
   * for a positive difference.
   */
  function Decompose(diff: int): (r: Remaining)
    requires diff > 0
    ensures r.seconds < 60 && r.minutes < 60 && r.hours < 24
  {
    Remaining(
      diff / (1000 * 60 * 60 * 24),
      (diff / (1000 * 60 * 60)) % 24,
      (diff / (1000 * 60)) % 60,
      (diff / 1000) % 60)
  }

  /** Each larger unit is the floor of the next smaller one: minutes of seconds, hours of minutes, days of hours. */
  lemma NestedFloors(diff: int)
    requires diff > 0
    ensures diff / (1000 * 60) == (diff / 1000) / 60
    ensures diff / (1000 * 60 * 60) == (diff / (1000 * 60)) / 60
    ensures diff / (1000 * 60 * 60 * 24) == (diff / (1000 * 60 * 60)) / 24
  {
  }

  /**
   * The four units rebuild the whole seconds of the difference, and the sub-second part
   * is dropped (floored), never rounded.
   */
  lemma DecomposeReconstructs(diff: int)
    requires diff > 0
    ensures var r := Decompose(diff);
      r.days * 86400 + r.hours * 3600 + r.minutes * 60 + r.seconds == diff / 1000
    ensures var r := Decompose(diff);
      var ms := (r.days * 86400 + r.hours * 3600 + r.minutes * 60 + r.seconds) * 1000;
      ms <= diff < ms + 1000
  {
    NestedFloors(diff);
  }

  /** One displayed unit: `String(n).padStart(2, "0")`. */
  function Shown(n: nat): string {
    PadStart2(Decimal(n))
  }

  /** A displayed unit is all digits, reads back as the number, and has exactly two characters below 100. */
  lemma ShownFacts(n: nat)
    ensures AllDigits(Shown(n)) && DecimalValue(Shown(n)) == n
    ensures |Shown(n)| >= 2
    ensures |Shown(n)| == 2 <==> n < 100
  {
    PadStart2Facts(Decimal(n));
    DecimalRoundTrip(n);
    DecimalLength(n);
  }

  /** The four strings a tick writes into the days, hours, minutes and seconds elements. */
  datatype Readout = Readout(days: string, hours: string, minutes: string, seconds: string)

  /** What one tick shows for a difference `diff = targetMs - nowMs`. */
  function ReadoutOf(diff: int): Readout {
    if diff <= 0 then Readout("00", "00", "00", "00")
    else
      var u := Decompose(diff);
      Readout(Shown(u.days), Shown(u.hours), Shown(u.minutes), Shown(u.seconds))
  }

  /** An elapsed event shows "00" four times. */
  lemma ElapsedShowsZeros(diff: int)
    requires diff <= 0
    ensures ReadoutOf(diff) == Readout("00", "00", "00", "00")
  {
  }

  /**
   * For a pending event, the displayed strings are digits only (never a minus sign),
   * hours, minutes and seconds are exactly two characters and within their ranges,
   * days are at least two, and read as numbers the four make up the remaining whole seconds.
   */
  lemma ReadoutMeaning(diff: int)
    requires diff > 0
    ensures var r := ReadoutOf(diff);
      AllDigits(r.days) && AllDigits(r.hours) && AllDigits(r.minutes) && AllDigits(r.seconds)
    ensures var r := ReadoutOf(diff);
      |r.days| >= 2 && |r.hours| == 2 && |r.minutes| == 2 && |r.seconds| == 2
    ensures var r := ReadoutOf(diff);
      DecimalValue(r.hours) < 24 && DecimalValue(r.minutes) < 60 && DecimalValue(r.seconds) < 60
    ensures var r := ReadoutOf(diff);
      DecimalValue(r.days) * 86400 + DecimalValue(r.hours) * 3600 +
      DecimalValue(r.minutes) * 60 + DecimalValue(r.seconds) == diff / 1000
  {
    var u := Decompose(diff);
    ShownFacts(u.days);
    ShownFacts(u.hours);
    ShownFacts(u.minutes);
    ShownFacts(u.seconds);
    DecomposeReconstructs(diff);
  }

  /** A target one hour ahead shows 00 days, 01 hours, 00 minutes, 00 seconds. */
  lemma OneHourAhead()
    ensures ReadoutOf(60 * 60 * 1000) == Readout("00", "01", "00", "00")
  {
    assert Decompose(60 * 60 * 1000) == Remaining(0, 1, 0, 0);
  }

  /** Days are not clamped: one hundred days ahead shows "100". */
  lemma HundredDaysAhead()
    ensures ReadoutOf(100 * 24 * 60 * 60 * 1000).days == "100"
  {
    assert Decompose(100 * 24 * 60 * 60 * 1000).days == 100;
    assert Decimal(100) == Decimal(10) + [DigitChar(0)];
    assert Decimal(10) == Decimal(1) + [DigitChar(0)];
  }

  /** The countdown area of one card, as the elements `update` writes. */
  class CountdownDisplay {
    /** The card's `dateTime` string. */
    const iso: string
    var days: string
    var hours: string
    var minutes: string
    var seconds: string
    /** `Some(t)` once the area's content has been replaced by the text `t`. */
    var areaText: Option<string>

    /** The card as `makeCountdownItem` builds it: every value "00", the area intact. */
    constructor (iso: string)
      ensures this.iso == iso
      ensures days == "00" && hours == "00" && minutes == "00" && seconds == "00"
      ensures areaText == None
    {
      this.iso := iso;
      days, hours, minutes, seconds := "00", "00", "00", "00";
      areaText := None;
    }

    /**
     * One tick: `parse` stands for `getEpochMs` (`None` for NaN), `nowMs` for the clock.
     * An unparseable target replaces the area's text and writes no unit; otherwise all
     * four units are written from the one difference.
     */
    method Tick(parse: string -> Option<int>, nowMs: int)
      modifies this
      ensures parse(iso).None? ==>
        areaText == Some("Fecha inválida") &&
        days == old(days) && hours == old(hours) && minutes == old(minutes) && seconds == old(seconds)
      ensures parse(iso).Some? ==>
        areaText == old(areaText) &&
        Readout(days, hours, minutes, seconds) == ReadoutOf(parse(iso).value - nowMs)
    {
      var targetMs := parse(iso);
      if targetMs.None? {
        areaText := Some("Fecha inválida");
        return;
      }
      var diff := targetMs.value - nowMs;
      if diff <= 0 {
        days := "00";
        hours := "00";
        minutes := "00";
        seconds := "00";
        return;
      }
      var u := Decompose(diff);
      days := Shown(u.days);
      hours := Shown(u.hours);
      minutes := Shown(u.minutes);
      seconds := Shown(u.seconds);
    }
  }
}
