/**
 * `validarFechaISO` of eventos-api/server.js: the anchored regular expression
 * `^\d{4}-\d{2}-\d{2}T\d{2}:\d{2}:\d{2}(\.\d{3})?Z$` followed by `new Date(s)` not being NaN.
 */
module IsoFormat {
  import opened Digits

  /** One position of a regular expression: `\d` or a literal character. */
  datatype Atom = AnyDigit | Char(c: char)

  /** A piece of the pattern: an atom matched once, or an optional group `( … )?`. */
  datatype Piece = Once(atom: Atom) | Optional(group: seq<Atom>)

  predicate AtomMatches(a: Atom, c: char) {
    match a
    case AnyDigit => IsDigit(c)
    case Char(x) => c == x
  }

  /** `s` starts with a match of the atoms of `g`. */
  predicate GroupPrefix(g: seq<Atom>, s: string) {
    |g| <= |s| && forall i :: 0 <= i < |g| ==> AtomMatches(g[i], s[i])
  }

  /** `RegExp.prototype.test` for an anchored pattern (`^…$`): the whole of `s` matches `p`. */
  predicate Matches(p: seq<Piece>, s: string)
    decreases |p|
  {
    if p == [] then s == []
    else
      match p[0]
      case Once(a) => |s| > 0 && AtomMatches(a, s[0]) && Matches(p[1..], s[1..])
      case Optional(g) =>
        (GroupPrefix(g, s) && Matches(p[1..], s[|g|..])) || Matches(p[1..], s)
  }

  /** `\d{4}-\d{2}-\d{2}T\d{2}:\d{2}:\d{2}`, one piece per character. */
  const DateTimePart: seq<Piece> := [
    Once(AnyDigit), Once(AnyDigit), Once(AnyDigit), Once(AnyDigit), Once(Char('-')),
    Once(AnyDigit), Once(AnyDigit), Once(Char('-')),
    Once(AnyDigit), Once(AnyDigit), Once(Char('T')),
    Once(AnyDigit), Once(AnyDigit), Once(Char(':')),
    Once(AnyDigit), Once(AnyDigit), Once(Char(':')),
    Once(AnyDigit), Once(AnyDigit)]

  /** `(\.\d{3})?Z` */
  const ZonePart: seq<Piece> := [
    Optional([Char('.'), AnyDigit, AnyDigit, AnyDigit]), Once(Char('Z'))]

  /** The `isoRegex` of server.js. */
  const IsoRegex: seq<Piece> := DateTimePart + ZonePart

  /** The shape `YYYY-MM-DDTHH:mm:ss` at positions 0 to 18. */
  predicate DateTimeShape(s: string) {
    |s| >= 19 &&
    IsDigit(s[0]) && IsDigit(s[1]) && IsDigit(s[2]) && IsDigit(s[3]) && s[4] == '-' &&
    IsDigit(s[5]) && IsDigit(s[6]) && s[7] == '-' &&
    IsDigit(s[8]) && IsDigit(s[9]) && s[10] == 'T' &&
    IsDigit(s[11]) && IsDigit(s[12]) && s[13] == ':' &&
    IsDigit(s[14]) && IsDigit(s[15]) && s[16] == ':' &&
    IsDigit(s[17]) && IsDigit(s[18])
  }

  /** `YYYY-MM-DDTHH:mm:ssZ` (20 characters) or `YYYY-MM-DDTHH:mm:ss.sssZ` (24 characters). */
  predicate CanonicalShape(s: string) {
    DateTimeShape(s) &&
    ((|s| == 20 && s[19] == 'Z') ||
     (|s| == 24 && s[19] == '.' && IsDigit(s[20]) && IsDigit(s[21]) && IsDigit(s[22]) && s[23] == 'Z'))
  }

  /** A run of `Once` pieces matches exactly its own length of characters, position by position. */
  lemma {:induction false} OncePrefix(p: seq<Piece>, q: seq<Piece>, s: string)
    requires forall i :: 0 <= i < |p| ==> p[i].Once?
    ensures Matches(p + q, s) <==>
      |p| <= |s| && (forall i :: 0 <= i < |p| ==> AtomMatches(p[i].atom, s[i])) && Matches(q, s[|p|..])
    decreases |p|
  {
    if p == [] {
      assert p + q == q;
    } else {
      assert (p + q)[0] == p[0];
      assert (p + q)[1..] == p[1..] + q;
      if |s| > 0 {
        OncePrefix(p[1..], q, s[1..]);
        if |p| <= |s| && AtomMatches(p[0].atom, s[0]) {
          assert s[1..][|p| - 1..] == s[|p|..];
          assert (forall i :: 0 <= i < |p| - 1 ==> AtomMatches(p[1..][i].atom, s[1..][i])) <==>
                 (forall i :: 1 <= i < |p| ==> AtomMatches(p[i].atom, s[i]));
        }
      }
    }
  }

  /** What the optional fraction and the `Z` accept: `"Z"` or `".dddZ"`. */
  lemma ZonePartMatches(t: string)
    ensures Matches(ZonePart, t) <==>
      t == "Z" || (|t| == 5 && t[0] == '.' && IsDigit(t[1]) && IsDigit(t[2]) && IsDigit(t[3]) && t[4] == 'Z')
  {
    var z := [Once(Char('Z'))];
    assert ZonePart[1..] == z;
    assert z[1..] == [];
    forall u: string ensures Matches(z, u) <==> u == "Z" {
      if |u| > 0 && u[0] == 'Z' && u[1..] == [] { assert u == [u[0]]; }
    }
  }

  /** Position by position, the date-time part of the pattern reads as `DateTimeShape`. */
  lemma DateTimePartShape(s: string)
    requires |s| >= 19
    ensures DateTimeShape(s) <==> forall i :: 0 <= i < 19 ==> AtomMatches(DateTimePart[i].atom, s[i])
  {
    if DateTimeShape(s) {
      forall i | 0 <= i < 19 ensures AtomMatches(DateTimePart[i].atom, s[i]) {
        assert i == 0 || i == 1 || i == 2 || i == 3 || i == 4 || i == 5 || i == 6 || i == 7 ||
               i == 8 || i == 9 || i == 10 || i == 11 || i == 12 || i == 13 || i == 14 ||
               i == 15 || i == 16 || i == 17 || i == 18;
      }
    }
  }

  /** After the first 19 characters, the zone part accepts `Z` or `.dddZ` and nothing else. */
  lemma ZoneTail(s: string)
    requires |s| >= 19
    ensures Matches(ZonePart, s[19..]) <==>
      (|s| == 20 && s[19] == 'Z') ||
      (|s| == 24 && s[19] == '.' && IsDigit(s[20]) && IsDigit(s[21]) && IsDigit(s[22]) && s[23] == 'Z')
  {
    var t := s[19..];
    ZonePartMatches(t);
    if |t| == 5 { assert t[0] == s[19] && t[1] == s[20] && t[2] == s[21] && t[3] == s[22] && t[4] == s[23]; }
    if t == "Z" { assert s[19] == t[0]; }
    if |s| == 20 && s[19] == 'Z' { assert t == [s[19]]; }
  }

  /** The regular expression accepts exactly the two canonical shapes. */
  lemma RegexShape(s: string)
    ensures Matches(IsoRegex, s) <==> CanonicalShape(s)
  {
    OncePrefix(DateTimePart, ZonePart, s);
    if |s| >= 19 {
      DateTimePartShape(s);
      ZoneTail(s);
    }
  }

  /** The number written by the two characters at `i` and `i + 1`. */
  function TwoDigits(s: string, i: nat): int
    requires i + 1 < |s|
  {
    10 * DigitValue(s[i]) + DigitValue(s[i + 1])
  }

  /**
   * The fields of a canonically shaped string that Node's `Date` parser accepts
   * (the ranges of the Date Time String Format of ECMA-262 as V8 checks them):
   * month 01-12, day 01-31 with no days-in-month check, hour 00-23 or exactly 24:00:00.000,
   * minute and second 00-59. The year is any four digits.
   */
  predicate FieldsInRange(s: string) {
    |s| >= 19 &&
    var month, day := TwoDigits(s, 5), TwoDigits(s, 8);
    var hour, minute, second := TwoDigits(s, 11), TwoDigits(s, 14), TwoDigits(s, 17);
    var millis := if |s| >= 23 then 100 * DigitValue(s[20]) + TwoDigits(s, 21) else 0;
    1 <= month <= 12 && 1 <= day <= 31 &&
    ((0 <= hour <= 23 && 0 <= minute <= 59 && 0 <= second <= 59) ||
     (hour == 24 && minute == 0 && second == 0 && millis == 0))
  }

  /** `validarFechaISO(s)`: the regex test, then the parse check. */
  predicate ValidDateTime(s: string) {
    Matches(IsoRegex, s) && FieldsInRange(s)
  }

  /** An accepted string has 20 or 24 characters, `T` at index 10 and `Z` last. */
  lemma AcceptedShape(s: string)
    requires ValidDateTime(s)
    ensures |s| == 20 || |s| == 24
    ensures s[10] == 'T' && s[|s| - 1] == 'Z'
    ensures CanonicalShape(s)
  {
    RegexShape(s);
  }

  /** The validator holds exactly of canonically shaped strings whose fields are in range. */
  lemma ValidDateTimeExactly(s: string)
    ensures ValidDateTime(s) <==> CanonicalShape(s) && FieldsInRange(s)
  {
    RegexShape(s);
  }

  /** The shape is necessary but not sufficient: month 13 passes the regex ... */
  lemma Month13MatchesRegex()
    ensures Matches(IsoRegex, "2025-13-01T00:00:00Z")
  {
    assert CanonicalShape("2025-13-01T00:00:00Z");
    RegexShape("2025-13-01T00:00:00Z");
  }

  /** ... and fails the parse, so the validator refuses it. */
  lemma Month13Refused()
    ensures !ValidDateTime("2025-13-01T00:00:00Z")
  {
    assert TwoDigits("2025-13-01T00:00:00Z", 5) == 13;
  }

  /** A canonically shaped string with fields in range is accepted. */
  lemma AcceptedWhenInRange(s: string)
    requires CanonicalShape(s) && FieldsInRange(s)
    ensures ValidDateTime(s)
  {
    RegexShape(s);
  }

  /**
   * A whole-second date `YYYY-MM-DDTHH:mm:ssZ`, given by its fourteen digits, is accepted
   * when month, day, hour, minute and second are in range.
   */
  lemma WholeSecondValid(y0: char, y1: char, y2: char, y3: char, mo0: char, mo1: char, d0: char, d1: char,
                         h0: char, h1: char, mi0: char, mi1: char, s0: char, s1: char)
    requires IsDigit(y0) && IsDigit(y1) && IsDigit(y2) && IsDigit(y3)
    requires IsDigit(mo0) && IsDigit(mo1) && IsDigit(d0) && IsDigit(d1)
    requires IsDigit(h0) && IsDigit(h1) && IsDigit(mi0) && IsDigit(mi1) && IsDigit(s0) && IsDigit(s1)
    requires 1 <= 10 * DigitValue(mo0) + DigitValue(mo1) <= 12
    requires 1 <= 10 * DigitValue(d0) + DigitValue(d1) <= 31
    requires 10 * DigitValue(h0) + DigitValue(h1) <= 23
    requires 10 * DigitValue(mi0) + DigitValue(mi1) <= 59 && 10 * DigitValue(s0) + DigitValue(s1) <= 59
    ensures ValidDateTime([y0, y1, y2, y3, '-', mo0, mo1, '-', d0, d1, 'T', h0, h1, ':', mi0, mi1, ':', s0, s1, 'Z'])
  {
    var s := [y0, y1, y2, y3, '-', mo0, mo1, '-', d0, d1, 'T', h0, h1, ':', mi0, mi1, ':', s0, s1, 'Z'];
    assert CanonicalShape(s);
    assert FieldsInRange(s);
    AcceptedWhenInRange(s);
  }

  /** The form without a fraction is accepted. */
  lemma AcceptedWhole()
    ensures ValidDateTime("2025-10-16T10:00:00Z")
  {
    WholeSecondValid('2', '0', '2', '5', '1', '0', '1', '6', '1', '0', '0', '0', '0', '0');
  }

  /** The form with a three-digit fraction has the canonical shape ... */
  lemma FractionShape()
    ensures CanonicalShape("2025-10-16T10:00:00.250Z")
  {
  }

  /** ... and fields in range ... */
  lemma FractionFields()
    ensures FieldsInRange("2025-10-16T10:00:00.250Z")
  {
  }

  /** ... so it is accepted. */
  lemma AcceptedFraction()
    ensures ValidDateTime("2025-10-16T10:00:00.250Z")
  {
    FractionShape();
    FractionFields();
    AcceptedWhenInRange("2025-10-16T10:00:00.250Z");
  }

  /** The end-of-day hour 24:00:00 is accepted. */
  lemma AcceptedEndOfDay()
    ensures ValidDateTime("2025-10-16T24:00:00Z")
  {
    var s := "2025-10-16T24:00:00Z";
    assert DateTimeShape(s);
    assert CanonicalShape(s);
    assert FieldsInRange(s);
    AcceptedWhenInRange(s);
  }

  /** The day is not checked against the month: 30 February is accepted, as the engine's parser accepts it. */
  lemma AcceptedFebruaryThirtieth()
    ensures ValidDateTime("2025-02-30T10:00:00Z")
  {
    WholeSecondValid('2', '0', '2', '5', '0', '2', '3', '0', '1', '0', '0', '0', '0', '0');
  }

  /** Hour 24 past midnight, a numeric offset and a bare date are refused. */
  lemma RefusedExamples()
    ensures !ValidDateTime("2025-10-16T24:00:01Z")
    ensures !ValidDateTime("2025-10-16T10:00:00+02:00")
    ensures !ValidDateTime("2025-10-16")
  {
    RegexShape("2025-10-16T24:00:01Z");
    RegexShape("2025-10-16T10:00:00+02:00");
    RegexShape("2025-10-16");
  }
}
