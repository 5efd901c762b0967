/**
  `parse_time`: a 12-hour clock token such as "2pm", "11:45am" or " 12:30PM " becomes a
  time of day. The token is stripped and lower-cased; if it contains no ':' it must match
  `strptime`'s `%I%p`, otherwise `%I:%M%p`. In `strptime`, `%I` is the pattern
  `1[0-2]|0[1-9]|[1-9]`, `%M` is `[0-5]\d|\d` and `%p` is `am|pm`, and the whole string must
  be consumed. That language is written out here as `Spelling`: every accepted token is the
  text of exactly one valid spelling, and every valid spelling's text is accepted.
 */
module Clock {
  import opened Strings
  import opened Errors

  /** A time of day, as Python's `datetime.time` with seconds fixed at zero. */
  datatype ClockTime = ClockTime(hour: nat, minute: nat) {
    predicate Valid() {
      hour < 24 && minute < 60
    }
  }

  /** Python's `time < time`: hour first, then minute. */
  predicate Before(a: ClockTime, b: ClockTime) {
    a.hour < b.hour || (a.hour == b.hour && a.minute < b.minute)
  }

  /** How the minutes are written: absent (`%I%p`), one digit or two digits after ':'. */
  datatype MinuteForm = NoMinutes | OneDigit | TwoDigits

  /** One accepted way of writing a time: hour 1..12 (optionally with a leading zero when
      below 10), the minutes in one of the three forms, and the am/pm suffix. */
  datatype Spelling = Spelling(hour12: nat, minute: nat, pm: bool, zeroPad: bool, form: MinuteForm) {

    predicate Valid() {
      && 1 <= hour12 <= 12
      && minute < 60
      && (zeroPad ==> hour12 < 10)
      && (form == NoMinutes ==> minute == 0)
      && (form == OneDigit ==> minute < 10)
    }

    function HourText(): string
      requires Valid()
    {
      HourDigits(hour12, zeroPad)
    }

    function MinuteDigits(): string
      requires Valid()
    {
      MinuteText(minute, form)
    }

    function Text(): string
      requires Valid()
    {
      HourText() + (if form == NoMinutes then "" else ":" + MinuteDigits()) + (if pm then "pm" else "am")
    }

    /** `strptime`'s conversion of `%I` with `%p`: 12am is hour 0, 12pm is hour 12, and
        any other pm hour gains 12. */
    function Value(): (t: ClockTime)
      requires Valid()
      ensures t.Valid()
      ensures t.minute == minute
      ensures pm <==> t.hour >= 12
      ensures t.hour % 12 == hour12 % 12
    {
      var h := if pm then (if hour12 == 12 then 12 else hour12 + 12)
               else (if hour12 == 12 then 0 else hour12);
      ClockTime(h, minute)
    }
  }

  /** The `%I` digits of an hour, with the optional leading zero. */
  function HourDigits(h: nat, zeroPad: bool): string {
    (if zeroPad then "0" else "") + NatToString(h)
  }

  /** The `%M` digits of a minute in the given form. */
  function MinuteText(m: nat, form: MinuteForm): string
    requires m < 60 && (form == OneDigit ==> m < 10)
  {
    match form
    case NoMinutes => ""
    case OneDigit => [DigitChar(m)]
    case TwoDigits => [DigitChar(m / 10), DigitChar(m % 10)]
  }

  lemma DigitRoundTrip(c: char)
    requires IsDigit(c)
    ensures DigitValue(c) < 10 && DigitChar(DigitValue(c)) == c
  {
  }

  /** The `%I` field: a whole string that is an hour 1..12, with or without a leading zero. */
  function HourField(s: string): (r: Option<(nat, bool)>)
    ensures r.Some? ==> 1 <= r.value.0 <= 12 && (r.value.1 ==> r.value.0 < 10)
    ensures r.Some? ==> HourDigits(r.value.0, r.value.1) == s
  {
    if |s| == 1 && '1' <= s[0] <= '9' then
      DigitRoundTrip(s[0]);
      Some((DigitValue(s[0]), false))
    else if |s| == 2 && s[0] == '1' && '0' <= s[1] <= '2' then
      DigitRoundTrip(s[1]);
      var h := 10 + DigitValue(s[1]);
      assert NatToString(h) == NatToString(1) + [DigitChar(h % 10)];
      assert s == [s[0]] + [s[1]];
      Some((h, false))
    else if |s| == 2 && s[0] == '0' && '1' <= s[1] <= '9' then
      DigitRoundTrip(s[1]);
      assert s == "0" + [s[1]];
      Some((DigitValue(s[1]), true))
    else
      None
  }

  /** The `%M` field: a whole string that is one digit, or two digits starting 0..5. */
  function MinuteField(s: string): (r: Option<(nat, MinuteForm)>)
    ensures r.Some? ==> r.value.1 != NoMinutes
    ensures r.Some? ==> r.value.0 < 60 && (r.value.1 == OneDigit ==> r.value.0 < 10)
    ensures r.Some? ==> MinuteText(r.value.0, r.value.1) == s
  {
    if |s| == 2 && '0' <= s[0] <= '5' && IsDigit(s[1]) then
      DigitRoundTrip(s[0]);
      DigitRoundTrip(s[1]);
      var m := 10 * DigitValue(s[0]) + DigitValue(s[1]);
      assert m / 10 == DigitValue(s[0]) && m % 10 == DigitValue(s[1]);
      Some((m, TwoDigits))
    else if |s| == 1 && IsDigit(s[0]) then
      DigitRoundTrip(s[0]);
      Some((DigitValue(s[0]), OneDigit))
    else
      None
  }

  /** Matches a normalised token against the grammar; a result is always a valid spelling
      whose text is exactly the token. */
  function ReadSpelling(t: string): (r: Option<Spelling>)
    ensures r.Some? ==> r.value.Valid() && r.value.Text() == t
  {
    if |t| < 2 then None
    else
      var body, suffix := t[..|t| - 2], t[|t| - 2..];
      assert t == body + suffix;
      if suffix != "am" && suffix != "pm" then None
      else if ':' !in t then ReadBare(body, suffix == "pm")
      else ReadWithMinutes(body, suffix == "pm")
  }

  /** `%I` alone, before the suffix. */
  function ReadBare(body: string, pm: bool): (r: Option<Spelling>)
    ensures r.Some? ==> r.value.Valid() && r.value.Text() == body + (if pm then "pm" else "am")
  {
    match HourField(body)
    case Some((h, pad)) => Some(Spelling(h, 0, pm, pad, NoMinutes))
    case None => None
  }

  /** `%I:%M` before the suffix. */
  function ReadWithMinutes(body: string, pm: bool): (r: Option<Spelling>)
    ensures r.Some? ==> r.value.Valid() && r.value.Text() == body + (if pm then "pm" else "am")
  {
    var parts := Split(body, ':');
    if |parts| != 2 then None
    else
      match (HourField(parts[0]), MinuteField(parts[1]))
      case (Some((h, pad)), Some((m, form))) =>
        SplitPair(body, ':');
        Some(Spelling(h, m, pm, pad, form))
      case _ => None
  }

  /** Every valid spelling is read back as itself: the grammar is accepted in full and
      each accepted token has only one reading. */
  lemma ReadSpellingComplete(sp: Spelling)
    requires sp.Valid()
    ensures ReadSpelling(sp.Text()) == Some(sp)
  {
    if sp.form == NoMinutes {
      ReadSpellingOfBare(sp);
    } else {
      ReadSpellingOfMinutes(sp);
    }
  }

  lemma ReadSpellingOfBare(sp: Spelling)
    requires sp.Valid() && sp.form == NoMinutes
    ensures ReadSpelling(sp.Text()) == Some(sp)
  {
    var t := sp.Text();
    assert t[..|t| - 2] == sp.HourText();
    ReadBareComplete(sp);
  }

  lemma ReadSpellingOfMinutes(sp: Spelling)
    requires sp.Valid() && sp.form != NoMinutes
    ensures ReadSpelling(sp.Text()) == Some(sp)
  {
    var t := sp.Text();
    assert t[..|t| - 2] == sp.HourText() + ":" + sp.MinuteDigits();
    ReadWithMinutesComplete(sp);
  }

  lemma ReadBareComplete(sp: Spelling)
    requires sp.Valid() && sp.form == NoMinutes
    ensures ':' !in sp.Text()
    ensures ReadBare(sp.HourText(), sp.pm) == Some(sp)
  {
    TextShape(sp);
    HourFieldOfText(sp);
  }

  lemma ReadWithMinutesComplete(sp: Spelling)
    requires sp.Valid() && sp.form != NoMinutes
    ensures ':' in sp.Text()
    ensures ReadWithMinutes(sp.HourText() + ":" + sp.MinuteDigits(), sp.pm) == Some(sp)
  {
    var hour, mins := sp.HourText(), sp.MinuteDigits();
    TextShape(sp);
    assert ':' !in hour && ':' !in mins;
    assert hour + ":" + mins == Join([hour, mins], ':');
    SplitJoin([hour, mins], ':');
    HourFieldOfText(sp);
    MinuteFieldOfText(sp);
  }

  lemma HourFieldOfText(sp: Spelling)
    requires sp.Valid()
    ensures HourField(sp.HourText()) == Some((sp.hour12, sp.zeroPad))
  {
    var s := sp.HourText();
    if sp.hour12 >= 10 {
      assert NatToString(sp.hour12) == NatToString(1) + [DigitChar(sp.hour12 % 10)];
    }
  }

  lemma MinuteFieldOfText(sp: Spelling)
    requires sp.Valid() && sp.form != NoMinutes
    ensures MinuteField(sp.MinuteDigits()) == Some((sp.minute, sp.form))
  {
  }

  /** `parse_time`: strip, lower-case, then match the grammar. A result is a valid time of
      day; a rejected token reports its normalised form. */
  function ParseTime(token: string): (r: Result<ClockTime>)
    ensures r.Ok? ==> r.value.Valid()
    ensures r.Err? ==> r.error == BadTime(Lower(Strip(token)))
  {
    var t := Lower(Strip(token));
    match ReadSpelling(t)
    case Some(sp) => Ok(sp.Value())
    case None => Err(BadTime(t))
  }

  /** The grammar `parse_time` accepts: a token is accepted exactly when its stripped,
      lower-cased form is the text of a valid spelling, and it then denotes that spelling's
      time (no two spellings share a text). */
  lemma ParseTimeGrammar(token: string)
    ensures ParseTime(token).Ok? <==> exists sp: Spelling :: sp.Valid() && sp.Text() == Lower(Strip(token))
    ensures forall sp: Spelling :: sp.Valid() && sp.Text() == Lower(Strip(token)) ==> ParseTime(token) == Ok(sp.Value())
  {
    var t := Lower(Strip(token));
    forall sp: Spelling | sp.Valid() && sp.Text() == t
      ensures ParseTime(token) == Ok(sp.Value())
    {
      ReadSpellingComplete(sp);
    }
  }

  /** The characters of a spelling are digits, ':' and lower-case letters, so lower-casing
      leaves it unchanged. */
  lemma LowerOfText(sp: Spelling)
    requires sp.Valid()
    ensures Lower(sp.Text()) == sp.Text()
  {
    var t := sp.Text();
    var hour := sp.HourText();
    assert forall i :: 0 <= i < |hour| ==> IsDigit(hour[i]);
    assert forall i :: 0 <= i < |sp.MinuteDigits()| ==> IsDigit(sp.MinuteDigits()[i]);
    assert forall i :: 0 <= i < |t| ==> !('A' <= t[i] <= 'Z');
  }

  /** Surrounding whitespace and letter case do not matter: any token whose lower-cased
      core is a valid spelling parses to that spelling's time. */
  lemma ParseTimeNormalises(ws1: string, u: string, ws2: string, sp: Spelling)
    requires sp.Valid()
    requires AllSpace(ws1) && AllSpace(ws2)
    requires Lower(u) == sp.Text()
    ensures ParseTime(ws1 + u + ws2) == Ok(sp.Value())
  {
    var t := sp.Text();
    TextShape(sp);
    assert LowerChar(u[0]) == t[0] && LowerChar(u[|u| - 1]) == t[|t| - 1];
    LowerKeepsSpace(u[0]);
    LowerKeepsSpace(u[|u| - 1]);
    StripOfPadded(ws1, u, ws2);
    ReadSpellingComplete(sp);
  }

  /** The text of a spelling starts with a digit, ends with 'm', has no upper-case letter,
      and has ':' right after the hour exactly when minutes are written. */
  lemma TextShape(sp: Spelling)
    requires sp.Valid()
    ensures var t := sp.Text();
            && |t| >= 3 && IsDigit(t[0]) && t[|t| - 1] == 'm' && NoUpper(t)
            && (sp.form != NoMinutes ==> t[|sp.HourText()|] == ':')
            && (sp.form == NoMinutes ==> ':' !in t)
  {
    var t := sp.Text();
    assert t[0] == sp.HourText()[0];
  }

  /** `parse_time` ignores case: tokens equal after lower-casing parse alike. */
  lemma ParseTimeIgnoresCase(a: string, b: string)
    requires Lower(a) == Lower(b)
    ensures ParseTime(a) == ParseTime(b)
  {
    StripLower(a);
    StripLower(b);
  }

  /** A spelling written plainly (lower case, no surrounding whitespace) parses to its time. */
  lemma ParsePlainSpelling(sp: Spelling)
    requires sp.Valid()
    ensures ParseTime(sp.Text()) == Ok(sp.Value())
  {
    TextShape(sp);
    NormalFormOfPlain(sp.Text());
    ReadSpellingComplete(sp);
  }

  /** A canonical 12-hour rendering of a time: no leading zero, minutes only when non-zero. */
  function RenderSpelling(t: ClockTime): (sp: Spelling)
    requires t.Valid()
    ensures sp.Valid()
  {
    var h12 := if t.hour % 12 == 0 then 12 else t.hour % 12;
    Spelling(h12, t.minute, t.hour >= 12, false, if t.minute == 0 then NoMinutes else TwoDigits)
  }

  /** Every valid time of day is reached by the parser: rendering it in 12-hour form and
      parsing the rendering gives it back. */
  lemma ParseRenderRoundTrip(t: ClockTime)
    requires t.Valid()
    ensures ParseTime(RenderSpelling(t).Text()) == Ok(t)
  {
    RenderSpellingValue(t);
    ParsePlainSpelling(RenderSpelling(t));
  }

  lemma RenderSpellingValue(t: ClockTime)
    requires t.Valid()
    ensures RenderSpelling(t).Value() == t
  {
    if t.hour < 12 {
      assert t.hour % 12 == t.hour;
    } else {
      assert t.hour % 12 == t.hour - 12;
    }
  }

  /** "Ham" is hour H and "Hpm" is hour H+12 for H in 1..11; "12am" is midnight and "12pm"
      is noon; with no ":MM" the minute is 0. */
  lemma ParseTimeBareHour(h: nat, pm: bool)
    requires 1 <= h <= 12
    ensures var hour := if h == 12 then (if pm then 12 else 0) else (if pm then h + 12 else h);
            ParseTime(NatToString(h) + (if pm then "pm" else "am")) == Ok(ClockTime(hour, 0))
  {
    BareHourSpelling(h, pm);
    ParsePlainSpelling(Spelling(h, 0, pm, false, NoMinutes));
  }

  lemma BareHourSpelling(h: nat, pm: bool)
    requires 1 <= h <= 12
    ensures var sp := Spelling(h, 0, pm, false, NoMinutes);
            && sp.Valid()
            && sp.Text() == NatToString(h) + (if pm then "pm" else "am")
            && sp.Value() == ClockTime(if h == 12 then (if pm then 12 else 0) else (if pm then h + 12 else h), 0)
  {
    var sp := Spelling(h, 0, pm, false, NoMinutes);
    assert sp.HourText() == NatToString(h);
  }

  /** "2pm", the first sample token of the comment on `parse_time`, is 14:00. */
  lemma TwoPm(t: string)
    requires t == "2pm"
    ensures ParseTime(t) == Ok(ClockTime(14, 0))
  {
    BareExample(2, true, t);
  }

  /** "12am" is midnight. */
  lemma Midnight(t: string)
    requires t == "12am"
    ensures ParseTime(t) == Ok(ClockTime(0, 0))
  {
    TwelveText();
    BareExample(12, false, t);
  }

  /** "12pm" is noon. */
  lemma Noon(t: string)
    requires t == "12pm"
    ensures ParseTime(t) == Ok(ClockTime(12, 0))
  {
    TwelveText();
    BareExample(12, true, t);
  }

  lemma TwelveText()
    ensures NatToString(12) == "12"
  {
    assert NatToString(12) == NatToString(1) + [DigitChar(2)];
  }

  lemma BareExample(h: nat, pm: bool, text: string)
    requires 1 <= h <= 12
    requires text == NatToString(h) + (if pm then "pm" else "am")
    ensures ParseTime(text) == Ok(ClockTime(if h == 12 then (if pm then 12 else 0) else (if pm then h + 12 else h), 0))
  {
    ParseTimeBareHour(h, pm);
  }

  /** "12:30pm", the comment's sample with minutes, is half past noon. */
  lemma HalfPastNoon(t: string)
    requires t == "12:30pm"
    ensures ParseTime(t) == Ok(ClockTime(12, 30))
  {
    var sp := Spelling(12, 30, true, false, TwoDigits);
    HalfPastNoonText(sp);
    ParsePlainSpelling(sp);
  }

  lemma HalfPastNoonText(sp: Spelling)
    requires sp == Spelling(12, 30, true, false, TwoDigits)
    ensures sp.Valid() && sp.Text() == "12:30pm" && sp.Value() == ClockTime(12, 30)
  {
    assert sp.HourText() == "12" by {
      TwelveText();
    }
    assert sp.MinuteDigits() == "30";
  }

  /** Leading and trailing whitespace and upper case: " " + "9PM" + "\t" is 21:00. */
  lemma ParseTimePaddedUpper(ws1: string, u: string, ws2: string)
    requires ws1 == " " && u == "9PM" && ws2 == "\t"
    ensures ParseTime(ws1 + u + ws2) == Ok(ClockTime(21, 0))
  {
    var sp := Spelling(9, 0, true, false, NoMinutes);
    NinePmText(sp);
    LowerNinePm(u);
    ParseTimeNormalises(ws1, u, ws2, sp);
  }

  lemma NinePmText(sp: Spelling)
    requires sp == Spelling(9, 0, true, false, NoMinutes)
    ensures sp.Valid() && sp.Text() == "9pm" && sp.Value() == ClockTime(21, 0)
  {
  }

  lemma LowerNinePm(u: string)
    requires u == "9PM"
    ensures Lower(u) == "9pm"
  {
  }

  /** A token written in lower case without surrounding whitespace is its own normal form. */
  lemma NormalFormOfPlain(t: string)
    requires |t| >= 1 && IsDigit(t[0]) && t[|t| - 1] == 'm' && NoUpper(t)
    ensures Lower(Strip(t)) == t
  {
    StripOfPadded("", t, "");
    assert "" + t + "" == t;
    LowerOfNoUpper(t);
  }

  lemma HourTextIsNumber(sp: Spelling, n: nat)
    requires sp.Valid()
    requires sp.HourText() == NatToString(n)
    ensures 1 <= n <= 12
  {
    if !sp.zeroPad {
      NatToStringInjective(sp.hour12, n);
    }
  }

  lemma SpelledHour(sp: Spelling, n: nat, pm: bool)
    requires sp.Valid()
    requires sp.Text() == NatToString(n) + (if pm then "pm" else "am")
    ensures 1 <= n <= 12
  {
    var t := sp.Text();
    TextShape(sp);
    if sp.form != NoMinutes {
      assert false;
    }
    assert t[..|t| - 2] == sp.HourText();
    assert t[..|t| - 2] == NatToString(n);
    HourTextIsNumber(sp, n);
  }

  /** An hour outside 1..12 is rejected. */
  lemma HourOutOfRangeRejected(n: nat, pm: bool)
    requires n == 0 || n > 12
    ensures ParseTime(NatToString(n) + (if pm then "pm" else "am")).Err?
  {
    var suffix := if pm then "pm" else "am";
    NoUpperNumber(n);
    PlainToken(NatToString(n), suffix);
    NoReadingOfHour(n, pm);
    PlainRejected(NatToString(n) + suffix);
  }

  /** An hour outside 1..12 is rejected when minutes follow it too, whatever the minute text
      (`%I:%M%p`). */
  lemma HourOutOfRangeWithMinutesRejected(n: nat, mins: string, pm: bool)
    requires n == 0 || n > 12
    requires ':' !in mins && NoUpper(mins)
    ensures ParseTime(NatToString(n) + ":" + mins + (if pm then "pm" else "am")).Err?
  {
    var suffix := if pm then "pm" else "am";
    var num := NatToString(n) + ":" + mins;
    NoUpperNumber(n);
    NoUpperConcat(NatToString(n), ":");
    NoUpperConcat(NatToString(n) + ":", mins);
    assert num[0] == NatToString(n)[0];
    PlainToken(num, suffix);
    NoReadingOfHourWithMinutes(n, mins, pm);
    PlainRejected(num + suffix);
  }

  /** A plainly written token that the grammar does not read is rejected. */
  lemma PlainRejected(t: string)
    requires |t| >= 1 && IsDigit(t[0]) && t[|t| - 1] == 'm' && NoUpper(t)
    requires ReadSpelling(t).None?
    ensures ParseTime(t).Err?
  {
    NormalFormOfPlain(t);
  }

  lemma NoReadingOfHour(n: nat, pm: bool)
    requires n == 0 || n > 12
    ensures ReadSpelling(NatToString(n) + (if pm then "pm" else "am")).None?
  {
    var r := ReadSpelling(NatToString(n) + (if pm then "pm" else "am"));
    if r.Some? {
      SpelledHour(r.value, n, pm);
      assert false;
    }
  }

  lemma NoReadingOfHourWithMinutes(n: nat, mins: string, pm: bool)
    requires n == 0 || n > 12
    requires ':' !in mins
    ensures ReadSpelling(NatToString(n) + ":" + mins + (if pm then "pm" else "am")).None?
  {
    var r := ReadSpelling(NatToString(n) + ":" + mins + (if pm then "pm" else "am"));
    if r.Some? {
      SpelledHourWithMinutes(r.value, n, mins, pm);
      assert false;
    }
  }

  lemma SpelledHourWithMinutes(sp: Spelling, n: nat, mins: string, pm: bool)
    requires sp.Valid() && ':' !in mins
    requires sp.Text() == NatToString(n) + ":" + mins + (if pm then "pm" else "am")
    ensures 1 <= n <= 12
  {
    var t := sp.Text();
    TextShape(sp);
    if sp.form == NoMinutes {
      assert false;
    }
    var body := t[..|t| - 2];
    assert body == NatToString(n) + ":" + mins;
    assert body == sp.HourText() + ":" + sp.MinuteDigits();
    JoinPairUnique(NatToString(n), mins, sp.HourText(), sp.MinuteDigits(), ':');
    HourTextIsNumber(sp, n);
  }

  lemma MinuteTextIsNumber(sp: Spelling, m: nat)
    requires sp.Valid() && sp.form != NoMinutes
    requires sp.MinuteDigits() == NatToString(m)
    ensures m < 60
  {
    if sp.form == OneDigit {
      NatToStringInjective(sp.minute, m);
    } else {
      DecimalRoundTrip(m);
      assert DecimalValue(sp.MinuteDigits()) == sp.minute;
    }
  }

  lemma SpelledMinute(sp: Spelling, h: nat, m: nat, pm: bool)
    requires sp.Valid()
    requires sp.Text() == NatToString(h) + ":" + NatToString(m) + (if pm then "pm" else "am")
    ensures m < 60
  {
    var t := sp.Text();
    TextShape(sp);
    if sp.form == NoMinutes {
      assert false;
    }
    var body := t[..|t| - 2];
    assert body == NatToString(h) + ":" + NatToString(m);
    assert body == sp.HourText() + ":" + sp.MinuteDigits();
    JoinPairUnique(NatToString(h), NatToString(m), sp.HourText(), sp.MinuteDigits(), ':');
    MinuteTextIsNumber(sp, m);
  }

  /** A number followed by lower-case text ending in 'm' is a plain token. */
  lemma PlainToken(num: string, rest: string)
    requires |num| >= 1 && IsDigit(num[0]) && NoUpper(num)
    requires |rest| >= 1 && rest[|rest| - 1] == 'm' && NoUpper(rest)
    ensures var t := num + rest; |t| >= 1 && IsDigit(t[0]) && t[|t| - 1] == 'm' && NoUpper(t)
  {
    NoUpperConcat(num, rest);
  }

  /** A token "h:mmam" or "h:mmpm" is written plainly. */
  lemma MinuteTokenPlain(h: nat, m: nat, pm: bool)
    ensures var t := NatToString(h) + ":" + NatToString(m) + (if pm then "pm" else "am");
            |t| >= 1 && IsDigit(t[0]) && t[|t| - 1] == 'm' && NoUpper(t)
  {
    var num := NatToString(h) + ":" + NatToString(m);
    NoUpperNumber(h);
    NoUpperNumber(m);
    NoUpperConcat(NatToString(h), ":");
    NoUpperConcat(NatToString(h) + ":", NatToString(m));
    assert num[0] == NatToString(h)[0];
    PlainToken(num, if pm then "pm" else "am");
  }

  /** A minute outside 0..59 is rejected. */
  lemma MinuteOutOfRangeRejected(h: nat, m: nat, pm: bool)
    requires 1 <= h <= 12 && m >= 60
    ensures ParseTime(NatToString(h) + ":" + NatToString(m) + (if pm then "pm" else "am")).Err?
  {
    MinuteTokenPlain(h, m, pm);
    NoReadingOfMinute(h, m, pm);
    PlainRejected(NatToString(h) + ":" + NatToString(m) + (if pm then "pm" else "am"));
  }

  lemma NoReadingOfMinute(h: nat, m: nat, pm: bool)
    requires 1 <= h <= 12 && m >= 60
    ensures ReadSpelling(NatToString(h) + ":" + NatToString(m) + (if pm then "pm" else "am")).None?
  {
    var r := ReadSpelling(NatToString(h) + ":" + NatToString(m) + (if pm then "pm" else "am"));
    if r.Some? {
      SpelledMinute(r.value, h, m, pm);
      assert false;
    }
  }

  /** A token whose normal form does not end in "am" or "pm" is rejected. */
  lemma MissingSuffixRejected(token: string)
    requires var t := Lower(Strip(token)); |t| < 2 || (t[|t| - 2..] != "am" && t[|t| - 2..] != "pm")
    ensures ParseTime(token).Err?
  {
  }
}
