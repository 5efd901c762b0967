/**
  `expand_days`: `re.findall(r'M|Tu|W|Th|F|Sa|Su', days_str)` mapped through `DAY_IDX`.
  The scan goes left to right; at each position the alternatives are tried in order, a
  match is consumed whole, and a position where nothing matches is skipped. Every other
  character (commas, spaces, a lone 'T', lower-case letters) is ignored, and duplicates
  are kept.
 */
module DayCodes {
  import opened Errors
  import opened Strings
  import Grid

  /** The alternatives of the pattern, in order; the i-th one names weekday i. */
  const Codes: seq<string> := ["M", "Tu", "W", "Th", "F", "Sa", "Su"]

  /** `DAY_IDX`. */
  const DayIdx: map<string, nat> := map["M" := 0, "Tu" := 1, "W" := 2, "Th" := 3, "F" := 4, "Sa" := 5, "Su" := 6]

  /** `DAY_IDX` gives each alternative its position in the pattern, which is its weekday. */
  lemma DayIdxNumbersCodes()
    ensures forall i :: 0 <= i < |Codes| ==> Codes[i] in DayIdx && DayIdx[Codes[i]] == i
    ensures forall c :: c in DayIdx ==> c in Codes
  {
  }

  /** How many characters the code of weekday i has. */
  function CodeWidth(i: nat): nat {
    if i == 1 || i == 3 || i == 5 || i == 6 then 2 else 1
  }

  /** The code the pattern matches at the start of `s`, as its weekday index, if any. */
  function MatchAt(s: string): (r: Option<nat>)
    ensures r.Some? ==> r.value < Grid.Days && CodeWidth(r.value) <= |s|
  {
    if |s| == 0 then None
    else if s[0] == 'M' then Some(0)
    else if |s| >= 2 && s[0] == 'T' && s[1] == 'u' then Some(1)
    else if s[0] == 'W' then Some(2)
    else if |s| >= 2 && s[0] == 'T' && s[1] == 'h' then Some(3)
    else if s[0] == 'F' then Some(4)
    else if |s| >= 2 && s[0] == 'S' && s[1] == 'a' then Some(5)
    else if |s| >= 2 && s[0] == 'S' && s[1] == 'u' then Some(6)
    else None
  }

  /** The alternation finds weekday i's code at the start of `s` exactly when that code
      begins `s`: no two codes begin the same string, so the order of the alternatives only
      fixes which one is tried first. */
  lemma MatchAtIsPrefix(s: string)
    ensures forall i :: 0 <= i < |Codes| ==> (MatchAt(s) == Some(i) <==> IsPrefix(Codes[i], s))
  {
  }

  /** `expand_days`: the weekday of each code found, left to right, each in 0..6. */
  function ExpandDays(s: string): (r: seq<nat>)
    ensures forall j :: 0 <= j < |r| ==> r[j] < Grid.Days
    decreases |s|
  {
    if s == [] then []
    else
      match MatchAt(s)
      case Some(i) => [i] + ExpandDays(s[CodeWidth(i)..])
      case None => ExpandDays(s[1..])
  }

  /** Reference reading: one weekday for every position of `s` at which a code begins,
      in order of position. */
  function CodesByPosition(s: string): seq<nat>
    decreases |s|
  {
    if s == [] then []
    else
      (match MatchAt(s) case Some(i) => [i] case None => []) + CodesByPosition(s[1..])
  }

  /** No code begins in the middle of another (their second letters 'u', 'h', 'a' start no
      code), so consuming a match whole finds the same codes as looking at every position. */
  lemma {:induction false} ExpandDaysByPosition(s: string)
    ensures ExpandDays(s) == CodesByPosition(s)
    decreases |s|
  {
    if s != [] {
      if MatchAt(s).Some? && CodeWidth(MatchAt(s).value) == 2 {
        ExpandDaysByPosition(s[2..]);
        ByPositionAfterPair(s);
      } else {
        ExpandDaysByPosition(s[1..]);
        ByPositionAfterOne(s);
      }
    }
  }

  /** The step of `ExpandDaysByPosition` over a two-letter code. */
  lemma ByPositionAfterPair(s: string)
    requires MatchAt(s).Some? && CodeWidth(MatchAt(s).value) == 2
    requires ExpandDays(s[2..]) == CodesByPosition(s[2..])
    ensures ExpandDays(s) == CodesByPosition(s)
  {
    SecondLetterStartsNoCode(s);
    assert s[1..][1..] == s[2..];
    assert CodesByPosition(s[1..]) == CodesByPosition(s[2..]);
  }

  /** The step of `ExpandDaysByPosition` over one character: a one-letter code or a skip. */
  lemma ByPositionAfterOne(s: string)
    requires s != [] && !(MatchAt(s).Some? && CodeWidth(MatchAt(s).value) == 2)
    requires ExpandDays(s[1..]) == CodesByPosition(s[1..])
    ensures ExpandDays(s) == CodesByPosition(s)
  {
  }

  /** The second letter of a two-letter code ('u', 'h' or 'a') begins no code. */
  lemma SecondLetterStartsNoCode(s: string)
    requires MatchAt(s).Some? && CodeWidth(MatchAt(s).value) == 2
    ensures MatchAt(s[1..]).None?
  {
    assert s[1] in "uha";
  }

  /** What follows a single character that is not a code's second letter cannot change
      whether a code begins at that character. */
  lemma MatchAtExtends(a: string, t: string)
    requires |a| >= 2 || (|a| == 1 && (t == [] || t[0] !in "uha"))
    ensures MatchAt(a + t) == MatchAt(a)
  {
    assert (a + t)[0] == a[0];
    if |a| >= 2 {
      assert (a + t)[1] == a[1];
    }
  }

  lemma {:induction false} CodesByPositionAppend(a: string, c: char, b: string)
    requires c !in "MTWFSuha"
    ensures CodesByPosition(a + [c] + b) == CodesByPosition(a) + CodesByPosition(b)
    decreases |a|
  {
    if a == [] {
      assert a + [c] + b == [c] + b;
      assert ([c] + b)[1..] == b;
    } else {
      MatchAtExtends(a, [c] + b);
      assert a + [c] + b == a + ([c] + b);
      assert (a + [c] + b)[1..] == a[1..] + [c] + b;
      CodesByPositionAppend(a[1..], c, b);
    }
  }

  /** A separator such as ',' or ' ' splits the day list: the codes on each side are found
      independently. */
  lemma ExpandDaysSeparated(a: string, c: char, b: string)
    requires c !in "MTWFSuha"
    ensures ExpandDays(a + [c] + b) == ExpandDays(a) + ExpandDays(b)
  {
    ExpandDaysByPosition(a + [c] + b);
    ExpandDaysByPosition(a);
    ExpandDaysByPosition(b);
    CodesByPositionAppend(a, c, b);
  }

  /** A string with none of the code initials yields no weekday. */
  lemma {:induction false} ExpandDaysNoInitials(s: string)
    requires forall j :: 0 <= j < |s| ==> s[j] !in "MTWFS"
    ensures ExpandDays(s) == []
    decreases |s|
  {
    if s != [] {
      assert MatchAt(s).None?;
      ExpandDaysNoInitials(s[1..]);
    }
  }

  /** A code on its own names its weekday. */
  lemma ExpandDaysSingle(i: nat)
    requires i < |Codes|
    ensures ExpandDays(Codes[i]) == [i]
  {
    assert Codes[i][CodeWidth(i)..] == [];
  }

  /** The day string listing the given weekdays' codes, separated by commas. */
  function CodeList(days: seq<nat>): string
    requires forall k :: 0 <= k < |days| ==> days[k] < |Codes|
  {
    if |days| == 0 then ""
    else if |days| == 1 then Codes[days[0]]
    else Codes[days[0]] + "," + CodeList(days[1..])
  }

  /** A code followed by a comma contributes its weekday before the rest. */
  lemma ExpandCodeThenRest(i: nat, rest: string)
    requires i < |Codes|
    ensures ExpandDays(Codes[i] + "," + rest) == [i] + ExpandDays(rest)
  {
    ExpandDaysSingle(i);
    ExpandDaysSeparated(Codes[i], ',', rest);
  }

  /** A comma-separated list of codes expands to their weekdays, in order and with repeats:
      `expand_days` inverts `CodeList`. */
  lemma {:induction false} ExpandCodeList(days: seq<nat>)
    requires forall k :: 0 <= k < |days| ==> days[k] < |Codes|
    ensures ExpandDays(CodeList(days)) == days
  {
    if |days| == 1 {
      ExpandDaysSingle(days[0]);
    } else if |days| >= 2 {
      ExpandCodeList(days[1..]);
      ExpandCodeThenRest(days[0], CodeList(days[1..]));
      assert [days[0]] + days[1..] == days;
    }
  }

  /** The weekday string of the sample data. */
  lemma ExpandDaysWorkweek(s: string)
    requires s == "M,Tu,W,Th,F"
    ensures ExpandDays(s) == [0, 1, 2, 3, 4]
  {
    ExpandCodeList([0, 1, 2, 3, 4]);
    assert CodeList([0, 1, 2, 3, 4]) == s;
  }

  /** A repeated code is kept twice. */
  lemma ExpandDaysRepeated(s: string)
    requires s == "M,M"
    ensures ExpandDays(s) == [0, 0]
  {
    ExpandCodeList([0, 0]);
    assert CodeList([0, 0]) == s;
  }

  /** A space separates as well as a comma. */
  lemma ExpandDaysWeekend()
    ensures ExpandDays("Sa Su") == [5, 6]
  {
    ExpandDaysSingle(5);
    ExpandDaysSingle(6);
    ExpandDaysSeparated("Sa", ' ', "Su");
    assert "Sa" + [' '] + "Su" == "Sa Su";
  }

  /** A lone 'T' names no day, and lower-case codes are not recognised. */
  lemma ExpandDaysIgnored(t: string, lower: string)
    requires t == "T" && lower == "m,tu,w"
    ensures ExpandDays(t) == []
    ensures ExpandDays(lower) == []
  {
    ExpandDaysNoInitials(lower);
  }
}
