/**
 * `formatDate(date, format)`: a format pattern such as "MMM d, yyyy" in which the tokens for the
 * year, month, day, weekday, hours, minutes, seconds and the AM/PM marker are replaced by the
 * date's local-time components, one token kind after another.  The components are inputs here;
 * `None` stands for a missing or an invalid date.
 */
module DateUtils {
  import opened Wrappers
  import opened JsText

  /** What `getFullYear`, `getMonth` (0-based), `getDate`, `getHours`, `getMinutes`, `getSeconds` and `getDay` give */
  datatype DateParts = DateParts(year: int, month: int, day: int, hours: int, minutes: int, seconds: int, dayOfWeek: int)

  /** The ranges the `Date` getters keep to */
  predicate ValidParts(p: DateParts) {
    0 <= p.month < 12 && 1 <= p.day <= 31 && 0 <= p.hours < 24 && 0 <= p.minutes < 60 &&
    0 <= p.seconds < 60 && 0 <= p.dayOfWeek < 7
  }

  const DefaultFormat := "MMM d, yyyy"
  const NotAvailable := "N/A"

  const MonthNames: seq<string> := ["January", "February", "March", "April", "May", "June",
    "July", "August", "September", "October", "November", "December"]
  const MonthShortNames: seq<string> := ["Jan", "Feb", "Mar", "Apr", "May", "Jun",
    "Jul", "Aug", "Sep", "Oct", "Nov", "Dec"]
  const DayNames: seq<string> := ["Sunday", "Monday", "Tuesday", "Wednesday", "Thursday", "Friday", "Saturday"]
  const DayShortNames: seq<string> := ["Sun", "Mon", "Tue", "Wed", "Thu", "Fri", "Sat"]

  /** `hours % 12 || 12`: the hour on a 12-hour clock */
  function Hour12(hours: int): (r: int)
    requires 0 <= hours < 24
    ensures 1 <= r <= 12
    ensures r % 12 == hours % 12
    ensures hours == 0 || hours == 12 <==> r == 12
  {
    if hours % 12 == 0 then 12 else hours % 12
  }

  /** `n.toString().padStart(2, '0')` */
  function Two(n: nat): (r: string)
    ensures forall k :: 0 <= k < |r| ==> IsDigit(r[k])
    ensures n < 100 ==> |r| == 2
  {
    PadStart2(NatToString(n))
  }

  /** Padding adds only a leading zero: the two digits read back as the number. */
  lemma TwoReadsBack(n: nat)
    requires n < 100
    ensures DigitsValue(Two(n)) == n
  {
    var d := NatToString(n);
    var r := Two(n);
    NatToStringValue(n);
    if n < 10 {
      assert r == "0" + d;
      assert r[..1] == "0" && r[..1][..0] == [];
      assert DigitsValue(r[..1]) == 0;
    } else {
      assert |NatToString(n / 10)| == 1;
    }
  }

  /** `String(year).slice(-2)`: the last two characters, or the whole text when it is shorter */
  function LastTwo(s: string): (r: string)
    ensures |s| >= 2 ==> r == s[|s| - 2..]
    ensures |s| < 2 ==> r == s
  {
    if |s| >= 2 then s[|s| - 2..] else s
  }

  /** The AM/PM marker in the case of the token */
  function Meridiem(hours: int, upper: bool): string {
    if hours < 12 then (if upper then "AM" else "am") else (if upper then "PM" else "pm")
  }

  /** The tokens in the order they are chained */
  const Tokens: seq<string> :=
    ["yyyy", "yy", "MMMM", "MMM", "MM", "M", "dd", "d", "EEEE", "EEE",
     "HH", "H", "hh", "h", "mm", "m", "ss", "s", "a", "p"]

  /** The replacements in the order they are chained, each token with the text it is replaced by */
  function Steps(p: DateParts): (r: seq<(string, string)>)
    requires ValidParts(p)
    ensures |r| == 20 && NonEmptyPatterns(r)
    ensures forall k :: 0 <= k < 20 ==> r[k].0 == Tokens[k]
  {
    var h12 := Hour12(p.hours);
    [ ("yyyy", IntToString(p.year)),
      ("yy", LastTwo(IntToString(p.year))),
      ("MMMM", MonthNames[p.month]),
      ("MMM", MonthShortNames[p.month]),
      ("MM", Two(p.month + 1)),
      ("M", NatToString(p.month + 1)),
      ("dd", Two(p.day)),
      ("d", NatToString(p.day)),
      ("EEEE", DayNames[p.dayOfWeek]),
      ("EEE", DayShortNames[p.dayOfWeek]),
      ("HH", Two(p.hours)),
      ("H", NatToString(p.hours)),
      ("hh", Two(h12)),
      ("h", NatToString(h12)),
      ("mm", Two(p.minutes)),
      ("m", NatToString(p.minutes)),
      ("ss", Two(p.seconds)),
      ("s", NatToString(p.seconds)),
      ("a", Meridiem(p.hours, true)),
      ("p", Meridiem(p.hours, false)) ]
  }

  /** `formatDate(date, format)` as written: each replacement rescans the output of the ones before it */
  function FormatDate(date: Option<DateParts>, format: string := DefaultFormat): (r: string)
    requires date.Some? ==> ValidParts(date.value)
    ensures date.None? ==> r == NotAvailable
  {
    if date.None? then NotAvailable else ReplaceInTurn(Steps(date.value), format, false)
  }

  /**
   * Tokens of one letter come longest first, so a shorter token never takes part of a longer one
   * through the pattern text; tokens of different letters never share a first character.
   */
  lemma StepsLongestFirst(p: DateParts)
    requires ValidParts(p)
    ensures var s := Steps(p);
      forall j, k :: 0 <= j < k < 20 && s[j].0[0] == s[k].0[0] ==>
        |s[j].0| > |s[k].0| && forall i :: 0 <= i < |s[j].0| ==> s[j].0[i] == s[k].0[0]
  {
    TokensLongestFirst();
  }

  lemma TokensLongestFirst()
    ensures forall j, k :: 0 <= j < k < 20 && Tokens[j][0] == Tokens[k][0] ==>
              |Tokens[j]| > |Tokens[k]| && forall i :: 0 <= i < |Tokens[j]| ==> Tokens[j][i] == Tokens[k][0]
  {
  }

  /** The first characters of the tokens, in chain order */
  lemma StepHeads(p: DateParts)
    requires ValidParts(p)
    ensures var s := Steps(p);
      && (forall k :: 0 <= k < 2 ==> s[k].0[0] == 'y') && (forall k :: 2 <= k < 6 ==> s[k].0[0] == 'M')
      && (forall k :: 6 <= k < 8 ==> s[k].0[0] == 'd') && (forall k :: 8 <= k < 10 ==> s[k].0[0] == 'E')
      && (forall k :: 10 <= k < 12 ==> s[k].0[0] == 'H') && (forall k :: 12 <= k < 14 ==> s[k].0[0] == 'h')
      && (forall k :: 14 <= k < 16 ==> s[k].0[0] == 'm') && (forall k :: 16 <= k < 18 ==> s[k].0[0] == 's')
      && s[18].0 == "a" && s[19].0 == "p"
  {
    TokenInitials();
  }

  lemma TokenInitials()
    ensures var s := Tokens;
      && (forall k :: 0 <= k < 2 ==> s[k][0] == 'y') && (forall k :: 2 <= k < 6 ==> s[k][0] == 'M')
      && (forall k :: 6 <= k < 8 ==> s[k][0] == 'd') && (forall k :: 8 <= k < 10 ==> s[k][0] == 'E')
      && (forall k :: 10 <= k < 12 ==> s[k][0] == 'H') && (forall k :: 12 <= k < 14 ==> s[k][0] == 'h')
      && (forall k :: 14 <= k < 16 ==> s[k][0] == 'm') && (forall k :: 16 <= k < 18 ==> s[k][0] == 's')
      && s[18] == "a" && s[19] == "p"
  {
  }

  /** The chain on a format whose characters no token before position `k` starts with */
  lemma {:induction false} SkipSteps(p: DateParts, k: nat, f: string)
    requires ValidParts(p) && k <= 20
    requires forall j, i :: 0 <= j < k && 0 <= i < |f| ==> f[i] != Steps(p)[j].0[0]
    ensures ReplaceInTurn(Steps(p), f, false) == ReplaceInTurn(Steps(p)[k..], f, false)
  {
    var s := Steps(p);
    assert s == s[..k] + s[k..];
    ReplaceInTurnAppend(s[..k], s[k..], f, false);
    ReplaceInTurnAbsent(s[..k], f, false);
  }

  /** "a" and "p" give the marker in upper and in lower case: before noon "AM"/"am", from noon on "PM"/"pm". */
  lemma MeridiemTokens(p: DateParts)
    requires ValidParts(p)
    ensures FormatDate(Some(p), "a") == (if p.hours < 12 then "AM" else "PM")
    ensures FormatDate(Some(p), "p") == (if p.hours < 12 then "am" else "pm")
  {
    var s := Steps(p);
    StepHeads(p);
    SkipSteps(p, 18, "a");
    SkipSteps(p, 19, "p");
    var upper := Meridiem(p.hours, true);
    var lower := Meridiem(p.hours, false);
    var t := s[18..];
    assert t[..1] == [s[18]] && t[..1][..0] == [] && t[..|t| - 1] == t[..1] && t[|t| - 1] == s[19];
    assert ReplaceAll("a", "a", upper, false) == upper by { assert "a"[1..] == []; }
    assert ReplaceInTurn(t[..1], "a", false) == upper;
    ReplaceAllAbsent(upper, "p", lower, false);
    assert ReplaceInTurn(t, "a", false) == ReplaceAll(upper, "p", lower, false);
    var u := s[19..];
    assert u[..0] == [] && u == [s[19]];
    assert ReplaceAll("p", "p", lower, false) == lower by { assert "p"[1..] == []; }
    assert ReplaceInTurn(u, "p", false) == ReplaceAll("p", "p", lower, false);
  }

  /** A token on its own becomes its text, and digits pass untouched through tokens that start with a letter. */
  lemma {:induction false} DigitTokenOnce(t: seq<(string, string)>, tok: string, v: string)
    requires NonEmptyPatterns(t) && |t| >= 1 && t[0] == (tok, v)
    requires forall i :: 0 <= i < |v| ==> IsDigit(v[i])
    requires forall j :: 1 <= j < |t| ==> !IsDigit(t[j].0[0])
    ensures ReplaceInTurn(t, tok, false) == v
  {
    var head := t[..1];
    var tail := t[1..];
    assert head[..0] == [] && head[0] == (tok, v);
    assert MatchesAt(tok, tok, false);
    assert ReplaceAll(tok[|tok|..], tok, v, false) == [];
    assert ReplaceAll(tok, tok, v, false) == v;
    assert ReplaceInTurn(head, tok, false) == ReplaceAll(ReplaceInTurn(head[..0], tok, false), tok, v, false);
    assert t == head + tail;
    ReplaceInTurnAppend(head, tail, tok, false);
    forall j, i | 0 <= j < |tail| && 0 <= i < |v|
      ensures !SameChar(v[i], tail[j].0[0], false)
    {
      assert tail[j] == t[j + 1];
    }
    ReplaceInTurnAbsent(tail, v, false);
  }

  /** "hh" shows the 12-hour clock with two digits: hour 0 and hour 12 both show "12". */
  lemma TwelveHourToken(p: DateParts)
    requires ValidParts(p)
    ensures FormatDate(Some(p), "hh") == Two(Hour12(p.hours))
    ensures p.hours == 0 ==> FormatDate(Some(p), "hh") == "12"
  {
    var s := Steps(p);
    StepHeads(p);
    SkipSteps(p, 12, "hh");
    var v := Two(Hour12(p.hours));
    var t := s[12..];
    assert forall j :: 1 <= j < |t| ==> t[j].0[0] in "hmsap";
    DigitTokenOnce(t, "hh", v);
    if p.hours == 0 {
      MidnightTwelve();
    }
  }

  lemma MidnightTwelve()
    ensures Two(Hour12(0)) == "12"
  {
    assert NatToString(12) == "12" by { assert NatToString(1) == "1" && NatToString(2) == "2"; }
  }

  // ---------------------------------------------------------------------------------------------
  // The default format in January, as written

  predicate NumberChars(y: string) {
    forall k :: 0 <= k < |y| ==> IsDigit(y[k]) || y[k] == '-'
  }

  /** The decimal text of an integer has only digits and a leading minus sign. */
  lemma NumberText(n: int)
    ensures NumberChars(IntToString(n))
  {
    if n < 0 {
      var d := NatToString(-n);
      assert forall k :: 1 <= k < |IntToString(n)| ==> IntToString(n)[k] == d[k - 1];
    }
  }

  /** One more link of a replacement chain */
  lemma StepOn(t: seq<(string, string)>, k: nat, f: string, x: string)
    requires NonEmptyPatterns(t) && k < |t| && ReplaceInTurn(t[..k], f, false) == x
    ensures ReplaceInTurn(t[..k + 1], f, false) == ReplaceAll(x, t[k].0, t[k].1, false)
  {
    assert t[..k + 1][..k] == t[..k];
  }

  /** A pattern that starts with none of the characters of a literal head and of a number leaves them alone */
  lemma MissesNumber(head: string, x: string, pat: string, rep: string)
    requires |pat| > 0 && !IsDigit(pat[0]) && pat[0] != '-' && NumberChars(x)
    requires forall k :: 0 <= k < |head| ==> head[k] != pat[0]
    ensures ReplaceAll(head + x, pat, rep, false) == head + x
  {
    ReplaceAllSkips(head, x, pat, rep, false);
    ReplaceAllAbsent(x, pat, rep, false);
  }

  lemma YearStep(f: string, y: string)
    requires f == DefaultFormat && NumberChars(y)
    ensures ReplaceAll(f, "yyyy", y, false) == "MMM d, " + y
  {
    assert f == "MMM d, " + "yyyy";
    ReplaceAllSkips("MMM d, ", "yyyy", "yyyy", y, false);
    assert ReplaceAll("yyyy", "yyyy", y, false) == y by { assert "yyyy"[4..] == []; }
  }

  lemma LongMonthStep(y: string, rep: string)
    requires NumberChars(y)
    ensures ReplaceAll("MMM d, " + y, "MMMM", rep, false) == "MMM d, " + y
  {
    var x := "MMM d, " + y;
    forall i | 0 <= i < |x|
      ensures !MatchesAt(x[i..], "MMMM", false)
    {
      if i < 3 {
        assert |x[i..]| < 4 || x[i..][3 - i] == ' ';
      } else {
        assert x[i..][0] == x[i] != 'M';
      }
    }
    ReplaceAllNoMatch(x, "MMMM", rep, false);
  }

  lemma ShortMonthStep(y: string, name: string)
    requires NumberChars(y)
    ensures ReplaceAll("MMM d, " + y, "MMM", name, false) == name + " d, " + y
  {
    var x := "MMM d, " + y;
    assert MatchesAt(x, "MMM", false);
    assert x[3..] == " d, " + y;
    MissesNumber(" d, ", y, "MMM", name);
  }

  lemma DoubleDayStep(y: string, rep: string)
    requires NumberChars(y)
    ensures ReplaceAll("Jan d, " + y, "dd", rep, false) == "Jan d, " + y
  {
    var z := "Jan d, " + y;
    forall i | 0 <= i < |z|
      ensures !MatchesAt(z[i..], "dd", false)
    {
      if i == 4 {
        assert z[i..][1] == ',';
      } else {
        assert z[i..][0] == z[i] != 'd';
      }
    }
    ReplaceAllNoMatch(z, "dd", rep, false);
  }

  lemma DayStep(y: string, d: string)
    requires NumberChars(y)
    ensures ReplaceAll("Jan d, " + y, "d", d, false) == "Jan " + d + ", " + y
  {
    assert "Jan d, " + y == "Jan " + ("d" + (", " + y));
    ReplaceAllSkips("Jan ", "d" + (", " + y), "d", d, false);
    assert ("d" + (", " + y))[1..] == ", " + y;
    MissesNumber(", ", y, "d", d);
  }

  /** A one-character pattern that occurs once, between `a` and `b`, is replaced there and nowhere else. */
  lemma ReplaceSingleChar(a: string, c: char, b: string, rep: string)
    requires c !in a && c !in b
    ensures ReplaceAll(a + [c] + b, [c], rep, false) == a + rep + b
  {
    ReplaceAllSkips(a, [c] + b, [c], rep, false);
    assert a + [c] + b == a + ([c] + b);
    assert ([c] + b)[1..] == b;
    ReplaceAllAbsent(b, [c], rep, false);
  }

  /** The decimal text of a number holds no letter. */
  lemma NumberLacks(x: string, c: char)
    requires NumberChars(x) && !IsDigit(c) && c != '-'
    ensures c !in x
  {
  }

  lemma JanuaryPieces(d: string, y: string, jan: string, rest: string)
    requires jan == "Jan " && rest == "n " + d + ", " + y
    ensures jan + d + ", " + y == "J" + ['a'] + rest
    ensures 'a' !in "J" && 'a' !in "n " && 'a' !in ", "
  {
    assert jan == "J" + ['a'] + "n ";
  }

  lemma MarkerStep(y: string, d: string, upper: string)
    requires NumberChars(y) && NumberChars(d)
    ensures ReplaceAll("Jan " + d + ", " + y, "a", upper, false) == "J" + upper + "n " + d + ", " + y
  {
    var rest := "n " + d + ", " + y;
    JanuaryPieces(d, y, "Jan ", rest);
    NumberLacks(d, 'a');
    NumberLacks(y, 'a');
    AbsentFromDate('a', "n ", d, y);
    ReplaceSingleChar("J", 'a', rest, upper);
    assert "a" == ['a'];
    DatePrefix("J" + upper, d, y);
  }

  /** A character in none of the pieces of a date is not in the date. */
  lemma AbsentFromDate(c: char, month: string, d: string, y: string)
    requires c !in month && c !in d && c !in ", " && c !in y
    ensures c !in month + d + ", " + y
  {
  }

  /** Putting a prefix in front of "n " and the rest of a date */
  lemma DatePrefix(x: string, d: string, y: string)
    ensures x + ("n " + d + ", " + y) == x + "n " + d + ", " + y
  {
  }

  /** The first four steps on the default format: the year and the short month name are in */
  lemma {:induction false} DefaultHeadSteps(t: seq<(string, string)>, f: string, y: string)
    requires NonEmptyPatterns(t) && |t| == 20 && NumberChars(y)
    requires ReplaceAll(f, "yyyy", y, false) == "MMM d, " + y
    requires t[0] == ("yyyy", y) && t[1].0 == "yy" && t[2].0 == "MMMM" && t[3] == ("MMM", "Jan")
    ensures ReplaceInTurn(t[..4], f, false) == "Jan d, " + y
  {
    DefaultYearSteps(t, f, y);
    DefaultMonthSteps(t, f, y);
  }

  /** Steps two and three on the default format: "MMMM" finds nothing, "MMM" becomes the short month name */
  lemma {:induction false} DefaultMonthSteps(t: seq<(string, string)>, f: string, y: string)
    requires NonEmptyPatterns(t) && |t| == 20 && NumberChars(y)
    requires ReplaceInTurn(t[..2], f, false) == "MMM d, " + y
    requires t[2].0 == "MMMM" && t[3] == ("MMM", "Jan")
    ensures ReplaceInTurn(t[..4], f, false) == "Jan d, " + y
  {
    var x := "MMM d, " + y;
    StepOn(t, 2, f, x);
    LongMonthStep(y, t[2].1);
    StepOn(t, 3, f, x);
    ShortMonthStep(y, "Jan");
  }

  /** Steps zero and one on the default format: the year is in, and "yy" finds nothing left */
  lemma {:induction false} DefaultYearSteps(t: seq<(string, string)>, f: string, y: string)
    requires NonEmptyPatterns(t) && |t| == 20 && NumberChars(y)
    requires ReplaceAll(f, "yyyy", y, false) == "MMM d, " + y
    requires t[0] == ("yyyy", y) && t[1].0 == "yy"
    ensures ReplaceInTurn(t[..2], f, false) == "MMM d, " + y
  {
    assert t[..0] == [];
    StepOn(t, 0, f, f);
    var x := "MMM d, " + y;
    StepOn(t, 1, f, x);
    MissesNumber("MMM d, ", y, "yy", t[1].1);
  }

  /** Steps four to seven on the default format: the day is in */
  lemma {:induction false} DefaultDaySteps(t: seq<(string, string)>, f: string, y: string, d: string)
    requires NonEmptyPatterns(t) && |t| == 20 && NumberChars(y)
    requires ReplaceInTurn(t[..4], f, false) == "Jan d, " + y
    requires t[4].0 == "MM" && t[5].0 == "M" && t[6].0 == "dd" && t[7] == ("d", d)
    ensures ReplaceInTurn(t[..8], f, false) == "Jan " + d + ", " + y
  {
    DefaultMonthNumberSteps(t, f, y);
    var z := "Jan d, " + y;
    StepOn(t, 6, f, z);
    DoubleDayStep(y, t[6].1);
    StepOn(t, 7, f, z);
    DayStep(y, d);
  }

  /** Steps four and five on the default format: the month number tokens find nothing */
  lemma {:induction false} DefaultMonthNumberSteps(t: seq<(string, string)>, f: string, y: string)
    requires NonEmptyPatterns(t) && |t| == 20 && NumberChars(y)
    requires ReplaceInTurn(t[..4], f, false) == "Jan d, " + y
    requires t[4].0 == "MM" && t[5].0 == "M"
    ensures ReplaceInTurn(t[..6], f, false) == "Jan d, " + y
  {
    var z := "Jan d, " + y;
    StepOn(t, 4, f, z);
    MissesNumber("Jan d, ", y, "MM", t[4].1);
    StepOn(t, 5, f, z);
    MissesNumber("Jan d, ", y, "M", t[5].1);
  }

  /** Text with no token letter and no "a" or "p" beyond the one "a" of "Jan" */
  lemma NoTokenLetters(w: string, t: seq<(string, string)>, y: string, d: string)
    requires w == "Jan " + d + ", " + y && NumberChars(y) && NumberChars(d)
    requires NonEmptyPatterns(t) && forall k :: 0 <= k < |t| ==> t[k].0[0] in "EHhms"
    ensures ReplaceInTurn(t, w, false) == w
  {
    forall k, i | 0 <= k < |t| && 0 <= i < |w|
      ensures !SameChar(w[i], t[k].0[0], false)
    {
      if i >= 4 + |d| + 2 {
        assert w[i] == y[i - 4 - |d| - 2];
      } else if i >= 4 && i < 4 + |d| {
        assert w[i] == d[i - 4];
      }
    }
    ReplaceInTurnAbsent(t, w, false);
  }

  /** The two AM/PM steps on the text the first eighteen steps leave */
  lemma {:induction false} MarkerSteps(u: seq<(string, string)>, y: string, d: string, upper: string)
    requires NonEmptyPatterns(u) && |u| == 2 && NumberChars(y) && NumberChars(d) && (upper == "AM" || upper == "PM")
    requires u[0] == ("a", upper) && u[1].0 == "p"
    ensures ReplaceInTurn(u, "Jan " + d + ", " + y, false) == "J" + upper + "n " + d + ", " + y
  {
    var w := "Jan " + d + ", " + y;
    assert u[..0] == [];
    StepOn(u, 0, w, w);
    MarkerStep(y, d, upper);
    var v := "J" + upper + "n " + d + ", " + y;
    StepOn(u, 1, w, v);
    MarkerLast(v, upper, d, y, u[1].1);
    assert u[..2] == u;
  }

  /** The chain on the default format for a table holding January's short name and the given texts */
  lemma {:induction false} DefaultChainJanuary(t: seq<(string, string)>, f: string, y: string, d: string, upper: string)
    requires NonEmptyPatterns(t) && |t| == 20 && ReplaceAll(f, "yyyy", y, false) == "MMM d, " + y
    requires NumberChars(y) && NumberChars(d) && (upper == "AM" || upper == "PM")
    requires t[0] == ("yyyy", y) && t[1].0 == "yy" && t[2].0 == "MMMM" && t[3] == ("MMM", "Jan")
    requires t[4].0 == "MM" && t[5].0 == "M" && t[6].0 == "dd" && t[7] == ("d", d) && t[18] == ("a", upper) && t[19].0 == "p"
    requires forall k :: 8 <= k < 18 ==> t[k].0[0] in "EHhms"
    ensures ReplaceInTurn(t, f, false) == "J" + upper + "n " + d + ", " + y
  {
    DefaultHeadSteps(t, f, y);
    DefaultDaySteps(t, f, y, d);
    var w := "Jan " + d + ", " + y;
    assert t == t[..8] + t[8..18] + t[18..];
    ReplaceInTurnAppend(t[..8], t[8..18], f, false);
    ReplaceInTurnAppend(t[..8] + t[8..18], t[18..], f, false);
    NoTokenLetters(w, t[8..18], y, d);
    MarkerSteps(t[18..], y, d, upper);
  }

  lemma MarkerLast(v: string, upper: string, d: string, y: string, rep: string)
    requires v == "J" + upper + "n " + d + ", " + y && (upper == "AM" || upper == "PM") && NumberChars(y) && NumberChars(d)
    ensures ReplaceAll(v, "p", rep, false) == v
  {
    forall i | 0 <= i < |v|
      ensures v[i] != 'p'
    {
      if i >= 1 + 2 + 2 + |d| + 2 {
        assert v[i] == y[i - 7 - |d|];
      } else if i >= 5 && i < 5 + |d| {
        assert v[i] == d[i - 5];
      }
    }
    ReplaceAllAbsent(v, "p", rep, false);
  }

  /** The entries of the January table the default format meets */
  lemma JanuarySteps(p: DateParts)
    requires ValidParts(p) && p.month == 0
    ensures var t := Steps(p);
      && t[0] == ("yyyy", IntToString(p.year)) && t[1].0 == "yy" && t[2].0 == "MMMM" && t[3] == ("MMM", "Jan")
      && t[4].0 == "MM" && t[5].0 == "M" && t[6].0 == "dd" && t[7] == ("d", NatToString(p.day))
      && t[18] == ("a", Meridiem(p.hours, true)) && t[19].0 == "p"
      && forall k :: 8 <= k < 18 ==> t[k].0[0] in "EHhms"
  {
    StepHeads(p);
  }

  /**
   * The default format in January, as written: the "a" of "Jan", put in by the "MMM" step, is
   * rescanned by the AM/PM step, so the month shows as "JAMn" or "JPMn".
   */
  lemma DefaultFormatJanuaryAsWritten(p: DateParts, f: string)
    requires ValidParts(p) && p.month == 0 && f == DefaultFormat
    ensures FormatDate(Some(p), f) ==
              "J" + Meridiem(p.hours, true) + "n " + NatToString(p.day) + ", " + IntToString(p.year)
  {
    var y := IntToString(p.year);
    var upper := Meridiem(p.hours, true);
    JanuarySteps(p);
    NumberText(p.year);
    NumberText(p.day);
    YearStep(f, y);
    assert upper == "AM" || upper == "PM";
    DefaultChainJanuary(Steps(p), f, y, NatToString(p.day), upper);
  }

  /** The first entry of `t`, from position `k` on, whose token starts `f` */
  function TokenFrom(t: seq<(string, string)>, f: string, k: nat): (r: Option<nat>)
    requires k <= |t|
    ensures r.Some? ==> k <= r.value < |t| && MatchesAt(f, t[r.value].0, false)
    ensures r.Some? ==> forall j :: k <= j < r.value ==> !MatchesAt(f, t[j].0, false)
    ensures r.None? <==> forall j :: k <= j < |t| ==> !MatchesAt(f, t[j].0, false)
    decreases |t| - k
  {
    if k == |t| then None
    else if MatchesAt(f, t[k].0, false) then Some(k)
    else TokenFrom(t, f, k + 1)
  }

  /**
   * The single pass `formatDate` evidently intends: at each position the first token of the table
   * that starts there is replaced by its value and skipped, any other character is copied; values
   * are never scanned again.
   */
  function FormatOnce(t: seq<(string, string)>, f: string): (r: string)
    requires NonEmptyPatterns(t)
    decreases |f|
  {
    if f == [] then []
    else match TokenFrom(t, f, 0)
      case Some(k) => t[k].1 + FormatOnce(t, f[|t[k].0|..])
      case None => [f[0]] + FormatOnce(t, f[1..])
  }

  /** `formatDate` with the replacements done in one pass */
  function FormatDateFixed(date: Option<DateParts>, format: string := DefaultFormat): (r: string)
    requires date.Some? ==> ValidParts(date.value)
    ensures date.None? ==> r == NotAvailable
  {
    if date.None? then NotAvailable else FormatOnce(Steps(date.value), format)
  }

  /** A format in which no token starts anywhere is copied as it is. */
  lemma {:induction false} FormatOnceLiteral(t: seq<(string, string)>, f: string)
    requires NonEmptyPatterns(t)
    requires forall i, k :: 0 <= i < |f| && 0 <= k < |t| ==> f[i] != t[k].0[0]
    ensures FormatOnce(t, f) == f
  {
    if f != [] {
      forall k | 0 <= k < |t|
        ensures !MatchesAt(f, t[k].0, false)
      {
        assert f[0] != t[k].0[0];
      }
      assert forall i, k :: 0 <= i < |f[1..]| && 0 <= k < |t| ==> f[1..][i] != t[k].0[0] by {
        forall i, k | 0 <= i < |f[1..]| && 0 <= k < |t|
          ensures f[1..][i] != t[k].0[0]
        {
          assert f[1..][i] == f[i + 1];
        }
      }
      FormatOnceLiteral(t, f[1..]);
      assert f == [f[0]] + f[1..];
    }
  }

  /** A token at the head of the format puts its value in front of the formatted rest, whatever the value holds. */
  lemma TokenFirst(t: seq<(string, string)>, k: nat, f: string, rest: string)
    requires NonEmptyPatterns(t) && k < |t| && f == t[k].0 + rest
    requires forall j :: 0 <= j < k ==> !MatchesAt(f, t[j].0, false)
    ensures FormatOnce(t, f) == t[k].1 + FormatOnce(t, rest)
  {
    var pat := t[k].0;
    assert MatchesAt(f, pat, false) by {
      assert forall i :: 0 <= i < |pat| ==> f[i] == pat[i];
    }
    var r := TokenFrom(t, f, 0);
    assert r == Some(k);
    assert f != [];
    assert f[|pat|..] == rest;
  }

  /** The characters the tokens of `Steps` start with */
  const TokenHeads: set<char> := {'y', 'M', 'd', 'E', 'H', 'h', 'm', 's', 'a', 'p'}

  predicate HeadsAmongTokens(t: seq<(string, string)>) {
    NonEmptyPatterns(t) && forall k :: 0 <= k < |t| ==> t[k].0[0] in TokenHeads
  }

  /** A character no token starts with is copied in front of the formatted rest. */
  lemma CopiedFirst(t: seq<(string, string)>, c: char, rest: string)
    requires HeadsAmongTokens(t) && c !in TokenHeads
    ensures FormatOnce(t, [c] + rest) == [c] + FormatOnce(t, rest)
  {
    var f := [c] + rest;
    forall k | 0 <= k < |t|
      ensures !MatchesAt(f, t[k].0, false)
    {
      assert f[0] == c && t[k].0[0] in TokenHeads;
    }
    assert TokenFrom(t, f, 0).None?;
    assert f[1..] == rest;
  }

  /** "yyyy" in one pass */
  lemma YearOnce(t: seq<(string, string)>, y: string)
    requires HeadsAmongTokens(t) && |t| > 0 && t[0] == ("yyyy", y)
    ensures FormatOnce(t, "yyyy") == y
  {
    TokenFirst(t, 0, "yyyy", "");
    assert FormatOnce(t, []) == [];
  }

  /** ", yyyy" in one pass */
  lemma CommaYearOnce(t: seq<(string, string)>, y: string, yyyy: string)
    requires HeadsAmongTokens(t) && |t| > 0 && t[0] == ("yyyy", y) && yyyy == "yyyy"
    ensures FormatOnce(t, [','] + ([' '] + yyyy)) == [','] + ([' '] + y)
  {
    YearOnce(t, y);
    CopiedFirst(t, ' ', yyyy);
    CopiedFirst(t, ',', [' '] + yyyy);
  }

  /** "d, yyyy" in one pass: "dd" does not match, "d" does */
  lemma DayOnce(t: seq<(string, string)>, d: string, y: string, yyyy: string)
    requires HeadsAmongTokens(t) && |t| == 20 && t[0] == ("yyyy", y) && t[7] == ("d", d) && yyyy == "yyyy"
    requires forall j :: 0 <= j < 7 ==> t[j].0[0] != 'd' || t[j].0 == "dd"
    ensures FormatOnce(t, ['d'] + ([','] + ([' '] + yyyy))) == d + ([','] + ([' '] + y))
  {
    var rest := [','] + ([' '] + yyyy);
    var tail := ['d'] + rest;
    CommaYearOnce(t, y, yyyy);
    forall j | 0 <= j < 7
      ensures !MatchesAt(tail, t[j].0, false)
    {
      if t[j].0 == "dd" {
        assert tail[1] == ',';
      } else {
        assert tail[0] == 'd';
      }
    }
    assert tail == t[7].0 + rest;
    TokenFirst(t, 7, tail, rest);
  }

  /** "MMM" followed by a space in one pass: "MMMM" does not match, "MMM" does */
  lemma ShortMonthOnce(t: seq<(string, string)>, month: string, rest: string)
    requires HeadsAmongTokens(t) && |t| == 20 && t[0].0 == "yyyy" && t[1].0 == "yy"
    requires t[2].0 == "MMMM" && t[3] == ("MMM", month) && |rest| > 0 && rest[0] == ' '
    ensures FormatOnce(t, t[3].0 + rest) == month + FormatOnce(t, rest)
  {
    var f := t[3].0 + rest;
    assert !MatchesAt(f, t[0].0, false) by { assert f[0] == 'M'; }
    assert !MatchesAt(f, t[1].0, false) by { assert f[0] == 'M'; }
    assert !MatchesAt(f, t[2].0, false) by { assert f[3] == ' '; }
    TokenFirst(t, 3, f, rest);
  }

  /** " d, yyyy" in one pass */
  lemma SpaceDayOnce(t: seq<(string, string)>, d: string, y: string, yyyy: string)
    requires HeadsAmongTokens(t) && |t| == 20 && t[0] == ("yyyy", y) && t[7] == ("d", d) && yyyy == "yyyy"
    requires forall j :: 0 <= j < 7 ==> t[j].0[0] != 'd' || t[j].0 == "dd"
    ensures FormatOnce(t, [' '] + (['d'] + ([','] + ([' '] + yyyy)))) == [' '] + (d + ([','] + ([' '] + y)))
  {
    DayOnce(t, d, y, yyyy);
    CopiedFirst(t, ' ', ['d'] + ([','] + ([' '] + yyyy)));
  }

  /** The default format, cut where the one-pass lemmas cut it */
  lemma DefaultFormatPieces()
    ensures DefaultFormat == "MMM" + ([' '] + (['d'] + ([','] + ([' '] + "yyyy"))))
  {
  }

  /** The pieces of the one-pass result put back together */
  lemma DefaultResultPieces(month: string, d: string, y: string)
    ensures month + ([' '] + (d + ([','] + ([' '] + y)))) == month + " " + d + ", " + y
  {
  }

  /** The default format in one pass: the short month name, a space, the day, a comma and the year */
  lemma DefaultOnce(t: seq<(string, string)>, month: string, d: string, y: string)
    requires HeadsAmongTokens(t) && |t| == 20 && t[0] == ("yyyy", y) && t[7] == ("d", d)
    requires t[1].0 == "yy" && t[2].0 == "MMMM" && t[3] == ("MMM", month)
    requires t[4].0 == "MM" && t[5].0 == "M" && t[6].0 == "dd"
    ensures FormatOnce(t, DefaultFormat) == month + " " + d + ", " + y
  {
    var space := [' '] + (['d'] + ([','] + ([' '] + "yyyy")));
    SpaceDayOnce(t, d, y, "yyyy");
    ShortMonthOnce(t, month, space);
    DefaultFormatPieces();
    DefaultResultPieces(month, d, y);
  }

  /** Done in one pass, the default format gives the short month name, the day and the year in every month. */
  lemma DefaultFormatFixed(p: DateParts, f: string)
    requires ValidParts(p) && f == DefaultFormat
    ensures FormatDateFixed(Some(p), f) ==
              MonthShortNames[p.month] + " " + NatToString(p.day) + ", " + IntToString(p.year)
  {
    var t := Steps(p);
    StepHeads(p);
    assert HeadsAmongTokens(t);
    DefaultOnce(t, MonthShortNames[p.month], NatToString(p.day), IntToString(p.year));
  }

  /** In January the two differ: the chained replacements put the AM/PM marker into the month name. */
  lemma JanuaryFinding(p: DateParts, f: string)
    requires ValidParts(p) && p.month == 0 && f == DefaultFormat
    ensures FormatDate(Some(p), f) != FormatDateFixed(Some(p), f)
  {
    var d, y := NatToString(p.day), IntToString(p.year);
    var upper := Meridiem(p.hours, true);
    DefaultFormatJanuaryAsWritten(p, f);
    SecondCharacter("J" + upper, d, y);
    assert upper[0] == 'A' || upper[0] == 'P';
    DefaultFormatFixed(p, f);
    assert MonthShortNames[0] == "Jan";
    SecondCharacter("Jan", d, y);
  }

  /** The second character of a date whose month part is at least two characters long */
  lemma SecondCharacter(month: string, d: string, y: string)
    requires |month| >= 2
    ensures (month + "n " + d + ", " + y)[1] == month[1]
    ensures (month + " " + d + ", " + y)[1] == month[1]
  {
  }
}
