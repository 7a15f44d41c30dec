/** `_time_format`: the relative upload times the site shows ("3 天前", "昨天", "12 秒前") turned into
    calendar days. A day is its ordinal in the proleptic Gregorian calendar, as Python's
    `date.toordinal()` counts it; "today" is a parameter because the source reads the clock. */
module Times {
  import opened Strings
  import opened Codes

  /** What `_time_format` returns: a day it computed, or the text it was given, unchanged. */
  datatype Stamp = Day(day: int) | Text(text: string)

  const SecondsAgo: string := "秒前"
  const MinutesAgo: string := "分钟前"
  const Yesterday: string := "昨天"
  const DayBeforeYesterday: string := "前天"
  const DaysAgo: string := "天前"
  const SpacedDaysAgo: string := " 天前"

  /** The ordinals of 0001-01-01 and 9999-12-31, the first and last days a `datetime` holds. */
  const FirstOrdinal: int := 1
  const LastOrdinal: int := 3652059
  /** The largest number of days a `timedelta` holds, in either direction. */
  const MaxDeltaDays: int := 999999999

  predicate InCalendar(day: int) { FirstOrdinal <= day <= LastOrdinal }

  /** `datetime.today() - timedelta(days=n)`: `OverflowError` when `n` is too large for a
      `timedelta` or the day reached is outside the calendar. */
  function DaysBefore(today: int, n: int): (r: Outcome<Stamp>)
    ensures r.Done? <==> -MaxDeltaDays <= n <= MaxDeltaDays && InCalendar(today - n)
    ensures r.Done? ==> r.value == Day(today - n)
    ensures r.Raised? ==> r.fault == DateOutOfRange
  {
    if -MaxDeltaDays <= n <= MaxDeltaDays && InCalendar(today - n) then Done(Day(today - n))
    else Raised(DateOutOfRange)
  }

  /** The first rule that matches wins. The first condition is `('秒前' or '分钟前') in s`, and
      the `or` of two non-empty strings is its first operand, so only `秒前` is checked there.
      `int` of what is left after removing " 天前" raises when that is not a number, and a day
      before the calendar's first (or after its last, for a negative count) overflows. */
  function TimeFormat(today: int, t: string): (r: Outcome<Stamp>)
    ensures r.Raised? ==> (r.fault == NotAnInteger && Contains(t, DaysAgo))
                          || (r.fault == DateOutOfRange && !Contains(t, SecondsAgo))
    ensures r.Done? && r.value.Day? ==> (r.value.day == today || InCalendar(r.value.day))
    ensures r.Done? && r.value.Text? ==> r.value.text == t
    ensures Contains(t, SecondsAgo) ==> r == Done(Day(today))
  {
    if Contains(t, SecondsAgo) then Done(Day(today))
    else if Contains(t, Yesterday) then DaysBefore(today, 1)
    else if Contains(t, DayBeforeYesterday) then DaysBefore(today, 2)
    else if Contains(t, DaysAgo) then
      match ParseInt(ReplaceAll(t, SpacedDaysAgo, ""))
      case Some(n) => DaysBefore(today, n)
      case None => Raised(NotAnInteger)
    else Done(Text(t))
  }

  /** A text is returned unchanged exactly when it carries none of the four markers. */
  lemma TextKeptIff(today: int, t: string)
    ensures TimeFormat(today, t) == Done(Text(t)) <==>
      !Contains(t, SecondsAgo) && !Contains(t, Yesterday) && !Contains(t, DayBeforeYesterday) && !Contains(t, DaysAgo)
  {
  }

  /** The rules are tried in order: `秒前` is today, then `昨天` is yesterday and `前天` the day
      before, each winning over the rules after it; only then is `天前` read as a day count,
      which is the text with " 天前" removed. Each day reached must lie in the calendar. */
  lemma RuleOrder(today: int, t: string)
    ensures !Contains(t, SecondsAgo) && Contains(t, Yesterday) ==>
      TimeFormat(today, t) == (if InCalendar(today - 1) then Done(Day(today - 1)) else Raised(DateOutOfRange))
    ensures !Contains(t, SecondsAgo) && !Contains(t, Yesterday) && Contains(t, DayBeforeYesterday) ==>
      TimeFormat(today, t) == (if InCalendar(today - 2) then Done(Day(today - 2)) else Raised(DateOutOfRange))
    ensures (!Contains(t, SecondsAgo) && !Contains(t, Yesterday) && !Contains(t, DayBeforeYesterday)
             && Contains(t, DaysAgo)) ==>
        (TimeFormat(today, t) == Raised(NotAnInteger) <==> ParseInt(ReplaceAll(t, SpacedDaysAgo, "")).None?)
        && (TimeFormat(today, t).Done? <==> (ParseInt(ReplaceAll(t, SpacedDaysAgo, "")).Some?
              && -MaxDeltaDays <= ParseInt(ReplaceAll(t, SpacedDaysAgo, "")).value <= MaxDeltaDays
              && InCalendar(today - ParseInt(ReplaceAll(t, SpacedDaysAgo, "")).value)))
        && (TimeFormat(today, t).Done? ==>
              TimeFormat(today, t) == Done(Day(today - ParseInt(ReplaceAll(t, SpacedDaysAgo, "")).value)))
  {
  }

  /** "昨天前" contains `天前` but is read as yesterday: the `昨天` rule comes first. */
  lemma YesterdayBeatsDaysAgo(today: int)
    ensures Contains("昨天前", DaysAgo)
    ensures TimeFormat(today, "昨天前") == TimeFormat(today, Yesterday)
    ensures InCalendar(today - 1) ==> TimeFormat(today, "昨天前") == Done(Day(today - 1))
  {
    var t := "昨天前";
    Lacks(t, SecondsAgo);
    assert IsPrefix(Yesterday, t);
    assert t == ['昨'] + DaysAgo;
    assert IsPrefix(DaysAgo, t[1..]);
  }

  lemma DigitsLackMarkers(n: nat)
    ensures '秒' !in Decimal(n) && '昨' !in Decimal(n) && '前' !in Decimal(n) && '天' !in Decimal(n)
    ensures ' ' !in Decimal(n) && '分' !in Decimal(n)
  {
    var s := Decimal(n);
    forall i | 0 <= i < |s| ensures s[i] !in {'秒', '昨', '前', '天', ' ', '分'} {
      assert IsAsciiDigit(s[i]);
    }
  }

  /** A text lacking the first character of a pattern does not contain it. */
  lemma Lacks(s: string, pat: string)
    requires pat != [] && pat[0] !in s
    ensures !Contains(s, pat)
  {
    ContainsSkip(s, "", pat);
    assert s + "" == s;
    ContainsShort("", pat);
  }

  lemma DaysAgoSuffix()
    ensures !Contains(SpacedDaysAgo, SecondsAgo) && !Contains(SpacedDaysAgo, Yesterday)
    ensures !Contains(SpacedDaysAgo, DayBeforeYesterday) && Contains(SpacedDaysAgo, DaysAgo)
    ensures ReplaceAll(SpacedDaysAgo, SpacedDaysAgo, "") == ""
  {
    assert SpacedDaysAgo == [' ', '天', '前'];
    Lacks(SpacedDaysAgo, SecondsAgo);
    Lacks(SpacedDaysAgo, Yesterday);
    assert SpacedDaysAgo == [' ', '天'] + ['前'];
    ContainsSkip([' ', '天'], ['前'], DayBeforeYesterday);
    ContainsShort(['前'], DayBeforeYesterday);
    assert SpacedDaysAgo[1..] == DaysAgo;
    assert IsPrefix(DaysAgo, DaysAgo);
  }

  /** "N 天前" for a day count N written in decimal is the day N days before today, whenever
      Python can represent that day: the rule inverts the site's way of writing the time. */
  lemma DaysAgoRoundTrip(today: int, n: nat)
    ensures TimeFormat(today, Decimal(n) + SpacedDaysAgo)
         == (if n <= MaxDeltaDays && InCalendar(today - n) then Done(Day(today - n)) else Raised(DateOutOfRange))
  {
    var s := Decimal(n) + SpacedDaysAgo;
    DigitsLackMarkers(n);
    DaysAgoSuffix();
    ContainsSkip(Decimal(n), SpacedDaysAgo, SecondsAgo);
    ContainsSkip(Decimal(n), SpacedDaysAgo, Yesterday);
    ContainsSkip(Decimal(n), SpacedDaysAgo, DayBeforeYesterday);
    ContainsSkip(Decimal(n), SpacedDaysAgo, DaysAgo);
    ReplaceAllSkip(Decimal(n), SpacedDaysAgo, SpacedDaysAgo, "");
    assert Decimal(n) + "" == Decimal(n);
    ParseDecimal(n);
  }

  /** A million days back from any day before the year 2738 is before 0001-01-01, so
      "1000000 天前" raises `OverflowError`. */
  lemma MillionDaysAgoOverflows(today: int)
    requires today < 1000000
    ensures TimeFormat(today, Decimal(1000000) + SpacedDaysAgo) == Raised(DateOutOfRange)
  {
    DaysAgoRoundTrip(today, 1000000);
  }

  lemma MinutesSuffix()
    ensures !Contains(" " + MinutesAgo, SecondsAgo) && !Contains(" " + MinutesAgo, Yesterday)
    ensures !Contains(" " + MinutesAgo, DayBeforeYesterday) && !Contains(" " + MinutesAgo, DaysAgo)
  {
    var m := " " + MinutesAgo;
    assert m == [' ', '分', '钟', '前'];
    Lacks(m, SecondsAgo);
    Lacks(m, Yesterday);
    Lacks(m, DaysAgo);
    assert m == [' ', '分', '钟'] + ['前'];
    ContainsSkip([' ', '分', '钟'], ['前'], DayBeforeYesterday);
    ContainsShort(['前'], DayBeforeYesterday);
  }

  /** "N 分钟前" (N minutes ago) is not turned into today: it comes back as the text itself,
      because the first test only looks for `秒前`. */
  lemma MinutesAgoKept(today: int, n: nat)
    ensures TimeFormat(today, Decimal(n) + " " + MinutesAgo) == Done(Text(Decimal(n) + " " + MinutesAgo))
  {
    DigitsLackMarkers(n);
    MinutesSuffix();
    assert Decimal(n) + " " + MinutesAgo == Decimal(n) + (" " + MinutesAgo);
    ContainsSkip(Decimal(n), " " + MinutesAgo, SecondsAgo);
    ContainsSkip(Decimal(n), " " + MinutesAgo, Yesterday);
    ContainsSkip(Decimal(n), " " + MinutesAgo, DayBeforeYesterday);
    ContainsSkip(Decimal(n), " " + MinutesAgo, DaysAgo);
  }

  /** Without the space, "N天前" is left untouched by the replacement and `int` of it raises. */
  lemma UnspacedDaysAgoRaises(today: int, n: nat)
    ensures TimeFormat(today, Decimal(n) + DaysAgo) == Raised(NotAnInteger)
  {
    var s := Decimal(n) + DaysAgo;
    DigitsLackMarkers(n);
    assert DaysAgo == ['天', '前'] && DaysAgo[1..] == ['前'];
    ContainsSkip(Decimal(n), DaysAgo, SecondsAgo);
    ContainsSkip(Decimal(n), DaysAgo, Yesterday);
    ContainsSkip(Decimal(n), DaysAgo, DayBeforeYesterday);
    ContainsSkip(Decimal(n), DaysAgo, DaysAgo);
    ReplaceAllSkip(Decimal(n), DaysAgo, SpacedDaysAgo, "");
    ReplaceAllShort(DaysAgo, SpacedDaysAgo, "");
    UnspacedNotInteger(s);
  }

  lemma UnspacedNotInteger(s: string)
    requires |s| >= 2 && s[|s| - 1] == '前' && s[|s| - 2] == '天'
    ensures ParseInt(s) == None
  {
    var t := StripRight(StripLeft(s));
    StripLeftKeepsEnd(s);
    if t != [] {
      var digits := if t[0] == '-' || t[0] == '+' then t[1..] else t;
      if digits != [] {
        assert digits[|digits| - 1] == '前';
        assert !IsAsciiDigit(digits[|digits| - 1]);
      }
    }
  }

  /** Stripping white space keeps a last character that is not white space. */
  lemma {:induction false} StripLeftKeepsEnd(s: string)
    requires s != [] && s[|s| - 1] == '前'
    ensures StripRight(StripLeft(s)) != [] && StripRight(StripLeft(s))[|StripRight(StripLeft(s))| - 1] == '前'
    decreases |s|
  {
    if IsAsciiSpace(s[0]) {
      StripLeftKeepsEnd(s[1..]);
    }
  }
}
