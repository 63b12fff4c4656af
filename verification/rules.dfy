/** DST transition rules: their validation, the bounded copy of their zone
    name, and `calcDateDST`, which finds the instant a rule names in a year. */
module Rules {

  import opened Calendar

  /** `struct ruleDST`: zone name buffer, week of month (0 = last, 1..4),
      weekday (0 = Sunday), month (0 = January), hour, and the zone's offset
      from UTC in minutes. */
  datatype Rule = Rule(tzName: seq<char>, week: int, wday: int, month: int, hour: int, tzOffset: int)

  /** The range checks `ruleDST` and `ruleSTD` apply before storing. */
  predicate ValidFields(week: int, wday: int, month: int, hour: int) {
    0 <= week <= 4 && 0 <= wday <= 6 && 0 <= month <= 11 && 0 <= hour <= 23
  }

  predicate ValidRule(r: Rule) {
    ValidFields(r.week, r.wday, r.month, r.hour)
  }

  // ---------------------------------------------------------------------
  // Zone names in fixed-size, NUL-terminated buffers

  /** The C string held in `buf`: its characters up to the first NUL. */
  function CString(buf: seq<char>): (s: seq<char>)
    ensures s <= buf
    ensures '\0' !in s
    ensures |s| < |buf| ==> buf[|s|] == '\0'
  {
    if |buf| == 0 || buf[0] == '\0' then [] else [buf[0]] + CString(buf[1..])
  }

  lemma {:induction false} CStringOfPadded(s: seq<char>, pad: nat)
    requires '\0' !in s && pad > 0
    ensures CString(s + seq(pad, _ => '\0')) == s
  {
    if s != [] {
      assert (s + seq(pad, _ => '\0'))[1..] == s[1..] + seq(pad, _ => '\0');
      CStringOfPadded(s[1..], pad);
    }
  }

  function Min(a: int, b: int): int { if a <= b then a else b }

  /** `strncpy(buf, src, size - 1); buf[size - 1] = '\0'` into a buffer of
      `size` characters: the name is cut to `size - 1` characters and the
      rest of the buffer is NUL. */
  function StoreName(src: seq<char>, size: int): (buf: seq<char>)
    requires size >= 1 && '\0' !in src
    ensures |buf| == size
    ensures buf[size - 1] == '\0'
    ensures CString(buf) == src[..Min(|src|, size - 1)]
    ensures forall i | Min(|src|, size - 1) <= i < size :: buf[i] == '\0'
  {
    var k := Min(|src|, size - 1);
    CStringOfPadded(src[..k], size - k);
    src[..k] + seq(size - k, _ => '\0')
  }

  /** Storing a stored name again changes nothing. */
  lemma StoreNameIdempotent(src: seq<char>, size: int)
    requires size >= 1 && '\0' !in src
    ensures StoreName(CString(StoreName(src, size)), size) == StoreName(src, size)
  {
  }

  // ---------------------------------------------------------------------
  // calcDateDST

  /** `t` is the instant rule `rule` names in `year`: on its weekday, in its
      month of that year, at its hour sharp, and on the week-th such weekday
      of the month, or on the last one when `week` is 0. */
  predicate IsTransition(t: int, rule: Rule, year: int)
    requires ValidRule(rule)
  {
    NamesDate(Gmtime(t), rule, year)
  }

  /** Civil time `c` is the date and hour that `rule` names in `year`. */
  predicate NamesDate(c: Civil, rule: Rule, year: int)
    requires ValidRule(rule)
  {
    && c.year == year && c.mon == rule.month && c.wday == rule.wday
    && c.hour == rule.hour && c.min == 0 && c.sec == 0
    && (if rule.week == 0 then MonthLength(year, rule.month) < c.mday + 7
        else 7 * (rule.week - 1) < c.mday <= 7 * rule.week)
  }

  /** Stepping forward to the next weekday `w` from a day of weekday
      `Weekday(n)` lands on weekday `w`. */
  lemma StepToWeekday(n: int, w: int, weeks: int)
    requires 0 <= w < 7
    ensures Weekday(n + (w - Weekday(n) + 7) % 7 + 7 * weeks) == w
  {
    var r := Weekday(n);
    var e := (w - r + 7) % 7;
    assert n + 4 == (n + 4) / 7 * 7 + r;
    assert w - r + 7 == (w - r + 7) / 7 * 7 + e;
    var q := (n + 4) / 7 + 1 - (w - r + 7) / 7 + weeks;
    assert n + e + 7 * weeks + 4 == q * 7 + w;
    Word.DivModUnique(n + e + 7 * weeks + 4, 7, q, w);
  }

  /** The instant of rule `rule` in `year`, in the zone of the time it names
      (UTC here): the first of the rule's month at the rule's hour, moved on
      to the rule's weekday and then by whole weeks. For "last" (week 0) the
      search starts in the following month and steps one week back. The
      rollover test reads `month` before incrementing it, so for a valid rule
      it never fires and December's successor is month index 12, which
      `MkTime` normalises into January of the next year. */
  function CalcDateDst(rule: Rule, year: int): (t: int)
    requires ValidRule(rule)
    ensures IsTransition(t, rule, year)
  {
    var month, y :=
      if rule.week == 0 then (if rule.month > 11 then 0 else rule.month + 1) else rule.month,
      if rule.week == 0 && rule.month > 11 then year + 1 else year;
    var week := if rule.week == 0 then 1 else rule.week;
    var t0 := MkTime(y, month, 1, rule.hour, 0, 0);
    var delta := (rule.wday - WeekdayOf(t0) + 7) % 7 + (week - 1) * 7;
    var t1 := t0 + delta * 86400;
    var t := if rule.week == 0 then t1 - 7 * 86400 else t1;
    CalcDateDstMeaning(rule, year, t0, t);
    t
  }

  /** The first-of-month instant `calcDateDST` starts from: the day number of
      that first, at the rule's hour. */
  lemma StartOfSearch(rule: Rule, year: int, t0: int) returns (base: int)
    requires ValidRule(rule)
    requires rule.week == 0 ==> t0 == MkTime(year, rule.month + 1, 1, rule.hour, 0, 0)
    requires rule.week != 0 ==> t0 == MkTime(year, rule.month, 1, rule.hour, 0, 0)
    ensures base == DayNumber(year, rule.month, 1)
                    + (if rule.week == 0 then MonthLength(year, rule.month) else 0)
    ensures t0 == base * 86400 + rule.hour * 3600
    ensures WeekdayOf(t0) == Weekday(base)
  {
    var m := rule.month;
    if rule.week == 0 {
      NextMonthFirst(year, m);
      base := DayNumber(year + (m + 1) / 12, (m + 1) % 12, 1);
    } else {
      assert year + m / 12 == year && m % 12 == m;
      base := DayNumber(year, m, 1);
    }
    Word.DivModUnique(t0, 86400, base, rule.hour * 3600);
  }

  /** Hour `rule.hour` of day `n`, a day of the rule's month on the rule's
      weekday and in the rule's week, is the instant the rule names. */
  lemma TransitionOnDay(rule: Rule, year: int, n: int, t: int)
    requires ValidRule(rule)
    requires Weekday(n) == rule.wday
    requires rule.week == 0 ==>
      MonthLength(year, rule.month) - 7 < n - DayNumber(year, rule.month, 1) + 1 <= MonthLength(year, rule.month)
    requires rule.week != 0 ==>
      7 * (rule.week - 1) < n - DayNumber(year, rule.month, 1) + 1 <= 7 * rule.week
    requires t == n * 86400 + rule.hour * 3600
    ensures IsTransition(t, rule, year)
  {
    var d := n - DayNumber(year, rule.month, 1) + 1;
    assert 1 <= d <= MonthLength(year, rule.month) by {
      if rule.week != 0 {
        assert MonthLength(year, rule.month) >= 28;
      }
    }
    var c := CivilOfDay(year, rule.month, n, rule.hour, t);
    assert NamesDate(c, rule, year);
  }

  /** The civil time of hour `hour` of day `n`, a day of month `m` of `year`. */
  lemma CivilOfDay(year: int, m: int, n: int, hour: int, t: int) returns (c: Civil)
    requires 0 <= m < 12 && 0 <= hour < 24
    requires 1 <= n - DayNumber(year, m, 1) + 1 <= MonthLength(year, m)
    requires t == n * 86400 + hour * 3600
    ensures c == Civil(year, m, n - DayNumber(year, m, 1) + 1, hour, 0, 0, Weekday(n))
    ensures Gmtime(t) == c
  {
    c := Civil(year, m, n - DayNumber(year, m, 1) + 1, hour, 0, 0, Weekday(n));
    assert DayNumber(year, m, c.mday) == n;
    assert Seconds(c) == t;
    GmtimeOfSeconds(c);
  }

  lemma CalcDateDstMeaning(rule: Rule, year: int, t0: int, t: int)
    requires ValidRule(rule)
    requires rule.week == 0 ==> t0 == MkTime(year, rule.month + 1, 1, rule.hour, 0, 0)
    requires rule.week != 0 ==> t0 == MkTime(year, rule.month, 1, rule.hour, 0, 0)
    requires t == t0 + ((rule.wday - WeekdayOf(t0) + 7) % 7
                        + (if rule.week == 0 then 0 else rule.week - 1) * 7
                        - (if rule.week == 0 then 7 else 0)) * 86400
    ensures IsTransition(t, rule, year)
  {
    var base := StartOfSearch(rule, year, t0);
    var n := StepDays(base, WeekdayOf(t0), rule.hour, rule.wday, rule.week, t0, t);
    TransitionOnDay(rule, year, n, t);
  }

  /** The day `calcDateDST` lands on from day `base`, of weekday `w0`:
      forward to weekday `wday`, then `week - 1` whole weeks on, or one week
      back for "last". */
  lemma StepDays(base: int, w0: int, hour: int, wday: int, week: int, t0: int, t: int) returns (n: int)
    requires 0 <= wday < 7 && w0 == Weekday(base)
    requires t0 == base * 86400 + hour * 3600
    requires t == t0 + ((wday - w0 + 7) % 7
                        + (if week == 0 then 0 else week - 1) * 7
                        - (if week == 0 then 7 else 0)) * 86400
    ensures Weekday(n) == wday
    ensures t == n * 86400 + hour * 3600
    ensures var weeks := if week == 0 then -1 else week - 1;
      0 <= n - base - 7 * weeks < 7
  {
    var e := (wday - Weekday(base) + 7) % 7;
    var weeks := if week == 0 then -1 else week - 1;
    StepToWeekday(base, wday, weeks);
    n := base + e + 7 * weeks;
    assert (if week == 0 then 0 else week - 1) * 7 - (if week == 0 then 7 else 0) == 7 * weeks;
  }

  /** A rule names at most one instant per year: `CalcDateDst` is the only
      instant with the properties `IsTransition` lists. */
  lemma TransitionUnique(rule: Rule, year: int, t1: int, t2: int)
    requires ValidRule(rule)
    requires IsTransition(t1, rule, year) && IsTransition(t2, rule, year)
    ensures t1 == t2
  {
    var c1, c2 := Gmtime(t1), Gmtime(t2);
    var n1 := DayNumber(year, rule.month, c1.mday);
    var n2 := DayNumber(year, rule.month, c2.mday);
    if c1.mday < c2.mday {
      WeekdaysWithinAWeek(n1, n2);
    } else if c2.mday < c1.mday {
      WeekdaysWithinAWeek(n2, n1);
    }
    assert c1 == c2;
  }

  /** Two different days less than a week apart fall on different weekdays. */
  lemma WeekdaysWithinAWeek(n1: int, n2: int)
    requires 0 < n2 - n1 < 7
    ensures Weekday(n1) != Weekday(n2)
  {
    assert n1 + 4 == (n1 + 4) / 7 * 7 + Weekday(n1);
    assert n2 + 4 == (n2 + 4) / 7 * 7 + Weekday(n2);
  }

  /** The result of `CalcDateDst` is the instant a rule names. */
  lemma CalcDateDstIsUnique(rule: Rule, year: int, t: int)
    requires ValidRule(rule)
    ensures IsTransition(t, rule, year) <==> t == CalcDateDst(rule, year)
  {
    if IsTransition(t, rule, year) {
      TransitionUnique(rule, year, t, CalcDateDst(rule, year));
    }
  }

  /** For "last", no later day of the month falls on the rule's weekday. */
  lemma LastOccurrenceIsLast(rule: Rule, year: int, d: int)
    requires ValidRule(rule) && rule.week == 0
    requires Gmtime(CalcDateDst(rule, year)).mday < d <= MonthLength(year, rule.month)
    ensures Weekday(DayNumber(year, rule.month, d)) != rule.wday
  {
    var c := Gmtime(CalcDateDst(rule, year));
    WeekdaysWithinAWeek(DayNumber(year, rule.month, c.mday), DayNumber(year, rule.month, d));
  }
}
