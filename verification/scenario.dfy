/** A worked example with the central-European rules: DST from the last
    Sunday of March at 02:00 (UTC+2) to the last Sunday of October at 03:00
    (UTC+1), synchronised to 2024-06-15 12:00:00 UTC. */
module EuScenario {

  import opened Wrappers
  import opened Word
  import opened Calendar
  import opened Rules
  import opened NtpClock
  import opened NtpClockProps
  import Wire

  /** The two central-European rules, whatever their stored names. */
  predicate EuRules(z: Zone) {
    && z.dstStart.week == 0 && z.dstStart.wday == 0 && z.dstStart.month == 2
    && z.dstStart.hour == 2 && z.dstStart.tzOffset == 120
    && z.dstEnd.week == 0 && z.dstEnd.wday == 0 && z.dstEnd.month == 9
    && z.dstEnd.hour == 3 && z.dstEnd.tzOffset == 60
  }

  /** Sunday 2024-03-31 02:00 and Sunday 2024-10-27 03:00, as local seconds. */
  const SPRING_2024: int := 1711850400
  const AUTUMN_2024: int := 1729998000

  /** 2024-06-15 12:00:00 UTC in Unix and in NTP seconds. */
  const JUNE_NOON_UNIX: U32 := 1718452800
  const JUNE_NOON_NTP: U32 := 3927441600
  /** 2024-12-15 12:00:00 UTC in Unix seconds. */
  const DECEMBER_NOON_UNIX: U32 := 1734264000

  /** 2024 is a leap year whose January 1 is day 19723 of the Unix epoch. */
  lemma NewYear2024()
    ensures IsLeap(2024) && DaysBeforeYear(2024) == 19723
  {
    assert LeapCount(2023) == 490 && LeapCount(1969) == 477;
  }

  lemma Spring2024AsCivil()
    ensures Gmtime(SPRING_2024) == Civil(2024, 2, 31, 2, 0, 0, 0)
  {
    NewYear2024();
    assert DayNumber(2024, 2, 31) == 19813;
    GmtimeOfSeconds(Civil(2024, 2, 31, 2, 0, 0, 0));
  }

  lemma Autumn2024AsCivil()
    ensures Gmtime(AUTUMN_2024) == Civil(2024, 9, 27, 3, 0, 0, 0)
  {
    NewYear2024();
    assert DayNumber(2024, 9, 27) == 20023;
    GmtimeOfSeconds(Civil(2024, 9, 27, 3, 0, 0, 0));
  }

  /** "Last Sunday of March, 02:00" names 2024-03-31 02:00. */
  lemma SpringForward2024(rule: Rule)
    requires ValidRule(rule)
    requires rule.week == 0 && rule.wday == 0 && rule.month == 2 && rule.hour == 2
    ensures CalcDateDst(rule, 2024) == SPRING_2024
  {
    Spring2024AsCivil();
    assert IsTransition(SPRING_2024, rule, 2024);
    CalcDateDstIsUnique(rule, 2024, SPRING_2024);
  }

  /** "Last Sunday of October, 03:00" names 2024-10-27 03:00. */
  lemma FallBack2024(rule: Rule)
    requires ValidRule(rule)
    requires rule.week == 0 && rule.wday == 0 && rule.month == 9 && rule.hour == 3
    ensures CalcDateDst(rule, 2024) == AUTUMN_2024
  {
    Autumn2024AsCivil();
    assert IsTransition(AUTUMN_2024, rule, 2024);
    CalcDateDstIsUnique(rule, 2024, AUTUMN_2024);
  }

  /** The 2024 window runs from 01:00 UTC on March 31 to 01:00 UTC on
      October 27. */
  lemma EuWindow2024(w: Window, z: Zone)
    requires EuRules(z) && WindowOf(w, z, 2024)
    ensures w.utcDST == 1711846800 && w.utcSTD == 1729990800
  {
    SpringForward2024(z.dstStart);
    FallBack2024(z.dstEnd);
    CalcDateDstIsUnique(z.dstStart, 2024, w.dstTime);
    CalcDateDstIsUnique(z.dstEnd, 2024, w.stdTime);
  }

  /** 2024-06-15 12:00 UTC shifted east to read `hour` o'clock, broken down. */
  lemma JuneNoonAsCivil(offset: int, hour: int)
    requires 0 <= hour < 24 && offset == (hour - 12) * 3600
    ensures Gmtime(JUNE_NOON_UNIX + offset) == Civil(2024, 5, 15, hour, 0, 0, 6)
  {
    var c := Civil(2024, 5, 15, hour, 0, 0, 6);
    NewYear2024();
    assert DayNumber(2024, 5, 15) == 19889;
    GmtimeOfSeconds(c);
  }

  /** 2024-12-15 12:00 UTC shifted one hour east, broken down. */
  lemma DecemberNoonAsCivil()
    ensures Gmtime(DECEMBER_NOON_UNIX + 3600) == Civil(2024, 11, 15, 13, 0, 0, 0)
  {
    var c := Civil(2024, 11, 15, 13, 0, 0, 0);
    NewYear2024();
    assert DayNumber(2024, 11, 15) == 20072;
    GmtimeOfSeconds(c);
  }

  /** Noon UTC in June reads as 14:00 summer time. */
  lemma JuneReadsSummerTime(s: Clock, now: U32)
    requires Wf(s.zone) && Armed(s.zone) && EuRules(s.zone) && s.zone == RuleOffsets(s.zone)
    requires WindowOf(s.window, s.zone, 2024)
    requires CurrentUtc(s.anchor, now) == JUNE_NOON_UNIX
    ensures var r := CurrentTime(s, now);
      && r.query.current == Some(Civil(2024, 5, 15, 14, 0, 0, 6))
      && IsDst(r) && TzName(r) == Some(CString(s.zone.dstStart.tzName))
  {
    EuWindow2024(s.window, s.zone);
    var r := CurrentTime(s, now);
    JuneNoonAsCivil(7200, 14);
    assert r.query.local == JUNE_NOON_UNIX + 7200;
    assert r.window == s.window;
  }

  /** Noon UTC in December reads as 13:00 standard time. */
  lemma DecemberReadsStandardTime(s: Clock, now: U32)
    requires Wf(s.zone) && Armed(s.zone) && EuRules(s.zone) && s.zone == RuleOffsets(s.zone)
    requires WindowOf(s.window, s.zone, 2024)
    requires CurrentUtc(s.anchor, now) == DECEMBER_NOON_UNIX
    ensures var r := CurrentTime(s, now);
      && r.query.current == Some(Civil(2024, 11, 15, 13, 0, 0, 0))
      && !IsDst(r) && TzName(r) == Some(CString(s.zone.dstEnd.tzName))
  {
    EuWindow2024(s.window, s.zone);
    var r := CurrentTime(s, now);
    DecemberNoonAsCivil();
    assert r.query.local == DECEMBER_NOON_UNIX + 3600;
    assert r.window == s.window;
  }

  /** Configure both rules and switch DST observance on. */
  function ConfigureEu(s: Clock): (r: Clock)
    requires Wf(s.zone)
    ensures Wf(r.zone) && Armed(r.zone) && EuRules(r.zone)
    ensures r.window == s.window && r.query == s.query && r.anchor == s.anchor
  {
    SetDstZone(RuleStd(RuleDst(s, "CEST", 0, 0, 2, 2, 120, 6), "CET", 0, 0, 9, 3, 60, 6), true)
  }

  /** The whole start-up: configure both rules, switch DST on and `init`
      with a June reply. The query `init` makes is judged against the
      window the state held before, so with an empty earlier window it
      reads standard time; the window `init` leaves behind makes the next
      query at the same tick read summer time. */
  lemma StartUpInJune(s0: Clock, p: Wire.Packet, tick: U32)
    requires Wf(s0.zone) && s0.window.yearDST < 2024 && s0.window.utcSTD <= s0.window.utcDST
    ensures
      var r := Init(ConfigureEu(s0), Some(Wire.WithTransmitSeconds(p, JUNE_NOON_NTP)), tick, tick);
      && r.anchor.utcTime == JUNE_NOON_UNIX
      && r.query.current == Some(Civil(2024, 5, 15, 13, 0, 0, 6))
      && WindowOf(r.window, r.zone, 2024)
      && IsDst(r)
      && CurrentTime(r, tick).query.current == Some(Civil(2024, 5, 15, 14, 0, 0, 6))
  {
    var s := ConfigureEu(s0);
    var reply := Wire.WithTransmitSeconds(p, JUNE_NOON_NTP);
    SyncFromServerReply(s, p, JUNE_NOON_NTP, tick);
    var synced := NtpUpdate(s, Some(reply), tick).clock;
    assert CurrentUtc(synced.anchor, tick) == JUNE_NOON_UNIX;
    InitArmed(s, Some(reply), tick, tick);
    var r := Init(s, Some(reply), tick, tick);
    assert r.anchor == synced.anchor;
    assert r.query.local == JUNE_NOON_UNIX + 3600;
    JuneNoonAsCivil(3600, 13);
    RuleOffsetsSettled(s.zone);
    assert Wf(r.zone) && Armed(r.zone) && EuRules(r.zone) && r.zone == RuleOffsets(r.zone);
    assert WindowOf(r.window, r.zone, 2024);
    EuWindow2024(r.window, r.zone);
    JuneReadsSummerTime(r, tick);
  }
}
