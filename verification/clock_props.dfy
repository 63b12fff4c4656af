/** Properties of the `NTP` state machine that relate several operations or
    several calls: the sync round trip, throttling, extrapolation between
    syncs, the local offset, the DST year and the DST window. */
module NtpClockProps {

  import opened Wrappers
  import opened Word
  import opened Calendar
  import opened Rules
  import opened NtpClock
  import Wire

  // ---------------------------------------------------------------------
  // Synchronisation

  /** A reply whose transmit seconds the server set to a nonzero `ts`
      re-anchors the clock at `ts` (as Unix seconds) and tick `now`, and
      changes nothing else. */
  lemma SyncFromServerReply(s: Clock, p: Wire.Packet, ts: U32, now: U32)
    requires ts != 0
    ensures NtpUpdate(s, Some(Wire.WithTransmitSeconds(p, ts)), now)
         == Sync(true, s.(anchor := s.anchor.(lastUpdate := now, ntpTime := ts, utcTime := Wire.ToUnix(ts))))
  {
    Wire.TransmitSecondsRoundTrip(p, ts);
  }

  /** A reply whose four transmit-seconds bytes are all zero is rejected,
      yet its arrival tick is still stamped. */
  lemma ZeroReplyOnlyStamps(s: Clock, p: Wire.Packet, now: U32)
    requires p[40..44] == [0, 0, 0, 0]
    ensures NtpUpdate(s, Some(p), now) == Sync(false, s.(anchor := s.anchor.(lastUpdate := now)))
  {
    ReceiveZero(s.anchor, p, now);
  }

  /** The anchor a zero-seconds reply leaves: only the tick moves. */
  lemma ReceiveZero(a: Anchor, p: Wire.Packet, now: U32)
    requires p[40..44] == [0, 0, 0, 0]
    ensures Receive(a, p, now) == a.(lastUpdate := now)
  {
  }

  /** Read at the tick the reply arrived, the clock shows the reply's time. */
  lemma EpochRightAfterSync(s: Clock, p: Wire.Packet, ts: U32, now: U32)
    requires Wf(s.zone) && ts != 0
    ensures var synced := NtpUpdate(s, Some(Wire.WithTransmitSeconds(p, ts)), now).clock;
      && Epoch(synced, now).value == Wire.ToUnix(ts)
      && (ts >= Wire.SEVENTY_YEARS ==> Epoch(synced, now).value == ts - Wire.SEVENTY_YEARS)
  {
    SyncFromServerReply(s, p, ts, now);
  }

  /** After a good reply, `ntp()` returns its transmit seconds and `utc()`
      the same instant on the Unix epoch; neither needs a refresh. */
  lemma AccessorsAfterSync(s: Clock, p: Wire.Packet, ts: U32, now: U32)
    requires ts != 0
    ensures var synced := NtpUpdate(s, Some(Wire.WithTransmitSeconds(p, ts)), now).clock;
      && Ntp(synced) == ts
      && Add32(Utc(synced), Wire.SEVENTY_YEARS) == Ntp(synced)
  {
    SyncFromServerReply(s, p, ts, now);
  }

  /** `d` milliseconds after the anchor tick the clock has moved on by
      `d / 1000` seconds, wrapping at 2^32 like the C arithmetic. */
  lemma ElapsedSeconds(a: Anchor, d: U32)
    ensures CurrentUtc(a, Add32(a.lastUpdate, d)) == Add32(a.utcTime, d / 1000)
    ensures a.utcTime + d / 1000 < TWO32 ==> CurrentUtc(a, Add32(a.lastUpdate, d)) == a.utcTime + d / 1000
  {
  }

  /** The extrapolated clock never runs backwards while the tick moves
      forward without wrapping and the anchor stays fixed. */
  lemma CurrentUtcMonotone(a: Anchor, d1: U32, d2: U32)
    requires d1 <= d2
    requires a.utcTime + d2 / 1000 < TWO32
    ensures CurrentUtc(a, Add32(a.lastUpdate, d1)) <= CurrentUtc(a, Add32(a.lastUpdate, d2))
  {
    ElapsedSeconds(a, d1);
    ElapsedSeconds(a, d2);
  }

  /** Once a reply has been stamped at a nonzero tick, `update` stays quiet
      until a full interval has passed on the tick, whatever it is offered. */
  lemma UpdateThrottled(s: Clock, p: Wire.Packet, replyTick: U32, later: U32,
                        reply2: Option<Wire.Packet>, tick2: U32)
    requires replyTick != 0
    requires Sub32(later, replyTick) < s.anchor.interval
    ensures var synced := NtpUpdate(s, Some(p), replyTick).clock;
      Update(synced, later, reply2, tick2) == Sync(false, synced)
  {
  }

  /** A reply stamped at tick 0 leaves `lastUpdate` at 0, its start-up
      value, so every later `update` syncs again. */
  lemma StampAtTickZeroKeepsSyncing(s: Clock, p: Wire.Packet, later: U32,
                                    reply2: Option<Wire.Packet>, tick2: U32)
    ensures var synced := NtpUpdate(s, Some(p), 0).clock;
      Update(synced, later, reply2, tick2) == NtpUpdate(synced, reply2, tick2)
  {
  }

  // ---------------------------------------------------------------------
  // Local time

  /** With the offsets `init` derives, local time is UTC plus the entering
      rule's offset inside the cached window and the leaving rule's offset
      outside it. */
  lemma LocalFollowsRuleOffsets(s: Clock, now: U32)
    requires Wf(s.zone) && Armed(s.zone) && s.zone == RuleOffsets(s.zone)
    ensures var q := CurrentTime(s, now).query;
      q.local == q.utcCurrent
        + (if SummerTime(s.window, q.utcCurrent) then s.zone.dstStart.tzOffset else s.zone.dstEnd.tzOffset) * 60
  {
  }

  /** Deriving the offsets keeps the rules and flags, so deriving them
      again changes nothing. */
  lemma RuleOffsetsSettled(z: Zone)
    ensures var r := RuleOffsets(z);
      && r.dstStart == z.dstStart && r.dstEnd == z.dstEnd
      && Wf(r) == Wf(z) && Armed(r) == Armed(z)
      && RuleOffsets(r) == r
  {
  }

  /** `init` with DST armed leaves a state whose every later query follows
      the rules' own offsets with the window `init` left in place. */
  lemma InitArmsRuleOffsets(s: Clock, reply: Option<Wire.Packet>, replyTick: U32, queryTick: U32, now: U32)
    requires Wf(s.zone) && Armed(s.zone)
    ensures var r := Init(s, reply, replyTick, queryTick);
      var q := CurrentTime(r, now).query;
      q.local == q.utcCurrent
        + (if SummerTime(r.window, q.utcCurrent) then s.zone.dstStart.tzOffset else s.zone.dstEnd.tzOffset) * 60
  {
    InitArmed(s, reply, replyTick, queryTick);
    var r := Init(s, reply, replyTick, queryTick);
    RuleOffsetsSettled(s.zone);
    LocalFollowsRuleOffsets(r, now);
  }

  /** Without DST armed the local time is UTC plus the base offset, and the
      window is left alone. */
  lemma UnarmedLocalIsBaseOffset(s: Clock, now: U32)
    requires Wf(s.zone) && !Armed(s.zone)
    ensures var r := CurrentTime(s, now);
      r.query.local == r.query.utcCurrent + s.zone.timezoneOffset && r.window == s.window
  {
  }

  // ---------------------------------------------------------------------
  // The DST year

  /** The state after a run of queries at the given ticks: queries touch
      only the window and the last query. */
  function Queries(s: Clock, ticks: seq<U32>): (r: Clock)
    requires Wf(s.zone)
    ensures r.zone == s.zone && r.anchor == s.anchor && r.request == s.request
    decreases |ticks|
  {
    if ticks == [] then s else Queries(CurrentTime(s, ticks[0]), ticks[1..])
  }

  /** However many queries are made, the DST year never moves backwards. */
  lemma {:induction false} QueriesNeverRewindYear(s: Clock, ticks: seq<U32>)
    requires Wf(s.zone)
    ensures Queries(s, ticks).window.yearDST >= s.window.yearDST
    decreases |ticks|
  {
    if ticks != [] {
      QueriesNeverRewindYear(CurrentTime(s, ticks[0]), ticks[1..]);
    }
  }

  /** The first query whose local year is past the cached one is still
      classified with the old window; the window for the new year is
      computed during that query and classifies the next one. */
  lemma NewYearUsesStaleWindowOnce(s: Clock, now: U32, next: U32)
    requires Wf(s.zone) && Armed(s.zone)
    requires Gmtime(CurrentTime(s, now).query.local).year > s.window.yearDST
    ensures var r := CurrentTime(s, now);
      var y := Gmtime(r.query.local).year;
      && r.query.local == r.query.utcCurrent + s.zone.timezoneOffset
           + (if SummerTime(s.window, r.query.utcCurrent) then s.zone.dstOffset else 0)
      && WindowOf(r.window, s.zone, y)
      && var r2 := CurrentTime(r, next);
         && r2.query.local == r2.query.utcCurrent + s.zone.timezoneOffset
              + (if SummerTime(r.window, r2.query.utcCurrent) then s.zone.dstOffset else 0)
         && (Gmtime(r2.query.local).year <= y ==> r2.window == r.window)
  {
  }

  // ---------------------------------------------------------------------
  // The DST window

  /** The window's edges: the DST start instant itself is still standard
      time, the end instant is the last second of DST, and the second after
      it is standard time again. */
  lemma SummerTimeEdges(w: Window)
    ensures !SummerTime(w, w.utcDST)
    ensures w.utcDST < w.utcSTD ==> SummerTime(w, w.utcSTD)
    ensures !SummerTime(w, w.utcSTD + 1)
  {
  }

  /** `isDST()` after a query that kept the window reports exactly whether
      that query's local time carries the DST extra. */
  lemma IsDstMatchesOffset(s: Clock, now: U32)
    requires Wf(s.zone) && Armed(s.zone) && s.zone.dstOffset != 0
    requires Gmtime(CurrentTime(s, now).query.local).year <= s.window.yearDST
    ensures var r := CurrentTime(s, now);
      IsDst(r) <==> r.query.local == r.query.utcCurrent + s.zone.timezoneOffset + s.zone.dstOffset
  {
  }

  /** An empty or inverted window never classifies an instant as DST: the
      query it judges gets the base offset alone. */
  lemma InvertedWindowNeverSummer(s: Clock, now: U32)
    requires Wf(s.zone) && s.window.utcSTD <= s.window.utcDST
    ensures var q := CurrentTime(s, now).query;
      !SummerTime(s.window, q.utcCurrent) && q.local == q.utcCurrent + s.zone.timezoneOffset
  {
  }

  /** When DST starts in a later month than it ends, as in the southern
      hemisphere, and adds rather than removes time, the window `beginDST`
      computes is inverted: such a zone is never reported as in DST. */
  lemma CrossYearWindowInverted(w: Window, z: Zone, y: int)
    requires WindowOf(w, z, y)
    requires z.dstEnd.month < z.dstStart.month
    requires z.dstStart.tzOffset >= z.dstEnd.tzOffset
    ensures w.utcSTD < w.utcDST
  {
    GmtimeNames(w.stdTime);
    GmtimeNames(w.dstTime);
    EarlierMonthEarlierDay(Gmtime(w.stdTime), Gmtime(w.dstTime));
  }

  /** When DST starts in an earlier month than it ends, adds at most an
      hour, and does not start at 23:00 when it ends at 00:00, the window is
      a proper interval. (A 23:00 start on the last day of a month and a
      00:00 end on the first of the next leave the window empty.) */
  lemma SameYearWindowOrdered(w: Window, z: Zone, y: int)
    requires WindowOf(w, z, y)
    requires z.dstStart.month < z.dstEnd.month
    requires 0 <= z.dstStart.tzOffset - z.dstEnd.tzOffset <= 60
    requires z.dstStart.hour < z.dstEnd.hour + 23
    ensures w.utcDST < w.utcSTD
  {
    GmtimeNames(w.stdTime);
    GmtimeNames(w.dstTime);
    EarlierMonthEarlierDay(Gmtime(w.dstTime), Gmtime(w.stdTime));
  }

  /** Each `timeZone` call replaces the base offset outright: only the
      last call counts. */
  lemma TimeZoneLastWins(s: Clock, h1: I8, m1: I8, h2: I8, m2: I8)
    ensures TimeZone(TimeZone(s, h1, m1), h2, m2) == TimeZone(s, h2, m2)
  {
  }

  /** `isDST()` and `tzName()` report the classification even with DST
      observance switched off; only `tzName()` then falls back to GMT. */
  lemma IsDstIgnoresZoneFlag(s: Clock)
    ensures IsDst(SetDstZone(s, false)) == IsDst(s)
    ensures TzName(SetDstZone(s, false)).None?
  {
  }

  /** With both rules set and observance on, `tzName()` reports the name
      given to `ruleDST` while in DST and the name given to `ruleSTD`
      otherwise, each cut to the buffer's capacity less one. */
  lemma TzNameReportsStoredNames(s: Clock, cap: int,
                                 n1: seq<char>, week1: I8, wday1: I8, month1: I8, hour1: I8, off1: int,
                                 n2: seq<char>, week2: I8, wday2: I8, month2: I8, hour2: I8, off2: int)
    requires cap >= 1 && '\0' !in n1 && '\0' !in n2 && s.zone.dstZone
    requires ValidFields(week1, wday1, month1, hour1) && ValidFields(week2, wday2, month2, hour2)
    ensures var r := RuleStd(RuleDst(s, n1, week1, wday1, month1, hour1, off1, cap),
                             n2, week2, wday2, month2, hour2, off2, cap);
      TzName(r) == Some(if IsDst(r) then n1[..Min(|n1|, cap - 1)] else n2[..Min(|n2|, cap - 1)])
  {
    var r1 := RuleDst(s, n1, week1, wday1, month1, hour1, off1, cap);
    var r := RuleStd(r1, n2, week2, wday2, month2, hour2, off2, cap);
    assert r.zone.dstStart == r1.zone.dstStart;
    assert Armed(r.zone);
  }

  /** An out-of-range rule field leaves the state, and so the configured
      flags, exactly as they were. */
  lemma OutOfRangeRuleIgnored(s: Clock, name: seq<char>, wday: I8, month: I8, hour: I8, tzOffset: int, nameSize: int)
    requires nameSize >= 1 && '\0' !in name
    ensures RuleDst(s, name, 5, wday, month, hour, tzOffset, nameSize) == s
    ensures RuleStd(s, name, 5, wday, month, hour, tzOffset, nameSize) == s
  {
  }
}
