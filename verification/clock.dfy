/** The state of one `NTP` object and its operations, as pure transitions:
    each takes the state before the call (and the reply or `millis()` tick it
    consumes) and returns the state after it. */
module NtpClock {

  import opened Wrappers
  import opened Word
  import opened Calendar
  import opened Rules
  import Wire

  /** The synchronisation anchor: the last good server time and the tick it
      was read at, plus the minimum spacing between syncs. */
  datatype Anchor = Anchor(
    ntpTime: U32,               // transmit seconds of the last good reply
    utcTime: U32,               // ntpTime as Unix seconds
    lastUpdate: U32,            // millis() when the last reply was read
    interval: U32)              // minimum milliseconds between syncs

  /** The zone configuration: base offset, DST extra and the two rules. */
  datatype Zone = Zone(
    timezoneOffset: int,        // seconds east of UTC outside DST
    dstOffset: int,             // extra seconds during DST
    dstZone: bool,              // DST observance switched on
    dstStart: Rule,             // rule entering DST
    dstEnd: Rule,               // rule leaving DST
    dstRuleConfigured: bool,
    stdRuleConfigured: bool)

  /** The cached DST window of one year. */
  datatype Window = Window(
    dstTime: int,               // civil instant DST starts
    stdTime: int,               // civil instant DST ends
    utcDST: int,                // dstTime as UTC
    utcSTD: int,                // stdTime as UTC
    yearDST: int)               // year the window was computed for

  /** The result of the last `currentTime()`. */
  datatype Query = Query(
    utcCurrent: int,            // extrapolated UTC "now"
    local: int,                 // utcCurrent shifted into the local zone
    current: Option<Civil>)     // gmtime(&local); None before any query

  /** The fields of the `NTP` class that the time-keeping logic reads and
      writes; `request` is the packet sent on every sync. */
  datatype Clock = Clock(request: seq<Byte>, anchor: Anchor, zone: Zone, window: Window, query: Query)

  /** The outcome of a sync attempt: the returned flag and the new state. */
  datatype Sync = Sync(ok: bool, clock: Clock)

  /** A value read through an accessor and the state after the refresh the
      accessor performs. */
  datatype Reading<T> = Reading(value: T, clock: Clock)

  /** A rule is only ever marked configured after it passed validation. */
  predicate Wf(z: Zone) {
    && (z.dstRuleConfigured ==> ValidRule(z.dstStart))
    && (z.stdRuleConfigured ==> ValidRule(z.dstEnd))
  }

  /** DST handling is on: observance enabled and both rules set. */
  predicate Armed(z: Zone) {
    z.dstZone && z.dstRuleConfigured && z.stdRuleConfigured
  }

  /** `w` is the DST window of year `y` under the rules of `z`: the two rule
      instants of that year, each turned into UTC with the offset in force
      just before it. */
  predicate WindowOf(w: Window, z: Zone, y: int) {
    && ValidRule(z.dstStart) && ValidRule(z.dstEnd)
    && w.yearDST == y
    && IsTransition(w.dstTime, z.dstStart, y)
    && IsTransition(w.stdTime, z.dstEnd, y)
    && w.utcDST == w.dstTime - z.dstEnd.tzOffset * 60
    && w.utcSTD == w.stdTime - z.dstStart.tzOffset * 60
  }

  /** `summerTime` on UTC instant `u`: inside the window, open at its start
      and closed at its end. */
  predicate SummerTime(w: Window, u: int) {
    w.utcDST < u <= w.utcSTD
  }

  // ---------------------------------------------------------------------
  // Synchronisation

  /** What a reply read at tick `now` does to the anchor: the tick is always
      stamped; a nonzero transmit timestamp becomes the new server time. */
  function Receive(a: Anchor, p: Wire.Packet, now: U32): (r: Anchor)
    ensures r.lastUpdate == now && r.interval == a.interval
    ensures p[40..44] != [0, 0, 0, 0] ==>
      ToBigEndian(r.ntpTime) == p[40..44] && Add32(r.utcTime, Wire.SEVENTY_YEARS) == r.ntpTime
    ensures p[40..44] == [0, 0, 0, 0] ==> r.ntpTime == a.ntpTime && r.utcTime == a.utcTime
  {
    var ts := Wire.TransmitSeconds(p);
    if ts != 0 then a.(lastUpdate := now, ntpTime := ts, utcTime := Wire.ToUnix(ts))
    else a.(lastUpdate := now)
  }

  /** `ntpUpdate`, from the moment the request has been sent. `reply` is the
      48-byte packet if one arrived within the one-second poll, and `now` is
      the tick at which it was read. Only a nonzero transmit timestamp counts
      as success. */
  function NtpUpdate(s: Clock, reply: Option<Wire.Packet>, now: U32): (r: Sync)
    ensures reply.None? ==> !r.ok && r.clock == s
    ensures r.ok <==> reply.Some? && reply.value[40..44] != [0, 0, 0, 0]
    ensures reply.Some? ==> r.clock == s.(anchor := Receive(s.anchor, reply.value, now))
  {
    match reply
    case None => Sync(false, s)
    case Some(p) => Sync(Wire.TransmitSeconds(p) != 0, s.(anchor := Receive(s.anchor, p, now)))
  }

  /** A sync is due when a full interval has passed on the wrapping tick,
      or when `lastUpdate` is 0: its start-up value, and also its value after
      a reply read at tick 0. */
  predicate SyncDue(a: Anchor, now: U32) {
    Sub32(now, a.lastUpdate) >= a.interval || a.lastUpdate == 0
  }

  /** `update`: sync only when one is due. `now` is the tick `update` reads,
      `replyTick` the one `ntpUpdate` reads when the reply arrives. */
  function Update(s: Clock, now: U32, reply: Option<Wire.Packet>, replyTick: U32): (r: Sync)
    ensures !SyncDue(s.anchor, now) ==> r == Sync(false, s)
    ensures SyncDue(s.anchor, now) ==> r == NtpUpdate(s, reply, replyTick)
  {
    if SyncDue(s.anchor, now) then NtpUpdate(s, reply, replyTick) else Sync(false, s)
  }

  /** `updateInterval`. */
  function UpdateInterval(s: Clock, interval: U32): (r: Clock)
    ensures r.anchor.interval == interval
    ensures r.(anchor := r.anchor.(interval := s.anchor.interval)) == s
  {
    s.(anchor := s.anchor.(interval := interval))
  }

  /** UTC "now": the anchor plus the whole seconds elapsed on the tick
      since the anchor was stamped, all in unsigned 32-bit arithmetic. */
  function CurrentUtc(a: Anchor, now: U32): (u: U32)
    ensures Sub32(u, a.utcTime) == Sub32(now, a.lastUpdate) / 1000
  {
    Add32(a.utcTime, Sub32(now, a.lastUpdate) / 1000)
  }

  // ---------------------------------------------------------------------
  // Configuration

  /** The rule `ruleDST`/`ruleSTD` would store, or None when a field is out
      of range. */
  function MakeRule(name: seq<char>, week: I8, wday: I8, month: I8, hour: I8, tzOffset: int, nameSize: int): (r: Option<Rule>)
    requires nameSize >= 1 && '\0' !in name
    ensures r.Some? <==> ValidFields(week, wday, month, hour)
    ensures r.Some? ==> ValidRule(r.value)
    ensures r.Some? ==> |r.value.tzName| == nameSize
    ensures r.Some? ==> CString(r.value.tzName) == name[..Min(|name|, nameSize - 1)]
    ensures r.Some? ==> r.value.week == week && r.value.wday == wday && r.value.month == month
                        && r.value.hour == hour && r.value.tzOffset == tzOffset
  {
    if ValidFields(week, wday, month, hour) then
      Some(Rule(StoreName(name, nameSize), week, wday, month, hour, tzOffset))
    else
      None
  }

  /** `ruleDST`: store the rule entering DST if its fields are in range;
      otherwise return with nothing changed. */
  function RuleDst(s: Clock, name: seq<char>, week: I8, wday: I8, month: I8, hour: I8, tzOffset: int, nameSize: int): (r: Clock)
    requires nameSize >= 1 && '\0' !in name
    ensures !ValidFields(week, wday, month, hour) ==> r == s
    ensures ValidFields(week, wday, month, hour) ==>
      && r.zone.dstRuleConfigured
      && Some(r.zone.dstStart) == MakeRule(name, week, wday, month, hour, tzOffset, nameSize)
      && r.(zone := r.zone.(dstStart := s.zone.dstStart, dstRuleConfigured := s.zone.dstRuleConfigured)) == s
    ensures Wf(s.zone) ==> Wf(r.zone)
  {
    match MakeRule(name, week, wday, month, hour, tzOffset, nameSize)
    case None => s
    case Some(rule) => s.(zone := s.zone.(dstStart := rule, dstRuleConfigured := true))
  }

  /** `ruleSTD`: store the rule leaving DST if its fields are in range;
      otherwise return with nothing changed. */
  function RuleStd(s: Clock, name: seq<char>, week: I8, wday: I8, month: I8, hour: I8, tzOffset: int, nameSize: int): (r: Clock)
    requires nameSize >= 1 && '\0' !in name
    ensures !ValidFields(week, wday, month, hour) ==> r == s
    ensures ValidFields(week, wday, month, hour) ==>
      && r.zone.stdRuleConfigured
      && Some(r.zone.dstEnd) == MakeRule(name, week, wday, month, hour, tzOffset, nameSize)
      && r.(zone := r.zone.(dstEnd := s.zone.dstEnd, stdRuleConfigured := s.zone.stdRuleConfigured)) == s
    ensures Wf(s.zone) ==> Wf(r.zone)
  {
    match MakeRule(name, week, wday, month, hour, tzOffset, nameSize)
    case None => s
    case Some(rule) => s.(zone := s.zone.(dstEnd := rule, stdRuleConfigured := true))
  }

  function Abs(x: int): int { if x < 0 then -x else x }

  /** `timeZone`: the base offset in seconds. The minutes take the sign of
      the hours, so -3:30 is 3.5 hours west; with zero hours they count east. */
  function TimeZone(s: Clock, tzHours: I8, tzMinutes: I8): (r: Clock)
    ensures tzMinutes >= 0 ==> Abs(r.zone.timezoneOffset) == Abs(tzHours) * 3600 + tzMinutes * 60
    ensures tzMinutes >= 0 ==> (r.zone.timezoneOffset < 0 <==> tzHours < 0)
    ensures r.(zone := r.zone.(timezoneOffset := s.zone.timezoneOffset)) == s
  {
    var offset := tzHours * 3600;
    s.(zone := s.zone.(timezoneOffset := if tzHours < 0 then offset - tzMinutes * 60 else offset + tzMinutes * 60))
  }

  /** `isDST(bool)`. */
  function SetDstZone(s: Clock, dstZone: bool): (r: Clock)
    ensures r.zone.dstZone == dstZone
    ensures r.(zone := r.zone.(dstZone := s.zone.dstZone)) == s
  {
    s.(zone := s.zone.(dstZone := dstZone))
  }

  // ---------------------------------------------------------------------
  // DST window and classification

  /** The window `beginDST` computes for `year`. */
  function ComputeWindow(z: Zone, year: int): (w: Window)
    requires ValidRule(z.dstStart) && ValidRule(z.dstEnd)
    ensures WindowOf(w, z, year)
  {
    var dstTime := CalcDateDst(z.dstStart, year);
    var stdTime := CalcDateDst(z.dstEnd, year);
    Window(dstTime, stdTime, dstTime - z.dstEnd.tzOffset * 60, stdTime - z.dstStart.tzOffset * 60, year)
  }

  /** A zone's rules determine its window of a year completely. */
  lemma WindowUnique(w1: Window, w2: Window, z: Zone, y: int)
    requires WindowOf(w1, z, y) && WindowOf(w2, z, y)
    ensures w1 == w2
  {
    TransitionUnique(z.dstStart, y, w1.dstTime, w2.dstTime);
    TransitionUnique(z.dstEnd, y, w1.stdTime, w2.stdTime);
  }

  /** `beginDST`: compute the DST window of the year of the last query's
      local time; without a last query there is no year and nothing changes. */
  function BeginDst(s: Clock): (r: Clock)
    requires ValidRule(s.zone.dstStart) && ValidRule(s.zone.dstEnd)
    ensures s.query.current.None? ==> r == s
    ensures s.query.current.Some? ==> WindowOf(r.window, s.zone, s.query.current.value.year)
    ensures r == s.(window := r.window)
  {
    match s.query.current
    case None => s
    case Some(c) => s.(window := ComputeWindow(s.zone, c.year))
  }

  /** `currentTime`: extrapolate UTC now, classify it against the cached
      window, shift it into local time and break it down; then, if that
      local year is past the cached one, recompute the window for it. The
      classification of this query keeps the window it was made with. */
  function CurrentTime(s: Clock, now: U32): (r: Clock)
    requires Wf(s.zone)
    ensures r.query.utcCurrent == CurrentUtc(s.anchor, now)
    ensures r.query.local == r.query.utcCurrent + s.zone.timezoneOffset
      + (if Armed(s.zone) && SummerTime(s.window, r.query.utcCurrent) then s.zone.dstOffset else 0)
    ensures r.query.current == Some(Gmtime(r.query.local))
    ensures Armed(s.zone) && Gmtime(r.query.local).year > s.window.yearDST ==>
      WindowOf(r.window, s.zone, Gmtime(r.query.local).year)
    ensures !(Armed(s.zone) && Gmtime(r.query.local).year > s.window.yearDST) ==> r.window == s.window
    ensures r.window.yearDST >= s.window.yearDST
    ensures r == s.(window := r.window, query := r.query)
  {
    var u := CurrentUtc(s.anchor, now);
    if Armed(s.zone) then
      var local := if SummerTime(s.window, u) then u + s.zone.dstOffset + s.zone.timezoneOffset
                   else u + s.zone.timezoneOffset;
      var c := Gmtime(local);
      var queried := s.(query := Query(u, local, Some(c)));
      if c.year > s.window.yearDST then BeginDst(queried) else queried
    else
      var local := u + s.zone.timezoneOffset;
      s.(query := Query(u, local, Some(Gmtime(local))))
  }

  /** The zone `init` derives from armed rules: the base offset is that of
      the rule leaving DST, the DST extra the difference of the two rules,
      both turned from minutes into seconds; nothing else changes. */
  function RuleOffsets(z: Zone): (r: Zone)
    ensures r.timezoneOffset == z.dstEnd.tzOffset * 60
    ensures r.timezoneOffset + r.dstOffset == z.dstStart.tzOffset * 60
    ensures r.(timezoneOffset := z.timezoneOffset, dstOffset := z.dstOffset) == z
  {
    z.(timezoneOffset := z.dstEnd.tzOffset * 60,
       dstOffset := (z.dstStart.tzOffset - z.dstEnd.tzOffset) * 60)
  }

  /** The DST branch of `init`: take the base offset from the rule leaving
      DST and the extra from the difference of the two rules, query once
      (against whatever window the state held) and compute the window of
      that query's year. */
  function ArmDst(s: Clock, queryTick: U32): (r: Clock)
    requires Wf(s.zone) && Armed(s.zone)
    ensures r.zone == RuleOffsets(s.zone)
    ensures r.query.utcCurrent == CurrentUtc(s.anchor, queryTick)
    ensures r.query.local == r.query.utcCurrent + r.zone.timezoneOffset
      + (if SummerTime(s.window, r.query.utcCurrent) then r.zone.dstOffset else 0)
    ensures r.query.current == Some(Gmtime(r.query.local))
    ensures WindowOf(r.window, r.zone, r.query.current.value.year)
    ensures r.request == s.request && r.anchor == s.anchor
  {
    var offsets := s.(zone := RuleOffsets(s.zone));
    BeginDst(CurrentTime(offsets, queryTick))
  }

  /** The state `init` hands to `ArmDst`: request built, sync done. */
  function Synced(s: Clock, reply: Option<Wire.Packet>, replyTick: U32): Clock
  {
    s.(request := Wire.Request(), anchor := NtpUpdate(s, reply, replyTick).clock.anchor)
  }

  /** `init`, after the server has been recorded: build the request, sync
      once, and with DST armed hand over to `ArmDst`. */
  function Init(s: Clock, reply: Option<Wire.Packet>, replyTick: U32, queryTick: U32): (r: Clock)
    requires Wf(s.zone)
    ensures r.request == Wire.Request()
    ensures r.anchor == NtpUpdate(s, reply, replyTick).clock.anchor
    ensures Armed(r.zone) == Armed(s.zone)
  {
    // The request is built before the sync sends it; the sync never reads it.
    var synced := Synced(s, reply, replyTick);
    if Armed(synced.zone) then ArmDst(synced, queryTick) else synced
  }

  /** Without DST armed, `init` only builds the request and syncs. */
  lemma InitUnarmed(s: Clock, reply: Option<Wire.Packet>, replyTick: U32, queryTick: U32)
    requires Wf(s.zone) && !Armed(s.zone)
    ensures var r := Init(s, reply, replyTick, queryTick);
      r.zone == s.zone && r.window == s.window && r.query == s.query
  {
  }

  /** With DST armed, `init` leaves the offsets the rules give, a first
      query judged against the window held before, and the window of that
      query's year. */
  lemma InitArmed(s: Clock, reply: Option<Wire.Packet>, replyTick: U32, queryTick: U32)
    requires Wf(s.zone) && Armed(s.zone)
    ensures var r := Init(s, reply, replyTick, queryTick);
      && r.zone == RuleOffsets(s.zone)
      && r.query.utcCurrent == CurrentUtc(NtpUpdate(s, reply, replyTick).clock.anchor, queryTick)
      && r.query.local == r.query.utcCurrent + r.zone.timezoneOffset
           + (if SummerTime(s.window, r.query.utcCurrent) then r.zone.dstOffset else 0)
      && r.query.current == Some(Gmtime(r.query.local))
      && WindowOf(r.window, r.zone, r.query.current.value.year)
  {
    InitHandsOver(s, reply, replyTick, queryTick);
  }

  /** With DST armed, `init` is `ArmDst` applied to the synced state. */
  lemma InitHandsOver(s: Clock, reply: Option<Wire.Packet>, replyTick: U32, queryTick: U32)
    requires Wf(s.zone) && Armed(s.zone)
    ensures Init(s, reply, replyTick, queryTick) == ArmDst(Synced(s, reply, replyTick), queryTick)
  {
  }

  // ---------------------------------------------------------------------
  // Accessors

  /** `isDST()`: the classification of the last query, whatever `dstZone`
      says. */
  predicate IsDst(s: Clock) {
    SummerTime(s.window, s.query.utcCurrent)
  }

  /** `tzName()`: the zone name of the rule in force at the last query when
      DST is armed; None stands for the fixed GMT message. */
  function TzName(s: Clock): (r: Option<seq<char>>)
    ensures r.Some? <==> Armed(s.zone)
    ensures Armed(s.zone) && IsDst(s) ==> r == Some(CString(s.zone.dstStart.tzName))
    ensures Armed(s.zone) && !IsDst(s) ==> r == Some(CString(s.zone.dstEnd.tzName))
  {
    if Armed(s.zone) then Some(CString(if IsDst(s) then s.zone.dstStart.tzName else s.zone.dstEnd.tzName))
    else None
  }

  /** `epoch()`: refresh, then return the extrapolated UTC seconds. */
  function Epoch(s: Clock, now: U32): (r: Reading<int>)
    requires Wf(s.zone)
    ensures r.clock == CurrentTime(s, now)
    ensures r.value == CurrentUtc(s.anchor, now)
  {
    var q := CurrentTime(s, now);
    Reading(q.query.utcCurrent, q)
  }

  /** The accessors `year()` to `seconds()`: refresh, then read the local
      civil time. `year()` is `year`, `month()` is `mon + 1` (1..12, as
      `tm_mon + 1`), `day()` is `mday`, `weekDay()` is `wday`, and
      `hours()`, `minutes()` and `seconds()` are `hour`, `min` and `sec`. */
  function LocalCivil(s: Clock, now: U32): (r: Reading<Civil>)
    requires Wf(s.zone)
    ensures r.clock == CurrentTime(s, now)
    ensures ValidCivil(r.value) && Seconds(r.value) == r.clock.query.local
  {
    var q := CurrentTime(s, now);
    GmtimeNames(q.query.local);
    Reading(q.query.current.value, q)
  }

  /** `utc()`: the anchor's Unix seconds, without a refresh. */
  function Utc(s: Clock): U32 { s.anchor.utcTime }

  /** `ntp()`: the last good transmit seconds, without a refresh. */
  function Ntp(s: Clock): U32 { s.anchor.ntpTime }
}
