/** Time helpers of the kiosk: which night an instant belongs to, the night's
    draw times and playing windows, the sign-up cooldown and the auto-draw
    condition.

    Instants are whole seconds of local wall-clock time in the kiosk's fixed
    zone, counted from midnight of civil day 0. Daylight-saving transitions are
    not modelled, so adding hours to a midnight always lands on the same
    wall-clock reading.
 */
module Clock {
  import opened Outcomes

  const MinuteSecs: int := 60
  const HourSecs: int := 3600
  const DaySecs: int := 86400

  /** Hour of day before which an instant still belongs to the previous night. */
  const NightCutoverHour: int := 5

  /** A local civil reading: day number and time of day. */
  datatype Civil = Civil(day: int, hour: int, minute: int, second: int) {
    predicate Valid() {
      0 <= hour < 24 && 0 <= minute < 60 && 0 <= second < 60
    }

    function Instant(): int {
      day * DaySecs + hour * HourSecs + minute * MinuteSecs + second
    }
  }

  /** Midnight that begins civil day `d`. */
  function Midnight(d: int): int {
    d * DaySecs
  }

  /** The logical night an instant belongs to runs from 05:00 on its base day
      to 05:00 on the next day. */
  predicate InNightOf(t: int, d: int) {
    Midnight(d) + NightCutoverHour * HourSecs <= t < Midnight(d + 1) + NightCutoverHour * HourSecs
  }

  /** `tonightBase`: the civil day whose midnight begins the current night,
      the previous day for readings before 05:00. */
  function NightBase(c: Civil): (d: int)
    requires c.Valid()
    ensures InNightOf(c.Instant(), d)
  {
    if c.hour < NightCutoverHour then c.day - 1 else c.day
  }

  /** Each instant belongs to exactly one night. */
  lemma NightBaseUnique(c: Civil, d: int)
    requires c.Valid()
    requires InNightOf(c.Instant(), d)
    ensures d == NightBase(c)
  {
  }

  /** A half-open interval of instants. */
  datatype Interval = Interval(start: int, end: int) {
    predicate Contains(t: int) {
      start <= t < end
    }
  }

  /** The night's schedule returned by `tonightWindows`. */
  datatype Schedule = Schedule(draw1: int, draw2: int, window1: Interval, window2: Interval)

  /** `tonightWindows`: draws at 22:45 and 00:45, playing windows 23:00-01:00
      and 01:00-03:00, all counted from the base midnight. */
  function Windows(base: int): (s: Schedule)
    ensures s.window1.end == s.window2.start
    ensures s.draw1 + 15 * MinuteSecs == s.window1.start
    ensures s.draw2 + 15 * MinuteSecs == s.window2.start
    ensures s.window1.end - s.window1.start == 2 * HourSecs
    ensures s.window2.end - s.window2.start == 2 * HourSecs
    ensures s.draw1 < s.window1.start < s.draw2 < s.window2.start
  {
    Schedule(
      base + 22 * HourSecs + 45 * MinuteSecs,
      base + DaySecs + 0 * HourSecs + 45 * MinuteSecs,
      Interval(base + 23 * HourSecs, base + DaySecs + 1 * HourSecs),
      Interval(base + DaySecs + 1 * HourSecs, base + DaySecs + 3 * HourSecs))
  }

  /** The schedule in minutes after the base midnight. */
  lemma WindowsInMinutes(base: int)
    ensures Windows(base).draw1 == base + 1365 * MinuteSecs
    ensures Windows(base).window1 == Interval(base + 1380 * MinuteSecs, base + 1500 * MinuteSecs)
    ensures Windows(base).draw2 == base + 1485 * MinuteSecs
    ensures Windows(base).window2 == Interval(base + 1500 * MinuteSecs, base + 1620 * MinuteSecs)
  {
  }

  /** Both draws and both windows fall inside the night whose base they were
      computed from, so the 05:00 cutover never splits a night's schedule. */
  lemma ScheduleWithinNight(c: Civil, d: int)
    requires c.Valid()
    requires var s := Windows(Midnight(d));
             s.draw1 <= c.Instant() < s.window2.end
    ensures NightBase(c) == d
  {
    NightBaseUnique(c, d);
  }

  /** `canSubmit`: true when nothing was submitted yet, otherwise once the
      cooldown after the last submission has run out. */
  function CanSubmit(last: Option<int>, current: int, cooldownSecs: int): bool {
    match last
    case None => true
    case Some(l) => current >= l + cooldownSecs
  }

  /** Once a submission is allowed it stays allowed. */
  lemma CanSubmitMonotone(last: Option<int>, t: int, t': int, cooldownSecs: int)
    requires t <= t'
    requires CanSubmit(last, t, cooldownSecs)
    ensures CanSubmit(last, t', cooldownSecs)
  {
  }

  /** The first allowed instant after a submission is exactly one cooldown later. */
  lemma CanSubmitThreshold(l: int, cooldownSecs: int)
    ensures CanSubmit(Some(l), l + cooldownSecs, cooldownSecs)
    ensures !CanSubmit(Some(l), l + cooldownSecs - 1, cooldownSecs)
  {
  }

  /** The auto-draw condition polled every five seconds: the draw time has
      passed by less than a minute and the window has no assignments yet. */
  predicate AutoDrawDue(t: int, drawTime: int, filled: nat) {
    drawTime <= t < drawTime + MinuteSecs && filled == 0
  }

  /** The two grace minutes are two hours apart, so one poll never fires both
      draws of a night. */
  lemma AutoDrawsExclusive(base: int, t: int, n1: nat, n2: nat)
    ensures !(AutoDrawDue(t, Windows(base).draw1, n1) && AutoDrawDue(t, Windows(base).draw2, n2))
  {
  }
}
