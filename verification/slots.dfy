/** `generateSlots`: cutting a playing window into consecutive fixed-length
    slots, at most `maxSlots` of them. Slot identifiers come from a generator of
    fresh ids in the kiosk; here they are handed in as a sequence. */
module Slots {
  import opened Clock
  import Seqs

  type Id = string

  /** Maximum number of slots per window. */
  const MaxSlotsPerWindow: int := 4

  /** Slot length in minutes. */
  const SlotMinutes: int := 30

  datatype Slot = Slot(id: Id, start: int, end: int)

  /** The slot count the loop can reach: one slot is always pushed before the
      cap is checked, so a cap below one still allows one slot. */
  function SlotBudget(maxSlots: int): nat {
    if maxSlots >= 1 then maxSlots else 1
  }

  /** Where the slot after `r` would start: the cursor of the loop. */
  function NextStart(cursor: int, r: seq<Slot>): int {
    if |r| == 0 then cursor else r[|r| - 1].end
  }

  /** `r` is a run of contiguous slots from `cursor`, each `step` seconds long
      and ending by `end`, carrying the ids from position `k` on. */
  predicate Laid(r: seq<Slot>, cursor: int, end: int, step: int, ids: seq<Id>, k: nat) {
    && (|r| > 0 ==> r[0].start == cursor)
    && (forall i :: 0 <= i < |r| ==> k + i < |ids| && r[i].id == ids[k + i])
    && (forall i :: 0 <= i < |r| ==> r[i].end == r[i].start + step && r[i].end <= end)
    && (forall i :: 0 < i < |r| ==> r[i - 1].end == r[i].start)
  }

  /** The slots the loop produces from `cursor` on, when `k` slots were
      produced before. */
  function SlotsFrom(cursor: int, end: int, step: int, maxSlots: int, ids: seq<Id>, k: nat): (r: seq<Slot>)
    requires k < SlotBudget(maxSlots) <= |ids|
    decreases SlotBudget(maxSlots) - k
  {
    if cursor < end then
      var e := cursor + step;
      if e > end then []
      else if k + 1 >= maxSlots then [Slot(ids[k], cursor, e)]
      else [Slot(ids[k], cursor, e)] + SlotsFrom(e, end, step, maxSlots, ids, k + 1)
    else []
  }

  /** The loop yields contiguous slots, each `step` seconds long, none ending
      after `end`, and stops only at the budget or when the next slot would
      not fit. */
  lemma {:induction false} SlotsFromShape(cursor: int, end: int, step: int, maxSlots: int, ids: seq<Id>, k: nat)
    requires k < SlotBudget(maxSlots) <= |ids|
    ensures var r := SlotsFrom(cursor, end, step, maxSlots, ids, k);
            && |r| <= SlotBudget(maxSlots) - k
            && Laid(r, cursor, end, step, ids, k)
            && (k + |r| == SlotBudget(maxSlots)
                || !(NextStart(cursor, r) < end && NextStart(cursor, r) + step <= end))
    decreases SlotBudget(maxSlots) - k
  {
    var r := SlotsFrom(cursor, end, step, maxSlots, ids, k);
    if cursor < end && cursor + step <= end {
      var head := Slot(ids[k], cursor, cursor + step);
      if k + 1 < maxSlots {
        var rest := SlotsFrom(cursor + step, end, step, maxSlots, ids, k + 1);
        SlotsFromShape(cursor + step, end, step, maxSlots, ids, k + 1);
        assert r == [head] + rest;
        LaidCons(head, rest, end, step, ids, k);
        assert NextStart(cursor, r) == NextStart(cursor + step, rest);
      } else {
        assert r == [head];
        LaidCons(head, [], end, step, ids, k);
      }
    }
  }

  /** No two slots share an id. */
  predicate UniqueIds(slots: seq<Slot>) {
    forall i, j :: 0 <= i < j < |slots| ==> slots[i].id != slots[j].id
  }

  /** Ids that are fresh, none handed out twice, give slots no two of which
      share an id. */
  lemma SlotsFromUniqueIds(cursor: int, end: int, step: int, maxSlots: int, ids: seq<Id>, k: nat)
    requires k < SlotBudget(maxSlots) <= |ids|
    requires Seqs.Distinct(ids)
    ensures UniqueIds(SlotsFrom(cursor, end, step, maxSlots, ids, k))
  {
    var r := SlotsFrom(cursor, end, step, maxSlots, ids, k);
    SlotsFromShape(cursor, end, step, maxSlots, ids, k);
    forall i, j | 0 <= i < j < |r|
      ensures r[i].id != r[j].id
    {
      assert r[i].id == ids[k + i] && r[j].id == ids[k + j];
    }
  }

  /** Putting a fitting slot in front of a run that starts where it ends. */
  lemma LaidCons(head: Slot, rest: seq<Slot>, end: int, step: int, ids: seq<Id>, k: nat)
    requires k < |ids| && head.id == ids[k]
    requires head.end == head.start + step && head.end <= end
    requires Laid(rest, head.end, end, step, ids, k + 1)
    ensures Laid([head] + rest, head.start, end, step, ids, k)
  {
    var r := [head] + rest;
    forall i | 0 <= i < |r|
      ensures k + i < |ids| && r[i].id == ids[k + i]
    {
      if i > 0 {
        assert r[i] == rest[i - 1];
      }
    }
    forall i | 0 < i < |r|
      ensures r[i - 1].end == r[i].start
    {
      assert r[i] == rest[i - 1];
      if i > 1 {
        assert r[i - 1] == rest[i - 2];
      }
    }
  }

  /** The loop's invariant survives pushing a fitting slot: the slots so far
      followed by the loop's remaining output are the whole output. */
  lemma PushSlot(done: seq<Slot>, cursor: int, end: int, step: int, maxSlots: int, ids: seq<Id>, whole: seq<Slot>)
    requires |done| < SlotBudget(maxSlots) <= |ids|
    requires cursor < end && cursor + step <= end
    requires done + SlotsFrom(cursor, end, step, maxSlots, ids, |done|) == whole
    ensures var pushed := done + [Slot(ids[|done|], cursor, cursor + step)];
            && (|pushed| >= maxSlots ==> pushed == whole)
            && (|pushed| < maxSlots ==>
                  pushed + SlotsFrom(cursor + step, end, step, maxSlots, ids, |pushed|) == whole)
  {
    var k := |done|;
    var slot := Slot(ids[k], cursor, cursor + step);
    SlotsFromStep(cursor, end, step, maxSlots, ids, k);
    if k + 1 < maxSlots {
      var tail := SlotsFrom(cursor + step, end, step, maxSlots, ids, k + 1);
      assert done + ([slot] + tail) == (done + [slot]) + tail;
    }
  }

  /** The loop stops once the next slot would not fit. */
  lemma SlotsFromStop(cursor: int, end: int, step: int, maxSlots: int, ids: seq<Id>, k: nat)
    requires k < SlotBudget(maxSlots) <= |ids|
    requires !(cursor < end && cursor + step <= end)
    ensures SlotsFrom(cursor, end, step, maxSlots, ids, k) == []
  {
  }

  /** One step of the loop: a slot that fits is pushed, then the cap is
      checked. */
  lemma SlotsFromStep(cursor: int, end: int, step: int, maxSlots: int, ids: seq<Id>, k: nat)
    requires k < SlotBudget(maxSlots) <= |ids|
    requires cursor < end && cursor + step <= end
    ensures k + 1 >= maxSlots ==>
              SlotsFrom(cursor, end, step, maxSlots, ids, k) == [Slot(ids[k], cursor, cursor + step)]
    ensures k + 1 < maxSlots ==>
              SlotsFrom(cursor, end, step, maxSlots, ids, k)
              == [Slot(ids[k], cursor, cursor + step)] + SlotsFrom(cursor + step, end, step, maxSlots, ids, k + 1)
  {
  }

  /** The kiosk's loop: a cursor walks from the interval start, pushing a slot
      while the slot fits and stopping once the cap is reached. */
  method GenerateSlots(iv: Interval, minutes: int, maxSlots: int, ids: seq<Id>) returns (slots: seq<Slot>)
    requires SlotBudget(maxSlots) <= |ids|
    ensures slots == SlotsFrom(iv.start, iv.end, minutes * MinuteSecs, maxSlots, ids, 0)
  {
    var step := minutes * MinuteSecs;
    slots := [];
    var cursor := iv.start;
    while cursor < iv.end
      invariant |slots| < SlotBudget(maxSlots)
      invariant slots + SlotsFrom(cursor, iv.end, step, maxSlots, ids, |slots|)
                == SlotsFrom(iv.start, iv.end, step, maxSlots, ids, 0)
      decreases SlotBudget(maxSlots) - |slots|
    {
      var e := cursor + step;
      if e > iv.end {
        SlotsFromStop(cursor, iv.end, step, maxSlots, ids, |slots|);
        break;
      }
      var k := |slots|;
      PushSlot(slots, cursor, iv.end, step, maxSlots, ids, SlotsFrom(iv.start, iv.end, step, maxSlots, ids, 0));
      slots := slots + [Slot(ids[k], cursor, e)];
      if |slots| >= maxSlots {
        break;
      }
      cursor := e;
    }
    if cursor >= iv.end {
      SlotsFromStop(cursor, iv.end, step, maxSlots, ids, |slots|);
    }
  }

  /** A two-hour window always holds exactly four 30-minute slots, the first
      starting when the window opens. */
  lemma {:induction false} TwoHourWindowHoldsFour(iv: Interval, ids: seq<Id>)
    requires iv.end - iv.start == 2 * HourSecs
    requires |ids| >= MaxSlotsPerWindow
    ensures var r := SlotsFrom(iv.start, iv.end, SlotMinutes * MinuteSecs, MaxSlotsPerWindow, ids, 0);
            && |r| == 4
            && r[0] == Slot(ids[0], iv.start, iv.start + 30 * MinuteSecs)
            && r[3].end == iv.end
  {
    var s, e, step := iv.start, iv.end, SlotMinutes * MinuteSecs;
    var r3 := SlotsFrom(s + 3 * step, e, step, 4, ids, 3);
    assert r3 == [Slot(ids[3], s + 3 * step, e)];
    var r2 := SlotsFrom(s + 2 * step, e, step, 4, ids, 2);
    assert r2 == [Slot(ids[2], s + 2 * step, s + 3 * step)] + r3;
    var r1 := SlotsFrom(s + step, e, step, 4, ids, 1);
    assert r1 == [Slot(ids[1], s + step, s + 2 * step)] + r2;
    var r0 := SlotsFrom(s, e, step, 4, ids, 0);
    assert r0 == [Slot(ids[0], s, s + step)] + r1;
  }

  /** The first window of a night opens with the 23:00-23:30 slot. */
  lemma FirstWindowOpensAtEleven(base: int, ids: seq<Id>)
    requires |ids| >= MaxSlotsPerWindow
    ensures var iv := Windows(base).window1;
            var r := SlotsFrom(iv.start, iv.end, SlotMinutes * MinuteSecs, MaxSlotsPerWindow, ids, 0);
            && |r| == 4
            && r[0].start == base + 23 * HourSecs
            && r[0].end == base + 23 * HourSecs + 30 * MinuteSecs
  {
    TwoHourWindowHoldsFour(Windows(base).window1, ids);
  }
}
