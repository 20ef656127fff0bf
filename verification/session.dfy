/** The rules a night keeps from one action of the live kiosk to the next:
    sign-up names unique up to case and spacing, one slot per artist per
    night, and slot ids that name one slot of their window. The cleared
    night has them and every action that reads the current state keeps
    them, so they hold after any sequence of such actions. The reroll is
    taken with its intended candidates, since the written one can break the
    second rule (`Draw.RerollCanRepeatArtist`), and the automatic draw is
    the poll of the current state, since the poll as registered can break it
    too (`AutoDraw.StalePollRepeatsArtist`). A draw's slots come from fresh
    ids, so no two share an id (`Slots.SlotsFromUniqueIds`). */
module Session {
  import opened Outcomes
  import opened Text
  import opened Slots
  import opened Night
  import opened Pick
  import opened Draw
  import opened Registry
  import opened Clock
  import opened AutoDraw

  /** The rules of the night. */
  predicate Consistent(st: NightState<Signup>) {
    && NormalizedDistinct(NamesOf(st.signups))
    && NightUnique(st)
    && SlotIdsUnique(st.window1)
    && SlotIdsUnique(st.window2)
  }

  /** Male-ish artists hold at most half of window `w`. */
  predicate WithinCap(st: NightState<Signup>, w: Which) {
    MaleCount(st.signups, st.Window(w)) <= |st.Window(w)| / 2
  }

  /** The night after `clearAll` keeps the rules. */
  lemma ClearAllConsistent()
    ensures Consistent(ClearAll<Signup>())
  {
    ClearAllFresh(0, false);
  }

  /** A sign-up, accepted or not, keeps the rules. */
  lemma JoinKeepsConsistent(st: NightState<Signup>, name: string, gender: Option<Gender>, now: int,
                            cooldownEnabled: bool, id: Id)
    requires Consistent(st)
    ensures Consistent(AddSignup(st, name, gender, now, cooldownEnabled, id).ValueOr(st))
  {
    if AddSignup(st, name, gender, now, cooldownEnabled, id).Ok? {
      AddSignupKeepsNamesDistinct(st, name, gender, now, cooldownEnabled, id);
    }
  }

  /** A draw over slots that share no id keeps the rules. */
  lemma DrawKeepsConsistent(st: NightState<Signup>, w: Which, slots: seq<Slot>, ch: Choices, now: int)
    requires ch.Covers(|st.signups|)
    requires Consistent(st)
    requires UniqueIds(slots)
    ensures Consistent(RunDraw(st, w, slots, ch, now).ValueOr(st))
  {
    if |Pool(st, w)| > 0 {
      var r := RunDraw(st, w, slots, ch, now).value;
      RunDrawShape(st, w, slots, ch, now);
      DrawKeepsNightUnique(st, w, slots, ch, now);
      InSlotOrderUniqueIds(r.Window(w), slots);
      SlotIdsOfWindows(r, w);
    }
  }

  /** A poll of the current state, drawing or not, keeps the rules. */
  lemma AutoTickKeepsConsistent(st: NightState<Signup>, base: int, slots1: seq<Slot>, slots2: seq<Slot>,
                                ch: Choices, t: int)
    requires ch.Covers(|st.signups|)
    requires Consistent(st)
    requires UniqueIds(slots1) && UniqueIds(slots2)
    ensures Consistent(AutoTick(st, base, slots1, slots2, ch, t))
  {
    var s := Windows(base);
    if AutoDrawDue(t, s.draw1, |st.window1|) {
      DrawKeepsConsistent(st, First, slots1, ch, t);
    } else if AutoDrawDue(t, s.draw2, |st.window2|) {
      DrawKeepsConsistent(st, Second, slots2, ch, t);
    }
  }

  /** Both windows' slot ids are unique once window `w` and the other one's
      are. */
  lemma SlotIdsOfWindows(st: NightState<Signup>, w: Which)
    requires SlotIdsUnique(st.Window(w)) && SlotIdsUnique(st.Window(w.Other()))
    ensures SlotIdsUnique(st.window1) && SlotIdsUnique(st.window2)
  {
  }

  /** A reroll with the intended candidates, accepted or not, keeps the
      rules. */
  lemma RerollKeepsConsistent(st: NightState<Signup>, w: Which, slotId: Id, choice: nat)
    requires Consistent(st)
    ensures Consistent(RerollSlotIntended(st, w, slotId, choice).ValueOr(st))
  {
    var ws := st.Window(w);
    if |ws| > 0 && |RerollCandidatesIntended(st, w, slotId)| > 0 {
      var r := RerollSlotIntended(st, w, slotId, choice).value;
      SlotIdsOfWindows(st, w);
      RerollIntendedKeepsNightUnique(st, w, slotId, choice);
      var c :| c in RerollCandidatesIntended(st, w, slotId) &&
               r == st.WithWindow(w, ReplaceParticipant(ws, slotId, c.name));
      ReplaceKeepsSlotIds(ws, slotId, c.name);
      SlotIdsOfWindows(r, w);
    }
  }

  /** A manual replacement, accepted or not, keeps the rules. */
  lemma ReplaceKeepsConsistent(st: NightState<Signup>, w: Which, slotId: Id, newName: string)
    requires Consistent(st)
    ensures Consistent(ManualReplace(st, w, slotId, newName).ValueOr(st))
  {
    if ManualReplace(st, w, slotId, newName).Ok? {
      var r := ManualReplace(st, w, slotId, newName).value;
      SlotIdsOfWindows(st, w);
      ManualReplaceKeepsNightUnique(st, w, slotId, newName);
      ReplaceKeepsSlotIds(st.Window(w), slotId, Trim(newName));
      SlotIdsOfWindows(r, w);
    }
  }

  /** A window within its cap stays within it through a reroll, written or
      intended. */
  lemma RerollKeepsWithinCap(st: NightState<Signup>, w: Which, slotId: Id, choice: nat)
    requires Consistent(st)
    requires WithinCap(st, w)
    ensures WithinCap(RerollSlot(st, w, slotId, choice).ValueOr(st), w)
    ensures WithinCap(RerollSlotIntended(st, w, slotId, choice).ValueOr(st), w)
  {
    SlotIdsOfWindows(st, w);
    assert WithinCap(RerollSlot(st, w, slotId, choice).ValueOr(st), w) by {
      if |st.Window(w)| > 0 && |RerollCandidates(st, w, slotId)| > 0 {
        RerollKeepsCap(st, w, slotId, choice);
      }
    }
    if |st.Window(w)| > 0 && |RerollCandidatesIntended(st, w, slotId)| > 0 {
      RerollIntendedKeepsCap(st, w, slotId, choice);
    }
  }

  /** A window within its cap stays within it through a manual
      replacement. */
  lemma ReplaceKeepsWithinCap(st: NightState<Signup>, w: Which, slotId: Id, newName: string)
    requires Consistent(st)
    requires WithinCap(st, w)
    ensures WithinCap(ManualReplace(st, w, slotId, newName).ValueOr(st), w)
  {
    SlotIdsOfWindows(st, w);
    if ManualReplace(st, w, slotId, newName).Ok? {
      ManualReplaceKeepsCap(st, w, slotId, newName);
    }
  }

  /** A draw whose pool has enough other sign-ups for the rest of the window
      leaves the window within its cap. */
  lemma DrawWithinCap(st: NightState<Signup>, w: Which, slots: seq<Slot>, ch: Choices, now: int)
    requires ch.Covers(|st.signups|)
    requires NormalizedDistinct(NamesOf(st.signups))
    requires |Pool(st, w)| > 0
    requires var n := Min(|Pool(st, w)|, |slots|);
             |OthersOf(Pool(st, w))| >= n - n / 2
    ensures WithinCap(RunDraw(st, w, slots, ch, now).ValueOr(st), w)
  {
    DrawRespectsCap(st, w, slots, ch, now);
    RunDrawShape(st, w, slots, ch, now);
  }
}
