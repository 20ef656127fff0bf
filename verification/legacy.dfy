/** The older kiosk variant (`src/App.tsx`). Its time, slot, shuffle,
    cooldown and name helpers are the same as the live kiosk's and are
    shared with it; what differs is the actions. Sign-ups carry no gender,
    the draw is a plain shuffle of all signup names with no cap and no
    exclusion of the other window, the reroll avoids only exact names of
    the same window, and a manual replacement is checked against the same
    window only. It also lets staff remove a signup. */
module Legacy {
  import opened Outcomes
  import opened Seqs
  import opened Text
  import opened Clock
  import opened Slots
  import opened FisherYates
  import opened Night
  import opened Csv
  import Draw
  import Registry

  /** A sign-up of the older variant. */
  datatype Entry = Entry(id: Id, name: string, created: int)

  /** The names of the entries, in order. */
  function EntryNames(signups: seq<Entry>): (r: seq<string>)
    ensures |r| == |signups|
    ensures forall i :: 0 <= i < |r| ==> r[i] == signups[i].name
  {
    seq(|signups|, i requires 0 <= i < |signups| => signups[i].name)
  }

  /** The participants of a window, in slot order. */
  function Participants(ws: seq<Assignment>): (r: seq<string>)
    ensures |r| == |ws|
    ensures forall i :: 0 <= i < |r| ==> r[i] == ws[i].participant
  {
    seq(|ws|, i requires 0 <= i < |ws| => ws[i].participant)
  }

  // ---------------------------------------------------------------------
  // addSignup

  /** Some entry's name normalizes like `name`. */
  predicate Taken(signups: seq<Entry>, name: string) {
    exists e :: e in signups && Normalize(e.name) == Normalize(name)
  }

  /** `addSignup` of the older variant: a blank name is ignored, then the
      fixed one-minute cooldown and the normalized duplicate are checked;
      otherwise the trimmed name is appended stamped `now`. */
  function AddSignup(st: NightState<Entry>, name: string, now: int, id: Id): (r: Result<NightState<Entry>>)
    ensures r.Rejected? ==> r.why in {BlankName, Throttled, DuplicateName}
    ensures r.Ok? ==>
              && r.value.signups == st.signups + [Entry(id, Trim(name), now)]
              && r.value.lastSignup == Some(now)
              && r.value.window1 == st.window1 && r.value.window2 == st.window2 && r.value.lastDraw == st.lastDraw
  {
    var trimmed := Trim(name);
    if |trimmed| == 0 then Rejected(BlankName)
    else if !CanSubmit(st.lastSignup, now, Registry.SignupCooldownSecs) then Rejected(Throttled)
    else if exists e :: e in st.signups && Normalize(e.name) == Normalize(trimmed) then Rejected(DuplicateName)
    else Ok(st.(signups := st.signups + [Entry(id, trimmed, now)], lastSignup := Some(now)))
  }

  /** Each rejection in terms of the input, and acceptance exactly when none
      applies. */
  lemma AddSignupOutcome(st: NightState<Entry>, name: string, now: int, id: Id)
    ensures var r := AddSignup(st, name, now, id);
            var blank := forall i :: 0 <= i < |name| ==> IsSpace(name[i]);
            var waiting := st.lastSignup.Some? && now < st.lastSignup.value + Registry.SignupCooldownSecs;
            && (r == Rejected(BlankName) <==> blank)
            && (r == Rejected(Throttled) <==> !blank && waiting)
            && (r == Rejected(DuplicateName) <==> !blank && !waiting && Taken(st.signups, name))
            && (r.Ok? <==> !blank && !waiting && !Taken(st.signups, name))
  {
    TrimBlank(name);
    NormalizeTrim(name);
  }

  /** Accepting a sign-up keeps the entries' normalized names pairwise
      distinct. */
  lemma AddSignupKeepsNamesDistinct(st: NightState<Entry>, name: string, now: int, id: Id)
    requires NormalizedDistinct(EntryNames(st.signups))
    requires AddSignup(st, name, now, id).Ok?
    ensures NormalizedDistinct(EntryNames(AddSignup(st, name, now, id).value.signups))
  {
    AddSignupOutcome(st, name, now, id);
    NormalizeTrim(name);
    var after := AddSignup(st, name, now, id).value.signups;
    var names := EntryNames(after);
    var n := |st.signups|;
    forall i, j | 0 <= i < j < |names|
      ensures Normalize(names[i]) != Normalize(names[j])
    {
      if j == n {
        assert after[i] in st.signups;
      } else {
        assert names[i] == EntryNames(st.signups)[i] && names[j] == EntryNames(st.signups)[j];
      }
    }
  }

  // ---------------------------------------------------------------------
  // runDraw / redrawWindow

  /** `runDraw` and `redrawWindow` of the older variant: with no signups the
      state is left alone; otherwise the window gets the first
      `min(|signups|, |slots|)` names of a shuffle of all signup names, in
      slot order, and the draw time is stamped. */
  function RunDraw(st: NightState<Entry>, w: Which, slots: seq<Slot>, js: seq<nat>, now: int): (r: Result<NightState<Entry>>)
    requires ValidChoices(js, |st.signups|)
    ensures r.Rejected? <==> |st.signups| == 0
    ensures r.Rejected? ==> r.why == EmptyPool
  {
    var names := EntryNames(st.signups);
    if |names| == 0 then Rejected(EmptyPool)
    else
      var picked := Shuffle(names, js)[..Min(|names|, |slots|)];
      Ok(st.WithWindow(w, Zip(slots, picked)).(lastDraw := Some(now)))
  }

  /** A successful draw fills the window with one signup name per slot, in
      slot order, drawn without repeats from the signups, and changes
      nothing else but the draw time. */
  lemma RunDrawShape(st: NightState<Entry>, w: Which, slots: seq<Slot>, js: seq<nat>, now: int)
    requires ValidChoices(js, |st.signups|)
    requires RunDraw(st, w, slots, js, now).Ok?
    ensures var r := RunDraw(st, w, slots, js, now).value;
            var ws := r.Window(w);
            && |ws| == Min(|st.signups|, |slots|)
            && Draw.InSlotOrder(ws, slots)
            && multiset(Participants(ws)) <= multiset(EntryNames(st.signups))
            && r.Window(w.Other()) == st.Window(w.Other())
            && r.signups == st.signups && r.lastSignup == st.lastSignup
            && r.lastDraw == Some(now)
  {
    var names := EntryNames(st.signups);
    var picked := Shuffle(names, js)[..Min(|names|, |slots|)];
    var ws := RunDraw(st, w, slots, js, now).value.Window(w);
    PrefixMultiset(Shuffle(names, js), |picked|);
    assert Participants(ws) == picked;
  }

  /** When no two signups normalize alike, neither do the artists of a drawn
      window. */
  lemma RunDrawDistinct(st: NightState<Entry>, w: Which, slots: seq<Slot>, js: seq<nat>, now: int)
    requires ValidChoices(js, |st.signups|)
    requires NormalizedDistinct(EntryNames(st.signups))
    requires RunDraw(st, w, slots, js, now).Ok?
    ensures WindowDistinct(RunDraw(st, w, slots, js, now).value.Window(w))
  {
    var names := EntryNames(st.signups);
    var ws := RunDraw(st, w, slots, js, now).value.Window(w);
    RunDrawShape(st, w, slots, js, now);
    var ps := Participants(ws);
    forall i, j | 0 <= i < j < |ws|
      ensures Normalize(ws[i].participant) != Normalize(ws[j].participant)
    {
      if Normalize(ps[i]) == Normalize(ps[j]) {
        NormalizedPicksDistinct(names, ps, i, j);
      }
    }
  }

  /** Two positions of a sub-multiset of normalized-distinct names never
      normalize alike. */
  lemma NormalizedPicksDistinct(names: seq<string>, ps: seq<string>, i: nat, j: nat)
    requires NormalizedDistinct(names)
    requires multiset(ps) <= multiset(names)
    requires i < j < |ps|
    ensures Normalize(ps[i]) != Normalize(ps[j])
  {
    SubMultisetMembers(ps, names);
    if ps[i] == ps[j] {
      RepeatCount(ps, i, j);
      assert Distinct(names);
      DistinctCount(names, ps[i]);
      assert false;
    } else {
      var a :| 0 <= a < |names| && names[a] == ps[i];
      var b :| 0 <= b < |names| && names[b] == ps[j];
      assert a != b;
    }
  }

  // ---------------------------------------------------------------------
  // rerollSlot

  /** `remainingNames`: the signup names, in order, held by no assignment of
      the window, compared exactly. */
  function Remaining(st: NightState<Entry>, w: Which): (r: seq<string>)
    ensures forall n :: n in r <==> n in EntryNames(st.signups) && n !in Participants(st.Window(w))
  {
    FilterMembers(EntryNames(st.signups), NotHeld(Participants(st.Window(w))));
    Filter(EntryNames(st.signups), NotHeld(Participants(st.Window(w))))
  }

  /** Holds of the names not among `held`. */
  function NotHeld(held: seq<string>): string -> bool {
    (n: string) => n !in held
  }

  /** `rerollSlot` of the older variant: with no remaining name the state is
      left alone; otherwise the chosen remaining name takes over slot
      `slotId`. */
  function Reroll(st: NightState<Entry>, w: Which, slotId: Id, choice: nat): (r: Result<NightState<Entry>>)
    ensures r.Rejected? <==> |Remaining(st, w)| == 0
    ensures r.Rejected? ==> r.why == NoCandidates
    ensures r.Ok? ==>
              exists n :: n in EntryNames(st.signups) && n !in Participants(st.Window(w))
                       && r.value == st.WithWindow(w, ReplaceParticipant(st.Window(w), slotId, n))
  {
    var rem := Remaining(st, w);
    if |rem| == 0 then Rejected(NoCandidates)
    else
      var pick := rem[choice % |rem|];
      Ok(st.WithWindow(w, ReplaceParticipant(st.Window(w), slotId, pick)))
  }

  /** No two assignments of the window hold exactly the same name. */
  predicate ExactDistinct(ws: seq<Assignment>) {
    forall i, j :: 0 <= i < j < |ws| ==> ws[i].participant != ws[j].participant
  }

  /** The reroll keeps a window free of exact repeats. */
  lemma RerollKeepsExactDistinct(st: NightState<Entry>, w: Which, slotId: Id, choice: nat)
    requires ExactDistinct(st.Window(w)) && SlotIdsUnique(st.Window(w))
    requires Reroll(st, w, slotId, choice).Ok?
    ensures ExactDistinct(Reroll(st, w, slotId, choice).value.Window(w))
  {
    var ws := st.Window(w);
    var n :| n in EntryNames(st.signups) && n !in Participants(ws)
             && Reroll(st, w, slotId, choice).value == st.WithWindow(w, ReplaceParticipant(ws, slotId, n));
    var r := ReplaceParticipant(ws, slotId, n);
    forall i, j | 0 <= i < j < |r|
      ensures r[i].participant != r[j].participant
    {
      if ws[i].slotId == slotId {
        assert ws[j].slotId != slotId;
        assert Participants(ws)[j] == ws[j].participant;
      } else if ws[j].slotId == slotId {
        assert Participants(ws)[i] == ws[i].participant;
      }
    }
  }

  // ---------------------------------------------------------------------
  // manualReplace

  /** `manualReplace` of the older variant: a blank name, or one held by
      another slot of the same window, leaves the state alone; otherwise the
      trimmed name takes over slot `slotId`. The other window is not
      consulted. */
  function ManualReplace(st: NightState<Entry>, w: Which, slotId: Id, newName: string): (r: Result<NightState<Entry>>)
    ensures var t := Trim(newName);
            && (r == Rejected(BlankName) <==> |t| == 0)
            && (r == Rejected(DuplicateName) <==> |t| > 0 && Draw.HeldElsewhere(st.Window(w), slotId, Normalize(t)))
    ensures r.Rejected? ==> r.why in {BlankName, DuplicateName}
    ensures r.Ok? ==> r.value == st.WithWindow(w, ReplaceParticipant(st.Window(w), slotId, Trim(newName)))
  {
    var trimmed := Trim(newName);
    if |trimmed| == 0 then Rejected(BlankName)
    else if Draw.HeldElsewhere(st.Window(w), slotId, Normalize(trimmed)) then Rejected(DuplicateName)
    else Ok(st.WithWindow(w, ReplaceParticipant(st.Window(w), slotId, trimmed)))
  }

  /** A manual replacement keeps the window free of normalized repeats. */
  lemma ManualReplaceKeepsDistinct(st: NightState<Entry>, w: Which, slotId: Id, newName: string)
    requires WindowDistinct(st.Window(w)) && SlotIdsUnique(st.Window(w))
    requires ManualReplace(st, w, slotId, newName).Ok?
    ensures WindowDistinct(ManualReplace(st, w, slotId, newName).value.Window(w))
  {
    Draw.ReplaceKeepsDistinct(st.Window(w), slotId, Trim(newName));
  }

  /** Unlike the live kiosk, the older variant lets an artist playing in the
      other window be typed into this one. */
  lemma ManualReplaceAllowsOtherWindow(a: Assignment, b: Assignment, signups: seq<Entry>)
    requires a.slotId != b.slotId
    requires |Trim(a.participant)| > 0
    ensures var st := NightState(signups, [b], [a], None, None);
            && ManualReplace(st, First, b.slotId, a.participant).Ok?
            && !(NamesIn(ManualReplace(st, First, b.slotId, a.participant).value.window1)
                 !! NamesIn(st.window2))
  {
    var st := NightState(signups, [b], [a], None, None);
    NormalizeTrim(a.participant);
    var r := ManualReplace(st, First, b.slotId, a.participant).value;
    assert r.window1[0].participant == Trim(a.participant);
    assert Normalize(r.window1[0].participant) in NamesIn(r.window1);
    assert Normalize(a.participant) in NamesIn(st.window2);
  }

  // ---------------------------------------------------------------------
  // removeSignup

  /** Holds of the entries whose id is not `id`. */
  function IdOtherThan(id: Id): Entry -> bool {
    (e: Entry) => e.id != id
  }

  /** `removeSignup`: drops every entry with id `id`, keeps the rest in
      order and leaves the assignments as they are. */
  function RemoveSignup(st: NightState<Entry>, id: Id): (r: NightState<Entry>)
    ensures r.window1 == st.window1 && r.window2 == st.window2
    ensures r.lastDraw == st.lastDraw && r.lastSignup == st.lastSignup
  {
    st.(signups := Filter(st.signups, IdOtherThan(id)))
  }

  /** Exactly the entries with id `id` are gone; every other entry keeps all
      its copies. */
  lemma RemoveSignupMembers(st: NightState<Entry>, id: Id)
    ensures forall e :: e in RemoveSignup(st, id).signups <==> e in st.signups && e.id != id
    ensures forall e: Entry :: e.id != id ==> multiset(RemoveSignup(st, id).signups)[e] == multiset(st.signups)[e]
  {
    FilterMembers(st.signups, IdOtherThan(id));
    forall e: Entry | e.id != id
      ensures multiset(RemoveSignup(st, id).signups)[e] == multiset(st.signups)[e]
    {
      FilterCount(st.signups, IdOtherThan(id), e);
    }
  }

  /** The survivors keep their relative order: removing from a split list
      removes from each part. */
  lemma RemoveSignupKeepsOrder(st: NightState<Entry>, id: Id, front: seq<Entry>, back: seq<Entry>)
    requires st.signups == front + back
    ensures RemoveSignup(st, id).signups == Filter(front, IdOtherThan(id)) + Filter(back, IdOtherThan(id))
  {
    FilterAppend(front, back, IdOtherThan(id));
  }

  /** Removing an id nobody has changes nothing, so removing twice is
      removing once. */
  lemma RemoveSignupIdempotent(st: NightState<Entry>, id: Id)
    ensures (forall e :: e in st.signups ==> e.id != id) ==> RemoveSignup(st, id) == st
    ensures RemoveSignup(RemoveSignup(st, id), id) == RemoveSignup(st, id)
  {
    if forall e :: e in st.signups ==> e.id != id {
      FilterAll(st.signups, IdOtherThan(id));
    }
    RemoveSignupMembers(st, id);
    FilterAll(RemoveSignup(st, id).signups, IdOtherThan(id));
  }

  // ---------------------------------------------------------------------
  // Auto draw and export

  /** One five-second poll of the older variant, reading the current state:
      the same condition as the live kiosk, with the uncapped draw. It never
      touches the signups, changes a window only while that window is empty
      and its own grace minute is running, and outside both grace minutes
      changes nothing. */
  function AutoTick(st: NightState<Entry>, base: int, slots1: seq<Slot>, slots2: seq<Slot>, js: seq<nat>, t: int)
      : (r: NightState<Entry>)
    requires ValidChoices(js, |st.signups|)
    ensures r.signups == st.signups && r.lastSignup == st.lastSignup
    ensures r.window1 != st.window1 ==>
              |st.window1| == 0 && Windows(base).draw1 <= t < Windows(base).draw1 + MinuteSecs
    ensures r.window2 != st.window2 ==>
              |st.window2| == 0 && Windows(base).draw2 <= t < Windows(base).draw2 + MinuteSecs
    ensures var s := Windows(base);
            !(s.draw1 <= t < s.draw1 + MinuteSecs) && !(s.draw2 <= t < s.draw2 + MinuteSecs) ==> r == st
  {
    var s := Windows(base);
    if AutoDrawDue(t, s.draw1, |st.window1|) then DrawOrStay(st, First, slots1, js, t)
    else if AutoDrawDue(t, s.draw2, |st.window2|) then DrawOrStay(st, Second, slots2, js, t)
    else st
  }

  /** The uncapped draw of window `w` if it succeeds, else the unchanged
      state. */
  function DrawOrStay(st: NightState<Entry>, w: Which, slots: seq<Slot>, js: seq<nat>, t: int): (r: NightState<Entry>)
    requires ValidChoices(js, |st.signups|)
    ensures r.signups == st.signups && r.lastSignup == st.lastSignup
    ensures r.Window(w.Other()) == st.Window(w.Other())
  {
    var d := RunDraw(st, w, slots, js, t);
    if d.Ok? then
      RunDrawShape(st, w, slots, js, t);
      d.value
    else st
  }

  /** During the first grace minute, with window 1 empty and someone signed
      up, the poll is exactly the first window's draw. */
  lemma FiresFirstDraw(st: NightState<Entry>, base: int, slots1: seq<Slot>, slots2: seq<Slot>, js: seq<nat>, t: int)
    requires ValidChoices(js, |st.signups|)
    requires Windows(base).draw1 <= t < Windows(base).draw1 + MinuteSecs
    requires |st.window1| == 0
    requires |st.signups| > 0
    ensures RunDraw(st, First, slots1, js, t).Ok?
    ensures AutoTick(st, base, slots1, slots2, js, t) == RunDraw(st, First, slots1, js, t).value
  {
    assert AutoDrawDue(t, Windows(base).draw1, |st.window1|);
  }

  /** During the second grace minute, with window 2 empty and someone signed
      up, the poll is exactly the second window's draw. */
  lemma FiresSecondDraw(st: NightState<Entry>, base: int, slots1: seq<Slot>, slots2: seq<Slot>, js: seq<nat>, t: int)
    requires ValidChoices(js, |st.signups|)
    requires Windows(base).draw2 <= t < Windows(base).draw2 + MinuteSecs
    requires |st.window2| == 0
    requires |st.signups| > 0
    ensures RunDraw(st, Second, slots2, js, t).Ok?
    ensures AutoTick(st, base, slots1, slots2, js, t) == RunDraw(st, Second, slots2, js, t).value
  {
    AutoDrawsExclusive(base, t, |st.window1|, |st.window2|);
    assert !AutoDrawDue(t, Windows(base).draw1, |st.window1|);
    assert AutoDrawDue(t, Windows(base).draw2, |st.window2|);
  }

  /** The header row of the older export. */
  function ExportHeader(): seq<string> {
    ["Name", "Signed Up (UK)"]
  }

  /** The older export's table: the header, then name and rendered creation
      time per entry. */
  function ExportRows(signups: seq<Entry>, fmt: int -> string): (rows: seq<seq<string>>)
    ensures |rows| == |signups| + 1
    ensures rows[0] == ExportHeader()
    ensures forall i :: 0 <= i < |signups| ==> rows[i + 1] == [signups[i].name, fmt(signups[i].created)]
  {
    [ExportHeader()] + seq(|signups|, i requires 0 <= i < |signups| => [signups[i].name, fmt(signups[i].created)])
  }

  /** Reading the older export back gives every entry's exact name in order. */
  lemma ExportRoundTrip(signups: seq<Entry>, fmt: int -> string)
    ensures var rows := ExportRows(signups, fmt);
            ParseRows(Encode(rows)) == Some(rows)
  {
    var rows := ExportRows(signups, fmt);
    assert AllRowsFilled(rows) by {
      forall i | 0 <= i < |rows|
        ensures |rows[i]| > 0
      {
        if i > 0 {
          assert rows[(i - 1) + 1] == rows[i];
        }
      }
    }
    ParseEncode(rows);
  }
}
