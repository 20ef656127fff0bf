/** The session state of one night and the lookups the kiosk's actions share:
    who is assigned in a window, whether a name belongs to a male-ish signup,
    how many male-ish artists a window holds.

    `NightState` is generic in the signup record: the live kiosk stores a
    gender with each signup, the older variant does not.
 */
module Night {
  import opened Outcomes
  import opened Text
  import opened Slots

  datatype Gender = Male | Female | NonBinary | PreferNotToSay | Duo

  /** The categories the proportional cap applies to. */
  predicate IsMaleish(g: Gender) {
    g == Male || g == Duo
  }

  /** A sign-up of the live kiosk. */
  datatype Signup = Signup(id: Id, name: string, gender: Gender, created: int)

  /** A slot of a window together with the artist playing it. */
  datatype Assignment = Assignment(slotId: Id, start: int, end: int, participant: string)

  /** The two playing windows of a night. */
  datatype Which = First | Second {
    function Other(): (o: Which)
      ensures o != this
    {
      if First? then Second else First
    }
  }

  /** Everything the kiosk remembers for the night. */
  datatype NightState<S> = NightState(
    signups: seq<S>,
    window1: seq<Assignment>,
    window2: seq<Assignment>,
    lastDraw: Option<int>,
    lastSignup: Option<int>)
  {
    function Window(w: Which): seq<Assignment> {
      if w == First then window1 else window2
    }

    /** The state with window `w`'s assignments replaced and nothing else
        changed. */
    function WithWindow(w: Which, a: seq<Assignment>): (r: NightState<S>)
      ensures r.Window(w) == a
      ensures r.Window(w.Other()) == Window(w.Other())
      ensures r.signups == signups && r.lastDraw == lastDraw && r.lastSignup == lastSignup
    {
      if w == First then this.(window1 := a) else this.(window2 := a)
    }
  }

  /** `assignedNamesIn`: the normalized names holding a slot of the window. */
  function NamesIn(ws: seq<Assignment>): set<string> {
    set a | a in ws :: Normalize(a.participant)
  }

  /** The `i`-th slot given to the `i`-th name, for as many names as there are. */
  function Zip(slots: seq<Slot>, names: seq<string>): (r: seq<Assignment>)
    requires |names| <= |slots|
    ensures |r| == |names|
    ensures forall i :: 0 <= i < |r| ==>
              r[i] == Assignment(slots[i].id, slots[i].start, slots[i].end, names[i])
  {
    seq(|names|, i requires 0 <= i < |names| => Assignment(slots[i].id, slots[i].start, slots[i].end, names[i]))
  }

  /** The participant of every assignment holding `slotId` set to `name`. */
  function ReplaceParticipant(ws: seq<Assignment>, slotId: Id, name: string): (r: seq<Assignment>)
    ensures |r| == |ws|
    ensures forall i :: 0 <= i < |ws| ==>
              r[i] == if ws[i].slotId == slotId then ws[i].(participant := name) else ws[i]
  {
    seq(|ws|, i requires 0 <= i < |ws| =>
      if ws[i].slotId == slotId then ws[i].(participant := name) else ws[i])
  }

  /** The names of the signups, in order. */
  function NamesOf(signups: seq<Signup>): (r: seq<string>)
    ensures |r| == |signups|
    ensures forall i :: 0 <= i < |r| ==> r[i] == signups[i].name
  {
    seq(|signups|, i requires 0 <= i < |signups| => signups[i].name)
  }

  /** No two names normalize alike: the registry's uniqueness rule. */
  predicate NormalizedDistinct(names: seq<string>) {
    forall i, j :: 0 <= i < j < |names| ==> Normalize(names[i]) != Normalize(names[j])
  }

  /** No two assignments of a window hold the same artist. */
  predicate WindowDistinct(ws: seq<Assignment>) {
    forall i, j :: 0 <= i < j < |ws| ==> Normalize(ws[i].participant) != Normalize(ws[j].participant)
  }

  /** The one-slot-per-artist-per-night rule over both windows. */
  predicate NightUnique<S>(st: NightState<S>) {
    && WindowDistinct(st.window1)
    && WindowDistinct(st.window2)
    && NamesIn(st.window1) !! NamesIn(st.window2)
  }

  /** The first signup whose name normalizes to `norm` (`signups.find`). */
  function FindByName(signups: seq<Signup>, norm: string): (r: Option<Signup>)
    ensures r.Some? ==> r.value in signups && Normalize(r.value.name) == norm
    ensures r.None? <==> forall s :: s in signups ==> Normalize(s.name) != norm
    ensures r.Some? ==> exists k :: 0 <= k < |signups| && signups[k] == r.value
                                    && forall j :: 0 <= j < k ==> Normalize(signups[j].name) != norm
    decreases |signups|
  {
    if |signups| == 0 then None
    else if Normalize(signups[0].name) == norm then Some(signups[0])
    else
      var r := FindByName(signups[1..], norm);
      assert forall s :: s in signups ==> s == signups[0] || s in signups[1..];
      if r.Some? then
        var k :| 0 <= k < |signups[1..]| && signups[1..][k] == r.value
                 && forall j :: 0 <= j < k ==> Normalize(signups[1..][j].name) != norm;
        assert signups[k + 1] == r.value;
        assert forall j :: 0 <= j < k + 1 ==> Normalize(signups[j].name) != norm by {
          forall j | 0 <= j < k + 1
            ensures Normalize(signups[j].name) != norm
          {
            if j > 0 {
              assert signups[j] == signups[1..][j - 1];
            }
          }
        }
        r
      else r
  }

  /** `isMaleishName`: a name is male-ish only when it matches a signup whose
      gender is male or duo. */
  predicate IsMaleishName(signups: seq<Signup>, n: string) {
    match FindByName(signups, Normalize(n))
    case Some(s) => IsMaleish(s.gender)
    case None => false
  }

  /** When signup names are unique, looking up a signup's own name finds its
      own gender. */
  lemma MaleishNameOfSignup(signups: seq<Signup>, s: Signup)
    requires NormalizedDistinct(NamesOf(signups))
    requires s in signups
    ensures IsMaleishName(signups, s.name) == IsMaleish(s.gender)
  {
    var found := FindByName(signups, Normalize(s.name));
    var k :| 0 <= k < |signups| && signups[k] == s;
    var k' :| 0 <= k' < |signups| && signups[k'] == found.value;
    SameNormalizedNameSameIndex(signups, k, k');
  }

  /** Under the uniqueness rule, a normalized name picks out one signup. */
  lemma SameNormalizedNameSameIndex(signups: seq<Signup>, k: nat, k': nat)
    requires NormalizedDistinct(NamesOf(signups))
    requires k < |signups| && k' < |signups|
    requires Normalize(signups[k].name) == Normalize(signups[k'].name)
    ensures k == k'
  {
    var names := NamesOf(signups);
    assert names[k] == signups[k].name && names[k'] == signups[k'].name;
  }

  /** How many assignments of the window hold a male-ish artist. */
  function MaleCount(signups: seq<Signup>, ws: seq<Assignment>): (n: nat)
    ensures n <= |ws|
    decreases |ws|
  {
    if |ws| == 0 then 0
    else (if IsMaleishName(signups, ws[0].participant) then 1 else 0) + MaleCount(signups, ws[1..])
  }

  /** `currentMaleExcl`: male-ish assignments of the window outside slot `slotId`. */
  function MaleCountExcept(signups: seq<Signup>, ws: seq<Assignment>, slotId: Id): (n: nat)
    ensures n <= MaleCount(signups, ws)
    decreases |ws|
  {
    if |ws| == 0 then 0
    else
      (if ws[0].slotId != slotId && IsMaleishName(signups, ws[0].participant) then 1 else 0)
      + MaleCountExcept(signups, ws[1..], slotId)
  }

  /** How many assignments of the window hold slot `slotId`. */
  function SlotCount(ws: seq<Assignment>, slotId: Id): nat
    decreases |ws|
  {
    if |ws| == 0 then 0
    else (if ws[0].slotId == slotId then 1 else 0) + SlotCount(ws[1..], slotId)
  }

  /** Putting `name` into slot `slotId` leaves the other slots' male-ish count
      and adds `name`'s for every copy of the slot. */
  lemma {:induction false} MaleCountAfterReplace(signups: seq<Signup>, ws: seq<Assignment>, slotId: Id, name: string)
    ensures MaleCount(signups, ReplaceParticipant(ws, slotId, name))
            == MaleCountExcept(signups, ws, slotId)
               + SlotCount(ws, slotId) * (if IsMaleishName(signups, name) then 1 else 0)
    decreases |ws|
  {
    if |ws| > 0 {
      var r := ReplaceParticipant(ws, slotId, name);
      ReplaceTail(ws, slotId, name);
      MaleCountAfterReplace(signups, ws[1..], slotId, name);
      var hit := ws[0].slotId == slotId;
      assert r[0].participant == if hit then name else ws[0].participant;
      assert MaleCount(signups, r)
             == (if IsMaleishName(signups, r[0].participant) then 1 else 0) + MaleCount(signups, r[1..]);
    }
  }

  /** Replacing in a window replaces in its tail. */
  lemma ReplaceTail(ws: seq<Assignment>, slotId: Id, name: string)
    requires |ws| > 0
    ensures ReplaceParticipant(ws, slotId, name)[1..] == ReplaceParticipant(ws[1..], slotId, name)
  {
  }

  /** The window's male-ish count: the others plus the one in slot `slotId`,
      when that slot occurs once. */
  lemma {:induction false} MaleCountSplit(signups: seq<Signup>, ws: seq<Assignment>, slotId: Id)
    ensures MaleCount(signups, ws) >= MaleCountExcept(signups, ws, slotId)
    ensures SlotCount(ws, slotId) == 0 ==> MaleCount(signups, ws) == MaleCountExcept(signups, ws, slotId)
    decreases |ws|
  {
    if |ws| > 0 {
      MaleCountSplit(signups, ws[1..], slotId);
    }
  }

  /** Slot ids of a window are unique. */
  predicate SlotIdsUnique(ws: seq<Assignment>) {
    forall i, j :: 0 <= i < j < |ws| ==> ws[i].slotId != ws[j].slotId
  }

  /** Writing a participant leaves every slot id where it was, so unique slot
      ids stay unique. */
  lemma ReplaceKeepsSlotIds(ws: seq<Assignment>, slotId: Id, name: string)
    requires SlotIdsUnique(ws)
    ensures SlotIdsUnique(ReplaceParticipant(ws, slotId, name))
  {
    var r := ReplaceParticipant(ws, slotId, name);
    forall i, j | 0 <= i < j < |r|
      ensures r[i].slotId != r[j].slotId
    {
      assert r[i].slotId == ws[i].slotId && r[j].slotId == ws[j].slotId;
    }
  }

  /** With unique slot ids, a slot id present in the window occurs once. */
  lemma {:induction false} SlotCountUnique(ws: seq<Assignment>, slotId: Id)
    requires SlotIdsUnique(ws)
    ensures SlotCount(ws, slotId) == (if exists i :: 0 <= i < |ws| && ws[i].slotId == slotId then 1 else 0)
    decreases |ws|
  {
    if |ws| > 0 {
      assert SlotIdsUnique(ws[1..]);
      SlotCountUnique(ws[1..], slotId);
      if ws[0].slotId == slotId {
        assert !exists i :: 0 <= i < |ws[1..]| && ws[1..][i].slotId == slotId;
      } else {
        assert (exists i :: 0 <= i < |ws| && ws[i].slotId == slotId)
               == (exists i :: 0 <= i < |ws[1..]| && ws[1..][i].slotId == slotId) by {
          if i :| 0 <= i < |ws| && ws[i].slotId == slotId {
            assert ws[1..][i - 1].slotId == slotId;
          }
        }
      }
    }
  }
}
