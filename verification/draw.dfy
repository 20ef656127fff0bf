/** The fair-draw actions of the live kiosk: `runDraw` and `redrawWindow`
    fill a window from the signups not playing in the other window,
    `rerollSlot` re-picks one slot under the male-ish cap, and `manualReplace`
    puts a typed-in name into a slot after the duplicate and cap checks. */
module Draw {
  import opened Outcomes
  import opened Seqs
  import opened Text
  import opened Slots
  import opened Night
  import opened Pick

  /** `availablePoolForWindow`: the signups, in order, whose normalized name
      holds no slot of the other window. */
  function Pool(st: NightState<Signup>, w: Which): (r: seq<Signup>)
    ensures |r| <= |st.signups|
    ensures multiset(r) <= multiset(st.signups)
    ensures forall s :: s in r <==> s in st.signups && Normalize(s.name) !in NamesIn(st.Window(w.Other()))
  {
    FilterMembers(st.signups, FreeOf(NamesIn(st.Window(w.Other()))));
    Filter(st.signups, FreeOf(NamesIn(st.Window(w.Other()))))
  }

  /** Holds of the signups whose normalized name is not in `taken`. */
  function FreeOf(taken: set<string>): Signup -> bool {
    (s: Signup) => Normalize(s.name) !in taken
  }

  /** The `i`-th assignment sits in the `i`-th slot, with its id and times. */
  predicate InSlotOrder(ws: seq<Assignment>, slots: seq<Slot>) {
    && |ws| <= |slots|
    && forall i :: 0 <= i < |ws| ==>
         ws[i].slotId == slots[i].id && ws[i].start == slots[i].start && ws[i].end == slots[i].end
  }

  /** A window laid out in the order of slots that share no id holds no slot
      id twice. */
  lemma InSlotOrderUniqueIds(ws: seq<Assignment>, slots: seq<Slot>)
    requires InSlotOrder(ws, slots)
    requires UniqueIds(slots)
    ensures SlotIdsUnique(ws)
  {
    forall i, j | 0 <= i < j < |ws|
      ensures ws[i].slotId != ws[j].slotId
    {
      assert ws[i].slotId == slots[i].id && ws[j].slotId == slots[j].id;
    }
  }

  /** The names of the signups, as a set. */
  function NameSet(signups: seq<Signup>): set<string> {
    set s | s in signups :: s.name
  }

  /** Every participant of the window is the name of one of `signups`. */
  predicate SeatedFrom(ws: seq<Assignment>, signups: seq<Signup>) {
    forall i :: 0 <= i < |ws| ==> ws[i].participant in NameSet(signups)
  }

  /** No participant of the window normalizes to one of `taken`. */
  predicate Avoids(ws: seq<Assignment>, taken: set<string>) {
    forall i :: 0 <= i < |ws| ==> Normalize(ws[i].participant) !in taken
  }

  /** `runDraw` and `redrawWindow`, which compute the same new state: with
      nobody available the state is left alone; otherwise the window is
      filled from the pool and the draw time is stamped (`RunDrawShape`). */
  function RunDraw(st: NightState<Signup>, w: Which, slots: seq<Slot>, ch: Choices, now: int): (r: Result<NightState<Signup>>)
    requires ch.Covers(|st.signups|)
    ensures r.Rejected? <==> |Pool(st, w)| == 0
    ensures r.Rejected? ==> r.why == EmptyPool
  {
    CoversFewer(ch, |st.signups|, |Pool(st, w)|);
    DrawFrom(st, w, Pool(st, w), slots, ch, now)
  }

  /** The draw from a given pool: the capped pick, seated in slot order. */
  function DrawFrom(st: NightState<Signup>, w: Which, pool: seq<Signup>, slots: seq<Slot>, ch: Choices, now: int)
      : (r: Result<NightState<Signup>>)
    requires ch.Covers(|pool|)
    ensures r.Rejected? <==> |pool| == 0
    ensures r.Rejected? ==> r.why == EmptyPool
  {
    if |pool| == 0 then Rejected(EmptyPool)
    else
      var picks := PickWithGenderCap(pool, Min(|pool|, |slots|), ch);
      Ok(st.WithWindow(w, Assign(picks, slots)).(lastDraw := Some(now)))
  }

  /** A successful draw gives the window one artist per slot, in slot order,
      for as many slots as the pool can fill, every one a signup free of the
      other window; nothing else changes but the draw time. */
  lemma RunDrawShape(st: NightState<Signup>, w: Which, slots: seq<Slot>, ch: Choices, now: int)
    requires ch.Covers(|st.signups|)
    requires |Pool(st, w)| > 0
    ensures var r := RunDraw(st, w, slots, ch, now).value;
            var ws := r.Window(w);
            && |ws| == Min(|Pool(st, w)|, |slots|)
            && InSlotOrder(ws, slots)
            && SeatedFrom(ws, st.signups)
            && Avoids(ws, NamesIn(st.Window(w.Other())))
    ensures var r := RunDraw(st, w, slots, ch, now).value;
            && r.Window(w.Other()) == st.Window(w.Other())
            && r.signups == st.signups
            && r.lastSignup == st.lastSignup
            && r.lastDraw == Some(now)
  {
    var pool := Pool(st, w);
    CoversFewer(ch, |st.signups|, |pool|);
    RunDrawFromPool(st, w, slots, ch, now);
    DrawFromShape(st, w, pool, slots, ch, now);
    FreeSeats(DrawFrom(st, w, pool, slots, ch, now).value.Window(w), pool, st.signups, NamesIn(st.Window(w.Other())));
  }

  /** The pool-level half of `RunDrawShape`. */
  lemma DrawFromShape(st: NightState<Signup>, w: Which, pool: seq<Signup>, slots: seq<Slot>, ch: Choices, now: int)
    requires ch.Covers(|pool|)
    requires |pool| > 0
    ensures var r := DrawFrom(st, w, pool, slots, ch, now).value;
            var ws := r.Window(w);
            && |ws| == Min(|pool|, |slots|)
            && InSlotOrder(ws, slots)
            && SeatedFrom(ws, pool)
            && r.Window(w.Other()) == st.Window(w.Other())
            && r.signups == st.signups
            && r.lastSignup == st.lastSignup
            && r.lastDraw == Some(now)
  {
    var picks := PickWithGenderCap(pool, Min(|pool|, |slots|), ch);
    AssignSeats(picks, pool, slots);
  }

  /** The `i`-th picked signup in the `i`-th slot. */
  function Assign(picks: seq<Signup>, slots: seq<Slot>): (ws: seq<Assignment>)
    requires |picks| <= |slots|
    ensures |ws| == |picks|
    ensures InSlotOrder(ws, slots)
    ensures forall i :: 0 <= i < |ws| ==> ws[i].participant == picks[i].name
  {
    Zip(slots[..|picks|], NamesOf(picks))
  }

  /** Seating signups drawn without repeats from a pool seats only names of
      the pool. */
  lemma AssignSeats(picks: seq<Signup>, pool: seq<Signup>, slots: seq<Slot>)
    requires |picks| <= |slots|
    requires multiset(picks) <= multiset(pool)
    ensures SeatedFrom(Assign(picks, slots), pool)
  {
    SubMultisetMembers(picks, pool);
    var ws := Assign(picks, slots);
    forall i | 0 <= i < |ws|
      ensures ws[i].participant in NameSet(pool)
    {
      assert picks[i] in pool && picks[i].name == ws[i].participant;
    }
  }

  /** A window seated from a pool of free signups is seated from the signups
      and avoids the taken names. */
  lemma FreeSeats(ws: seq<Assignment>, pool: seq<Signup>, signups: seq<Signup>, taken: set<string>)
    requires SeatedFrom(ws, pool)
    requires forall s :: s in pool ==> s in signups && Normalize(s.name) !in taken
    ensures SeatedFrom(ws, signups)
    ensures Avoids(ws, taken)
  {
    forall i | 0 <= i < |ws|
      ensures ws[i].participant in NameSet(signups) && Normalize(ws[i].participant) !in taken
    {
      assert ws[i].participant in NameSet(pool);
      var s :| s in pool && s.name == ws[i].participant;
      assert s in signups;
    }
  }

  /** What a draw from a pool seats: a pick of the pool without repeats,
      holding the capped number of male-ish signups. */
  lemma DrawFromPicks(st: NightState<Signup>, w: Which, pool: seq<Signup>, slots: seq<Slot>, ch: Choices, now: int)
      returns (picks: seq<Signup>)
    requires ch.Covers(|pool|)
    requires |pool| > 0
    ensures multiset(picks) <= multiset(pool)
    ensures var n := Min(|pool|, |slots|);
            |MaleishOf(picks)| == Min(|MaleishOf(pool)|, Max(n / 2, n - |OthersOf(pool)|))
    ensures |picks| <= |slots| && DrawFrom(st, w, pool, slots, ch, now).value.Window(w) == Assign(picks, slots)
  {
    var n := Min(|pool|, |slots|);
    picks := PickWithGenderCap(pool, n, ch);
    DrawFromWindow(st, w, pool, slots, ch, now);
  }

  /** A draw from a non-empty pool seats the capped pick in slot order. */
  lemma DrawFromWindow(st: NightState<Signup>, w: Which, pool: seq<Signup>, slots: seq<Slot>, ch: Choices, now: int)
    requires ch.Covers(|pool|)
    requires |pool| > 0
    ensures DrawFrom(st, w, pool, slots, ch, now).Ok?
    ensures DrawFrom(st, w, pool, slots, ch, now).value.Window(w)
            == Assign(PickWithGenderCap(pool, Min(|pool|, |slots|), ch), slots)
  {
  }

  /** `RunDraw` is the draw from the window's pool. */
  lemma RunDrawFromPool(st: NightState<Signup>, w: Which, slots: seq<Slot>, ch: Choices, now: int)
    requires ch.Covers(|st.signups|) && ch.Covers(|Pool(st, w)|)
    ensures RunDraw(st, w, slots, ch, now) == DrawFrom(st, w, Pool(st, w), slots, ch, now)
  {
  }

  /** Under the registry's uniqueness rule, a window filled by a draw holds no
      artist twice and shares no artist with the other window. */
  lemma DrawKeepsNightUnique(st: NightState<Signup>, w: Which, slots: seq<Slot>, ch: Choices, now: int)
    requires ch.Covers(|st.signups|)
    requires NormalizedDistinct(NamesOf(st.signups))
    requires WindowDistinct(st.Window(w.Other()))
    requires |Pool(st, w)| > 0
    ensures NightUnique(RunDraw(st, w, slots, ch, now).value)
  {
    var r := RunDraw(st, w, slots, ch, now).value;
    var pool := Pool(st, w);
    CoversFewer(ch, |st.signups|, |pool|);
    RunDrawFromPool(st, w, slots, ch, now);
    var picks := DrawFromPicks(st, w, pool, slots, ch, now);
    RunDrawShape(st, w, slots, ch, now);
    PicksKeepNamesDistinct(st.signups, picks);
    AssignDistinct(picks, slots);
    AvoidsDisjoint(r.Window(w), r.Window(w.Other()));
    NightUniqueFromWindows(r, w);
  }

  /** Seating signups with unique normalized names repeats no artist. */
  lemma AssignDistinct(picks: seq<Signup>, slots: seq<Slot>)
    requires |picks| <= |slots|
    requires NormalizedDistinct(NamesOf(picks))
    ensures WindowDistinct(Assign(picks, slots))
  {
    var ws := Assign(picks, slots);
    forall i, j | 0 <= i < j < |ws|
      ensures Normalize(ws[i].participant) != Normalize(ws[j].participant)
    {
      assert NamesOf(picks)[i] == ws[i].participant && NamesOf(picks)[j] == ws[j].participant;
    }
  }

  /** A window avoiding the names of another shares no artist with it. */
  lemma AvoidsDisjoint(ws: seq<Assignment>, other: seq<Assignment>)
    requires Avoids(ws, NamesIn(other))
    ensures NamesIn(ws) !! NamesIn(other)
  {
    forall a | a in ws
      ensures Normalize(a.participant) !in NamesIn(other)
    {
      var i :| 0 <= i < |ws| && ws[i] == a;
    }
  }

  /** The uniqueness rule, read from the side of window `w`. */
  lemma NightUniqueFromWindows<S>(st: NightState<S>, w: Which)
    requires WindowDistinct(st.Window(w)) && WindowDistinct(st.Window(w.Other()))
    requires NamesIn(st.Window(w)) !! NamesIn(st.Window(w.Other()))
    ensures NightUnique(st)
  {
  }

  /** Signups taken without repeats from a registry with unique normalized
      names have unique normalized names. */
  lemma PicksKeepNamesDistinct(signups: seq<Signup>, picks: seq<Signup>)
    requires NormalizedDistinct(NamesOf(signups))
    requires multiset(picks) <= multiset(signups)
    ensures NormalizedDistinct(NamesOf(picks))
  {
    SubMultisetMembers(picks, signups);
    assert Distinct(signups) by {
      forall a, b | 0 <= a < b < |signups|
        ensures signups[a] != signups[b]
      {
        assert NamesOf(signups)[a] == signups[a].name && NamesOf(signups)[b] == signups[b].name;
      }
    }
    forall i, j | 0 <= i < j < |picks|
      ensures Normalize(NamesOf(picks)[i]) != Normalize(NamesOf(picks)[j])
    {
      if Normalize(picks[i].name) == Normalize(picks[j].name) {
        var k :| 0 <= k < |signups| && signups[k] == picks[i];
        var k' :| 0 <= k' < |signups| && signups[k'] == picks[j];
        SameNormalizedNameSameIndex(signups, k, k');
        RepeatCount(picks, i, j);
        DistinctCount(signups, picks[i]);
        assert false;
      }
    }
  }

  /** A window whose participants are the names of signups counts as many
      male-ish slots as there are male-ish signups among them. */
  lemma {:induction false} MaleCountOfPicks(signups: seq<Signup>, ws: seq<Assignment>, picks: seq<Signup>)
    requires NormalizedDistinct(NamesOf(signups))
    requires |ws| == |picks|
    requires forall i :: 0 <= i < |ws| ==> ws[i].participant == picks[i].name && picks[i] in signups
    ensures MaleCount(signups, ws) == |MaleishOf(picks)|
    decreases |ws|
  {
    if |ws| > 0 {
      MaleCountOfPicks(signups, ws[1..], picks[1..]);
      MaleishNameOfSignup(signups, picks[0]);
    }
  }

  /** The drawn window holds exactly the male-ish count of the capped pick:
      `min(M, max(floor(n/2), n - O))` for `M` male-ish and `O` other signups
      in the pool and `n` filled slots. */
  lemma DrawMaleCount(st: NightState<Signup>, w: Which, slots: seq<Slot>, ch: Choices, now: int)
    requires ch.Covers(|st.signups|)
    requires NormalizedDistinct(NamesOf(st.signups))
    requires |Pool(st, w)| > 0
    ensures var pool := Pool(st, w);
            var n := Min(|pool|, |slots|);
            MaleCount(st.signups, RunDraw(st, w, slots, ch, now).value.Window(w))
            == Min(|MaleishOf(pool)|, Max(n / 2, n - |OthersOf(pool)|))
  {
    DrawMaleCountOf(st, w, Pool(st, w), slots, ch, now);
  }

  /** `DrawMaleCount` with the window's pool given a name. */
  lemma DrawMaleCountOf(st: NightState<Signup>, w: Which, pool: seq<Signup>, slots: seq<Slot>, ch: Choices, now: int)
    requires ch.Covers(|st.signups|)
    requires pool == Pool(st, w)
    requires |pool| > 0
    requires NormalizedDistinct(NamesOf(st.signups))
    ensures var n := Min(|pool|, |slots|);
            MaleCount(st.signups, RunDraw(st, w, slots, ch, now).value.Window(w))
            == Min(|MaleishOf(pool)|, Max(n / 2, n - |OthersOf(pool)|))
  {
    CoversFewer(ch, |st.signups|, |pool|);
    RunDrawFromPool(st, w, slots, ch, now);
    DrawFromMaleCount(st, w, pool, slots, ch, now);
  }

  /** The male-ish count of a draw from a pool of signups. */
  lemma DrawFromMaleCount(st: NightState<Signup>, w: Which, pool: seq<Signup>, slots: seq<Slot>, ch: Choices, now: int)
    requires ch.Covers(|pool|)
    requires |pool| > 0
    requires NormalizedDistinct(NamesOf(st.signups))
    requires multiset(pool) <= multiset(st.signups)
    ensures var n := Min(|pool|, |slots|);
            MaleCount(st.signups, DrawFrom(st, w, pool, slots, ch, now).value.Window(w))
            == Min(|MaleishOf(pool)|, Max(n / 2, n - |OthersOf(pool)|))
  {
    var picks := DrawFromPicks(st, w, pool, slots, ch, now);
    SubMultisetMembers(picks, st.signups);
    MaleCountOfPicks(st.signups, Assign(picks, slots), picks);
  }

  /** When the pool has enough other signups for the rest of the window,
      male-ish artists take at most half of the drawn window. */
  lemma DrawRespectsCap(st: NightState<Signup>, w: Which, slots: seq<Slot>, ch: Choices, now: int)
    requires ch.Covers(|st.signups|)
    requires NormalizedDistinct(NamesOf(st.signups))
    requires |Pool(st, w)| > 0
    requires var n := Min(|Pool(st, w)|, |slots|);
             |OthersOf(Pool(st, w))| >= n - n / 2
    ensures var ws := RunDraw(st, w, slots, ch, now).value.Window(w);
            MaleCount(st.signups, ws) <= |ws| / 2
  {
    DrawRespectsCapOf(st, w, Pool(st, w), slots, ch, now);
  }

  /** `DrawRespectsCap` with the window's pool given a name. */
  lemma DrawRespectsCapOf(st: NightState<Signup>, w: Which, pool: seq<Signup>, slots: seq<Slot>, ch: Choices, now: int)
    requires ch.Covers(|st.signups|)
    requires NormalizedDistinct(NamesOf(st.signups))
    requires pool == Pool(st, w)
    requires |pool| > 0
    requires var n := Min(|pool|, |slots|);
             |OthersOf(pool)| >= n - n / 2
    ensures var ws := RunDraw(st, w, slots, ch, now).value.Window(w);
            MaleCount(st.signups, ws) <= |ws| / 2
  {
    DrawMaleCountOf(st, w, pool, slots, ch, now);
    RunDrawShape(st, w, slots, ch, now);
  }

  // ---------------------------------------------------------------------
  // Replacing the artist of one slot

  /** Some assignment of the window other than slot `slotId` holds an artist
      normalizing to `norm` (`dupeInThis`). */
  predicate HeldElsewhere(ws: seq<Assignment>, slotId: Id, norm: string) {
    exists i :: 0 <= i < |ws| && ws[i].slotId != slotId && Normalize(ws[i].participant) == norm
  }

  /** Writing `name` into slot `slotId` keeps the male-ish count within the
      window's cap, or at its earlier value when it already exceeded the cap,
      provided a male-ish name is written only while the other slots hold
      fewer male-ish artists than the cap. */
  lemma ReplaceKeepsCap(signups: seq<Signup>, ws: seq<Assignment>, slotId: Id, name: string)
    requires SlotIdsUnique(ws)
    requires IsMaleishName(signups, name) ==> MaleCountExcept(signups, ws, slotId) < |ws| / 2
    ensures MaleCount(signups, ReplaceParticipant(ws, slotId, name)) <= Max(MaleCount(signups, ws), |ws| / 2)
  {
    MaleCountAfterReplace(signups, ws, slotId, name);
    SlotCountUnique(ws, slotId);
    MaleCountSplit(signups, ws, slotId);
  }

  /** Writing a name held by no other slot keeps the window free of repeats. */
  lemma ReplaceKeepsDistinct(ws: seq<Assignment>, slotId: Id, name: string)
    requires WindowDistinct(ws) && SlotIdsUnique(ws)
    requires !HeldElsewhere(ws, slotId, Normalize(name))
    ensures WindowDistinct(ReplaceParticipant(ws, slotId, name))
  {
    var r := ReplaceParticipant(ws, slotId, name);
    forall i, j | 0 <= i < j < |r|
      ensures Normalize(r[i].participant) != Normalize(r[j].participant)
    {
      if ws[i].slotId == slotId {
        assert ws[j].slotId != slotId;
      } else if ws[j].slotId == slotId {
        assert ws[i].slotId != slotId;
      }
    }
  }

  /** After writing `name` the window's names are its old names plus `name`'s. */
  lemma NamesAfterReplace(ws: seq<Assignment>, slotId: Id, name: string)
    ensures NamesIn(ReplaceParticipant(ws, slotId, name)) <= NamesIn(ws) + {Normalize(name)}
  {
    var r := ReplaceParticipant(ws, slotId, name);
    var bound := NamesIn(ws) + {Normalize(name)};
    forall i | 0 <= i < |r|
      ensures Normalize(r[i].participant) in bound
    {
      if ws[i].slotId != slotId {
        assert ws[i] in ws;
      }
    }
    NamesWithin(r, bound);
  }

  /** A window whose every participant normalizes into `bound` has its names
      in `bound`. */
  lemma NamesWithin(ws: seq<Assignment>, bound: set<string>)
    requires forall i :: 0 <= i < |ws| ==> Normalize(ws[i].participant) in bound
    ensures NamesIn(ws) <= bound
  {
    forall x | x in NamesIn(ws)
      ensures x in bound
    {
      var a :| a in ws && Normalize(a.participant) == x;
      var i :| 0 <= i < |ws| && ws[i] == a;
    }
  }

  /** Writing a name absent from the other window keeps the windows disjoint. */
  lemma ReplaceKeepsDisjoint(ws: seq<Assignment>, other: seq<Assignment>, slotId: Id, name: string)
    requires NamesIn(ws) !! NamesIn(other)
    requires Normalize(name) !in NamesIn(other)
    ensures NamesIn(ReplaceParticipant(ws, slotId, name)) !! NamesIn(other)
  {
    NamesAfterReplace(ws, slotId, name);
  }

  // ---------------------------------------------------------------------
  // rerollSlot

  /** A signup the reroll may choose: free of the other window, and not
      male-ish once the other slots already fill the cap. */
  predicate RerollEligible(st: NightState<Signup>, w: Which, slotId: Id, s: Signup) {
    !IsMaleish(s.gender) || MaleCountExcept(st.signups, st.Window(w), slotId) < |st.Window(w)| / 2
  }

  /** The reroll's candidates: the pool of the window filtered by the cap. */
  function RerollCandidates(st: NightState<Signup>, w: Which, slotId: Id): (r: seq<Signup>)
    ensures forall s :: s in r <==> s in Pool(st, w) && RerollEligible(st, w, slotId, s)
  {
    FilterMembers(Pool(st, w), EligibleFor(st, w, slotId));
    Filter(Pool(st, w), EligibleFor(st, w, slotId))
  }

  /** `RerollEligible` as a filter condition. */
  function EligibleFor(st: NightState<Signup>, w: Which, slotId: Id): Signup -> bool {
    (s: Signup) => RerollEligible(st, w, slotId, s)
  }

  /** `rerollSlot`: an empty window, or no eligible candidate, leaves the
      state alone; otherwise one candidate, chosen by `choice`, takes over
      every assignment of slot `slotId`. */
  function RerollSlot(st: NightState<Signup>, w: Which, slotId: Id, choice: nat): (r: Result<NightState<Signup>>)
    ensures r.Rejected? <==> |st.Window(w)| == 0 || |RerollCandidates(st, w, slotId)| == 0
    ensures r.Rejected? ==> r.why == if |st.Window(w)| == 0 then EmptyWindow else NoCandidates
    ensures r.Ok? ==>
              exists c :: c in RerollCandidates(st, w, slotId) &&
                r.value == st.WithWindow(w, ReplaceParticipant(st.Window(w), slotId, c.name))
  {
    var ws := st.Window(w);
    if |ws| == 0 then Rejected(EmptyWindow)
    else
      var cands := RerollCandidates(st, w, slotId);
      if |cands| == 0 then Rejected(NoCandidates)
      else
        var c := cands[choice % |cands|];
        assert c in cands;
        Ok(st.WithWindow(w, ReplaceParticipant(ws, slotId, c.name)))
  }

  /** A reroll never pushes the window over its male-ish cap: the count stays
      within the cap, or at most at its earlier value. */
  lemma RerollKeepsCap(st: NightState<Signup>, w: Which, slotId: Id, choice: nat)
    requires NormalizedDistinct(NamesOf(st.signups))
    requires SlotIdsUnique(st.Window(w))
    requires |st.Window(w)| > 0 && |RerollCandidates(st, w, slotId)| > 0
    ensures var ws := st.Window(w);
            var ws' := RerollSlot(st, w, slotId, choice).value.Window(w);
            |ws'| == |ws| && MaleCount(st.signups, ws') <= Max(MaleCount(st.signups, ws), |ws| / 2)
  {
    var ws := st.Window(w);
    var r := RerollSlot(st, w, slotId, choice).value;
    var c :| c in RerollCandidates(st, w, slotId) &&
             r == st.WithWindow(w, ReplaceParticipant(ws, slotId, c.name));
    MaleishNameOfSignup(st.signups, c);
    ReplaceKeepsCap(st.signups, ws, slotId, c.name);
  }

  /** A reroll never seats an artist of the other window. */
  lemma RerollKeepsWindowsDisjoint(st: NightState<Signup>, w: Which, slotId: Id, choice: nat)
    requires NamesIn(st.Window(w)) !! NamesIn(st.Window(w.Other()))
    requires |st.Window(w)| > 0 && |RerollCandidates(st, w, slotId)| > 0
    ensures var r := RerollSlot(st, w, slotId, choice).value;
            NamesIn(r.Window(w)) !! NamesIn(r.Window(w.Other()))
  {
    var ws := st.Window(w);
    var r := RerollSlot(st, w, slotId, choice).value;
    var c :| c in RerollCandidates(st, w, slotId) &&
             r == st.WithWindow(w, ReplaceParticipant(ws, slotId, c.name));
    ReplaceKeepsDisjoint(ws, st.Window(w.Other()), slotId, c.name);
  }

  /** A night with two signups, `a` in slot `s1` and `b` in slot `s2` of the
      first window. */
  function TwoSeated(a: Signup, b: Signup, s1: Id, s2: Id): NightState<Signup> {
    NightState([a, b], [Assignment(s1, 0, 1, a.name), Assignment(s2, 1, 2, b.name)], [], None, None)
  }

  /** The reroll as written draws from the other window's complement only, so
      it can seat an artist who already plays in the same window: with two
      differently named signups outside the cap seated in the first window,
      rerolling the second slot with the first choice seats the first artist
      twice. */
  lemma RerollCanRepeatArtist(a: Signup, b: Signup, s1: Id, s2: Id)
    requires !IsMaleish(a.gender) && !IsMaleish(b.gender)
    requires Normalize(a.name) != Normalize(b.name)
    requires s1 != s2
    ensures NightUnique(TwoSeated(a, b, s1, s2))
    ensures RerollSlot(TwoSeated(a, b, s1, s2), First, s2, 0) == Ok(FirstTwice(a, b, s1, s2))
    ensures !NightUnique(FirstTwice(a, b, s1, s2))
  {
    TwoSeatedUnique(a, b, s1, s2);
    TwoSeatedReroll(a, b, s1, s2);
    RepeatBreaksUnique(FirstTwice(a, b, s1, s2));
  }

  /** `TwoSeated` with `a` in both slots. */
  function FirstTwice(a: Signup, b: Signup, s1: Id, s2: Id): NightState<Signup> {
    TwoSeated(a, b, s1, s2).(window1 := [Assignment(s1, 0, 1, a.name), Assignment(s2, 1, 2, a.name)])
  }

  /** Rerolling the second slot of `TwoSeated` with the first choice. */
  lemma TwoSeatedReroll(a: Signup, b: Signup, s1: Id, s2: Id)
    requires !IsMaleish(a.gender) && !IsMaleish(b.gender)
    requires s1 != s2
    ensures RerollSlot(TwoSeated(a, b, s1, s2), First, s2, 0) == Ok(FirstTwice(a, b, s1, s2))
  {
    var st := TwoSeated(a, b, s1, s2);
    TwoSeatedCandidates(a, b, s1, s2);
    RerollSlotChooses(st, First, s2, 0);
    TwoSeatedReplace(a, b, s1, s2);
  }

  /** Putting `a` into slot `s2` of `TwoSeated` gives `FirstTwice`. */
  lemma TwoSeatedReplace(a: Signup, b: Signup, s1: Id, s2: Id)
    requires s1 != s2
    ensures TwoSeated(a, b, s1, s2).WithWindow(First, ReplaceParticipant(TwoSeated(a, b, s1, s2).window1, s2, a.name))
            == FirstTwice(a, b, s1, s2)
  {
    var r := ReplaceParticipant(TwoSeated(a, b, s1, s2).window1, s2, a.name);
    assert r[0] == FirstTwice(a, b, s1, s2).window1[0] && r[1] == FirstTwice(a, b, s1, s2).window1[1];
    assert r == FirstTwice(a, b, s1, s2).window1;
  }

  /** A reroll of a non-empty window with candidates seats the candidate at
      `choice` modulo their number. */
  lemma RerollSlotChooses(st: NightState<Signup>, w: Which, slotId: Id, choice: nat)
    requires |st.Window(w)| > 0 && |RerollCandidates(st, w, slotId)| > 0
    ensures var cands := RerollCandidates(st, w, slotId);
            RerollSlot(st, w, slotId, choice)
            == Ok(st.WithWindow(w, ReplaceParticipant(st.Window(w), slotId, cands[choice % |cands|].name)))
  {
  }

  /** `TwoSeated` keeps one slot per artist. */
  lemma TwoSeatedUnique(a: Signup, b: Signup, s1: Id, s2: Id)
    requires Normalize(a.name) != Normalize(b.name)
    ensures NightUnique(TwoSeated(a, b, s1, s2))
  {
    var st := TwoSeated(a, b, s1, s2);
    var ws := st.window1;
    assert NamesIn(st.window2) == {};
    forall i, j | 0 <= i < j < |ws|
      ensures Normalize(ws[i].participant) != Normalize(ws[j].participant)
    {
      assert i == 0 && j == 1;
    }
  }

  /** Both signups of `TwoSeated` are candidates for its second slot, in
      registry order. */
  lemma TwoSeatedCandidates(a: Signup, b: Signup, s1: Id, s2: Id)
    requires !IsMaleish(a.gender) && !IsMaleish(b.gender)
    ensures RerollCandidates(TwoSeated(a, b, s1, s2), First, s2) == [a, b]
  {
    var st := TwoSeated(a, b, s1, s2);
    TwoSeatedPool(a, b, s1, s2);
    FilterAll([a, b], EligibleFor(st, First, s2));
  }

  /** Nobody plays the second window of `TwoSeated`, so both signups are free
      for the first. */
  lemma TwoSeatedPool(a: Signup, b: Signup, s1: Id, s2: Id)
    ensures Pool(TwoSeated(a, b, s1, s2), First) == [a, b]
  {
    var st := TwoSeated(a, b, s1, s2);
    assert NamesIn(st.window2) == {};
    FilterAll(st.signups, FreeOf({}));
  }

  /** A first window whose first two slots hold the same name breaks the rule. */
  lemma RepeatBreaksUnique<S>(st: NightState<S>)
    requires |st.window1| >= 2 && st.window1[0].participant == st.window1[1].participant
    ensures !NightUnique(st)
  {
    assert Normalize(st.window1[0].participant) == Normalize(st.window1[1].participant);
  }

  /** The reroll as intended: candidates are the signups seated in neither
      window, filtered by the cap as before. */
  function RerollCandidatesIntended(st: NightState<Signup>, w: Which, slotId: Id): (r: seq<Signup>)
    ensures forall s :: s in r <==>
              && s in st.signups
              && Normalize(s.name) !in NamesIn(st.window1) + NamesIn(st.window2)
              && RerollEligible(st, w, slotId, s)
  {
    var taken := NamesIn(st.window1) + NamesIn(st.window2);
    var keep := (s: Signup) => Normalize(s.name) !in taken && RerollEligible(st, w, slotId, s);
    FilterMembers(st.signups, keep);
    Filter(st.signups, keep)
  }

  /** `rerollSlot` with the candidates it is meant to have. */
  function RerollSlotIntended(st: NightState<Signup>, w: Which, slotId: Id, choice: nat): (r: Result<NightState<Signup>>)
    ensures r.Rejected? <==> |st.Window(w)| == 0 || |RerollCandidatesIntended(st, w, slotId)| == 0
    ensures r.Rejected? ==> r.why == if |st.Window(w)| == 0 then EmptyWindow else NoCandidates
    ensures r.Ok? ==>
              exists c :: c in RerollCandidatesIntended(st, w, slotId) &&
                r.value == st.WithWindow(w, ReplaceParticipant(st.Window(w), slotId, c.name))
  {
    var ws := st.Window(w);
    if |ws| == 0 then Rejected(EmptyWindow)
    else
      var cands := RerollCandidatesIntended(st, w, slotId);
      if |cands| == 0 then Rejected(NoCandidates)
      else
        var c := cands[choice % |cands|];
        assert c in cands;
        Ok(st.WithWindow(w, ReplaceParticipant(ws, slotId, c.name)))
  }

  /** The intended reroll keeps one slot per artist per night. */
  lemma RerollIntendedKeepsNightUnique(st: NightState<Signup>, w: Which, slotId: Id, choice: nat)
    requires NightUnique(st)
    requires SlotIdsUnique(st.Window(w))
    requires |st.Window(w)| > 0 && |RerollCandidatesIntended(st, w, slotId)| > 0
    ensures NightUnique(RerollSlotIntended(st, w, slotId, choice).value)
  {
    var ws := st.Window(w);
    var other := st.Window(w.Other());
    var r := RerollSlotIntended(st, w, slotId, choice).value;
    var c :| c in RerollCandidatesIntended(st, w, slotId) &&
             r == st.WithWindow(w, ReplaceParticipant(ws, slotId, c.name));
    assert Normalize(c.name) !in NamesIn(ws) && Normalize(c.name) !in NamesIn(other);
    assert !HeldElsewhere(ws, slotId, Normalize(c.name)) by {
      forall i | 0 <= i < |ws|
        ensures Normalize(ws[i].participant) != Normalize(c.name)
      {
        assert ws[i] in ws;
      }
    }
    ReplaceKeepsDistinct(ws, slotId, c.name);
    ReplaceKeepsDisjoint(ws, other, slotId, c.name);
    NightUniqueFromWindows(r, w);
  }

  /** The intended reroll bounds the male-ish count as the written one does. */
  lemma RerollIntendedKeepsCap(st: NightState<Signup>, w: Which, slotId: Id, choice: nat)
    requires NormalizedDistinct(NamesOf(st.signups))
    requires SlotIdsUnique(st.Window(w))
    requires |st.Window(w)| > 0 && |RerollCandidatesIntended(st, w, slotId)| > 0
    ensures var ws := st.Window(w);
            var ws' := RerollSlotIntended(st, w, slotId, choice).value.Window(w);
            |ws'| == |ws| && MaleCount(st.signups, ws') <= Max(MaleCount(st.signups, ws), |ws| / 2)
  {
    var ws := st.Window(w);
    var r := RerollSlotIntended(st, w, slotId, choice).value;
    var c :| c in RerollCandidatesIntended(st, w, slotId) &&
             r == st.WithWindow(w, ReplaceParticipant(ws, slotId, c.name));
    MaleishNameOfSignup(st.signups, c);
    ReplaceKeepsCap(st.signups, ws, slotId, c.name);
  }

  // ---------------------------------------------------------------------
  // manualReplace

  /** The trimmed name is already playing: in another slot of this window or
      anywhere in the other window. */
  predicate TakenTonight(st: NightState<Signup>, w: Which, slotId: Id, trimmed: string) {
    HeldElsewhere(st.Window(w), slotId, Normalize(trimmed)) || Normalize(trimmed) in NamesIn(st.Window(w.Other()))
  }

  /** A male-ish replacement while the other slots already fill the cap. */
  predicate OverCap(st: NightState<Signup>, w: Which, slotId: Id, trimmed: string) {
    IsMaleishName(st.signups, trimmed) && MaleCountExcept(st.signups, st.Window(w), slotId) >= |st.Window(w)| / 2
  }

  /** `manualReplace`: a blank name, a name already playing tonight, or a
      male-ish name at the cap leave the state alone; otherwise the trimmed
      name takes over slot `slotId`. The name need not belong to a signup. */
  function ManualReplace(st: NightState<Signup>, w: Which, slotId: Id, newName: string): (r: Result<NightState<Signup>>)
    ensures var t := Trim(newName);
            && (r == Rejected(BlankName) <==> |t| == 0)
            && (r == Rejected(DuplicateName) <==> |t| > 0 && TakenTonight(st, w, slotId, t))
            && (r == Rejected(CapReached) <==> |t| > 0 && !TakenTonight(st, w, slotId, t) && OverCap(st, w, slotId, t))
    ensures r.Rejected? ==> r.why in {BlankName, DuplicateName, CapReached}
    ensures r.Ok? ==> r.value == st.WithWindow(w, ReplaceParticipant(st.Window(w), slotId, Trim(newName)))
  {
    var trimmed := Trim(newName);
    if |trimmed| == 0 then Rejected(BlankName)
    else if TakenTonight(st, w, slotId, trimmed) then Rejected(DuplicateName)
    else if OverCap(st, w, slotId, trimmed) then Rejected(CapReached)
    else Ok(st.WithWindow(w, ReplaceParticipant(st.Window(w), slotId, trimmed)))
  }

  /** A manual replacement keeps one slot per artist per night. */
  lemma ManualReplaceKeepsNightUnique(st: NightState<Signup>, w: Which, slotId: Id, newName: string)
    requires NightUnique(st)
    requires SlotIdsUnique(st.Window(w))
    requires ManualReplace(st, w, slotId, newName).Ok?
    ensures NightUnique(ManualReplace(st, w, slotId, newName).value)
  {
    var ws := st.Window(w);
    var t := Trim(newName);
    var r := ManualReplace(st, w, slotId, newName).value;
    ReplaceKeepsDistinct(ws, slotId, t);
    ReplaceKeepsDisjoint(ws, st.Window(w.Other()), slotId, t);
    NightUniqueFromWindows(r, w);
  }

  /** A manual replacement never pushes the window over its male-ish cap. */
  lemma ManualReplaceKeepsCap(st: NightState<Signup>, w: Which, slotId: Id, newName: string)
    requires SlotIdsUnique(st.Window(w))
    requires ManualReplace(st, w, slotId, newName).Ok?
    ensures var ws := st.Window(w);
            var ws' := ManualReplace(st, w, slotId, newName).value.Window(w);
            |ws'| == |ws| && MaleCount(st.signups, ws') <= Max(MaleCount(st.signups, ws), |ws| / 2)
  {
    ReplaceKeepsCap(st.signups, st.Window(w), slotId, Trim(newName));
  }
}
