/** The automatic draws of the live kiosk: a poll every five seconds that
    runs a window's draw during the minute after its draw time, provided the
    window has no assignments yet. */
module AutoDraw {
  import opened Outcomes
  import opened Text
  import opened Clock
  import opened Slots
  import opened Night
  import opened Pick
  import opened Draw

  /** One poll at instant `t` of the night based at `base`, reading the
      current state: it never touches the signups, changes a window only
      while that window is empty and its own grace minute is running, and
      outside both grace minutes changes nothing. A draw that finds nobody
      available leaves the state as it was. The two grace minutes never
      overlap (`Clock.AutoDrawsExclusive`), so testing the second draw only
      when the first is not due loses nothing. */
  function AutoTick(st: NightState<Signup>, base: int, slots1: seq<Slot>, slots2: seq<Slot>, ch: Choices, t: int)
      : (r: NightState<Signup>)
    requires ch.Covers(|st.signups|)
    ensures r.signups == st.signups && r.lastSignup == st.lastSignup
    ensures r.window1 != st.window1 ==>
              |st.window1| == 0 && Windows(base).draw1 <= t < Windows(base).draw1 + MinuteSecs
    ensures r.window2 != st.window2 ==>
              |st.window2| == 0 && Windows(base).draw2 <= t < Windows(base).draw2 + MinuteSecs
    ensures var s := Windows(base);
            !(s.draw1 <= t < s.draw1 + MinuteSecs) && !(s.draw2 <= t < s.draw2 + MinuteSecs) ==> r == st
  {
    var s := Windows(base);
    if AutoDrawDue(t, s.draw1, |st.window1|) then DrawOrStay(st, First, slots1, ch, t)
    else if AutoDrawDue(t, s.draw2, |st.window2|) then DrawOrStay(st, Second, slots2, ch, t)
    else st
  }

  /** The draw of window `w` if it succeeds, else the unchanged state. */
  function DrawOrStay(st: NightState<Signup>, w: Which, slots: seq<Slot>, ch: Choices, t: int): (r: NightState<Signup>)
    requires ch.Covers(|st.signups|)
    ensures r.signups == st.signups && r.lastSignup == st.lastSignup
    ensures r.Window(w.Other()) == st.Window(w.Other())
  {
    var d := RunDraw(st, w, slots, ch, t);
    if d.Ok? then
      RunDrawShape(st, w, slots, ch, t);
      d.value
    else st
  }

  /** During the first grace minute, with window 1 empty and someone
      available, the poll is exactly the first window's draw. */
  lemma FiresFirstDraw(st: NightState<Signup>, base: int, slots1: seq<Slot>, slots2: seq<Slot>, ch: Choices, t: int)
    requires ch.Covers(|st.signups|)
    requires Windows(base).draw1 <= t < Windows(base).draw1 + MinuteSecs
    requires |st.window1| == 0
    requires |Pool(st, First)| > 0
    ensures RunDraw(st, First, slots1, ch, t).Ok?
    ensures AutoTick(st, base, slots1, slots2, ch, t) == RunDraw(st, First, slots1, ch, t).value
  {
    assert AutoDrawDue(t, Windows(base).draw1, |st.window1|);
  }

  /** During the second grace minute, with window 2 empty and someone
      available, the poll is exactly the second window's draw. */
  lemma FiresSecondDraw(st: NightState<Signup>, base: int, slots1: seq<Slot>, slots2: seq<Slot>, ch: Choices, t: int)
    requires ch.Covers(|st.signups|)
    requires Windows(base).draw2 <= t < Windows(base).draw2 + MinuteSecs
    requires |st.window2| == 0
    requires |Pool(st, Second)| > 0
    ensures RunDraw(st, Second, slots2, ch, t).Ok?
    ensures AutoTick(st, base, slots1, slots2, ch, t) == RunDraw(st, Second, slots2, ch, t).value
  {
    AutoDrawsExclusive(base, t, |st.window1|, |st.window2|);
    assert !AutoDrawDue(t, Windows(base).draw1, |st.window1|);
    assert AutoDrawDue(t, Windows(base).draw2, |st.window2|);
  }

  /** A window drawn by a poll keeps its assignments through every later poll,
      so the five-second polling never draws a window twice. */
  lemma DrawsOnce(st: NightState<Signup>, base: int, slots1: seq<Slot>, slots2: seq<Slot>, ch: Choices, ch': Choices,
                  t: int, t': int, w: Which)
    requires ch.Covers(|st.signups|) && ch'.Covers(|st.signups|)
    requires |Pool(st, w)| > 0
    requires |(if w == First then slots1 else slots2)| > 0
    requires AutoDrawDue(t, if w == First then Windows(base).draw1 else Windows(base).draw2, |st.Window(w)|)
    ensures var once := AutoTick(st, base, slots1, slots2, ch, t);
            && |once.Window(w)| > 0
            && AutoTick(once, base, slots1, slots2, ch', t').Window(w) == once.Window(w)
  {
    var slots := if w == First then slots1 else slots2;
    var once := AutoTick(st, base, slots1, slots2, ch, t);
    if w == Second {
      AutoDrawsExclusive(base, t, |st.window1|, |st.window2|);
    }
    assert once == DrawOrStay(st, w, slots, ch, t);
    RunDrawShape(st, w, slots, ch, t);
  }

  // ---------------------------------------------------------------------
  // The poll as registered

  /** The poll as `src/index.tsx` registers it. The interval callback keeps
      the `runDraw` and the state of the render that last registered it,
      `captured`; the effect registers again only when a draw time or a
      window's length changes, so sign-ups made since then are not seen, nor
      are replacements and rerolls, which keep a window's length. The two
      states therefore agree on the windows' lengths. The due test and the
      pool come from `captured`, and the new window lands on the current
      state `st` through the `setState` updater. */
  function StaleTick(captured: NightState<Signup>, st: NightState<Signup>, base: int, slots1: seq<Slot>,
                     slots2: seq<Slot>, ch: Choices, t: int): (r: NightState<Signup>)
    requires ch.Covers(|captured.signups|)
    requires |captured.window1| == |st.window1| && |captured.window2| == |st.window2|
    ensures r.signups == st.signups && r.lastSignup == st.lastSignup
    ensures r.window1 != st.window1 ==>
              |st.window1| == 0 && Windows(base).draw1 <= t < Windows(base).draw1 + MinuteSecs
    ensures r.window2 != st.window2 ==>
              |st.window2| == 0 && Windows(base).draw2 <= t < Windows(base).draw2 + MinuteSecs
  {
    var s := Windows(base);
    if AutoDrawDue(t, s.draw1, |captured.window1|) then StaleDraw(captured, st, First, slots1, ch, t)
    else if AutoDrawDue(t, s.draw2, |captured.window2|) then StaleDraw(captured, st, Second, slots2, ch, t)
    else st
  }

  /** `runDraw` of a captured render: the window is drawn from the captured
      pool and written, with the draw time, into the current state. */
  function StaleDraw(captured: NightState<Signup>, st: NightState<Signup>, w: Which, slots: seq<Slot>,
                     ch: Choices, t: int): (r: NightState<Signup>)
    requires ch.Covers(|captured.signups|)
    ensures r.signups == st.signups && r.lastSignup == st.lastSignup
    ensures r.Window(w.Other()) == st.Window(w.Other())
    ensures |Pool(captured, w)| == 0 ==> r == st
  {
    var d := RunDraw(captured, w, slots, ch, t);
    if d.Ok? then st.WithWindow(w, d.value.Window(w)).(lastDraw := Some(t))
    else st
  }

  /** The kiosk page is opened before anyone signs up, so the poll keeps the
      empty sign-up list of that first render; the windows are still empty,
      so nothing registers the poll again. In the first grace minute, with
      sign-ups waiting and window 1 empty, the registered poll leaves the
      night as it is, while a poll of the current state fills window 1. */
  lemma StalePollMissesSignups(st: NightState<Signup>, base: int, slots1: seq<Slot>, slots2: seq<Slot>,
                               ch: Choices, t: int)
    requires ch.Covers(|st.signups|)
    requires Windows(base).draw1 <= t < Windows(base).draw1 + MinuteSecs
    requires |st.window1| == 0
    requires |Pool(st, First)| > 0
    requires |slots1| > 0
    ensures StaleTick(st.(signups := []), st, base, slots1, slots2, ch, t) == st
    ensures |AutoTick(st, base, slots1, slots2, ch, t).window1| > 0
  {
    var captured := st.(signups := []);
    assert |Pool(captured, First)| == 0;
    assert AutoDrawDue(t, Windows(base).draw1, |captured.window1|);
    FiresFirstDraw(st, base, slots1, slots2, ch, t);
    RunDrawShape(st, First, slots1, ch, t);
  }

  /** Window 1 was drawn with `a`, and a manual replacement then put `e` in
      that slot. The window's length is unchanged, so the poll still holds
      the window 1 where `a` sits. In draw 2's grace minute its pool for
      window 2 leaves out only `a`, so it seats `e`, who already plays in
      window 1: the registered poll breaks one slot per artist per night. */
  lemma StalePollRepeatsArtist(a: Signup, e: Signup, s1: Id, s2: Id, base: int, slots1: seq<Slot>,
                               ch: Choices, t: int)
    requires Normalize(a.name) != Normalize(e.name)
    requires ch.Covers(2)
    requires Windows(base).draw2 <= t < Windows(base).draw2 + MinuteSecs
    ensures var captured := NightState([a, e], [Assignment(s1, 0, 1, a.name)], [], None, None);
            var st := captured.(window1 := [Assignment(s1, 0, 1, e.name)]);
            NightUnique(st) && !NightUnique(StaleTick(captured, st, base, slots1, [Slot(s2, 1, 2)], ch, t))
  {
    var captured := NightState([a, e], [Assignment(s1, 0, 1, a.name)], [], None, None);
    var st := captured.(window1 := [Assignment(s1, 0, 1, e.name)]);
    var slots2 := [Slot(s2, 1, 2)];
    assert StaleTick(captured, st, base, slots1, slots2, ch, t) == StaleDraw(captured, st, Second, slots2, ch, t) by {
      assert !AutoDrawDue(t, Windows(base).draw1, |captured.window1|);
      assert AutoDrawDue(t, Windows(base).draw2, |captured.window2|);
    }
    StaleDrawRepeatsArtist(a, e, s1, s2, ch, t);
  }

  /** The window-2 draw of the poll in `StalePollRepeatsArtist`. */
  lemma StaleDrawRepeatsArtist(a: Signup, e: Signup, s1: Id, s2: Id, ch: Choices, t: int)
    requires Normalize(a.name) != Normalize(e.name)
    requires ch.Covers(2)
    ensures var captured := NightState([a, e], [Assignment(s1, 0, 1, a.name)], [], None, None);
            var st := captured.(window1 := [Assignment(s1, 0, 1, e.name)]);
            NightUnique(st) && !NightUnique(StaleDraw(captured, st, Second, [Slot(s2, 1, 2)], ch, t))
  {
    var captured := NightState([a, e], [Assignment(s1, 0, 1, a.name)], [], None, None);
    var st := captured.(window1 := [Assignment(s1, 0, 1, e.name)]);
    StaleDrawSeatsOther(a, e, s1, s2, ch, t);
    var r := StaleDraw(captured, st, Second, [Slot(s2, 1, 2)], ch, t);
    assert Normalize(e.name) in NamesIn(r.window1) by {
      assert r.window1[0] in r.window1;
    }
    assert Normalize(e.name) in NamesIn(r.window2) by {
      assert r.window2[0] in r.window2;
    }
  }

  /** With `a` in the captured window 1, the captured pool for window 2 is
      `e` alone, so the draw seats `e` in the one slot. */
  lemma StaleDrawSeatsOther(a: Signup, e: Signup, s1: Id, s2: Id, ch: Choices, t: int)
    requires Normalize(a.name) != Normalize(e.name)
    requires ch.Covers(2)
    ensures var captured := NightState([a, e], [Assignment(s1, 0, 1, a.name)], [], None, None);
            var st := captured.(window1 := [Assignment(s1, 0, 1, e.name)]);
            var r := StaleDraw(captured, st, Second, [Slot(s2, 1, 2)], ch, t);
            r.window1 == st.window1 && |r.window2| == 1 && r.window2[0].participant == e.name
  {
    var captured := NightState([a, e], [Assignment(s1, 0, 1, a.name)], [], None, None);
    var st := captured.(window1 := [Assignment(s1, 0, 1, e.name)]);
    assert NamesIn(captured.window1) == {Normalize(a.name)} by {
      assert captured.window1[0] in captured.window1;
    }
    StaleDrawSeatsOnlyFree(captured, st, Second, [Slot(s2, 1, 2)], ch, t, e);
  }

  /** When `e` is the one captured sign-up the captured other window does not
      hold, the draw seats `e` first. */
  lemma StaleDrawSeatsOnlyFree(captured: NightState<Signup>, st: NightState<Signup>, w: Which, slots: seq<Slot>,
                               ch: Choices, t: int, e: Signup)
    requires ch.Covers(|captured.signups|)
    requires e in captured.signups && Normalize(e.name) !in NamesIn(captured.Window(w.Other()))
    requires forall s :: s in captured.signups && s != e ==> Normalize(s.name) in NamesIn(captured.Window(w.Other()))
    requires |slots| > 0
    ensures var r := StaleDraw(captured, st, w, slots, ch, t);
            && r.Window(w.Other()) == st.Window(w.Other())
            && |r.Window(w)| > 0
            && r.Window(w)[0].participant == e.name
  {
    assert e in Pool(captured, w);
    StaleDrawSeats(captured, st, w, slots, ch, t);
    var p := StaleDraw(captured, st, w, slots, ch, t).Window(w)[0].participant;
    assert p in NameSet(captured.signups);
    var x :| x in captured.signups && x.name == p;
  }

  /** A draw from a captured state that finds someone fills the window of
      the current state from the captured sign-ups, avoiding only the
      captured other window, and keeps the current other window. */
  lemma StaleDrawSeats(captured: NightState<Signup>, st: NightState<Signup>, w: Which, slots: seq<Slot>,
                       ch: Choices, t: int)
    requires ch.Covers(|captured.signups|)
    requires |Pool(captured, w)| > 0
    ensures var r := StaleDraw(captured, st, w, slots, ch, t);
            && r.Window(w.Other()) == st.Window(w.Other())
            && |r.Window(w)| == Min(|Pool(captured, w)|, |slots|)
            && SeatedFrom(r.Window(w), captured.signups)
            && Avoids(r.Window(w), NamesIn(captured.Window(w.Other())))
  {
    RunDrawShape(captured, w, slots, ch, t);
  }

  /** Registered afresh, with the current state captured, the poll is
      `AutoTick`. */
  lemma StaleTickFresh(st: NightState<Signup>, base: int, slots1: seq<Slot>, slots2: seq<Slot>, ch: Choices, t: int)
    requires ch.Covers(|st.signups|)
    ensures StaleTick(st, st, base, slots1, slots2, ch, t) == AutoTick(st, base, slots1, slots2, ch, t)
  {
    var s := Windows(base);
    if AutoDrawDue(t, s.draw1, |st.window1|) {
      FreshDraw(st, First, slots1, ch, t);
    } else if AutoDrawDue(t, s.draw2, |st.window2|) {
      FreshDraw(st, Second, slots2, ch, t);
    }
  }

  /** A draw whose captured state is the current one is the plain draw. */
  lemma FreshDraw(st: NightState<Signup>, w: Which, slots: seq<Slot>, ch: Choices, t: int)
    requires ch.Covers(|st.signups|)
    ensures StaleDraw(st, st, w, slots, ch, t) == DrawOrStay(st, w, slots, ch, t)
  {
    if |Pool(st, w)| > 0 {
      RunDrawShape(st, w, slots, ch, t);
    }
  }
}
