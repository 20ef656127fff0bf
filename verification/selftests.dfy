/** The checks of the older variant's `devSelfTests`, stated as lemmas over
    the shared helpers, for every night and every instant rather than for
    the one date the checks use. */
module SelfTests {
  import opened Outcomes
  import opened Text
  import opened Clock
  import opened Slots
  import opened FisherYates

  /** A night's first window holds four slots, the first from 23:00 to 23:30
      on the base day. */
  lemma FourSlotsFirstAtEleven(d: int, ids: seq<Id>)
    requires |ids| >= MaxSlotsPerWindow
    ensures var iv := Windows(Midnight(d)).window1;
            var r := SlotsFrom(iv.start, iv.end, SlotMinutes * MinuteSecs, MaxSlotsPerWindow, ids, 0);
            && |r| == 4
            && r[0].start == Civil(d, 23, 0, 0).Instant()
            && r[0].end == Civil(d, 23, 30, 0).Instant()
  {
    FirstWindowOpensAtEleven(Midnight(d), ids);
  }

  /** Spacing and case do not tell two names apart. */
  lemma SpacedCapitalsMatch()
    ensures Normalize("  DJ  NAME ") == Normalize("dj name")
  {
    TrimExample();
    CollapseExample();
    LowerExample();
    NormalExample();
  }

  /** The outer spaces go, the inner ones stay. */
  lemma TrimExample()
    ensures Trim("  DJ  NAME ") == "DJ  NAME"
  {
    var s := "  DJ  NAME ";
    assert SkipSpaces(s, 0) == 2;
    assert DropTrailing(s, 2, |s|) == 10;
  }

  /** The inner run of spaces becomes one space. */
  lemma CollapseExample()
    ensures Collapse("DJ  NAME") == "DJ NAME"
  {
    CollapseRunExample();
    assert "J  NAME"[1..] == "  NAME";
    assert Collapse("J  NAME") == "J" + " NAME";
    assert "DJ  NAME"[1..] == "J  NAME";
    assert Collapse("DJ  NAME") == "D" + "J NAME";
  }

  /** A leading run of spaces becomes one space. */
  lemma CollapseRunExample()
    ensures Collapse("  NAME") == " NAME"
  {
    CollapseWordExample();
    assert SkipSpaces("  NAME", 0) == 2;
    assert "  NAME"[2..] == "NAME";
  }

  /** A word without spaces is left alone. */
  lemma CollapseWordExample()
    ensures Collapse("NAME") == "NAME"
  {
    assert Collapse("E") == "E";
    assert Collapse("ME") == "ME";
    assert Collapse("AME") == "AME";
  }

  /** Capitals become small letters. */
  lemma LowerExample()
    ensures Lower("DJ NAME") == "dj name"
  {
    LowerChars("DJ NAME");
  }

  /** The lower-case spelling is already normal. */
  lemma NormalExample()
    ensures Normalize("dj name") == "dj name"
  {
    assert IsNormal("dj name");
    NormalizeFixesNormal("dj name");
  }

  /** 03:00 belongs to the previous night; noon to the same day. */
  lemma NightBaseEarlyAndNoon(d: int)
    ensures NightBase(Civil(d, 3, 0, 0)) == d - 1
    ensures NightBase(Civil(d, 12, 0, 0)) == d
  {
  }

  /** With nothing submitted a sign-up is allowed; 45 s after one it is
      blocked; 60 s after one it is allowed again. */
  lemma CooldownChecks(t0: int)
    ensures CanSubmit(None, t0, 60)
    ensures !CanSubmit(Some(t0), t0 + 45, 60)
    ensures CanSubmit(Some(t0), t0 + 60, 60)
  {
  }

  /** The first name of a shuffle is one of the shuffled names. */
  lemma ShuffleDrawsFromNames(names: seq<string>, js: seq<nat>)
    requires |names| > 0
    requires ValidChoices(js, |names|)
    ensures Shuffle(names, js)[0] in names
  {
    assert Shuffle(names, js)[0] in multiset(Shuffle(names, js));
  }
}
