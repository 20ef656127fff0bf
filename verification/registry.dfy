/** Sign-up handling of the live kiosk: `addSignup` with its checks, the
    `clearAll` reset, and the rows `exportCSV` writes. */
module Registry {
  import opened Outcomes
  import opened Text
  import opened Clock
  import opened Slots
  import opened Night
  import opened Csv

  /** The device-wide pause between two sign-ups while the cooldown is on. */
  const SignupCooldownSecs: int := 60

  /** The cooldown in force: none while the admin has switched it off. */
  function Cooldown(enabled: bool): int {
    if enabled then SignupCooldownSecs else 0
  }

  /** `addSignup`: checks, in order, a blank name, a missing gender, the
      cooldown and a normalized duplicate, rejecting at the first that
      fails; otherwise appends the trimmed name stamped `now` and restarts
      the cooldown. `gender` is `None` while the form's choice is blank. */
  function AddSignup(st: NightState<Signup>, name: string, gender: Option<Gender>, now: int, cooldownEnabled: bool, id: Id)
      : (r: Result<NightState<Signup>>)
    ensures r.Rejected? ==> r.why in {BlankName, NoGender, Throttled, DuplicateName}
    ensures r.Ok? ==> gender.Some? && r.value == Joined(st, Signup(id, Trim(name), gender.value, now))
  {
    var trimmed := Trim(name);
    if |trimmed| == 0 then Rejected(BlankName)
    else if gender.None? then Rejected(NoGender)
    else if !CanSubmit(st.lastSignup, now, Cooldown(cooldownEnabled)) then Rejected(Throttled)
    else if FindByName(st.signups, Normalize(trimmed)).Some? then Rejected(DuplicateName)
    else Ok(Joined(st, Signup(id, trimmed, gender.value, now)))
  }

  /** The state after `entry` joins: appended last, cooldown restarted at its
      creation time. */
  function Joined(st: NightState<Signup>, entry: Signup): (r: NightState<Signup>)
    ensures |r.signups| == |st.signups| + 1 && r.signups[..|st.signups|] == st.signups
    ensures r.signups[|st.signups|] == entry
    ensures r.lastSignup == Some(entry.created)
    ensures r.window1 == st.window1 && r.window2 == st.window2 && r.lastDraw == st.lastDraw
  {
    st.(signups := st.signups + [entry], lastSignup := Some(entry.created))
  }

  /** Some signup's name normalizes like `name`. */
  predicate Taken(signups: seq<Signup>, name: string) {
    exists s :: s in signups && Normalize(s.name) == Normalize(name)
  }

  /** Each rejection of `AddSignup` in terms of its input, and acceptance
      exactly when none applies: the name has a non-space character, a
      gender is chosen, the cooldown has run out and no signup's name
      normalizes like it. */
  lemma AddSignupOutcome(st: NightState<Signup>, name: string, gender: Option<Gender>, now: int, cooldownEnabled: bool, id: Id)
    ensures var r := AddSignup(st, name, gender, now, cooldownEnabled, id);
            var blank := forall i :: 0 <= i < |name| ==> IsSpace(name[i]);
            var waiting := st.lastSignup.Some? && now < st.lastSignup.value + Cooldown(cooldownEnabled);
            && (r == Rejected(BlankName) <==> blank)
            && (r == Rejected(NoGender) <==> !blank && gender.None?)
            && (r == Rejected(Throttled) <==> !blank && gender.Some? && waiting)
            && (r == Rejected(DuplicateName) <==> !blank && gender.Some? && !waiting && Taken(st.signups, name))
            && (r.Ok? <==> !blank && gender.Some? && !waiting && !Taken(st.signups, name))
  {
    TrimBlank(name);
    NormalizeTrim(name);
    var found := FindByName(st.signups, Normalize(Trim(name)));
    if Taken(st.signups, name) {
      var s :| s in st.signups && Normalize(s.name) == Normalize(name);
      assert found.Some?;
    }
  }

  /** Accepting a sign-up keeps the signups' normalized names pairwise
      distinct. */
  lemma AddSignupKeepsNamesDistinct(st: NightState<Signup>, name: string, gender: Option<Gender>, now: int, cooldownEnabled: bool, id: Id)
    requires NormalizedDistinct(NamesOf(st.signups))
    requires AddSignup(st, name, gender, now, cooldownEnabled, id).Ok?
    ensures NormalizedDistinct(NamesOf(AddSignup(st, name, gender, now, cooldownEnabled, id).value.signups))
  {
    AddSignupOutcome(st, name, gender, now, cooldownEnabled, id);
    NormalizeTrim(name);
    var after := AddSignup(st, name, gender, now, cooldownEnabled, id).value.signups;
    var names := NamesOf(after);
    var n := |st.signups|;
    forall i, j | 0 <= i < j < |names|
      ensures Normalize(names[i]) != Normalize(names[j])
    {
      if j == n {
        assert after[i] in st.signups;
        assert names[j] == Trim(name);
      } else {
        assert names[i] == NamesOf(st.signups)[i] && names[j] == NamesOf(st.signups)[j];
      }
    }
  }

  /** While the cooldown is on, no second sign-up is accepted within a minute
      of an accepted one. */
  lemma ThrottledAfterJoin(st: NightState<Signup>, name: string, gender: Option<Gender>, now: int, id: Id,
                           name': string, gender': Option<Gender>, now': int, id': Id)
    requires AddSignup(st, name, gender, now, true, id).Ok?
    requires now' < now + SignupCooldownSecs
    ensures AddSignup(AddSignup(st, name, gender, now, true, id).value, name', gender', now', true, id').Rejected?
  {
  }

  /** A minute after an accepted sign-up the cooldown no longer rejects. */
  lemma OpenAfterCooldown(st: NightState<Signup>, name: string, gender: Option<Gender>, now: int, id: Id,
                          name': string, gender': Option<Gender>, now': int, id': Id)
    requires AddSignup(st, name, gender, now, true, id).Ok?
    requires now' >= now + SignupCooldownSecs
    ensures AddSignup(AddSignup(st, name, gender, now, true, id).value, name', gender', now', true, id') != Rejected(Throttled)
  {
  }

  /** Once a name is in, a later respelling of it that differs only in case
      or spacing is rejected as a duplicate (cooldown off, gender chosen). */
  lemma RespellingRejected(st: NightState<Signup>, name: string, gender: Option<Gender>, now: int, id: Id,
                           name': string, g': Gender, now': int, id': Id)
    requires AddSignup(st, name, gender, now, false, id).Ok?
    requires Normalize(name') == Normalize(name)
    requires now' >= now
    ensures AddSignup(AddSignup(st, name, gender, now, false, id).value, name', Some(g'), now', false, id')
            == Rejected(DuplicateName)
  {
    var st' := AddSignup(st, name, gender, now, false, id).value;
    var entry := st'.signups[|st.signups|];
    assert entry in st'.signups;
    NormalizeTrim(name);
    assert Normalize(entry.name) == Normalize(name');
    TrimBlank(name);
    TrimBlank(name');
    NormalizeIsNormal(name);
    NormalizeIsNormal(name');
    AddSignupOutcome(st', name', Some(g'), now', false, id');
  }

  /** `clearAll`: no signups, no assignments, no draw or sign-up time. */
  function ClearAll<S>(): (r: NightState<S>)
    ensures |r.signups| == 0 && |r.window1| == 0 && |r.window2| == 0
    ensures r.lastDraw.None? && r.lastSignup.None?
  {
    NightState([], [], [], None, None)
  }

  /** The cleared state breaks no rule and lets the next sign-up through at
      once. */
  lemma ClearAllFresh(now: int, cooldownEnabled: bool)
    ensures NightUnique(ClearAll<Signup>()) && NormalizedDistinct(NamesOf(ClearAll<Signup>().signups))
    ensures CanSubmit(ClearAll<Signup>().lastSignup, now, Cooldown(cooldownEnabled))
  {
  }

  /** The gender as stored and exported. */
  function GenderLabel(g: Gender): string {
    match g
    case Male => "male"
    case Female => "female"
    case NonBinary => "non-binary"
    case PreferNotToSay => "prefer-not-to-say"
    case Duo => "duo"
  }

  /** Reads an exported gender label back. */
  function ParseGender(s: string): (g: Option<Gender>)
    ensures g.Some? ==> GenderLabel(g.value) == s
  {
    if s == "male" then Some(Male)
    else if s == "female" then Some(Female)
    else if s == "non-binary" then Some(NonBinary)
    else if s == "prefer-not-to-say" then Some(PreferNotToSay)
    else if s == "duo" then Some(Duo)
    else None
  }

  /** Every gender label reads back as its gender. */
  lemma GenderLabelRoundTrip(g: Gender)
    ensures ParseGender(GenderLabel(g)) == Some(g)
  {
  }

  /** The header row of the export. */
  function ExportHeader(): seq<string> {
    ["Name", "Gender", "Signed Up (UK)"]
  }

  /** One exported row: name, gender, and the creation time as `fmt` renders
      it. */
  function ExportRow(s: Signup, fmt: int -> string): (row: seq<string>)
    ensures |row| == 3
  {
    [s.name, GenderLabel(s.gender), fmt(s.created)]
  }

  /** The table `exportCSV` writes: the header, then one row per signup in
      stored order. */
  function ExportRows(signups: seq<Signup>, fmt: int -> string): (rows: seq<seq<string>>)
    ensures |rows| == |signups| + 1
    ensures AllRowsFilled(rows)
    decreases |signups|
  {
    if |signups| == 0 then [ExportHeader()]
    else ExportRows(signups[..|signups| - 1], fmt) + [ExportRow(signups[|signups| - 1], fmt)]
  }

  /** Row `i + 1` of the table describes signup `i`. */
  lemma {:induction false} ExportRowsAt(signups: seq<Signup>, fmt: int -> string)
    ensures ExportRows(signups, fmt)[0] == ExportHeader()
    ensures forall i :: 0 <= i < |signups| ==> ExportRows(signups, fmt)[i + 1] == ExportRow(signups[i], fmt)
    decreases |signups|
  {
    if |signups| > 0 {
      ExportRowsAt(signups[..|signups| - 1], fmt);
    }
  }

  /** The exported file's text. */
  function ExportCsv(signups: seq<Signup>, fmt: int -> string): string {
    Encode(ExportRows(signups, fmt))
  }

  /** `rows` describes `signups`: the header, then per signup its name, a
      label that reads back as its gender, and its rendered creation time. */
  predicate DescribesSignups(rows: seq<seq<string>>, signups: seq<Signup>, fmt: int -> string) {
    && |rows| == |signups| + 1
    && rows[0] == ExportHeader()
    && forall i :: 0 <= i < |signups| ==>
         |rows[i + 1]| == 3 && rows[i + 1][0] == signups[i].name
         && ParseGender(rows[i + 1][1]) == Some(signups[i].gender)
         && rows[i + 1][2] == fmt(signups[i].created)
  }

  /** Reading the exported text back gives the header and, for every signup
      in order, its exact name, gender and rendered time, whatever quotes
      they hold. */
  lemma ExportRoundTrip(signups: seq<Signup>, fmt: int -> string)
    ensures ParseRows(ExportCsv(signups, fmt)).Some?
    ensures DescribesSignups(ParseRows(ExportCsv(signups, fmt)).value, signups, fmt)
  {
    var rows := ExportRows(signups, fmt);
    ParseEncode(rows);
    assert ParseRows(ExportCsv(signups, fmt)) == Some(rows);
    ExportRowsDescribe(signups, fmt);
  }

  /** The exported table itself describes the signups. */
  lemma ExportRowsDescribe(signups: seq<Signup>, fmt: int -> string)
    ensures DescribesSignups(ExportRows(signups, fmt), signups, fmt)
  {
    var rows := ExportRows(signups, fmt);
    ExportRowsAt(signups, fmt);
    forall i | 0 <= i < |signups|
      ensures |rows[i + 1]| == 3 && rows[i + 1][0] == signups[i].name
              && ParseGender(rows[i + 1][1]) == Some(signups[i].gender)
              && rows[i + 1][2] == fmt(signups[i].created)
    {
      assert rows[i + 1] == ExportRow(signups[i], fmt);
      GenderLabelRoundTrip(signups[i].gender);
    }
  }
}
