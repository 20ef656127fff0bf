/** `pickWithGenderCap`: choose `count` entries of a pool so that male-ish
    entries take at most half of them, unless the other entries run out. */
module Pick {
  import opened Outcomes
  import opened Seqs
  import opened FisherYates
  import opened Night

  predicate MaleishEntry(e: Signup) {
    IsMaleish(e.gender)
  }

  predicate OtherEntry(e: Signup) {
    !IsMaleish(e.gender)
  }

  /** The male-ish entries of `s`, in order. */
  function MaleishOf(s: seq<Signup>): seq<Signup> {
    Filter(s, MaleishEntry)
  }

  /** The remaining entries of `s`, in order. */
  function OthersOf(s: seq<Signup>): seq<Signup> {
    Filter(s, OtherEntry)
  }

  /** Every entry is male-ish or other, and none is both. */
  lemma Partition(s: seq<Signup>)
    ensures multiset(MaleishOf(s)) + multiset(OthersOf(s)) == multiset(s)
    ensures |MaleishOf(s)| + |OthersOf(s)| == |s|
  {
    forall x
      ensures (multiset(MaleishOf(s)) + multiset(OthersOf(s)))[x] == multiset(s)[x]
    {
      FilterCount(s, MaleishEntry, x);
      FilterCount(s, OtherEntry, x);
    }
    assert multiset(MaleishOf(s)) + multiset(OthersOf(s)) == multiset(s);
    assert |multiset(MaleishOf(s)) + multiset(OthersOf(s))| == |multiset(s)|;
  }

  /** The random choices of one pick: the shuffle of the male-ish entries, the
      shuffle of the others, and the final shuffle of the chosen ones. */
  datatype Choices = Choices(male: seq<nat>, other: seq<nat>, mixed: seq<nat>) {
    /** Enough legal choices for a pool of `n` entries. */
    predicate Covers(n: nat) {
      ValidChoices(male, n) && ValidChoices(other, n) && ValidChoices(mixed, n)
    }
  }

  /** Choices enough for a pool are enough for any smaller pool. */
  lemma CoversFewer(ch: Choices, n: nat, m: nat)
    requires ch.Covers(n) && m <= n
    ensures ch.Covers(m)
  {
  }

  /** How many male-ish and other entries a pick of `count` takes from `m`
      male-ish and `o` other entries: first up to half the count male-ish,
      the rest other, then any shortfall backfilled from the male-ish entries
      and then from the others. */
  function PickCounts(m: nat, o: nat, count: nat): (r: (nat, nat))
    ensures r.0 <= m && r.1 <= o
    ensures r.0 + r.1 == Min(count, m + o)
    ensures r.0 == Min(m, Max(count / 2, count - o))
  {
    var maleCap := count / 2;
    var pickMale := Min(maleCap, m);
    var pickOther := Min(count - pickMale, o);
    var remaining := count - (pickMale + pickOther);
    if remaining > 0 then
      var extraMale := Min(remaining, m - pickMale);
      var extraOther := Min(remaining - extraMale, o - pickOther);
      (pickMale + extraMale, pickOther + extraOther)
    else
      (pickMale, pickOther)
  }

  /** The pick: shuffle each group, take the counted prefix of each, and
      shuffle the union. It holds `min(count, |entries|)` entries, all from
      the pool without repeats, and exactly the counted number of male-ish
      ones. */
  function PickWithGenderCap(entries: seq<Signup>, count: nat, ch: Choices): (r: seq<Signup>)
    requires ch.Covers(|entries|)
    ensures |r| == Min(count, |entries|)
    ensures multiset(r) <= multiset(entries)
    ensures |MaleishOf(r)| == Min(|MaleishOf(entries)|, Max(count / 2, count - |OthersOf(entries)|))
  {
    Partition(entries);
    var counts := PickCounts(|MaleishOf(entries)|, |OthersOf(entries)|, count);
    PickGroups(entries, counts.0, counts.1, ch)
  }

  /** Shuffle each group, take `k` male-ish and `j` other entries, and shuffle
      the union: `k + j` entries from the pool, exactly `k` of them
      male-ish. */
  function PickGroups(entries: seq<Signup>, k: nat, j: nat, ch: Choices): (r: seq<Signup>)
    requires ch.Covers(|entries|)
    requires k <= |MaleishOf(entries)| && j <= |OthersOf(entries)|
    ensures |r| == k + j
    ensures multiset(r) <= multiset(entries)
    ensures |MaleishOf(r)| == k
  {
    var male := MaleishOf(entries);
    var other := OthersOf(entries);
    GroupChoices(entries, ch);
    var malePicks := Shuffle(male, ch.male)[..k];
    var otherPicks := Shuffle(other, ch.other)[..j];
    CoversFewer(ch, |entries|, |malePicks + otherPicks|);
    var r := Shuffle(malePicks + otherPicks, ch.mixed);
    PickFacts(male, other, malePicks, otherPicks, entries, r, ch);
    r
  }

  /** The choices for a pool cover each of its two groups. */
  lemma GroupChoices(entries: seq<Signup>, ch: Choices)
    requires ch.Covers(|entries|)
    ensures ValidChoices(ch.male, |MaleishOf(entries)|) && ValidChoices(ch.other, |OthersOf(entries)|)
    ensures |MaleishOf(entries)| + |OthersOf(entries)| == |entries|
  {
    Partition(entries);
    CoversFewer(ch, |entries|, |MaleishOf(entries)|);
    CoversFewer(ch, |entries|, |OthersOf(entries)|);
  }

  /** The multiset and counting argument behind `PickWithGenderCap`. */
  lemma PickFacts(male: seq<Signup>, other: seq<Signup>, malePicks: seq<Signup>, otherPicks: seq<Signup>,
                  entries: seq<Signup>, r: seq<Signup>, ch: Choices)
    requires male == MaleishOf(entries) && other == OthersOf(entries)
    requires ValidChoices(ch.male, |male|) && ValidChoices(ch.other, |other|)
    requires |malePicks| <= |male| && malePicks == Shuffle(male, ch.male)[..|malePicks|]
    requires |otherPicks| <= |other| && otherPicks == Shuffle(other, ch.other)[..|otherPicks|]
    requires multiset(r) == multiset(malePicks + otherPicks)
    ensures multiset(r) <= multiset(entries)
    ensures |MaleishOf(r)| == |malePicks|
  {
    ShuffledPrefix(male, ch.male, |malePicks|);
    ShuffledPrefix(other, ch.other, |otherPicks|);
    Partition(entries);
    assert multiset(malePicks + otherPicks) == multiset(malePicks) + multiset(otherPicks);
    AllOf(entries, malePicks, MaleishEntry);
    NoneOf(entries, otherPicks);
    FilterAll(malePicks, MaleishEntry);
    FilterNone(otherPicks, MaleishEntry);
    FilterAppend(malePicks, otherPicks, MaleishEntry);
    FilterPermutation(r, malePicks + otherPicks, MaleishEntry);
  }

  /** A prefix of a shuffle draws from the shuffled sequence without repeats. */
  lemma ShuffledPrefix(s: seq<Signup>, js: seq<nat>, k: nat)
    requires ValidChoices(js, |s|)
    requires k <= |s|
    ensures multiset(Shuffle(s, js)[..k]) <= multiset(s)
  {
    PrefixMultiset(Shuffle(s, js), k);
  }

  /** Entries drawn from `Filter(s, p)` satisfy `p`. */
  lemma AllOf(s: seq<Signup>, picks: seq<Signup>, p: Signup -> bool)
    requires multiset(picks) <= multiset(Filter(s, p))
    ensures forall x :: x in picks ==> p(x)
  {
    FilterMembers(s, p);
    forall x | x in picks
      ensures p(x)
    {
      assert x in multiset(Filter(s, p));
    }
  }

  /** Entries drawn from `OthersOf(s)` are not male-ish. */
  lemma NoneOf(s: seq<Signup>, picks: seq<Signup>)
    requires multiset(picks) <= multiset(Filter(s, OtherEntry))
    ensures forall x :: x in picks ==> !MaleishEntry(x)
  {
    AllOf(s, picks, OtherEntry);
  }

  /** With enough other entries to fill the rest, male-ish entries take at
      most half of the pick. */
  lemma PickRespectsCap(entries: seq<Signup>, count: nat, ch: Choices)
    requires ch.Covers(|entries|)
    requires |OthersOf(entries)| >= count - count / 2
    ensures |MaleishOf(PickWithGenderCap(entries, count, ch))| <= count / 2
  {
  }

  /** When the pool is no larger than the count, the pick is a permutation of
      the whole pool. */
  lemma PickTakesAllWhenShort(entries: seq<Signup>, count: nat, ch: Choices)
    requires ch.Covers(|entries|)
    requires |entries| <= count
    ensures multiset(PickWithGenderCap(entries, count, ch)) == multiset(entries)
  {
    var r := PickWithGenderCap(entries, count, ch);
    SubMultisetSameSize(multiset(r), multiset(entries));
  }

  /** A pick from a pool of distinct entries has no repeats. */
  lemma PickDistinct(entries: seq<Signup>, count: nat, ch: Choices)
    requires ch.Covers(|entries|)
    requires Distinct(entries)
    ensures Distinct(PickWithGenderCap(entries, count, ch))
  {
    var r := PickWithGenderCap(entries, count, ch);
    forall i, j | 0 <= i < j < |r|
      ensures r[i] != r[j]
    {
      if r[i] == r[j] {
        RepeatCount(r, i, j);
        DistinctCount(entries, r[i]);
        assert false;
      }
    }
  }
}
