/** Name handling: trimming and `normalizeName`, the case- and
    spacing-insensitive form under which two DJ names count as the same.

    Only ASCII is modelled: whitespace is space, tab, line feed, vertical tab,
    form feed and carriage return, and lower-casing maps `A`..`Z` to `a`..`z`;
    every other character passes through unchanged.
 */
module Text {

  predicate IsSpace(c: char) {
    c == ' ' || ('\t' <= c <= '\r')
  }

  predicate IsUpper(c: char) {
    'A' <= c <= 'Z'
  }

  /** The first position at or after `i` that is not whitespace (or `|s|`). */
  function SkipSpaces(s: string, i: nat): (a: nat)
    requires i <= |s|
    ensures i <= a <= |s|
    decreases |s| - i
  {
    if i < |s| && IsSpace(s[i]) then SkipSpaces(s, i + 1) else i
  }

  /** `SkipSpaces` passes over whitespace only and stops at the first
      non-space. */
  lemma {:induction false} SkipSpacesStops(s: string, i: nat)
    requires i <= |s|
    ensures var a := SkipSpaces(s, i);
            && (a == |s| || !IsSpace(s[a]))
            && forall k :: i <= k < a ==> IsSpace(s[k])
    decreases |s| - i
  {
    if i < |s| && IsSpace(s[i]) {
      SkipSpacesStops(s, i + 1);
    }
  }

  /** The end of `s[a..j]` once its trailing whitespace is dropped. */
  function DropTrailing(s: string, a: nat, j: nat): (b: nat)
    requires a <= j <= |s|
    ensures a <= b <= j
    decreases j
  {
    if j > a && IsSpace(s[j - 1]) then DropTrailing(s, a, j - 1) else j
  }

  /** `DropTrailing` drops whitespace only and stops after a non-space. */
  lemma {:induction false} DropTrailingStops(s: string, a: nat, j: nat)
    requires a <= j <= |s|
    ensures var b := DropTrailing(s, a, j);
            && (b == a || !IsSpace(s[b - 1]))
            && forall k :: b <= k < j ==> IsSpace(s[k])
    decreases j
  {
    if j > a && IsSpace(s[j - 1]) {
      DropTrailingStops(s, a, j - 1);
    }
  }

  /** `String.prototype.trim`: the slice of `s` left after removing the
      whitespace at both ends. */
  function Trim(s: string): (r: string)
    ensures |r| <= |s|
  {
    var a := SkipSpaces(s, 0);
    s[a..DropTrailing(s, a, |s|)]
  }

  /** `r` is the slice of `s` starting at `a`, and everything outside it is
      whitespace. */
  predicate TrimmedAt(s: string, a: int, r: string) {
    && 0 <= a <= |s| - |r|
    && r == s[a..a + |r|]
    && (forall i :: 0 <= i < a ==> IsSpace(s[i]))
    && (forall i :: a + |r| <= i < |s| ==> IsSpace(s[i]))
  }

  /** Trimming cuts whitespace, and only whitespace, from both ends: the
      result is a slice of `s` that neither starts nor ends with whitespace. */
  lemma TrimShape(s: string)
    ensures var r := Trim(s);
            |r| == 0 || (!IsSpace(r[0]) && !IsSpace(r[|r| - 1]))
    ensures TrimmedAt(s, SkipSpaces(s, 0), Trim(s))
  {
    var a := SkipSpaces(s, 0);
    SkipSpacesStops(s, 0);
    DropTrailingStops(s, a, |s|);
  }

  /** A name trims to nothing exactly when it is all whitespace. */
  lemma TrimBlank(s: string)
    ensures |Trim(s)| == 0 <==> forall i :: 0 <= i < |s| ==> IsSpace(s[i])
  {
    TrimShape(s);
    if |Trim(s)| > 0 {
      assert s[SkipSpaces(s, 0)] == Trim(s)[0];
    }
  }

  /** Trimming leaves a string without outer whitespace alone. */
  lemma TrimFixed(s: string)
    requires |s| == 0 || (!IsSpace(s[0]) && !IsSpace(s[|s| - 1]))
    ensures Trim(s) == s
  {
    assert SkipSpaces(s, 0) == 0;
    assert DropTrailing(s, 0, |s|) == |s|;
    assert s[0..|s|] == s;
  }

  /** Every run of whitespace in `s` replaced by a single space (the
      `replace(/\s+/g, " ")` step). */
  function Collapse(s: string): (r: string)
    decreases |s|
  {
    if |s| == 0 then []
    else if IsSpace(s[0]) then " " + Collapse(s[SkipSpaces(s, 0)..])
    else [s[0]] + Collapse(s[1..])
  }

  /** After collapsing, the only whitespace is single spaces; the first
      character is kept (as a space if it was whitespace) and a last
      character that is not whitespace is kept last. */
  lemma {:induction false} CollapseShape(s: string)
    ensures var r := Collapse(s);
            && (forall i :: 0 <= i < |r| && IsSpace(r[i]) ==> r[i] == ' ')
            && (forall i :: 0 <= i < |r| - 1 ==> r[i] != ' ' || r[i + 1] != ' ')
            && (|s| == 0 <==> |r| == 0)
            && (|s| > 0 ==> r[0] == (if IsSpace(s[0]) then ' ' else s[0]))
            && (|s| > 0 && !IsSpace(s[|s| - 1]) ==> r[|r| - 1] == s[|s| - 1])
    decreases |s|
  {
    if |s| > 0 {
      var r := Collapse(s);
      if IsSpace(s[0]) {
        var a := SkipSpaces(s, 0);
        var t := s[a..];
        SkipSpacesStops(s, 0);
        CollapseShape(t);
        assert r == " " + Collapse(t);
        assert |t| > 0 ==> !IsSpace(t[0]);
        assert !IsSpace(s[|s| - 1]) ==> |t| > 0 && t[|t| - 1] == s[|s| - 1];
      } else {
        CollapseShape(s[1..]);
        assert r == [s[0]] + Collapse(s[1..]);
        assert |s| > 1 ==> s[1..][|s| - 2] == s[|s| - 1];
      }
    }
  }

  /** The characters of `s` that are not whitespace, in order. */
  function Unspaced(s: string): string
    decreases |s|
  {
    if |s| == 0 then []
    else (if IsSpace(s[0]) then [] else [s[0]]) + Unspaced(s[1..])
  }

  /** `Unspaced` of a string that starts with `c`. */
  lemma UnspacedCons(c: char, t: string)
    ensures Unspaced([c] + t) == (if IsSpace(c) then [] else [c]) + Unspaced(t)
  {
    assert ([c] + t)[1..] == t;
  }

  /** Skipping leading whitespace passes over no other character. */
  lemma {:induction false} UnspacedSkip(s: string, i: nat)
    requires i <= |s|
    ensures Unspaced(s[i..]) == Unspaced(s[SkipSpaces(s, i)..])
    decreases |s| - i
  {
    if i < |s| && IsSpace(s[i]) {
      UnspacedSkip(s, i + 1);
      assert s[i..] == [s[i]] + s[i + 1..];
      UnspacedCons(s[i], s[i + 1..]);
    }
  }

  /** Collapsing keeps every character that is not whitespace, in order:
      only runs of whitespace change. */
  lemma {:induction false} CollapseKeepsUnspaced(s: string)
    ensures Unspaced(Collapse(s)) == Unspaced(s)
    decreases |s|
  {
    if |s| > 0 {
      if IsSpace(s[0]) {
        var a := SkipSpaces(s, 0);
        UnspacedSkip(s, 0);
        assert s[0..] == s;
        CollapseKeepsUnspaced(s[a..]);
        UnspacedCons(' ', Collapse(s[a..]));
      } else {
        CollapseKeepsUnspaced(s[1..]);
        UnspacedCons(s[0], Collapse(s[1..]));
        assert s == [s[0]] + s[1..];
        UnspacedCons(s[0], s[1..]);
      }
    }
  }

  /** A string whose whitespace is already collapsed is left alone. */
  lemma {:induction false} CollapseFixed(s: string)
    requires forall i :: 0 <= i < |s| && IsSpace(s[i]) ==> s[i] == ' '
    requires forall i :: 0 <= i < |s| - 1 ==> s[i] != ' ' || s[i + 1] != ' '
    ensures Collapse(s) == s
    decreases |s|
  {
    if |s| > 0 {
      if IsSpace(s[0]) {
        assert |s| > 1 ==> !IsSpace(s[1]);
        assert SkipSpaces(s, 1) == 1;
        assert SkipSpaces(s, 0) == 1;
        CollapseFixed(s[1..]);
        assert s == " " + s[1..];
      } else {
        CollapseFixed(s[1..]);
        assert s == [s[0]] + s[1..];
      }
    }
  }

  function LowerChar(c: char): (d: char)
    ensures !IsUpper(d)
    ensures IsSpace(d) <==> IsSpace(c)
    ensures d == ' ' <==> c == ' '
    ensures !IsUpper(c) ==> d == c
  {
    if IsUpper(c) then (c as int + 32) as char else c
  }

  /** `String.prototype.toLowerCase` restricted to ASCII letters. */
  function Lower(s: string): (r: string)
    ensures |r| == |s|
    decreases |s|
  {
    if |s| == 0 then [] else [LowerChar(s[0])] + Lower(s[1..])
  }

  /** Lower-casing works character by character. */
  lemma {:induction false} LowerChars(s: string)
    ensures forall i :: 0 <= i < |s| ==> Lower(s)[i] == LowerChar(s[i])
    decreases |s|
  {
    if |s| > 0 {
      LowerChars(s[1..]);
      assert Lower(s) == [LowerChar(s[0])] + Lower(s[1..]);
    }
  }

  /** The strings `normalizeName` can return: no upper-case letters, no
      whitespace other than single inner spaces. */
  predicate IsNormal(s: string) {
    && (forall i :: 0 <= i < |s| ==> !IsUpper(s[i]) && (IsSpace(s[i]) ==> s[i] == ' '))
    && (|s| > 0 ==> s[0] != ' ' && s[|s| - 1] != ' ')
    && (forall i :: 0 <= i < |s| - 1 ==> s[i] != ' ' || s[i + 1] != ' ')
  }

  /** `normalizeName`: trim, collapse whitespace runs, lower-case. */
  function Normalize(s: string): string {
    Lower(Collapse(Trim(s)))
  }

  /** A normalized name is in normal form, and it is empty exactly when the
      trimmed name is. */
  lemma NormalizeIsNormal(s: string)
    ensures IsNormal(Normalize(s))
    ensures |Normalize(s)| == 0 <==> |Trim(s)| == 0
  {
    var t := Trim(s);
    var c := Collapse(t);
    var r := Lower(c);
    TrimShape(s);
    CollapseShape(t);
    LowerChars(c);
    forall i | 0 <= i < |r| - 1
      ensures r[i] != ' ' || r[i + 1] != ' '
    {
      assert c[i] != ' ' || c[i + 1] != ' ';
    }
  }

  /** A normal string is its own normal form. */
  lemma NormalizeFixesNormal(s: string)
    requires IsNormal(s)
    ensures Normalize(s) == s
  {
    assert |s| > 0 ==> !IsSpace(s[0]) && !IsSpace(s[|s| - 1]);
    TrimFixed(s);
    CollapseFixed(s);
    LowerChars(s);
    assert Lower(s) == s;
  }

  /** Normalizing twice is normalizing once. */
  lemma NormalizeIdempotent(s: string)
    ensures Normalize(Normalize(s)) == Normalize(s)
  {
    NormalizeIsNormal(s);
    NormalizeFixesNormal(Normalize(s));
  }

  /** Trimming before normalizing changes nothing. */
  lemma NormalizeTrim(s: string)
    ensures Normalize(Trim(s)) == Normalize(s)
  {
    TrimShape(s);
    TrimFixed(Trim(s));
  }
}
