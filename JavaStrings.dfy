/**
  The few operations of java.lang.String that the mod-list exporter relies on:
  `trim`, `compareToIgnoreCase`, `toLowerCase(Locale.ROOT)` and
  `replace(target, "")` for a one-character target.

  A Java string is modelled as a Dafny `string`. Case mapping is restricted to
  the ASCII letters; every other character maps to itself.
 */
module JavaStrings {

  // ---------------------------------------------------------------------------
  // trim
  // ---------------------------------------------------------------------------

  /** `String.trim` strips every character whose code is at most U+0020. */
  predicate IsTrimSpace(c: char) {
    c <= ' '
  }

  ghost predicate AllTrimSpace(s: string) {
    forall i :: 0 <= i < |s| ==> IsTrimSpace(s[i])
  }

  /** Neither end of `s` is a character that `trim` would strip. */
  predicate IsTrimmed(s: string) {
    s == [] || (!IsTrimSpace(s[0]) && !IsTrimSpace(s[|s| - 1]))
  }

  /** `s` is `t` padded with `lead` strippable characters in front and only strippable characters behind. */
  ghost predicate PaddedAt(s: string, lead: int, t: string) {
    && 0 <= lead
    && lead + |t| <= |s|
    && s[lead..lead + |t|] == t
    && AllTrimSpace(s[..lead])
    && AllTrimSpace(s[lead + |t|..])
  }

  function StripLeading(s: string): (r: string)
    ensures |r| <= |s| && r == s[|s| - |r|..]
    ensures AllTrimSpace(s[..|s| - |r|])
    ensures r == [] || !IsTrimSpace(r[0])
  {
    if s != [] && IsTrimSpace(s[0]) then
      var r := StripLeading(s[1..]);
      assert s[..|s| - |r|] == [s[0]] + s[1..][..|s| - 1 - |r|];
      r
    else
      s
  }

  function StripTrailing(s: string): (r: string)
    ensures |r| <= |s| && r == s[..|r|]
    ensures AllTrimSpace(s[|r|..])
    ensures r == [] || !IsTrimSpace(r[|r| - 1])
  {
    if s != [] && IsTrimSpace(s[|s| - 1]) then
      var r := StripTrailing(s[..|s| - 1]);
      assert s[|r|..] == s[..|s| - 1][|r|..] + [s[|s| - 1]];
      r
    else
      s
  }

  /** `String.trim`: strip the leading, then the trailing characters up to U+0020. */
  function Trim(s: string): (r: string)
    ensures IsTrimmed(r)
    ensures exists lead :: PaddedAt(s, lead, r)
  {
    StripBothPadded(s);
    StripTrailing(StripLeading(s))
  }

  /** Dropping a strippable prefix and then a strippable suffix leaves a padded core. */
  lemma PaddedFromParts(s: string, lead: nat, front: string, r: string)
    requires lead <= |s| && front == s[lead..] && AllTrimSpace(s[..lead])
    requires |r| <= |front| && r == front[..|r|] && AllTrimSpace(front[|r|..])
    ensures PaddedAt(s, lead, r)
  {
    assert s[lead..lead + |r|] == front[..|r|];
    assert s[lead + |r|..] == front[|r|..];
  }

  lemma StripBothPadded(s: string)
    ensures PaddedAt(s, |s| - |StripLeading(s)|, StripTrailing(StripLeading(s)))
  {
    var front := StripLeading(s);
    PaddedFromParts(s, |s| - |front|, front, StripTrailing(front));
  }

  lemma {:induction false} StripLeadingExact(s: string, lead: nat)
    requires lead <= |s| && AllTrimSpace(s[..lead])
    requires lead < |s| ==> !IsTrimSpace(s[lead])
    ensures StripLeading(s) == s[lead..]
    decreases lead
  {
    if lead > 0 {
      assert s[..lead][0] == s[0];
      var front, rest := s[..lead], s[1..][..lead - 1];
      assert forall i :: 0 <= i < lead - 1 ==> rest[i] == front[i + 1];
      StripLeadingExact(s[1..], lead - 1);
      assert s[1..][lead - 1..] == s[lead..];
    }
  }

  lemma {:induction false} StripTrailingExact(s: string, keep: nat)
    requires keep <= |s| && AllTrimSpace(s[keep..])
    requires 0 < keep ==> !IsTrimSpace(s[keep - 1])
    ensures StripTrailing(s) == s[..keep]
    decreases |s| - keep
  {
    if keep < |s| {
      var init := s[..|s| - 1];
      assert s[keep..][|s| - 1 - keep] == s[|s| - 1];
      assert forall i :: 0 <= i < |init| - keep ==> init[keep..][i] == s[keep..][i];
      StripTrailingExact(init, keep);
      assert init[..keep] == s[..keep];
    }
  }

  /** The postconditions of `Trim` determine its result: it is the only trimmed
      string that `s` pads with strippable characters. */
  lemma TrimUnique(s: string, lead: int, t: string)
    requires IsTrimmed(t) && PaddedAt(s, lead, t)
    ensures Trim(s) == t
  {
    if t == [] {
      assert s == s[..lead] + s[lead..];
      StripLeadingExact(s, |s|);
      assert StripLeading(s) == [];
    } else {
      assert s[lead] == t[0];
      StripLeadingExact(s, lead);
      var front := s[lead..];
      assert front[|t|..] == s[lead + |t|..];
      assert front[|t| - 1] == t[|t| - 1];
      StripTrailingExact(front, |t|);
    }
  }

  lemma TrimIdempotent(s: string)
    ensures Trim(Trim(s)) == Trim(s)
  {
    var t := Trim(s);
    assert t[..0] == [] && t[|t|..] == [] && t[0..|t|] == t;
    TrimUnique(t, 0, t);
  }

  // ---------------------------------------------------------------------------
  // Case mapping, compareToIgnoreCase
  // ---------------------------------------------------------------------------

  predicate IsAsciiUpper(c: char) {
    'A' <= c <= 'Z'
  }

  predicate IsAsciiLower(c: char) {
    'a' <= c <= 'z'
  }

  /** `Character.toUpperCase`, restricted to ASCII. */
  function ToUpperChar(c: char): (u: char)
    ensures !IsAsciiLower(u)
    ensures IsAsciiLower(c) ==> IsAsciiUpper(u) && u as int == c as int - 32
    ensures IsAsciiLower(c) || u == c
  {
    if IsAsciiLower(c) then (c as int - 32) as char else c
  }

  /** `Character.toLowerCase`, restricted to ASCII. */
  function ToLowerChar(c: char): (l: char)
    ensures !IsAsciiUpper(l)
    ensures IsAsciiUpper(c) ==> IsAsciiLower(l) && l as int == c as int + 32
    ensures IsAsciiUpper(c) || l == c
  {
    if IsAsciiUpper(c) then (c as int + 32) as char else c
  }

  /** The character `compareToIgnoreCase` finally compares: upper-cased, then lower-cased. */
  function FoldCase(c: char): (f: char)
    ensures !IsAsciiUpper(f)
    ensures f == ToLowerChar(c)
  {
    ToLowerChar(ToUpperChar(c))
  }

  /** The case-folded form of a string; two names compare equal ignoring case exactly when these agree. */
  function FoldString(s: string): (r: string)
    ensures |r| == |s|
  {
    seq(|s|, i requires 0 <= i < |s| => FoldCase(s[i]))
  }

  /** `String.compareToIgnoreCase`: the difference of the first pair of folded
      characters that differ, otherwise the difference of the lengths. */
  function CompareIgnoreCase(a: string, b: string): (r: int)
    ensures r == 0 ==> |a| == |b|
    decreases |a|
  {
    if a == [] || b == [] then
      |a| - |b|
    else if FoldCase(a[0]) != FoldCase(b[0]) then
      FoldCase(a[0]) as int - FoldCase(b[0]) as int
    else
      CompareIgnoreCase(a[1..], b[1..])
  }

  /** The order `compareToIgnoreCase` imposes is lexicographic on folded characters:
      the result is decided by the first position `k` where the folded characters
      differ, or by the lengths when one name is a folded prefix of the other. */
  lemma {:induction false} CompareFirstDifference(a: string, b: string, k: nat)
    requires k <= |a| && k <= |b|
    requires forall i :: 0 <= i < k ==> FoldCase(a[i]) == FoldCase(b[i])
    requires k < |a| && k < |b| ==> FoldCase(a[k]) != FoldCase(b[k])
    ensures CompareIgnoreCase(a, b)
         == if k < |a| && k < |b| then FoldCase(a[k]) as int - FoldCase(b[k]) as int else |a| - |b|
    decreases k
  {
    if k > 0 {
      assert FoldCase(a[0]) == FoldCase(b[0]);
      assert forall i :: 0 <= i < k - 1 ==> a[1..][i] == a[i + 1] && b[1..][i] == b[i + 1];
      CompareFirstDifference(a[1..], b[1..], k - 1);
    }
  }

  lemma {:induction false} CompareReflexive(a: string)
    ensures CompareIgnoreCase(a, a) == 0
  {
    if a != [] {
      CompareReflexive(a[1..]);
    }
  }

  lemma {:induction false} CompareAntisymmetric(a: string, b: string)
    ensures CompareIgnoreCase(a, b) == -CompareIgnoreCase(b, a)
    decreases |a|
  {
    if a != [] && b != [] && FoldCase(a[0]) == FoldCase(b[0]) {
      CompareAntisymmetric(a[1..], b[1..]);
    }
  }

  /** Comparing ignoring case yields zero exactly when the folded strings are equal. */
  lemma {:induction false} CompareZeroIffSameFold(a: string, b: string)
    ensures CompareIgnoreCase(a, b) == 0 <==> FoldString(a) == FoldString(b)
    decreases |a|
  {
    if a == [] || b == [] {
    } else if FoldCase(a[0]) != FoldCase(b[0]) {
      assert FoldString(a)[0] != FoldString(b)[0];
    } else {
      CompareZeroIffSameFold(a[1..], b[1..]);
      assert FoldString(a)[1..] == FoldString(a[1..]);
      assert FoldString(b)[1..] == FoldString(b[1..]);
      assert FoldString(a) == [FoldCase(a[0])] + FoldString(a[1..]);
      assert FoldString(b) == [FoldCase(b[0])] + FoldString(b[1..]);
    }
  }

  lemma {:induction false} CompareTransitive(a: string, b: string, c: string)
    requires CompareIgnoreCase(a, b) <= 0 && CompareIgnoreCase(b, c) <= 0
    ensures CompareIgnoreCase(a, c) <= 0
    decreases |a|
  {
    if a != [] && b != [] && c != [] && FoldCase(a[0]) == FoldCase(b[0]) == FoldCase(c[0]) {
      CompareTransitive(a[1..], b[1..], c[1..]);
    }
  }

  /** `compareToIgnoreCase(x, y) <= 0` is a total preorder on strings. */
  lemma CompareIsTotalPreorder()
    ensures forall a :: CompareIgnoreCase(a, a) <= 0
    ensures forall a, b :: CompareIgnoreCase(a, b) <= 0 || CompareIgnoreCase(b, a) <= 0
    ensures forall a, b, c :: CompareIgnoreCase(a, b) <= 0 && CompareIgnoreCase(b, c) <= 0 ==> CompareIgnoreCase(a, c) <= 0
  {
    forall a ensures CompareIgnoreCase(a, a) <= 0 {
      CompareReflexive(a);
    }
    forall a, b ensures CompareIgnoreCase(a, b) <= 0 || CompareIgnoreCase(b, a) <= 0 {
      CompareAntisymmetric(a, b);
    }
    forall a, b, c | CompareIgnoreCase(a, b) <= 0 && CompareIgnoreCase(b, c) <= 0
      ensures CompareIgnoreCase(a, c) <= 0
    {
      CompareTransitive(a, b, c);
    }
  }

  // ---------------------------------------------------------------------------
  // toLowerCase(Locale.ROOT), replace(target, "")
  // ---------------------------------------------------------------------------

  /** `String.toLowerCase(Locale.ROOT)`, restricted to ASCII. */
  function ToLowerCase(s: string): (r: string)
    ensures |r| == |s|
    ensures forall i :: 0 <= i < |s| ==> r[i] == ToLowerChar(s[i])
  {
    if s == [] then [] else [ToLowerChar(s[0])] + ToLowerCase(s[1..])
  }

  /** The case-folded form `compareToIgnoreCase` works on is the lower-cased string. */
  lemma FoldStringIsLowerCase(s: string)
    ensures FoldString(s) == ToLowerCase(s)
  {
  }

  /** Names that differ only in letter case compare equal. */
  lemma CompareIgnoresCase(a: string, b: string)
    requires ToLowerCase(a) == ToLowerCase(b)
    ensures CompareIgnoreCase(a, b) == 0
  {
    FoldStringIsLowerCase(a);
    FoldStringIsLowerCase(b);
    CompareZeroIffSameFold(a, b);
  }

  /** Lower-casing neither creates nor removes a character that is not a letter. */
  lemma {:induction false} ToLowerCaseKeepsCount(s: string, c: char)
    requires !IsAsciiUpper(c) && !IsAsciiLower(c)
    ensures multiset(ToLowerCase(s))[c] == multiset(s)[c]
    decreases |s|
  {
    if s != [] {
      ToLowerCaseKeepsCount(s[1..], c);
      assert s == [s[0]] + s[1..];
      assert ToLowerChar(s[0]) == c <==> s[0] == c;
      assert multiset(s) == multiset{s[0]} + multiset(s[1..]);
      assert multiset(ToLowerCase(s)) == multiset{ToLowerChar(s[0])} + multiset(ToLowerCase(s[1..]));
    }
  }

  /** `String.replace(target, "")` for a one-character `target`: every occurrence is deleted. */
  function RemoveChar(s: string, target: char): (r: string)
    ensures target !in r
  {
    if s == [] then [] else (if s[0] == target then [] else [s[0]]) + RemoveChar(s[1..], target)
  }

  /** Exactly the occurrences of `target` are removed. */
  lemma {:induction false} RemoveCharLength(s: string, target: char)
    ensures |RemoveChar(s, target)| == |s| - multiset(s)[target]
    decreases |s|
  {
    if s != [] {
      RemoveCharLength(s[1..], target);
      assert s == [s[0]] + s[1..];
    }
  }

  lemma {:induction false} RemoveCharKeeps(s: string, target: char)
    ensures forall c :: c in RemoveChar(s, target) ==> c in s
    decreases |s|
  {
    if s != [] {
      RemoveCharKeeps(s[1..], target);
    }
  }

  lemma RemoveCharCons(c: char, t: string, target: char)
    ensures RemoveChar([c] + t, target) == (if c == target then [] else [c]) + RemoveChar(t, target)
  {
    assert ([c] + t)[1..] == t;
  }

  lemma {:induction false} RemoveCharAppend(a: string, b: string, target: char)
    ensures RemoveChar(a + b, target) == RemoveChar(a, target) + RemoveChar(b, target)
    decreases |a|
  {
    if a == [] {
      assert a + b == b;
    } else {
      var h := if a[0] == target then [] else [a[0]];
      assert a + b == [a[0]] + (a[1..] + b);
      assert a == [a[0]] + a[1..];
      RemoveCharCons(a[0], a[1..] + b, target);
      RemoveCharCons(a[0], a[1..], target);
      RemoveCharAppend(a[1..], b, target);
      assert h + (RemoveChar(a[1..], target) + RemoveChar(b, target))
          == (h + RemoveChar(a[1..], target)) + RemoveChar(b, target);
    }
  }

  lemma {:induction false} RemoveCharAbsent(s: string, target: char)
    requires target !in s
    ensures RemoveChar(s, target) == s
    decreases |s|
  {
    if s != [] {
      RemoveCharAbsent(s[1..], target);
    }
  }
}
