/**
  The two decisions `writeModList` makes before touching the file system: the
  name of the temporary file the list is first written to, and the copy
  options of the final move onto the configured output path.
 */
module Writer {
  import opened JavaStrings

  // ---------------------------------------------------------------------------
  // Temporary file name
  // ---------------------------------------------------------------------------

  /** `uuid.toLowerCase(Locale.ROOT).replace("-", "") + ".json"`, where `uuid`
      is the text of a random UUID. */
  function TempFileName(uuid: string): (name: string)
    ensures '-' !in name
    ensures |name| >= 5 && name[|name| - 5..] == ".json"
  {
    var stem := RemoveChar(ToLowerCase(uuid), '-');
    assert (stem + ".json")[|stem|..] == ".json";
    stem + ".json"
  }

  lemma LowerStemHasNoUpper(uuid: string)
    ensures forall c :: c in RemoveChar(ToLowerCase(uuid), '-') ==> !IsAsciiUpper(c)
  {
    var lower := ToLowerCase(uuid);
    RemoveCharKeeps(lower, '-');
    forall c | c in lower ensures !IsAsciiUpper(c) {
      var j :| 0 <= j < |lower| && lower[j] == c;
    }
  }

  /** Lower-casing and removing the hyphens keeps every character except the hyphens. */
  lemma StemLength(uuid: string)
    ensures |RemoveChar(ToLowerCase(uuid), '-')| == |uuid| - multiset(uuid)['-']
  {
    ToLowerCaseKeepsCount(uuid, '-');
    RemoveCharLength(ToLowerCase(uuid), '-');
  }

  lemma NoUpperAppend(a: string, b: string)
    requires forall c :: c in a ==> !IsAsciiUpper(c)
    requires forall c :: c in b ==> !IsAsciiUpper(c)
    ensures forall i :: 0 <= i < |a + b| ==> !IsAsciiUpper((a + b)[i])
  {
    forall i | 0 <= i < |a + b| ensures !IsAsciiUpper((a + b)[i]) {
      if i < |a| {
        assert (a + b)[i] == a[i] && a[i] in a;
      } else {
        assert (a + b)[i] == b[i - |a|] && b[i - |a|] in b;
      }
    }
  }

  /** The name has no upper-case letter and is as long as the UUID text
      without its hyphens, plus five. */
  lemma TempFileNameShape(uuid: string)
    ensures forall i :: 0 <= i < |TempFileName(uuid)| ==> !IsAsciiUpper(TempFileName(uuid)[i])
    ensures |TempFileName(uuid)| == |uuid| - multiset(uuid)['-'] + 5
  {
    var stem := RemoveChar(ToLowerCase(uuid), '-');
    assert TempFileName(uuid) == stem + ".json";
    assert |stem| == |uuid| - multiset(uuid)['-'] by {
      StemLength(uuid);
    }
    assert forall i :: 0 <= i < |stem + ".json"| ==> !IsAsciiUpper((stem + ".json")[i]) by {
      LowerStemHasNoUpper(uuid);
      NoUpperAppend(stem, ".json");
    }
  }

  predicate IsHexDigit(c: char) {
    '0' <= c <= '9' || 'a' <= c <= 'f' || 'A' <= c <= 'F'
  }

  predicate IsLowerHexDigit(c: char) {
    '0' <= c <= '9' || 'a' <= c <= 'f'
  }

  /** The positions of the four hyphens in the 8-4-4-4-12 layout of a UUID. */
  predicate IsHyphenPosition(i: int) {
    i == 8 || i == 13 || i == 18 || i == 23
  }

  /** The text `UUID.toString` produces: 32 hexadecimal digits in groups of 8, 4, 4, 4 and 12, separated by hyphens. */
  ghost predicate IsCanonicalUuid(u: string) {
    |u| == 36 && forall i :: 0 <= i < 36 ==> if IsHyphenPosition(i) then u[i] == '-' else IsHexDigit(u[i])
  }

  /** The 32 digits of a canonical UUID text, without its hyphens. */
  function Digits(l: string): (d: string)
    requires |l| == 36
    ensures |d| == 32
  {
    l[..8] + l[9..13] + l[14..18] + l[19..23] + l[24..]
  }

  lemma LowerCanonical(u: string)
    requires IsCanonicalUuid(u)
    ensures IsCanonicalUuid(ToLowerCase(u))
    ensures forall i :: 0 <= i < 36 && !IsHyphenPosition(i) ==> IsLowerHexDigit(ToLowerCase(u)[i])
  {
  }

  lemma RemoveHyphenBetween(a: string, b: string)
    ensures RemoveChar(a + "-" + b, '-') == RemoveChar(a, '-') + RemoveChar(b, '-')
  {
    RemoveCharAppend(a + "-", b, '-');
    RemoveCharAppend(a, "-", '-');
    assert RemoveChar("-", '-') == [];
    assert RemoveChar(a, '-') + [] == RemoveChar(a, '-');
  }

  lemma CanonicalGroups(l: string)
    requires IsCanonicalUuid(l)
    requires forall i :: 0 <= i < 36 && !IsHyphenPosition(i) ==> IsLowerHexDigit(l[i])
    ensures l == l[..8] + "-" + l[9..13] + "-" + l[14..18] + "-" + l[19..23] + "-" + l[24..]
    ensures '-' !in l[..8] && '-' !in l[9..13] && '-' !in l[14..18] && '-' !in l[19..23] && '-' !in l[24..]
  {
    assert '-' !in l[..8] by { assert forall i :: 0 <= i < 8 ==> l[..8][i] == l[i]; }
    assert '-' !in l[9..13] by { assert forall i :: 0 <= i < 4 ==> l[9..13][i] == l[i + 9]; }
    assert '-' !in l[14..18] by { assert forall i :: 0 <= i < 4 ==> l[14..18][i] == l[i + 14]; }
    assert '-' !in l[19..23] by { assert forall i :: 0 <= i < 4 ==> l[19..23][i] == l[i + 19]; }
    assert '-' !in l[24..] by { assert forall i :: 0 <= i < 12 ==> l[24..][i] == l[i + 24]; }
  }

  lemma RemoveHyphensOfCanonical(l: string)
    requires IsCanonicalUuid(l)
    requires forall i :: 0 <= i < 36 && !IsHyphenPosition(i) ==> IsLowerHexDigit(l[i])
    ensures RemoveChar(l, '-') == Digits(l)
  {
    CanonicalGroups(l);
    var g1, g2, g3, g4, g5 := l[..8], l[9..13], l[14..18], l[19..23], l[24..];
    RemoveCharAbsent(g1, '-');
    RemoveCharAbsent(g2, '-');
    RemoveCharAbsent(g3, '-');
    RemoveCharAbsent(g4, '-');
    RemoveCharAbsent(g5, '-');
    RemoveHyphenBetween(g1, g2);
    RemoveHyphenBetween(g1 + "-" + g2, g3);
    RemoveHyphenBetween(g1 + "-" + g2 + "-" + g3, g4);
    RemoveHyphenBetween(g1 + "-" + g2 + "-" + g3 + "-" + g4, g5);
  }

  /** For the text of a UUID the name is its 32 digits, lower-cased, then ".json": 37 characters. */
  lemma TempFileNameOfUuid(u: string)
    requires IsCanonicalUuid(u)
    ensures TempFileName(u) == Digits(ToLowerCase(u)) + ".json"
    ensures |TempFileName(u)| == 37
    ensures forall i :: 0 <= i < 32 ==> IsLowerHexDigit(TempFileName(u)[i])
  {
    var l := ToLowerCase(u);
    LowerCanonical(u);
    RemoveHyphensOfCanonical(l);
    var d := Digits(l);
    forall i | 0 <= i < 32 ensures IsLowerHexDigit(d[i]) {
      if i < 8 { assert d[i] == l[i]; }
      else if i < 12 { assert d[i] == l[i + 1]; }
      else if i < 16 { assert d[i] == l[i + 2]; }
      else if i < 20 { assert d[i] == l[i + 3]; }
      else { assert d[i] == l[i + 4]; }
    }
  }

  /** A canonical UUID text is determined by its digits. */
  lemma DigitsDetermine(l1: string, l2: string)
    requires IsCanonicalUuid(l1) && IsCanonicalUuid(l2)
    requires Digits(l1) == Digits(l2)
    ensures l1 == l2
  {
    var d := Digits(l1);
    forall i | 0 <= i < 36 ensures l1[i] == l2[i] {
      if i < 8 { assert d[i] == l1[i] && d[i] == l2[i]; }
      else if IsHyphenPosition(i) { }
      else if i < 13 { assert d[i - 1] == l1[i] && d[i - 1] == l2[i]; }
      else if i < 18 { assert d[i - 2] == l1[i] && d[i - 2] == l2[i]; }
      else if i < 23 { assert d[i - 3] == l1[i] && d[i - 3] == l2[i]; }
      else { assert d[i - 4] == l1[i] && d[i - 4] == l2[i]; }
    }
  }

  /** Two UUIDs that differ other than in letter case never share a temporary file name. */
  lemma TempFileNameInjective(u1: string, u2: string)
    requires IsCanonicalUuid(u1) && IsCanonicalUuid(u2)
    requires TempFileName(u1) == TempFileName(u2)
    ensures ToLowerCase(u1) == ToLowerCase(u2)
  {
    TempFileNameOfUuid(u1);
    TempFileNameOfUuid(u2);
    LowerCanonical(u1);
    LowerCanonical(u2);
    var d1, d2 := Digits(ToLowerCase(u1)), Digits(ToLowerCase(u2));
    assert d1 == (d1 + ".json")[..32] == (d2 + ".json")[..32] == d2;
    DigitsDetermine(ToLowerCase(u1), ToLowerCase(u2));
  }

  // ---------------------------------------------------------------------------
  // Move options
  // ---------------------------------------------------------------------------

  /** The `StandardCopyOption`s `writeModList` passes to `Files.move`. */
  datatype CopyOption = ReplaceExisting | AtomicMove

  /** Starts from a list holding `REPLACE_EXISTING` and appends `ATOMIC_MOVE`
      when the atomic-move setting is on. */
  method MoveOptions(atomicMove: bool) returns (options: seq<CopyOption>)
    ensures |options| > 0 && options[0] == ReplaceExisting
    ensures AtomicMove in options <==> atomicMove
    ensures |options| == if atomicMove then 2 else 1
    ensures forall i, j :: 0 <= i < j < |options| ==> options[i] != options[j]
  {
    options := [ReplaceExisting];
    if atomicMove {
      options := options + [AtomicMove];
    }
  }
}
