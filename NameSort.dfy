/**
  The `sorted(Comparator.comparing(ModInfo::name, String::compareToIgnoreCase))`
  stage of the collector. The stream sorts stably, so the model is a stable
  insertion sort; `SortedUnique` shows that every stable sort by this key gives
  the same result, so the choice of algorithm does not matter.
 */
module NameSort {
  import opened JavaStrings
  import opened Records

  /** The comparator: `a` may come before `b`. */
  predicate NameLe(a: ModInfo, b: ModInfo) {
    CompareIgnoreCase(a.name, b.name) <= 0
  }

  ghost predicate SortedByName(s: seq<ModInfo>) {
    forall i, j :: 0 <= i < j < |s| ==> NameLe(s[i], s[j])
  }

  /** The records of `s` whose name, ignoring case, is `key`, in their order in `s`. */
  function SameName(s: seq<ModInfo>, key: string): (r: seq<ModInfo>)
    ensures |r| <= |s|
    ensures forall x :: x in r ==> x in s && FoldString(x.name) == key
    ensures forall x :: x in s && FoldString(x.name) == key ==> x in r
  {
    if s == [] then
      []
    else
      Own(s[0], key) + SameName(s[1..], key)
  }

  /** `r` keeps the relative order of the records of `s` that compare equal. */
  ghost predicate StableWrt(r: seq<ModInfo>, s: seq<ModInfo>) {
    forall key :: SameName(r, key) == SameName(s, key)
  }

  /** Places `x` in front of the first record that does not sort strictly before it. */
  function Insert(x: ModInfo, s: seq<ModInfo>): (r: seq<ModInfo>)
    ensures multiset(r) == multiset(s) + multiset{x}
  {
    if s == [] then
      [x]
    else if CompareIgnoreCase(s[0].name, x.name) < 0 then
      assert s == [s[0]] + s[1..];
      [s[0]] + Insert(x, s[1..])
    else
      [x] + s
  }

  /** Stable insertion sort by name, ignoring case. */
  function SortByName(s: seq<ModInfo>): (r: seq<ModInfo>)
    ensures multiset(r) == multiset(s)
  {
    if s == [] then
      []
    else
      assert s == [s[0]] + s[1..];
      Insert(s[0], SortByName(s[1..]))
  }

  lemma SameNameCons(a: ModInfo, t: seq<ModInfo>, key: string)
    ensures SameName([a] + t, key) == Own(a, key) + SameName(t, key)
  {
    assert ([a] + t)[1..] == t;
  }

  /** Inserting adds only `x`. */
  lemma InsertMembers(x: ModInfo, s: seq<ModInfo>)
    ensures forall y :: y in Insert(x, s) ==> y == x || y in s
  {
    forall y | y in Insert(x, s) ensures y == x || y in s {
      assert y in multiset(Insert(x, s));
    }
  }

  /** A record that sorts no later than every record of `s` sorts no later than every record of `Insert(x, s)`. */
  lemma LeAllInsert(h: ModInfo, x: ModInfo, s: seq<ModInfo>)
    requires NameLe(h, x)
    requires forall j :: 0 <= j < |s| ==> NameLe(h, s[j])
    ensures forall j :: 0 <= j < |Insert(x, s)| ==> NameLe(h, Insert(x, s)[j])
  {
    var t := Insert(x, s);
    InsertMembers(x, s);
    forall j | 0 <= j < |t| ensures NameLe(h, t[j]) {
      assert t[j] in t;
      if t[j] != x {
        var i :| 0 <= i < |s| && s[i] == t[j];
      }
    }
  }

  lemma {:induction false} InsertSorted(x: ModInfo, s: seq<ModInfo>)
    requires SortedByName(s)
    ensures SortedByName(Insert(x, s))
    decreases |s|
  {
    if s != [] {
      if CompareIgnoreCase(s[0].name, x.name) < 0 {
        var t := Insert(x, s[1..]);
        InsertSorted(x, s[1..]);
        assert forall j :: 0 <= j < |s[1..]| ==> NameLe(s[0], s[1..][j]) by {
          forall j | 0 <= j < |s[1..]| ensures NameLe(s[0], s[1..][j]) {
            assert s[1..][j] == s[j + 1];
          }
        }
        LeAllInsert(s[0], x, s[1..]);
        assert Insert(x, s) == [s[0]] + t;
      } else {
        CompareAntisymmetric(s[0].name, x.name);
        forall j | 0 <= j < |s| ensures NameLe(x, s[j]) {
          if j > 0 {
            CompareTransitive(x.name, s[0].name, s[j].name);
          }
        }
      }
    }
  }

  lemma {:induction false} SortByNameSorted(s: seq<ModInfo>)
    ensures SortedByName(SortByName(s))
    decreases |s|
  {
    if s != [] {
      SortByNameSorted(s[1..]);
      InsertSorted(s[0], SortByName(s[1..]));
    }
  }

  /** The part of `SameName` a single record contributes. */
  function Own(a: ModInfo, key: string): seq<ModInfo> {
    if FoldString(a.name) == key then [a] else []
  }

  lemma SwapOwn(a: ModInfo, b: ModInfo, t: seq<ModInfo>, key: string)
    requires FoldString(a.name) != FoldString(b.name)
    ensures Own(a, key) + (Own(b, key) + t) == Own(b, key) + (Own(a, key) + t)
  {
    if FoldString(a.name) == key {
      assert Own(b, key) == [];
    } else {
      assert Own(a, key) == [];
    }
  }

  lemma {:induction false} InsertSameName(x: ModInfo, s: seq<ModInfo>, key: string)
    ensures SameName(Insert(x, s), key) == Own(x, key) + SameName(s, key)
    decreases |s|
  {
    if s == [] {
      SameNameCons(x, [], key);
    } else if CompareIgnoreCase(s[0].name, x.name) < 0 {
      var t := Insert(x, s[1..]);
      assert Insert(x, s) == [s[0]] + t;
      SameNameCons(s[0], t, key);
      InsertSameName(x, s[1..], key);
      CompareZeroIffSameFold(s[0].name, x.name);
      SwapOwn(s[0], x, SameName(s[1..], key), key);
      assert s == [s[0]] + s[1..];
      SameNameCons(s[0], s[1..], key);
    } else {
      SameNameCons(x, s, key);
    }
  }

  /** Records whose names are equal ignoring case keep their input order. */
  lemma {:induction false} SortByNameStable(s: seq<ModInfo>)
    ensures StableWrt(SortByName(s), s)
    decreases |s|
  {
    if s != [] {
      SortByNameStable(s[1..]);
      forall key ensures SameName(SortByName(s), key) == SameName(s, key) {
        InsertSameName(s[0], SortByName(s[1..]), key);
        SameNameCons(s[0], s[1..], key);
        assert s == [s[0]] + s[1..];
      }
    }
  }

  lemma SortedHeadLeast(s: seq<ModInfo>, x: ModInfo)
    requires SortedByName(s) && x in s
    ensures NameLe(s[0], x)
  {
    var j :| 0 <= j < |s| && s[j] == x;
    if j == 0 {
      CompareReflexive(x.name);
    }
  }

  /** The name key of the first record: its folded name, or the empty key when `s` is empty. */
  function KeyOf(s: seq<ModInfo>): string {
    if s == [] then [] else FoldString(s[0].name)
  }

  /** The head of a list opens its own name group. */
  lemma HeadOpensGroup(s: seq<ModInfo>)
    ensures s != [] ==> SameName(s, KeyOf(s)) != [] && SameName(s, KeyOf(s))[0] == s[0]
  {
    if s != [] {
      assert Own(s[0], KeyOf(s)) == [s[0]];
    }
  }

  /** A record in `t`'s name group for `key` is a record of `t` with that key. */
  lemma InGroup(t: seq<ModInfo>, key: string, x: ModInfo)
    requires x in SameName(t, key)
    ensures x in t && FoldString(x.name) == key
  {
  }

  lemma SortedHeadsAgree(r1: seq<ModInfo>, r2: seq<ModInfo>)
    requires r1 != [] && r2 != []
    requires SortedByName(r1) && SortedByName(r2)
    requires forall key :: SameName(r1, key) == SameName(r2, key)
    ensures r1[0] == r2[0]
  {
    var k1, k2 := KeyOf(r1), KeyOf(r2);
    var g1, g2 := SameName(r1, k1), SameName(r2, k2);
    HeadOpensGroup(r1);
    HeadOpensGroup(r2);
    assert g1 == SameName(r2, k1);
    assert g2 == SameName(r1, k2);
    assert g1[0] in SameName(r2, k1);
    InGroup(r2, k1, r1[0]);
    assert g2[0] in SameName(r1, k2);
    InGroup(r1, k2, r2[0]);
    SortedHeadLeast(r1, r2[0]);
    SortedHeadLeast(r2, r1[0]);
    CompareAntisymmetric(r1[0].name, r2[0].name);
    CompareZeroIffSameFold(r1[0].name, r2[0].name);
    assert k1 == k2;
  }

  lemma CancelFront(p: seq<ModInfo>, x: seq<ModInfo>, y: seq<ModInfo>)
    requires p + x == p + y
    ensures x == y
  {
    assert x == (p + x)[|p|..];
    assert y == (p + y)[|p|..];
  }

  lemma SameNameTail(r1: seq<ModInfo>, r2: seq<ModInfo>, key: string)
    requires r1 != [] && r2 != [] && r1[0] == r2[0]
    requires SameName(r1, key) == SameName(r2, key)
    ensures SameName(r1[1..], key) == SameName(r2[1..], key)
  {
    assert SameName(r1, key) == Own(r1[0], key) + SameName(r1[1..], key);
    assert SameName(r2, key) == Own(r2[0], key) + SameName(r2[1..], key);
    CancelFront(Own(r1[0], key), SameName(r1[1..], key), SameName(r2[1..], key));
  }

  lemma SameNameTails(r1: seq<ModInfo>, r2: seq<ModInfo>)
    requires r1 != [] && r2 != [] && r1[0] == r2[0]
    requires forall key :: SameName(r1, key) == SameName(r2, key)
    ensures forall key :: SameName(r1[1..], key) == SameName(r2[1..], key)
  {
    forall key ensures SameName(r1[1..], key) == SameName(r2[1..], key) {
      SameNameTail(r1, r2, key);
    }
  }

  lemma SortedTail(s: seq<ModInfo>)
    requires s != [] && SortedByName(s)
    ensures SortedByName(s[1..])
  {
    forall i, j | 0 <= i < j < |s| - 1 ensures NameLe(s[1..][i], s[1..][j]) {
      assert s[1..][i] == s[i + 1] && s[1..][j] == s[j + 1];
    }
  }

  /** Sorting by name, ignoring case, and keeping equal names in order determines
      the result: two sorted lists that agree on every name group are equal. */
  lemma {:induction false} SortedUnique(r1: seq<ModInfo>, r2: seq<ModInfo>)
    requires SortedByName(r1) && SortedByName(r2)
    requires forall key :: SameName(r1, key) == SameName(r2, key)
    ensures r1 == r2
    decreases |r1|
  {
    HeadOpensGroup(r1);
    HeadOpensGroup(r2);
    if r1 != [] && r2 != [] {
      SortedHeadsAgree(r1, r2);
      SameNameTails(r1, r2);
      SortedTail(r1);
      SortedTail(r2);
      SortedUnique(r1[1..], r2[1..]);
      assert r1 == [r1[0]] + r1[1..];
      assert r2 == [r2[0]] + r2[1..];
    }
  }
}
