/**
  `gatherModList`: drop the mods whose id is hidden, turn each remaining mod
  into its exported record, and sort the records by display name ignoring case.
  The host's mod registry and the configured hidden ids are parameters.
 */
module Collector {
  import opened JavaStrings
  import opened Records
  import opened NameSort

  /** `filter(m -> !hiddenModIds.contains(m.getModId()))`, keeping the input order. */
  function Visible(mods: seq<HostMod>, hidden: set<string>): (r: seq<HostMod>)
    ensures forall m :: multiset(r)[m] == if m.modId in hidden then 0 else multiset(mods)[m]
    ensures forall m :: m in r <==> m in mods && m.modId !in hidden
  {
    if mods == [] then
      []
    else
      assert mods == [mods[0]] + mods[1..];
      (if mods[0].modId in hidden then [] else [mods[0]]) + Visible(mods[1..], hidden)
  }

  /** The filter of a single mod keeps it exactly when its id is not hidden. */
  lemma VisibleSingle(m: HostMod, hidden: set<string>)
    ensures Visible([m], hidden) == if m.modId in hidden then [] else [m]
  {
    var kept: seq<HostMod> := if m.modId in hidden then [] else [m];
    assert [m][1..] == [];
    assert Visible([], hidden) == [];
    assert Visible([m], hidden) == kept + Visible([], hidden);
    assert kept + [] == kept;
  }

  /** Filtering a non-empty list filters its head, then its tail. */
  lemma VisibleUnfold(s: seq<HostMod>, hidden: set<string>)
    requires s != []
    ensures Visible(s, hidden) == Visible([s[0]], hidden) + Visible(s[1..], hidden)
  {
    VisibleSingle(s[0], hidden);
  }

  lemma ConcatAssoc(x: seq<HostMod>, y: seq<HostMod>, z: seq<HostMod>)
    ensures x + (y + z) == (x + y) + z
  {
  }

  /** The filter works mod by mod: filtering a concatenation concatenates the
      filtered parts, so the kept mods stay in their input order. */
  lemma {:induction false} VisibleAppend(a: seq<HostMod>, b: seq<HostMod>, hidden: set<string>)
    ensures Visible(a + b, hidden) == Visible(a, hidden) + Visible(b, hidden)
    decreases |a|
  {
    if a == [] {
      assert a + b == b;
      assert [] + Visible(b, hidden) == Visible(b, hidden);
    } else {
      var ab := a + b;
      assert ab[0] == a[0] && ab[1..] == a[1..] + b;
      VisibleUnfold(ab, hidden);
      VisibleUnfold(a, hidden);
      VisibleAppend(a[1..], b, hidden);
      ConcatAssoc(Visible([a[0]], hidden), Visible(a[1..], hidden), Visible(b, hidden));
    }
  }

  lemma VisibleIdsIndexed(mods: seq<HostMod>, hidden: set<string>)
    ensures forall i :: 0 <= i < |Visible(mods, hidden)| ==> Visible(mods, hidden)[i].modId !in hidden
  {
    var v := Visible(mods, hidden);
    forall i | 0 <= i < |v| ensures v[i].modId !in hidden {
      assert v[i] in v;
    }
  }

  /** The records the sort receives: the visible mods, mapped, in input order. */
  function VisibleRecords(mods: seq<HostMod>, hidden: set<string>): (r: seq<ModInfo>)
    ensures |r| == |Visible(mods, hidden)|
    ensures forall i :: 0 <= i < |r| ==> r[i].id !in hidden
  {
    var v := Visible(mods, hidden);
    VisibleIdsIndexed(mods, hidden);
    ToModInfos(v)
  }

  lemma VisibleRecordsCover(mods: seq<HostMod>, hidden: set<string>)
    ensures forall m :: m in mods && m.modId !in hidden ==> ToModInfo(m) in VisibleRecords(mods, hidden)
  {
    var v := Visible(mods, hidden);
    forall m | m in mods && m.modId !in hidden ensures ToModInfo(m) in VisibleRecords(mods, hidden) {
      assert m in v;
      var i :| 0 <= i < |v| && v[i] == m;
      assert VisibleRecords(mods, hidden)[i] == ToModInfo(m);
    }
  }

  /** The collector: filter, map, then a stable sort by name ignoring case. */
  function GatherModList(mods: seq<HostMod>, hidden: set<string>): (r: JsonModList)
    ensures multiset(r.mods) == multiset(VisibleRecords(mods, hidden))
  {
    JsonModList(SortByName(VisibleRecords(mods, hidden)))
  }

  /** A permutation of the visible records carries no hidden id. */
  lemma PermutedRecordsIds(records: seq<ModInfo>, out: seq<ModInfo>, hidden: set<string>)
    requires forall j :: 0 <= j < |records| ==> records[j].id !in hidden
    requires multiset(out) == multiset(records)
    ensures forall i :: 0 <= i < |out| ==> out[i].id !in hidden
  {
    forall i | 0 <= i < |out| ensures out[i].id !in hidden {
      assert out[i] in multiset(records);
      var j :| 0 <= j < |records| && records[j] == out[i];
    }
  }

  /** No record of a hidden mod is exported, and every visible mod is. */
  lemma GatherModListFilters(mods: seq<HostMod>, hidden: set<string>)
    ensures forall i :: 0 <= i < |GatherModList(mods, hidden).mods| ==> GatherModList(mods, hidden).mods[i].id !in hidden
    ensures forall m :: m in mods && m.modId !in hidden ==> ToModInfo(m) in GatherModList(mods, hidden).mods
  {
    var records := VisibleRecords(mods, hidden);
    var sorted := GatherModList(mods, hidden).mods;
    PermutedRecordsIds(records, sorted, hidden);
    VisibleRecordsCover(mods, hidden);
    forall m | m in mods && m.modId !in hidden ensures ToModInfo(m) in sorted {
      assert ToModInfo(m) in multiset(sorted);
    }
  }

  /** The output is a permutation of the visible mods' records: one record per
      visible mod, none for an empty input. */
  lemma GatherModListPermutation(mods: seq<HostMod>, hidden: set<string>)
    ensures |GatherModList(mods, hidden).mods| == |Visible(mods, hidden)|
    ensures mods == [] ==> GatherModList(mods, hidden).mods == []
  {
    var sorted := GatherModList(mods, hidden).mods;
    assert |sorted| == |multiset(sorted)| == |VisibleRecords(mods, hidden)|;
  }

  /** The output is sorted by name ignoring case, and records with names equal
      ignoring case keep the order in which the host listed them. */
  lemma GatherModListOrdered(mods: seq<HostMod>, hidden: set<string>)
    ensures SortedByName(GatherModList(mods, hidden).mods)
    ensures StableWrt(GatherModList(mods, hidden).mods, VisibleRecords(mods, hidden))
  {
    SortByNameSorted(VisibleRecords(mods, hidden));
    SortByNameStable(VisibleRecords(mods, hidden));
  }

  /** Any arrangement of the visible records that is sorted by name and keeps
      equal names in input order is exactly what the collector produces. */
  lemma GatherModListUnique(mods: seq<HostMod>, hidden: set<string>, r: seq<ModInfo>)
    requires SortedByName(r) && StableWrt(r, VisibleRecords(mods, hidden))
    ensures r == GatherModList(mods, hidden).mods
  {
    var out := GatherModList(mods, hidden).mods;
    GatherModListOrdered(mods, hidden);
    SortedUnique(r, out);
  }

  /** With nothing hidden every mod is kept, in order. */
  lemma {:induction false} NothingHidden(mods: seq<HostMod>)
    ensures Visible(mods, {}) == mods
  {
    if mods != [] {
      NothingHidden(mods[1..]);
      assert mods == [mods[0]] + mods[1..];
    }
  }

  lemma TrimEmpty()
    ensures Trim("") == ""
  {
    assert StripLeading("") == "" && StripTrailing("") == "";
  }

  lemma PairFromElements(r: seq<ModInfo>, a: ModInfo, b: ModInfo)
    requires |r| == 2 && r[0] == a && r[1] == b
    ensures r == [a, b]
  {
  }

  lemma ToModInfosPair(x: HostMod, y: HostMod)
    ensures ToModInfos([x, y]) == [ToModInfo(x), ToModInfo(y)]
  {
    var ms := [x, y];
    assert ms[0] == x && ms[1] == y;
    var r := ToModInfos(ms);
    PairFromElements(r, ToModInfo(x), ToModInfo(y));
  }

  lemma ExampleMapped()
    ensures ToModInfos([HostMod("b", "Beta", "1", ""), HostMod("a", "alpha", "1", "")])
         == [ModInfo("b", "Beta", "1", ""), ModInfo("a", "alpha", "1", "")]
  {
    TrimEmpty();
    ToModInfosPair(HostMod("b", "Beta", "1", ""), HostMod("a", "alpha", "1", ""));
  }

  lemma ExampleSort()
    ensures SortByName([ModInfo("b", "Beta", "1", ""), ModInfo("a", "alpha", "1", "")])
         == [ModInfo("a", "alpha", "1", ""), ModInfo("b", "Beta", "1", "")]
  {
    var betaR, alphaR := ModInfo("b", "Beta", "1", ""), ModInfo("a", "alpha", "1", "");
    assert [betaR, alphaR][1..] == [alphaR];
    assert "alpha"[0] == 'a' && "Beta"[0] == 'B';
    assert FoldCase('a') == 'a' && FoldCase('B') == 'b';
    assert Insert(betaR, [alphaR]) == [alphaR] + Insert(betaR, []);
  }

  /** Two mods, nothing hidden: "alpha" sorts before "Beta" although 'B' < 'a'. */
  lemma CaseInsensitiveExample()
    ensures GatherModList([HostMod("b", "Beta", "1", ""), HostMod("a", "alpha", "1", "")], {}).mods
         == [ModInfo("a", "alpha", "1", ""), ModInfo("b", "Beta", "1", "")]
  {
    var mods := [HostMod("b", "Beta", "1", ""), HostMod("a", "alpha", "1", "")];
    NothingHidden(mods);
    ExampleMapped();
    ExampleSort();
  }
}
