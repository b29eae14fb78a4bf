/**
 * From the aggregated table to the top languages: the grand total, hours and
 * percent per language, the stable descending sort by hours and the cut to
 * the first five (the `reduce`/`map`/`sort`/`slice` chain of `fetchLangs`).
 * Hours and percent are exact reals standing in for JavaScript numbers.
 */
module LangStats {
  import opened Wrappers
  import opened Aggregation

  /** One language of the result: `{name, hours, percent}`. */
  datatype LangStat = LangStat(name: string, hours: real, percent: real)

  const MaxLanguages: nat := 5
  const SecondsPerHour: nat := 3600

  /** `Object.values(langMap).reduce((a, b) => a + b, 0) || 1` */
  function GrandTotal(t: seq<LangTotal>): (g: nat)
    ensures g >= 1
    ensures TableSum(t) > 0 ==> g == TableSum(t)
  {
    if TableSum(t) == 0 then 1 else TableSum(t)
  }

  function ToStat(e: LangTotal, total: nat): LangStat
    requires total >= 1
  {
    LangStat(e.name, e.seconds as real / SecondsPerHour as real, (e.seconds as real / total as real) * 100.0)
  }

  /** The `.map(...)` over `Object.entries(langMap)`. */
  function ToStats(t: seq<LangTotal>, total: nat): (r: seq<LangStat>)
    requires total >= 1
    ensures |r| == |t|
  {
    if t == [] then [] else ToStats(t[..|t| - 1], total) + [ToStat(t[|t| - 1], total)]
  }

  function SumPercent(s: seq<LangStat>): real {
    if s == [] then 0.0 else SumPercent(s[..|s| - 1]) + s[|s| - 1].percent
  }

  lemma {:induction false} ToStatsAt(t: seq<LangTotal>, total: nat)
    requires total >= 1
    ensures |ToStats(t, total)| == |t|
    ensures forall i :: 0 <= i < |t| ==> ToStats(t, total)[i] == ToStat(t[i], total)
  {
    if t != [] {
      ToStatsAt(t[..|t| - 1], total);
    }
  }

  lemma {:induction false} PercentSum(t: seq<LangTotal>, total: nat)
    requires total >= 1
    ensures SumPercent(ToStats(t, total)) == (TableSum(t) as real / total as real) * 100.0
  {
    if t != [] {
      var p := t[..|t| - 1];
      PercentSum(p, total);
      var s := ToStats(t, total);
      assert s[..|s| - 1] == ToStats(p, total);
      DivAdd(TableSum(p) as real, t[|t| - 1].seconds as real, total as real);
    }
  }

  lemma DivAdd(a: real, b: real, g: real)
    requires g > 0.0
    ensures a / g + b / g == (a + b) / g
  {
    var qa, qb := a / g, b / g;
    assert qa * g == a && qb * g == b;
    assert (qa + qb) * g == a + b;
  }

  lemma DivBounds(x: real, g: real)
    requires 0.0 <= x && 1.0 <= g
    requires x <= g
    ensures 0.0 <= x / g <= 1.0
  {
    var q := x / g;
    assert q * g == x;
  }

  /** With some time recorded, the percents over the whole (uncut) table add up to 100. */
  lemma PercentsSumTo100(t: seq<LangTotal>)
    requires TableSum(t) > 0
    ensures SumPercent(ToStats(t, GrandTotal(t))) == 100.0
  {
    PercentSum(t, GrandTotal(t));
    DivSelf(TableSum(t) as real);
  }

  lemma DivSelf(x: real)
    requires x > 0.0
    ensures x / x == 1.0
  {
  }

  lemma {:induction false} EntryBelowSum(t: seq<LangTotal>, i: nat)
    requires i < |t|
    ensures t[i].seconds <= TableSum(t)
  {
    if i < |t| - 1 {
      EntryBelowSum(t[..|t| - 1], i);
    }
  }

  /** Every language's percent lies in [0, 100], and its hours are its seconds over 3600. */
  lemma StatBounds(t: seq<LangTotal>, i: nat)
    requires i < |t|
    ensures |ToStats(t, GrandTotal(t))| == |t|
    ensures ToStats(t, GrandTotal(t))[i].name == t[i].name
    ensures ToStats(t, GrandTotal(t))[i].hours == t[i].seconds as real / 3600.0
    ensures 0.0 <= ToStats(t, GrandTotal(t))[i].percent <= 100.0
    ensures t[i].seconds == 0 ==> ToStats(t, GrandTotal(t))[i].hours == 0.0 && ToStats(t, GrandTotal(t))[i].percent == 0.0
  {
    var g := GrandTotal(t);
    ToStatsAt(t, g);
    EntryBelowSum(t, i);
    DivBounds(t[i].seconds as real, g as real);
  }

  // ---- the stable descending sort by hours ----

  predicate SortedByHours(s: seq<LangStat>) {
    forall i, j :: 0 <= i < j < |s| ==> s[i].hours >= s[j].hours
  }

  /** Puts `x` after every element whose hours are at least its own; this keeps ties in order. */
  function InsertByHours(s: seq<LangStat>, x: LangStat): (r: seq<LangStat>)
    ensures |r| == |s| + 1
  {
    if s == [] || s[|s| - 1].hours >= x.hours then s + [x]
    else InsertByHours(s[..|s| - 1], x) + [s[|s| - 1]]
  }

  /** `.sort((a, b) => b.hours - a.hours)`, a stable sort, as insertion sort. */
  function SortByHours(s: seq<LangStat>): (r: seq<LangStat>)
    ensures |r| == |s|
  {
    if s == [] then [] else InsertByHours(SortByHours(s[..|s| - 1]), s[|s| - 1])
  }

  /** The subsequence of `s` whose hours equal `h`. */
  function WithHours(s: seq<LangStat>, h: real): seq<LangStat> {
    if s == [] then []
    else WithHours(s[..|s| - 1], h) + (if s[|s| - 1].hours == h then [s[|s| - 1]] else [])
  }

  lemma {:induction false} InsertLowerBound(s: seq<LangStat>, x: LangStat, lo: real)
    requires forall i :: 0 <= i < |s| ==> s[i].hours >= lo
    requires x.hours >= lo
    ensures |InsertByHours(s, x)| == |s| + 1
    ensures forall i :: 0 <= i < |InsertByHours(s, x)| ==> InsertByHours(s, x)[i].hours >= lo
  {
    if !(s == [] || s[|s| - 1].hours >= x.hours) {
      InsertLowerBound(s[..|s| - 1], x, lo);
    }
  }

  lemma {:induction false} InsertSorted(s: seq<LangStat>, x: LangStat)
    requires SortedByHours(s)
    ensures |InsertByHours(s, x)| == |s| + 1
    ensures SortedByHours(InsertByHours(s, x))
    ensures multiset(InsertByHours(s, x)) == multiset(s) + multiset{x}
  {
    if s == [] || s[|s| - 1].hours >= x.hours {
    } else {
      var p, last := s[..|s| - 1], s[|s| - 1];
      SortedPrefix(s);
      InsertSorted(p, x);
      InsertLowerBound(p, x, last.hours);
      MultisetLast(s);
    }
  }

  lemma WithHoursSingle(x: LangStat, h: real)
    ensures WithHours([x], h) == if x.hours == h then [x] else []
  {
    assert [x][..0] == [];
  }

  lemma WithHoursSnoc(s: seq<LangStat>, e: LangStat, h: real)
    ensures WithHours(s + [e], h) == WithHours(s, h) + (if e.hours == h then [e] else [])
  {
    assert (s + [e])[..|s|] == s;
  }

  /** Inserting `x` appends it to the entries of equal hours: it goes after its ties. */
  lemma {:induction false} InsertWithHours(s: seq<LangStat>, x: LangStat, h: real)
    ensures WithHours(InsertByHours(s, x), h) == WithHours(s, h) + WithHours([x], h)
  {
    WithHoursSingle(x, h);
    if s == [] || s[|s| - 1].hours >= x.hours {
      assert InsertByHours(s, x) == s + [x];
      WithHoursSnoc(s, x, h);
    } else {
      InsertWithHours(s[..|s| - 1], x, h);
      InsertPastStep(s, x, h);
    }
  }

  /** Moving `x` in front of a smaller last element leaves that element's hours class in place. */
  lemma InsertPastStep(s: seq<LangStat>, x: LangStat, h: real)
    requires s != [] && s[|s| - 1].hours < x.hours
    requires WithHours(InsertByHours(s[..|s| - 1], x), h) == WithHours(s[..|s| - 1], h) + WithHours([x], h)
    ensures WithHours(InsertByHours(s, x), h) == WithHours(s, h) + WithHours([x], h)
  {
    var p, last := s[..|s| - 1], s[|s| - 1];
    var q, wx := InsertByHours(p, x), WithHours([x], h);
    var wl := if last.hours == h then [last] else [];
    WithHoursSingle(x, h);
    assert InsertByHours(s, x) == q + [last];
    WithHoursSnoc(q, last, h);
    assert WithHours(s, h) == WithHours(p, h) + wl;
    assert wl == [] || wx == [];
    AppendSwap(WithHours(p, h), wx, wl);
  }

  /** Two appends commute when one of them adds nothing. */
  lemma AppendSwap(a: seq<LangStat>, b: seq<LangStat>, c: seq<LangStat>)
    requires b == [] || c == []
    ensures (a + b) + c == (a + c) + b
  {
    if b == [] {
      assert a + b == a && (a + c) + b == a + c;
    } else {
      assert a + c == a && (a + b) + c == a + b;
    }
  }

  /** The sort returns a non-increasing permutation of its input. */
  lemma {:induction false} SortSpec(s: seq<LangStat>)
    ensures |SortByHours(s)| == |s|
    ensures SortedByHours(SortByHours(s))
    ensures multiset(SortByHours(s)) == multiset(s)
  {
    if s != [] {
      var p, last := s[..|s| - 1], s[|s| - 1];
      SortSpec(p);
      InsertSorted(SortByHours(p), last);
      MultisetLast(s);
    }
  }

  lemma MultisetLast(s: seq<LangStat>)
    requires s != []
    ensures multiset(s) == multiset(s[..|s| - 1]) + multiset{s[|s| - 1]}
  {
    assert s == s[..|s| - 1] + [s[|s| - 1]];
  }

  /** Stability: for every hours value, the entries with that value keep their input order. */
  lemma {:induction false} SortStable(s: seq<LangStat>, h: real)
    ensures WithHours(SortByHours(s), h) == WithHours(s, h)
  {
    if s != [] {
      var p := s[..|s| - 1];
      SortStable(p, h);
      SortSpec(p);
      InsertWithHours(SortByHours(p), s[|s| - 1], h);
      assert [s[|s| - 1]][..0] == [];
    }
  }

  // ---- the top five ----

  /** The result of `fetchLangs` for an aggregated table. */
  function TopLanguages(t: seq<LangTotal>): (r: seq<LangStat>)
    ensures |r| == Min(MaxLanguages, |t|)
  {
    var sorted := SortByHours(ToStats(t, GrandTotal(t)));
    if |sorted| <= MaxLanguages then sorted else sorted[..MaxLanguages]
  }

  lemma TopLanguagesSpec(t: seq<LangTotal>)
    ensures |TopLanguages(t)| == Min(MaxLanguages, |t|)
    ensures SortedByHours(TopLanguages(t))
    ensures TopLanguages(t) == SortByHours(ToStats(t, GrandTotal(t)))[..|TopLanguages(t)|]
    ensures forall i :: 0 <= i < |TopLanguages(t)| ==>
              exists j :: 0 <= j < |t| && TopLanguages(t)[i] == ToStat(t[j], GrandTotal(t))
  {
    var sorted := SortByHours(ToStats(t, GrandTotal(t)));
    var r := TopLanguages(t);
    assert SortedByHours(sorted) by {
      SortSpec(ToStats(t, GrandTotal(t)));
    }
    assert r == sorted[..|r|];
    SortedTake(sorted, |r|);
    TopFromTable(t);
  }

  /** Every ranked stat is the stat of some table entry. */
  lemma TopFromTable(t: seq<LangTotal>)
    ensures forall i :: 0 <= i < |TopLanguages(t)| ==>
              exists j :: 0 <= j < |t| && TopLanguages(t)[i] == ToStat(t[j], GrandTotal(t))
  {
    var stats := ToStats(t, GrandTotal(t));
    ToStatsAt(t, GrandTotal(t));
    SortSpec(stats);
    var sorted := SortByHours(stats);
    var r := TopLanguages(t);
    forall i | 0 <= i < |r|
      ensures exists j :: 0 <= j < |t| && r[i] == ToStat(t[j], GrandTotal(t))
    {
      assert r[i] == sorted[i];
      assert sorted[i] in multiset(stats);
      var j :| 0 <= j < |stats| && stats[j] == sorted[i];
    }
  }

  /** No two stats share a name. */
  predicate DistinctNames(s: seq<LangStat>) {
    forall i, j :: 0 <= i < j < |s| ==> s[i].name != s[j].name
  }

  lemma {:induction false} InsertMembers(s: seq<LangStat>, x: LangStat, y: LangStat)
    ensures y in InsertByHours(s, x) <==> y in s || y == x
  {
    if !(s == [] || s[|s| - 1].hours >= x.hours) {
      InsertMembers(s[..|s| - 1], x, y);
      assert s == s[..|s| - 1] + [s[|s| - 1]];
    }
  }

  /** Inserting a stat whose name is new keeps the names distinct. */
  lemma {:induction false} InsertDistinct(s: seq<LangStat>, x: LangStat)
    requires DistinctNames(s)
    requires forall i :: 0 <= i < |s| ==> s[i].name != x.name
    ensures DistinctNames(InsertByHours(s, x))
  {
    if !(s == [] || s[|s| - 1].hours >= x.hours) {
      var p, last := s[..|s| - 1], s[|s| - 1];
      InsertDistinct(p, x);
      var q := InsertByHours(p, x);
      forall i | 0 <= i < |q| ensures q[i].name != last.name {
        InsertMembers(p, x, q[i]);
        if q[i] != x {
          var k :| 0 <= k < |p| && p[k] == q[i];
          assert s[k] == p[k];
        }
      }
      assert InsertByHours(s, x) == q + [last];
    }
  }

  /** Sorting keeps the names distinct. */
  lemma {:induction false} SortDistinct(s: seq<LangStat>)
    requires DistinctNames(s)
    ensures DistinctNames(SortByHours(s))
  {
    if s != [] {
      var p, last := s[..|s| - 1], s[|s| - 1];
      SortDistinct(p);
      SortSpec(p);
      var q := SortByHours(p);
      forall i | 0 <= i < |q| ensures q[i].name != last.name {
        assert q[i] in multiset(p);
        var k :| 0 <= k < |p| && p[k] == q[i];
        assert s[k] == p[k];
      }
      InsertDistinct(q, last);
    }
  }

  /** A table with distinct names gives top languages with distinct names. */
  lemma TopLanguagesDistinct(t: seq<LangTotal>)
    requires NoDuplicates(TableNames(t))
    ensures DistinctNames(TopLanguages(t))
  {
    var stats := ToStats(t, GrandTotal(t));
    ToStatsAt(t, GrandTotal(t));
    TableNamesAt(t);
    assert DistinctNames(stats) by {
      forall i, j | 0 <= i < j < |stats| ensures stats[i].name != stats[j].name {
        assert TableNames(t)[i] != TableNames(t)[j];
      }
    }
    SortDistinct(stats);
  }

  /**
   * The kept stats are the ones with the most hours: a table entry whose stat
   * was cut has no more hours than any kept stat.
   */
  lemma TopLanguagesMost(t: seq<LangTotal>)
    ensures forall j :: 0 <= j < |t| ==>
              ToStat(t[j], GrandTotal(t)) in TopLanguages(t) ||
              forall i :: 0 <= i < |TopLanguages(t)| ==> TopLanguages(t)[i].hours >= ToStat(t[j], GrandTotal(t)).hours
  {
    forall j | 0 <= j < |t|
      ensures ToStat(t[j], GrandTotal(t)) in TopLanguages(t) ||
              forall i :: 0 <= i < |TopLanguages(t)| ==> TopLanguages(t)[i].hours >= ToStat(t[j], GrandTotal(t)).hours
    {
      var stats := ToStats(t, GrandTotal(t));
      ToStatsAt(t, GrandTotal(t));
      assert stats[j] == ToStat(t[j], GrandTotal(t));
      SortSpec(stats);
      assert stats[j] in multiset(SortByHours(stats));
      TopLanguagesSpec(t);
      PrefixMost(SortByHours(stats), TopLanguages(t), stats[j]);
    }
  }

  /** In a non-increasing sequence, an element outside a prefix has at most the hours of the prefix. */
  lemma PrefixMost(sorted: seq<LangStat>, top: seq<LangStat>, x: LangStat)
    requires SortedByHours(sorted) && |top| <= |sorted| && top == sorted[..|top|]
    requires x in sorted
    ensures x in top || forall i :: 0 <= i < |top| ==> top[i].hours >= x.hours
  {
    var k :| 0 <= k < |sorted| && sorted[k] == x;
    if k < |top| {
      assert top[k] == x;
    }
  }

  /**
   * Any non-increasing arrangement that keeps, for every hours value, the
   * entries with that value in input order IS the result of SortByHours: the
   * model does not depend on which stable sorting algorithm the engine uses.
   */
  lemma StableSortUnique(s: seq<LangStat>, r: seq<LangStat>)
    requires SortedByHours(r)
    requires forall h :: WithHours(r, h) == WithHours(s, h)
    ensures r == SortByHours(s)
  {
    SortSpec(s);
    forall h ensures WithHours(r, h) == WithHours(SortByHours(s), h) {
      SortStable(s, h);
    }
    SortedUnique(r, SortByHours(s));
  }

  lemma {:induction false} WithHoursMember(s: seq<LangStat>, h: real, x: LangStat)
    requires x in WithHours(s, h)
    ensures x in s && x.hours == h
  {
    if s != [] {
      var p := s[..|s| - 1];
      if x in WithHours(p, h) {
        WithHoursMember(p, h, x);
        assert p == s[..|s| - 1];
      }
    }
  }

  lemma EmptyMatch(a: seq<LangStat>, b: seq<LangStat>)
    requires forall h :: WithHours(a, h) == WithHours(b, h)
    requires a == []
    ensures b == []
  {
    assert b != [] ==> b[|b| - 1] in WithHours(b, b[|b| - 1].hours);
  }

  /** Two sorted sequences with the same entries per hours value end in the same hours. */
  lemma SameLastHours(a: seq<LangStat>, b: seq<LangStat>)
    requires SortedByHours(a) && SortedByHours(b) && a != [] && b != []
    requires forall h :: WithHours(a, h) == WithHours(b, h)
    ensures a[|a| - 1].hours == b[|b| - 1].hours
  {
    var la, lb := a[|a| - 1], b[|b| - 1];
    LastInWithHours(a);
    LastInWithHours(b);
    assert la in WithHours(b, la.hours);
    assert lb in WithHours(a, lb.hours);
    WithHoursMember(b, la.hours, la);
    WithHoursMember(a, lb.hours, lb);
    LastIsLeast(b, la);
    LastIsLeast(a, lb);
  }

  lemma LastInWithHours(s: seq<LangStat>)
    requires s != []
    ensures s[|s| - 1] in WithHours(s, s[|s| - 1].hours)
  {
  }

  lemma LastIsLeast(s: seq<LangStat>, x: LangStat)
    requires SortedByHours(s) && x in s
    ensures x.hours >= s[|s| - 1].hours
  {
    var j :| 0 <= j < |s| && s[j] == x;
  }

  lemma {:induction false} SortedUnique(a: seq<LangStat>, b: seq<LangStat>)
    requires SortedByHours(a) && SortedByHours(b)
    requires forall h :: WithHours(a, h) == WithHours(b, h)
    ensures a == b
    decreases |a| + |b|
  {
    if a == [] {
      EmptyMatch(a, b);
    } else if b == [] {
      EmptyMatch(b, a);
    } else {
      var a', b' := a[..|a| - 1], b[..|b| - 1];
      SameLastHours(a, b);
      SameLast(a, b, WithHours(a, a[|a| - 1].hours));
      DropLast(a, b, a', b');
      SortedPrefix(a);
      SortedPrefix(b);
      SortedUnique(a', b');
      assert a == a' + [a[|a| - 1]];
      assert b == b' + [b[|b| - 1]];
    }
  }

  /** Two sequences ending in the same hours, with the same entries of those hours, end in the same element. */
  lemma SameLast(a: seq<LangStat>, b: seq<LangStat>, w: seq<LangStat>)
    requires a != [] && b != [] && a[|a| - 1].hours == b[|b| - 1].hours
    requires w == WithHours(a, a[|a| - 1].hours) == WithHours(b, a[|a| - 1].hours)
    ensures a[|a| - 1] == b[|b| - 1]
  {
    WithHoursLast(a);
    WithHoursLast(b);
  }

  lemma WithHoursLast(s: seq<LangStat>)
    requires s != []
    ensures WithHours(s, s[|s| - 1].hours) == WithHours(s[..|s| - 1], s[|s| - 1].hours) + [s[|s| - 1]]
  {
  }

  /** Removing the same last element keeps the entries per hours value equal. */
  lemma DropLast(a: seq<LangStat>, b: seq<LangStat>, a': seq<LangStat>, b': seq<LangStat>)
    requires a != [] && b != [] && a[|a| - 1] == b[|b| - 1]
    requires a' == a[..|a| - 1] && b' == b[..|b| - 1]
    requires forall h :: WithHours(a, h) == WithHours(b, h)
    ensures forall h :: WithHours(a', h) == WithHours(b', h)
  {
    var l := a[|a| - 1];
    forall h ensures WithHours(a', h) == WithHours(b', h) {
      assert a == a' + [l] && b == b' + [l];
      WithHoursSnoc(a', l, h);
      WithHoursSnoc(b', l, h);
      var wa := WithHours(a, h);
      if l.hours == h {
        assert WithHours(a', h) == wa[..|wa| - 1] == WithHours(b', h);
      } else {
        assert WithHours(a', h) == WithHours(a', h) + [];
        assert WithHours(b', h) == WithHours(b', h) + [];
      }
    }
  }

  lemma SortedPrefix(s: seq<LangStat>)
    requires SortedByHours(s) && s != []
    ensures SortedByHours(s[..|s| - 1])
  {
  }

  lemma SortedTake(s: seq<LangStat>, n: nat)
    requires SortedByHours(s) && n <= |s|
    ensures SortedByHours(s[..n])
  {
  }

  // ---- fetchLangs after the response is parsed ----

  /**
   * `fetchLangs` from the parsed `summaries` on: aggregate, then rank. The
   * result has one entry per distinct name up to five, sorted by
   * non-increasing hours, each with its exact total and share of the total.
   */
  method FetchLangs(summaries: seq<DaySummary>) returns (langs: seq<LangStat>)
    ensures |langs| == Min(MaxLanguages, |Distinct(EntryNames(AllEntries(summaries)))|)
    ensures |langs| == 0 <==> AllEntries(summaries) == []
    ensures SortedByHours(langs)
    ensures forall i :: 0 <= i < |langs| ==> langs[i].name in EntryNames(AllEntries(summaries))
    ensures forall i :: 0 <= i < |langs| ==>
              langs[i].hours == TotalFor(AllEntries(summaries), langs[i].name) as real / 3600.0
    ensures forall i :: 0 <= i < |langs| ==> 0.0 <= langs[i].percent <= 100.0
    ensures SumEntries(AllEntries(summaries)) > 0 ==> forall i :: 0 <= i < |langs| ==>
              langs[i].percent
                == (TotalFor(AllEntries(summaries), langs[i].name) as real
                    / SumEntries(AllEntries(summaries)) as real) * 100.0
    ensures forall i, j :: 0 <= i < j < |langs| ==> langs[i].name != langs[j].name
    ensures forall n :: n in EntryNames(AllEntries(summaries)) && (forall i :: 0 <= i < |langs| ==> langs[i].name != n) ==>
              forall i :: 0 <= i < |langs| ==> langs[i].hours >= TotalFor(AllEntries(summaries), n) as real / 3600.0
    ensures langs == TopLanguages(Table(summaries))
  {
    var table := AggregateDays(summaries);
    langs := TopLanguages(table);
    TopOfTable(table, AllEntries(summaries));
    TopOfTableStats(table, AllEntries(summaries));
    TopLanguagesDistinct(table);
    TopOfTableCut(table, AllEntries(summaries));
  }

  /** The statistic of one table row, in terms of the raw entries. */
  lemma TableStat(table: seq<LangTotal>, all: seq<LangEntry>, j: nat)
    requires TableNames(table) == Distinct(EntryNames(all))
    requires forall i :: 0 <= i < |table| ==> table[i].seconds == TotalFor(all, table[i].name)
    requires TableSum(table) == SumEntries(all)
    requires j < |table|
    ensures var s := ToStat(table[j], GrandTotal(table));
            && s.name in EntryNames(all)
            && s.hours == TotalFor(all, s.name) as real / 3600.0
            && 0.0 <= s.percent <= 100.0
            && (SumEntries(all) > 0 ==> s.percent == (TotalFor(all, s.name) as real / SumEntries(all) as real) * 100.0)
  {
    TableNamesAt(table);
    DistinctSpec(EntryNames(all));
    ToStatsAt(table, GrandTotal(table));
    assert table[j].name in TableNames(table);
    StatBounds(table, j);
  }

  /** The shape of the top languages of a table whose names are the input's distinct names. */
  lemma TopOfTable(table: seq<LangTotal>, all: seq<LangEntry>)
    requires TableNames(table) == Distinct(EntryNames(all))
    ensures var langs := TopLanguages(table);
            && |langs| == Min(MaxLanguages, |Distinct(EntryNames(all))|)
            && (|langs| == 0 <==> all == [])
            && SortedByHours(langs)
  {
    TopLanguagesSpec(table);
    TableNamesAt(table);
    DistinctSpec(EntryNames(all));
    if all == [] {
      assert |Distinct(EntryNames(all))| == 0;
    } else {
      assert EntryNames(all) != [];
    }
  }

  /** Every top language, in terms of the raw entries it was aggregated from. */
  lemma TopOfTableStats(table: seq<LangTotal>, all: seq<LangEntry>)
    requires TableNames(table) == Distinct(EntryNames(all))
    requires forall i :: 0 <= i < |table| ==> table[i].seconds == TotalFor(all, table[i].name)
    requires TableSum(table) == SumEntries(all)
    ensures var langs := TopLanguages(table);
            && (forall i :: 0 <= i < |langs| ==> langs[i].name in EntryNames(all))
            && (forall i :: 0 <= i < |langs| ==> langs[i].hours == TotalFor(all, langs[i].name) as real / 3600.0)
            && (forall i :: 0 <= i < |langs| ==> 0.0 <= langs[i].percent <= 100.0)
            && (SumEntries(all) > 0 ==> forall i :: 0 <= i < |langs| ==>
                  langs[i].percent == (TotalFor(all, langs[i].name) as real / SumEntries(all) as real) * 100.0)
  {
    var langs := TopLanguages(table);
    TopLanguagesSpec(table);
    forall i | 0 <= i < |langs|
      ensures langs[i].name in EntryNames(all)
      ensures langs[i].hours == TotalFor(all, langs[i].name) as real / 3600.0
      ensures 0.0 <= langs[i].percent <= 100.0
      ensures SumEntries(all) > 0 ==>
                langs[i].percent == (TotalFor(all, langs[i].name) as real / SumEntries(all) as real) * 100.0
    {
      var j :| 0 <= j < |table| && langs[i] == ToStat(table[j], GrandTotal(table));
      TableStat(table, all, j);
    }
  }

  /** Every input name left out of the top languages has no more hours than any kept one. */
  lemma TopOfTableCut(table: seq<LangTotal>, all: seq<LangEntry>)
    requires TableNames(table) == Distinct(EntryNames(all))
    requires forall i :: 0 <= i < |table| ==> table[i].seconds == TotalFor(all, table[i].name)
    ensures var langs := TopLanguages(table);
            forall n :: n in EntryNames(all) && (forall i :: 0 <= i < |langs| ==> langs[i].name != n) ==>
              forall i :: 0 <= i < |langs| ==> langs[i].hours >= TotalFor(all, n) as real / 3600.0
  {
    var langs := TopLanguages(table);
    forall n | n in EntryNames(all) && (forall i :: 0 <= i < |langs| ==> langs[i].name != n)
      ensures forall i :: 0 <= i < |langs| ==> langs[i].hours >= TotalFor(all, n) as real / 3600.0
    {
      CutHasFewerHours(table, all, n);
    }
  }

  /** A name of the input that did not make the cut has no more hours than any kept language. */
  lemma CutHasFewerHours(table: seq<LangTotal>, all: seq<LangEntry>, n: string)
    requires TableNames(table) == Distinct(EntryNames(all))
    requires forall i :: 0 <= i < |table| ==> table[i].seconds == TotalFor(all, table[i].name)
    requires n in EntryNames(all)
    requires forall i :: 0 <= i < |TopLanguages(table)| ==> TopLanguages(table)[i].name != n
    ensures forall i :: 0 <= i < |TopLanguages(table)| ==>
              TopLanguages(table)[i].hours >= TotalFor(all, n) as real / 3600.0
  {
    DistinctHas(EntryNames(all), n);
    TableNamesAt(table);
    var j :| 0 <= j < |table| && TableNames(table)[j] == n;
    TopLanguagesMost(table);
    var x := ToStat(table[j], GrandTotal(table));
    assert x.name == n;
    assert x !in TopLanguages(table);
  }

  /** One day with an hour of Go and then an hour of Rust. */
  const GoRustDay: seq<DaySummary> :=
    [DaySummary(Some([LangEntry("Go", Some(3600)), LangEntry("Rust", Some(3600))]))]

  /** Two languages with one hour each: equal shares, first-encountered first. */
  lemma TwoEqualLanguages()
    ensures Table(GoRustDay) == [LangTotal("Go", 3600), LangTotal("Rust", 3600)]
    ensures TopLanguages(Table(GoRustDay)) == [LangStat("Go", 1.0, 50.0), LangStat("Rust", 1.0, 50.0)]
  {
    GoRustTable();
    GoRustTop();
  }

  lemma GoRustTable()
    ensures Table(GoRustDay) == [LangTotal("Go", 3600), LangTotal("Rust", 3600)]
  {
    var es := [LangEntry("Go", Some(3600)), LangEntry("Rust", Some(3600))];
    GoRustEntries();
    GoRustNames();
    GoRustTotals();
    assert Table(GoRustDay) == Totals(["Go", "Rust"], es);
  }

  lemma GoRustEntries()
    ensures AllEntries(GoRustDay) == [LangEntry("Go", Some(3600)), LangEntry("Rust", Some(3600))]
  {
    assert GoRustDay[..0] == [];
  }

  lemma GoRustNames()
    ensures Distinct(EntryNames([LangEntry("Go", Some(3600)), LangEntry("Rust", Some(3600))])) == ["Go", "Rust"]
  {
    var g, r := LangEntry("Go", Some(3600)), LangEntry("Rust", Some(3600));
    assert [g, r][..1] == [g] && [g][..0] == [];
    assert EntryNames([g]) == ["Go"];
    assert EntryNames([g, r]) == ["Go", "Rust"];
    var names := ["Go", "Rust"];
    assert names[..1] == ["Go"] && ["Go"][..0] == [];
  }

  lemma GoRustTotals()
    ensures Totals(["Go", "Rust"], [LangEntry("Go", Some(3600)), LangEntry("Rust", Some(3600))])
         == [LangTotal("Go", 3600), LangTotal("Rust", 3600)]
  {
    var g, r := LangEntry("Go", Some(3600)), LangEntry("Rust", Some(3600));
    var es := [g, r];
    assert es[..1] == [g] && [g][..0] == [];
    assert EntrySeconds(g) == 3600 && EntrySeconds(r) == 3600;
    assert TotalFor([g], "Go") == 3600 && TotalFor([g], "Rust") == 0;
    assert TotalFor(es, "Go") == 3600 && TotalFor(es, "Rust") == 3600;
    var names := ["Go", "Rust"];
    assert names[..1] == ["Go"] && ["Go"][..0] == [];
    assert Totals(names, es) == Totals(["Go"], es) + [LangTotal("Rust", 3600)];
  }

  lemma GoRustTop()
    ensures TopLanguages([LangTotal("Go", 3600), LangTotal("Rust", 3600)])
         == [LangStat("Go", 1.0, 50.0), LangStat("Rust", 1.0, 50.0)]
  {
    var go, rust := LangStat("Go", 1.0, 50.0), LangStat("Rust", 1.0, 50.0);
    GoRustStats();
    assert [go, rust][..1] == [go];
    assert SortByHours([go]) == [go];
    assert SortByHours([go, rust]) == InsertByHours([go], rust) == [go, rust];
  }

  lemma GoRustStats()
    ensures var t := [LangTotal("Go", 3600), LangTotal("Rust", 3600)];
            ToStats(t, GrandTotal(t)) == [LangStat("Go", 1.0, 50.0), LangStat("Rust", 1.0, 50.0)]
  {
    var t := [LangTotal("Go", 3600), LangTotal("Rust", 3600)];
    assert t[..1] == [LangTotal("Go", 3600)] && t[..1][..0] == [];
    assert TableSum(t) == 7200;
    assert ToStat(t[0], 7200) == LangStat("Go", 1.0, 50.0);
    assert ToStat(t[1], 7200) == LangStat("Rust", 1.0, 50.0);
    assert ToStats(t[..1], 7200) == [ToStat(t[0], 7200)];
  }
}
