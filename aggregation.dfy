/**
 * Folding the per-day language records of the summaries response into one
 * name -> seconds table (the `langMap` loop of `fetchLangs`).
 */
module Aggregation {
  import opened Wrappers

  /** One element of a day's `languages` list; `text_seconds` may be absent. */
  datatype LangEntry = LangEntry(name: string, textSeconds: Option<nat>)

  /** One day of the summaries response; its `languages` list may be absent. */
  datatype DaySummary = DaySummary(languages: Option<seq<LangEntry>>)

  /** One entry of the aggregated table: a language and its total seconds. */
  datatype LangTotal = LangTotal(name: string, seconds: nat)

  /** `lang.text_seconds || 0` */
  function EntrySeconds(e: LangEntry): nat {
    e.textSeconds.GetOr(0)
  }

  /** `day.languages || []` */
  function DayEntries(d: DaySummary): seq<LangEntry> {
    d.languages.GetOr([])
  }

  /** Every language entry of every day, in the order the loops visit them. */
  function AllEntries(days: seq<DaySummary>): seq<LangEntry> {
    if days == [] then []
    else AllEntries(days[..|days| - 1]) + DayEntries(days[|days| - 1])
  }

  function EntryNames(es: seq<LangEntry>): seq<string> {
    if es == [] then []
    else EntryNames(es[..|es| - 1]) + [es[|es| - 1].name]
  }

  /** Sum of the seconds of the entries called `name` (absent seconds count 0). */
  function TotalFor(es: seq<LangEntry>, name: string): nat {
    if es == [] then 0
    else
      var last := es[|es| - 1];
      TotalFor(es[..|es| - 1], name) + (if last.name == name then EntrySeconds(last) else 0)
  }

  /** Sum of the seconds of all entries. */
  function SumEntries(es: seq<LangEntry>): nat {
    if es == [] then 0
    else SumEntries(es[..|es| - 1]) + EntrySeconds(es[|es| - 1])
  }

  /** The names of `ns`, each once, in order of first occurrence. */
  function Distinct(ns: seq<string>): seq<string> {
    if ns == [] then []
    else
      var d := Distinct(ns[..|ns| - 1]);
      if ns[|ns| - 1] in d then d else d + [ns[|ns| - 1]]
  }

  predicate NoDuplicates(ns: seq<string>) {
    forall i, j :: 0 <= i < j < |ns| ==> ns[i] != ns[j]
  }

  /** Position of the first occurrence of `x` in `ns`. */
  function FirstIndex(ns: seq<string>, x: string): (k: nat)
    requires x in ns
    ensures k < |ns| && ns[k] == x && x !in ns[..k]
  {
    if x in ns[..|ns| - 1] then FirstIndex(ns[..|ns| - 1], x) else |ns| - 1
  }

  function TableNames(t: seq<LangTotal>): seq<string> {
    if t == [] then []
    else TableNames(t[..|t| - 1]) + [t[|t| - 1].name]
  }

  lemma {:induction false} TableNamesAt(t: seq<LangTotal>)
    ensures |TableNames(t)| == |t|
    ensures forall i :: 0 <= i < |t| ==> TableNames(t)[i] == t[i].name
  {
    if t != [] {
      TableNamesAt(t[..|t| - 1]);
    }
  }

  /** `Object.values(langMap).reduce((a, b) => a + b, 0)` */
  function TableSum(t: seq<LangTotal>): nat {
    if t == [] then 0
    else TableSum(t[..|t| - 1]) + t[|t| - 1].seconds
  }

  lemma {:induction false} DistinctSpec(ns: seq<string>)
    ensures NoDuplicates(Distinct(ns))
    ensures forall x :: x in Distinct(ns) <==> x in ns
    ensures |Distinct(ns)| <= |ns|
    ensures |Distinct(ns)| == 0 <==> ns == []
  {
    if ns != [] {
      DistinctSpec(ns[..|ns| - 1]);
      assert ns == ns[..|ns| - 1] + [ns[|ns| - 1]];
    }
  }

  /** Distinct keeps first-encounter order: earlier in the result means first seen earlier. */
  lemma {:induction false} DistinctFirstEncounter(ns: seq<string>, i: nat, j: nat)
    requires i < j < |Distinct(ns)|
    ensures Distinct(ns)[i] in ns && Distinct(ns)[j] in ns
    ensures FirstIndex(ns, Distinct(ns)[i]) < FirstIndex(ns, Distinct(ns)[j])
  {
    var p := ns[..|ns| - 1];
    var d := Distinct(p);
    DistinctSpec(p);
    DistinctSpec(ns);
    if j < |d| {
      DistinctFirstEncounter(p, i, j);
    } else {
      assert Distinct(ns) == d + [ns[|ns| - 1]];
      assert d[i] in p;
    }
  }

  lemma EntryNamesSnoc(es: seq<LangEntry>, e: LangEntry)
    ensures EntryNames(es + [e]) == EntryNames(es) + [e.name]
    ensures SumEntries(es + [e]) == SumEntries(es) + EntrySeconds(e)
  {
    assert (es + [e])[..|es|] == es;
  }

  lemma AllEntriesSnoc(days: seq<DaySummary>, i: nat)
    requires i < |days|
    ensures AllEntries(days[..i + 1]) == AllEntries(days[..i]) + DayEntries(days[i])
  {
    assert days[..i + 1][..i] == days[..i];
  }

  /** The table that `Object.entries(langMap)` yields: keys in insertion order. */
  function Entries(order: seq<string>, m: map<string, nat>): seq<LangTotal>
    requires forall k :: k in order ==> k in m
  {
    if order == [] then []
    else Entries(order[..|order| - 1], m) + [LangTotal(order[|order| - 1], m[order[|order| - 1]])]
  }

  lemma {:induction false} EntriesSpec(order: seq<string>, m: map<string, nat>)
    requires forall k :: k in order ==> k in m
    ensures |Entries(order, m)| == |order|
    ensures TableNames(Entries(order, m)) == order
    ensures forall i :: 0 <= i < |order| ==> Entries(order, m)[i] == LangTotal(order[i], m[order[i]])
  {
    if order != [] {
      var p := order[..|order| - 1];
      EntriesSpec(p, m);
      var t := Entries(order, m);
      assert t[..|t| - 1] == Entries(p, m);
      assert order == p + [order[|order| - 1]];
    }
  }

  /** Changing the value of one key moves the table sum by the difference. */
  lemma {:induction false} TableSumUpdate(order: seq<string>, m: map<string, nat>, k: string, v: nat)
    requires forall x :: x in order ==> x in m
    requires NoDuplicates(order)
    ensures TableSum(Entries(order, m[k := v])) + (if k in order then m[k] else 0)
         == TableSum(Entries(order, m)) + (if k in order then v else 0)
  {
    if order != [] {
      var p := order[..|order| - 1];
      assert NoDuplicates(p);
      TableSumUpdate(p, m, k, v);
      var t := Entries(order, m[k := v]);
      assert t[..|t| - 1] == Entries(p, m[k := v]);
      var u := Entries(order, m);
      assert u[..|u| - 1] == Entries(p, m);
      assert order == p + [order[|order| - 1]];
      assert forall x :: x in order <==> x in p || x == order[|order| - 1];
      assert order[|order| - 1] !in p;
    }
  }

  /** What `langMap` (values `m`, key order `order`) holds after visiting `seen`. */
  ghost predicate Folded(m: map<string, nat>, order: seq<string>, seen: seq<LangEntry>) {
    && order == Distinct(EntryNames(seen))
    && (forall k :: k in m <==> k in order)
    && (forall k :: k in m ==> m[k] == TotalFor(seen, k))
    && TableSum(Entries(order, m)) == SumEntries(seen)
  }

  /** Each of `names` with its total over `es`, in the order of `names`. */
  function Totals(names: seq<string>, es: seq<LangEntry>): seq<LangTotal> {
    if names == [] then []
    else Totals(names[..|names| - 1], es) + [LangTotal(names[|names| - 1], TotalFor(es, names[|names| - 1]))]
  }

  /** The table the loops over `days` should produce: every distinct name, first seen first, with its total. */
  function Table(days: seq<DaySummary>): seq<LangTotal> {
    Totals(Distinct(EntryNames(AllEntries(days))), AllEntries(days))
  }

  lemma {:induction false} TotalsAt(names: seq<string>, es: seq<LangEntry>)
    ensures |Totals(names, es)| == |names|
    ensures forall i :: 0 <= i < |names| ==> Totals(names, es)[i] == LangTotal(names[i], TotalFor(es, names[i]))
  {
    if names != [] {
      TotalsAt(names[..|names| - 1], es);
    }
  }

  /** A table with names `names` whose every value is its name's total is `Totals(names, es)`. */
  lemma TableIsTotals(t: seq<LangTotal>, names: seq<string>, es: seq<LangEntry>)
    requires TableNames(t) == names
    requires forall i :: 0 <= i < |t| ==> t[i].seconds == TotalFor(es, t[i].name)
    ensures t == Totals(names, es)
  {
    TableNamesAt(t);
    TotalsAt(names, es);
    var r := Totals(names, es);
    forall i | 0 <= i < |t| ensures t[i] == r[i] {
      assert t[i].name == names[i];
    }
  }

  /**
   * The nested `forEach` over days and their languages. The returned table
   * lists each name once, in first-encounter order, with the sum of its
   * seconds over all days.
   */
  method AggregateDays(days: seq<DaySummary>) returns (table: seq<LangTotal>)
    ensures TableNames(table) == Distinct(EntryNames(AllEntries(days)))
    ensures NoDuplicates(TableNames(table))
    ensures forall i :: 0 <= i < |table| ==> table[i].seconds == TotalFor(AllEntries(days), table[i].name)
    ensures TableSum(table) == SumEntries(AllEntries(days))
    ensures table == Table(days)
  {
    var langMap: map<string, nat> := map[];
    var order: seq<string> := [];
    var i := 0;
    while i < |days|
      invariant 0 <= i <= |days|
      invariant Folded(langMap, order, AllEntries(days[..i]))
    {
      langMap, order := CountDay(langMap, order, days[i], AllEntries(days[..i]));
      AllEntriesSnoc(days, i);
      i := i + 1;
    }
    assert days[..|days|] == days;
    table := Entries(order, langMap);
    FoldedTable(langMap, order, AllEntries(days));
    TableIsTotals(table, Distinct(EntryNames(AllEntries(days))), AllEntries(days));
  }

  /** The callback `day => { ... }` of the outer `forEach`: one day into `langMap`. */
  method CountDay(langMap0: map<string, nat>, order0: seq<string>, day: DaySummary, ghost seen: seq<LangEntry>)
    returns (langMap: map<string, nat>, order: seq<string>)
    requires Folded(langMap0, order0, seen)
    ensures Folded(langMap, order, seen + DayEntries(day))
  {
    langMap, order := langMap0, order0;
    var langs := DayEntries(day);
    var j := 0;
    ghost var visited := seen;
    while j < |langs|
      invariant 0 <= j <= |langs|
      invariant visited == seen + langs[..j]
      invariant Folded(langMap, order, visited)
    {
      langMap, order := CountEntry(langMap, order, langs[j], visited);
      SliceSnoc(seen, langs, j);
      visited := visited + [langs[j]];
      j := j + 1;
    }
    SliceSnoc(seen, langs, |langs|);
  }

  lemma SliceSnoc(seen: seq<LangEntry>, langs: seq<LangEntry>, j: nat)
    requires j <= |langs|
    ensures j < |langs| ==> seen + langs[..j] + [langs[j]] == seen + langs[..j + 1]
    ensures j == |langs| ==> seen + langs[..j] == seen + langs
  {
    if j < |langs| {
      assert langs[..j + 1] == langs[..j] + [langs[j]];
    }
  }

  /** The callback `lang => { ... }` of the inner `forEach`: one entry into `langMap`. */
  method CountEntry(langMap0: map<string, nat>, order0: seq<string>, lang: LangEntry, ghost seen: seq<LangEntry>)
    returns (langMap: map<string, nat>, order: seq<string>)
    requires Folded(langMap0, order0, seen)
    ensures Folded(langMap, order, seen + [lang])
    ensures order == if lang.name in langMap0 then order0 else order0 + [lang.name]
  {
    langMap, order := langMap0, order0;
    // `if (!langMap[lang.name]) langMap[lang.name] = 0;` -- a new key goes last
    if lang.name !in langMap || langMap[lang.name] == 0 {
      if lang.name !in langMap {
        order := order + [lang.name];
      }
      langMap := langMap[lang.name := 0];
    }
    // `langMap[lang.name] += lang.text_seconds || 0;`
    langMap := langMap[lang.name := langMap[lang.name] + EntrySeconds(lang)];

    if lang.name in langMap0 {
      UpdateTwice(langMap0, lang.name, 0, langMap0[lang.name] + EntrySeconds(lang));
      assert langMap == langMap0[lang.name := langMap0[lang.name] + EntrySeconds(lang)];
      FoldStepOld(langMap0, order0, seen, lang);
    } else {
      UpdateTwice(langMap0, lang.name, 0, EntrySeconds(lang));
      assert langMap == langMap0[lang.name := EntrySeconds(lang)];
      FoldStepNew(langMap0, order0, seen, lang);
    }
  }

  lemma FoldedTable(m: map<string, nat>, order: seq<string>, seen: seq<LangEntry>)
    requires Folded(m, order, seen)
    ensures TableNames(Entries(order, m)) == Distinct(EntryNames(seen))
    ensures NoDuplicates(TableNames(Entries(order, m)))
    ensures forall i :: 0 <= i < |Entries(order, m)| ==>
              Entries(order, m)[i].seconds == TotalFor(seen, Entries(order, m)[i].name)
  {
    EntriesSpec(order, m);
    DistinctSpec(EntryNames(seen));
  }

  /** A visit to a name already in `langMap` adds its seconds there. */
  lemma FoldStepOld(m0: map<string, nat>, order: seq<string>, seen: seq<LangEntry>, lang: LangEntry)
    requires Folded(m0, order, seen)
    requires lang.name in m0
    ensures Folded(m0[lang.name := m0[lang.name] + EntrySeconds(lang)], order, seen + [lang])
  {
    FoldOldParts(m0, order, seen, lang);
  }

  /** The four parts of `Folded` after a visit to a known name, one by one. */
  lemma FoldOldParts(m0: map<string, nat>, order: seq<string>, seen: seq<LangEntry>, lang: LangEntry)
    requires Folded(m0, order, seen)
    requires lang.name in m0
    ensures order == Distinct(EntryNames(seen + [lang]))
    ensures forall k :: k in m0[lang.name := m0[lang.name] + EntrySeconds(lang)] <==> k in order
    ensures forall k :: k in m0[lang.name := m0[lang.name] + EntrySeconds(lang)] ==>
              m0[lang.name := m0[lang.name] + EntrySeconds(lang)][k] == TotalFor(seen + [lang], k)
    ensures TableSum(Entries(order, m0[lang.name := m0[lang.name] + EntrySeconds(lang)])) == SumEntries(seen + [lang])
  {
    FoldOrderOld(order, seen, lang);
    KeysOld(m0, order, lang.name, m0[lang.name] + EntrySeconds(lang));
    FoldValuesOld(m0, seen, lang);
    FoldSumOld(m0, order, lang, seen);
  }

  /** A visit to a new name appends it to the key order with its seconds. */
  lemma FoldStepNew(m0: map<string, nat>, order: seq<string>, seen: seq<LangEntry>, lang: LangEntry)
    requires Folded(m0, order, seen)
    requires lang.name !in m0
    ensures Folded(m0[lang.name := EntrySeconds(lang)], order + [lang.name], seen + [lang])
  {
    FoldNewParts(m0, order, seen, lang);
  }

  /** The four parts of `Folded` after a visit to a new name, one by one. */
  lemma FoldNewParts(m0: map<string, nat>, order: seq<string>, seen: seq<LangEntry>, lang: LangEntry)
    requires Folded(m0, order, seen)
    requires lang.name !in m0
    ensures order + [lang.name] == Distinct(EntryNames(seen + [lang]))
    ensures forall k :: k in m0[lang.name := EntrySeconds(lang)] <==> k in order + [lang.name]
    ensures forall k :: k in m0[lang.name := EntrySeconds(lang)] ==>
              m0[lang.name := EntrySeconds(lang)][k] == TotalFor(seen + [lang], k)
    ensures TableSum(Entries(order + [lang.name], m0[lang.name := EntrySeconds(lang)])) == SumEntries(seen + [lang])
  {
    FoldOrderNew(order, seen, lang);
    KeysNew(m0, order, lang.name, EntrySeconds(lang));
    AbsentTotal(m0, order, seen, lang.name);
    FoldValuesNew(m0, seen, lang);
    FoldSumNew(m0, order, lang, seen);
  }

  lemma KeysOld(m0: map<string, nat>, order: seq<string>, k: string, v: nat)
    requires forall x :: x in m0 <==> x in order
    requires k in m0
    ensures forall x :: x in m0[k := v] <==> x in order
  {
  }

  lemma KeysNew(m0: map<string, nat>, order: seq<string>, k: string, v: nat)
    requires forall x :: x in m0 <==> x in order
    ensures forall x :: x in m0[k := v] <==> x in order + [k]
  {
  }

  /** A name that is not yet a key has total 0 so far. */
  lemma AbsentTotal(m0: map<string, nat>, order: seq<string>, seen: seq<LangEntry>, k: string)
    requires order == Distinct(EntryNames(seen))
    requires forall x :: x in m0 <==> x in order
    requires k !in m0
    ensures TotalFor(seen, k) == 0
  {
    DistinctHas(EntryNames(seen), k);
    TotalForAbsent(seen, k);
  }

  /** The key order after a visit to a known name is unchanged. */
  lemma FoldOrderOld(order: seq<string>, seen: seq<LangEntry>, lang: LangEntry)
    requires order == Distinct(EntryNames(seen))
    requires lang.name in order
    ensures order == Distinct(EntryNames(seen + [lang]))
  {
    DistinctSnoc(EntryNames(seen), lang.name);
    EntryNamesSnoc(seen, lang);
  }

  /** The key order after a visit to a new name gains that name at its end. */
  lemma FoldOrderNew(order: seq<string>, seen: seq<LangEntry>, lang: LangEntry)
    requires order == Distinct(EntryNames(seen))
    requires lang.name !in order
    ensures order + [lang.name] == Distinct(EntryNames(seen + [lang]))
  {
    DistinctSnoc(EntryNames(seen), lang.name);
    EntryNamesSnoc(seen, lang);
  }

  /** The values after a visit to a known name are the totals including that visit. */
  lemma FoldValuesOld(m0: map<string, nat>, seen: seq<LangEntry>, lang: LangEntry)
    requires forall x :: x in m0 ==> m0[x] == TotalFor(seen, x)
    requires lang.name in m0
    ensures var m1 := m0[lang.name := m0[lang.name] + EntrySeconds(lang)];
            forall x :: x in m1 ==> m1[x] == TotalFor(seen + [lang], x)
  {
    var m1 := m0[lang.name := m0[lang.name] + EntrySeconds(lang)];
    forall x | x in m1 ensures m1[x] == TotalFor(seen + [lang], x) {
      TotalForSnoc(seen, lang, x);
    }
  }

  /** The values after a visit to a new name (total 0 so far) are the totals including that visit. */
  lemma FoldValuesNew(m0: map<string, nat>, seen: seq<LangEntry>, lang: LangEntry)
    requires forall x :: x in m0 ==> m0[x] == TotalFor(seen, x)
    requires TotalFor(seen, lang.name) == 0
    ensures var m1 := m0[lang.name := EntrySeconds(lang)];
            forall x :: x in m1 ==> m1[x] == TotalFor(seen + [lang], x)
  {
    var m1 := m0[lang.name := EntrySeconds(lang)];
    forall x | x in m1 ensures m1[x] == TotalFor(seen + [lang], x) {
      TotalForSnoc(seen, lang, x);
    }
  }

  lemma UpdateTwice(m: map<string, nat>, k: string, a: nat, b: nat)
    ensures m[k := a][k := b] == m[k := b]
  {
  }

  lemma DistinctHas(ns: seq<string>, x: string)
    ensures x in Distinct(ns) <==> x in ns
  {
    DistinctSpec(ns);
  }

  lemma DistinctSnoc(ns: seq<string>, x: string)
    ensures Distinct(ns + [x]) == if x in Distinct(ns) then Distinct(ns) else Distinct(ns) + [x]
  {
    assert (ns + [x])[..|ns|] == ns;
  }

  lemma TotalForSnoc(es: seq<LangEntry>, e: LangEntry, k: string)
    ensures TotalFor(es + [e], k) == TotalFor(es, k) + (if e.name == k then EntrySeconds(e) else 0)
  {
    assert (es + [e])[..|es|] == es;
  }

  lemma FoldSumOld(m0: map<string, nat>, order0: seq<string>, lang: LangEntry, seen: seq<LangEntry>)
    requires forall x :: x in m0 <==> x in order0
    requires order0 == Distinct(EntryNames(seen))
    requires TableSum(Entries(order0, m0)) == SumEntries(seen)
    requires lang.name in m0
    ensures TableSum(Entries(order0, m0[lang.name := m0[lang.name] + EntrySeconds(lang)])) == SumEntries(seen + [lang])
  {
    assert NoDuplicates(order0) by {
      DistinctSpec(EntryNames(seen));
    }
    var k, v := lang.name, m0[lang.name] + EntrySeconds(lang);
    assert k in order0;
    TableSumUpdate(order0, m0, k, v);
    assert TableSum(Entries(order0, m0[k := v])) + m0[k] == TableSum(Entries(order0, m0)) + v;
    assert SumEntries(seen + [lang]) == SumEntries(seen) + EntrySeconds(lang) by {
      EntryNamesSnoc(seen, lang);
    }
  }

  lemma FoldSumNew(m0: map<string, nat>, order0: seq<string>, lang: LangEntry, seen: seq<LangEntry>)
    requires forall x :: x in m0 <==> x in order0
    requires order0 == Distinct(EntryNames(seen))
    requires TableSum(Entries(order0, m0)) == SumEntries(seen)
    requires lang.name !in m0
    ensures TableSum(Entries(order0 + [lang.name], m0[lang.name := EntrySeconds(lang)])) == SumEntries(seen + [lang])
  {
    var k, s := lang.name, EntrySeconds(lang);
    assert NoDuplicates(order0) by {
      DistinctSpec(EntryNames(seen));
    }
    assert k !in order0;
    TableSumUpdate(order0, m0, k, s);
    assert TableSum(Entries(order0, m0[k := s])) == TableSum(Entries(order0, m0));
    EntriesSnoc(order0, k, m0[k := s]);
    assert SumEntries(seen + [lang]) == SumEntries(seen) + s by {
      EntryNamesSnoc(seen, lang);
    }
  }

  lemma EntriesSnoc(order: seq<string>, k: string, m: map<string, nat>)
    requires forall x :: x in order ==> x in m
    requires k in m
    ensures Entries(order + [k], m) == Entries(order, m) + [LangTotal(k, m[k])]
    ensures TableSum(Entries(order + [k], m)) == TableSum(Entries(order, m)) + m[k]
  {
    assert (order + [k])[..|order|] == order;
    var t := Entries(order + [k], m);
    assert t[..|t| - 1] == Entries(order, m);
  }

  lemma {:induction false} TotalForAbsent(es: seq<LangEntry>, k: string)
    requires k !in EntryNames(es)
    ensures TotalFor(es, k) == 0
  {
    if es != [] {
      assert EntryNames(es) == EntryNames(es[..|es| - 1]) + [es[|es| - 1].name];
      TotalForAbsent(es[..|es| - 1], k);
    }
  }
}
