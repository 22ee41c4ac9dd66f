/**
  A model of the query helpers of the "Pubs in England" dashboard. Every
  helper works on one fixed, read-only dataset: a sequence of pub records,
  in file order, loaded once at start-up.
*/
module Pubs {
  import opened Counter

  /** One row of the dataset, reduced to the two columns the helpers read. */
  datatype Record = Record(name: string, localAuthority: string)

  datatype Option<T> = None | Some(value: T)

  /** The triple `(name, num, diff)` returned by `common_names`. */
  datatype TopNames = TopNames(names: seq<string>, nums: seq<nat>, diff: seq<nat>)

  /** The `local_authority` column. */
  function Authorities(data: seq<Record>): seq<string> {
    seq(|data|, i requires 0 <= i < |data| => data[i].localAuthority)
  }

  /** The `name` column. */
  function Names(data: seq<Record>): seq<string> {
    seq(|data|, i requires 0 <= i < |data| => data[i].name)
  }

  /** `np.arange(n)`. */
  function Range(n: nat): seq<nat> {
    seq(n, i requires 0 <= i < n => i)
  }

  // ---------------------------------------------------------------------------
  // Selecting rows by authority
  // ---------------------------------------------------------------------------

  /** `r` is `s` with some rows left out and the rest in their original order. */
  predicate IsSubsequence(r: seq<Record>, s: seq<Record>) {
    if r == [] then true
    else if s == [] then false
    else if r[0] == s[0] then IsSubsequence(r[1..], s[1..])
    else IsSubsequence(r, s[1..])
  }

  /**
    `r` is what a boolean mask on the authority column keeps of `data`: the
    rows whose authority is in `sel`, each as often as in `data`, in their
    original order, and nothing else.
  */
  ghost predicate IsSelection(r: seq<Record>, data: seq<Record>, sel: seq<string>) {
    && IsSubsequence(r, data)
    && (forall i :: 0 <= i < |r| ==> r[i].localAuthority in sel)
    && (forall x: Record :: x.localAuthority in sel ==> multiset(r)[x] == multiset(data)[x])
  }

  /** `df.loc[df['local_authority'].isin(sel)]`. */
  function Select(data: seq<Record>, sel: seq<string>): (r: seq<Record>)
    ensures IsSelection(r, data, sel)
  {
    if data == [] then []
    else
      var rest := Select(data[1..], sel);
      assert data == [data[0]] + data[1..];
      if data[0].localAuthority in sel then
        assert ([data[0]] + rest)[1..] == rest;
        [data[0]] + rest
      else
        rest
  }

  /**
    `filter_data(df, city)`: the rows of the dataset whose authority equals `city`.
    The `df` argument of the source is ignored: it re-reads the dataset.
  */
  function FilterData(data: seq<Record>, city: string): (r: seq<Record>)
    ensures forall i :: 0 <= i < |r| ==> r[i].localAuthority == city
    ensures forall x: Record :: x.localAuthority == city ==> multiset(r)[x] == multiset(data)[x]
    ensures IsSubsequence(r, data)
  {
    if data == [] then []
    else
      var rest := FilterData(data[1..], city);
      assert data == [data[0]] + data[1..];
      if data[0].localAuthority == city then
        assert ([data[0]] + rest)[1..] == rest;
        [data[0]] + rest
      else
        rest
  }

  /**
    `crawl_table(df, city)`: the rows whose authority is one of `city`, in file
    order. The `df` argument of the source is ignored: it re-reads the dataset.
  */
  function CrawlTable(data: seq<Record>, city: seq<string>): (r: seq<Record>)
    ensures IsSelection(r, data, city)
    ensures city == [] ==> r == []
  {
    Select(data, city)
  }

  /**
    `local_auth_filter(get_local_authority)`: the same selection, on the dataset.
    The source has this function twice, as `crawl_table` and `local_auth_filter`,
    so the model has it twice too.
  */
  function LocalAuthFilter(data: seq<Record>, getLocalAuthority: seq<string>): (r: seq<Record>)
    ensures IsSelection(r, data, getLocalAuthority)
    ensures getLocalAuthority == [] ==> r == []
  {
    Select(data, getLocalAuthority)
  }

  lemma {:induction false} SubsequenceMultiset(r: seq<Record>, s: seq<Record>)
    requires IsSubsequence(r, s)
    ensures multiset(r) <= multiset(s)
  {
    if r != [] {
      assert s == [s[0]] + s[1..];
      if r[0] == s[0] {
        assert r == [r[0]] + r[1..];
        SubsequenceMultiset(r[1..], s[1..]);
      } else {
        SubsequenceMultiset(r, s[1..]);
      }
    }
  }

  /** A row that is kept must be the first row kept. */
  lemma SelectionTakesHead(r: seq<Record>, data: seq<Record>, sel: seq<string>)
    requires IsSelection(r, data, sel)
    requires data != [] && data[0].localAuthority in sel
    ensures r != [] && r[0] == data[0] && IsSelection(r[1..], data[1..], sel)
  {
    assert data == [data[0]] + data[1..];
    assert multiset(r)[data[0]] == multiset(data)[data[0]] > 0;
    if r[0] != data[0] {
      SubsequenceMultiset(r, data[1..]);
      assert false;
    }
    assert r == [r[0]] + r[1..];
  }

  /** A row that is dropped is skipped. */
  lemma SelectionSkipsHead(r: seq<Record>, data: seq<Record>, sel: seq<string>)
    requires IsSelection(r, data, sel)
    requires data != [] && data[0].localAuthority !in sel
    ensures IsSelection(r, data[1..], sel)
  {
    assert data == [data[0]] + data[1..];
  }

  /** The three conditions of `IsSelection` leave exactly one possible result. */
  lemma {:induction false} SelectionUnique(r1: seq<Record>, r2: seq<Record>, data: seq<Record>, sel: seq<string>)
    requires IsSelection(r1, data, sel) && IsSelection(r2, data, sel)
    ensures r1 == r2
  {
    if data == [] {
    } else if data[0].localAuthority in sel {
      SelectionTakesHead(r1, data, sel);
      SelectionTakesHead(r2, data, sel);
      SelectionUnique(r1[1..], r2[1..], data[1..], sel);
      assert r1 == [r1[0]] + r1[1..] && r2 == [r2[0]] + r2[1..];
    } else {
      SelectionSkipsHead(r1, data, sel);
      SelectionSkipsHead(r2, data, sel);
      SelectionUnique(r1, r2, data[1..], sel);
    }
  }

  /** Filtering on one city is selecting the one-element list of that city. */
  lemma FilterDataIsCrawlTable(data: seq<Record>, city: string)
    ensures FilterData(data, city) == CrawlTable(data, [city])
  {
    SelectionUnique(FilterData(data, city), CrawlTable(data, [city]), data, [city]);
  }

  // ---------------------------------------------------------------------------
  // Counting rows by authority
  // ---------------------------------------------------------------------------

  /** Selecting one authority keeps as many rows as the authority has. */
  lemma {:induction false} SelectOneSize(data: seq<Record>, a: string)
    ensures |Select(data, [a])| == multiset(Authorities(data))[a]
  {
    if data != [] {
      SelectOneSize(data[1..], a);
      assert Authorities(data) == [data[0].localAuthority] + Authorities(data[1..]);
    }
  }

  lemma AuthoritiesCons(x: Record, rest: seq<Record>)
    ensures Authorities([x] + rest) == [x.localAuthority] + Authorities(rest)
  {
  }

  /** Selecting authorities keeps every row of a selected authority. */
  lemma {:induction false} SelectKeepsCount(data: seq<Record>, sel: seq<string>, a: string)
    requires a in sel
    ensures multiset(Authorities(Select(data, sel)))[a] == multiset(Authorities(data))[a]
  {
    if data != [] {
      var rest := Select(data[1..], sel);
      SelectKeepsCount(data[1..], sel, a);
      assert data == [data[0]] + data[1..];
      AuthoritiesCons(data[0], data[1..]);
      if data[0].localAuthority in sel {
        assert Select(data, sel) == [data[0]] + rest;
        AuthoritiesCons(data[0], rest);
      } else {
        assert Select(data, sel) == rest;
      }
    }
  }

  /**
    `local_auth_counter(authorities, df)`: for each requested authority, in the
    order requested, the number of rows of `df` that belong to it.
  */
  function LocalAuthCounter(authorities: seq<string>, df: seq<Record>): (r: seq<nat>)
    ensures |r| == |authorities|
    ensures forall i :: 0 <= i < |r| ==> r[i] == multiset(Authorities(df))[authorities[i]]
  {
    if authorities == [] then []
    else
      SelectOneSize(df, authorities[0]);
      var rest := LocalAuthCounter(authorities[1..], df);
      var r := [|Select(df, [authorities[0]])|] + rest;
      assert forall i :: 0 < i < |r| ==> r[i] == rest[i - 1] && authorities[i] == authorities[1..][i - 1];
      r
  }

  /**
    The pie chart's amounts: counting the selected authorities on the rows
    already filtered to them gives the same numbers as counting on the whole
    dataset.
  */
  lemma CounterOnFilteredRows(data: seq<Record>, authority: seq<string>)
    ensures LocalAuthCounter(authority, LocalAuthFilter(data, authority)) == LocalAuthCounter(authority, data)
  {
    var filtered := LocalAuthFilter(data, authority);
    forall i | 0 <= i < |authority|
      ensures multiset(Authorities(filtered))[authority[i]] == multiset(Authorities(data))[authority[i]]
    {
      SelectKeepsCount(data, authority, authority[i]);
    }
  }

  /**
    `name_count(df)`: `value_counts` of the authority column, one entry per
    distinct authority with its number of rows, largest count first.
  */
  function NameCount(df: seq<Record>): (r: seq<Entry>)
    ensures NoDuplicates(Keys(r))
    ensures forall a :: a in Keys(r) <==> a in Authorities(df)
    ensures forall i :: 0 <= i < |r| ==> r[i].count == multiset(Authorities(df))[r[i].key] && r[i].count > 0
    ensures Descending(r)
    ensures Sum(r) == |df|
  {
    var xs := Authorities(df);
    var r := SortByCount(Tally(xs));
    SortedTally(xs);
    assert forall i :: 0 <= i < |r| ==> r[i] in r;
    RankedFacts(r, xs);
    KeysOfTally(r, xs);
    r
  }

  // ---------------------------------------------------------------------------
  // The most common pub names
  // ---------------------------------------------------------------------------

  /**
    `common_names(df, counts)`: the `counts` most frequent pub names with their
    numbers of rows and the positions `0, 1, ...`. When `most_common` returns
    nothing, unpacking its `zip` fails: that is `None`.
  */
  function CommonNames(df: seq<Record>, counts: int): (r: Option<TopNames>)
    ensures r.None? <==> counts <= 0 || df == []
    ensures r.Some? ==> IsTopNames(r.value, Names(df), counts)
  {
    var top := MostCommon(Names(df), counts);
    assert Names(df) == [] <==> Distinct(Names(df)) == [] by {
      if Names(df) != [] {
        assert Names(df)[0] in Distinct(Names(df));
      }
    }
    if top == [] then None
    else
      var t := TopNames(Keys(top), Counts(top), Range(|top|));
      assert counts > 0;
      TopShapeFromMostCommon(Names(df), counts, t);
      TopOrderFromMostCommon(Names(df), counts, t);
      TopCompleteFromMostCommon(Names(df), counts, t);
      Some(t)
  }

  /**
    What `common_names` promises about its triple for the name column `xs`:
    see the three parts below.
  */
  ghost predicate IsTopNames(t: TopNames, xs: seq<string>, counts: int) {
    TopShape(t, xs, counts) && TopOrder(t, xs) && TopComplete(t, xs)
  }

  /**
    Names, counts and positions are aligned; there are at most `counts` names,
    fewer only when there are no more distinct names; positions are `0, 1, ...`.
  */
  ghost predicate TopShape(t: TopNames, xs: seq<string>, counts: int) {
    && |t.names| == |t.nums| == |t.diff| <= counts
    && (|t.names| == counts || |t.names| == |Distinct(xs)|)
    && (forall i :: 0 <= i < |t.diff| ==> t.diff[i] == i)
  }

  /**
    Distinct names with their true counts, largest first, equal counts in
    order of first appearance.
  */
  ghost predicate TopOrder(t: TopNames, xs: seq<string>) {
    && |t.names| == |t.nums|
    && NoDuplicates(t.names)
    && (forall i :: 0 <= i < |t.names| ==> t.names[i] in xs && t.nums[i] == multiset(xs)[t.names[i]])
    && (forall i, j :: 0 <= i < j < |t.nums| ==> t.nums[i] >= t.nums[j])
    && (forall i, j :: 0 <= i < j < |t.nums| && t.nums[i] == t.nums[j] ==>
          t.names[i] in xs && t.names[j] in xs && FirstIndex(xs, t.names[i]) < FirstIndex(xs, t.names[j]))
  }

  /**
    No name is left out that has a larger count than the last one reported,
    or the same count and an earlier first appearance.
  */
  ghost predicate TopComplete(t: TopNames, xs: seq<string>) {
    && |t.names| == |t.nums|
    && (forall x :: x in xs && x !in t.names && |t.nums| > 0 ==> multiset(xs)[x] <= t.nums[|t.nums| - 1])
    && (forall x :: x in xs && x !in t.names && |t.nums| > 0 && multiset(xs)[x] == t.nums[|t.nums| - 1] ==>
          t.names[|t.names| - 1] in xs && FirstIndex(xs, t.names[|t.names| - 1]) < FirstIndex(xs, x))
  }

  lemma TopShapeFromMostCommon(xs: seq<string>, counts: int, t: TopNames)
    requires var top := MostCommon(xs, counts);
      t == TopNames(Keys(top), Counts(top), Range(|top|))
    requires counts > 0
    ensures TopShape(t, xs, counts)
  {
    var top := MostCommon(xs, counts);
    assert t.names == Keys(top) && t.nums == Counts(top) && t.diff == Range(|top|);
  }

  lemma TopOrderFromMostCommon(xs: seq<string>, counts: int, t: TopNames)
    requires var top := MostCommon(xs, counts);
      t == TopNames(Keys(top), Counts(top), Range(|top|))
    ensures TopOrder(t, xs)
  {
    var top := MostCommon(xs, counts);
    assert t.names == Keys(top) && t.nums == Counts(top);
  }

  lemma TopCompleteFromMostCommon(xs: seq<string>, counts: int, t: TopNames)
    requires var top := MostCommon(xs, counts);
      t == TopNames(Keys(top), Counts(top), Range(|top|))
    ensures TopComplete(t, xs)
  {
    var top := MostCommon(xs, counts);
    assert t.names == Keys(top) && t.nums == Counts(top);
  }

  // ---------------------------------------------------------------------------
  // Distinct authorities
  // ---------------------------------------------------------------------------

  /**
    `all_local_authorities()`: walks the rows and appends each authority not
    seen before, giving every authority once, in order of first appearance.
  */
  method AllLocalAuthorities(data: seq<Record>) returns (list: seq<string>)
    ensures list == Distinct(Authorities(data))
    ensures NoDuplicates(list)
    ensures forall a :: a in list <==> exists i :: 0 <= i < |data| && data[i].localAuthority == a
    ensures forall i, j :: 0 <= i < j < |list| ==>
      FirstIndex(Authorities(data), list[i]) < FirstIndex(Authorities(data), list[j])
  {
    list := [];
    var i := 0;
    while i < |data|
      invariant 0 <= i <= |data|
      invariant list == Distinct(Authorities(data)[..i])
    {
      assert Authorities(data)[..i + 1][..i] == Authorities(data)[..i];
      if data[i].localAuthority !in list {
        list := list + [data[i].localAuthority];
      }
      i := i + 1;
    }
    assert Authorities(data)[..|data|] == Authorities(data);
    DistinctInFirstOccurrenceOrder(Authorities(data));
    forall a ensures a in list <==> exists i :: 0 <= i < |data| && data[i].localAuthority == a {
      if a in list {
        var i :| 0 <= i < |data| && Authorities(data)[i] == a;
        assert data[i].localAuthority == a;
      }
      if exists i :: 0 <= i < |data| && data[i].localAuthority == a {
        var i :| 0 <= i < |data| && data[i].localAuthority == a;
        assert Authorities(data)[i] == a;
      }
    }
  }

  // ---------------------------------------------------------------------------
  // The pie chart's exploded slice
  // ---------------------------------------------------------------------------

  /** `k` is the position of the first largest amount. */
  predicate IsFirstMax(amt: seq<int>, k: int) {
    && 0 <= k < |amt|
    && (forall j :: 0 <= j < |amt| ==> amt[j] <= amt[k])
    && (forall j :: 0 <= j < k ==> amt[j] < amt[k])
  }

  /** `amt.index(np.max(amt))`, as one left-to-right scan. */
  method FirstMaxIndex(amt: seq<int>) returns (k: nat)
    requires |amt| > 0
    ensures IsFirstMax(amt, k)
  {
    k := 0;
    var i := 1;
    while i < |amt|
      invariant 1 <= i <= |amt|
      invariant k < i
      invariant forall j :: 0 <= j < i ==> amt[j] <= amt[k]
      invariant forall j :: 0 <= j < k ==> amt[j] < amt[k]
    {
      if amt[i] > amt[k] {
        k := i;
      }
      i := i + 1;
    }
  }

  /** There is only one first largest amount. */
  lemma FirstMaxUnique(amt: seq<int>, k: int, m: int)
    requires IsFirstMax(amt, k) && IsFirstMax(amt, m)
    ensures k == m
  {
    assert amt[k] <= amt[m] && amt[m] <= amt[k];
  }

  lemma {:induction false} OneMarked(s: seq<bool>, k: nat)
    requires k < |s| && s[k]
    requires forall i :: 0 <= i < |s| && i != k ==> !s[i]
    ensures multiset(s)[true] == 1
  {
    if |s| > 1 {
      var last := |s| - 1;
      assert s == s[..last] + [s[last]];
      if k == last {
        assert forall x :: x in s[..last] ==> !x;
        assert multiset(s[..last])[true] == 0;
      } else {
        OneMarked(s[..last], k);
      }
    }
  }

  /**
    The `explodes` list of `pie_chart`: one slot per amount, all left at zero
    except the slot of the first largest amount, which is pulled out. A slot
    is modelled as a flag: `true` for the pulled-out slice.
  */
  method PieExplodes(amt: seq<int>) returns (explodes: seq<bool>)
    requires |amt| > 0
    ensures |explodes| == |amt|
    ensures forall i :: 0 <= i < |amt| ==> (explodes[i] <==> IsFirstMax(amt, i))
    ensures multiset(explodes)[true] == 1
  {
    var slots := new bool[|amt|](_ => false);
    var max := FirstMaxIndex(amt);
    slots[max] := true;
    explodes := slots[..];
    forall i | 0 <= i < |amt| && IsFirstMax(amt, i) ensures i == max {
      FirstMaxUnique(amt, i, max);
    }
    OneMarked(explodes, max);
  }
}
