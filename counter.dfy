/**
  A model of the two pieces of Python's `collections.Counter` that the dashboard
  relies on: building a counter from a column of strings, whose keys keep the
  order in which they were first encountered, and `most_common(n)`, which sorts
  the items by count, largest first, keeping first-encountered order among
  equal counts, and keeps the first `n` of them.
*/
module Counter {

  /** One `(key, count)` item of a counter. */
  datatype Entry = Entry(key: string, count: nat)

  predicate NoDuplicates(s: seq<string>) {
    forall i, j :: 0 <= i < j < |s| ==> s[i] != s[j]
  }

  function Keys(t: seq<Entry>): seq<string> {
    seq(|t|, i requires 0 <= i < |t| => t[i].key)
  }

  function Counts(t: seq<Entry>): seq<nat> {
    seq(|t|, i requires 0 <= i < |t| => t[i].count)
  }

  function Sum(t: seq<Entry>): nat {
    if t == [] then 0 else t[0].count + Sum(t[1..])
  }

  lemma {:induction false} FirstOccurrence(xs: seq<string>, x: string)
    requires x in xs
    ensures exists k :: 0 <= k < |xs| && xs[k] == x && x !in xs[..k]
  {
    if xs[0] == x {
      assert xs[..0] == [];
    } else {
      FirstOccurrence(xs[1..], x);
      var k :| 0 <= k < |xs[1..]| && xs[1..][k] == x && x !in xs[1..][..k];
      assert xs[..k + 1] == [xs[0]] + xs[1..][..k];
    }
  }

  /** The position at which `x` first occurs in `xs`. */
  ghost function FirstIndex(xs: seq<string>, x: string): (k: nat)
    requires x in xs
    ensures k < |xs| && xs[k] == x && x !in xs[..k]
  {
    FirstOccurrence(xs, x);
    var k :| 0 <= k < |xs| && xs[k] == x && x !in xs[..k];
    k
  }

  /** First-occurrence position, total: values that do not occur rank last. */
  ghost function Rank(xs: seq<string>, x: string): nat {
    if x in xs then FirstIndex(xs, x) else |xs|
  }

  /**
    The distinct values of `xs` in the order of their first occurrence: the
    keys of a counter (or of a list grown by "append if not yet present").
  */
  function Distinct(xs: seq<string>): (d: seq<string>)
    ensures NoDuplicates(d)
    ensures forall x :: x in d <==> x in xs
  {
    if xs == [] then []
    else
      var prefix := xs[..|xs| - 1];
      var y := xs[|xs| - 1];
      var d := Distinct(prefix);
      assert xs == prefix + [y];
      if y in d then d else d + [y]
  }

  /** `Distinct` lists the values in the order in which they first occur. */
  lemma {:induction false} DistinctInFirstOccurrenceOrder(xs: seq<string>)
    ensures forall i, j :: 0 <= i < j < |Distinct(xs)| ==>
      FirstIndex(xs, Distinct(xs)[i]) < FirstIndex(xs, Distinct(xs)[j])
  {
    if xs != [] {
      var prefix := xs[..|xs| - 1];
      var y := xs[|xs| - 1];
      assert xs == prefix + [y];
      DistinctInFirstOccurrenceOrder(prefix);
      FirstIndexExtend(prefix, y);
    }
  }

  /** A position holding `x` with no `x` before it is the first occurrence. */
  lemma FirstIndexUnique(xs: seq<string>, x: string, k: nat)
    requires k < |xs| && xs[k] == x && x !in xs[..k]
    ensures FirstIndex(xs, x) == k
  {
    var f := FirstIndex(xs, x);
    assert forall j :: 0 <= j < f ==> xs[..f][j] == xs[j];
    assert forall j :: 0 <= j < k ==> xs[..k][j] == xs[j];
  }

  /** Extending a sequence at the end keeps the first occurrences already there. */
  lemma FirstIndexExtend(prefix: seq<string>, y: string)
    ensures forall x :: x in prefix ==> FirstIndex(prefix + [y], x) == FirstIndex(prefix, x)
    ensures y !in prefix ==> FirstIndex(prefix + [y], y) == |prefix|
  {
    var xs := prefix + [y];
    forall x | x in prefix ensures FirstIndex(xs, x) == FirstIndex(prefix, x) {
      var m := FirstIndex(prefix, x);
      assert xs[..m] == prefix[..m];
      FirstIndexUnique(xs, x, m);
    }
    if y !in prefix {
      assert xs[..|prefix|] == prefix;
      FirstIndexUnique(xs, y, |prefix|);
    }
  }

  /**
    Counting one more occurrence of `k`: the count of an existing key goes up
    by one in place; a new key is appended with count one, as assigning a
    new key does in an insertion-ordered dictionary.
  */
  function Bump(t: seq<Entry>, k: string): (r: seq<Entry>)
    requires NoDuplicates(Keys(t))
    ensures |r| == if k in Keys(t) then |t| else |t| + 1
    ensures forall i :: 0 <= i < |t| ==>
      r[i] == if t[i].key == k then Entry(k, t[i].count + 1) else t[i]
    ensures k !in Keys(t) ==> r[|t|] == Entry(k, 1)
    ensures Sum(r) == Sum(t) + 1
  {
    if t == [] then [Entry(k, 1)]
    else if t[0].key == k then
      assert Keys(t)[0] == k;
      assert forall i :: 0 < i < |t| ==> t[i].key != k by {
        forall i | 0 < i < |t| ensures t[i].key != k {
          assert Keys(t)[0] != Keys(t)[i];
        }
      }
      [Entry(k, t[0].count + 1)] + t[1..]
    else
      assert Keys(t[1..]) == Keys(t)[1..];
      assert k in Keys(t[1..]) <==> k in Keys(t);
      [t[0]] + Bump(t[1..], k)
  }

  /** `Counter(xs)`: one entry per distinct value, counted left to right. */
  function Tally(xs: seq<string>): (t: seq<Entry>)
    ensures Keys(t) == Distinct(xs)
    ensures forall i :: 0 <= i < |t| ==> t[i].count == multiset(xs)[t[i].key]
    ensures Sum(t) == |xs|
  {
    if xs == [] then []
    else
      var prefix := xs[..|xs| - 1];
      var y := xs[|xs| - 1];
      assert xs == prefix + [y];
      BumpTally(prefix, y, Tally(prefix));
      Bump(Tally(prefix), y)
  }

  /** One step of counting: bumping `y` in the counter of `xs` gives the counter of `xs + [y]`. */
  lemma BumpTally(xs: seq<string>, y: string, t: seq<Entry>)
    requires Keys(t) == Distinct(xs)
    requires forall i :: 0 <= i < |t| ==> t[i].count == multiset(xs)[t[i].key]
    ensures Keys(Bump(t, y)) == Distinct(xs + [y])
    ensures forall i :: 0 <= i < |Bump(t, y)| ==> Bump(t, y)[i].count == multiset(xs + [y])[Bump(t, y)[i].key]
  {
    BumpKeys(xs, y, t);
    BumpCounts(xs, y, t);
  }

  lemma DistinctSnoc(xs: seq<string>, y: string)
    ensures Distinct(xs + [y]) == if y in Distinct(xs) then Distinct(xs) else Distinct(xs) + [y]
  {
    assert (xs + [y])[..|xs|] == xs;
  }

  lemma BumpKeys(xs: seq<string>, y: string, t: seq<Entry>)
    requires Keys(t) == Distinct(xs)
    ensures Keys(Bump(t, y)) == Distinct(xs + [y])
  {
    var r := Bump(t, y);
    DistinctSnoc(xs, y);
    if y in Keys(t) {
      assert forall i :: 0 <= i < |t| ==> Keys(r)[i] == Keys(t)[i];
      assert Keys(r) == Keys(t);
    } else {
      assert forall i :: 0 <= i < |t| ==> Keys(r)[i] == (Keys(t) + [y])[i];
      assert Keys(r)[|t|] == y;
      assert Keys(r) == Keys(t) + [y];
    }
  }

  lemma BumpCounts(xs: seq<string>, y: string, t: seq<Entry>)
    requires Keys(t) == Distinct(xs)
    requires forall i :: 0 <= i < |t| ==> t[i].count == multiset(xs)[t[i].key]
    ensures forall i :: 0 <= i < |Bump(t, y)| ==> Bump(t, y)[i].count == multiset(xs + [y])[Bump(t, y)[i].key]
  {
    var r := Bump(t, y);
    assert multiset(xs + [y]) == multiset(xs) + multiset{y};
    forall i | 0 <= i < |r| ensures r[i].count == multiset(xs + [y])[r[i].key] {
      if i < |t| {
        assert r[i].key == t[i].key;
      } else {
        assert y !in Keys(t);
        assert y !in xs;
      }
    }
  }

  lemma {:induction false} SumSnoc(s: seq<Entry>, e: Entry)
    ensures Sum(s + [e]) == Sum(s) + e.count
  {
    if s != [] {
      assert (s + [e])[1..] == s[1..] + [e];
      SumSnoc(s[1..], e);
    }
  }

  /**
    Inserts `e` into a list ordered by count, largest first, after every entry
    whose count is at least `e`'s: a later entry never overtakes an earlier one
    with the same count.
  */
  function Insert(e: Entry, s: seq<Entry>): (r: seq<Entry>)
    ensures multiset(r) == multiset(s) + multiset{e}
    ensures Sum(r) == Sum(s) + e.count
  {
    if s == [] then [e]
    else if s[0].count >= e.count then
      assert s == [s[0]] + s[1..];
      [s[0]] + Insert(e, s[1..])
    else
      [e] + s
  }

  predicate Descending(s: seq<Entry>) {
    forall i, j :: 0 <= i < j < |s| ==> s[i].count >= s[j].count
  }

  lemma {:induction false} InsertMember(e: Entry, s: seq<Entry>, x: Entry)
    requires x in Insert(e, s)
    ensures x == e || x in s
  {
    assert x in multiset(Insert(e, s));
  }

  /** Prepending an entry whose count is at least every other count keeps the order. */
  lemma DescendingCons(a: Entry, s: seq<Entry>)
    requires Descending(s)
    requires forall j :: 0 <= j < |s| ==> a.count >= s[j].count
    ensures Descending([a] + s)
  {
    var r := [a] + s;
    forall i, j | 0 <= i < j < |r| ensures r[i].count >= r[j].count {
      if i == 0 {
        assert r[j] == s[j - 1];
      } else {
        assert r[i] == s[i - 1] && r[j] == s[j - 1];
      }
    }
  }

  /** Inserting into a list ordered by count, largest first, keeps it ordered. */
  lemma {:induction false} InsertDescending(e: Entry, s: seq<Entry>)
    requires Descending(s)
    ensures Descending(Insert(e, s))
  {
    if s == [] {
    } else if s[0].count >= e.count {
      var rest := Insert(e, s[1..]);
      InsertDescending(e, s[1..]);
      forall j | 0 <= j < |rest| ensures s[0].count >= rest[j].count {
        InsertMember(e, s[1..], rest[j]);
        if rest[j] != e {
          var k :| 0 <= k < |s[1..]| && s[1..][k] == rest[j];
          assert s[k + 1] == rest[j];
        }
      }
      DescendingCons(s[0], rest);
    } else {
      DescendingCons(e, s);
    }
  }

  /** A stable sort by count, largest first (insertion sort, left to right). */
  function SortByCount(s: seq<Entry>): (r: seq<Entry>)
    ensures multiset(r) == multiset(s)
    ensures Sum(r) == Sum(s)
    ensures Descending(r)
  {
    if s == [] then []
    else
      var prefix := s[..|s| - 1];
      assert s == prefix + [s[|s| - 1]];
      SumSnoc(prefix, s[|s| - 1]);
      InsertDescending(s[|s| - 1], SortByCount(prefix));
      Insert(s[|s| - 1], SortByCount(prefix))
  }

  /**
    `a` comes before `b` in `most_common` order over `xs`: a larger count, or
    the same count and an earlier first occurrence.
  */
  ghost predicate Precedes(a: Entry, b: Entry, xs: seq<string>) {
    a.count > b.count || (a.count == b.count && Rank(xs, a.key) < Rank(xs, b.key))
  }

  ghost predicate Ranked(s: seq<Entry>, xs: seq<string>) {
    forall i, j :: 0 <= i < j < |s| ==> Precedes(s[i], s[j], xs)
  }

  lemma {:induction false} InsertRanked(e: Entry, s: seq<Entry>, xs: seq<string>)
    requires Ranked(s, xs)
    requires forall i :: 0 <= i < |s| ==> Rank(xs, s[i].key) < Rank(xs, e.key)
    ensures Ranked(Insert(e, s), xs)
  {
    if s == [] {
    } else if s[0].count >= e.count {
      var rest := Insert(e, s[1..]);
      InsertRanked(e, s[1..], xs);
      forall j | 0 <= j < |rest| ensures Precedes(s[0], rest[j], xs) {
        InsertMember(e, s[1..], rest[j]);
        if rest[j] != e {
          var k :| 0 <= k < |s[1..]| && s[1..][k] == rest[j];
          assert s[k + 1] == rest[j];
        }
      }
      RankedCons(s[0], rest, xs);
    } else {
      forall j | 0 <= j < |s| ensures Precedes(e, s[j], xs) {
        if j > 0 {
          assert Precedes(s[0], s[j], xs);
        }
      }
      RankedCons(e, s, xs);
    }
  }

  lemma RankedCons(a: Entry, s: seq<Entry>, xs: seq<string>)
    requires Ranked(s, xs)
    requires forall j :: 0 <= j < |s| ==> Precedes(a, s[j], xs)
    ensures Ranked([a] + s, xs)
  {
    var r := [a] + s;
    forall i, j | 0 <= i < j < |r| ensures Precedes(r[i], r[j], xs) {
      if i == 0 {
        assert r[j] == s[j - 1];
      } else {
        assert r[i] == s[i - 1] && r[j] == s[j - 1];
      }
    }
  }

  /** Sorting a list that is in first-occurrence order puts it in `most_common` order. */
  lemma {:induction false} SortRanked(s: seq<Entry>, xs: seq<string>)
    requires forall i, j :: 0 <= i < j < |s| ==> Rank(xs, s[i].key) < Rank(xs, s[j].key)
    ensures Ranked(SortByCount(s), xs)
  {
    if s != [] {
      var prefix := s[..|s| - 1];
      var last := s[|s| - 1];
      var sorted := SortByCount(prefix);
      SortRanked(prefix, xs);
      forall i | 0 <= i < |sorted| ensures Rank(xs, sorted[i].key) < Rank(xs, last.key) {
        assert sorted[i] in multiset(prefix);
        var j :| 0 <= j < |prefix| && prefix[j] == sorted[i];
      }
      InsertRanked(last, sorted, xs);
    }
  }

  /** The items of `Counter(xs)` are in first-occurrence order. */
  lemma TallyInFirstOccurrenceOrder(xs: seq<string>)
    ensures forall i, j :: 0 <= i < j < |Tally(xs)| ==> Rank(xs, Tally(xs)[i].key) < Rank(xs, Tally(xs)[j].key)
  {
    var t := Tally(xs);
    var d := Distinct(xs);
    DistinctInFirstOccurrenceOrder(xs);
    forall i, j | 0 <= i < j < |t| ensures Rank(xs, t[i].key) < Rank(xs, t[j].key) {
      assert Keys(t)[i] == d[i] && Keys(t)[j] == d[j];
      assert d[i] in xs && d[j] in xs;
    }
  }

  /** The items of `Counter(xs)` are exactly the pairs of a value of `xs` and its count. */
  lemma TallyMembers(xs: seq<string>)
    ensures forall e :: e in Tally(xs) <==> e.key in xs && e.count == multiset(xs)[e.key]
  {
    var t := Tally(xs);
    var d := Distinct(xs);
    forall e ensures e in t <==> e.key in xs && e.count == multiset(xs)[e.key] {
      if e in t {
        var i :| 0 <= i < |t| && t[i] == e;
        assert Keys(t)[i] == d[i];
      }
      if e.key in xs && e.count == multiset(xs)[e.key] {
        assert e.key in d;
        var i :| 0 <= i < |d| && d[i] == e.key;
        assert Keys(t)[i] == d[i];
        assert t[i] == e;
      }
    }
  }

  /**
    The items of `Counter(xs)` in `most_common` order. The list is strictly
    ranked, which makes its keys distinct and settles every tie.
  */
  lemma SortedTally(xs: seq<string>)
    ensures Ranked(SortByCount(Tally(xs)), xs)
    ensures forall e :: e in SortByCount(Tally(xs)) <==> e.key in xs && e.count == multiset(xs)[e.key]
  {
    var t := Tally(xs);
    TallyInFirstOccurrenceOrder(xs);
    SortRanked(t, xs);
    TallyMembers(xs);
    var s := SortByCount(t);
    forall e ensures e in s <==> e in t {
      assert e in s <==> e in multiset(s);
      assert e in t <==> e in multiset(t);
    }
  }

  /** A list holding exactly the pairs of a value of `xs` and its count has exactly the values of `xs` as keys. */
  lemma KeysOfTally(r: seq<Entry>, xs: seq<string>)
    requires forall e :: e in r <==> e.key in xs && e.count == multiset(xs)[e.key]
    ensures forall a :: a in Keys(r) <==> a in xs
  {
    forall a ensures a in Keys(r) <==> a in xs {
      if a in xs {
        assert Entry(a, multiset(xs)[a]) in r;
        var i :| 0 <= i < |r| && r[i] == Entry(a, multiset(xs)[a]);
        assert Keys(r)[i] == a;
      }
      if a in Keys(r) {
        var i :| 0 <= i < |r| && Keys(r)[i] == a;
        assert r[i] in r;
      }
    }
  }

  function Take(s: seq<Entry>, n: int): (r: seq<Entry>)
    ensures |r| == if n <= 0 then 0 else if n < |s| then n else |s|
    ensures r == s[..|r|]
  {
    if n <= 0 then [] else if n < |s| then s[..n] else s
  }

  lemma TakeRanked(s: seq<Entry>, n: int, xs: seq<string>)
    requires Ranked(s, xs)
    requires forall e :: e in s <==> e.key in xs && e.count == multiset(xs)[e.key]
    ensures Ranked(Take(s, n), xs)
    ensures forall i :: 0 <= i < |Take(s, n)| ==>
      Take(s, n)[i].key in xs && Take(s, n)[i].count == multiset(xs)[Take(s, n)[i].key]
  {
    var r := Take(s, n);
    forall i | 0 <= i < |r| ensures r[i].key in xs && r[i].count == multiset(xs)[r[i].key] {
      assert r[i] == s[i] && s[i] in s;
    }
    forall i, j | 0 <= i < j < |r| ensures Precedes(r[i], r[j], xs) {
      assert r[i] == s[i] && r[j] == s[j];
    }
  }

  /** A strictly ranked list of true counts has distinct keys, in `most_common` order. */
  lemma RankedFacts(r: seq<Entry>, xs: seq<string>)
    requires Ranked(r, xs)
    requires forall i :: 0 <= i < |r| ==> r[i].key in xs && r[i].count == multiset(xs)[r[i].key]
    ensures NoDuplicates(Keys(r))
    ensures Descending(r)
    ensures forall i, j :: 0 <= i < j < |r| && r[i].count == r[j].count ==>
      FirstIndex(xs, r[i].key) < FirstIndex(xs, r[j].key)
  {
    forall i, j | 0 <= i < j < |r| ensures Keys(r)[i] != Keys(r)[j] {
      assert Precedes(r[i], r[j], xs);
    }
    forall i, j | 0 <= i < j < |r| ensures r[i].count >= r[j].count {
      assert Precedes(r[i], r[j], xs);
    }
  }

  /**
    Cutting a ranked list of all the counts after `k` items leaves out nothing
    that ranks above the last item kept.
  */
  lemma TopOmitsNothingBetter(s: seq<Entry>, k: nat, xs: seq<string>)
    requires Ranked(s, xs)
    requires forall e :: e in s <==> e.key in xs && e.count == multiset(xs)[e.key]
    requires 0 < k <= |s|
    ensures forall x :: x in xs && x !in Keys(s[..k]) ==> multiset(xs)[x] <= s[k - 1].count
    ensures forall x :: x in xs && x !in Keys(s[..k]) && multiset(xs)[x] == s[k - 1].count ==>
      FirstIndex(xs, s[k - 1].key) < FirstIndex(xs, x)
  {
    forall x | x in xs && x !in Keys(s[..k])
      ensures Precedes(s[k - 1], Entry(x, multiset(xs)[x]), xs)
    {
      var e := Entry(x, multiset(xs)[x]);
      assert forall i :: 0 <= i < k ==> s[i].key != x by {
        forall i | 0 <= i < k ensures s[i].key != x {
          assert Keys(s[..k])[i] == s[i].key;
        }
      }
      assert e in s;
      var j :| 0 <= j < |s| && s[j] == e;
      assert Precedes(s[k - 1], s[j], xs);
    }
  }

  /**
    `Counter(xs).most_common(n)`: the `n` most frequent values with their
    counts; all of them when there are fewer than `n`, none when `n <= 0`.
  */
  function MostCommon(xs: seq<string>, n: int): (r: seq<Entry>)
    ensures |r| == if n <= 0 then 0 else if n < |Distinct(xs)| then n else |Distinct(xs)|
    ensures forall i :: 0 <= i < |r| ==> r[i].key in xs && r[i].count == multiset(xs)[r[i].key]
    ensures NoDuplicates(Keys(r))
    ensures forall i, j :: 0 <= i < j < |r| ==> r[i].count >= r[j].count
    ensures forall i, j :: 0 <= i < j < |r| && r[i].count == r[j].count ==>
      FirstIndex(xs, r[i].key) < FirstIndex(xs, r[j].key)
    ensures forall x :: x in xs && x !in Keys(r) && |r| > 0 ==>
      multiset(xs)[x] <= r[|r| - 1].count
    ensures forall x :: x in xs && x !in Keys(r) && |r| > 0 && multiset(xs)[x] == r[|r| - 1].count ==>
      FirstIndex(xs, r[|r| - 1].key) < FirstIndex(xs, x)
  {
    var s := SortByCount(Tally(xs));
    SortedTally(xs);
    assert |s| == |Distinct(xs)| by {
      assert |multiset(s)| == |multiset(Tally(xs))|;
    }
    var r := Take(s, n);
    TakeRanked(s, n, xs);
    RankedFacts(r, xs);
    if |r| > 0 then
      TopOmitsNothingBetter(s, |r|, xs);
      r
    else
      r
  }
}
