/**
 * The sidebar's selections over the population table: the list of years
 * offered in the year picker, the rows of the chosen year, those rows sorted
 * by population with the largest first, and the largest population, which
 * bounds the progress bars of the "Top States" table.
 */
module Sidebar {
  import opened PopulationTable

  /** The `year` column, in table order. */
  function Years(table: seq<Record>): seq<int>
  {
    seq(|table|, k requires 0 <= k < |table| => table[k].year)
  }

  /** The position of the first occurrence of `x` in `s`. */
  function FirstIndex(s: seq<int>, x: int): (p: nat)
    requires x in s
    ensures p < |s| && s[p] == x
    ensures forall k :: 0 <= k < p ==> s[k] != x
  {
    if s[0] == x then 0 else 1 + FirstIndex(s[1..], x)
  }

  /** Appending to a sequence does not move the first occurrence of a value already in it. */
  lemma {:induction false} FirstIndexAppend(s: seq<int>, z: int, x: int)
    requires x in s
    ensures FirstIndex(s + [z], x) == FirstIndex(s, x)
  {
    if s[0] != x {
      assert (s + [z])[1..] == s[1..] + [z];
      FirstIndexAppend(s[1..], z, x);
    }
  }

  /**
   * pandas `unique`: each distinct value once, in order of first appearance.
   * Built from the back: the last value is kept only if it is new.
   */
  function Unique(s: seq<int>): (r: seq<int>)
    ensures forall x :: x in r <==> x in s
    ensures forall i, j :: 0 <= i < j < |r| ==> r[i] != r[j]
  {
    if s == [] then []
    else
      var front := Unique(s[..|s| - 1]);
      assert forall x :: x in s <==> x in s[..|s| - 1] || x == s[|s| - 1];
      if s[|s| - 1] in front then front else front + [s[|s| - 1]]
  }

  /** The values of `Unique(s)` are listed in the order of their first appearance in `s`. */
  lemma {:induction false} UniqueKeepsFirstAppearanceOrder(s: seq<int>)
    ensures forall i, j :: 0 <= i < j < |Unique(s)| ==> FirstIndex(s, Unique(s)[i]) < FirstIndex(s, Unique(s)[j])
  {
    if s != [] {
      var front := s[..|s| - 1];
      var z := s[|s| - 1];
      assert s == front + [z];
      UniqueKeepsFirstAppearanceOrder(front);
      var u := Unique(front);
      forall x | x in front
        ensures FirstIndex(s, x) == FirstIndex(front, x)
      {
        FirstIndexAppend(front, z, x);
      }
      if z !in u {
        assert z !in front;
        assert FirstIndex(s, z) == |front|;
      }
    }
  }

  /** The sequence read back to front, as the slice `[::-1]` gives it. */
  function Reverse(u: seq<int>): seq<int>
  {
    seq(|u|, i requires 0 <= i < |u| => u[|u| - 1 - i])
  }

  /** A year is in the year column exactly when some row has it. */
  lemma InYears(table: seq<Record>, y: int)
    ensures y in Years(table) <==> exists k :: 0 <= k < |table| && table[k].year == y
  {
    assert |Years(table)| == |table|;
    assert forall k :: 0 <= k < |table| ==> Years(table)[k] == table[k].year;
  }

  /** Reading the distinct values back to front keeps them distinct and reverses their order. */
  lemma ReverseUnique(ys: seq<int>)
    ensures forall y :: y in Reverse(Unique(ys)) <==> y in ys
    ensures forall i, j :: 0 <= i < j < |Reverse(Unique(ys))| ==>
              && Reverse(Unique(ys))[i] != Reverse(Unique(ys))[j]
              && FirstIndex(ys, Reverse(Unique(ys))[i]) > FirstIndex(ys, Reverse(Unique(ys))[j])
  {
    var u := Unique(ys);
    var r := Reverse(u);
    var n := |u|;
    forall y | y in u
      ensures y in r
    {
      var i :| 0 <= i < n && u[i] == y;
      assert r[n - 1 - i] == y;
    }
    UniqueKeepsFirstAppearanceOrder(ys);
    forall i, j | 0 <= i < j < n
      ensures r[i] != r[j] && FirstIndex(ys, r[i]) > FirstIndex(ys, r[j])
    {
      assert FirstIndex(ys, u[n - 1 - j]) < FirstIndex(ys, u[n - 1 - i]);
    }
  }

  /**
   * `list(df.year.unique())[::-1]`: every year of the table exactly once,
   * in the reverse of the order in which the years first appear.
   */
  function YearList(table: seq<Record>): (r: seq<int>)
    ensures forall y :: y in r <==> exists k :: 0 <= k < |table| && table[k].year == y
    ensures forall i, j :: 0 <= i < j < |r| ==> r[i] != r[j]
    ensures forall i :: 0 <= i < |r| ==> r[i] in Years(table)
    ensures forall i, j :: 0 <= i < j < |r| ==> FirstIndex(Years(table), r[i]) > FirstIndex(Years(table), r[j])
  {
    ReverseUnique(Years(table));
    assert forall y :: y in Years(table) <==> exists k :: 0 <= k < |table| && table[k].year == y by {
      forall y
        ensures y in Years(table) <==> exists k :: 0 <= k < |table| && table[k].year == y
      {
        InYears(table, y);
      }
    }
    Reverse(Unique(Years(table)))
  }

  /** A year offered by the picker selects at least one row, so `max` below has something to take. */
  lemma SelectableYearHasRows(table: seq<Record>, y: int)
    requires y in YearList(table)
    ensures |FilterYear(table, y)| > 0
  {
  }

  /** Population never increases from one row to a later one. */
  predicate ByPopulationDescending(s: seq<Record>)
  {
    forall i, j :: 0 <= i < j < |s| ==> s[i].population >= s[j].population
  }

  /** Every row of a permutation of `s[1..]` plus a smaller `x` lies at or below `s[0]`. */
  lemma BelowHead(x: Record, s: seq<Record>, rest: seq<Record>)
    requires ByPopulationDescending(s)
    requires |s| > 0 && x.population < s[0].population
    requires multiset(rest) == multiset(s[1..]) + multiset{x}
    ensures forall k :: 0 <= k < |rest| ==> rest[k].population <= s[0].population
  {
    forall k | 0 <= k < |rest|
      ensures rest[k].population <= s[0].population
    {
      assert rest[k] in multiset(rest);
      if rest[k] != x {
        assert rest[k] in multiset(s[1..]);
        var m :| 0 <= m < |s[1..]| && s[1..][m] == rest[k];
        assert s[m + 1] == rest[k];
      }
    }
  }

  /** Places `x` before the first row whose population does not exceed its own. */
  function Insert(x: Record, s: seq<Record>): (r: seq<Record>)
    requires ByPopulationDescending(s)
    ensures ByPopulationDescending(r)
    ensures multiset(r) == multiset(s) + multiset{x}
  {
    if s == [] || x.population >= s[0].population then
      [x] + s
    else
      var rest := Insert(x, s[1..]);
      assert s == [s[0]] + s[1..];
      BelowHead(x, s, rest);
      [s[0]] + rest
  }

  /** `sort_values(by="population", ascending=False)`: the same rows, largest population first. */
  function SortByPopulation(s: seq<Record>): (r: seq<Record>)
    ensures ByPopulationDescending(r)
    ensures multiset(r) == multiset(s)
  {
    if s == [] then []
    else
      assert s == [s[0]] + s[1..];
      Insert(s[0], SortByPopulation(s[1..]))
  }

  /**
   * `df_selected_year_sorted`: a permutation of exactly the table's rows of
   * year `y` (each as often as it occurs in the table), ordered by population
   * non-increasing.
   */
  function SelectedYearSorted(table: seq<Record>, y: int): (r: seq<Record>)
    ensures ByPopulationDescending(r)
    ensures forall x: Record | x.year == y :: multiset(r)[x] == multiset(table)[x]
    ensures forall x: Record | x.year != y :: multiset(r)[x] == 0
  {
    FilterYearContents(table, y);
    SortByPopulation(FilterYear(table, y))
  }

  /** Python `max` over the population column of a non-empty frame. */
  function MaxPopulation(s: seq<Record>): (m: nat)
    requires |s| > 0
    ensures forall k :: 0 <= k < |s| ==> s[k].population <= m
    ensures exists k :: 0 <= k < |s| && s[k].population == m
  {
    if |s| == 1 then s[0].population
    else
      var rest := MaxPopulation(s[1..]);
      assert forall k :: 1 <= k < |s| ==> s[k] == s[1..][k - 1];
      if s[0].population >= rest then s[0].population else rest
  }

  /**
   * The progress-bar bound `max(df_selected_year_sorted.population)` is the
   * population of the first row of the sorted selection, and the largest
   * population among the selected year's rows.
   */
  lemma SortedHeadIsMax(table: seq<Record>, y: int)
    requires |FilterYear(table, y)| > 0
    ensures |SelectedYearSorted(table, y)| > 0
    ensures SelectedYearSorted(table, y)[0].population == MaxPopulation(SelectedYearSorted(table, y))
    ensures MaxPopulation(SelectedYearSorted(table, y)) == MaxPopulation(FilterYear(table, y))
  {
  }
}
