/**
 * The population table the dashboard loads from its CSV file: one record per
 * (state, year) with the state's resident population, and the boolean-mask
 * year filter `df[df.year == y]` that both the sidebar and the migration
 * calculation apply to it.
 */
module PopulationTable {

  datatype Option<T> = None | Some(value: T)

  /** One row of the reshaped table: columns `states`, `year`, `population`. */
  datatype Record = Record(states: string, year: int, population: nat)

  /**
   * The rows whose year is `y`, in table order, each as often as it occurs
   * (pandas boolean-mask selection).
   */
  function FilterYear(table: seq<Record>, y: int): (r: seq<Record>)
    ensures |r| <= |table|
    ensures forall i :: 0 <= i < |r| ==> r[i].year == y
  {
    if table == [] then []
    else if table[0].year == y then [table[0]] + FilterYear(table[1..], y)
    else FilterYear(table[1..], y)
  }

  /**
   * The selection holds exactly the rows of year `y`, each with its
   * multiplicity in the table, and no other row.
   */
  lemma {:induction false} FilterYearContents(table: seq<Record>, y: int)
    ensures forall x: Record | x.year == y :: multiset(FilterYear(table, y))[x] == multiset(table)[x]
    ensures forall x: Record | x.year != y :: multiset(FilterYear(table, y))[x] == 0
    ensures forall x :: x in FilterYear(table, y) <==> x in table && x.year == y
  {
    if table != [] {
      assert table == [table[0]] + table[1..];
      FilterYearContents(table[1..], y);
    }
  }

  /** Filtering distributes over concatenation: the rows keep their relative order. */
  lemma {:induction false} FilterYearAppend(t1: seq<Record>, t2: seq<Record>, y: int)
    ensures FilterYear(t1 + t2, y) == FilterYear(t1, y) + FilterYear(t2, y)
  {
    if t1 == [] {
      assert t1 + t2 == t2;
    } else {
      var head := if t1[0].year == y then [t1[0]] else [];
      assert (t1 + t2)[0] == t1[0];
      assert (t1 + t2)[1..] == t1[1..] + t2;
      FilterYearAppend(t1[1..], t2, y);
      calc {
        FilterYear(t1 + t2, y);
        head + FilterYear(t1[1..] + t2, y);
        head + (FilterYear(t1[1..], y) + FilterYear(t2, y));
        (head + FilterYear(t1[1..], y)) + FilterYear(t2, y);
        FilterYear(t1, y) + FilterYear(t2, y);
      }
    }
  }

  /** A year with no row selects nothing; a year with a row selects something. */
  lemma FilterYearEmpty(table: seq<Record>, y: int)
    ensures FilterYear(table, y) == [] <==> forall k :: 0 <= k < |table| ==> table[k].year != y
  {
  }

  /** No two rows share a (state, year) key. */
  predicate UniqueKeys(table: seq<Record>)
  {
    forall i, j :: 0 <= i < j < |table| && table[i].states == table[j].states ==> table[i].year != table[j].year
  }

  /** The population of `state` in year `y`, found by key rather than by position. */
  function Lookup(table: seq<Record>, state: string, y: int): (r: Option<nat>)
    ensures r.None? <==> forall k :: 0 <= k < |table| ==> table[k].states != state || table[k].year != y
  {
    if table == [] then None
    else if table[0].states == state && table[0].year == y then Some(table[0].population)
    else
      var r := Lookup(table[1..], state, y);
      assert forall k :: 1 <= k < |table| ==> table[k] == table[1..][k - 1];
      r
  }

  /** With unique keys, looking up a row's key yields that row's population. */
  lemma {:induction false} LookupFinds(table: seq<Record>, k: nat)
    requires UniqueKeys(table)
    requires k < |table|
    ensures Lookup(table, table[k].states, table[k].year) == Some(table[k].population)
  {
    if k > 0 && !(table[0].states == table[k].states && table[0].year == table[k].year) {
      var tail := table[1..];
      assert tail[k - 1] == table[k];
      assert UniqueKeys(tail) by {
        forall i, j | 0 <= i < j < |tail| && tail[i].states == tail[j].states
          ensures tail[i].year != tail[j].year
        {
          assert tail[i] == table[i + 1] && tail[j] == table[j + 1];
        }
      }
      LookupFinds(tail, k - 1);
    }
  }
}
