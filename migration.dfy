/**
 * `calculate_migration_data`: the year-over-year population change of every
 * state, split into a non-negative inbound part and a non-negative outbound
 * part.
 *
 * The source filters the table to the selected year and to the year before,
 * re-indexes both selections 0..n-1 and subtracts them column-wise, so row i
 * of one is paired with row i of the other purely by position. Where the
 * previous-year selection has no row i (it is shorter, or empty because the
 * selected year is the first one in the data) pandas produces NaN, which the
 * `.where` masks turn into 0 for both parts. The model writes NaN as `None`.
 *
 * One more branch comes from pandas' column assignment: when the selected
 * year has no rows at all, the frame is empty, and assigning the (all-NaN)
 * difference Series to it re-indexes the frame to that Series' index. The
 * result then has one row per previous-year row, with NaN as its state and
 * 0 for both parts.
 */
module Migration {
  import opened PopulationTable

  /**
   * One output row: the projection onto `states`, `inbound_migration`,
   * `outbound_migration`; a `None` state is NaN.
   */
  datatype MigrationRow = MigrationRow(states: Option<string>, inboundMigration: int, outboundMigration: int)

  /** `selected_year_data.population - previous_year_data.population`, index-aligned; `None` is NaN. */
  function PopulationDifference(current: seq<Record>, previous: seq<Record>): (d: seq<Option<int>>)
    ensures |d| == |current|
    ensures forall i :: 0 <= i < |d| ==> (d[i].Some? <==> i < |previous|)
  {
    seq(|current|, i requires 0 <= i < |current| =>
      if i < |previous| then Some(current[i].population - previous[i].population) else None)
  }

  /** `diff.where(diff > 0, 0)`: the positive part of a change; NaN fails the test and becomes 0. */
  function Inbound(d: Option<int>): (v: int)
    ensures v >= 0
    ensures v > 0 <==> d.Some? && d.value > 0
  {
    if d.Some? && d.value > 0 then d.value else 0
  }

  /** `-diff.where(diff < 0, 0)`: the magnitude of a negative change; NaN becomes 0. */
  function Outbound(d: Option<int>): (v: int)
    ensures v >= 0
    ensures v > 0 <==> d.Some? && d.value < 0
  {
    if d.Some? && d.value < 0 then -d.value else 0
  }

  /**
   * The migration frame for `selectedYear`. When the year has rows: one row
   * per selected-year row, in table order, carrying its state. When it has
   * none: one stateless row per previous-year row (see the module comment).
   */
  function CalculateMigrationData(table: seq<Record>, selectedYear: int): (r: seq<MigrationRow>)
    ensures FilterYear(table, selectedYear) != [] ==>
              && |r| == |FilterYear(table, selectedYear)|
              && forall i :: 0 <= i < |r| ==> r[i].states == Some(FilterYear(table, selectedYear)[i].states)
    ensures FilterYear(table, selectedYear) == [] ==>
              && |r| == |FilterYear(table, selectedYear - 1)|
              && forall i :: 0 <= i < |r| ==> r[i].states.None?
    ensures forall i :: 0 <= i < |r| ==> r[i].inboundMigration >= 0 && r[i].outboundMigration >= 0
    ensures forall i :: 0 <= i < |r| ==> r[i].inboundMigration == 0 || r[i].outboundMigration == 0
    ensures forall i :: 0 <= i < |FilterYear(table, selectedYear)| && i < |FilterYear(table, selectedYear - 1)| ==>
              r[i].inboundMigration - r[i].outboundMigration
              == FilterYear(table, selectedYear)[i].population - FilterYear(table, selectedYear - 1)[i].population
    ensures forall i :: 0 <= i < |r| && (i >= |FilterYear(table, selectedYear - 1)| || FilterYear(table, selectedYear) == []) ==>
              r[i].inboundMigration == 0 && r[i].outboundMigration == 0
  {
    var current := FilterYear(table, selectedYear);
    var previous := FilterYear(table, selectedYear - 1);
    if current == [] then
      // Every difference is NaN, so the frame takes the difference's index and both masks give 0.
      seq(|previous|, i requires 0 <= i < |previous| => MigrationRow(None, 0, 0))
    else
      var diff := PopulationDifference(current, previous);
      seq(|current|, i requires 0 <= i < |current| =>
        MigrationRow(Some(current[i].states), Inbound(diff[i]), Outbound(diff[i])))
  }

  /**
   * Row i of the result pairs row i of the selected-year rows with row i of
   * the previous-year rows: inbound minus outbound is exactly their population
   * difference, inbound is positive iff the population grew, outbound is
   * positive iff it shrank.
   */
  lemma PairedDifference(table: seq<Record>, selectedYear: int, i: nat)
    requires i < |FilterYear(table, selectedYear)|
    requires i < |FilterYear(table, selectedYear - 1)|
    ensures var r := CalculateMigrationData(table, selectedYear);
            var delta := FilterYear(table, selectedYear)[i].population - FilterYear(table, selectedYear - 1)[i].population;
            && r[i].inboundMigration - r[i].outboundMigration == delta
            && (r[i].inboundMigration > 0 <==> delta > 0)
            && (r[i].outboundMigration > 0 <==> delta < 0)
  {
  }

  /**
   * A year with no predecessor in the data, such as the first year (which the
   * dashboard passes in unguarded), gives a frame of zeros: every difference
   * is NaN and is masked to 0.
   */
  lemma NoPreviousYearIsAllZero(table: seq<Record>, selectedYear: int)
    requires forall k :: 0 <= k < |table| ==> table[k].year != selectedYear - 1
    ensures forall row :: row in CalculateMigrationData(table, selectedYear) ==>
              row.inboundMigration == 0 && row.outboundMigration == 0
  {
    FilterYearEmpty(table, selectedYear - 1);
  }

  /**
   * A year absent from the table raises no error: the frame holds one
   * stateless all-zero row per previous-year row, and so is empty exactly
   * when the year before is absent too.
   */
  lemma UnknownYearGivesStatelessRows(table: seq<Record>, selectedYear: int)
    requires forall k :: 0 <= k < |table| ==> table[k].year != selectedYear
    ensures |CalculateMigrationData(table, selectedYear)| == |FilterYear(table, selectedYear - 1)|
    ensures forall row :: row in CalculateMigrationData(table, selectedYear) ==> row == MigrationRow(None, 0, 0)
    ensures CalculateMigrationData(table, selectedYear) == [] <==>
              forall k :: 0 <= k < |table| ==> table[k].year != selectedYear - 1
  {
    FilterYearEmpty(table, selectedYear);
    FilterYearEmpty(table, selectedYear - 1);
  }

  /**
   * What positional pairing silently assumes: both year selections have the
   * same length and name the same state at every position.
   */
  predicate Aligned(table: seq<Record>, selectedYear: int)
  {
    var current := FilterYear(table, selectedYear);
    var previous := FilterYear(table, selectedYear - 1);
    && |current| == |previous|
    && forall i :: 0 <= i < |current| ==> current[i].states == previous[i].states
  }

  /**
   * Reference definition by key: each selected-year row is joined with the
   * previous-year row of the same state; a state without one gets 0 and 0.
   */
  function MigrationByKey(table: seq<Record>, selectedYear: int): (r: seq<MigrationRow>)
    ensures |r| == |FilterYear(table, selectedYear)|
  {
    var current := FilterYear(table, selectedYear);
    seq(|current|, i requires 0 <= i < |current| =>
      var d := match Lookup(table, current[i].states, selectedYear - 1)
               case Some(p) => Some(current[i].population - p)
               case None => None;
      MigrationRow(Some(current[i].states), Inbound(d), Outbound(d)))
  }

  /** A row of a year selection is a row of the table, so its key is found. */
  lemma SelectedRowFound(table: seq<Record>, y: int, i: nat)
    requires UniqueKeys(table)
    requires i < |FilterYear(table, y)|
    ensures var row := FilterYear(table, y)[i];
            Lookup(table, row.states, y) == Some(row.population)
  {
    var row := FilterYear(table, y)[i];
    FilterYearContents(table, y);
    assert row in table;
    var k :| 0 <= k < |table| && table[k] == row;
    LookupFinds(table, k);
  }

  /**
   * When keys are unique and the two year selections are aligned, the
   * positional computation agrees with the key-based join.
   */
  lemma PositionalMatchesKeyed(table: seq<Record>, selectedYear: int)
    requires UniqueKeys(table)
    requires Aligned(table, selectedYear)
    ensures CalculateMigrationData(table, selectedYear) == MigrationByKey(table, selectedYear)
  {
    var r := CalculateMigrationData(table, selectedYear);
    var m := MigrationByKey(table, selectedYear);
    forall i | 0 <= i < |r|
      ensures r[i] == m[i]
    {
      SelectedRowFound(table, selectedYear - 1, i);
    }
  }

  /**
   * Under the same conditions, every row's net change is the state's
   * population in the selected year minus its population the year before,
   * both looked up by key.
   */
  lemma NetChangeByKey(table: seq<Record>, selectedYear: int, i: nat)
    requires UniqueKeys(table)
    requires Aligned(table, selectedYear)
    requires i < |FilterYear(table, selectedYear)|
    ensures var row := CalculateMigrationData(table, selectedYear)[i];
            var state := FilterYear(table, selectedYear)[i].states;
            && row.states == Some(state)
            && Lookup(table, state, selectedYear).Some?
            && Lookup(table, state, selectedYear - 1).Some?
            && row.inboundMigration - row.outboundMigration
               == Lookup(table, state, selectedYear).value - Lookup(table, state, selectedYear - 1).value
  {
    var current := FilterYear(table, selectedYear);
    var previous := FilterYear(table, selectedYear - 1);
    SelectedRowFound(table, selectedYear, i);
    SelectedRowFound(table, selectedYear - 1, i);
    assert current[i].states == previous[i].states;
    PairedDifference(table, selectedYear, i);
  }

  /**
   * Without alignment the two can differ: with the previous year listed in a
   * different state order, a state whose population did not change is
   * charged with the difference between its own population and another
   * state's previous-year population.
   */
  lemma MisalignedPairingDiffers()
    ensures var table := [Record("A", 2011, 5), Record("B", 2011, 9),
                          Record("B", 2012, 9), Record("A", 2012, 5)];
            && UniqueKeys(table)
            && !Aligned(table, 2012)
            && CalculateMigrationData(table, 2012)[0] == MigrationRow(Some("B"), 4, 0)
            && MigrationByKey(table, 2012)[0] == MigrationRow(Some("B"), 0, 0)
  {
    var table := [Record("A", 2011, 5), Record("B", 2011, 9),
                  Record("B", 2012, 9), Record("A", 2012, 5)];
    assert FilterYear(table, 2012) == [Record("B", 2012, 9), Record("A", 2012, 5)];
    assert FilterYear(table, 2011) == [Record("A", 2011, 5), Record("B", 2011, 9)];
  }
}
