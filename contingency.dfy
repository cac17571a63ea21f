/**
 * The dense city x offense contingency table: `pd.crosstab` of the grouped
 * counts with `aggfunc='mean'`, then `fillna(0, inplace=True)`.
 */
module Contingency {
  import opened Labels
  import opened GroupedCounts
  import opened Fingerprints

  /** The (city, offense) pairs that have a group. */
  function Pairs(rows: seq<GroupedRow>): set<(string, string)>
  {
    set i | 0 <= i < |rows| :: (rows[i].city, rows[i].offense)
  }

  /** Every (row label, column label) combination. */
  function Grid(index: seq<string>, columns: seq<string>): set<(string, string)>
  {
    set c, o | c in index && o in columns :: (c, o)
  }

  lemma GridMember(index: seq<string>, columns: seq<string>, c: string, o: string)
    ensures (c, o) in Grid(index, columns) <==> c in index && o in columns
  {
  }

  /**
   * The crosstab before `fillna`: a cell exists only for an observed pair
   * (the others are NaN, i.e. absent here), and it holds the mean of that
   * pair's counts, which for a single group is the group's Count(*).
   */
  function CrossTab(rows: seq<GroupedRow>): (cells: map<(string, string), nat>)
    requires PairsDistinct(rows)
    ensures forall c, o :: (c, o) in cells <==> HasPair(rows, c, o)
    ensures forall i :: 0 <= i < |rows| ==>
      (rows[i].city, rows[i].offense) in cells && cells[(rows[i].city, rows[i].offense)] == rows[i].count
  {
    assert forall i :: 0 <= i < |rows| ==>
      (rows[i].city, rows[i].offense) in Pairs(rows) && Count(rows, rows[i].city, rows[i].offense) == rows[i].count
    by {
      forall i | 0 <= i < |rows|
        ensures (rows[i].city, rows[i].offense) in Pairs(rows) && Count(rows, rows[i].city, rows[i].offense) == rows[i].count
      {
        CountOfRow(rows, i);
      }
    }
    map p | p in Pairs(rows) :: Count(rows, p.0, p.1)
  }

  /** The crosstab holds no cell outside its sorted label grid. */
  lemma CrossTabInGrid(rows: seq<GroupedRow>)
    requires PairsDistinct(rows)
    ensures CrossTab(rows).Keys <= Grid(SortedDistinct(CityColumn(rows)), SortedDistinct(OffenseColumn(rows)))
  {
    var index, columns := SortedDistinct(CityColumn(rows)), SortedDistinct(OffenseColumn(rows));
    forall p | p in CrossTab(rows) ensures p in Grid(index, columns) {
      var i :| 0 <= i < |rows| && rows[i].city == p.0 && rows[i].offense == p.1;
      assert CityColumn(rows)[i] == p.0 && OffenseColumn(rows)[i] == p.1;
      GridMember(index, columns, p.0, p.1);
    }
  }

  /** Filling with `v`: every combination of labels gets a cell; the NaN (absent) ones get `v`. */
  function FilledCells(cells: map<(string, string), nat>, index: seq<string>, columns: seq<string>, v: nat)
    : map<(string, string), nat>
  {
    map p | p in Grid(index, columns) :: if p in cells then cells[p] else v
  }

  /**
   * The finished table: dense over sorted distinct cities x sorted distinct
   * offenses, each cell the pair's count or 0.
   */
  function DenseTable(rows: seq<GroupedRow>): map<(string, string), nat>
    requires PairsDistinct(rows)
  {
    FilledCells(CrossTab(rows), SortedDistinct(CityColumn(rows)), SortedDistinct(OffenseColumn(rows)), 0)
  }

  /**
   * Each cell of the finished table: present exactly for an observed city and
   * an observed offense type, and equal to the pair's count, or 0 for a pair
   * with no group.
   */
  lemma DenseCell(rows: seq<GroupedRow>, c: string, o: string)
    requires PairsDistinct(rows)
    ensures (c, o) in DenseTable(rows) <==> c in CityColumn(rows) && o in OffenseColumn(rows)
    ensures (c, o) in DenseTable(rows) ==> DenseTable(rows)[(c, o)] == Count(rows, c, o)
    ensures (c, o) in DenseTable(rows) && !HasPair(rows, c, o) ==> DenseTable(rows)[(c, o)] == 0
  {
    GridMember(SortedDistinct(CityColumn(rows)), SortedDistinct(OffenseColumn(rows)), c, o);
    if !HasPair(rows, c, o) {
      CountAbsent(rows, c, o);
    }
  }

  class ContingencyTable {
    /** Row labels (cities). */
    var index: seq<string>
    /** Column labels (offense types). */
    var columns: seq<string>
    /** The cells; a missing key is a NaN cell. */
    var cells: map<(string, string), nat>

    /** Sorted, duplicate-free labels, and no cell outside the label grid. */
    ghost predicate Valid()
      reads this
    {
      StrictlySorted(index) && StrictlySorted(columns) && cells.Keys <= Grid(index, columns)
    }

    /**
     * The crosstab of the grouped counts, averaging the counts of each pair:
     * labels sorted, and a cell only for an observed pair.
     */
    constructor (rows: seq<GroupedRow>)
      requires PairsDistinct(rows)
      ensures Valid()
      ensures index == SortedDistinct(CityColumn(rows))
      ensures columns == SortedDistinct(OffenseColumn(rows))
      ensures cells == CrossTab(rows)
    {
      index := SortedDistinct(CityColumn(rows));
      columns := SortedDistinct(OffenseColumn(rows));
      cells := CrossTab(rows);
      new;
      CrossTabInGrid(rows);
    }

    /** Replaces every missing (NaN) cell of the grid by `v`, in place. */
    method FillNa(v: nat)
      requires Valid()
      modifies this
      ensures Valid()
      ensures index == old(index) && columns == old(columns)
      ensures cells.Keys == Grid(index, columns)
      ensures forall p :: p in old(cells) ==> p in cells && cells[p] == old(cells)[p]
      ensures cells == FilledCells(old(cells), index, columns, v)
    {
      cells := FilledCells(cells, index, columns, v);
    }
  }

  /** Building the table as the precomputation does: crosstab, then fill with 0 in place. */
  method BuildContingencyTable(rows: seq<GroupedRow>) returns (t: ContingencyTable)
    requires PairsDistinct(rows)
    ensures fresh(t)
    ensures t.index == SortedDistinct(CityColumn(rows))
    ensures t.columns == SortedDistinct(OffenseColumn(rows))
    ensures t.cells == DenseTable(rows)
  {
    t := new ContingencyTable(rows);
    t.FillNa(0);
  }

  /** The table and the fingerprint matrix hold the same numbers: `table[city][o] == E[city][index of o in crimes]`. */
  lemma TableAgreesWithFingerprints(rows: seq<GroupedRow>, cidades: seq<string>, crimes: seq<string>,
                                    e: map<string, seq<nat>>)
    requires PairsDistinct(rows)
    requires IsFingerprintMatrix(rows, cidades, crimes, e)
    ensures forall c, k :: c in e && 0 <= k < |crimes| ==>
      (c, crimes[k]) in DenseTable(rows) && DenseTable(rows)[(c, crimes[k])] == e[c][k]
  {
    forall c, k | c in e && 0 <= k < |crimes|
      ensures (c, crimes[k]) in DenseTable(rows) && DenseTable(rows)[(c, crimes[k])] == e[c][k]
    {
      assert c in CityColumn(rows) && crimes[k] in OffenseColumn(rows);
      DenseCell(rows, c, crimes[k]);
    }
  }

  /** Sum of one row of a table over the given columns (absent cells read as 0). */
  function RowSum(cells: map<(string, string), nat>, city: string, columns: seq<string>): nat
  {
    if columns == [] then 0
    else (if (city, columns[0]) in cells then cells[(city, columns[0])] else 0) + RowSum(cells, city, columns[1..])
  }

  /** Sum of one column of a table over the given rows (absent cells read as 0). */
  function ColumnSum(cells: map<(string, string), nat>, index: seq<string>, offense: string): nat
  {
    if index == [] then 0
    else (if (index[0], offense) in cells then cells[(index[0], offense)] else 0) + ColumnSum(cells, index[1..], offense)
  }

  /** Sum of every cell of a table. */
  function GridSum(cells: map<(string, string), nat>, index: seq<string>, columns: seq<string>): nat
  {
    if index == [] then 0 else RowSum(cells, index[0], columns) + GridSum(cells, index[1..], columns)
  }

  lemma RowSumIsSumCounts(rows: seq<GroupedRow>, city: string, os: seq<string>)
    requires PairsDistinct(rows)
    requires city in CityColumn(rows)
    requires forall o :: o in os ==> o in OffenseColumn(rows)
    ensures RowSum(DenseTable(rows), city, os) == SumCounts(rows, city, os)
  {
    var cells := DenseTable(rows);
    forall o | o in os ensures (city, o) in cells && cells[(city, o)] == Count(rows, city, o) {
      DenseCell(rows, city, o);
    }
    RowSumOfCells(cells, rows, city, os);
  }

  lemma {:induction false} RowSumOfCells(cells: map<(string, string), nat>, rows: seq<GroupedRow>, city: string,
                                         os: seq<string>)
    requires forall o :: o in os ==> (city, o) in cells && cells[(city, o)] == Count(rows, city, o)
    ensures RowSum(cells, city, os) == SumCounts(rows, city, os)
  {
    if os != [] {
      assert forall o :: o in os[1..] ==> o in os;
      RowSumOfCells(cells, rows, city, os[1..]);
    }
  }

  lemma ColumnSumIsSumCounts(rows: seq<GroupedRow>, cs: seq<string>, offense: string)
    requires PairsDistinct(rows)
    requires offense in OffenseColumn(rows)
    requires forall c :: c in cs ==> c in CityColumn(rows)
    ensures ColumnSum(DenseTable(rows), cs, offense) == SumCounts(Swapped(rows), offense, cs)
  {
    var cells := DenseTable(rows);
    forall c | c in cs ensures (c, offense) in cells && cells[(c, offense)] == Count(Swapped(rows), offense, c) {
      DenseCell(rows, c, offense);
      SwappedCount(rows, c, offense);
    }
    ColumnSumOfCells(cells, Swapped(rows), cs, offense);
  }

  lemma {:induction false} ColumnSumOfCells(cells: map<(string, string), nat>, swapped: seq<GroupedRow>,
                                            cs: seq<string>, offense: string)
    requires forall c :: c in cs ==> (c, offense) in cells && cells[(c, offense)] == Count(swapped, offense, c)
    ensures ColumnSum(cells, cs, offense) == SumCounts(swapped, offense, cs)
  {
    if cs != [] {
      assert forall c :: c in cs[1..] ==> c in cs;
      ColumnSumOfCells(cells, swapped, cs[1..], offense);
    }
  }

  /** Every group's city and offense type are among the table's labels. */
  lemma LabelsCoverRows(rows: seq<GroupedRow>)
    ensures forall i :: 0 <= i < |rows| ==> rows[i].city in SortedDistinct(CityColumn(rows))
    ensures forall i :: 0 <= i < |rows| ==> rows[i].offense in SortedDistinct(OffenseColumn(rows))
  {
    forall i | 0 <= i < |rows|
      ensures rows[i].city in SortedDistinct(CityColumn(rows))
      ensures rows[i].offense in SortedDistinct(OffenseColumn(rows))
    {
      assert CityColumn(rows)[i] == rows[i].city;
      assert OffenseColumn(rows)[i] == rows[i].offense;
    }
  }

  /** Every row sum of the table is that city's number of events. */
  lemma TableRowSum(rows: seq<GroupedRow>, city: string)
    requires PairsDistinct(rows)
    requires city in CityColumn(rows)
    ensures RowSum(DenseTable(rows), city, SortedDistinct(OffenseColumn(rows))) == CityTotal(rows, city)
  {
    var os := SortedDistinct(OffenseColumn(rows));
    RowSumIsSumCounts(rows, city, os);
    SortedHasNoDuplicates(os);
    LabelsCoverRows(rows);
    SumCountsIsCityTotal(rows, city, os);
  }

  lemma SwappedCovers(rows: seq<GroupedRow>, cs: seq<string>, offense: string)
    requires forall i :: 0 <= i < |rows| ==> rows[i].city in cs
    ensures CoversCity(cs, Swapped(rows), offense)
  {
    var t := Swapped(rows);
    assert forall i :: 0 <= i < |t| ==> t[i].offense == rows[i].city;
  }

  /** Every column sum of the table is that offense type's number of events. */
  lemma TableColumnSum(rows: seq<GroupedRow>, offense: string)
    requires PairsDistinct(rows)
    requires offense in OffenseColumn(rows)
    ensures ColumnSum(DenseTable(rows), SortedDistinct(CityColumn(rows)), offense) == OffenseTotal(rows, offense)
  {
    var cs := SortedDistinct(CityColumn(rows));
    ColumnSumIsSumCounts(rows, cs, offense);
    SortedHasNoDuplicates(cs);
    SwappedPairsDistinct(rows);
    LabelsCoverRows(rows);
    SwappedCovers(rows, cs, offense);
    SumCountsIsCityTotal(Swapped(rows), offense, cs);
    SwappedTotal(rows, offense);
  }

  /** Sum of the city totals over a list of cities. */
  function SumCityTotals(rows: seq<GroupedRow>, cs: seq<string>): nat
  {
    if cs == [] then 0 else CityTotal(rows, cs[0]) + SumCityTotals(rows, cs[1..])
  }

  lemma {:induction false} SumCityTotalsStep(r: GroupedRow, rest: seq<GroupedRow>, cs: seq<string>)
    requires NoDuplicates(cs)
    ensures SumCityTotals([r] + rest, cs) == SumCityTotals(rest, cs) + (if r.city in cs then r.count else 0)
  {
    if cs != [] {
      assert ([r] + rest)[1..] == rest;
      assert NoDuplicates(cs[1..]);
      SumCityTotalsStep(r, rest, cs[1..]);
      if r.city == cs[0] {
        assert r.city !in cs[1..];
      } else if r.city in cs {
        assert r.city in cs[1..] by { assert cs == [cs[0]] + cs[1..]; }
      }
    }
  }

  lemma {:induction false} SumCityTotalsIsTotal(rows: seq<GroupedRow>, cs: seq<string>)
    requires NoDuplicates(cs)
    requires forall i :: 0 <= i < |rows| ==> rows[i].city in cs
    ensures SumCityTotals(rows, cs) == Total(rows)
  {
    if rows == [] {
      SumCityTotalsOfNothing(cs);
    } else {
      assert rows == [rows[0]] + rows[1..];
      assert forall i :: 0 <= i < |rows[1..]| ==> rows[1..][i] == rows[i + 1];
      SumCityTotalsIsTotal(rows[1..], cs);
      SumCityTotalsStep(rows[0], rows[1..], cs);
    }
  }

  lemma {:induction false} SumCityTotalsOfNothing(cs: seq<string>)
    ensures SumCityTotals([], cs) == 0
  {
    if cs != [] {
      SumCityTotalsOfNothing(cs[1..]);
    }
  }

  lemma {:induction false} GridSumIsSumCityTotals(rows: seq<GroupedRow>, cs: seq<string>)
    requires PairsDistinct(rows)
    requires forall c :: c in cs ==> c in CityColumn(rows)
    ensures GridSum(DenseTable(rows), cs, SortedDistinct(OffenseColumn(rows))) == SumCityTotals(rows, cs)
  {
    if cs != [] {
      TableRowSum(rows, cs[0]);
      GridSumIsSumCityTotals(rows, cs[1..]);
    }
  }

  /** The sum over all cells of the table is the total number of events. */
  lemma TableGrandTotal(rows: seq<GroupedRow>)
    requires PairsDistinct(rows)
    ensures GridSum(DenseTable(rows), SortedDistinct(CityColumn(rows)), SortedDistinct(OffenseColumn(rows))) == Total(rows)
  {
    var cs := SortedDistinct(CityColumn(rows));
    GridSumIsSumCityTotals(rows, cs);
    SortedHasNoDuplicates(cs);
    LabelsCoverRows(rows);
    SumCityTotalsIsTotal(rows, cs);
  }
}
