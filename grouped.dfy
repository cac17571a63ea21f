/**
 * The grouped-count rows `(city_name, offense_type, Count(*))` that the
 * correlation precomputation reads, and the per-pair lookup the fingerprint
 * builder performs on them.
 */
module GroupedCounts {
  import opened Labels

  datatype Option<T> = None | Some(value: T)

  /** One group of the grouped query: a city, an offense type and its number of events. */
  datatype GroupedRow = GroupedRow(city: string, offense: string, count: nat)

  /** The `city_name` column, in row order. */
  function CityColumn(rows: seq<GroupedRow>): seq<string>
  {
    seq(|rows|, i requires 0 <= i < |rows| => rows[i].city)
  }

  /** The `offense_type` column, in row order. */
  function OffenseColumn(rows: seq<GroupedRow>): seq<string>
  {
    seq(|rows|, i requires 0 <= i < |rows| => rows[i].offense)
  }

  /** GROUP BY yields each (city, offense) pair at most once. */
  predicate PairsDistinct(rows: seq<GroupedRow>)
  {
    forall i, j :: 0 <= i < j < |rows| ==>
      rows[i].city != rows[j].city || rows[i].offense != rows[j].offense
  }

  /** Count(*) of a group is never zero. */
  predicate CountsPositive(rows: seq<GroupedRow>)
  {
    forall i :: 0 <= i < |rows| ==> rows[i].count >= 1
  }

  predicate RowBefore(a: GroupedRow, b: GroupedRow)
  {
    LexLess(a.city, b.city) || (a.city == b.city && LexLess(a.offense, b.offense))
  }

  /**
   * ORDER BY city_name, offense_type over the groups of the query. The order
   * is strict because GROUP BY makes the groups distinct; ORDER BY alone would
   * allow equal neighbours.
   */
  predicate OrderedByCityThenOffense(rows: seq<GroupedRow>)
  {
    forall i, j :: 0 <= i < j < |rows| ==> RowBefore(rows[i], rows[j])
  }

  predicate HasPair(rows: seq<GroupedRow>, city: string, offense: string)
  {
    exists i :: 0 <= i < |rows| && rows[i].city == city && rows[i].offense == offense
  }

  /** The rows of one city, kept in their original order and with their multiplicity. */
  function CityRows(rows: seq<GroupedRow>, city: string): (d: seq<GroupedRow>)
    ensures forall r :: r in d <==> r in rows && r.city == city
  {
    if rows == [] then []
    else (if rows[0].city == city then [rows[0]] else []) + CityRows(rows[1..], city)
  }

  /**
   * The count of the first row of `d` with the given offense type, or None
   * when no row has it (the case in which the positional lookup raises).
   */
  function Lookup(d: seq<GroupedRow>, offense: string): (r: Option<nat>)
    ensures r.Some? <==> exists i :: 0 <= i < |d| && d[i].offense == offense
    ensures r.Some? ==> exists i :: 0 <= i < |d| && d[i].offense == offense && d[i].count == r.value &&
                                  forall j :: 0 <= j < i ==> d[j].offense != offense
  {
    if d == [] then None
    else if d[0].offense == offense then Some(d[0].count)
    else
      var r := Lookup(d[1..], offense);
      assert forall i :: 1 <= i < |d| ==> d[i] == d[1..][i - 1];
      r
  }

  /** The value the fingerprint builder stores for (city, offense): the lookup, with the failed lookup turned into 0. */
  function Count(rows: seq<GroupedRow>, city: string, offense: string): (n: nat)
    ensures !HasPair(rows, city, offense) ==> n == 0
  {
    match Lookup(CityRows(rows, city), offense)
    case Some(n) => n
    case None => 0
  }

  lemma CountUnfold(rows: seq<GroupedRow>, city: string, offense: string)
    requires rows != []
    ensures Count(rows, city, offense) ==
      if rows[0].city == city && rows[0].offense == offense then rows[0].count
      else Count(rows[1..], city, offense)
  {
    if rows[0].city == city {
      assert CityRows(rows, city) == [rows[0]] + CityRows(rows[1..], city);
      assert ([rows[0]] + CityRows(rows[1..], city))[1..] == CityRows(rows[1..], city);
    } else {
      assert CityRows(rows, city) == CityRows(rows[1..], city);
    }
  }

  /** Filtering a concatenation filters each part and keeps them in order. */
  lemma {:induction false} CityRowsAppend(a: seq<GroupedRow>, b: seq<GroupedRow>, city: string)
    ensures CityRows(a + b, city) == CityRows(a, city) + CityRows(b, city)
  {
    if a != [] {
      assert (a + b)[1..] == a[1..] + b;
      CityRowsAppend(a[1..], b, city);
    } else {
      assert a + b == b;
    }
  }

  /** A single row is kept exactly when it belongs to the city. */
  lemma CityRowsSingle(r: GroupedRow, city: string)
    ensures CityRows([r], city) == if r.city == city then [r] else []
  {
    assert [r][1..] == [];
  }

  /**
   * The stored value is the count of the first row, in query order, with
   * that city and that offense type.
   */
  lemma {:induction false} CountFirstMatch(rows: seq<GroupedRow>, city: string, offense: string, i: nat)
    requires i < |rows| && rows[i].city == city && rows[i].offense == offense
    requires forall j :: 0 <= j < i ==> rows[j].city != city || rows[j].offense != offense
    ensures Count(rows, city, offense) == rows[i].count
  {
    if i == 0 {
      CountUnfold(rows, city, offense);
    } else {
      var rest := rows[1..];
      assert rows[0].city != city || rows[0].offense != offense;
      CountUnfold(rows, city, offense);
      assert rest[i - 1] == rows[i];
      forall j | 0 <= j < i - 1 ensures rest[j].city != city || rest[j].offense != offense {
        assert rest[j] == rows[j + 1];
      }
      CountFirstMatch(rest, city, offense, i - 1);
    }
  }

  /** Sum of the counts of one city's rows. */
  function CityTotal(rows: seq<GroupedRow>, city: string): nat
  {
    if rows == [] then 0
    else (if rows[0].city == city then rows[0].count else 0) + CityTotal(rows[1..], city)
  }

  /** Sum of the counts of one offense type's rows. */
  function OffenseTotal(rows: seq<GroupedRow>, offense: string): nat
  {
    if rows == [] then 0
    else (if rows[0].offense == offense then rows[0].count else 0) + OffenseTotal(rows[1..], offense)
  }

  /** Sum of all counts: the number of events. */
  function Total(rows: seq<GroupedRow>): nat
  {
    if rows == [] then 0 else rows[0].count + Total(rows[1..])
  }

  /** With distinct groups, the stored value is exactly the group's Count(*). */
  lemma {:induction false} CountOfRow(rows: seq<GroupedRow>, i: nat)
    requires PairsDistinct(rows)
    requires i < |rows|
    ensures Count(rows, rows[i].city, rows[i].offense) == rows[i].count
  {
    CountUnfold(rows, rows[i].city, rows[i].offense);
    if i > 0 && (rows[0].city != rows[i].city || rows[0].offense != rows[i].offense) {
      assert rows[1..][i - 1] == rows[i];
      CountOfRow(rows[1..], i - 1);
    }
  }

  /** A pair with no group is stored as 0 (the zero-fill). */
  lemma {:induction false} CountAbsent(rows: seq<GroupedRow>, city: string, offense: string)
    requires !HasPair(rows, city, offense)
    ensures Count(rows, city, offense) == 0
  {
    if rows != [] {
      CountUnfold(rows, city, offense);
      assert forall i :: 0 <= i < |rows[1..]| ==> rows[1..][i] == rows[i + 1];
      CountAbsent(rows[1..], city, offense);
    }
  }

  /** Since every Count(*) is at least 1, a stored 0 means exactly "no such group". */
  lemma CountZeroIffAbsent(rows: seq<GroupedRow>, city: string, offense: string)
    requires PairsDistinct(rows) && CountsPositive(rows)
    ensures Count(rows, city, offense) == 0 <==> !HasPair(rows, city, offense)
  {
    if HasPair(rows, city, offense) {
      var i :| 0 <= i < |rows| && rows[i].city == city && rows[i].offense == offense;
      CountOfRow(rows, i);
    } else {
      CountAbsent(rows, city, offense);
    }
  }

  /**
   * The strict order of the grouped query repeats no pair. The strictness
   * comes from GROUP BY, so this only unpacks irreflexivity of the order.
   */
  lemma OrderedPairsDistinct(rows: seq<GroupedRow>)
    requires OrderedByCityThenOffense(rows)
    ensures PairsDistinct(rows)
  {
    forall i, j | 0 <= i < j < |rows|
      ensures rows[i].city != rows[j].city || rows[i].offense != rows[j].offense
    {
      LexLessIrreflexive(rows[i].city);
      LexLessIrreflexive(rows[i].offense);
    }
  }

  /** The sort order of the grouped query makes its city column non-decreasing. */
  lemma OrderedCityColumn(rows: seq<GroupedRow>)
    requires OrderedByCityThenOffense(rows)
    ensures forall i, j :: 0 <= i < j < |CityColumn(rows)| ==>
      CityColumn(rows)[i] == CityColumn(rows)[j] || LexLess(CityColumn(rows)[i], CityColumn(rows)[j])
  {
    var s := CityColumn(rows);
    forall i, j | 0 <= i < j < |s| ensures s[i] == s[j] || LexLess(s[i], s[j]) {
      assert RowBefore(rows[i], rows[j]);
    }
  }

  /** The rows with city and offense exchanged: turns column statements into row statements. */
  function Swapped(rows: seq<GroupedRow>): (t: seq<GroupedRow>)
    ensures |t| == |rows|
  {
    seq(|rows|, i requires 0 <= i < |rows| => GroupedRow(rows[i].offense, rows[i].city, rows[i].count))
  }

  lemma {:induction false} SwappedCount(rows: seq<GroupedRow>, city: string, offense: string)
    ensures Count(Swapped(rows), offense, city) == Count(rows, city, offense)
  {
    if rows != [] {
      assert Swapped(rows)[1..] == Swapped(rows[1..]);
      CountUnfold(rows, city, offense);
      CountUnfold(Swapped(rows), offense, city);
      SwappedCount(rows[1..], city, offense);
    }
  }

  lemma {:induction false} SwappedTotal(rows: seq<GroupedRow>, offense: string)
    ensures CityTotal(Swapped(rows), offense) == OffenseTotal(rows, offense)
  {
    if rows != [] {
      assert Swapped(rows)[1..] == Swapped(rows[1..]);
      SwappedTotal(rows[1..], offense);
    }
  }

  lemma SwappedPairsDistinct(rows: seq<GroupedRow>)
    requires PairsDistinct(rows)
    ensures PairsDistinct(Swapped(rows))
  {
  }
}
