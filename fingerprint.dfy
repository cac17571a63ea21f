/**
 * The per-city fingerprint vectors built by the nested loops of
 * `pre_calculo_correlacao`: one column `E[city]` per distinct city, one
 * slot per distinct offense type, holding the group's Count(*) or 0.
 *
 * The lemmas ThreeGroupCounts, ThreeGroupPresent, ThreeGroupAbsent,
 * VectorSlots and TwoCitySlots model nothing of their own: they split the
 * worked example (ExampleFingerprints) into steps the verifier checks cheaply.
 */
module Fingerprints {
  import opened Labels
  import opened GroupedCounts

  function Sum(v: seq<nat>): nat
  {
    if v == [] then 0 else v[0] + Sum(v[1..])
  }

  /** Sum of the stored values of one city over the offense list `os`. */
  function SumCounts(rows: seq<GroupedRow>, city: string, os: seq<string>): nat
  {
    if os == [] then 0 else Count(rows, city, os[0]) + SumCounts(rows, city, os[1..])
  }

  /** Every offense type the city recorded is listed in `os`. */
  predicate CoversCity(os: seq<string>, rows: seq<GroupedRow>, city: string)
  {
    forall i :: 0 <= i < |rows| && rows[i].city == city ==> rows[i].offense in os
  }

  /**
   * What the loops produce: `cidades` and `crimes` are the `unique()` lists,
   * `E` has exactly one column per city, and every column has one slot per
   * offense type holding the stored value of that (city, offense) pair.
   */
  ghost predicate IsFingerprintMatrix(rows: seq<GroupedRow>, cidades: seq<string>, crimes: seq<string>,
                                e: map<string, seq<nat>>)
  {
    FingerprintLabels(rows, cidades, crimes) && FingerprintSlots(rows, cidades, crimes, e)
  }

  /** `cidades` and `crimes` are the distinct city and offense columns in first-appearance order. */
  ghost predicate FingerprintLabels(rows: seq<GroupedRow>, cidades: seq<string>, crimes: seq<string>)
  {
    && cidades == Distinct(CityColumn(rows))
    && crimes == Distinct(OffenseColumn(rows))
  }

  /** One vector per city, one slot per offense, holding the looked-up count. */
  ghost predicate FingerprintSlots(rows: seq<GroupedRow>, cidades: seq<string>, crimes: seq<string>,
                                   e: map<string, seq<nat>>)
  {
    && (forall c :: c in e <==> c in cidades)
    && (forall c :: c in e ==> |e[c]| == |crimes|)
    && (forall c, k :: c in e && 0 <= k < |crimes| ==> e[c][k] == Count(rows, c, crimes[k]))
  }

  /** The fingerprint builder (the two nested `for` loops appending to `y` and assigning `E[city] = y`). */
  method BuildFingerprints(rows: seq<GroupedRow>)
    returns (cidades: seq<string>, crimes: seq<string>, e: map<string, seq<nat>>)
    ensures IsFingerprintMatrix(rows, cidades, crimes, e)
    ensures PairsDistinct(rows) ==> forall c :: c in e ==> Sum(e[c]) == CityTotal(rows, c)
  {
    cidades := Distinct(CityColumn(rows));
    crimes := Distinct(OffenseColumn(rows));
    e := map[];
    for i := 0 to |cidades|
      invariant forall c :: c in e <==> c in cidades[..i]
      invariant forall c :: c in e ==> |e[c]| == |crimes|
      invariant forall c, k :: c in e && 0 <= k < |crimes| ==> e[c][k] == Count(rows, c, crimes[k])
    {
      var city := cidades[i];
      var d := CityRows(rows, city);
      var y: seq<nat> := [];
      for k := 0 to |crimes|
        invariant |y| == k
        invariant forall j :: 0 <= j < k ==> y[j] == Count(rows, city, crimes[j])
      {
        match Lookup(d, crimes[k])
        case Some(n) =>
          y := y + [n];
        case None =>
          y := y + [0];
      }
      e := e[city := y];
    }
    assert cidades[..|cidades|] == cidades;
    FingerprintSums(rows, cidades, crimes, e);
  }

  /** Each fingerprint vector adds up to its city's number of events. */
  lemma FingerprintSums(rows: seq<GroupedRow>, cidades: seq<string>, crimes: seq<string>, e: map<string, seq<nat>>)
    requires IsFingerprintMatrix(rows, cidades, crimes, e)
    ensures PairsDistinct(rows) ==> forall c :: c in e ==> Sum(e[c]) == CityTotal(rows, c)
  {
    if PairsDistinct(rows) {
      forall c | c in e ensures Sum(e[c]) == CityTotal(rows, c) {
        SumAligned(e[c], rows, c, crimes);
        forall i | 0 <= i < |rows| && rows[i].city == c ensures rows[i].offense in crimes {
          assert OffenseColumn(rows)[i] == rows[i].offense;
        }
        SumCountsIsCityTotal(rows, c, crimes);
      }
    }
  }

  lemma {:induction false} SumAligned(v: seq<nat>, rows: seq<GroupedRow>, city: string, os: seq<string>)
    requires |v| == |os|
    requires forall k :: 0 <= k < |os| ==> v[k] == Count(rows, city, os[k])
    ensures Sum(v) == SumCounts(rows, city, os)
  {
    if v != [] {
      SumAligned(v[1..], rows, city, os[1..]);
    }
  }

  /** Prepending one group changes the city's sum only at that group's offense slot. */
  lemma {:induction false} SumCountsStep(r: GroupedRow, rest: seq<GroupedRow>, city: string, os: seq<string>)
    requires NoDuplicates(os)
    ensures SumCounts([r] + rest, city, os) + (if r.city == city && r.offense in os then Count(rest, city, r.offense) else 0)
         == SumCounts(rest, city, os) + (if r.city == city && r.offense in os then r.count else 0)
  {
    if os != [] {
      var rows, o, tl := [r] + rest, os[0], os[1..];
      assert rows[1..] == rest;
      assert os == [o] + tl;
      assert NoDuplicates(tl);
      SumCountsStep(r, rest, city, tl);
      CountUnfold(rows, city, o);
      if r.offense == o {
        assert r.offense !in tl;
      } else {
        assert r.offense in os <==> r.offense in tl;
      }
    }
  }

  /**
   * No count is lost or duplicated: over a duplicate-free offense list that
   * covers the city's groups, the city's values add up to its total.
   */
  lemma {:induction false} SumCountsIsCityTotal(rows: seq<GroupedRow>, city: string, os: seq<string>)
    requires PairsDistinct(rows)
    requires NoDuplicates(os)
    requires CoversCity(os, rows, city)
    ensures SumCounts(rows, city, os) == CityTotal(rows, city)
  {
    if rows == [] {
      SumCountsOfNothing(city, os);
    } else {
      var r, rest := rows[0], rows[1..];
      assert rows == [r] + rest;
      assert forall i :: 0 <= i < |rest| ==> rest[i] == rows[i + 1];
      SumCountsIsCityTotal(rest, city, os);
      SumCountsStep(r, rest, city, os);
      if r.city == city {
        CountAbsent(rest, city, r.offense);
      }
    }
  }

  lemma {:induction false} SumCountsOfNothing(city: string, os: seq<string>)
    ensures SumCounts([], city, os) == 0
  {
    if os != [] {
      CountAbsent([], city, os[0]);
      SumCountsOfNothing(city, os[1..]);
    }
  }

  /**
   * One slot of a fingerprint: the group's Count(*) when the group exists,
   * 0 when it does not, and (counts being positive) 0 only when it does not.
   */
  lemma FingerprintSlot(rows: seq<GroupedRow>, cidades: seq<string>, crimes: seq<string>,
                        e: map<string, seq<nat>>, c: string, k: nat)
    requires IsFingerprintMatrix(rows, cidades, crimes, e)
    requires PairsDistinct(rows)
    requires c in e && k < |crimes|
    ensures forall i :: 0 <= i < |rows| && rows[i].city == c && rows[i].offense == crimes[k] ==>
              e[c][k] == rows[i].count
    ensures !HasPair(rows, c, crimes[k]) ==> e[c][k] == 0
    ensures CountsPositive(rows) ==> (e[c][k] == 0 <==> !HasPair(rows, c, crimes[k]))
  {
    forall i | 0 <= i < |rows| && rows[i].city == c && rows[i].offense == crimes[k]
      ensures e[c][k] == rows[i].count
    {
      CountOfRow(rows, i);
    }
    if !HasPair(rows, c, crimes[k]) {
      CountAbsent(rows, c, crimes[k]);
    }
    if CountsPositive(rows) {
      CountZeroIffAbsent(rows, c, crimes[k]);
    }
  }

  /**
   * `cidades` is sorted because the grouped rows come ordered by city, so it
   * equals the sorted distinct city list (`possible_cities`, the crosstab's index).
   */
  lemma CidadesAreSorted(rows: seq<GroupedRow>)
    requires OrderedByCityThenOffense(rows)
    ensures StrictlySorted(Distinct(CityColumn(rows)))
    ensures Distinct(CityColumn(rows)) == SortedDistinct(CityColumn(rows))
  {
    OrderedCityColumn(rows);
    DistinctOfSortedIsSortedDistinct(CityColumn(rows));
  }

  /**
   * When the first city's groups cover every offense type, `crimes` is the
   * sorted offense list, so it agrees with `possible_offenses`.
   */
  lemma CrimesSortedWhenFirstCityCoversAll(rows: seq<GroupedRow>, k: nat)
    requires OrderedByCityThenOffense(rows)
    requires 0 < k <= |rows|
    requires forall i :: 0 <= i < k ==> rows[i].city == rows[0].city
    requires forall i :: 0 <= i < |rows| ==> rows[i].offense in OffenseColumn(rows[..k])
    ensures Distinct(OffenseColumn(rows)) == SortedDistinct(OffenseColumn(rows))
  {
    var s := OffenseColumn(rows);
    var r := Distinct(s);
    assert forall x :: x in s ==> FirstIndex(s, x) < k by {
      forall x | x in s ensures FirstIndex(s, x) < k {
        var i :| 0 <= i < |s| && s[i] == x;
        assert rows[i].offense in OffenseColumn(rows[..k]);
        var m :| 0 <= m < k && OffenseColumn(rows[..k])[m] == x;
        assert s[m] == x;
      }
    }
    forall i, j | 0 <= i < j < |r| ensures LexLess(r[i], r[j]) {
      var a, b := FirstIndex(s, r[i]), FirstIndex(s, r[j]);
      assert a < b < k;
      assert RowBefore(rows[a], rows[b]);
      LexLessIrreflexive(rows[a].city);
    }
    SortedUnique(r, SortedDistinct(s));
  }

  /** Three groups in query order: (A,b), (A,c), (B,a), one event each. */
  function ExampleRows(): seq<GroupedRow>
  {
    [GroupedRow("A", "b", 1), GroupedRow("A", "c", 1), GroupedRow("B", "a", 1)]
  }

  /**
   * In general `crimes` is not sorted: the example rows, ordered as the query
   * orders them, give `crimes == [b, c, a]` while the sorted list is `[a, b, c]`.
   */
  lemma CrimesNotSortedInGeneral()
    ensures OrderedByCityThenOffense(ExampleRows())
    ensures CountsPositive(ExampleRows())
    ensures Distinct(OffenseColumn(ExampleRows())) == ["b", "c", "a"]
    ensures SortedDistinct(OffenseColumn(ExampleRows())) == ["a", "b", "c"]
  {
    ExampleOrdered();
    ExampleOffenseColumn();
    DistinctOfExample();
    SortedDistinctOfExample();
  }

  lemma ExampleOrdered()
    ensures OrderedByCityThenOffense(ExampleRows())
    ensures CountsPositive(ExampleRows())
  {
    var rows := ExampleRows();
    assert LexLess("A", "B") && LexLess("b", "c");
    assert RowBefore(rows[0], rows[1]) && RowBefore(rows[0], rows[2]) && RowBefore(rows[1], rows[2]);
  }

  lemma ExampleOffenseColumn()
    ensures OffenseColumn(ExampleRows()) == ["b", "c", "a"]
  {
    var s := OffenseColumn(ExampleRows());
    assert |s| == 3 && s[0] == "b" && s[1] == "c" && s[2] == "a";
  }

  lemma ExampleCidades()
    ensures Distinct(CityColumn(ExampleRows())) == ["A", "B"]
  {
    var s := CityColumn(ExampleRows());
    assert s == ["A", "A", "B"] by {
      assert |s| == 3 && s[0] == "A" && s[1] == "A" && s[2] == "B";
    }
    DistinctOfExampleCities();
  }

  lemma DistinctOfExampleCities()
    ensures Distinct(["A", "A", "B"]) == ["A", "B"]
  {
    assert ["A", "A", "B"][..2] == ["A", "A"];
    assert ["A", "A"][..1] == ["A"];
    assert ["A"][..0] == [];
    assert Distinct(["A"]) == ["A"];
    assert Distinct(["A", "A"]) == ["A"];
  }

  lemma ExampleCounts()
    ensures Count(ExampleRows(), "A", "b") == 1 && Count(ExampleRows(), "A", "c") == 1
    ensures Count(ExampleRows(), "A", "a") == 0 && Count(ExampleRows(), "B", "a") == 1
    ensures Count(ExampleRows(), "B", "b") == 0 && Count(ExampleRows(), "B", "c") == 0
  {
    ThreeGroupCounts("A", "B", "a", "b", "c");
  }

  /** The counts of the three groups (x,b), (x,c), (y,a), for distinct names. */
  lemma ThreeGroupCounts(x: string, y: string, a: string, b: string, c: string)
    requires x != y && a != b && a != c && b != c
    ensures var rows := [GroupedRow(x, b, 1), GroupedRow(x, c, 1), GroupedRow(y, a, 1)];
      && Count(rows, x, b) == 1 && Count(rows, x, c) == 1 && Count(rows, x, a) == 0
      && Count(rows, y, a) == 1 && Count(rows, y, b) == 0 && Count(rows, y, c) == 0
  {
    var rows := [GroupedRow(x, b, 1), GroupedRow(x, c, 1), GroupedRow(y, a, 1)];
    assert rows[1..][1..] == rows[2..] && rows[2..][1..] == [];
    ThreeGroupPresent(rows, x, y, a, b, c);
    ThreeGroupAbsent(rows, x, y, a, b, c);
  }

  lemma ThreeGroupPresent(rows: seq<GroupedRow>, x: string, y: string, a: string, b: string, c: string)
    requires x != y && a != b && a != c && b != c
    requires rows == [GroupedRow(x, b, 1), GroupedRow(x, c, 1), GroupedRow(y, a, 1)]
    ensures Count(rows, x, b) == 1 && Count(rows, x, c) == 1 && Count(rows, y, a) == 1
  {
    var r1, r2 := rows[1..], rows[2..];
    assert r1 == [GroupedRow(x, c, 1), GroupedRow(y, a, 1)] && r2 == [GroupedRow(y, a, 1)] && r1[1..] == r2;
    CountUnfold(rows, x, b);
    CountUnfold(rows, x, c);
    CountUnfold(r1, x, c);
    CountUnfold(rows, y, a);
    CountUnfold(r1, y, a);
    CountUnfold(r2, y, a);
  }

  lemma ThreeGroupAbsent(rows: seq<GroupedRow>, x: string, y: string, a: string, b: string, c: string)
    requires x != y && a != b && a != c && b != c
    requires rows == [GroupedRow(x, b, 1), GroupedRow(x, c, 1), GroupedRow(y, a, 1)]
    ensures Count(rows, x, a) == 0 && Count(rows, y, b) == 0 && Count(rows, y, c) == 0
  {
    assert forall i :: 0 <= i < |rows| ==> rows[i] == GroupedRow(x, b, 1) || rows[i] == GroupedRow(x, c, 1) || rows[i] == GroupedRow(y, a, 1);
    CountAbsent(rows, x, a);
    CountAbsent(rows, y, b);
    CountAbsent(rows, y, c);
  }

  /** A three-slot vector whose slots are the looked-up counts. */
  lemma VectorSlots(rows: seq<GroupedRow>, city: string, v: seq<nat>, crimes: seq<string>)
    requires |v| == 3 && |crimes| == 3
    requires v[0] == Count(rows, city, crimes[0]) && v[1] == Count(rows, city, crimes[1])
    requires v[2] == Count(rows, city, crimes[2])
    ensures forall k :: 0 <= k < |crimes| ==> v[k] == Count(rows, city, crimes[k])
  {
    forall k | 0 <= k < |crimes| ensures v[k] == Count(rows, city, crimes[k]) {
      assert k == 0 || k == 1 || k == 2;
    }
  }

  /** A two-city matrix whose vectors both hold the looked-up counts. */
  lemma TwoCitySlots(rows: seq<GroupedRow>, x: string, y: string, vx: seq<nat>, vy: seq<nat>, crimes: seq<string>)
    requires x != y && |crimes| == 3
    requires |vx| == 3 && forall k :: 0 <= k < |crimes| ==> vx[k] == Count(rows, x, crimes[k])
    requires |vy| == 3 && forall k :: 0 <= k < |crimes| ==> vy[k] == Count(rows, y, crimes[k])
    ensures FingerprintSlots(rows, [x, y], crimes, map[x := vx, y := vy])
  {
    var e := map[x := vx, y := vy];
    assert forall c :: c in [x, y] <==> c == x || c == y;
    assert forall c :: c in e ==> c == x || c == y;
    assert e[x] == vx && e[y] == vy;
  }

  /** The fingerprint matrix of the example rows: A = [1, 1, 0], B = [0, 0, 1] over [b, c, a]. */
  lemma ExampleFingerprints()
    ensures IsFingerprintMatrix(ExampleRows(), ["A", "B"], ["b", "c", "a"], map["A" := [1, 1, 0], "B" := [0, 0, 1]])
  {
    CrimesNotSortedInGeneral();
    ExampleCidades();
    assert FingerprintLabels(ExampleRows(), ["A", "B"], ["b", "c", "a"]);
    ExampleCounts();
    var rows, crimes := ExampleRows(), ["b", "c", "a"];
    VectorSlots(rows, "A", [1, 1, 0], crimes);
    VectorSlots(rows, "B", [0, 0, 1], crimes);
    TwoCitySlots(rows, "A", "B", [1, 1, 0], [0, 0, 1], crimes);
  }

  lemma DistinctOfExample()
    ensures Distinct(["b", "c", "a"]) == ["b", "c", "a"]
  {
    var s: seq<string> := ["b", "c", "a"];
    assert s[0] != s[1] && s[0] != s[2] && s[1] != s[2];
    DistinctOfNoDuplicates(s);
  }

  lemma SortedDistinctOfExample()
    ensures SortedDistinct(["b", "c", "a"]) == ["a", "b", "c"]
  {
    var t := SortedDistinct(["b", "c", "a"]);
    assert LexLess("a", "b") && LexLess("a", "c") && LexLess("b", "c");
    assert StrictlySorted(["a", "b", "c"]);
    SortedUnique(t, ["a", "b", "c"]);
  }
}
