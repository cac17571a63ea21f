/**
 * The two sequence routines of the correlation tab: the offense labels cut
 * to 20 characters for the count table (`update_tables_corr`), and the
 * ordered city links drawn for the selected city (`update_charts_corr`).
 */
module Display {
  import opened Labels
  import opened GroupedCounts
  import opened Fingerprints

  /** Width of an offense label in the count table. */
  const LabelWidth: nat := 20

  function Min(a: nat, b: nat): nat
  {
    if a <= b then a else b
  }

  /** Python's `s[:n]`: the first `n` characters, or all of a shorter string. */
  function Truncate(s: string, n: nat): (r: string)
    ensures |r| <= n && r <= s
    ensures |s| <= n ==> r == s
    ensures n <= |s| ==> |r| == n
  {
    s[..Min(|s|, n)]
  }

  /** Every label cut to `LabelWidth` characters. */
  function TruncatedLabels(s: seq<string>): (r: seq<string>)
    ensures |r| == |s|
  {
    if s == [] then [] else [Truncate(s[0], LabelWidth)] + TruncatedLabels(s[1..])
  }

  lemma {:induction false} TruncatedLabelAt(s: seq<string>, k: nat)
    requires k < |s|
    ensures TruncatedLabels(s)[k] == Truncate(s[k], LabelWidth)
  {
    if k > 0 {
      TruncatedLabelAt(s[1..], k - 1);
    }
  }

  /** Cuts every label of the array to `LabelWidth` characters, one element at a time. */
  method TruncateInPlace(a: array<string>)
    modifies a
    ensures a[..] == TruncatedLabels(old(a[..]))
  {
    for i := 0 to a.Length
      invariant forall j :: 0 <= j < i ==> a[j] == Truncate(old(a[j]), LabelWidth)
      invariant forall j :: i <= j < a.Length ==> a[j] == old(a[j])
    {
      a[i] := a[i][..Min(|a[i]|, LabelWidth)];
    }
    ghost var was := old(a[..]);
    forall k | 0 <= k < a.Length ensures a[..][k] == TruncatedLabels(was)[k] {
      TruncatedLabelAt(was, k);
    }
  }

  /** A copy of the sorted offense labels, cut in place; the source array is not touched. */
  method TruncatedCopy(source: array<string>) returns (crimes: array<string>)
    ensures fresh(crimes)
    ensures crimes[..] == TruncatedLabels(source[..])
    ensures source[..] == old(source[..])
  {
    crimes := new string[source.Length](i requires 0 <= i < source.Length reads source => source[i]);
    assert crimes[..] == source[..];
    TruncateInPlace(crimes);
  }

  /**
   * One record of the count table: the label cell inserted in front, then one
   * count per city column.
   */
  datatype CountRecord = CountRecord(heading: string, counts: seq<nat>)

  /** Record `k` pairs `labels[k]` with row `k` of every fingerprint column. */
  function CountTable(labels: seq<string>, cidades: seq<string>, e: map<string, seq<nat>>): (r: seq<CountRecord>)
    requires forall c :: c in cidades ==> c in e && |e[c]| == |labels|
    ensures |r| == |labels|
    ensures forall k :: 0 <= k < |r| ==> r[k].heading == labels[k] && |r[k].counts| == |cidades|
    ensures forall k, j :: 0 <= k < |r| && 0 <= j < |cidades| ==> r[k].counts[j] == e[cidades[j]][k]
  {
    seq(|labels|, k requires 0 <= k < |labels| =>
      CountRecord(labels[k], seq(|cidades|, j requires 0 <= j < |cidades| => e[cidades[j]][k])))
  }

  /**
   * The table reads correctly: record `k` carries the label of offense
   * `offs[k]` and, in every city column, that city's count for `offs[k]`.
   */
  ghost predicate RecordsMatch(rows: seq<GroupedRow>, cidades: seq<string>, records: seq<CountRecord>, offs: seq<string>)
  {
    && |records| == |offs|
    && (forall k :: 0 <= k < |records| ==> records[k].heading == Truncate(offs[k], LabelWidth))
    && (forall k :: 0 <= k < |records| ==> |records[k].counts| == |cidades|)
    && (forall k, j :: 0 <= k < |records| && 0 <= j < |cidades| ==>
          records[k].counts[j] == Count(rows, cidades[j], offs[k]))
  }

  /** The table as the callback builds it: labels from the sorted `possible_offenses`. */
  function CountTableAsWritten(rows: seq<GroupedRow>, cidades: seq<string>, e: map<string, seq<nat>>)
    : (r: seq<CountRecord>)
    requires forall c :: c in cidades ==> c in e && |e[c]| == |SortedDistinct(OffenseColumn(rows))|
    ensures |r| == |SortedDistinct(OffenseColumn(rows))|
  {
    CountTable(TruncatedLabels(SortedDistinct(OffenseColumn(rows))), cidades, e)
  }

  /** The table labelled with `crimes`, the order in which the fingerprint rows were built. */
  function CountTableCorrected(rows: seq<GroupedRow>, cidades: seq<string>, crimes: seq<string>,
                               e: map<string, seq<nat>>): (r: seq<CountRecord>)
    requires IsFingerprintMatrix(rows, cidades, crimes, e)
    ensures RecordsMatch(rows, cidades, r, crimes)
  {
    var labels := TruncatedLabels(crimes);
    assert forall k :: 0 <= k < |crimes| ==> labels[k] == Truncate(crimes[k], LabelWidth) by {
      forall k | 0 <= k < |crimes| ensures labels[k] == Truncate(crimes[k], LabelWidth) {
        TruncatedLabelAt(crimes, k);
      }
    }
    CountTable(labels, cidades, e)
  }

  /**
   * The labels of the callback's table are right whenever `crimes` is sorted,
   * for instance when the first city recorded every offense type.
   */
  lemma CountTableAsWrittenMatchesWhenSorted(rows: seq<GroupedRow>, cidades: seq<string>, crimes: seq<string>,
                                             e: map<string, seq<nat>>)
    requires IsFingerprintMatrix(rows, cidades, crimes, e)
    requires crimes == SortedDistinct(OffenseColumn(rows))
    ensures RecordsMatch(rows, cidades, CountTableAsWritten(rows, cidades, e), SortedDistinct(OffenseColumn(rows)))
  {
    assert CountTableAsWritten(rows, cidades, e) == CountTableCorrected(rows, cidades, crimes, e);
  }

  /**
   * What the table as written shows for any grouped rows: as many records as
   * there are offense types, record `k` labelled with the `k`-th SORTED offense
   * type but holding, in every city column, the count of `crimes[k]`, the
   * `k`-th offense type in order of first appearance.
   */
  lemma CountTableAsWrittenShows(rows: seq<GroupedRow>, cidades: seq<string>, crimes: seq<string>,
                                 e: map<string, seq<nat>>)
    requires IsFingerprintMatrix(rows, cidades, crimes, e)
    ensures var offs := SortedDistinct(OffenseColumn(rows));
      && |crimes| == |offs|
      && var t := CountTableAsWritten(rows, cidades, e);
         && |t| == |crimes|
         && (forall k :: 0 <= k < |t| ==> t[k].heading == Truncate(offs[k], LabelWidth) && |t[k].counts| == |cidades|)
         && (forall k, j :: 0 <= k < |t| && 0 <= j < |cidades| ==> t[k].counts[j] == Count(rows, cidades[j], crimes[k]))
  {
    DistinctSameLength(OffenseColumn(rows));
    var offs := SortedDistinct(OffenseColumn(rows));
    forall k | 0 <= k < |offs| ensures TruncatedLabels(offs)[k] == Truncate(offs[k], LabelWidth) {
      TruncatedLabelAt(offs, k);
    }
  }

  /**
   * With rows (A,b), (A,c), (B,a) the callback's first record is labelled "a"
   * but holds city A's count of "b" (1), while A recorded no "a" at all.
   */
  lemma CountTableAsWrittenMislabels()
    ensures var e := map["A" := [1, 1, 0], "B" := [0, 0, 1]];
      && IsFingerprintMatrix(ExampleRows(), ["A", "B"], ["b", "c", "a"], e)
      && SortedDistinct(OffenseColumn(ExampleRows())) == ["a", "b", "c"]
      && var t := CountTableAsWritten(ExampleRows(), ["A", "B"], e);
         && t[0].heading == "a" && t[0].counts[0] == 1 && Count(ExampleRows(), "A", "a") == 0
         && !RecordsMatch(ExampleRows(), ["A", "B"], t, ["a", "b", "c"])
  {
    var e := map["A" := [1, 1, 0], "B" := [0, 0, 1]];
    ExampleFingerprints();
    CrimesNotSortedInGeneral();
    var t := CountTableAsWritten(ExampleRows(), ["A", "B"], e);
    assert TruncatedLabels(["a", "b", "c"])[0] == "a";
    CountAbsent(ExampleRows(), "A", "a");
  }

  datatype Position = Position(lat: real, lon: real)

  /** One `Scattermapbox` trace: a line from `city1`'s mean position to `city2`'s. */
  datatype Link = Link(city1: string, city2: string, start: Position, end: Position)

  /** The traces drawn, or the city whose position lookup (`.values[0]`) raises. */
  datatype LinkResult = Links(traces: seq<Link>) | MissingPosition(city: string)

  /** The cities of `cities` other than `city1`, in list order. */
  function Partners(cities: seq<string>, city1: string): (r: seq<string>)
    ensures forall c :: c in r <==> c in cities && c != city1
  {
    if cities == [] then []
    else
      var p := Partners(cities[..|cities| - 1], city1);
      var last := cities[|cities| - 1];
      assert cities == cities[..|cities| - 1] + [last];
      if last == city1 then p else p + [last]
  }

  function LinkFor(city1: string, city2: string, positions: map<string, Position>): Link
    requires city1 in positions && city2 in positions
  {
    Link(city1, city2, positions[city1], positions[city2])
  }

  /**
   * The link loop of `update_charts_corr`: one link from the selected city to
   * every other city in list order, then the self-link last.
   */
  method CityLinks(cities: seq<string>, city1: string, positions: map<string, Position>) returns (r: LinkResult)
    ensures r.Links? <==> city1 in positions && forall c :: c in cities ==> c in positions
    ensures r.MissingPosition? ==> r.city !in positions && (r.city == city1 || r.city in cities)
    ensures r.Links? ==>
      var ps := Partners(cities, city1);
      && |r.traces| == |ps| + 1
      && (forall k :: 0 <= k < |ps| ==> r.traces[k] == LinkFor(city1, ps[k], positions))
      && r.traces[|ps|] == LinkFor(city1, city1, positions)
  {
    var traces: seq<Link> := [];
    ghost var ps: seq<string> := [];
    for i := 0 to |cities|
      invariant ps == Partners(cities[..i], city1)
      invariant |traces| == |ps|
      invariant ps != [] ==> city1 in positions
      invariant forall k :: 0 <= k < |ps| ==> ps[k] in positions
      invariant forall k :: 0 <= k < |ps| ==> traces[k] == LinkFor(city1, ps[k], positions)
    {
      var city2 := cities[i];
      PartnersStep(cities, i, city1);
      if city1 == city2 {
        continue;
      }
      if city1 !in positions {
        return MissingPosition(city1);
      }
      if city2 !in positions {
        return MissingPosition(city2);
      }
      var link := LinkFor(city1, city2, positions);
      assert forall k :: 0 <= k < |ps| ==> (traces + [link])[k] == traces[k] && (ps + [city2])[k] == ps[k];
      traces := traces + [link];
      ps := ps + [city2];
    }
    assert cities[..|cities|] == cities;
    if city1 !in positions {
      return MissingPosition(city1);
    }
    traces := traces + [LinkFor(city1, city1, positions)];
    r := Links(traces);
  }

  lemma PartnersStep(cities: seq<string>, i: nat, city1: string)
    requires i < |cities|
    ensures Partners(cities[..i + 1], city1) ==
      if cities[i] == city1 then Partners(cities[..i], city1) else Partners(cities[..i], city1) + [cities[i]]
  {
    assert cities[..i + 1][..i] == cities[..i];
  }

  lemma {:induction false} PartnersAppend(a: seq<string>, b: seq<string>, city1: string)
    ensures Partners(a + b, city1) == Partners(a, city1) + Partners(b, city1)
    decreases |b|
  {
    if b != [] {
      var b', x := b[..|b| - 1], b[|b| - 1];
      assert (a + b)[..|a + b| - 1] == a + b';
      assert (a + b)[|a + b| - 1] == x;
      PartnersAppend(a, b', city1);
    } else {
      assert a + b == a;
    }
  }

  lemma {:induction false} PartnersWithoutSelf(s: seq<string>, city1: string)
    requires city1 !in s
    ensures Partners(s, city1) == s
  {
    if s != [] {
      PartnersWithoutSelf(s[..|s| - 1], city1);
      assert s == s[..|s| - 1] + [s[|s| - 1]];
    }
  }

  /**
   * For a selected city that is listed once, the partners are the list with
   * that city taken out, so the links number exactly `len(possible_cities)`
   * and every city occurs exactly once as a link's second end.
   */
  lemma PartnersSkipSelf(cities: seq<string>, m: nat)
    requires NoDuplicates(cities)
    requires m < |cities|
    ensures Partners(cities, cities[m]) == cities[..m] + cities[m + 1..]
    ensures |Partners(cities, cities[m])| + 1 == |cities|
    ensures multiset(Partners(cities, cities[m]) + [cities[m]]) == multiset(cities)
  {
    var city1 := cities[m];
    assert cities == cities[..m] + [city1] + cities[m + 1..];
    PartnersAppend(cities[..m] + [city1], cities[m + 1..], city1);
    PartnersAppend(cities[..m], [city1], city1);
    assert [city1][..0] == [];
    PartnersWithoutSelf(cities[..m], city1);
    PartnersWithoutSelf(cities[m + 1..], city1);
    calc {
      multiset(cities[..m] + cities[m + 1..] + [city1]);
      multiset(cities[..m]) + multiset(cities[m + 1..]) + multiset([city1]);
      multiset(cities[..m] + [city1] + cities[m + 1..]);
    }
  }
}
