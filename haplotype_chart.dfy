/**
 * haplotype-bubble-chart.py: the table work behind the eDNA bubble chart.
 * A CSV row becomes a species record (per-sample haplotype counts, their
 * total, invasive and threatened flags); rows without detections are
 * dropped; a display set is chosen that always favours invasive and
 * threatened species; and the wide table is unrolled into one record per
 * present (species, sample) pair. DataFrames are sequences of records in
 * row order.
 */
module HaplotypeChart {

  import opened Wrappers

  const SampleColumns: seq<string> := ["ALGA_C_S", "ALGA_C_W", "ALGA_C_E", "ALGA_F_L", "ALGA_F_M", "ALGA_F_AS"]
  const MaxSpeciesDisplay := 20
  const DefaultScore := "MODERATE"
  const NoNns := "NA"
  const NotEvaluated := "Not Evaluated"
  const NanToInteger := "cannot convert float NaN to integer"

  /**
   * One CSV row: the species name of the first column, one count per sample
   * column (None for an empty cell) and the annotation columns, which may
   * be empty too.
   */
  datatype RawRow = RawRow(
    name: string,
    counts: seq<Option<int>>,
    score: Option<string>,
    nns: Option<string>,
    redList: Option<string>,
    phylum: string)

  /** A row after load_and_clean_data. */
  datatype Species = Species(
    name: string,
    counts: seq<Option<int>>,
    total: int,
    score: string,
    nns: string,
    isInvasive: bool,
    isThreatened: bool,
    redList: Option<string>,
    phylum: string)

  // ---------------------------------------------------------------------
  // load_and_clean_data
  // ---------------------------------------------------------------------

  /** The row sum over the sample columns, skipping empty cells as pandas does. */
  function Total(counts: seq<Option<int>>): int
  {
    if counts == [] then 0
    else Total(counts[..|counts| - 1]) + if counts[|counts| - 1].Some? then counts[|counts| - 1].value else 0
  }

  predicate AnyPresent(counts: seq<Option<int>>)
  {
    exists j :: 0 <= j < |counts| && counts[j].Some?
  }

  /** A row whose cells are all empty sums to zero, so a non-zero total implies a filled cell. */
  lemma {:induction false} NonZeroTotalHasCount(counts: seq<Option<int>>)
    requires Total(counts) != 0
    ensures AnyPresent(counts)
  {
    var init := counts[..|counts| - 1];
    if counts[|counts| - 1].None? {
      NonZeroTotalHasCount(init);
      var j :| 0 <= j < |init| && init[j].Some?;
      assert counts[j].Some?;
    }
  }

  /** The derived columns: the filled-in score and NNS, and the two flags. */
  function ToSpecies(row: RawRow): (s: Species)
    ensures s.name == row.name && s.counts == row.counts && s.total == Total(row.counts)
    ensures s.isInvasive <==> row.nns.Some? && row.nns.value != NoNns
    ensures s.isThreatened <==> row.redList.Some? && row.redList.value != NotEvaluated
    ensures row.score.None? ==> s.score == DefaultScore
    ensures row.nns.None? ==> s.nns == NoNns
  {
    var score := if row.score.Some? then row.score.value else DefaultScore;
    var nns := if row.nns.Some? then row.nns.value else NoNns;
    Species(row.name, row.counts, Total(row.counts), score, nns,
            nns != NoNns,
            row.redList.Some? && row.redList.value != NotEvaluated,
            row.redList, row.phylum)
  }

  /** The two row filters: some sample cell filled, and a positive total. */
  predicate Detected(row: RawRow)
  {
    AnyPresent(row.counts) && Total(row.counts) > 0
  }

  /** load_and_clean_data on the parsed rows, in row order. */
  function LoadAndClean(rows: seq<RawRow>): (r: seq<Species>)
    ensures |r| <= |rows|
    ensures forall k :: 0 <= k < |r| ==> r[k].total > 0
  {
    if rows == [] then []
    else
      var rest := LoadAndClean(rows[..|rows| - 1]);
      var row := rows[|rows| - 1];
      if Detected(row) then rest + [ToSpecies(row)] else rest
  }

  /**
   * A species survives cleaning exactly when it comes from a row with a
   * positive total; the filled-cell filter never removes anything more.
   */
  lemma {:induction false} CleanIff(rows: seq<RawRow>, s: Species)
    ensures s in LoadAndClean(rows) <==> exists row :: row in rows && Total(row.counts) > 0 && s == ToSpecies(row)
  {
    if rows != [] {
      var init := rows[..|rows| - 1];
      var row := rows[|rows| - 1];
      CleanIff(init, s);
      assert rows == init + [row];
      if Total(row.counts) > 0 {
        NonZeroTotalHasCount(row.counts);
      }
    }
  }

  // ---------------------------------------------------------------------
  // select_top_species
  // ---------------------------------------------------------------------

  function IsMandatory(s: Species): bool
  {
    s.isInvasive || s.isThreatened
  }

  /** The boolean masks select_top_species filters by. */
  datatype Mask = Invasive | Threatened | Mandatory | Optional

  predicate Meets(s: Species, m: Mask)
  {
    match m
    case Invasive => s.isInvasive
    case Threatened => s.isThreatened
    case Mandatory => IsMandatory(s)
    case Optional => !IsMandatory(s)
  }

  function Names(xs: seq<Species>): (r: seq<string>)
    ensures |r| == |xs| && forall k :: 0 <= k < |xs| ==> r[k] == xs[k].name
  {
    seq(|xs|, k requires 0 <= k < |xs| => xs[k].name)
  }

  /** No two rows share a species name. */
  predicate DistinctNames(xs: seq<Species>)
  {
    forall i, j :: 0 <= i < j < |xs| ==> xs[i].name != xs[j].name
  }

  /** Rows ordered by total_haplotypes, descending. */
  predicate NonIncreasing(xs: seq<Species>)
  {
    forall i, j :: 0 <= i < j < |xs| ==> xs[i].total >= xs[j].total
  }

  /** In descending order, no later row has a larger total than the first. */
  lemma TailBelow(xs: seq<Species>)
    requires |xs| > 0 && NonIncreasing(xs)
    ensures NonIncreasing(xs[1..]) && forall y :: y in xs[1..] ==> y.total <= xs[0].total
  {
    forall y | y in xs[1..] ensures y.total <= xs[0].total {
      var k :| 0 <= k < |xs[1..]| && xs[1..][k] == y;
      assert xs[k + 1] == y;
    }
  }

  lemma ConsSorted(h: Species, rest: seq<Species>)
    requires NonIncreasing(rest) && forall y :: y in rest ==> y.total <= h.total
    ensures NonIncreasing([h] + rest)
  {
    var r := [h] + rest;
    forall i, j | 0 <= i < j < |r| ensures r[i].total >= r[j].total {
      if i == 0 {
        assert r[j] == rest[j - 1];
      } else {
        assert r[i] == rest[i - 1] && r[j] == rest[j - 1];
      }
    }
  }

  /** With distinct names, the first name does not come back later. */
  lemma TailDistinct(xs: seq<Species>)
    requires |xs| > 0 && DistinctNames(xs)
    ensures DistinctNames(xs[1..]) && forall y :: y in xs[1..] ==> y.name != xs[0].name
  {
    forall y | y in xs[1..] ensures y.name != xs[0].name {
      var k :| 0 <= k < |xs[1..]| && xs[1..][k] == y;
      assert xs[k + 1] == y;
    }
  }

  lemma ConsDistinct(h: Species, rest: seq<Species>)
    requires DistinctNames(rest) && forall y :: y in rest ==> y.name != h.name
    ensures DistinctNames([h] + rest)
  {
    var r := [h] + rest;
    forall i, j | 0 <= i < j < |r| ensures r[i].name != r[j].name {
      if i == 0 {
        assert r[j] == rest[j - 1];
      } else {
        assert r[i] == rest[i - 1] && r[j] == rest[j - 1];
      }
    }
  }

  /** df[mask]: the rows meeting the mask, in order. */
  function Where(xs: seq<Species>, m: Mask): (r: seq<Species>)
    ensures |r| <= |xs|
    ensures forall y :: y in r <==> y in xs && Meets(y, m)
  {
    if xs == [] then []
    else
      assert xs == [xs[0]] + xs[1..];
      var rest := Where(xs[1..], m);
      if Meets(xs[0], m) then [xs[0]] + rest else rest
  }

  /** A filter keeps the order and the distinctness of names of what it filters. */
  lemma {:induction false} WhereKeeps(xs: seq<Species>, m: Mask)
    ensures NonIncreasing(xs) ==> NonIncreasing(Where(xs, m))
    ensures DistinctNames(xs) ==> DistinctNames(Where(xs, m))
  {
    if xs != [] {
      var rest := Where(xs[1..], m);
      if NonIncreasing(xs) {
        TailBelow(xs);
        WhereKeeps(xs[1..], m);
        if Meets(xs[0], m) {
          ConsSorted(xs[0], rest);
        }
      }
      if DistinctNames(xs) {
        TailDistinct(xs);
        WhereKeeps(xs[1..], m);
        if Meets(xs[0], m) {
          ConsDistinct(xs[0], rest);
        }
      }
    }
  }

  /** The two halves of a split by the mandatory mask share no name. */
  lemma WhereSplitNames(xs: seq<Species>, a: Species, b: Species)
    requires DistinctNames(xs) && a in Where(xs, Mandatory) && b in Where(xs, Optional)
    ensures a.name != b.name
  {
    var p :| 0 <= p < |xs| && xs[p] == a;
    var q :| 0 <= q < |xs| && xs[q] == b;
    assert p != q;
  }

  /**
   * Inserts a row in front of the first row whose total is no larger, so
   * that of equal totals the earlier row stays first.
   */
  function Insert(x: Species, xs: seq<Species>): (r: seq<Species>)
    requires NonIncreasing(xs)
    ensures |r| == |xs| + 1 && NonIncreasing(r)
    ensures forall y :: y in r <==> y == x || y in xs
  {
    if xs == [] || x.total >= xs[0].total then
      if xs != [] then
        TailBelow(xs);
        ConsSorted(x, xs);
        [x] + xs
      else [x]
    else
      TailBelow(xs);
      assert xs == [xs[0]] + xs[1..];
      var rest := Insert(x, xs[1..]);
      ConsSorted(xs[0], rest);
      [xs[0]] + rest
  }

  lemma {:induction false} InsertDistinct(x: Species, xs: seq<Species>)
    requires NonIncreasing(xs) && DistinctNames(xs) && forall y :: y in xs ==> y.name != x.name
    ensures DistinctNames(Insert(x, xs))
  {
    if xs != [] {
      if x.total >= xs[0].total {
        ConsDistinct(x, xs);
      } else {
        TailBelow(xs);
        TailDistinct(xs);
        assert forall y :: y in xs[1..] ==> y in xs;
        InsertDistinct(x, xs[1..]);
        ConsDistinct(xs[0], Insert(x, xs[1..]));
      }
    }
  }

  /** sort_values('total_haplotypes', ascending=False), stable. */
  function SortDesc(xs: seq<Species>): (r: seq<Species>)
    ensures |r| == |xs| && NonIncreasing(r)
    ensures forall y :: y in r <==> y in xs
  {
    if xs == [] then []
    else
      assert xs == [xs[0]] + xs[1..];
      Insert(xs[0], SortDesc(xs[1..]))
  }

  /** Sorting keeps the names distinct. */
  lemma {:induction false} SortDistinct(xs: seq<Species>)
    requires DistinctNames(xs)
    ensures DistinctNames(SortDesc(xs))
  {
    if xs != [] {
      TailDistinct(xs);
      SortDistinct(xs[1..]);
      InsertDistinct(xs[0], SortDesc(xs[1..]));
    }
  }

  /** df.nlargest(n, 'total_haplotypes'): the first n rows by descending total. */
  function Top(xs: seq<Species>, n: nat): (r: seq<Species>)
    ensures |r| == Min(n, |xs|)
    ensures forall y :: y in r ==> y in xs
  {
    var sorted := SortDesc(xs);
    assert forall k :: 0 <= k < Min(n, |xs|) ==> sorted[..Min(n, |xs|)][k] in sorted;
    sorted[..Min(n, |xs|)]
  }

  /** No row left out of nlargest has a larger total than one kept. */
  lemma TopIsLargest(xs: seq<Species>, n: nat, y: Species, z: Species)
    requires y in xs && y !in Top(xs, n) && z in Top(xs, n)
    ensures z.total >= y.total
  {
    var sorted := SortDesc(xs);
    var m :| 0 <= m < |sorted| && sorted[m] == y;
    var k :| 0 <= k < Min(n, |xs|) && sorted[..Min(n, |xs|)][k] == z;
    assert sorted[k] == z;
  }

  /** drop_duplicates(subset=['species_name']): keeps the first row of each name not yet seen. */
  function KeepFirst(xs: seq<Species>, seen: set<string>): (r: seq<Species>)
    ensures forall y :: y in r ==> y in xs && y.name !in seen
  {
    if xs == [] then []
    else
      assert xs == [xs[0]] + xs[1..];
      if xs[0].name in seen then KeepFirst(xs[1..], seen)
      else [xs[0]] + KeepFirst(xs[1..], seen + {xs[0].name})
  }

  /** No two kept rows share a name. */
  lemma {:induction false} KeepFirstDistinct(xs: seq<Species>, seen: set<string>)
    ensures DistinctNames(KeepFirst(xs, seen))
  {
    if xs != [] {
      if xs[0].name in seen {
        KeepFirstDistinct(xs[1..], seen);
      } else {
        KeepFirstDistinct(xs[1..], seen + {xs[0].name});
        ConsDistinct(xs[0], KeepFirst(xs[1..], seen + {xs[0].name}));
      }
    }
  }

  /**
   * When the rows in front all meet the mandatory mask, the row kept for
   * each of their names meets it too: a mandatory species is never
   * represented by a row that does not.
   */
  lemma {:induction false} KeepFirstMandatory(xs: seq<Species>, ys: seq<Species>, seen: set<string>, k: nat)
    requires forall y :: y in xs ==> IsMandatory(y)
    requires k < |xs| && xs[k].name !in seen
    ensures exists y :: y in KeepFirst(xs + ys, seen) && y.name == xs[k].name && IsMandatory(y)
  {
    var zs := xs + ys;
    assert zs[0] == xs[0] && zs[1..] == xs[1..] + ys;
    if xs[0].name == xs[k].name {
      assert KeepFirst(zs, seen)[0] == xs[0];
    } else {
      assert xs[k] == xs[1..][k - 1];
      var seen' := if xs[0].name in seen then seen else seen + {xs[0].name};
      KeepFirstMandatory(xs[1..], ys, seen', k - 1);
      var y :| y in KeepFirst(xs[1..] + ys, seen') && y.name == xs[k].name && IsMandatory(y);
      assert y in KeepFirst(zs, seen);
    }
  }

  /** A sequence of rows with distinct names, all drawn from another, is no longer than it. */
  lemma {:induction false} DistinctBound(xs: seq<Species>, ys: seq<Species>)
    requires DistinctNames(xs) && forall y :: y in xs ==> y in ys
    ensures |xs| <= |ys|
  {
    if xs != [] {
      var x := xs[|xs| - 1];
      var init := xs[..|xs| - 1];
      assert x in xs;
      var i :| 0 <= i < |ys| && ys[i] == x;
      var rest := ys[..i] + ys[i + 1..];
      forall y | y in init ensures y in rest {
        var m :| 0 <= m < |init| && init[m] == y;
        assert xs[m] == y;
        assert y.name != x.name;
        assert y in xs;
        var j :| 0 <= j < |ys| && ys[j] == y;
        if j < i {
          assert rest[j] == y;
        } else {
          assert rest[j - 1] == y;
        }
      }
      assert DistinctNames(init);
      DistinctBound(init, rest);
    }
  }

  /** The concatenation and de-duplication select_top_species sorts, before limiting. */
  function Candidates(df: seq<Species>, maxSpecies: nat): seq<Species>
  {
    SortDesc(KeepFirst(Where(df, Invasive) + Where(df, Threatened) + Top(df, maxSpecies), {}))
  }

  /** The candidates: rows of the table with distinct names, descending, the optional ones from nlargest. */
  lemma CandidatesFromTable(df: seq<Species>, maxSpecies: nat)
    ensures DistinctNames(Candidates(df, maxSpecies)) && NonIncreasing(Candidates(df, maxSpecies))
    ensures forall y :: y in Candidates(df, maxSpecies) ==> y in df
    ensures forall y :: y in Candidates(df, maxSpecies) && !IsMandatory(y) ==> y in Top(df, maxSpecies)
  {
    var front := Where(df, Invasive) + Where(df, Threatened);
    KeepFirstDistinct(front + Top(df, maxSpecies), {});
    SortDistinct(KeepFirst(front + Top(df, maxSpecies), {}));
  }

  /**
   * The limiting step: the mandatory rows up to max_species and, when
   * slots remain, as many optional rows (head of each).
   */
  function Limit(ms: seq<Species>, os: seq<Species>, maxSpecies: nat): (r: seq<Species>)
    ensures |r| <= maxSpecies
    ensures forall y :: y in r ==> y in ms || y in os
  {
    if |ms| >= maxSpecies then
      assert forall k :: 0 <= k < maxSpecies ==> ms[..maxSpecies][k] in ms;
      ms[..maxSpecies]
    else
      var o := os[..Min(maxSpecies - |ms|, |os|)];
      assert forall k :: 0 <= k < |o| ==> o[k] in os;
      ms + o
  }

  /** The limit keeps the mandatory rows in front and each part in its order. */
  lemma LimitOrdered(ms: seq<Species>, os: seq<Species>, maxSpecies: nat)
    requires (forall y :: y in ms ==> IsMandatory(y)) && forall y :: y in os ==> !IsMandatory(y)
    requires NonIncreasing(ms) && NonIncreasing(os)
    ensures var r := Limit(ms, os, maxSpecies);
      && (forall i, j :: 0 <= i < j < |r| && !IsMandatory(r[i]) ==> !IsMandatory(r[j]))
      && (forall i, j :: 0 <= i < j < |r| && IsMandatory(r[i]) == IsMandatory(r[j]) ==> r[i].total >= r[j].total)
  {
    var r := Limit(ms, os, maxSpecies);
    if |ms| < maxSpecies {
      var o := os[..Min(maxSpecies - |ms|, |os|)];
      forall i | 0 <= i < |r| ensures (i < |ms| ==> r[i] == ms[i]) && (i >= |ms| ==> r[i] == os[i - |ms|]) {
      }
      assert forall i :: 0 <= i < |ms| ==> r[i] in ms;
      assert forall i :: |ms| <= i < |r| ==> r[i] in os;
    } else {
      assert forall i :: 0 <= i < |r| ==> r[i] == ms[i] && r[i] in ms;
    }
  }

  /** Parts with distinct names and no name in common give a limit with distinct names. */
  lemma LimitDistinct(ms: seq<Species>, os: seq<Species>, maxSpecies: nat)
    requires DistinctNames(ms) && DistinctNames(os)
    requires forall a, b :: a in ms && b in os ==> a.name != b.name
    ensures DistinctNames(Limit(ms, os, maxSpecies))
  {
    var r := Limit(ms, os, maxSpecies);
    if |ms| < maxSpecies {
      forall i | 0 <= i < |r| ensures (i < |ms| ==> r[i] == ms[i]) && (i >= |ms| ==> r[i] == os[i - |ms|]) {
      }
      assert forall i :: 0 <= i < |ms| ==> r[i] in ms;
      assert forall i :: |ms| <= i < |r| ==> r[i] in os;
    } else {
      assert forall i :: 0 <= i < |r| ==> r[i] == ms[i];
    }
  }

  /** Below the limit, every mandatory row is kept. */
  lemma LimitKeepsMandatory(ms: seq<Species>, os: seq<Species>, maxSpecies: nat, y: Species)
    requires |ms| < maxSpecies && y in ms
    ensures y.name in Names(Limit(ms, os, maxSpecies))
  {
    var r := Limit(ms, os, maxSpecies);
    var p :| 0 <= p < |ms| && ms[p] == y;
    assert r[p] == y;
  }

  /**
   * select_top_species: the mandatory candidates by descending total and,
   * while slots remain, the optional ones after them; at most max_species
   * rows, all from the table.
   */
  function SelectTopSpecies(df: seq<Species>, maxSpecies: nat): (r: seq<Species>)
    ensures |r| <= maxSpecies
    ensures forall y :: y in r ==> y in df
  {
    var selected := Candidates(df, maxSpecies);
    CandidatesFromTable(df, maxSpecies);
    Limit(Where(selected, Mandatory), Where(selected, Optional), maxSpecies)
  }

  /** The mandatory rows precede all others, and each group is ordered by descending total. */
  lemma SelectOrdered(df: seq<Species>, maxSpecies: nat)
    ensures var r := SelectTopSpecies(df, maxSpecies);
      && (forall i, j :: 0 <= i < j < |r| && !IsMandatory(r[i]) ==> !IsMandatory(r[j]))
      && (forall i, j :: 0 <= i < j < |r| && IsMandatory(r[i]) == IsMandatory(r[j]) ==> r[i].total >= r[j].total)
  {
    var selected := Candidates(df, maxSpecies);
    CandidatesFromTable(df, maxSpecies);
    WhereKeeps(selected, Mandatory);
    WhereKeeps(selected, Optional);
    LimitOrdered(Where(selected, Mandatory), Where(selected, Optional), maxSpecies);
  }

  /** No two selected rows share a species name, and every optional row is among the nlargest rows. */
  lemma SelectDistinct(df: seq<Species>, maxSpecies: nat)
    ensures DistinctNames(SelectTopSpecies(df, maxSpecies))
    ensures forall y :: y in SelectTopSpecies(df, maxSpecies) && !IsMandatory(y) ==> y in Top(df, maxSpecies)
  {
    var selected := Candidates(df, maxSpecies);
    CandidatesFromTable(df, maxSpecies);
    WhereKeeps(selected, Mandatory);
    WhereKeeps(selected, Optional);
    forall a, b | a in Where(selected, Mandatory) && b in Where(selected, Optional) ensures a.name != b.name {
      WhereSplitNames(selected, a, b);
    }
    LimitDistinct(Where(selected, Mandatory), Where(selected, Optional), maxSpecies);
  }

  /**
   * With fewer mandatory rows than max_species, every invasive or
   * threatened species of the table is in the selection.
   */
  lemma SelectKeepsMandatory(df: seq<Species>, maxSpecies: nat)
    requires |Where(df, Mandatory)| < maxSpecies
    ensures forall i :: 0 <= i < |df| && IsMandatory(df[i]) ==> df[i].name in Names(SelectTopSpecies(df, maxSpecies))
  {
    var selected := Candidates(df, maxSpecies);
    CandidatesFromTable(df, maxSpecies);
    var mandatory := Where(selected, Mandatory);
    WhereKeeps(selected, Mandatory);
    DistinctBound(mandatory, Where(df, Mandatory));
    forall i | 0 <= i < |df| && IsMandatory(df[i]) ensures df[i].name in Names(SelectTopSpecies(df, maxSpecies)) {
      MandatoryCandidate(df, maxSpecies, df[i]);
      var y :| y in mandatory && y.name == df[i].name;
      LimitKeepsMandatory(mandatory, Where(selected, Optional), maxSpecies, y);
    }
  }

  /** Every invasive or threatened species of the table has a mandatory candidate of its name. */
  lemma MandatoryCandidate(df: seq<Species>, maxSpecies: nat, x: Species)
    requires x in df && IsMandatory(x)
    ensures exists y :: y in Where(Candidates(df, maxSpecies), Mandatory) && y.name == x.name
  {
    var inv, thr := Where(df, Invasive), Where(df, Threatened);
    var front := inv + thr;
    var top := Top(df, maxSpecies);
    var k: nat;
    if x.isInvasive {
      assert x in inv;
      k :| k < |inv| && inv[k] == x;
    } else {
      assert x in thr;
      var k' :| 0 <= k' < |thr| && thr[k'] == x;
      k := |inv| + k';
    }
    assert front[k] == x;
    KeepFirstMandatory(front, top, {}, k);
    var y :| y in KeepFirst(front + top, {}) && y.name == x.name && IsMandatory(y);
    assert y in Candidates(df, maxSpecies);
  }

  // ---------------------------------------------------------------------
  // transform_to_long_format
  // ---------------------------------------------------------------------

  /** One data point of the long table. */
  datatype LongRecord = LongRecord(
    species: string,
    sample: string,
    haplotypeCount: int,
    credibility: string,
    phylum: string,
    isInvasive: bool,
    redList: Option<string>,
    totalDiversity: int,
    nnsName: string)

  /** A table row has one cell per sample column. */
  predicate WellFormed(df: seq<Species>)
  {
    forall i :: 0 <= i < |df| ==> |df[i].counts| == |SampleColumns|
  }

  predicate Positive(o: Option<int>)
  {
    o.Some? && o.value > 0
  }

  /** The sample columns below n whose cell holds a positive count, in column order. */
  function PositiveUpTo(counts: seq<Option<int>>, n: nat): (r: seq<nat>)
    requires n <= |counts|
    ensures forall a, b :: 0 <= a < b < |r| ==> r[a] < r[b]
    ensures forall j :: j in r <==> 0 <= j < n && Positive(counts[j])
    ensures forall k :: 0 <= k < |r| ==> r[k] < n && Positive(counts[r[k]])
  {
    if n == 0 then []
    else
      var rest := PositiveUpTo(counts, n - 1);
      assert forall a :: 0 <= a < |rest| ==> rest[a] in rest;
      if Positive(counts[n - 1]) then rest + [n - 1] else rest
  }

  /** The data point of sample column j of a row. */
  function MakeRecord(row: Species, j: nat): (rec: LongRecord)
    requires j < |row.counts| && j < |SampleColumns| && row.counts[j].Some?
    ensures rec.species == row.name && rec.sample == SampleColumns[j] && rec.haplotypeCount == row.counts[j].value
    ensures rec.totalDiversity == row.total && rec.credibility == row.score && rec.isInvasive == row.isInvasive
  {
    LongRecord(row.name, SampleColumns[j], row.counts[j].value, row.score, row.phylum,
               row.isInvasive, row.redList, row.total, row.nns)
  }

  /** The data points of the given columns of a row. */
  function Records(row: Species, cols: seq<nat>): (r: seq<LongRecord>)
    requires forall k :: 0 <= k < |cols| ==> cols[k] < |row.counts| && cols[k] < |SampleColumns| && row.counts[cols[k]].Some?
    ensures |r| == |cols| && forall k :: 0 <= k < |cols| ==> r[k] == MakeRecord(row, cols[k])
  {
    seq(|cols|, k requires 0 <= k < |cols| => MakeRecord(row, cols[k]))
  }

  /** The data points of one row: one per sample with a positive count, in column order. */
  function RowRecords(row: Species): seq<LongRecord>
    requires |row.counts| == |SampleColumns|
  {
    Records(row, PositiveUpTo(row.counts, |SampleColumns|))
  }

  /**
   * The long table: the data points of each row, row after row. A cell
   * that is empty gives no data point, like a zero count.
   */
  function LongRecords(df: seq<Species>): seq<LongRecord>
    requires WellFormed(df)
  {
    if df == [] then [] else LongRecords(df[..|df| - 1]) + RowRecords(df[|df| - 1])
  }

  /**
   * A data point is in the long table exactly when it is the data point of
   * a row and a sample whose count is positive; it then carries that row's
   * total.
   */
  lemma {:induction false} LongRecordsIff(df: seq<Species>, rec: LongRecord)
    requires WellFormed(df)
    ensures rec in LongRecords(df) <==>
      exists i, j :: 0 <= i < |df| && 0 <= j < |SampleColumns| && Positive(df[i].counts[j]) && rec == MakeRecord(df[i], j)
  {
    if df != [] {
      var init := df[..|df| - 1];
      var row := df[|df| - 1];
      LongRecordsIff(init, rec);
      RowRecordsIff(row, rec);
      if exists i, j :: 0 <= i < |df| && 0 <= j < |SampleColumns| && Positive(df[i].counts[j]) && rec == MakeRecord(df[i], j) {
        var i, j :| 0 <= i < |df| && 0 <= j < |SampleColumns| && Positive(df[i].counts[j]) && rec == MakeRecord(df[i], j);
        if i < |df| - 1 {
          assert init[i] == df[i];
        }
      }
    }
  }

  /** A data point is among a row's exactly when it is the data point of a sample with a positive count. */
  lemma RowRecordsIff(row: Species, rec: LongRecord)
    requires |row.counts| == |SampleColumns|
    ensures rec in RowRecords(row) <==> exists j :: 0 <= j < |SampleColumns| && Positive(row.counts[j]) && rec == MakeRecord(row, j)
  {
    var cols := PositiveUpTo(row.counts, |SampleColumns|);
    if rec in RowRecords(row) {
      var k :| 0 <= k < |cols| && RowRecords(row)[k] == rec;
      assert cols[k] in cols;
    }
    if exists j :: 0 <= j < |SampleColumns| && Positive(row.counts[j]) && rec == MakeRecord(row, j) {
      var j :| 0 <= j < |SampleColumns| && Positive(row.counts[j]) && rec == MakeRecord(row, j);
      assert j in cols;
      var k :| 0 <= k < |cols| && cols[k] == j;
      assert RowRecords(row)[k] == rec;
    }
  }

  /** Every data point has a positive count and carries its species' total. */
  lemma LongRecordsCounts(df: seq<Species>, rec: LongRecord)
    requires WellFormed(df) && rec in LongRecords(df)
    ensures rec.haplotypeCount > 0
    ensures exists i :: 0 <= i < |df| && df[i].name == rec.species && df[i].total == rec.totalDiversity
  {
    LongRecordsIff(df, rec);
  }

  /** No empty cell in any row of the table. */
  predicate NoEmptyCell(df: seq<Species>)
  {
    forall i :: 0 <= i < |df| ==> Filled(df[i])
  }

  lemma NoEmptyCellAppend(df: seq<Species>, row: Species)
    requires NoEmptyCell(df) && Filled(row)
    ensures NoEmptyCell(df + [row])
  {
    var d := df + [row];
    forall i | 0 <= i < |d| ensures Filled(d[i]) {
      if i < |df| {
        assert d[i] == df[i];
      }
    }
  }

  /** No empty cell in one row. */
  predicate Filled(row: Species)
  {
    forall j :: 0 <= j < |row.counts| ==> row.counts[j].Some?
  }

  /**
   * The inner loop of transform_to_long_format over the sample columns of
   * one row: its data points, or None where int() of an empty (NaN) cell
   * raises.
   */
  method RowToRecords(row: Species) returns (r: Option<seq<LongRecord>>)
    requires |row.counts| == |SampleColumns|
    ensures r.None? <==> !Filled(row)
    ensures r.Some? ==> r.value == RowRecords(row)
  {
    var records: seq<LongRecord> := [];
    for j := 0 to |SampleColumns|
      invariant forall j' :: 0 <= j' < j ==> row.counts[j'].Some?
      invariant records == RecordsUpTo(row, j)
    {
      if row.counts[j].None? {
        return None;
      }
      var count := row.counts[j].value;
      if count > 0 {
        records := records + [MakeRecord(row, j)];
      }
    }
    RecordsUpToColumns(row, |SampleColumns|);
    return Some(records);
  }

  /** The data points of the first n sample columns of a row without empty cells there, one column at a time. */
  function RecordsUpTo(row: Species, n: nat): seq<LongRecord>
    requires n <= |row.counts| && n <= |SampleColumns|
    requires forall j :: 0 <= j < n ==> row.counts[j].Some?
  {
    if n == 0 then []
    else RecordsUpTo(row, n - 1) + if row.counts[n - 1].value > 0 then [MakeRecord(row, n - 1)] else []
  }

  /** Column by column, the loop builds the data points of the positive columns. */
  lemma {:induction false} RecordsUpToColumns(row: Species, n: nat)
    requires n <= |row.counts| && n <= |SampleColumns|
    requires forall j :: 0 <= j < n ==> row.counts[j].Some?
    ensures RecordsUpTo(row, n) == Records(row, PositiveUpTo(row.counts, n))
  {
    if n > 0 {
      RecordsUpToColumns(row, n - 1);
      var cols := PositiveUpTo(row.counts, n - 1);
      if row.counts[n - 1].value > 0 {
        assert Records(row, cols + [n - 1]) == Records(row, cols) + [MakeRecord(row, n - 1)];
      }
    }
  }

  /**
   * transform_to_long_format as written: the exception of an empty cell
   * discards every data point built so far; on a table without empty cells
   * the result is the long table.
   */
  method TransformToLongFormat(df: seq<Species>) returns (r: Result<seq<LongRecord>, string>)
    requires WellFormed(df)
    ensures r.Failure? <==> !NoEmptyCell(df)
    ensures r.Success? ==> r.value == LongRecords(df)
  {
    var records: seq<LongRecord> := [];
    for i := 0 to |df|
      invariant NoEmptyCell(df[..i])
      invariant records == LongRecords(df[..i])
    {
      assert df[..i + 1][..i] == df[..i];
      assert df[..i + 1] == df[..i] + [df[i]];
      var rowRecords := RowToRecords(df[i]);
      if rowRecords.None? {
        return Failure(NanToInteger);
      }
      records := records + rowRecords.value;
      NoEmptyCellAppend(df[..i], df[i]);
    }
    assert df[..|df|] == df;
    return Success(records);
  }

  /** The row sum grows by the next cell, or not at all when it is empty. */
  lemma TotalStep(counts: seq<Option<int>>, k: nat)
    requires k < |counts|
    ensures Total(counts[..k + 1]) == Total(counts[..k]) + if counts[k].Some? then counts[k].value else 0
  {
    assert counts[..k + 1][..k] == counts[..k];
  }

  /**
   * A row with one filled cell and five empty ones survives cleaning, so
   * the long-format step then raises on its first empty cell.
   */
  lemma EmptyCellSurvivesCleaning(row: RawRow)
    requires row.counts == [Some(3), None, None, None, None, None]
    ensures LoadAndClean([row]) == [ToSpecies(row)]
    ensures WellFormed(LoadAndClean([row])) && !NoEmptyCell(LoadAndClean([row]))
  {
    var c := row.counts;
    TotalStep(c, 0);
    TotalStep(c, 1);
    TotalStep(c, 2);
    TotalStep(c, 3);
    TotalStep(c, 4);
    TotalStep(c, 5);
    assert c[..6] == c;
    assert c[0].Some?;
    assert !Filled(LoadAndClean([row])[0]);
    assert [row][..0] == [];
    assert ToSpecies(row).counts[1].None?;
  }

  // ---------------------------------------------------------------------
  // calculate_bubble_size
  // ---------------------------------------------------------------------

  const MinBubbleSize := 8
  const BubbleScale := 5

  /** A bubble's size in pixels: the base size plus a fixed step per haplotype. */
  function BubbleSize(count: int): (size: int)
    ensures (size - MinBubbleSize) % BubbleScale == 0 && (size - MinBubbleSize) / BubbleScale == count
    ensures count >= 0 ==> size >= MinBubbleSize
  {
    MinBubbleSize + count * BubbleScale
  }

  /** More haplotypes make a strictly larger bubble. */
  lemma BubbleSizeIncreasing(a: int, b: int)
    requires a < b
    ensures BubbleSize(a) < BubbleSize(b)
  {
  }
}
