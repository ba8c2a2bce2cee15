/**
 * The greedy bipartite matching shared by the shadow-reflection coupler
 * (find_coupled_blobs) and the track manager (match_blobs_to_tracks):
 * enumerate every (row, column) pair of a distance matrix whose distance is
 * within a limit, in row-major order; sort the pairs by distance with a
 * stable sort; accept a pair when neither its row nor its column has been
 * claimed yet.
 *
 * Distances are carried squared: for a non-negative distance d and a limit
 * t, "d <= t" is "t >= 0 && d*d <= t*t", and sorting by d or by d*d gives
 * the same order, ties included.
 */
module GreedyMatch {

  import opened Wrappers

  /** A candidate pair: row index, column index and its (squared) distance. */
  datatype Cand = Cand(a: nat, b: nat, key: real)

  /** d <= limit, for the non-negative distance d whose square is d2. */
  predicate WithinLimit(d2: real, limit: real)
  {
    limit >= 0.0 && d2 <= limit * limit
  }

  /** Every row of the matrix has m columns. */
  predicate IsMatrix(d: seq<seq<real>>, m: nat)
  {
    forall i :: 0 <= i < |d| ==> |d[i]| == m
  }

  /** The pairs (i, j) of one row, j ascending, whose entry is within the limit. */
  function RowCands(i: nat, row: seq<real>, limit: real): seq<Cand>
  {
    if row == [] then []
    else
      var j := |row| - 1;
      RowCands(i, row[..j], limit) + (if WithinLimit(row[j], limit) then [Cand(i, j, row[j])] else [])
  }

  /** All pairs within the limit, in row-major order (row, then column). */
  function Candidates(d: seq<seq<real>>, limit: real): seq<Cand>
  {
    if d == [] then []
    else
      var i := |d| - 1;
      Candidates(d[..i], limit) + RowCands(i, d[i], limit)
  }

  lemma {:induction false} RowCandsIff(i: nat, row: seq<real>, limit: real, c: Cand)
    ensures c in RowCands(i, row, limit) <==>
      c.a == i && c.b < |row| && c.key == row[c.b] && WithinLimit(c.key, limit)
  {
    if row != [] {
      var j := |row| - 1;
      RowCandsIff(i, row[..j], limit, c);
    }
  }

  /** A pair is enumerated exactly when it indexes the matrix and its entry is within the limit. */
  lemma {:induction false} CandidatesIff(d: seq<seq<real>>, m: nat, limit: real, c: Cand)
    requires IsMatrix(d, m)
    ensures c in Candidates(d, limit) <==>
      c.a < |d| && c.b < m && c.key == d[c.a][c.b] && WithinLimit(c.key, limit)
  {
    if d != [] {
      var i := |d| - 1;
      CandidatesIff(d[..i], m, limit, c);
      RowCandsIff(i, d[i], limit, c);
    }
  }

  /** Keys ascend along the sequence. */
  predicate SortedByKey(s: seq<Cand>)
  {
    forall i, j :: 0 <= i < j < |s| ==> s[i].key <= s[j].key
  }

  /** Inserts x after every element whose key is <= x.key (this keeps the sort stable). */
  function Insert(x: Cand, s: seq<Cand>): seq<Cand>
  {
    if s == [] then [x]
    else if x.key < s[0].key then [x] + s
    else [s[0]] + Insert(x, s[1..])
  }

  /** Stable insertion sort by key: equal keys keep their enumeration order. */
  function SortByKey(s: seq<Cand>): seq<Cand>
  {
    if s == [] then []
    else Insert(s[|s| - 1], SortByKey(s[..|s| - 1]))
  }

  lemma {:induction false} InsertPerm(x: Cand, s: seq<Cand>)
    ensures multiset(Insert(x, s)) == multiset(s) + multiset{x}
  {
    if s != [] && x.key >= s[0].key {
      InsertPerm(x, s[1..]);
      assert s == [s[0]] + s[1..];
    }
  }

  lemma {:induction false} InsertSorted(x: Cand, s: seq<Cand>)
    requires SortedByKey(s)
    ensures SortedByKey(Insert(x, s))
  {
    if s != [] && x.key >= s[0].key {
      var t := s[1..];
      assert SortedByKey(t);
      InsertSorted(x, t);
      InsertPerm(x, t);
      var r := Insert(x, t);
      forall k | 0 <= k < |r| ensures s[0].key <= r[k].key {
        assert r[k] in multiset(r);
        if r[k] != x {
          assert r[k] in multiset(t);
          var k' :| 0 <= k' < |t| && t[k'] == r[k];
          assert t[k'] == s[k' + 1];
        }
      }
      var g := [s[0]] + r;
      forall i, j | 0 <= i < j < |g| ensures g[i].key <= g[j].key {
        if i == 0 { assert g[j] == r[j - 1]; } else { assert g[i] == r[i - 1] && g[j] == r[j - 1]; }
      }
    }
  }

  /** The sort orders the pairs by key and is a permutation of its input. */
  lemma {:induction false} SortByKeySortedPerm(s: seq<Cand>)
    ensures SortedByKey(SortByKey(s))
    ensures multiset(SortByKey(s)) == multiset(s)
  {
    if s != [] {
      var n := |s| - 1;
      SortByKeySortedPerm(s[..n]);
      InsertSorted(s[n], SortByKey(s[..n]));
      InsertPerm(s[n], SortByKey(s[..n]));
      assert s == s[..n] + [s[n]];
    }
  }

  /** (x.a, x.b) comes before (y.a, y.b) in row-major order. */
  predicate PairBefore(x: Cand, y: Cand)
  {
    x.a < y.a || (x.a == y.a && x.b < y.b)
  }

  /** The pairs are listed in strictly increasing row-major order. */
  predicate RowMajor(s: seq<Cand>)
  {
    forall i, j :: 0 <= i < j < |s| ==> PairBefore(s[i], s[j])
  }

  /** Ordered by key, and pairs of equal key in row-major order. */
  predicate StablySorted(s: seq<Cand>)
  {
    forall i, j :: 0 <= i < j < |s| ==>
      s[i].key < s[j].key || (s[i].key == s[j].key && PairBefore(s[i], s[j]))
  }

  /** Inserting a pair that comes after every listed pair in row-major order keeps the list stably sorted. */
  lemma {:induction false} InsertStable(x: Cand, s: seq<Cand>)
    requires StablySorted(s)
    requires forall k :: 0 <= k < |s| ==> PairBefore(s[k], x)
    ensures StablySorted(Insert(x, s))
  {
    if s != [] {
      if x.key < s[0].key {
        var g := [x] + s;
        forall i, j | 0 <= i < j < |g|
          ensures g[i].key < g[j].key || (g[i].key == g[j].key && PairBefore(g[i], g[j]))
        {
          if i == 0 {
            assert g[j] == s[j - 1];
            if j > 1 { assert s[0].key <= s[j - 1].key; }
          } else {
            assert g[i] == s[i - 1] && g[j] == s[j - 1];
          }
        }
      } else {
        var t := s[1..];
        InsertStable(x, t);
        InsertPerm(x, t);
        var r := Insert(x, t);
        forall k | 0 <= k < |r|
          ensures s[0].key < r[k].key || (s[0].key == r[k].key && PairBefore(s[0], r[k]))
        {
          assert r[k] in multiset(r);
          if r[k] != x {
            assert r[k] in multiset(t);
            var k' :| 0 <= k' < |t| && t[k'] == r[k];
            assert t[k'] == s[k' + 1];
          }
        }
        var g := [s[0]] + r;
        forall i, j | 0 <= i < j < |g|
          ensures g[i].key < g[j].key || (g[i].key == g[j].key && PairBefore(g[i], g[j]))
        {
          if i == 0 { assert g[j] == r[j - 1]; } else { assert g[i] == r[i - 1] && g[j] == r[j - 1]; }
        }
      }
    }
  }

  /**
   * The sort is stable: on a row-major list, pairs of equal key stay in
   * row-major order, so the first of them to be offered is the earlier one.
   */
  lemma {:induction false} SortByKeyStable(s: seq<Cand>)
    requires RowMajor(s)
    ensures StablySorted(SortByKey(s))
  {
    if s != [] {
      var n := |s| - 1;
      var init := s[..n];
      assert RowMajor(init);
      SortByKeyStable(init);
      SortByKeySortedPerm(init);
      var sorted := SortByKey(init);
      forall k | 0 <= k < |sorted| ensures PairBefore(sorted[k], s[n]) {
        assert sorted[k] in multiset(init);
        var k' :| 0 <= k' < |init| && init[k'] == sorted[k];
        assert init[k'] == s[k'];
      }
      InsertStable(s[n], sorted);
    }
  }

  /** The pairs of one row are enumerated by increasing column. */
  lemma {:induction false} RowCandsRowMajor(i: nat, row: seq<real>, limit: real)
    ensures RowMajor(RowCands(i, row, limit))
    ensures forall k :: 0 <= k < |RowCands(i, row, limit)| ==>
      RowCands(i, row, limit)[k].a == i && RowCands(i, row, limit)[k].b < |row|
  {
    if row != [] {
      var j := |row| - 1;
      RowCandsRowMajor(i, row[..j], limit);
    }
  }

  /** The enumeration lists the pairs in strictly increasing row-major order. */
  lemma {:induction false} CandidatesRowMajor(d: seq<seq<real>>, limit: real)
    ensures RowMajor(Candidates(d, limit))
    ensures forall k :: 0 <= k < |Candidates(d, limit)| ==> Candidates(d, limit)[k].a < |d|
  {
    if d != [] {
      var i := |d| - 1;
      CandidatesRowMajor(d[..i], limit);
      RowCandsRowMajor(i, d[i], limit);
      var p, q := Candidates(d[..i], limit), RowCands(i, d[i], limit);
      var g := p + q;
      forall x, y | 0 <= x < y < |g| ensures PairBefore(g[x], g[y]) {
        if y < |p| {
          assert g[x] == p[x] && g[y] == p[y];
        } else if x < |p| {
          assert g[x] == p[x] && g[y] == q[y - |p|];
        } else {
          assert g[x] == q[x - |p|] && g[y] == q[y - |p|];
        }
      }
    }
  }

  /**
   * The sorted candidates of a matrix are ordered by key, and candidates of
   * equal key come in row-major order, as the stable sort of the
   * row-major enumeration leaves them.
   */
  lemma SortedCandidatesStable(d: seq<seq<real>>, limit: real)
    ensures StablySorted(SortByKey(Candidates(d, limit)))
  {
    CandidatesRowMajor(d, limit);
    SortByKeyStable(Candidates(d, limit));
  }

  /**
   * Greedy acceptance over pairs in the given order: a pair is accepted when
   * its row is not in rows and its column is not in cols; accepting claims both.
   */
  function Greedy(s: seq<Cand>, rows: set<nat>, cols: set<nat>): seq<Cand>
  {
    if s == [] then []
    else if s[0].a !in rows && s[0].b !in cols then
      [s[0]] + Greedy(s[1..], rows + {s[0].a}, cols + {s[0].b})
    else Greedy(s[1..], rows, cols)
  }

  /** The rows claimed by a list of accepted pairs. */
  function Rows(s: seq<Cand>): set<nat>
  {
    set k | 0 <= k < |s| :: s[k].a
  }

  /** The columns claimed by a list of accepted pairs. */
  function Cols(s: seq<Cand>): set<nat>
  {
    set k | 0 <= k < |s| :: s[k].b
  }

  /** No row and no column occurs twice. */
  predicate OneToOne(s: seq<Cand>)
  {
    forall i, j :: 0 <= i < j < |s| ==> s[i].a != s[j].a && s[i].b != s[j].b
  }

  lemma RowsColsCons(c: Cand, s: seq<Cand>)
    ensures Rows([c] + s) == {c.a} + Rows(s)
    ensures Cols([c] + s) == {c.b} + Cols(s)
  {
    var t := [c] + s;
    forall x | x in Rows(t) ensures x in {c.a} + Rows(s) {
      var k :| 0 <= k < |t| && t[k].a == x;
      if k > 0 { assert s[k - 1].a == x; }
    }
    forall x | x in Rows(s) ensures x in Rows(t) {
      var k :| 0 <= k < |s| && s[k].a == x;
      assert t[k + 1].a == x;
    }
    assert t[0].a == c.a;
    forall x | x in Cols(t) ensures x in {c.b} + Cols(s) {
      var k :| 0 <= k < |t| && t[k].b == x;
      if k > 0 { assert s[k - 1].b == x; }
    }
    forall x | x in Cols(s) ensures x in Cols(t) {
      var k :| 0 <= k < |s| && s[k].b == x;
      assert t[k + 1].b == x;
    }
    assert t[0].b == c.b;
  }

  lemma RowsColsSnoc(s: seq<Cand>, c: Cand)
    ensures Rows(s + [c]) == Rows(s) + {c.a}
    ensures Cols(s + [c]) == Cols(s) + {c.b}
  {
    var t := s + [c];
    forall x | x in Rows(t) ensures x in Rows(s) + {c.a} {
      var k :| 0 <= k < |t| && t[k].a == x;
      if k < |s| { assert s[k].a == x; }
    }
    forall x | x in Rows(s) ensures x in Rows(t) {
      var k :| 0 <= k < |s| && s[k].a == x;
      assert t[k].a == x;
    }
    assert t[|s|].a == c.a;
    forall x | x in Cols(t) ensures x in Cols(s) + {c.b} {
      var k :| 0 <= k < |t| && t[k].b == x;
      if k < |s| { assert s[k].b == x; }
    }
    forall x | x in Cols(s) ensures x in Cols(t) {
      var k :| 0 <= k < |s| && s[k].b == x;
      assert t[k].b == x;
    }
    assert t[|s|].b == c.b;
  }

  /**
   * Greedy acceptance is a one-to-one matching that avoids the rows and columns
   * claimed beforehand, takes only pairs offered to it, and is maximal: every
   * offered pair shares a row or a column with a claimed one.
   */
  lemma {:induction false} GreedyMatching(s: seq<Cand>, rows: set<nat>, cols: set<nat>)
    ensures var g := Greedy(s, rows, cols);
      && OneToOne(g)
      && Rows(g) !! rows && Cols(g) !! cols
      && (forall c :: c in g ==> c in s)
      && (forall c :: c in s ==> c.a in rows + Rows(g) || c.b in cols + Cols(g))
  {
    if s != [] {
      var c := s[0];
      if c.a !in rows && c.b !in cols {
        var rest := Greedy(s[1..], rows + {c.a}, cols + {c.b});
        GreedyMatching(s[1..], rows + {c.a}, cols + {c.b});
        RowsColsCons(c, rest);
        var g := [c] + rest;
        forall i, j | 0 <= i < j < |g| ensures g[i].a != g[j].a && g[i].b != g[j].b {
          if i == 0 {
            assert g[j] == rest[j - 1];
            assert rest[j - 1].a in Rows(rest) && rest[j - 1].b in Cols(rest);
          } else {
            assert g[i] == rest[i - 1] && g[j] == rest[j - 1];
          }
        }
        forall x | x in g ensures x in s {
          if x != c { assert x in rest; }
        }
      } else {
        GreedyMatching(s[1..], rows, cols);
      }
    }
  }

  /** The number of distinct rows of a one-to-one list is its length. */
  lemma {:induction false} OneToOneCard(s: seq<Cand>)
    requires OneToOne(s)
    ensures |Rows(s)| == |s| && |Cols(s)| == |s|
  {
    if s != [] {
      var t := s[1..];
      assert s == [s[0]] + t;
      assert OneToOne(t);
      OneToOneCard(t);
      RowsColsCons(s[0], t);
      forall k | 0 <= k < |t| ensures t[k].a != s[0].a && t[k].b != s[0].b {
        assert t[k] == s[k + 1];
      }
    }
  }

  /** The pair of a one-to-one list that has the given column, if any. */
  function PartnerOf(s: seq<Cand>, col: nat): (r: Option<nat>)
    ensures r.Some? ==> exists k :: 0 <= k < |s| && s[k].b == col && s[k].a == r.value
    ensures r.None? <==> col !in Cols(s)
  {
    if s == [] then None
    else if s[|s| - 1].b == col then Some(s[|s| - 1].a)
    else
      var r := PartnerOf(s[..|s| - 1], col);
      assert forall k :: 0 <= k < |s| - 1 ==> s[..|s| - 1][k] == s[k];
      assert col in Cols(s[..|s| - 1]) ==> col in Cols(s);
      assert col in Cols(s) ==> col in Cols(s[..|s| - 1]) by {
        if col in Cols(s) {
          var k :| 0 <= k < |s| && s[k].b == col;
          assert s[..|s| - 1][k].b == col;
        }
      }
      r
  }

  /**
   * One step of the greedy loop: after the pairs accepted from a prefix, the
   * next candidate is accepted exactly when its row and column are both free.
   */
  lemma GreedyStep(sorted: seq<Cand>, k: nat, accepted: seq<Cand>, rows: set<nat>, cols: set<nat>)
    requires k < |sorted|
    requires accepted + Greedy(sorted[k..], rows, cols) == Greedy(sorted, {}, {})
    ensures sorted[k].a !in rows && sorted[k].b !in cols ==>
      (accepted + [sorted[k]]) + Greedy(sorted[k + 1..], rows + {sorted[k].a}, cols + {sorted[k].b}) == Greedy(sorted, {}, {})
    ensures !(sorted[k].a !in rows && sorted[k].b !in cols) ==>
      accepted + Greedy(sorted[k + 1..], rows, cols) == Greedy(sorted, {}, {})
  {
    var c := sorted[k];
    assert sorted[k..] == [c] + sorted[k + 1..];
    if c.a !in rows && c.b !in cols {
      var g := Greedy(sorted[k + 1..], rows + {c.a}, cols + {c.b});
      assert accepted + ([c] + g) == (accepted + [c]) + g;
    }
  }

  /** At the end of the loop the accepted pairs are the whole greedy matching. */
  lemma GreedyDone(sorted: seq<Cand>, accepted: seq<Cand>, rows: set<nat>, cols: set<nat>)
    requires accepted + Greedy(sorted[|sorted|..], rows, cols) == Greedy(sorted, {}, {})
    ensures accepted == Greedy(sorted, {}, {})
  {
    assert sorted[|sorted|..] == [];
    assert accepted + [] == accepted;
  }

  /** At the start of the loop nothing is accepted. */
  lemma GreedyStart(sorted: seq<Cand>)
    ensures Rows([]) == {} && Cols([]) == {}
    ensures [] + Greedy(sorted[0..], {}, {}) == Greedy(sorted, {}, {})
  {
    var e: seq<Cand> := [];
    assert Rows(e) == {} && Cols(e) == {};
    assert sorted[0..] == sorted;
    assert e + Greedy(sorted, {}, {}) == Greedy(sorted, {}, {});
  }

  /** Greedy acceptance as a loop over the sorted pairs, claiming rows and columns in two sets. */
  method AcceptGreedily(sorted: seq<Cand>) returns (accepted: seq<Cand>, matchedRows: set<nat>, matchedCols: set<nat>)
    ensures accepted == Greedy(sorted, {}, {})
    ensures matchedRows == Rows(accepted) && matchedCols == Cols(accepted)
  {
    accepted, matchedRows, matchedCols := [], {}, {};
    GreedyStart(sorted);
    for k := 0 to |sorted|
      invariant accepted + Greedy(sorted[k..], matchedRows, matchedCols) == Greedy(sorted, {}, {})
      invariant matchedRows == Rows(accepted) && matchedCols == Cols(accepted)
    {
      var c := sorted[k];
      GreedyStep(sorted, k, accepted, matchedRows, matchedCols);
      if c.a !in matchedRows && c.b !in matchedCols {
        RowsColsSnoc(accepted, c);
        accepted := accepted + [c];
        matchedRows := matchedRows + {c.a};
        matchedCols := matchedCols + {c.b};
      }
    }
    GreedyDone(sorted, accepted, matchedRows, matchedCols);
  }

  /** Row-major enumeration of the matrix entries within the limit (the nested loop building `pairs`). */
  method EnumeratePairs(d: seq<seq<real>>, m: nat, limit: real) returns (pairs: seq<Cand>)
    requires IsMatrix(d, m)
    ensures pairs == Candidates(d, limit)
  {
    pairs := [];
    for i := 0 to |d|
      invariant pairs == Candidates(d[..i], limit)
    {
      assert d[..i + 1][..i] == d[..i];
      for j := 0 to m
        invariant pairs == Candidates(d[..i], limit) + RowCands(i, d[i][..j], limit)
      {
        assert d[i][..j + 1][..j] == d[i][..j];
        if WithinLimit(d[i][j], limit) {
          pairs := pairs + [Cand(i, j, d[i][j])];
        }
      }
      assert d[i][..m] == d[i];
    }
    assert d[..|d|] == d;
  }
}
