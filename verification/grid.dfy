/** Answer-grid discovery: the accepted regions of a sheet, ordered top to
    bottom and left to right, clustered into rows (one row per question).
    Contour extraction itself is outside the model: a sheet's contours arrive
    as Region records. */
module Grid {
  import opened Common
  import opened OmrConfig
  import opened Sorting

  /** One external contour: its bounding box (x, y, w, h), which lies inside the
      image and so has non-negative coordinates, and its pixel area. */
  datatype Region = Region(x: nat, y: nat, w: nat, h: nat, area: real)

  /** The area band a contour must fall in, both ends excluded. */
  predicate InBand(c: Config, r: Region)
  {
    (c.minContourArea as real) < r.area < (c.maxBubbleArea as real)
  }

  /** The contours whose area lies strictly inside the band, in their original
      order. */
  function FilterByArea(c: Config, rs: seq<Region>): (r: seq<Region>)
    ensures |r| <= |rs|
    ensures forall i :: 0 <= i < |r| ==> InBand(c, r[i])
    ensures forall x :: multiset(r)[x] == if InBand(c, x) then multiset(rs)[x] else 0
    ensures IsSubsequence(r, rs)
    decreases |rs|
  {
    if |rs| == 0 then []
    else
      var rest := FilterByArea(c, rs[..|rs| - 1]);
      assert rs == rs[..|rs| - 1] + [rs[|rs| - 1]];
      if InBand(c, rs[|rs| - 1]) then
        var r := rest + [rs[|rs| - 1]];
        assert r[..|r| - 1] == rest;
        r
      else rest
  }

  /** The top-to-bottom, left-to-right order: by y, then by x. */
  function PositionKey(r: Region): Key
  {
    Key(r.y, r.x)
  }

  /** The left-to-right order used inside a row: by x alone. */
  function ColumnKey(r: Region): Key
  {
    Key(r.x, 0)
  }

  /** The vertical distance below which a region joins the row of the region
      before it. It is a literal in the source, not a configuration field. */
  const RowTolerance: nat := 20

  /** Whether `next` stays in the row of `prev`, its predecessor in the
      position order. */
  predicate SameRow(prev: Region, next: Region)
  {
    Abs(next.y - prev.y) < RowTolerance
  }

  /** The declarative row split of a position-ordered sequence: consecutive
      regions share a row exactly when they are SameRow. Defined on prefixes,
      the way the source walks the sequence. */
  function Groups(s: seq<Region>): (g: seq<seq<Region>>)
    ensures |g| == 0 <==> |s| == 0
    decreases |s|
  {
    if |s| == 0 then []
    else if |s| == 1 then [[s[0]]]
    else
      var g := Groups(s[..|s| - 1]);
      if SameRow(s[|s| - 2], s[|s| - 1]) then g[..|g| - 1] + [g[|g| - 1] + [s[|s| - 1]]]
      else g + [[s[|s| - 1]]]
  }

  /** The number of adjacent pairs in `s` that do not share a row. */
  function RowBreaks(s: seq<Region>): nat
    decreases |s|
  {
    if |s| < 2 then 0
    else RowBreaks(s[..|s| - 1]) + if SameRow(s[|s| - 2], s[|s| - 1]) then 0 else 1
  }

  /** Every group sorted left to right. */
  function SortEach(gs: seq<seq<Region>>): (rows: seq<seq<Region>>)
    ensures |rows| == |gs|
    ensures forall k :: 0 <= k < |gs| ==> rows[k] == SortBy(gs[k], ColumnKey)
  {
    seq(|gs|, k requires 0 <= k < |gs| => SortBy(gs[k], ColumnKey))
  }

  /** The rows the source builds from a position-ordered sequence. */
  function Rows(s: seq<Region>): seq<seq<Region>>
  {
    SortEach(Groups(s))
  }

  // ---------------------------------------------------------------------------
  // Properties of the row split

  /** The groups, read in order, give back the sequence: nothing is lost,
      duplicated or moved. */
  lemma {:induction false} GroupsFlatten(s: seq<Region>)
    ensures Flatten(Groups(s)) == s
    decreases |s|
  {
    if |s| > 1 {
      var p := s[..|s| - 1];
      var g := Groups(p);
      GroupsFlatten(p);
      assert s == p + [s[|s| - 1]];
      assert p[..|p| - 1] == s[..|s| - 2];
      var n := |g|;
      if SameRow(s[|s| - 2], s[|s| - 1]) {
        var g' := g[..n - 1] + [g[n - 1] + [s[|s| - 1]]];
        assert g'[..n - 1] == g[..n - 1];
        assert Flatten(g) == Flatten(g[..n - 1]) + g[n - 1];
      } else {
        var g' := g + [[s[|s| - 1]]];
        assert g'[..n] == g;
      }
    }
  }

  /** The last group ends with the last region. */
  lemma {:induction false} GroupsLast(s: seq<Region>)
    requires |s| > 0
    ensures var g := Groups(s); |g[|g| - 1]| > 0 && g[|g| - 1][|g[|g| - 1]| - 1] == s[|s| - 1]
  {
  }

  /** No group is empty. */
  lemma {:induction false} GroupsNonEmpty(s: seq<Region>)
    ensures forall k :: 0 <= k < |Groups(s)| ==> |Groups(s)[k]| > 0
    decreases |s|
  {
    if |s| > 1 {
      GroupsNonEmpty(s[..|s| - 1]);
    }
  }

  /** Inside a group, each region is SameRow with the one before it. */
  lemma {:induction false} GroupsInternal(s: seq<Region>)
    ensures forall k, j :: 0 <= k < |Groups(s)| && 0 < j < |Groups(s)[k]| ==>
              SameRow(Groups(s)[k][j - 1], Groups(s)[k][j])
    decreases |s|
  {
    if |s| > 1 {
      var p := s[..|s| - 1];
      GroupsInternal(p);
      GroupsLast(p);
      assert p[|p| - 1] == s[|s| - 2];
    }
  }

  /** Whether two consecutive groups are separated by a row break: the first
      region of `b` is not SameRow with the last region of `a`. */
  predicate BreakBetween(a: seq<Region>, b: seq<Region>)
  {
    |a| > 0 && |b| > 0 && !SameRow(a[|a| - 1], b[0])
  }

  /** Across every group boundary there is a row break. */
  lemma {:induction false} GroupsBoundary(s: seq<Region>)
    ensures var g := Groups(s); forall k :: 0 <= k < |g| - 1 ==> BreakBetween(g[k], g[k + 1])
    decreases |s|
  {
    if |s| > 1 {
      var p := s[..|s| - 1];
      var g := Groups(p);
      var n := |g|;
      GroupsBoundary(p);
      GroupsNonEmpty(p);
      GroupsLast(p);
      assert p[|p| - 1] == s[|s| - 2];
      var g' := Groups(s);
      if SameRow(s[|s| - 2], s[|s| - 1]) {
        assert g' == g[..n - 1] + [g[n - 1] + [s[|s| - 1]]];
        forall k | 0 <= k < |g'| - 1
          ensures BreakBetween(g'[k], g'[k + 1])
        {
          assert g'[k] == g[k];
          assert BreakBetween(g[k], g[k + 1]);
        }
      } else {
        assert g' == g + [[s[|s| - 1]]];
        forall k | 0 <= k < |g'| - 1
          ensures BreakBetween(g'[k], g'[k + 1])
        {
          if k < n - 1 {
            assert BreakBetween(g[k], g[k + 1]);
          }
        }
      }
    }
  }

  /** A non-empty sequence splits into one row more than it has breaks. */
  lemma {:induction false} GroupsCount(s: seq<Region>)
    requires |s| > 0
    ensures |Groups(s)| == 1 + RowBreaks(s)
    decreases |s|
  {
    if |s| > 1 {
      GroupsCount(s[..|s| - 1]);
      assert s[..|s| - 1][..|s| - 2] == s[..|s| - 2];
    }
  }

  /** What it means for `g` to split `s` into rows by the same-row rule: read
      in order the groups give `s`, none is empty, consecutive regions inside a
      group are SameRow, and consecutive groups are separated by a break. */
  ghost predicate IsRowSplit(s: seq<Region>, g: seq<seq<Region>>)
  {
    && Flatten(g) == s
    && (forall k :: 0 <= k < |g| ==> |g[k]| > 0)
    && (forall k, j :: 0 <= k < |g| && 0 < j < |g[k]| ==> SameRow(g[k][j - 1], g[k][j]))
    && (forall k :: 0 <= k < |g| - 1 ==> BreakBetween(g[k], g[k + 1]))
  }

  lemma GroupsIsRowSplit(s: seq<Region>)
    ensures IsRowSplit(s, Groups(s))
  {
    GroupsFlatten(s);
    GroupsNonEmpty(s);
    GroupsInternal(s);
    GroupsBoundary(s);
  }

  /** The last element of a flattening is the last element of its last group. */
  lemma FlattenLast(g: seq<seq<Region>>)
    requires |g| > 0 && |g[|g| - 1]| > 0
    ensures |Flatten(g)| > 0
    ensures Flatten(g)[|Flatten(g)| - 1] == g[|g| - 1][|g[|g| - 1]| - 1]
  {
  }

  /** Removing a one-element last group from a row split of `s` leaves a row
      split of `s` without its last region. */
  lemma RowSplitDropLast(s: seq<Region>, g: seq<seq<Region>>)
    requires IsRowSplit(s, g) && |g| > 0 && |g[|g| - 1]| == 1
    ensures |s| > 0 && IsRowSplit(s[..|s| - 1], g[..|g| - 1])
    ensures g[|g| - 1] == [s[|s| - 1]]
    ensures |g| == 1 ==> |s| == 1
    ensures |g| > 1 ==> |s| > 1 && !SameRow(s[|s| - 2], s[|s| - 1])
  {
    var n := |g|;
    var h := g[..n - 1];
    assert Flatten(g) == Flatten(h) + g[n - 1];
    assert s[..|s| - 1] == Flatten(h);
    forall k | 0 <= k < |h| - 1
      ensures BreakBetween(h[k], h[k + 1])
    {
      assert BreakBetween(g[k], g[k + 1]);
    }
    if n > 1 {
      assert BreakBetween(g[n - 2], g[n - 1]);
      assert |h[n - 2]| > 0;
      FlattenLast(h);
    }
  }

  /** Removing the last region of a longer last group leaves a row split of
      `s` without its last region. */
  lemma RowSplitShortenLast(s: seq<Region>, g: seq<seq<Region>>)
    requires IsRowSplit(s, g) && |g| > 0 && |g[|g| - 1]| > 1
    ensures var n := |g|; var last := g[n - 1];
            && |s| > 0
            && IsRowSplit(s[..|s| - 1], g[..n - 1] + [last[..|last| - 1]])
            && last == last[..|last| - 1] + [s[|s| - 1]]
            && |s| > 1 && SameRow(s[|s| - 2], s[|s| - 1])
  {
    var n := |g|;
    var last := g[n - 1];
    var shorter := last[..|last| - 1];
    var h := g[..n - 1] + [shorter];
    assert Flatten(g) == Flatten(g[..n - 1]) + last;
    assert h[..n - 1] == g[..n - 1];
    assert last == shorter + [last[|last| - 1]];
    assert Flatten(h) == Flatten(g[..n - 1]) + shorter;
    assert s[..|s| - 1] == Flatten(h);
    forall k | 0 <= k < |h|
      ensures |h[k]| > 0
    {
      if k < n - 1 { assert h[k] == g[k]; }
    }
    forall k, j | 0 <= k < |h| && 0 < j < |h[k]|
      ensures SameRow(h[k][j - 1], h[k][j])
    {
      if k < n - 1 {
        assert h[k] == g[k];
      } else {
        assert h[k][j - 1] == last[j - 1] && h[k][j] == last[j];
      }
    }
    forall k | 0 <= k < |h| - 1
      ensures BreakBetween(h[k], h[k + 1])
    {
      assert BreakBetween(g[k], g[k + 1]);
      assert h[k] == g[k];
      if k + 1 < n - 1 {
        assert h[k + 1] == g[k + 1];
      } else {
        assert h[k + 1][0] == g[k + 1][0];
      }
    }
    FlattenLast(h);
    assert SameRow(last[|last| - 2], last[|last| - 1]);
  }

  /** A one-element last group after a break: the split is Groups(s) as soon
      as the other groups are the Groups of the rest. */
  lemma SingletonLastIsGroups(s: seq<Region>, g: seq<seq<Region>>)
    requires |g| > 0 && |s| > 0 && g[|g| - 1] == [s[|s| - 1]]
    requires |g| == 1 ==> |s| == 1
    requires |g| > 1 ==> |s| > 1 && !SameRow(s[|s| - 2], s[|s| - 1])
    requires g[..|g| - 1] == Groups(s[..|s| - 1])
    ensures g == Groups(s)
  {
    var n := |g|;
    var p := s[..|s| - 1];
    var e := s[|s| - 1];
    if n == 1 {
      assert g == [[e]] by {
        assert g[0] == g[n - 1];
      }
      assert s == [e];
    } else {
      assert Groups(s) == Groups(p) + [[e]];
      assert g == g[..n - 1] + [[e]];
    }
  }

  /** A last group that continues a row: the split is Groups(s) as soon as
      the split with that group shortened is the Groups of the rest. */
  lemma LongerLastIsGroups(s: seq<Region>, g: seq<seq<Region>>)
    requires |g| > 0 && |g[|g| - 1]| > 1 && |s| > 1
    requires SameRow(s[|s| - 2], s[|s| - 1])
    requires g[|g| - 1] == g[|g| - 1][..|g[|g| - 1]| - 1] + [s[|s| - 1]]
    requires g[..|g| - 1] + [g[|g| - 1][..|g[|g| - 1]| - 1]] == Groups(s[..|s| - 1])
    ensures g == Groups(s)
  {
    var n := |g|;
    var last := g[n - 1];
    var p := s[..|s| - 1];
    var e := s[|s| - 1];
    var h := g[..n - 1] + [last[..|last| - 1]];
    assert Groups(p) == h;
    assert |h| == n;
    assert Groups(s) == h[..n - 1] + [h[n - 1] + [e]];
    assert h[..n - 1] == g[..n - 1];
    assert h[n - 1] + [e] == last;
    assert g == g[..n - 1] + [last];
    assert g == h[..n - 1] + [h[n - 1] + [e]];
  }

  /** The same-row rule determines the split: Groups is the only row split of
      a sequence. */
  lemma {:induction false} RowSplitUnique(s: seq<Region>, g: seq<seq<Region>>)
    requires IsRowSplit(s, g)
    ensures g == Groups(s)
    decreases |s|
  {
    if |g| == 0 {
      assert s == Flatten(g) == [];
    } else {
      var n := |g|;
      var last := g[n - 1];
      if |last| == 1 {
        RowSplitDropLast(s, g);
        RowSplitUnique(s[..|s| - 1], g[..n - 1]);
        SingletonLastIsGroups(s, g);
      } else {
        RowSplitShortenLast(s, g);
        RowSplitUnique(s[..|s| - 1], g[..n - 1] + [last[..|last| - 1]]);
        LongerLastIsGroups(s, g);
      }
    }
  }

  // ---------------------------------------------------------------------------
  // The clustering loop as the source writes it

  /** Walks the position-ordered regions once, starting a new row whenever a
      region's y is RowTolerance or more away from the previous region's y,
      and sorts each finished row left to right. The start value -1 of `lastY`
      marks "no previous region"; region coordinates are never negative, so it
      cannot be mistaken for one. */
  method ClusterRows(sorted: seq<Region>) returns (rows: seq<seq<Region>>)
    ensures rows == Rows(sorted)
    ensures |sorted| == 0 ==> |rows| == 0
    ensures |sorted| > 0 ==> |rows| == 1 + RowBreaks(sorted)
    ensures forall k :: 0 <= k < |rows| ==> |rows[k]| > 0 && SortedBy(rows[k], ColumnKey)
    ensures multiset(Flatten(rows)) == multiset(sorted)
  {
    rows := [];
    var current: seq<Region> := [];
    var lastY: int := -1;
    var i := 0;
    while i < |sorted|
      invariant 0 <= i <= |sorted|
      invariant i == 0 ==> rows == [] && current == [] && lastY == -1
      invariant i > 0 ==> lastY == sorted[i - 1].y
      invariant i > 0 ==> RowsSoFar(sorted[..i], rows, current)
    {
      var r := sorted[i];
      ghost var rows0, current0 := rows, current;
      if lastY == -1 || Abs(r.y - lastY) < RowTolerance {
        current := current + [r];
      } else {
        if |current| > 0 {
          rows := rows + [SortBy(current, ColumnKey)];
        }
        current := [r];
      }
      ClusterAdvance(sorted, i, rows0, current0, lastY, rows, current);
      lastY := r.y;
      i := i + 1;
    }
    assert sorted[..i] == sorted;
    if |current| > 0 {
      ClusterFinish(sorted, rows, current);
      rows := rows + [SortBy(current, ColumnKey)];
    }
    RowsProperties(sorted);
  }

  /** What one iteration of the clustering loop does to its state, whether or
      not a previous region has been read: `rows` and `current` are the state
      after reading s[i] on top of `rows0` and `current0`. */
  lemma ClusterAdvance(s: seq<Region>, i: nat, rows0: seq<seq<Region>>, current0: seq<Region>, lastY: int,
                       rows: seq<seq<Region>>, current: seq<Region>)
    requires i < |s|
    requires i == 0 ==> rows0 == [] && current0 == [] && lastY == -1
    requires i > 0 ==> lastY == s[i - 1].y && RowsSoFar(s[..i], rows0, current0)
    requires var same := lastY == -1 || Abs(s[i].y - lastY) < RowTolerance;
             && rows == (if same || |current0| == 0 then rows0 else rows0 + [SortBy(current0, ColumnKey)])
             && current == (if same then current0 + [s[i]] else [s[i]])
    ensures RowsSoFar(s[..i + 1], rows, current)
  {
    if i == 0 {
      ClusterStart(s, rows0, current0);
    } else {
      GroupsOfLongerPrefix(s, i);
      if SameRow(s[i - 1], s[i]) {
        ClusterJoin(s, i, rows0, current0);
      } else {
        ClusterBreak(s, i, rows0, current0);
      }
    }
  }

  /** The loop's state after reading the non-empty prefix `p`: the finished
      rows are the sorted groups of `p` but the last, and `current` is the
      last group, still in position order. */
  ghost predicate RowsSoFar(p: seq<Region>, rows: seq<seq<Region>>, current: seq<Region>)
    requires |p| > 0
  {
    var g := Groups(p);
    rows == SortEach(g[..|g| - 1]) && current == g[|g| - 1]
  }

  lemma SortEachSnoc(gs: seq<seq<Region>>, x: seq<Region>)
    ensures SortEach(gs + [x]) == SortEach(gs) + [SortBy(x, ColumnKey)]
  {
  }

  /** The first region opens the first group. */
  lemma ClusterStart(s: seq<Region>, rows: seq<seq<Region>>, current: seq<Region>)
    requires |s| > 0 && rows == [] && current == []
    ensures RowsSoFar(s[..1], rows, current + [s[0]])
  {
    assert s[..1][..0] == [];
    assert current + [s[0]] == s[..1];
  }

  /** Groups of a longer prefix: s[i] either extends the last group of
      s[..i] or opens a new one. */
  lemma GroupsOfLongerPrefix(s: seq<Region>, i: nat)
    requires 0 < i < |s|
    ensures var g := Groups(s[..i]); var n := |g|;
            Groups(s[..i + 1]) == if SameRow(s[i - 1], s[i]) then g[..n - 1] + [g[n - 1] + [s[i]]] else g + [[s[i]]]
  {
    assert s[..i + 1][..i] == s[..i];
  }

  /** A region in the row of its predecessor joins the current row. */
  lemma ClusterJoin(s: seq<Region>, i: nat, rows: seq<seq<Region>>, current: seq<Region>)
    requires 0 < i < |s| && RowsSoFar(s[..i], rows, current)
    requires var g := Groups(s[..i]); var n := |g|; Groups(s[..i + 1]) == g[..n - 1] + [g[n - 1] + [s[i]]]
    ensures RowsSoFar(s[..i + 1], rows, current + [s[i]])
  {
    var g := Groups(s[..i]);
    var n := |g|;
    var g' := g[..n - 1] + [current + [s[i]]];
    assert g'[..n - 1] == g[..n - 1];
  }

  /** A region outside the row of its predecessor closes the current row and
      opens a new one. */
  lemma ClusterBreak(s: seq<Region>, i: nat, rows: seq<seq<Region>>, current: seq<Region>)
    requires 0 < i < |s| && RowsSoFar(s[..i], rows, current)
    requires Groups(s[..i + 1]) == Groups(s[..i]) + [[s[i]]]
    ensures |current| > 0 && RowsSoFar(s[..i + 1], rows + [SortBy(current, ColumnKey)], [s[i]])
  {
    GroupsNonEmpty(s[..i]);
    var g := Groups(s[..i]);
    var n := |g|;
    assert g == g[..n - 1] + [current];
    assert (g + [[s[i]]])[..n] == g;
    SortEachSnoc(g[..n - 1], current);
  }

  /** Closing the last row after the loop gives all the rows. */
  lemma ClusterFinish(s: seq<Region>, rows: seq<seq<Region>>, current: seq<Region>)
    requires |s| > 0 && RowsSoFar(s, rows, current)
    ensures rows + [SortBy(current, ColumnKey)] == Rows(s)
  {
    var g := Groups(s);
    assert g == g[..|g| - 1] + [current];
    SortEachSnoc(g[..|g| - 1], current);
  }

  /** The rows are non-empty, sorted left to right, one more than the breaks,
      and together hold exactly the input regions. */
  lemma RowsProperties(s: seq<Region>)
    ensures forall k :: 0 <= k < |Rows(s)| ==> |Rows(s)[k]| > 0 && SortedBy(Rows(s)[k], ColumnKey)
    ensures multiset(Flatten(Rows(s))) == multiset(s)
    ensures |s| > 0 ==> |Rows(s)| == 1 + RowBreaks(s)
  {
    GroupsNonEmpty(s);
    GroupsFlatten(s);
    SortEachFlatten(Groups(s));
    if |s| > 0 {
      GroupsCount(s);
    }
  }

  /** Sorting each group does not change which regions the groups hold. */
  lemma {:induction false} SortEachFlatten(gs: seq<seq<Region>>)
    ensures multiset(Flatten(SortEach(gs))) == multiset(Flatten(gs))
    decreases |gs|
  {
    if |gs| > 0 {
      var n := |gs|;
      SortEachFlatten(gs[..n - 1]);
      assert SortEach(gs)[..n - 1] == SortEach(gs[..n - 1]);
    }
  }

  /** Every element of every group is an element of the flattening. */
  lemma {:induction false} InFlatten(gs: seq<seq<Region>>, k: nat, j: nat)
    requires k < |gs| && j < |gs[k]|
    ensures gs[k][j] in multiset(Flatten(gs))
    decreases |gs|
  {
    if k < |gs| - 1 {
      InFlatten(gs[..|gs| - 1], k, j);
      assert gs[..|gs| - 1][k] == gs[k];
    } else {
      assert Flatten(gs) == Flatten(gs[..|gs| - 1]) + gs[k];
    }
  }

  // ---------------------------------------------------------------------------
  // Grid detection

  /** A detected grid: the rows (one per question, each left to right) and
      the accepted regions in position order. */
  datatype AnswerGrid = AnswerGrid(rows: seq<seq<Region>>, regions: seq<Region>)

  /** The message of the exception raised when too few regions survive. */
  const InsufficientContours: string := "Insufficient contours detected. Check image quality."

  /** The declarative grid of a sheet's contours. */
  function ExpectedGrid(c: Config, contours: seq<Region>): Result<AnswerGrid>
  {
    var accepted := FilterByArea(c, contours);
    if |accepted| < c.minQuestions * c.minOptions then Failure(InsufficientContours)
    else
      var ordered := SortBy(accepted, PositionKey);
      Success(AnswerGrid(Rows(ordered), ordered))
  }

  /** Keeps the contours inside the area band, fails when fewer than
      minQuestions * minOptions remain, orders the rest by (y, x) and clusters
      them into rows. */
  method DetectAnswerGrid(c: Config, contours: seq<Region>) returns (r: Result<AnswerGrid>)
    ensures r == ExpectedGrid(c, contours)
    ensures r.Failure? <==> |FilterByArea(c, contours)| < c.minQuestions * c.minOptions
    ensures r.Failure? ==> r.error == InsufficientContours
    ensures r.Success? ==>
              && SortedBy(r.value.regions, PositionKey)
              && multiset(r.value.regions) == multiset(FilterByArea(c, contours))
              && multiset(Flatten(r.value.rows)) == multiset(r.value.regions)
              && (forall k :: 0 <= k < |r.value.rows| ==>
                    |r.value.rows[k]| > 0 && SortedBy(r.value.rows[k], ColumnKey))
              && (forall k, j :: 0 <= k < |r.value.rows| && 0 <= j < |r.value.rows[k]| ==>
                    InBand(c, r.value.rows[k][j]))
              && (|r.value.regions| > 0 ==> |r.value.rows| == 1 + RowBreaks(r.value.regions))
  {
    var accepted := FilterByArea(c, contours);
    if |accepted| < c.minQuestions * c.minOptions {
      return Failure(InsufficientContours);
    }
    var ordered := SortBy(accepted, PositionKey);
    var rows := ClusterRows(ordered);
    forall k, j | 0 <= k < |rows| && 0 <= j < |rows[k]|
      ensures InBand(c, rows[k][j])
    {
      InFlatten(rows, k, j);
      assert multiset(accepted)[rows[k][j]] > 0;
    }
    r := Success(AnswerGrid(rows, ordered));
  }
}
