/** Row-major scans of a grid kept as rows: the value view of a 2-D array,
    and how many cells of a kind a scan has passed before it reaches (x, y). */
module Scan {

  /** The rows of a 2-D array: row y holds a[y, 0], a[y, 1], ... */
  ghost function Snapshot<T>(a: array2<T>): (g: seq<seq<T>>)
    reads a
    ensures |g| == a.Length0
    ensures forall y :: 0 <= y < |g| ==> |g[y]| == a.Length1
    ensures forall y, x :: 0 <= y < a.Length0 && 0 <= x < a.Length1 ==> g[y][x] == a[y, x]
  {
    seq(a.Length0, y requires 0 <= y < a.Length0 reads a =>
      seq(a.Length1, x requires 0 <= x < a.Length1 reads a => a[y, x]))
  }

  predicate InGrid<T>(g: seq<seq<T>>, x: int, y: int) {
    0 <= y < |g| && 0 <= x < |g[y]|
  }

  /** A predicate that holds of every cell, for scans that visit all of them. */
  predicate Always<T>(t: T) {
    true
  }

  /** Number of elements of `s` that satisfy `p`. */
  function CountIf<T>(s: seq<T>, p: T -> bool): nat {
    if s == [] then 0 else CountIf(s[..|s| - 1], p) + (if p(s[|s| - 1]) then 1 else 0)
  }

  /** Number of cells of the grid that satisfy `p`. */
  function CountRows<T>(g: seq<seq<T>>, p: T -> bool): nat {
    if g == [] then 0 else CountRows(g[..|g| - 1], p) + CountIf(g[|g| - 1], p)
  }

  /** How many cells satisfying `p` a row-major scan visits before it reaches (x, y). */
  function Before<T>(g: seq<seq<T>>, x: int, y: int, p: T -> bool): nat
    requires 0 <= y < |g| && 0 <= x <= |g[y]|
  {
    CountRows(g[..y], p) + CountIf(g[y][..x], p)
  }

  /** (x1, y1) comes strictly before (x2, y2) in row-major order. */
  predicate Precedes(x1: int, y1: int, x2: int, y2: int) {
    y1 < y2 || (y1 == y2 && x1 < x2)
  }

  lemma {:induction false} CountIfAll<T>(s: seq<T>)
    ensures CountIf(s, Always) == |s|
  {
    if s != [] {
      CountIfAll(s[..|s| - 1]);
    }
  }

  lemma BeforeStep<T>(g: seq<seq<T>>, x: int, y: int, p: T -> bool)
    requires InGrid(g, x, y)
    ensures Before(g, x + 1, y, p) == Before(g, x, y, p) + (if p(g[y][x]) then 1 else 0)
  {
    assert g[y][..x + 1][..x] == g[y][..x];
  }

  lemma BeforeRowEnd<T>(g: seq<seq<T>>, y: int, p: T -> bool)
    requires 0 <= y < |g|
    ensures Before(g, |g[y]|, y, p) == CountRows(g[..y + 1], p)
  {
    assert g[..y + 1][..y] == g[..y];
    assert g[y][..|g[y]|] == g[y];
  }

  lemma {:induction false} CountIfPrefix<T>(s: seq<T>, i: nat, p: T -> bool)
    requires i <= |s|
    ensures CountIf(s[..i], p) <= CountIf(s, p)
  {
    if i < |s| {
      CountIfPrefix(s[..|s| - 1], i, p);
      assert s[..|s| - 1][..i] == s[..i];
    } else {
      assert s[..i] == s;
    }
  }

  lemma {:induction false} CountRowsPrefix<T>(g: seq<seq<T>>, i: nat, p: T -> bool)
    requires i <= |g|
    ensures CountRows(g[..i], p) <= CountRows(g, p)
  {
    if i < |g| {
      CountRowsPrefix(g[..|g| - 1], i, p);
      assert g[..|g| - 1][..i] == g[..i];
    } else {
      assert g[..i] == g;
    }
  }

  /** The count of visited cells never decreases along the scan. */
  lemma BeforeMonotone<T>(g: seq<seq<T>>, x1: int, y1: int, x2: int, y2: int, p: T -> bool)
    requires 0 <= y1 < |g| && 0 <= x1 <= |g[y1]|
    requires 0 <= y2 < |g| && 0 <= x2 <= |g[y2]|
    requires y1 < y2 || (y1 == y2 && x1 <= x2)
    ensures Before(g, x1, y1, p) <= Before(g, x2, y2, p)
  {
    if y1 == y2 {
      CountIfPrefix(g[y1][..x2], x1, p);
      assert g[y1][..x2][..x1] == g[y1][..x1];
    } else {
      CountIfPrefix(g[y1], x1, p);
      BeforeRowEnd(g, y1, p);
      assert g[y1][..|g[y1]|] == g[y1];
      CountRowsPrefix(g[..y2], y1 + 1, p);
      assert g[..y2][..y1 + 1] == g[..y1 + 1];
    }
  }

  /** A cell satisfying `p` is visited before the scan has counted all of them. */
  lemma BeforeBelowTotal<T>(g: seq<seq<T>>, x: int, y: int, p: T -> bool)
    requires InGrid(g, x, y) && p(g[y][x])
    ensures Before(g, x, y, p) < CountRows(g, p)
  {
    BeforeStep(g, x, y, p);
    BeforeMonotone(g, x + 1, y, |g[y]|, y, p);
    BeforeRowEnd(g, y, p);
    CountRowsPrefix(g, y + 1, p);
  }

  /** Two cells satisfying `p` are given different scan counts. */
  lemma BeforeStrict<T>(g: seq<seq<T>>, x1: int, y1: int, x2: int, y2: int, p: T -> bool)
    requires InGrid(g, x1, y1) && InGrid(g, x2, y2)
    requires Precedes(x1, y1, x2, y2) && p(g[y1][x1])
    ensures Before(g, x1, y1, p) < Before(g, x2, y2, p)
  {
    BeforeStep(g, x1, y1, p);
    BeforeMonotone(g, x1 + 1, y1, x2, y2, p);
  }

  /** Once every row is passed, the scan has visited every cell satisfying `p`. */
  lemma ScanComplete<T>(g: seq<seq<T>>, p: T -> bool)
    ensures CountRows(g[..|g|], p) == CountRows(g, p)
  {
    assert g[..|g|] == g;
  }

  /** When every cell counts, a cell's scan index is the count of the rows above plus its column. */
  lemma BeforeAlways<T>(g: seq<seq<T>>, x: int, y: int)
    requires 0 <= y < |g| && 0 <= x <= |g[y]|
    ensures Before(g, x, y, Always) == CountRows(g[..y], Always) + x
  {
    CountIfAll(g[y][..x]);
  }

  /** A grid whose cells agree with the array's is the array's snapshot. */
  lemma SnapshotIs<T>(a: array2<T>, r: seq<seq<T>>)
    requires |r| == a.Length0 && forall y :: 0 <= y < |r| ==> |r[y]| == a.Length1
    requires forall y, x :: 0 <= y < a.Length0 && 0 <= x < a.Length1 ==> a[y, x] == r[y][x]
    ensures Snapshot(a) == r
  {
    assert forall y :: 0 <= y < |r| ==> Snapshot(a)[y] == r[y];
  }
}
