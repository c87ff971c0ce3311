/** One tick of the territory game (applyGameRules): every cell is judged on
    the grid as it stood when the tick began, the decisions are collected in an
    update list during a row-major scan, and the list is written back afterwards.
    Math.random is replaced by a sequence of samples, drawn in scan order by the
    camp cells only; fractions are compared exactly by cross-multiplication. */
module Rules {
  import opened Wrappers
  import opened Cells
  import opened Scan
  import opened Neighborhood

  /** One pushed decision: the cell at (x, y) takes type `life`. */
  datatype Update = Update(x: int, y: int, life: Cell)

  /** `sample < k / open`, compared as `sample * open < k`. With open = 0 the
      quotient is NaN (k is then 0 too) and the comparison is false. */
  predicate Roll(sample: real, k: nat, open: nat) {
    open > 0 && sample * (open as real) < k as real
  }

  /** `k / open > 0.74`, compared as `100 * k > 74 * open`; false when open = 0. */
  predicate OverThreshold(k: nat, open: nat) {
    open > 0 && 100 * k > 74 * open
  }

  /** The decision for one cell, given its von Neumann tally `vn`, its Moore
      tally `mo` and the sample it drew (ignored unless the cell is a camp). */
  function Decide(cell: Cell, vn: Tally, mo: Tally, sample: real): (r: Option<Cell>)
    ensures r.Some? ==> r.value != cell && r.value != Empty && r.value != Mountain
    ensures cell == Mountain ==> r == None
    ensures IsCamp(cell) && r.Some? ==> IsCamp(r.value)
  {
    match cell
    case Empty =>
      if vn.enemy == 0 && vn.ally > 0 then Some(Ally)
      else if vn.ally == 0 && vn.enemy > 0 then Some(Enemy)
      else if vn.ally > 0 && vn.enemy > 0 then Some(Barricade)
      else None
    case Ally =>
      if Roll(sample, mo.enemy, mo.Openings()) then Some(Enemy) else None
    case Enemy =>
      if Roll(sample, mo.ally, mo.Openings()) then Some(Ally) else None
    case Barricade =>
      if OverThreshold(mo.ally, mo.Openings()) then Some(Ally)
      else if OverThreshold(mo.enemy, mo.Openings()) then Some(Enemy)
      else None
    case Mountain => None
  }

  /** Enough samples for one tick: one per camp cell. */
  predicate EnoughSamples(g: seq<seq<Cell>>, samples: seq<real>) {
    CountRows(g, IsCamp) <= |samples|
  }

  /** Index of the sample the cell at (x, y) draws: the number of camps scanned before it. */
  function SampleIndex(g: seq<seq<Cell>>, x: int, y: int): nat
    requires InGrid(g, x, y)
  {
    Before(g, x, y, IsCamp)
  }

  /** The sample the cell at (x, y) draws; cells that are not camps draw none. */
  function SampleFor(g: seq<seq<Cell>>, samples: seq<real>, x: int, y: int): real
    requires InGrid(g, x, y) && EnoughSamples(g, samples)
  {
    if IsCamp(g[y][x]) then
      assert SampleIndex(g, x, y) < |samples| by { BeforeBelowTotal(g, x, y, IsCamp); }
      samples[SampleIndex(g, x, y)]
    else 0.0
  }

  /** The update the scan pushes for (x, y), if any, judged on the snapshot `g`. */
  function Decision(g: seq<seq<Cell>>, samples: seq<real>, x: int, y: int): Option<Cell>
    requires InGrid(g, x, y) && EnoughSamples(g, samples)
  {
    Decide(g[y][x], NeighborTally(g, x, y, false), NeighborTally(g, x, y, true), SampleFor(g, samples, x, y))
  }

  /** The grid after one tick: each cell takes its own decision, or keeps its type. */
  function Next(g: seq<seq<Cell>>, samples: seq<real>): (n: seq<seq<Cell>>)
    requires EnoughSamples(g, samples)
    ensures |n| == |g| && forall y :: 0 <= y < |g| ==> |n[y]| == |g[y]|
  {
    seq(|g|, y requires 0 <= y < |g| =>
      seq(|g[y]|, x requires 0 <= x < |g[y]| => Decision(g, samples, x, y).GetOr(g[y][x])))
  }

  /** The type the update list assigns to (x, y): the last update for it, if any. */
  function Lookup(us: seq<Update>, x: int, y: int): Option<Cell> {
    if us == [] then None
    else
      var u := us[|us| - 1];
      if u.x == x && u.y == y then Some(u.life) else Lookup(us[..|us| - 1], x, y)
  }

  /** The updates are in strict row-major order, so no cell is updated twice. */
  predicate ScanOrdered(us: seq<Update>) {
    forall i, j :: 0 <= i < j < |us| ==> Precedes(us[i].x, us[i].y, us[j].x, us[j].y)
  }

  /** Every update is for a column below `w` and comes before (x, y) in the scan. */
  predicate ScannedBefore(us: seq<Update>, w: int, x: int, y: int) {
    forall i :: 0 <= i < |us| ==> 0 <= us[i].x < w && 0 <= us[i].y && Precedes(us[i].x, us[i].y, x, y)
  }

  /** Pushing the update for (x, y) keeps the list ordered and moves the scan on. */
  lemma PushScanned(us: seq<Update>, w: int, x: int, y: int, life: Cell)
    requires ScanOrdered(us) && ScannedBefore(us, w, x, y) && 0 <= x < w && 0 <= y
    ensures ScanOrdered(us + [Update(x, y, life)]) && ScannedBefore(us + [Update(x, y, life)], w, x + 1, y)
  {
  }

  /** Skipping (x, y), or finishing row y, moves the scan on. */
  lemma AdvanceScanned(us: seq<Update>, w: int, x: int, y: int)
    requires ScannedBefore(us, w, x, y)
    ensures ScannedBefore(us, w, x + 1, y)
    ensures x == w ==> ScannedBefore(us, w, 0, y + 1)
  {
  }

  /** The body of the scan for one cell (x, y): what update it pushes, and the
      sample counter after it, which advances by one for a camp cell only. */
  method JudgeCell(grid: array2<Cell>, samples: seq<real>, x: int, y: int, used: nat) returns (decision: Option<Cell>, used': nat)
    requires 0 <= y < grid.Length0 && 0 <= x < grid.Length1
    requires EnoughSamples(Snapshot(grid), samples)
    requires used == SampleIndex(Snapshot(grid), x, y)
    ensures decision == Decision(Snapshot(grid), samples, x, y)
    ensures used' == used + if IsCamp(grid[y, x]) then 1 else 0
  {
    ghost var g := Snapshot(grid);
    used' := used;
    decision := None;
    var cell := grid[y, x];
    var vonNeumann := CountNeighbors(grid, x, y, false);
    ghost var moore' := NeighborTally(g, x, y, true);
    assert Decision(g, samples, x, y) == Decide(cell, vonNeumann, moore', SampleFor(g, samples, x, y));
    if cell == Empty {
      if vonNeumann.enemy == 0 && vonNeumann.ally > 0 {
        decision := Some(Ally);
      } else if vonNeumann.ally == 0 && vonNeumann.enemy > 0 {
        decision := Some(Enemy);
      } else if vonNeumann.ally > 0 && vonNeumann.enemy > 0 {
        decision := Some(Barricade);
      }
    } else {
      var moore := CountNeighbors(grid, x, y, true);
      var open := moore.ally + moore.enemy + moore.empty;
      assert moore == moore' && open == moore.Openings();
      if cell == Ally {
        BeforeBelowTotal(g, x, y, IsCamp);
        var sample := samples[used];
        assert sample == SampleFor(g, samples, x, y);
        used' := used + 1;
        if Roll(sample, moore.enemy, open) {
          decision := Some(Enemy);
        }
      } else if cell == Enemy {
        BeforeBelowTotal(g, x, y, IsCamp);
        var sample := samples[used];
        assert sample == SampleFor(g, samples, x, y);
        used' := used + 1;
        if Roll(sample, moore.ally, open) {
          decision := Some(Ally);
        }
      } else if cell == Barricade {
        if OverThreshold(moore.ally, open) {
          decision := Some(Ally);
        } else if OverThreshold(moore.enemy, open) {
          decision := Some(Enemy);
        }
      }
    }
  }

  /** Pushing an update changes the lookup of its own cell only. */
  lemma LookupPush(us: seq<Update>, u: Update)
    ensures forall xx, yy ::
      Lookup(us + [u], xx, yy) == (if xx == u.x && yy == u.y then Some(u.life) else Lookup(us, xx, yy))
  {
    assert (us + [u])[..|us|] == us;
  }

  /** The update list holds exactly the decisions of the cells scanned before (x, y). */
  ghost predicate DecidedBefore(us: seq<Update>, g: seq<seq<Cell>>, samples: seq<real>, x: int, y: int)
    requires EnoughSamples(g, samples)
  {
    forall yy, xx :: InGrid(g, xx, yy) ==>
      Lookup(us, xx, yy) == if Precedes(xx, yy, x, y) then Decision(g, samples, xx, yy) else None
  }

  /** Scanning (x, y) and pushing its decision, if any, moves the scan on by one cell. */
  lemma DecideStep(us: seq<Update>, g: seq<seq<Cell>>, samples: seq<real>, x: int, y: int)
    requires EnoughSamples(g, samples) && InGrid(g, x, y) && DecidedBefore(us, g, samples, x, y)
    ensures var d := Decision(g, samples, x, y);
      DecidedBefore(if d.Some? then us + [Update(x, y, d.value)] else us, g, samples, x + 1, y)
  {
    var d := Decision(g, samples, x, y);
    if d.Some? {
      LookupPush(us, Update(x, y, d.value));
    }
  }

  /** Finishing row y moves the scan to the start of row y + 1. */
  lemma DecideRowEnd(us: seq<Update>, g: seq<seq<Cell>>, samples: seq<real>, y: int)
    requires EnoughSamples(g, samples) && 0 <= y < |g| && DecidedBefore(us, g, samples, |g[y]|, y)
    requires forall yy :: 0 <= yy < |g| ==> |g[yy]| == |g[y]|
    ensures DecidedBefore(us, g, samples, 0, y + 1)
  {
  }

  /** The inner loop of the scan over row y: judges each cell of the row in turn. */
  method ScanRow(grid: array2<Cell>, samples: seq<real>, y: int, updates: seq<Update>, used: nat)
    returns (updates': seq<Update>, used': nat)
    requires 0 <= y < grid.Length0 && EnoughSamples(Snapshot(grid), samples)
    requires used == Before(Snapshot(grid), 0, y, IsCamp)
    requires ScannedBefore(updates, grid.Length1, 0, y) && ScanOrdered(updates)
    requires DecidedBefore(updates, Snapshot(grid), samples, 0, y)
    ensures used' == Before(Snapshot(grid), grid.Length1, y, IsCamp)
    ensures ScannedBefore(updates', grid.Length1, grid.Length1, y) && ScanOrdered(updates')
    ensures DecidedBefore(updates', Snapshot(grid), samples, grid.Length1, y)
  {
    ghost var g := Snapshot(grid);
    updates', used' := updates, used;
    var x := 0;
    while x < grid.Length1
      invariant 0 <= x <= grid.Length1
      invariant used' == Before(g, x, y, IsCamp)
      invariant ScannedBefore(updates', grid.Length1, x, y) && ScanOrdered(updates')
      invariant DecidedBefore(updates', g, samples, x, y)
    {
      var decision;
      decision, used' := JudgeCell(grid, samples, x, y, used');
      DecideStep(updates', g, samples, x, y);
      if decision.Some? {
        PushScanned(updates', grid.Length1, x, y, decision.value);
        updates' := updates' + [Update(x, y, decision.value)];
      } else {
        AdvanceScanned(updates', grid.Length1, x, y);
      }
      BeforeStep(g, x, y, IsCamp);
      x := x + 1;
    }
  }

  /** The scan of applyGameRules: reads the grid only, and returns the update list
      and the number of samples drawn. */
  method CollectUpdates(grid: array2<Cell>, samples: seq<real>) returns (updates: seq<Update>, used: nat)
    requires EnoughSamples(Snapshot(grid), samples)
    ensures used == CountRows(Snapshot(grid), IsCamp)
    ensures forall i :: 0 <= i < |updates| ==> 0 <= updates[i].y < grid.Length0 && 0 <= updates[i].x < grid.Length1
    ensures ScanOrdered(updates)
    ensures forall y, x :: 0 <= y < grid.Length0 && 0 <= x < grid.Length1 ==>
      Lookup(updates, x, y) == Decision(Snapshot(grid), samples, x, y)
  {
    ghost var g := Snapshot(grid);
    updates, used := [], 0;
    var y := 0;
    while y < grid.Length0
      invariant 0 <= y <= grid.Length0
      invariant used == CountRows(g[..y], IsCamp)
      invariant ScannedBefore(updates, grid.Length1, 0, y) && ScanOrdered(updates)
      invariant DecidedBefore(updates, g, samples, 0, y)
    {
      assert g[y][..0] == [];
      updates, used := ScanRow(grid, samples, y, updates, used);
      AdvanceScanned(updates, grid.Length1, grid.Length1, y);
      DecideRowEnd(updates, g, samples, y);
      BeforeRowEnd(g, y, IsCamp);
      y := y + 1;
    }
    ScanComplete(g, IsCamp);
  }

  /** The write-back loop of applyGameRules: each update is written in list order. */
  method ApplyUpdates(grid: array2<Cell>, updates: seq<Update>)
    requires forall i :: 0 <= i < |updates| ==> 0 <= updates[i].y < grid.Length0 && 0 <= updates[i].x < grid.Length1
    modifies grid
    ensures forall y, x :: 0 <= y < grid.Length0 && 0 <= x < grid.Length1 ==>
      grid[y, x] == Lookup(updates, x, y).GetOr(old(grid[y, x]))
  {
    for i := 0 to |updates|
      invariant forall y, x :: 0 <= y < grid.Length0 && 0 <= x < grid.Length1 ==>
        grid[y, x] == Lookup(updates[..i], x, y).GetOr(old(grid[y, x]))
    {
      var u := updates[i];
      assert updates[..i + 1][..i] == updates[..i];
      grid[u.y, u.x] := u.life;
    }
    assert updates[..|updates|] == updates;
  }

  /** applyGameRules: one tick. The new grid is the function Next of the old grid
      and the samples, and exactly one sample is drawn per camp cell. */
  method ApplyGameRules(grid: array2<Cell>, samples: seq<real>) returns (used: nat)
    requires EnoughSamples(Snapshot(grid), samples)
    modifies grid
    ensures used == CountRows(old(Snapshot(grid)), IsCamp)
    ensures Snapshot(grid) == Next(old(Snapshot(grid)), samples)
  {
    ghost var g := Snapshot(grid);
    var updates;
    updates, used := CollectUpdates(grid, samples);
    ApplyUpdates(grid, updates);
    ghost var n := Next(g, samples);
    forall y, x | 0 <= y < grid.Length0 && 0 <= x < grid.Length1
      ensures grid[y, x] == n[y][x]
    {
      assert n[y][x] == Decision(g, samples, x, y).GetOr(g[y][x]);
    }
    SnapshotIs(grid, n);
  }

  // ---------------------------------------------------------------------------
  // Properties of one tick

  /** The only changes a tick can make. */
  predicate Allowed(from: Cell, to: Cell) {
    || from == to
    || (from == Empty && (to == Ally || to == Enemy || to == Barricade))
    || (from == Ally && to == Enemy)
    || (from == Enemy && to == Ally)
    || (from == Barricade && (to == Ally || to == Enemy))
  }

  /** Every cell changes at most along an allowed transition: Mountains never
      change, and no cell becomes Empty or Mountain. */
  lemma TickTransitions(g: seq<seq<Cell>>, samples: seq<real>, x: int, y: int)
    requires InGrid(g, x, y) && EnoughSamples(g, samples)
    ensures Allowed(g[y][x], Next(g, samples)[y][x])
    ensures g[y][x] == Mountain <==> Next(g, samples)[y][x] == Mountain
    ensures Next(g, samples)[y][x] == Empty ==> g[y][x] == Empty
  {
  }

  /** Expansion of an Empty cell by its von Neumann neighbours: one side only
      claims it, both sides make a Barricade, neither leaves it Empty. */
  lemma ExpansionRule(g: seq<seq<Cell>>, samples: seq<real>, x: int, y: int)
    requires InGrid(g, x, y) && EnoughSamples(g, samples) && g[y][x] == Empty
    ensures var a, e := HasNeighbor(g, x, y, false, Ally), HasNeighbor(g, x, y, false, Enemy);
      Next(g, samples)[y][x] ==
        if a && !e then Ally else if e && !a then Enemy else if a && e then Barricade else Empty
  {
    NeighborPresence(g, x, y, false, Ally);
    NeighborPresence(g, x, y, false, Enemy);
  }

  /** Scaling both sides by a positive factor keeps a strict order. */
  lemma ScaleOrder(a: real, b: real, o: real)
    requires o > 0.0
    ensures a < b <==> a * o < b * o
  {
    assert b * o - a * o == (b - a) * o;
  }

  /** The cross-multiplied test with its guard is the source's comparison
      `sample < k / open`: true exactly when the quotient is defined and the
      sample is below it (0/0 is NaN, and every comparison with NaN is false). */
  lemma RollIsQuotient(sample: real, k: nat, open: nat)
    ensures Roll(sample, k, open) <==> open > 0 && sample < k as real / open as real
  {
    if open > 0 {
      var o, q := open as real, k as real / open as real;
      assert q * o == k as real;
      ScaleOrder(sample, q, o);
    }
  }

  /** The barricade test with its guard is the source's comparison
      `k / open > 0.74`, false for 0/0. */
  lemma OverThresholdIsQuotient(k: nat, open: nat)
    ensures OverThreshold(k, open) <==> open > 0 && k as real / open as real > 0.74
  {
    if open > 0 {
      var o, q := open as real, k as real / open as real;
      assert q * o == k as real;
      ScaleOrder(0.74, q, o);
      assert 0.74 * o < k as real <==> 74 * open < 100 * k;
    }
  }

  /** The decision of a camp in the form the scan tests it. */
  lemma CaptureRoll(g: seq<seq<Cell>>, samples: seq<real>, x: int, y: int)
    requires InGrid(g, x, y) && EnoughSamples(g, samples) && IsCamp(g[y][x])
    ensures var mo := NeighborTally(g, x, y, true);
      Next(g, samples)[y][x] ==
        if Roll(SampleFor(g, samples, x, y), mo.Of(Opponent(g[y][x])), mo.Openings())
        then Opponent(g[y][x]) else g[y][x]
  {
  }

  /** A camp falls to the other side exactly when its sample is below the
      other side's share of its Moore openings (Empty neighbours included),
      `Math.random() < k / totalCapturable`; with no openings it stays. */
  lemma CaptureRule(g: seq<seq<Cell>>, samples: seq<real>, x: int, y: int)
    requires InGrid(g, x, y) && EnoughSamples(g, samples) && IsCamp(g[y][x])
    ensures var c, mo := g[y][x], NeighborTally(g, x, y, true);
      var k, open := mo.Of(Opponent(c)), mo.ally + mo.enemy + mo.empty;
      Next(g, samples)[y][x] ==
        if open > 0 && SampleFor(g, samples, x, y) < k as real / open as real then Opponent(c) else c
  {
    var mo := NeighborTally(g, x, y, true);
    CaptureRoll(g, samples, x, y);
    RollIsQuotient(SampleFor(g, samples, x, y), mo.Of(Opponent(g[y][x])), mo.Openings());
  }

  /** Every sample lies in [0, 1), as Math.random's do. */
  predicate UnitSamples(samples: seq<real>) {
    forall i :: 0 <= i < |samples| ==> 0.0 <= samples[i] < 1.0
  }

  /** A camp with no opposing Moore neighbour is never captured. */
  lemma NoOpponentNoCapture(g: seq<seq<Cell>>, samples: seq<real>, x: int, y: int)
    requires InGrid(g, x, y) && EnoughSamples(g, samples) && UnitSamples(samples)
    requires IsCamp(g[y][x]) && !HasNeighbor(g, x, y, true, Opponent(g[y][x]))
    ensures Next(g, samples)[y][x] == g[y][x]
  {
    var mo := NeighborTally(g, x, y, true);
    NeighborPresence(g, x, y, true, Opponent(g[y][x]));
    BeforeBelowTotal(g, x, y, IsCamp);
    var s := SampleFor(g, samples, x, y);
    assert 0.0 <= s;
    assert !Roll(s, mo.Of(Opponent(g[y][x])), mo.Openings()) by {
      assert mo.Of(Opponent(g[y][x])) == 0;
      assert 0.0 <= s * (mo.Openings() as real);
    }
    CaptureRoll(g, samples, x, y);
  }

  /** A camp whose every opening is held by the other side is always captured. */
  lemma SurroundedIsCaptured(g: seq<seq<Cell>>, samples: seq<real>, x: int, y: int)
    requires InGrid(g, x, y) && EnoughSamples(g, samples) && UnitSamples(samples)
    requires IsCamp(g[y][x]) && HasNeighbor(g, x, y, true, Opponent(g[y][x]))
    requires !HasNeighbor(g, x, y, true, g[y][x]) && !HasNeighbor(g, x, y, true, Empty)
    ensures Next(g, samples)[y][x] == Opponent(g[y][x])
  {
    var mo := NeighborTally(g, x, y, true);
    OnlyOpponentOpenings(g, x, y);
    BeforeBelowTotal(g, x, y, IsCamp);
    RollCertain(SampleFor(g, samples, x, y), mo.Of(Opponent(g[y][x])), mo.Openings());
    CaptureRoll(g, samples, x, y);
  }

  /** The neighbour counts of a camp surrounded, as far as openings go, by the other side. */
  lemma OnlyOpponentOpenings(g: seq<seq<Cell>>, x: int, y: int)
    requires InGrid(g, x, y) && IsCamp(g[y][x]) && HasNeighbor(g, x, y, true, Opponent(g[y][x]))
    requires !HasNeighbor(g, x, y, true, g[y][x]) && !HasNeighbor(g, x, y, true, Empty)
    ensures NeighborTally(g, x, y, true).Openings() == NeighborTally(g, x, y, true).Of(Opponent(g[y][x])) > 0
  {
    NeighborPresence(g, x, y, true, Opponent(g[y][x]));
    NeighborPresence(g, x, y, true, g[y][x]);
    NeighborPresence(g, x, y, true, Empty);
  }

  /** A sample in [0, 1) is always below a share of one. */
  lemma RollCertain(s: real, k: nat, open: nat)
    requires 0.0 <= s < 1.0 && k == open > 0
    ensures Roll(s, k, open)
  {
    assert (1.0 - s) * (open as real) > 0.0;
  }

  /** With no Ally, Enemy or Empty around it, no camp and no Barricade changes:
      there are no openings, and 0/0 compares false. */
  lemma NoOpeningsNoChange(g: seq<seq<Cell>>, samples: seq<real>, x: int, y: int)
    requires InGrid(g, x, y) && EnoughSamples(g, samples)
    requires g[y][x] != Empty
    requires !HasNeighbor(g, x, y, true, Ally) && !HasNeighbor(g, x, y, true, Enemy)
    requires !HasNeighbor(g, x, y, true, Empty)
    ensures Next(g, samples)[y][x] == g[y][x]
  {
    NeighborPresence(g, x, y, true, Ally);
    NeighborPresence(g, x, y, true, Enemy);
    NeighborPresence(g, x, y, true, Empty);
  }

  /** For up to 26 openings, a share strictly above 0.74 is the same as a share
      of at least three quarters. */
  lemma ThresholdIsThreeQuarters(k: nat, open: nat)
    requires 0 < open <= 26
    ensures OverThreshold(k, open) <==> 4 * k >= 3 * open
  {
  }

  /** 20 of 27 openings is above 0.74 but below three quarters: the equivalence
      above needs the bound on openings. */
  lemma ThresholdDiffersAt27()
    ensures OverThreshold(20, 27) && 4 * 20 < 3 * 27
  {
  }

  /** Barricade takeover is deterministic: Ally first, then Enemy, each with at
      least three quarters of the Moore openings; otherwise it stays. The result
      does not depend on the samples. */
  lemma BarricadeTakeover(g: seq<seq<Cell>>, samples: seq<real>, x: int, y: int)
    requires InGrid(g, x, y) && EnoughSamples(g, samples) && g[y][x] == Barricade
    ensures var mo := NeighborTally(g, x, y, true); var open := mo.Openings();
      Next(g, samples)[y][x] ==
        if open > 0 && 4 * mo.ally >= 3 * open then Ally
        else if open > 0 && 4 * mo.enemy >= 3 * open then Enemy
        else Barricade
  {
    var mo := NeighborTally(g, x, y, true);
    NeighborTotal(g, x, y, true);
    if mo.Openings() > 0 {
      ThresholdIsThreeQuarters(mo.ally, mo.Openings());
      ThresholdIsThreeQuarters(mo.enemy, mo.Openings());
    }
  }

  /** Each camp draws its own sample: the indices are below the number drawn
      in the tick and differ between any two camps. */
  lemma OneSamplePerCamp(g: seq<seq<Cell>>, x1: int, y1: int, x2: int, y2: int)
    requires InGrid(g, x1, y1) && InGrid(g, x2, y2)
    requires IsCamp(g[y1][x1]) && IsCamp(g[y2][x2]) && (x1, y1) != (x2, y2)
    ensures SampleIndex(g, x1, y1) < CountRows(g, IsCamp)
    ensures SampleIndex(g, x1, y1) != SampleIndex(g, x2, y2)
  {
    BeforeBelowTotal(g, x1, y1, IsCamp);
    if Precedes(x1, y1, x2, y2) {
      BeforeStrict(g, x1, y1, x2, y2, IsCamp);
    } else {
      BeforeStrict(g, x2, y2, x1, y1, IsCamp);
    }
  }

  /** No two updates in the list address the same cell. */
  predicate DistinctCells(us: seq<Update>) {
    forall i, j :: 0 <= i < j < |us| ==> us[i].x != us[j].x || us[i].y != us[j].y
  }

  /** A list collected in scan order updates every cell at most once. */
  lemma ScanOrderedIsDistinct(us: seq<Update>)
    requires ScanOrdered(us)
    ensures DistinctCells(us)
  {
  }

  /** What Lookup finds is an update in the list, and it finds nothing only when
      no update addresses the cell. */
  lemma {:induction false} LookupSound(us: seq<Update>, x: int, y: int)
    ensures Lookup(us, x, y).Some? ==> Update(x, y, Lookup(us, x, y).value) in us
    ensures Lookup(us, x, y).None? ==> forall u :: u in us ==> u.x != x || u.y != y
  {
    if us != [] {
      LookupSound(us[..|us| - 1], x, y);
      assert us == us[..|us| - 1] + [us[|us| - 1]];
    }
  }

  /** With distinct cells, the lookup of an updated cell is its one update. */
  lemma {:induction false} LookupComplete(us: seq<Update>, u: Update)
    requires DistinctCells(us) && u in us
    ensures Lookup(us, u.x, u.y) == Some(u.life)
  {
    var last := us[|us| - 1];
    if last != u {
      var init := us[..|us| - 1];
      assert us == init + [last];
      assert u in init;
      var i :| 0 <= i < |init| && init[i] == u;
      assert us[i] == u;
      LookupComplete(init, u);
    }
  }

  /** Writing back the updates of a tick in any other order gives the same
      grid: the lookup, and so the written value, is the same for every cell. */
  lemma WriteOrderIrrelevant(us: seq<Update>, vs: seq<Update>, x: int, y: int)
    requires DistinctCells(us) && multiset(us) == multiset(vs)
    ensures Lookup(us, x, y) == Lookup(vs, x, y)
  {
    LookupSound(us, x, y);
    LookupSound(vs, x, y);
    var lu, lv := Lookup(us, x, y), Lookup(vs, x, y);
    assert lv.Some? ==> Update(x, y, lv.value) in multiset(us);
    assert lu.Some? ==> Update(x, y, lu.value) in multiset(vs);
    if lv.Some? {
      LookupComplete(us, Update(x, y, lv.value));
    }
  }
}
