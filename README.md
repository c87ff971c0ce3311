# duel-life: a verified model of the territory automaton

duel-life is a two-faction cellular automaton played in the browser. Each cell
of a grid is Empty, Ally, Enemy, Barricade or Mountain. A tick
(`applyGameRules`) runs three rules:

- **Expansion.** An Empty cell is claimed by the side that touches it
  orthogonally. When both sides touch it, it becomes a Barricade.
- **Capture.** An Ally or Enemy camp falls to the other side with a probability
  equal to the other side's share of its eight surrounding Ally, Enemy and
  Empty cells.
- **Takeover.** A Barricade goes to a side holding more than 0.74 of those
  cells.

Every decision reads the grid as it was before the tick. The decisions are
collected in a list and written back after the scan. Around the rules sit the
drawing helpers:

- hex-colour darkening;
- the shade a camp takes from its opponents' power;
- a paint brush that cycles through the paints;
- loops that randomize camps or terrain, or clear the grid.

There is also an older cell model in which a cell carries a life string and a
brush that toggles between the two sides.

The model is written in Dafny in seven modules:

- `Cells`: the cell type and per-type neighbour tallies.
- `Scan`: row-major scan order, and the position of a cell in that order.
- `Neighborhood`: Moore and von Neumann neighbours and `countNeighbors`.
- `Rules`: the tick.
- `Draw`: the drawing helpers of js/draw.js.
- `LegacyGrid`: the older cell model of js/grid.js.
- `Wrappers`: `Option`.

The grid is an `array2` indexed `[y, x]`. Each loop that overwrites the grid
is a method with loop invariants. It is proved against a function of the
grid's value before the call (`Rules.Next`, `Draw.RandomizedCamps`, ...), and
the properties of the game are lemmas about those functions.

`Math.random` is replaced by a sequence of samples. The samples are consumed
in the order the source calls `Math.random`:

- A tick draws one sample per Ally or Enemy cell, in scan order.
- `randomizeCamps` draws two samples per non-Mountain cell.
- `randomizeTerrain` draws one sample per cell.
- `randomizeGrid` draws two samples per cell.

Each randomizing method also returns how many samples it used.

Fractions are compared exactly, by cross-multiplication:

- "sample < k / open" is `open > 0 && sample * open < k`.
- "k / open > 0.74" is `open > 0 && 100 k > 74 open`.

When the denominator is zero, JavaScript computes 0/0, which is NaN. Every
comparison with NaN is false, and the `open > 0` guard gives the same result.
`Rules.RollIsQuotient` and `Rules.OverThresholdIsQuotient` prove that each
encoded test equals the source's quotient comparison.

The cell type and `countNeighbors` / `getNeighbors` are imported by
js/rules.js and js/draw.js from js/grid.js, but the js/grid.js modelled here
is an older version that does not define them. They are this model's own definitions:

- the five cell types named in the source;
- Moore means the 8 surrounding offsets and von Neumann the 4 orthogonal ones;
- positions off the grid are absent.

Where the comments of the source and its code disagree, the model follows
the code:

- **Capture denominator.** The comment at js/rules.js:19-26 says the
  denominator is `A + E`. The code at js/rules.js:57 also adds the Empty
  neighbours.
- **Takeover threshold.** The comment at js/rules.js:29 says "at least 3/4".
  The code at js/rules.js:79-85 compares strictly `> 0.74`. The two agree for
  every count up to 26 openings (`Rules.ThresholdIsThreeQuarters`), and a cell
  has at most 8. They first differ at 27 openings
  (`Rules.ThresholdDiffersAt27`).

Other behaviour worth noting:

- **Barricades under `randomizeCamps`.** The loop at js/draw.js:261-270 skips
  only Mountains, as its comment at js/draw.js:258-259 says. A Barricade is
  therefore overwritten like any other non-Mountain cell
  (`Draw.RandomizedCampsCells`).
- **Shading denominator.** `updateCellColor` (js/draw.js:82-83) takes the
  opposing power over `A + E`, as its comment at js/draw.js:67-69 says. The
  capture rule's denominator also counts the Empty neighbours (js/rules.js:57),
  so the shade of a camp is not its capture probability.

## Model

| member | source | states |
|---|---|---|
| Rules.Decision | js/rules.js:34-88 | the decision of the cell at (x, y): the rules applied to its type, its von Neumann and Moore tallies on the given grid and its own sample |
| Rules.Next | js/rules.js:34-96 | the grid after one tick: each cell takes its decision, or keeps its type when it has none; the shape is kept |
| Rules.Decide | js/rules.js:40-88 | an update never keeps a cell's type and never makes it Empty or Mountain; a Mountain gets no update; a camp can only turn into the other camp |
| Rules.JudgeCell | js/rules.js:36-88 | the decision for (x, y) is the one the rules give on the pre-tick grid with that cell's own sample; the sample counter moves on by one for an Ally or Enemy cell and by none otherwise |
| Rules.ScanRow | js/rules.js:35-89 | after row y the list holds exactly the decisions of every cell up to the end of row y, in scan order, and the counter equals the camps scanned so far |
| Rules.CollectUpdates | js/rules.js:32-90 | the update list is in strict row-major order, addresses only cells of the grid, and holds for each cell exactly its decision on the unchanged grid; one sample per camp is drawn |
| Rules.ApplyUpdates | js/rules.js:92-96 | after the write-back each cell holds the value of the last update addressing it, or its old value if none does |
| Rules.ApplyGameRules | js/rules.js:31-100 | the new grid is the next-state function of the old grid and the samples, so no decision sees a write of the same tick, and the number of samples drawn is the number of camps |
| Rules.TickTransitions | js/rules.js:40-95 | a tick only makes the changes Empty to Ally, Enemy or Barricade; Ally to Enemy; Enemy to Ally; Barricade to Ally or Enemy; Mountains never change and no cell becomes Empty or Mountain |
| Rules.ExpansionRule | js/rules.js:40-51 | an Empty cell becomes Ally when only Ally touches it orthogonally, Enemy when only Enemy does, Barricade when both do whatever the counts, and stays Empty otherwise |
| Rules.Roll | js/rules.js:62-72 | the capture test `Math.random() < k / (A + E + Empty)`, compared by cross-multiplication and false with no openings; RollIsQuotient proves it equal to the quotient comparison |
| Rules.OverThreshold | js/rules.js:79-85 | the takeover test `k / (A + E + Empty) > 0.74`, compared as 100 k > 74 open and false with no openings; OverThresholdIsQuotient proves it equal to the quotient comparison |
| Rules.RollIsQuotient | js/rules.js:62-63 | the guarded cross-multiplied capture test holds exactly when there are openings and the sample is below the quotient k / open, which is the source's `Math.random() < power` with 0/0 false |
| Rules.OverThresholdIsQuotient | js/rules.js:79-85 | the guarded takeover test holds exactly when there are openings and k / open > 0.74, which is the source's comparison with 0/0 false |
| Rules.CaptureRule | js/rules.js:55-75 | a camp turns into the other side exactly when there are openings and its sample is below the other side's count divided by Ally + Enemy + Empty Moore neighbours; otherwise it stays |
| Rules.NoOpponentNoCapture | js/rules.js:55-75 | a camp with no opposing Moore neighbour is never captured, for any sample in [0, 1) |
| Rules.SurroundedIsCaptured | js/rules.js:55-75 | a camp whose Ally, Enemy and Empty neighbours all belong to the other side is always captured, for any sample in [0, 1) |
| Rules.OnlyOpponentOpenings | js/rules.js:55-57 | for such a camp the number of openings is the number of opposing neighbours, and it is positive |
| Rules.RollCertain | js/rules.js:62-63 | a sample in [0, 1) is always below a share of one |
| Rules.NoOpeningsNoChange | js/rules.js:57-87 | with no Ally, Enemy or Empty Moore neighbour (0/0 in the source) no camp and no Barricade changes |
| Rules.ThresholdIsThreeQuarters | js/rules.js:79-85 | for 1 to 26 openings a share strictly above 0.74 is the same as a share of at least three quarters |
| Rules.ThresholdDiffersAt27 | js/rules.js:79-85 | at 27 openings the two differ (20 of 27), so the equivalence needs the bound |
| Rules.BarricadeTakeover | js/rules.js:78-87 | a Barricade goes to Ally when Ally holds at least three quarters of its openings, else to Enemy on the same terms, else stays; no sample enters |
| Rules.OneSamplePerCamp | js/rules.js:59-75 | every camp's sample index is below the number of samples drawn, and two different camps never share an index |
| Rules.ScanOrderedIsDistinct | js/rules.js:32-90 | an update list in scan order addresses each cell at most once |
| Rules.LookupSound | js/rules.js:92-96 | the value written to a cell comes from an update for that cell, and a cell with no update is not written |
| Rules.LookupComplete | js/rules.js:92-96 | when no two updates share a cell, every update in the list is the one written to its cell |
| Rules.WriteOrderIrrelevant | js/rules.js:92-96 | writing back any permutation of a tick's updates gives every cell the same value |
| Neighborhood.NeighborTally | js/rules.js:37 | the model's countNeighbors: the per-type count of the cells at the on-grid Moore or von Neumann positions around (x, y) |
| Neighborhood.Neighbors | js/draw.js:166 | the model's getNeighbors: the positions around (x, y), in offset order, that lie on the grid |
| Neighborhood.CountNeighbors | js/rules.js:55 | the tally over the live grid is the per-type count of the on-grid Moore or von Neumann neighbours of the pre-tick grid |
| Neighborhood.NeighborsAre | js/draw.js:166 | the neighbours are exactly the on-grid cells adjacent to (x, y), at most 8 for Moore and 4 for von Neumann |
| Neighborhood.NeighborPresence | js/rules.js:41-48 | a type's count is positive exactly when some neighbour has that type |
| Neighborhood.NeighborTotal | js/rules.js:55-57 | the openings never exceed the number of neighbours, which is at most 8 (Moore) or 4 |
| Draw.StripHash | js/draw.js:39 | drops one leading '#', and nothing else |
| Draw.ParseHex | js/draw.js:47-49 | parseInt(s, 16) of a string of hex digits: the digits read most significant first |
| Draw.ToHex | js/draw.js:57 | toString(16) of a channel: at least one digit, all lower case |
| Draw.ToHexValue | js/draw.js:57 | toString(16) parses back to the number it was made from, and has no leading zero unless it is the single digit of zero |
| Draw.PadStart2 | js/draw.js:57 | padStart(2, '0') of a channel's digits |
| Draw.PadStartZeros | js/draw.js:57 | padding brings a shorter string to length 2 with '0's in front and keeps the string as its suffix; a longer string is kept |
| Draw.FormatChannel | js/draw.js:57 | one channel as written: `x.toString(16).padStart(2, '0')`; FormatChannelRoundTrip proves a channel below 256 becomes two lower-case digits that parse back to it |
| Draw.Darken | js/draw.js:52-54 | one darkened channel: max(0, floor(c * (1 - percent / 100))) in exact arithmetic |
| Draw.DarkenHexColor | js/draw.js:37-60 | darkenHexColor: strip '#', expand shorthand, parse three channels, darken each, write them back; its properties are DarkenHexFormat, DarkenByZero and DarkenByHundred |
| Draw.ParseHexPair | js/draw.js:47-49 | a two-digit hex string parses to 16 times its first digit plus its second |
| Draw.FormatChannelRoundTrip | js/draw.js:57 | a channel below 256 is written as exactly two lower-case hex digits, which parse back to the channel |
| Draw.FormatParsedPair | js/draw.js:47-57 | parsing a pair of digits and writing the value back gives the pair in lower case |
| Draw.ExpandShorthand | js/draw.js:42-44 | a three-digit colour expands to six digits; any other length is left as it is |
| Draw.ShorthandDoubles | js/draw.js:42-44 | in the expansion each of the three digits appears twice, in order (abc becomes aabbcc) |
| Draw.InputChannel | js/draw.js:47-49 | each parsed input channel is below 256 |
| Draw.DarkenBounds | js/draw.js:52-54 | for percent in [0, 100] a darkened channel lies between 0 and the input channel; 0 percent keeps it, 100 percent makes it 0 |
| Draw.WriteColor | js/draw.js:57-59 | '#' followed by the three channels, each written as FormatChannel writes it, joined with nothing between; WriteColorFormat proves the result is '#' and six lower-case digits whose pairs parse back to the channels |
| Draw.WriteColorFormat | js/draw.js:57-59 | channels below 256 are written as '#' and six lower-case hex digits, each pair parsing back to its channel |
| Draw.DarkenHexFormat | js/draw.js:37-60 | for a valid colour and percent in [0, 100] the result is '#' and six lower-case hex digits; each channel parses back to the darkened input channel, which is at most the input channel |
| Draw.DarkenByZero | js/draw.js:37-60 | darkening by 0 percent gives the normalised input: '#', shorthand expanded, lower case |
| Draw.DarkenByHundred | js/draw.js:37-60 | darkening by 100 percent gives '#000000' |
| Draw.OpposingPower | js/draw.js:82-83 | the opposing side's share of Ally + Enemy neighbours, 0 when there are none; always in [0, 1] |
| Draw.CellShade | js/draw.js:73-93 | only camps are shaded; the shade lies in [0, 75], is 0 exactly when no opposing neighbour exists, and is 75 exactly when opposing neighbours exist and none of the camp's own side |
| Draw.ShareBounds | js/draw.js:82-83 | a share of a positive total lies in [0, 1], and is 0 or 1 exactly when the part or the rest is 0 |
| Draw.IndexOf | js/draw.js:143 | the index of a paint in the order Ally, Enemy, Mountain, Barricade, and -1 exactly for a paint outside it |
| Draw.SwappedPaint | js/draw.js:143-150 | the paint at (indexOf + sign(dir) + 4) % 4 in the paint order; always one of the four paints |
| Draw.SwapFollowsCycle | js/draw.js:135-151 | a swap moves one step forward or back along the cycle Ally, Enemy, Mountain, Barricade by the sign of the direction and stays for 0; a paint outside the cycle lands on Ally, Mountain or Barricade |
| Draw.SwapBack | js/draw.js:135-151 | swapping with a direction and then its negation restores a paint from the cycle |
| Draw.SwapFourTimes | js/draw.js:135-151 | four swaps in the same direction restore a paint from the cycle |
| Draw.PaintBrush.constructor | js/draw.js:119-123 | a new brush draws, with Ally paint |
| Draw.PaintBrush.SetPaint | js/draw.js:130-133 | the paint becomes the given type; the mode is kept |
| Draw.PaintBrush.SwapPaint | js/draw.js:135-151 | the paint becomes the swapped paint of the old one; the mode is kept |
| Draw.PaintBrush.BrushCell | js/draw.js:156-164 | draw mode sets the cell to the paint, erase mode makes it Empty; no other cell changes |
| Draw.CampRoll | js/draw.js:267-268 | one non-Mountain cell of randomizeCamps: Ally, Enemy or Empty; Empty exactly when the second sample is not below the coverage, Ally exactly when it is and the first is below 0.5 |
| Draw.RandomizeCamps | js/draw.js:261-272 | the new grid is the randomized-camps function of the old grid and the samples; two samples are drawn per non-Mountain cell |
| Draw.RandomizeCampsRow | js/draw.js:263-269 | row y becomes its randomized cells, other rows are unchanged, and the counter moves past this row's non-Mountain cells |
| Draw.RandomizedCampsCells | js/draw.js:261-270 | Mountains stay; every other cell, Barricades included, becomes Ally, Enemy or Empty; coverage 0 gives Empty and coverage 1 a camp |
| Draw.TerrainRoll | js/draw.js:280 | one cell of randomizeTerrain: Mountain exactly when the sample is below the coverage, otherwise Empty |
| Draw.RandomizeTerrain | js/draw.js:277-284 | the new grid is the randomized-terrain function of the old grid and the samples; one sample is drawn per cell |
| Draw.RandomizeTerrainRow | js/draw.js:279-282 | row y becomes its randomized cells, other rows are unchanged, and the counter moves past the row |
| Draw.RandomizedTerrainCells | js/draw.js:277-284 | every cell becomes Mountain or Empty, whatever it was; coverage 0 gives Empty and coverage 1 Mountain |
| Draw.ClearGrid | js/draw.js:287-294 | every cell becomes Empty and the shape is kept |
| Draw.ClearIdempotent | js/draw.js:287-294 | clearing twice is clearing once, and a cleared grid holds only Empty cells |
| LegacyGrid.GiveLife | js/grid.js:63-65 | the life becomes the given type and the coordinates stay |
| LegacyGrid.TakeLife | js/grid.js:67-69 | the life becomes 'none', the cell is not alive, and the coordinates stay |
| LegacyGrid.IsCellAlive | js/grid.js:58-60 | isCellAlive: there is a cell, and its life is present, non-empty and not 'none' |
| LegacyGrid.GiveLifeAlive | js/grid.js:58-65 | giving life makes a cell alive exactly when the new life is neither empty nor 'none' |
| LegacyGrid.SidesAreAlive | js/grid.js:14-18 | each paint type ('ally', 'enemy', 'barr') brings a cell to life |
| LegacyGrid.CreateGrid | js/grid.js:78-90 | a fresh grid of height rows and width columns whose cell at [y, x] records x and y and is not alive |
| LegacyGrid.SwappedColor | js/grid.js:29-35 | the swapped colour is always 'ally' or 'enemy', and is 'enemy' exactly when the old one was 'ally' |
| LegacyGrid.SwapTwice | js/grid.js:29-35 | two swaps restore 'ally' or 'enemy' |
| LegacyGrid.Brushed | js/grid.js:41-51 | the cell after brushCell: the brush colour in draw mode, dead in erase mode if it was alive, unchanged otherwise |
| LegacyGrid.BrushedCell | js/grid.js:41-51 | drawing sets the life to the brush colour (alive for either side); erasing leaves the cell dead and leaves a dead cell exactly as it was; other modes change nothing; coordinates never change |
| LegacyGrid.LegacyBrush.constructor | js/grid.js:21-25 | a new brush draws, with 'ally' colour |
| LegacyGrid.LegacyBrush.SwapPaint | js/grid.js:29-38 | the colour becomes the swapped colour; the mode is kept |
| LegacyGrid.LegacyBrush.BrushCell | js/grid.js:41-51 | the cell becomes the brushed cell for the brush's mode and colour; no other cell changes |
| LegacyGrid.RandomTile | js/grid.js:212-213 | one cell of randomizeGrid: coordinates kept; life 'ally', 'enemy' or 'none'; alive exactly when the second sample is below the coverage, 'ally' exactly when also the first is below 0.5 |
| LegacyGrid.RandomizeGrid | js/grid.js:209-216 | the new grid is the randomized-grid function of the old grid and the samples; two samples are drawn per cell |
| LegacyGrid.RandomizeRow | js/grid.js:210-215 | cell x of row y is decided by the samples at 2x and 2x + 1 past the row's base; other rows are unchanged |
| LegacyGrid.RandomizeCell | js/grid.js:212-213 | the cell gets a side by its first sample and life by its second; no other cell changes |
| LegacyGrid.RandomizedGridCells | js/grid.js:209-216 | every cell keeps its coordinates, holds 'ally', 'enemy' or 'none', and is alive exactly when its second sample was below the coverage |
| LegacyGrid.ClearGrid | js/grid.js:219-225 | every cell loses its life and the shape is kept |
| LegacyGrid.KilledCells | js/grid.js:219-225 | after clearing no cell is alive, every cell keeps its coordinates, and clearing again changes nothing |

## Left out

- js/main.js: the interval timer, the run toggle, the button and keyboard handlers and key-repeat suppression have no algorithmic content.
- All DOM work is left out: element lookups, `style` and `textContent` writes, event listeners, sliders, and the colour-picker storage in `colors`. Cells are values in an `array2`, not document nodes, so two references to the same node (aliasing) are not modelled.
- `updateAllCellColors`, `applyStaticColor`, `typeToColor`, `getColor` and `updateColorBox` write colours to the page. Of `updateCellColor`, only the shading percentage (`Draw.CellShade`) is modelled.
- `rescaleCellSize`, `redrawGrid`, `setGridGap`, `getGridGap`, `updateGrid` and `toggleGridlines`: viewport layout in floating point.
- `Math.random` is an injected sequence of samples. Its distribution, and so any rate of capture, cannot be stated here.
- Draw.Darken: computed in exact real arithmetic. The source's IEEE doubles may round `c * (1 - percent / 100)` differently at the edges.
- Rules.Decide: the fractions `k / open` are compared exactly by cross-multiplication. IEEE division may differ at rounding edges.
- Draw.DarkenHexColor: requires a colour of 3 or 6 hex digits after an optional '#'. JavaScript's lenient `parseInt` of malformed input (NaN channels, other lengths) is not modelled.
- Draw.PaintBrush.SwapPaint: takes an integer direction. Callers that rely on the default argument `dir = 1` (js/draw.js:135) pass 1. The wheel handler's real-valued `deltaY` (js/draw.js:227) is represented by any integer of the same sign, because only `Math.sign(dir)` is used.
- Draw.PaintBrush.BrushCell: the recolouring of the brushed cell and of its camp neighbours (js/draw.js:166-171) is colour output and is not modelled.
- Draw.PaintBrush: the `isMouseDown` field only tracks the mouse, so it is not modelled.
- LegacyGrid.LegacyBrush.BrushCell: the source paints with the colour of the module's single `brush` object. The model uses the receiving brush's own colour, which is the same object in the source.
- The `colors` map and the paint types' page colours are not modelled.
- The grid module that js/rules.js and js/draw.js import the cell type, `countNeighbors` and `getNeighbors` from is not part of this model. `Cells` and `Neighborhood` define them as described above.
