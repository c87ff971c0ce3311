/** The helpers of the drawing layer: darkening a hex colour, the opposing
    power that shades a camp, the paint brush, and the whole-grid loops that
    randomize camps and terrain or clear the grid. Math.random is replaced by
    a sequence of samples consumed in the order the loops call it. */
module Draw {
  import opened Wrappers
  import opened Cells
  import opened Scan

  // ---------------------------------------------------------------------------
  // darkenHexColor

  predicate IsHexDigit(c: char) {
    '0' <= c <= '9' || 'a' <= c <= 'f' || 'A' <= c <= 'F'
  }

  predicate IsLowerHexDigit(c: char) {
    '0' <= c <= '9' || 'a' <= c <= 'f'
  }

  predicate AllHex(s: string) {
    forall i :: 0 <= i < |s| ==> IsHexDigit(s[i])
  }

  predicate AllLowerHex(s: string) {
    forall i :: 0 <= i < |s| ==> IsLowerHexDigit(s[i])
  }

  /** The value of one hex digit, either case. */
  function DigitValue(c: char): (v: nat)
    requires IsHexDigit(c)
    ensures v < 16
    ensures v == 0 <==> c == '0'
  {
    if '0' <= c <= '9' then c as int - '0' as int
    else if 'a' <= c <= 'f' then c as int - 'a' as int + 10
    else c as int - 'A' as int + 10
  }

  /** The digit Number.prototype.toString(16) writes for v: always lower case. */
  function HexChar(v: nat): (c: char)
    requires v < 16
    ensures IsLowerHexDigit(c) && DigitValue(c) == v
  {
    if v < 10 then ('0' as int + v) as char else ('a' as int + v - 10) as char
  }

  /** Lower-case form of a hex digit. */
  function Lower(c: char): char {
    if 'A' <= c <= 'F' then (c as int + 32) as char else c
  }

  lemma HexCharOfDigit(c: char)
    requires IsHexDigit(c)
    ensures HexChar(DigitValue(c)) == Lower(c)
  {
  }

  /** parseInt(s, 16) for a string of hex digits. */
  function ParseHex(s: string): nat
    requires AllHex(s)
  {
    if s == [] then 0 else ParseHex(s[..|s| - 1]) * 16 + DigitValue(s[|s| - 1])
  }

  lemma ParseHexPair(s: string)
    requires |s| == 2 && AllHex(s)
    ensures ParseHex(s) == 16 * DigitValue(s[0]) + DigitValue(s[1])
  {
    assert s[..|s| - 1] == [s[0]];
    assert [s[0]][..0] == [];
    assert ParseHex([s[0]]) == DigitValue(s[0]);
  }

  /** Number.prototype.toString(16) of a non-negative integer: no leading zeros. */
  function ToHex(n: nat): (r: string)
    ensures |r| >= 1 && AllLowerHex(r)
  {
    if n < 16 then [HexChar(n)] else ToHex(n / 16) + [HexChar(n % 16)]
  }

  /** toString(16) reads back as the number it was made from, and it starts
      with '0' only when it is the single digit of zero. */
  lemma {:induction false} ToHexValue(n: nat)
    ensures AllHex(ToHex(n)) && ParseHex(ToHex(n)) == n
    ensures |ToHex(n)| > 1 ==> ToHex(n)[0] != '0'
  {
    if n >= 16 {
      ToHexValue(n / 16);
      var s := ToHex(n / 16);
      assert ToHex(n) == s + [HexChar(n % 16)];
      assert ToHex(n)[..|ToHex(n)| - 1] == s;
      assert ToHex(n)[0] == s[0];
    }
  }

  /** String.prototype.padStart(2, '0'). */
  function PadStart2(s: string): string {
    if |s| >= 2 then s else seq(2 - |s|, _ => '0') + s
  }

  /** padStart(2, '0') brings `s` to length 2 by putting '0's in front, and
      leaves a string of length 2 or more as it is. */
  lemma PadStartZeros(s: string)
    ensures var r := PadStart2(s);
      && |r| == (if |s| >= 2 then |s| else 2)
      && r[|r| - |s|..] == s
      && forall i :: 0 <= i < |r| - |s| ==> r[i] == '0'
  {
  }

  /** One channel as darkenHexColor writes it. */
  function FormatChannel(n: nat): string {
    PadStart2(ToHex(n))
  }

  /** A channel below 256 is written as exactly two lower-case digits, which parse back to it. */
  lemma FormatChannelRoundTrip(n: nat)
    requires n < 256
    ensures |FormatChannel(n)| == 2 && AllLowerHex(FormatChannel(n))
    ensures AllHex(FormatChannel(n)) && ParseHex(FormatChannel(n)) == n
  {
    var f := FormatChannel(n);
    if n < 16 {
      assert f == ['0', HexChar(n)];
    } else {
      assert ToHex(n / 16) == [HexChar(n / 16)];
      assert f == [HexChar(n / 16), HexChar(n % 16)];
    }
    ParseHexPair(f);
  }

  /** Writing back a parsed pair of digits gives the pair in lower case. */
  lemma FormatParsedPair(s: string)
    requires |s| == 2 && AllHex(s)
    ensures FormatChannel(ParseHex(s)) == [Lower(s[0]), Lower(s[1])]
  {
    ParseHexPair(s);
    HexCharOfDigit(s[0]);
    HexCharOfDigit(s[1]);
    var n := ParseHex(s);
    if DigitValue(s[0]) == 0 {
      assert FormatChannel(n) == ['0', HexChar(DigitValue(s[1]))];
    } else {
      assert n / 16 == DigitValue(s[0]) && n % 16 == DigitValue(s[1]);
      assert ToHex(n / 16) == [HexChar(n / 16)];
    }
  }

  /** hex.replace(/^#/, ''): drops one leading '#'. */
  function StripHash(hex: string): string {
    if |hex| > 0 && hex[0] == '#' then hex[1..] else hex
  }

  /** Shorthand expansion: each of three digits is doubled (abc becomes aabbcc). */
  function ExpandShorthand(h: string): (r: string)
    ensures |h| == 3 ==> |r| == 6
    ensures |h| != 3 ==> r == h
  {
    if |h| == 3 then seq(6, i requires 0 <= i < 6 => h[i / 2]) else h
  }

  /** Each of the three shorthand digits appears twice, in order. */
  lemma ShorthandDoubles(h: string)
    requires |h| == 3
    ensures var r := ExpandShorthand(h);
      forall i :: 0 <= i < 3 ==> r[2 * i] == h[i] && r[2 * i + 1] == h[i]
  {
  }

  /** The inputs darkenHexColor is given: 3 or 6 hex digits, optionally after a '#'. */
  predicate ValidHexColor(hex: string) {
    var h := StripHash(hex);
    (|h| == 3 || |h| == 6) && AllHex(h)
  }

  /** The six digits darkenHexColor parses. */
  function SixDigits(hex: string): (h: string)
    requires ValidHexColor(hex)
    ensures |h| == 6 && AllHex(h)
  {
    ExpandShorthand(StripHash(hex))
  }

  /** Channel `i` (0 red, 1 green, 2 blue) of the input colour. */
  function InputChannel(hex: string, i: nat): (c: nat)
    requires ValidHexColor(hex) && i < 3
    ensures c < 256
  {
    var h := SixDigits(hex);
    ParseHexPair(h[2 * i..2 * i + 2]);
    ParseHex(h[2 * i..2 * i + 2])
  }

  /** Math.max(0, Math.floor(c * (1 - percent / 100))), in exact arithmetic. */
  function Darken(c: nat, percent: real): nat {
    var v := (c as real * (1.0 - percent / 100.0)).Floor;
    if v < 0 then 0 else v
  }

  /** For percent in [0, 100] a channel darkens to between 0 and itself;
      0 percent keeps it and 100 percent makes it 0. */
  lemma DarkenBounds(c: nat, percent: real)
    requires 0.0 <= percent <= 100.0
    ensures Darken(c, percent) <= c
    ensures percent == 0.0 ==> Darken(c, percent) == c
    ensures percent == 100.0 ==> Darken(c, percent) == 0
  {
    var f := 1.0 - percent / 100.0;
    assert 0.0 <= f <= 1.0;
    assert c as real * f <= c as real by {
      assert c as real * (1.0 - f) >= 0.0;
    }
  }

  /** '#' and the three channels, each written as by FormatChannel. */
  function WriteColor(red: nat, green: nat, blue: nat): string {
    "#" + FormatChannel(red) + FormatChannel(green) + FormatChannel(blue)
  }

  function DarkenHexColor(hex: string, percent: real): string
    requires ValidHexColor(hex)
  {
    WriteColor(Darken(InputChannel(hex, 0), percent),
               Darken(InputChannel(hex, 1), percent),
               Darken(InputChannel(hex, 2), percent))
  }

  /** Output channel `i` of a written colour. */
  function OutputPair(r: string, i: nat): string
    requires |r| == 7 && i < 3
  {
    r[1 + 2 * i..3 + 2 * i]
  }

  /** Channels below 256 are written as '#' and six lower-case hex digits,
      two per channel, which parse back to the channels. */
  lemma WriteColorFormat(red: nat, green: nat, blue: nat)
    requires red < 256 && green < 256 && blue < 256
    ensures var w := WriteColor(red, green, blue);
      && |w| == 7 && w[0] == '#' && AllLowerHex(w[1..])
      && AllHex(OutputPair(w, 0)) && ParseHex(OutputPair(w, 0)) == red
      && AllHex(OutputPair(w, 1)) && ParseHex(OutputPair(w, 1)) == green
      && AllHex(OutputPair(w, 2)) && ParseHex(OutputPair(w, 2)) == blue
  {
    var a, b, c := FormatChannel(red), FormatChannel(green), FormatChannel(blue);
    FormatChannelRoundTrip(red);
    FormatChannelRoundTrip(green);
    FormatChannelRoundTrip(blue);
    var w := WriteColor(red, green, blue);
    assert w[1..] == a + b + c;
    assert OutputPair(w, 0) == a && OutputPair(w, 1) == b && OutputPair(w, 2) == c;
  }

  /** For percent in [0, 100] the result is '#' and six lower-case hex digits;
      each channel parses back to the darkened input channel, which is at most the input. */
  lemma DarkenHexFormat(hex: string, percent: real)
    requires ValidHexColor(hex) && 0.0 <= percent <= 100.0
    ensures var r := DarkenHexColor(hex, percent);
      && |r| == 7 && r[0] == '#' && AllLowerHex(r[1..])
      && forall i :: 0 <= i < 3 ==>
           AllHex(OutputPair(r, i))
           && ParseHex(OutputPair(r, i)) == Darken(InputChannel(hex, i), percent)
           && ParseHex(OutputPair(r, i)) <= InputChannel(hex, i)
  {
    var d0 := Darken(InputChannel(hex, 0), percent);
    var d1 := Darken(InputChannel(hex, 1), percent);
    var d2 := Darken(InputChannel(hex, 2), percent);
    DarkenBounds(InputChannel(hex, 0), percent);
    DarkenBounds(InputChannel(hex, 1), percent);
    DarkenBounds(InputChannel(hex, 2), percent);
    WriteColorFormat(d0, d1, d2);
    var r := DarkenHexColor(hex, percent);
    assert r == WriteColor(d0, d1, d2);
    forall i | 0 <= i < 3
      ensures AllHex(OutputPair(r, i))
      ensures ParseHex(OutputPair(r, i)) == Darken(InputChannel(hex, i), percent)
      ensures ParseHex(OutputPair(r, i)) <= InputChannel(hex, i)
    {
      assert i == 0 || i == 1 || i == 2;
    }
  }

  /** Lower case of a string of hex digits. */
  function LowerAll(s: string): (r: string)
    ensures |r| == |s|
  {
    seq(|s|, i requires 0 <= i < |s| => Lower(s[i]))
  }

  /** A pair of digits parsed and written back is the pair in lower case. */
  lemma PairRewritten(h: string, i: nat)
    requires |h| == 6 && AllHex(h) && i < 3
    ensures AllHex(h[2 * i..2 * i + 2])
    ensures FormatChannel(ParseHex(h[2 * i..2 * i + 2])) == LowerAll(h)[2 * i..2 * i + 2]
  {
    FormatParsedPair(h[2 * i..2 * i + 2]);
  }

  /** Darkening by 0 percent normalises the colour: '#', shorthand expanded, lower case. */
  lemma DarkenByZero(hex: string)
    requires ValidHexColor(hex)
    ensures DarkenHexColor(hex, 0.0) == "#" + LowerAll(SixDigits(hex))
  {
    var h := SixDigits(hex);
    var c0, c1, c2 := InputChannel(hex, 0), InputChannel(hex, 1), InputChannel(hex, 2);
    DarkenBounds(c0, 0.0);
    DarkenBounds(c1, 0.0);
    DarkenBounds(c2, 0.0);
    PairRewritten(h, 0);
    PairRewritten(h, 1);
    PairRewritten(h, 2);
    JoinPairs(FormatChannel(c0), FormatChannel(c1), FormatChannel(c2), LowerAll(h));
  }

  lemma JoinPairs(a: string, b: string, c: string, l: string)
    requires |l| == 6 && a == l[0..2] && b == l[2..4] && c == l[4..6]
    ensures "#" + a + b + c == "#" + l
  {
    assert l == l[0..2] + l[2..4] + l[4..6];
  }

  /** Darkening by 100 percent gives black. */
  lemma DarkenByHundred(hex: string)
    requires ValidHexColor(hex)
    ensures DarkenHexColor(hex, 100.0) == "#000000"
  {
    DarkenBounds(InputChannel(hex, 0), 100.0);
    DarkenBounds(InputChannel(hex, 1), 100.0);
    DarkenBounds(InputChannel(hex, 2), 100.0);
    assert DarkenHexColor(hex, 100.0) == WriteColor(0, 0, 0);
    assert FormatChannel(0) == "00";
  }

  // ---------------------------------------------------------------------------
  // The shading part of updateCellColor

  /** The share of the contesting neighbours (Ally + Enemy, Empty not counted)
      that the side opposing camp `cell` holds; 0 when nobody contests. */
  function OpposingPower(cell: Cell, mo: Tally): (p: real)
    requires IsCamp(cell)
    ensures 0.0 <= p <= 1.0
  {
    var total := mo.ally + mo.enemy;
    assert total == mo.Of(Opponent(cell)) + mo.Of(cell);
    ShareBounds(mo.Of(Opponent(cell)) as real, mo.Of(cell) as real);
    if total > 0 then mo.Of(Opponent(cell)) as real / total as real else 0.0
  }

  /** The darkening percentage updateCellColor applies: 75 times the opposing
      power for a camp; other cells take their static colour (None). */
  function CellShade(cell: Cell, mo: Tally): (r: Option<real>)
    ensures r.Some? <==> IsCamp(cell)
    ensures r.Some? ==> 0.0 <= r.value <= 75.0
    ensures r.Some? ==> (r.value == 0.0 <==> mo.Of(Opponent(cell)) == 0)
    ensures r.Some? ==> (r.value == 75.0 <==> mo.Of(Opponent(cell)) > 0 && mo.Of(cell) == 0)
  {
    if IsCamp(cell) then
      var opp, own := mo.Of(Opponent(cell)) as real, mo.Of(cell) as real;
      assert mo.ally + mo.enemy == mo.Of(Opponent(cell)) + mo.Of(cell);
      ShareBounds(opp, own);
      Some(75.0 * OpposingPower(cell, mo))
    else None
  }

  /** A share of a non-empty total is in [0, 1], and is 0 or 1 exactly at the ends. */
  lemma ShareBounds(part: real, rest: real)
    requires part >= 0.0 && rest >= 0.0
    ensures part + rest > 0.0 ==> 0.0 <= part / (part + rest) <= 1.0
    ensures part + rest > 0.0 ==> (part / (part + rest) == 0.0 <==> part == 0.0)
    ensures part + rest > 0.0 ==> (part / (part + rest) == 1.0 <==> rest == 0.0)
  {
    if part + rest > 0.0 {
      var q := part / (part + rest);
      assert q * (part + rest) == part;
      assert (1.0 - q) * (part + rest) == rest;
    }
  }

  // ---------------------------------------------------------------------------
  // The paint brush

  /** The paints the brush cycles through, in order. */
  const PaintOrder: seq<Cell> := [Ally, Enemy, Mountain, Barricade]

  /** Array.prototype.indexOf on PaintOrder: -1 for a type not in it. */
  function IndexOf(paint: Cell): (i: int)
    ensures -1 <= i < |PaintOrder|
    ensures i >= 0 ==> PaintOrder[i] == paint
    ensures i == -1 <==> paint !in PaintOrder
  {
    match paint
    case Ally => 0
    case Enemy => 1
    case Mountain => 2
    case Barricade => 3
    case Empty => -1
  }

  /** Math.sign. */
  function Sign(d: int): int {
    if d > 0 then 1 else if d < 0 then -1 else 0
  }

  /** The paint swapPaint selects. The operand of % is never negative here,
      so JavaScript's remainder and Dafny's agree. */
  function SwappedPaint(paint: Cell, dir: int): (r: Cell)
    ensures r in PaintOrder
  {
    PaintOrder[(IndexOf(paint) + Sign(dir) + |PaintOrder|) % |PaintOrder|]
  }

  /** The paint after `p` in the cycle Ally, Enemy, Mountain, Barricade. */
  function CycleNext(p: Cell): Cell {
    match p
    case Ally => Enemy
    case Enemy => Mountain
    case Mountain => Barricade
    case Barricade => Ally
    case Empty => Empty
  }

  /** The paint before `p` in the same cycle. */
  function CyclePrev(p: Cell): Cell {
    match p
    case Ally => Barricade
    case Enemy => Ally
    case Mountain => Enemy
    case Barricade => Mountain
    case Empty => Empty
  }

  /** swapPaint moves one step along the cycle in the direction's sign and stays
      for direction 0; a paint outside the cycle (index -1) lands on Ally
      forwards, Mountain backwards and Barricade for direction 0. */
  lemma SwapFollowsCycle(paint: Cell, dir: int)
    ensures paint in PaintOrder ==>
      SwappedPaint(paint, dir) == if dir > 0 then CycleNext(paint) else if dir < 0 then CyclePrev(paint) else paint
    ensures paint !in PaintOrder ==>
      SwappedPaint(paint, dir) == if dir > 0 then Ally else if dir < 0 then Mountain else Barricade
  {
    match paint
    case Ally =>
    case Enemy =>
    case Mountain =>
    case Barricade =>
    case Empty =>
  }

  /** Swapping one way and then the other restores a paint from the cycle. */
  lemma SwapBack(paint: Cell, dir: int)
    requires paint in PaintOrder
    ensures SwappedPaint(SwappedPaint(paint, dir), -dir) == paint
  {
    SwapFollowsCycle(paint, dir);
    SwapFollowsCycle(SwappedPaint(paint, dir), -dir);
  }

  /** Four swaps the same way go once round the cycle. */
  lemma SwapFourTimes(paint: Cell, dir: int)
    requires paint in PaintOrder
    ensures SwappedPaint(SwappedPaint(SwappedPaint(SwappedPaint(paint, dir), dir), dir), dir) == paint
  {
    var p1 := SwappedPaint(paint, dir);
    var p2 := SwappedPaint(p1, dir);
    var p3 := SwappedPaint(p2, dir);
    SwapFollowsCycle(paint, dir);
    SwapFollowsCycle(p1, dir);
    SwapFollowsCycle(p2, dir);
    SwapFollowsCycle(p3, dir);
  }

  /** The brush of the drawing layer: its mode and the type it paints. */
  class PaintBrush {
    var mode: Mode
    var paint: Cell

    constructor ()
      ensures mode == Draw && paint == Ally
    {
      mode := Draw;
      paint := Ally;
    }

    method SetPaint(t: Cell)
      modifies this
      ensures paint == t && mode == old(mode)
    {
      paint := t;
    }

    method SwapPaint(dir: int)
      modifies this
      ensures paint == SwappedPaint(old(paint), dir) && mode == old(mode)
    {
      var currentIndex := IndexOf(paint);
      var d := Sign(dir);
      var newIndex := (currentIndex + d + |PaintOrder|) % |PaintOrder|;
      SetPaint(PaintOrder[newIndex]);
    }

    /** Draw mode sets the cell to the paint, erase mode clears it; no other cell changes. */
    method BrushCell(grid: array2<Cell>, x: int, y: int)
      requires 0 <= y < grid.Length0 && 0 <= x < grid.Length1
      modifies grid
      ensures grid[y, x] == if mode == Draw then paint else Empty
      ensures forall yy, xx :: 0 <= yy < grid.Length0 && 0 <= xx < grid.Length1 && (yy != y || xx != x) ==>
        grid[yy, xx] == old(grid[yy, xx])
    {
      if mode == Draw {
        grid[y, x] := paint;
      } else if mode == Erase {
        grid[y, x] := Empty;
      }
    }
  }

  // ---------------------------------------------------------------------------
  // randomizeCamps

  /** One non-Mountain cell of randomizeCamps: the first sample picks the side
      (Ally below 0.5), the second places a camp when below the coverage. */
  function CampRoll(sideSample: real, coverSample: real, coverage: real): (c: Cell)
    ensures c == Ally || c == Enemy || c == Empty
    ensures c == Empty <==> !(coverSample < coverage)
    ensures c == Ally <==> coverSample < coverage && sideSample < 0.5
  {
    var paint := if sideSample < 0.5 then Ally else Enemy;
    if coverSample < coverage then paint else Empty
  }

  /** Two samples per non-Mountain cell. */
  predicate EnoughCampSamples(g: seq<seq<Cell>>, samples: seq<real>) {
    2 * CountRows(g, IsGround) <= |samples|
  }

  /** The cell at (x, y) after randomizeCamps: Mountains are skipped and draw nothing. */
  function CampCell(g: seq<seq<Cell>>, samples: seq<real>, coverage: real, x: int, y: int): Cell
    requires InGrid(g, x, y) && EnoughCampSamples(g, samples)
  {
    if g[y][x] == Mountain then Mountain
    else
      var k := Before(g, x, y, IsGround);
      assert 2 * k + 1 < |samples| by { BeforeBelowTotal(g, x, y, IsGround); }
      CampRoll(samples[2 * k], samples[2 * k + 1], coverage)
  }

  function RandomizedCamps(g: seq<seq<Cell>>, samples: seq<real>, coverage: real): (r: seq<seq<Cell>>)
    requires EnoughCampSamples(g, samples)
    ensures |r| == |g| && forall y :: 0 <= y < |g| ==> |r[y]| == |g[y]|
  {
    seq(|g|, y requires 0 <= y < |g| =>
      seq(|g[y]|, x requires 0 <= x < |g[y]| => CampCell(g, samples, coverage, x, y)))
  }

  /** randomizeCamps: returns the number of samples drawn, two per non-Mountain cell. */
  method RandomizeCamps(grid: array2<Cell>, coverage: real, samples: seq<real>) returns (used: nat)
    requires EnoughCampSamples(Snapshot(grid), samples)
    modifies grid
    ensures used == 2 * CountRows(old(Snapshot(grid)), IsGround)
    ensures Snapshot(grid) == RandomizedCamps(old(Snapshot(grid)), samples, coverage)
  {
    ghost var g := Snapshot(grid);
    used := 0;
    for y := 0 to grid.Length0
      invariant used == 2 * CountRows(g[..y], IsGround)
      invariant forall yy, xx :: 0 <= yy < grid.Length0 && 0 <= xx < grid.Length1 ==>
        grid[yy, xx] == if yy < y then CampCell(g, samples, coverage, xx, yy) else g[yy][xx]
    {
      used := RandomizeCampsRow(grid, g, coverage, samples, y, used);
    }
    ScanComplete(g, IsGround);
    SnapshotIs(grid, RandomizedCamps(g, samples, coverage));
  }

  /** Row `y` of randomizeCamps, drawing from sample `used` on. */
  method RandomizeCampsRow(grid: array2<Cell>, ghost g: seq<seq<Cell>>, coverage: real, samples: seq<real>, y: int, used: nat)
    returns (used': nat)
    requires 0 <= y < grid.Length0 && |g| == grid.Length0 && forall r :: 0 <= r < |g| ==> |g[r]| == grid.Length1
    requires EnoughCampSamples(g, samples) && used == 2 * CountRows(g[..y], IsGround)
    requires forall xx :: 0 <= xx < grid.Length1 ==> grid[y, xx] == g[y][xx]
    modifies grid
    ensures used' == 2 * CountRows(g[..y + 1], IsGround)
    ensures forall xx :: 0 <= xx < grid.Length1 ==> grid[y, xx] == CampCell(g, samples, coverage, xx, y)
    ensures forall yy, xx :: 0 <= yy < grid.Length0 && yy != y && 0 <= xx < grid.Length1 ==>
      grid[yy, xx] == old(grid[yy, xx])
  {
    used' := used;
    for x := 0 to grid.Length1
      invariant used' == 2 * Before(g, x, y, IsGround)
      invariant forall xx :: 0 <= xx < grid.Length1 ==>
        grid[y, xx] == if xx < x then CampCell(g, samples, coverage, xx, y) else g[y][xx]
      invariant forall yy, xx :: 0 <= yy < grid.Length0 && yy != y && 0 <= xx < grid.Length1 ==>
        grid[yy, xx] == old(grid[yy, xx])
    {
      BeforeStep(g, x, y, IsGround);
      if grid[y, x] != Mountain {
        BeforeBelowTotal(g, x, y, IsGround);
        var paint := if samples[used'] < 0.5 then Ally else Enemy;
        if samples[used' + 1] < coverage {
          grid[y, x] := paint;
        } else {
          grid[y, x] := Empty;
        }
        used' := used' + 2;
      }
    }
    BeforeRowEnd(g, y, IsGround);
  }

  /** Mountains stay, every other cell becomes Ally, Enemy or Empty (so
      Barricades are overwritten); with coverage 0 all of them become Empty,
      with coverage 1 all of them become camps. */
  lemma RandomizedCampsCells(g: seq<seq<Cell>>, samples: seq<real>, coverage: real, x: int, y: int)
    requires InGrid(g, x, y) && EnoughCampSamples(g, samples)
    requires forall i :: 0 <= i < |samples| ==> 0.0 <= samples[i] < 1.0
    ensures var c := RandomizedCamps(g, samples, coverage)[y][x];
      && (g[y][x] == Mountain <==> c == Mountain)
      && (g[y][x] != Mountain ==> c == Ally || c == Enemy || c == Empty)
      && (g[y][x] != Mountain && coverage == 0.0 ==> c == Empty)
      && (g[y][x] != Mountain && coverage == 1.0 ==> IsCamp(c))
  {
    if g[y][x] != Mountain {
      BeforeBelowTotal(g, x, y, IsGround);
    }
  }

  // ---------------------------------------------------------------------------
  // randomizeTerrain and clearGrid

  /** One cell of randomizeTerrain: a Mountain when the sample is below the coverage, else Empty. */
  function TerrainRoll(sample: real, coverage: real): (c: Cell)
    ensures c == Mountain || c == Empty
    ensures c == Mountain <==> sample < coverage
  {
    if sample < coverage then Mountain else Empty
  }

  /** One sample per cell. */
  predicate EnoughTerrainSamples<T>(g: seq<seq<T>>, samples: seq<real>) {
    CountRows(g, Always) <= |samples|
  }

  function TerrainCell(g: seq<seq<Cell>>, samples: seq<real>, coverage: real, x: int, y: int): Cell
    requires InGrid(g, x, y) && EnoughTerrainSamples(g, samples)
  {
    var k := Before(g, x, y, Always);
    assert k < |samples| by { BeforeBelowTotal(g, x, y, Always); }
    TerrainRoll(samples[k], coverage)
  }

  function RandomizedTerrain(g: seq<seq<Cell>>, samples: seq<real>, coverage: real): (r: seq<seq<Cell>>)
    requires EnoughTerrainSamples(g, samples)
    ensures |r| == |g| && forall y :: 0 <= y < |g| ==> |r[y]| == |g[y]|
  {
    seq(|g|, y requires 0 <= y < |g| =>
      seq(|g[y]|, x requires 0 <= x < |g[y]| => TerrainCell(g, samples, coverage, x, y)))
  }

  /** randomizeTerrain: every cell draws one sample, in scan order. */
  method RandomizeTerrain(grid: array2<Cell>, coverage: real, samples: seq<real>) returns (used: nat)
    requires EnoughTerrainSamples(Snapshot(grid), samples)
    modifies grid
    ensures used == CountRows(old(Snapshot(grid)), Always)
    ensures Snapshot(grid) == RandomizedTerrain(old(Snapshot(grid)), samples, coverage)
  {
    ghost var g := Snapshot(grid);
    used := 0;
    for y := 0 to grid.Length0
      invariant used == CountRows(g[..y], Always)
      invariant forall yy, xx :: 0 <= yy < grid.Length0 && 0 <= xx < grid.Length1 ==>
        grid[yy, xx] == if yy < y then TerrainCell(g, samples, coverage, xx, yy) else g[yy][xx]
    {
      used := RandomizeTerrainRow(grid, g, coverage, samples, y, used);
    }
    ScanComplete(g, Always);
    SnapshotIs(grid, RandomizedTerrain(g, samples, coverage));
  }

  /** Row `y` of randomizeTerrain, drawing from sample `used` on. */
  method RandomizeTerrainRow(grid: array2<Cell>, ghost g: seq<seq<Cell>>, coverage: real, samples: seq<real>, y: int, used: nat)
    returns (used': nat)
    requires 0 <= y < grid.Length0 && |g| == grid.Length0 && forall r :: 0 <= r < |g| ==> |g[r]| == grid.Length1
    requires EnoughTerrainSamples(g, samples) && used == CountRows(g[..y], Always)
    modifies grid
    ensures used' == CountRows(g[..y + 1], Always)
    ensures forall xx :: 0 <= xx < grid.Length1 ==> grid[y, xx] == TerrainCell(g, samples, coverage, xx, y)
    ensures forall yy, xx :: 0 <= yy < grid.Length0 && yy != y && 0 <= xx < grid.Length1 ==>
      grid[yy, xx] == old(grid[yy, xx])
  {
    used' := used;
    for x := 0 to grid.Length1
      invariant used' == Before(g, x, y, Always)
      invariant forall xx :: 0 <= xx < x ==> grid[y, xx] == TerrainCell(g, samples, coverage, xx, y)
      invariant forall yy, xx :: 0 <= yy < grid.Length0 && yy != y && 0 <= xx < grid.Length1 ==>
        grid[yy, xx] == old(grid[yy, xx])
    {
      TerrainStep(g, samples, coverage, x, y);
      if samples[used'] < coverage {
        grid[y, x] := Mountain;
      } else {
        grid[y, x] := Empty;
      }
      used' := used' + 1;
    }
    BeforeRowEnd(g, y, Always);
  }

  /** The cell at (x, y) draws the next sample of the scan. */
  lemma TerrainStep(g: seq<seq<Cell>>, samples: seq<real>, coverage: real, x: int, y: int)
    requires InGrid(g, x, y) && EnoughTerrainSamples(g, samples)
    ensures Before(g, x + 1, y, Always) == Before(g, x, y, Always) + 1
    ensures Before(g, x, y, Always) < |samples|
    ensures TerrainCell(g, samples, coverage, x, y) == TerrainRoll(samples[Before(g, x, y, Always)], coverage)
  {
    BeforeStep(g, x, y, Always);
    BeforeBelowTotal(g, x, y, Always);
  }

  /** After randomizeTerrain every cell is Mountain or Empty, whatever it was;
      coverage 0 gives all Empty and coverage 1 all Mountain. */
  lemma RandomizedTerrainCells(g: seq<seq<Cell>>, samples: seq<real>, coverage: real, x: int, y: int)
    requires InGrid(g, x, y) && EnoughTerrainSamples(g, samples)
    requires forall i :: 0 <= i < |samples| ==> 0.0 <= samples[i] < 1.0
    ensures var c := RandomizedTerrain(g, samples, coverage)[y][x];
      && (c == Mountain || c == Empty)
      && (coverage == 0.0 ==> c == Empty)
      && (coverage == 1.0 ==> c == Mountain)
  {
    BeforeBelowTotal(g, x, y, Always);
  }

  /** The grid with every cell Empty and the same shape. */
  function Cleared(g: seq<seq<Cell>>): (r: seq<seq<Cell>>)
    ensures |r| == |g| && forall y :: 0 <= y < |g| ==> |r[y]| == |g[y]|
  {
    seq(|g|, y requires 0 <= y < |g| => seq(|g[y]|, _ => Empty))
  }

  /** clearGrid. */
  method ClearGrid(grid: array2<Cell>)
    modifies grid
    ensures Snapshot(grid) == Cleared(old(Snapshot(grid)))
  {
    ghost var g := Snapshot(grid);
    for y := 0 to grid.Length0
      invariant forall yy, xx :: 0 <= yy < grid.Length0 && 0 <= xx < grid.Length1 ==>
        grid[yy, xx] == if yy < y then Empty else g[yy][xx]
    {
      for x := 0 to grid.Length1
        invariant forall yy, xx :: 0 <= yy < grid.Length0 && 0 <= xx < grid.Length1 ==>
          grid[yy, xx] == if Precedes(xx, yy, x, y) then Empty else g[yy][xx]
      {
        grid[y, x] := Empty;
      }
    }
    SnapshotIs(grid, Cleared(g));
  }

  /** Clearing twice is clearing once, and a cleared grid holds only Empty cells. */
  lemma ClearIdempotent(g: seq<seq<Cell>>)
    ensures Cleared(Cleared(g)) == Cleared(g)
    ensures forall y, x :: InGrid(g, x, y) ==> Cleared(g)[y][x] == Empty
  {
  }
}
