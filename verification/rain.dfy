/** The "matrix rain" column update shared by both rain backgrounds of the site.

The effect keeps one integer per glyph column, the row of the glyph the column
draws next (`drops`). Mounting fills it with ones; every timer tick draws one
glyph per column at that row, sends a column that has passed the bottom edge back
to the top when a random test succeeds, and moves every column down one row.

The random choices are parameters: `coins[i]` is the outcome of the reset test
(`Math.random() > 0.975`) for column `i`, and `glyphIdx[i]` is the alphabet index
`Math.floor(Math.random() * alphabet.length)` for column `i`.
 */
module Rain {

  /** Pixel size of one glyph cell. */
  const FontSize: nat := 16

  /** One `fillText` call: `glyph` drawn at pixel position (`x`, `y`). */
  datatype DrawCommand = DrawCommand(glyph: string, x: int, y: int)

  /** Every column is at row 1 or below: the invariant of a mounted effect. */
  predicate Positive(drops: seq<int>) {
    forall i :: 0 <= i < |drops| ==> drops[i] >= 1
  }

  /** The mount step: `floor(width / FontSize)` columns, all at row 1. */
  function Init(width: nat): (drops: seq<int>)
    ensures |drops| * FontSize <= width < (|drops| + 1) * FontSize
    ensures forall i :: 0 <= i < |drops| ==> drops[i] == 1
  {
    seq(width / FontSize, _ => 1)
  }

  /** JavaScript's `charAt`: the one-character string at index `k`, or the
      empty string when `k` is past the end (in particular for an empty alphabet). */
  function CharAt(s: string, k: nat): (g: string)
    ensures |g| <= 1
    ensures g != "" <==> k < |s|
    ensures g != "" ==> g[0] == s[k] && g[0] in s
  {
    if k < |s| then [s[k]] else ""
  }

  /** The reset guard: the drop is below the bottom edge and the random test succeeded. */
  predicate Resets(drop: int, height: nat, coin: bool) {
    drop * FontSize > height && coin
  }

  /** One column's update: back to 0 when the guard holds, then one row down. */
  function Step(drop: int, height: nat, coin: bool): (d: int)
    ensures Resets(drop, height, coin) ==> d == 1
    ensures d == drop + 1 <==> !Resets(drop, height, coin)
    ensures drop * FontSize <= height ==> d == drop + 1
  {
    (if Resets(drop, height, coin) then 0 else drop) + 1
  }

  /** The rows after one tick, column by column. */
  function NextDrops(drops: seq<int>, height: nat, coins: seq<bool>): (next: seq<int>)
    requires |coins| == |drops|
    ensures |next| == |drops|
    ensures forall i :: 0 <= i < |drops| && Resets(drops[i], height, coins[i]) ==> next[i] == 1
    ensures forall i :: 0 <= i < |drops| && !Resets(drops[i], height, coins[i]) ==> next[i] == drops[i] + 1
    ensures forall i :: 0 <= i < |drops| && drops[i] * FontSize <= height ==> next[i] == drops[i] + 1
    ensures Positive(drops) ==> Positive(next)
  {
    seq(|drops|, i requires 0 <= i < |drops| => Step(drops[i], height, coins[i]))
  }

  /** The glyphs one tick draws: exactly one per column, at the column's
      position before the update. */
  function DrawCommands(drops: seq<int>, glyphIdx: seq<nat>, alphabet: string): (draws: seq<DrawCommand>)
    requires |glyphIdx| == |drops|
    ensures |draws| == |drops|
    ensures forall i :: 0 <= i < |drops| ==> draws[i].x == i * FontSize && draws[i].y == drops[i] * FontSize
    ensures forall i :: 0 <= i < |drops| && glyphIdx[i] < |alphabet| ==> draws[i].glyph == [alphabet[glyphIdx[i]]]
    ensures forall i :: 0 <= i < |drops| && glyphIdx[i] >= |alphabet| ==> draws[i].glyph == ""
  {
    seq(|drops|, i requires 0 <= i < |drops| =>
      DrawCommand(CharAt(alphabet, glyphIdx[i]), i * FontSize, drops[i] * FontSize))
  }

  /** The `draw` loop: the state is copied into an array that the loop updates
      in place, column by column, recording each glyph before the column moves. */
  method Tick(drops: seq<int>, height: nat, coins: seq<bool>, glyphIdx: seq<nat>, alphabet: string)
    returns (next: seq<int>, draws: seq<DrawCommand>)
    requires |coins| == |drops| && |glyphIdx| == |drops|
    ensures next == NextDrops(drops, height, coins)
    ensures draws == DrawCommands(drops, glyphIdx, alphabet)
  {
    var a := new int[|drops|](i requires 0 <= i < |drops| => drops[i]);
    draws := [];
    for i := 0 to a.Length
      invariant |draws| == i
      invariant forall j :: 0 <= j < i ==> a[j] == Step(drops[j], height, coins[j])
      invariant forall j :: i <= j < a.Length ==> a[j] == drops[j]
      invariant forall j :: 0 <= j < i ==>
        draws[j] == DrawCommand(CharAt(alphabet, glyphIdx[j]), j * FontSize, drops[j] * FontSize)
    {
      var text := CharAt(alphabet, glyphIdx[i]);
      draws := draws + [DrawCommand(text, i * FontSize, a[i] * FontSize)];
      if a[i] * FontSize > height && coins[i] {
        a[i] := 0;
      }
      a[i] := a[i] + 1;
    }
    next := a[..];
  }

  /** Whether every tick's reset outcomes cover exactly the columns of `drops`. */
  predicate WellShaped(coins: seq<seq<bool>>, columns: nat) {
    forall k :: 0 <= k < |coins| ==> |coins[k]| == columns
  }

  /** The rows after one tick per element of `coins`, as the interval timer
      calls `draw` again and again. */
  function Run(drops: seq<int>, height: nat, coins: seq<seq<bool>>): (final: seq<int>)
    requires WellShaped(coins, |drops|)
    ensures |final| == |drops|
    decreases |coins|
  {
    if coins == [] then drops
    else Run(NextDrops(drops, height, coins[0]), height, coins[1..])
  }

  /** Every column stays at row 1 or below however many ticks run. */
  lemma {:induction false} RunStaysPositive(drops: seq<int>, height: nat, coins: seq<seq<bool>>)
    requires WellShaped(coins, |drops|)
    requires Positive(drops)
    ensures Positive(Run(drops, height, coins))
    decreases |coins|
  {
    if coins != [] {
      RunStaysPositive(NextDrops(drops, height, coins[0]), height, coins[1..]);
    }
  }

  /** From mounting on, the effect keeps `floor(width / FontSize)` columns, all at row 1 or below. */
  lemma MountedRunStaysPositive(width: nat, height: nat, coins: seq<seq<bool>>)
    requires WellShaped(coins, width / FontSize)
    ensures |Run(Init(width), height, coins)| == width / FontSize
    ensures Positive(Run(Init(width), height, coins))
  {
    RunStaysPositive(Init(width), height, coins);
  }

  /** A column whose reset never happens moves down exactly one row per tick.
      The reset test may succeed on ticks where the column is still inside the
      canvas, since the guard ignores it there; it only has to fail on the ticks
      where the column is past the bottom edge. */
  lemma {:induction false} RunWithoutResetAdvances(drops: seq<int>, height: nat, coins: seq<seq<bool>>, c: nat)
    requires WellShaped(coins, |drops|)
    requires c < |drops|
    requires forall k :: 0 <= k < |coins| && coins[k][c] ==> (drops[c] + k) * FontSize <= height
    ensures Run(drops, height, coins)[c] == drops[c] + |coins|
    decreases |coins|
  {
    if coins != [] {
      var next := NextDrops(drops, height, coins[0]);
      assert next[c] == drops[c] + 1 by {
        assert coins[0][c] ==> drops[c] * FontSize <= height;
      }
      forall k | 0 <= k < |coins[1..]| && coins[1..][k][c]
        ensures (next[c] + k) * FontSize <= height
      {
        assert coins[k + 1][c];
      }
      RunWithoutResetAdvances(next, height, coins[1..], c);
    }
  }

  /** A column that stays inside the canvas for the whole run is never reset,
      whatever the random tests say, and moves down one row per tick. */
  lemma RunInsideCanvasAdvances(drops: seq<int>, height: nat, coins: seq<seq<bool>>, c: nat)
    requires WellShaped(coins, |drops|)
    requires c < |drops|
    requires (drops[c] + |coins| - 1) * FontSize <= height
    ensures Run(drops, height, coins)[c] == drops[c] + |coins|
  {
    RunWithoutResetAdvances(drops, height, coins, c);
  }

  /** A drop that falls through the canvas and then fails the reset test below
      it: two ticks from row 1 on a 16-pixel canvas end at row 3, whatever the
      first tick's test said. */
  lemma FallThroughExample(firstCoin: bool)
    ensures Run([1], 16, [[firstCoin], [false]]) == [3]
  {
    RunWithoutResetAdvances([1], 16, [[firstCoin], [false]], 0);
  }

  /** Every column lies between the top row and the first row below the canvas. */
  predicate InBand(drops: seq<int>, height: nat) {
    forall i :: 0 <= i < |drops| ==> 1 <= drops[i] <= height / FontSize + 1
  }

  /** Every reset test succeeds. */
  predicate AllForced(coins: seq<seq<bool>>, columns: nat)
    requires WellShaped(coins, columns)
  {
    forall k, i :: 0 <= k < |coins| && 0 <= i < columns ==> coins[k][i]
  }

  /** When every reset test succeeds, no column ever gets more than one row
      past the bottom edge: it is sent back on the tick it first passes it. */
  lemma {:induction false} ForcedResetStaysInBand(drops: seq<int>, height: nat, coins: seq<seq<bool>>)
    requires WellShaped(coins, |drops|)
    requires AllForced(coins, |drops|)
    requires InBand(drops, height)
    ensures InBand(Run(drops, height, coins), height)
    decreases |coins|
  {
    if coins != [] {
      var next := NextDrops(drops, height, coins[0]);
      forall i | 0 <= i < |drops|
        ensures 1 <= next[i] <= height / FontSize + 1
      {
        assert coins[0][i];
        if drops[i] * FontSize <= height {
          assert drops[i] <= height / FontSize;
        }
      }
      ForcedResetStaysInBand(next, height, coins[1..]);
    }
  }

  /** When column `c`'s reset test always succeeds, a drop at row `d` inside the
      band is back at row 1 after exactly `height / FontSize + 2 - d` ticks: it
      moves down to the first row past the bottom edge and is reset on that tick. */
  lemma {:induction false} ForcedResetReturnsToTop(drops: seq<int>, height: nat, coins: seq<seq<bool>>, c: nat)
    requires WellShaped(coins, |drops|)
    requires c < |drops|
    requires 1 <= drops[c] <= height / FontSize + 1
    requires |coins| == height / FontSize + 2 - drops[c]
    requires forall k :: 0 <= k < |coins| ==> coins[k][c]
    ensures Run(drops, height, coins)[c] == 1
    decreases |coins|
  {
    var next := NextDrops(drops, height, coins[0]);
    if drops[c] == height / FontSize + 1 {
      assert drops[c] * FontSize > height;
      assert coins[1..] == [];
    } else {
      assert drops[c] * FontSize <= height;
      ForcedResetReturnsToTop(next, height, coins[1..], c);
    }
  }

  /** Columns are independent: a tick over two side-by-side groups of columns
      is the two groups' ticks side by side. */
  lemma TickSplits(left: seq<int>, right: seq<int>, height: nat, leftCoins: seq<bool>, rightCoins: seq<bool>)
    requires |leftCoins| == |left| && |rightCoins| == |right|
    ensures NextDrops(left + right, height, leftCoins + rightCoins)
         == NextDrops(left, height, leftCoins) + NextDrops(right, height, rightCoins)
  {
  }

  /** A canvas narrower than one glyph has no columns: mounting yields no state,
      no tick draws anything, and no tick changes anything. */
  lemma {:induction false} NarrowCanvasIsInert(width: nat, height: nat, coins: seq<seq<bool>>, alphabet: string)
    requires width < FontSize
    requires WellShaped(coins, 0)
    ensures Init(width) == []
    ensures DrawCommands(Init(width), [], alphabet) == []
    ensures Run(Init(width), height, coins) == []
  {
  }

  /** The first tick after mounting on a canvas at least one glyph tall draws
      every glyph on row 1 (y = FontSize) and moves every column to row 2. */
  lemma FirstTick(width: nat, height: nat, coins: seq<bool>, glyphIdx: seq<nat>, alphabet: string)
    requires height >= FontSize
    requires |coins| == |Init(width)| && |glyphIdx| == |Init(width)|
    ensures forall i :: 0 <= i < |coins| ==> NextDrops(Init(width), height, coins)[i] == 2
    ensures forall i :: 0 <= i < |coins| ==>
      DrawCommands(Init(width), glyphIdx, alphabet)[i] == DrawCommand(CharAt(alphabet, glyphIdx[i]), i * FontSize, FontSize)
  {
  }

  /** Mounting on a 320 by 160 pixel canvas gives 20 columns; after the first
      tick each has drawn one glyph on row 1 and moved to row 2. */
  lemma MountAndTickExample(coins: seq<bool>, glyphIdx: seq<nat>, alphabet: string)
    requires |coins| == 20 && |glyphIdx| == 20
    ensures |Init(320)| == 20
    ensures NextDrops(Init(320), 160, coins) == seq(20, _ => 2)
    ensures forall i :: 0 <= i < 20 ==> DrawCommands(Init(320), glyphIdx, alphabet)[i].y == 16
  {
  }
}
