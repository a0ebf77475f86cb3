/** The standalone rain background component: the shared column update over its
    66-character alphabet of capitals, digits and punctuation. */
module MatrixBackground {
  import Rain

  /** The glyph alphabet of the standalone component. */
  const Characters: string := "ABCDEFGHIJKLMNOPQRSTUVWXYZ0123456789$+-*/=%\"'#&_(),.;:?!\\|{}<>[]^~"

  /** The component's `draw` step. Each glyph index is the result of
      `Math.floor(Math.random() * Characters.length)`, hence below the alphabet's length. */
  method Draw(drops: seq<int>, height: nat, coins: seq<bool>, glyphIdx: seq<nat>)
    returns (next: seq<int>, draws: seq<Rain.DrawCommand>)
    requires |coins| == |drops| && |glyphIdx| == |drops|
    requires forall i :: 0 <= i < |glyphIdx| ==> glyphIdx[i] < |Characters|
    ensures next == Rain.NextDrops(drops, height, coins)
    ensures draws == Rain.DrawCommands(drops, glyphIdx, Characters)
    ensures |draws| == |drops|
    ensures forall i :: 0 <= i < |drops| ==>
      draws[i].x == i * Rain.FontSize && draws[i].y == drops[i] * Rain.FontSize
    ensures forall i :: 0 <= i < |drops| ==> |draws[i].glyph| == 1 && draws[i].glyph[0] in Characters
  {
    next, draws := Rain.Tick(drops, height, coins, glyphIdx, Characters);
  }

  /** The alphabet has 66 entries: 26 capitals, 10 digits and 30 symbols, among
      them the double quote, the single quote and the backslash. */
  lemma CharactersShape()
    ensures |Characters| == 66
    ensures '"' in Characters && '\'' in Characters && '\\' in Characters
  {
  }
}
