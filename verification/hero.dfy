/** The rain background inlined in the landing page: the same column update as the
    standalone component, over a 44-character alphabet of digits, capitals and
    seven symbols (dollar, plus, minus, star, slash, equals, percent). */
module Hero {
  import Rain

  /** The glyph alphabet of the landing page. It has no 'G', and '0' and '1'
      occur twice each. */
  const Chars: string := "01ABCDEFHIJKLMNOPQRSTUVWXYZ0123456789$+-*/=%"

  /** The landing page's `draw` step. Each glyph index is the result of
      `Math.floor(Math.random() * chars.length)`, hence below the alphabet's length. */
  method Draw(drops: seq<int>, height: nat, coins: seq<bool>, glyphIdx: seq<nat>)
    returns (next: seq<int>, draws: seq<Rain.DrawCommand>)
    requires |coins| == |drops| && |glyphIdx| == |drops|
    requires forall i :: 0 <= i < |glyphIdx| ==> glyphIdx[i] < |Chars|
    ensures next == Rain.NextDrops(drops, height, coins)
    ensures draws == Rain.DrawCommands(drops, glyphIdx, Chars)
    ensures |draws| == |drops|
    ensures forall i :: 0 <= i < |drops| ==>
      draws[i].x == i * Rain.FontSize && draws[i].y == drops[i] * Rain.FontSize
    ensures forall i :: 0 <= i < |drops| ==> |draws[i].glyph| == 1 && draws[i].glyph[0] in Chars
    ensures forall i :: 0 <= i < |drops| ==> draws[i].glyph != "G"
  {
    assert 'G' !in Chars;
    next, draws := Rain.Tick(drops, height, coins, glyphIdx, Chars);
  }

  /** The alphabet has 44 entries and no 'G'; '0' sits at positions 0 and 27
      and '1' at positions 1 and 28. */
  lemma CharsShape()
    ensures |Chars| == 44
    ensures 'G' !in Chars
    ensures Chars[0] == Chars[27] == '0' && Chars[1] == Chars[28] == '1'
  {
  }
}
