# Matrix rain column update

This project models the "matrix rain" background of a studio website: a canvas
behind the page on which columns of glyphs fall. The effect keeps an array
`drops` with one integer per glyph column, the row at which that column draws
next. On mount, `drops` gets `floor(width / 16)` entries, all 1 (the font size
is 16 pixels). On every timer tick, column `i` draws one random glyph at pixel
position `(i * 16, drops[i] * 16)`. If that row lies below the canvas height
and a random test succeeds (`Math.random() > 0.975`), the column goes back to 0.
Then every column moves down one row.

The same code appears twice: as the standalone component
`src/components/MatrixBackground.jsx` and inlined in `src/pages/Hero.jsx`. The
two copies differ only in their glyph alphabet and their overlay opacity.

- `rain.dfy`, module `Rain`: the shared algorithm. It is generic over the
  alphabet. `Init` is the mount step. `NextDrops` and `DrawCommands` are the
  per-column reference definitions of one tick. `Tick` is the imperative `for`
  loop over an array, proved equal to them. `Run` applies many ticks. The lemmas
  relate mounting, single ticks and runs of ticks.
- `matrix_background.dfy`, module `MatrixBackground`: the standalone
  component's alphabet and its `draw` step.
- `hero.dfy`, module `Hero`: the landing page's alphabet and its `draw` step.

Randomness is turned into parameters. `coins[i]` is the outcome of the reset test
for column `i` on one tick. `glyphIdx[i]` is that column's alphabet index,
`Math.floor(Math.random() * alphabet.length)`. A run of ticks takes one `coins`
sequence per tick. In the source the reset test is only evaluated when the drop
is already below the canvas; in the model `coins[i]` is ignored in the other
case. The generic `Rain` functions accept any index and follow JavaScript's
`charAt`, which gives the empty string for an index past the end, including for
an empty alphabet. The component methods require indices below their alphabet's
length, which is the range `Math.random()` guarantees.

The model follows the code on these points:
- Drop positions are integers. The code only ever stores 1, 0 and increments.
- A reset stores 0, but the increment follows in the same tick. The value
  observed after a reset tick is therefore 1.
- With the reset test forced to succeed, a column is reset on the same tick
  that draws its glyph past the bottom edge.
- There are no error conditions. A missing canvas, an empty alphabet or a zero
  width are not rejected. A zero or narrow width simply yields no columns.

## Model

| member | source | states |
|---|---|---|
| Rain.Init | src/components/MatrixBackground.jsx:13-15 | Mounting yields `floor(width / 16)` columns, meaning `n * 16 <= width < (n + 1) * 16`, and every column is at row 1 |
| Rain.CharAt | src/components/MatrixBackground.jsx:24 | JavaScript's `charAt`: at most one character; non-empty exactly when the index is in range, and then the alphabet character at that index |
| Rain.Step | src/components/MatrixBackground.jsx:26-27 | One column's update: 1 when the reset guard `Resets` holds (row below the canvas and reset test true), otherwise exactly one row down; a column inside the canvas always moves down one row |
| Rain.NextDrops | src/components/MatrixBackground.jsx:23-27 | A tick keeps the number of columns. A column whose guard `Resets` holds (row below the canvas and reset test true) is at row 1 afterwards. Every other column moves down exactly one row. A column still inside the canvas is never reset. All rows stay at least 1 |
| Rain.DrawCommands | src/components/MatrixBackground.jsx:23-25 | A tick draws exactly one glyph per column, at `x = i * 16` and `y = drops[i] * 16` using the row before the update. The glyph is `charAt` of the alphabet at the chosen index: the character at that index when it is in range, and empty otherwise |
| Rain.Tick | src/components/MatrixBackground.jsx:23-28 | The in-place array loop, which draws then conditionally resets then increments each column, produces exactly the per-column reference results for rows and draw commands |
| Rain.Run | src/components/MatrixBackground.jsx:31 | Any number of repeated ticks keeps the number of columns |
| Rain.RunStaysPositive | src/components/MatrixBackground.jsx:26-27 | If every column starts at row 1 or below, it stays there after any sequence of ticks |
| Rain.MountedRunStaysPositive | src/pages/Hero.jsx:82-92 | From mounting on, after any sequence of ticks, there are `floor(width / 16)` columns, all at row 1 or below |
| Rain.RunWithoutResetAdvances | src/components/MatrixBackground.jsx:26-27 | A column that is never reset is at row `d + n` after `n` ticks from row `d`. The reset test may succeed on any tick where the column is still inside the canvas, because the guard ignores it there; it only has to fail on ticks where the column is past the bottom edge |
| Rain.RunInsideCanvasAdvances | src/components/MatrixBackground.jsx:26 | A column that stays inside the canvas throughout `n` ticks is never reset, whatever the random tests say. It ends at row `d + n` |
| Rain.FallThroughExample | src/components/MatrixBackground.jsx:26-27 | On a 16-pixel canvas, a drop at row 1 that falls past the bottom edge and then fails the reset test is at row 3 after two ticks, whatever the first tick's test said |
| Rain.ForcedResetStaysInBand | src/pages/Hero.jsx:91-92 | With every reset test succeeding, every column stays between row 1 and the first row past the bottom edge (`height / 16 + 1`) |
| Rain.ForcedResetReturnsToTop | src/pages/Hero.jsx:91-92 | With column `c`'s reset test always succeeding, a drop at row `d` inside that band is at row 1 again after exactly `height / 16 + 2 - d` ticks. The tick that first draws it past the edge sends it back |
| Rain.TickSplits | src/components/MatrixBackground.jsx:23-28 | Columns are independent. A tick over two adjacent groups of columns equals the two groups' ticks placed side by side |
| Rain.NarrowCanvasIsInert | src/components/MatrixBackground.jsx:14-23 | A canvas narrower than 16 pixels has no columns. No tick draws anything, and no run of ticks changes the state |
| Rain.FirstTick | src/components/MatrixBackground.jsx:15-27 | On a canvas at least 16 pixels tall, the first tick after mounting draws every glyph at `y = 16` and moves every column to row 2 |
| Rain.MountAndTickExample | src/components/MatrixBackground.jsx:13-27 | A 320 by 160 canvas has 20 columns. After one tick, all 20 are at row 2 and every glyph was drawn at `y = 16` |
| MatrixBackground.Draw | src/components/MatrixBackground.jsx:12-28 | The standalone component's tick has the shared row update. Its draw commands are exactly the shared ones over its alphabet: one glyph per column at the pre-update position, the glyph being the alphabet character at the chosen index |
| MatrixBackground.CharactersShape | src/components/MatrixBackground.jsx:12 | The standalone component's alphabet has 66 entries, including the double quote, the single quote and the backslash |
| Hero.Draw | src/pages/Hero.jsx:80-93 | The landing page's tick has the same row update, and its draw commands are exactly the shared ones over its alphabet: the glyph is the alphabet character at the chosen index, drawn at the pre-update position, and it is never "G" |
| Hero.CharsShape | src/pages/Hero.jsx:80 | The landing page's alphabet has 44 entries. It has no 'G', and it holds '0' and '1' twice each |

## Left out

- Canvas painting is not modelled: the translucent black fill at alpha 0.05, the fill colour and the font. Pixel output is host behaviour. The model emits only the `(glyph, x, y)` commands that `fillText` receives.
- `Math.random` is not modelled. Its outcomes are the `coins` and `glyphIdx` parameters. The 0.975 floating-point threshold and the uniformity of the choices are not modelled.
- The `setInterval` / `clearInterval` timer lifecycle (33 ms cadence, cleanup on unmount) is not modelled. It is event-loop plumbing. `Run` stands for the sequence of ticks the timer produces.
- The canvas size is read once at mount and never again, so the model takes `width` and `height` as fixed parameters. Resizing is not handled by the code either.
- The model's integers are unbounded. JavaScript numbers are doubles, but they hold these rows exactly up to 2^53. At 30 ticks per second, no reachable run gets near that limit.
- The model passes `drops` from tick to tick as a sequence value. Inside a tick, `Rain.Tick` updates an array in place, as the source does.
- The canvas overlay opacity (0.07 in one component, 0.05 in the other) is CSS styling and is not modelled.
- Not modelled: the rest of the site, namely the magnetic button and other spring or scroll animations, the navbar menu state, the contact form toggle, project hover state, routing, and the static pages. They are UI layout and animation-library configuration, with no rule to state.
