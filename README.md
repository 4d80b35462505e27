# Flower site: GIF playback and image-grid layout

This project models the two pieces of sequential logic in the flower-site demo. The
rest of the demo sets up a Three.js scene.

**GIF player (`src/parrot.js`).** A decoded animated GIF is a list of frames. Each
frame has an RGBA patch, a placement rectangle (`dims`), a GIF disposal method and a
delay. `displayFrame(i)` paints frame `i` into an off-screen canvas and marks the
canvas texture dirty. `startAnimation` and its inner `animateGIF` form a timer-driven
state machine over `frameIndex`, `isPlaying`, `shouldLoop` and `playbackSpeed`. Each
tick:

- displays the current frame;
- advances the index, wrapping to 0 or stopping at the end;
- schedules the next tick after the frame's delay divided by the speed.

`loadGIF` rejects an empty frame list. Otherwise it:

- creates a transparent canvas the size of the GIF's logical screen;
- sizes a plane to the canvas's aspect ratio, with the longer side 4;
- shows frame 0 and starts playback.

The code departs from the Disposal Method of GIF89a (section 23, Graphic Control
Extension), and the model follows the code:

- Disposal 2 clears the *current* frame's own rectangle just before the patch
  overwrites that same rectangle. It does not clear the previous frame's rectangle.
- Disposal 3 (restore previous) is an empty branch.
- `putImageData` replaces pixels rather than blending them.

So the drawn result never depends on the disposal method. `Compositing.Painted` states
this in its contract, and `Compositing.DisposalIrrelevant` proves it.

**Image grid (`src/main.js`).** `calculatePosition(index, total)` does two things:

- If `POSITION_CONFIG.customPositions[index]` exists, it returns that entry.
- Otherwise it places the index on a centred grid: 3 columns, spacing 3.5.

`updateFlowerPosition` moves one loaded entry of `flowerMeshes`.
`updateAllPositions` moves every entry to its computed position.

Module layout:

- `Compositing` holds the canvas as a value and the drawing done by `displayFrame`.
- `Playback` holds the tick state machine as pure functions, with lemmas about runs of
  ticks.
- `Parrot.GifPlayer` is the module state of `parrot.js` as a class. Its canvas is an
  `array2` of pixels, updated in place. Its methods are proved against the `Compositing`
  and `Playback` functions.
- `Layout` holds `calculatePosition`, and `Layout.FlowerGallery` holds the
  `flowerMeshes` list.
- `Arithmetic` and `Wrappers` are helpers.

The code has a single GIF mesh. It has no instance pool, no scroll-driven spawning, no
stop/reset operation and no snapshot-based restore of earlier frames, so the model has
none.

## Model

| member | source | states |
|---|---|---|
| `Compositing.PatchOffset` | src/parrot.js:139-144 | The function is defined as the row-major `ImageData` offset `(y*width + x)*4` of the patch pixel at column x, row y of the frame's rectangle. Its contract adds that this offset is a multiple of 4 and that all four bytes of the pixel lie inside the patch. |
| `Compositing.Painted` | src/parrot.js:123-144 | Drawing a frame keeps the canvas's shape. Each canvas pixel inside the frame's rectangle becomes the patch pixel at its offset, and each pixel outside the rectangle is unchanged. The contract does not mention the disposal method. |
| `Compositing.DisposalIrrelevant` | src/parrot.js:123-134 | The canvas after drawing a frame is the same whatever its disposal type (2, 3 or any other). |
| `Compositing.PaintedIdempotent` | src/parrot.js:120-144 | Drawing the same frame twice gives the same canvas as drawing it once. |
| `Compositing.DisplayedIdempotent` | src/parrot.js:117-148 | `displayFrame(i)`, modelled as `Compositing.Displayed`, leaves the same canvas when run twice in a row as when run once, for any index. |
| `Compositing.ClearAllIsBlank` | src/parrot.js:78-79 | Clearing the whole canvas leaves it fully transparent, whatever it held before. |
| `Playback.FrameDelay` | src/parrot.js:176 | A frame's own non-zero delay is the delay used. A delay that is 0 or absent becomes 100 ms. The result is never zero. |
| `Playback.Tick` | src/parrot.js:156-180 | A tick while not playing does nothing. While playing, it displays `frameIndex` and keeps the index in [0, n). It schedules a delay exactly when playback continues, and that delay is the displayed frame's delay divided by `playbackSpeed`. A continuing clock moves to `(frameIndex + 1) mod n`. A playing clock keeps playing exactly when it loops or its index is not the last one, so a one-shot clock stops after its last frame. A clock that stops has its index one past the end. |
| `Playback.Start` | src/parrot.js:151-154 | `startAnimation` changes nothing when already playing or when there are no frames. Otherwise it is a tick of the clock with `isPlaying` set, displaying the current index. The clock invariant holds afterwards. |
| `Playback.Run` | src/parrot.js:163-173 | Any number of ticks keeps the clock invariant: a playing clock's index is in [0, n). Ticks never change the speed or the loop flag. |
| `Playback.Visited` | src/parrot.js:156-169 | The frames displayed by k ticks, in order: at most one per tick, and every one is a valid frame index, so `displayFrame` is never called out of range from a consistent clock. |
| `Playback.LoopingCycle` | src/parrot.js:163-173 | With looping on, a playing clock is still playing after k ticks, at index `(i + k) mod n`. The frames it displayed are `i, i+1, …` mod n, in order. |
| `Playback.LoopingVisitsEachFrameOnce` | src/parrot.js:163-169 | With looping on, a clock started at frame 0 displays 0, 1, …, n-1 in its first n ticks and is back at frame 0. |
| `Playback.OneShotPlaysThrough` | src/parrot.js:163-172 | With looping off, a clock started at frame 0 displays 0, 1, …, k-1 in its first k ticks. After the n-th tick it has stopped, with the index at n. |
| `Playback.StoppedStaysStopped` | src/parrot.js:157 | Once the clock has stopped, further ticks change nothing and display nothing. |
| `Parrot.PlaneSize` | src/parrot.js:94-98 | The plane's longer side is 4, its width/height ratio equals the canvas's, and both sides are non-negative. |
| `Parrot.GifPlayer.constructor` | src/parrot.js:36-45 | Initial state: no frames, no mesh, index 0, not playing, speed 1, looping on. |
| `Parrot.GifPlayer.ClearRect` | src/parrot.js:125-130 | The canvas afterwards is the old canvas with the rectangle's pixels made transparent. |
| `Parrot.GifPlayer.PutImageData` | src/parrot.js:139-144 | The canvas afterwards is the old canvas with the frame's patch put into its rectangle, clipped to the canvas. |
| `Parrot.GifPlayer.DisplayFrame` | src/parrot.js:117-148 | The canvas becomes `Compositing.Displayed` of the old canvas, the frames and the index. The dirty flag is set exactly when the index is valid. An index < 0 or >= n changes no pixel and not the flag. |
| `Parrot.GifPlayer.AnimateGif` | src/parrot.js:156-180 | The clock fields, the returned delay, the canvas and the dirty flag are those of `Playback.Tick` applied to the old state. |
| `Parrot.GifPlayer.StartAnimation` | src/parrot.js:151-183 | Same as `AnimateGif`, for `Playback.Start`. The player invariant is kept. |
| `Parrot.GifPlayer.CreateCanvas` | src/parrot.js:73-79 | A fresh canvas of the logical-screen size, fully transparent. |
| `Parrot.GifPlayer.PlayFromStart` | src/parrot.js:104-109 | Resetting the index to 0, showing frame 0 and calling `startAnimation` leaves the canvas as frame 0 drawn once over the old canvas, marks the texture dirty, keeps the player invariant, and leaves the clock and the delay of `startAnimation` from index 0. |
| `Parrot.GifPlayer.LoadGif` | src/parrot.js:57-109 | An empty frame list stores the empty list and changes nothing else. Otherwise the player holds the frames and a fresh canvas of the logical-screen size. The canvas shows frame 0 drawn over a transparent canvas, the texture is dirty, the mesh is on the scene, and the clock is `startAnimation` from index 0. The result carries the plane size and the first scheduled delay. |
| `Layout.CeilDiv` | src/main.js:72 | `Math.ceil(total / cols)`: the least q with `q*cols >= total`. |
| `Layout.GridCell` | src/main.js:69-70 | `col = index mod cols` lies in [0, cols) and `row*cols + col = index`. |
| `Layout.Position` | src/main.js:60-79 | When a custom entry exists for the index, the result is its x and y verbatim and its z, or 0 when z is missing. Otherwise z is 0. |
| `Layout.GridCellUnique` | src/main.js:68-70 | The row and column are the only pair with `col < cols` and `row*cols + col = index`. |
| `Layout.ColumnsMirror` | src/main.js:71-77 | In the grid branch, column 0 and column cols-1 of a row have opposite x values, the same y, and z = 0. |
| `Layout.RowsMirror` | src/main.js:72-76 | In the grid branch, the first row and the last row, `ceil(total/cols) - 1`, have opposite y values in the same column. |
| `Layout.GridPoint` | src/main.js:67-78 | In the grid branch, the cell at row `r` and column `c` of the index sits at `x = c*spacing - offsetX` and `y = -r*spacing + offsetY`, with z = 0. Here `offsetX = (cols-1)*spacing/2` and `offsetY = (ceil(total/cols)-1)*spacing/2`. |
| `Layout.GridStepRight` | src/main.js:71-77 | In the grid branch, the next cell of a row is `spacing` further right, at the same height. |
| `Layout.GridStepDown` | src/main.js:68-77 | In the grid branch, the cell one row down, at `index + cols`, is `spacing` lower, in the same column. |
| `Layout.GridSpacing` | src/main.js:67-78 | Neighbouring grid cells are exactly `spacing` apart, rightwards within a row and downwards within a column. With `ColumnsMirror` and `RowsMirror` this fixes a centred, evenly spaced grid. |
| `Layout.ShippedPositionsAreCustom` | src/main.js:41-65 | With the shipped table, each of the nine images, indices 0 to 8, takes its custom position verbatim. |
| `Layout.MovedTo` | src/main.js:141-145 | Moving an entry sets its mesh position. It sets `initialPosition` to the same point exactly when the entry has one. |
| `Layout.FlowerGallery.constructor` | src/main.js:114-119 | The list holds the entries pushed by the image loads. |
| `Layout.FlowerGallery.UpdateFlowerPosition` | src/main.js:139-149 | A loaded index moves that entry and no other, and the list length is kept. Any other index changes nothing and returns a warning. |
| `Layout.FlowerGallery.UpdateAllPositions` | src/main.js:152-160 | Every entry k moves to `Layout.CalculatePosition(k, 9)`, which is `calculatePosition` with the shipped `POSITION_CONFIG`. The list length is unchanged. |

## Left out

- Network and decoding: `fetch`, `parseGIF` and `decompressFrames`. The decoded frames and the logical-screen size are inputs to `LoadGif`. The HTTP error path is not modelled.
- `setTimeout` and the `animationId` handle. A tick returns the delay of the next tick instead. Time and cancellation are not modelled.
- Library plumbing: the Three.js scene, camera, renderer, OrbitControls, lights, resize listeners and the `requestAnimationFrame` render loops.
- Texture, material and geometry objects. The texture is only its `needsUpdate` flag, and the GIF mesh is only an on-scene flag. Three.js clears `needsUpdate` after upload, and that is not modelled.
- `distortGeometry` in main.js. It is floating-point sin/cos vertex displacement.
- The Promise-based image loading in main.js and the order in which it fills `flowerMeshes`. The per-image plane sizing in `loadFlowerImage` is left out too. `FlowerGallery` starts from the filled list.
- Parrot.GifPlayer.LoadGif: it requires that no frames are loaded yet, because the code calls `loadGIF` once, at start-up. A second load during playback is not modelled. That load would replace the frame list under a running timer. It also requires a logical-screen height above 0, for the reason given on the `Parrot.PlaneSize` line below. With a zero-height screen the code still creates the canvas, shows frame 0 and starts playback, and the model does not cover that case.
- Parrot.PlaneSize: it requires a canvas height above 0. A zero-height logical screen makes the JavaScript aspect ratio Infinity or NaN.
- Compositing.WellFormed: every frame has a non-empty rectangle and a patch of exactly 4·width·height bytes. The decoder always produces such frames. `new ImageData` would throw on any other frame, and that exception is not modelled.
- A real canvas stores premultiplied alpha and may round the colour of semi-transparent pixels. The model stores pixels exactly.
- JavaScript numbers are doubles. The model uses exact reals for positions and delays and unbounded naturals for indices, so NaN, Infinity and rounding are not modelled. Neither is the `|| 0` / `|| 100` fallback for a NaN value.
- Layout.FlowerGallery.UpdateFlowerPosition: the index is an integer. In JavaScript a non-integer index finds no entry, and a string index is looked up by its name, so `"1"` finds entry 1. Neither case is modelled.
