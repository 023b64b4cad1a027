# raytrayce_r work scheduling, worker pool, texture and render state — a Dafny model

raytrayce_r is a CPU raytracer. It splits an image into units of work, hands
them to a pool of worker threads and writes each finished pixel back into an
RGBA texture. The GUI lets the user choose how the image is split:

- single pixels in random order;
- whole lines or stripes;
- pixels line by line or stripe by stripe;
- tiles, each split again by a nested mode.

This project models that core in Dafny and proves properties of the model:

- `work.dfy` (module `Work`): the four work units (Pixel, Line, Stripe,
  Tile). Each hands out its pixels one at a time with
  `get_next_work_pixel`; `to_sub_work` splits a unit up, and
  `adjust_for_transparency` moves its anchor. Each unit is specified by the
  cells it still has to hand out (`Remaining`). `GetNextWorkPixel` (a loop
  over the tile slots) and `ToSubWork` are methods proved equal to the pure
  transitions `Next` and `SubWork`.
- `generator.dfy` (module `Generator`):
  - the generation modes, and `to_work`, which turns a mode and an image
    size into the list of works, including the tile arithmetic and the axis
    orders;
  - `index_to_tile_axis_order` and `from_gui_mode_tree`;
  - `RaytracingWorkGenerator::generate`, which submits the works to a pool.

  Shuffles are arbitrary permutations, so `to_work` is specified by a
  relation `Generated(mode, w, h, works)`, and the properties are proved for
  every list that satisfies it.
- `workers.dfy` (module `WorkerPool`): the `Workers` pool as a sequential
  state machine. It has a status (`Created -> Running -> Stopped`), a FIFO
  queue of `Close | Work(w)` messages, a FIFO queue of results and a count
  of threads. One turn of a worker thread's loop is `WorkerStep`.
- `texture.dfy` (module `Textures`): the flat RGBA buffer, the four
  coordinate wrapping modes and the index arithmetic. `set_pixel` is an
  in-place method on an array, specified by a function on the buffer's
  contents.
- `raytracer.dfy` (module `Raytracer`): `RaytracerState` and the
  `CPURaytracer` state machine (`new`, start, stop, restart, `update`,
  `get_state`).
- `gui.dfy` (module `Gui`):
  - the GUI's mode tree, whose settings are replaced by defaults when the
    selected index changes (`update_mode_tree`);
  - the index/settings maps;
  - the at-least-one clamps of the editors;
  - `GUIState::default`.
- `seqs.dfy` and `wrappers.dfy`: sequence vocabulary (ranges, maps,
  concatenation, permutations), and `Option`/`Result`.

The model follows the code as written, including its quirks.

- **Border tiles overlap.** A border tile on a tiled axis is
  `tile + dim % tile` wide but starts at `i * tile`, so the last tile ends at
  `dim + tile`. `Generator.TileAxisLayout` and
  `Generator.BorderTileOvershoots` show this.
- **Pixel tiles are not offset.** The `*PixelTile` modes append the
  sub-mode's works without any offset, so every tile repeats the origin
  cells (`Generator.PixelTilesRepeatOrigin`).
- **Mirror wrap can leave the texture.** Mirror wrapping can return the bound
  itself, one past the last coordinate (`Textures.MirrorHitsBound`). Below
  the last row that index lands in the next row's pixel
  (`Textures.MirrorAliasesNextRow`); on the last row, or when `y` wraps to
  the height, it lies past the end of the buffer and indexing panics
  (`Textures.MirrorLeavesBuffer`).
- **`has_work_left` is inverted.** It answers true exactly when the work
  queue is empty.

The code is mid-refactor, so in two places this model picks the evident
reading:

- `to_work` calls `line(y, width, rev)` and `stripe(x, height, rev)` with
  three arguments, but the constructors take four. The model anchors lines
  at `(0, y)` and stripes at `(x, 0)`.
- `from_gui_mode_tree` matches nine settings variants that the GUI's
  four-variant `GUIModeSettings` does not have. The two sides are therefore
  modelled separately:
  - `Generator.ModeTree`/`TreeSettings` hold the variants
    `from_gui_mode_tree` reads;
  - `Gui.GuiModeTree`/`GuiModeSettings` hold the GUI's own.

The model leaves the environment out:

- Colour channels are only copied, so textures take the channel type as a
  type parameter (reals in the raytracer).
- The external worker pool that `generate` and the raytracer use is
  represented by an acceptance function for `add_work` and by the works
  submitted.
- What `collect_finished` returns is a parameter of `Update`.
- The number of CPUs is a parameter of `SpinUp`.

## Model

| member | source | states |
|---|---|---|
| Work.NewPixel | src/raytracing/work/mod.rs:44-52 | a fresh pixel work is valid and has exactly its own cell left |
| Work.NewLine | src/raytracing/work/mod.rs:54-75 | a fresh line has exactly the `width` cells of its run left, left to right or right to left when reversed |
| Work.NewStripe | src/raytracing/work/mod.rs:77-98 | a fresh stripe has exactly the `height` cells of its column run left, top down or bottom up when reversed |
| Work.NewTile | src/raytracing/work/mod.rs:100-113 | a fresh tile has left the cells of its sub-works in order, each moved by the tile's anchor |
| Work.NextRemaining | src/raytracing/work/mod.rs:115-187 | `get_next_work_pixel` returns None exactly when no cell is left; otherwise it returns the first remaining cell and the rest remain; after None nothing remains |
| Work.Next | src/raytracing/work/mod.rs:115-187 | one call of `get_next_work_pixel`, as a value: the cell handed out, if any, and a new state that keeps the work invariant |
| Work.GetNextWorkPixel | src/raytracing/work/mod.rs:115-187 | the in-place method, including its loop over the tile slots, computes exactly the transition `Next` |
| Work.DrainIsRemaining | src/raytracing/work/mod.rs:115-187 | calling `get_next_work_pixel` until None hands out exactly the remaining cells, in order |
| Work.ExhaustedStaysExhausted | src/raytracing/work/mod.rs:124-160 | once a work has answered None it answers None again, and a pixel, line or stripe is left unchanged |
| Work.PixelYieldsOnce | src/raytracing/work/mod.rs:117-123 | a fresh pixel yields its cell once, then None with no further change |
| Work.RunDrains | src/raytracing/work/mod.rs:124-160 | calling `get_next_work_pixel` on a fresh line or stripe until None hands out exactly its run of cells |
| Work.TileNoneWhenEmpty | src/raytracing/work/mod.rs:161-168 | a tile with no slot list, or only cleared slots, answers None |
| Work.TileAsksFirstPending | src/raytracing/work/mod.rs:161-185 | a tile asks its first pending slot and returns the child's cell moved by the tile's anchor, storing the advanced child |
| Work.TileClearsExhaustedChild | src/raytracing/work/mod.rs:161-185 | a child that answers None is cleared and the tile moves on to the next slot |
| Work.DrainTile | src/raytracing/work/mod.rs:161-185 | a tile drains to its pending children's cells in slot order, each moved by the anchor |
| Work.Adjust | src/raytracing/work/mod.rs:239-258 | `adjust_for_transparency` changes only the anchor, by the offset, and moves every remaining cell by that offset |
| Work.CellsOfAdjustAll | src/raytracing/work/mod.rs:221-237 | moving every work of a list moves the list's cells |
| Work.SubWork | src/raytracing/work/mod.rs:189-237 | the split of a work hands out exactly the work's remaining cells, in order |
| Work.ToSubWork | src/raytracing/work/mod.rs:189-237 | the method, with its loops over the cursor and the slots, computes exactly that split |
| Work.DrainToPixels | src/raytracing/work/mod.rs:196-220 | draining a line or stripe with `get_next_work_pixel` until None gives one fresh pixel per remaining cell, in order |
| Work.AdjustChildren | src/raytracing/work/mod.rs:221-237 | the flattened pending children of a tile, each moved by the tile's anchor, in slot order |
| Work.CellsOfFreshPixels | src/raytracing/work/mod.rs:200-220 | fresh pixels made from a list of cells hand out exactly those cells |
| Generator.ToWork | src/raytracing/work/generator.rs:65-443 | the works built by `to_work` (all nine branches, nested loops and shuffles) satisfy the generation relation of the mode |
| Generator.GeneratedValid | src/raytracing/work/generator.rs:65-443 | every generated work is a valid work unit |
| Generator.PixelRandomCoversGrid | src/raytracing/work/generator.rs:71-86 | PixelRandom gives `w*h` fresh pixels whose cells cover every cell of the image exactly once |
| Generator.LineModeRows | src/raytracing/work/generator.rs:87-98 | Line gives one line per row anchored at x = 0, rows in order `0..h` or a shuffle of it, covering the image once |
| Generator.StripeModeColumns | src/raytracing/work/generator.rs:121-132 | Stripe gives one stripe per column anchored at y = 0, columns in order or shuffled, covering the image once |
| Generator.PixelLineRows | src/raytracing/work/generator.rs:99-120 | PixelLine gives `h*w` pixels, each row a contiguous block in x order (descending when reversed), rows in order or shuffled, covering the image once |
| Generator.PixelStripeColumns | src/raytracing/work/generator.rs:133-153 | PixelStripe gives the column-wise analogue |
| Generator.TileAxisLayout | src/raytracing/work/generator.rs:155-169 | tiles per axis are `dim / t` plus one on a border; all but the last are `t` wide; on a border the last tile ends at `dim + t`, otherwise the tiles add up to `dim` |
| Generator.VisitsCoverTiles | src/raytracing/work/generator.rs:171-203 | the tile visiting order visits every tile index exactly once |
| Generator.VisitsInRuns | src/raytracing/work/generator.rs:171-203 | LineFirst visits row by row, each row's tiles in the horizontal order re-drawn per row; StripeFirst visits column by column; the outer order follows the other axis's order |
| Generator.PlanRun | src/raytracing/work/generator.rs:187-203 | run k of the visits is the k-th outer index paired with its own inner order, and that run is Forward, Reverse or a shuffle as the axis order says |
| Generator.ForwardVisitsInGridOrder | src/raytracing/work/generator.rs:171-203 | with both orders Forward, LineFirst visits tiles in row-major order and StripeFirst in column-major order |
| Generator.WrappedTileLayout | src/raytracing/work/generator.rs:154-299 | LineFirstTile and StripeFirstTile emit exactly `hc*vc` Tile works, one per visited tile, at `(i*tw, j*th)`, holding a sub-mode output at that tile's size |
| Generator.PixelTileLayout | src/raytracing/work/generator.rs:300-439 | the PixelTile modes append each tile's sub-mode works as they are, without any tile wrapper or offset |
| Generator.ExactTilingCoversOnce | src/raytracing/work/generator.rs:65-443 | when every tile level divides its image exactly, every generated list covers every cell of the image exactly once |
| Generator.BorderTileOvershoots | src/raytracing/work/generator.rs:158-222 | a 3 x 1 image in 2 x 1 line tiles hands out cell x = 3 and x = 4, past the image |
| Generator.PixelTilesRepeatOrigin | src/raytracing/work/generator.rs:300-371 | a 2 x 1 image in 1 x 1 pixel tiles gives the origin pixel twice and never cell (1, 0) |
| Generator.IndexToTileAxisOrder | src/raytracing/work/generator.rs:553-559 | index 1 is Reverse, index 2 is Random, every other index is Forward |
| Generator.AxisOrderIndexRoundTrip | src/raytracing/work/generator.rs:553-559 | each order's combo index maps back to it; an index maps to an order whose index is itself up to 2, and 0 beyond |
| Generator.FromGuiModeTree | src/raytracing/work/generator.rs:445-551 | defined only when every tiling node has a sub-tree (the source panics otherwise); the mode tiles exactly when the node does, and is well formed exactly when every tile size is non-zero |
| Generator.FromToModeTree | src/raytracing/work/generator.rs:445-551 | every generation mode is the result of some tree |
| Generator.ToFromModeTree | src/raytracing/work/generator.rs:445-551 | a tree with order indices up to 2 and no sub-tree under non-tiling nodes is exactly the tree of the mode built from it |
| Generator.Generate | src/raytracing/work/generator.rs:569-575 | works are submitted in `to_work` order; Ok exactly when all were taken; on Err the next work was refused and nothing after it was submitted |
| WorkerPool.StatusRank | src/workers.rs:15-20 | the lifecycle order Created, Running, Stopped |
| WorkerPool.Workers.Create | src/workers.rs:33-45 | status Created, no threads, empty queues |
| WorkerPool.Workers.SpinUp | src/workers.rs:47-107 | fails and changes nothing unless Created; otherwise spawns the threads, at least one, and is Running; status never moves back |
| WorkerPool.Workers.ShutDown | src/workers.rs:109-123 | fails unless Running; otherwise queues one Close per thread behind all queued work and is Stopped |
| WorkerPool.Workers.AddWork | src/workers.rs:125-134 | fails and changes nothing unless Running; otherwise appends exactly one work message and changes nothing else |
| WorkerPool.Workers.TryReceiveResult | src/workers.rs:140-158 | Ok(None) on an empty result queue; Ok(head) after removing the head |
| WorkerPool.Workers.HasWorkLeft | src/workers.rs:160-162 | true exactly when the work queue is empty, as written |
| WorkerPool.Workers.HasResults | src/workers.rs:164-166 | true exactly when a result is queued |
| WorkerPool.Workers.WorkerStep | src/workers.rs:68-99 | a thread takes the head message; Close ends the thread; Work(w) appends `f(w, context)` to the results; the pool's invariant is kept |
| WorkerPool.Workers.LiveWorkerHasClose | src/workers.rs:109-123 | in a stopped pool, every thread still alive has a Close message queued for it |
| WorkerPool.Workers.DrainedStopMeansAllEnded | src/workers.rs:109-123 | a stopped pool with an empty queue has no thread left alive |
| WorkerPool.CloseCountOfCloses | src/workers.rs:116-119 | shutting down queues exactly one Close per thread |
| Textures.WrappedCoordinate | src/raytracing/texture.rs:110-135 | in range coordinates are kept; None gives nothing exactly when out of range; Clamp gives `bound - 1`; Repeat gives `c % bound < bound`; Mirror gives at most `bound`; all but Mirror stay in range |
| Textures.MirrorHitsBound | src/raytracing/texture.rs:125-133 | Mirror returns the out-of-range `bound` exactly when `c % (2*bound) == bound` |
| Textures.MirrorThreeOfThree | src/raytracing/texture.rs:125-133 | coordinate 3 on bound 3 mirrors to 3 |
| Textures.WrappedCoordinates | src/raytracing/texture.rs:98-103 | both coordinates wrapped, or nothing when either gives nothing |
| Textures.PixelIndexInBounds | src/raytracing/texture.rs:105-107 | for an in-range cell, the index and the three slots after it lie inside the buffer |
| Textures.PixelWindowsDisjoint | src/raytracing/texture.rs:105-107 | distinct in-range cells have disjoint four-slot windows |
| Textures.AddressableUnlessMirror | src/raytracing/texture.rs:51-78 | outside Mirror mode `set_pixel` and `get_pixel` never index out of bounds |
| Textures.MirrorAliasesNextRow | src/raytracing/texture.rs:51-68 | on a 2 x 2 Mirror texture, setting pixel (2, 0) sets pixel (0, 1) |
| Textures.MirrorLeavesBuffer | src/raytracing/texture.rs:51-68 | on a 2 x 2 Mirror texture, pixel (2, 1) wraps to itself and its index is the buffer's length, so `set_pixel` and `get_pixel` index out of bounds there |
| Textures.PaintedSlots | src/raytracing/texture.rs:51-68 | `set_pixel` writes r, g, b, a at the pixel's index and the next three slots, and nothing else; a coordinate that wraps to nothing changes nothing |
| Textures.PixelAfterPaint | src/raytracing/texture.rs:51-78 | `get_pixel` after `set_pixel` at the same cell returns the colour set, or None when the cell wraps to nothing |
| Textures.PaintLeavesOthers | src/raytracing/texture.rs:51-78 | setting a pixel leaves every pixel with a different window as it was |
| Textures.DistinctCellsDistinctWindows | src/raytracing/texture.rs:98-107 | outside Mirror mode, coordinates that wrap to different cells have different windows |
| Textures.PixelAt | src/raytracing/texture.rs:70-78 | `get_pixel` gives None exactly when the coordinates wrap to nothing |
| Textures.Texture.New | src/raytracing/texture.rs:24-37 | a buffer of `4*w*h` slots, each four-slot group being the fill colour |
| Textures.Texture.SetPixel | src/raytracing/texture.rs:51-68 | the in-place write leaves the buffer `Painted` describes |
| Textures.Texture.GetPixel | src/raytracing/texture.rs:70-78 | reads the buffer as `PixelAt` does: None exactly when the coordinates wrap to nothing |
| Textures.Texture.Clear | src/raytracing/raytracer/cpu_raytracer.rs:42 | every slot `i` becomes channel `i % 4` of the colour, so each pixel's four slots hold the colour in channel order |
| Raytracer.UpdatedState | src/raytracing/raytracer/cpu_raytracer.rs:87-118 | only a running render changes: completed grows by the results collected, commissioned is kept, and the state is Finished exactly when completed reaches commissioned |
| Raytracer.UpdatesCompose | src/raytracing/raytracer/cpu_raytracer.rs:90-110 | two updates of a render still running after the first equal one update with all the results |
| Raytracer.FreshRenderFinishes | src/raytracing/raytracer/cpu_raytracer.rs:99-110 | a fresh render finishes exactly with the results reaching the commissioned count |
| Raytracer.PaintAll | src/raytracing/raytracer/cpu_raytracer.rs:94-97 | writing the collected results keeps the buffer's size |
| Raytracer.LastResultShows | src/raytracing/raytracer/cpu_raytracer.rs:94-97 | after `update` the last result's pixel shows that result's colour |
| Raytracer.CPURaytracer.New | src/raytracing/raytracer/cpu_raytracer.rs:20-35 | state Created, no pool, a zeroed Clamp texture of the configured size |
| Raytracer.CPURaytracer.StopRendering | src/raytracing/raytracer/cpu_raytracer.rs:69-72 | whatever the state: no pool and Stopped |
| Raytracer.CPURaytracer.StartRendering | src/raytracing/raytracer/cpu_raytracer.rs:39-67 | Running with `w*h` commissioned and 0 completed, a pool holding the generated works, the texture cleared to opaque black; a running render has a pool |
| Raytracer.CPURaytracer.RestartRendering | src/raytracing/raytracer/cpu_raytracer.rs:74-77 | the same end state as a start |
| Raytracer.CPURaytracer.Update | src/raytracing/raytracer/cpu_raytracer.rs:87-118 | the state becomes `UpdatedState`; while running the texture receives every result in order; otherwise nothing changes |
| Raytracer.CPURaytracer.GetState | src/raytracing/raytracer/cpu_raytracer.rs:128-130 | the current state; in a valid raytracer a Running state always comes with a pool |
| Gui.ModeSettingsToIndex | src/gui.rs:368-375 | PixelRandom, Line, Stripe and Tile have the indices 0, 1, 2 and 3, the order of the mode combo (src/gui.rs:348) |
| Gui.IndexToModeSettings | src/gui.rs:377-406 | the defaults at index i have index i for i up to 3; every larger index gives PixelRandom (index 0) |
| Gui.NewModeDefaults | src/gui.rs:377-402 | Line and Stripe defaults have every flag false; the Tile default is 10 x 10 with all orders 0 and not transparent |
| Gui.IndexOfDefaults | src/gui.rs:368-406 | a mode's index gives defaults of the same mode |
| Gui.UpdatedSettings | src/gui.rs:351-359 | settings matching the selection are kept; otherwise they are the selected mode's defaults, whose index is the selection (up to 3) |
| Gui.UpdateIdempotent | src/gui.rs:351-359 | updating twice equals updating once; a second reset happens only past index 3 and writes the same defaults |
| Gui.GuiModeTree.UpdateModeTree | src/gui.rs:351-359 | the selection is kept; a matching node is untouched; otherwise the settings become the defaults and a fresh PixelRandom leaf sub-tree is present exactly for Tile; a second call would change nothing |
| Gui.IndexToSubTree | src/gui.rs:408-419 | a fresh PixelRandom leaf with selection 0 exactly for index 3, nothing otherwise |
| Gui.AtLeastOne | src/gui.rs:208-213 | the value, raised to 1 when below |
| Gui.GuiModeTree.ApplyTileSizeInputs | src/gui.rs:290-306 | a tiling node's entered tile width and height are stored raised to at least 1 |
| Gui.GuiState.ApplyRenderInputs | src/gui.rs:200-216 | entered samples per pixel and bounces are stored raised to at least 1 |
| Gui.GuiState.Default | src/gui.rs:68-87 | state Created, empty image path, selection 0, 100 samples, 10 bounces, a PixelRandom leaf mode tree |

## Left out

- Integer widths: `u32`/`usize` arithmetic is unbounded here. Overflow of `width * height`, `bound * 2` in Mirror wrapping and the tile products is not modelled.
- The `i32` casts of the editors are not modelled (`as i32` on the stored values and `as u32`/`as usize` back). The editors' entered values are parameters.
- Zero tile sizes: `to_work` divides by them (a panic). `Generator.WellFormed` requires them to be non-zero at every level, and `Generator.FromGuiModeTree` says when a tree gives such a mode.
- A forward line or stripe whose cursor is 0 would underflow `u32` in `get_next_work_pixel`. No constructor makes one, so the work invariant requires such cursors to be at least 1.
- Randomness: each shuffle is an arbitrary permutation; `rand` is not modelled.
- Concurrency: threads, blocking `recv`, channel disconnection and `num_cpus` are not modelled. `WorkerPool.Workers.WorkerStep` needs a queued message because a thread waiting on an empty queue blocks. The disconnected branches of `spin_up`'s loop, `shut_down`, `add_work` and `try_receive_result` do not arise while the pool holds both channel ends, so they are not modelled.
- `Workers::receive_result` blocks on the channel and is not modelled.
- The pool type used by `generate` and the raytracer is external. Its `add_work` is an acceptance function, and `collect_finished` (with its `unwrap`) is the `collected` parameter of `Update`.
- Raytracer.CPURaytracer.StartRendering: the `unwrap` on `generate` is stated as a precondition that the pool accepts every work.
- `pause_rendering` and `continue_rendering` are `todo!()` and are not modelled; neither are `change_settings`, `set_scene`, `get_current_texture` and the scene itself.
- Floating point: colours are reals or an opaque type parameter, and the ray-colour computation is not modelled.
- `Texture::clear` is not part of the texture file; the raytracer calls it (src/raytracing/raytracer/cpu_raytracer.rs:42). `Textures.Texture.Clear` models it as setting every pixel to the colour.
- Textures.Texture.SetPixel / Textures.PixelAt: the out-of-bounds panic of Mirror's bound is the Addressable precondition (also on `Textures.Texture.GetPixel` and `Textures.Painted`). Where the source panics (`Textures.MirrorLeavesBuffer`), the model has no behaviour. The raytracer always uses Clamp, where every coordinate is addressable (`Textures.AddressableUnlessMirror`).
- Raytracer.CPURaytracer.New: the panic of `NonZeroU32::new(..).unwrap()` on a zero width or height (src/raytracing/raytracer/cpu_raytracer.rs:22-23) is the precondition that both are at least 1.
- Generator.FromGuiModeTree: the `panic!()` on a tiling node without a sub-tree (src/raytracing/work/generator.rs:479, 498, 517, 536) is the SubTreesPresent precondition.
- `Texture::get_pixel_mut`, `get_raw`, `get_raw_mut` and the size accessors are not modelled.
- Generator.ModeTree: `GUIModeTree`'s `selection` field is not read by `from_gui_mode_tree`, so the generator-side tree leaves it out.
- Gui: the imgui drawing, the dimension-order and axis-order selects, the transparency checkboxes and the JSON load/save of the state are not modelled.
- Gui.GuiModeTree.UpdateModeTree: only the node it is called on is modelled. The recursive `draw_order_tree` that calls it on each sub-tree is drawing code.
- The four tiling branches of `to_work` are modelled by one shared method. It is parameterised by line-first or stripe-first and by wrapped or unwrapped, because the branches differ only in loop nesting and in whether each tile's works are wrapped in a Tile.
