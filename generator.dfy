/** Splitting a width × height grid into an ordered list of work units
    (src/raytracing/work/generator.rs).

    `Generated(m, w, h, works)` is the specification of `to_work`: it says
    which lists a call may return. The source shuffles with a random number
    generator; here every shuffle is an arbitrary permutation, so the
    relation admits every list some shuffle could produce, and the lemmas
    below hold for all of them. */
module Generator {
  import opened Wrappers
  import opened Seqs
  import Work

  type Cell = Work.Cell
  type RaytracingWork = Work.RaytracingWork

  datatype TileAxisOrder = Forward | Reverse | Random

  datatype GenerationMode =
    | PixelRandom
    | Line(reverseOrderHorizontal: bool, randomOrderVertical: bool)
    | PixelLine(reverseOrderHorizontal: bool, randomOrderVertical: bool)
    | Stripe(randomOrderHorizontal: bool, reverseOrderVertical: bool)
    | PixelStripe(randomOrderHorizontal: bool, reverseOrderVertical: bool)
    | LineFirstTile(tileWidth: nat, tileHeight: nat, horizontalOrder: TileAxisOrder,
                    verticalOrder: TileAxisOrder, subGenerationMode: GenerationMode)
    | StripeFirstTile(tileWidth: nat, tileHeight: nat, horizontalOrder: TileAxisOrder,
                      verticalOrder: TileAxisOrder, subGenerationMode: GenerationMode)
    | LineFirstPixelTile(tileWidth: nat, tileHeight: nat, horizontalOrder: TileAxisOrder,
                         verticalOrder: TileAxisOrder, subGenerationMode: GenerationMode)
    | StripeFirstPixelTile(tileWidth: nat, tileHeight: nat, horizontalOrder: TileAxisOrder,
                           verticalOrder: TileAxisOrder, subGenerationMode: GenerationMode)

  predicate IsTileMode(m: GenerationMode) {
    m.LineFirstTile? || m.StripeFirstTile? || m.LineFirstPixelTile? || m.StripeFirstPixelTile?
  }

  /** The `LineFirst*` variants visit tiles row by row, the `StripeFirst*`
      variants column by column. */
  predicate LineFirst(m: GenerationMode) {
    m.LineFirstTile? || m.LineFirstPixelTile?
  }

  /** The `*Tile` variants wrap each tile's sub-works in a Tile unit; the
      `*PixelTile` variants append them as they are. */
  predicate Wrapped(m: GenerationMode) {
    m.LineFirstTile? || m.StripeFirstTile?
  }

  /** The source divides by the tile sizes, so they must be non-zero at every
      level of the mode. */
  predicate WellFormed(m: GenerationMode)
    decreases m
  {
    IsTileMode(m) ==> m.tileWidth >= 1 && m.tileHeight >= 1 && WellFormed(m.subGenerationMode)
  }

  // ---------------------------------------------------------------------------
  // Orders and grids

  /** A line or stripe order: `0..n`, or a shuffle of it. */
  ghost predicate OrderOk(order: seq<nat>, n: nat, shuffled: bool) {
    if shuffled then IsPermutation(order, Range(n)) else order == Range(n)
  }

  /** A tile axis order: `0..n`, `n-1` down to `0`, or a shuffle of `0..n`. */
  ghost predicate AxisOrderOk(order: seq<nat>, n: nat, o: TileAxisOrder) {
    match o
    case Forward => order == Range(n)
    case Reverse => order == RevRange(n)
    case Random => IsPermutation(order, Range(n))
  }

  /** Row `y` of a grid `width` cells wide, anchored at x = 0. */
  function RowOf(width: nat, rev: bool): nat -> seq<Cell> {
    (y: nat) => Work.RunX(0, y, width, rev)
  }

  /** Column `x` of a grid `height` cells high, anchored at y = 0. */
  function ColumnOf(height: nat, rev: bool): nat -> seq<Cell> {
    (x: nat) => Work.RunY(x, 0, height, rev)
  }

  /** The cells of a grid in row-major order. */
  function Grid(width: nat, height: nat): seq<Cell> {
    Concat(Map(RowOf(width, false), Range(height)))
  }

  /** Every cell of the `width × height` grid occurs exactly once, and no
      other cell occurs. */
  ghost predicate CoversOnce(cells: seq<Cell>, width: nat, height: nat) {
    forall c: Cell :: multiset(cells)[c] == if c.0 < width && c.1 < height then 1 else 0
  }

  function LineAt(width: nat, rev: bool): nat -> RaytracingWork {
    (y: nat) => Work.NewLine(0, y, width, rev)
  }

  function StripeAt(height: nat, rev: bool): nat -> RaytracingWork {
    (x: nat) => Work.NewStripe(x, 0, height, rev)
  }

  function PixelRow(width: nat, rev: bool): nat -> seq<RaytracingWork> {
    (y: nat) => Work.FreshPixels(Work.RunX(0, y, width, rev))
  }

  function PixelColumn(height: nat, rev: bool): nat -> seq<RaytracingWork> {
    (x: nat) => Work.FreshPixels(Work.RunY(x, 0, height, rev))
  }

  // ---------------------------------------------------------------------------
  // Tiling arithmetic

  /** `count = dim / t`, plus one when `dim % t != 0` (a border tile). */
  function TileCount(dim: nat, t: nat): nat
    requires t >= 1
  {
    dim / t + if dim % t != 0 then 1 else 0
  }

  /** The size of tile `i` along an axis: `t`, except that the last tile on
      a border axis is `t + dim % t`. */
  function TileSize(dim: nat, t: nat, i: nat): nat
    requires t >= 1
  {
    if dim % t != 0 && i == TileCount(dim, t) - 1 then t + dim % t else t
  }

  /** The tiles visited for one outer index `o`, as `(x, y)` tile indices. */
  function AxisVisits(lineFirst: bool, o: nat, inner: seq<nat>): seq<Cell> {
    Map(PairWith(lineFirst, o), inner)
  }

  function PairWith(lineFirst: bool, o: nat): nat -> Cell {
    (i: nat) => if lineFirst then (i, o) else (o, i)
  }

  /** All tile visits: for each outer index in turn, its own inner order. */
  function TileVisits(lineFirst: bool, outer: seq<nat>, inners: seq<seq<nat>>): seq<Cell>
    requires |inners| == |outer|
  {
    Concat(seq(|outer|, k requires 0 <= k < |outer| => AxisVisits(lineFirst, outer[k], inners[k])))
  }

  function VisitBlocks(lineFirst: bool, outer: seq<nat>, inners: seq<seq<nat>>): (r: seq<seq<Cell>>)
    requires |inners| == |outer|
    ensures Concat(r) == TileVisits(lineFirst, outer, inners)
  {
    seq(|outer|, k requires 0 <= k < |outer| => AxisVisits(lineFirst, outer[k], inners[k]))
  }

  /** The outer axis is vertical for `LineFirst*` and horizontal for
      `StripeFirst*`; the inner axis order is chosen afresh for every outer
      index. */
  ghost predicate VisitPlan(lineFirst: bool, hc: nat, vc: nat, ho: TileAxisOrder, vo: TileAxisOrder,
                            outer: seq<nat>, inners: seq<seq<nat>>)
  {
    && |inners| == |outer|
    && AxisOrderOk(outer, if lineFirst then vc else hc, if lineFirst then vo else ho)
    && forall k :: 0 <= k < |inners| ==>
         AxisOrderOk(inners[k], if lineFirst then hc else vc, if lineFirst then ho else vo)
  }

  ghost predicate VisitsOk(lineFirst: bool, hc: nat, vc: nat, ho: TileAxisOrder, vo: TileAxisOrder,
                           visits: seq<Cell>)
  {
    exists outer: seq<nat>, inners: seq<seq<nat>> ::
      VisitPlan(lineFirst, hc, vc, ho, vo, outer, inners) && visits == TileVisits(lineFirst, outer, inners)
  }

  /** Every tile's sub-works are valid. */
  ghost predicate SubsValid(subs: seq<seq<RaytracingWork>>) {
    forall t :: 0 <= t < |subs| ==> Work.AllValid(subs[t])
  }

  /** The tiles' works in visiting order: wrapped in a Tile anchored at
      `(i * tw, j * th)`, or appended as they are. */
  function Assemble(wrap: bool, tw: nat, th: nat, visits: seq<Cell>, subs: seq<seq<RaytracingWork>>)
    : seq<RaytracingWork>
    requires |subs| == |visits| && SubsValid(subs)
  {
    if visits == [] then []
    else
      var n := |visits| - 1;
      Assemble(wrap, tw, th, visits[..n], subs[..n])
        + if wrap then [Work.NewTile(visits[n].0 * tw, visits[n].1 * th, subs[n])] else subs[n]
  }

  // ---------------------------------------------------------------------------
  // Specification of to_work

  /** The lists `to_work(m, w, h)` may return (src/raytracing/work/generator.rs:65-443). */
  ghost predicate Generated(m: GenerationMode, w: nat, h: nat, works: seq<RaytracingWork>)
    requires WellFormed(m)
    decreases m, 3
  {
    match m
    case PixelRandom => PixelRandomGenerated(w, h, works)
    case Line(rev, rnd) => LinesGenerated(w, h, rev, rnd, works)
    case PixelLine(rev, rnd) => PixelLinesGenerated(w, h, rev, rnd, works)
    case Stripe(rnd, rev) => StripesGenerated(w, h, rnd, rev, works)
    case PixelStripe(rnd, rev) => PixelStripesGenerated(w, h, rnd, rev, works)
    case _ => TileModeGenerated(m, w, h, works)
  }

  /** `PixelRandom`: a fresh pixel per cell, the cells in shuffled row-major order. */
  ghost predicate PixelRandomGenerated(w: nat, h: nat, works: seq<RaytracingWork>) {
    exists cells :: IsPermutation(cells, Grid(w, h)) && works == Work.FreshPixels(cells)
  }

  /** `Line`: one line work per row, anchored at `(0, y)`. */
  ghost predicate LinesGenerated(w: nat, h: nat, rev: bool, rnd: bool, works: seq<RaytracingWork>) {
    exists rows :: OrderOk(rows, h, rnd) && works == Map(LineAt(w, rev), rows)
  }

  /** `PixelLine`: the pixels of each row in turn. */
  ghost predicate PixelLinesGenerated(w: nat, h: nat, rev: bool, rnd: bool, works: seq<RaytracingWork>) {
    exists rows :: OrderOk(rows, h, rnd) && works == Concat(Map(PixelRow(w, rev), rows))
  }

  /** `Stripe`: one stripe work per column, anchored at `(x, 0)`. */
  ghost predicate StripesGenerated(w: nat, h: nat, rnd: bool, rev: bool, works: seq<RaytracingWork>) {
    exists cols :: OrderOk(cols, w, rnd) && works == Map(StripeAt(h, rev), cols)
  }

  /** `PixelStripe`: the pixels of each column in turn. */
  ghost predicate PixelStripesGenerated(w: nat, h: nat, rnd: bool, rev: bool, works: seq<RaytracingWork>) {
    exists cols :: OrderOk(cols, w, rnd) && works == Concat(Map(PixelColumn(h, rev), cols))
  }

  /** The tiling modes: some admissible visiting order of the tiles, and for
      each visited tile some output of the sub-mode at that tile's size. */
  ghost predicate TileModeGenerated(m: GenerationMode, w: nat, h: nat, works: seq<RaytracingWork>)
    requires WellFormed(m) && IsTileMode(m)
    decreases m, 2
  {
    exists visits ::
      && VisitsOk(LineFirst(m), TileCount(w, m.tileWidth), TileCount(h, m.tileHeight),
                  m.horizontalOrder, m.verticalOrder, visits)
      && TilesGenerated(m, w, h, visits, works)
  }

  ghost predicate TilesGenerated(m: GenerationMode, w: nat, h: nat, visits: seq<Cell>,
                                 works: seq<RaytracingWork>)
    requires WellFormed(m) && IsTileMode(m)
    decreases m, 1
  {
    exists subs :: SubsOk(m, w, h, visits, subs)
      && works == Assemble(Wrapped(m), m.tileWidth, m.tileHeight, visits, subs)
  }

  /** Each visited tile's works come from the sub-mode at that tile's size. */
  ghost predicate SubsOk(m: GenerationMode, w: nat, h: nat, visits: seq<Cell>,
                         subs: seq<seq<RaytracingWork>>)
    requires WellFormed(m) && IsTileMode(m)
    decreases m, 0
  {
    && |subs| == |visits|
    && forall t :: 0 <= t < |visits| ==>
         && Work.AllValid(subs[t])
         && Generated(m.subGenerationMode, TileSize(w, m.tileWidth, visits[t].0),
                      TileSize(h, m.tileHeight, visits[t].1), subs[t])
  }

  // ---------------------------------------------------------------------------
  // to_work

  /** `shuffle`: some permutation of the input. */
  method Shuffle<T(==)>(s: seq<T>) returns (r: seq<T>)
    ensures IsPermutation(r, s)
  {
    r :| multiset(r) == multiset(s);
  }

  /** A line or stripe order: `(0..n).collect()`, shuffled when asked. */
  method LineOrder(n: nat, shuffled: bool) returns (order: seq<nat>)
    ensures OrderOk(order, n, shuffled)
  {
    order := Range(n);
    if shuffled {
      order := Shuffle(order);
    }
  }

  /** A tile axis order (src/raytracing/work/generator.rs:173-185). */
  method AxisOrder(n: nat, o: TileAxisOrder) returns (order: seq<nat>)
    ensures AxisOrderOk(order, n, o)
  {
    match o
    case Forward => order := Range(n);
    case Reverse => order := RevRange(n);
    case Random => order := Shuffle(Range(n));
  }

  /** `GenerationMode::to_work` (src/raytracing/work/generator.rs:65-443). */
  method ToWork(m: GenerationMode, width: nat, height: nat) returns (works: seq<RaytracingWork>)
    requires WellFormed(m)
    ensures Generated(m, width, height, works)
    decreases m, 3
  {
    match m {
      case PixelRandom => works := PixelRandomWork(width, height);
      case Line(rev, rnd) => works := LineWork(width, height, rev, rnd);
      case PixelLine(rev, rnd) => works := PixelLineWork(width, height, rev, rnd);
      case Stripe(rnd, rev) => works := StripeWork(width, height, rnd, rev);
      case PixelStripe(rnd, rev) => works := PixelStripeWork(width, height, rnd, rev);
      case _ => works := TileWork(m, width, height);
    }
  }

  /** The `PixelRandom` branch (src/raytracing/work/generator.rs:71-86). */
  method PixelRandomWork(width: nat, height: nat) returns (works: seq<RaytracingWork>)
    ensures PixelRandomGenerated(width, height, works)
  {
    var coords: seq<Cell> := [];
    for y := 0 to height
      invariant coords == Grid(width, y)
    {
      for x := 0 to width
        invariant coords == Grid(width, y) + Work.RunX(0, y, x, false)
      {
        RunSnoc(y, x, false);
        coords := coords + [(x, y)];
      }
      GridSnoc(width, y);
    }
    var shuffled := Shuffle(coords);
    works := [];
    for k := 0 to |shuffled|
      invariant works == Work.FreshPixels(shuffled[..k])
    {
      assert shuffled[..k + 1] == shuffled[..k] + [shuffled[k]];
      works := works + [Work.NewPixel(shuffled[k].0, shuffled[k].1)];
    }
    assert shuffled[..|shuffled|] == shuffled;
  }

  /** The `Line` branch (src/raytracing/work/generator.rs:87-98). */
  method LineWork(width: nat, height: nat, rev: bool, rnd: bool) returns (works: seq<RaytracingWork>)
    ensures LinesGenerated(width, height, rev, rnd, works)
  {
    var lineOrder := LineOrder(height, rnd);
    works := [];
    for k := 0 to |lineOrder|
      invariant works == Map(LineAt(width, rev), lineOrder[..k])
    {
      assert lineOrder[..k + 1] == lineOrder[..k] + [lineOrder[k]];
      MapSnoc(LineAt(width, rev), lineOrder[..k], lineOrder[k]);
      works := works + [Work.NewLine(0, lineOrder[k], width, rev)];
    }
    assert lineOrder[..|lineOrder|] == lineOrder;
  }

  /** The `PixelLine` branch (src/raytracing/work/generator.rs:99-120). */
  method PixelLineWork(width: nat, height: nat, rev: bool, rnd: bool) returns (works: seq<RaytracingWork>)
    ensures PixelLinesGenerated(width, height, rev, rnd, works)
  {
    var lineOrder := LineOrder(height, rnd);
    works := [];
    for k := 0 to |lineOrder|
      invariant works == Concat(Map(PixelRow(width, rev), lineOrder[..k]))
    {
      var y := lineOrder[k];
      var pixels := RowPixels(y, width, rev);
      assert lineOrder[..k + 1] == lineOrder[..k] + [y];
      MapSnoc(PixelRow(width, rev), lineOrder[..k], y);
      ConcatSnoc(Map(PixelRow(width, rev), lineOrder[..k]), PixelRow(width, rev)(y));
      works := works + pixels;
    }
    assert lineOrder[..|lineOrder|] == lineOrder;
  }

  /** The pixels of row `y`, x ascending, or descending when `rev`
      (src/raytracing/work/generator.rs:108-118). */
  method RowPixels(y: nat, width: nat, rev: bool) returns (pixels: seq<RaytracingWork>)
    ensures pixels == Work.FreshPixels(Work.RunX(0, y, width, rev))
  {
    var pixelOrder := if rev then RevRange(width) else Range(width);
    ghost var row := Work.RunX(0, y, width, rev);
    pixels := [];
    for j := 0 to |pixelOrder|
      invariant pixels == Work.FreshPixels(row[..j])
    {
      assert row[..j + 1] == row[..j] + [(pixelOrder[j], y)];
      pixels := pixels + [Work.NewPixel(pixelOrder[j], y)];
    }
    assert row[..|pixelOrder|] == row;
  }

  /** The `Stripe` branch (src/raytracing/work/generator.rs:121-132). */
  method StripeWork(width: nat, height: nat, rnd: bool, rev: bool) returns (works: seq<RaytracingWork>)
    ensures StripesGenerated(width, height, rnd, rev, works)
  {
    var stripeOrder := LineOrder(width, rnd);
    works := [];
    for k := 0 to |stripeOrder|
      invariant works == Map(StripeAt(height, rev), stripeOrder[..k])
    {
      assert stripeOrder[..k + 1] == stripeOrder[..k] + [stripeOrder[k]];
      MapSnoc(StripeAt(height, rev), stripeOrder[..k], stripeOrder[k]);
      works := works + [Work.NewStripe(stripeOrder[k], 0, height, rev)];
    }
    assert stripeOrder[..|stripeOrder|] == stripeOrder;
  }

  /** The `PixelStripe` branch (src/raytracing/work/generator.rs:133-153). */
  method PixelStripeWork(width: nat, height: nat, rnd: bool, rev: bool) returns (works: seq<RaytracingWork>)
    ensures PixelStripesGenerated(width, height, rnd, rev, works)
  {
    var stripeOrder := LineOrder(width, rnd);
    works := [];
    for k := 0 to |stripeOrder|
      invariant works == Concat(Map(PixelColumn(height, rev), stripeOrder[..k]))
    {
      var x := stripeOrder[k];
      var pixels := ColumnPixels(x, height, rev);
      assert stripeOrder[..k + 1] == stripeOrder[..k] + [x];
      MapSnoc(PixelColumn(height, rev), stripeOrder[..k], x);
      ConcatSnoc(Map(PixelColumn(height, rev), stripeOrder[..k]), PixelColumn(height, rev)(x));
      works := works + pixels;
    }
    assert stripeOrder[..|stripeOrder|] == stripeOrder;
  }

  /** The pixels of column `x`, y ascending, or descending when `rev`
      (src/raytracing/work/generator.rs:141-151). */
  method ColumnPixels(x: nat, height: nat, rev: bool) returns (pixels: seq<RaytracingWork>)
    ensures pixels == Work.FreshPixels(Work.RunY(x, 0, height, rev))
  {
    var pixelOrder := if rev then RevRange(height) else Range(height);
    ghost var column := Work.RunY(x, 0, height, rev);
    pixels := [];
    for j := 0 to |pixelOrder|
      invariant pixels == Work.FreshPixels(column[..j])
    {
      assert column[..j + 1] == column[..j] + [(x, pixelOrder[j])];
      pixels := pixels + [Work.NewPixel(x, pixelOrder[j])];
    }
    assert column[..|pixelOrder|] == column;
  }

  /** The four tiling branches of `to_work` (src/raytracing/work/generator.rs:154-439),
      which differ only in which axis is outer and in whether each tile's
      sub-works are wrapped in a Tile. */
  method TileWork(m: GenerationMode, width: nat, height: nat) returns (works: seq<RaytracingWork>)
    requires WellFormed(m) && IsTileMode(m)
    ensures TileModeGenerated(m, width, height, works)
    decreases m, 2
  {
    var horizontalCount := width / m.tileWidth;
    var verticalCount := height / m.tileHeight;
    var rightBorder := width % m.tileWidth != 0;
    var bottomBorder := height % m.tileHeight != 0;
    if rightBorder {
      horizontalCount := horizontalCount + 1;
    }
    if bottomBorder {
      verticalCount := verticalCount + 1;
    }
    var lineFirst := LineFirst(m);
    var outerCount, outerAxis := if lineFirst then verticalCount else horizontalCount,
                                 if lineFirst then m.verticalOrder else m.horizontalOrder;
    var innerCount, innerAxis := if lineFirst then horizontalCount else verticalCount,
                                 if lineFirst then m.horizontalOrder else m.verticalOrder;
    var outer := AxisOrder(outerCount, outerAxis);
    ghost var inners, visits, subs;
    works, inners, visits, subs := TilePasses(m, width, height, outer, innerCount, innerAxis);
    assert horizontalCount == TileCount(width, m.tileWidth) && verticalCount == TileCount(height, m.tileHeight);
    TileModeFromPlan(m, width, height, outer, inners, visits, subs, works);
  }

  /** The outer loop of a tiling branch: for each outer index, a fresh
      inner order and that row's or column's tiles
      (src/raytracing/work/generator.rs:187-224). */
  method TilePasses(m: GenerationMode, width: nat, height: nat, outer: seq<nat>,
                    innerCount: nat, innerAxis: TileAxisOrder)
    returns (works: seq<RaytracingWork>, ghost inners: seq<seq<nat>>, ghost visits: seq<Cell>,
             ghost subs: seq<seq<RaytracingWork>>)
    requires WellFormed(m) && IsTileMode(m)
    ensures |inners| == |outer|
    ensures forall i :: 0 <= i < |inners| ==> AxisOrderOk(inners[i], innerCount, innerAxis)
    ensures visits == TileVisits(LineFirst(m), outer, inners)
    ensures SubsOk(m, width, height, visits, subs)
    ensures works == Assemble(Wrapped(m), m.tileWidth, m.tileHeight, visits, subs)
    decreases m, 1
  {
    var lineFirst := LineFirst(m);
    works := [];
    inners := [];
    visits := [];
    subs := [];
    assert outer[..0] == [];
    for k := 0 to |outer|
      invariant PassesOk(m, width, height, outer, k, innerCount, innerAxis, inners, visits, subs, works)
    {
      var inner := AxisOrder(innerCount, innerAxis);
      var part, partSubs := TileRun(m, width, height, outer[k], inner);
      PassStep(m, width, height, outer, k, innerCount, innerAxis, inners, visits, subs, works, inner, part, partSubs);
      works := works + part;
      visits := visits + AxisVisits(lineFirst, outer[k], inner);
      subs := subs + partSubs;
      inners := inners + [inner];
    }
    assert outer[..|outer|] == outer;
  }

  /** What the outer loop has built after `k` passes. */
  ghost predicate PassesOk(m: GenerationMode, w: nat, h: nat, outer: seq<nat>, k: nat, innerCount: nat,
                           innerAxis: TileAxisOrder, inners: seq<seq<nat>>, visits: seq<Cell>,
                           subs: seq<seq<RaytracingWork>>, works: seq<RaytracingWork>)
    requires WellFormed(m) && IsTileMode(m) && k <= |outer|
  {
    && |inners| == k
    && (forall i :: 0 <= i < k ==> AxisOrderOk(inners[i], innerCount, innerAxis))
    && visits == TileVisits(LineFirst(m), outer[..k], inners)
    && SubsOk(m, w, h, visits, subs)
    && works == Assemble(Wrapped(m), m.tileWidth, m.tileHeight, visits, subs)
  }

  /** One pass of the outer loop appends one row's or column's visits,
      sub-works and works. */
  lemma PassStep(m: GenerationMode, w: nat, h: nat, outer: seq<nat>, k: nat, innerCount: nat,
                 innerAxis: TileAxisOrder, inners: seq<seq<nat>>,
                 visits: seq<Cell>, subs: seq<seq<RaytracingWork>>, works: seq<RaytracingWork>,
                 inner: seq<nat>, part: seq<RaytracingWork>, partSubs: seq<seq<RaytracingWork>>)
    requires WellFormed(m) && IsTileMode(m) && k < |outer|
    requires PassesOk(m, w, h, outer, k, innerCount, innerAxis, inners, visits, subs, works)
    requires AxisOrderOk(inner, innerCount, innerAxis)
    requires SubsOk(m, w, h, AxisVisits(LineFirst(m), outer[k], inner), partSubs)
    requires part == Assemble(Wrapped(m), m.tileWidth, m.tileHeight, AxisVisits(LineFirst(m), outer[k], inner), partSubs)
    ensures PassesOk(m, w, h, outer, k + 1, innerCount, innerAxis, inners + [inner],
                     visits + AxisVisits(LineFirst(m), outer[k], inner), subs + partSubs, works + part)
  {
    var run := AxisVisits(LineFirst(m), outer[k], inner);
    AssembleAppend(Wrapped(m), m.tileWidth, m.tileHeight, visits, subs, run, partSubs);
    SubsOkAppend(m, w, h, visits, subs, run, partSubs);
    TileVisitsSnoc(LineFirst(m), outer, inners, k, inner);
    var inners' := inners + [inner];
    assert forall i :: 0 <= i < k + 1 ==> AxisOrderOk(inners'[i], innerCount, innerAxis) by {
      forall i | 0 <= i < k + 1
        ensures AxisOrderOk(inners'[i], innerCount, innerAxis)
      {
        if i < k {
          assert inners'[i] == inners[i];
        }
      }
    }
  }

  lemma TileModeFromPlan(m: GenerationMode, w: nat, h: nat, outer: seq<nat>, inners: seq<seq<nat>>,
                         visits: seq<Cell>, subs: seq<seq<RaytracingWork>>, works: seq<RaytracingWork>)
    requires WellFormed(m) && IsTileMode(m)
    requires VisitPlan(LineFirst(m), TileCount(w, m.tileWidth), TileCount(h, m.tileHeight),
                       m.horizontalOrder, m.verticalOrder, outer, inners)
    requires visits == TileVisits(LineFirst(m), outer, inners)
    requires SubsOk(m, w, h, visits, subs)
    requires works == Assemble(Wrapped(m), m.tileWidth, m.tileHeight, visits, subs)
    ensures TileModeGenerated(m, w, h, works)
  {
    assert TilesGenerated(m, w, h, visits, works);
  }

  /** The inner loop of a tiling branch: for each inner index, the sub-mode's
      works for that tile, at that tile's size, wrapped or not
      (src/raytracing/work/generator.rs:203-223). */
  method TileRun(m: GenerationMode, width: nat, height: nat, o: nat, inner: seq<nat>)
    returns (part: seq<RaytracingWork>, ghost partSubs: seq<seq<RaytracingWork>>)
    requires WellFormed(m) && IsTileMode(m)
    ensures SubsOk(m, width, height, AxisVisits(LineFirst(m), o, inner), partSubs)
    ensures part == Assemble(Wrapped(m), m.tileWidth, m.tileHeight, AxisVisits(LineFirst(m), o, inner), partSubs)
    decreases m, 0
  {
    var lineFirst := LineFirst(m);
    part := [];
    partSubs := [];
    for j := 0 to |inner|
      invariant SubsOk(m, width, height, AxisVisits(lineFirst, o, inner[..j]), partSubs)
      invariant part == Assemble(Wrapped(m), m.tileWidth, m.tileHeight, AxisVisits(lineFirst, o, inner[..j]), partSubs)
    {
      var x, y := if lineFirst then inner[j] else o, if lineFirst then o else inner[j];
      var subWidth := TileSize(width, m.tileWidth, x);
      var subHeight := TileSize(height, m.tileHeight, y);
      var newWork := ToWork(m.subGenerationMode, subWidth, subHeight);
      RunStep(m, width, height, o, inner, j, partSubs, part, newWork);
      if Wrapped(m) {
        part := part + [Work.NewTile(x * m.tileWidth, y * m.tileHeight, newWork)];
      } else {
        part := part + newWork;
      }
      partSubs := partSubs + [newWork];
    }
    assert inner[..|inner|] == inner;
  }

  /** One pass of the inner loop appends one tile's visit, sub-works and
      works. */
  lemma RunStep(m: GenerationMode, w: nat, h: nat, o: nat, inner: seq<nat>, j: nat,
                partSubs: seq<seq<RaytracingWork>>, part: seq<RaytracingWork>, newWork: seq<RaytracingWork>)
    requires WellFormed(m) && IsTileMode(m) && j < |inner|
    requires SubsOk(m, w, h, AxisVisits(LineFirst(m), o, inner[..j]), partSubs)
    requires part == Assemble(Wrapped(m), m.tileWidth, m.tileHeight, AxisVisits(LineFirst(m), o, inner[..j]), partSubs)
    requires var v := PairWith(LineFirst(m), o)(inner[j]);
      Generated(m.subGenerationMode, TileSize(w, m.tileWidth, v.0), TileSize(h, m.tileHeight, v.1), newWork)
    ensures var v := PairWith(LineFirst(m), o)(inner[j]);
      && SubsOk(m, w, h, AxisVisits(LineFirst(m), o, inner[..j + 1]), partSubs + [newWork])
      && part + (if Wrapped(m) then [Work.NewTile(v.0 * m.tileWidth, v.1 * m.tileHeight, newWork)] else newWork)
         == Assemble(Wrapped(m), m.tileWidth, m.tileHeight, AxisVisits(LineFirst(m), o, inner[..j + 1]), partSubs + [newWork])
  {
    var v := PairWith(LineFirst(m), o)(inner[j]);
    GeneratedValid(m.subGenerationMode, TileSize(w, m.tileWidth, v.0), TileSize(h, m.tileHeight, v.1), newWork);
    var visits := AxisVisits(LineFirst(m), o, inner[..j]);
    assert inner[..j + 1] == inner[..j] + [inner[j]];
    MapSnoc(PairWith(LineFirst(m), o), inner[..j], inner[j]);
    AssembleSnoc(Wrapped(m), m.tileWidth, m.tileHeight, visits, partSubs, v, newWork);
    assert AxisVisits(LineFirst(m), o, inner[..j + 1]) == visits + [v];
    assert SubsOk(m, w, h, [v], [newWork]);
    SubsOkAppend(m, w, h, visits, partSubs, [v], [newWork]);
  }

  // ---------------------------------------------------------------------------
  // Helper facts for to_work

  lemma RunSnoc(y: nat, n: nat, rev: bool)
    ensures Work.RunX(0, y, n + 1, false) == Work.RunX(0, y, n, false) + [(n, y)]
    ensures Work.RunX(0, y, n + 1, true) == [(n, y)] + Work.RunX(0, y, n, true)
    ensures Work.RunY(y, 0, n + 1, false) == Work.RunY(y, 0, n, false) + [(y, n)]
    ensures Work.RunY(y, 0, n + 1, true) == [(y, n)] + Work.RunY(y, 0, n, true)
  {
  }

  lemma GridSnoc(width: nat, y: nat)
    ensures Grid(width, y + 1) == Grid(width, y) + Work.RunX(0, y, width, false)
  {
    RangeSnoc(y);
    MapSnoc(RowOf(width, false), Range(y), y);
    ConcatSnoc(Map(RowOf(width, false), Range(y)), RowOf(width, false)(y));
  }

  lemma TileVisitsSnoc(lineFirst: bool, outer: seq<nat>, inners: seq<seq<nat>>, k: nat, inner: seq<nat>)
    requires k < |outer| && |inners| == k
    ensures TileVisits(lineFirst, outer[..k + 1], inners + [inner])
      == TileVisits(lineFirst, outer[..k], inners) + AxisVisits(lineFirst, outer[k], inner)
  {
    var blocks := seq(k, i requires 0 <= i < k => AxisVisits(lineFirst, outer[..k][i], inners[i]));
    var blocks' := seq(k + 1, i requires 0 <= i < k + 1 => AxisVisits(lineFirst, outer[..k + 1][i], (inners + [inner])[i]));
    assert blocks' == blocks + [AxisVisits(lineFirst, outer[k], inner)];
    ConcatSnoc(blocks, AxisVisits(lineFirst, outer[k], inner));
  }

  lemma AssembleSnoc(wrap: bool, tw: nat, th: nat, visits: seq<Cell>, subs: seq<seq<RaytracingWork>>,
                     v: Cell, sub: seq<RaytracingWork>)
    requires |subs| == |visits| && SubsValid(subs)
    requires Work.AllValid(sub)
    ensures SubsValid(subs + [sub])
    ensures Assemble(wrap, tw, th, visits + [v], subs + [sub])
      == Assemble(wrap, tw, th, visits, subs) + if wrap then [Work.NewTile(v.0 * tw, v.1 * th, sub)] else sub
  {
    assert (visits + [v])[..|visits|] == visits;
    assert (subs + [sub])[..|subs|] == subs;
  }

  lemma AssembleAppend(wrap: bool, tw: nat, th: nat, visits: seq<Cell>,
                       subs: seq<seq<RaytracingWork>>, visits': seq<Cell>,
                       subs': seq<seq<RaytracingWork>>)
    requires |subs| == |visits| && SubsValid(subs)
    requires |subs'| == |visits'| && SubsValid(subs')
    ensures SubsValid(subs + subs')
    ensures Assemble(wrap, tw, th, visits + visits', subs + subs')
      == Assemble(wrap, tw, th, visits, subs) + Assemble(wrap, tw, th, visits', subs')
  {
    var vv, ss := visits + visits', subs + subs';
    forall t | 0 <= t < |ss|
      ensures Work.AllValid(ss[t])
    {
      if t < |subs| {
        assert ss[t] == subs[t];
      } else {
        assert ss[t] == subs'[t - |subs|];
      }
    }
    if wrap {
      AssembleWrapped(tw, th, visits, subs);
      AssembleWrapped(tw, th, visits', subs');
      AssembleWrapped(tw, th, vv, ss);
      var a, b := Assemble(true, tw, th, visits, subs), Assemble(true, tw, th, visits', subs');
      forall t | 0 <= t < |vv|
        ensures Assemble(true, tw, th, vv, ss)[t] == (a + b)[t]
      {
        if t >= |visits| {
          assert vv[t] == visits'[t - |visits|] && ss[t] == subs'[t - |visits|];
        }
      }
    } else {
      AssembleUnwrapped(tw, th, visits, subs);
      AssembleUnwrapped(tw, th, visits', subs');
      AssembleUnwrapped(tw, th, vv, ss);
      ConcatAppend(subs, subs');
    }
  }

  lemma SubsOkAppend(m: GenerationMode, w: nat, h: nat, visits: seq<Cell>, subs: seq<seq<RaytracingWork>>,
                     visits': seq<Cell>, subs': seq<seq<RaytracingWork>>)
    requires WellFormed(m) && IsTileMode(m)
    requires SubsOk(m, w, h, visits, subs) && SubsOk(m, w, h, visits', subs')
    ensures SubsOk(m, w, h, visits + visits', subs + subs')
  {
    forall t | 0 <= t < |visits + visits'|
      ensures Work.AllValid((subs + subs')[t])
      ensures Generated(m.subGenerationMode, TileSize(w, m.tileWidth, (visits + visits')[t].0),
                        TileSize(h, m.tileHeight, (visits + visits')[t].1), (subs + subs')[t])
    {
      if t >= |visits| {
        assert (visits + visits')[t] == visits'[t - |visits|];
        assert (subs + subs')[t] == subs'[t - |subs|];
      }
    }
  }

  lemma {:induction false} AllValidConcat(wss: seq<seq<RaytracingWork>>)
    requires forall i :: 0 <= i < |wss| ==> Work.AllValid(wss[i])
    ensures Work.AllValid(Concat(wss))
  {
    if wss != [] {
      AllValidConcat(wss[..|wss| - 1]);
    }
  }

  lemma {:induction false} AssembleValid(wrap: bool, tw: nat, th: nat, visits: seq<Cell>,
                                         subs: seq<seq<RaytracingWork>>)
    requires |subs| == |visits| && SubsValid(subs)
    ensures Work.AllValid(Assemble(wrap, tw, th, visits, subs))
  {
    if visits != [] {
      var n := |visits| - 1;
      AssembleValid(wrap, tw, th, visits[..n], subs[..n]);
    }
  }

  /** Every generated unit is a valid cursor. */
  lemma GeneratedValid(m: GenerationMode, w: nat, h: nat, works: seq<RaytracingWork>)
    requires WellFormed(m) && Generated(m, w, h, works)
    ensures Work.AllValid(works)
  {
    match m
    case PixelRandom =>
    case Line(_, _) =>
    case PixelLine(rev, rnd) =>
      var rows :| OrderOk(rows, h, rnd) && works == Concat(Map(PixelRow(w, rev), rows));
      AllValidConcat(Map(PixelRow(w, rev), rows));
    case Stripe(_, _) =>
    case PixelStripe(rnd, rev) =>
      var cols :| OrderOk(cols, w, rnd) && works == Concat(Map(PixelColumn(h, rev), cols));
      AllValidConcat(Map(PixelColumn(h, rev), cols));
    case _ =>
      TileModeValid(m, w, h, works);
  }

  lemma TileModeValid(m: GenerationMode, w: nat, h: nat, works: seq<RaytracingWork>)
    requires WellFormed(m) && IsTileMode(m) && TileModeGenerated(m, w, h, works)
    ensures Work.AllValid(works)
  {
    var visits :| TilesGenerated(m, w, h, visits, works);
    assert TilesGenerated(m, w, h, visits, works);
    var subs :| SubsOk(m, w, h, visits, subs)
      && works == Assemble(Wrapped(m), m.tileWidth, m.tileHeight, visits, subs);
    AssembleValid(Wrapped(m), m.tileWidth, m.tileHeight, visits, subs);
  }

  // ---------------------------------------------------------------------------
  // Coverage vocabulary

  lemma {:induction false} RunCount(y: nat, n: nat, rev: bool, c: Cell)
    ensures multiset(Work.RunX(0, y, n, rev))[c] == if c.1 == y && c.0 < n then 1 else 0
    ensures multiset(Work.RunY(y, 0, n, rev))[c] == if c.0 == y && c.1 < n then 1 else 0
  {
    if n > 0 {
      RunCount(y, n - 1, rev, c);
      RunSnoc(y, n - 1, rev);
    }
  }

  lemma {:induction false} RowsCount(w: nat, h: nat, rev: bool, c: Cell)
    ensures multiset(Concat(Map(RowOf(w, rev), Range(h))))[c] == if c.0 < w && c.1 < h then 1 else 0
  {
    if h > 0 {
      RowsCount(w, h - 1, rev, c);
      RangeSnoc(h - 1);
      MapSnoc<nat, seq<Cell>>(RowOf(w, rev), Range(h - 1), h - 1);
      ConcatSnoc(Map(RowOf(w, rev), Range(h - 1)), RowOf(w, rev)(h - 1));
      RunCount(h - 1, w, rev, c);
    }
  }

  lemma {:induction false} ColumnsCount(w: nat, h: nat, rev: bool, c: Cell)
    ensures multiset(Concat(Map(ColumnOf(h, rev), Range(w))))[c] == if c.0 < w && c.1 < h then 1 else 0
  {
    if w > 0 {
      ColumnsCount(w - 1, h, rev, c);
      RangeSnoc(w - 1);
      MapSnoc<nat, seq<Cell>>(ColumnOf(h, rev), Range(w - 1), w - 1);
      ConcatSnoc(Map(ColumnOf(h, rev), Range(w - 1)), ColumnOf(h, rev)(w - 1));
      RunCount(w - 1, h, rev, c);
    }
  }

  /** Whole rows, in any order that permutes `0..h`, cover the grid once. */
  lemma RowsCoverOnce(w: nat, h: nat, rev: bool, rows: seq<nat>)
    requires IsPermutation(rows, Range(h))
    ensures CoversOnce(Concat(Map(RowOf(w, rev), rows)), w, h)
  {
    MapPermutation(RowOf(w, rev), rows, Range(h));
    ConcatPermutation(Map(RowOf(w, rev), rows), Map(RowOf(w, rev), Range(h)));
    forall c: Cell
      ensures multiset(Concat(Map(RowOf(w, rev), rows)))[c] == if c.0 < w && c.1 < h then 1 else 0
    {
      RowsCount(w, h, rev, c);
    }
  }

  /** Whole columns, in any order that permutes `0..w`, cover the grid once. */
  lemma ColumnsCoverOnce(w: nat, h: nat, rev: bool, cols: seq<nat>)
    requires IsPermutation(cols, Range(w))
    ensures CoversOnce(Concat(Map(ColumnOf(h, rev), cols)), w, h)
  {
    MapPermutation(ColumnOf(h, rev), cols, Range(w));
    ConcatPermutation(Map(ColumnOf(h, rev), cols), Map(ColumnOf(h, rev), Range(w)));
    forall c: Cell
      ensures multiset(Concat(Map(ColumnOf(h, rev), cols)))[c] == if c.0 < w && c.1 < h then 1 else 0
    {
      ColumnsCount(w, h, rev, c);
    }
  }

  lemma OrderPermutes(order: seq<nat>, n: nat, shuffled: bool)
    requires OrderOk(order, n, shuffled)
    ensures IsPermutation(order, Range(n)) && |order| == n
  {
    assert |multiset(order)| == |multiset(Range(n))|;
  }

  lemma AxisOrderPermutes(order: seq<nat>, n: nat, o: TileAxisOrder)
    requires AxisOrderOk(order, n, o)
    ensures IsPermutation(order, Range(n)) && |order| == n
  {
    if o.Reverse? {
      RevRangeIsPermutation(n);
    }
    assert |multiset(order)| == |multiset(Range(n))|;
  }

  lemma CoversOnceAt(cells: seq<Cell>, w: nat, h: nat, c: Cell)
    requires CoversOnce(cells, w, h)
    ensures multiset(cells)[c] == if c.0 < w && c.1 < h then 1 else 0
  {
  }

  lemma GridLength(w: nat, h: nat)
    ensures |Grid(w, h)| == w * h
  {
    ConcatUniformLength(Map(RowOf(w, false), Range(h)), w);
  }

  // ---------------------------------------------------------------------------
  // The cells of generated lists

  lemma SingletonCells(x: RaytracingWork)
    requires Work.Valid(x)
    ensures Work.AllValid([x]) && Work.CellsOf([x]) == Work.Remaining(x)
  {
    assert [x][1..] == [];
  }

  lemma {:induction false} CellsOfLines(w: nat, rev: bool, rows: seq<nat>)
    ensures Work.AllValid(Map(LineAt(w, rev), rows))
    ensures Work.CellsOf(Map(LineAt(w, rev), rows)) == Concat(Map(RowOf(w, rev), rows))
  {
    if rows != [] {
      var init, last := rows[..|rows| - 1], rows[|rows| - 1];
      assert rows == init + [last];
      CellsOfLines(w, rev, init);
      MapSnoc(LineAt(w, rev), init, last);
      MapSnoc(RowOf(w, rev), init, last);
      ConcatSnoc(Map(RowOf(w, rev), init), RowOf(w, rev)(last));
      SingletonCells(Work.NewLine(0, last, w, rev));
      Work.CellsOfAppend(Map(LineAt(w, rev), init), [Work.NewLine(0, last, w, rev)]);
    }
  }

  lemma {:induction false} CellsOfStripes(h: nat, rev: bool, cols: seq<nat>)
    ensures Work.AllValid(Map(StripeAt(h, rev), cols))
    ensures Work.CellsOf(Map(StripeAt(h, rev), cols)) == Concat(Map(ColumnOf(h, rev), cols))
  {
    if cols != [] {
      var init, last := cols[..|cols| - 1], cols[|cols| - 1];
      assert cols == init + [last];
      CellsOfStripes(h, rev, init);
      MapSnoc(StripeAt(h, rev), init, last);
      MapSnoc(ColumnOf(h, rev), init, last);
      ConcatSnoc(Map(ColumnOf(h, rev), init), ColumnOf(h, rev)(last));
      SingletonCells(Work.NewStripe(last, 0, h, rev));
      Work.CellsOfAppend(Map(StripeAt(h, rev), init), [Work.NewStripe(last, 0, h, rev)]);
    }
  }

  lemma {:induction false} CellsOfPixelRows(w: nat, rev: bool, rows: seq<nat>)
    ensures Work.AllValid(Concat(Map(PixelRow(w, rev), rows)))
    ensures Work.CellsOf(Concat(Map(PixelRow(w, rev), rows))) == Concat(Map(RowOf(w, rev), rows))
  {
    AllValidConcat(Map(PixelRow(w, rev), rows));
    if rows != [] {
      var init, last := rows[..|rows| - 1], rows[|rows| - 1];
      assert rows == init + [last];
      CellsOfPixelRows(w, rev, init);
      MapSnoc(PixelRow(w, rev), init, last);
      MapSnoc(RowOf(w, rev), init, last);
      ConcatSnoc(Map(PixelRow(w, rev), init), PixelRow(w, rev)(last));
      ConcatSnoc(Map(RowOf(w, rev), init), RowOf(w, rev)(last));
      Work.CellsOfFreshPixels(Work.RunX(0, last, w, rev));
      Work.CellsOfAppend(Concat(Map(PixelRow(w, rev), init)), PixelRow(w, rev)(last));
    }
  }

  lemma {:induction false} CellsOfPixelColumns(h: nat, rev: bool, cols: seq<nat>)
    ensures Work.AllValid(Concat(Map(PixelColumn(h, rev), cols)))
    ensures Work.CellsOf(Concat(Map(PixelColumn(h, rev), cols))) == Concat(Map(ColumnOf(h, rev), cols))
  {
    AllValidConcat(Map(PixelColumn(h, rev), cols));
    if cols != [] {
      var init, last := cols[..|cols| - 1], cols[|cols| - 1];
      assert cols == init + [last];
      CellsOfPixelColumns(h, rev, init);
      MapSnoc(PixelColumn(h, rev), init, last);
      MapSnoc(ColumnOf(h, rev), init, last);
      ConcatSnoc(Map(PixelColumn(h, rev), init), PixelColumn(h, rev)(last));
      ConcatSnoc(Map(ColumnOf(h, rev), init), ColumnOf(h, rev)(last));
      Work.CellsOfFreshPixels(Work.RunY(last, 0, h, rev));
      Work.CellsOfAppend(Concat(Map(PixelColumn(h, rev), init)), PixelColumn(h, rev)(last));
    }
  }

  /** Block `k` of `w` units is the fresh pixels of row `rows[k]`. */
  ghost predicate RowBlocks(works: seq<RaytracingWork>, rows: seq<nat>, w: nat, rev: bool) {
    forall k: nat :: k < |rows| ==>
      k * w + w <= |works| && works[k * w..k * w + w] == Work.FreshPixels(Work.RunX(0, rows[k], w, rev))
  }

  /** Block `k` of `h` units is the fresh pixels of column `cols[k]`. */
  ghost predicate ColumnBlocks(works: seq<RaytracingWork>, cols: seq<nat>, h: nat, rev: bool) {
    forall k: nat :: k < |cols| ==>
      k * h + h <= |works| && works[k * h..k * h + h] == Work.FreshPixels(Work.RunY(cols[k], 0, h, rev))
  }

  lemma PixelRowBlocks(w: nat, rev: bool, rows: seq<nat>)
    ensures |Concat(Map(PixelRow(w, rev), rows))| == |rows| * w
    ensures RowBlocks(Concat(Map(PixelRow(w, rev), rows)), rows, w, rev)
  {
    ConcatUniformSlices(Map(PixelRow(w, rev), rows), w);
  }

  lemma PixelColumnBlocks(h: nat, rev: bool, cols: seq<nat>)
    ensures |Concat(Map(PixelColumn(h, rev), cols))| == |cols| * h
    ensures ColumnBlocks(Concat(Map(PixelColumn(h, rev), cols)), cols, h, rev)
  {
    ConcatUniformSlices(Map(PixelColumn(h, rev), cols), h);
  }

  // ---------------------------------------------------------------------------
  // Properties of the non-tiling modes

  /** `PixelRandom` yields `w * h` fresh pixels whose cells are a
      permutation of the grid: every cell exactly once. */
  lemma PixelRandomCoversGrid(w: nat, h: nat, works: seq<RaytracingWork>)
    requires Generated(PixelRandom, w, h, works)
    ensures |works| == w * h
    ensures forall k :: 0 <= k < |works| ==> works[k] == Work.NewPixel(works[k].x, works[k].y)
    ensures Work.AllValid(works) && CoversOnce(Work.CellsOf(works), w, h)
  {
    var cells :| IsPermutation(cells, Grid(w, h)) && works == Work.FreshPixels(cells);
    Work.CellsOfFreshPixels(cells);
    GridLength(w, h);
    assert |multiset(cells)| == |multiset(Grid(w, h))|;
    RowsCoverOnce(w, h, false, Range(h));
  }

  /** `Line` yields one line work per row, each the whole row anchored at
      `(0, y)`; the rows come in order `0..h`, or in some permutation of it
      when `randomOrderVertical`; together they cover the grid once. */
  lemma LineModeRows(w: nat, h: nat, rev: bool, rnd: bool, works: seq<RaytracingWork>)
    requires Generated(Line(rev, rnd), w, h, works)
    ensures |works| == h
    ensures forall k :: 0 <= k < |works| ==> works[k] == Work.NewLine(0, works[k].y, w, rev)
    ensures OrderOk(seq(|works|, k requires 0 <= k < |works| => works[k].y), h, rnd)
    ensures Work.AllValid(works) && CoversOnce(Work.CellsOf(works), w, h)
  {
    var rows :| OrderOk(rows, h, rnd) && works == Map(LineAt(w, rev), rows);
    assert seq(|works|, k requires 0 <= k < |works| => works[k].y) == rows;
    LinesCoverOnce(w, h, rev, rnd, rows);
  }

  lemma LinesCoverOnce(w: nat, h: nat, rev: bool, rnd: bool, rows: seq<nat>)
    requires OrderOk(rows, h, rnd)
    ensures |rows| == h
    ensures Work.AllValid(Map(LineAt(w, rev), rows)) && CoversOnce(Work.CellsOf(Map(LineAt(w, rev), rows)), w, h)
  {
    OrderPermutes(rows, h, rnd);
    CellsOfLines(w, rev, rows);
    RowsCoverOnce(w, h, rev, rows);
  }

  /** `Stripe` is `Line` with columns in place of rows. */
  lemma StripeModeColumns(w: nat, h: nat, rnd: bool, rev: bool, works: seq<RaytracingWork>)
    requires Generated(Stripe(rnd, rev), w, h, works)
    ensures |works| == w
    ensures forall k :: 0 <= k < |works| ==> works[k] == Work.NewStripe(works[k].x, 0, h, rev)
    ensures OrderOk(seq(|works|, k requires 0 <= k < |works| => works[k].x), w, rnd)
    ensures Work.AllValid(works) && CoversOnce(Work.CellsOf(works), w, h)
  {
    var cols :| OrderOk(cols, w, rnd) && works == Map(StripeAt(h, rev), cols);
    assert seq(|works|, k requires 0 <= k < |works| => works[k].x) == cols;
    StripesCoverOnce(w, h, rev, rnd, cols);
  }

  lemma StripesCoverOnce(w: nat, h: nat, rev: bool, rnd: bool, cols: seq<nat>)
    requires OrderOk(cols, w, rnd)
    ensures |cols| == w
    ensures Work.AllValid(Map(StripeAt(h, rev), cols)) && CoversOnce(Work.CellsOf(Map(StripeAt(h, rev), cols)), w, h)
  {
    OrderPermutes(cols, w, rnd);
    CellsOfStripes(h, rev, cols);
    ColumnsCoverOnce(w, h, rev, cols);
  }

  /** `PixelLine` yields `w * h` fresh pixels, one row at a time: block `k`
      of `w` works is row `rows[k]`, x ascending or descending, and the rows
      follow `0..h` or a permutation of it. */
  lemma PixelLineRows(w: nat, h: nat, rev: bool, rnd: bool, works: seq<RaytracingWork>)
    requires Generated(PixelLine(rev, rnd), w, h, works)
    ensures |works| == h * w
    ensures exists rows :: OrderOk(rows, h, rnd) && |rows| == h && RowBlocks(works, rows, w, rev)
    ensures Work.AllValid(works) && CoversOnce(Work.CellsOf(works), w, h)
  {
    var rows :| OrderOk(rows, h, rnd) && works == Concat(Map(PixelRow(w, rev), rows));
    OrderPermutes(rows, h, rnd);
    PixelRowBlocks(w, rev, rows);
    CellsOfPixelRows(w, rev, rows);
    RowsCoverOnce(w, h, rev, rows);
  }

  /** `PixelStripe` is `PixelLine` with columns in place of rows. */
  lemma PixelStripeColumns(w: nat, h: nat, rnd: bool, rev: bool, works: seq<RaytracingWork>)
    requires Generated(PixelStripe(rnd, rev), w, h, works)
    ensures |works| == w * h
    ensures exists cols :: OrderOk(cols, w, rnd) && |cols| == w && ColumnBlocks(works, cols, h, rev)
    ensures Work.AllValid(works) && CoversOnce(Work.CellsOf(works), w, h)
  {
    var cols :| OrderOk(cols, w, rnd) && works == Concat(Map(PixelColumn(h, rev), cols));
    OrderPermutes(cols, w, rnd);
    PixelColumnBlocks(h, rev, cols);
    CellsOfPixelColumns(h, rev, cols);
    ColumnsCoverOnce(w, h, rev, cols);
  }

  // ---------------------------------------------------------------------------
  // Properties of the tiling modes

  /** Along one axis: every tile but the last is `t` long. Without a border
      the tiles end exactly at `dim`. With a border the last tile starts at
      `(count - 1) * t` and is `t + dim % t` long, so it ends at `dim + t`,
      `t` cells past the edge of the image. */
  lemma TileAxisLayout(dim: nat, t: nat)
    requires t >= 1
    ensures forall i :: 0 <= i < TileCount(dim, t) - 1 ==> TileSize(dim, t, i) == t
    ensures dim % t == 0 ==> TileCount(dim, t) * t == dim && forall i: nat :: TileSize(dim, t, i) == t
    ensures dim % t != 0 ==>
      (TileCount(dim, t) - 1) * t + TileSize(dim, t, TileCount(dim, t) - 1) == dim + t
  {
    assert dim == (dim / t) * t + dim % t;
  }

  lemma AxisVisitsRuns(o: nat, n: nat)
    ensures AxisVisits(true, o, Range(n)) == Work.RunX(0, o, n, false)
    ensures AxisVisits(true, o, RevRange(n)) == Work.RunX(0, o, n, true)
    ensures AxisVisits(false, o, Range(n)) == Work.RunY(o, 0, n, false)
    ensures AxisVisits(false, o, RevRange(n)) == Work.RunY(o, 0, n, true)
  {
  }

  /** `run` is exactly the tiles of row `o` (when `lineFirst`) or column
      `o`, `n` of them: in ascending order for `Forward`, descending for
      `Reverse`, in some order for `Random`. */
  ghost predicate AxisRun(lineFirst: bool, run: seq<Cell>, o: nat, n: nat, order: TileAxisOrder) {
    && IsPermutation(run, if lineFirst then Work.RunX(0, o, n, false) else Work.RunY(o, 0, n, false))
    && (order.Forward? ==> run == if lineFirst then Work.RunX(0, o, n, false) else Work.RunY(o, 0, n, false))
    && (order.Reverse? ==> run == if lineFirst then Work.RunX(0, o, n, true) else Work.RunY(o, 0, n, true))
  }

  lemma VisitRunPermutes(lineFirst: bool, o: nat, inner: seq<nat>, n: nat, order: TileAxisOrder)
    requires AxisOrderOk(inner, n, order)
    ensures |AxisVisits(lineFirst, o, inner)| == n
    ensures AxisRun(lineFirst, AxisVisits(lineFirst, o, inner), o, n, order)
  {
    AxisOrderPermutes(inner, n, order);
    MapPermutation(PairWith(lineFirst, o), inner, Range(n));
    AxisVisitsRuns(o, n);
  }

  lemma VisitBlockLengths(lineFirst: bool, hc: nat, vc: nat, ho: TileAxisOrder, vo: TileAxisOrder,
                          outer: seq<nat>, inners: seq<seq<nat>>, n: nat)
    requires VisitPlan(lineFirst, hc, vc, ho, vo, outer, inners)
    requires n == if lineFirst then hc else vc
    ensures forall k :: 0 <= k < |outer| ==> |VisitBlocks(lineFirst, outer, inners)[k]| == n
  {
    forall k | 0 <= k < |outer|
      ensures |VisitBlocks(lineFirst, outer, inners)[k]| == n
    {
      VisitRunPermutes(lineFirst, outer[k], inners[k], n, if lineFirst then ho else vo);
    }
  }

  /** Every tile index `(i, j)` with `i < hc` and `j < vc` is visited exactly
      once, whatever the axis orders. */
  lemma VisitsCoverTiles(lineFirst: bool, hc: nat, vc: nat, ho: TileAxisOrder, vo: TileAxisOrder,
                         visits: seq<Cell>)
    requires VisitsOk(lineFirst, hc, vc, ho, vo, visits)
    ensures |visits| == hc * vc && CoversOnce(visits, hc, vc)
  {
    var outer, inners :| VisitPlan(lineFirst, hc, vc, ho, vo, outer, inners)
      && visits == TileVisits(lineFirst, outer, inners);
    var blocks := VisitBlocks(lineFirst, outer, inners);
    var n := if lineFirst then hc else vc;
    forall k | 0 <= k < |outer|
      ensures |blocks[k]| == n
      ensures IsPermutation(blocks[k], (if lineFirst then RowOf(hc, false) else ColumnOf(vc, false))(outer[k]))
    {
      VisitRunPermutes(lineFirst, outer[k], inners[k], n, if lineFirst then ho else vo);
    }
    ConcatUniformLength(blocks, n);
    if lineFirst {
      AxisOrderPermutes(outer, vc, vo);
      ConcatPointwisePermutation(blocks, Map(RowOf(hc, false), outer));
      RowsCoverOnce(hc, vc, false, outer);
    } else {
      AxisOrderPermutes(outer, hc, ho);
      ConcatPointwisePermutation(blocks, Map(ColumnOf(vc, false), outer));
      ColumnsCoverOnce(hc, vc, false, outer);
    }
  }

  /** Run `k` of `n` visits is the row or column `outer[k]`, in `order`. */
  ghost predicate InRuns(lineFirst: bool, visits: seq<Cell>, outer: seq<nat>, n: nat, order: TileAxisOrder) {
    forall k: nat :: k < |outer| ==> RunAt(lineFirst, visits, outer, n, order, k)
  }

  /** Run `k` of the visits is the row or column of `outer[k]`. */
  ghost predicate RunAt(lineFirst: bool, visits: seq<Cell>, outer: seq<nat>, n: nat, order: TileAxisOrder, k: nat)
    requires k < |outer|
  {
    k * n + n <= |visits| && AxisRun(lineFirst, visits[k * n..k * n + n], outer[k], n, order)
  }

  /** The tiles are visited in runs, one per outer index: `LineFirst*`
      visits row by row, run `k` being the `hc` tiles of row `outer[k]` in
      the horizontal order, and `StripeFirst*` column by column, run `k`
      being the `vc` tiles of column `outer[k]` in the vertical order; the
      outer indices follow the other axis's order. */
  lemma VisitsInRuns(lineFirst: bool, hc: nat, vc: nat, ho: TileAxisOrder, vo: TileAxisOrder, visits: seq<Cell>)
    requires VisitsOk(lineFirst, hc, vc, ho, vo, visits)
    ensures exists outer ::
      && AxisOrderOk(outer, if lineFirst then vc else hc, if lineFirst then vo else ho)
      && |outer| == (if lineFirst then vc else hc)
      && InRuns(lineFirst, visits, outer, if lineFirst then hc else vc, if lineFirst then ho else vo)
  {
    var outer, inners :| VisitPlan(lineFirst, hc, vc, ho, vo, outer, inners)
      && visits == TileVisits(lineFirst, outer, inners);
    AxisOrderPermutes(outer, if lineFirst then vc else hc, if lineFirst then vo else ho);
    PlanInRuns(lineFirst, hc, vc, ho, vo, outer, inners, visits, if lineFirst then hc else vc,
               if lineFirst then ho else vo);
  }

  lemma PlanInRuns(lineFirst: bool, hc: nat, vc: nat, ho: TileAxisOrder, vo: TileAxisOrder,
                   outer: seq<nat>, inners: seq<seq<nat>>, visits: seq<Cell>, n: nat, order: TileAxisOrder)
    requires VisitPlan(lineFirst, hc, vc, ho, vo, outer, inners)
    requires visits == TileVisits(lineFirst, outer, inners)
    requires n == (if lineFirst then hc else vc) && order == if lineFirst then ho else vo
    ensures InRuns(lineFirst, visits, outer, n, order)
  {
    forall k: nat | k < |outer|
      ensures RunAt(lineFirst, visits, outer, n, order, k)
    {
      PlanRun(lineFirst, hc, vc, ho, vo, outer, inners, k, visits, n, order);
    }
  }

  /** Run `k` of the visits is the `k`-th outer index's row or column. */
  lemma PlanRun(lineFirst: bool, hc: nat, vc: nat, ho: TileAxisOrder, vo: TileAxisOrder,
                outer: seq<nat>, inners: seq<seq<nat>>, k: nat, visits: seq<Cell>, n: nat, order: TileAxisOrder)
    requires VisitPlan(lineFirst, hc, vc, ho, vo, outer, inners) && k < |outer|
    requires visits == TileVisits(lineFirst, outer, inners)
    requires n == (if lineFirst then hc else vc) && order == if lineFirst then ho else vo
    ensures k * n + n <= |visits| && visits[k * n..k * n + n] == AxisVisits(lineFirst, outer[k], inners[k])
    ensures AxisRun(lineFirst, visits[k * n..k * n + n], outer[k], n, order)
  {
    VisitBlockLengths(lineFirst, hc, vc, ho, vo, outer, inners, n);
    ConcatUniformSlice(VisitBlocks(lineFirst, outer, inners), n, k);
    VisitRunPermutes(lineFirst, outer[k], inners[k], n, order);
  }

  /** With both axes `Forward`, `LineFirst*` visits tiles in row-major order
      and `StripeFirst*` in column-major order. */
  lemma ForwardVisitsInGridOrder(lineFirst: bool, hc: nat, vc: nat, visits: seq<Cell>)
    requires VisitsOk(lineFirst, hc, vc, Forward, Forward, visits)
    ensures lineFirst ==> visits == Grid(hc, vc)
    ensures !lineFirst ==> visits == Concat(Map(ColumnOf(vc, false), Range(hc)))
  {
    var outer, inners :| VisitPlan(lineFirst, hc, vc, Forward, Forward, outer, inners)
      && visits == TileVisits(lineFirst, outer, inners);
    var blocks := VisitBlocks(lineFirst, outer, inners);
    forall k | 0 <= k < |outer|
      ensures blocks[k] == (if lineFirst then RowOf(hc, false) else ColumnOf(vc, false))(k)
    {
      VisitRunPermutes(lineFirst, outer[k], inners[k], if lineFirst then hc else vc, Forward);
    }
    if lineFirst {
      assert blocks == Map(RowOf(hc, false), Range(vc));
    } else {
      assert blocks == Map(ColumnOf(vc, false), Range(hc));
    }
  }

  /** Unit `t` of a `*Tile` mode's output: a Tile anchored at the top-left
      corner `(i * tileWidth, j * tileHeight)` of the tile `v = (i, j)`,
      holding some output of the sub-mode at that tile's size. */
  ghost predicate TileAt(m: GenerationMode, w: nat, h: nat, v: Cell, work: RaytracingWork)
    requires WellFormed(m) && IsTileMode(m)
  {
    exists sub ::
      && Work.AllValid(sub)
      && Generated(m.subGenerationMode, TileSize(w, m.tileWidth, v.0), TileSize(h, m.tileHeight, v.1), sub)
      && work == Work.NewTile(v.0 * m.tileWidth, v.1 * m.tileHeight, sub)
  }

  lemma {:induction false} AssembleWrapped(tw: nat, th: nat, visits: seq<Cell>, subs: seq<seq<RaytracingWork>>)
    requires |subs| == |visits| && SubsValid(subs)
    ensures |Assemble(true, tw, th, visits, subs)| == |visits|
    ensures forall t :: 0 <= t < |visits| ==>
      Assemble(true, tw, th, visits, subs)[t] == Work.NewTile(visits[t].0 * tw, visits[t].1 * th, subs[t])
  {
    if visits != [] {
      AssembleWrapped(tw, th, visits[..|visits| - 1], subs[..|subs| - 1]);
    }
  }

  lemma {:induction false} AssembleUnwrapped(tw: nat, th: nat, visits: seq<Cell>, subs: seq<seq<RaytracingWork>>)
    requires |subs| == |visits| && SubsValid(subs)
    ensures Assemble(false, tw, th, visits, subs) == Concat(subs)
  {
    if visits != [] {
      AssembleUnwrapped(tw, th, visits[..|visits| - 1], subs[..|subs| - 1]);
    }
  }

  /** `LineFirstTile` and `StripeFirstTile` yield one Tile per tile of the
      `TileCount(w) × TileCount(h)` tile grid, each tile exactly once, in
      the visiting order; see `TileAt`. */
  lemma WrappedTileLayout(m: GenerationMode, w: nat, h: nat, works: seq<RaytracingWork>)
    requires WellFormed(m) && Wrapped(m) && Generated(m, w, h, works)
    ensures |works| == TileCount(w, m.tileWidth) * TileCount(h, m.tileHeight)
    ensures exists visits ::
      && VisitsOk(LineFirst(m), TileCount(w, m.tileWidth), TileCount(h, m.tileHeight),
                  m.horizontalOrder, m.verticalOrder, visits)
      && CoversOnce(visits, TileCount(w, m.tileWidth), TileCount(h, m.tileHeight))
      && |visits| == |works|
      && forall t :: 0 <= t < |works| ==> TileAt(m, w, h, visits[t], works[t])
  {
    var hc, vc := TileCount(w, m.tileWidth), TileCount(h, m.tileHeight);
    var visits :| VisitsOk(LineFirst(m), hc, vc, m.horizontalOrder, m.verticalOrder, visits)
      && TilesGenerated(m, w, h, visits, works);
    var subs :| SubsOk(m, w, h, visits, subs)
      && works == Assemble(true, m.tileWidth, m.tileHeight, visits, subs);
    VisitsCoverTiles(LineFirst(m), hc, vc, m.horizontalOrder, m.verticalOrder, visits);
    AssembleWrapped(m.tileWidth, m.tileHeight, visits, subs);
    forall t | 0 <= t < |works|
      ensures TileAt(m, w, h, visits[t], works[t])
    {
      assert Work.AllValid(subs[t]);
    }
  }

  /** `LineFirstPixelTile` and `StripeFirstPixelTile` append each visited
      tile's sub-works exactly as the sub-mode produced them: the sub-works
      are never moved to the tile's position. */
  lemma PixelTileLayout(m: GenerationMode, w: nat, h: nat, works: seq<RaytracingWork>)
    requires WellFormed(m) && IsTileMode(m) && !Wrapped(m) && Generated(m, w, h, works)
    ensures exists visits, subs ::
      && VisitsOk(LineFirst(m), TileCount(w, m.tileWidth), TileCount(h, m.tileHeight),
                  m.horizontalOrder, m.verticalOrder, visits)
      && CoversOnce(visits, TileCount(w, m.tileWidth), TileCount(h, m.tileHeight))
      && SubsOk(m, w, h, visits, subs)
      && works == Concat(subs)
  {
    var hc, vc := TileCount(w, m.tileWidth), TileCount(h, m.tileHeight);
    var visits :| VisitsOk(LineFirst(m), hc, vc, m.horizontalOrder, m.verticalOrder, visits)
      && TilesGenerated(m, w, h, visits, works);
    var subs :| SubsOk(m, w, h, visits, subs)
      && works == Assemble(false, m.tileWidth, m.tileHeight, visits, subs);
    VisitsCoverTiles(LineFirst(m), hc, vc, m.horizontalOrder, m.verticalOrder, visits);
    AssembleUnwrapped(m.tileWidth, m.tileHeight, visits, subs);
  }

  // ---------------------------------------------------------------------------
  // Exact tilings cover the image once

  lemma MulMono(a: nat, b: nat, t: nat)
    requires a <= b
    ensures a * t <= b * t
  {
    assert b * t == a * t + (b - a) * t;
  }

  /** `a / t == i` exactly when `a` lies in the `i`-th block of `t` cells. */
  lemma DivBlock(a: nat, t: nat, i: nat)
    requires t >= 1
    ensures (i * t <= a < i * t + t) <==> a / t == i
  {
    var q := a / t;
    assert a == q * t + a % t;
    assert (i + 1) * t == i * t + t && (q + 1) * t == q * t + t;
    if i * t <= a < i * t + t {
      if q > i {
        MulMono(i + 1, q, t);
      } else if q < i {
        MulMono(q + 1, i, t);
      }
    }
  }

  /** With `count` tiles of `t` cells, coordinate `a` lies in the tiled
      area exactly when its tile index is below `count`. */
  lemma TileIndexBelow(a: nat, t: nat, count: nat)
    requires t >= 1
    ensures a < count * t <==> a / t < count
  {
    var q := a / t;
    DivBlock(a, t, q);
    if q < count {
      MulMono(q + 1, count, t);
      assert (q + 1) * t == q * t + t;
    } else {
      MulMono(count, q, t);
    }
  }

  lemma {:induction false} ShiftCount(cells: seq<Cell>, dx: nat, dy: nat, c: Cell)
    ensures multiset(Work.Shift(cells, dx, dy))[c]
      == if c.0 >= dx && c.1 >= dy then multiset(cells)[(c.0 - dx, c.1 - dy)] else 0
  {
    if cells != [] {
      var init, last := cells[..|cells| - 1], cells[|cells| - 1];
      assert cells == init + [last];
      assert Work.Shift(cells, dx, dy) == Work.Shift(init, dx, dy) + [(last.0 + dx, last.1 + dy)];
      ShiftCount(init, dx, dy, c);
    }
  }

  /** A tile's cells, moved to the corner of tile `v`, are exactly the cells
      whose tile index is `v`. */
  lemma ShiftedTileCount(cells: seq<Cell>, tw: nat, th: nat, v: Cell, c: Cell)
    requires tw >= 1 && th >= 1 && CoversOnce(cells, tw, th)
    ensures multiset(Work.Shift(cells, v.0 * tw, v.1 * th))[c] == if (c.0 / tw, c.1 / th) == v then 1 else 0
  {
    ShiftCount(cells, v.0 * tw, v.1 * th, c);
    DivBlock(c.0, tw, v.0);
    DivBlock(c.1, th, v.1);
  }

  /** Each tile's sub-works cover a `tw × th` tile once. */
  ghost predicate SubsCoverTiles(subs: seq<seq<RaytracingWork>>, tw: nat, th: nat) {
    forall t :: 0 <= t < |subs| ==> Work.AllValid(subs[t]) && CoversOnce(Work.CellsOf(subs[t]), tw, th)
  }

  lemma SubsCoverPrefix(subs: seq<seq<RaytracingWork>>, n: nat, tw: nat, th: nat)
    requires n <= |subs| && SubsCoverTiles(subs, tw, th)
    ensures SubsCoverTiles(subs[..n], tw, th)
  {
    forall t | 0 <= t < n
      ensures Work.AllValid(subs[..n][t]) && CoversOnce(Work.CellsOf(subs[..n][t]), tw, th)
    {
      assert subs[..n][t] == subs[t];
    }
  }

  lemma AssembleCellsSnoc(tw: nat, th: nat, visits: seq<Cell>, subs: seq<seq<RaytracingWork>>)
    requires |subs| == |visits| > 0 && SubsValid(subs)
    ensures Work.AllValid(Assemble(true, tw, th, visits, subs))
    ensures Work.AllValid(Assemble(true, tw, th, visits[..|visits| - 1], subs[..|subs| - 1]))
    ensures Work.CellsOf(Assemble(true, tw, th, visits, subs))
      == Work.CellsOf(Assemble(true, tw, th, visits[..|visits| - 1], subs[..|subs| - 1]))
         + Work.Shift(Work.CellsOf(subs[|subs| - 1]), visits[|visits| - 1].0 * tw, visits[|visits| - 1].1 * th)
  {
    var n := |visits| - 1;
    var tile := Work.NewTile(visits[n].0 * tw, visits[n].1 * th, subs[n]);
    AssembleValid(true, tw, th, visits, subs);
    AssembleValid(true, tw, th, visits[..n], subs[..n]);
    SingletonCells(tile);
    Work.CellsOfAppend(Assemble(true, tw, th, visits[..n], subs[..n]), [tile]);
  }

  /** Wrapped tiles whose sub-works each cover a `tw × th` tile once hand
      out cell `c` as often as its tile is visited. */
  lemma {:induction false} AssembleCount(tw: nat, th: nat, visits: seq<Cell>, subs: seq<seq<RaytracingWork>>, c: Cell)
    requires tw >= 1 && th >= 1 && |subs| == |visits| && SubsCoverTiles(subs, tw, th)
    ensures Work.AllValid(Assemble(true, tw, th, visits, subs))
    ensures multiset(Work.CellsOf(Assemble(true, tw, th, visits, subs)))[c] == multiset(visits)[(c.0 / tw, c.1 / th)]
  {
    AssembleValid(true, tw, th, visits, subs);
    var key := (c.0 / tw, c.1 / th);
    if visits == [] {
      assert Assemble(true, tw, th, visits, subs) == [];
    } else {
      var n := |visits| - 1;
      assert visits == visits[..n] + [visits[n]];
      SubsCoverPrefix(subs, n, tw, th);
      AssembleCount(tw, th, visits[..n], subs[..n], c);
      AssembleCellsSnoc(tw, th, visits, subs);
      var before := Work.CellsOf(Assemble(true, tw, th, visits[..n], subs[..n]));
      var added := Work.Shift(Work.CellsOf(subs[n]), visits[n].0 * tw, visits[n].1 * th);
      ShiftedTileCount(Work.CellsOf(subs[n]), tw, th, visits[n], c);
      var hit := if key == visits[n] then 1 else 0;
      assert multiset(added)[c] == hit;
      CountAppend(before, added, c);
      CountAppend(visits[..n], [visits[n]], key);
      calc {
        multiset(Work.CellsOf(Assemble(true, tw, th, visits, subs)))[c];
        multiset(before + added)[c];
        multiset(before)[c] + hit;
        multiset(visits[..n])[key] + hit;
        multiset(visits)[key];
      }
    }
  }

  lemma CountAppend<T>(a: seq<T>, b: seq<T>, x: T)
    ensures multiset(a + b)[x] == multiset(a)[x] + multiset(b)[x]
  {
  }

  /** An exact tiling: every tiling level wraps its tiles, and its tile
      sizes divide the area it splits. */
  predicate ExactTiling(m: GenerationMode, w: nat, h: nat)
    requires WellFormed(m)
    decreases m
  {
    IsTileMode(m) ==>
      && Wrapped(m) && w % m.tileWidth == 0 && h % m.tileHeight == 0
      && ExactTiling(m.subGenerationMode, m.tileWidth, m.tileHeight)
  }

  /** Under an exact tiling, and always for the five non-tiling modes, the
      generated units hand out every pixel of the image exactly once. */
  lemma {:induction false} ExactTilingCoversOnce(m: GenerationMode, w: nat, h: nat, works: seq<RaytracingWork>)
    requires WellFormed(m) && ExactTiling(m, w, h) && Generated(m, w, h, works)
    ensures Work.AllValid(works) && CoversOnce(Work.CellsOf(works), w, h)
    decreases m, 1
  {
    match m
    case PixelRandom => PixelRandomCoversGrid(w, h, works);
    case Line(rev, rnd) => LineModeRows(w, h, rev, rnd, works);
    case PixelLine(rev, rnd) => PixelLineRows(w, h, rev, rnd, works);
    case Stripe(rnd, rev) => StripeModeColumns(w, h, rnd, rev, works);
    case PixelStripe(rnd, rev) => PixelStripeColumns(w, h, rnd, rev, works);
    case _ => ExactTileCovers(m, w, h, works);
  }

  lemma {:induction false} ExactTileCovers(m: GenerationMode, w: nat, h: nat, works: seq<RaytracingWork>)
    requires WellFormed(m) && IsTileMode(m) && ExactTiling(m, w, h) && TileModeGenerated(m, w, h, works)
    ensures Work.AllValid(works) && CoversOnce(Work.CellsOf(works), w, h)
    decreases m, 0
  {
    var tw, th := m.tileWidth, m.tileHeight;
    var hc, vc := TileCount(w, tw), TileCount(h, th);
    var visits :| VisitsOk(LineFirst(m), hc, vc, m.horizontalOrder, m.verticalOrder, visits)
      && TilesGenerated(m, w, h, visits, works);
    var subs :| SubsOk(m, w, h, visits, subs) && works == Assemble(true, tw, th, visits, subs);
    TileAxisLayout(w, tw);
    TileAxisLayout(h, th);
    forall t | 0 <= t < |subs|
      ensures Work.AllValid(subs[t]) && CoversOnce(Work.CellsOf(subs[t]), tw, th)
    {
      ExactTilingCoversOnce(m.subGenerationMode, tw, th, subs[t]);
    }
    assert SubsCoverTiles(subs, tw, th);
    VisitsCoverTiles(LineFirst(m), hc, vc, m.horizontalOrder, m.verticalOrder, visits);
    AssembleCovers(tw, th, hc, vc, visits, subs);
  }

  /** Wrapped tiles visiting each of `hc × vc` tiles once, each covering its
      `tw × th` tile once, cover the `hc * tw × vc * th` area once. */
  lemma AssembleCovers(tw: nat, th: nat, hc: nat, vc: nat, visits: seq<Cell>, subs: seq<seq<RaytracingWork>>)
    requires tw >= 1 && th >= 1 && |subs| == |visits| && CoversOnce(visits, hc, vc)
    requires SubsCoverTiles(subs, tw, th)
    ensures Work.AllValid(Assemble(true, tw, th, visits, subs))
    ensures CoversOnce(Work.CellsOf(Assemble(true, tw, th, visits, subs)), hc * tw, vc * th)
  {
    AssembleValid(true, tw, th, visits, subs);
    forall c: Cell
      ensures multiset(Work.CellsOf(Assemble(true, tw, th, visits, subs)))[c]
        == if c.0 < hc * tw && c.1 < vc * th then 1 else 0
    {
      AssembleCount(tw, th, visits, subs, c);
      CellCountFromTiles(Work.CellsOf(Assemble(true, tw, th, visits, subs)), visits, tw, th, hc, vc, c);
    }
  }

  /** Cell `c` occurs in `cells` as often as its tile in `visits`, and
      `visits` covers the `hc × vc` tiles once: then `c` occurs once inside
      the tiled area and never outside it. */
  lemma CellCountFromTiles(cells: seq<Cell>, visits: seq<Cell>, tw: nat, th: nat, hc: nat, vc: nat, c: Cell)
    requires tw >= 1 && th >= 1 && CoversOnce(visits, hc, vc)
    requires multiset(cells)[c] == multiset(visits)[(c.0 / tw, c.1 / th)]
    ensures multiset(cells)[c] == if c.0 < hc * tw && c.1 < vc * th then 1 else 0
  {
    TileIndexBelow(c.0, tw, hc);
    TileIndexBelow(c.1, th, vc);
    CoversOnceAt(visits, hc, vc, (c.0 / tw, c.1 / th));
  }

  // ---------------------------------------------------------------------------
  // The two tiling quirks, on concrete inputs

  lemma LineSingleRow(w: nat, works: seq<RaytracingWork>)
    requires Generated(Line(false, false), w, 1, works)
    ensures works == [Work.NewLine(0, 0, w, false)]
    ensures Work.AllValid(works) && Work.CellsOf(works) == Work.RunX(0, 0, w, false)
  {
    var rows :| OrderOk(rows, 1, false) && works == Map(LineAt(w, false), rows);
    assert rows == [0];
    SingletonCells(Work.NewLine(0, 0, w, false));
  }

  lemma PixelRandomSingleCell(works: seq<RaytracingWork>)
    requires Generated(PixelRandom, 1, 1, works)
    ensures works == [Work.NewPixel(0, 0)]
  {
    PixelRandomCoversGrid(1, 1, works);
    var x, y := works[0].x, works[0].y;
    assert works == [Work.NewPixel(x, y)];
    SingletonCells(Work.NewPixel(x, y));
    assert Work.CellsOf(works) == [(x, y)];
    assert multiset(Work.CellsOf(works))[(x, y)] == 1;
  }

  /** The border overshoot: a 3 × 1 image in 2 × 1 tiles, each tile one
      forward line. The border tile is 3 cells wide where 1 remains, so the
      cells handed out run to x = 4, past the last column x = 2. */
  lemma BorderTileOvershoots(works: seq<RaytracingWork>)
    requires Generated(LineFirstTile(2, 1, Forward, Forward, Line(false, false)), 3, 1, works)
    ensures Work.AllValid(works)
    ensures Work.CellsOf(works) == [(0, 0), (1, 0), (2, 0), (3, 0), (4, 0)]
  {
    BorderTileWorks(works);
    BorderTileCells();
  }

  lemma BorderTileCells()
    ensures var ws := [Work.NewTile(0, 0, [Work.NewLine(0, 0, 2, false)]), Work.NewTile(2, 0, [Work.NewLine(0, 0, 3, false)])];
      Work.AllValid(ws) && Work.CellsOf(ws) == [(0, 0), (1, 0), (2, 0), (3, 0), (4, 0)]
  {
    var l0, l1 := Work.NewLine(0, 0, 2, false), Work.NewLine(0, 0, 3, false);
    SingletonCells(l0);
    SingletonCells(l1);
    var t0, t1 := Work.NewTile(0, 0, [l0]), Work.NewTile(2, 0, [l1]);
    var r0, r1 := Work.RunX(0, 0, 2, false), Work.RunX(0, 0, 3, false);
    assert r0 == [(0, 0), (1, 0)];
    assert r1 == [(0, 0), (1, 0), (2, 0)];
    assert Work.Remaining(t0) == Work.Shift(r0, 0, 0) == [(0, 0), (1, 0)];
    assert Work.Remaining(t1) == Work.Shift(r1, 2, 0) == [(2, 0), (3, 0), (4, 0)];
    SingletonCells(t0);
    SingletonCells(t1);
    Work.CellsOfAppend([t0], [t1]);
    assert [t0, t1] == [t0] + [t1];
  }

  lemma BorderTileWorks(works: seq<RaytracingWork>)
    requires Generated(LineFirstTile(2, 1, Forward, Forward, Line(false, false)), 3, 1, works)
    ensures works == [Work.NewTile(0, 0, [Work.NewLine(0, 0, 2, false)]),
                      Work.NewTile(2, 0, [Work.NewLine(0, 0, 3, false)])]
  {
    var m := LineFirstTile(2, 1, Forward, Forward, Line(false, false));
    assert TileCount(3, 2) == 2 && TileCount(1, 1) == 1;
    TwoForwardTiles(m, 3, 1, works);
    var s0, s1 :| TwoTileWorks(m, 3, 1, s0, s1, works);
    assert TileSize(3, 2, 0) == 2 && TileSize(3, 2, 1) == 3 && TileSize(1, 1, 0) == 1;
    LineSingleRow(2, s0);
    LineSingleRow(3, s1);
  }

  /** A two-tile output: the sub-mode's works `s0` and `s1` for the tiles
      `(0, 0)` and `(1, 0)`, wrapped or appended. */
  ghost predicate TwoTileWorks(m: GenerationMode, w: nat, h: nat, s0: seq<RaytracingWork>,
                               s1: seq<RaytracingWork>, works: seq<RaytracingWork>)
    requires WellFormed(m) && IsTileMode(m)
  {
    && Generated(m.subGenerationMode, TileSize(w, m.tileWidth, 0), TileSize(h, m.tileHeight, 0), s0)
    && Generated(m.subGenerationMode, TileSize(w, m.tileWidth, 1), TileSize(h, m.tileHeight, 0), s1)
    && Work.AllValid(s0) && Work.AllValid(s1)
    && works == if Wrapped(m) then [Work.NewTile(0, 0, s0), Work.NewTile(m.tileWidth, 0, s1)] else s0 + s1
  }

  /** A line-first forward tiling of two tiles side by side. */
  lemma TwoForwardTiles(m: GenerationMode, w: nat, h: nat, works: seq<RaytracingWork>)
    requires WellFormed(m) && IsTileMode(m) && LineFirst(m)
    requires m.horizontalOrder == Forward && m.verticalOrder == Forward
    requires TileCount(w, m.tileWidth) == 2 && TileCount(h, m.tileHeight) == 1
    requires Generated(m, w, h, works)
    ensures exists s0, s1 :: TwoTileWorks(m, w, h, s0, s1, works)
  {
    assert TileModeGenerated(m, w, h, works);
    var visits :| VisitsOk(true, 2, 1, Forward, Forward, visits) && TilesGenerated(m, w, h, visits, works);
    TwoTileVisits(visits);
    var subs :| SubsOk(m, w, h, visits, subs)
      && works == Assemble(Wrapped(m), m.tileWidth, m.tileHeight, visits, subs);
    TwoTilesFromSubs(m, w, h, subs, works);
  }

  lemma TwoTilesFromSubs(m: GenerationMode, w: nat, h: nat, subs: seq<seq<RaytracingWork>>,
                         works: seq<RaytracingWork>)
    requires WellFormed(m) && IsTileMode(m)
    requires SubsOk(m, w, h, [(0, 0), (1, 0)], subs)
    requires works == Assemble(Wrapped(m), m.tileWidth, m.tileHeight, [(0, 0), (1, 0)], subs)
    ensures TwoTileWorks(m, w, h, subs[0], subs[1], works)
  {
    var visits: seq<Cell> := [(0, 0), (1, 0)];
    assert visits[0] == (0, 0) && visits[1] == (1, 0);
    assert Work.AllValid(subs[0]) && Work.AllValid(subs[1]);
    AssembleTwo(Wrapped(m), m.tileWidth, m.tileHeight, visits, subs);
    assert visits[0].0 * m.tileWidth == 0 && visits[1].0 * m.tileWidth == m.tileWidth;
    assert visits[0].1 * m.tileHeight == 0 && visits[1].1 * m.tileHeight == 0;
  }

  /** The works assembled from two visited tiles. */
  lemma AssembleTwo(wrap: bool, tw: nat, th: nat, visits: seq<Cell>, subs: seq<seq<RaytracingWork>>)
    requires |visits| == 2 && |subs| == 2 && Work.AllValid(subs[0]) && Work.AllValid(subs[1])
    ensures SubsValid(subs)
    ensures wrap ==> (Assemble(wrap, tw, th, visits, subs)
      == [Work.NewTile(visits[0].0 * tw, visits[0].1 * th, subs[0]),
          Work.NewTile(visits[1].0 * tw, visits[1].1 * th, subs[1])])
    ensures !wrap ==> Assemble(wrap, tw, th, visits, subs) == subs[0] + subs[1]
  {
    AssembleSnoc(wrap, tw, th, [], [], visits[0], subs[0]);
    assert [] + [visits[0]] == [visits[0]] && [] + [subs[0]] == [subs[0]];
    AssembleSnoc(wrap, tw, th, [visits[0]], [subs[0]], visits[1], subs[1]);
    assert [visits[0]] + [visits[1]] == visits && [subs[0]] + [subs[1]] == subs;
  }

  lemma TwoTileVisits(visits: seq<Cell>)
    requires VisitsOk(true, 2, 1, Forward, Forward, visits)
    ensures visits == [(0, 0), (1, 0)]
  {
    ForwardVisitsInGridOrder(true, 2, 1, visits);
    GridSnoc(2, 0);
    assert Work.RunX(0, 0, 2, false) == [(0, 0), (1, 0)];
  }

  /** The missing offset: a 2 × 1 image in 1 × 1 pixel tiles. Both tiles
      yield the pixel (0, 0), and the pixel (1, 0) is never handed out. */
  lemma PixelTilesRepeatOrigin(works: seq<RaytracingWork>)
    requires Generated(LineFirstPixelTile(1, 1, Forward, Forward, PixelRandom), 2, 1, works)
    ensures works == [Work.NewPixel(0, 0), Work.NewPixel(0, 0)]
    ensures Work.AllValid(works) && (1, 0) !in Work.CellsOf(works)
  {
    PixelTileWorks(works);
    var p := Work.NewPixel(0, 0);
    SingletonCells(p);
    Work.CellsOfAppend([p], [p]);
    assert works == [p] + [p];
  }

  lemma PixelTileWorks(works: seq<RaytracingWork>)
    requires Generated(LineFirstPixelTile(1, 1, Forward, Forward, PixelRandom), 2, 1, works)
    ensures works == [Work.NewPixel(0, 0), Work.NewPixel(0, 0)]
  {
    var m := LineFirstPixelTile(1, 1, Forward, Forward, PixelRandom);
    assert TileCount(2, 1) == 2 && TileCount(1, 1) == 1;
    TwoForwardTiles(m, 2, 1, works);
    var s0, s1 :| TwoTileWorks(m, 2, 1, s0, s1, works);
    assert TileSize(2, 1, 0) == 1 && TileSize(2, 1, 1) == 1 && TileSize(1, 1, 0) == 1;
    PixelRandomSingleCell(s0);
    PixelRandomSingleCell(s1);
  }

  // ---------------------------------------------------------------------------
  // Building a mode from the mode tree

  /** `index_to_tile_axis_order`: combo index 1 is Reverse, 2 is Random, and
      every other index is Forward. */
  function IndexToTileAxisOrder(index: nat): (o: TileAxisOrder)
    ensures o.Reverse? <==> index == 1
    ensures o.Random? <==> index == 2
  {
    match index
    case 1 => Reverse
    case 2 => Random
    case _ => Forward
  }

  /** The combo index the GUI shows for an order. */
  function AxisOrderIndex(o: TileAxisOrder): (i: nat)
    ensures i <= 2
  {
    match o
    case Forward => 0
    case Reverse => 1
    case Random => 2
  }

  /** Every order has an index that maps back to it; an index maps to an
      order whose index is itself when it is at most 2, and 0 otherwise. */
  lemma AxisOrderIndexRoundTrip(o: TileAxisOrder, i: nat)
    ensures IndexToTileAxisOrder(AxisOrderIndex(o)) == o
    ensures AxisOrderIndex(IndexToTileAxisOrder(i)) == if i <= 2 then i else 0
  {
  }

  /** The settings variants `from_gui_mode_tree` reads
      (src/raytracing/work/generator.rs:446-531); the axis orders are combo
      indices. */
  datatype TreeSettings =
    | PixelRandomSettings
    | LineSettings(reverseOrderHorizontal: bool, randomOrderVertical: bool)
    | PixelLineSettings(reverseOrderHorizontal: bool, randomOrderVertical: bool)
    | StripeSettings(randomOrderHorizontal: bool, reverseOrderVertical: bool)
    | PixelStripeSettings(randomOrderHorizontal: bool, reverseOrderVertical: bool)
    | LineFirstTileSettings(tileWidth: nat, tileHeight: nat, horizontalOrder: nat, verticalOrder: nat)
    | StripeFirstTileSettings(tileWidth: nat, tileHeight: nat, horizontalOrder: nat, verticalOrder: nat)
    | LineFirstPixelTileSettings(tileWidth: nat, tileHeight: nat, horizontalOrder: nat, verticalOrder: nat)
    | StripeFirstPixelTileSettings(tileWidth: nat, tileHeight: nat, horizontalOrder: nat, verticalOrder: nat)

  /** The part of a mode tree `from_gui_mode_tree` reads: a node's settings
      and its optional sub-tree. */
  datatype ModeTree = ModeTree(settings: TreeSettings, subTree: Option<ModeTree>)

  predicate IsTileSettings(s: TreeSettings) {
    s.LineFirstTileSettings? || s.StripeFirstTileSettings?
      || s.LineFirstPixelTileSettings? || s.StripeFirstPixelTileSettings?
  }

  /** Every tiling node has a sub-tree: `from_gui_mode_tree` panics on a
      tiling node without one. */
  predicate SubTreesPresent(t: ModeTree)
    decreases t
  {
    IsTileSettings(t.settings) ==> t.subTree.Some? && SubTreesPresent(t.subTree.value)
  }

  /** Every tiling node has non-zero tile sizes. */
  predicate TileSizesPositive(t: ModeTree)
    requires SubTreesPresent(t)
    decreases t
  {
    IsTileSettings(t.settings) ==>
      t.settings.tileWidth >= 1 && t.settings.tileHeight >= 1 && TileSizesPositive(t.subTree.value)
  }

  /** `GenerationMode::from_gui_mode_tree`
      (src/raytracing/work/generator.rs:445-551). The result tiles exactly
      when the node does, and it can be used by `to_work` exactly when every
      tiling node has non-zero tile sizes. */
  function FromGuiModeTree(t: ModeTree): (m: GenerationMode)
    requires SubTreesPresent(t)
    ensures IsTileMode(m) <==> IsTileSettings(t.settings)
    ensures WellFormed(m) <==> TileSizesPositive(t)
    decreases t
  {
    match t.settings
    case PixelRandomSettings => PixelRandom
    case LineSettings(rev, rnd) => Line(rev, rnd)
    case PixelLineSettings(rev, rnd) => PixelLine(rev, rnd)
    case StripeSettings(rnd, rev) => Stripe(rnd, rev)
    case PixelStripeSettings(rnd, rev) => PixelStripe(rnd, rev)
    case LineFirstTileSettings(tw, th, ho, vo) =>
      LineFirstTile(tw, th, IndexToTileAxisOrder(ho), IndexToTileAxisOrder(vo), FromGuiModeTree(t.subTree.value))
    case StripeFirstTileSettings(tw, th, ho, vo) =>
      StripeFirstTile(tw, th, IndexToTileAxisOrder(ho), IndexToTileAxisOrder(vo), FromGuiModeTree(t.subTree.value))
    case LineFirstPixelTileSettings(tw, th, ho, vo) =>
      LineFirstPixelTile(tw, th, IndexToTileAxisOrder(ho), IndexToTileAxisOrder(vo), FromGuiModeTree(t.subTree.value))
    case StripeFirstPixelTileSettings(tw, th, ho, vo) =>
      StripeFirstPixelTile(tw, th, IndexToTileAxisOrder(ho), IndexToTileAxisOrder(vo), FromGuiModeTree(t.subTree.value))
  }

  /** The tree that describes a mode: the inverse of `FromGuiModeTree`. */
  function ToModeTree(m: GenerationMode): (t: ModeTree)
    ensures SubTreesPresent(t)
    ensures IsTileSettings(t.settings) <==> IsTileMode(m)
    decreases m
  {
    match m
    case PixelRandom => ModeTree(PixelRandomSettings, None)
    case Line(rev, rnd) => ModeTree(LineSettings(rev, rnd), None)
    case PixelLine(rev, rnd) => ModeTree(PixelLineSettings(rev, rnd), None)
    case Stripe(rnd, rev) => ModeTree(StripeSettings(rnd, rev), None)
    case PixelStripe(rnd, rev) => ModeTree(PixelStripeSettings(rnd, rev), None)
    case LineFirstTile(tw, th, ho, vo, sub) =>
      ModeTree(LineFirstTileSettings(tw, th, AxisOrderIndex(ho), AxisOrderIndex(vo)), Some(ToModeTree(sub)))
    case StripeFirstTile(tw, th, ho, vo, sub) =>
      ModeTree(StripeFirstTileSettings(tw, th, AxisOrderIndex(ho), AxisOrderIndex(vo)), Some(ToModeTree(sub)))
    case LineFirstPixelTile(tw, th, ho, vo, sub) =>
      ModeTree(LineFirstPixelTileSettings(tw, th, AxisOrderIndex(ho), AxisOrderIndex(vo)), Some(ToModeTree(sub)))
    case StripeFirstPixelTile(tw, th, ho, vo, sub) =>
      ModeTree(StripeFirstPixelTileSettings(tw, th, AxisOrderIndex(ho), AxisOrderIndex(vo)), Some(ToModeTree(sub)))
  }

  /** A tree in the form `ToModeTree` produces: order indices at most 2 and
      no sub-tree under a non-tiling node. */
  predicate CanonicalTree(t: ModeTree)
    decreases t
  {
    if IsTileSettings(t.settings) then
      && t.settings.horizontalOrder <= 2 && t.settings.verticalOrder <= 2
      && t.subTree.Some? && CanonicalTree(t.subTree.value)
    else t.subTree.None?
  }

  /** Every mode is described by some tree. */
  lemma {:induction false} FromToModeTree(m: GenerationMode)
    ensures FromGuiModeTree(ToModeTree(m)) == m
    decreases m
  {
    if IsTileMode(m) {
      FromToModeTree(m.subGenerationMode);
      AxisOrderIndexRoundTrip(m.horizontalOrder, 0);
      AxisOrderIndexRoundTrip(m.verticalOrder, 0);
    }
  }

  /** A canonical tree is exactly the tree of the mode built from it. */
  lemma {:induction false} ToFromModeTree(t: ModeTree)
    requires SubTreesPresent(t) && CanonicalTree(t)
    ensures ToModeTree(FromGuiModeTree(t)) == t
    decreases t
  {
    if IsTileSettings(t.settings) {
      ToFromModeTree(t.subTree.value);
      AxisOrderIndexRoundTrip(Forward, t.settings.horizontalOrder);
      AxisOrderIndexRoundTrip(Forward, t.settings.verticalOrder);
    }
  }

  // ---------------------------------------------------------------------------
  // RaytracingWorkGenerator

  datatype WorkGenerator = WorkGenerator(width: nat, height: nat, generationMode: GenerationMode)

  /** `RaytracingWorkGenerator::generate` (src/raytracing/work/generator.rs:569-575).
      The pool is outside this model: `accepts(submitted, w)` is whether the
      pool's `add_work` takes `w` after the works `submitted` so far. The
      works of `to_work` are submitted in order; the first refusal stops the
      loop with `Err`, and nothing after it is submitted. */
  method Generate(g: WorkGenerator, accepts: (seq<RaytracingWork>, RaytracingWork) -> bool)
    returns (result: Result<()>, works: seq<RaytracingWork>, submitted: seq<RaytracingWork>)
    requires WellFormed(g.generationMode)
    ensures Generated(g.generationMode, g.width, g.height, works)
    ensures |submitted| <= |works| && submitted == works[..|submitted|]
    ensures forall k :: 0 <= k < |submitted| ==> accepts(works[..k], works[k])
    ensures result.Ok? <==> |submitted| == |works|
    ensures result.Err? ==> !accepts(submitted, works[|submitted|])
  {
    works := ToWork(g.generationMode, g.width, g.height);
    submitted := [];
    for k := 0 to |works|
      invariant submitted == works[..k]
      invariant forall j :: 0 <= j < k ==> accepts(works[..j], works[j])
    {
      if !accepts(submitted, works[k]) {
        return Err, works, submitted;
      }
      submitted := submitted + [works[k]];
    }
    assert works[..|works|] == works;
    result := Ok(());
  }
}
