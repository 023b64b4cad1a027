/** Resumable work units: the four shapes of a work unit and the cursor that
    hands out one grid cell per call (src/raytracing/work/mod.rs).

    `Remaining(w)` is the declarative meaning of a unit: the cells it still
    has to hand out, in order. `Next(w)` is the transition performed by one
    call of `get_next_work_pixel`, and `Drain(w)` repeats it until the unit
    reports `None`. The central fact, `NextRemaining`, is that one call hands
    out the head of `Remaining` and leaves the rest. */
module Work {
  import opened Wrappers

  /** A grid coordinate `(x, y)`. */
  type Cell = (nat, nat)

  /** `RaytracingWork`: the fields of `PixelWork`, `LineWork`, `StripeWork`
      and `TileWork` in one tagged union. */
  datatype RaytracingWork =
    | Pixel(x: nat, y: nat, taken: bool)
    | Line(x: nat, y: nat, width: nat, currentX: nat, reverse: bool)
    | Stripe(x: nat, y: nat, height: nat, currentY: nat, reverse: bool)
    | Tile(x: nat, y: nat, sub: TileSlots)

  /** A tile's `Option<Vec<Option<RaytracingWork>>>`: absent, or a list of slots. */
  datatype TileSlots = NoSlots | Slots(slots: seq<Slot>)

  /** One slot of a tile; `Cleared` is the `None` a slot is set to once its
      child has reported exhaustion. */
  datatype Slot = Cleared | Pending(work: RaytracingWork)

  /** A forward cursor starts at 1 and only grows (with 0 the source's
      `current_x - 2` would underflow); every constructor below yields a valid
      unit and `Next` keeps it valid. */
  ghost predicate Valid(w: RaytracingWork)
    decreases w
  {
    match w
    case Pixel(_, _, _) => true
    case Line(_, _, _, cx, rev) => rev || cx >= 1
    case Stripe(_, _, _, cy, rev) => rev || cy >= 1
    case Tile(_, _, sub) =>
      sub.Slots? ==>
        forall i :: 0 <= i < |sub.slots| && sub.slots[i].Pending? ==> Valid(sub.slots[i].work)
  }

  ghost predicate SlotsValid(s: seq<Slot>) {
    forall i :: 0 <= i < |s| && s[i].Pending? ==> Valid(s[i].work)
  }

  ghost predicate AllValid(ws: seq<RaytracingWork>) {
    forall i :: 0 <= i < |ws| ==> Valid(ws[i])
  }

  // ---------------------------------------------------------------------------
  // Cell sequences

  /** Every cell moved by `(dx, dy)`. */
  function Shift(cells: seq<Cell>, dx: nat, dy: nat): seq<Cell> {
    seq(|cells|, k requires 0 <= k < |cells| => (cells[k].0 + dx, cells[k].1 + dy))
  }

  /** The `n` cells of a horizontal run anchored at `(x, y)`: left to right,
      or right to left when `rev`. */
  function RunX(x: nat, y: nat, n: nat, rev: bool): seq<Cell> {
    seq(n, k requires 0 <= k < n => (if rev then x + (n - 1 - k) else x + k, y))
  }

  /** The `n` cells of a vertical run anchored at `(x, y)`: top to bottom,
      or bottom to top when `rev`. */
  function RunY(x: nat, y: nat, n: nat, rev: bool): seq<Cell> {
    seq(n, k requires 0 <= k < n => (x, if rev then y + (n - 1 - k) else y + k))
  }

  lemma ShiftAppend(a: seq<Cell>, b: seq<Cell>, dx: nat, dy: nat)
    ensures Shift(a + b, dx, dy) == Shift(a, dx, dy) + Shift(b, dx, dy)
  {
  }

  lemma ShiftShift(a: seq<Cell>, dx1: nat, dy1: nat, dx2: nat, dy2: nat)
    ensures Shift(Shift(a, dx1, dy1), dx2, dy2) == Shift(a, dx1 + dx2, dy1 + dy2)
  {
  }

  // ---------------------------------------------------------------------------
  // What a unit still has to hand out

  /** The cells a unit hands out from now on, in order. A forward cursor `c`
      hands out `x + c - 1` and stops once `c > width`; a reverse cursor `c`
      hands out `x + c - 1` and stops at 0. A tile hands out its pending
      children's cells in slot order, moved by its anchor. */
  function Remaining(w: RaytracingWork): seq<Cell>
    requires Valid(w)
    decreases w, 0
  {
    match w
    case Pixel(x, y, taken) => if taken then [] else [(x, y)]
    case Line(x, y, width, cx, rev) =>
      if rev then seq(cx, k requires 0 <= k < cx => (x + (cx - 1 - k), y))
      else seq(if cx <= width then width + 1 - cx else 0, k => (x + (cx - 1 + k), y))
    case Stripe(x, y, height, cy, rev) =>
      if rev then seq(cy, k requires 0 <= k < cy => (x, y + (cy - 1 - k)))
      else seq(if cy <= height then height + 1 - cy else 0, k => (x, y + (cy - 1 + k)))
    case Tile(x, y, sub) =>
      if sub.NoSlots? then [] else Shift(SlotCells(sub.slots, 0), x, y)
  }

  /** The cells of the pending slots from index `i` on, in slot order. */
  function SlotCells(s: seq<Slot>, i: nat): seq<Cell>
    requires i <= |s| && SlotsValid(s)
    decreases Slots(s), |s| - i
  {
    if i == |s| then []
    else (if s[i].Pending? then Remaining(s[i].work) else []) + SlotCells(s, i + 1)
  }

  /** The cells of a list of units, one unit after the other. */
  function CellsOf(ws: seq<RaytracingWork>): seq<Cell>
    requires AllValid(ws)
  {
    if ws == [] then [] else Remaining(ws[0]) + CellsOf(ws[1..])
  }

  lemma {:induction false} CellsOfAppend(a: seq<RaytracingWork>, b: seq<RaytracingWork>)
    requires AllValid(a) && AllValid(b)
    ensures AllValid(a + b) && CellsOf(a + b) == CellsOf(a) + CellsOf(b)
  {
    if a == [] {
      assert a + b == b;
    } else {
      CellsOfAppend(a[1..], b);
      assert (a + b)[0] == a[0];
      assert (a + b)[1..] == a[1..] + b;
    }
  }

  /** The slot cells depend only on the slots from index `i` on. */
  lemma {:induction false} SlotCellsFrame(s: seq<Slot>, t: seq<Slot>, i: nat)
    requires i <= |s| == |t| && SlotsValid(s) && SlotsValid(t)
    requires s[i..] == t[i..]
    ensures SlotCells(s, i) == SlotCells(t, i)
    decreases |s| - i
  {
    if i < |s| {
      assert s[i] == s[i..][0] == t[i..][0] == t[i];
      assert s[i + 1..] == s[i..][1..] == t[i..][1..] == t[i + 1..];
      SlotCellsFrame(s, t, i + 1);
    }
  }

  // ---------------------------------------------------------------------------
  // get_next_work_pixel

  /** One call of `get_next_work_pixel` (src/raytracing/work/mod.rs:115-187):
      the cell handed out, if any, and the unit's new state. */
  function Next(w: RaytracingWork): (r: (Option<Cell>, RaytracingWork))
    requires Valid(w)
    ensures Valid(r.1)
    decreases w, 0
  {
    match w
    case Pixel(x, y, taken) =>
      if taken then (None, w) else (Some((x, y)), w.(taken := true))
    case Line(x, y, width, cx, rev) =>
      if rev then
        if cx == 0 then (None, w) else (Some((x + (cx - 1), y)), w.(currentX := cx - 1))
      else
        if cx > width then (None, w) else (Some((x + (cx - 1), y)), w.(currentX := cx + 1))
    case Stripe(x, y, height, cy, rev) =>
      if rev then
        if cy == 0 then (None, w) else (Some((x, y + (cy - 1))), w.(currentY := cy - 1))
      else
        if cy > height then (None, w) else (Some((x, y + (cy - 1))), w.(currentY := cy + 1))
    case Tile(x, y, sub) =>
      if sub.NoSlots? then (None, w)
      else
        var (c, s) := NextInSlots(sub.slots, 0);
        (if c.Some? then Some((c.value.0 + x, c.value.1 + y)) else None, Tile(x, y, Slots(s)))
  }

  /** The tile's scan from slot `i` on: a cleared slot is skipped, a child
      that answers `None` is cleared and the scan goes on, and the first child
      that answers a cell ends the scan with that child's new state stored. */
  function NextInSlots(s: seq<Slot>, i: nat): (r: (Option<Cell>, seq<Slot>))
    requires i <= |s| && SlotsValid(s)
    ensures |r.1| == |s| && SlotsValid(r.1) && r.1[..i] == s[..i]
    decreases Slots(s), |s| - i
  {
    if i == |s| then (None, s)
    else
      match s[i]
      case Cleared => NextInSlots(s, i + 1)
      case Pending(child) =>
        var (c, child') := Next(child);
        if c.None? then
          var (c2, t) := NextInSlots(s, i + 1);
          (c2, t[i := Cleared])
        else (c, s[i := Pending(child')])
  }

  /** One call hands out exactly the head of `Remaining`, and a call that
      hands out nothing leaves nothing behind. */
  lemma {:induction false} NextRemaining(w: RaytracingWork)
    requires Valid(w)
    ensures Next(w).0.None? <==> Remaining(w) == []
    ensures Next(w).0.Some? ==> Remaining(w) == [Next(w).0.value] + Remaining(Next(w).1)
    ensures Next(w).0.None? ==> Remaining(Next(w).1) == []
    decreases w, 0
  {
    match w
    case Pixel(_, _, _) =>
    case Line(_, _, _, _, _) =>
    case Stripe(_, _, _, _, _) =>
    case Tile(x, y, sub) =>
      if sub.Slots? {
        NextInSlotsRemaining(sub.slots, 0);
        var (c, t) := NextInSlots(sub.slots, 0);
        if c.Some? {
          ShiftAppend([c.value], SlotCells(t, 0), x, y);
        }
      }
  }

  /** What one scan from slot `i` does to the remaining slot cells. */
  ghost predicate ScanHandsOutHead(s: seq<Slot>, i: nat)
    requires i <= |s| && SlotsValid(s)
  {
    var (c, t) := NextInSlots(s, i);
    && (c.None? <==> SlotCells(s, i) == [])
    && (c.Some? ==> SlotCells(s, i) == [c.value] + SlotCells(t, i))
    && (c.None? ==> SlotCells(t, i) == [])
  }

  lemma {:induction false} NextInSlotsRemaining(s: seq<Slot>, i: nat)
    requires i <= |s| && SlotsValid(s)
    ensures ScanHandsOutHead(s, i)
    decreases Slots(s), |s| - i
  {
    if i < |s| {
      match s[i]
      case Cleared =>
        NextInSlotsRemaining(s, i + 1);
        ScanSkipsCleared(s, i);
      case Pending(child) =>
        NextRemaining(child);
        if Next(child).0.None? {
          NextInSlotsRemaining(s, i + 1);
          ScanClearsChild(s, i);
        } else {
          ScanAsksChild(s, i);
        }
    }
  }

  lemma ScanSkipsCleared(s: seq<Slot>, i: nat)
    requires i < |s| && SlotsValid(s) && s[i].Cleared?
    requires ScanHandsOutHead(s, i + 1)
    ensures ScanHandsOutHead(s, i)
  {
    var r := NextInSlots(s, i);
    assert r == NextInSlots(s, i + 1);
    assert r.1[i] == r.1[..i + 1][i] == s[i];
    assert SlotCells(r.1, i) == SlotCells(r.1, i + 1);
  }

  lemma ScanClearsChild(s: seq<Slot>, i: nat)
    requires i < |s| && SlotsValid(s) && s[i].Pending?
    requires Next(s[i].work).0.None? && Remaining(s[i].work) == []
    requires ScanHandsOutHead(s, i + 1)
    ensures ScanHandsOutHead(s, i)
  {
    var r := NextInSlots(s, i);
    var (c2, t) := NextInSlots(s, i + 1);
    assert r == (c2, t[i := Cleared]);
    SlotCellsFrame(t, t[i := Cleared], i + 1);
    assert SlotCells(s, i) == SlotCells(s, i + 1);
    assert SlotCells(r.1, i) == SlotCells(t, i + 1);
  }

  lemma ScanAsksChild(s: seq<Slot>, i: nat)
    requires i < |s| && SlotsValid(s) && s[i].Pending?
    requires Next(s[i].work).0.Some?
    requires Remaining(s[i].work) == [Next(s[i].work).0.value] + Remaining(Next(s[i].work).1)
    ensures ScanHandsOutHead(s, i)
  {
    var r := NextInSlots(s, i);
    var (c, child') := Next(s[i].work);
    assert r == (c, s[i := Pending(child')]);
    SlotCellsFrame(s, s[i := Pending(child')], i + 1);
    assert SlotCells(r.1, i) == Remaining(child') + SlotCells(s, i + 1);
  }

  /** Updating a slot the scan has already passed commutes with the scan. */
  lemma {:induction false} NextInSlotsUpdateBelow(s: seq<Slot>, i: nat, j: nat, v: Slot)
    requires j < i <= |s| && SlotsValid(s) && SlotsValid(s[j := v])
    ensures NextInSlots(s[j := v], i) == (NextInSlots(s, i).0, NextInSlots(s, i).1[j := v])
    decreases |s| - i
  {
    if i < |s| {
      NextInSlotsUpdateBelow(s, i + 1, j, v);
      match s[i]
      case Cleared =>
      case Pending(child) =>
        var (c, child') := Next(child);
        if c.None? {
          var (c2, t) := NextInSlots(s, i + 1);
          assert t[j := v][i := Cleared] == t[i := Cleared][j := v];
        } else {
          assert s[j := v][i := Pending(child')] == s[i := Pending(child')][j := v];
        }
    }
  }

  /** `get_next_work_pixel` (src/raytracing/work/mod.rs:115-187), updating
      the cursor, the taken flag or the tile's slots as the source does. */
  method GetNextWorkPixel(w: RaytracingWork) returns (cell: Option<Cell>, next: RaytracingWork)
    requires Valid(w)
    ensures (cell, next) == Next(w)
    decreases w
  {
    match w
    case Pixel(x, y, taken) =>
      if taken {
        return None, w;
      }
      next := w.(taken := true);
      cell := Some((x, y));
    case Line(x, y, width, cx, rev) =>
      var lineX: nat;
      if rev {
        if cx == 0 {
          return None, w;
        }
        next := w.(currentX := cx - 1);
        lineX := next.currentX;
      } else {
        if cx > width {
          return None, w;
        }
        next := w.(currentX := cx + 1);
        lineX := next.currentX - 2;
      }
      cell := Some((lineX + x, y));
    case Stripe(x, y, height, cy, rev) =>
      var stripeY: nat;
      if rev {
        if cy == 0 {
          return None, w;
        }
        next := w.(currentY := cy - 1);
        stripeY := next.currentY;
      } else {
        if cy > height {
          return None, w;
        }
        next := w.(currentY := cy + 1);
        stripeY := next.currentY - 2;
      }
      cell := Some((x, stripeY + y));
    case Tile(x, y, sub) =>
      if sub.NoSlots? {
        return None, w;
      }
      var slots := sub.slots;
      var i := 0;
      while i < |slots|
        invariant 0 <= i <= |slots| == |sub.slots|
        invariant slots[i..] == sub.slots[i..]
        invariant SlotsValid(slots)
        invariant NextInSlots(sub.slots, 0) == NextInSlots(slots, i)
        decreases |slots| - i
      {
        assert slots[i] == slots[i..][0] == sub.slots[i];
        match slots[i] {
          case Cleared =>
          case Pending(child) =>
            assert sub.slots[i] in sub.slots;
            var c, child' := GetNextWorkPixel(child);
            if c.None? {
              NextInSlotsUpdateBelow(slots, i + 1, i, Cleared);
              slots := slots[i := Cleared];
            } else {
              slots := slots[i := Pending(child')];
              return Some((x + c.value.0, y + c.value.1)), Tile(x, y, Slots(slots));
            }
        }
        i := i + 1;
      }
      return None, Tile(x, y, Slots(slots));
  }

  // ---------------------------------------------------------------------------
  // Draining a unit

  /** The cells handed out by calling `get_next_work_pixel` until it answers
      `None`. */
  ghost function Drain(w: RaytracingWork): seq<Cell>
    requires Valid(w)
    decreases |Remaining(w)|
  {
    NextRemaining(w);
    if Next(w).0.None? then [] else [Next(w).0.value] + Drain(Next(w).1)
  }

  /** Draining a unit yields exactly its remaining cells, in order. */
  lemma {:induction false} DrainIsRemaining(w: RaytracingWork)
    requires Valid(w)
    ensures Drain(w) == Remaining(w)
    decreases |Remaining(w)|
  {
    NextRemaining(w);
    if Next(w).0.Some? {
      DrainIsRemaining(Next(w).1);
    }
  }

  /** Once a unit has answered `None` it answers `None` again, and a pixel,
      line or stripe is left exactly as it was (its cursor never resets). */
  lemma ExhaustedStaysExhausted(w: RaytracingWork)
    requires Valid(w) && Next(w).0.None?
    ensures Next(Next(w).1).0.None?
    ensures !w.Tile? ==> Next(w).1 == w
  {
    NextRemaining(w);
    NextRemaining(Next(w).1);
  }

  // ---------------------------------------------------------------------------
  // Constructors

  /** `RaytracingWork::pixel` (src/raytracing/work/mod.rs:44-52). */
  function NewPixel(x: nat, y: nat): (w: RaytracingWork)
    ensures Valid(w) && Remaining(w) == [(x, y)]
  {
    Pixel(x, y, false)
  }

  /** `RaytracingWork::line` (src/raytracing/work/mod.rs:54-75): a reverse
      line starts its cursor at `width`, a forward one at 1. */
  function NewLine(x: nat, y: nat, width: nat, reverse: bool): (w: RaytracingWork)
    ensures Valid(w) && Remaining(w) == RunX(x, y, width, reverse)
  {
    if reverse then Line(x, y, width, width, reverse) else Line(x, y, width, 1, reverse)
  }

  /** `RaytracingWork::stripe` (src/raytracing/work/mod.rs:77-98). */
  function NewStripe(x: nat, y: nat, height: nat, reverse: bool): (w: RaytracingWork)
    ensures Valid(w) && Remaining(w) == RunY(x, y, height, reverse)
  {
    if reverse then Stripe(x, y, height, height, reverse) else Stripe(x, y, height, 1, reverse)
  }

  /** Every child in a pending slot, in order. */
  function Pendings(ws: seq<RaytracingWork>): (s: seq<Slot>)
    ensures |s| == |ws|
  {
    seq(|ws|, k requires 0 <= k < |ws| => Pending(ws[k]))
  }

  lemma {:induction false} SlotCellsPendings(ws: seq<RaytracingWork>, i: nat)
    requires AllValid(ws) && i <= |ws|
    ensures SlotsValid(Pendings(ws)) && SlotCells(Pendings(ws), i) == CellsOf(ws[i..])
    decreases |ws| - i
  {
    if i < |ws| {
      SlotCellsPendings(ws, i + 1);
      assert ws[i..][1..] == ws[i + 1..];
    }
  }

  /** `RaytracingWork::tile` (src/raytracing/work/mod.rs:100-113): every
      sub-work in a pending slot; the tile hands out their cells in order,
      moved by its anchor. */
  function NewTile(x: nat, y: nat, subWork: seq<RaytracingWork>): (w: RaytracingWork)
    requires AllValid(subWork)
    ensures Valid(w) && Remaining(w) == Shift(CellsOf(subWork), x, y)
  {
    SlotCellsPendings(subWork, 0);
    assert subWork[0..] == subWork;
    Tile(x, y, Slots(Pendings(subWork)))
  }

  // ---------------------------------------------------------------------------
  // Properties of single units

  /** A fresh pixel hands out its cell once and then `None` on every call. */
  lemma PixelYieldsOnce(x: nat, y: nat)
    ensures Next(NewPixel(x, y)).0 == Some((x, y))
    ensures Next(Next(NewPixel(x, y)).1).0 == None
    ensures Next(Next(NewPixel(x, y)).1).1 == Next(NewPixel(x, y)).1
  {
  }

  /** A fresh line hands out `(x, y) .. (x + width - 1, y)`, or the reverse,
      and nothing else; a stripe does the same along y. */
  lemma RunDrains(x: nat, y: nat, n: nat, rev: bool)
    ensures Drain(NewLine(x, y, n, rev)) == RunX(x, y, n, rev)
    ensures Drain(NewStripe(x, y, n, rev)) == RunY(x, y, n, rev)
  {
    DrainIsRemaining(NewLine(x, y, n, rev));
    DrainIsRemaining(NewStripe(x, y, n, rev));
  }

  /** A tile with no slot list, or with every slot cleared, answers `None`;
      a tile answers `None` only then or when all its pending children are
      exhausted. */
  lemma TileNoneWhenEmpty(x: nat, y: nat, sub: TileSlots)
    requires Valid(Tile(x, y, sub))
    requires sub.NoSlots? || forall i :: 0 <= i < |sub.slots| ==> sub.slots[i].Cleared?
    ensures Next(Tile(x, y, sub)).0.None?
  {
    if sub.Slots? {
      AllClearedNoCells(sub.slots, 0);
      NextInSlotsRemaining(sub.slots, 0);
    }
  }

  lemma {:induction false} AllClearedNoCells(s: seq<Slot>, i: nat)
    requires i <= |s| && SlotsValid(s)
    requires forall j :: i <= j < |s| ==> s[j].Cleared?
    ensures SlotCells(s, i) == []
    decreases |s| - i
  {
    if i < |s| {
      AllClearedNoCells(s, i + 1);
    }
  }

  /** The scan skips a cleared prefix of slots. */
  lemma {:induction false} SkipCleared(s: seq<Slot>, i: nat, k: nat)
    requires i <= k <= |s| && SlotsValid(s)
    requires forall j :: i <= j < k ==> s[j].Cleared?
    ensures NextInSlots(s, i) == NextInSlots(s, k)
    decreases k - i
  {
    if i < k {
      SkipCleared(s, i + 1, k);
    }
  }

  /** A tile asks its first pending slot: when that child answers a cell, the
      tile answers the cell moved by its anchor and stores the child's new
      state in the same slot, leaving the other slots alone. */
  lemma TileAsksFirstPending(x: nat, y: nat, s: seq<Slot>, k: nat)
    requires Valid(Tile(x, y, Slots(s)))
    requires k < |s| && s[k].Pending? && forall j :: 0 <= j < k ==> s[j].Cleared?
    requires Next(s[k].work).0.Some?
    ensures Next(Tile(x, y, Slots(s))) ==
      (Some((Next(s[k].work).0.value.0 + x, Next(s[k].work).0.value.1 + y)),
       Tile(x, y, Slots(s[k := Pending(Next(s[k].work).1)])))
  {
    SkipCleared(s, 0, k);
  }

  /** When the first pending child answers `None`, the tile behaves exactly as
      if that slot had been cleared, and the slot is cleared in its new state:
      the child is never asked again. */
  lemma TileClearsExhaustedChild(x: nat, y: nat, s: seq<Slot>, k: nat)
    requires Valid(Tile(x, y, Slots(s)))
    requires k < |s| && s[k].Pending? && forall j :: 0 <= j < k ==> s[j].Cleared?
    requires Next(s[k].work).0.None?
    ensures Valid(Tile(x, y, Slots(s[k := Cleared])))
    ensures Next(Tile(x, y, Slots(s))) == Next(Tile(x, y, Slots(s[k := Cleared])))
    ensures Next(Tile(x, y, Slots(s))).1.sub.slots[k] == Cleared
  {
    var s' := s[k := Cleared];
    SkipCleared(s, 0, k);
    SkipCleared(s', 0, k + 1);
    NextInSlotsUpdateBelow(s, k + 1, k, Cleared);
  }

  // ---------------------------------------------------------------------------
  // to_sub_work and adjust_for_transparency

  /** `adjust_for_transparency` (src/raytracing/work/mod.rs:239-258): only
      the anchor moves, by `(dx, dy)`, so every remaining cell moves by it. */
  function Adjust(w: RaytracingWork, dx: nat, dy: nat): (r: RaytracingWork)
    requires Valid(w)
    ensures r.(x := w.x, y := w.y) == w && r.x == w.x + dx && r.y == w.y + dy
    ensures Valid(r) && Remaining(r) == Shift(Remaining(w), dx, dy)
  {
    match w
    case Pixel(x, y, taken) => Pixel(x + dx, y + dy, taken)
    case Line(x, y, width, cx, rev) =>
      AdjustLine(x, y, width, cx, rev, dx, dy);
      Line(x + dx, y + dy, width, cx, rev)
    case Stripe(x, y, height, cy, rev) =>
      AdjustStripe(x, y, height, cy, rev, dx, dy);
      Stripe(x + dx, y + dy, height, cy, rev)
    case Tile(x, y, sub) =>
      if sub.Slots? then
        ShiftShift(SlotCells(sub.slots, 0), x, y, dx, dy);
        Tile(x + dx, y + dy, sub)
      else Tile(x + dx, y + dy, sub)
  }

  lemma AdjustLine(x: nat, y: nat, width: nat, cx: nat, rev: bool, dx: nat, dy: nat)
    requires rev || cx >= 1
    ensures Remaining(Line(x + dx, y + dy, width, cx, rev)) == Shift(Remaining(Line(x, y, width, cx, rev)), dx, dy)
  {
  }

  lemma AdjustStripe(x: nat, y: nat, height: nat, cy: nat, rev: bool, dx: nat, dy: nat)
    requires rev || cy >= 1
    ensures Remaining(Stripe(x + dx, y + dy, height, cy, rev)) == Shift(Remaining(Stripe(x, y, height, cy, rev)), dx, dy)
  {
  }

  function AdjustAll(ws: seq<RaytracingWork>, dx: nat, dy: nat): (r: seq<RaytracingWork>)
    requires AllValid(ws)
    ensures |r| == |ws| && AllValid(r)
  {
    seq(|ws|, k requires 0 <= k < |ws| => Adjust(ws[k], dx, dy))
  }

  lemma {:induction false} CellsOfAdjustAll(ws: seq<RaytracingWork>, dx: nat, dy: nat)
    requires AllValid(ws)
    ensures CellsOf(AdjustAll(ws, dx, dy)) == Shift(CellsOf(ws), dx, dy)
  {
    if ws != [] {
      CellsOfAdjustAll(ws[1..], dx, dy);
      assert AdjustAll(ws, dx, dy)[1..] == AdjustAll(ws[1..], dx, dy);
      ShiftAppend(Remaining(ws[0]), CellsOf(ws[1..]), dx, dy);
    }
  }

  /** The children of the pending slots, in slot order (`flatten`). */
  function PendingWorks(s: seq<Slot>): (ws: seq<RaytracingWork>)
    requires SlotsValid(s)
    ensures AllValid(ws)
  {
    if s == [] then [] else (if s[0].Pending? then [s[0].work] else []) + PendingWorks(s[1..])
  }

  lemma {:induction false} CellsOfPendingWorks(s: seq<Slot>, i: nat)
    requires i <= |s| && SlotsValid(s)
    ensures CellsOf(PendingWorks(s[i..])) == SlotCells(s, i)
    decreases |s| - i
  {
    if i < |s| {
      CellsOfPendingWorks(s, i + 1);
      assert s[i..][0] == s[i] && s[i..][1..] == s[i + 1..];
      var head := if s[i].Pending? then [s[i].work] else [];
      CellsOfAppend(head, PendingWorks(s[i + 1..]));
    }
  }

  /** Fresh pixels for the given cells, in order. */
  function FreshPixels(cells: seq<Cell>): (ws: seq<RaytracingWork>)
    ensures |ws| == |cells| && AllValid(ws)
  {
    seq(|cells|, k requires 0 <= k < |cells| => NewPixel(cells[k].0, cells[k].1))
  }

  lemma {:induction false} CellsOfFreshPixels(cells: seq<Cell>)
    ensures CellsOf(FreshPixels(cells)) == cells
  {
    if cells != [] {
      CellsOfFreshPixels(cells[1..]);
      assert FreshPixels(cells)[1..] == FreshPixels(cells[1..]);
    }
  }

  /** What `to_sub_work` returns (src/raytracing/work/mod.rs:189-237): a
      pixel is returned as it is (taken flag kept); a line or stripe becomes
      fresh pixels for its remaining cells, in order; a tile gives its pending
      children, in slot order, each moved by the tile's anchor. Either way the
      pieces hand out exactly the cells the unit had left. */
  function SubWork(w: RaytracingWork): (r: seq<RaytracingWork>)
    requires Valid(w)
    ensures AllValid(r) && CellsOf(r) == Remaining(w)
  {
    match w
    case Pixel(_, _, _) =>
      assert [w][1..] == [];
      [w]
    case Line(_, _, _, _, _) =>
      CellsOfFreshPixels(Remaining(w));
      FreshPixels(Remaining(w))
    case Stripe(_, _, _, _, _) =>
      CellsOfFreshPixels(Remaining(w));
      FreshPixels(Remaining(w))
    case Tile(x, y, sub) =>
      if sub.NoSlots? then []
      else
        CellsOfPendingWorks(sub.slots, 0);
        assert sub.slots[0..] == sub.slots;
        CellsOfAdjustAll(PendingWorks(sub.slots), x, y);
        AdjustAll(PendingWorks(sub.slots), x, y)
  }

  /** `to_sub_work` (src/raytracing/work/mod.rs:189-237): a line or stripe is
      drained with `get_next_work_pixel` into fresh pixels; a tile's pending
      children are adjusted by its anchor one by one. */
  method ToSubWork(w: RaytracingWork) returns (works: seq<RaytracingWork>)
    requires Valid(w)
    ensures works == SubWork(w)
  {
    match w
    case Pixel(_, _, _) =>
      works := [w];
    case Tile(x, y, sub) =>
      works := AdjustChildren(if sub.NoSlots? then [] else PendingWorks(sub.slots), x, y);
    case _ =>
      works := DrainToPixels(w);
  }

  /** The tile branch of `to_sub_work` (src/raytracing/work/mod.rs:221-237):
      each child adjusted by the anchor, in order. */
  method AdjustChildren(children: seq<RaytracingWork>, x: nat, y: nat) returns (works: seq<RaytracingWork>)
    requires AllValid(children)
    ensures works == AdjustAll(children, x, y)
  {
    works := [];
    for k := 0 to |children|
      invariant works == AdjustAll(children[..k], x, y)
    {
      works := works + [Adjust(children[k], x, y)];
    }
    assert children[..|children|] == children;
  }

  /** The line and stripe branches of `to_sub_work`
      (src/raytracing/work/mod.rs:196-220): drained with
      `get_next_work_pixel` into fresh pixels. */
  method DrainToPixels(w: RaytracingWork) returns (works: seq<RaytracingWork>)
    requires Valid(w)
    ensures works == FreshPixels(Remaining(w))
  {
    works := [];
    var reconstituted := w;
    while true
      invariant Valid(reconstituted)
      invariant works + FreshPixels(Remaining(reconstituted)) == FreshPixels(Remaining(w))
      decreases |Remaining(reconstituted)|
    {
      var newWork, rest := GetNextWorkPixel(reconstituted);
      NextRemaining(reconstituted);
      if newWork.None? {
        break;
      }
      FreshPixelsCons(Remaining(reconstituted));
      works := works + [NewPixel(newWork.value.0, newWork.value.1)];
      reconstituted := rest;
    }
  }

  lemma FreshPixelsCons(cells: seq<Cell>)
    requires cells != []
    ensures FreshPixels(cells) == [NewPixel(cells[0].0, cells[0].1)] + FreshPixels(cells[1..])
  {
  }

  /** A tile's full drain is its pending children's cells, in slot order,
      each moved by the tile's anchor. */
  lemma DrainTile(x: nat, y: nat, s: seq<Slot>)
    requires Valid(Tile(x, y, Slots(s)))
    ensures Drain(Tile(x, y, Slots(s))) == Shift(CellsOf(PendingWorks(s)), x, y)
  {
    DrainIsRemaining(Tile(x, y, Slots(s)));
    CellsOfPendingWorks(s, 0);
    assert s[0..] == s;
  }
}
