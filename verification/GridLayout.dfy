/** Placing video tiles on the compositor's canvas in a square-ish grid. */
module GridLayout {
  import Arithmetic

  datatype Rect = Rect(x: int, y: int, w: nat, h: nat)

  /** The rounded-up square root: counting up from c. */
  function RootFrom(n: nat, c: nat): (r: nat)
    requires c == 0 || (c - 1) * (c - 1) < n
    ensures r * r >= n
    ensures forall d: nat :: d < r ==> d * d < n
    decreases n - c
  {
    if c * c >= n then
      SmallerSquares(n, c);
      c
    else
      Arithmetic.MultipleApart(c, if c > 0 then c else 1);
      RootFrom(n, c + 1)
  }

  lemma {:induction false} SmallerSquares(n: nat, c: nat)
    requires c == 0 || (c - 1) * (c - 1) < n
    ensures forall d: nat :: d < c ==> d * d < n
  {
    forall d: nat | d < c
      ensures d * d < n
    {
      if d == 0 {
        Arithmetic.MultipleApart(c - 1, if c > 1 then c - 1 else 1);
      } else {
        Ordered(d, c - 1, d);
        Ordered(c - 1, c - 1, d);
        assert d * (c - 1) == (c - 1) * d;
      }
    }
  }

  /** Columns and rows for n tiles. */
  function GridDims(n: nat): (dims: (nat, nat))
    ensures n > 0 ==> dims.0 > 0 && dims.1 > 0
  {
    if n == 0 then (0, 0)
    else
      var cols := RootFrom(n, 0);
      assert cols != 0;
      Arithmetic.DivisionMonotonic(cols, n + cols - 1, cols);
      Arithmetic.DivisionUnique(cols, cols, 1, 0);
      (cols, (n + cols - 1) / cols)
  }

  lemma {:induction false} RoundedUp(n: nat, cols: nat)
    requires n > 0 && cols > 0
    ensures var rows := (n + cols - 1) / cols; cols * (rows - 1) < n <= cols * rows
  {
    var rows := (n + cols - 1) / cols;
    assert n + cols - 1 == rows * cols + (n + cols - 1) % cols;
    assert cols * (rows - 1) == rows * cols - cols;
  }

  /** The grid is as square as can be: the fewest columns whose square holds n tiles, no empty
      row, and one row fewer than columns exactly when that suffices. */
  lemma {:induction false} NearlySquare(n: nat)
    requires n > 0
    ensures var (cols, rows) := GridDims(n);
      && cols * cols >= n && (forall c: nat :: c < cols ==> c * c < n)
      && cols * (rows - 1) < n <= cols * rows
      && rows == (if n <= cols * (cols - 1) then cols - 1 else cols)
  {
    var (cols, rows) := GridDims(n);
    RoundedUp(n, cols);
    assert (cols - 1) * (cols - 1) < n;
    assert (cols - 1) * (cols - 1) == cols * (cols - 2) + 1;
    Between(cols, rows, n);
  }

  lemma {:induction false} Between(cols: nat, rows: nat, n: nat)
    requires cols * (rows - 1) < n <= cols * rows
    requires cols * (cols - 2) < n <= cols * cols && cols > 0
    ensures rows == (if n <= cols * (cols - 1) then cols - 1 else cols)
  {
    Ordered(cols, rows - 1, cols);
    Ordered(cols, rows - 1, cols - 1);
    Ordered(cols, cols - 2, rows);
    Ordered(cols, cols - 1, rows);
  }

  lemma {:induction false} Ordered(m: nat, a: int, b: int)
    requires m > 0
    ensures m * a < m * b <==> a < b
  {
    assert m * b - m * a == (b - a) * m;
    Arithmetic.MultipleApart(b - a, m);
  }

  /** Tile i of n in an area. */
  function Tile(n: nat, i: nat, area: Rect): Rect
    requires i < n
  {
    var (cols, rows) := GridDims(n);
    TileSize(area.w, cols);
    TileSize(area.h, rows);
    var tileW, tileH := area.w / cols, area.h / rows;
    Rect(area.x + i % cols * tileW, area.y + i / cols * tileH, tileW, tileH)
  }

  predicate Apart(a: Rect, b: Rect) {
    a.x + a.w <= b.x || b.x + b.w <= a.x || a.y + a.h <= b.y || b.y + b.h <= a.y
  }

  predicate Inside(a: Rect, b: Rect) {
    b.x <= a.x && a.x + a.w <= b.x + b.w && b.y <= a.y && a.y + a.h <= b.y + b.h
  }

  lemma {:induction false} Slots(i: int, j: int, size: nat)
    requires i < j
    ensures i * size + size <= j * size
  {
    assert j * size - (i * size + size) == (j - i - 1) * size;
    assert (j - i - 1) * size >= 0;
  }

  lemma {:induction false} RowAndColumn(n: nat, i: nat)
    requires i < n
    ensures var (cols, rows) := GridDims(n);
      0 <= i % cols < cols && 0 <= i / cols < rows && i == i / cols * cols + i % cols
  {
    var (cols, rows) := GridDims(n);
    RoundedUp(n, cols);
    hide *;
    Slot(i, cols, rows);
  }

  lemma {:induction false} Slot(i: nat, cols: nat, rows: nat)
    requires cols > 0 && i < cols * rows
    ensures 0 <= i % cols < cols && 0 <= i / cols < rows && i == i / cols * cols + i % cols
  {
    var row, col := i / cols, i % cols;
    assert i == row * cols + col;
    SlotBound(row, col, cols, rows);
  }

  lemma {:induction false} SlotBound(row: int, col: nat, cols: nat, rows: nat)
    requires col < cols && 0 <= row * cols + col < cols * rows
    ensures 0 <= row < rows
  {
    Ordered(cols, row, rows);
    Ordered(cols, -1, row);
    assert cols * row == row * cols;
  }

  /** No two tiles overlap. */
  lemma {:induction false} TilesApart(n: nat, i: nat, j: nat, area: Rect)
    requires i < n && j < n && i != j
    ensures Apart(Tile(n, i, area), Tile(n, j, area))
  {
    var (cols, rows) := GridDims(n);
    RowAndColumn(n, i);
    RowAndColumn(n, j);
    hide GridDims;
    TileSize(area.w, cols);
    TileSize(area.h, rows);
    SlotsApart(i % cols, j % cols, area.w / cols);
    SlotsApart(i / cols, j / cols, area.h / rows);
  }

  lemma {:induction false} SlotsApart(i: int, j: int, size: nat)
    ensures i < j ==> i * size + size <= j * size
    ensures j < i ==> j * size + size <= i * size
  {
    if i < j {
      Slots(i, j, size);
    } else if j < i {
      Slots(j, i, size);
    }
  }

  lemma {:induction false} TileSize(length: nat, parts: nat)
    requires parts > 0
    ensures 0 <= length / parts && 0 <= length - length / parts * parts < parts
    ensures length >= parts ==> length / parts > 0
  {
    Arithmetic.DivisionMonotonic(0, length, parts);
    Arithmetic.DivisionUnique(0, parts, 0, 0);
    Arithmetic.DivisionUnique(parts, parts, 1, 0);
    if length >= parts {
      Arithmetic.DivisionMonotonic(parts, length, parts);
    }
  }

  /** Every tile lies inside the area; the grid leaves fewer than one pixel per column, or per
      row, unused; tiles have no size 0 when the area has a pixel for each column and row. */
  lemma {:induction false} TileFits(n: nat, i: nat, area: Rect)
    requires i < n
    ensures var (cols, rows) := GridDims(n); var t := Tile(n, i, area);
      && Inside(t, area)
      && 0 <= area.w - t.w * cols < cols && 0 <= area.h - t.h * rows < rows
      && (area.w >= cols && area.h >= rows ==> t.w > 0 && t.h > 0)
  {
    var (cols, rows) := GridDims(n);
    RowAndColumn(n, i);
    hide GridDims;
    TileSize(area.w, cols);
    TileSize(area.h, rows);
    InRow(i % cols, cols, area.w / cols, area.w);
    InRow(i / cols, rows, area.h / rows, area.h);
  }

  lemma {:induction false} InRow(i: nat, parts: nat, size: nat, length: nat)
    requires i < parts && size * parts <= length
    ensures 0 <= i * size && i * size + size <= length
  {
    Slots(i, parts, size);
    assert parts * size == size * parts;
    Arithmetic.MultipleApart(i, if size > 0 then size else 1);
  }

  predicate Covers(t: Rect, px: int, py: int) {
    t.x <= px < t.x + t.w && t.y <= py < t.y + t.h
  }

  /** Every pixel of every row but the last lies in a tile: only the last row may have holes. */
  lemma {:induction false} NoHoles(n: nat, area: Rect, px: int, py: int)
    requires n > 0
    requires var (cols, rows) := GridDims(n);
      && 0 <= px - area.x < area.w / cols * cols
      && 0 <= py - area.y < area.h / rows * (rows - 1)
    ensures exists i: nat :: i < n && Covers(Tile(n, i, area), px, py)
  {
    var (cols, rows) := GridDims(n);
    RoundedUp(n, cols);
    TileSize(area.w, cols);
    TileSize(area.h, rows);
    var col := SlotOf(px - area.x, area.w / cols, cols);
    var row := SlotOf(py - area.y, area.h / rows, rows - 1);
    hide GridDims, Tile;
    Slots(row, rows - 1, cols);
    assert (rows - 1) * cols == cols * (rows - 1);
    TileAt(n, area, row, col);
    assert Covers(Tile(n, row * cols + col, area), px, py);
  }

  lemma {:induction false} TileAt(n: nat, area: Rect, row: nat, col: nat)
    requires n > 0 && col < GridDims(n).0 && row * GridDims(n).0 + col < n
    ensures var (cols, rows) := GridDims(n);
      Tile(n, row * cols + col, area)
      == Rect(area.x + col * (area.w / cols), area.y + row * (area.h / rows), area.w / cols, area.h / rows)
  {
    Arithmetic.DivisionUnique(row * GridDims(n).0 + col, GridDims(n).0, row, col);
    hide GridDims;
  }

  lemma {:induction false} SlotOf(offset: nat, size: nat, parts: int) returns (slot: nat)
    requires offset < size * parts
    ensures slot < parts && slot * size <= offset < slot * size + size
  {
    assert size == 0 ==> size * parts == 0;
    slot := offset / size;
    assert offset == slot * size + offset % size;
    Arithmetic.DivisionMonotonic(0, offset, size);
    Arithmetic.DivisionUnique(0, size, 0, 0);
    assert slot * size == size * slot;
    Ordered(size, slot, parts);
  }

  /** Tiles follow each other in reading order: the first in the corner, each next one to the right of
      its predecessor, or at the start of the row below when the row is full. */
  lemma {:induction false} ReadingOrder(n: nat, i: nat, area: Rect)
    requires i < n
    ensures
      var cols, t := GridDims(n).0, Tile(n, i, area);
      && (i == 0 ==> t.x == area.x && t.y == area.y)
      && (i + 1 < n ==>
            Tile(n, i + 1, area) ==
            if (i + 1) % cols == 0 then Rect(area.x, t.y + t.h, t.w, t.h) else Rect(t.x + t.w, t.y, t.w, t.h))
  {
    var (cols, rows) := GridDims(n);
    RowAndColumn(n, i);
    var row, col := i / cols, i % cols;
    if i == 0 {
      Arithmetic.DivisionUnique(0, cols, 0, 0);
    }
    if i + 1 < n {
      hide GridDims, RootFrom;
      if col + 1 == cols {
        Arithmetic.DivisionUnique(i + 1, cols, row + 1, 0);
        NextSlot(row, area.h / rows);
      } else {
        Arithmetic.DivisionUnique(i + 1, cols, row, col + 1);
        NextSlot(col, area.w / cols);
      }
    }
  }

  lemma {:induction false} NextSlot(i: int, size: int)
    ensures (i + 1) * size == i * size + size
    ensures 0 * size == 0
  {
  }

  // Inputs of the compositor

  /** An input branch; the pad, cropper and scaler are GStreamer elements that may be missing. */
  class GstInput {
    const id: int
    const screenShare: bool
    const hasPad: bool
    const hasCropper: bool
    const hasScaler: bool
    var pad: Rect
    var aspectRatio: (int, int)
    var scaledTo: (int, int)

    constructor (id: int, screenShare: bool, hasPad: bool, hasCropper: bool, hasScaler: bool)
      ensures this.id == id && this.screenShare == screenShare
      ensures this.hasPad == hasPad && this.hasCropper == hasCropper && this.hasScaler == hasScaler
    {
      this.id, this.screenShare := id, screenShare;
      this.hasPad, this.hasCropper, this.hasScaler := hasPad, hasCropper, hasScaler;
    }

    /** The elements there are show the source, cropped and scaled to fit, in a rectangle. */
    predicate ShownIn(r: Rect)
      reads this
    {
      && (hasPad ==> pad == r)
      && (hasCropper ==> aspectRatio == (r.w, r.h))
      && (hasScaler ==> scaledTo == (r.w, r.h))
    }
  }

  ghost function Members(inputs: seq<GstInput>): set<GstInput> {
    set input | input in inputs
  }

  ghost predicate NoDuplicates(inputs: seq<GstInput>) {
    forall i, j :: 0 <= i < j < |inputs| ==> inputs[i] != inputs[j]
  }

  method LayoutGrid(inputs: seq<GstInput>, area: Rect)
    requires NoDuplicates(inputs)
    modifies Members(inputs)
    ensures forall i :: 0 <= i < |inputs| ==>
      var t := Tile(|inputs|, i, area);
      && inputs[i].ShownIn(t)
      && (inputs[i].hasPad ==> inputs[i].pad == t)
      && (inputs[i].hasCropper ==> inputs[i].aspectRatio == (t.w, t.h))
      && (inputs[i].hasScaler ==> inputs[i].scaledTo == (t.w, t.h))
  {
    var n := |inputs|;
    if n == 0 {
      return;
    }
    var (cols, rows) := GridDims(n);
    TileSize(area.w, cols);
    TileSize(area.h, rows);
    var tileW, tileH := area.w / cols, area.h / rows;
    for i := 0 to n
      invariant forall k :: 0 <= k < i ==> inputs[k].ShownIn(Tile(n, k, area))
    {
      var input := inputs[i];
      var col, row := i % cols, i / cols;
      if input.hasCropper {
        input.aspectRatio := (tileW, tileH);
      }
      if input.hasScaler {
        input.scaledTo := (tileW, tileH);
      }
      if input.hasPad {
        input.pad := Rect(area.x + col * tileW, area.y + row * tileH, tileW, tileH);
      }
    }
  }

  // Laying out all inputs

  ghost predicate DistinctIds(inputs: seq<GstInput>) {
    forall i, j :: 0 <= i < j < |inputs| ==> inputs[i].id != inputs[j].id
  }

  ghost predicate Sorted(inputs: seq<GstInput>) {
    forall i, j :: 0 <= i < j < |inputs| ==> inputs[i].id < inputs[j].id
  }

  ghost function Kind(inputs: set<GstInput>, screenShare: bool): set<GstInput> {
    set input | input in inputs && input.screenShare == screenShare
  }

  /** How many inputs come before this one in the order of ids. */
  ghost function Rank(inputs: set<GstInput>, input: GstInput): nat {
    |set other | other in inputs && other.id < input.id|
  }

  /** Where an input belongs: screens share the canvas; cameras do when there is no screen, and
      are parked to the left of it otherwise. */
  ghost function Area(inputs: set<GstInput>, screenShare: bool, width: nat, height: nat): Rect {
    Rect(if !screenShare && Kind(inputs, true) != {} then -(width as int) else 0, 0, width, height)
  }

  ghost function Place(inputs: set<GstInput>, input: GstInput, width: nat, height: nat): Rect
    requires input in inputs
  {
    var peers := Kind(inputs, input.screenShare);
    RankInRange(peers, input);
    Tile(|peers|, Rank(peers, input), Area(inputs, input.screenShare, width, height))
  }

  lemma {:induction false} RankInRange(inputs: set<GstInput>, input: GstInput)
    requires input in inputs
    ensures Rank(inputs, input) < |inputs|
  {
    var before := set other | other in inputs && other.id < input.id;
    assert before <= inputs - {input};
    Smaller(before, inputs - {input});
  }

  lemma {:induction false} Smaller(a: set<GstInput>, b: set<GstInput>)
    requires a <= b
    ensures |a| <= |b|
  {
    if a != {} {
      var x :| x in a;
      Smaller(a - {x}, b - {x});
    }
  }

  lemma {:induction false} SortedCount(inputs: seq<GstInput>)
    requires Sorted(inputs)
    ensures |Members(inputs)| == |inputs|
  {
    if inputs != [] {
      var n := |inputs| - 1;
      SortedCount(inputs[..n]);
      assert Members(inputs) == Members(inputs[..n]) + {inputs[n]};
    }
  }

  /** In a list sorted by id every input stands at its rank. */
  lemma {:induction false} SortedRank(inputs: seq<GstInput>, i: nat)
    requires Sorted(inputs) && i < |inputs|
    ensures Rank(Members(inputs), inputs[i]) == i && |Members(inputs)| == |inputs|
  {
    SortedCount(inputs);
    SortedCount(inputs[..i]);
    var before := set other | other in Members(inputs) && other.id < inputs[i].id;
    assert before == Members(inputs[..i]) by {
      forall other | other in before
        ensures other in inputs[..i]
      {
        var k :| 0 <= k < |inputs| && inputs[k] == other;
        assert k < i;
        assert inputs[..i][k] == other;
      }
    }
  }

  method SortById(inputs: seq<GstInput>) returns (sorted: seq<GstInput>)
    requires DistinctIds(inputs)
    ensures Sorted(sorted) && Members(sorted) == Members(inputs)
  {
    sorted := [];
    for k := 0 to |inputs|
      invariant Sorted(sorted) && Members(sorted) == Members(inputs[..k])
    {
      var at := 0;
      while at < |sorted| && sorted[at].id < inputs[k].id
        invariant at <= |sorted|
        invariant forall i :: 0 <= i < at ==> sorted[i].id < inputs[k].id
      {
        at := at + 1;
      }
      InsertSorted(inputs, k, sorted, at);
      sorted := sorted[..at] + [inputs[k]] + sorted[at..];
    }
    assert inputs[..|inputs|] == inputs;
  }

  lemma {:induction false} InsertSorted(inputs: seq<GstInput>, k: nat, sorted: seq<GstInput>, at: nat)
    requires DistinctIds(inputs) && k < |inputs|
    requires Sorted(sorted) && Members(sorted) == Members(inputs[..k]) && at <= |sorted|
    requires forall i :: 0 <= i < at ==> sorted[i].id < inputs[k].id
    requires at < |sorted| ==> inputs[k].id <= sorted[at].id
    ensures var longer := sorted[..at] + [inputs[k]] + sorted[at..];
      Sorted(longer) && Members(longer) == Members(inputs[..k + 1])
  {
    var longer := sorted[..at] + [inputs[k]] + sorted[at..];
    forall i | at <= i < |sorted|
      ensures inputs[k].id < sorted[i].id
    {
      assert sorted[i] in Members(sorted);
      var j :| 0 <= j < k && inputs[j] == sorted[i];
      assert inputs[j].id != inputs[k].id;
    }
    assert Members(longer) == Members(sorted) + {inputs[k]} by {
      assert forall x :: x in longer <==> x in sorted[..at] || x == inputs[k] || x in sorted[at..];
      assert sorted == sorted[..at] + sorted[at..];
    }
    assert inputs[..k + 1] == inputs[..k] + [inputs[k]];
  }

  /** Taking the next input of a sorted list into the list of its kind. */
  lemma {:induction false} AppendSorted(all: seq<GstInput>, k: nat, some: seq<GstInput>, screenShare: bool)
    requires Sorted(all) && k < |all|
    requires Sorted(some) && Members(some) == Kind(Members(all[..k]), screenShare)
    ensures var some' := if all[k].screenShare == screenShare then some + [all[k]] else some;
      Sorted(some') && Members(some') == Kind(Members(all[..k + 1]), screenShare)
  {
    assert all[..k + 1] == all[..k] + [all[k]];
    assert Members(all[..k + 1]) == Members(all[..k]) + {all[k]};
    forall i | 0 <= i < |some|
      ensures some[i].id < all[k].id
    {
      assert some[i] in Members(some);
      var j :| 0 <= j < k && all[j] == some[i];
    }
    assert Members(some + [all[k]]) == Members(some) + {all[k]};
  }

  method SplitByKind(all: seq<GstInput>) returns (cameras: seq<GstInput>, screens: seq<GstInput>)
    requires Sorted(all)
    ensures Sorted(cameras) && Members(cameras) == Kind(Members(all), false)
    ensures Sorted(screens) && Members(screens) == Kind(Members(all), true)
  {
    cameras, screens := [], [];
    for k := 0 to |all|
      invariant Sorted(cameras) && Members(cameras) == Kind(Members(all[..k]), false)
      invariant Sorted(screens) && Members(screens) == Kind(Members(all[..k]), true)
    {
      AppendSorted(all, k, cameras, false);
      AppendSorted(all, k, screens, true);
      if all[k].screenShare {
        screens := screens + [all[k]];
      } else {
        cameras := cameras + [all[k]];
      }
    }
    assert all[..|all|] == all;
  }

  lemma {:induction false} Placing(inputs: set<GstInput>, some: seq<GstInput>, screenShare: bool, i: nat,
                                   width: nat, height: nat)
    requires Sorted(some) && Members(some) == Kind(inputs, screenShare) && i < |some|
    ensures some[i] in inputs && some[i].screenShare == screenShare
    ensures Place(inputs, some[i], width, height) == Tile(|some|, i, Area(inputs, screenShare, width, height))
  {
    assert some[i] in Members(some);
    SortedRank(some, i);
  }

  lemma {:induction false} ScreensFirst(inputs: set<GstInput>, screens: seq<GstInput>, width: nat, height: nat)
    requires Members(screens) == Kind(inputs, true)
    ensures Area(inputs, true, width, height) == Rect(0, 0, width, height)
    ensures Area(inputs, false, width, height) == Rect(if |screens| > 0 then -(width as int) else 0, 0, width, height)
  {
    if |screens| > 0 {
      assert screens[0] in Members(screens);
    }
  }

  /** Every input of a kind is where it belongs. */
  ghost predicate InPlace(inputs: set<GstInput>, screenShare: bool, width: nat, height: nat)
    reads inputs
  {
    forall input :: input in inputs && input.screenShare == screenShare ==>
      input.ShownIn(Place(inputs, input, width, height))
  }

  method LayoutKind(ghost inputs: set<GstInput>, some: seq<GstInput>, ghost screenShare: bool, area: Rect)
    requires Sorted(some) && Members(some) == Kind(inputs, screenShare)
    requires area == Area(inputs, screenShare, area.w, area.h)
    modifies Members(some)
    ensures InPlace(inputs, screenShare, area.w, area.h)
  {
    LayoutGrid(some, area);
    forall input | input in inputs && input.screenShare == screenShare
      ensures input.ShownIn(Place(inputs, input, area.w, area.h))
    {
      assert input in Members(some);
      var i :| 0 <= i < |some| && some[i] == input;
      Placing(inputs, some, screenShare, i, area.w, area.h);
    }
  }

  lemma {:induction false} OfKind(inputs: seq<GstInput>, some: seq<GstInput>, screenShare: bool)
    requires Members(some) == Kind(Members(inputs), screenShare)
    ensures forall input :: input in some <==> input in inputs && input.screenShare == screenShare
    ensures Members(some) <= Members(inputs)
  {
    assert forall input :: input in some <==> input in Members(some);
  }

  method Relayout(inputs: seq<GstInput>, width: nat, height: nat)
    requires DistinctIds(inputs)
    modifies Members(inputs)
    ensures forall input :: input in inputs ==> input.ShownIn(Place(Members(inputs), input, width, height))
  {
    if |inputs| == 0 {
      return;
    }
    var all := SortById(inputs);
    var cameras, screens := SplitByKind(all);
    OfKind(inputs, screens, true);
    OfKind(inputs, cameras, false);
    ScreensFirst(Members(inputs), screens, width, height);
    hide Members, Kind, Area, Place, Sorted, GstInput.ShownIn;
    var canvas := Rect(0, 0, width, height);
    if |screens| > 0 {
      LayoutKind(Members(inputs), screens, true, canvas);
      LayoutKind(Members(inputs), cameras, false, Rect(-(width as int), 0, width, height));
    } else {
      LayoutKind(Members(inputs), cameras, false, canvas);
    }
  }

  ghost predicate IdsIdentify(inputs: set<GstInput>) {
    forall a, b :: a in inputs && b in inputs && a.id == b.id ==> a == b
  }

  lemma {:induction false} RankGrows(inputs: set<GstInput>, a: GstInput, b: GstInput)
    requires a in inputs && a.id < b.id
    ensures Rank(inputs, a) < Rank(inputs, b)
  {
    var beforeA := set other | other in inputs && other.id < a.id;
    var beforeB := set other | other in inputs && other.id < b.id;
    assert a in beforeB && a !in beforeA;
    assert beforeA <= beforeB - {a};
    Smaller(beforeA, beforeB - {a});
  }

  /** Of two inputs of one kind, the one with the smaller id comes first in reading order. */
  lemma {:induction false} SmallerIdFirst(inputs: set<GstInput>, a: GstInput, b: GstInput, width: nat, height: nat)
    returns (i: nat, j: nat)
    requires a in inputs && b in inputs && a.screenShare == b.screenShare && a.id < b.id
    ensures
      var n := |Kind(inputs, a.screenShare)|;
      var area := Area(inputs, a.screenShare, width, height);
      i < j < n && Place(inputs, a, width, height) == Tile(n, i, area) && Place(inputs, b, width, height) == Tile(n, j, area)
  {
    var peers := Kind(inputs, a.screenShare);
    RankInRange(peers, a);
    RankInRange(peers, b);
    RankGrows(peers, a, b);
    i, j := Rank(peers, a), Rank(peers, b);
    hide Tile, Rank;
  }

  /** Screen shares are placed as if there were no cameras. Cameras form the same grid as without
      screen shares, and beside one this grid as a whole is moved left by the canvas's width. */
  lemma {:induction false} ParkedGrid(inputs: set<GstInput>, input: GstInput, width: nat, height: nat)
    requires input in inputs
    ensures
      var alone := Place(Kind(inputs, input.screenShare), input, width, height);
      Place(inputs, input, width, height) ==
      if input.screenShare || forall other | other in inputs :: !other.screenShare then alone
      else alone.(x := alone.x - width)
  {
    var peers := Kind(inputs, input.screenShare);
    assert Kind(peers, input.screenShare) == peers;
    RankInRange(peers, input);
    var i := Rank(peers, input);
    var area, own := Area(inputs, input.screenShare, width, height), Area(peers, input.screenShare, width, height);
    if input.screenShare {
      assert area == own;
    } else {
      assert Kind(peers, true) == {};
      if other :| other in inputs && other.screenShare {
        assert other in Kind(inputs, true);
      } else {
        assert Kind(inputs, true) == {};
      }
    }
    MovedArea(|peers|, i, own, area.x);
  }

  lemma {:induction false} MovedArea(n: nat, i: nat, area: Rect, x: int)
    requires i < n
    ensures Tile(n, i, area.(x := x)) == Tile(n, i, area).(x := Tile(n, i, area).x - area.x + x)
  {
    hide GridDims;
  }

  /** A camera beside a screen share lies wholly left of the canvas; any other input lies inside. */
  lemma {:induction false} ShownOrParked(inputs: set<GstInput>, input: GstInput, width: nat, height: nat)
    requires input in inputs
    ensures var r := Place(inputs, input, width, height);
      if !input.screenShare && Kind(inputs, true) != {} then r.x + r.w <= 0
      else Inside(r, Rect(0, 0, width, height))
  {
    var peers := Kind(inputs, input.screenShare);
    RankInRange(peers, input);
    TileFits(|peers|, Rank(peers, input), Area(inputs, input.screenShare, width, height));
    hide Tile;
  }

  /** No two inputs are ever shown over one another, whatever their kinds. */
  lemma {:induction false} PlacesApart(inputs: set<GstInput>, a: GstInput, b: GstInput, width: nat, height: nat)
    requires a in inputs && b in inputs && a != b && IdsIdentify(inputs)
    ensures Apart(Place(inputs, a, width, height), Place(inputs, b, width, height))
  {
    if a.screenShare == b.screenShare {
      var peers := Kind(inputs, a.screenShare);
      RankInRange(peers, a);
      RankInRange(peers, b);
      if a.id < b.id {
        RankGrows(peers, a, b);
      } else {
        RankGrows(peers, b, a);
      }
      TilesApart(|peers|, Rank(peers, a), Rank(peers, b), Area(inputs, a.screenShare, width, height));
      hide Tile, Rank, Apart;
    } else {
      ShownOrParked(inputs, a, width, height);
      ShownOrParked(inputs, b, width, height);
      assert a in Kind(inputs, a.screenShare) && b in Kind(inputs, b.screenShare);
      hide Place;
    }
  }
}
