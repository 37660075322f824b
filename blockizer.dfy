/** `blockize` and `make_block`: each row of the image is cut, left to right, into runs of
    one colour at most four cells long, and every run becomes a brick whose pins mark the
    cells with nothing above them. */
module Blockizer {
  import opened Types
  import opened Loader

  /** `k_blank`: the palette colour that stands for "no brick here". */
  const Blank: string := "#00FF00"

  /** The tuple `(left, row, length, pins, color)` that `make_block` returns. */
  datatype Block = Block(left: int, row: int, length: int, pins: seq<int>, color: string)

  /** A run of one row as the scan closes it: the cells `[left, left + length)`. */
  datatype Run = Run(left: int, length: int, color: string)

  /** The scan's state after some cells of a row: the open run's colour (`None` when there
      is no open run) and length, and the runs closed so far. */
  datatype Scan = Scan(color: Option<string>, length: int, runs: seq<Run>)

  // ---------------------------------------------------------------------------------------
  // One row, as a sequence of palette colours

  /** Meeting colour `c`, the scan closes the open run: at a blank cell, at a change of
      colour, or when the run already has four cells. */
  predicate Cuts(s: Scan, c: string)
  {
    s.color.Some? && (c == Blank || c != s.color.value || s.length == 4)
  }

  /** One iteration of the inner loop of `blockize`, at cell `column` of colour `c`. */
  function Step(s: Scan, column: int, c: string): Scan
  {
    var runs := if Cuts(s, c) then s.runs + [Run(column - s.length, s.length, s.color.value)] else s.runs;
    var length := if Cuts(s, c) then 0 else s.length;
    if c != Blank then Scan(Some(c), length + 1, runs) else Scan(None, 0, runs)
  }

  /** The scan's state after the first `k` cells of `cs`. */
  function ScanTo(cs: seq<string>, k: nat): (s: Scan)
    requires k <= |cs|
    ensures s.color.None? <==> s.length == 0
    ensures 0 <= s.length <= 4 && s.length <= k
  {
    if k == 0 then Scan(None, 0, [])
    else Step(ScanTo(cs, k - 1), k - 1, cs[k - 1])
  }

  /** The runs a row is cut into: those closed inside the row, then the open one, which the
      code after the inner loop closes at the end of the row. */
  function RowRuns(cs: seq<string>): (rs: seq<Run>)
    ensures var s := ScanTo(cs, |cs|); |s.runs| <= |rs| <= |s.runs| + 1
  {
    Close(ScanTo(cs, |cs|), |cs|)
  }

  /** The runs of scan state `s` at cell `k`, with the open run closed. */
  function Close(s: Scan, k: int): (r: seq<Run>)
    ensures |s.runs| <= |r| <= |s.runs| + 1
    ensures |r| > |s.runs| ==> r[|s.runs|].left + r[|s.runs|].length == k && r[|s.runs|].length == s.length
  {
    if s.length > 0 && s.color.Some? then s.runs + [Run(k - s.length, s.length, s.color.value)] else s.runs
  }

  /** `x` lies in the span of `run`. */
  ghost predicate Covers(run: Run, x: int)
  {
    run.left <= x < run.left + run.length
  }

  /** `run` lies within the first `k` cells and has one to four cells. */
  ghost predicate Inside(run: Run, k: int)
  {
    1 <= run.length <= 4 && 0 <= run.left && run.left + run.length <= k
  }

  /** Every cell of `run` has its colour, and that colour is not blank. */
  ghost predicate Uniform(cs: seq<string>, run: Run)
  {
    run.color != Blank &&
    forall x | run.left <= x < run.left + run.length :: 0 <= x < |cs| && cs[x] == run.color
  }

  /** Every run lies within the first `e` cells and has one to four cells. */
  ghost predicate RunsInside(runs: seq<Run>, e: int)
  {
    forall i | 0 <= i < |runs| :: Inside(runs[i], e)
  }

  /** Runs come left to right and do not overlap. */
  ghost predicate Ordered(runs: seq<Run>)
  {
    forall i, j | 0 <= i < j < |runs| :: runs[i].left + runs[i].length <= runs[j].left
  }

  /** Two runs that touch and share a colour were cut only because the first was full. */
  ghost predicate Maximal(runs: seq<Run>)
  {
    forall i, j | 0 <= i < |runs| && j == i + 1 && j < |runs| ::
      runs[i].left + runs[i].length == runs[j].left && runs[i].color == runs[j].color ==> runs[i].length == 4
  }

  /** Among the first `e` cells, exactly the non-blank ones are covered by a run. */
  ghost predicate CoversUpTo(cs: seq<string>, runs: seq<Run>, e: int)
  {
    forall x | 0 <= x < e && x < |cs| :: cs[x] != Blank <==> exists i | 0 <= i < |runs| :: Covers(runs[i], x)
  }

  /** A run that ends at `e` and has colour `color` was cut only because it was full. */
  ghost predicate Joinable(run: Run, e: int, color: string)
  {
    run.left + run.length == e && run.color == color ==> run.length == 4
  }

  /** The runs tile the first `e` cells: each is a uniform run of one to four cells inside
      them, they come in order, touching runs of one colour are cut only when full, and a
      cell is covered exactly when it is not blank. */
  ghost predicate Tiled(cs: seq<string>, runs: seq<Run>, e: int)
  {
    RunsInside(runs, e) && (forall i | 0 <= i < |runs| :: Uniform(cs, runs[i])) &&
    Ordered(runs) && Maximal(runs) && CoversUpTo(cs, runs, e)
  }

  /** What the scan knows after `k` cells: the closed runs tile the cells before the open
      run, and the open run is `[k - length, k)` of its colour. */
  ghost predicate ScanInv(cs: seq<string>, k: nat, s: Scan)
    requires k <= |cs|
  {
    (s.color.None? <==> s.length == 0) && 0 <= s.length <= 4 && s.length <= k &&
    Tiled(cs, s.runs, k - s.length) &&
    (s.color.Some? ==> s.color.value != Blank && forall x | k - s.length <= x < k :: cs[x] == s.color.value) &&
    (s.length > 0 && |s.runs| > 0 ==> Joinable(s.runs[|s.runs| - 1], k - s.length, s.color.value)) &&
    (s.length == 0 && k > 0 ==> cs[k - 1] == Blank)
  }

  /** Closing the open run extends the tiling to all `k` cells. */
  lemma CloseRun(cs: seq<string>, k: nat, s: Scan)
    requires k <= |cs| && ScanInv(cs, k, s) && s.length > 0
    ensures Tiled(cs, s.runs + [Run(k - s.length, s.length, s.color.value)], k)
  {
    var run := Run(k - s.length, s.length, s.color.value);
    var t := s.runs + [run];
    assert forall i | 0 <= i < |s.runs| :: t[i] == s.runs[i];
    assert t[|s.runs|] == run;
    forall x | 0 <= x < k && x < |cs|
      ensures cs[x] != Blank <==> exists i | 0 <= i < |t| :: Covers(t[i], x)
    {
      if x < k - s.length {
        if cs[x] != Blank {
          var i :| 0 <= i < |s.runs| && Covers(s.runs[i], x);
          assert Covers(t[i], x);
        } else {
          assert !Covers(run, x);
        }
      } else {
        assert Covers(t[|s.runs|], x);
      }
    }
  }

  /** A blank cell right after a tiling extends it. */
  lemma ExtendBlank(cs: seq<string>, runs: seq<Run>, e: nat)
    requires e < |cs| && cs[e] == Blank && Tiled(cs, runs, e)
    ensures Tiled(cs, runs, e + 1)
  {
    forall i | 0 <= i < |runs| ensures !Covers(runs[i], e) {
      assert Inside(runs[i], e);
    }
  }

  /** A blank cell that closes the open run. */
  lemma StepCutBlank(cs: seq<string>, k: nat, s: Scan)
    requires k < |cs| && ScanInv(cs, k, s) && Cuts(s, cs[k]) && cs[k] == Blank
    ensures ScanInv(cs, k + 1, Step(s, k, cs[k]))
  {
    var t := s.runs + [Run(k - s.length, s.length, s.color.value)];
    CloseRun(cs, k, s);
    ExtendBlank(cs, t, k);
    assert Step(s, k, cs[k]) == Scan(None, 0, t);
  }

  /** A non-blank cell that closes the open run and starts a new one. */
  lemma StepCutGrow(cs: seq<string>, k: nat, s: Scan)
    requires k < |cs| && ScanInv(cs, k, s) && Cuts(s, cs[k]) && cs[k] != Blank
    ensures ScanInv(cs, k + 1, Step(s, k, cs[k]))
  {
    CloseRun(cs, k, s);
    var run := Run(k - s.length, s.length, s.color.value);
    var t := s.runs + [run];
    assert Step(s, k, cs[k]) == Scan(Some(cs[k]), 1, t);
    assert t[|t| - 1] == run;
    assert Joinable(run, k, cs[k]);
    assert Tiled(cs, t, k + 1 - 1);
  }

  /** A blank cell with no run open. */
  lemma StepBlank(cs: seq<string>, k: nat, s: Scan)
    requires k < |cs| && ScanInv(cs, k, s) && !Cuts(s, cs[k]) && cs[k] == Blank
    ensures ScanInv(cs, k + 1, Step(s, k, cs[k]))
  {
    ExtendBlank(cs, s.runs, k);
  }

  /** A non-blank cell that opens a run or extends the open one. */
  lemma StepGrow(cs: seq<string>, k: nat, s: Scan)
    requires k < |cs| && ScanInv(cs, k, s) && !Cuts(s, cs[k]) && cs[k] != Blank
    ensures ScanInv(cs, k + 1, Step(s, k, cs[k]))
  {
    if s.length == 0 && |s.runs| > 0 {
      var last := s.runs[|s.runs| - 1];
      assert Inside(last, k) && Uniform(cs, last);
      assert cs[k - 1] == Blank;
      assert last.left + last.length != k;
    }
  }

  /** One cell keeps the scan's invariant. */
  lemma StepInv(cs: seq<string>, k: nat, s: Scan)
    requires k < |cs| && ScanInv(cs, k, s)
    ensures ScanInv(cs, k + 1, Step(s, k, cs[k]))
  {
    if Cuts(s, cs[k]) && cs[k] == Blank {
      StepCutBlank(cs, k, s);
    } else if Cuts(s, cs[k]) {
      StepCutGrow(cs, k, s);
    } else if cs[k] == Blank {
      StepBlank(cs, k, s);
    } else {
      StepGrow(cs, k, s);
    }
  }

  /** The scan keeps its invariant from the start of the row to every cell. */
  lemma {:induction false} ScanToInv(cs: seq<string>, k: nat)
    requires k <= |cs|
    ensures ScanInv(cs, k, ScanTo(cs, k))
  {
    if k == 0 {
      assert Tiled(cs, [], 0);
    } else {
      ScanToInv(cs, k - 1);
      var s := ScanTo(cs, k - 1);
      StepInv(cs, k - 1, s);
      assert ScanTo(cs, k) == Step(s, k - 1, cs[k - 1]);
    }
  }

  /** The runs of a row tile it: every run has one to four cells of one non-blank colour,
      runs come left to right without overlapping, exactly the non-blank cells are covered,
      and two touching runs of one colour mean the first is full. */
  lemma {:induction false} RowRunsTiled(cs: seq<string>)
    ensures Tiled(cs, RowRuns(cs), |cs|)
  {
    ScanToInv(cs, |cs|);
    CloseTiled(cs, |cs|, ScanTo(cs, |cs|));
  }

  /** Closing the open run of a scan that keeps its invariant tiles all `k` cells. */
  lemma CloseTiled(cs: seq<string>, k: nat, s: Scan)
    requires k <= |cs| && ScanInv(cs, k, s)
    ensures Tiled(cs, Close(s, k), k)
  {
    if s.length > 0 {
      CloseRun(cs, k, s);
      assert Close(s, k) == s.runs + [Run(k - s.length, s.length, s.color.value)];
    } else {
      assert Close(s, k) == s.runs && k - s.length == k;
    }
  }

  /** The runs the scan has closed lie within the row. */
  lemma ScanRunsInside(cs: seq<string>, k: nat)
    requires k <= |cs|
    ensures RunsInside(ScanTo(cs, k).runs, |cs|)
  {
    ScanToInv(cs, k);
    var s := ScanTo(cs, k);
    forall i | 0 <= i < |s.runs| ensures Inside(s.runs[i], |cs|) {
      assert Inside(s.runs[i], k - s.length);
    }
  }

  /** Five cells of one colour give a full run and a run of one. */
  lemma FiveEqualCells(c: string)
    requires c != Blank
    ensures RowRuns([c, c, c, c, c]) == [Run(0, 4, c), Run(4, 1, c)]
  {
    var cs := [c, c, c, c, c];
    assert ScanTo(cs, 1) == Scan(Some(c), 1, []);
    assert ScanTo(cs, 2) == Scan(Some(c), 2, []);
    assert ScanTo(cs, 3) == Scan(Some(c), 3, []);
    assert ScanTo(cs, 4) == Scan(Some(c), 4, []);
    assert ScanTo(cs, 5) == Scan(Some(c), 1, [Run(0, 4, c)]);
  }

  // ---------------------------------------------------------------------------------------
  // The image

  /** Every grid cell `blockize` reads, `height` rows of `width` codes, names a palette
      entry. A loaded image has that shape (`Loader.ParseXpmShape`); the codes are in the
      palette when every pixel uses a colour-table line other than a `c None` line. */
  ghost predicate Resolves(img: Image)
  {
    |img.pixelmap| >= Count(img.height) &&
    forall r | 0 <= r < Count(img.height) ::
      |img.pixelmap[r]| >= Count(img.width) &&
      forall j | 0 <= j < Count(img.width) :: img.pixelmap[r][j] in img.colormap
  }

  /** `pixmap.colormap[pixmap.pixelmap[r][j]]`. */
  function Color(img: Image, r: int, j: int): string
    requires Resolves(img) && 0 <= r < Count(img.height) && 0 <= j < Count(img.width)
  {
    img.colormap[img.pixelmap[r][j]]
  }

  /** The colours of row `r`. */
  function RowColors(img: Image, r: int): (cs: seq<string>)
    requires Resolves(img) && 0 <= r < Count(img.height)
    ensures |cs| == Count(img.width)
  {
    seq(Count(img.width), j requires 0 <= j < Count(img.width) => Color(img, r, j))
  }

  /** Cell `x` of row `r` is inside the grid and its code is in the palette. */
  ghost predicate CellResolves(img: Image, r: int, x: int)
  {
    0 <= r < |img.pixelmap| && 0 <= x < |img.pixelmap[r]| && img.pixelmap[r][x] in img.colormap
  }

  /** The cells `[left, left + length)` of row `r` are inside the grid and in the palette. */
  ghost predicate SpanResolves(img: Image, r: int, left: int, length: int)
  {
    forall x | left <= x < left + length :: CellResolves(img, r, x)
  }

  /** The cells above the run `[left, left + length)` of row `row`, which `make_block`
      looks up when `row` is not the top row, are inside the grid and in the palette. */
  ghost predicate AboveResolves(img: Image, row: int, left: int, length: int)
  {
    row > 0 ==> SpanResolves(img, row - 1, left, length)
  }

  /** The pin over column `x` of row `row`: `1` on the top row (`[1] * length`), otherwise
      `[0,1][colormap[pixelmap[row-1][x]] == k_blank]`. */
  function PinAt(img: Image, row: int, x: int): (p: int)
    requires row >= 0 && (row > 0 ==> CellResolves(img, row - 1, x))
    ensures p == 0 || p == 1
    ensures row == 0 ==> p == 1
  {
    if row == 0 || img.colormap[img.pixelmap[row - 1][x]] == Blank then 1 else 0
  }

  /** `make_block(pixmap, column, row, length, color)`: the run of `length` cells ending
      before `column`, with one pin per cell (see `MakeBlockPins`). */
  function MakeBlock(img: Image, column: int, row: int, length: int, color: string): (b: Block)
    requires row >= 0 && AboveResolves(img, row, column - length, length)
    ensures b.left == column - length && b.row == row && b.length == length && b.color == color
    ensures |b.pins| == Count(length)
  {
    var left := column - length;
    var pins := seq(Count(length), i requires 0 <= i < Count(length) => PinAt(img, row, left + i));
    Block(left, row, length, pins, color)
  }

  /** The pins of `make_block`: `[1] * length` on the top row, and otherwise a pin exactly
      under each blank cell of the row above. */
  lemma MakeBlockPins(img: Image, column: int, row: int, length: int, color: string)
    requires row >= 0 && AboveResolves(img, row, column - length, length)
    ensures var b := MakeBlock(img, column, row, length, color);
      forall i | 0 <= i < |b.pins| ::
        (b.pins[i] == 0 || b.pins[i] == 1) && (row > 0 ==> CellResolves(img, row - 1, b.left + i)) &&
        (b.pins[i] == 1 <==> row == 0 || img.colormap[img.pixelmap[row - 1][b.left + i]] == Blank)
  {
    var b := MakeBlock(img, column, row, length, color);
    assert forall i | 0 <= i < |b.pins| :: b.pins[i] == PinAt(img, row, b.left + i);
  }

  /** A run inside a row of a resolving image has its cells above in the palette. */
  lemma RunAbove(img: Image, row: int, left: int, length: int)
    requires Resolves(img) && 0 <= row < Count(img.height)
    requires 0 <= left && 0 <= length && left + length <= Count(img.width)
    ensures AboveResolves(img, row, left, length)
  {
  }

  /** The blocks of runs `runs` of row `row`, in order. */
  function Emit(img: Image, row: int, runs: seq<Run>): (bs: seq<Block>)
    requires Resolves(img) && 0 <= row < Count(img.height)
    requires RunsInside(runs, Count(img.width))
    ensures |bs| == |runs|
  {
    if runs == [] then []
    else
      var run := runs[|runs| - 1];
      assert Inside(run, Count(img.width));
      RunAbove(img, row, run.left, run.length);
      Emit(img, row, runs[..|runs| - 1]) + [MakeBlock(img, run.left + run.length, row, run.length, run.color)]
  }

  lemma EmitSnoc(img: Image, row: int, runs: seq<Run>, run: Run)
    requires Resolves(img) && 0 <= row < Count(img.height)
    requires RunsInside(runs, Count(img.width))
    requires Inside(run, Count(img.width))
    ensures RunsInside(runs + [run], Count(img.width))
    ensures Emit(img, row, runs + [run]) ==
            Emit(img, row, runs) + [MakeBlock(img, run.left + run.length, row, run.length, run.color)]
  {
    assert forall i | 0 <= i < |runs| :: (runs + [run])[i] == runs[i];
    assert (runs + [run])[..|runs|] == runs;
  }

  /** Block `i` is `make_block` applied to run `i`. */
  lemma {:induction false} EmitAt(img: Image, row: int, runs: seq<Run>, i: int)
    requires Resolves(img) && 0 <= row < Count(img.height)
    requires RunsInside(runs, Count(img.width)) && 0 <= i < |runs|
    ensures AboveResolves(img, row, runs[i].left, runs[i].length) &&
            Emit(img, row, runs)[i] == MakeBlock(img, runs[i].left + runs[i].length, row, runs[i].length, runs[i].color)
    decreases |runs|
  {
    assert Inside(runs[i], Count(img.width));
    RunAbove(img, row, runs[i].left, runs[i].length);
    if i < |runs| - 1 {
      var init := runs[..|runs| - 1];
      assert init[i] == runs[i];
      EmitAt(img, row, init, i);
    }
  }

  /** `blocks` are the blocks `make_block` gives for `runs`, one for one. */
  ghost predicate Emitted(img: Image, row: int, runs: seq<Run>, blocks: seq<Block>)
  {
    row >= 0 && |blocks| == |runs| &&
    forall i | 0 <= i < |runs| ::
      AboveResolves(img, row, runs[i].left, runs[i].length) &&
      blocks[i] == MakeBlock(img, runs[i].left + runs[i].length, row, runs[i].length, runs[i].color)
  }

  lemma EmittedSnoc(img: Image, row: int, runs: seq<Run>, blocks: seq<Block>, run: Run, block: Block)
    requires Emitted(img, row, runs, blocks)
    requires AboveResolves(img, row, run.left, run.length)
    requires block == MakeBlock(img, run.left + run.length, row, run.length, run.color)
    ensures Emitted(img, row, runs + [run], blocks + [block])
  {
    var rs, bs := runs + [run], blocks + [block];
    forall i | 0 <= i < |rs|
      ensures AboveResolves(img, row, rs[i].left, rs[i].length) &&
        bs[i] == MakeBlock(img, rs[i].left + rs[i].length, row, rs[i].length, rs[i].color)
    {
      if i < |runs| {
        assert rs[i] == runs[i] && bs[i] == blocks[i];
      }
    }
  }

  lemma EmittedEmit(img: Image, row: int, runs: seq<Run>, blocks: seq<Block>)
    requires Resolves(img) && 0 <= row < Count(img.height)
    requires RunsInside(runs, Count(img.width)) && Emitted(img, row, runs, blocks)
    ensures Emit(img, row, runs) == blocks
  {
    forall i | 0 <= i < |runs| ensures Emit(img, row, runs)[i] == blocks[i] {
      EmitAt(img, row, runs, i);
    }
  }

  /** The blocks of row `r`. */
  function RowBlocks(img: Image, r: int): seq<Block>
    requires Resolves(img) && 0 <= r < Count(img.height)
  {
    var cs := RowColors(img, r);
    RowRunsTiled(cs);
    Emit(img, r, RowRuns(cs))
  }

  /** The blocks of each of the first `n` rows. */
  function RowsUpTo(img: Image, n: nat): (rows: seq<seq<Block>>)
    requires Resolves(img) && n <= Count(img.height)
    ensures |rows| == n
  {
    seq(n, r requires 0 <= r < n => RowBlocks(img, r))
  }

  /** The blocks of several rows, one row after the other. */
  function Flatten(rows: seq<seq<Block>>): seq<Block>
  {
    if rows == [] then [] else Flatten(rows[..|rows| - 1]) + rows[|rows| - 1]
  }

  /** Everything `blockize(pixmap)` yields: the blocks of every row, top row first. */
  function Blockized(img: Image): (bs: seq<Block>)
    requires Resolves(img)
    ensures Count(img.height) == 0 ==> bs == []
    ensures Count(img.height) == 1 ==> bs == RowBlocks(img, 0)
  {
    var rows := RowsUpTo(img, Count(img.height));
    if |rows| == 1 then
      assert rows[..0] == [] && rows[0] == RowBlocks(img, 0);
      assert Flatten(rows) == Flatten(rows[..0]) + rows[0];
      Flatten(rows)
    else Flatten(rows)
  }

  /** One more row adds its blocks at the end. */
  lemma RowsUpToSnoc(img: Image, n: nat)
    requires Resolves(img) && n < Count(img.height)
    ensures Flatten(RowsUpTo(img, n + 1)) == Flatten(RowsUpTo(img, n)) + RowBlocks(img, n)
  {
    var rows := RowsUpTo(img, n + 1);
    assert rows[..n] == RowsUpTo(img, n);
  }

  /** The blocks of a row: those its cells close, then the run still open at its end. */
  lemma RowBlocksClose(img: Image, row: int)
    requires Resolves(img) && 0 <= row < Count(img.height)
    ensures var cs := RowColors(img, row);
      var s := ScanTo(cs, |cs|);
      RunsInside(s.runs, Count(img.width)) &&
      (s.length > 0 ==> AboveResolves(img, row, Count(img.width) - s.length, s.length)) &&
      RowBlocks(img, row) ==
        if s.length > 0 then Emit(img, row, s.runs) + [MakeBlock(img, Count(img.width), row, s.length, s.color.value)]
        else Emit(img, row, s.runs)
  {
    var cs := RowColors(img, row);
    var s := ScanTo(cs, |cs|);
    ScanRunsInside(cs, |cs|);
    if s.length > 0 {
      var run := Run(|cs| - s.length, s.length, s.color.value);
      assert RowRuns(cs) == s.runs + [run];
      RunAbove(img, row, |cs| - s.length, s.length);
      EmitSnoc(img, row, s.runs, run);
    } else {
      assert RowRuns(cs) == s.runs;
    }
  }

  /** One pass of the outer loop of `blockize`: the blocks of row `row`, in the order they
      are yielded. */
  method BlockizeRow(img: Image, row: int) returns (blocks: seq<Block>)
    requires Resolves(img) && 0 <= row < Count(img.height)
    ensures blocks == RowBlocks(img, row)
  {
    ghost var cs := RowColors(img, row);
    ghost var runs: seq<Run> := [];
    blocks := [];
    var color: Option<string> := None;
    var length := 0;
    var column := 0;
    while column < img.width
      invariant 0 <= column <= Count(img.width)
      invariant Scan(color, length, runs) == ScanTo(cs, column)
      invariant Emitted(img, row, runs, blocks)
    {
      var c := img.colormap[img.pixelmap[row][column]];
      assert c == cs[column];
      ghost var next := Step(Scan(color, length, runs), column, c);
      assert next == ScanTo(cs, column + 1);
      if color.Some? && (c == Blank || c != color.value || length == 4) {
        ghost var run := Run(column - length, length, color.value);
        RunAbove(img, row, run.left, run.length);
        var block := MakeBlock(img, column, row, length, color.value);
        assert block == MakeBlock(img, run.left + run.length, row, run.length, run.color);
        EmittedSnoc(img, row, runs, blocks, run, block);
        blocks := blocks + [block];
        runs := runs + [run];
        length := 0;
      }
      if c != Blank {
        color := Some(c);
        length := length + 1;
      } else {
        color := None;
        length := 0;
      }
      assert Scan(color, length, runs) == next;
      column := column + 1;
    }
    assert column == |cs|;
    RowBlocksClose(img, row);
    EmittedEmit(img, row, runs, blocks);
    if length > 0 {
      assert img.width == Count(img.width);
      blocks := blocks + [MakeBlock(img, img.width, row, length, color.value)];
    }
  }

  /** `blockize(pixmap)`, with the yielded blocks collected in order. */
  method Blockize(img: Image) returns (blocks: seq<Block>)
    requires Resolves(img)
    ensures blocks == Blockized(img)
  {
    blocks := [];
    var row := 0;
    while row < img.height
      invariant 0 <= row <= Count(img.height)
      invariant blocks == Flatten(RowsUpTo(img, row))
    {
      var rowBlocks := BlockizeRow(img, row);
      RowsUpToSnoc(img, row);
      blocks := blocks + rowBlocks;
      row := row + 1;
    }
  }

  // ---------------------------------------------------------------------------------------
  // What the yielded blocks satisfy

  /** Column `x` lies in the span of block `b`. */
  ghost predicate InBlock(b: Block, x: int)
  {
    b.left <= x < b.left + b.length
  }

  /** A block a resolving image can yield: one to four cells inside the grid, all of the
      block's non-blank colour, with one pin per cell, set exactly on the top row or under
      a blank cell. */
  ghost predicate GoodBlock(img: Image, b: Block)
    requires Resolves(img)
  {
    1 <= b.length <= 4 && 0 <= b.left && b.left + b.length <= Count(img.width) &&
    0 <= b.row < Count(img.height) && |b.pins| == b.length &&
    b.color != Blank &&
    (forall x | b.left <= x < b.left + b.length :: Color(img, b.row, x) == b.color) &&
    (forall p | 0 <= p < |b.pins| ::
       (b.pins[p] == 0 || b.pins[p] == 1) &&
       (b.pins[p] == 1 <==> b.row == 0 || Color(img, b.row - 1, b.left + p) == Blank))
  }

  /** Blocks come row by row, and left to right without overlap within a row. */
  ghost predicate Sorted(bs: seq<Block>)
  {
    forall i, j | 0 <= i < j < |bs| ::
      bs[i].row < bs[j].row || (bs[i].row == bs[j].row && bs[i].left + bs[i].length <= bs[j].left)
  }

  /** Consecutive blocks that touch in one row and share a colour: the first is full. */
  ghost predicate FullWhenJoined(bs: seq<Block>)
  {
    forall i, j | 0 <= i < |bs| && j == i + 1 && j < |bs| ::
      bs[i].row == bs[j].row && bs[i].left + bs[i].length == bs[j].left && bs[i].color == bs[j].color ==>
        bs[i].length == 4
  }

  /** In the first `n` rows, a cell is covered by a block of its row exactly when it is not blank. */
  ghost predicate CoversRows(img: Image, bs: seq<Block>, n: int)
    requires Resolves(img) && n <= Count(img.height)
  {
    forall r, x | 0 <= r < n && 0 <= x < Count(img.width) ::
      Color(img, r, x) != Blank <==> exists i | 0 <= i < |bs| :: bs[i].row == r && InBlock(bs[i], x)
  }

  /** A cell of row `r` lies in one of the blocks `bs` exactly when it is not blank. */
  ghost predicate RowCovered(img: Image, bs: seq<Block>, r: int)
    requires Resolves(img) && 0 <= r < Count(img.height)
  {
    forall x | 0 <= x < Count(img.width) ::
      Color(img, r, x) != Blank <==> exists i | 0 <= i < |bs| :: InBlock(bs[i], x)
  }

  /** Row `r` of `rows` holds blocks of grid row `r`. */
  ghost predicate InRows(rows: seq<seq<Block>>)
  {
    forall r, i | 0 <= r < |rows| && 0 <= i < |rows[r]| :: rows[r][i].row == r
  }

  /** Block `i` of row `r` is run `i` of the row's colours. */
  lemma RowBlocksAre(img: Image, r: int, i: int)
    requires Resolves(img) && 0 <= r < Count(img.height)
    requires 0 <= i < |RowRuns(RowColors(img, r))|
    ensures var run := RowRuns(RowColors(img, r))[i];
      |RowBlocks(img, r)| == |RowRuns(RowColors(img, r))| &&
      RowBlocks(img, r)[i].left == run.left && RowBlocks(img, r)[i].length == run.length &&
      RowBlocks(img, r)[i].color == run.color && RowBlocks(img, r)[i].row == r
  {
    RowRunsTiled(RowColors(img, r));
    EmitAt(img, r, RowRuns(RowColors(img, r)), i);
  }

  /** Every block of row `r` lies in row `r`. */
  lemma RowBlocksRows(img: Image, r: int)
    requires Resolves(img) && 0 <= r < Count(img.height)
    ensures forall i | 0 <= i < |RowBlocks(img, r)| :: RowBlocks(img, r)[i].row == r
  {
    RowRunsTiled(RowColors(img, r));
    forall i | 0 <= i < |RowBlocks(img, r)| ensures RowBlocks(img, r)[i].row == r {
      RowBlocksAre(img, r, i);
    }
  }

  /** The block `make_block` gives for a uniform run of row `r` is a good block. */
  lemma RunBlockGood(img: Image, r: int, run: Run)
    requires Resolves(img) && 0 <= r < Count(img.height)
    requires Inside(run, Count(img.width)) && Uniform(RowColors(img, r), run)
    ensures AboveResolves(img, r, run.left, run.length)
    ensures GoodBlock(img, MakeBlock(img, run.left + run.length, r, run.length, run.color))
  {
    var cs := RowColors(img, r);
    RunAbove(img, r, run.left, run.length);
    var b := MakeBlock(img, run.left + run.length, r, run.length, run.color);
    MakeBlockPins(img, run.left + run.length, r, run.length, run.color);
    forall x | b.left <= x < b.left + b.length ensures Color(img, r, x) == b.color {
      assert cs[x] == run.color;
    }
  }

  lemma RowBlockGood(img: Image, r: int, i: int)
    requires Resolves(img) && 0 <= r < Count(img.height)
    requires 0 <= i < |RowRuns(RowColors(img, r))|
    ensures |RowBlocks(img, r)| == |RowRuns(RowColors(img, r))|
    ensures GoodBlock(img, RowBlocks(img, r)[i]) && RowBlocks(img, r)[i].row == r
  {
    var cs := RowColors(img, r);
    RowRunsTiled(cs);
    var runs := RowRuns(cs);
    assert Inside(runs[i], |cs|) && Uniform(cs, runs[i]);
    EmitAt(img, r, runs, i);
    RunBlockGood(img, r, runs[i]);
  }

  lemma RowBlocksGood(img: Image, r: int)
    requires Resolves(img) && 0 <= r < Count(img.height)
    ensures var bs := RowBlocks(img, r);
      forall i | 0 <= i < |bs| :: GoodBlock(img, bs[i]) && bs[i].row == r
  {
    var bs := RowBlocks(img, r);
    RowRunsTiled(RowColors(img, r));
    forall i | 0 <= i < |bs| ensures GoodBlock(img, bs[i]) && bs[i].row == r {
      RowBlockGood(img, r, i);
    }
  }

  lemma RowBlocksSorted(img: Image, r: int)
    requires Resolves(img) && 0 <= r < Count(img.height)
    ensures Sorted(RowBlocks(img, r))
  {
    var cs := RowColors(img, r);
    RowRunsTiled(cs);
    var runs := RowRuns(cs);
    var bs := RowBlocks(img, r);
    forall i | 0 <= i < |bs| ensures bs[i].left == runs[i].left && bs[i].length == runs[i].length
      && bs[i].row == r
    {
      RowBlocksAre(img, r, i);
    }
  }

  lemma RowBlocksJoined(img: Image, r: int)
    requires Resolves(img) && 0 <= r < Count(img.height)
    ensures FullWhenJoined(RowBlocks(img, r))
  {
    var cs := RowColors(img, r);
    RowRunsTiled(cs);
    var runs := RowRuns(cs);
    var bs := RowBlocks(img, r);
    forall i | 0 <= i < |bs| ensures bs[i].left == runs[i].left && bs[i].length == runs[i].length
      && bs[i].color == runs[i].color
    {
      RowBlocksAre(img, r, i);
    }
  }

  lemma RowBlocksCover(img: Image, r: int)
    requires Resolves(img) && 0 <= r < Count(img.height)
    ensures RowCovered(img, RowBlocks(img, r), r)
  {
    var cs := RowColors(img, r);
    RowRunsTiled(cs);
    var runs := RowRuns(cs);
    var bs := RowBlocks(img, r);
    forall i | 0 <= i < |bs| ensures bs[i].left == runs[i].left && bs[i].length == runs[i].length {
      RowBlocksAre(img, r, i);
    }
    forall x | 0 <= x < Count(img.width)
      ensures Color(img, r, x) != Blank <==> exists i | 0 <= i < |bs| :: InBlock(bs[i], x)
    {
      assert cs[x] == Color(img, r, x);
      if cs[x] != Blank {
        var i :| 0 <= i < |runs| && Covers(runs[i], x);
        assert InBlock(bs[i], x);
      } else {
        forall i | 0 <= i < |bs| ensures !InBlock(bs[i], x) {
          assert !Covers(runs[i], x);
        }
      }
    }
  }

  /** Good blocks followed by good blocks are good blocks. */
  lemma AppendGood(img: Image, a: seq<Block>, b: seq<Block>)
    requires Resolves(img)
    requires forall i | 0 <= i < |a| :: GoodBlock(img, a[i])
    requires forall i | 0 <= i < |b| :: GoodBlock(img, b[i])
    ensures forall i | 0 <= i < |a + b| :: GoodBlock(img, (a + b)[i])
  {
    var t := a + b;
    forall i | 0 <= i < |t| ensures GoodBlock(img, t[i]) {
      if i < |a| {
        assert t[i] == a[i];
      } else {
        assert t[i] == b[i - |a|];
      }
    }
  }

  /** Blocks of rows before `n` followed by blocks of row `n` are blocks of rows up to `n`. */
  lemma AppendRows(a: seq<Block>, b: seq<Block>, n: int)
    requires 0 <= n
    requires forall i | 0 <= i < |a| :: 0 <= a[i].row < n
    requires forall i | 0 <= i < |b| :: b[i].row == n
    ensures forall i | 0 <= i < |a + b| :: 0 <= (a + b)[i].row < n + 1
  {
    var t := a + b;
    forall i | 0 <= i < |t| ensures 0 <= t[i].row < n + 1 {
      if i < |a| {
        assert t[i] == a[i];
      } else {
        assert t[i] == b[i - |a|];
      }
    }
  }

  /** Sorted blocks of rows before `n` followed by sorted blocks of row `n` are sorted. */
  lemma AppendSorted(a: seq<Block>, b: seq<Block>, n: int)
    requires forall i | 0 <= i < |a| :: a[i].row < n
    requires forall i | 0 <= i < |b| :: b[i].row == n
    requires Sorted(a) && Sorted(b)
    ensures Sorted(a + b)
  {
    var t := a + b;
    assert forall i | 0 <= i < |a| :: t[i] == a[i];
    assert forall i | |a| <= i < |t| :: t[i] == b[i - |a|];
  }

  /** Blocks of rows before `n` followed by blocks of row `n` join nowhere new. */
  lemma AppendJoined(a: seq<Block>, b: seq<Block>, n: int)
    requires forall i | 0 <= i < |a| :: a[i].row < n
    requires forall i | 0 <= i < |b| :: b[i].row == n
    requires FullWhenJoined(a) && FullWhenJoined(b)
    ensures FullWhenJoined(a + b)
  {
    var t := a + b;
    assert forall i | 0 <= i < |a| :: t[i] == a[i];
    assert forall i | |a| <= i < |t| :: t[i] == b[i - |a|];
  }

  /** Blocks covering the first `n` rows followed by blocks covering row `n` cover the first
      `n + 1` rows. */
  lemma AppendCover(img: Image, a: seq<Block>, b: seq<Block>, n: int)
    requires Resolves(img) && 0 <= n < Count(img.height)
    requires forall i | 0 <= i < |a| :: a[i].row < n
    requires forall i | 0 <= i < |b| :: b[i].row == n
    requires CoversRows(img, a, n) && RowCovered(img, b, n)
    ensures CoversRows(img, a + b, n + 1)
  {
    var t := a + b;
    forall r, x | 0 <= r < n + 1 && 0 <= x < Count(img.width)
      ensures Color(img, r, x) != Blank <==> exists i | 0 <= i < |t| :: t[i].row == r && InBlock(t[i], x)
    {
      if r < n {
        if Color(img, r, x) != Blank {
          var i :| 0 <= i < |a| && a[i].row == r && InBlock(a[i], x);
          assert t[i] == a[i];
        } else {
          forall i | 0 <= i < |t| ensures !(t[i].row == r && InBlock(t[i], x)) {
            if i < |a| {
              assert t[i] == a[i];
            } else {
              assert t[i] == b[i - |a|];
            }
          }
        }
      } else {
        if Color(img, r, x) != Blank {
          var i :| 0 <= i < |b| && InBlock(b[i], x);
          assert t[|a| + i] == b[i];
        } else {
          forall i | 0 <= i < |t| ensures !(t[i].row == r && InBlock(t[i], x)) {
            if i >= |a| {
              assert t[i] == b[i - |a|];
            } else {
              assert t[i] == a[i];
            }
          }
        }
      }
    }
  }

  /** Dropping the last row keeps every row where it was. */
  lemma InRowsInit(rows: seq<seq<Block>>)
    requires InRows(rows) && |rows| > 0
    ensures InRows(rows[..|rows| - 1])
  {
    var init := rows[..|rows| - 1];
    assert forall r | 0 <= r < |init| :: init[r] == rows[r];
  }

  /** The flattened blocks of rows `0 .. |rows| - 1` lie in those rows. */
  lemma {:induction false} FlattenRows(rows: seq<seq<Block>>)
    requires InRows(rows)
    ensures forall i | 0 <= i < |Flatten(rows)| :: 0 <= Flatten(rows)[i].row < |rows|
  {
    if rows != [] {
      var init := rows[..|rows| - 1];
      InRowsInit(rows);
      FlattenRows(init);
      AppendRows(Flatten(init), rows[|rows| - 1], |rows| - 1);
    }
  }

  lemma {:induction false} FlattenGood(img: Image, rows: seq<seq<Block>>)
    requires Resolves(img)
    requires forall r, i | 0 <= r < |rows| && 0 <= i < |rows[r]| :: GoodBlock(img, rows[r][i])
    ensures forall i | 0 <= i < |Flatten(rows)| :: GoodBlock(img, Flatten(rows)[i])
  {
    if rows != [] {
      var init := rows[..|rows| - 1];
      assert forall r | 0 <= r < |init| :: init[r] == rows[r];
      FlattenGood(img, init);
      AppendGood(img, Flatten(init), rows[|rows| - 1]);
    }
  }

  lemma {:induction false} FlattenSorted(rows: seq<seq<Block>>)
    requires InRows(rows)
    requires forall r | 0 <= r < |rows| :: Sorted(rows[r])
    ensures Sorted(Flatten(rows))
  {
    if rows != [] {
      var init := rows[..|rows| - 1];
      assert forall r | 0 <= r < |init| :: init[r] == rows[r];
      InRowsInit(rows);
      FlattenRows(init);
      FlattenSorted(init);
      AppendSorted(Flatten(init), rows[|rows| - 1], |rows| - 1);
    }
  }

  lemma {:induction false} FlattenJoined(rows: seq<seq<Block>>)
    requires InRows(rows)
    requires forall r | 0 <= r < |rows| :: FullWhenJoined(rows[r])
    ensures FullWhenJoined(Flatten(rows))
  {
    if rows != [] {
      var init := rows[..|rows| - 1];
      assert forall r | 0 <= r < |init| :: init[r] == rows[r];
      InRowsInit(rows);
      FlattenRows(init);
      FlattenJoined(init);
      AppendJoined(Flatten(init), rows[|rows| - 1], |rows| - 1);
    }
  }

  lemma {:induction false} FlattenCover(img: Image, rows: seq<seq<Block>>)
    requires Resolves(img) && |rows| <= Count(img.height) && InRows(rows)
    requires forall r | 0 <= r < |rows| :: RowCovered(img, rows[r], r)
    ensures CoversRows(img, Flatten(rows), |rows|)
  {
    if rows == [] {
      assert CoversRows(img, [], 0);
    } else {
      var init := rows[..|rows| - 1];
      assert forall r | 0 <= r < |init| :: init[r] == rows[r];
      InRowsInit(rows);
      FlattenRows(init);
      FlattenCover(img, init);
      AppendCover(img, Flatten(init), rows[|rows| - 1], |rows| - 1);
    }
  }

  /** Row `r` of the image's rows holds blocks of grid row `r`. */
  lemma AllInRows(img: Image)
    requires Resolves(img)
    ensures InRows(RowsUpTo(img, Count(img.height)))
  {
    var rows: seq<seq<Block>> := RowsUpTo(img, Count(img.height));
    forall r | 0 <= r < |rows| ensures forall i | 0 <= i < |rows[r]| :: rows[r][i].row == r {
      RowBlocksRows(img, r);
    }
  }

  /** Every yielded block is a good block. */
  lemma AllGood(img: Image)
    requires Resolves(img)
    ensures forall i | 0 <= i < |Blockized(img)| :: GoodBlock(img, Blockized(img)[i])
  {
    var rows: seq<seq<Block>> := RowsUpTo(img, Count(img.height));
    forall r: int, i: int | 0 <= r < |rows| && 0 <= i < |rows[r]| ensures GoodBlock(img, rows[r][i]) {
      RowBlocksGood(img, r);
    }
    FlattenGood(img, rows);
  }

  /** Every yielded block has one to four cells inside the grid, lies in one of its rows
      and has one pin per cell. */
  lemma BlockizedBounds(img: Image)
    requires Resolves(img)
    ensures forall b | b in Blockized(img) ::
      1 <= b.length <= 4 && 0 <= b.left && b.left + b.length <= img.width &&
      0 <= b.row < img.height && |b.pins| == b.length
  {
    AllGood(img);
  }

  /** Every cell a block spans has the block's colour, which is never blank. */
  lemma BlockizedUniform(img: Image)
    requires Resolves(img)
    ensures forall b | b in Blockized(img) ::
      0 <= b.row < Count(img.height) && 0 <= b.left && b.left + b.length <= Count(img.width) &&
      b.color != Blank && forall x | b.left <= x < b.left + b.length :: Color(img, b.row, x) == b.color
  {
    AllGood(img);
  }

  /** Pins are 0 or 1; a pin is 1 exactly when its block is on the top row or the cell
      above it is blank. */
  lemma BlockizedPins(img: Image)
    requires Resolves(img)
    ensures forall b | b in Blockized(img) ::
      0 <= b.row < Count(img.height) && 0 <= b.left && b.left + |b.pins| <= Count(img.width) &&
      |b.pins| == b.length &&
      forall p | 0 <= p < |b.pins| ::
        (b.pins[p] == 0 || b.pins[p] == 1) &&
        (b.pins[p] == 1 <==> b.row == 0 || Color(img, b.row - 1, b.left + p) == Blank)
  {
    AllGood(img);
  }

  /** Rows come out in increasing order, and the blocks of a row left to right without
      overlapping. */
  lemma BlockizedOrder(img: Image)
    requires Resolves(img)
    ensures var bs := Blockized(img);
      forall i, j | 0 <= i < j < |bs| ::
        bs[i].row < bs[j].row || (bs[i].row == bs[j].row && bs[i].left + bs[i].length <= bs[j].left)
  {
    var rows: seq<seq<Block>> := RowsUpTo(img, Count(img.height));
    AllInRows(img);
    forall r | 0 <= r < |rows| ensures Sorted(rows[r]) {
      RowBlocksSorted(img, r);
    }
    FlattenSorted(rows);
    assert Sorted(Blockized(img));
  }

  /** A cell of the grid lies in a block of its row exactly when it is not blank. */
  lemma BlockizedCover(img: Image)
    requires Resolves(img)
    ensures var bs := Blockized(img);
      forall r, x | 0 <= r < Count(img.height) && 0 <= x < Count(img.width) ::
        Color(img, r, x) != Blank <==> exists i | 0 <= i < |bs| :: bs[i].row == r && InBlock(bs[i], x)
  {
    var rows: seq<seq<Block>> := RowsUpTo(img, Count(img.height));
    AllInRows(img);
    forall r | 0 <= r < |rows| ensures RowCovered(img, rows[r], r) {
      RowBlocksCover(img, r);
    }
    FlattenCover(img, rows);
    assert CoversRows(img, Blockized(img), Count(img.height));
  }

  /** No cell lies in two blocks. */
  lemma BlockizedDisjoint(img: Image)
    requires Resolves(img)
    ensures var bs := Blockized(img);
      forall i, j, x | 0 <= i < |bs| && 0 <= j < |bs| && bs[i].row == bs[j].row && InBlock(bs[i], x) && InBlock(bs[j], x) ::
        i == j
  {
    BlockizedOrder(img);
  }

  /** Runs are cut only at a blank cell, a change of colour, a full block or the end of the
      row: two consecutive blocks that touch in one row and share a colour mean the first
      has four cells. */
  lemma BlockizedMaximal(img: Image)
    requires Resolves(img)
    ensures var bs := Blockized(img);
      forall i | 0 <= i < |bs| - 1 ::
        (bs[i].row == bs[i + 1].row && bs[i].left + bs[i].length == bs[i + 1].left &&
         bs[i].color == bs[i + 1].color) ==> bs[i].length == 4
  {
    var rows: seq<seq<Block>> := RowsUpTo(img, Count(img.height));
    AllInRows(img);
    forall r | 0 <= r < |rows| ensures FullWhenJoined(rows[r]) {
      RowBlocksJoined(img, r);
    }
    FlattenJoined(rows);
    var bs := Blockized(img);
    forall i | 0 <= i < |bs| - 1
      ensures (bs[i].row == bs[i + 1].row && bs[i].left + bs[i].length == bs[i + 1].left &&
               bs[i].color == bs[i + 1].color) ==> bs[i].length == 4
    {
      assert FullWhenJoined(bs);
      var j := i + 1;
      assert bs[j] == bs[i + 1];
    }
  }
}
