/** Size-priority mode: the image is cut into bands of up to six rows; in
    each band every colour gets a list of (mask, count) runs across the
    band's columns, found by the recursive colour discovery `add_node`. */
module Banded {
  import opened Grammar
  import opened Raster

  lemma PixelIndex(top: nat, rows: nat, width: nat, i: nat, x: nat)
    requires i < rows && x < width
    ensures (top + i) * width + x < (top + rows) * width
  {
    calc {
      (top + i) * width + x;
    <
      (top + i) * width + width;
    ==
      (top + i + 1) * width;
    <= { MulMonotone(top + i + 1, top + rows, width); }
      (top + rows) * width;
    }
  }

  /** The numbers below n. */
  function Below(n: nat): set<nat>
    decreases n
  {
    if n == 0 then {} else Below(n - 1) + {n - 1}
  }

  lemma {:induction false} BelowHas(n: nat, d: nat)
    requires d < n
    ensures d in Below(n)
    decreases n
  {
    if d < n - 1 {
      BelowHas(n - 1, d);
    }
  }

  /** Rows `top` .. `top + rows - 1` of an index image `width` pixels wide,
      whose indices are all below `ncolor`. */
  datatype Band = Band(data: seq<nat>, width: nat, top: nat, rows: nat, ncolor: nat) {
    ghost predicate Valid() {
      && 1 <= width && 1 <= rows <= 6
      && (top + rows) * width <= |data|
      && forall k :: 0 <= k < |data| ==> data[k] < ncolor
    }

    /** The colour indices below ncolor. */
    function Colours(): set<nat> {
      Below(ncolor)
    }

    /** The index at row `i` of the band, column `x`. */
    function Pixel(i: nat, x: nat): (d: nat)
      requires Valid() && i < rows && x < width
      ensures d in Colours()
    {
      PixelIndex(top, rows, width, i, x);
      var d := data[(top + i) * width + x];
      BelowHas(ncolor, d);
      d
    }
  }

  // ---------------------------------------------------------------------
  // Masks
  // ---------------------------------------------------------------------

  /** The sixel mask of `colour` at column x over the band's first i rows:
      bit k is set when row k has that colour. The source sets bits with
      `|= 1 << k`; the bits are distinct, so adding them is the same. */
  function PartialMask(b: Band, colour: nat, x: nat, i: nat): (m: nat)
    requires b.Valid() && x < b.width && i <= b.rows
    ensures m < Pow2(i)
    decreases i
  {
    if i == 0 then 0
    else PartialMask(b, colour, x, i - 1) + (if b.Pixel(i - 1, x) == colour then Pow2(i - 1) else 0)
  }

  function ColumnMask(b: Band, colour: nat, x: nat): (m: nat)
    requires b.Valid() && x < b.width
    ensures m < Pow2(b.rows) <= 64
  {
    Pow2Monotone(b.rows, 6);
    PartialMask(b, colour, x, b.rows)
  }

  /** Bit j of m. */
  function Bit(m: nat, j: nat): bool {
    if j == 0 then m % 2 == 1 else Bit(m / 2, j - 1)
  }

  lemma {:induction false} BitHigh(m: nat, i: nat, j: nat)
    requires m < Pow2(i) && i <= j
    ensures !Bit(m, j)
    decreases j
  {
    if j > 0 {
      if i > 0 {
        BitHigh(m / 2, i - 1, j - 1);
      } else {
        BitHigh(m / 2, 0, j - 1);
      }
    }
  }

  lemma {:induction false} BitAdd(m: nat, i: nat, j: nat)
    requires m < Pow2(i)
    ensures Bit(m + Pow2(i), j) <==> j == i || Bit(m, j)
    decreases j
  {
    if j > 0 {
      if i > 0 {
        assert (m + Pow2(i)) / 2 == m / 2 + Pow2(i - 1);
        BitAdd(m / 2, i - 1, j - 1);
      } else {
        assert (m + Pow2(i)) / 2 == 0;
        BitHigh(0, 0, j - 1);
        BitHigh(m, 0, j);
      }
    }
  }

  lemma {:induction false} PartialMaskBits(b: Band, colour: nat, x: nat, i: nat, j: nat)
    requires b.Valid() && x < b.width && i <= b.rows && j < b.rows
    ensures Bit(PartialMask(b, colour, x, i), j) <==> j < i && b.Pixel(j, x) == colour
    decreases i
  {
    if i == 0 {
      BitHigh(0, 0, j);
    } else {
      var m := PartialMask(b, colour, x, i - 1);
      PartialMaskBits(b, colour, x, i - 1, j);
      if b.Pixel(i - 1, x) == colour {
        assert PartialMask(b, colour, x, i) == m + Pow2(i - 1);
        BitAdd(m, i - 1, j);
      } else {
        assert PartialMask(b, colour, x, i) == m;
        if j == i - 1 {
          BitHigh(m, i - 1, j);
        }
      }
    }
  }

  /** Six-row packing: bit j of a column's mask is set exactly when row j
      of the band holds the colour at that column. */
  lemma ColumnMaskBits(b: Band, colour: nat, x: nat, j: nat)
    requires b.Valid() && x < b.width && j < b.rows
    ensures Bit(ColumnMask(b, colour, x), j) <==> b.Pixel(j, x) == colour
  {
    PartialMaskBits(b, colour, x, b.rows, j);
  }

  // ---------------------------------------------------------------------
  // Run lists of one colour
  // ---------------------------------------------------------------------

  /** A run: `count` columns with the same mask `six`. */
  datatype Run = Run(six: nat, count: nat)

  /** The state of the column scan: the mask of the open run (`cache`),
      how many columns it has been counted for, and the closed runs. */
  datatype RunScan = RunScan(cache: nat, count: nat, nodes: seq<Run>)

  /** A scan starting at column s opens with a blank run of s columns. */
  function StartScan(s: nat): RunScan {
    RunScan(0, 0, if s > 0 then [Run(0, s)] else [])
  }

  /** One column: the count goes up first, then a mask different from
      `cache` closes the open run with that count, so the column where the
      mask changes is counted in the run that it ends. */
  function ScanStep(acc: RunScan, six: nat): RunScan {
    if six != acc.cache then RunScan(six, 0, acc.nodes + [Run(acc.cache, acc.count + 1)])
    else acc.(count := acc.count + 1)
  }

  function ScanColumns(b: Band, colour: nat, x: nat, acc: RunScan): RunScan
    requires b.Valid() && x <= b.width
    decreases b.width - x
  {
    if x == b.width then acc else ScanColumns(b, colour, x + 1, ScanStep(acc, ColumnMask(b, colour, x)))
  }

  /** After the last column the open run is kept only if its mask is not 0. */
  function Close(acc: RunScan): seq<Run> {
    if acc.cache != 0 then acc.nodes + [Run(acc.cache, acc.count)] else acc.nodes
  }

  /** The run list `add_node(colour, s)` builds. */
  function RunList(b: Band, colour: nat, s: nat): seq<Run>
    requires b.Valid() && s <= b.width
  {
    Close(ScanColumns(b, colour, s, StartScan(s)))
  }

  /** The mask sequence a run list stands for, column by column. */
  function Expand(runs: seq<Run>): (e: seq<nat>)
    ensures |e| == Total(runs)
    decreases |runs|
  {
    if |runs| == 0 then []
    else Expand(runs[..|runs| - 1]) + seq(runs[|runs| - 1].count, _ => runs[|runs| - 1].six)
  }

  /** The number of columns a run list covers: the sum of its counts. */
  function Total(runs: seq<Run>): nat
    decreases |runs|
  {
    if |runs| == 0 then 0 else Total(runs[..|runs| - 1]) + runs[|runs| - 1].count
  }

  lemma ExpandSnoc(runs: seq<Run>, r: Run)
    ensures Expand(runs + [r]) == Expand(runs) + seq(r.count, _ => r.six)
  {
    assert (runs + [r])[..|runs|] == runs;
  }

  /** Mask at column j of an expanded run list; past its end nothing is drawn. */
  function MaskAt(e: seq<nat>, j: nat): nat {
    if j < |e| then e[j] else 0
  }

  /** What the run list started at s should show at column j: nothing up to
      and including column s, then the mask of the column to the left. */
  function Shifted(b: Band, colour: nat, s: nat, j: nat): nat
    requires b.Valid() && j <= b.width
  {
    if j <= s then 0 else ColumnMask(b, colour, j - 1)
  }

  ghost predicate Tracks(b: Band, colour: nat, s: nat, x: nat, acc: RunScan)
    requires b.Valid() && s <= x <= b.width
  {
    var e := Expand(acc.nodes);
    && |e| + acc.count == x
    && (forall j :: 0 <= j < |e| ==> e[j] == Shifted(b, colour, s, j))
    && (forall j :: |e| <= j < x ==> Shifted(b, colour, s, j) == acc.cache)
    && acc.cache == (if x == s then 0 else ColumnMask(b, colour, x - 1))
  }

  lemma {:induction false} ScanTracks(b: Band, colour: nat, s: nat, x: nat, acc: RunScan)
    requires b.Valid() && s <= x <= b.width && Tracks(b, colour, s, x, acc)
    ensures Tracks(b, colour, s, b.width, ScanColumns(b, colour, x, acc))
    decreases b.width - x
  {
    if x < b.width {
      StepTracks(b, colour, s, x, acc);
      ScanTracks(b, colour, s, x + 1, ScanStep(acc, ColumnMask(b, colour, x)));
    }
  }

  /** One column keeps the scan in step with the shifted masks. */
  lemma StepTracks(b: Band, colour: nat, s: nat, x: nat, acc: RunScan)
    requires b.Valid() && s <= x < b.width && Tracks(b, colour, s, x, acc)
    ensures Tracks(b, colour, s, x + 1, ScanStep(acc, ColumnMask(b, colour, x)))
  {
    var six := ColumnMask(b, colour, x);
    if six != acc.cache {
      BreakTracks(b, colour, s, x, acc);
    } else {
      assert Shifted(b, colour, s, x) == acc.cache;
      assert acc.nodes == ScanStep(acc, six).nodes;
    }
  }

  /** A column whose mask differs from the open run's closes that run. */
  lemma BreakTracks(b: Band, colour: nat, s: nat, x: nat, acc: RunScan)
    requires b.Valid() && s <= x < b.width && Tracks(b, colour, s, x, acc)
    requires ColumnMask(b, colour, x) != acc.cache
    ensures Tracks(b, colour, s, x + 1, ScanStep(acc, ColumnMask(b, colour, x)))
  {
    var next := ScanStep(acc, ColumnMask(b, colour, x));
    var e := Expand(acc.nodes);
    ExpandSnoc(acc.nodes, Run(acc.cache, acc.count + 1));
    var e' := Expand(next.nodes);
    assert e' == e + seq(acc.count + 1, _ => acc.cache);
    forall j | 0 <= j < |e'|
      ensures e'[j] == Shifted(b, colour, s, j)
    {
      if j >= |e| {
        assert e'[j] == acc.cache;
      }
    }
  }

  /** A run list drawn column by column: blank up to and including its
      start column s, then each column shows the mask of the column to its
      left, because the count of a run includes the column that ends it.
      It never covers more than the band's width, and covers all of it
      when the last column has the colour. */
  lemma RunListDecode(b: Band, colour: nat, s: nat)
    requires b.Valid() && s < b.width
    ensures Total(RunList(b, colour, s)) <= b.width
    ensures ColumnMask(b, colour, b.width - 1) != 0 ==> Total(RunList(b, colour, s)) == b.width
    ensures forall j :: 0 <= j < b.width ==>
              MaskAt(Expand(RunList(b, colour, s)), j) == Shifted(b, colour, s, j)
  {
    var start := StartScan(s);
    assert Expand(start.nodes) == seq(s, _ => 0) by {
      if s > 0 {
        ExpandSnoc([], Run(0, s));
      }
    }
    assert Tracks(b, colour, s, s, start);
    var acc := ScanColumns(b, colour, s, start);
    ScanTracks(b, colour, s, s, start);
    var e := Expand(acc.nodes);
    if acc.cache != 0 {
      ExpandSnoc(acc.nodes, Run(acc.cache, acc.count));
      var e' := Expand(RunList(b, colour, s));
      forall j | 0 <= j < b.width
        ensures MaskAt(e', j) == Shifted(b, colour, s, j)
      {
        if j >= |e| {
          assert e'[j] == acc.cache;
        }
      }
    }
  }

  ghost predicate MasksBelow(runs: seq<Run>, bound: nat) {
    forall k :: 0 <= k < |runs| ==> runs[k].six < bound
  }

  lemma {:induction false} ScanMasks(b: Band, colour: nat, x: nat, acc: RunScan)
    requires b.Valid() && x <= b.width
    requires acc.cache < Pow2(b.rows) && MasksBelow(acc.nodes, Pow2(b.rows))
    ensures var r := ScanColumns(b, colour, x, acc);
            r.cache < Pow2(b.rows) && MasksBelow(r.nodes, Pow2(b.rows))
    ensures |ScanColumns(b, colour, x, acc).nodes| >= |acc.nodes|
    ensures ScanColumns(b, colour, x, acc).nodes[..|acc.nodes|] == acc.nodes
    decreases b.width - x
  {
    if x < b.width {
      ScanMasks(b, colour, x + 1, ScanStep(acc, ColumnMask(b, colour, x)));
    }
  }

  /** Every mask in a run list uses only the band's rows (so is below 64),
      and a list started at column s > 0 opens with the blank run (0, s). */
  lemma RunListShape(b: Band, colour: nat, s: nat)
    requires b.Valid() && s <= b.width
    ensures MasksBelow(RunList(b, colour, s), Pow2(b.rows))
    ensures s > 0 ==> |RunList(b, colour, s)| >= 1 && RunList(b, colour, s)[0] == Run(0, s)
  {
    ScanMasks(b, colour, s, StartScan(s));
  }

  // ---------------------------------------------------------------------
  // Colour discovery (`add_node`)
  // ---------------------------------------------------------------------

  /** A colour and its run list: one entry of the band buffer `buf`. */
  datatype ColourRuns = ColourRuns(colour: nat, runs: seq<Run>)

  /** The colours discovered so far (`set_`) and the band buffer (`buf`). */
  datatype Discovery = Discovery(seen: set<nat>, lists: seq<ColourRuns>)

  /** `add_node(n, s)`: scan columns s .. width-1 for colour n. */
  function AddNodeF(b: Band, n: nat, s: nat, seen: set<nat>, lists: seq<ColourRuns>): (r: Discovery)
    requires b.Valid() && s < b.width && seen <= b.Colours()
    ensures seen <= r.seen <= b.Colours()
    ensures |r.lists| > |lists| && r.lists[..|lists|] == lists
    decreases b.Colours() - seen, 1, 0, 0
  {
    Columns(b, n, s, 0, seen, lists, StartScan(s), 0)
  }

  /** The scan of `add_node` for colour n from row i of column x on, with
      `acc` the runs so far and `six` the mask of column x over rows < i.
      A colour met for the first time (neither n nor in `seen`) is added
      to `seen` and scanned from column x at once; its list enters the
      buffer before n's, which is appended when the scan of n ends. */
  function Columns(b: Band, n: nat, x: nat, i: nat, seen: set<nat>, lists: seq<ColourRuns>,
                   acc: RunScan, six: nat): (r: Discovery)
    requires b.Valid() && x <= b.width && i <= b.rows && seen <= b.Colours()
    ensures seen <= r.seen <= b.Colours()
    ensures |r.lists| > |lists| && r.lists[..|lists|] == lists
    decreases b.Colours() - seen, 0, b.width - x, b.rows - i
  {
    if x == b.width then Discovery(seen, lists + [ColourRuns(n, Close(acc))])
    else if i == b.rows then Columns(b, n, x + 1, 0, seen, lists, ScanStep(acc, six), 0)
    else
      var d := b.Pixel(i, x);
      if d == n then Columns(b, n, x, i + 1, seen, lists, acc, six + Pow2(i))
      else if d !in seen then
        var sub := AddNodeF(b, d, x, seen + {d}, lists);
        Columns(b, n, x, i + 1, sub.seen, sub.lists, acc, six)
      else Columns(b, n, x, i + 1, seen, lists, acc, six)
  }

  /** The scan's own entry comes last and holds n's run list. */
  lemma {:induction false} ColumnsLast(b: Band, n: nat, x: nat, i: nat, seen: set<nat>,
                                       lists: seq<ColourRuns>, acc: RunScan, six: nat)
    requires b.Valid() && x <= b.width && i <= b.rows && seen <= b.Colours()
    requires x < b.width ==> six == PartialMask(b, n, x, i)
    ensures var r := Columns(b, n, x, i, seen, lists, acc, six);
            r.lists[|r.lists| - 1] == ColourRuns(n, Close(ScanColumns(b, n, x, acc)))
    decreases b.width - x, b.rows - i, 2
  {
    if x == b.width {
      assert ScanColumns(b, n, x, acc) == acc;
    } else if i == b.rows {
      ColumnsLastNext(b, n, x, seen, lists, acc, six);
    } else {
      ColumnsLastPixel(b, n, x, i, seen, lists, acc, six);
    }
  }

  /** ColumnsLast at the end of a column. */
  lemma {:induction false} ColumnsLastNext(b: Band, n: nat, x: nat, seen: set<nat>,
                                           lists: seq<ColourRuns>, acc: RunScan, six: nat)
    requires b.Valid() && x < b.width && seen <= b.Colours()
    requires six == PartialMask(b, n, x, b.rows)
    ensures var r := Columns(b, n, x, b.rows, seen, lists, acc, six);
            r.lists[|r.lists| - 1] == ColourRuns(n, Close(ScanColumns(b, n, x, acc)))
    decreases b.width - x, 0, 0
  {
    var next := ScanStep(acc, six);
    assert ScanColumns(b, n, x, acc) == ScanColumns(b, n, x + 1, next);
    ColumnsLast(b, n, x + 1, 0, seen, lists, next, 0);
  }

  /** ColumnsLast at pixel (i, x). */
  lemma {:induction false} ColumnsLastPixel(b: Band, n: nat, x: nat, i: nat, seen: set<nat>,
                                            lists: seq<ColourRuns>, acc: RunScan, six: nat)
    requires b.Valid() && x < b.width && i < b.rows && seen <= b.Colours()
    requires six == PartialMask(b, n, x, i)
    ensures var r := Columns(b, n, x, i, seen, lists, acc, six);
            r.lists[|r.lists| - 1] == ColourRuns(n, Close(ScanColumns(b, n, x, acc)))
    decreases b.width - x, b.rows - i, 1
  {
    var d := b.Pixel(i, x);
    if d == n {
      ColumnsLastSame(b, n, x, i, seen, lists, acc, six);
    } else if d !in seen {
      ColumnsLastNew(b, n, x, i, seen, lists, acc, six);
    } else {
      assert six == PartialMask(b, n, x, i + 1);
      var r := Columns(b, n, x, i, seen, lists, acc, six);
      var r' := Columns(b, n, x, i + 1, seen, lists, acc, six);
      assert r == r';
      ColumnsLast(b, n, x, i + 1, seen, lists, acc, six);
      assert r'.lists[|r'.lists| - 1] == ColourRuns(n, Close(ScanColumns(b, n, x, acc)));
    }
  }

  /** ColumnsLast at a pixel of the scanned colour. */
  lemma {:induction false} ColumnsLastSame(b: Band, n: nat, x: nat, i: nat, seen: set<nat>,
                                           lists: seq<ColourRuns>, acc: RunScan, six: nat)
    requires b.Valid() && x < b.width && i < b.rows && seen <= b.Colours()
    requires six == PartialMask(b, n, x, i) && b.Pixel(i, x) == n
    ensures var r := Columns(b, n, x, i, seen, lists, acc, six);
            r.lists[|r.lists| - 1] == ColourRuns(n, Close(ScanColumns(b, n, x, acc)))
    decreases b.width - x, b.rows - i, 0
  {
    var six' := six + Pow2(i);
    assert six' == PartialMask(b, n, x, i + 1);
    var r := Columns(b, n, x, i, seen, lists, acc, six);
    var r' := Columns(b, n, x, i + 1, seen, lists, acc, six');
    assert r == r';
    ColumnsLast(b, n, x, i + 1, seen, lists, acc, six');
    assert r'.lists[|r'.lists| - 1] == ColourRuns(n, Close(ScanColumns(b, n, x, acc)));
  }

  /** ColumnsLast at a pixel of a colour met for the first time. */
  lemma {:induction false} ColumnsLastNew(b: Band, n: nat, x: nat, i: nat, seen: set<nat>,
                                          lists: seq<ColourRuns>, acc: RunScan, six: nat)
    requires b.Valid() && x < b.width && i < b.rows && seen <= b.Colours()
    requires six == PartialMask(b, n, x, i)
    requires b.Pixel(i, x) != n && b.Pixel(i, x) !in seen
    ensures var r := Columns(b, n, x, i, seen, lists, acc, six);
            r.lists[|r.lists| - 1] == ColourRuns(n, Close(ScanColumns(b, n, x, acc)))
    decreases b.width - x, b.rows - i, 0
  {
    var d := b.Pixel(i, x);
    var sub := AddNodeF(b, d, x, seen + {d}, lists);
    assert six == PartialMask(b, n, x, i + 1);
    var r := Columns(b, n, x, i, seen, lists, acc, six);
    var r' := Columns(b, n, x, i + 1, sub.seen, sub.lists, acc, six);
    assert r == r';
    ColumnsLast(b, n, x, i + 1, sub.seen, sub.lists, acc, six);
    assert r'.lists[|r'.lists| - 1] == ColourRuns(n, Close(ScanColumns(b, n, x, acc)));
  }

  lemma AddNodeLast(b: Band, n: nat, s: nat, seen: set<nat>, lists: seq<ColourRuns>)
    requires b.Valid() && s < b.width && seen <= b.Colours()
    ensures var r := AddNodeF(b, n, s, seen, lists);
            r.lists[|r.lists| - 1] == ColourRuns(n, RunList(b, n, s))
  {
    ColumnsLast(b, n, s, 0, seen, lists, StartScan(s), 0);
  }

  /** Every pixel the scan visits from (x, i) on has colour n or ends up
      in `seen`. */
  lemma {:induction false} ColumnsCover(b: Band, n: nat, x: nat, i: nat, seen: set<nat>,
                                        lists: seq<ColourRuns>, acc: RunScan, six: nat)
    requires b.Valid() && x <= b.width && i <= b.rows && seen <= b.Colours()
    ensures var r := Columns(b, n, x, i, seen, lists, acc, six);
            forall x', i' :: x <= x' < b.width && 0 <= i' < b.rows && (x' == x ==> i <= i') ==>
              b.Pixel(i', x') == n || b.Pixel(i', x') in r.seen
    decreases b.width - x, b.rows - i
  {
    if x == b.width {
    } else if i == b.rows {
      ColumnsCover(b, n, x + 1, 0, seen, lists, ScanStep(acc, six), 0);
    } else {
      var d := b.Pixel(i, x);
      if d == n {
        ColumnsCover(b, n, x, i + 1, seen, lists, acc, six + Pow2(i));
      } else if d !in seen {
        var sub := AddNodeF(b, d, x, seen + {d}, lists);
        ColumnsCover(b, n, x, i + 1, sub.seen, sub.lists, acc, six);
      } else {
        ColumnsCover(b, n, x, i + 1, seen, lists, acc, six);
      }
    }
  }

  /** The entry is the run list of its colour from some start column. */
  ghost predicate Discovered(b: Band, e: ColourRuns)
    requires b.Valid()
  {
    exists s :: 0 <= s < b.width && e.runs == RunList(b, e.colour, s)
  }

  /** The entries a scan adds before its own: one per colour it adds to
      `seen`, no colour twice, each a run list of its colour. */
  ghost predicate NewEntries(b: Band, seen: set<nat>, lists: seq<ColourRuns>, r: Discovery)
    requires b.Valid()
    requires |r.lists| > |lists|
  {
    && EntriesFresh(seen, |lists|, r)
    && EntriesDistinct(|lists|, r)
    && EntriesComplete(seen, |lists|, r)
    && EntriesDiscovered(b, |lists|, r)
  }

  ghost predicate EntriesFresh(seen: set<nat>, from: nat, r: Discovery) {
    forall k :: from <= k < |r.lists| - 1 ==> r.lists[k].colour in r.seen && r.lists[k].colour !in seen
  }

  ghost predicate EntriesDistinct(from: nat, r: Discovery) {
    forall j, k :: from <= j < k < |r.lists| - 1 ==> r.lists[j].colour != r.lists[k].colour
  }

  ghost predicate EntriesComplete(seen: set<nat>, from: nat, r: Discovery) {
    forall d :: d in r.seen && d !in seen ==> exists k :: from <= k < |r.lists| - 1 && r.lists[k].colour == d
  }

  ghost predicate EntriesDiscovered(b: Band, from: nat, r: Discovery)
    requires b.Valid()
  {
    forall k :: from <= k < |r.lists| - 1 ==> Discovered(b, r.lists[k])
  }

  lemma {:induction false} AddNodeNew(b: Band, n: nat, s: nat, seen: set<nat>, lists: seq<ColourRuns>)
    requires b.Valid() && s < b.width && seen <= b.Colours()
    ensures NewEntries(b, seen, lists, AddNodeF(b, n, s, seen, lists))
    decreases b.Colours() - seen, 1, 0, 0
  {
    ColumnsNew(b, n, s, 0, seen, lists, StartScan(s), 0);
  }

  lemma {:induction false} ColumnsNew(b: Band, n: nat, x: nat, i: nat, seen: set<nat>,
                                      lists: seq<ColourRuns>, acc: RunScan, six: nat)
    requires b.Valid() && x <= b.width && i <= b.rows && seen <= b.Colours()
    ensures NewEntries(b, seen, lists, Columns(b, n, x, i, seen, lists, acc, six))
    decreases b.Colours() - seen, 0, b.width - x, b.rows - i
  {
    if x == b.width {
    } else if i == b.rows {
      ColumnsNew(b, n, x + 1, 0, seen, lists, ScanStep(acc, six), 0);
    } else {
      var d := b.Pixel(i, x);
      if d == n {
        ColumnsNew(b, n, x, i + 1, seen, lists, acc, six + Pow2(i));
      } else if d !in seen {
        var sub := AddNodeF(b, d, x, seen + {d}, lists);
        var r := Columns(b, n, x, i + 1, sub.seen, sub.lists, acc, six);
        AddNodeNew(b, d, x, seen + {d}, lists);
        AddNodeLast(b, d, x, seen + {d}, lists);
        ColumnsNew(b, n, x, i + 1, sub.seen, sub.lists, acc, six);
        NewEntriesCompose(b, d, x, seen, lists, sub, r);
      } else {
        ColumnsNew(b, n, x, i + 1, seen, lists, acc, six);
      }
    }
  }

  /** The entries of a nested scan of d, then d's own entry, then the
      entries the outer scan adds after it, together satisfy NewEntries. */
  lemma NewEntriesCompose(b: Band, d: nat, x: nat, seen: set<nat>, lists: seq<ColourRuns>,
                          sub: Discovery, r: Discovery)
    requires b.Valid() && x < b.width && d !in seen
    requires |sub.lists| > |lists| && sub.lists[..|lists|] == lists
    requires NewEntries(b, seen + {d}, lists, sub)
    requires sub.lists[|sub.lists| - 1] == ColourRuns(d, RunList(b, d, x))
    requires seen + {d} <= sub.seen
    requires sub.seen <= r.seen
    requires |r.lists| > |sub.lists| && r.lists[..|sub.lists|] == sub.lists
    requires NewEntries(b, sub.seen, sub.lists, r)
    ensures NewEntries(b, seen, lists, r)
  {
    var m := |sub.lists|;
    forall k | |lists| <= k < m
      ensures r.lists[k] == sub.lists[k]
    {
      assert r.lists[..m][k] == sub.lists[k];
    }
    ComposeFresh(d, seen, |lists|, sub, r);
    ComposeDistinct(d, seen, |lists|, sub, r);
    ComposeComplete(d, seen, |lists|, sub, r);
    assert Discovered(b, r.lists[m - 1]);
    ComposeDiscovered(b, |lists|, sub, r);
  }

  lemma ComposeFresh(d: nat, seen: set<nat>, from: nat, sub: Discovery, r: Discovery)
    requires from < |sub.lists| < |r.lists| && d !in seen
    requires forall k :: from <= k < |sub.lists| ==> r.lists[k] == sub.lists[k]
    requires sub.lists[|sub.lists| - 1].colour == d
    requires EntriesFresh(seen + {d}, from, sub) && EntriesFresh(sub.seen, |sub.lists|, r)
    requires seen + {d} <= sub.seen <= r.seen
    ensures EntriesFresh(seen, from, r)
  {
  }

  lemma ComposeDistinct(d: nat, seen: set<nat>, from: nat, sub: Discovery, r: Discovery)
    requires from < |sub.lists| < |r.lists| && d !in seen
    requires forall k :: from <= k < |sub.lists| ==> r.lists[k] == sub.lists[k]
    requires sub.lists[|sub.lists| - 1].colour == d
    requires EntriesFresh(seen + {d}, from, sub) && EntriesFresh(sub.seen, |sub.lists|, r)
    requires EntriesDistinct(from, sub) && EntriesDistinct(|sub.lists|, r)
    requires seen + {d} <= sub.seen
    ensures EntriesDistinct(from, r)
  {
    var m := |sub.lists|;
    forall j, k | from <= j < k < |r.lists| - 1
      ensures r.lists[j].colour != r.lists[k].colour
    {
      if k < m - 1 {
      } else if k == m - 1 {
        assert r.lists[j].colour !in seen + {d};
      } else if j < m {
        assert r.lists[j].colour in sub.seen;
      }
    }
  }

  lemma ComposeComplete(d: nat, seen: set<nat>, from: nat, sub: Discovery, r: Discovery)
    requires from < |sub.lists| < |r.lists| && d !in seen
    requires forall k :: from <= k < |sub.lists| ==> r.lists[k] == sub.lists[k]
    requires sub.lists[|sub.lists| - 1].colour == d
    requires EntriesComplete(seen + {d}, from, sub) && EntriesComplete(sub.seen, |sub.lists|, r)
    ensures EntriesComplete(seen, from, r)
  {
    var m := |sub.lists|;
    forall dd | dd in r.seen && dd !in seen
      ensures exists k :: from <= k < |r.lists| - 1 && r.lists[k].colour == dd
    {
      if dd == d {
        assert r.lists[m - 1].colour == dd;
      } else if dd in sub.seen {
        var k :| from <= k < m - 1 && sub.lists[k].colour == dd;
        assert r.lists[k].colour == dd;
      } else {
        var k :| m <= k < |r.lists| - 1 && r.lists[k].colour == dd;
      }
    }
  }

  lemma ComposeDiscovered(b: Band, from: nat, sub: Discovery, r: Discovery)
    requires b.Valid()
    requires from < |sub.lists| < |r.lists|
    requires forall k :: from <= k < |sub.lists| ==> r.lists[k] == sub.lists[k]
    requires EntriesDiscovered(b, from, sub) && EntriesDiscovered(b, |sub.lists|, r)
    requires Discovered(b, r.lists[|sub.lists| - 1])
    ensures EntriesDiscovered(b, from, r)
  {
    forall k | from <= k < |r.lists| - 1
      ensures Discovered(b, r.lists[k])
    {
      if k < |sub.lists| - 1 {
        assert r.lists[k] == sub.lists[k];
      }
    }
  }

  // ---------------------------------------------------------------------
  // One band
  // ---------------------------------------------------------------------

  /** The band buffer: `add_node` started on the colour of the band's first
      pixel at column 0 with nothing seen. */
  function BandLists(b: Band): seq<ColourRuns>
    requires b.Valid()
  {
    AddNodeF(b, b.Pixel(0, 0), 0, {}, []).lists
  }

  /** The seed's own list, from column 0, comes last in the band buffer. */
  lemma BandListsSeedLast(b: Band)
    requires b.Valid()
    ensures |BandLists(b)| >= 1
    ensures BandLists(b)[|BandLists(b)| - 1] == ColourRuns(b.Pixel(0, 0), RunList(b, b.Pixel(0, 0), 0))
  {
    AddNodeLast(b, b.Pixel(0, 0), 0, {}, []);
  }

  /** Every pixel of the band has the first pixel's colour or is seen by
      the scan from it. */
  lemma SeedCover(b: Band)
    requires b.Valid()
    ensures var r := AddNodeF(b, b.Pixel(0, 0), 0, {}, []);
            forall i, x :: 0 <= i < b.rows && 0 <= x < b.width ==>
              b.Pixel(i, x) == b.Pixel(0, 0) || b.Pixel(i, x) in r.seen
  {
    var seed := b.Pixel(0, 0);
    assert AddNodeF(b, seed, 0, {}, []) == Columns(b, seed, 0, 0, {}, [], StartScan(0), 0);
    ColumnsCover(b, seed, 0, 0, {}, [], StartScan(0), 0);
  }

  /** Every colour of the band gets a run list. */
  lemma BandListsCover(b: Band)
    requires b.Valid()
    ensures forall i, x :: 0 <= i < b.rows && 0 <= x < b.width ==>
              exists k :: 0 <= k < |BandLists(b)| && BandLists(b)[k].colour == b.Pixel(i, x)
  {
    var seed := b.Pixel(0, 0);
    var r := AddNodeF(b, seed, 0, {}, []);
    var lists := r.lists;
    assert lists == BandLists(b);
    AddNodeLast(b, seed, 0, {}, []);
    AddNodeNew(b, seed, 0, {}, []);
    assert EntriesComplete({}, 0, r);
    SeedCover(b);
    forall i, x | 0 <= i < b.rows && 0 <= x < b.width
      ensures exists k :: 0 <= k < |lists| && lists[k].colour == b.Pixel(i, x)
    {
      var d := b.Pixel(i, x);
      assert d == seed || d in r.seen;
      if d == seed {
        assert lists[|lists| - 1].colour == d;
      } else {
        var k :| 0 <= k < |lists| - 1 && lists[k].colour == d;
      }
    }
  }

  /** A colour other than the first pixel's (the seed) gets only one run
      list; the seed, never added to `seen`, may get a second one from a
      nested scan. */
  lemma BandListsOnce(b: Band)
    requires b.Valid()
    ensures forall j, k :: 0 <= j < k < |BandLists(b)| && BandLists(b)[j].colour == BandLists(b)[k].colour ==>
              BandLists(b)[k].colour == b.Pixel(0, 0)
  {
    var seed := b.Pixel(0, 0);
    var r := AddNodeF(b, seed, 0, {}, []);
    assert r.lists == BandLists(b);
    AddNodeLast(b, seed, 0, {}, []);
    AddNodeNew(b, seed, 0, {}, []);
    assert EntriesDistinct(0, r);
  }

  /** Every list in the band buffer is the run list of its colour from some
      start column. */
  lemma BandListsDiscovered(b: Band)
    requires b.Valid()
    ensures forall k :: 0 <= k < |BandLists(b)| ==> Discovered(b, BandLists(b)[k])
  {
    var seed := b.Pixel(0, 0);
    var r := AddNodeF(b, seed, 0, {}, []);
    assert r.lists == BandLists(b);
    AddNodeLast(b, seed, 0, {}, []);
    AddNodeNew(b, seed, 0, {}, []);
    assert EntriesDiscovered(b, 0, r);
    assert Discovered(b, r.lists[|r.lists| - 1]);
  }

  /** Every list in the band buffer is drawable: masks below 64, and never
      more columns than the band is wide. */
  lemma BandListsBounded(b: Band)
    requires b.Valid()
    ensures forall k :: 0 <= k < |BandLists(b)| ==>
              MasksBelow(BandLists(b)[k].runs, 64) && Total(BandLists(b)[k].runs) <= b.width
  {
    var lists := BandLists(b);
    BandListsDiscovered(b);
    Pow2Monotone(b.rows, 6);
    forall k | 0 <= k < |lists|
      ensures MasksBelow(lists[k].runs, 64) && Total(lists[k].runs) <= b.width
    {
      var s :| 0 <= s < b.width && lists[k].runs == RunList(b, lists[k].colour, s);
      RunListShape(b, lists[k].colour, s);
      RunListDecode(b, lists[k].colour, s);
    }
  }

  // ---------------------------------------------------------------------
  // Tokens of a band and of the whole body
  // ---------------------------------------------------------------------

  /** Each run as a sixel byte 0x3F + mask, literal when shorter than 4. */
  function RunTokens(runs: seq<Run>): (ts: seq<Token>)
    requires MasksBelow(runs, 64)
    ensures |ts| == |runs|
    ensures forall k :: 0 <= k < |ts| ==> ts[k] == RunToken(0x3F + runs[k].six, runs[k].count, 4)
    decreases |runs|
  {
    if |runs| == 0 then []
    else RunTokens(runs[..|runs| - 1]) + [RunToken(0x3F + runs[|runs| - 1].six, runs[|runs| - 1].count, 4)]
  }

  /** `#n\n`, the runs, `$\n`. */
  function ColourBlock(e: ColourRuns): seq<Token>
    requires MasksBelow(e.runs, 64)
  {
    [Select(e.colour), LineFeed] + RunTokens(e.runs) + [GraphicsReturn, LineFeed]
  }

  function Blocks(lists: seq<ColourRuns>): seq<Token>
    requires forall k :: 0 <= k < |lists| ==> MasksBelow(lists[k].runs, 64)
    decreases |lists|
  {
    if |lists| == 0 then [] else Blocks(lists[..|lists| - 1]) + ColourBlock(lists[|lists| - 1])
  }

  /** A band: the block of each colour in buffer order, then `-\n`. */
  function BandTokens(b: Band): seq<Token>
    requires b.Valid()
  {
    BandListsBounded(b);
    Blocks(BandLists(b)) + [GraphicsNewLine, LineFeed]
  }

  /** `#n;2;R;G;B\n` for each n below ncolor, in order. */
  function Definitions(palette: seq<nat>, ncolor: nat): (ts: seq<Token>)
    requires 3 * ncolor <= |palette|
    decreases ncolor
  {
    if ncolor == 0 then []
    else
      var n := ncolor - 1;
      Definitions(palette, n)
        + [Definition(palette, n), LineFeed]
  }

  /** Size-priority mode writes every definition first, each followed by a
      line feed, in colour order, each channel as a percentage below 100. */
  lemma {:induction false} DefinitionsInOrder(palette: seq<nat>, ncolor: nat)
    requires 3 * ncolor <= |palette|
    requires forall k :: 0 <= k < |palette| ==> palette[k] < 256
    ensures |Definitions(palette, ncolor)| == 2 * ncolor
    ensures forall n :: 0 <= n < ncolor ==>
              && Definitions(palette, ncolor)[2 * n] == Definition(palette, n)
              && Definitions(palette, ncolor)[2 * n + 1] == LineFeed
    ensures forall k :: 0 <= k < 2 * ncolor && Definitions(palette, ncolor)[k].Define? ==>
              var t := Definitions(palette, ncolor)[k]; t.r < 100 && t.g < 100 && t.b < 100
    decreases ncolor
  {
    if ncolor > 0 {
      DefinitionsInOrder(palette, ncolor - 1);
    }
  }

  /** The rows of band that starts at row y: six, or what is left. */
  function BandHeight(height: nat, y: nat): (rows: nat)
    requires y < height
    ensures 1 <= rows <= 6 && y + rows <= height
    ensures rows == 6 || y + rows == height
  {
    if height - y <= 5 then height - y else 6
  }

  lemma BandFits(data: seq<nat>, width: nat, height: nat, y: nat)
    requires y < height && width * height <= |data|
    ensures (y + BandHeight(height, y)) * width <= |data|
  {
    MulMonotone(y + BandHeight(height, y), height, width);
  }

  /** The body of size-priority mode from the band at row y on: bands
      start at rows 0, 6, 12, ... */
  function Bands(data: seq<nat>, width: nat, height: nat, ncolor: nat, y: nat): seq<Token>
    requires 1 <= width && width * height <= |data|
    requires forall k :: 0 <= k < |data| ==> data[k] < ncolor
    decreases height - y
  {
    if y >= height then []
    else
      BandFits(data, width, height, y);
      BandTokens(Band(data, width, y, BandHeight(height, y), ncolor)) + Bands(data, width, height, ncolor, y + 6)
  }

  /** One band of the body: the band at row y is valid, and the body from
      row y on is that band's tokens followed by the body from row y + 6. */
  lemma BandsStep(data: seq<nat>, width: nat, height: nat, ncolor: nat, y: nat)
    requires 1 <= width && width * height <= |data| && y < height
    requires forall k :: 0 <= k < |data| ==> data[k] < ncolor
    ensures Band(data, width, y, BandHeight(height, y), ncolor).Valid()
    ensures Bands(data, width, height, ncolor, y)
            == BandTokens(Band(data, width, y, BandHeight(height, y), ncolor)) + Bands(data, width, height, ncolor, y + 6)
  {
    BandFits(data, width, height, y);
  }
}
