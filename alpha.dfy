/** Row mode with an alpha threshold: like the fast encoder each image row
    paints one plane bit, but a run also ends when the alpha value changes
    or when it reaches 255 pixels, every run is written behind the
    selection of its colour, pixels less opaque than the threshold are
    painted with the empty sixel `?`, and no colour is ever defined. */
module Alpha {
  import opened Grammar
  import opened Raster

  /** The longest run the encoder writes. */
  const MaxRun: nat := 255

  /** The loop state of one row: colour and alpha of the open run, its
      length, the last sixel byte written (-1 before the first), and the
      tokens written so far in this row. */
  datatype Cursor = Cursor(cached: nat, alpha: nat, count: nat, c: int, tokens: seq<Token>)

  predicate CursorOK(plane: nat, cur: Cursor) {
    && 1 <= cur.count <= MaxRun
    && (cur.c == -1 || cur.c == 0x3F || cur.c == 0x3F + plane)
  }

  /** The byte a run is painted with: `?` for the key colour and for a run
      less opaque than the threshold, else the plane bit. */
  function RunByte(key: int, threshold: int, plane: nat, cur: Cursor): (c: SixelByte)
    requires IsPlane(plane)
    ensures c == 0x3F || c == 0x3F + plane
  {
    if cur.cached == key then 0x3F
    else if cur.alpha < threshold then 0x3F
    else 0x3F + plane
  }

  /** One pixel: the same colour and alpha lengthen the open run while it
      is shorter than MaxRun; otherwise the open run is written behind
      `#colour` and the pixel opens a run of one. */
  function Step(key: int, threshold: int, plane: nat, cur: Cursor, colour: nat, alpha: nat): (r: Cursor)
    requires IsPlane(plane) && CursorOK(plane, cur)
    ensures CursorOK(plane, r)
    ensures |r.tokens| >= |cur.tokens| && r.tokens[..|cur.tokens|] == cur.tokens
  {
    if colour == cur.cached && alpha == cur.alpha && cur.count < MaxRun then
      cur.(count := cur.count + 1)
    else
      var c := RunByte(key, threshold, plane, cur);
      Cursor(colour, alpha, 1, c, cur.tokens + [Select(cur.cached), RunToken(c, cur.count, 3)])
  }

  /** The column loop from column x to the end of the row. */
  function Scan(key: int, threshold: int, plane: nat, row: seq<nat>, alphas: seq<nat>, x: nat, cur: Cursor): (r: Cursor)
    requires IsPlane(plane) && |alphas| == |row| && x <= |row| && CursorOK(plane, cur)
    ensures CursorOK(plane, r)
    ensures |r.tokens| >= |cur.tokens| && r.tokens[..|cur.tokens|] == cur.tokens
    decreases |row| - x
  {
    if x == |row| then cur
    else Scan(key, threshold, plane, row, alphas, x + 1,
              Step(key, threshold, plane, cur, row[x], alphas[x]))
  }

  /** After the loop the open run is written whenever a run was written
      in this row (c != -1): with `?` for the key colour, and otherwise
      with the byte of the previous run, whatever its own alpha. */
  function Trail(key: int, cur: Cursor): (r: Cursor)
    requires cur.c == -1 || 0x3F <= cur.c <= 0x7E
  {
    if cur.c != -1 then
      var c := if cur.cached == key then 0x3F else cur.c;
      cur.(c := c, tokens := cur.tokens + [Select(cur.cached), RunToken(c, cur.count, 3)])
    else cur
  }

  function Start(row: seq<nat>, alphas: seq<nat>): Cursor
    requires |row| >= 1 && |alphas| == |row|
  {
    Cursor(row[0], alphas[0], 1, -1, [])
  }

  /** One turn of the column loop. */
  lemma ScanNext(key: int, threshold: int, plane: nat, row: seq<nat>, alphas: seq<nat>, x: nat, cur: Cursor)
    requires IsPlane(plane) && |alphas| == |row| && x < |row| && CursorOK(plane, cur)
    ensures Scan(key, threshold, plane, row, alphas, x, cur)
         == Scan(key, threshold, plane, row, alphas, x + 1, Step(key, threshold, plane, cur, row[x], alphas[x]))
  {
  }

  /** The runs of one row, before its separators. */
  function Line(key: int, threshold: int, plane: nat, row: seq<nat>, alphas: seq<nat>): seq<Token>
    requires IsPlane(plane) && |row| >= 1 && |alphas| == |row|
  {
    Trail(key, Scan(key, threshold, plane, row, alphas, 0, Start(row, alphas))).tokens
  }

  /** Every row ends with `$`; the row whose plane is the sixth bit adds `-`. */
  function Separators(plane: nat): seq<Token> {
    if plane == 32 then [GraphicsReturn, GraphicsNewLine] else [GraphicsReturn]
  }

  function Row(key: int, threshold: int, plane: nat, row: seq<nat>, alphas: seq<nat>): seq<Token>
    requires IsPlane(plane) && |row| >= 1 && |alphas| == |row|
  {
    Line(key, threshold, plane, row, alphas) + Separators(plane)
  }

  /** The row loop from row y on, row y painted on the given plane bit:
      one token row per image row. */
  function Rows(key: int, threshold: int, data: seq<nat>, alphas: seq<nat>, width: nat, height: nat, y: nat, plane: nat): seq<seq<Token>>
    requires width >= 1 && |data| == width * height && |alphas| == |data| && y <= height
    requires IsPlane(plane)
    decreases height - y
  {
    if y == height then []
    else
      [Row(key, threshold, plane, RowOf(data, width, height, y), RowOf(alphas, width, height, y))]
      + Rows(key, threshold, data, alphas, width, height, y + 1, NextPlane(plane))
  }

  /** One turn of the row loop. */
  lemma RowsStep(key: int, threshold: int, data: seq<nat>, alphas: seq<nat>, width: nat, height: nat, y: nat, plane: nat)
    requires width >= 1 && |data| == width * height && |alphas| == |data| && y < height
    requires IsPlane(plane)
    ensures Rows(key, threshold, data, alphas, width, height, y, plane)
      == [Row(key, threshold, plane, RowOf(data, width, height, y), RowOf(alphas, width, height, y))]
         + Rows(key, threshold, data, alphas, width, height, y + 1, NextPlane(plane))
  {
  }

  /** The whole body. */
  function Body(key: int, threshold: int, data: seq<nat>, alphas: seq<nat>, width: nat, height: nat): seq<Token>
    requires width >= 1 && |data| == width * height && |alphas| == |data|
  {
    Flatten(Rows(key, threshold, data, alphas, width, height, 0, 1))
  }

  // ---------------------------------------------------------------------
  // What every row is made of

  /** No colour is defined; every run paints nothing (`?`) or the plane
      bit, covers 1 to MaxRun columns, is written literally exactly when
      it is shorter than 3, and directly follows the selection of its
      colour; a run behind the key colour's selection is `?`. */
  ghost predicate Shaped(ts: seq<Token>, plane: nat, key: int) {
    && (forall k :: 0 <= k < |ts| ==> !ts[k].Define?)
    && (forall k :: 0 <= k < |ts| && ts[k].IsRun() ==>
          && (ts[k].byte == 0x3F || ts[k].byte == 0x3F + plane)
          && 1 <= ts[k].count <= MaxRun
          && (ts[k].Literal? <==> ts[k].count < 3)
          && k >= 1 && ts[k - 1].Select?)
    && (forall k :: 0 <= k < |ts| && ts[k].Select? ==>
          k + 1 < |ts| && ts[k + 1].IsRun() && (ts[k].colour == key ==> ts[k + 1].byte == 0x3F))
  }

  lemma ShapedAppend(a: seq<Token>, b: seq<Token>, plane: nat, key: int)
    requires Shaped(a, plane, key) && Shaped(b, plane, key)
    ensures Shaped(a + b, plane, key)
  {
    var ab := a + b;
    forall k | 0 <= k < |ab| && ab[k].IsRun()
      ensures k >= 1 && ab[k - 1].Select?
    {
      if k < |a| {
        assert ab[k] == a[k] && ab[k - 1] == a[k - 1];
      } else {
        assert ab[k] == b[k - |a|] && ab[k - 1] == b[k - |a| - 1];
      }
    }
    forall k | 0 <= k < |ab| && ab[k].Select?
      ensures k + 1 < |ab| && ab[k + 1].IsRun() && (ab[k].colour == key ==> ab[k + 1].byte == 0x3F)
    {
      if k < |a| {
        assert ab[k] == a[k] && ab[k + 1] == a[k + 1];
      } else {
        assert ab[k] == b[k - |a|] && ab[k + 1] == b[k - |a| + 1];
      }
    }
  }

  lemma PairShaped(n: nat, c: SixelByte, count: nat, plane: nat, key: int)
    requires c == 0x3F || c == 0x3F + plane
    requires 1 <= count <= MaxRun && (n == key ==> c == 0x3F)
    ensures Shaped([Select(n), RunToken(c, count, 3)], plane, key)
  {
  }

  /** The last run written carries the byte c. */
  ghost predicate LastByte(cur: Cursor) {
    cur.c != -1 ==> |cur.tokens| >= 2 && cur.tokens[|cur.tokens| - 1].IsRun()
                    && cur.tokens[|cur.tokens| - 1].byte == cur.c
  }

  lemma {:induction false} ScanShaped(key: int, threshold: int, plane: nat, row: seq<nat>, alphas: seq<nat>, x: nat, cur: Cursor)
    requires IsPlane(plane) && |alphas| == |row| && x <= |row| && CursorOK(plane, cur)
    requires Shaped(cur.tokens, plane, key) && LastByte(cur)
    ensures var r := Scan(key, threshold, plane, row, alphas, x, cur);
      Shaped(r.tokens, plane, key) && LastByte(r)
    decreases |row| - x
  {
    if x < |row| {
      var next := Step(key, threshold, plane, cur, row[x], alphas[x]);
      if !(row[x] == cur.cached && alphas[x] == cur.alpha && cur.count < MaxRun) {
        var c := RunByte(key, threshold, plane, cur);
        PairShaped(cur.cached, c, cur.count, plane, key);
        ShapedAppend(cur.tokens, [Select(cur.cached), RunToken(c, cur.count, 3)], plane, key);
      }
      ScanShaped(key, threshold, plane, row, alphas, x + 1, next);
    }
  }

  lemma LineShaped(key: int, threshold: int, plane: nat, row: seq<nat>, alphas: seq<nat>)
    requires IsPlane(plane) && |row| >= 1 && |alphas| == |row|
    ensures Shaped(Line(key, threshold, plane, row, alphas), plane, key)
  {
    var cur := Scan(key, threshold, plane, row, alphas, 0, Start(row, alphas));
    ScanShaped(key, threshold, plane, row, alphas, 0, Start(row, alphas));
    if cur.c != -1 {
      var c := if cur.cached == key then 0x3F else cur.c;
      PairShaped(cur.cached, c, cur.count, plane, key);
      ShapedAppend(cur.tokens, [Select(cur.cached), RunToken(c, cur.count, 3)], plane, key);
    }
  }

  /** Every row ends with `$`, or `$-` when its plane is the sixth bit,
      defines no colour, paints only its own plane bit, and writes every
      run (of 1 to 255 columns) right behind the selection of its colour,
      with `?` behind the key colour. Every run covers pixels of that
      colour and one alpha, and each run that ends before the last column
      is `?` exactly when the colour is the key or the alpha is below the
      threshold. */
  lemma RowShape(key: int, threshold: int, plane: nat, row: seq<nat>, alphas: seq<nat>)
    requires IsPlane(plane) && |row| >= 1 && |alphas| == |row|
    ensures var ts := Row(key, threshold, plane, row, alphas);
      && Shaped(ts, plane, key)
      && ts[|ts| - 1] == (if plane == 32 then GraphicsNewLine else GraphicsReturn)
      && (plane == 32 ==> ts[|ts| - 2] == GraphicsReturn)
      && AllPainted(key, threshold, plane, row, alphas, ts)
  {
    LineShaped(key, threshold, plane, row, alphas);
    ShapedAppend(Line(key, threshold, plane, row, alphas), Separators(plane), plane, key);
    LinePainted(key, threshold, plane, row, alphas);
    AppendSeparators(key, threshold, plane, row, alphas, Line(key, threshold, plane, row, alphas));
  }

  // ---------------------------------------------------------------------
  // How many columns a row paints

  /** No run of the first x pixels has ended: they share one colour and
      one alpha, and there are fewer than MaxRun of them. */
  ghost predicate Unbroken(row: seq<nat>, alphas: seq<nat>, x: nat)
    requires x <= |row| && |alphas| == |row|
  {
    Uniform(row[..x]) && Uniform(alphas[..x]) && x < MaxRun
  }

  /** What the column loop knows after x pixels: the runs written plus the
      open run count one column more than there are pixels, the open run
      has the colour and alpha of the last pixel, and nothing has been
      written while no run has ended. */
  ghost predicate Tally(row: seq<nat>, alphas: seq<nat>, x: nat, cur: Cursor)
    requires 1 <= |row| && x <= |row| && |alphas| == |row|
  {
    && RunTotal(cur.tokens) + cur.count == x + 1
    && cur.cached == row[if x == 0 then 0 else x - 1]
    && cur.alpha == alphas[if x == 0 then 0 else x - 1]
    && (cur.c == -1 <==> Unbroken(row, alphas, x))
    && (cur.c == -1 ==> cur.tokens == [] && cur.count == x + 1)
  }

  lemma UniformSnoc(s: seq<nat>, x: nat)
    requires 1 <= x < |s|
    ensures Uniform(s[..x + 1]) <==> Uniform(s[..x]) && s[x] == s[x - 1]
  {
    if Uniform(s[..x]) && s[x] == s[x - 1] {
      assert s[x - 1] == s[..x][x - 1];
    }
    if Uniform(s[..x + 1]) {
      assert s[..x + 1][x] == s[x] && s[..x + 1][x - 1] == s[x - 1];
    }
  }

  lemma PairTotal(n: nat, t: Token)
    requires t.IsRun()
    ensures RunTotal([Select(n), t]) == t.count
  {
    assert [Select(n), t][..1] == [Select(n)];
    assert [Select(n)][..0] == [];
    assert RunTotal([Select(n)]) == 0;
  }

  lemma StepTally(key: int, threshold: int, plane: nat, row: seq<nat>, alphas: seq<nat>, x: nat, cur: Cursor)
    requires IsPlane(plane) && 1 <= |row| && |alphas| == |row| && x < |row|
    requires CursorOK(plane, cur) && Tally(row, alphas, x, cur)
    ensures Tally(row, alphas, x + 1, Step(key, threshold, plane, cur, row[x], alphas[x]))
  {
    if row[x] == cur.cached && alphas[x] == cur.alpha && cur.count < MaxRun {
      ExtendTally(row, alphas, x, cur);
    } else {
      BreakTally(key, threshold, plane, row, alphas, x, cur);
    }
  }

  /** A pixel that lengthens the open run. */
  lemma ExtendTally(row: seq<nat>, alphas: seq<nat>, x: nat, cur: Cursor)
    requires 1 <= |row| && |alphas| == |row| && x < |row| && cur.count < MaxRun
    requires Tally(row, alphas, x, cur) && row[x] == cur.cached && alphas[x] == cur.alpha
    ensures Tally(row, alphas, x + 1, cur.(count := cur.count + 1))
  {
    if x == 0 {
      assert row[..1] == [row[0]] && alphas[..1] == [alphas[0]];
    } else {
      UniformSnoc(row, x);
      UniformSnoc(alphas, x);
    }
  }

  /** A pixel that ends the open run. */
  lemma BreakTally(key: int, threshold: int, plane: nat, row: seq<nat>, alphas: seq<nat>, x: nat, cur: Cursor)
    requires IsPlane(plane) && 1 <= |row| && |alphas| == |row| && x < |row|
    requires CursorOK(plane, cur) && Tally(row, alphas, x, cur)
    requires !(row[x] == cur.cached && alphas[x] == cur.alpha && cur.count < MaxRun)
    ensures Tally(row, alphas, x + 1, Step(key, threshold, plane, cur, row[x], alphas[x]))
  {
    var t := RunToken(RunByte(key, threshold, plane, cur), cur.count, 3);
    PairTotal(cur.cached, t);
    RunTotalAppend(cur.tokens, [Select(cur.cached), t]);
    if x > 0 {
      UniformSnoc(row, x);
      UniformSnoc(alphas, x);
    }
    assert !Unbroken(row, alphas, x + 1);
  }

  lemma {:induction false} ScanTally(key: int, threshold: int, plane: nat, row: seq<nat>, alphas: seq<nat>, x: nat, cur: Cursor)
    requires IsPlane(plane) && 1 <= |row| && |alphas| == |row| && x <= |row|
    requires CursorOK(plane, cur) && Tally(row, alphas, x, cur)
    ensures Tally(row, alphas, |row|, Scan(key, threshold, plane, row, alphas, x, cur))
    decreases |row| - x
  {
    if x < |row| {
      StepTally(key, threshold, plane, row, alphas, x, cur);
      ScanTally(key, threshold, plane, row, alphas, x + 1,
                Step(key, threshold, plane, cur, row[x], alphas[x]));
    }
  }

  /** The sixel columns a row paints: none when the whole row is one run
      (one colour, one alpha, fewer than 255 pixels); otherwise one more
      than its width, because the first run is counted one too long and
      the last run is always written. */
  lemma RowTotal(key: int, threshold: int, plane: nat, row: seq<nat>, alphas: seq<nat>)
    requires IsPlane(plane) && |row| >= 1 && |alphas| == |row|
    ensures RunTotal(Row(key, threshold, plane, row, alphas))
         == if Uniform(row) && Uniform(alphas) && |row| < MaxRun then 0 else |row| + 1
  {
    LineTotal(key, threshold, plane, row, alphas);
    SeparatorsTotal(plane);
    RunTotalAppend(Line(key, threshold, plane, row, alphas), Separators(plane));
    assert row[..|row|] == row && alphas[..|row|] == alphas;
  }

  /** The runs of a row cover nothing when no run ended, and one column
      more than the row otherwise. */
  lemma LineTotal(key: int, threshold: int, plane: nat, row: seq<nat>, alphas: seq<nat>)
    requires IsPlane(plane) && |row| >= 1 && |alphas| == |row|
    ensures RunTotal(Line(key, threshold, plane, row, alphas))
         == if Unbroken(row, alphas, |row|) then 0 else |row| + 1
  {
    var start := Start(row, alphas);
    assert row[..0] == [] && alphas[..0] == [];
    ScanTally(key, threshold, plane, row, alphas, 0, start);
    var cur := Scan(key, threshold, plane, row, alphas, 0, start);
    if cur.c != -1 {
      var c := if cur.cached == key then 0x3F else cur.c;
      var t := RunToken(c, cur.count, 3);
      PairTotal(cur.cached, t);
      RunTotalAppend(cur.tokens, [Select(cur.cached), t]);
    }
  }

  lemma SeparatorsTotal(plane: nat)
    ensures RunTotal(Separators(plane)) == 0
  {
    assert [GraphicsReturn][..0] == [];
    assert RunTotal([GraphicsReturn]) == 0;
    assert [GraphicsReturn, GraphicsNewLine][..1] == [GraphicsReturn];
  }

  lemma {:induction false} ScanLastByte(key: int, threshold: int, plane: nat, row: seq<nat>, alphas: seq<nat>, x: nat, cur: Cursor)
    requires IsPlane(plane) && |alphas| == |row| && x <= |row| && CursorOK(plane, cur)
    requires LastByte(cur)
    ensures LastByte(Scan(key, threshold, plane, row, alphas, x, cur))
    decreases |row| - x
  {
    if x < |row| {
      ScanLastByte(key, threshold, plane, row, alphas, x + 1,
                   Step(key, threshold, plane, cur, row[x], alphas[x]));
    }
  }

  /** Once a run has ended in a row, the trailing run of any colour other
      than the key is painted with the byte of the run before it, so its
      own alpha is never compared with the threshold. */
  lemma TrailReusesByte(key: int, threshold: int, plane: nat, row: seq<nat>, alphas: seq<nat>)
    requires IsPlane(plane) && |row| >= 1 && |alphas| == |row|
    requires !Unbroken(row, alphas, |row|) && row[|row| - 1] != key
    ensures var ts := Line(key, threshold, plane, row, alphas);
      && |ts| >= 4 && ts[|ts| - 2] == Select(row[|row| - 1])
      && ts[|ts| - 1].IsRun() && ts[|ts| - 3].IsRun()
      && ts[|ts| - 1].byte == ts[|ts| - 3].byte
  {
    var start := Start(row, alphas);
    assert row[..0] == [] && alphas[..0] == [];
    ScanTally(key, threshold, plane, row, alphas, 0, start);
    ScanLastByte(key, threshold, plane, row, alphas, 0, start);
  }

  /** The quirk on a concrete row: an opaque pixel of colour 5 followed by
      a fully transparent pixel of colour 7, threshold 128, no key colour,
      plane 1. The transparent pixel is painted with bit 0 (`@`) like the
      opaque one, and the opaque run counts two columns. */
  lemma TransparentTailPainted()
    ensures Row(-1, 128, 1, [5, 7], [255, 0])
         == [Select(5), Literal(0x40, 2), Select(7), Literal(0x40, 1), GraphicsReturn]
  {
    var row: seq<nat> := [5, 7];
    var alphas: seq<nat> := [255, 0];
    var c0 := Start(row, alphas);
    var c1 := Step(-1, 128, 1, c0, 5, 255);
    assert c1 == Cursor(5, 255, 2, -1, []);
    var c2 := Step(-1, 128, 1, c1, 7, 0);
    assert c2 == Cursor(7, 0, 1, 0x40, [Select(5), Literal(0x40, 2)]);
    assert Scan(-1, 128, 1, row, alphas, 0, c0) == c2;
  }

  // ---------------------------------------------------------------------
  // Which pixels each run paints

  /** The run that ends the tokens p, behind the selection of its colour,
      covers the `count` columns that end at column RunTotal(p) - 2 (the
      first run of a row starts one column before the row, because it is
      counted one too long). All of them have the selected colour and one
      alpha. A run that ends before the last column of the row is `?`
      exactly when that colour is the key or that alpha is below the
      threshold, and paints the plane bit otherwise. */
  ghost predicate Painted(key: int, threshold: int, plane: nat, row: seq<nat>, alphas: seq<nat>, p: seq<Token>)
    requires |alphas| == |row|
  {
    && |p| >= 2 && p[|p| - 1].IsRun()
    && var t, last := p[|p| - 1], RunTotal(p) - 2;
       && 0 <= last < |row|
       && p[|p| - 2] == Select(row[last])
       && (forall j :: last - t.count < j <= last && 0 <= j ==> row[j] == row[last] && alphas[j] == alphas[last])
       && (last < |row| - 1 ==>
             t.byte == if row[last] == key || alphas[last] < threshold then 0x3F else 0x3F + plane)
  }

  /** Every run of ts is painted as it should be. */
  ghost predicate AllPainted(key: int, threshold: int, plane: nat, row: seq<nat>, alphas: seq<nat>, ts: seq<Token>)
    requires |alphas| == |row|
  {
    forall k {:trigger Through(ts, k)} ::
      0 <= k < |ts| && ts[k].IsRun() ==> Painted(key, threshold, plane, row, alphas, Through(ts, k))
  }

  /** The columns of the open run, up to column x - 1, all have its colour
      and its alpha. */
  ghost predicate OpenSpan(row: seq<nat>, alphas: seq<nat>, x: nat, cur: Cursor)
    requires x <= |row| && |alphas| == |row|
  {
    forall j :: x - cur.count <= j < x && 0 <= j ==> row[j] == cur.cached && alphas[j] == cur.alpha
  }

  lemma AppendPair(key: int, threshold: int, plane: nat, row: seq<nat>, alphas: seq<nat>, ts: seq<Token>, n: nat, t: Token)
    requires |alphas| == |row| && AllPainted(key, threshold, plane, row, alphas, ts)
    requires Painted(key, threshold, plane, row, alphas, ts + [Select(n), t])
    ensures AllPainted(key, threshold, plane, row, alphas, ts + [Select(n), t])
  {
    var ts' := ts + [Select(n), t];
    forall k | 0 <= k < |ts'| && ts'[k].IsRun()
      ensures Painted(key, threshold, plane, row, alphas, Through(ts', k))
    {
      if k < |ts| {
        assert Through(ts', k) == Through(ts, k) && ts'[k] == ts[k];
      } else {
        assert Through(ts', k) == ts';
      }
    }
  }

  lemma AppendSeparators(key: int, threshold: int, plane: nat, row: seq<nat>, alphas: seq<nat>, ts: seq<Token>)
    requires |alphas| == |row| && AllPainted(key, threshold, plane, row, alphas, ts)
    ensures AllPainted(key, threshold, plane, row, alphas, ts + Separators(plane))
  {
    var ts' := ts + Separators(plane);
    forall k | 0 <= k < |ts'| && ts'[k].IsRun()
      ensures Painted(key, threshold, plane, row, alphas, Through(ts', k))
    {
      assert k < |ts|;
      assert Through(ts', k) == Through(ts, k) && ts'[k] == ts[k];
    }
  }

  /** Before any run has ended, the open run is the first pixel's. */
  lemma FirstPixel(row: seq<nat>, alphas: seq<nat>, cur: Cursor)
    requires 1 <= |row| && |alphas| == |row| && Tally(row, alphas, 0, cur)
    ensures cur.count == 1 && cur.cached == row[0] && cur.alpha == alphas[0]
  {
    assert row[..0] == [] && alphas[..0] == [];
  }

  /** A run of `t.count` columns ending at column `last`, all of one colour
      and one alpha, written behind the selection of that colour, with the
      byte the threshold asks for unless it ends the row, is painted as
      it should be. */
  lemma PairPainted(key: int, threshold: int, plane: nat, row: seq<nat>, alphas: seq<nat>,
                    ts: seq<Token>, t: Token, last: nat)
    requires |alphas| == |row| && last < |row| && t.IsRun()
    requires RunTotal(ts) + t.count == last + 2
    requires forall j :: last - t.count < j <= last && 0 <= j ==> row[j] == row[last] && alphas[j] == alphas[last]
    requires last < |row| - 1 ==>
      t.byte == if row[last] == key || alphas[last] < threshold then 0x3F else 0x3F + plane
    requires AllPainted(key, threshold, plane, row, alphas, ts)
    ensures AllPainted(key, threshold, plane, row, alphas, ts + [Select(row[last]), t])
  {
    PairTotal(row[last], t);
    RunTotalAppend(ts, [Select(row[last]), t]);
    AppendPair(key, threshold, plane, row, alphas, ts, row[last], t);
  }

  /** The run a pixel ends is painted as it should be, and the open run
      stays one colour and one alpha. */
  lemma StepPainted(key: int, threshold: int, plane: nat, row: seq<nat>, alphas: seq<nat>, x: nat, cur: Cursor)
    requires IsPlane(plane) && 1 <= |row| && |alphas| == |row| && x < |row|
    requires CursorOK(plane, cur) && Tally(row, alphas, x, cur)
    requires AllPainted(key, threshold, plane, row, alphas, cur.tokens) && OpenSpan(row, alphas, x, cur)
    ensures var next := Step(key, threshold, plane, cur, row[x], alphas[x]);
      AllPainted(key, threshold, plane, row, alphas, next.tokens) && OpenSpan(row, alphas, x + 1, next)
  {
    if !(row[x] == cur.cached && alphas[x] == cur.alpha && cur.count < MaxRun) {
      if x == 0 {
        FirstPixel(row, alphas, cur);
      }
      var t := RunToken(RunByte(key, threshold, plane, cur), cur.count, 3);
      PairPainted(key, threshold, plane, row, alphas, cur.tokens, t, x - 1);
    }
  }

  lemma {:induction false} ScanPainted(key: int, threshold: int, plane: nat, row: seq<nat>, alphas: seq<nat>, x: nat, cur: Cursor)
    requires IsPlane(plane) && 1 <= |row| && |alphas| == |row| && x <= |row|
    requires CursorOK(plane, cur) && Tally(row, alphas, x, cur)
    requires AllPainted(key, threshold, plane, row, alphas, cur.tokens) && OpenSpan(row, alphas, x, cur)
    ensures var r := Scan(key, threshold, plane, row, alphas, x, cur);
      AllPainted(key, threshold, plane, row, alphas, r.tokens) && OpenSpan(row, alphas, |row|, r)
    decreases |row| - x
  {
    if x < |row| {
      StepTally(key, threshold, plane, row, alphas, x, cur);
      StepPainted(key, threshold, plane, row, alphas, x, cur);
      ScanPainted(key, threshold, plane, row, alphas, x + 1,
                  Step(key, threshold, plane, cur, row[x], alphas[x]));
    }
  }

  /** Every run of a row covers pixels of the colour it selects and of
      one alpha; each run the column loop ends is `?` exactly for the key
      colour or an alpha below the threshold. The trailing run ends on the
      last column and so is exempt, as `TrailReusesByte` shows it must be. */
  lemma LinePainted(key: int, threshold: int, plane: nat, row: seq<nat>, alphas: seq<nat>)
    requires IsPlane(plane) && |row| >= 1 && |alphas| == |row|
    ensures AllPainted(key, threshold, plane, row, alphas, Line(key, threshold, plane, row, alphas))
  {
    var start := Start(row, alphas);
    assert row[..0] == [] && alphas[..0] == [];
    ScanTally(key, threshold, plane, row, alphas, 0, start);
    ScanPainted(key, threshold, plane, row, alphas, 0, start);
    var cur := Scan(key, threshold, plane, row, alphas, 0, start);
    if cur.c != -1 {
      var t := RunToken(if cur.cached == key then 0x3F else cur.c, cur.count, 3);
      PairPainted(key, threshold, plane, row, alphas, cur.tokens, t, |row| - 1);
    }
  }

  // ---------------------------------------------------------------------
  // The whole body

  /** Row y of the image, with pixels `row` and alphas `alphas`, written
      as the tokens ts: the right separator, well-formed runs, and every
      run painted as it should be on plane bit y mod 6. */
  ghost predicate RowGood(key: int, threshold: int, row: seq<nat>, alphas: seq<nat>, ts: seq<Token>, y: nat) {
    && |ts| >= 1 && |alphas| == |row|
    && ts[|ts| - 1] == (if y % 6 == 5 then GraphicsNewLine else GraphicsReturn)
    && Shaped(ts, Pow2(y % 6), key)
    && AllPainted(key, threshold, Pow2(y % 6), row, alphas, ts)
  }

  /** Row y, painted on bit y mod 6, is a good row. */
  lemma RowGoodAt(key: int, threshold: int, row: seq<nat>, alphas: seq<nat>, y: nat)
    requires |row| >= 1 && |alphas| == |row|
    ensures IsPlane(Pow2(y % 6))
    ensures RowGood(key, threshold, row, alphas, Row(key, threshold, Pow2(y % 6), row, alphas), y)
  {
    PlaneOfRow(y);
    RowShape(key, threshold, Pow2(y % 6), row, alphas);
  }

  /** Good rows from row y + 1 on, after a good row y, are good rows from
      row y on. */
  lemma GoodCons(key: int, threshold: int, data: seq<nat>, alphas: seq<nat>, width: nat, height: nat,
                 ts: seq<Token>, rest: seq<seq<Token>>, y: nat)
    requires width >= 1 && |data| == width * height && |alphas| == |data| && y + |rest| < height
    requires RowGood(key, threshold, RowOf(data, width, height, y), RowOf(alphas, width, height, y), ts, y)
    requires forall i :: 0 <= i < |rest| ==>
      RowGood(key, threshold, RowOf(data, width, height, y + 1 + i), RowOf(alphas, width, height, y + 1 + i), rest[i], y + 1 + i)
    ensures forall i :: 0 <= i < |[ts] + rest| ==>
      RowGood(key, threshold, RowOf(data, width, height, y + i), RowOf(alphas, width, height, y + i), ([ts] + rest)[i], y + i)
  {
    var r := [ts] + rest;
    forall i | 0 <= i < |r|
      ensures RowGood(key, threshold, RowOf(data, width, height, y + i), RowOf(alphas, width, height, y + i), r[i], y + i)
    {
      if i > 0 {
        assert r[i] == rest[i - 1] && y + i == y + 1 + (i - 1);
      }
    }
  }

  lemma {:induction false} RowsShape(key: int, threshold: int, data: seq<nat>, alphas: seq<nat>, width: nat, height: nat, y: nat, plane: nat)
    requires width >= 1 && |data| == width * height && |alphas| == |data| && y <= height
    requires IsPlane(plane) && plane == Pow2(y % 6)
    ensures var r := Rows(key, threshold, data, alphas, width, height, y, plane);
      && |r| == height - y
      && forall i :: 0 <= i < |r| ==>
           RowGood(key, threshold, RowOf(data, width, height, y + i), RowOf(alphas, width, height, y + i), r[i], y + i)
    decreases height - y
  {
    if y < height {
      var row, rowAlphas := RowOf(data, width, height, y), RowOf(alphas, width, height, y);
      var tokens := Row(key, threshold, plane, row, rowAlphas);
      PlaneOfRow(y);
      RowGoodAt(key, threshold, row, rowAlphas, y);
      var rest := Rows(key, threshold, data, alphas, width, height, y + 1, NextPlane(plane));
      RowsShape(key, threshold, data, alphas, width, height, y + 1, NextPlane(plane));
      GoodCons(key, threshold, data, alphas, width, height, tokens, rest, y);
    }
  }

  /** The body has one token row per image row; row y ends with `-`
      exactly when y mod 6 = 5 and with `$` otherwise, defines no colour,
      paints only bit y mod 6 of its sixels, and paints each run the
      column loop ends by the key colour and the alpha threshold of the
      pixels it covers. */
  lemma BodyShape(key: int, threshold: int, data: seq<nat>, alphas: seq<nat>, width: nat, height: nat)
    requires width >= 1 && |data| == width * height && |alphas| == |data|
    ensures var r := Rows(key, threshold, data, alphas, width, height, 0, 1);
      && |r| == height
      && forall y :: 0 <= y < height ==>
           RowGood(key, threshold, RowOf(data, width, height, y), RowOf(alphas, width, height, y), r[y], y)
  {
    assert Pow2(0) == 1;
    RowsShape(key, threshold, data, alphas, width, height, 0, 1);
    var r := Rows(key, threshold, data, alphas, width, height, 0, 1);
    forall y | 0 <= y < height
      ensures RowGood(key, threshold, RowOf(data, width, height, y), RowOf(alphas, width, height, y), r[y], y)
    {
      assert 0 + y == y;
    }
  }
}
