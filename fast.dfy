/** Row mode without an alpha threshold (the fast encoder): every image row
    is one pass over its pixels in which each colour change closes a run,
    and each row paints only the one bit (the plane) of the sixel that
    belongs to it. A colour is defined the first time it is selected, and
    the converter's slot table remembers that across rows and calls. */
module Fast {
  import opened Grammar
  import opened Raster

  /** The loop state of one row: the colour of the open run, its length,
      the last sixel byte written (-1 before the first), the slot table,
      and the tokens written so far in this row. */
  datatype Cursor = Cursor(cached: nat, count: nat, c: int, slots: seq<int>, tokens: seq<Token>)

  predicate CursorOK(palette: seq<nat>, plane: nat, cur: Cursor) {
    && |cur.slots| == 257
    && cur.cached < 256 && 3 * cur.cached + 2 < |palette|
    && cur.count >= 1
    && (cur.c == -1 || cur.c == 0x3F || cur.c == 0x3F + plane)
  }

  datatype Announced = Announced(tokens: seq<Token>, slots: seq<int>)

  /** Selecting colour n: its definition first when its slot is still 0
      (the slot then becomes 1), then `#n`. */
  function Announce(palette: seq<nat>, slots: seq<int>, n: nat): (a: Announced)
    requires n < |slots| && 3 * n + 2 < |palette|
    ensures |a.slots| == |slots|
    ensures 1 <= |a.tokens| <= 2 && a.tokens[|a.tokens| - 1] == Select(n)
    ensures forall k :: 0 <= k < |a.tokens| ==> !a.tokens[k].IsRun()
  {
    if slots[n] == 0 then Announced([Definition(palette, n), Select(n)], slots[n := 1])
    else Announced([Select(n)], slots)
  }

  /** The run of `cur.cached` ends because the colour changed: the key
      colour is painted with the empty sixel `?` and no selection, any
      other colour is announced and painted with the plane bit. */
  function Flush(palette: seq<nat>, key: int, plane: nat, cur: Cursor): (r: Cursor)
    requires IsPlane(plane) && CursorOK(palette, plane, cur)
    ensures CursorOK(palette, plane, r) && r.c != -1
    ensures r.cached == cur.cached && r.count == cur.count
    ensures |r.tokens| > |cur.tokens| && r.tokens[..|cur.tokens|] == cur.tokens
  {
    if cur.cached == key then
      cur.(c := 0x3F, tokens := cur.tokens + [RunToken(0x3F, cur.count, 3)])
    else
      var a := Announce(palette, cur.slots, cur.cached);
      cur.(c := 0x3F + plane, slots := a.slots,
           tokens := cur.tokens + a.tokens + [RunToken(0x3F + plane, cur.count, 3)])
  }

  /** One pixel of the row: the same colour lengthens the open run, a new
      colour flushes it and opens a run of one. */
  function Step(palette: seq<nat>, key: int, plane: nat, cur: Cursor, colour: nat): (r: Cursor)
    requires IsPlane(plane) && CursorOK(palette, plane, cur)
    requires colour < 256 && 3 * colour + 2 < |palette|
    ensures CursorOK(palette, plane, r)
    ensures |r.tokens| >= |cur.tokens| && r.tokens[..|cur.tokens|] == cur.tokens
  {
    if colour == cur.cached then cur.(count := cur.count + 1)
    else Flush(palette, key, plane, cur).(count := 1, cached := colour)
  }

  /** The column loop from column x to the end of the row. */
  function Scan(palette: seq<nat>, key: int, plane: nat, row: seq<nat>, x: nat, cur: Cursor): (r: Cursor)
    requires IsPlane(plane) && Indexes(palette, row) && x <= |row|
    requires CursorOK(palette, plane, cur)
    ensures CursorOK(palette, plane, r)
    ensures |r.tokens| >= |cur.tokens| && r.tokens[..|cur.tokens|] == cur.tokens
    decreases |row| - x
  {
    if x == |row| then cur
    else Scan(palette, key, plane, row, x + 1, Step(palette, key, plane, cur, row[x]))
  }

  /** After the loop the open run is written only when a run was already
      written in this row (c != -1) and it is longer than one pixel; a key
      colour run uses `?`, any other reuses the byte of the previous run. */
  function Trail(palette: seq<nat>, key: int, plane: nat, cur: Cursor): (r: Cursor)
    requires IsPlane(plane) && CursorOK(palette, plane, cur)
    ensures CursorOK(palette, plane, r)
    ensures |r.tokens| >= |cur.tokens| && r.tokens[..|cur.tokens|] == cur.tokens
  {
    if cur.c != -1 && cur.count > 1 then
      if cur.cached == key then
        cur.(c := 0x3F, tokens := cur.tokens + [RunToken(0x3F, cur.count, 3)])
      else
        var a := Announce(palette, cur.slots, cur.cached);
        cur.(slots := a.slots, tokens := cur.tokens + a.tokens + [RunToken(cur.c, cur.count, 3)])
    else cur
  }

  /** A row ends with `-` when its plane is the sixth bit, else with `$`. */
  function Separator(plane: nat): Token {
    if plane == 32 then GraphicsNewLine else GraphicsReturn
  }

  function Start(row: seq<nat>, slots: seq<int>): Cursor
    requires |row| >= 1
  {
    Cursor(row[0], 1, -1, slots, [])
  }

  datatype RowOut = RowOut(tokens: seq<Token>, slots: seq<int>)

  /** The tokens of one row and the slot table after it. */
  function Row(palette: seq<nat>, key: int, plane: nat, row: seq<nat>, slots: seq<int>): (out: RowOut)
    requires IsPlane(plane) && |row| >= 1 && Indexes(palette, row) && |slots| == 257
    ensures |out.slots| == 257 && |out.tokens| >= 1
  {
    var cur := Trail(palette, key, plane, Scan(palette, key, plane, row, 0, Start(row, slots)));
    RowOut(cur.tokens + [Separator(plane)], cur.slots)
  }

  /** The token rows of the row loop and the slot table after them. */
  datatype Lines = Lines(rows: seq<seq<Token>>, slots: seq<int>)

  /** The row loop from row y on, row y painted on the given plane bit and
      starting from the given slot table. */
  function Rows(palette: seq<nat>, key: int, data: seq<nat>, width: nat, height: nat, y: nat, plane: nat, slots: seq<int>): (r: Lines)
    requires Image(palette, data, width, height) && y <= height
    requires IsPlane(plane) && |slots| == 257
    ensures |r.slots| == 257
    decreases height - y
  {
    if y == height then Lines([], slots)
    else
      RowIndexes(palette, data, width, height, y);
      var out := Row(palette, key, plane, RowOf(data, width, height, y), slots);
      var rest := Rows(palette, key, data, width, height, y + 1, NextPlane(plane), out.slots);
      Lines([out.tokens] + rest.rows, rest.slots)
  }

  /** One turn of the row loop. */
  lemma RowsStep(palette: seq<nat>, key: int, data: seq<nat>, width: nat, height: nat, y: nat, plane: nat, slots: seq<int>)
    requires Image(palette, data, width, height) && y < height
    requires IsPlane(plane) && |slots| == 257
    ensures Indexes(palette, RowOf(data, width, height, y))
    ensures var out := Row(palette, key, plane, RowOf(data, width, height, y), slots);
      var rest := Rows(palette, key, data, width, height, y + 1, NextPlane(plane), out.slots);
      Rows(palette, key, data, width, height, y, plane, slots) == Lines([out.tokens] + rest.rows, rest.slots)
  {
    RowIndexes(palette, data, width, height, y);
  }

  /** The whole body and the slot table after it, starting from `slots`. */
  function Body(palette: seq<nat>, key: int, data: seq<nat>, width: nat, height: nat, slots: seq<int>): RowOut
    requires Image(palette, data, width, height) && |slots| == 257
  {
    var r := Rows(palette, key, data, width, height, 0, 1, slots);
    RowOut(Flatten(r.rows), r.slots)
  }

  // ---------------------------------------------------------------------
  // What every row is made of

  /** Every run paints either nothing (`?`) or the plane bit, covers at
      least one column, and is written literally exactly when it is
      shorter than 3. */
  ghost predicate RunsOK(ts: seq<Token>, plane: nat) {
    forall k :: 0 <= k < |ts| && ts[k].IsRun() ==>
      && (ts[k].byte == 0x3F || ts[k].byte == 0x3F + plane)
      && ts[k].count >= 1
      && (ts[k].Literal? <==> ts[k].count < 3)
  }

  /** The key colour is never selected, and every definition is followed
      by the selection of the colour it defines. */
  ghost predicate SelectsOK(ts: seq<Token>, key: int) {
    && (forall k :: 0 <= k < |ts| && ts[k].Select? ==> ts[k].colour != key)
    && (forall k :: 0 <= k < |ts| && ts[k].Define? ==> k + 1 < |ts| && ts[k + 1] == Select(ts[k].colour))
  }

  ghost predicate Shaped(ts: seq<Token>, plane: nat, key: int) {
    RunsOK(ts, plane) && SelectsOK(ts, key)
  }

  lemma ShapedAppend(a: seq<Token>, b: seq<Token>, plane: nat, key: int)
    requires Shaped(a, plane, key) && Shaped(b, plane, key)
    ensures Shaped(a + b, plane, key)
  {
    var ab := a + b;
    forall k | 0 <= k < |ab| && ab[k].Define?
      ensures k + 1 < |ab| && ab[k + 1] == Select(ab[k].colour)
    {
      if k < |a| {
        assert ab[k + 1] == a[k + 1];
      } else {
        assert ab[k] == b[k - |a|];
        assert ab[k + 1] == b[k - |a| + 1];
      }
    }
  }

  lemma AnnounceShaped(palette: seq<nat>, slots: seq<int>, n: nat, plane: nat, key: int)
    requires n < |slots| && 3 * n + 2 < |palette| && n != key
    ensures Shaped(Announce(palette, slots, n).tokens, plane, key)
  {
  }

  lemma FlushShaped(palette: seq<nat>, key: int, plane: nat, cur: Cursor)
    requires IsPlane(plane) && CursorOK(palette, plane, cur)
    requires Shaped(cur.tokens, plane, key)
    ensures Shaped(Flush(palette, key, plane, cur).tokens, plane, key)
  {
    if cur.cached == key {
      ShapedAppend(cur.tokens, [RunToken(0x3F, cur.count, 3)], plane, key);
    } else {
      var a := Announce(palette, cur.slots, cur.cached);
      AnnounceShaped(palette, cur.slots, cur.cached, plane, key);
      ShapedAppend(a.tokens, [RunToken(0x3F + plane, cur.count, 3)], plane, key);
      ShapedAppend(cur.tokens, a.tokens + [RunToken(0x3F + plane, cur.count, 3)], plane, key);
      assert cur.tokens + a.tokens + [RunToken(0x3F + plane, cur.count, 3)]
          == cur.tokens + (a.tokens + [RunToken(0x3F + plane, cur.count, 3)]);
    }
  }

  lemma {:induction false} ScanShaped(palette: seq<nat>, key: int, plane: nat, row: seq<nat>, x: nat, cur: Cursor)
    requires IsPlane(plane) && Indexes(palette, row) && x <= |row|
    requires CursorOK(palette, plane, cur) && Shaped(cur.tokens, plane, key)
    ensures Shaped(Scan(palette, key, plane, row, x, cur).tokens, plane, key)
    decreases |row| - x
  {
    if x < |row| {
      if row[x] != cur.cached {
        FlushShaped(palette, key, plane, cur);
      }
      ScanShaped(palette, key, plane, row, x + 1, Step(palette, key, plane, cur, row[x]));
    }
  }

  lemma TrailShaped(palette: seq<nat>, key: int, plane: nat, cur: Cursor)
    requires IsPlane(plane) && CursorOK(palette, plane, cur)
    requires Shaped(cur.tokens, plane, key)
    ensures Shaped(Trail(palette, key, plane, cur).tokens, plane, key)
  {
    if cur.c != -1 && cur.count > 1 {
      if cur.cached == key {
        ShapedAppend(cur.tokens, [RunToken(0x3F, cur.count, 3)], plane, key);
      } else {
        var a := Announce(palette, cur.slots, cur.cached);
        AnnounceShaped(palette, cur.slots, cur.cached, plane, key);
        ShapedAppend(a.tokens, [RunToken(cur.c, cur.count, 3)], plane, key);
        ShapedAppend(cur.tokens, a.tokens + [RunToken(cur.c, cur.count, 3)], plane, key);
        assert cur.tokens + a.tokens + [RunToken(cur.c, cur.count, 3)]
            == cur.tokens + (a.tokens + [RunToken(cur.c, cur.count, 3)]);
      }
    }
  }

  /** Every row ends with its separator, paints only its own plane bit,
      never selects the key colour, and selects each colour it defines
      right after the definition. */
  lemma RowShape(palette: seq<nat>, key: int, plane: nat, row: seq<nat>, slots: seq<int>)
    requires IsPlane(plane) && |row| >= 1 && Indexes(palette, row) && |slots| == 257
    ensures var ts := Row(palette, key, plane, row, slots).tokens;
      && ts[|ts| - 1] == Separator(plane) && Shaped(ts, plane, key)
      && AllPainted(key, plane, row, ts)
  {
    var scanned := Scan(palette, key, plane, row, 0, Start(row, slots));
    ScanShaped(palette, key, plane, row, 0, Start(row, slots));
    TrailShaped(palette, key, plane, scanned);
    ShapedAppend(Trail(palette, key, plane, scanned).tokens, [Separator(plane)], plane, key);
    RowPainted(palette, key, plane, row, slots);
  }

  // ---------------------------------------------------------------------
  // Each colour is defined once

  ghost predicate DefinedIn(ts: seq<Token>, n: nat) {
    exists k :: 0 <= k < |ts| && ts[k].Define? && ts[k].colour == n
  }

  /** No colour is defined twice. */
  ghost predicate DefinesOnce(ts: seq<Token>) {
    forall i, j :: 0 <= i < j < |ts| && ts[i].Define? && ts[j].Define? ==> ts[i].colour != ts[j].colour
  }

  /** Slot n is 1 exactly when colour n has been defined, and 0 otherwise. */
  ghost predicate SlotsRecord(slots: seq<int>, ts: seq<Token>) {
    && |slots| == 257
    && (forall n: nat :: n < 257 ==> slots[n] == 0 || slots[n] == 1)
    && (forall n: nat :: n < 257 ==> (slots[n] == 1 <==> DefinedIn(ts, n)))
  }

  /** The slot table agrees with everything written so far, and nothing
      written so far defines a colour twice. */
  ghost predicate DefsOK(ts: seq<Token>, slots: seq<int>) {
    DefinesOnce(ts) && SlotsRecord(slots, ts)
  }

  lemma DefinedInAppend(a: seq<Token>, b: seq<Token>, n: nat)
    ensures DefinedIn(a + b, n) <==> DefinedIn(a, n) || DefinedIn(b, n)
  {
    var ab := a + b;
    if DefinedIn(ab, n) {
      var k :| 0 <= k < |ab| && ab[k].Define? && ab[k].colour == n;
      if k >= |a| {
        assert b[k - |a|] == ab[k];
      }
    }
    if DefinedIn(b, n) {
      var k :| 0 <= k < |b| && b[k].Define? && b[k].colour == n;
      assert ab[|a| + k] == b[k];
    }
    if DefinedIn(a, n) {
      var k :| 0 <= k < |a| && a[k].Define? && a[k].colour == n;
      assert ab[k] == a[k];
    }
  }

  /** Writing tokens that define nothing keeps the slot table right. */
  lemma PlainKeepsDefs(h: seq<Token>, more: seq<Token>, slots: seq<int>)
    requires forall k :: 0 <= k < |more| ==> !more[k].Define?
    requires DefsOK(h, slots)
    ensures DefsOK(h + more, slots)
  {
    forall n: nat | n < 257
      ensures DefinedIn(h + more, n) <==> DefinedIn(h, n)
    {
      DefinedInAppend(h, more, n);
    }
    var hm := h + more;
    forall i, j | 0 <= i < j < |hm| && hm[i].Define? && hm[j].Define?
      ensures hm[i].colour != hm[j].colour
    {
      assert j < |h|;
    }
  }

  /** An announcement defines a colour only when its slot says it has not
      been defined yet, and records the definition in the slot. */
  lemma AnnounceKeepsDefs(h: seq<Token>, palette: seq<nat>, slots: seq<int>, n: nat)
    requires n < 256 && 3 * n + 2 < |palette|
    requires DefsOK(h, slots)
    ensures var a := Announce(palette, slots, n); DefsOK(h + a.tokens, a.slots)
  {
    var a := Announce(palette, slots, n);
    if slots[n] == 0 {
      var d := [Definition(palette, n)];
      forall m: nat | m < 257
        ensures DefinedIn(h + d, m) <==> DefinedIn(h, m) || m == n
      {
        DefinedInAppend(h, d, m);
        assert d[0].Define? && d[0].colour == n;
      }
      var hd := h + d;
      forall i, j | 0 <= i < j < |hd| && hd[i].Define? && hd[j].Define?
        ensures hd[i].colour != hd[j].colour
      {
        if j == |h| {
          assert hd[i] == h[i];
        }
      }
      assert DefsOK(hd, slots[n := 1]);
      PlainKeepsDefs(hd, [Select(n)], slots[n := 1]);
      assert h + a.tokens == hd + [Select(n)];
    } else {
      PlainKeepsDefs(h, [Select(n)], slots);
    }
  }

  lemma AppendRunKeepsDefs(h: seq<Token>, ts: seq<Token>, t: Token, slots: seq<int>)
    requires t.IsRun() && DefsOK(h + ts, slots)
    ensures DefsOK(h + (ts + [t]), slots)
  {
    PlainKeepsDefs(h + ts, [t], slots);
    assert h + ts + [t] == h + (ts + [t]);
  }

  lemma FlushKeepsDefs(h: seq<Token>, palette: seq<nat>, key: int, plane: nat, cur: Cursor)
    requires IsPlane(plane) && CursorOK(palette, plane, cur)
    requires DefsOK(h + cur.tokens, cur.slots)
    ensures var r := Flush(palette, key, plane, cur); DefsOK(h + r.tokens, r.slots)
  {
    if cur.cached == key {
      AppendRunKeepsDefs(h, cur.tokens, RunToken(0x3F, cur.count, 3), cur.slots);
    } else {
      var a := Announce(palette, cur.slots, cur.cached);
      AnnounceKeepsDefs(h + cur.tokens, palette, cur.slots, cur.cached);
      assert h + cur.tokens + a.tokens == h + (cur.tokens + a.tokens);
      AppendRunKeepsDefs(h, cur.tokens + a.tokens, RunToken(0x3F + plane, cur.count, 3), a.slots);
    }
  }

  lemma {:induction false} ScanKeepsDefs(h: seq<Token>, palette: seq<nat>, key: int, plane: nat, row: seq<nat>, x: nat, cur: Cursor)
    requires IsPlane(plane) && Indexes(palette, row) && x <= |row|
    requires CursorOK(palette, plane, cur) && DefsOK(h + cur.tokens, cur.slots)
    ensures var r := Scan(palette, key, plane, row, x, cur); DefsOK(h + r.tokens, r.slots)
    decreases |row| - x
  {
    if x < |row| {
      if row[x] != cur.cached {
        FlushKeepsDefs(h, palette, key, plane, cur);
      }
      ScanKeepsDefs(h, palette, key, plane, row, x + 1, Step(palette, key, plane, cur, row[x]));
    }
  }

  lemma TrailKeepsDefs(h: seq<Token>, palette: seq<nat>, key: int, plane: nat, cur: Cursor)
    requires IsPlane(plane) && CursorOK(palette, plane, cur)
    requires DefsOK(h + cur.tokens, cur.slots)
    ensures var r := Trail(palette, key, plane, cur); DefsOK(h + r.tokens, r.slots)
  {
    if cur.c != -1 && cur.count > 1 {
      if cur.cached == key {
        AppendRunKeepsDefs(h, cur.tokens, RunToken(0x3F, cur.count, 3), cur.slots);
      } else {
        var a := Announce(palette, cur.slots, cur.cached);
        AnnounceKeepsDefs(h + cur.tokens, palette, cur.slots, cur.cached);
        assert h + cur.tokens + a.tokens == h + (cur.tokens + a.tokens);
        AppendRunKeepsDefs(h, cur.tokens + a.tokens, RunToken(cur.c, cur.count, 3), a.slots);
      }
    }
  }

  /** Whatever was written before (`h`), if the slot table agreed with it,
      it agrees with it and the row after the row is written, and no
      colour has been defined twice. */
  lemma RowKeepsDefs(h: seq<Token>, palette: seq<nat>, key: int, plane: nat, row: seq<nat>, slots: seq<int>)
    requires IsPlane(plane) && |row| >= 1 && Indexes(palette, row)
    requires DefsOK(h, slots)
    ensures var out := Row(palette, key, plane, row, slots); DefsOK(h + out.tokens, out.slots)
  {
    var start := Start(row, slots);
    assert h + start.tokens == h;
    ScanKeepsDefs(h, palette, key, plane, row, 0, start);
    var scanned := Scan(palette, key, plane, row, 0, start);
    TrailKeepsDefs(h, palette, key, plane, scanned);
    var trailed := Trail(palette, key, plane, scanned);
    AppendRunKeepsDefs(h, trailed.tokens, RunToken(0x3F, 1, 3), trailed.slots);
    PlainKeepsDefs(h + trailed.tokens, [Separator(plane)], trailed.slots);
    assert h + trailed.tokens + [Separator(plane)] == h + (trailed.tokens + [Separator(plane)]);
  }

  // ---------------------------------------------------------------------
  // How many columns a row paints

  /** What the column loop knows after x pixels: the runs written plus the
      open run count one column more than there are pixels (the first run
      starts at one and its first pixel counts again), the open run has
      the colour of the last pixel, no run was written while the row so
      far is one colour, and after two pixels the open run has length one
      exactly when the last two pixels differ. */
  ghost predicate Tally(row: seq<nat>, x: nat, cur: Cursor)
    requires 1 <= |row| && x <= |row|
  {
    && RunTotal(cur.tokens) + cur.count == x + 1
    && (x >= 1 ==> cur.cached == row[x - 1])
    && (x == 0 ==> cur.cached == row[0])
    && (cur.c == -1 <==> Uniform(row[..x]))
    && (cur.c == -1 ==> cur.tokens == [])
    && (x >= 2 ==> (cur.count == 1 <==> row[x - 1] != row[x - 2]))
    && (x == 1 ==> cur.count == 2)
  }

  lemma {:induction false} NoRunsTotal(ts: seq<Token>)
    requires forall k :: 0 <= k < |ts| ==> !ts[k].IsRun()
    ensures RunTotal(ts) == 0
    decreases |ts|
  {
    if |ts| > 0 {
      NoRunsTotal(ts[..|ts| - 1]);
    }
  }

  lemma AnnounceNoRuns(palette: seq<nat>, slots: seq<int>, n: nat)
    requires n < |slots| && 3 * n + 2 < |palette|
    ensures RunTotal(Announce(palette, slots, n).tokens) == 0
  {
    NoRunsTotal(Announce(palette, slots, n).tokens);
  }

  lemma FlushTotal(palette: seq<nat>, key: int, plane: nat, cur: Cursor)
    requires IsPlane(plane) && CursorOK(palette, plane, cur)
    ensures RunTotal(Flush(palette, key, plane, cur).tokens) == RunTotal(cur.tokens) + cur.count
  {
    if cur.cached == key {
      RunTotalAppend(cur.tokens, [RunToken(0x3F, cur.count, 3)]);
      assert [RunToken(0x3F, cur.count, 3)][..0] == [];
    } else {
      var a := Announce(palette, cur.slots, cur.cached);
      var t := RunToken(0x3F + plane, cur.count, 3);
      AnnounceNoRuns(palette, cur.slots, cur.cached);
      RunTotalAppend(cur.tokens, a.tokens);
      RunTotalAppend(cur.tokens + a.tokens, [t]);
      assert [t][..0] == [];
    }
  }

  lemma UniformSnoc(row: seq<nat>, x: nat)
    requires 1 <= x < |row|
    ensures Uniform(row[..x + 1]) <==> Uniform(row[..x]) && row[x] == row[x - 1]
  {
    if Uniform(row[..x]) && row[x] == row[x - 1] {
      assert row[x - 1] == row[..x][x - 1];
    }
    if Uniform(row[..x + 1]) {
      assert row[..x + 1][x] == row[x] && row[..x + 1][x - 1] == row[x - 1];
    }
  }

  lemma StepTally(palette: seq<nat>, key: int, plane: nat, row: seq<nat>, x: nat, cur: Cursor)
    requires IsPlane(plane) && Indexes(palette, row) && 1 <= |row| && x < |row|
    requires CursorOK(palette, plane, cur) && Tally(row, x, cur)
    ensures Tally(row, x + 1, Step(palette, key, plane, cur, row[x]))
  {
    var r := Step(palette, key, plane, cur, row[x]);
    if x == 0 {
      assert row[..1] == [row[0]];
    } else {
      UniformSnoc(row, x);
    }
    if row[x] != cur.cached {
      FlushTotal(palette, key, plane, cur);
    }
  }

  lemma {:induction false} ScanTally(palette: seq<nat>, key: int, plane: nat, row: seq<nat>, x: nat, cur: Cursor)
    requires IsPlane(plane) && Indexes(palette, row) && 1 <= |row| && x <= |row|
    requires CursorOK(palette, plane, cur) && Tally(row, x, cur)
    ensures Tally(row, |row|, Scan(palette, key, plane, row, x, cur))
    decreases |row| - x
  {
    if x < |row| {
      StepTally(palette, key, plane, row, x, cur);
      ScanTally(palette, key, plane, row, x + 1, Step(palette, key, plane, cur, row[x]));
    }
  }

  lemma TrailTotal(palette: seq<nat>, key: int, plane: nat, cur: Cursor)
    requires IsPlane(plane) && CursorOK(palette, plane, cur)
    ensures RunTotal(Trail(palette, key, plane, cur).tokens)
         == RunTotal(cur.tokens) + if cur.c != -1 && cur.count > 1 then cur.count else 0
  {
    if cur.c != -1 && cur.count > 1 {
      if cur.cached == key {
        RunTotalAppend(cur.tokens, [RunToken(0x3F, cur.count, 3)]);
        assert [RunToken(0x3F, cur.count, 3)][..0] == [];
      } else {
        var a := Announce(palette, cur.slots, cur.cached);
        var t := RunToken(cur.c, cur.count, 3);
        AnnounceNoRuns(palette, cur.slots, cur.cached);
        RunTotalAppend(cur.tokens, a.tokens);
        RunTotalAppend(cur.tokens + a.tokens, [t]);
        assert [t][..0] == [];
      }
    }
  }

  /** The sixel columns a row paints: none for a row of one colour; for
      any other row one more than its width (the first run is counted one
      too long), less the last pixel when it differs from the one before
      it (a last run of one pixel is not written). */
  lemma RowTotal(palette: seq<nat>, key: int, plane: nat, row: seq<nat>, slots: seq<int>)
    requires IsPlane(plane) && |row| >= 1 && Indexes(palette, row) && |slots| == 257
    ensures RunTotal(Row(palette, key, plane, row, slots).tokens)
         == if Uniform(row) then 0
            else if row[|row| - 1] != row[|row| - 2] then |row|
            else |row| + 1
  {
    var start := Start(row, slots);
    assert row[..0] == [];
    ScanTally(palette, key, plane, row, 0, start);
    var cur := Scan(palette, key, plane, row, 0, start);
    TallyEnd(row, cur);
    TrailTotal(palette, key, plane, cur);
    var r := Trail(palette, key, plane, cur);
    RunTotalAppend(r.tokens, [Separator(plane)]);
    assert [Separator(plane)][..0] == [];
  }

  /** What Tally says once the whole row has been read. */
  lemma TallyEnd(row: seq<nat>, cur: Cursor)
    requires 1 <= |row| && Tally(row, |row|, cur)
    ensures RunTotal(cur.tokens) + (if cur.c != -1 && cur.count > 1 then cur.count else 0)
         == if Uniform(row) then 0
            else if row[|row| - 1] != row[|row| - 2] then |row|
            else |row| + 1
  {
    assert row[..|row|] == row;
    if !Uniform(row) {
      assert |row| >= 2;
    }
  }

  /** A row of one colour writes nothing but its separator and leaves the
      slot table as it was, even when that colour is not the key. */
  lemma UniformRow(palette: seq<nat>, key: int, plane: nat, row: seq<nat>, slots: seq<int>)
    requires IsPlane(plane) && |row| >= 1 && Indexes(palette, row) && |slots| == 257
    requires Uniform(row)
    ensures Row(palette, key, plane, row, slots) == RowOut([Separator(plane)], slots)
  {
    var start := Start(row, slots);
    assert row[..0] == [];
    ScanTally(palette, key, plane, row, 0, start);
    assert row[..|row|] == row;
    ScanSlots(palette, key, plane, row, 0, start);
  }

  /** The trailing run on a concrete row: key colour 0 for two columns
      (a run counted as three), then colour 5, not yet defined, for two.
      Colour 5 is defined and selected, but its run reuses the `?` of the
      key run before it, so its pixels are not painted on the plane. */
  lemma KeyTailUnpainted(palette: seq<nat>, slots: seq<int>)
    requires |palette| >= 18 && |slots| == 257 && slots[5] == 0
    ensures Row(palette, 0, 1, [0, 0, 5, 5], slots).tokens
         == [Repeat(0x3F, 3), Definition(palette, 5), Select(5), Literal(0x3F, 2), GraphicsReturn]
  {
    var row: seq<nat> := [0, 0, 5, 5];
    var c0 := Start(row, slots);
    var c2 := Step(palette, 0, 1, Step(palette, 0, 1, c0, 0), 0);
    assert c2 == Cursor(0, 3, -1, slots, []);
    var c3 := Step(palette, 0, 1, c2, 5);
    assert c3 == Cursor(5, 1, 0x3F, slots, [Repeat(0x3F, 3)]);
    var c4 := Step(palette, 0, 1, c3, 5);
    assert Scan(palette, 0, 1, row, 0, c0) == c4;
  }

  /** The column loop changes the slot table only by writing a run. */
  lemma {:induction false} ScanSlots(palette: seq<nat>, key: int, plane: nat, row: seq<nat>, x: nat, cur: Cursor)
    requires IsPlane(plane) && Indexes(palette, row) && x <= |row|
    requires CursorOK(palette, plane, cur)
    ensures var r := Scan(palette, key, plane, row, x, cur);
      r.tokens == cur.tokens ==> r.slots == cur.slots
    decreases |row| - x
  {
    if x < |row| {
      ScanSlots(palette, key, plane, row, x + 1, Step(palette, key, plane, cur, row[x]));
    }
  }

  /** When the row starts with k pixels of one colour, the first run
      written counts k + 1 columns. */
  lemma FirstRunCount(palette: seq<nat>, key: int, plane: nat, row: seq<nat>, slots: seq<int>, k: nat)
    requires IsPlane(plane) && |row| >= 1 && Indexes(palette, row) && |slots| == 257
    requires k < |row| && row[k] != row[0] && Uniform(row[..k])
    ensures var ts := Row(palette, key, plane, row, slots).tokens;
      exists i :: 0 <= i < |ts| && ts[i].IsRun() && ts[i].count == k + 1
        && forall j :: 0 <= j < i ==> !ts[j].IsRun()
  {
    var start := Start(row, slots);
    var cur := OpenRun(palette, key, plane, row, start, k);
    var next := Step(palette, key, plane, cur, row[k]);
    FirstFlush(palette, key, plane, cur, row[k]);
    RowExtends(palette, key, plane, row, slots, k, cur);
    FirstRunOf(Row(palette, key, plane, row, slots).tokens, next.tokens, k + 1);
  }

  /** The first break of a row writes only announcements before its run,
      and the run counts the whole open run. */
  lemma FirstFlush(palette: seq<nat>, key: int, plane: nat, cur: Cursor, colour: nat)
    requires IsPlane(plane) && CursorOK(palette, plane, cur)
    requires colour < 256 && 3 * colour + 2 < |palette|
    requires cur.tokens == [] && colour != cur.cached
    ensures var ts := Step(palette, key, plane, cur, colour).tokens;
      |ts| >= 1 && ts[|ts| - 1].IsRun() && ts[|ts| - 1].count == cur.count
      && forall j :: 0 <= j < |ts| - 1 ==> !ts[j].IsRun()
  {
  }

  /** The row's tokens begin with those of the cursor at column k, once
      it has taken pixel k. */
  lemma RowExtends(palette: seq<nat>, key: int, plane: nat, row: seq<nat>, slots: seq<int>, k: nat, cur: Cursor)
    requires IsPlane(plane) && |row| >= 1 && Indexes(palette, row) && |slots| == 257
    requires k < |row| && CursorOK(palette, plane, cur)
    requires Scan(palette, key, plane, row, 0, Start(row, slots)) == Scan(palette, key, plane, row, k, cur)
    ensures var next := Step(palette, key, plane, cur, row[k]);
      var ts := Row(palette, key, plane, row, slots).tokens;
      |ts| >= |next.tokens| && ts[..|next.tokens|] == next.tokens
  {
    var next := Step(palette, key, plane, cur, row[k]);
    var scanned := Scan(palette, key, plane, row, k + 1, next);
    var r := Trail(palette, key, plane, scanned);
    var ts := Row(palette, key, plane, row, slots).tokens;
    assert ts == r.tokens + [Separator(plane)];
    assert r.tokens[..|scanned.tokens|] == scanned.tokens;
    assert scanned.tokens[..|next.tokens|] == next.tokens;
    assert ts[..|next.tokens|] == next.tokens;
  }

  /** When a prefix of ts ends with its first run, that run is the first
      run of ts. */
  lemma FirstRunOf(ts: seq<Token>, p: seq<Token>, count: nat)
    requires |p| >= 1 && |ts| >= |p| && ts[..|p|] == p
    requires p[|p| - 1].IsRun() && p[|p| - 1].count == count
    requires forall j :: 0 <= j < |p| - 1 ==> !p[j].IsRun()
    ensures exists i :: 0 <= i < |ts| && ts[i].IsRun() && ts[i].count == count
              && forall j :: 0 <= j < i ==> !ts[j].IsRun()
  {
    var i := |p| - 1;
    assert ts[i] == p[i];
    forall j | 0 <= j < i
      ensures !ts[j].IsRun()
    {
      assert ts[j] == p[j];
    }
  }

  /** The cursor after the first k pixels of a row that starts with k
      pixels of one colour: nothing written, a run of k + 1 open. Returns
      the cursor the column loop has at column k. */
  lemma OpenRun(palette: seq<nat>, key: int, plane: nat, row: seq<nat>, start: Cursor, k: nat)
    returns (cur: Cursor)
    requires IsPlane(plane) && |row| >= 1 && Indexes(palette, row) && |start.slots| == 257
    requires start == Start(row, start.slots)
    requires k < |row| && Uniform(row[..k])
    ensures CursorOK(palette, plane, cur)
    ensures Scan(palette, key, plane, row, 0, start) == Scan(palette, key, plane, row, k, cur)
    ensures cur.tokens == [] && cur.cached == row[0] && cur.count == k + 1
    ensures cur.slots == start.slots && cur.c == -1
  {
    cur := start;
    var y := 0;
    while y < k
      invariant y <= k
      invariant CursorOK(palette, plane, cur)
      invariant Scan(palette, key, plane, row, 0, start) == Scan(palette, key, plane, row, y, cur)
      invariant cur == start.(count := y + 1)
    {
      assert row[y] == row[..k][y] == row[0];
      cur := Step(palette, key, plane, cur, row[y]);
      y := y + 1;
    }
  }

  // ---------------------------------------------------------------------
  // Which pixels each run paints

  /** The run that ends the tokens p covers the `count` columns that end at
      column RunTotal(p) - 2 (the first run of a row starts one column
      before the row, because it is counted one too long), and all of them
      have one colour. A run of the key colour is `?` and follows no
      selection; a run of any other colour follows the selection of that
      colour and, when it ends before the last column of the row, paints
      the plane bit. */
  ghost predicate Painted(key: int, plane: nat, row: seq<nat>, p: seq<Token>) {
    && |p| >= 1 && p[|p| - 1].IsRun()
    && var t, last := p[|p| - 1], RunTotal(p) - 2;
       && 0 <= last < |row|
       && (forall j :: last - t.count < j <= last && 0 <= j ==> row[j] == row[last])
       && (row[last] == key ==> t.byte == 0x3F && (|p| == 1 || p[|p| - 2].IsRun()))
       && (row[last] != key ==>
             && |p| >= 2 && p[|p| - 2] == Select(row[last])
             && (last < |row| - 1 ==> t.byte == 0x3F + plane))
  }

  /** Every run of ts is painted as it should be. */
  ghost predicate AllPainted(key: int, plane: nat, row: seq<nat>, ts: seq<Token>) {
    forall k {:trigger Through(ts, k)} :: 0 <= k < |ts| && ts[k].IsRun() ==> Painted(key, plane, row, Through(ts, k))
  }

  /** After x pixels: the runs written so far are painted as they should
      be, the last token written is a run, the runs written and the open
      run count x + 1 columns, and the columns of the open run, up to
      column x - 1, all have its colour, the colour of the last pixel. */
  ghost predicate Painting(key: int, plane: nat, row: seq<nat>, x: nat, cur: Cursor)
    requires 1 <= |row| && x <= |row|
  {
    && RunTotal(cur.tokens) + cur.count == x + 1
    && (x >= 1 ==> cur.cached == row[x - 1])
    && (x == 0 ==> cur.cached == row[0])
    && AllPainted(key, plane, row, cur.tokens)
    && (cur.tokens == [] || cur.tokens[|cur.tokens| - 1].IsRun())
    && (forall j :: x - cur.count <= j < x && 0 <= j ==> row[j] == cur.cached)
  }

  lemma AppendPlain(key: int, plane: nat, row: seq<nat>, ts: seq<Token>, more: seq<Token>)
    requires AllPainted(key, plane, row, ts)
    requires forall k :: 0 <= k < |more| ==> !more[k].IsRun()
    ensures AllPainted(key, plane, row, ts + more)
  {
    var ts' := ts + more;
    forall k | 0 <= k < |ts'| && ts'[k].IsRun()
      ensures Painted(key, plane, row, Through(ts', k))
    {
      assert k < |ts|;
      assert Through(ts', k) == Through(ts, k) && ts'[k] == ts[k];
    }
  }

  lemma AppendRun(key: int, plane: nat, row: seq<nat>, ts: seq<Token>, t: Token)
    requires AllPainted(key, plane, row, ts) && Painted(key, plane, row, ts + [t])
    ensures AllPainted(key, plane, row, ts + [t])
  {
    var ts' := ts + [t];
    forall k | 0 <= k < |ts'| && ts'[k].IsRun()
      ensures Painted(key, plane, row, Through(ts', k))
    {
      if k < |ts| {
        assert Through(ts', k) == Through(ts, k) && ts'[k] == ts[k];
      } else {
        assert Through(ts', k) == ts';
      }
    }
  }

  /** A key-colour run of `count` columns ending at column `last`, written
      right after a run or first in the row, is painted as it should be. */
  lemma KeyRunPainted(key: int, plane: nat, row: seq<nat>, ts: seq<Token>, count: nat, last: nat)
    requires last < |row| && row[last] == key && count >= 1
    requires RunTotal(ts) + count == last + 2
    requires AllPainted(key, plane, row, ts) && (ts == [] || ts[|ts| - 1].IsRun())
    requires forall j :: last - count < j <= last && 0 <= j ==> row[j] == key
    ensures AllPainted(key, plane, row, ts + [RunToken(0x3F, count, 3)])
  {
    var t := RunToken(0x3F, count, 3);
    var p := ts + [t];
    RunTotalAppend(ts, [t]);
    assert [t][..0] == [];
    assert p[|p| - 1] == t && RunTotal(p) - 2 == last;
    if ts != [] {
      assert p[|p| - 2] == ts[|ts| - 1];
    }
    AppendRun(key, plane, row, ts, t);
  }

  /** A run of `t.count` columns of one colour other than the key, ending
      at column `last` and written right after tokens that end with the
      selection of that colour, is painted as it should be when it paints
      the plane bit or ends the row. */
  lemma SelectedRunPainted(key: int, plane: nat, row: seq<nat>, ts: seq<Token>, more: seq<Token>, t: Token, last: nat)
    requires last < |row| && row[last] != key && t.IsRun()
    requires |more| >= 1 && more[|more| - 1] == Select(row[last])
    requires forall k :: 0 <= k < |more| ==> !more[k].IsRun()
    requires RunTotal(ts) + t.count == last + 2
    requires forall j :: last - t.count < j <= last && 0 <= j ==> row[j] == row[last]
    requires last < |row| - 1 ==> t.byte == 0x3F + plane
    requires AllPainted(key, plane, row, ts)
    ensures AllPainted(key, plane, row, ts + more + [t])
  {
    NoRunsTotal(more);
    RunTotalAppend(ts, more);
    RunTotalAppend(ts + more, [t]);
    assert [t][..0] == [];
    AppendPlain(key, plane, row, ts, more);
    var p := ts + more + [t];
    assert p[|p| - 1] == t && p[|p| - 2] == more[|more| - 1];
    SelectedEnd(key, plane, row, p, last);
    AppendRun(key, plane, row, ts + more, t);
  }

  lemma SelectedEnd(key: int, plane: nat, row: seq<nat>, p: seq<Token>, last: nat)
    requires |p| >= 2 && p[|p| - 1].IsRun() && RunTotal(p) == last + 2
    requires last < |row| && row[last] != key && p[|p| - 2] == Select(row[last])
    requires forall j :: last - p[|p| - 1].count < j <= last && 0 <= j ==> row[j] == row[last]
    requires last < |row| - 1 ==> p[|p| - 1].byte == 0x3F + plane
    ensures Painted(key, plane, row, p)
  {
  }

  /** The run a new colour ends is painted as it should be. */
  lemma FlushPainted(palette: seq<nat>, key: int, plane: nat, row: seq<nat>, x: nat, cur: Cursor)
    requires IsPlane(plane) && 1 <= x < |row| && CursorOK(palette, plane, cur)
    requires Painting(key, plane, row, x, cur)
    ensures var f := Flush(palette, key, plane, cur);
      AllPainted(key, plane, row, f.tokens) && f.tokens[|f.tokens| - 1].IsRun()
  {
    if cur.cached == key {
      KeyRunPainted(key, plane, row, cur.tokens, cur.count, x - 1);
    } else {
      var a := Announce(palette, cur.slots, cur.cached);
      SelectedRunPainted(key, plane, row, cur.tokens, a.tokens, RunToken(0x3F + plane, cur.count, 3), x - 1);
    }
  }

  /** The run a new colour ends is painted as it should be, and the open
      run stays one colour. */
  lemma StepPainted(palette: seq<nat>, key: int, plane: nat, row: seq<nat>, x: nat, cur: Cursor)
    requires IsPlane(plane) && Indexes(palette, row) && 1 <= |row| && x < |row|
    requires CursorOK(palette, plane, cur) && Painting(key, plane, row, x, cur)
    ensures Painting(key, plane, row, x + 1, Step(palette, key, plane, cur, row[x]))
  {
    var next := Step(palette, key, plane, cur, row[x]);
    if row[x] != cur.cached {
      var f := Flush(palette, key, plane, cur);
      FlushTotal(palette, key, plane, cur);
      FlushPainted(palette, key, plane, row, x, cur);
      assert next == f.(count := 1, cached := row[x]);
      NewRunPainting(key, plane, row, x, f.tokens, next);
    } else {
      assert next == cur.(count := cur.count + 1);
    }
  }

  lemma NewRunPainting(key: int, plane: nat, row: seq<nat>, x: nat, ts: seq<Token>, next: Cursor)
    requires x < |row| && next.tokens == ts && next.count == 1 && next.cached == row[x]
    requires RunTotal(ts) == x + 1
    requires AllPainted(key, plane, row, ts) && |ts| >= 1 && ts[|ts| - 1].IsRun()
    ensures Painting(key, plane, row, x + 1, next)
  {
  }

  lemma {:induction false} ScanPainted(palette: seq<nat>, key: int, plane: nat, row: seq<nat>, x: nat, cur: Cursor)
    requires IsPlane(plane) && Indexes(palette, row) && 1 <= |row| && x <= |row|
    requires CursorOK(palette, plane, cur) && Painting(key, plane, row, x, cur)
    ensures Painting(key, plane, row, |row|, Scan(palette, key, plane, row, x, cur))
    decreases |row| - x
  {
    if x < |row| {
      StepPainted(palette, key, plane, row, x, cur);
      ScanPainted(palette, key, plane, row, x + 1, Step(palette, key, plane, cur, row[x]));
    }
  }

  /** The trailing run, when it is written, is painted as it should be: it
      ends on the last column, so only its colour and selection are
      stated, not its byte. */
  lemma TrailPainted(palette: seq<nat>, key: int, plane: nat, row: seq<nat>, cur: Cursor)
    requires IsPlane(plane) && 1 <= |row| && CursorOK(palette, plane, cur)
    requires Painting(key, plane, row, |row|, cur)
    ensures AllPainted(key, plane, row, Trail(palette, key, plane, cur).tokens)
  {
    if cur.c != -1 && cur.count > 1 {
      if cur.cached == key {
        KeyRunPainted(key, plane, row, cur.tokens, cur.count, |row| - 1);
      } else {
        var a := Announce(palette, cur.slots, cur.cached);
        SelectedRunPainted(key, plane, row, cur.tokens, a.tokens, RunToken(cur.c, cur.count, 3), |row| - 1);
      }
    }
  }

  /** Every run of a row covers pixels of one colour; a key-colour run is
      `?` and selects nothing, any other run follows the selection of its
      colour and, when the column loop ends it, paints the plane bit. */
  lemma RowPainted(palette: seq<nat>, key: int, plane: nat, row: seq<nat>, slots: seq<int>)
    requires IsPlane(plane) && |row| >= 1 && Indexes(palette, row) && |slots| == 257
    ensures AllPainted(key, plane, row, Row(palette, key, plane, row, slots).tokens)
  {
    var start := Start(row, slots);
    ScanPainted(palette, key, plane, row, 0, start);
    var cur := Scan(palette, key, plane, row, 0, start);
    TrailPainted(palette, key, plane, row, cur);
    AppendPlain(key, plane, row, Trail(palette, key, plane, cur).tokens, [Separator(plane)]);
  }

  // ---------------------------------------------------------------------
  // The whole body

  /** Row y of the image, with pixels `row`, written as the tokens ts: it
      ends with `-` exactly when y mod 6 = 5, else with `$`, it is shaped
      for plane bit y mod 6, and every run is painted as it should be. */
  ghost predicate RowGood(key: int, row: seq<nat>, ts: seq<Token>, y: nat) {
    && |ts| >= 1
    && ts[|ts| - 1] == (if y % 6 == 5 then GraphicsNewLine else GraphicsReturn)
    && Shaped(ts, Pow2(y % 6), key)
    && AllPainted(key, Pow2(y % 6), row, ts)
  }

  /** Row y, painted on bit y mod 6, is a good row. */
  lemma RowGoodAt(palette: seq<nat>, key: int, row: seq<nat>, slots: seq<int>, y: nat)
    requires |row| >= 1 && Indexes(palette, row) && |slots| == 257
    ensures IsPlane(Pow2(y % 6)) && RowGood(key, row, Row(palette, key, Pow2(y % 6), row, slots).tokens, y)
  {
    PlaneOfRow(y);
    RowShape(palette, key, Pow2(y % 6), row, slots);
  }

  /** Good rows from row y + 1 on, after a good row y, are good rows from
      row y on. */
  lemma GoodCons(key: int, data: seq<nat>, width: nat, height: nat, ts: seq<Token>, rest: seq<seq<Token>>, y: nat)
    requires width >= 1 && |data| == width * height && y + |rest| < height
    requires RowGood(key, RowOf(data, width, height, y), ts, y)
    requires forall i :: 0 <= i < |rest| ==> RowGood(key, RowOf(data, width, height, y + 1 + i), rest[i], y + 1 + i)
    ensures forall i :: 0 <= i < |[ts] + rest| ==> RowGood(key, RowOf(data, width, height, y + i), ([ts] + rest)[i], y + i)
  {
    var r := [ts] + rest;
    forall i | 0 <= i < |r|
      ensures RowGood(key, RowOf(data, width, height, y + i), r[i], y + i)
    {
      if i > 0 {
        assert r[i] == rest[i - 1] && y + i == y + 1 + (i - 1);
      }
    }
  }

  lemma {:induction false} RowsShape(palette: seq<nat>, key: int, data: seq<nat>, width: nat, height: nat, y: nat, plane: nat, slots: seq<int>)
    requires Image(palette, data, width, height) && y <= height
    requires IsPlane(plane) && plane == Pow2(y % 6) && |slots| == 257
    ensures var r := Rows(palette, key, data, width, height, y, plane, slots).rows;
      && |r| == height - y
      && forall i :: 0 <= i < |r| ==> RowGood(key, RowOf(data, width, height, y + i), r[i], y + i)
    decreases height - y
  {
    if y < height {
      RowsStep(palette, key, data, width, height, y, plane, slots);
      var row := RowOf(data, width, height, y);
      var out := Row(palette, key, plane, row, slots);
      PlaneOfRow(y);
      RowGoodAt(palette, key, row, slots, y);
      var rest := Rows(palette, key, data, width, height, y + 1, NextPlane(plane), out.slots).rows;
      RowsShape(palette, key, data, width, height, y + 1, NextPlane(plane), out.slots);
      GoodCons(key, data, width, height, out.tokens, rest, y);
    }
  }

  /** The body has one token row per image row; row y ends with the
      graphics new line `-` exactly when y mod 6 = 5 (the sixth row of a
      band) and with `$` otherwise, paints only bit y mod 6 of its sixels,
      never selects the key colour, selects every colour it defines right
      after defining it, paints key-colour runs `?`, and paints the plane
      bit for every other run the column loop ends. */
  lemma BodyShape(palette: seq<nat>, key: int, data: seq<nat>, width: nat, height: nat, slots: seq<int>)
    requires Image(palette, data, width, height) && |slots| == 257
    ensures var r := Rows(palette, key, data, width, height, 0, 1, slots).rows;
      && |r| == height
      && forall y :: 0 <= y < height ==> RowGood(key, RowOf(data, width, height, y), r[y], y)
  {
    assert Pow2(0) == 1;
    RowsShape(palette, key, data, width, height, 0, 1, slots);
    var r := Rows(palette, key, data, width, height, 0, 1, slots).rows;
    forall y | 0 <= y < height
      ensures RowGood(key, RowOf(data, width, height, y), r[y], y)
    {
      assert 0 + y == y;
    }
  }

  lemma {:induction false} RowsKeepDefs(h: seq<Token>, palette: seq<nat>, key: int, data: seq<nat>, width: nat, height: nat, y: nat, plane: nat, slots: seq<int>)
    requires Image(palette, data, width, height) && y <= height
    requires IsPlane(plane) && |slots| == 257
    requires DefsOK(h, slots)
    ensures var r := Rows(palette, key, data, width, height, y, plane, slots);
      DefsOK(h + Flatten(r.rows), r.slots)
    decreases height - y
  {
    if y == height {
      assert h + Flatten([]) == h;
    } else {
      RowsStep(palette, key, data, width, height, y, plane, slots);
      var row := RowOf(data, width, height, y);
      var out := Row(palette, key, plane, row, slots);
      RowKeepsDefs(h, palette, key, plane, row, slots);
      var rest := Rows(palette, key, data, width, height, y + 1, NextPlane(plane), out.slots);
      RowsKeepDefs(h + out.tokens, palette, key, data, width, height, y + 1, NextPlane(plane), out.slots);
      FlattenCons(out.tokens, rest.rows);
      assert h + out.tokens + Flatten(rest.rows) == h + Flatten([out.tokens] + rest.rows);
    }
  }

  /** Over the converter's lifetime each colour is defined at most once:
      if the slot table records exactly the colours defined in everything
      written before (`h`) and none twice, the same holds after one more
      body. */
  lemma BodyKeepsDefs(h: seq<Token>, palette: seq<nat>, key: int, data: seq<nat>, width: nat, height: nat, slots: seq<int>)
    requires Image(palette, data, width, height)
    requires DefsOK(h, slots)
    ensures var out := Body(palette, key, data, width, height, slots); DefsOK(h + out.tokens, out.slots)
  {
    RowsKeepDefs(h, palette, key, data, width, height, 0, 1, slots);
  }

  /** A fresh slot table (all 257 slots 0) agrees with an empty history. */
  lemma FreshSlots()
    ensures DefsOK([], seq(257, _ => 0))
  {
  }
}
