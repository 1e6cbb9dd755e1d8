/** `SixelConverter`: an indexed picture written as one Sixel image. The
    converter wraps the body in a Device Control String (DCS ... ST,
    sections 8.3.27 and 8.3.143 of ECMA-48) behind the raster header, and
    picks one of the three body encoders from its settings. The slot table
    of the fast encoder belongs to the converter and outlives each write. */
module Converter {
  import opened Wrappers
  import opened Text
  import opened Grammar
  import opened Raster
  import opened Stream
  import Banded
  import Fast
  import Alpha

  const Esc: char := 27 as char

  /** DCS: `ESC P` in 7-bit mode, the C1 control 0x90 in 8-bit mode. */
  function Dcs(f8bit: bool): (s: string)
    ensures |s| >= 1 && (f8bit <==> s == [0x90 as char])
  {
    if f8bit then [0x90 as char] else [Esc, 'P']
  }

  /** ST: `ESC \` in 7-bit mode, the C1 control 0x9C in 8-bit mode. */
  function St(f8bit: bool): (s: string)
    ensures |s| >= 1 && (f8bit <==> s == [0x9C as char])
  {
    if f8bit then [0x9C as char] else [Esc, '\\']
  }

  /** More than 256 colours are never asked of the quantiser. */
  function Clamp(ncolor: nat): (n: nat)
    ensures n <= 256 && (ncolor <= 256 ==> n == ncolor) && (ncolor >= 256 ==> n == 256)
  {
    if ncolor >= 256 then 256 else ncolor
  }

  /** The fixed start of the header: aspect ratio 7 (1:1), then the
      background option and a dummy 75 dpi. */
  const HeaderLead: string := "7;"
  const HeaderMid: string := ";75q\"1;1;"

  /** The parameters after DCS: `7;B;75q` with background option B = 2
      when the key colour is transparent and 1 otherwise, then the raster
      attributes `"1;1;W;H`. */
  function Header(chromakey: bool, width: nat, height: nat): string {
    HeaderLead + (if chromakey then "2" else "1") + HeaderMid + Decimal(width) + ";" + Decimal(height)
  }

  /** The position of the first `;` in s, or |s| when there is none. */
  function FirstSemicolon(s: string): (k: nat)
    ensures k <= |s| && (k < |s| ==> s[k] == ';')
    ensures forall j :: 0 <= j < k ==> s[j] != ';'
  {
    if |s| == 0 then 0 else if s[0] == ';' then 0 else 1 + FirstSemicolon(s[1..])
  }

  datatype RasterInfo = RasterInfo(chromakey: bool, width: nat, height: nat)

  /** What a reader takes from the header: the background option and the
      raster size. */
  function ParseHeader(s: string): Option<RasterInfo> {
    if |s| >= 12 && s[..2] == HeaderLead && (s[2] == '1' || s[2] == '2') && s[3..12] == HeaderMid then
      var rest := s[12..];
      var k := FirstSemicolon(rest);
      if k < |rest| && AllDigits(rest[..k]) && AllDigits(rest[k + 1..])
      then Some(RasterInfo(s[2] == '2', ParseDecimal(rest[..k]), ParseDecimal(rest[k + 1..])))
      else None
    else None
  }

  /** The header gives back the background option and the raster size it
      was written with. */
  lemma HeaderRoundTrip(chromakey: bool, width: nat, height: nat)
    ensures ParseHeader(Header(chromakey, width, height)) == Some(RasterInfo(chromakey, width, height))
  {
    var s := Header(chromakey, width, height);
    var rest := Decimal(width) + ";" + Decimal(height);
    assert s == HeaderLead + (if chromakey then "2" else "1") + HeaderMid + rest;
    assert s[..2] == HeaderLead && s[3..12] == HeaderMid && s[12..] == rest;
    SizeSplit(width, height);
    DecimalRoundTrip(width);
    DecimalRoundTrip(height);
  }

  /** The raster size `W;H` splits at its first `;` into W and H. */
  lemma SizeSplit(width: nat, height: nat)
    ensures var w, rest := Decimal(width), Decimal(width) + ";" + Decimal(height);
      && FirstSemicolon(rest) == |w| < |rest|
      && rest[..|w|] == w && rest[|w| + 1..] == Decimal(height)
  {
    var w := Decimal(width);
    var rest := w + ";" + Decimal(height);
    assert forall j :: 0 <= j < |w| ==> rest[j] == w[j] && rest[j] != ';';
    FirstSemicolonAt(rest, |w|);
    assert rest[..|w|] == w && rest[|w| + 1..] == Decimal(height);
  }

  lemma FirstSemicolonAt(s: string, k: nat)
    requires k < |s| && s[k] == ';' && forall j :: 0 <= j < k ==> s[j] != ';'
    ensures FirstSemicolon(s) == k
  {
  }

  /** The picture as the image library hands it over: a flat RGB palette,
      one palette index per pixel in row-major order, and the alpha
      channel of each pixel. */
  datatype Picture = Picture(palette: seq<nat>, data: seq<nat>, alphas: seq<nat>, width: nat, height: nat)

  /** A picture quantised to at most ncolor colours: at least one pixel,
      one index and one alpha per pixel, every index below ncolor, and a
      palette with a red, green and blue channel (each below 256) for
      each of the ncolor colours. */
  predicate Quantised(p: Picture, ncolor: nat) {
    && p.width >= 1 && p.height >= 1
    && |p.data| == p.width * p.height && |p.alphas| == |p.data|
    && ncolor <= 256 && 3 * ncolor <= |p.palette|
    && (forall k :: 0 <= k < |p.palette| ==> p.palette[k] < 256)
    && (forall k :: 0 <= k < |p.data| ==> p.data[k] < ncolor)
  }

  lemma QuantisedIndexes(p: Picture, ncolor: nat)
    requires Quantised(p, ncolor)
    ensures Image(p.palette, p.data, p.width, p.height)
  {
    forall k | 0 <= k < |p.data|
      ensures p.data[k] < 256 && 3 * p.data[k] + 2 < |p.palette|
    {
      assert p.data[k] < ncolor;
    }
  }

  /** Writes the text of some tokens in one `write` call, and records them
      in the ghost trace `ws` of what has been written since `start`. */
  method Emit(output: Output, ts: seq<Token>, ghost start: string, ghost ws: seq<Token>) returns (ghost ws': seq<Token>)
    requires output.text == start + Render(ws)
    modifies output
    ensures ws' == ws + ts && output.text == start + Render(ws')
  {
    output.Write(Render(ts));
    RenderAppend(ws, ts);
    ws' := ws + ts;
  }

  /** The end of an alpha-threshold row: `$`, then `-` in a write of its
      own after plane 32. */
  method EmitSeparators(output: Output, n: nat, ghost start: string, ghost ws: seq<Token>) returns (ghost ws': seq<Token>)
    requires output.text == start + Render(ws)
    modifies output
    ensures ws' == ws + Alpha.Separators(n) && output.text == start + Render(ws')
  {
    ws' := Emit(output, [GraphicsReturn], start, ws);
    if n == 32 {
      ws' := Emit(output, [GraphicsNewLine], start, ws');
      assert ws + [GraphicsReturn] + [GraphicsNewLine] == ws + [GraphicsReturn, GraphicsNewLine];
    }
  }

  /** The text of the rows written so far and of one more row is the text
      of all of them. */
  lemma RenderRows(rows: seq<seq<Token>>, ts: seq<Token>)
    ensures Render(Flatten(rows)) + Render(ts) == Render(Flatten(rows + [ts]))
  {
    RenderAppend(Flatten(rows), ts);
    FlattenSnoc(rows, ts);
  }

  /** One more piece written: what was done, then the piece, is still a
      prefix of the whole, and the output holds the text of both. */
  lemma Advance(done: seq<Token>, ts: seq<Token>, rest: seq<Token>, all: seq<Token>, start: string, text: string)
    requires done + (ts + rest) == all && text == start + Render(done) + Render(ts)
    ensures (done + ts) + rest == all && text == start + Render(done + ts)
  {
    assert (done + ts) + rest == all by {
      assert (done + ts) + rest == done + (ts + rest);
    }
    assert text == start + Render(done + ts) by {
      RenderAppend(done, ts);
    }
  }

  /** The same for a whole row of tokens. */
  lemma AdvanceRow(done: seq<seq<Token>>, ts: seq<Token>, rest: seq<seq<Token>>, all: seq<seq<Token>>, start: string, text: string)
    requires done + ([ts] + rest) == all && text == start + Render(Flatten(done)) + Render(ts)
    ensures (done + [ts]) + rest == all && text == start + Render(Flatten(done + [ts]))
  {
    assert (done + [ts]) + rest == all by {
      assert (done + [ts]) + rest == done + ([ts] + rest);
    }
    assert text == start + Render(Flatten(done + [ts])) by {
      RenderRows(done, ts);
    }
  }

  /** The key colour: the first pixel's index with chromakey, else -1,
      which is no index. */
  function Key(p: Picture, chromakey: bool): (key: int)
    requires |p.data| >= 1
    ensures key == -1 || (chromakey && key == p.data[0])
    ensures key >= 0 ==> chromakey
  {
    if chromakey then p.data[0] else -1
  }

  /** The body of a picture given the slot table: threshold 0 picks the
      fast or the size-priority encoder by `fast`, any other threshold the
      alpha encoder. */
  function Body(p: Picture, ncolor: nat, alphaThreshold: int, chromakey: bool, fast: bool, s: seq<int>): seq<Token>
    requires Quantised(p, ncolor) && |s| == 257
  {
    QuantisedIndexes(p, ncolor);
    if alphaThreshold == 0 then
      if fast then Fast.Body(p.palette, Key(p, chromakey), p.data, p.width, p.height, s).tokens
      else Banded.Definitions(p.palette, ncolor) + Banded.Bands(p.data, p.width, p.height, ncolor, 0)
    else Alpha.Body(Key(p, chromakey), alphaThreshold, p.data, p.alphas, p.width, p.height)
  }

  /** What the first `write` of a fresh converter appends: the header unless
      only the body is asked for, then, unless the threshold is negative,
      the body with an empty slot table and ST. */
  function FirstWrite(p: Picture, f8bit: bool, ncolor: nat, alphaThreshold: int, chromakey: bool, fast: bool,
                      bodyOnly: bool): string
    requires Quantised(p, Clamp(ncolor))
  {
    var opening := if bodyOnly then "" else Dcs(f8bit) + Header(chromakey, p.width, p.height);
    if alphaThreshold < 0 then opening
    else opening + Render(Body(p, Clamp(ncolor), alphaThreshold, chromakey, fast, seq(257, _ => 0)))
         + (if bodyOnly then "" else St(f8bit))
  }

  class SixelConverter {
    const picture: Picture
    const ncolor: nat
    const alphaThreshold: int
    const chromakey: bool
    const fast: bool
    const dcs: string
    const st: string
    /** The alpha channel, loaded only when the threshold is positive. */
    const rawdata: Option<seq<nat>>
    /** `_slots`: slot n becomes 1 once the fast encoder has defined
        colour n; 257 slots, all 0 at construction. */
    const slots: array<int>
    /** Every body token this converter has written, over all writes. */
    ghost var history: seq<Token>

    /** The fast encoder is the one in use. */
    predicate FastMode() {
      alphaThreshold == 0 && fast
    }

    ghost predicate Valid()
      reads this, slots
    {
      && Quantised(picture, ncolor)
      && rawdata == (if alphaThreshold > 0 then Some(picture.alphas) else None)
      && slots.Length == 257
      && (FastMode() ==> Fast.DefsOK(history, slots[..]))
    }

    constructor (picture: Picture, f8bit: bool, ncolor: nat, alphaThreshold: int, chromakey: bool, fast: bool)
      requires Quantised(picture, Clamp(ncolor))
      ensures Valid() && fresh(slots) && history == []
      ensures this.picture == picture && this.ncolor == Clamp(ncolor)
      ensures this.alphaThreshold == alphaThreshold && this.chromakey == chromakey && this.fast == fast
      ensures dcs == Dcs(f8bit) && st == St(f8bit)
      ensures rawdata == if alphaThreshold > 0 then Some(picture.alphas) else None
      ensures slots[..] == seq(257, _ => 0)
    {
      this.alphaThreshold := alphaThreshold;
      this.chromakey := chromakey;
      this.slots := new int[257](_ => 0);
      this.fast := fast;
      this.ncolor := Clamp(ncolor);
      this.dcs := Dcs(f8bit);
      this.st := St(f8bit);
      this.picture := picture;
      this.rawdata := if alphaThreshold > 0 then Some(picture.alphas) else None;
      this.history := [];
      new;
      assert slots[..] == seq(257, _ => 0);
      Fast.FreshSlots();
    }

    /** The body the converter writes given its slot table. */
    function BodyTokens(s: seq<int>): seq<Token>
      requires Quantised(picture, ncolor) && |s| == 257
    {
      Body(picture, ncolor, alphaThreshold, chromakey, fast, s)
    }

    /** The slot table after one body: the fast encoder marks the colours
        it defines, the other encoders leave the table alone. */
    function SlotsAfter(s: seq<int>): (r: seq<int>)
      requires Quantised(picture, ncolor) && |s| == 257
      ensures |r| == 257
      ensures !FastMode() ==> r == s
    {
      QuantisedIndexes(picture, ncolor);
      var p := picture;
      if FastMode() then Fast.Body(p.palette, Key(p, chromakey), p.data, p.width, p.height, s).slots else s
    }

    /** The header, written unless only the body is asked for. */
    function Opening(bodyOnly: bool): string {
      if bodyOnly then "" else dcs + Header(chromakey, picture.width, picture.height)
    }

    function Closing(bodyOnly: bool): string {
      if bodyOnly then "" else st
    }

    /** `write`: the header, the body and ST; with `bodyOnly` the same body
        alone. A negative threshold selects the alpha encoder, which then
        finds no alpha channel and fails after the header: no body, no ST.
        Only the fast encoder changes the slot table. */
    method Write(output: Output, bodyOnly: bool) returns (ok: bool)
      requires Valid()
      modifies output, this, slots
      ensures Valid()
      ensures ok <==> alphaThreshold >= 0
      ensures ok ==> output.text == old(output.text) + Opening(bodyOnly)
                                    + Render(BodyTokens(old(slots[..]))) + Closing(bodyOnly)
      ensures ok ==> history == old(history) + BodyTokens(old(slots[..]))
      ensures !ok ==> output.text == old(output.text) + Opening(bodyOnly) && history == old(history)
      ensures slots[..] == SlotsAfter(old(slots[..]))
    {
      if !bodyOnly {
        output.Write(dcs);
        output.Write(Header(chromakey, picture.width, picture.height));
      }
      assert output.text == old(output.text) + Opening(bodyOnly);
      ghost var start := output.text;
      ok := WriteBody(output);
      if ok && !bodyOnly {
        output.Write(st);
      }
      assert ok ==> output.text == start + Render(BodyTokens(old(slots[..]))) + Closing(bodyOnly);
    }

    /** The dispatch: threshold 0 picks the fast or the size-priority
        encoder by `fast`, any other threshold the alpha encoder. */
    method WriteBody(output: Output) returns (ok: bool)
      requires Valid()
      modifies output, this, slots
      ensures Valid()
      ensures ok <==> alphaThreshold >= 0
      ensures ok ==> output.text == old(output.text) + Render(BodyTokens(old(slots[..])))
      ensures ok ==> history == old(history) + BodyTokens(old(slots[..]))
      ensures !ok ==> output.text == old(output.text) && history == old(history)
      ensures slots[..] == SlotsAfter(old(slots[..]))
    {
      QuantisedIndexes(picture, ncolor);
      var key := Key(picture, chromakey);
      ghost var before := slots[..];
      if alphaThreshold == 0 {
        if fast {
          WriteFast(output, key);
          Fast.BodyKeepsDefs(history, picture.palette, key, picture.data, picture.width, picture.height, before);
        } else {
          WriteBanded(output);
        }
      } else {
        if rawdata.None? {
          return false;
        }
        WriteAlpha(output, key, rawdata.value);
      }
      history := history + BodyTokens(before);
      ok := true;
    }

    /** Size-priority mode: every definition, then the bands at rows 0,
        6, 12, ... */
    method WriteBanded(output: Output)
      requires Quantised(picture, ncolor)
      modifies output
      ensures output.text == old(output.text)
        + Render(Banded.Definitions(picture.palette, ncolor) + Banded.Bands(picture.data, picture.width, picture.height, ncolor, 0))
    {
      WriteDefinitions(output);
      WriteBands(output);
      RenderAppend(Banded.Definitions(picture.palette, ncolor), Banded.Bands(picture.data, picture.width, picture.height, ncolor, 0));
    }

    /** The bands of size-priority mode, at rows 0, 6, 12, ... */
    method WriteBands(output: Output)
      requires Quantised(picture, ncolor)
      modifies output
      ensures output.text == old(output.text) + Render(Banded.Bands(picture.data, picture.width, picture.height, ncolor, 0))
    {
      var data, width, height := picture.data, picture.width, picture.height;
      ghost var start := output.text;
      ghost var ws: seq<Token> := [];
      var y := 0;
      while y < height
        invariant y < height + 6 && output.text == start + Render(ws)
        invariant ws + Banded.Bands(data, width, height, ncolor, y) == Banded.Bands(data, width, height, ncolor, 0)
        decreases height + 6 - y
      {
        ws := WriteBandsStep(output, y, start, ws);
        y := y + 6;
      }
      assert Banded.Bands(data, width, height, ncolor, y) == [];
      assert ws + [] == ws;
    }

    /** The band whose top row is y, with what it does to the fold. */
    method WriteBandsStep(output: Output, y: nat, ghost start: string, ghost ws: seq<Token>)
      returns (ghost ws': seq<Token>)
      requires Quantised(picture, ncolor) && y < picture.height
      requires ws + Banded.Bands(picture.data, picture.width, picture.height, ncolor, y)
               == Banded.Bands(picture.data, picture.width, picture.height, ncolor, 0)
      requires output.text == start + Render(ws)
      modifies output
      ensures ws' + Banded.Bands(picture.data, picture.width, picture.height, ncolor, y + 6)
              == Banded.Bands(picture.data, picture.width, picture.height, ncolor, 0)
      ensures output.text == start + Render(ws')
    {
      var data, width, height := picture.data, picture.width, picture.height;
      Banded.BandsStep(data, width, height, ncolor, y);
      var b := Banded.Band(data, width, y, Banded.BandHeight(height, y), ncolor);
      ghost var bt := Banded.BandTokens(b);
      WriteBand(output, b);
      Advance(ws, bt, Banded.Bands(data, width, height, ncolor, y + 6), Banded.Bands(data, width, height, ncolor, 0), start, output.text);
      ws' := ws + bt;
    }

    /** `#n;2;R;G;B\n` for every colour n below ncolor, in order. */
    method WriteDefinitions(output: Output)
      requires 3 * ncolor <= |picture.palette|
      modifies output
      ensures output.text == old(output.text) + Render(Banded.Definitions(picture.palette, ncolor))
    {
      ghost var start := output.text;
      ghost var ws: seq<Token> := [];
      var n := 0;
      while n < ncolor
        invariant n <= ncolor && ws == Banded.Definitions(picture.palette, n)
        invariant output.text == start + Render(ws)
      {
        ws := Emit(output, [Definition(picture.palette, n), LineFeed], start, ws);
        n := n + 1;
      }
    }

    /** One band: `add_node` from the band's first pixel, then the block of
        each colour in buffer order, then `-\n`. */
    method WriteBand(output: Output, b: Banded.Band)
      requires b.Valid()
      modifies output
      ensures output.text == old(output.text) + Render(Banded.BandTokens(b))
    {
      var seen, buf := AddNode(b, b.data[b.top * b.width], 0, {}, []);
      assert buf == Banded.BandLists(b);
      Banded.BandListsBounded(b);
      ghost var start := output.text;
      WriteBlocks(output, buf);
      ghost var ws := Emit(output, [GraphicsNewLine, LineFeed], start, Banded.Blocks(buf));
    }

    /** The block of each colour list, in buffer order: `#n\n`, the runs,
        `$\n`. */
    method WriteBlocks(output: Output, buf: seq<Banded.ColourRuns>)
      requires forall k :: 0 <= k < |buf| ==> Banded.MasksBelow(buf[k].runs, 64)
      modifies output
      ensures output.text == old(output.text) + Render(Banded.Blocks(buf))
    {
      ghost var start := output.text;
      ghost var ws: seq<Token> := [];
      var k := 0;
      while k < |buf|
        invariant k <= |buf| && output.text == start + Render(ws)
        invariant ws == Banded.Blocks(buf[..k])
      {
        ws := WriteBlock(output, buf[k], start, ws);
        assert buf[..k + 1][..k] == buf[..k];
        k := k + 1;
      }
      assert buf[..|buf|] == buf;
    }

    /** The block of one colour list. */
    method WriteBlock(output: Output, e: Banded.ColourRuns, ghost start: string, ghost ws: seq<Token>)
      returns (ghost ws': seq<Token>)
      requires Banded.MasksBelow(e.runs, 64) && output.text == start + Render(ws)
      modifies output
      ensures ws' == ws + Banded.ColourBlock(e) && output.text == start + Render(ws')
    {
      var head, tail := [Select(e.colour), LineFeed], [GraphicsReturn, LineFeed];
      ghost var runs := Banded.RunTokens(e.runs);
      assert Banded.ColourBlock(e) == head + runs + tail;
      ws' := Emit(output, head, start, ws);
      ws' := WriteRuns(output, e.runs, start, ws');
      ws' := Emit(output, tail, start, ws');
      assert ws' == ws + (head + runs + tail);
    }

    /** The runs of one colour block, each literal when shorter than 4. */
    method WriteRuns(output: Output, runs: seq<Banded.Run>, ghost start: string, ghost ws: seq<Token>)
      returns (ghost ws': seq<Token>)
      requires Banded.MasksBelow(runs, 64) && output.text == start + Render(ws)
      modifies output
      ensures ws' == ws + Banded.RunTokens(runs) && output.text == start + Render(ws')
    {
      ws' := ws;
      var j := 0;
      while j < |runs|
        invariant j <= |runs| && output.text == start + Render(ws')
        invariant ws' == ws + Banded.RunTokens(runs[..j])
      {
        ws' := Emit(output, [RunToken(0x3F + runs[j].six, runs[j].count, 4)], start, ws');
        RunTokensSnoc(runs, j);
        j := j + 1;
      }
      assert runs[..|runs|] == runs;
    }

    lemma RunTokensSnoc(runs: seq<Banded.Run>, j: nat)
      requires j < |runs| && Banded.MasksBelow(runs, 64)
      ensures Banded.MasksBelow(runs[..j], 64) && Banded.MasksBelow(runs[..j + 1], 64)
      ensures Banded.RunTokens(runs[..j + 1])
           == Banded.RunTokens(runs[..j]) + [RunToken(0x3F + runs[j].six, runs[j].count, 4)]
    {
      assert runs[..j + 1][..j] == runs[..j];
    }

    /** `add_node(n, s)`: scans columns s .. width-1 of the band for colour
        n, first scanning every colour it meets for the first time, and
        appends n's run list to the buffer. */
    method AddNode(b: Banded.Band, n: nat, s: nat, seen: set<nat>, lists: seq<Banded.ColourRuns>)
      returns (seen': set<nat>, lists': seq<Banded.ColourRuns>)
      requires b.Valid() && s < b.width && seen <= b.Colours()
      ensures Banded.Discovery(seen', lists') == Banded.AddNodeF(b, n, s, seen, lists)
      decreases b.Colours() - seen, 1
    {
      var nodes: seq<Banded.Run> := [];
      var cache: nat := 0;
      var count: nat := 0;
      if s > 0 {
        nodes := nodes + [Banded.Run(0, s)];
      }
      seen', lists' := seen, lists;
      assert Banded.RunScan(cache, count, nodes) == Banded.StartScan(s);
      var x := s;
      while x < b.width
        invariant s <= x <= b.width && seen <= seen' <= b.Colours()
        invariant Banded.Columns(b, n, x, 0, seen', lists', Banded.RunScan(cache, count, nodes), 0)
               == Banded.AddNodeF(b, n, s, seen, lists)
      {
        count := count + 1;
        var six: nat := 0;
        var i := 0;
        while i < b.rows
          invariant i <= b.rows && seen <= seen' <= b.Colours() && count >= 1
          invariant Banded.Columns(b, n, x, i, seen', lists', Banded.RunScan(cache, count - 1, nodes), six)
                 == Banded.AddNodeF(b, n, s, seen, lists)
        {
          var d := b.Pixel(i, x);
          if d == n {
            six := six + Pow2(i);
          } else if d !in seen' {
            seen' := seen' + {d};
            seen', lists' := AddNode(b, d, x, seen', lists');
          }
          i := i + 1;
        }
        if six != cache {
          nodes := nodes + [Banded.Run(cache, count)];
          count := 0;
          cache := six;
        }
        x := x + 1;
      }
      if cache != 0 {
        nodes := nodes + [Banded.Run(cache, count)];
      }
      lists' := lists' + [Banded.ColourRuns(n, nodes)];
    }

    /** Fast mode: one row after the other, the plane bit doubling after
        each row and going back to 1 after 32. */
    method WriteFast(output: Output, key: int)
      requires slots.Length == 257
      requires Image(picture.palette, picture.data, picture.width, picture.height)
      modifies output, slots
      ensures var out := Fast.Body(picture.palette, key, picture.data, picture.width, picture.height, old(slots[..]));
        output.text == old(output.text) + Render(out.tokens) && slots[..] == out.slots
    {
      ghost var start := output.text;
      ghost var target := Fast.Rows(picture.palette, key, picture.data, picture.width, picture.height, 0, 1, slots[..]);
      ghost var done: seq<seq<Token>> := [];
      var n: nat := 1;
      var y := 0;
      while y < picture.height
        invariant y <= picture.height && IsPlane(n) && |slots[..]| == 257
        invariant FastDone(key, y, n, slots[..], done, target)
        invariant output.text == start + Render(Flatten(done))
        decreases picture.height - y
      {
        done := WriteFastStep(output, key, n, y, start, done, target);
        if n == 32 {
          n := 1;
        } else {
          n := n * 2;
        }
        y := y + 1;
      }
      assert done + [] == done;
    }

    /** The rows done so far, then the rest of the rows from y on plane n
        with the current slots, make up the whole body. */
    ghost predicate FastDone(key: int, y: nat, n: nat, s: seq<int>, done: seq<seq<Token>>, target: Fast.Lines)
      requires Image(picture.palette, picture.data, picture.width, picture.height)
      requires y <= picture.height && IsPlane(n) && |s| == 257
    {
      var rest := Fast.Rows(picture.palette, key, picture.data, picture.width, picture.height, y, n, s);
      done + rest.rows == target.rows && rest.slots == target.slots
    }

    /** Row y of the fast-mode loop, with what it does to the fold. */
    method WriteFastStep(output: Output, key: int, n: nat, y: nat, ghost start: string,
                         ghost done: seq<seq<Token>>, ghost target: Fast.Lines)
      returns (ghost done': seq<seq<Token>>)
      requires slots.Length == 257 && IsPlane(n)
      requires Image(picture.palette, picture.data, picture.width, picture.height) && y < picture.height
      requires FastDone(key, y, n, slots[..], done, target)
      requires output.text == start + Render(Flatten(done))
      modifies output, slots
      ensures FastDone(key, y + 1, NextPlane(n), slots[..], done', target)
      ensures output.text == start + Render(Flatten(done'))
    {
      var palette, data, width, height := picture.palette, picture.data, picture.width, picture.height;
      Fast.RowsStep(palette, key, data, width, height, y, n, slots[..]);
      ghost var out := Fast.Row(palette, key, n, RowOf(data, width, height, y), slots[..]);
      ghost var rest := Fast.Rows(palette, key, data, width, height, y + 1, NextPlane(n), out.slots);
      WriteFastRow(output, key, n, y);
      AdvanceRow(done, out.tokens, rest.rows, target.rows, start, output.text);
      done' := done + [out.tokens];
    }

    /** One row of fast mode, painted on plane bit n: the column loop,
        the trailing run, and `-` or `$`. */
    method WriteFastRow(output: Output, key: int, n: nat, y: nat)
      requires slots.Length == 257 && IsPlane(n)
      requires Image(picture.palette, picture.data, picture.width, picture.height) && y < picture.height
      requires Indexes(picture.palette, RowOf(picture.data, picture.width, picture.height, y))
      modifies output, slots
      ensures var out := Fast.Row(picture.palette, key, n, RowOf(picture.data, picture.width, picture.height, y), old(slots[..]));
        output.text == old(output.text) + Render(out.tokens) && slots[..] == out.slots
    {
      ghost var start := output.text;
      var cachedNo, count, c, cur := ScanFastRow(output, key, n, y);
      if c != -1 && count > 1 {
        ghost var ws := cur.tokens;
        if cachedNo == key {
          c := 0x3F;
        } else {
          ws := Announce(output, cachedNo, start, ws);
        }
        ws := Emit(output, [RunToken(c, count, 3)], start, ws);
        cur := Fast.Trail(picture.palette, key, n, cur);
      }
      ghost var ws := Emit(output, [if n == 32 then GraphicsNewLine else GraphicsReturn], start, cur.tokens);
    }

    /** The column loop of one fast-mode row. */
    method ScanFastRow(output: Output, key: int, n: nat, y: nat)
      returns (cachedNo: nat, count: nat, c: int, ghost cur: Fast.Cursor)
      requires slots.Length == 257 && IsPlane(n)
      requires Image(picture.palette, picture.data, picture.width, picture.height) && y < picture.height
      requires Indexes(picture.palette, RowOf(picture.data, picture.width, picture.height, y))
      modifies output, slots
      ensures var row := RowOf(picture.data, picture.width, picture.height, y);
        cur == Fast.Scan(picture.palette, key, n, row, 0, Fast.Start(row, old(slots[..])))
      ensures cur.cached == cachedNo && cur.count == count && cur.c == c && cur.slots == slots[..]
      ensures Fast.CursorOK(picture.palette, n, cur)
      ensures output.text == old(output.text) + Render(cur.tokens)
    {
      var palette, data, width := picture.palette, picture.data, picture.width;
      RowFits(width, picture.height, y);
      ghost var row := RowOf(data, width, picture.height, y);
      var p := y * width;
      cachedNo := data[p];
      count := 1;
      c := -1;
      ghost var start := output.text;
      cur := Fast.Start(row, slots[..]);
      ghost var target := Fast.Scan(palette, key, n, row, 0, cur);
      var x := 0;
      while x < width
        invariant x <= width && Fast.CursorOK(palette, n, cur)
        invariant cur.cached == cachedNo && cur.count == count && cur.c == c && cur.slots == slots[..]
        invariant Fast.Scan(palette, key, n, row, x, cur) == target
        invariant output.text == start + Render(cur.tokens)
      {
        var colorNo := data[p + x];
        assert colorNo == row[x];
        cachedNo, count, c, cur := FastColumn(output, key, n, colorNo, cachedNo, count, c, cur, start);
        x := x + 1;
      }
    }

    /** One column of the fast-mode loop: the run of `cachedNo` grows by
        one, or it is written and a run of `colorNo` starts. */
    method FastColumn(output: Output, key: int, n: nat, colorNo: nat, cachedNo: nat, count: nat, c: int,
                      ghost cur: Fast.Cursor, ghost start: string)
      returns (cachedNo': nat, count': nat, c': int, ghost cur': Fast.Cursor)
      requires slots.Length == 257 && IsPlane(n) && Fast.CursorOK(picture.palette, n, cur)
      requires colorNo < 256 && 3 * colorNo + 2 < |picture.palette|
      requires cur.cached == cachedNo && cur.count == count && cur.c == c && cur.slots == slots[..]
      requires output.text == start + Render(cur.tokens)
      modifies output, slots
      ensures cur' == Fast.Step(picture.palette, key, n, cur, colorNo)
      ensures cur'.cached == cachedNo' && cur'.count == count' && cur'.c == c' && cur'.slots == slots[..]
      ensures output.text == start + Render(cur'.tokens)
    {
      cur' := Fast.Step(picture.palette, key, n, cur, colorNo);
      c' := c;
      if colorNo == cachedNo {
        count' := count + 1;
      } else {
        c' := FlushRun(output, key, n, cachedNo, count, cur, start);
        count' := 1;
      }
      cachedNo' := colorNo;
    }

    /** A colour change in fast mode: the run of `cur.cached` is written,
        behind its selection unless it is the key colour. Returns the byte
        it was painted with. */
    method FlushRun(output: Output, key: int, n: nat, cachedNo: nat, count: nat, ghost cur: Fast.Cursor, ghost start: string)
      returns (c: int)
      requires slots.Length == 257 && IsPlane(n) && Fast.CursorOK(picture.palette, n, cur)
      requires cur.cached == cachedNo && cur.count == count
      requires cur.slots == slots[..] && output.text == start + Render(cur.tokens)
      modifies output, slots
      ensures var r := Fast.Flush(picture.palette, key, n, cur);
        c == r.c && slots[..] == r.slots && output.text == start + Render(r.tokens)
    {
      ghost var ws := cur.tokens;
      if cachedNo == key {
        c := 0x3F;
      } else {
        c := 0x3F + n;
        ws := Announce(output, cachedNo, start, ws);
      }
      ws := Emit(output, [RunToken(c, count, 3)], start, ws);
    }

    /** `#n`, behind the definition of n when slot n is still 0. */
    method Announce(output: Output, n: nat, ghost start: string, ghost ws: seq<Token>) returns (ghost ws': seq<Token>)
      requires slots.Length == 257 && n < 256 && 3 * n + 2 < |picture.palette|
      requires output.text == start + Render(ws)
      modifies output, slots
      ensures var a := Fast.Announce(picture.palette, old(slots[..]), n);
        ws' == ws + a.tokens && slots[..] == a.slots && output.text == start + Render(ws')
    {
      ws' := ws;
      if slots[n] == 0 {
        slots[n] := 1;
        ws' := Emit(output, [Definition(picture.palette, n)], start, ws');
      }
      ws' := Emit(output, [Select(n)], start, ws');
    }

    /** Alpha-threshold mode, with the alpha channel `alphas`. */
    method WriteAlpha(output: Output, key: int, alphas: seq<nat>)
      requires picture.width >= 1 && |picture.data| == picture.width * picture.height && |alphas| == |picture.data|
      modifies output
      ensures output.text == old(output.text)
        + Render(Alpha.Body(key, alphaThreshold, picture.data, alphas, picture.width, picture.height))
    {
      var data, width, height := picture.data, picture.width, picture.height;
      ghost var start := output.text;
      ghost var done: seq<seq<Token>> := [];
      var n: nat := 1;
      var y := 0;
      while y < height
        invariant y <= height && IsPlane(n)
        invariant AlphaDone(key, alphas, y, n, done)
        invariant output.text == start + Render(Flatten(done))
        decreases height - y
      {
        done := WriteAlphaStep(output, key, alphas, n, y, start, done);
        if n == 32 {
          n := 1;
        } else {
          n := n * 2;
        }
        y := y + 1;
      }
      assert done + [] == done;
    }

    /** The rows done so far, then the rest of the rows from y on plane n,
        make up the whole body. */
    ghost predicate AlphaDone(key: int, alphas: seq<nat>, y: nat, n: nat, done: seq<seq<Token>>)
      requires picture.width >= 1 && |picture.data| == picture.width * picture.height && |alphas| == |picture.data|
      requires y <= picture.height && IsPlane(n)
    {
      done + Alpha.Rows(key, alphaThreshold, picture.data, alphas, picture.width, picture.height, y, n)
      == Alpha.Rows(key, alphaThreshold, picture.data, alphas, picture.width, picture.height, 0, 1)
    }

    /** Row y of the alpha-threshold loop, with what it does to the fold. */
    method WriteAlphaStep(output: Output, key: int, alphas: seq<nat>, n: nat, y: nat, ghost start: string,
                          ghost done: seq<seq<Token>>)
      returns (ghost done': seq<seq<Token>>)
      requires picture.width >= 1 && |picture.data| == picture.width * picture.height && |alphas| == |picture.data|
      requires IsPlane(n) && y < picture.height
      requires AlphaDone(key, alphas, y, n, done)
      requires output.text == start + Render(Flatten(done))
      modifies output
      ensures AlphaDone(key, alphas, y + 1, NextPlane(n), done')
      ensures output.text == start + Render(Flatten(done'))
    {
      var data, width, height := picture.data, picture.width, picture.height;
      ghost var rowTokens := Alpha.Row(key, alphaThreshold, n, RowOf(data, width, height, y), RowOf(alphas, width, height, y));
      WriteAlphaRow(output, key, alphas, n, y);
      Alpha.RowsStep(key, alphaThreshold, data, alphas, width, height, y, n);
      AdvanceRow(done, rowTokens, Alpha.Rows(key, alphaThreshold, data, alphas, width, height, y + 1, NextPlane(n)),
                 Alpha.Rows(key, alphaThreshold, data, alphas, width, height, 0, 1), start, output.text);
      done' := done + [rowTokens];
    }

    /** One row of alpha-threshold mode, painted on plane bit n: the
        column loop, the trailing run, `$`, and `-` after plane 32. */
    method WriteAlphaRow(output: Output, key: int, alphas: seq<nat>, n: nat, y: nat)
      requires picture.width >= 1 && |picture.data| == picture.width * picture.height && |alphas| == |picture.data| && IsPlane(n) && y < picture.height
      modifies output
      ensures output.text == old(output.text)
        + Render(Alpha.Row(key, alphaThreshold, n, RowOf(picture.data, picture.width, picture.height, y),
                           RowOf(alphas, picture.width, picture.height, y)))
    {
      ghost var start := output.text;
      var cachedNo, count, c, cur := ScanAlphaRow(output, key, alphas, n, y);
      if c != -1 {
        if cachedNo == key {
          c := 0x3F;
        }
        ghost var ws := Emit(output, [Select(cachedNo), RunToken(c, count, 3)], start, cur.tokens);
        cur := Alpha.Trail(key, cur);
      }
      ghost var ws := EmitSeparators(output, n, start, cur.tokens);
    }

    /** The column loop of one alpha-threshold row. */
    method ScanAlphaRow(output: Output, key: int, alphas: seq<nat>, n: nat, y: nat)
      returns (cachedNo: nat, count: nat, c: int, ghost cur: Alpha.Cursor)
      requires picture.width >= 1 && |picture.data| == picture.width * picture.height && |alphas| == |picture.data| && IsPlane(n) && y < picture.height
      modifies output
      ensures var row := RowOf(picture.data, picture.width, picture.height, y);
        var rowAlphas := RowOf(alphas, picture.width, picture.height, y);
        cur == Alpha.Scan(key, alphaThreshold, n, row, rowAlphas, 0, Alpha.Start(row, rowAlphas))
      ensures cur.cached == cachedNo && cur.count == count && cur.c == c && Alpha.CursorOK(n, cur)
      ensures output.text == old(output.text) + Render(cur.tokens)
    {
      RowFits(picture.width, picture.height, y);
      cachedNo, count, c, cur := AlphaColumns(output, key, picture.data, alphas, n, y * picture.width, picture.width,
                                              RowOf(picture.data, picture.width, picture.height, y),
                                              RowOf(alphas, picture.width, picture.height, y));
    }

    /** The column loop over the row of `width` pixels that starts at
        pixel p. */
    method AlphaColumns(output: Output, key: int, data: seq<nat>, alphas: seq<nat>, n: nat, p: nat, width: nat,
                        ghost row: seq<nat>, ghost rowAlphas: seq<nat>)
      returns (cachedNo: nat, count: nat, c: int, ghost cur: Alpha.Cursor)
      requires IsPlane(n) && width >= 1 && p + width <= |data| && |alphas| == |data|
      requires row == data[p..p + width] && rowAlphas == alphas[p..p + width]
      modifies output
      ensures cur == Alpha.Scan(key, alphaThreshold, n, row, rowAlphas, 0, Alpha.Start(row, rowAlphas))
      ensures cur.cached == cachedNo && cur.count == count && cur.c == c && Alpha.CursorOK(n, cur)
      ensures output.text == old(output.text) + Render(cur.tokens)
    {
      cachedNo := data[p];
      var cachedAlpha := alphas[p];
      count := 1;
      c := -1;
      ghost var start := output.text;
      cur := Alpha.Start(row, rowAlphas);
      ghost var target := Alpha.Scan(key, alphaThreshold, n, row, rowAlphas, 0, cur);
      var x := 0;
      while x < width
        invariant x <= width && AlphaMirror(n, cur, cachedNo, cachedAlpha, count, c)
        invariant Alpha.Scan(key, alphaThreshold, n, row, rowAlphas, x, cur) == target
        invariant output.text == start + Render(cur.tokens)
      {
        var colorNo := data[p + x];
        var alpha := alphas[p + x];
        assert colorNo == row[x] && alpha == rowAlphas[x];
        Alpha.ScanNext(key, alphaThreshold, n, row, rowAlphas, x, cur);
        cachedNo, cachedAlpha, count, c, cur := AlphaColumn(output, key, n, colorNo, alpha, cachedNo, cachedAlpha, count, c, cur, start);
        x := x + 1;
      }
    }

    /** One column of the alpha-threshold loop: the run grows by one while
        colour and alpha stay and it is shorter than 255, otherwise it is
        written and a run of (colorNo, alpha) starts. */
    /** The loop variables of an alpha row are those of the cursor. */
    ghost predicate AlphaMirror(n: nat, cur: Alpha.Cursor, cachedNo: nat, cachedAlpha: nat, count: nat, c: int) {
      Alpha.CursorOK(n, cur) && cur.cached == cachedNo && cur.alpha == cachedAlpha && cur.count == count && cur.c == c
    }

    method AlphaColumn(output: Output, key: int, n: nat, colorNo: nat, alpha: nat, cachedNo: nat, cachedAlpha: nat,
                       count: nat, c: int, ghost cur: Alpha.Cursor, ghost start: string)
      returns (cachedNo': nat, cachedAlpha': nat, count': nat, c': int, ghost cur': Alpha.Cursor)
      requires IsPlane(n) && Alpha.CursorOK(n, cur)
      requires cur.cached == cachedNo && cur.alpha == cachedAlpha && cur.count == count && cur.c == c
      requires output.text == start + Render(cur.tokens)
      modifies output
      ensures cur' == Alpha.Step(key, alphaThreshold, n, cur, colorNo, alpha)
      ensures cur'.cached == cachedNo' && cur'.alpha == cachedAlpha' && cur'.count == count' && cur'.c == c'
      ensures output.text == start + Render(cur'.tokens)
    {
      cur' := Alpha.Step(key, alphaThreshold, n, cur, colorNo, alpha);
      cachedNo', cachedAlpha', c' := cachedNo, cachedAlpha, c;
      if colorNo == cachedNo && alpha == cachedAlpha && count < Alpha.MaxRun {
        count' := count + 1;
      } else {
        c' := EndRun(output, key, n, cachedNo, cachedAlpha, count, colorNo, alpha, cur, start);
        count' := 1;
        cachedNo' := colorNo;
        cachedAlpha' := alpha;
      }
    }

    /** A run of alpha-threshold mode ends: `#n` and the run, painted `?`
        for the key colour or below the threshold. Returns the byte. */
    method EndRun(output: Output, key: int, n: nat, cachedNo: nat, cachedAlpha: nat, count: nat,
                  colorNo: nat, alpha: nat, ghost cur: Alpha.Cursor, ghost start: string) returns (c: int)
      requires IsPlane(n) && Alpha.CursorOK(n, cur)
      requires cur.cached == cachedNo && cur.alpha == cachedAlpha && cur.count == count
      requires !(colorNo == cachedNo && alpha == cachedAlpha && count < Alpha.MaxRun)
      requires output.text == start + Render(cur.tokens)
      modifies output
      ensures var next := Alpha.Step(key, alphaThreshold, n, cur, colorNo, alpha);
        c == next.c && next == Alpha.Cursor(colorNo, alpha, 1, c, next.tokens)
        && output.text == start + Render(next.tokens)
    {
      if cachedNo == key {
        c := 0x3F;
      } else if cachedAlpha < alphaThreshold {
        c := 0x3F;
      } else {
        c := n + 0x3F;
      }
      ghost var ws := Emit(output, [Select(cachedNo), RunToken(c, count, 3)], start, cur.tokens);
    }
  }
}
