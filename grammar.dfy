/** The Sixel character stream of the body, as the sequence of pieces the
    encoder writes: colour definitions `#n;2;R;G;B`, colour selections `#n`,
    sixel bytes written literally or behind the repeat introducer `!`, the
    graphics carriage return `$`, the graphics new line `-`, and the plain
    line feed that size-priority mode puts after its pieces (DEC VT330/VT340
    Programmer Reference Manual, chapter "Sixel Graphics"). */
module Grammar {
  import opened Text

  /** A sixel data character: 0x3F plus a six-bit mask, '?' .. '~'. */
  type SixelByte = b: int | 0x3F <= b <= 0x7E witness 0x3F

  datatype Token =
    | Define(colour: nat, r: nat, g: nat, b: nat)  // "#n;2;r;g;b"
    | Select(colour: nat)                           // "#n"
    | Literal(byte: SixelByte, count: nat)          // byte written count times
    | Repeat(byte: SixelByte, count: nat)           // "!count" then byte
    | GraphicsReturn                                // "$"
    | GraphicsNewLine                               // "-"
    | LineFeed                                      // "\n"
  {
    predicate IsRun() { Literal? || Repeat? }
  }

  /** A palette channel as a percentage: `channel * 100 / 256` formatted
      with `%d`; for a non-negative channel that is integer division. */
  function Percent(channel: nat): (p: nat)
    ensures channel < 256 ==> p < 100
  {
    channel * 100 / 256
  }

  /** The definition `#n;2;R;G;B` of palette entry n, whose channels are
      palette[3n], palette[3n+1] and palette[3n+2]. */
  function Definition(palette: seq<nat>, n: nat): (t: Token)
    requires 3 * n + 2 < |palette|
    ensures t.Define? && t.colour == n
  {
    Define(n, Percent(palette[3 * n]), Percent(palette[3 * n + 1]), Percent(palette[3 * n + 2]))
  }

  /** The characters one token stands for. */
  function TokenText(t: Token): string {
    match t
    case Define(n, r, g, b) =>
      "#" + Decimal(n) + ";2;" + Decimal(r) + ";" + Decimal(g) + ";" + Decimal(b)
    case Select(n) => "#" + Decimal(n)
    case Literal(byte, count) => Text.Repeat(byte as char, count)
    case Repeat(byte, count) => "!" + Decimal(count) + [byte as char]
    case GraphicsReturn => "$"
    case GraphicsNewLine => "-"
    case LineFeed => "\n"
  }

  /** The strings of a sequence, joined in order. */
  function Concat(ss: seq<string>): string
    decreases |ss|
  {
    if |ss| == 0 then "" else Concat(ss[..|ss| - 1]) + ss[|ss| - 1]
  }

  lemma {:induction false} ConcatAppend(a: seq<string>, b: seq<string>)
    ensures Concat(a + b) == Concat(a) + Concat(b)
    decreases |b|
  {
    if |b| == 0 {
      assert a + b == a;
    } else {
      var b' := b[..|b| - 1];
      assert (a + b)[..|a + b| - 1] == a + b';
      ConcatAppend(a, b');
    }
  }

  /** The characters of a token sequence, in order. */
  function Render(ts: seq<Token>): string {
    Concat(seq(|ts|, k requires 0 <= k < |ts| => TokenText(ts[k])))
  }

  lemma RenderAppend(a: seq<Token>, b: seq<Token>)
    ensures Render(a + b) == Render(a) + Render(b)
  {
    var ta := seq(|a|, k requires 0 <= k < |a| => TokenText(a[k]));
    var tb := seq(|b|, k requires 0 <= k < |b| => TokenText(b[k]));
    assert seq(|a + b|, k requires 0 <= k < |a + b| => TokenText((a + b)[k])) == ta + tb;
    ConcatAppend(ta, tb);
  }

  lemma RenderOne(t: Token)
    ensures Render([t]) == TokenText(t)
  {
    assert seq(1, k requires 0 <= k < 1 => TokenText([t][k])) == [TokenText(t)];
    assert Concat([TokenText(t)]) == Concat([]) + TokenText(t);
  }

  /** Writing one more token extends the rendered text by that token's text. */
  lemma RenderSnoc(ts: seq<Token>, t: Token)
    ensures Render(ts + [t]) == Render(ts) + TokenText(t)
  {
    RenderAppend(ts, [t]);
    RenderOne(t);
  }

  /** The run emitter shared by all three encoders: a run of `count` equal
      sixel bytes is written literally when it is shorter than `threshold`
      (4 in size-priority mode, 3 in the two row modes) and as `!count byte`
      otherwise. */
  function RunToken(byte: SixelByte, count: nat, threshold: nat): (t: Token)
    ensures t.IsRun() && t.byte == byte && t.count == count
    ensures t.Literal? <==> count < threshold
  {
    if count < threshold then Literal(byte, count) else Repeat(byte, count)
  }

  /** The tokens up to and including token k. */
  function Through(ts: seq<Token>, k: nat): seq<Token>
    requires k < |ts|
  {
    ts[..k + 1]
  }

  /** The number of pixel columns the runs of a token sequence cover. */
  function RunTotal(ts: seq<Token>): nat
    decreases |ts|
  {
    if |ts| == 0 then 0
    else RunTotal(ts[..|ts| - 1]) + (if ts[|ts| - 1].IsRun() then ts[|ts| - 1].count else 0)
  }

  lemma {:induction false} RunTotalAppend(a: seq<Token>, b: seq<Token>)
    ensures RunTotal(a + b) == RunTotal(a) + RunTotal(b)
    decreases |b|
  {
    if |b| == 0 {
      assert a + b == a;
    } else {
      assert (a + b)[..|a + b| - 1] == a + b[..|b| - 1];
      RunTotalAppend(a, b[..|b| - 1]);
    }
  }

  /** What a Sixel decoder makes of the text of one run: `!n c` stands for
      c written n times, anything else stands for itself. */
  function DecodeRun(s: string): string {
    if |s| >= 2 && s[0] == '!' && AllDigits(s[1..|s| - 1])
    then Text.Repeat(s[|s| - 1], ParseDecimal(s[1..|s| - 1]))
    else s
  }

  /** Both forms of a run decode to the same sixel bytes: the literal and
      the compressed form are interchangeable, whatever the threshold. */
  lemma RunTokenDecodes(byte: SixelByte, count: nat, threshold: nat)
    ensures DecodeRun(TokenText(RunToken(byte, count, threshold)))
            == Text.Repeat(byte as char, count)
  {
    var s := TokenText(RunToken(byte, count, threshold));
    if count < threshold {
      assert s == Text.Repeat(byte as char, count);
      assert |s| >= 2 ==> s[0] == byte as char != '!';
    } else {
      assert s[1..|s| - 1] == Decimal(count);
      DecimalRoundTrip(count);
    }
  }

  /** The token rows of an image, joined in order. */
  function Flatten(rows: seq<seq<Token>>): seq<Token>
    decreases |rows|
  {
    if |rows| == 0 then [] else Flatten(rows[..|rows| - 1]) + rows[|rows| - 1]
  }

  lemma FlattenSnoc(rows: seq<seq<Token>>, ts: seq<Token>)
    ensures Flatten(rows + [ts]) == Flatten(rows) + ts
  {
    assert (rows + [ts])[..|rows|] == rows;
  }

  /** Flatten also peels rows off the front. */
  lemma {:induction false} FlattenCons(ts: seq<Token>, rows: seq<seq<Token>>)
    ensures Flatten([ts] + rows) == ts + Flatten(rows)
    decreases |rows|
  {
    if |rows| == 0 {
      assert [ts] + rows == [] + [ts];
      FlattenSnoc([], ts);
    } else {
      var init := rows[..|rows| - 1];
      var last := rows[|rows| - 1];
      assert [ts] + rows == ([ts] + init) + [last];
      assert rows == init + [last];
      FlattenSnoc([ts] + init, last);
      FlattenCons(ts, init);
      FlattenSnoc(init, last);
    }
  }
}
