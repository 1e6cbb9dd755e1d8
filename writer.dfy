/** `SixelWriter`: draws a picture on a terminal. It brackets the Sixel
    image with DECSC / DECRC (save and restore the cursor, `ESC 7` and
    `ESC 8`) when the output is a terminal, and can first move the cursor
    with the control sequences HPA, CUF, CUB (horizontal) and VPA, CUD,
    CUU (vertical) of ECMA-48, sections 8.3.57, 8.3.20, 8.3.18, 8.3.158,
    8.3.19 and 8.3.22. With `bodyOnly` it writes none of these. */
module Writer {
  import opened Wrappers
  import opened Text
  import opened Stream
  import opened Grammar
  import opened Converter

  /** CSI: the C1 control 0x9B in 8-bit mode, `ESC [` otherwise (section
      8.3.16 of ECMA-48). */
  function Csi(f8bit: bool): (s: string)
    ensures |s| >= 1 && (f8bit <==> s == [0x9B as char])
  {
    if f8bit then [0x9B as char] else [Esc, '[']
  }

  /** The parameter and final byte `move_x` writes after CSI: n and '`'
      (HPA) when absolute, n and 'C' (CUF) to the right, -n and 'D' (CUB)
      to the left, and nothing for a relative move by 0. */
  function MoveXTail(n: int, absolute: bool): string {
    if absolute then SignedDecimal(n) + "`"
    else if n > 0 then Decimal(n) + "C"
    else if n < 0 then Decimal(-n) + "D"
    else ""
  }

  /** The parameter and final byte `move_y` writes after CSI: n and 'd'
      (VPA) when absolute, n and 'B' (CUD) downwards, and for an upward move
      n itself, minus sign included, and 'A' (CUU). */
  function MoveYTail(n: int, absolute: bool): string {
    if absolute then SignedDecimal(n) + "d"
    else if n > 0 then Decimal(n) + "B"
    else if n < 0 then SignedDecimal(n) + "A"
    else ""
  }

  /** What a terminal makes of a text that starts with CSI: a cursor
      motion with its parameter, a sequence not yet complete (CSI alone,
      which takes the bytes written next as its own), or a sequence whose
      parameter is not a plain decimal number or whose final byte is not
      one of the six motions. */
  datatype Motion =
    | Column(n: nat)     // HPA, '`'
    | Right(n: nat)      // CUF, 'C'
    | Left(n: nat)       // CUB, 'D'
    | Line(n: nat)       // VPA, 'd'
    | Down(n: nat)       // CUD, 'B'
    | Up(n: nat)         // CUU, 'A'
    | Incomplete
    | Unrecognised
    | NotControl

  /** Reads a control sequence: CSI, a parameter of decimal digits, and
      one final byte. */
  function Decode(csi: string, s: string): Motion {
    if |s| < |csi| || s[..|csi|] != csi then NotControl
    else
      var rest := s[|csi|..];
      if |rest| == 0 then Incomplete
      else
        var p, f := rest[..|rest| - 1], rest[|rest| - 1];
        if |p| == 0 || !AllDigits(p) then Unrecognised
        else Final(f, ParseDecimal(p))
  }

  /** The motion a final byte names, with its parameter n. */
  function Final(f: char, n: nat): Motion {
    if f == '`' then Column(n)
    else if f == 'C' then Right(n)
    else if f == 'D' then Left(n)
    else if f == 'd' then Line(n)
    else if f == 'B' then Down(n)
    else if f == 'A' then Up(n)
    else Unrecognised
  }

  /** A decimal parameter followed by a final byte reads back as the
      motion of that byte with that number. */
  lemma DecodeParameter(csi: string, n: nat, f: char)
    ensures Decode(csi, csi + (Decimal(n) + [f])) == Final(f, n)
  {
    var s := csi + (Decimal(n) + [f]);
    assert s[..|csi|] == csi;
    var rest := s[|csi|..];
    assert rest == Decimal(n) + [f];
    assert rest[..|rest| - 1] == Decimal(n);
    DecimalRoundTrip(n);
  }

  /** `move_x` moves the cursor as asked: to column n when absolute and n
      is not negative, n columns right or -n columns left when relative.
      A relative move by 0 leaves CSI alone, incomplete. A negative
      absolute column is not a valid HPA. */
  lemma MoveXDecodes(f8bit: bool, n: int, absolute: bool)
    ensures var m := Decode(Csi(f8bit), Csi(f8bit) + MoveXTail(n, absolute));
      if absolute then (if n >= 0 then m == Column(n) else m == Unrecognised)
      else if n > 0 then m == Right(n)
      else if n < 0 then m == Left(-n)
      else m == Incomplete
  {
    var csi, t := Csi(f8bit), MoveXTail(n, absolute);
    if absolute && n >= 0 {
      assert t == Decimal(n) + ['`'];
      DecodeParameter(csi, n, '`');
    } else if absolute {
      assert t == SignedDecimal(n) + ['`'];
      NegativeUnrecognised(csi, n, '`');
    } else if n > 0 {
      assert t == Decimal(n) + ['C'];
      DecodeParameter(csi, n, 'C');
    } else if n < 0 {
      assert t == Decimal(-n) + ['D'];
      DecodeParameter(csi, -n, 'D');
    } else {
      assert csi + t == csi;
    }
  }

  /** `move_y` moves the cursor to line n when absolute and n is not
      negative, and n lines down for n > 0. For n < 0 the minus sign stays
      in the parameter, so the text is not a valid CUU: the upward move
      never happens. A relative move by 0 leaves CSI alone, incomplete. */
  lemma MoveYDecodes(f8bit: bool, n: int, absolute: bool)
    ensures var m := Decode(Csi(f8bit), Csi(f8bit) + MoveYTail(n, absolute));
      if absolute then (if n >= 0 then m == Line(n) else m == Unrecognised)
      else if n > 0 then m == Down(n)
      else if n < 0 then m == Unrecognised
      else m == Incomplete
  {
    var csi, t := Csi(f8bit), MoveYTail(n, absolute);
    if absolute && n >= 0 {
      assert t == Decimal(n) + ['d'];
      DecodeParameter(csi, n, 'd');
    } else if absolute {
      assert t == SignedDecimal(n) + ['d'];
      NegativeUnrecognised(csi, n, 'd');
    } else if n > 0 {
      assert t == Decimal(n) + ['B'];
      DecodeParameter(csi, n, 'B');
    } else if n < 0 {
      assert t == SignedDecimal(n) + ['A'];
      NegativeUnrecognised(csi, n, 'A');
    } else {
      assert csi + t == csi;
    }
  }

  /** A parameter with a minus sign is not a decimal parameter. */
  lemma NegativeUnrecognised(csi: string, n: int, f: char)
    requires n < 0
    ensures Decode(csi, csi + (SignedDecimal(n) + [f])) == Unrecognised
  {
    var s := csi + (SignedDecimal(n) + [f]);
    assert s[..|csi|] == csi;
    var rest := s[|csi|..];
    assert rest == SignedDecimal(n) + [f];
    assert rest[..|rest| - 1][0] == '-';
  }

  /** Two writes append what one write of both appends. */
  lemma Append(s: string, a: string, b: string)
    ensures (s + a) + b == s + (a + b)
  {
    assert |(s + a) + b| == |s + (a + b)|;
  }

  class SixelWriter {
    const f8bit: bool
    const bodyOnly: bool
    const csi: string

    constructor (f8bit: bool, bodyOnly: bool)
      ensures this.f8bit == f8bit && this.bodyOnly == bodyOnly && csi == Csi(f8bit)
    {
      this.f8bit := f8bit;
      this.bodyOnly := bodyOnly;
      this.csi := Csi(f8bit);
    }

    /** DECSC, `ESC 7`, on a terminal and unless only the body is asked for. */
    function SaveText(isTerminal: bool): string {
      if !bodyOnly && isTerminal then [Esc, '7'] else ""
    }

    /** DECRC, `ESC 8`, on the same condition. */
    function RestoreText(isTerminal: bool): string {
      if !bodyOnly && isTerminal then [Esc, '8'] else ""
    }

    function MoveXText(n: int, absolute: bool): string {
      if bodyOnly then "" else csi + MoveXTail(n, absolute)
    }

    function MoveYText(n: int, absolute: bool): string {
      if bodyOnly then "" else csi + MoveYTail(n, absolute)
    }

    /** The text of `draw`: save, the horizontal move if x is given, the
        vertical move if y is given, the picture's text, restore. */
    function DrawText(isTerminal: bool, absolute: bool, x: Option<int>, y: Option<int>, picture: string): string {
      SaveText(isTerminal)
      + (if x.Some? then MoveXText(x.value, absolute) else "")
      + (if y.Some? then MoveYText(y.value, absolute) else "")
      + picture
      + RestoreText(isTerminal)
    }

    method SavePosition(output: Output, isTerminal: bool)
      modifies output
      ensures output.text == old(output.text) + SaveText(isTerminal)
    {
      if !bodyOnly {
        if isTerminal {
          output.Write([Esc, '7']);
        }
      }
    }

    method RestorePosition(output: Output, isTerminal: bool)
      modifies output
      ensures output.text == old(output.text) + RestoreText(isTerminal)
    {
      if !bodyOnly {
        if isTerminal {
          output.Write([Esc, '8']);
        }
      }
    }

    /** `move_x`: CSI in one write, the parameter and final byte in the next. */
    method MoveX(output: Output, n: int, absolute: bool)
      modifies output
      ensures output.text == old(output.text) + MoveXText(n, absolute)
    {
      if !bodyOnly {
        output.Write(csi);
        ghost var before := output.text;
        if absolute {
          output.Write(SignedDecimal(n) + "`");
        } else if n > 0 {
          output.Write(Decimal(n) + "C");
        } else if n < 0 {
          output.Write(Decimal(-n) + "D");
        }
        assert output.text == before + MoveXTail(n, absolute);
        Append(old(output.text), csi, MoveXTail(n, absolute));
      } else {
        assert old(output.text) + "" == old(output.text);
      }
    }

    /** `move_y`: as `move_x`, with the upward parameter left negative. */
    method MoveY(output: Output, n: int, absolute: bool)
      modifies output
      ensures output.text == old(output.text) + MoveYText(n, absolute)
    {
      if !bodyOnly {
        output.Write(csi);
        ghost var before := output.text;
        if absolute {
          output.Write(SignedDecimal(n) + "d");
        } else if n > 0 {
          output.Write(Decimal(n) + "B");
        } else if n < 0 {
          output.Write(SignedDecimal(n) + "A");
        }
        assert output.text == before + MoveYTail(n, absolute);
        Append(old(output.text), csi, MoveYTail(n, absolute));
      } else {
        assert old(output.text) + "" == old(output.text);
      }
    }

    /** `draw`: save the cursor, move it, write the picture through a new
        converter built with this writer's 8-bit setting and `bodyOnly`,
        and restore the cursor whether or not the converter succeeded. The
        picture comes already loaded and quantised; `isTerminal` stands for
        asking the output whether it is a terminal. */
    method Draw(output: Output, picture: Picture, absolute: bool, x: Option<int>, y: Option<int>,
                ncolor: nat, alphaThreshold: int, chromakey: bool, fast: bool, isTerminal: bool)
      returns (ok: bool)
      requires Quantised(picture, Clamp(ncolor))
      modifies output
      ensures ok <==> alphaThreshold >= 0
      ensures output.text == old(output.text)
        + DrawText(isTerminal, absolute, x, y, FirstWrite(picture, f8bit, ncolor, alphaThreshold, chromakey, fast, bodyOnly))
    {
      ghost var text0 := output.text;
      SavePosition(output, isTerminal);
      ghost var drawn := SaveText(isTerminal);
      ghost var piece := if x.Some? then MoveXText(x.value, absolute) else "";
      if x.Some? {
        MoveX(output, x.value, absolute);
      }
      assert output.text == text0 + drawn + piece;
      Append(text0, drawn, piece);
      drawn := drawn + piece;
      piece := if y.Some? then MoveYText(y.value, absolute) else "";
      if y.Some? {
        MoveY(output, y.value, absolute);
      }
      assert output.text == text0 + drawn + piece;
      Append(text0, drawn, piece);
      drawn := drawn + piece;
      piece := FirstWrite(picture, f8bit, ncolor, alphaThreshold, chromakey, fast, bodyOnly);
      ok := WritePicture(output, picture, ncolor, alphaThreshold, chromakey, fast);
      Append(text0, drawn, piece);
      drawn := drawn + piece;
      piece := RestoreText(isTerminal);
      RestorePosition(output, isTerminal);
      Append(text0, drawn, piece);
    }

    /** The converter part of `draw`: a new converter, and its `write`. */
    method WritePicture(output: Output, picture: Picture, ncolor: nat, alphaThreshold: int, chromakey: bool, fast: bool)
      returns (ok: bool)
      requires Quantised(picture, Clamp(ncolor))
      modifies output
      ensures ok <==> alphaThreshold >= 0
      ensures output.text == old(output.text) + FirstWrite(picture, f8bit, ncolor, alphaThreshold, chromakey, fast, bodyOnly)
    {
      var converter := new SixelConverter(picture, f8bit, ncolor, alphaThreshold, chromakey, fast);
      ghost var empty := converter.slots[..];
      ok := converter.Write(output, bodyOnly);
      ghost var opening := if bodyOnly then "" else Dcs(f8bit) + Header(chromakey, picture.width, picture.height);
      assert converter.Opening(bodyOnly) == opening;
      if ok {
        ghost var body := Render(Body(picture, Clamp(ncolor), alphaThreshold, chromakey, fast, seq(257, _ => 0)));
        ghost var closing := if bodyOnly then "" else St(f8bit);
        assert converter.Closing(bodyOnly) == closing;
        assert Render(converter.BodyTokens(empty)) == body;
        Append(old(output.text), opening, body);
        Append(old(output.text), opening + body, closing);
      }
    }
  }

  /** `draw` brackets the picture: with `bodyOnly` the writer adds nothing
      around it, whatever is asked; otherwise, on a terminal, its text
      opens with DECSC and closes with DECRC, and the picture's text comes
      last before DECRC, after every motion. */
  lemma DrawBracketed(w: SixelWriter, isTerminal: bool, absolute: bool, x: Option<int>, y: Option<int>, picture: string)
    ensures w.bodyOnly ==> w.DrawText(isTerminal, absolute, x, y, picture) == picture
    ensures !w.bodyOnly && isTerminal ==>
      var d := w.DrawText(isTerminal, absolute, x, y, picture);
      && |d| >= |picture| + 4
      && d[..2] == [Esc, '7']
      && d[|d| - 2 - |picture|..|d| - 2] == picture
      && d[|d| - 2..] == [Esc, '8']
  {
    var sx := w.SaveText(isTerminal) + (if x.Some? then w.MoveXText(x.value, absolute) else "");
    var head := sx + (if y.Some? then w.MoveYText(y.value, absolute) else "");
    var d := w.DrawText(isTerminal, absolute, x, y, picture);
    assert d == head + picture + w.RestoreText(isTerminal);
    if w.bodyOnly {
      assert head == "";
      assert d == picture;
    } else if isTerminal {
      Pieces(head, picture, [Esc, '8']);
      assert |sx| >= 2 && sx[..2] == [Esc, '7'];
      assert head[..2] == sx[..2];
    }
  }

  /** Where the three pieces of a + p + z lie. */
  lemma Pieces(a: string, p: string, z: string)
    ensures var d := a + p + z;
      && d[..|a|] == a && d[|a|..|a| + |p|] == p && d[|a| + |p|..] == z
  {
  }
}
