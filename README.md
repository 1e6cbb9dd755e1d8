# Sixel body encoder

A model of the part of python-sixel that turns an indexed picture into
Sixel graphics. It covers two classes:

- `SixelConverter` (`sixel/converter.py`) writes the DCS envelope, the
  raster header and the body in one of three encoders.
- `SixelWriter` (`sixel/sixel.py`) brackets a drawing with cursor save,
  cursor moves and cursor restore.

The picture arrives already quantised. It is a flat RGB palette, one
palette index per pixel in row-major order, and one alpha value per pixel.

## How the model is built

- **Output.** `Stream.Output` is a class whose `text` grows by one
  `Write` per `output.write` of the source. The encoders are specified by
  pure functions that return `Grammar.Token`s. A token is:
  - a colour definition or a colour selection;
  - a literal run or a `!` run;
  - `$`, `-` or a line feed.

  `Grammar.Render` spells tokens out as characters. Every method appends
  exactly the rendered tokens of its specification function. The methods
  keep the loops of the source.
- **Size-priority encoder** (`__write_body_without_alpha_threshold`,
  module `Banded`). The recursive `add_node` is the method
  `Converter.SixelConverter.AddNode`. It is proved equal to the mutually
  recursive functions `Banded.AddNodeF` and `Banded.Columns`, which
  terminate because `set_` grows before every nested call. The run list of
  a colour is specified by the column loop `Banded.ScanColumns`. What that
  list means is proved separately, by expanding it back into column masks
  (`Banded.RunListDecode`).
- **Fast encoder** (module `Fast`) and **alpha encoder** (module
  `Alpha`). Each row is a left fold (`Scan`) of a per-pixel `Step` over a
  `Cursor` that holds `cached_no`, `count`, `c`, the tokens and, for the
  fast encoder, the slot table. Row loops are `Rows`. Methods are proved
  equal to these folds one column and one row at a time.
- **Slot table.** `_slots` is the `array<int>` field
  `Converter.SixelConverter.slots`. It is created once by the constructor
  and survives every `Write`. The ghost field `history` records all body
  tokens written so far. `Valid()` keeps, across writes, that in fast mode
  slot n is 1 exactly when `#n;2;…` has been written and that no colour
  was defined twice.
- **Quirks of the code, modelled as written:**
  - The size-priority encoder credits the column where a mask changes to
    the previous run (`Banded.Shifted`).
  - The fast and alpha encoders count their first run one column too long
    (`Fast.FirstRunCount`, `Alpha.RowTotal`).
  - The fast encoder writes a row's last run only when an earlier run was
    written and it is longer than one (`Fast.TrailTotal`,
    `Fast.UniformRow`).
  - When the last pixel of a row is not the key colour, the row's last
    run reuses the byte of the run before it instead of computing its
    own (`Fast.KeyTailUnpainted`, `Alpha.TrailReusesByte`,
    `Alpha.TransparentTailPainted`). A key-colour last run is always
    `?`. The fast encoder writes that last run only when it is longer
    than one pixel.
  - The size-priority encoder ignores the chroma key (`Converter.Body`
    passes no key to it).
  - `move_y` writes a negative relative move with its minus sign, so a
    reader does not recognise the sequence (`Writer.MoveYDecodes`).
  - A relative move of 0 writes a bare CSI (`Writer.MoveXDecodes`).
- **Where the design description and the code disagree, the model
  follows the code:**
  - The size-priority encoder writes every one of the `ncolor`
    definitions, each followed by a line feed, before the first band. It
    does not define a colour inline at its first use.
  - The alpha encoder writes selections only and never writes a
    definition.
  - The fast encoder's slot table belongs to the converter, not to one
    encode call. A second `write` on the same converter therefore does not
    define again the colours the first one defined.
- **Cursor moves.** `Writer.Decode` is a small reader for one control
  sequence: CSI, decimal digits, a final byte. The move lemmas state what
  that reader recognises in each move the writer produces.

## Model

| member | source | states |
|---|---|---|
| Text.Decimal | sixel/converter.py:72 | `%d` of a natural number is a non-empty string of digits with no leading zero |
| Text.SignedDecimal | sixel/sixel.py:50 | `%d` of a negative number is `-` followed by the digits of its magnitude; of a non-negative one, its digits |
| Text.DecimalRoundTrip | sixel/converter.py:70-72 | reading back the digits `%d` writes gives the number |
| Text.Repeat | sixel/converter.py:134 | `chr(c) * count` has length count and every character c |
| Grammar.Percent | sixel/converter.py:89-91 | a channel below 256 becomes a percentage below 100 (`*100/256` truncated) |
| Grammar.Definition | sixel/converter.py:89-92 | the definition token of palette entry n defines colour n |
| Grammar.RunToken | sixel/converter.py:133-136 | a run keeps its byte and count and is literal exactly when count is below the encoder's threshold |
| Grammar.RunTokenDecodes | sixel/converter.py:133-136 | expanding the text of a run, literal or behind `!count`, gives count copies of its byte |
| Raster.PlaneOfRow | sixel/converter.py:188-193 | starting at 1, the plane of row y is bit y mod 6, it is 32 exactly when y mod 6 = 5, and the next row's plane follows by doubling or the reset to 1 |
| Raster.RowFits | sixel/converter.py:145-150 | the pixels `y*width + x` of a row lie inside the image data |
| Raster.RowOf | sixel/converter.py:145-150 | a row read from the data has width pixels |
| Raster.RowIndexes | sixel/converter.py:150 | every pixel of a row is a palette index with channels in the palette |
| Stream.Output.Write | sixel/converter.py:61 | a write appends its string to the output and changes nothing else |
| Banded.PixelIndex | sixel/converter.py:111-114 | `data[p + width*i]` for a band row and column lies below the end of the band |
| Banded.Pixel | sixel/converter.py:114 | a band pixel is one of the band's colours |
| Banded.BandHeight | sixel/converter.py:95-99 | a band has 1 to 6 rows, stays inside the image, and has 6 rows unless it is the last |
| Banded.BandFits | sixel/converter.py:95-114 | every pixel read by a band lies inside the data |
| Banded.ColumnMask | sixel/converter.py:112-116 | a column mask is below 2^rows, so below 64 |
| Banded.PartialMaskBits | sixel/converter.py:113-116 | after i rows, bit j of the mask is set exactly when j < i and row j of the column has the colour |
| Banded.ColumnMaskBits | sixel/converter.py:112-116 | bit j of a column mask is set exactly when row j of the column has the colour |
| Banded.BitAdd | sixel/converter.py:116 | adding bit i to a mask below 2^i sets bit i and keeps the others, as or-ing in `1 << i` does |
| Banded.BitHigh | sixel/converter.py:116 | a mask below 2^i has no bit at or above i |
| Banded.ScanTracks | sixel/converter.py:109-123 | the column loop keeps: the runs closed so far expand to the shifted masks of the columns passed, and the open run holds the rest |
| Banded.RunListDecode | sixel/converter.py:109-125 | a run list expands to the masks shifted right by one column (mask 0 at and before the start column); its counts sum to at most width, and to exactly width when the last column's mask is non-zero |
| Banded.ScanMasks | sixel/converter.py:120-125 | every run the column loop closes has a mask below 2^rows |
| Banded.RunListShape | sixel/converter.py:107-108 | a list started at column s > 0 begins with the run (0, s), and all its masks are below 2^rows |
| Banded.AddNodeF | sixel/converter.py:103-126 | `add_node` only adds band colours to `set_` and only appends to `buf` |
| Banded.AddNodeLast | sixel/converter.py:126 | the last entry `add_node(n, s)` appends is colour n with its run list from column s |
| Banded.ColumnsCover | sixel/converter.py:113-119 | every pixel the scan passes has the scanned colour or is in `set_` afterwards |
| Banded.AddNodeNew | sixel/converter.py:117-119 | the entries nested calls append are one per colour newly added to `set_`, none twice, each the run list of its colour from the column where it was found |
| Banded.BandListsCover | sixel/converter.py:101-128 | every colour that occurs in a band gets a run list |
| Banded.BandListsOnce | sixel/converter.py:117-128 | two run lists of the same colour can only be of the seed colour `data[y*width]` |
| Banded.BandListsDiscovered | sixel/converter.py:103-128 | every run list of a band is the list of its colour from some column |
| Banded.BandListsBounded | sixel/converter.py:109-125 | every mask in a band's lists is below 64 and every list's counts sum to at most width |
| Banded.RunTokens | sixel/converter.py:132-136 | run k is written with byte 0x3F + mask, literally when its count is below 4, else behind `!` |
| Banded.DefinitionsInOrder | sixel/converter.py:87-92 | the definitions are `#n;2;R;G;B` then a line feed, for n = 0 .. ncolor-1 in order, with percentages below 100 |
| Banded.BandsStep | sixel/converter.py:95-138 | the bands from row y are the band at y (height `BandHeight`), a valid band, followed by the bands from y + 6 |
| Fast.Announce | sixel/converter.py:158-165 | selecting colour n writes at most a definition and then `#n`, and no run |
| Fast.Flush | sixel/converter.py:154-169 | closing a run appends to the row's tokens, sets the last byte, and keeps the open colour and count |
| Fast.Step | sixel/converter.py:150-171 | one pixel only appends to the row's tokens |
| Fast.Scan | sixel/converter.py:149-171 | the column loop only appends to the row's tokens |
| Fast.Trail | sixel/converter.py:172-187 | the trailing run only appends to the row's tokens |
| Fast.Row | sixel/converter.py:145-193 | a row keeps a 257-slot table and writes at least its separator |
| Fast.ScanShaped | sixel/converter.py:149-171 | the column loop keeps every run well formed and never selects the key colour |
| Fast.RowShape | sixel/converter.py:154-193 | a row ends with its separator; every run byte is `?` or 0x3F + plane, every count is at least 1, a run is literal exactly when its count is below 3, the key colour is never selected, and every definition is directly followed by the selection of its colour; every run covers pixels of one colour (`Fast.AllPainted`), a key-colour run is `?` and follows no selection, and any other run follows the selection of its colour and, when the column loop ends it, paints the plane bit |
| Fast.StepPainted | sixel/converter.py:149-171 | a colour change ends a run that covers the columns of its colour, is `?` without a selection for the key colour and the plane bit behind `#colour` otherwise; the open run keeps one colour |
| Fast.ScanPainted | sixel/converter.py:149-171 | after the column loop every run written is painted as `Fast.Painted` says and the open run is one colour |
| Fast.TrailPainted | sixel/converter.py:172-187 | the trailing run, when written, covers the last columns of one colour, is `?` for the key colour and follows the selection of its colour otherwise |
| Fast.RowPainted | sixel/converter.py:149-193 | every run of a row is painted as `Fast.Painted` says |
| Fast.RowKeepsDefs | sixel/converter.py:158-163 | after a row, slot n is 1 exactly when colour n has been defined, and no colour has been defined twice |
| Fast.ScanSlots | sixel/converter.py:158-163 | the column loop changes the slot table only when it writes |
| Fast.FreshSlots | sixel/converter.py:25 | the all-zero table of 257 slots records that nothing has been defined |
| Fast.BodyKeepsDefs | sixel/converter.py:140-193 | over a whole body, every colour is defined at most once, and the slot table records exactly the defined colours |
| Fast.FlushTotal | sixel/converter.py:166-169 | closing a run adds its count to the columns written |
| Fast.ScanTally | sixel/converter.py:146-171 | the column loop keeps: runs written plus the open count is one more than the pixels passed, and no run is written while the row so far is uniform |
| Fast.TrailTotal | sixel/converter.py:172-187 | the trailing run adds its count only when a run was written before and the count exceeds 1 |
| Fast.RowTotal | sixel/converter.py:146-187 | the runs of a row cover 0 columns when the row is uniform, width columns when its last two pixels differ, and width + 1 otherwise |
| Fast.UniformRow | sixel/converter.py:172 | a row of one colour writes only its separator and leaves the slot table alone |
| Fast.FirstRunCount | sixel/converter.py:146-152 | when the first colour change is at column k, the first run written has count k + 1 |
| Fast.KeyTailUnpainted | sixel/converter.py:173-187 | a non-key trailing run after a key run is written with `?` |
| Fast.RowGoodAt | sixel/converter.py:188-193 | row y, on plane 2^(y mod 6), ends with `-` exactly when y mod 6 = 5, else `$`, its runs are well formed, and each run is painted by the key colour of the pixels it covers |
| Fast.RowsShape | sixel/converter.py:143-193 | the row loop from y writes height - y rows, each well formed and painted for its index and its own pixels |
| Fast.BodyShape | sixel/converter.py:143-193 | the body is one row per image row, separated by `-` after rows with y mod 6 = 5 and by `$` after the others; in each row a key-colour run is `?` and every other run the column loop ends is the selection of its colour followed by the plane bit of that row |
| Alpha.RunByte | sixel/converter.py:215-220 | a run's byte is `?` or 0x3F + plane (which one is stated per run by `Alpha.StepPainted`) |
| Alpha.Step | sixel/converter.py:208-230 | one pixel only appends to the row's tokens |
| Alpha.Scan | sixel/converter.py:207-230 | the column loop only appends to the row's tokens |
| Alpha.ScanShaped | sixel/converter.py:207-230 | the column loop keeps every run well formed and preceded by a selection, and the last byte is the last run's |
| Alpha.LineShaped | sixel/converter.py:207-239 | the runs of a row, trailing run included, are well formed |
| Alpha.RowShape | sixel/converter.py:207-245 | a row writes no definition; every run has byte `?` or 0x3F + plane, a count from 1 to 255, is literal exactly when below 3, and follows a selection; a key-colour run is `?`; the row ends with `$`, plus `-` on plane 32; every run follows the selection of the colour of the pixels it covers, all of one alpha, and each run that ends before the last column is `?` exactly when that colour is the key or that alpha is below the threshold, else 0x3F + plane (`Alpha.AllPainted`) |
| Alpha.StepPainted | sixel/converter.py:207-230 | a run the column loop ends follows the selection of its pixels' colour, covers columns of one colour and one alpha, and is `?` exactly when that colour is the key or that alpha is below the threshold, else 0x3F + plane; the open run keeps one colour and one alpha |
| Alpha.ScanPainted | sixel/converter.py:207-230 | after the column loop every run written is painted as `Alpha.Painted` says |
| Alpha.LinePainted | sixel/converter.py:207-239 | every run of a row, the trailing one included, covers pixels of its selected colour and one alpha, and every run but the trailing one has the byte the key and the threshold ask for |
| Alpha.ScanTally | sixel/converter.py:203-230 | the column loop keeps: runs written plus the open count is one more than the pixels passed, and the open run has the last pixel's colour and alpha |
| Alpha.LineTotal | sixel/converter.py:203-239 | the runs of a row cover 0 columns while no run was broken, else width + 1 |
| Alpha.RowTotal | sixel/converter.py:199-239 | the runs of a row cover 0 columns when colour and alpha are uniform and the row is shorter than 255, else width + 1 |
| Alpha.TrailReusesByte | sixel/converter.py:231-239 | when a run was broken and the last pixel is not the key colour, the trailing run is selected for the last colour and has the byte of the run before it |
| Alpha.TransparentTailPainted | sixel/converter.py:231-239 | a transparent last pixel after an opaque run is painted with the plane bit |
| Alpha.RowGoodAt | sixel/converter.py:240-245 | row y ends with `-` exactly when y mod 6 = 5, else with `$`, and its runs are painted by the key, the threshold and the plane bit y mod 6 |
| Alpha.RowsShape | sixel/converter.py:201-245 | the row loop from y writes height - y rows, each well formed and painted for its index and its own pixels and alphas |
| Alpha.BodyShape | sixel/converter.py:201-245 | the body is one row per image row, with `-` exactly after rows with y mod 6 = 5; in each row every run the column loop ends is `?` exactly for the key colour or an alpha below the threshold, and the plane bit of that row otherwise |
| Converter.Dcs | sixel/converter.py:33-37 | DCS is the single 0x90 exactly in 8-bit mode |
| Converter.St | sixel/converter.py:33-38 | ST is the single 0x9C exactly in 8-bit mode |
| Converter.Clamp | sixel/converter.py:28-31 | the colour count is at most 256, kept when at most 256, and 256 otherwise |
| Converter.HeaderRoundTrip | sixel/converter.py:59-72 | the header `7;B;75q"1;1;W;H` gives back the chroma-key flag (B = 2) and the raster size |
| Converter.Key | sixel/converter.py:249-252 | the key colour is `data[0]` with chromakey, else -1, which is no index |
| Converter.SixelConverter.constructor | sixel/converter.py:23-38 | the settings are stored with ncolor clamped, DCS and ST follow `f8bit`, the alpha channel is kept only for a positive threshold, and all 257 slots are 0 |
| Converter.SixelConverter.SlotsAfter | sixel/converter.py:253-259 | only the fast encoder changes the slot table |
| Converter.SixelConverter.Write | sixel/converter.py:277-282 | `write` appends the header, the body for the current slot table and ST, or only that body with `bodyOnly`; a negative threshold fails after the header; the slot table moves on and, in fast mode, still records every definition this converter has written, none twice |
| Converter.SixelConverter.WriteBody | sixel/converter.py:247-259 | the body for the threshold, `fast` and key, or failure with nothing written for a negative threshold |
| Converter.SixelConverter.WriteBanded | sixel/converter.py:86-138 | appends the definitions and then the bands |
| Converter.SixelConverter.WriteDefinitions | sixel/converter.py:87-92 | appends the ncolor definitions |
| Converter.SixelConverter.WriteBands | sixel/converter.py:93-138 | appends the bands from row 0 |
| Converter.SixelConverter.WriteBandsStep | sixel/converter.py:95-138 | one band more of the bands from row 0 is written |
| Converter.SixelConverter.WriteBand | sixel/converter.py:100-138 | appends the colour blocks of the band's run lists and then `-` |
| Converter.SixelConverter.WriteBlocks | sixel/converter.py:130-137 | appends one block per run list, in order |
| Converter.SixelConverter.WriteBlock | sixel/converter.py:131-137 | appends `#n`, a line feed, the runs, then `$` and a line feed |
| Converter.SixelConverter.WriteRuns | sixel/converter.py:132-136 | appends the run tokens of a list |
| Converter.SixelConverter.AddNode | sixel/converter.py:103-126 | the recursive `add_node` computes the same `set_` and `buf` as `Banded.AddNodeF` |
| Converter.SixelConverter.WriteFast | sixel/converter.py:140-193 | appends the fast body and leaves the slot table as the body leaves it |
| Converter.SixelConverter.WriteFastStep | sixel/converter.py:144-193 | one row more of the fast body is written, with the plane doubled or reset |
| Converter.SixelConverter.WriteFastRow | sixel/converter.py:145-193 | appends one fast row and its separator and updates the slots as the row does |
| Converter.SixelConverter.ScanFastRow | sixel/converter.py:145-171 | the column loop ends in the state of `Fast.Scan` and has written its tokens |
| Converter.SixelConverter.FastColumn | sixel/converter.py:150-171 | one column moves the state as `Fast.Step` does |
| Converter.SixelConverter.FlushRun | sixel/converter.py:154-169 | closing a run writes and updates as `Fast.Flush` does |
| Converter.SixelConverter.Announce | sixel/converter.py:158-165 | selecting a colour writes and updates the slots as `Fast.Announce` does |
| Converter.SixelConverter.WriteAlpha | sixel/converter.py:195-245 | appends the alpha body |
| Converter.SixelConverter.WriteAlphaStep | sixel/converter.py:201-245 | one row more of the alpha body is written, with the plane doubled or reset |
| Converter.SixelConverter.WriteAlphaRow | sixel/converter.py:202-245 | appends one alpha row and its separators |
| Converter.EmitSeparators | sixel/converter.py:240-243 | appends `$`, then `-` in a second write on plane 32 |
| Converter.SixelConverter.ScanAlphaRow | sixel/converter.py:202-230 | the column loop ends in the state of `Alpha.Scan` and has written its tokens |
| Converter.SixelConverter.AlphaColumns | sixel/converter.py:207-230 | over the pixels of one row, the loop keeps its variables equal to the cursor of `Alpha.Scan`, column by column, and has written exactly that cursor's tokens |
| Converter.SixelConverter.AlphaColumn | sixel/converter.py:208-230 | one column moves the state as `Alpha.Step` does |
| Converter.SixelConverter.EndRun | sixel/converter.py:215-230 | a broken run is written as `Alpha.Step` writes it |
| Writer.Csi | sixel/sixel.py:17-20 | CSI is the single 0x9B exactly in 8-bit mode |
| Writer.MoveXDecodes | sixel/sixel.py:32-40 | `move_x` is read back as column n when absolute (unrecognised for negative n), right n for n > 0, left -n for n < 0, and an incomplete bare CSI for 0 |
| Writer.MoveYDecodes | sixel/sixel.py:42-50 | `move_y` is read back as line n when absolute (unrecognised for negative n), down n for n > 0, unrecognised for n < 0 because of the kept minus sign, and an incomplete bare CSI for 0 |
| Writer.NegativeUnrecognised | sixel/sixel.py:49-50 | a parameter written with a minus sign is not recognised |
| Writer.SixelWriter.constructor | sixel/sixel.py:14-20 | the writer keeps `f8bit` and `body_only`, and its CSI follows `f8bit` |
| Writer.SixelWriter.SavePosition | sixel/sixel.py:22-25 | appends `ESC 7` only without `body_only` and on a terminal |
| Writer.SixelWriter.RestorePosition | sixel/sixel.py:27-30 | appends `ESC 8` only without `body_only` and on a terminal |
| Writer.SixelWriter.MoveX | sixel/sixel.py:32-40 | appends nothing with `body_only`, else CSI and the move tail |
| Writer.SixelWriter.MoveY | sixel/sixel.py:42-50 | appends nothing with `body_only`, else CSI and the move tail |
| Writer.SixelWriter.WritePicture | sixel/sixel.py:78-86 | a fresh converter writes the first-write text of the picture with the writer's `f8bit` and `body_only` |
| Writer.SixelWriter.Draw | sixel/sixel.py:52-89 | appends save, the x move if given, the y move if given, the converter's output, and restore, which is written even when the converter fails |
| Writer.DrawBracketed | sixel/sixel.py:69-89 | with `body_only` a drawing is exactly the picture; on a terminal it starts with `ESC 7`, ends with `ESC 8`, and has the picture just before that |

## Left out

- Image loading in the converter's constructor (`sixel/converter.py:40-57`): quantising, resizing and reading RGBA are calls into the image library. The picture comes in as palette, indices and alphas that fit together (`Converter.Quantised`).
- The alpha channel is not resized when a width or height is given (`sixel/converter.py:50, 57`). The model takes one alpha per pixel.
- `__write_palette_section` (`sixel/converter.py:74-84`): `write` never calls it.
- `getvalue` (`sixel/converter.py:265-275`) only collects what `write` appends into a string buffer and closes the buffer.
- The `seek(0)` on the file at the start of `draw` (`sixel/sixel.py:65-68`) belongs to image loading.
- `os.isatty(output.fileno())` is the parameter `isTerminal`.
- The exception a negative alpha threshold raises is the result `ok == false`. The alpha encoder reads `rawdata`, which is loaded only for a positive threshold. The model keeps the text written before the failure, and `draw` still restores the cursor.
- `channel * 100 / 256` is a float in Python 3 that `%d` truncates. For channels from 0 to 255 this equals integer division, which is what `Grammar.Percent` uses.
- `sixel/__init__.py` (command line, terminal probing, pixel-to-cell conversion) and `sixel/cellsize.py` (terminal queries) are not part of this model.
- Fast.RowShape: does not state the byte of a non-key trailing run beyond `?` or 0x3F + plane, because it reuses the byte of the run before it (`Fast.KeyTailUnpainted`).
- Alpha.RowShape: does not state the byte of a non-key trailing run beyond `?` or 0x3F + plane, because it reuses the byte of the run before it (`Alpha.TrailReusesByte`).
