# Hybrid glyph packer and font table, in Dafny

This project models the core of `hybrid.py` from micropython-font-to-py. That
script turns a 1-bit bitmap font into two artifacts for small displays:

- a binary blob of vertically packed, inverted glyph bytes;
- a generated Python module holding `_char_set`, `_char_end` and a `get_ch`
  lookup.

The model has three modules:

- `Bits` (`bits.dfy`): bytes are `bv8`. `BitAt`, `Placed` (the source's
  `pixel << k`) and a generic MSB-first packer `PackBits` over up to eight
  bits. Its lemma `PackBitsAt` says where each bit lands.
- `Packer` (`packer.dfy`): `Bitmap.get_hybrid`. The specification function
  `Hybrid(b)` concatenates bands of eight rows. Within a band it takes one
  byte per column: the column's pixels are packed top row first into bit 7,
  rows past `height` stay 0, and the byte is complemented. The generator's
  three nested loops are the methods `GetHybrid` (bands), `PackBand`
  (columns) and `PackColumn` (the 8-row loop with its early `break`). Each
  method is proved equal to the specification.
- `FontTable` (`font_table.dfy`): the `__main__` loop that fills `char_set`,
  `char_end` and the blob (`BuildTable`, specified by `TableOf`). The blob
  file is an append-only `seq<bv8>`, and its length stands for `f.tell()`.
  The module also has the lookup `get_ch` of the generated module (`GetCh`,
  with `IndexOf` for `list.index` and `Slice` for Python slicing). The
  round-trip lemmas state that looking up a character returns exactly its
  glyph's packed bytes, or those of `'?'` for an unknown character.

## Model

| member | source | states |
|---|---|---|
| `Packer.GetHybrid` | hybrid.py:21-28 | the generator yields exactly `Hybrid(b)`, i.e. `width * ceil(height / 8)` bytes |
| `Packer.PackBand` | hybrid.py:22-28 | the column loop yields one band's bytes, one per column, left to right |
| `Packer.PackColumn` | hybrid.py:23-28 | the 8-row loop with its `break` yields `0xff ^ byte`; bit k of the result is the complement of the pixel in row `row + 7 - k`, with rows past `height` counting as 0 |
| `Packer.HybridLength` | hybrid.py:21-22 | the output has one byte per (band, column) pair: `width * ceil(height / 8)` |
| `Packer.HybridAt` | hybrid.py:21-22 | bands are outer and columns inner: byte `band * width + col` is column `col` of the band starting at row `8 * band` |
| `Packer.RawColumnBits` | hybrid.py:23-27 | before inversion, bit `7 - i` of a byte is `pixels[(row + i) * width + col]` when `row + i < height`, and 0 otherwise |
| `Packer.RawColumnCharacterised` | hybrid.py:23-27 | a byte equals the accumulated byte if and only if its bits are exactly the column's pixels, so no other bit is set |
| `Packer.PackedColumnBits` | hybrid.py:23-28 | after `0xff ^`, set pixels give 0 bits and padding rows past `height` give 1 bits |
| `Packer.BlankPacksToFF` | hybrid.py:23-28 | an all-zero bitmap packs to all `0xFF` |
| `Packer.UniformColumn` | hybrid.py:23-28 | in any bitmap, a column whose existing rows in the band are all 0 packs to `0xFF`, and a column of a band with all eight rows below `height`, every one set, packs to `0x00` |
| `Packer.FullBandsPackToZero` | hybrid.py:23-28 | an all-one bitmap whose height is a multiple of 8 packs to all `0x00` |
| `Packer.PaddedBandExample` | hybrid.py:21-28 | width 1, height 10, all pixels set packs to `[0x00, 0x3F]` |
| `Bits.PackBitsAt` | hybrid.py:24-27 | or-ing `p << (7 - i)` for each step `i` puts element `i` in bit `7 - i` and leaves the bits after the last step 0 |
| `Bits.PlacedIsShift` | hybrid.py:27 | the modelled placement of a pixel is the source's `pixel << k` |
| `Bits.ComplementBit` | hybrid.py:28 | `0xff ^ x` flips every bit of `x` |
| `FontTable.BuildTable` | hybrid.py:69-75 | the loop gives `char_set` in enumeration order, one `char_end` per character, and the blob as the concatenation of all packed glyphs |
| `FontTable.TableShape` | hybrid.py:69-75 | `\|char_set\| == \|char_end\| ==` number of glyphs; `char_set[i]` is glyph `i`'s character; the last end is the blob length (what `f.tell()` returns) |
| `FontTable.TableRanges` | hybrid.py:71-75 | glyph `i` owns `blob[start:end]`, with `start = char_end[i-1]` (0 for the first glyph); the range lies inside the blob, has glyph `i`'s packed length and holds exactly its packed bytes |
| `FontTable.CharEndMonotone` | hybrid.py:75 | `char_end` never decreases |
| `FontTable.RangesDisjoint` | hybrid.py:69-75 | an earlier glyph's range ends no later than a later glyph's range starts |
| `FontTable.TableBlobIsConcat` | hybrid.py:71-74 | the blob equals the independent head-first concatenation of every glyph's packed bytes |
| `FontTable.IndexOf` | hybrid.py:51 | `list.index` finds a position exactly when the character is present, and it is the first such position |
| `FontTable.Slice` | hybrid.py:54 | Python slicing is the plain subsequence for in-range bounds, runs to the end of the blob when `end` is past it, is empty when `end <= start` or `start` is past the blob, and is always a contiguous run of the blob |
| `FontTable.GetCh` | hybrid.py:48-54 | `get_ch` raises ValueError if and only if neither the character nor `'?'` is in `_char_set`; when `_char_end` has an entry for every character and the character or `'?'` is present, it returns bytes (never IndexError), at most as many as the blob holds |
| `FontTable.GetChInBlob` | hybrid.py:52-54 | whatever `get_ch` returns is a contiguous run `blob[lo:hi]` of the blob |
| `FontTable.CharSetMembers` | hybrid.py:71-72 | a character is in `char_set` if and only if some glyph has it |
| `FontTable.GetChKnown` | hybrid.py:48-54 | looking up the character of glyph `i`, at its first occurrence, returns exactly glyph `i`'s packed bytes |
| `FontTable.GetChRoundTrip` | hybrid.py:48-54 | when characters are distinct, every character in the font looks up its own packed glyph |
| `FontTable.GetChFallback` | hybrid.py:49-51 | an unknown character looks up like `'?'`; if the font has no `'?'`, the lookup fails with ValueError |
| `FontTable.GetChFallbackGlyph` | hybrid.py:49-54 | an unknown character returns exactly the packed bytes of the first `'?'` glyph |
| `FontTable.ClockFontExample` | hybrid.py:69-75 | glyphs `'0'`, `'1'` (blank 1x8) and `'?'` (solid 1x8) give blob `FF FF 00` and ends `[1, 2, 3]`; `get_ch('5')` returns `[0x00]` |

## Left out

- Argument parsing (`ArgumentParser`) is command-line plumbing and is not modelled.
- Writing the `.bin` and `.py` files is file I/O. The blob is an in-memory
  `seq<bv8>`, and its length plays the role of `f.tell()`.
- The generated module reads the blob back with `open(...).read()`. That is
  file I/O: `GetCh` takes the blob as the table's `blob` field.
- Building the font (`Font`, `Font._assign_values`, the `Bitmap` wrapper
  constructor) depends on `font_to_py`, which is not part of this model. The
  font is an input sequence of `Glyph(ch, Bitmap(width, height, pixels))` in
  the font's enumeration order, with pixels 0 or 1.
- Rendering `OUT` with `str.format` is text templating and is not modelled.
  That covers quoting the characters and the `width`/`height` globals of the
  generated module. Only the lookup semantics of `get_ch` are modelled.
- Each character is written into `_char_set` as `"{c}"` with no escaping
  (hybrid.py:78). A font containing `"`, `\` or a line break gives a module
  that does not load, or one with a different `_char_set`. The lookup lemmas
  (`FontTable.GetChKnown`, `FontTable.GetChRoundTrip`,
  `FontTable.GetChFallbackGlyph`) describe the generated module only when
  every character survives that quoting.
- Generator laziness (`yield`) is not modelled: the output is a finite
  sequence collected in order.
- `Packer.GetHybrid` spreads the generator's three nested loops over three
  methods (`GetHybrid`, `PackBand`, `PackColumn`), one per loop. Order, the
  `break` and every byte are the same, but it is not a single method body.
- `Packer.Bitmap.Valid` requires `|pixels| >= width * height`. That is the
  exact condition under which every `pixels[(row + i) * width + col]` read
  succeeds. A shorter buffer makes the source raise IndexError, which aborts
  the run; the model makes it a precondition. A longer buffer is accepted,
  as the code accepts it.
- A missing `'?'` is not rejected when the table is built; hybrid.py has no
  such check. Such a table is accepted, and `get_ch` of an unknown character
  fails with ValueError, as `FontTable.GetChFallback` states.
- `FontTable.GetCh` takes a single `char`. A string of several characters is
  never in `_char_set`, so the source treats it like any unknown character.
- The width-aware table variant (a dictionary of start, end and width per
  character, and `str_width`) is not in `hybrid.py` and is not modelled.
