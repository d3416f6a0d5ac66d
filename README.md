# Boot-time text output of the Ramen-os kernel, in Dafny

This project models how the kernel puts text on the screen while it boots, and
proves properties of that model. It covers:

- **PSF1 font loader.** `load_psf1_font` checks the two magic bytes, reads the
  glyph height from header byte 3 and borrows the glyph bitmaps that follow the
  4-byte header.
- **Glyph rasteriser.** `draw_char` writes one 32-bit colour per pixel into a
  linear framebuffer at byte offset `py * pitch + px * 4`. It picks foreground
  or background from bit `7 - col` of each glyph row. It clips pixels that fall
  off the screen and draws nothing for a glyph index beyond the font.
- **Text loop.** `draw_text` walks the bytes of a string with a local cursor.
  A newline moves the cursor to column 0, one glyph height down. Any other byte
  is drawn and moves the cursor 8 pixels right.
- **Format buffer.** `BufferWriter` is a `core::fmt::Write` sink over a
  fixed-size byte buffer. Each `write_str` is all-or-nothing. `as_str` returns
  the written bytes, or the text `<utf8-error>` when they are not valid UTF-8.
- **Memory-map labels.** `entry_type_to_str` gives a label for each Limine
  memory-map entry type, and "Unknown" for any other code.
- **Levelled logging.** The `log!` macro's level table maps each level to a
  label, a colour and whether the line shows `file:line: `. The macro builds
  lines of the form `[LABEL] file:line: msg` or `[LABEL] msg`. The wrapper
  macros `trace!` … `panic_log!` forward to it, and `debug!` expands to nothing
  in release builds.
- **Console macros.** `println!` and the `error!` of `makros.rs` keep a global
  cursor `(CURSOR_X, CURSOR_Y)`. They format the message into a 512-byte stack
  buffer, draw it at the cursor, then move the cursor to column 0 one glyph
  height down.

Modules follow the source files:

- `Primitives` and `Wrappers` hold the byte and `u32` types and `Option`.
- `Utf8` is the validity check that `core::str::from_utf8` makes.
- `PsfFont` models `psf_font.rs`.
- `Utils` models `utils.rs`.
- `EntryType` models `entry_type.rs`.
- `Log` models `log.rs`.
- `Makros` models `makros.rs`.

The framebuffer memory is an `array<u32>`, one cell per 4 bytes. `draw_char`
and `draw_text` are methods whose loops write into it. Each is proved equal to
a specification function of the old contents:

- `Painted` visits the glyph's pixels in row-major order.
- `DrawnGlyph` is the whole glyph.
- `Layout` gives the placements of a text.
- `DrawnText` applies a sequence of placements.

The lemmas state what those functions mean cell by cell. `BufferWriter` and the
console cursor are classes whose methods update their fields.

Behaviour of the code worth knowing:

- A newline in `draw_text` returns to column 0, not to the `x` the call started
  at (`kernel/src/psf_font.rs:73`).
- `draw_text` draws every non-newline byte in `fg` on `bg`.
- A message longer than the 512-byte buffer is not dropped. `unwrap` panics on
  the formatting error before anything is drawn (`kernel/src/makros.rs:14`).
- `log!` writes only to the serial port through `write_serial!`. It never draws
  on the framebuffer.

## Model

| member | source | states |
|---|---|---|
| PsfFont.LoadPsf1Font | kernel/src/psf_font.rs:7-16 | a font is returned exactly when the blob has at least 4 bytes and starts 0x36 0x04; fewer than 4 bytes always gives None; a loaded font's height is header byte 3 (below 256) and its glyph data is exactly the bytes after the 4-byte header |
| PsfFont.EncodePsf1 | kernel/src/psf_font.rs:8-13 | the PSF1 blob of a font is the 4-byte header followed by its glyph bytes (the loader's inverse) |
| PsfFont.LoadEncoded | kernel/src/psf_font.rs:8-15 | loading an encoded font gives back that same font, whatever the mode byte |
| PsfFont.EncodeLoaded | kernel/src/psf_font.rs:12-13 | every blob the loader accepts is exactly the encoding of what it loads, with the blob's own mode byte |
| PsfFont.LoadIgnoresMode | kernel/src/psf_font.rs:12-13 | changing header byte 2 (the mode) never changes the loaded font |
| PsfFont.ByteOffsetIsCell | kernel/src/psf_font.rs:49-51 | with a pitch that is a multiple of 4, the byte offset `py*pitch + px*4` is 4-aligned and names cell `py*(pitch/4) + px` |
| PsfFont.CellInRange | kernel/src/psf_font.rs:48-49 | every pixel that passes the on-screen test lies inside framebuffer memory |
| PsfFont.CellCoordinates | kernel/src/psf_font.rs:45-49 | the cell of an on-screen pixel determines the pixel, so distinct pixels never share a cell |
| PsfFont.PaintStepCell | kernel/src/psf_font.rs:40-53 | the j-th pixel visit changes exactly the cell of the j-th glyph pixel (when it is on screen), to its glyph colour |
| PsfFont.PaintedCell | kernel/src/psf_font.rs:39-55 | after k pixel visits, exactly the glyph-box cells visited so far hold their glyph colour and every other cell is unchanged |
| PsfFont.DrawnGlyphCell | kernel/src/psf_font.rs:32-55 | after `draw_char`, a cell holds its glyph colour when the glyph is in range and the cell's pixel is inside the on-screen glyph box, and its old value otherwise |
| PsfFont.DrawnGlyphClips | kernel/src/psf_font.rs:45-48 | cells outside the on-screen glyph box are never written |
| PsfFont.DrawnGlyphPixel | kernel/src/psf_font.rs:41-51 | every on-screen pixel of an in-range glyph gets the foreground colour when bit `7 - col` of its row byte is set and the background colour otherwise, at byte offset `py*pitch + px*4` |
| PsfFont.DrawnGlyphIdempotent | kernel/src/psf_font.rs:39-55 | drawing the same glyph at the same place twice gives the same framebuffer as drawing it once |
| PsfFont.PixelStep | kernel/src/psf_font.rs:40-52 | the visit of pixel (row, col) writes the colour picked by bit `7 - col` into the cell at byte offset / 4, or writes nothing when the pixel is off screen |
| PsfFont.PaintedPixel | kernel/src/psf_font.rs:40-52 | one more visit, on top of the pixels painted so far, is the single cell write the inner loop performs, or none off screen |
| PsfFont.DrawChar | kernel/src/psf_font.rs:18-56 | the framebuffer afterwards is `DrawnGlyph` of the old contents; an out-of-range glyph index leaves it untouched |
| PsfFont.DrawGlyphRow | kernel/src/psf_font.rs:40-54 | the eight column visits of one glyph row extend the painted pixels from row-start to the next row-start |
| PsfFont.Cursor | kernel/src/psf_font.rs:70-81 | the cursor never moves above its start row, and is at column 0 after a trailing newline |
| PsfFont.Layout | kernel/src/psf_font.rs:70-81 | there is at most one glyph draw per byte, never one for a newline, and never above the start row |
| PsfFont.CursorClosedForm | kernel/src/psf_font.rs:72-79 | the final cursor row is the start row plus one glyph height per newline; the column is 8 per byte after the last newline, counted from 0 when there is a newline and from the start column otherwise |
| PsfFont.LayoutLength | kernel/src/psf_font.rs:70-81 | the number of glyph draws is the number of non-newline bytes |
| PsfFont.LayoutAppend | kernel/src/psf_font.rs:70-81 | drawing `a + b` is drawing `a` and then drawing `b` from where `a` left the cursor |
| PsfFont.LineLayout | kernel/src/psf_font.rs:76-79 | on a line without newlines, byte i is drawn at `x0 + 8*i` on the start row, with no wrap at the screen edge |
| PsfFont.TrailingLengthNoNewline | kernel/src/psf_font.rs:70-81 | text without newlines has no newline count and its trailing line is the whole text |
| PsfFont.NewlineReturnsToColumnZero | kernel/src/psf_font.rs:72-75 | "AB\nCD" drawn from (10, 10) with 16-row glyphs puts C and D at column 0 of row 26, not back at column 10 |
| PsfFont.TextStep | kernel/src/psf_font.rs:70-81 | one more byte: a newline only moves the cursor to (0, y + height); any other byte adds one draw at the cursor and moves it 8 right |
| PsfFont.DrawnTextSnoc | kernel/src/psf_font.rs:77 | drawing one more glyph is one more `draw_char` on the framebuffer drawn so far |
| PsfFont.DrawText | kernel/src/psf_font.rs:59-82 | the framebuffer afterwards is the old contents with the glyphs of `Layout(text, x, y, charsize)` drawn in order |
| Utf8.Valid | kernel/src/utils.rs:12 | defines when `from_utf8` accepts the bytes (a split into well-formed sequences per Table 3-7 of the Unicode Standard); a valid non-empty string starts with a byte below 0x80 or in 0xC2..0xF4, and a non-ASCII first byte is followed by a continuation byte |
| Utf8.ConcatValid | kernel/src/utils.rs:11-13 | gluing two valid UTF-8 strings gives a valid UTF-8 string |
| Utf8.AsciiValid | kernel/src/utils.rs:12 | every sequence of 7-bit bytes is valid UTF-8 |
| Utf8.InvalidExamples | kernel/src/utils.rs:12 | a stray 0xFF, an overlong two-byte form and an encoded surrogate are rejected, so the `<utf8-error>` fallback is reachable |
| Utils.Utf8ErrorSentinel | kernel/src/utils.rs:12 | the fallback text is valid UTF-8 and 12 bytes long |
| Utils.ConcatValid | kernel/src/utils.rs:17-25 | the concatenation of valid string pieces is valid UTF-8 |
| Utils.ConcatPrefix | kernel/src/utils.rs:17-25 | the pieces written up to any point spell a prefix of the whole message |
| Utils.BufferWriter.constructor | kernel/src/utils.rs:7-9 | a new writer holds the given buffer at position 0, with nothing written |
| Utils.BufferWriter.AsStr | kernel/src/utils.rs:11-13 | the result is always valid UTF-8; it is the written bytes whenever they are valid, and otherwise the `<utf8-error>` text |
| Utils.BufferWriter.WriteStr | kernel/src/utils.rs:17-25 | succeeds exactly when `pos + len <= capacity`; on success the bytes land at `pos..pos+len` with the rest of the buffer unchanged and pos advances by len; on failure nothing changes |
| Utils.FmtWrite | kernel/src/utils.rs:16-26 | formatting succeeds exactly when the whole message fits after what is already written; on success the written bytes gain the whole message; on failure they lie between the old contents and old contents + message |
| EntryType.EntryTypeToStr | kernel/src/entry_type.rs:3-15 | a code gets a label other than "Unknown" exactly when it is one of the eight listed types, and each listed type gets its own label |
| EntryType.CodeOfLabel | kernel/src/entry_type.rs:5-13 | a label names a code only when that code is one of the eight listed types |
| EntryType.LabelIdentifiesCode | kernel/src/entry_type.rs:5-13 | a listed code can be read back from its label; any other code reads back as nothing |
| EntryType.KnownLabelsInjective | kernel/src/entry_type.rs:5-13 | two listed codes with the same label are the same code |
| Log.Discriminant | kernel/src/log.rs:5-14 | every level's discriminant is below 8 |
| Log.LevelAt | kernel/src/log.rs:5-14 | a discriminant names a level exactly when it is below 8 |
| Log.DiscriminantsConsecutive | kernel/src/log.rs:5-14 | the discriminants are exactly 0..7, one per level, None = 0 through Panic = 7 |
| Log.LevelStyle | kernel/src/log.rs:20-37 | defines the level table (label, colour, location flag, with Warn's flag set by the build profile); every label is 4 or 5 characters with no `]`, and only Warn and above can show the location |
| Log.ShowLocationPolicy | kernel/src/log.rs:20-37 | a line shows `file:line: ` exactly when the level is Error or above, or is Warn in a debug build |
| Log.BuildProfileOnlyAffectsWarn | kernel/src/log.rs:26-32 | the build profile changes only Warn's location flag, never a label or colour |
| Log.LabelsIdentifyLevels | kernel/src/log.rs:20-37 | each level's label reads back as that level, so labels are distinct, and no label contains `]` |
| Log.Decimal | kernel/src/log.rs:42-45 | the printed line number is a non-empty string of decimal digits |
| Log.DecimalRoundTrip | kernel/src/log.rs:42-45 | the printed line number reads back as the line number |
| Log.FormatLine | kernel/src/log.rs:39-55 | defines the two line layouts: every line starts `[LABEL] ` and ends with the message; between them is exactly `file:line: ` when the location is shown, and nothing otherwise |
| Log.LogLine | kernel/src/log.rs:18-57 | the serial write carries `Some` of the level's colour; its line starts `[LABEL] ` and ends with the message, and is longer than `[LABEL] msg` exactly when the level shows its location (the exact text per level is `Log.LocationByLevel`) |
| Log.LevelOfLogLine | kernel/src/log.rs:39-55 | every line `log!` writes starts with `[LABEL]`, which reads back as the level it was logged at |
| Log.LocationByLevel | kernel/src/log.rs:39-55 | Error, Fatal and Panic lines are `[LABEL] file:line: msg` in every build; None to Info lines are `[LABEL] msg`; a Warn line is `[WARN ] file:line: msg` in a debug build and `[WARN ] msg` in a release build |
| Log.MacroLevel | kernel/src/log.rs:59-111 | every wrapper forwards a level other than None, and a different one for each wrapper |
| Log.Expand | kernel/src/log.rs:59-111 | a wrapper emits at most one line, and none exactly for `debug!` in a release build |
| Log.MacrosForwardOwnLevel | kernel/src/log.rs:59-111 | whatever a wrapper writes is a line logged at that wrapper's own level |
| Makros.FormatMessage | kernel/src/makros.rs:11-14 | formatting succeeds exactly when the message fits the 512-byte buffer, and then `as_str` yields exactly the message |
| Makros.Console.constructor | kernel/src/makros.rs:1-2 | the cursor starts at (0, 0) |
| Makros.Console.Print | kernel/src/makros.rs:8-37 | no framebuffer: nothing happens; bad font: panic; oversized message: panic; a panic changes neither cursor nor screen; otherwise the message is drawn at the old cursor and the cursor moves to column 0, one glyph height down |
| Makros.Console.Println | kernel/src/makros.rs:4-39 | `Print` with white on black |
| Makros.Console.Error | kernel/src/makros.rs:42-77 | `Print` with 0xEE4B2B on black |

## Left out

- Volatile writes and raw pointers: the framebuffer is an `array<u32>` indexed by byte offset / 4, and only pitches that are a multiple of 4 with `4 * width <= pitch` are modelled.
- Pixel format: the `u32` colour is stored as given, and the channel layout is not modelled.
- Limine crate: the `EntryType` codes are the protocol's values 0 to 7, and the framebuffer response is a datatype holding a list of framebuffers.
- `write_serial!`: its effect is modelled as the returned `SerialWrite` value (a colour and a line of text), and the serial port itself is not modelled.
- `core::fmt`: a formatted message is modelled as the sequence of string pieces it hands to `write_str`, and `format_args!` rendering is not modelled.
- `file!()` and `line!()`: these are parameters of the log functions.
- `core::str::from_utf8`: modelled by the well-formedness rules of Table 3-7 of the Unicode Standard, not by its code.
- `main.rs`, `hcf` and the panic handler are not part of this model, and a panic is modelled as an outcome value.
- The font blob `font.psf` is a parameter, not its contents.
- The unused `CURSOR_X`/`CURSOR_Y` statics at `kernel/src/log.rs:1-2` have no counterpart.
- `usize` overflow: integers are unbounded, so `ch * charsize`, the pixel arithmetic and `CURSOR_Y += charsize` never wrap.
- The two `#[macro_export] error!` macros in `log.rs` and `makros.rs` would clash if both were compiled; each is modelled as written (`Log.ErrorMacro` and `Makros.Console.Error`).
- `PsfFont.DrawGlyphRow`: the inner column loop of `draw_char` is a separate method, so that each loop is proved on its own.
