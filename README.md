# lite-os VGA text writer, modelled in Dafny

This project models the VGA text-mode writer of lite-os (`src/vga_buffer.rs`):

- the 16-colour palette;
- the attribute byte that packs a background and a foreground colour into one byte;
- the 25 x 80 grid of glyph/attribute cells;
- the `Writer`, which appends bytes to the bottom row of the grid;
- `print_something`, which writes "Hello! Wörld!This is a test of the VGA buffer." in yellow on black.

Modules:

- `Bytes` (`bytes.dfy`): the `u8` type, as the `uint8` newtype.
- `Utf8` (`utf8.dfy`): the bytes of a Rust `str`, that is, the UTF-8 encoding of its characters, which `write_string` iterates over with `s.bytes()`.
- `VgaBuffer` (`vga_buffer.dfy`): the colours, cells and grid, and the `Writer` class. It also holds a value-level reference semantics:
  - `StepByte` and `StepString` act on a `Line`, which is the cursor together with the bottom row.
  - The writer's methods are proved against them.
  - Lemmas prove what those functions do.

The writer is modelled as the code stands, not as a general-purpose terminal would behave:

- `new_line` has an empty body, so a line feed changes nothing and nothing ever scrolls.
- A byte other than a line feed, written once the column has reached 80, would index past the end of the row. That is a panic in Rust and a precondition here (`WriteByte`). For whole strings, `StepStringClosedForm` shows that the write panics exactly when the glyphs do not fit in the rest of the row.
- `write_string` passes printable ASCII (0x20 to 0x7E) and the line feed through as they are. It replaces every other byte, including each byte of a multi-byte UTF-8 sequence, with 0xFE.

## Model

| member | source | states |
|---|---|---|
| VgaBuffer.Discriminant | src/vga_buffer.rs:4-21 | `color as u8` is the enum's explicit discriminant, always below 16 |
| VgaBuffer.ColorOf | src/vga_buffer.rs:4-21 | every 4-bit index names a palette colour whose discriminant is that index |
| VgaBuffer.ColorOfDiscriminant | src/vga_buffer.rs:4-21 | the discriminants are distinct: decoding a colour's discriminant gives the colour back |
| VgaBuffer.NewColorCode | src/vga_buffer.rs:28-32 | `ColorCode::new` puts the background index in the high nibble and the foreground index in the low nibble, so the byte is 16 * background + foreground |
| VgaBuffer.ColorCodeRoundTrip | src/vga_buffer.rs:28-32 | reading the nibbles of a packed attribute gives back both colours |
| VgaBuffer.ColorCodeOnto | src/vga_buffer.rs:28-32 | every attribute byte is the packing of the two colours it decodes to |
| VgaBuffer.NewColorCodeInjective | src/vga_buffer.rs:28-32 | different colour pairs pack to different attribute bytes |
| VgaBuffer.YellowOnBlack | src/vga_buffer.rs:95 | yellow on black is the attribute byte 0x0E |
| VgaBuffer.IsBuffer | src/vga_buffer.rs:42-48 | a grid is 25 rows of 80 cells |
| VgaBuffer.ForwardedByte | src/vga_buffer.rs:82-87 | printable ASCII and the line feed pass through unchanged; every other byte becomes 0xFE; the result is a line feed exactly when the input is one |
| VgaBuffer.Glyphs | src/vga_buffer.rs:80-89 | the glyphs a byte string puts on screen: no more than its bytes, each printable ASCII or 0xFE |
| VgaBuffer.GlyphsAppend | src/vga_buffer.rs:80-89 | the glyphs of s + t are those of s followed by those of t |
| VgaBuffer.GlyphsStep | src/vga_buffer.rs:81-88 | one more byte of the loop adds that byte's glyph, or nothing for a line feed |
| VgaBuffer.GlyphsWithoutNewline | src/vga_buffer.rs:82-87 | without line feeds, every byte yields exactly one glyph, in place |
| VgaBuffer.GlyphsOfPrintable | src/vga_buffer.rs:84 | printable ASCII shows as itself |
| VgaBuffer.NonAsciiGlyphs | src/vga_buffer.rs:81-86 | a non-ASCII character shows as one 0xFE per byte of its UTF-8 encoding, two to four of them |
| VgaBuffer.StepByte | src/vga_buffer.rs:57-76 | `write_byte` on the cursor and bottom row: it fails (the panic) exactly when the byte is not a line feed and the column is past the row |
| VgaBuffer.StepString | src/vga_buffer.rs:80-89 | `write_string` as the substituted bytes written in turn, stopping at the first panic |
| VgaBuffer.Overwrite | src/vga_buffer.rs:65-73 | a row with glyphs laid out from a column on: cells in that range hold the glyphs with the attribute, the others are as before |
| VgaBuffer.StepStringClosedForm | src/vga_buffer.rs:57-89 | writing a string panics exactly when its glyphs do not fit in the rest of the row; otherwise the glyphs land from the cursor on and the cursor moves past them |
| VgaBuffer.StepStringConcat | src/vga_buffer.rs:80-89 | writing s and then t is writing s + t, and a panic in s ends the run |
| VgaBuffer.Writer.constructor | src/vga_buffer.rs:93-97 | a writer starts at column 0 with the given attribute and grid |
| VgaBuffer.Writer.NewLine | src/vga_buffer.rs:78 | `new_line` changes nothing |
| VgaBuffer.Writer.WriteByte | src/vga_buffer.rs:57-76 | the cursor and bottom row move exactly as `StepByte` says, and the rows above are untouched |
| VgaBuffer.Writer.WriteString | src/vga_buffer.rs:80-89 | the loop over the bytes lays the glyphs out from the old cursor, moves the cursor past them, agrees with `StepString`, and leaves the rows above untouched |
| VgaBuffer.PrintableStringGlyphs | src/vga_buffer.rs:81-84 | a string of printable ASCII shows as its own characters |
| VgaBuffer.GreetingGlyphs | src/vga_buffer.rs:100 | "ello! " shows as its six characters |
| VgaBuffer.WorldGlyphs | src/vga_buffer.rs:101 | "Wörld!" is seven bytes: 'W', two 0xFE glyphs for the two bytes of 'ö', then "rld!" |
| VgaBuffer.SentenceGlyphs | src/vga_buffer.rs:102 | the test sentence shows as its 33 characters |
| VgaBuffer.GlyphCounts | src/vga_buffer.rs:100-102 | the three strings produce 6, 7 and 33 glyphs |
| VgaBuffer.PrintedBytes | src/vga_buffer.rs:99-102 | the bytes handed to the writer show as 'H' followed by the glyphs of the three strings, 47 in all |
| VgaBuffer.GreetingWritten | src/vga_buffer.rs:99-100 | after 'H' and "ello! " from column 0, the cursor is at column 7, the row starts with "Hello! " in the writer's attribute, and the rest of the row is as it was |
| VgaBuffer.WritesCompose | src/vga_buffer.rs:99-102 | a byte and then three strings, each write starting where the last stopped, lay out the glyphs of all their bytes from the first cursor on |
| VgaBuffer.PrintSomething | src/vga_buffer.rs:92-103 | the writer is yellow on black; the bottom row starts with the 47 glyphs, the rest of it and the rows above are unchanged, and the cursor ends at column 47 |
| Utf8.EncodeChar | src/vga_buffer.rs:81 | one to four bytes; a single byte, equal to the code, exactly for ASCII; otherwise no byte is ASCII |
| Utf8.Encode | src/vga_buffer.rs:81 | `s.bytes()` has between one and four bytes per character |
| Utf8.EncodeCons | src/vga_buffer.rs:81 | a string's bytes are its first character's bytes followed by those of the rest |
| Utf8.EncodeAppend | src/vga_buffer.rs:81 | the bytes of s + t are the bytes of s followed by those of t |
| Utf8.EncodeAscii | src/vga_buffer.rs:81 | an ASCII string's bytes are its character codes, one per character |

## Left out

- The fixed address 0xb8000 and the `unsafe` cast in `print_something`: the grid is an `array2` parameter.
- The `#[repr(u8)]`, `#[repr(C)]` and `#[repr(transparent)]` memory layouts, and any volatile or hardware side effect of writing the grid.
- The panic on an out-of-range index in `write_byte`: it is a precondition of `WriteByte` and `WriteString`. `StepByte` and `StepString` return `None` for it, and `StepStringClosedForm` characterises when it happens.
- Scrolling and moving to a new row on a line feed: the code's `new_line` is empty, so the model has neither.
- VgaBuffer.Writer.WriteString: takes the string's bytes rather than a `&str`. The encoding is `Utf8.Encode`, applied at the call site.
- VgaBuffer.PrintSomething: returns the writer, which the Rust function drops, so that the cursor can be stated.
- The derived `Debug`, `Clone`, `Copy`, `PartialEq` and `Eq` impls, except equality, which Dafny datatypes have natively.
- The kernel entry point and panic handler (src/main.rs) and the integration tests (tests/) are not part of this model. The `println!` macro they use is not defined in src/vga_buffer.rs, and neither is a global writer.
