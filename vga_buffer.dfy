/** The VGA text-mode writer of lite-os (src/vga_buffer.rs): a 16-colour
    palette, one attribute byte per cell packing a foreground and a
    background colour, a 25 x 80 grid of glyph/attribute cells and a writer
    that appends bytes to the bottom row.

    The writer is modelled as the code stands: `new_line` has an empty
    body, so a line feed changes nothing, nothing ever scrolls, and a byte
    written when the column has reached 80 indexes past the end of the
    row, which is a panic in Rust and a precondition here. */
module VgaBuffer {
  import opened Bytes
  import Utf8

  datatype Option<T> = None | Some(value: T)

  // ---------------------------------------------------------------------
  // Colours and attribute bytes
  // ---------------------------------------------------------------------

  /** The VGA text-mode palette (`enum Color`, `#[repr(u8)]`). */
  datatype Color =
    | Black | Blue | Green | Cyan | Red | Magenta | Brown | LightGray
    | DarkGray | LightBlue | LightGreen | LightCyan | LightRed | Pink | Yellow | White

  /** `color as u8`: the enum's explicit discriminant. */
  function Discriminant(c: Color): (n: bv8)
    ensures n < 16
  {
    match c
    case Black => 0
    case Blue => 1
    case Green => 2
    case Cyan => 3
    case Red => 4
    case Magenta => 5
    case Brown => 6
    case LightGray => 7
    case DarkGray => 8
    case LightBlue => 9
    case LightGreen => 10
    case LightCyan => 11
    case LightRed => 12
    case Pink => 13
    case Yellow => 14
    case White => 15
  }

  /** The palette entry a 4-bit colour index names. */
  function ColorOf(n: bv8): (c: Color)
    requires n < 16
    ensures Discriminant(c) == n
  {
    if n == 0 then Black
    else if n == 1 then Blue
    else if n == 2 then Green
    else if n == 3 then Cyan
    else if n == 4 then Red
    else if n == 5 then Magenta
    else if n == 6 then Brown
    else if n == 7 then LightGray
    else if n == 8 then DarkGray
    else if n == 9 then LightBlue
    else if n == 10 then LightGreen
    else if n == 11 then LightCyan
    else if n == 12 then LightRed
    else if n == 13 then Pink
    else if n == 14 then Yellow
    else White
  }

  /** Distinct colours have distinct discriminants: ColorOf undoes Discriminant. */
  lemma ColorOfDiscriminant(c: Color)
    ensures ColorOf(Discriminant(c)) == c
  {
    match c
    case Black =>
    case Blue =>
    case Green =>
    case Cyan =>
    case Red =>
    case Magenta =>
    case Brown =>
    case LightGray =>
    case DarkGray =>
    case LightBlue =>
    case LightGreen =>
    case LightCyan =>
    case LightRed =>
    case Pink =>
    case Yellow =>
    case White =>
  }

  /** An attribute byte (`struct ColorCode(u8)`). Its `u8` is a `bv8`, so
      that `ColorCode::new` keeps the source's shift and bitwise or; the
      glyph bytes, which the source only compares and copies, are the
      integer newtype `uint8`. */
  datatype ColorCode = ColorCode(value: bv8)

  /** `ColorCode::new`: the background index in the high nibble, the
      foreground index in the low nibble. */
  function NewColorCode(foreground: Color, background: Color): (code: ColorCode)
    ensures code.value as int == 16 * Discriminant(background) as int + Discriminant(foreground) as int
    ensures code.value >> 4 == Discriminant(background)
    ensures code.value & 0xF == Discriminant(foreground)
  {
    ColorCode((Discriminant(background) << 4) | Discriminant(foreground))
  }

  /** The colour in the low nibble of an attribute byte. */
  function Foreground(code: ColorCode): Color
  {
    ColorOf(code.value & 0xF)
  }

  /** The colour in the high nibble of an attribute byte. */
  function Background(code: ColorCode): Color
  {
    ColorOf(code.value >> 4)
  }

  /** Decoding the nibbles of a packed attribute recovers both colours. */
  lemma ColorCodeRoundTrip(foreground: Color, background: Color)
    ensures Foreground(NewColorCode(foreground, background)) == foreground
    ensures Background(NewColorCode(foreground, background)) == background
  {
    ColorOfDiscriminant(foreground);
    ColorOfDiscriminant(background);
  }

  /** Every attribute byte is the packing of the colours it decodes to, so
      packing is a bijection between colour pairs and bytes. */
  lemma ColorCodeOnto(code: ColorCode)
    ensures NewColorCode(Foreground(code), Background(code)) == code
  {
    var v := code.value;
    assert ((v >> 4) << 4) | (v & 0xF) == v;
  }

  /** Yellow on black, the attribute `print_something` uses, is the byte 0x0E. */
  lemma YellowOnBlack()
    ensures NewColorCode(Yellow, Black) == ColorCode(0x0E)
  {
  }

  /** Different colour pairs give different attribute bytes. */
  lemma NewColorCodeInjective(f1: Color, b1: Color, f2: Color, b2: Color)
    requires NewColorCode(f1, b1) == NewColorCode(f2, b2)
    ensures f1 == f2 && b1 == b2
  {
    ColorCodeRoundTrip(f1, b1);
    ColorCodeRoundTrip(f2, b2);
  }

  // ---------------------------------------------------------------------
  // Cells and the grid
  // ---------------------------------------------------------------------

  /** One cell of the text buffer: a code page 437 glyph and its attribute. */
  datatype ScreenChar = ScreenChar(asciiCharacter: uint8, colorCode: ColorCode)

  const BufferHeight: nat := 25
  const BufferWidth: nat := 80
  /** The only row the writer ever writes to. */
  const BottomRow: nat := BufferHeight - 1

  const Newline: uint8 := 0x0A
  /** The glyph `write_string` puts in place of a byte it cannot show (a filled square). */
  const Unrepresentable: uint8 := 0xFE

  /** `struct Buffer`: a grid of 25 rows of 80 cells. */
  predicate IsBuffer(chars: array2<ScreenChar>)
  {
    chars.Length0 == BufferHeight && chars.Length1 == BufferWidth
  }

  /** The bottom row of a grid, as a sequence of cells. */
  ghost function BottomRowOf(chars: array2<ScreenChar>): (row: seq<ScreenChar>)
    reads chars
    requires IsBuffer(chars)
    ensures |row| == BufferWidth
    ensures forall c :: 0 <= c < BufferWidth ==> row[c] == chars[BottomRow, c]
  {
    seq(BufferWidth, c requires 0 <= c < BufferWidth reads chars => chars[BottomRow, c])
  }

  /** The rows above the bottom one, which the writer never touches. */
  ghost function RowsAboveOf(chars: array2<ScreenChar>): (rows: seq<seq<ScreenChar>>)
    reads chars
    requires IsBuffer(chars)
    ensures |rows| == BottomRow
    ensures forall r :: 0 <= r < BottomRow ==> |rows[r]| == BufferWidth
    ensures forall r, c :: 0 <= r < BottomRow && 0 <= c < BufferWidth ==> rows[r][c] == chars[r, c]
  {
    seq(BottomRow, r requires 0 <= r < BottomRow reads chars =>
      seq(BufferWidth, c requires 0 <= c < BufferWidth reads chars => chars[r, c]))
  }

  // ---------------------------------------------------------------------
  // What reaches the grid
  // ---------------------------------------------------------------------

  /** The bytes `write_string` passes on as they are: printable ASCII and the line feed. */
  predicate Forwarded(b: uint8)
  {
    0x20 <= b <= 0x7E || b == Newline
  }

  /** The byte `write_string` hands to `write_byte` for input byte b. */
  function ForwardedByte(b: uint8): (r: uint8)
    ensures r == b <==> Forwarded(b) || b == Unrepresentable
    ensures r == b || r == Unrepresentable
    ensures r == Newline <==> b == Newline
  {
    if Forwarded(b) then b else Unrepresentable
  }

  /** The glyphs writing byte string s puts into the bottom row, in order:
      each byte after substitution, except line feeds, which write nothing. */
  function Glyphs(s: seq<uint8>): (g: seq<uint8>)
    ensures |g| <= |s|
    ensures forall k :: 0 <= k < |g| ==> 0x20 <= g[k] <= 0x7E || g[k] == Unrepresentable
  {
    if s == [] then []
    else (if s[0] == Newline then [] else [ForwardedByte(s[0])]) + Glyphs(s[1..])
  }

  lemma {:induction false} GlyphsAppend(s: seq<uint8>, t: seq<uint8>)
    ensures Glyphs(s + t) == Glyphs(s) + Glyphs(t)
  {
    if s == [] {
      assert s + t == t;
    } else {
      assert (s + t)[1..] == s[1..] + t;
      GlyphsAppend(s[1..], t);
    }
  }

  /** Appending one byte appends its glyph, or nothing for a line feed. */
  lemma GlyphsSnoc(s: seq<uint8>, b: uint8)
    ensures Glyphs(s + [b]) == Glyphs(s) + (if b == Newline then [] else [ForwardedByte(b)])
  {
    GlyphsAppend(s, [b]);
    assert [b][1..] == [];
  }

  /** Taking one more byte of s extends the glyphs by that byte's glyph,
      and the glyphs of a prefix are never more than those of s. */
  lemma GlyphsStep(s: seq<uint8>, i: nat)
    requires i < |s|
    ensures Glyphs(s[..i + 1]) == Glyphs(s[..i]) + (if s[i] == Newline then [] else [ForwardedByte(s[i])])
    ensures |Glyphs(s[..i + 1])| <= |Glyphs(s)|
  {
    assert s[..i + 1] == s[..i] + [s[i]];
    GlyphsSnoc(s[..i], s[i]);
    assert s[..i + 1] + s[i + 1..] == s;
    GlyphsAppend(s[..i + 1], s[i + 1..]);
  }

  /** Without line feeds every byte yields exactly one glyph, in place. */
  lemma {:induction false} GlyphsWithoutNewline(s: seq<uint8>)
    requires forall k :: 0 <= k < |s| ==> s[k] != Newline
    ensures |Glyphs(s)| == |s|
    ensures forall k :: 0 <= k < |s| ==> Glyphs(s)[k] == ForwardedByte(s[k])
  {
    if s != [] {
      GlyphsWithoutNewline(s[1..]);
      forall k | 0 < k < |s|
        ensures Glyphs(s)[k] == ForwardedByte(s[k])
      {
        assert Glyphs(s)[k] == Glyphs(s[1..])[k - 1];
        assert s[k] == s[1..][k - 1];
      }
    }
  }

  /** Printable ASCII shows as itself. */
  lemma GlyphsOfPrintable(s: seq<uint8>)
    requires forall k :: 0 <= k < |s| ==> 0x20 <= s[k] <= 0x7E
    ensures Glyphs(s) == s
  {
    GlyphsWithoutNewline(s);
  }

  /** A character outside ASCII shows as one substitute glyph per byte of
      its UTF-8 encoding, between two and four of them. */
  lemma NonAsciiGlyphs(c: char)
    requires c as int >= 0x80
    ensures 2 <= |Glyphs(Utf8.EncodeChar(c))| == |Utf8.EncodeChar(c)| <= 4
    ensures forall k :: 0 <= k < |Glyphs(Utf8.EncodeChar(c))| ==> Glyphs(Utf8.EncodeChar(c))[k] == Unrepresentable
  {
    GlyphsWithoutNewline(Utf8.EncodeChar(c));
  }

  // ---------------------------------------------------------------------
  // Reference semantics on the bottom row
  // ---------------------------------------------------------------------

  /** The part of the writer's state that writing can change: the cursor
      and the cells of the bottom row. */
  datatype Line = Line(column: nat, cells: seq<ScreenChar>)

  /** `write_byte` on the bottom row, one byte at a time; None is the panic
      on an index past the end of the row. */
  function StepByte(line: Line, color: ColorCode, b: uint8): (r: Option<Line>)
    requires |line.cells| == BufferWidth
    ensures r.Some? <==> b == Newline || line.column < BufferWidth
    ensures r.Some? ==> |r.value.cells| == BufferWidth
  {
    if b == Newline then
      Some(line)  // new_line is empty
    else if line.column >= BufferWidth then
      None        // new_line is empty, so the column stays past the row
    else
      Some(Line(line.column + 1, line.cells[line.column := ScreenChar(b, color)]))
  }

  /** `write_string` on the bottom row: every byte substituted and written
      in turn, stopping at the first panic. */
  function StepString(line: Line, color: ColorCode, s: seq<uint8>): (r: Option<Line>)
    requires |line.cells| == BufferWidth
    ensures r.Some? ==> |r.value.cells| == BufferWidth
    decreases |s|
  {
    if s == [] then Some(line)
    else
      match StepByte(line, color, ForwardedByte(s[0]))
      case None => None
      case Some(next) => StepString(next, color, s[1..])
  }

  /** Row `cells` with the glyphs laid out from column `start` on. */
  function Overwrite(cells: seq<ScreenChar>, start: nat, glyphs: seq<uint8>, color: ColorCode): (r: seq<ScreenChar>)
    requires start + |glyphs| <= |cells|
    ensures |r| == |cells|
    ensures forall j :: 0 <= j < |r| ==>
      r[j] == if start <= j < start + |glyphs| then ScreenChar(glyphs[j - start], color) else cells[j]
  {
    cells[..start] + seq(|glyphs|, k requires 0 <= k < |glyphs| => ScreenChar(glyphs[k], color))
      + cells[start + |glyphs|..]
  }

  /** Writing a string panics exactly when its glyphs do not fit in the
      rest of the row; otherwise the glyphs are laid out from the cursor on
      and the cursor moves past them. */
  lemma {:induction false} StepStringClosedForm(line: Line, color: ColorCode, s: seq<uint8>)
    requires |line.cells| == BufferWidth && line.column <= BufferWidth
    ensures StepString(line, color, s).Some? <==> line.column + |Glyphs(s)| <= BufferWidth
    ensures line.column + |Glyphs(s)| <= BufferWidth ==>
      StepString(line, color, s)
        == Some(Line(line.column + |Glyphs(s)|, Overwrite(line.cells, line.column, Glyphs(s), color)))
    decreases |s|
  {
    if s == [] {
      assert Overwrite(line.cells, line.column, [], color) == line.cells;
    } else {
      var b := ForwardedByte(s[0]);
      assert Glyphs(s) == (if s[0] == Newline then [] else [b]) + Glyphs(s[1..]);
      if s[0] == Newline {
        assert StepByte(line, color, b) == Some(line);
        assert Glyphs(s) == Glyphs(s[1..]);
        StepStringClosedForm(line, color, s[1..]);
      } else if line.column < BufferWidth {
        var next := Line(line.column + 1, line.cells[line.column := ScreenChar(b, color)]);
        assert StepByte(line, color, b) == Some(next);
        StepStringClosedForm(next, color, s[1..]);
        if line.column + |Glyphs(s)| <= BufferWidth {
          var lhs := Overwrite(next.cells, next.column, Glyphs(s[1..]), color);
          var rhs := Overwrite(line.cells, line.column, Glyphs(s), color);
          assert forall j :: 0 <= j < BufferWidth ==> lhs[j] == rhs[j];
          assert lhs == rhs;
        }
      }
    }
  }

  /** Writing s and then t is writing s + t: a panic in s ends the run. */
  lemma {:induction false} StepStringConcat(line: Line, color: ColorCode, s: seq<uint8>, t: seq<uint8>)
    requires |line.cells| == BufferWidth
    ensures StepString(line, color, s + t)
      == match StepString(line, color, s)
         case None => None
         case Some(mid) => StepString(mid, color, t)
    decreases |s|
  {
    if s == [] {
      assert s + t == t;
    } else {
      assert (s + t)[0] == s[0] && (s + t)[1..] == s[1..] + t;
      match StepByte(line, color, ForwardedByte(s[0]))
      case None =>
      case Some(next) => StepStringConcat(next, color, s[1..], t);
    }
  }

  // ---------------------------------------------------------------------
  // The writer
  // ---------------------------------------------------------------------

  /** `struct Writer`: the cursor column, the current attribute and the
      grid it writes into. */
  class Writer {
    var column: nat
    const color: ColorCode
    const buffer: array2<ScreenChar>

    ghost predicate Valid()
      reads this
    {
      IsBuffer(buffer) && column <= BufferWidth
    }

    /** The cursor and the bottom row as a Line value. */
    ghost function CurrentLine(): (line: Line)
      reads this, buffer
      requires Valid()
      ensures line.column == column && |line.cells| == BufferWidth
    {
      Line(column, BottomRowOf(buffer))
    }

    /** The writer `print_something` builds: column 0, the given attribute,
        the given grid. */
    constructor (color: ColorCode, buffer: array2<ScreenChar>)
      requires IsBuffer(buffer)
      ensures Valid()
      ensures this.column == 0 && this.color == color && this.buffer == buffer
    {
      this.column := 0;
      this.color := color;
      this.buffer := buffer;
    }

    /** `new_line`: an empty body. */
    method NewLine()
      ensures unchanged(this) && unchanged(buffer)
    {
    }

    /** `write_byte`: a line feed changes nothing; any other byte goes into
        the bottom row at the cursor, with the current attribute, and the
        cursor moves one column right (StepByte). The rows above stay as
        they were. */
    method WriteByte(b: uint8)
      requires Valid()
      requires b == Newline || column < BufferWidth
      modifies this`column, buffer
      ensures Valid()
      ensures RowsAboveOf(buffer) == old(RowsAboveOf(buffer))
      ensures StepByte(old(CurrentLine()), color, b) == Some(CurrentLine())
    {
      ghost var before := CurrentLine();
      ghost var above := RowsAboveOf(buffer);
      if b == Newline {
        NewLine();
      } else {
        if column >= BufferWidth {
          NewLine();
        }
        var row := BottomRow;
        var col := column;
        var colorCode := color;
        buffer[row, col] := ScreenChar(b, colorCode);
        column := column + 1;
        assert BottomRowOf(buffer) == before.cells[col := ScreenChar(b, colorCode)];
        forall r | 0 <= r < BottomRow
          ensures RowsAboveOf(buffer)[r] == above[r]
        {
        }
      }
    }

    /** `write_string`: s is the string's bytes (`s.bytes()`, Utf8.Encode
        at the call site); each goes to `write_byte`, printable ASCII and
        line feeds as they are and every other byte as the substitute
        glyph (StepString). The row must have room for the glyphs;
        otherwise the write panics (StepStringClosedForm). The glyphs land
        from the cursor on and the cursor moves past them. */
    method WriteString(s: seq<uint8>)
      requires Valid()
      requires column + |Glyphs(s)| <= BufferWidth
      modifies this`column, buffer
      ensures Valid()
      ensures RowsAboveOf(buffer) == old(RowsAboveOf(buffer))
      ensures CurrentLine() == Line(old(column) + |Glyphs(s)|, Overwrite(old(BottomRowOf(buffer)), old(column), Glyphs(s), color))
      ensures StepString(old(CurrentLine()), color, s) == Some(CurrentLine())
    {
      ghost var before := CurrentLine();
      for i := 0 to |s|
        invariant Valid()
        invariant column == before.column + |Glyphs(s[..i])|
        invariant RowsAboveOf(buffer) == old(RowsAboveOf(buffer))
        invariant StepString(before, color, s[..i]) == Some(CurrentLine())
      {
        GlyphsStep(s, i);
        ghost var mid := CurrentLine();
        WriteByte(ForwardedByte(s[i]));
        assert StepString(mid, color, [s[i]]) == Some(CurrentLine()) by {
          assert [s[i]][1..] == [];
        }
        assert s[..i + 1] == s[..i] + [s[i]];
        StepStringConcat(before, color, s[..i], [s[i]]);
      }
      assert s[..|s|] == s;
      StepStringClosedForm(before, color, s);
    }
  }

  // ---------------------------------------------------------------------
  // print_something
  // ---------------------------------------------------------------------

  /** The strings `print_something` writes after the byte 'H'. */
  const Greeting: string := "ello! "
  const World: string := "Wörld!"
  const TestSentence: string := "This is a test of the VGA buffer."

  /** A string of printable ASCII shows as its own characters. */
  lemma PrintableStringGlyphs(s: string)
    requires forall i :: 0 <= i < |s| ==> 0x20 <= s[i] as int <= 0x7E
    ensures |Glyphs(Utf8.Encode(s))| == |s|
    ensures forall i :: 0 <= i < |s| ==> Glyphs(Utf8.Encode(s))[i] as int == s[i] as int
  {
    Utf8.EncodeAscii(s);
    GlyphsOfPrintable(Utf8.Encode(s));
  }

  /** Greeting shows as itself. */
  lemma GreetingGlyphs()
    ensures |Glyphs(Utf8.Encode(Greeting))| == 6
    ensures forall i :: 0 <= i < 6 ==> Glyphs(Utf8.Encode(Greeting))[i] as int == Greeting[i] as int
  {
    PrintableStringGlyphs(Greeting);
  }

  /** The test sentence shows as itself. */
  lemma SentenceGlyphs()
    ensures |Glyphs(Utf8.Encode(TestSentence))| == |TestSentence| == 33
    ensures forall i :: 0 <= i < 33 ==> Glyphs(Utf8.Encode(TestSentence))[i] as int == TestSentence[i] as int
  {
    PrintableStringGlyphs(TestSentence);
  }

  /** World is seven bytes: 'W' and "rld!" show as themselves, the two
      bytes of 'ö' as two substitute glyphs. */
  lemma WorldGlyphs()
    ensures |Glyphs(Utf8.Encode(World))| == 7
    ensures Glyphs(Utf8.Encode(World))[0] == 'W' as uint8
    ensures Glyphs(Utf8.Encode(World))[1] == Glyphs(Utf8.Encode(World))[2] == Unrepresentable
    ensures forall c :: 3 <= c < 7 ==> Glyphs(Utf8.Encode(World))[c] as int == World[c - 1] as int
  {
    var w := World;
    var head, umlaut, tail := Utf8.EncodeChar(w[0]), Utf8.EncodeChar(w[1]), Utf8.Encode(w[2..]);
    Utf8.EncodeCons(w);
    Utf8.EncodeCons(w[1..]);
    assert w[1..][0] == w[1] && w[1..][1..] == w[2..];
    assert Utf8.Encode(w) == head + umlaut + tail;
    GlyphsAppend(head + umlaut, tail);
    GlyphsAppend(head, umlaut);
    GlyphsOfPrintable(head);
    assert w[1] == 'ö' && |umlaut| == 2;
    NonAsciiGlyphs(w[1]);
    PrintableStringGlyphs(w[2..]);
  }

  /** How many glyphs each of the three strings produces. */
  lemma GlyphCounts()
    ensures |Glyphs(Utf8.Encode(Greeting))| == 6
    ensures |Glyphs(Utf8.Encode(World))| == 7
    ensures |Glyphs(Utf8.Encode(TestSentence))| == 33
  {
    GreetingGlyphs();
    WorldGlyphs();
    SentenceGlyphs();
  }

  /** The bytes `print_something` hands to the writer, in order: the byte
      'H', then the UTF-8 encodings of its three strings. Their glyphs are
      those of the four writes end to end, 47 in all. */
  function PrintedBytes(): (s: seq<uint8>)
    ensures Glyphs(s)
      == [0x48] + Glyphs(Utf8.Encode(Greeting)) + Glyphs(Utf8.Encode(World)) + Glyphs(Utf8.Encode(TestSentence))
    ensures |Glyphs(s)| == 47
  {
    var h, a, b, d := ['H' as uint8], Utf8.Encode(Greeting), Utf8.Encode(World), Utf8.Encode(TestSentence);
    GlyphCounts();
    GlyphsAppend(h + a + b, d);
    GlyphsAppend(h + a, b);
    GlyphsAppend(h, a);
    assert Glyphs(h) == [0x48];
    h + a + b + d
  }

  /** The first two writes of `print_something` from column 0: 'H' and then
      Greeting leave the cursor at column 7 and "Hello! " at the start of
      the row in the writer's attribute, the rest of the row as it was. */
  lemma GreetingWritten(l0: Line, l1: Line, l2: Line, color: ColorCode)
    requires l0.column == 0 && |l0.cells| == BufferWidth
    requires StepByte(l0, color, 'H' as uint8) == Some(l1)
    requires StepString(l1, color, Utf8.Encode(Greeting)) == Some(l2)
    ensures l2.column == 7
    ensures l2.cells[0] == ScreenChar('H' as uint8, color)
    ensures forall c :: 1 <= c < 7 ==>
      l2.cells[c].asciiCharacter as int == Greeting[c - 1] as int && l2.cells[c].colorCode == color
    ensures forall c :: 7 <= c < BufferWidth ==> l2.cells[c] == l0.cells[c]
  {
    GreetingGlyphs();
    StepStringClosedForm(l1, color, Utf8.Encode(Greeting));
  }

  /** One byte and then three strings on the reference semantics, each
      write starting where the previous one stopped, lay out the glyphs of
      all their bytes from the first cursor on. */
  lemma WritesCompose(l0: Line, l1: Line, l2: Line, l3: Line, l4: Line, color: ColorCode,
                      h: uint8, a: seq<uint8>, b: seq<uint8>, d: seq<uint8>)
    requires |l0.cells| == BufferWidth && l0.column <= BufferWidth
    requires ForwardedByte(h) == h
    requires StepByte(l0, color, h) == Some(l1)
    requires StepString(l1, color, a) == Some(l2)
    requires StepString(l2, color, b) == Some(l3)
    requires StepString(l3, color, d) == Some(l4)
    ensures l0.column + |Glyphs([h] + a + b + d)| <= BufferWidth
    ensures l4 == Line(l0.column + |Glyphs([h] + a + b + d)|, Overwrite(l0.cells, l0.column, Glyphs([h] + a + b + d), color))
  {
    assert StepString(l0, color, [h]) == Some(l1) by {
      assert [h][1..] == [];
    }
    StepStringConcat(l0, color, [h], a);
    StepStringConcat(l0, color, [h] + a, b);
    StepStringConcat(l0, color, [h] + a + b, d);
    StepStringClosedForm(l0, color, [h] + a + b + d);
  }

  /** `print_something` on the given grid (the fixed address 0xb8000 becomes
      a parameter): yellow on black from column 0, one byte and three
      strings, which leave the glyphs of PrintedBytes at the start of the
      bottom row and every other cell as it was. Returns the writer so that its
      cursor can be observed. No write reaches the end of the row. */
  method PrintSomething(buffer: array2<ScreenChar>) returns (writer: Writer)
    requires IsBuffer(buffer)
    modifies buffer
    ensures writer.buffer == buffer && writer.Valid()
    ensures writer.color == ColorCode(0x0E)
    ensures writer.CurrentLine() == Line(|Glyphs(PrintedBytes())|, Overwrite(old(BottomRowOf(buffer)), 0, Glyphs(PrintedBytes()), writer.color))
    ensures RowsAboveOf(buffer) == old(RowsAboveOf(buffer))
  {
    YellowOnBlack();
    GlyphCounts();
    writer := new Writer(NewColorCode(Yellow, Black), buffer);
    ghost var l0 := writer.CurrentLine();
    writer.WriteByte('H' as uint8);
    ghost var l1 := writer.CurrentLine();
    writer.WriteString(Utf8.Encode(Greeting));
    ghost var l2 := writer.CurrentLine();
    writer.WriteString(Utf8.Encode(World));
    ghost var l3 := writer.CurrentLine();
    writer.WriteString(Utf8.Encode(TestSentence));
    WritesCompose(l0, l1, l2, l3, writer.CurrentLine(), writer.color,
                  'H' as uint8, Utf8.Encode(Greeting), Utf8.Encode(World), Utf8.Encode(TestSentence));
  }
}
