# divoom-rs in Dafny

This project models the core of `divoom-rs`. That program drives a 32×32 Divoom
pixel display over a serial link. The model covers these parts:

- **Upload.** To show an image, `send_image` reduces the pixels to a palette of at
  most nine colours. The palette is built greedily, pixel by pixel, with
  `best_color_match`. Each pixel's palette index keeps its low bits, least
  significant first, and the bits are packed into bytes. The result is wrapped in an
  image payload with a 12-byte header.
- **Framing.** `divoom_command` prefixes every command with its length and opcode.
  `format_payload` frames it as `01 · payload · checksum · 02`, where the checksum
  is the 16-bit little-endian sum of the payload bytes.
- **Worked examples.** The `UpdateBrightness` opcode exists in the command enum, but nothing in the program sends it. The `Brightness*` lemmas use it as worked examples of the framing: the exact bytes of a one-argument command.
- **Text.** `print_text` draws text into the 32×32 colour buffer before it is sent.
  Each character is a 3×5 glyph cut out of an RGBA font sheet (`add_letter`),
  placed on an 8-column grid of 4×6 cells.

The Dafny modules follow the source files:

| file | module | models |
|---|---|---|
| `utils.dfy` | `Utils` | `src/utils.rs`: opcodes, `littlehex`, `checksum`, `format_payload`, the payload of `divoom_command`, `best_color_match` |
| `palette.dfy` | `Palette` | the palette loop of `send_image` (`src/main.rs`) |
| `bitpack.dfy` | `BitPack` | the bit-width rule, the bit stream and the byte packer of `send_image` |
| `image.dfy` | `Image` | the colour data, the image payload and the whole of `send_image` up to the port write, plus a receiver that decodes a frame back into pixels |
| `text.dfy` | `Text` | `print_text`, `alpha_to_number` and `add_letter` |

Each loop or step-by-step construction of the source is a method whose postcondition equals a specification
function: `BestColorMatch`, `BuildPalette`, `PackIndices`, `ColorData`,
`SendImage`, `FormatPayload`, `BuildCommand`, `AddLetter` and `PrintText`. The
properties are proved about those functions:

- the framing and the command payload parse back;
- the image payload parses back;
- the bit packing reads back;
- the palette keeps the invariant the loop maintains;
- an uploaded image decodes to each pixel's palette colour, and exactly to the
  image when its colours are few and far apart;
- `print_text` puts each character's glyph in its own cell and cannot overrun
  the buffer for texts of up to 40 characters.

Behaviour a reader might not expect:

- Index bits are stored least significant first. `bits_vec.reverse()` is commented out.
- The payload tag is the four bytes `00 0A 0A 04`, followed by `AA`.
- The length field counts from itself: 7 + 3·(palette size) + (packed bytes).
- A palette of one colour gets 0 bits per pixel.
- There is no error for an image of the wrong size. Every pixel given is quantised.
- The brightness frame for level 100 ends with checksum `DC 00`: 0x04 + 0x74 + 0x64 = 0xDC.

## Model

| member | source | states |
|---|---|---|
| Utils.Channels | src/utils.rs:26-28 | `Color::colors` gives three bytes |
| Utils.ChannelsColor | src/utils.rs:26-28 | those bytes are r, g, b, so they read back as the colour |
| Utils.Opcode | src/utils.rs:7-12 | each command's opcode byte (0x44, 0x49, 0x74, 0x46) maps back to that command |
| Utils.CommandOfOpcode | src/utils.rs:7-12 | an opcode byte decodes to a command exactly when it is that command's opcode |
| Utils.LittleHex | src/utils.rs:68-70 | `littlehex` yields two bytes, low then high, whose little-endian value is the input |
| Utils.LittleHexOfValue | src/utils.rs:68-70 | `littlehex` of the value of two bytes gives back those bytes (inverse) |
| Utils.Fold16 | src/utils.rs:64 | the `u16` fold adds the bytes left to right and wraps at every step. The result equals the true sum modulo 2^16 |
| Utils.Checksum | src/utils.rs:63-66 | the checksum is two bytes whose little-endian value is the byte sum modulo 2^16 |
| Utils.Frame | src/utils.rs:50-61 | a framed payload is four bytes longer than the payload |
| Utils.FrameLayout | src/utils.rs:50-61 | the frame starts with 0x01, ends with 0x02, holds the payload at offset 1, and holds its checksum just before the end |
| Utils.FrameParses | src/utils.rs:50-61 | parsing a formatted frame gives back the payload |
| Utils.ParsedFrameIsFrame | src/utils.rs:50-61 | any byte string that parses as a frame is exactly the frame of what it parses to (no other input parses) |
| Utils.FormatPayload | src/utils.rs:50-61 | `format_payload` builds exactly the frame of its payload |
| Utils.CommandPayload | src/utils.rs:37-43 | the command payload is three bytes longer than its arguments |
| Utils.CommandLayout | src/utils.rs:37-43 | the payload is `littlehex(len(args) + 3)`, then the opcode, then the arguments |
| Utils.CommandParses | src/utils.rs:37-43 | a command payload whose length fits 16 bits parses back to its command and arguments |
| Utils.ParsedCommandIsPayload | src/utils.rs:37-43 | any byte string that parses as a command is exactly that command's payload |
| Utils.BuildCommand | src/utils.rs:37-47 | `divoom_command` writes exactly the frame of the command payload |
| Utils.BrightnessPayload | src/utils.rs:37-43 | the brightness command for level `l` is the payload `04 00 74 l` |
| Utils.BrightnessChecksum | src/utils.rs:63-66 | the checksum of that payload is `littlehex(0x78 + l)` |
| Utils.BrightnessFrame | src/utils.rs:37-61 | the brightness frame for level `l` is `01 04 00 74 l`, then `littlehex(0x78 + l)`, then `02` |
| Utils.BrightnessHundred | src/utils.rs:37-61 | a brightness command for level 100 would be sent as `01 04 00 74 64 DC 00 02` |
| Utils.ChecksumOf | src/utils.rs:63-66 | a payload whose byte sum `s` is below 2^16 has checksum `littlehex(s)` |
| Utils.Distance | src/utils.rs:86-90 | the colour distance is at most 765 and is zero exactly for equal colours |
| Utils.BestMatch | src/utils.rs:72-98 | an empty palette gives index 0 with distance 765. Otherwise the result is the first entry at minimal distance, with that distance |
| Utils.BestMatchExact | src/utils.rs:83-98 | the best distance is zero exactly when the colour is in the palette |
| Utils.BestColorMatch | src/utils.rs:83-98 | the loop of `best_color_match` computes that best match |
| Palette.IndexOf | src/main.rs:151-153 | `position` finds the first palette entry equal to the pixel |
| Palette.Step | src/main.rs:145-157 | one iteration of the pixel loop emits one index and leaves the earlier ones alone. It either keeps the palette or appends the pixel, and an appended pixel's index is the old palette length |
| Palette.StepConsistent | src/main.rs:144-158 | one pixel keeps the palette consistent: at most nine entries, pairwise at distance 128 or more, every index in range. It emits one index and only appends to the palette |
| Palette.StepReuse | src/main.rs:145-149 | with more than eight entries, or with an entry closer than 128, the pixel takes the nearest entry's index |
| Palette.StepAppend | src/main.rs:156-157 | otherwise a new colour is appended and the pixel takes its index |
| Palette.LookupBranchDead | src/main.rs:151-154 | a pixel that reaches the `contains` test is never in the palette, so that branch cannot be taken |
| Palette.AppendSeparated | src/main.rs:146-157 | appending a colour at distance 128 or more from every entry keeps the palette separated |
| Palette.Quantize | src/main.rs:144-158 | the loop emits one index per pixel |
| Palette.QuantizeConsistent | src/main.rs:144-158 | after any number of pixels the palette is consistent |
| Palette.QuantizePrefix | src/main.rs:144-158 | processing more pixels only extends the palette and the index list |
| Palette.QuantizeNext | src/main.rs:144-158 | the state after pixel `i` is one loop step from the state before it |
| Palette.StepWhenFull | src/main.rs:145-148 | with nine entries a pixel takes its nearest entry and the palette does not change |
| Palette.FrozenOnceFull | src/main.rs:146 | once the palette has nine entries it never changes again |
| Palette.FullAt | src/main.rs:146 | a palette that is full after `k` pixels is the same after any later pixel |
| Palette.IndexAt | src/main.rs:144-158 | the index of pixel `i` is the one the step at `i` emits |
| Palette.NearestAt | src/main.rs:145-148 | once the palette is full, pixel `i` gets the index of its nearest entry |
| Palette.NearestOnceFull | src/main.rs:145-148 | after the palette fills, every later pixel gets the index of its nearest entry |
| Palette.SeparatedDistinct | src/main.rs:146-157 | a separated palette has no duplicate colours |
| Palette.StepKnown | src/main.rs:145-148 | a pixel already in the palette keeps the palette and gets an index of its own colour |
| Palette.StepNew | src/main.rs:156-157 | a new colour from a set of at most nine far-apart colours is appended at the end |
| Palette.StepExact | src/main.rs:144-158 | for such colours every step indexes the pixel's own colour |
| Palette.ExactOn | src/main.rs:144-158 | for pixels drawn from at most nine colours pairwise 128 or more apart, every index names the pixel's own colour |
| Palette.ExactWhenSeparated | src/main.rs:144-158 | an image with at most nine distinct colours, pairwise 128 or more apart, is quantised without loss |
| Palette.BuildPalette | src/main.rs:142-158 | the loop of `send_image` computes exactly the quantised palette and indices |
| BitPack.FloorLog2 | src/main.rs:178-179 | the integer part `k` of log2(n) satisfies 2^k <= n < 2^(k+1) |
| BitPack.BitWidth | src/main.rs:178-185 | the bits per index: 0 for a palette of 0 or 1 colours; otherwise at least the integer part of log2(n) and at most one more. BitWidthTable gives the exact width for every reachable size |
| BitPack.BitWidthTable | src/main.rs:178-185 | palette sizes 0-1 get 0 bits, 2 gets 1, 3-4 get 2, 5-8 get 3, 9 gets 4 |
| BitPack.BitWidthUpToFour | src/main.rs:178-185 | the bit width for palettes of up to four colours |
| BitPack.BitWidthFiveToSeven | src/main.rs:178-185 | the bit width is 3 for five to seven colours |
| BitPack.BitWidthEightToNine | src/main.rs:178-185 | the bit width is 3 for eight colours and 4 for nine |
| BitPack.BitWidthFits | src/main.rs:178-185 | for up to nine colours the width is at most 4 and is the least that can hold every index |
| BitPack.BitWidthMonotone | src/main.rs:178-185 | a larger palette never gets fewer bits |
| BitPack.LowBits | src/main.rs:189-193 | an index truncated to `w` bits has exactly `w` bits |
| BitPack.BitsValue | src/main.rs:200 | `load::<u8>()` on an `Lsb0` slice reads the bits as a number, first bit least significant, below 2^(number of bits); LowBitsValue and ValueLowBits make it the inverse of LowBits |
| BitPack.LowBitsValue | src/main.rs:189-193 | an index below 2^w is recovered from its low `w` bits |
| BitPack.ValueLowBits | src/main.rs:189-193 | any bit string is the low bits of its value (inverse direction) |
| BitPack.LowBitsPrefix | src/main.rs:189-193 | truncating to `k` bits keeps the first `k` of the least-significant-first bits |
| BitPack.Stream | src/main.rs:187-195 | the bit stream holds min(w, 8) bits for each index |
| BitPack.StreamSlice | src/main.rs:187-195 | index `i` occupies stream bits `i·w` to `i·w + w`, holding its own low bits |
| BitPack.PackBits | src/main.rs:197-201 | the packer emits one byte per whole eight bits and drops a trailing partial byte |
| BitPack.PackedByteBits | src/main.rs:197-201 | byte `k` holds stream bits `8k` to `8k + 8`, least significant first |
| BitPack.UnpackPacked | src/main.rs:197-201 | unpacking the packed bytes gives back the whole-byte prefix of the stream |
| BitPack.UnpackPackedPrefix | src/main.rs:197-201 | the first `m` packed bytes unpack to the first `8m` stream bits |
| BitPack.UnstreamStream | src/main.rs:187-195 | reading `w`-bit fields back from the stream gives the indices, when each is below 2^w |
| BitPack.UnstreamStreamAt | src/main.rs:187-195 | field `i` of the stream reads back as index `i` |
| BitPack.UnstreamPrefix | src/main.rs:197-201 | reading fields from a prefix of the stream gives a prefix of the fields |
| BitPack.PackRoundTrip | src/main.rs:187-201 | packed indices read back as those whose bits all reached a whole byte, and all of them when the bit count is a multiple of 8 |
| BitPack.PackIndices | src/main.rs:187-201 | the two loops of `send_image` compute exactly the packed stream |
| Image.PaletteBytes | src/main.rs:169-172 | the colour data has three bytes per palette entry |
| Image.PaletteBytesAt | src/main.rs:169-172 | entry `i` occupies bytes `3i` to `3i + 3` as r, g, b |
| Image.ColorsOfPaletteBytes | src/main.rs:169-172 | the colour data reads back as the palette |
| Image.PaletteBytesOfColors | src/main.rs:169-172 | any byte string of whole triples is the colour data of what it reads as (inverse direction) |
| Image.ColorData | src/main.rs:169-172 | the loop computes exactly the colour data |
| Image.Header | src/main.rs:203-209 | the payload header is 12 bytes |
| Image.ImagePayload | src/main.rs:203-211 | the payload is 12 header bytes longer than the colour data and the pixel data together. Their order and the header fields are stated by `ImagePayloadLayout` |
| Image.ImagePayloadLayout | src/main.rs:203-211 | tag `00 0A 0A 04`, `AA`, a length field equal to the payload length minus 5 (mod 2^16), `00 00 03`, the palette size, then the colour data and the pixel data |
| Image.PaletteFields | src/main.rs:203-211 | the same layout for a palette payload, with the palette size read exactly |
| Image.ImagePayloadParses | src/main.rs:203-211 | an image payload parses back to its palette and packed pixels |
| Image.HeaderOf | src/main.rs:203-209 | a byte string with the fixed header fields begins with the header of its two length fields |
| Image.ParsedReadsAs | src/main.rs:203-211 | a parsed payload has the fixed fields, lengths and contents of an image payload |
| Image.PayloadOfLayout | src/main.rs:203-211 | a byte string with that layout is the image payload of its parts |
| Image.ReadsAsPayload | src/main.rs:203-211 | such a byte string is the payload of the palette and pixels it reads as |
| Image.ParsedImagePayload | src/main.rs:203-211 | anything that parses as an image payload is exactly the payload of its parts |
| Image.HeaderThenData | src/main.rs:203-211 | the step-by-step construction in `send_image` builds the image payload |
| Image.ImageFrameParts | src/main.rs:141-215 | the frame of an image is the command frame of the payload of its palette and packed indices |
| Image.ImageFrame | src/main.rs:141-215 | the frame `send_image` writes is at least 19 bytes. It opens with 0x01, has the image opcode 0x44 at byte 3 and closes with 0x02 |
| Image.SendImage | src/main.rs:141-215 | `send_image` writes exactly the image frame of its pixels |
| Image.ReadIndices | src/main.rs:187-201 | a successful read yields one index per pixel |
| Image.ReadPackedIndices | src/main.rs:187-201 | packed indices whose bits fill whole bytes read back exactly, also for width 0 |
| Image.ShowPayload | src/main.rs:203-211 | a shown payload has one colour per pixel |
| Image.DecodeImage | src/main.rs:141-215 | a decoded frame has one colour per pixel |
| Image.DecodeFramed | src/main.rs:141-215 | decoding a framed image command is decoding its payload |
| Image.ShowParsed | src/main.rs:203-211 | each pixel shows the palette entry its read index names |
| Image.ShowUpload | src/main.rs:169-211 | an uploaded palette and indices display each pixel as the palette entry of its index |
| Image.WholeBytes | src/main.rs:197-201 | a screen's worth of pixels (a multiple of 8, at most 4 bits each) packs into whole bytes, at most 512 |
| Image.DecodeImageFrame | src/main.rs:141-215 | every pixel of an uploaded image (a multiple of 8 pixels, up to 1024) decodes to its quantised palette colour |
| Image.ShownExactly | src/main.rs:141-215 | an image with at most nine colours, pairwise 128 or more apart, decodes to itself |
| Text.ToAsciiLower | src/main.rs:109 | `to_ascii_lowercase` turns `A`-`Z` into the letter at the same place in `a`-`z`, leaves every other character alone, and leaves no upper-case letter, so applying it twice changes nothing more |
| Text.Position | src/main.rs:108-110 | `position` finds a character exactly when it occurs, at the first index holding it |
| Text.AlphaToNumber | src/main.rs:108-110 | a character is numbered exactly when its ASCII lower case is in the alphabet, and the number indexes that letter |
| Text.SwappedLetters | src/main.rs:108-110 | `n`/`N` is glyph 12 and `m`/`M` glyph 13, as in the sheet's alphabet |
| Text.AlphabetDistinct | src/main.rs:108-110 | each letter of the alphabet is numbered by its own position |
| Text.LettersNumbered | src/main.rs:108-110 | every ASCII letter in either case is numbered below 26, so it does not panic |
| Text.OffsetPixel | src/main.rs:118-130 | the sheet offset read by `add_letter` is four bytes per pixel, at the pixel in column `3·symbol + x`, row `y`, of the sheet |
| Text.CellPosition | src/main.rs:136 | the buffer index written is that of column `place_x + x`, row `place_y + y`, of the 32-wide buffer |
| Text.GlyphPixel | src/main.rs:126-136 | the glyph pixel found for a buffer cell lies in the 3×5 glyph and lands on that cell |
| Text.GlyphPixelOfCell | src/main.rs:126-136 | each glyph pixel's cell maps back to that pixel |
| Text.Painted | src/main.rs:124-138 | drawing a glyph keeps the buffer's size |
| Text.PaintedCells | src/main.rs:124-138 | after `add_letter`, the cell of each opaque pixel holds its colour, and every other cell keeps its colour. This includes cells under pixels with alpha 0 |
| Text.PaintStep | src/main.rs:124-138 | one loop iteration changes at most the cell of its own pixel |
| Text.CheckStep | src/main.rs:124-138 | one more iteration runs without panic exactly when its four reads are in the sheet and its write, if any, is in the buffer |
| Text.AddLetter | src/main.rs:112-139 | `add_letter` runs without panic exactly when every read and write is in bounds, and then draws the glyph as specified |
| Text.IsWhitespace | src/main.rs:96-98 | `is_whitespace` holds for exactly the 25 characters with the Unicode White_Space property, none of which is a digit or a letter |
| Text.IsNumeric | src/main.rs:100 | a character is numeric exactly when it is one of the ten ASCII digits (see Left out), none of which is a letter |
| Text.GlyphFor | src/main.rs:96-104 | whitespace draws nothing. A digit draws the glyph at its code point (not its value) from the number sheet. Any other character draws its letter's glyph from the font, and one that is not a letter panics |
| Text.DrawChar | src/main.rs:96-104 | one iteration of `print_text` leaves the buffer alone for whitespace and keeps its size. It panics exactly when the character has no glyph or its glyph cannot be drawn at the character's cell |
| Text.DrawGlyph | src/main.rs:101-103 | a glyph is drawn exactly when `add_letter` would not panic |
| Text.Render | src/main.rs:86-106 | rendering keeps the buffer's size |
| Text.RenderStops | src/main.rs:92-105 | once a character panics the whole call does |
| Text.RenderNext | src/main.rs:92-105 | each character is one more drawing step on the buffer so far |
| Text.PrintText | src/main.rs:86-106 | `print_text` succeeds exactly when the rendering does, and leaves the rendered buffer |
| Text.Column | src/main.rs:93-103 | character `i` is placed at column 4·(i % 8), so its 3-pixel glyph never crosses the right edge |
| Text.Row | src/main.rs:94-103 | character `i` is placed at row 6·(i / 8), so the glyphs of the first five text rows stay above the bottom edge |
| Text.GridPlace | src/main.rs:93-103 | character `i` is placed at column 4·(i % 8), row 6·(i / 8); the place gives back `i` |
| Text.ScreenFit | src/main.rs:93-94 | the glyphs of the first 40 characters lie inside the 32×32 buffer |
| Text.GlyphsApart | src/main.rs:93-94 | two different characters never draw on the same cell |
| Text.OtherGlyphKeeps | src/main.rs:93-104 | drawing one character's glyph keeps every cell of another character's glyph |
| Text.RenderShowsEach | src/main.rs:86-139 | after `print_text`, every opaque pixel of every character's glyph shows in the buffer in its own colour |
| Text.RenderKeepsBackground | src/main.rs:86-139 | cells covered by no character's glyph keep their colour |
| Text.RenderSucceeds | src/main.rs:86-139 | for at most 40 whitespace, digit or ASCII-letter characters, on a 1024-cell buffer with complete sheets, `print_text` does not panic |

## Left out

- Serial I/O: the port, its mutex, `write` and its `unwrap`. `BuildCommand` and `SendImage` return the bytes they would write.
- The tokio runtime, the reader task that prints device replies, and the sleeps. These are concurrency and timing only.
- The demo loop in `main`, loading `font.png`/`numbers.png`/image files, and image decoding. The glyph sheets are inputs: RGBA bytes plus a width.
- `as_mut_rgba8().unwrap()`: sheets are assumed to be RGBA8 already.
- DEBUG printing in `send_image`.
- BitWidth: computed with exact integers (log2(n) exceeds its integer part by more than 0.1 iff n^10 > 2·(2^k)^10), not with `f32` logarithms. The table lemmas pin the result for every reachable palette size, 0 to 9.
- Checksum: the `u16` fold is modelled as addition modulo 2^16. That is the release-build wrap-around; a debug build would panic on overflow instead.
- CommandPayload: the `length as u16` cast is modelled as modulo 2^16. `CommandParses` therefore needs the arguments to be shorter than 65533 bytes.
- ImagePayload: the `length as u16` and `len() as u16` casts are modelled as modulo 2^16. Parsing back needs a palette shorter than 65536 entries, which the quantiser guarantees (at most nine).
- Text.IsNumeric: only the ASCII digits are numeric. Rust's `is_numeric` also accepts other Unicode number characters. They would be drawn from the number sheet at their code point.
- Text.AddLetter: the `u32` arithmetic on glyph offsets and buffer cells is unbounded here. Overflow needs a glyph row of 2^27 or more, or a sheet wider than 2^28 pixels. The first comes from a text of about 1.8·10^8 characters that is whitespace after the first screen. A release build then wraps and may draw where the model reports a panic. A debug build panics, as the model does.
- AddLetter and PrintText: when the source panics part-way, the model says nothing about the buffer written so far. A panic ends the program.
- The receiver (`ParseFrame`, `ParseCommand`, `ParseImagePayload`, `ReadIndices`, `DecodeImage`) is not part of the source. It is an independent reading of the formats, stated so that the encoders can be proved to be inverted by it.
