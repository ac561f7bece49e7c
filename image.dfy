/**
 * The image upload of `send_image`: the palette bytes, the image payload that
 * carries them together with the packed indices, and the complete frame sent
 * for a screen of pixels. A receiver's reading of that frame is defined
 * alongside, and the two are shown to agree.
 */
module Image {
  import opened Utils
  import opened Palette
  import opened BitPack

  /** The four bytes that open every image payload. */
  const Tag: seq<Byte> := [0x00, 0x0A, 0x0A, 0x04]
  /** The byte that follows the tag. */
  const Sentinel: Byte := 0xAA
  /** The three bytes after the length field that select the 32x32 mode. */
  const Mode: seq<Byte> := [0x00, 0x00, 0x03]
  /** Tag, sentinel, length field, mode and palette count. */
  const HeaderSize := 12
  /** The panel is 32 by 32 pixels. */
  const ScreenPixels := 32 * 32

  // ---------------------------------------------------------------------------
  // Palette bytes

  /** Each palette colour as its red, green and blue bytes, in palette order. */
  function PaletteBytes(palette: seq<Color>): (r: seq<Byte>)
    ensures |r| == 3 * |palette|
  {
    if palette == [] then []
    else PaletteBytes(palette[..|palette| - 1]) + Channels(palette[|palette| - 1])
  }

  /** Colour `i` sits at bytes 3i, 3i+1 and 3i+2. */
  lemma {:induction false} PaletteBytesAt(palette: seq<Color>, i: nat)
    requires i < |palette|
    ensures PaletteBytes(palette)[3 * i..3 * i + 3] == Channels(palette[i])
  {
    var n := |palette|;
    var init := palette[..n - 1];
    if i < n - 1 {
      PaletteBytesAt(init, i);
      assert init[i] == palette[i];
      assert PaletteBytes(palette)[3 * i..3 * i + 3] == PaletteBytes(init)[3 * i..3 * i + 3];
    }
  }

  /** Groups bytes into colours, three at a time; a trailing partial group is dropped. */
  function ColorsOf(bytes: seq<Byte>): (palette: seq<Color>)
    ensures |palette| == |bytes| / 3
  {
    seq(|bytes| / 3, i requires 0 <= i < |bytes| / 3 => Color(bytes[3 * i], bytes[3 * i + 1], bytes[3 * i + 2]))
  }

  /** Regrouping the palette bytes gives the palette back. */
  lemma ColorsOfPaletteBytes(palette: seq<Color>)
    ensures ColorsOf(PaletteBytes(palette)) == palette
  {
    forall i | 0 <= i < |palette|
      ensures ColorsOf(PaletteBytes(palette))[i] == palette[i]
    {
      PaletteBytesAt(palette, i);
    }
  }

  /** Every whole number of colours' worth of bytes is the palette bytes of
      its regrouping, so the two functions are inverse bijections. */
  lemma PaletteBytesOfColors(bytes: seq<Byte>)
    requires |bytes| % 3 == 0
    ensures PaletteBytes(ColorsOf(bytes)) == bytes
  {
    var palette := ColorsOf(bytes);
    var r := PaletteBytes(palette);
    forall k | 0 <= k < |bytes|
      ensures r[k] == bytes[k]
    {
      var i := k / 3;
      PaletteBytesAt(palette, i);
      assert r[3 * i..3 * i + 3][k - 3 * i] == r[k];
    }
  }

  // ---------------------------------------------------------------------------
  // The image payload

  /** Tag, sentinel, the length field, the mode and the palette count. */
  function Header(length: U16, count: U16): (h: seq<Byte>)
    ensures |h| == HeaderSize
  {
    Tag + [Sentinel] + LittleHex(length) + Mode + LittleHex(count)
  }

  /** The payload for `count` colours whose bytes are `colorData`, followed by
      the packed indices; the length field counts the bytes from the field
      itself to the end. */
  function ImagePayload(count: nat, colorData: seq<Byte>, packed: seq<Byte>): (r: seq<Byte>)
    ensures |r| == HeaderSize + |colorData| + |packed|
  {
    Header(AsU16(7 + |colorData| + |packed|), AsU16(count)) + colorData + packed
  }

  /** Where each part of the payload sits: the length field holds the number
      of bytes from the field itself to the end, the count field the number of
      colours, both cut to 16 bits. */
  lemma ImagePayloadLayout(count: nat, colorData: seq<Byte>, packed: seq<Byte>)
    ensures var r := ImagePayload(count, colorData, packed);
      && r[..4] == Tag && r[4] == Sentinel && r[7..10] == Mode
      && LittleValue(r[5], r[6]) == AsU16(|r| - 5)
      && LittleValue(r[10], r[11]) == AsU16(count)
      && r[HeaderSize..HeaderSize + |colorData|] == colorData
      && r[HeaderSize + |colorData|..] == packed
  {
    var r := ImagePayload(count, colorData, packed);
    var len := LittleHex(AsU16(7 + |colorData| + |packed|));
    var cnt := LittleHex(AsU16(count));
    var h := Header(AsU16(7 + |colorData| + |packed|), AsU16(count));
    assert h == Tag + [Sentinel] + len + Mode + cnt;
    assert r[..HeaderSize] == h;
    assert h[5] == len[0] && h[6] == len[1] && h[10] == cnt[0] && h[11] == cnt[1];
    assert |r| - 5 == 7 + |colorData| + |packed|;
  }

  /** A receiver's reading of an image payload: the header must be intact, the
      length field must match and the palette must fit. */
  function ParseImagePayload(r: seq<Byte>): Option<(seq<Color>, seq<Byte>)>
  {
    if |r| < HeaderSize || r[..4] != Tag || r[4] != Sentinel || r[7..10] != Mode then None
    else
      var p: nat := LittleValue(r[10], r[11]);
      if |r| < HeaderSize + 3 * p || LittleValue(r[5], r[6]) != AsU16(|r| - 5) then None
      else Some((ColorsOf(r[HeaderSize..HeaderSize + 3 * p]), r[HeaderSize + 3 * p..]))
  }

  /** The payload cut at `n`, the length of the colour data, gives the colour
      data and the packed bytes back. */
  lemma LayoutCut(count: nat, colorData: seq<Byte>, packed: seq<Byte>, n: nat)
    requires n == |colorData|
    ensures var r := ImagePayload(count, colorData, packed);
      r[HeaderSize..HeaderSize + n] == colorData && r[HeaderSize + n..] == packed
  {
    ImagePayloadLayout(count, colorData, packed);
  }

  /** The payload `send_image` builds for a palette and the packed indices. */
  function PalettePayload(palette: seq<Color>, packed: seq<Byte>): seq<Byte>
  {
    ImagePayload(|palette|, PaletteBytes(palette), packed)
  }

  /** The fields a receiver checks, for a palette the 16-bit count can hold. */
  lemma PaletteFields(palette: seq<Color>, packed: seq<Byte>)
    requires |palette| < 0x1_0000
    ensures var r := PalettePayload(palette, packed);
      && r[..4] == Tag && r[4] == Sentinel && r[7..10] == Mode
      && LittleValue(r[5], r[6]) == AsU16(|r| - 5)
      && LittleValue(r[10], r[11]) == |palette|
      && r[HeaderSize..HeaderSize + 3 * |palette|] == PaletteBytes(palette)
      && r[HeaderSize + 3 * |palette|..] == packed
  {
    ImagePayloadLayout(|palette|, PaletteBytes(palette), packed);
    AsU16Small(|palette|);
    LayoutCut(|palette|, PaletteBytes(palette), packed, 3 * |palette|);
  }

  /** A payload for a palette the 16-bit count can hold reads back as its parts. */
  lemma ImagePayloadParses(palette: seq<Color>, packed: seq<Byte>)
    requires |palette| < 0x1_0000
    ensures ParseImagePayload(PalettePayload(palette, packed)) == Some((palette, packed))
  {
    PaletteFields(palette, packed);
    ColorsOfPaletteBytes(palette);
  }

  /** Twelve bytes with an intact tag, sentinel and mode are the header of
      the values their two fields denote. */
  lemma HeaderOf(r: seq<Byte>)
    requires |r| >= HeaderSize && r[..4] == Tag && r[4] == Sentinel && r[7..10] == Mode
    ensures r[..HeaderSize] == Header(LittleValue(r[5], r[6]), LittleValue(r[10], r[11]))
  {
    LittleHexOfValue(r[5], r[6]);
    LittleHexOfValue(r[10], r[11]);
    assert r[..HeaderSize] == r[..4] + [r[4]] + [r[5], r[6]] + r[7..10] + [r[10], r[11]];
  }

  /** The facts a successful reading of a payload establishes. */
  predicate ReadsAs(r: seq<Byte>, palette: seq<Color>, packed: seq<Byte>)
  {
    && |r| >= HeaderSize && r[..4] == Tag && r[4] == Sentinel && r[7..10] == Mode
    && HeaderSize + 3 * |palette| <= |r|
    && LittleValue(r[10], r[11]) == |palette|
    && LittleValue(r[5], r[6]) == AsU16(|r| - 5)
    && palette == ColorsOf(r[HeaderSize..HeaderSize + 3 * |palette|])
    && packed == r[HeaderSize + 3 * |palette|..]
  }

  lemma ParsedReadsAs(r: seq<Byte>, palette: seq<Color>, packed: seq<Byte>)
    requires ParseImagePayload(r) == Some((palette, packed))
    ensures ReadsAs(r, palette, packed)
  {
  }

  lemma Split3(r: seq<Byte>, i: nat, j: nat)
    requires i <= j <= |r|
    ensures r == r[..i] + r[i..j] + r[j..]
  {
  }

  /** The converse of the layout: bytes whose header is intact, whose length
      field counts from itself to the end and whose count field holds `count`
      are the payload of `count` colours with what follows the header. */
  lemma PayloadOfLayout(r: seq<Byte>, count: nat, colorData: seq<Byte>, packed: seq<Byte>)
    requires |r| == HeaderSize + |colorData| + |packed|
    requires r[..4] == Tag && r[4] == Sentinel && r[7..10] == Mode
    requires LittleValue(r[5], r[6]) == AsU16(|r| - 5)
    requires LittleValue(r[10], r[11]) == AsU16(count)
    requires r[HeaderSize..HeaderSize + |colorData|] == colorData
    requires r[HeaderSize + |colorData|..] == packed
    ensures r == ImagePayload(count, colorData, packed)
  {
    Split3(r, HeaderSize, HeaderSize + |colorData|);
    HeaderOf(r);
    AsU16Equal(|r| - 5, 7 + |colorData| + |packed|);
  }

  lemma ReadsAsPayload(r: seq<Byte>, palette: seq<Color>, packed: seq<Byte>)
    requires ReadsAs(r, palette, packed)
    ensures r == PalettePayload(palette, packed)
  {
    PaletteBytesOfColors(r[HeaderSize..HeaderSize + 3 * |palette|]);
    AsU16Small(|palette|);
    assert r[HeaderSize..HeaderSize + |PaletteBytes(palette)|] == PaletteBytes(palette);
    assert r[HeaderSize + |PaletteBytes(palette)|..] == packed;
    PayloadOfLayout(r, |palette|, PaletteBytes(palette), packed);
  }

  /** Whatever reads as a palette and packed bytes is the payload built from them. */
  lemma ParsedImagePayload(r: seq<Byte>, palette: seq<Color>, packed: seq<Byte>)
    requires ParseImagePayload(r) == Some((palette, packed))
    ensures r == PalettePayload(palette, packed)
  {
    ParsedReadsAs(r, palette, packed);
    ReadsAsPayload(r, palette, packed);
  }

  // ---------------------------------------------------------------------------
  // The whole upload

  /** The frame `send_image` writes for a screen of pixels. */
  function ImageFrame(pixels: seq<Color>): (f: seq<Byte>)
    ensures |f| >= 7 + HeaderSize
    ensures f[0] == 0x01 && f[3] == 0x44 && f[|f| - 1] == 0x02
  {
    var q := Quantize(pixels);
    var packed := PackBits(Stream(q.indices, BitWidth(|q.palette|)));
    var args := PalettePayload(q.palette, packed);
    FrameLayout(CommandPayload(UpdateImageFrame, args));
    CommandLayout(UpdateImageFrame, args);
    Frame(CommandPayload(UpdateImageFrame, args))
  }

  /** The frame for the palette and indices the quantiser produced. */
  lemma ImageFrameParts(pixels: seq<Color>, palette: seq<Color>, indices: seq<Byte>)
    requires Quantized(palette, indices) == Quantize(pixels)
    ensures ImageFrame(pixels)
      == Frame(CommandPayload(UpdateImageFrame,
           PalettePayload(palette, PackBits(Stream(indices, BitWidth(|palette|))))))
  {
  }

  /** The loop of `send_image` that lays out the palette bytes. */
  method ColorData(palette: seq<Color>) returns (colorData: seq<Byte>)
    ensures colorData == PaletteBytes(palette)
  {
    colorData := [];
    for i := 0 to |palette|
      invariant colorData == PaletteBytes(palette[..i])
    {
      colorData := colorData + Channels(palette[i]);
      assert palette[..i + 1][..i] == palette[..i];
    }
    assert palette[..|palette|] == palette;
  }

  /** The payload is its header followed by the palette and index bytes. */
  lemma HeaderThenData(count: nat, colorData: seq<Byte>, packed: seq<Byte>, length: nat, header: seq<Byte>)
    requires length == 7 + |colorData| + |packed|
    requires header == Header(AsU16(length), AsU16(count))
    ensures header + colorData + packed == ImagePayload(count, colorData, packed)
  {
    AsU16Equal(length, 7 + |colorData| + |packed|);
  }

  /** Quantises the pixels, lays out the palette bytes, packs the indices at
      the palette's bit width, assembles the payload and frames the command. */
  method SendImage(pixels: seq<Color>) returns (frame: seq<Byte>)
    ensures frame == ImageFrame(pixels)
  {
    var palette, indices := BuildPalette(pixels);
    var colorData := ColorData(palette);
    var nbits := BitWidth(|palette|);
    var pixelData := PackIndices(indices, nbits);
    var payload: seq<Byte> := [];
    payload := payload + Tag;
    assert payload == Tag;
    payload := payload + [Sentinel];
    var length := 7 + |colorData| + |pixelData|;
    payload := payload + LittleHex(AsU16(length));
    payload := payload + Mode;
    payload := payload + LittleHex(AsU16(|palette|));
    assert payload == Header(AsU16(length), AsU16(|palette|));
    HeaderThenData(|palette|, colorData, pixelData, length, payload);
    payload := payload + colorData;
    payload := payload + pixelData;
    frame := BuildCommand(UpdateImageFrame, payload);
    ImageFrameParts(pixels, palette, indices);
  }

  // ---------------------------------------------------------------------------
  // A receiver's view of the upload

  /** The first `count` indices carried by the packed bytes at width `w`; a
      width of zero carries no bits and every index is zero. */
  function ReadIndices(packed: seq<Byte>, w: nat, count: nat): (ix: Option<seq<nat>>)
    ensures ix.Some? ==> |ix.value| == count
  {
    if w == 0 then Some(seq(count, _ => 0))
    else
      var all := Unstream(UnpackBits(packed), w);
      if |all| < count then None else Some(all[..count])
  }

  /** Indices that fit their width and fill whole bytes read back unchanged. */
  lemma ReadPackedIndices(indices: seq<Byte>, w: nat)
    requires w <= 8
    requires forall i :: 0 <= i < |indices| ==> indices[i] < Pow2(w)
    requires |indices| * w % 8 == 0
    ensures ReadIndices(PackBits(Stream(indices, w)), w, |indices|) == Some(indices)
  {
    if w == 0 {
      assert seq(|indices|, _ => 0) == indices;
    } else {
      PackRoundTrip(indices, w);
    }
  }

  /** The colours a receiver shows for `count` pixels of an image payload:
      the palette entry each index names. */
  function ShowPayload(args: seq<Byte>, count: nat): (shown: Option<seq<Color>>)
    ensures shown.Some? ==> |shown.value| == count
  {
    match ParseImagePayload(args)
    case None => None
    case Some((palette, packed)) =>
      match ReadIndices(packed, BitWidth(|palette|), count)
      case None => None
      case Some(ix) =>
        if forall i :: 0 <= i < count ==> ix[i] < |palette| then
          Some(seq(count, i requires 0 <= i < count => palette[ix[i]]))
        else None
  }

  /** The colours a receiver shows for `count` pixels of a framed image command. */
  function DecodeImage(frame: seq<Byte>, count: nat): (shown: Option<seq<Color>>)
    ensures shown.Some? ==> |shown.value| == count
  {
    match ParseFrame(frame)
    case None => None
    case Some(p) =>
      match ParseCommand(p)
      case None => None
      case Some((command, args)) =>
        if command != UpdateImageFrame then None else ShowPayload(args, count)
  }

  /** Framing an image command of any length the 16-bit field can hold
      hides nothing from the receiver. */
  lemma DecodeFramed(args: seq<Byte>, count: nat)
    requires |args| + 3 < 0x1_0000
    ensures DecodeImage(Frame(CommandPayload(UpdateImageFrame, args)), count) == ShowPayload(args, count)
  {
    FrameParses(CommandPayload(UpdateImageFrame, args));
    CommandParses(UpdateImageFrame, args);
  }

  /** A payload that parses, with indices that read back and stay inside the
      palette, shows at every pixel the colour its index names. */
  lemma ShowParsed(args: seq<Byte>, palette: seq<Color>, packed: seq<Byte>, ix: seq<nat>)
    requires ParseImagePayload(args) == Some((palette, packed))
    requires ReadIndices(packed, BitWidth(|palette|), |ix|) == Some(ix)
    requires forall i :: 0 <= i < |ix| ==> ix[i] < |palette|
    ensures var shown := ShowPayload(args, |ix|);
      && shown.Some?
      && forall i :: 0 <= i < |ix| ==> shown.value[i] == palette[ix[i]]
  {
  }

  /** Indices below `n` fit a width whose power of two is at least `n`. */
  lemma IndicesFit(indices: seq<Byte>, n: nat, w: nat)
    requires n <= Pow2(w)
    requires forall i :: 0 <= i < |indices| ==> indices[i] < n
    ensures forall i :: 0 <= i < |indices| ==> indices[i] < Pow2(w)
  {
  }

  /** A payload carrying a palette of at most nine colours and indices into it
      that fill whole bytes shows, at every pixel, the colour its index names. */
  lemma ShowUpload(palette: seq<Color>, indices: seq<Byte>)
    requires |palette| <= Slack + 1
    requires forall i :: 0 <= i < |indices| ==> indices[i] < |palette|
    requires |indices| * BitWidth(|palette|) % 8 == 0
    ensures var shown := ShowPayload(PalettePayload(palette, PackBits(Stream(indices, BitWidth(|palette|)))), |indices|);
      && shown.Some?
      && forall i :: 0 <= i < |indices| ==> shown.value[i] == palette[indices[i]]
  {
    var w := BitWidth(|palette|);
    var packed := PackBits(Stream(indices, w));
    BitWidthFits(|palette|);
    ImagePayloadParses(palette, packed);
    IndicesFit(indices, |palette|, w);
    ReadPackedIndices(indices, w);
    ShowParsed(PalettePayload(palette, packed), palette, packed, indices);
  }

  /** At a width of at most four bits, a screenful or less of pixels in
      groups of eight packs into whole bytes, at most half a byte per pixel. */
  lemma WholeBytes(n: nat, w: nat)
    requires n <= ScreenPixels && n % 8 == 0 && w <= 4
    ensures n * w % 8 == 0 && n * w / 8 <= ScreenPixels / 2
  {
    var q := n / 8;
    assert n == 8 * q;
    MulMono(w, 4, q);
    assert n * w == 8 * (q * w);
  }

  /** Every pixel of an upload of a screenful or less shows as the palette
      colour `send_image` chose for it. */
  lemma DecodeImageFrame(pixels: seq<Color>)
    requires |pixels| <= ScreenPixels && |pixels| % 8 == 0
    ensures var q := Quantize(pixels);
      && DecodeImage(ImageFrame(pixels), |pixels|).Some?
      && forall i :: 0 <= i < |pixels| ==>
           q.indices[i] < |q.palette| && DecodeImage(ImageFrame(pixels), |pixels|).value[i] == q.palette[q.indices[i]]
  {
    var q := Quantize(pixels);
    QuantizeConsistent(pixels);
    var w := BitWidth(|q.palette|);
    BitWidthFits(|q.palette|);
    WholeBytes(|pixels|, w);
    var args := PalettePayload(q.palette, PackBits(Stream(q.indices, w)));
    DecodeFramed(args, |pixels|);
    ShowUpload(q.palette, q.indices);
  }

  /** An image of at most nine colours, any two of them at least the match
      threshold apart, is shown exactly. */
  lemma ShownExactly(pixels: seq<Color>)
    requires |pixels| <= ScreenPixels && |pixels| % 8 == 0
    requires |Colors(pixels)| <= Slack + 1
    requires forall i, j :: 0 <= i < |pixels| && 0 <= j < |pixels| && pixels[i] != pixels[j] ==>
               Distance(pixels[i], pixels[j]) >= Threshold
    ensures DecodeImage(ImageFrame(pixels), |pixels|) == Some(pixels)
  {
    DecodeImageFrame(pixels);
    ExactWhenSeparated(pixels);
    var shown := DecodeImage(ImageFrame(pixels), |pixels|).value;
    assert shown == pixels;
  }
}
