/** Model of the palette loop of `send_image` (src/main.rs): every pixel, in
    raster order, is matched against the palette built so far and either
    reuses the index of its nearest entry or becomes a new entry. */
module Palette {
  import opened Utils

  /** The palette stops growing once it holds more than this many entries. */
  const Slack := 8

  /** A pixel reuses its nearest entry when that entry is closer than this. */
  const Threshold := 128

  /** The two vectors the loop grows: `color_array` and `pixel_array`. */
  datatype Quantized = Quantized(palette: seq<Color>, indices: seq<Byte>)

  /** `x as u8`: Rust's truncating cast to 8 bits. */
  function AsU8(x: nat): Byte { x % 0x100 }

  lemma AsU8Small(x: nat)
    requires x < 0x100
    ensures AsU8(x) == x
  {
  }

  /** The first position of `c` in `palette` (`iter().position`). */
  function IndexOf(palette: seq<Color>, c: Color): (k: nat)
    requires c in palette
    ensures k < |palette| && palette[k] == c
    ensures forall j :: 0 <= j < k ==> palette[j] != c
  {
    if palette[0] == c then 0 else 1 + IndexOf(palette[1..], c)
  }

  /** Every entry is at least Threshold away from every earlier entry. */
  ghost predicate Separated(palette: seq<Color>)
  {
    forall i, j :: 0 <= i < j < |palette| ==> Distance(palette[i], palette[j]) >= Threshold
  }

  /** One iteration of the pixel loop: it emits one index and either keeps
      the palette or appends the pixel, whose index is then the old length. */
  function Step(q: Quantized, pixel: Color): (r: Quantized)
    ensures |r.indices| == |q.indices| + 1 && r.indices[..|q.indices|] == q.indices
    ensures r.palette == q.palette || r.palette == q.palette + [pixel]
    ensures r.palette != q.palette ==> r.indices[|q.indices|] == AsU8(|q.palette|)
  {
    var best := BestMatch(pixel, q.palette);
    if |q.palette| > Slack || best.diff < Threshold then
      Quantized(q.palette, q.indices + [AsU8(best.index)])
    else if pixel in q.palette then
      Quantized(q.palette, q.indices + [AsU8(IndexOf(q.palette, pixel))])
    else
      Quantized(q.palette + [pixel], q.indices + [AsU8(|q.palette|)])
  }

  /** What the loop keeps true of its vectors: at most nine entries, each
      separated from the earlier ones, and only indices of existing entries. */
  ghost predicate Consistent(q: Quantized)
  {
    && |q.palette| <= Slack + 1
    && (forall i :: 0 <= i < |q.indices| ==> q.indices[i] < |q.palette|)
    && Separated(q.palette)
  }

  /** Each iteration keeps the vectors consistent, emits one index and only
      appends to the palette. */
  lemma StepConsistent(q: Quantized, pixel: Color)
    requires Consistent(q)
    ensures Consistent(Step(q, pixel))
    ensures |Step(q, pixel).indices| == |q.indices| + 1
    ensures Step(q, pixel).indices[..|q.indices|] == q.indices
    ensures Step(q, pixel).palette[..|q.palette|] == q.palette
  {
    var best := BestMatch(pixel, q.palette);
    if |q.palette| > Slack || best.diff < Threshold {
      StepReuse(q, pixel);
    } else {
      LookupBranchDead(q.palette, pixel);
      StepAppend(q, pixel);
    }
  }

  /** Reusing the nearest entry names an existing one. */
  lemma StepReuse(q: Quantized, pixel: Color)
    requires Consistent(q)
    requires |q.palette| > Slack || BestMatch(pixel, q.palette).diff < Threshold
    ensures Step(q, pixel) == Quantized(q.palette, q.indices + [AsU8(BestMatch(pixel, q.palette).index)])
    ensures Consistent(Step(q, pixel))
  {
    var best := BestMatch(pixel, q.palette);
    assert q.palette != [];
    AsU8Small(best.index);
  }

  /** Appending a colour far from every entry keeps the palette separated. */
  lemma StepAppend(q: Quantized, pixel: Color)
    requires Consistent(q)
    requires |q.palette| <= Slack && BestMatch(pixel, q.palette).diff >= Threshold
    requires pixel !in q.palette
    ensures Step(q, pixel) == Quantized(q.palette + [pixel], q.indices + [AsU8(|q.palette|)])
    ensures Consistent(Step(q, pixel))
  {
    AppendSeparated(q.palette, pixel);
    AsU8Small(|q.palette|);
  }

  /** A colour at least Threshold away from every entry keeps the palette
      separated when appended. */
  lemma AppendSeparated(palette: seq<Color>, pixel: Color)
    requires Separated(palette)
    requires BestMatch(pixel, palette).diff >= Threshold
    ensures Separated(palette + [pixel])
  {
    var next := palette + [pixel];
    forall i, j | 0 <= i < j < |next|
      ensures Distance(next[i], next[j]) >= Threshold
    {
      if j == |palette| {
        assert Distance(palette[i], pixel) >= BestMatch(pixel, palette).diff;
      } else {
        assert next[i] == palette[i] && next[j] == palette[j];
      }
    }
  }

  /** The palette and index stream after the loop has seen `pixels`, one
      index per pixel. */
  function Quantize(pixels: seq<Color>): (q: Quantized)
    ensures |q.indices| == |pixels|
  {
    if pixels == [] then Quantized([], [])
    else Step(Quantize(pixels[..|pixels| - 1]), pixels[|pixels| - 1])
  }

  /** After any raster the palette holds at most nine entries, each at least
      Threshold away from the earlier ones, and every index names an entry. */
  lemma {:induction false} QuantizeConsistent(pixels: seq<Color>)
    ensures Consistent(Quantize(pixels))
  {
    if pixels != [] {
      QuantizeConsistent(pixels[..|pixels| - 1]);
      StepConsistent(Quantize(pixels[..|pixels| - 1]), pixels[|pixels| - 1]);
    }
  }

  /** Entries are only ever appended: the palette and index stream after a
      prefix of the raster are prefixes of the final ones. */
  lemma {:induction false} QuantizePrefix(pixels: seq<Color>, k: nat)
    requires k <= |pixels|
    ensures Quantize(pixels[..k]).palette <= Quantize(pixels).palette
    ensures Quantize(pixels[..k]).indices == Quantize(pixels).indices[..k]
    decreases |pixels|
  {
    if k < |pixels| {
      var init := pixels[..|pixels| - 1];
      assert init[..k] == pixels[..k];
      QuantizePrefix(init, k);
    } else {
      assert pixels[..k] == pixels;
    }
  }

  /** Once the palette holds nine entries it never grows again. */
  lemma {:induction false} FrozenOnceFull(pixels: seq<Color>, k: nat)
    requires k <= |pixels|
    requires |Quantize(pixels[..k]).palette| == Slack + 1
    ensures Quantize(pixels).palette == Quantize(pixels[..k]).palette
    decreases |pixels|
  {
    if k < |pixels| {
      var init := pixels[..|pixels| - 1];
      assert init[..k] == pixels[..k];
      FrozenOnceFull(init, k);
    } else {
      assert pixels[..k] == pixels;
    }
  }

  lemma QuantizeNext(pixels: seq<Color>, i: nat)
    requires i < |pixels|
    ensures Quantize(pixels[..i + 1]) == Step(Quantize(pixels[..i]), pixels[i])
  {
    assert pixels[..i + 1][..i] == pixels[..i];
  }

  /** A full palette stays as it is and the pixel gets its nearest entry. */
  lemma StepWhenFull(q: Quantized, pixel: Color)
    requires |q.palette| == Slack + 1
    ensures Step(q, pixel) == Quantized(q.palette, q.indices + [BestMatch(pixel, q.palette).index])
  {
    AsU8Small(BestMatch(pixel, q.palette).index);
  }

  /** The palette full at pixel `k` is still the palette at any later pixel `i`. */
  lemma FullAt(pixels: seq<Color>, k: nat, i: nat)
    requires k <= i <= |pixels|
    requires |Quantize(pixels[..k]).palette| == Slack + 1
    ensures Quantize(pixels[..i]).palette == Quantize(pixels[..k]).palette
  {
    assert pixels[..i][..k] == pixels[..k];
    FrozenOnceFull(pixels[..i], k);
  }

  /** Index `i` of the whole raster is the one the step for pixel `i` emits. */
  lemma IndexAt(pixels: seq<Color>, i: nat)
    requires i < |pixels|
    ensures Quantize(pixels).indices[i] == Step(Quantize(pixels[..i]), pixels[i]).indices[i]
  {
    QuantizeNext(pixels, i);
    QuantizePrefix(pixels, i + 1);
  }

  /** The index emitted for pixel `i` once the palette was full at pixel `k`. */
  lemma NearestAt(pixels: seq<Color>, k: nat, i: nat)
    requires k <= i < |pixels|
    requires |Quantize(pixels[..k]).palette| == Slack + 1
    ensures Quantize(pixels).indices[i] == BestMatch(pixels[i], Quantize(pixels[..k]).palette).index
  {
    var prev := Quantize(pixels[..i]);
    FullAt(pixels, k, i);
    IndexAt(pixels, i);
    StepWhenFull(prev, pixels[i]);
  }

  /** Once the palette holds nine entries, every later pixel gets the index
      of its nearest entry, however far away that entry is. */
  lemma NearestOnceFull(pixels: seq<Color>, k: nat)
    requires k <= |pixels|
    requires |Quantize(pixels[..k]).palette| == Slack + 1
    ensures forall i :: k <= i < |pixels| ==>
      Quantize(pixels).indices[i] == BestMatch(pixels[i], Quantize(pixels[..k]).palette).index
  {
    forall i | k <= i < |pixels|
      ensures Quantize(pixels).indices[i] == BestMatch(pixels[i], Quantize(pixels[..k]).palette).index
    {
      NearestAt(pixels, k, i);
    }
  }

  /** The lookup branch of the loop is dead: when the nearest entry is at
      least Threshold away, the pixel's colour is not in the palette. */
  lemma LookupBranchDead(palette: seq<Color>, pixel: Color)
    requires BestMatch(pixel, palette).diff >= Threshold
    ensures pixel !in palette
  {
    BestMatchExact(pixel, palette);
  }

  /** Separated palettes hold no colour twice. */
  lemma SeparatedDistinct(palette: seq<Color>)
    requires Separated(palette)
    ensures forall i, j :: 0 <= i < j < |palette| ==> palette[i] != palette[j]
  {
    forall i, j | 0 <= i < j < |palette| ensures palette[i] != palette[j] {
      assert Distance(palette[i], palette[j]) >= Threshold;
    }
  }

  lemma {:induction false} DistinctCard(s: seq<Color>)
    requires forall i, j :: 0 <= i < j < |s| ==> s[i] != s[j]
    ensures |set c | c in s| == |s|
  {
    if s != [] {
      var init := s[..|s| - 1];
      DistinctCard(init);
      assert (set c | c in s) == (set c | c in init) + {s[|s| - 1]};
      assert s[|s| - 1] !in init;
    }
  }

  lemma {:induction false} SubsetCard(a: set<Color>, b: set<Color>)
    requires a <= b
    ensures |a| <= |b|
    decreases a
  {
    if a != {} {
      var x :| x in a;
      SubsetCard(a - {x}, b - {x});
    }
  }

  /** The colours a raster uses. */
  function Colors(pixels: seq<Color>): set<Color>
  {
    set i | 0 <= i < |pixels| :: pixels[i]
  }

  /** A pixel whose colour is already in the palette gets that entry. */
  lemma StepKnown(q: Quantized, pixel: Color)
    requires Consistent(q) && pixel in q.palette
    ensures Step(q, pixel).palette == q.palette
    ensures Step(q, pixel).indices[|q.indices|] < |q.palette|
    ensures q.palette[Step(q, pixel).indices[|q.indices|]] == pixel
  {
    var best := BestMatch(pixel, q.palette);
    BestMatchExact(pixel, q.palette);
    assert q.palette[best.index] == pixel;
    AsU8Small(best.index);
  }

  /** A pixel at least Threshold away from every palette colour, with room
      for one more entry in a set of at most nine colours, is appended. */
  lemma StepNew(q: Quantized, pixel: Color, all: set<Color>)
    requires Consistent(q)
    requires pixel in all && |all| <= Slack + 1 && pixel !in q.palette
    requires forall c :: c in q.palette ==> c in all
    requires forall a, b :: a in all && b in all && a != b ==> Distance(a, b) >= Threshold
    ensures Step(q, pixel).palette == q.palette + [pixel]
    ensures Step(q, pixel).indices[|q.indices|] == |q.palette|
  {
    var best := BestMatch(pixel, q.palette);
    assert best.diff >= Threshold by {
      if q.palette != [] {
        assert q.palette[best.index] in all;
      }
    }
    if |q.palette| > Slack {
      SeparatedDistinct(q.palette);
      DistinctCard(q.palette);
      SubsetCard((set c | c in q.palette) + {pixel}, all);
      assert false;
    }
    AsU8Small(|q.palette|);
  }

  /** One iteration on a pixel whose colour is at least Threshold away from
      every other colour of `all`, a set of at most nine colours that holds
      the palette: the pixel's entry is its own colour. */
  lemma StepExact(q: Quantized, pixel: Color, all: set<Color>)
    requires Consistent(q)
    requires pixel in all && |all| <= Slack + 1
    requires forall c :: c in q.palette ==> c in all
    requires forall a, b :: a in all && b in all && a != b ==> Distance(a, b) >= Threshold
    ensures forall c :: c in Step(q, pixel).palette ==> c in all
    ensures Step(q, pixel).indices[|q.indices|] < |Step(q, pixel).palette|
    ensures Step(q, pixel).palette[Step(q, pixel).indices[|q.indices|]] == pixel
  {
    if pixel in q.palette {
      StepKnown(q, pixel);
    } else {
      StepNew(q, pixel, all);
    }
  }

  lemma {:induction false} ExactOn(pixels: seq<Color>, all: set<Color>)
    requires forall i :: 0 <= i < |pixels| ==> pixels[i] in all
    requires |all| <= Slack + 1
    requires forall a, b :: a in all && b in all && a != b ==> Distance(a, b) >= Threshold
    ensures forall c :: c in Quantize(pixels).palette ==> c in all
    ensures forall i :: 0 <= i < |pixels| ==>
      Quantize(pixels).indices[i] < |Quantize(pixels).palette| &&
      Quantize(pixels).palette[Quantize(pixels).indices[i]] == pixels[i]
  {
    if pixels != [] {
      var init := pixels[..|pixels| - 1];
      var pixel := pixels[|pixels| - 1];
      ExactOn(init, all);
      var prev := Quantize(init);
      var q := Quantize(pixels);
      assert q == Step(prev, pixel);
      QuantizeConsistent(init);
      StepConsistent(prev, pixel);
      StepExact(prev, pixel, all);
      forall i | 0 <= i < |pixels|
        ensures q.indices[i] < |q.palette| && q.palette[q.indices[i]] == pixels[i]
      {
        if i < |init| {
          assert init[i] == pixels[i];
          assert q.indices[i] == prev.indices[i];
          assert q.palette[prev.indices[i]] == prev.palette[prev.indices[i]];
        } else {
          assert i == |prev.indices|;
        }
      }
    }
  }

  /** A raster of at most nine colours, any two of them at least Threshold
      apart, is quantised losslessly: every pixel's palette entry is its own
      colour. */
  lemma ExactWhenSeparated(pixels: seq<Color>)
    requires |Colors(pixels)| <= Slack + 1
    requires forall i, j :: 0 <= i < |pixels| && 0 <= j < |pixels| && pixels[i] != pixels[j] ==>
      Distance(pixels[i], pixels[j]) >= Threshold
    ensures forall i :: 0 <= i < |pixels| ==>
      Quantize(pixels).indices[i] < |Quantize(pixels).palette| &&
      Quantize(pixels).palette[Quantize(pixels).indices[i]] == pixels[i]
  {
    var all := Colors(pixels);
    forall a, b | a in all && b in all && a != b ensures Distance(a, b) >= Threshold {
      var i :| 0 <= i < |pixels| && pixels[i] == a;
      var j :| 0 <= j < |pixels| && pixels[j] == b;
    }
    ExactOn(pixels, all);
  }

  /** The pixel loop of `send_image`, growing `color_array` and `pixel_array`. */
  method BuildPalette(pixels: seq<Color>) returns (palette: seq<Color>, indices: seq<Byte>)
    ensures Quantized(palette, indices) == Quantize(pixels)
  {
    palette, indices := [], [];
    for i := 0 to |pixels|
      invariant Quantized(palette, indices) == Quantize(pixels[..i])
    {
      var pixel := pixels[i];
      QuantizeNext(pixels, i);
      var best := BestColorMatch(pixel, palette);
      if |palette| > Slack || best.diff < Threshold {
        indices := indices + [AsU8(best.index)];
      } else if pixel in palette {
        indices := indices + [AsU8(IndexOf(palette, pixel))];
      } else {
        indices := indices + [AsU8(|palette|)];
        palette := palette + [pixel];
      }
    }
    assert pixels[..|pixels|] == pixels;
  }
}
