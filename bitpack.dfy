/** Model of the bit-width rule and the bit packer of `send_image`
    (src/main.rs): each palette index keeps its low `w` bits, least
    significant first, the bits of all pixels form one stream, and the stream
    is read out as whole bytes, each byte taking its bits least significant
    first. */
module BitPack {
  import opened Utils

  function Pow2(n: nat): (p: nat)
    ensures p >= 1
  {
    if n == 0 then 1 else 2 * Pow2(n - 1)
  }

  function Pow(b: nat, e: nat): nat
  {
    if e == 0 then 1 else b * Pow(b, e - 1)
  }

  /** The integer part of log2(n). */
  function FloorLog2(n: nat): (k: nat)
    requires n >= 1
    ensures Pow2(k) <= n < 2 * Pow2(k)
  {
    if n == 1 then 0 else 1 + FloorLog2(n / 2)
  }

  // ---------------------------------------------------------------------------
  // Bit width

  /** log2(n) exceeds its integer part `k` by more than 0.1, that is
      n > 2^(k + 0.1), stated in integers as n^10 > 2 * (2^k)^10. */
  predicate FractionAboveTenth(n: nat, k: nat)
  {
    Pow(n, 10) > 2 * Pow(Pow2(k), 10)
  }

  /** Bits per index for a palette of `n` entries: log2(n), truncated, plus
      one when the fractional part exceeds 0.1. An empty palette gets 0 (the
      logarithm is minus infinity and the cast to `u8` saturates at 0). */
  function BitWidth(n: nat): (w: nat)
    ensures n <= 1 ==> w == 0
    ensures n >= 1 ==> FloorLog2(n) <= w <= FloorLog2(n) + 1
  {
    if n == 0 then 0
    else
      var k := FloorLog2(n);
      if FractionAboveTenth(n, k) then k + 1 else k
  }

  lemma BitWidthUpToFour(n: nat)
    requires n <= 4
    ensures n <= 1 ==> BitWidth(n) == 0
    ensures n == 2 ==> BitWidth(n) == 1
    ensures 3 <= n ==> BitWidth(n) == 2
  {
    if n == 1 {
      assert FloorLog2(1) == 0;
      assert Pow(1, 10) == 1 && Pow2(0) == 1;
    } else if n == 2 {
      assert FloorLog2(2) == 1;
      assert Pow(2, 10) == 1024 && Pow2(1) == 2;
    } else if n == 3 {
      assert FloorLog2(3) == 1;
      assert Pow(3, 10) == 59049 && Pow2(1) == 2;
    } else if n == 4 {
      assert FloorLog2(4) == 2;
      assert Pow(4, 10) == 1048576 && Pow2(2) == 4;
    }
  }

  lemma BitWidthFiveToSeven(n: nat)
    requires 5 <= n <= 7
    ensures BitWidth(n) == 3
  {
    assert Pow2(2) == 4 && Pow(4, 10) == 1048576;
    if n == 5 {
      assert FloorLog2(5) == 2;
      assert Pow(5, 10) == 9765625;
    } else if n == 6 {
      assert FloorLog2(6) == 2;
      assert Pow(6, 10) == 60466176;
    } else {
      assert FloorLog2(7) == 2;
      assert Pow(7, 10) == 282475249;
    }
  }

  lemma BitWidthEightToNine(n: nat)
    requires 8 <= n <= 9
    ensures n == 8 ==> BitWidth(n) == 3
    ensures n == 9 ==> BitWidth(n) == 4
  {
    assert Pow2(3) == 8 && Pow(8, 10) == 1073741824;
    if n == 8 {
      assert FloorLog2(8) == 3;
    } else {
      assert FloorLog2(9) == 3;
      assert Pow(9, 10) == 3486784401;
    }
  }

  /** For palette lengths 0..9 the rule gives 0, 0, 1, 2, 2, 3, 3, 3, 3, 4. */
  lemma BitWidthTable(n: nat)
    requires n <= 9
    ensures n <= 1 ==> BitWidth(n) == 0
    ensures n == 2 ==> BitWidth(n) == 1
    ensures 3 <= n <= 4 ==> BitWidth(n) == 2
    ensures 5 <= n <= 8 ==> BitWidth(n) == 3
    ensures n == 9 ==> BitWidth(n) == 4
  {
    if n <= 4 {
      BitWidthUpToFour(n);
    } else if n <= 7 {
      BitWidthFiveToSeven(n);
    } else {
      BitWidthEightToNine(n);
    }
  }

  /** For the palette lengths the loop can produce, 0 to 9, the width is the
      least one whose range holds every index: 2^(w-1) < n <= 2^w. */
  lemma BitWidthFits(n: nat)
    requires n <= 9
    ensures BitWidth(n) <= 4 && n <= Pow2(BitWidth(n))
    ensures BitWidth(n) == 0 || Pow2(BitWidth(n) - 1) < n
  {
    BitWidthTable(n);
    assert Pow2(1) == 2 && Pow2(2) == 4 && Pow2(3) == 8 && Pow2(4) == 16;
  }

  /** A longer palette never gets a narrower width. */
  lemma BitWidthMonotone(m: nat, n: nat)
    requires m <= n <= 9
    ensures BitWidth(m) <= BitWidth(n)
  {
    BitWidthTable(m);
    BitWidthTable(n);
  }

  // ---------------------------------------------------------------------------
  // Bits of one index

  /** The low `w` bits of `x`, least significant first: an `Lsb0` bit array
      truncated to `w` bits. */
  function LowBits(x: nat, w: nat): (bits: seq<bool>)
    ensures |bits| == w
  {
    if w == 0 then [] else [x % 2 == 1] + LowBits(x / 2, w - 1)
  }

  /** The number a bit sequence denotes when its first bit is the least
      significant (`load` on an `Lsb0` slice). */
  function BitsValue(bits: seq<bool>): (v: nat)
    ensures v < Pow2(|bits|)
  {
    if bits == [] then 0 else (if bits[0] then 1 else 0) + 2 * BitsValue(bits[1..])
  }

  /** Keeping `w` bits of a value below 2^w loses nothing. */
  lemma {:induction false} LowBitsValue(x: nat, w: nat)
    requires x < Pow2(w)
    ensures BitsValue(LowBits(x, w)) == x
  {
    if w > 0 {
      LowBitsValue(x / 2, w - 1);
      assert LowBits(x, w)[1..] == LowBits(x / 2, w - 1);
    }
  }

  /** Reading a bit sequence as a number and taking its bits back gives the
      sequence again. */
  lemma {:induction false} ValueLowBits(bits: seq<bool>)
    ensures LowBits(BitsValue(bits), |bits|) == bits
  {
    if bits != [] {
      var v := BitsValue(bits);
      var rest := BitsValue(bits[1..]);
      ValueLowBits(bits[1..]);
      assert v % 2 == (if bits[0] then 1 else 0) && v / 2 == rest;
    }
  }

  /** `truncate(k)` on the eight bits of a byte gives its low `k` bits. */
  lemma {:induction false} LowBitsPrefix(x: nat, w: nat, k: nat)
    requires k <= w
    ensures LowBits(x, w)[..k] == LowBits(x, k)
  {
    if k > 0 {
      LowBitsPrefix(x / 2, w - 1, k - 1);
    }
  }

  // ---------------------------------------------------------------------------
  // The bit stream

  /** Bits kept per index: `truncate(w)` on an eight-bit array keeps at most eight. */
  function Kept(w: nat): nat { if w < 8 then w else 8 }

  /** The concatenation, in pixel order, of the kept bits of every index. */
  function Stream(indices: seq<Byte>, w: nat): (s: seq<bool>)
    ensures |s| == |indices| * Kept(w)
  {
    if indices == [] then []
    else Stream(indices[..|indices| - 1], w) + LowBits(indices[|indices| - 1], Kept(w))
  }

  lemma {:induction false} MulMono(a: nat, b: nat, k: nat)
    requires a <= b
    ensures a * k <= b * k
  {
    if k > 0 {
      MulMono(a, b, k - 1);
      assert a * k == a * (k - 1) + a && b * k == b * (k - 1) + b;
    }
  }

  lemma MulLess(i: nat, n: nat, k: nat)
    requires i < n
    ensures i * k + k <= n * k
  {
    MulMono(i + 1, n, k);
    assert (i + 1) * k == i * k + k;
  }

  lemma SliceLeft(a: seq<bool>, b: seq<bool>, lo: int, hi: int)
    requires 0 <= lo <= hi <= |a|
    ensures (a + b)[lo..hi] == a[lo..hi]
  {
  }

  lemma SliceRight(a: seq<bool>, b: seq<bool>, lo: int, hi: int)
    requires lo == |a| && hi == |a| + |b|
    ensures (a + b)[lo..hi] == b
  {
  }

  /** Index `i` occupies stream bits i*w .. i*w + w - 1, least significant first. */
  lemma {:induction false} StreamSlice(indices: seq<Byte>, w: nat, i: nat)
    requires i < |indices|
    ensures i * Kept(w) + Kept(w) <= |Stream(indices, w)|
    ensures Stream(indices, w)[i * Kept(w)..i * Kept(w) + Kept(w)] == LowBits(indices[i], Kept(w))
  {
    var k, n := Kept(w), |indices|;
    var init := indices[..n - 1];
    var last := LowBits(indices[n - 1], k);
    assert Stream(indices, w) == Stream(init, w) + last;
    MulLess(i, n, k);
    if i < n - 1 {
      StreamSlice(init, w, i);
      MulLess(i, n - 1, k);
      SliceLeft(Stream(init, w), last, i * k, i * k + k);
    } else {
      SliceRight(Stream(init, w), last, i * k, i * k + k);
    }
  }

  // ---------------------------------------------------------------------------
  // Whole bytes

  /** The bytes read out of a stream: byte k is the value of stream bits
      8k .. 8k + 7 with bit 8k least significant; a trailing partial byte is
      dropped. */
  function PackBits(s: seq<bool>): (r: seq<Byte>)
    ensures |r| == |s| / 8
  {
    seq(|s| / 8, k requires 0 <= k < |s| / 8 => BitsValue(s[8 * k..8 * k + 8]))
  }

  /** Output byte k carries stream bits 8k .. 8k + 7, bit 8k as its least
      significant bit. */
  lemma PackedByteBits(s: seq<bool>, k: nat)
    requires k < |s| / 8
    ensures LowBits(PackBits(s)[k], 8) == s[8 * k..8 * k + 8]
  {
    ValueLowBits(s[8 * k..8 * k + 8]);
  }

  /** The bits of a byte sequence, each byte least significant bit first. */
  function UnpackBits(bytes: seq<Byte>): (s: seq<bool>)
    ensures |s| == 8 * |bytes|
  {
    if bytes == [] then [] else UnpackBits(bytes[..|bytes| - 1]) + LowBits(bytes[|bytes| - 1], 8)
  }

  lemma {:induction false} UnpackPackedPrefix(s: seq<bool>, m: nat)
    requires m <= |s| / 8
    ensures UnpackBits(PackBits(s)[..m]) == s[..8 * m]
  {
    if m > 0 {
      var r := PackBits(s);
      UnpackPackedPrefix(s, m - 1);
      assert r[..m][..m - 1] == r[..m - 1];
      assert UnpackBits(r[..m]) == UnpackBits(r[..m - 1]) + LowBits(r[m - 1], 8);
      PackedByteBits(s, m - 1);
      assert 8 * (m - 1) + 8 == 8 * m;
      assert s[..8 * (m - 1) + 8] == s[..8 * (m - 1)] + s[8 * (m - 1)..8 * (m - 1) + 8];
    }
  }

  /** Packing loses exactly the trailing partial byte of the stream. */
  lemma UnpackPacked(s: seq<bool>)
    ensures UnpackBits(PackBits(s)) == s[..|s| / 8 * 8]
  {
    UnpackPackedPrefix(s, |s| / 8);
    assert PackBits(s)[..|s| / 8] == PackBits(s);
  }

  // ---------------------------------------------------------------------------
  // Reading indices back

  /** The indices a receiver reads from a stream at width `w`: one per whole
      group of `w` bits. */
  function Unstream(s: seq<bool>, w: nat): (ix: seq<nat>)
    requires w > 0
    ensures |ix| == |s| / w
  {
    seq(|s| / w, i requires 0 <= i < |s| / w => DivBound(|s|, w, i); BitsValue(s[i * w..i * w + w]))
  }

  lemma DivExact(n: nat, w: nat)
    requires w > 0
    ensures n * w / w == n
  {
    var q, r := n * w / w, n * w % w;
    assert n * w == w * q + r && 0 <= r < w;
    if q < n {
      MulMono(1, n - q, w);
    }
  }

  lemma DivBound(len: nat, w: nat, i: nat)
    requires w > 0 && i < len / w
    ensures i * w + w <= len
  {
    MulLess(i, len / w, w);
    assert len == w * (len / w) + len % w;
  }

  lemma UnstreamAt(s: seq<bool>, w: nat, i: nat)
    requires w > 0 && i < |s| / w
    ensures i * w + w <= |s| && Unstream(s, w)[i] == BitsValue(s[i * w..i * w + w])
  {
    DivBound(|s|, w, i);
  }

  /** The index read back from group `i` of the stream is index `i`. */
  lemma UnstreamStreamAt(indices: seq<Byte>, w: nat, i: nat)
    requires 0 < w <= 8 && i < |indices| && indices[i] < Pow2(w)
    ensures i < |Stream(indices, w)| / w && Unstream(Stream(indices, w), w)[i] == indices[i]
  {
    var s := Stream(indices, w);
    assert Kept(w) == w;
    assert |s| == |indices| * w;
    DivExact(|indices|, w);
    UnstreamAt(s, w, i);
    StreamSlice(indices, w, i);
    LowBitsValue(indices[i], w);
  }

  /** Reading back the stream of indices that fit in `w` bits gives them all. */
  lemma UnstreamStream(indices: seq<Byte>, w: nat)
    requires 0 < w <= 8
    requires forall i :: 0 <= i < |indices| ==> indices[i] < Pow2(w)
    ensures Unstream(Stream(indices, w), w) == indices
  {
    var s := Stream(indices, w);
    assert |s| == |indices| * w;
    DivExact(|indices|, w);
    forall i | 0 <= i < |indices|
      ensures Unstream(s, w)[i] == indices[i]
    {
      UnstreamStreamAt(indices, w, i);
    }
  }

  /** Whole groups of `w` bits in a shorter stream are no more numerous. */
  lemma DivMono(a: nat, b: nat, w: nat)
    requires w > 0 && a <= b
    ensures a / w <= b / w
  {
    var l, m := a / w, b / w;
    assert w * l + a % w == a && w * m + b % w == b;
    if l > m {
      MulLess(m, l, w);
    }
  }

  /** Reading a prefix of a stream gives a prefix of its indices. */
  lemma UnstreamPrefix(s: seq<bool>, w: nat, len: nat)
    requires w > 0 && len <= |s|
    ensures len / w <= |s| / w && Unstream(s[..len], w) == Unstream(s, w)[..len / w]
  {
    DivMono(len, |s|, w);
    var l := len / w;
    forall i | 0 <= i < l
      ensures Unstream(s[..len], w)[i] == Unstream(s, w)[i]
    {
      DivBound(len, w, i);
      assert s[..len][i * w..i * w + w] == s[i * w..i * w + w];
    }
  }

  /** How many of `n` indices of width `w` lie wholly inside the whole bytes
      of their stream: all of them when the stream fills whole bytes. */
  function WholeIndices(n: nat, w: nat): (c: nat)
    requires w > 0
    ensures c <= n
    ensures n * w % 8 == 0 ==> c == n
  {
    DivMono(n * w / 8 * 8, n * w, w);
    DivExact(n, w);
    n * w / 8 * 8 / w
  }

  /** The packed bytes give back every index whose bits lie wholly before the
      dropped partial byte; when the stream is a whole number of bytes, that
      is every index. */
  lemma PackRoundTrip(indices: seq<Byte>, w: nat)
    requires 0 < w <= 8
    requires forall i :: 0 <= i < |indices| ==> indices[i] < Pow2(w)
    ensures Unstream(UnpackBits(PackBits(Stream(indices, w))), w) == indices[..WholeIndices(|indices|, w)]
    ensures |indices| * w % 8 == 0 ==> Unstream(UnpackBits(PackBits(Stream(indices, w))), w) == indices
  {
    var s := Stream(indices, w);
    assert Kept(w) == w;
    assert |s| == |indices| * w;
    UnpackPacked(s);
    UnstreamPrefix(s, w, |s| / 8 * 8);
    UnstreamStream(indices, w);
    assert indices[..|indices|] == indices;
  }

  // ---------------------------------------------------------------------------
  // The packing loops of `send_image`

  /** Extends the bit vector index by index, then reads it out byte by byte. */
  method PackIndices(indices: seq<Byte>, w: nat) returns (packed: seq<Byte>)
    ensures packed == PackBits(Stream(indices, w))
  {
    var bitArray: seq<bool> := [];
    for i := 0 to |indices|
      invariant bitArray == Stream(indices[..i], w)
    {
      var bits := LowBits(indices[i], 8);
      LowBitsPrefix(indices[i], 8, Kept(w));
      bits := bits[..Kept(w)];
      bitArray := bitArray + bits;
      assert indices[..i + 1][..i] == indices[..i];
    }
    assert indices[..|indices|] == indices;
    packed := [];
    for k := 0 to |bitArray| / 8
      invariant packed == PackBits(bitArray)[..k]
    {
      packed := packed + [BitsValue(bitArray[k * 8..k * 8 + 8])];
    }
  }
}
