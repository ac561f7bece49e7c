/** Model of src/utils.rs: the colour and command types, the little-endian
    helper, the checksum, the serial framing of a command and the
    nearest-colour search. Writing the frame to the serial port is I/O and is
    not modelled: the operations below return the bytes that would be written. */
module Utils {

  /** An unsigned 8-bit value (Rust `u8`). */
  type Byte = x: int | 0 <= x < 0x100

  /** An unsigned 16-bit value (Rust `u16`). */
  type U16 = x: int | 0 <= x < 0x1_0000

  datatype Option<T> = None | Some(value: T)

  /** `x as u16`: Rust's truncating cast to 16 bits. */
  function AsU16(x: nat): U16 { x % 0x1_0000 }

  /** Stated as a lemma so that a proof can equate the casts of two
      expressions that are equal as numbers. */
  lemma AsU16Equal(a: nat, b: nat)
    requires a == b
    ensures AsU16(a) == AsU16(b)
  {
  }

  lemma AsU16Small(x: nat)
    requires x < 0x1_0000
    ensures AsU16(x) == x
  {
  }

  // ---------------------------------------------------------------------------
  // Colours and commands

  datatype Color = Color(r: Byte, g: Byte, b: Byte)

  /** `Color::colors`: the channel bytes in r, g, b order. */
  function Channels(c: Color): (b: seq<Byte>)
    ensures |b| == 3
  {
    [c.r, c.g, c.b]
  }

  /** The three channel bytes read back as the colour. */
  lemma ChannelsColor(c: Color)
    ensures Color(Channels(c)[0], Channels(c)[1], Channels(c)[2]) == c
  {
  }

  datatype DivoomCommand = UpdateImageFrame | UpdateAnimationFrame | UpdateBrightness | GetInfo

  /** The opcode byte of each command (`command as u8`). */
  function Opcode(command: DivoomCommand): (op: Byte)
    ensures CommandOf(op) == Some(command)
  {
    match command
    case UpdateImageFrame => 0x44
    case UpdateAnimationFrame => 0x49
    case UpdateBrightness => 0x74
    case GetInfo => 0x46
  }

  /** The command an opcode byte stands for, if any. */
  function CommandOf(op: Byte): Option<DivoomCommand>
  {
    if op == 0x44 then Some(UpdateImageFrame)
    else if op == 0x49 then Some(UpdateAnimationFrame)
    else if op == 0x74 then Some(UpdateBrightness)
    else if op == 0x46 then Some(GetInfo)
    else None
  }

  /** Only the four opcodes name a command: CommandOf and Opcode are inverse. */
  lemma CommandOfOpcode(op: Byte, command: DivoomCommand)
    ensures CommandOf(op) == Some(command) <==> Opcode(command) == op
  {
  }

  // ---------------------------------------------------------------------------
  // Little-endian 16-bit fields

  /** The number a two-byte little-endian field denotes. */
  function LittleValue(lo: Byte, hi: Byte): U16 { lo + 0x100 * hi }

  /** `littlehex`: the low byte of `h`, then its high byte. */
  function LittleHex(h: U16): (r: seq<Byte>)
    ensures |r| == 2 && LittleValue(r[0], r[1]) == h
  {
    [h % 0x100, h / 0x100]
  }

  /** Every two-byte field is the `littlehex` of the value it denotes. */
  lemma LittleHexOfValue(lo: Byte, hi: Byte)
    ensures LittleHex(LittleValue(lo, hi)) == [lo, hi]
  {
    var h := LittleValue(lo, hi);
    assert h == hi * 0x100 + lo;
    assert h / 0x100 == hi && h % 0x100 == lo;
  }

  // ---------------------------------------------------------------------------
  // Checksum

  /** The sum of the bytes of `p`, unbounded. */
  function Sum(p: seq<Byte>): nat
  {
    if p == [] then 0 else p[0] + Sum(p[1..])
  }

  lemma ModAddLeft(a: nat, b: nat)
    ensures (a % 0x1_0000 + b) % 0x1_0000 == (a + b) % 0x1_0000
  {
    var q := a / 0x1_0000;
    assert a == q * 0x1_0000 + a % 0x1_0000;
    assert a + b == q * 0x1_0000 + (a % 0x1_0000 + b);
  }

  /** The `u16` fold of `checksum`, adding byte by byte from the left and
      wrapping at 2^16 as a release build does. Wrapping at every step gives
      the same result as wrapping the total once. */
  function Fold16(acc: U16, p: seq<Byte>): (r: U16)
    ensures r == (acc + Sum(p)) % 0x1_0000
    decreases |p|
  {
    if p == [] then acc
    else
      ModAddLeft(acc + p[0], Sum(p[1..]));
      Fold16(AsU16(acc + p[0]), p[1..])
  }

  /** `checksum`: the byte sum of `p` modulo 2^16, little-endian. */
  function Checksum(p: seq<Byte>): (r: seq<Byte>)
    ensures |r| == 2 && LittleValue(r[0], r[1]) == Sum(p) % 0x1_0000
  {
    LittleHex(Fold16(0, p))
  }

  // ---------------------------------------------------------------------------
  // Link framing (`format_payload`)

  /** The frame `format_payload` builds around `p`. */
  function Frame(p: seq<Byte>): (f: seq<Byte>)
    ensures |f| == |p| + 4
  {
    [0x01] + p + Checksum(p) + [0x02]
  }

  /** A frame starts with 0x01, ends with 0x02, carries `p` after the start
      byte and the 16-bit byte sum of `p` just before the end byte. */
  lemma FrameLayout(p: seq<Byte>)
    ensures var f := Frame(p); f[0] == 0x01 && f[|f| - 1] == 0x02
    ensures var f := Frame(p); f[1..|f| - 3] == p
    ensures var f := Frame(p); LittleValue(f[|f| - 3], f[|f| - 2]) == Sum(p) % 0x1_0000
  {
    var f := Frame(p);
    var c := Checksum(p);
    assert f == [0x01] + p + c + [0x02];
    assert f[1..|f| - 3] == p;
  }

  /** A receiver's reading of a frame: the delimiters must be in place and
      the checksum must match the bytes between them. */
  function ParseFrame(f: seq<Byte>): Option<seq<Byte>>
  {
    if |f| < 4 || f[0] != 0x01 || f[|f| - 1] != 0x02 then None
    else
      var p := f[1..|f| - 3];
      if LittleValue(f[|f| - 3], f[|f| - 2]) == Sum(p) % 0x1_0000 then Some(p) else None
  }

  /** A receiver recovers every framed payload. */
  lemma FrameParses(p: seq<Byte>)
    ensures ParseFrame(Frame(p)) == Some(p)
  {
    FrameLayout(p);
  }

  /** A receiver accepts exactly the frames `format_payload` produces. */
  lemma ParsedFrameIsFrame(f: seq<Byte>, p: seq<Byte>)
    requires ParseFrame(f) == Some(p)
    ensures f == Frame(p)
  {
    SplitFrame(f);
    ChecksumField(p, f[|f| - 3], f[|f| - 2]);
  }

  lemma SplitFrame(f: seq<Byte>)
    requires |f| >= 4
    ensures f == [f[0]] + f[1..|f| - 3] + [f[|f| - 3], f[|f| - 2]] + [f[|f| - 1]]
  {
  }

  /** A two-byte field holding the byte sum of `p` modulo 2^16 is its checksum. */
  lemma ChecksumField(p: seq<Byte>, lo: Byte, hi: Byte)
    requires LittleValue(lo, hi) == Sum(p) % 0x1_0000
    ensures Checksum(p) == [lo, hi]
  {
    var sum := Fold16(0, p);
    LittleHexOfValue(lo, hi);
  }

  /** `format_payload`, appending to the output vector step by step. */
  method FormatPayload(payload: seq<Byte>) returns (formatted: seq<Byte>)
    ensures formatted == Frame(payload)
  {
    formatted := [0x01];
    formatted := formatted + payload;
    formatted := formatted + Checksum(payload);
    formatted := formatted + [0x02];
  }

  // ---------------------------------------------------------------------------
  // Command payloads (`divoom_command`)

  /** The inner payload of `divoom_command`: a length field, the opcode, the
      arguments. The length is cast to `u16`. */
  function CommandPayload(command: DivoomCommand, args: seq<Byte>): (p: seq<Byte>)
    ensures |p| == |args| + 3
  {
    LittleHex(AsU16(|args| + 3)) + [Opcode(command)] + args
  }

  /** The length field holds the payload's own length, cast to `u16`; the
      opcode and the arguments follow it. */
  lemma CommandLayout(command: DivoomCommand, args: seq<Byte>)
    ensures var p := CommandPayload(command, args);
      && LittleValue(p[0], p[1]) == AsU16(|args| + 3)
      && p[2] == Opcode(command) && p[3..] == args
  {
    var p := CommandPayload(command, args);
    var h := LittleHex(AsU16(|args| + 3));
    assert p == h + [Opcode(command)] + args;
    assert p[0] == h[0] && p[1] == h[1];
  }

  /** A receiver's reading of an inner payload: the length field must count
      the whole payload and the opcode must be known. */
  function ParseCommand(p: seq<Byte>): Option<(DivoomCommand, seq<Byte>)>
  {
    if |p| < 3 || LittleValue(p[0], p[1]) != |p| then None
    else match CommandOf(p[2])
      case None => None
      case Some(command) => Some((command, p[3..]))
  }

  /** Below 2^16 bytes the length field is exact and the receiver recovers
      the command and its arguments. */
  lemma CommandParses(command: DivoomCommand, args: seq<Byte>)
    requires |args| + 3 < 0x1_0000
    ensures ParseCommand(CommandPayload(command, args)) == Some((command, args))
  {
    CommandLayout(command, args);
    AsU16Small(|args| + 3);
    CommandOfOpcode(Opcode(command), command);
  }

  /** A receiver accepts exactly the payloads `divoom_command` produces. */
  lemma ParsedCommandIsPayload(p: seq<Byte>, command: DivoomCommand, args: seq<Byte>)
    requires ParseCommand(p) == Some((command, args))
    ensures p == CommandPayload(command, args)
  {
    var lo, hi := p[0], p[1];
    LittleHexOfValue(lo, hi);
    CommandOfOpcode(p[2], command);
    AsU16Small(|args| + 3);
    assert AsU16(|args| + 3) == LittleValue(lo, hi);
    assert p == [lo, hi] + [p[2]] + args;
  }

  /** The bytes `divoom_command` writes to the port, built step by step. */
  method BuildCommand(command: DivoomCommand, args: seq<Byte>) returns (formatted: seq<Byte>)
    ensures formatted == Frame(CommandPayload(command, args))
  {
    var length := |args| + 3;
    var payload := [];
    payload := payload + LittleHex(AsU16(length));
    payload := payload + [Opcode(command)];
    payload := payload + args;
    assert payload == CommandPayload(command, args);
    formatted := FormatPayload(payload);
  }

  /** A brightness command for `level` has length field 4 and opcode 0x74,
      so its checksum is 4 + 0x74 + level: for 100 (0x64) the wire bytes are
      01 04 00 74 64 DC 00 02. */
  lemma BrightnessFrame(level: Byte)
    ensures Frame(CommandPayload(UpdateBrightness, [level]))
      == [0x01, 0x04, 0x00, 0x74, level] + LittleHex(0x78 + level) + [0x02]
  {
    BrightnessPayload(level);
    BrightnessChecksum(level);
  }

  lemma BrightnessChecksum(level: Byte)
    ensures Checksum([0x04, 0x00, 0x74, level]) == LittleHex(0x78 + level)
  {
    SumOfFour(0x04, 0x00, 0x74, level);
    ChecksumOf([0x04, 0x00, 0x74, level], 0x78 + level);
  }

  lemma BrightnessPayload(level: Byte)
    ensures CommandPayload(UpdateBrightness, [level]) == [0x04, 0x00, 0x74, level]
  {
    AsU16Small(|[level]| + 3);
    LittleHexSmall(4);
    assert CommandPayload(UpdateBrightness, [level]) == [0x04, 0x00] + [0x74] + [level];
  }

  /** The wire bytes for brightness 100 (0x64): checksum 0xDC. */
  lemma BrightnessHundred()
    ensures Frame(CommandPayload(UpdateBrightness, [100])) == [0x01, 0x04, 0x00, 0x74, 0x64, 0xDC, 0x00, 0x02]
  {
    BrightnessFrame(100);
    LittleHexSmall(0xDC);
  }

  /** The checksum of bytes whose sum fits 16 bits is that sum. */
  lemma ChecksumOf(p: seq<Byte>, s: nat)
    requires Sum(p) == s < 0x1_0000
    ensures Checksum(p) == LittleHex(s)
  {
    var sum := Fold16(0, p);
    assert (0 + s) % 0x1_0000 == s;
  }

  lemma LittleHexSmall(h: U16)
    requires h < 0x100
    ensures LittleHex(h) == [h, 0]
  {
    assert h % 0x100 == h && h / 0x100 == 0;
  }

  lemma SumOfFour(a: Byte, b: Byte, c: Byte, d: Byte)
    ensures Sum([a, b, c, d]) == a + b + c + d
  {
    assert [d][1..] == [];
    assert Sum([d]) == d;
    assert [c, d][1..] == [d];
    assert Sum([c, d]) == c + d;
    assert [b, c, d][1..] == [c, d];
    assert Sum([b, c, d]) == b + c + d;
    assert [a, b, c, d][1..] == [b, c, d];
  }

  // ---------------------------------------------------------------------------
  // Nearest colour (`best_color_match`)

  datatype BestColor = BestColor(index: nat, diff: nat)

  /** The `BestColor::default` the search starts from. */
  const NoMatch := BestColor(0, 255 * 3)

  function AbsDiff(a: Byte, b: Byte): nat { if a < b then b - a else a - b }

  /** Manhattan distance between two colours, as summed in `best_color_match`. */
  function Distance(c: Color, color: Color): (d: nat)
    ensures d <= 255 * 3
    ensures d == 0 <==> c == color
  {
    AbsDiff(c.r, color.r) + AbsDiff(c.g, color.g) + AbsDiff(c.b, color.b)
  }

  /** The result of scanning `palette` in order, replacing the best only on a
      strictly smaller distance. */
  function BestMatch(color: Color, palette: seq<Color>): (best: BestColor)
    ensures palette == [] ==> best == NoMatch
    ensures palette != [] ==> best.index < |palette| && best.diff == Distance(palette[best.index], color)
    ensures forall j :: 0 <= j < |palette| ==> best.diff <= Distance(palette[j], color)
    ensures forall j :: 0 <= j < best.index ==> best.diff < Distance(palette[j], color)
    ensures best.diff <= 255 * 3
  {
    if palette == [] then NoMatch
    else
      var best := BestMatch(color, palette[..|palette| - 1]);
      var d := Distance(palette[|palette| - 1], color);
      if d < best.diff then BestColor(|palette| - 1, d) else best
  }

  /** The best distance is zero exactly when the colour is in the palette. */
  lemma BestMatchExact(color: Color, palette: seq<Color>)
    ensures BestMatch(color, palette).diff == 0 <==> color in palette
  {
    if color in palette {
      var j :| 0 <= j < |palette| && palette[j] == color;
      assert Distance(palette[j], color) == 0;
    }
  }

  /** `best_color_match`: a linear scan updating the best record field by field. */
  method BestColorMatch(color: Color, palette: seq<Color>) returns (best: BestColor)
    ensures best == BestMatch(color, palette)
  {
    best := NoMatch;
    for i := 0 to |palette|
      invariant best == BestMatch(color, palette[..i])
    {
      var c := palette[i];
      var diff := 0;
      diff := diff + AbsDiff(c.r, color.r);
      diff := diff + AbsDiff(c.g, color.g);
      diff := diff + AbsDiff(c.b, color.b);
      if diff < best.diff {
        best := best.(diff := diff);
        best := best.(index := i);
      }
      assert palette[..i + 1][..i] == palette[..i];
    }
    assert palette[..|palette|] == palette;
  }
}
