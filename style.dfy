/**
 * The small pure helpers of src/renderer.c that decide how a row looks:
 * the name hash that picks a palette colour, the hover brightening, and the
 * unit format_size prints a byte count in.
 */
module Style {

  datatype Color = Color(r: int, g: int, b: int, a: int)

  /** PALETTE: sixteen opaque colours. */
  const Palette: seq<Color> := [
    Color(0, 188, 176, 255), Color(255, 87, 80, 255), Color(30, 136, 229, 255), Color(255, 179, 0, 255),
    Color(126, 87, 194, 255), Color(124, 179, 66, 255), Color(236, 64, 122, 255), Color(0, 229, 255, 255),
    Color(255, 109, 0, 255), Color(16, 185, 129, 255), Color(213, 0, 143, 255), Color(255, 196, 0, 255),
    Color(63, 81, 181, 255), Color(192, 220, 42, 255), Color(244, 67, 131, 255), Color(56, 189, 248, 255)]

  predicate IsChannel(v: int)
  {
    0 <= v <= 255
  }

  predicate IsColor(c: Color)
  {
    IsChannel(c.r) && IsChannel(c.g) && IsChannel(c.b) && IsChannel(c.a)
  }

  /** The byte a name character is read as: its code modulo 256. */
  function ByteOf(c: char): bv8
  {
    (c as int % 256) as bv8
  }

  /** One step of djb2: the hash shifted left by five plus itself, xor the next byte, wrapping at 32 bits. */
  function Mix(h: bv32, b: bv8): (r: bv32)
    ensures r ^ (b as bv32) == h * 33
  {
    ((h << 5) + h) ^ (b as bv32)
  }

  /** The shift-and-add is the multiplication by 33 modulo 2^32 of the djb2 definition. */
  lemma MixIsTimes33(h: bv32, b: bv8)
    ensures Mix(h, b) == (h * 33) ^ (b as bv32)
  {
  }

  /** The hash of the first |s| characters, folded from the left. */
  function Djb(s: string): (r: bv32)
    ensures s == [] ==> r == 5381
    ensures |s| == 1 ==> r == (5381 * 33) ^ (ByteOf(s[0]) as bv32)
  {
    if s == [] then 5381 else Mix(Djb(s[..|s| - 1]), ByteOf(s[|s| - 1]))
  }

  /** hash_name: the djb2 loop over the name's bytes. */
  method HashName(name: string) returns (h: bv32)
    ensures h == Djb(name)
  {
    h := 5381;
    var i := 0;
    while i < |name|
      invariant i <= |name|
      invariant h == Djb(name[..i])
    {
      assert name[..i + 1][..i] == name[..i];
      h := Mix(h, ByteOf(name[i]));
      i := i + 1;
    }
    assert name[..i] == name;
  }

  /** Hashing character by character: appending one character mixes one more byte in. */
  lemma DjbAppend(s: string, c: char)
    ensures Djb(s + [c]) == Mix(Djb(s), ByteOf(c))
  {
    assert (s + [c])[..|s|] == s;
  }

  /** The palette slot of a name: its hash modulo the palette's size. */
  function PaletteIndex(name: string): (i: nat)
    ensures i < |Palette|
  {
    Djb(name) as int % |Palette|
  }

  /** clamp255: values above 255 saturate, the rest keep their low byte. */
  function Clamp255(v: int): (r: int)
    ensures IsChannel(r)
    ensures v > 255 ==> r == 255
    ensures 0 <= v <= 255 ==> r == v
    ensures v < 0 ==> r == v % 256
  {
    if v > 255 then 255 else v % 256
  }

  /** The hover highlight: each colour channel raised by 30, saturating at 255; alpha kept. */
  function Brighten(c: Color): (r: Color)
    requires IsColor(c)
    ensures IsColor(r) && r.a == c.a
    ensures c.r <= r.r && c.g <= r.g && c.b <= r.b
    ensures r.r == (if c.r + 30 > 255 then 255 else c.r + 30)
    ensures r.g == (if c.g + 30 > 255 then 255 else c.g + 30)
    ensures r.b == (if c.b + 30 > 255 then 255 else c.b + 30)
  {
    Color(Clamp255(c.r + 30), Clamp255(c.g + 30), Clamp255(c.b + 30), c.a)
  }

  /** The fill colour of a row: its palette colour, brightened when hovered. */
  function FillColor(name: string, hovered: bool): (c: Color)
    ensures IsColor(c)
    ensures !hovered ==> c == Palette[PaletteIndex(name)]
    ensures hovered ==> c == Brighten(Palette[PaletteIndex(name)])
  {
    PaletteColorsValid(PaletteIndex(name));
    var col := Palette[PaletteIndex(name)];
    if hovered then Brighten(col) else col
  }

  lemma PaletteColorsValid(i: nat)
    requires i < |Palette|
    ensures IsColor(Palette[i])
  {
  }

  /** The outline: a fixed light grey when hovered, otherwise the fill at half intensity. */
  function OutlineColor(fill: Color, hovered: bool): (c: Color)
    requires IsColor(fill)
    ensures IsColor(c) && c.a == 255
    ensures hovered ==> c == Color(200, 200, 210, 255)
    ensures !hovered ==> c == Color(fill.r / 2, fill.g / 2, fill.b / 2, 255)
    ensures !hovered ==> c.r <= fill.r && c.g <= fill.g && c.b <= fill.b
    ensures !hovered ==> 2 * c.r <= fill.r <= 2 * c.r + 1 && 2 * c.g <= fill.g <= 2 * c.g + 1 && 2 * c.b <= fill.b <= 2 * c.b + 1
  {
    if hovered then Color(200, 200, 210, 255) else Color(fill.r / 2, fill.g / 2, fill.b / 2, 255)
  }

  // ---------------------------------------------------------------------
  // format_size
  // ---------------------------------------------------------------------

  datatype Unit = GB | MB | KB

  /** What format_size prints: a scaled amount with a unit, or the exact byte count. */
  datatype SizeText = Scaled(amount: real, unit: Unit) | Exact(bytes: nat)

  const KiB: nat := 1024
  const MiB: nat := 1024 * 1024
  const GiB: nat := 1024 * 1024 * 1024

  function UnitBytes(u: Unit): nat
  {
    match u
    case GB => GiB
    case MB => MiB
    case KB => KiB
  }

  /** format_size without the `%.1f` rounding: the unit choice and the amount it scales to. */
  function FormatSize(bytes: nat): (t: SizeText)
    ensures t.Exact? <==> bytes < KiB
    ensures t.Exact? ==> t.bytes == bytes
    ensures t.Scaled? ==> t.amount * UnitBytes(t.unit) as real == bytes as real
    ensures t.Scaled? && t.unit == GB <==> bytes >= GiB
    ensures t.Scaled? && t.unit == MB <==> MiB <= bytes < GiB
    ensures t.Scaled? && t.unit == KB <==> KiB <= bytes < MiB
  {
    if bytes >= GiB then Scaled(bytes as real / GiB as real, GB)
    else if bytes >= MiB then Scaled(bytes as real / MiB as real, MB)
    else if bytes >= KiB then Scaled(bytes as real / KiB as real, KB)
    else Exact(bytes)
  }

  /** The chosen unit is the largest that does not make the amount drop below 1; KB and MB stay below 1024. */
  lemma FormatSizeAmountRange(bytes: nat)
    ensures var t := FormatSize(bytes);
      t.Scaled? ==> 1.0 <= t.amount && (t.unit != GB ==> t.amount < 1024.0)
  {
    var t := FormatSize(bytes);
    if t.Scaled? {
      var u := UnitBytes(t.unit) as real;
      assert t.amount * u == bytes as real;
      assert bytes as real >= u;
      if t.unit != GB {
        assert bytes as real < 1024.0 * u;
      }
    }
  }
}
