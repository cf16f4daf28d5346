/** Glyph ramps as JavaScript strings: sequences of UTF-16 code units.
    A ramp is indexed per code unit, so a character outside the Basic
    Multilingual Plane takes two slots of a ramp. */
module Glyphs {

  /** One UTF-16 code unit, the element of a JavaScript string. */
  newtype CodeUnit = n: int | 0 <= n < 0x1_0000

  /** The newline appended after every output row. */
  const Newline: CodeUnit := 10

  predicate IsSurrogate(u: CodeUnit) {
    0xD800 <= u < 0xE000
  }

  /** The UTF-16 encoding of a string of Unicode scalar values. */
  function Utf16(s: string): (units: seq<CodeUnit>)
    ensures |s| <= |units| <= 2 * |s|
  {
    if |s| == 0 then []
    else
      var c := s[0] as int;
      var head: seq<CodeUnit> :=
        if c < 0x1_0000 then [c as CodeUnit]
        else [(0xD800 + (c - 0x1_0000) / 0x400) as CodeUnit, (0xDC00 + (c - 0x1_0000) % 0x400) as CodeUnit];
      head + Utf16(s[1..])
  }

  /** Text inside the Basic Multilingual Plane takes one code unit per
      character, the character's own code. */
  lemma {:induction false} Utf16OfBmp(s: string)
    requires forall i | 0 <= i < |s| :: s[i] as int < 0x1_0000
    ensures |Utf16(s)| == |s|
    ensures forall i | 0 <= i < |s| :: Utf16(s)[i] as int == s[i] as int
  {
    if |s| > 0 {
      Utf16OfBmp(s[1..]);
      assert Utf16(s) == [s[0] as int as CodeUnit] + Utf16(s[1..]);
      forall i | 1 <= i < |s| ensures Utf16(s)[i] as int == s[i] as int {
        assert s[1..][i - 1] == s[i];
      }
    }
  }

  /** The built-in glyph ramps, darkest glyph first. */
  const Standard: string := " .'`^\",:;Il!i><~+_-?][}{1)(|\\/tfjrxnuvczXYUJCLQ0OZmwqpdbkhao*#MW&8%B@$"
  const Detailed: string := " .'`^\",:;-_+<>i!lI?/\\|()1{}[]rcvunxzjftLCJUYXZO0Qoahkbdpqwm*WMB8&%$#@"
  const Simple: string := " .:-=+*#%@"
  const Blocks: string := " ░▒▓█"
  const Binary: string := " 01"
  const Minimal: string := " .·:∴"
  const Retro: string := " .:!*oe&#%@"
  const Matrix: string := " .:-=+*#ﾊﾐﾋｰｳｼﾅﾓﾆｻﾜﾂｵﾘｱﾎﾃﾏｹﾒｴｶｷﾑﾕﾗｾﾈｽﾀﾇﾍ"
  const Emoji: string := " \U{1F311}\U{1F318}\U{1F317}\U{1F316}\U{1F315}"

  /** The styles of the style selector, each naming a built-in ramp. */
  datatype Style =
    | StandardStyle | DetailedStyle | SimpleStyle | BlocksStyle | BinaryStyle
    | MinimalStyle | RetroStyle | MatrixStyle | EmojiStyle

  /** The ramp a built-in style selects. Every one has at least three code
      units (the binary ramp is the shortest), so `n - 1` is positive. */
  function StyleRamp(style: Style): (ramp: seq<CodeUnit>)
    ensures |ramp| >= 3
  {
    match style
    case StandardStyle => Utf16(Standard)
    case DetailedStyle => Utf16(Detailed)
    case SimpleStyle => Utf16(Simple)
    case BlocksStyle => Utf16(Blocks)
    case BinaryStyle => Utf16(Binary)
    case MinimalStyle => Utf16(Minimal)
    case RetroStyle => Utf16(Retro)
    case MatrixStyle => Utf16(Matrix)
    case EmojiStyle => Utf16(Emoji)
  }

  /** The ramp in force when a custom ramp is chosen but left empty. */
  function CustomRamp(typed: string): (ramp: seq<CodeUnit>)
    ensures |ramp| >= 1
    ensures |typed| > 0 ==> ramp == Utf16(typed)
    ensures |typed| == 0 ==> ramp == Utf16(Standard)
  {
    if |typed| > 0 then Utf16(typed) else Utf16(Standard)
  }

  /** The emoji ramp has six characters but eleven code units, and slot 1
      holds only the high half of the first moon's surrogate pair. */
  lemma EmojiRampSplitsSurrogates()
    ensures |Emoji| == 6
    ensures |Utf16(Emoji)| == 11
    ensures Utf16(Emoji)[1] == 0xD83C && IsSurrogate(Utf16(Emoji)[1])
    ensures Utf16(Emoji)[2] == 0xDF11 && IsSurrogate(Utf16(Emoji)[2])
  {
    assert Utf16(Emoji[5..]) == [0xD83C, 0xDF15];
    assert Utf16(Emoji[4..]) == [0xD83C, 0xDF16, 0xD83C, 0xDF15];
    assert Utf16(Emoji[1..]) == [0xD83C, 0xDF11] + Utf16(Emoji[2..]);
    assert Utf16(Emoji) == [32 as CodeUnit] + Utf16(Emoji[1..]);
  }
}
