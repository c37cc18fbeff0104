/** The colours that an escape sequence selects. */
module TerminalColors {
  import opened Arithmetic
  import opened CoreGraphics

  const VGA_COLORS: seq<Color> := [0x000000, 0xAA0000, 0x00AA00, 0xAAAA00, 0x0000AA, 0xAA00AA, 0x00AAAA, 0xAAAAAA]
  const VGA_BRIGHT_COLORS: seq<Color> := [0x555555, 0xFF5555, 0x55FF55, 0xFFFF55, 0x5555FF, 0xFF55FF, 0x55FFFF, 0xFFFFFF]

  datatype Attributes = Attributes(foreground: Color, background: Color)

  const DEFAULT: Attributes := Attributes(0xFFFFFF, 0x000000)

  /** Bitwise or. */
  function BitOr(a: nat, b: nat): nat {
    if a == 0 then b else 2 * BitOr(a / 2, b / 2) + if a % 2 == 1 || b % 2 == 1 then 1 else 0
  }

  function Rgb(r: nat, g: nat, b: nat): Color {
    BitOr(BitOr(r * 0x1_0000, g * 0x100), b)
  }

  /** The 256-colour palette; the grey ramp is computed as the kernel does it. */
  function Palette(n: nat): Color
    requires n <= 255
  {
    if n <= 7 then VGA_COLORS[n]
    else if n <= 15 then VGA_BRIGHT_COLORS[n - 8]
    else if n <= 231 then Rgb((n - 16) / 36 * 51, (n - 16) % 36 / 6 * 51, (n - 16) % 6 * 51)
    else Rgb((0xFF * n - 232) / 23, (0xFF * n - 232) / 23, (0xFF * n - 232) / 23)
  }

  function Colored(which: nat, color: Color, attr: Attributes): Attributes {
    if which == 38 then attr.(foreground := color) else attr.(background := color)
  }

  /** The effect of a complete sequence with these arguments. */
  function Effect(args: seq<nat>, attr: Attributes): Attributes {
    if args == [] then DEFAULT
    else if |args| == 1 then
      if args[0] == 0 then DEFAULT
      else if 30 <= args[0] <= 37 then attr.(foreground := VGA_COLORS[args[0] - 30])
      else if 40 <= args[0] <= 47 then attr.(background := VGA_COLORS[args[0] - 40])
      else attr
    else if |args| == 3 && (args[0] == 38 || args[0] == 48) && args[1] == 5 && args[2] <= 255 then
      Colored(args[0], Palette(args[2]), attr)
    else if |args| == 5 && (args[0] == 38 || args[0] == 48) && args[1] == 2 then
      Colored(args[0], Rgb(args[2] % 256, args[3] % 256, args[4] % 256), attr)
    else attr
  }

  // ----- bits -----

  ghost predicate BitIs(n: nat, k: nat) {
    if k == 0 then n % 2 == 1 else BitIs(n / 2, k - 1)
  }

  /** A bit is set in the result if and only if it is set in one of the two. */
  lemma {:induction false} BitOrBits(a: nat, b: nat, k: nat)
    ensures BitIs(BitOr(a, b), k) <==> BitIs(a, k) || BitIs(b, k)
  {
    if a == 0 {
      NoBits(k);
    } else if k > 0 {
      BitOrBits(a / 2, b / 2, k - 1);
      assert BitOr(a, b) / 2 == BitOr(a / 2, b / 2);
    }
  }

  lemma {:induction false} NoBits(k: nat)
    ensures !BitIs(0, k)
  {
    if k > 0 {
      NoBits(k - 1);
    }
  }

  lemma {:induction false} OrNothing(a: nat)
    ensures BitOr(a, 0) == a
  {
    if a > 0 {
      OrNothing(a / 2);
    }
  }

  lemma {:induction false} OrAtLeast(a: nat, b: nat)
    ensures BitOr(a, b) >= a
  {
    if a > 0 {
      OrAtLeast(a / 2, b / 2);
    }
  }

  ghost function Doublings(x: nat, k: nat): nat {
    if k == 0 then x else 2 * Doublings(x, k - 1)
  }

  /** Numbers that share no bit are added. */
  lemma {:induction false} OrBelow(x: nat, y: nat, k: nat)
    requires y < Pow2(k)
    ensures BitOr(Doublings(x, k), y) == Doublings(x, k) + y
  {
    if k == 0 {
      OrNothing(x);
    } else {
      OrBelow(x, y / 2, k - 1);
    }
  }

  lemma EightDoublings(x: nat)
    ensures Doublings(x, 8) == x * 0x100 && Pow2(8) == 0x100
  {
    assert Doublings(x, 1) == x * 2 && Pow2(1) == 2;
    assert Doublings(x, 3) == x * 8 && Pow2(3) == 8;
    assert Doublings(x, 5) == x * 32 && Pow2(5) == 32;
    assert Doublings(x, 7) == x * 128 && Pow2(7) == 128;
  }

  lemma SixteenDoublings(x: nat)
    ensures Doublings(x, 16) == x * 0x1_0000 && Pow2(16) == 0x1_0000
  {
    EightDoublings(x);
    assert Doublings(x, 10) == x * 0x400 && Pow2(10) == 0x400;
    assert Doublings(x, 12) == x * 0x1000 && Pow2(12) == 0x1000;
    assert Doublings(x, 14) == x * 0x4000 && Pow2(14) == 0x4000;
  }

  // ----- channels -----

  /** The colour is these three bytes. */
  ghost predicate Channels(color: Color, r: nat, g: nat, b: nat) {
    color / 0x1_0000 == r && color / 0x100 % 0x100 == g && color % 0x100 == b
  }

  lemma RgbChannels(r: nat, g: nat, b: nat)
    requires r < 256 && g < 256 && b < 256
    ensures Channels(Rgb(r, g, b), r, g, b)
  {
    UpperChannels(r, g);
    LowerChannel(r * 0x100 + g, b);
    SumChannels(r, g, b);
  }

  lemma UpperChannels(r: nat, g: nat)
    requires g < 256
    ensures BitOr(r * 0x1_0000, g * 0x100) == (r * 0x100 + g) * 0x100
  {
    SixteenDoublings(r);
    OrBelow(r, g * 0x100, 16);
  }

  lemma LowerChannel(upper: nat, b: nat)
    requires b < 256
    ensures BitOr(upper * 0x100, b) == upper * 0x100 + b
  {
    EightDoublings(upper);
    OrBelow(upper, b, 8);
  }

  lemma SumChannels(r: nat, g: nat, b: nat)
    requires r < 256 && g < 256 && b < 256
    ensures Channels((r * 0x100 + g) * 0x100 + b, r, g, b)
  {
  }

  /** The colours of the cube: each channel has one of six steps of 51. */
  lemma PaletteCube(r: nat, g: nat, b: nat)
    requires r <= 5 && g <= 5 && b <= 5
    ensures Channels(Palette(16 + 36 * r + 6 * g + b), 51 * r, 51 * g, 51 * b)
  {
    CubeDigits(r, g, b);
    RgbChannels(51 * r, 51 * g, 51 * b);
  }

  lemma CubeDigits(r: nat, g: nat, b: nat)
    requires r <= 5 && g <= 5 && b <= 5
    ensures var n := 16 + 36 * r + 6 * g + b; (n - 16) / 36 * 51 == 51 * r && (n - 16) % 36 / 6 * 51 == 51 * g && (n - 16) % 6 * 51 == 51 * b
  {
    var n := 36 * r + 6 * g + b;
    assert n / 36 == r && n % 36 == 6 * g + b;
    assert n % 36 / 6 == g && n % 6 == b;
  }

  /** Each of the 24 colours of the ramp needs more than 24 bits. */
  lemma PaletteRamp(n: nat)
    requires 232 <= n <= 255
    ensures 0xA02_0000 <= Palette(n)
  {
    assert (255 * n - 232) / 23 >= 0xA02;
    RampAtLeast((255 * n - 232) / 23);
  }

  lemma RampAtLeast(grey: nat)
    ensures grey >= 0xA02 ==> Rgb(grey, grey, grey) >= 0xA02_0000
  {
    OrAtLeast(grey * 0x1_0000, grey * 0x100);
    OrAtLeast(BitOr(grey * 0x1_0000, grey * 0x100), grey);
  }

  /** A bit of a colour, whatever the size of its parts. */
  lemma RgbBits(r: nat, g: nat, b: nat, k: nat)
    ensures BitIs(Rgb(r, g, b), k) <==> BitIs(r * 0x1_0000, k) || BitIs(g * 0x100, k) || BitIs(b, k)
  {
    BitOrBits(BitOr(r * 0x1_0000, g * 0x100), b, k);
    BitOrBits(r * 0x1_0000, g * 0x100, k);
  }

  // ----- what the arguments mean -----

  ghost predicate NamedColor(n: nat, color: Color)
    requires n <= 7
  {
    color == [0x000000, 0xAA0000, 0x00AA00, 0xAAAA00, 0x0000AA, 0xAA00AA, 0x00AAAA, 0xAAAAAA][n]
  }

  ghost predicate BrightColor(n: nat, color: Color)
    requires n <= 7
  {
    color == [0x555555, 0xFF5555, 0x55FF55, 0xFFFF55, 0x5555FF, 0xFF55FF, 0x55FFFF, 0xFFFFFF][n]
  }

  /** The number is put into all three places, though it has more than eight bits. */
  ghost predicate RampColor(grey: nat, color: Color) {
    forall k :: BitIs(color, k) <==> BitIs(grey * 0x1_0000, k) || BitIs(grey * 0x100, k) || BitIs(grey, k)
  }

  /** Colour `n` of the palette. */
  ghost predicate PaletteColor(n: nat, color: Color)
    requires n <= 255
  {
    && (n <= 7 ==> NamedColor(n, color))
    && (8 <= n <= 15 ==> BrightColor(n - 8, color))
    && (16 <= n <= 231 ==> Channels(color, (n - 16) / 36 * 51, (n - 16) / 6 % 6 * 51, (n - 16) % 6 * 51))
    && (232 <= n ==> RampColor((255 * n - 232) / 23, color))
  }

  lemma RampIs(grey: nat)
    ensures RampColor(grey, Rgb(grey, grey, grey))
  {
    forall k
      ensures BitIs(Rgb(grey, grey, grey), k) <==> BitIs(grey * 0x1_0000, k) || BitIs(grey * 0x100, k) || BitIs(grey, k)
    {
      RgbBits(grey, grey, grey, k);
    }
  }

  lemma CubeIs(m: nat)
    requires m < 216
    ensures Channels(Rgb(m / 36 * 51, m % 36 / 6 * 51, m % 6 * 51), m / 36 * 51, m / 6 % 6 * 51, m % 6 * 51)
  {
    GreenDigit(m);
    RgbChannels(m / 36 * 51, m % 36 / 6 * 51, m % 6 * 51);
  }

  lemma GreenDigit(m: nat)
    ensures m % 36 / 6 == m / 6 % 6
  {
  }

  lemma PaletteIs(n: nat)
    requires n <= 255
    ensures PaletteColor(n, Palette(n))
  {
    if 16 <= n <= 231 {
      CubeIs(n - 16);
    } else if 232 <= n {
      RampIs((255 * n - 232) / 23);
    }
  }

  /** What the arguments say of the new colour that `which` selects: 38 the foreground, 48 the background. */
  ghost predicate Selects(args: seq<nat>, which: nat, color: Color) {
    || (|args| == 1 && which - 8 <= args[0] <= which - 1 && NamedColor(args[0] - (which - 8), color))
    || (|args| == 3 && args[0] == which && args[1] == 5 && args[2] <= 255 && PaletteColor(args[2], color))
    || (|args| == 5 && args[0] == which && args[1] == 2 && Channels(color, args[2] % 256, args[3] % 256, args[4] % 256))
  }

  /** The arguments name a colour to set. */
  ghost predicate Selecting(args: seq<nat>, which: nat) {
    || (|args| == 1 && which - 8 <= args[0] <= which - 1)
    || (|args| == 3 && args[0] == which && args[1] == 5 && args[2] <= 255)
    || (|args| == 5 && args[0] == which && args[1] == 2)
  }

  ghost predicate Resetting(args: seq<nat>) {
    args == [] || args == [0]
  }

  /**
   * The two colours before and after a sequence: no argument or 0 gives white on black, a selected colour
   * is set and the other one kept, and every other list of arguments changes nothing.
   */
  ghost predicate Recolors(args: seq<nat>, before: Attributes, after: Attributes) {
    && (Resetting(args) ==> after.foreground == 0xFFFFFF && after.background == 0x000000)
    && (Selecting(args, 38) ==> Selects(args, 38, after.foreground) && after.background == before.background)
    && (Selecting(args, 48) ==> Selects(args, 48, after.background) && after.foreground == before.foreground)
    && (!Resetting(args) && !Selecting(args, 38) && !Selecting(args, 48) ==> after == before)
  }

  lemma EffectRecolors(args: seq<nat>, attr: Attributes)
    ensures Recolors(args, attr, Effect(args, attr))
  {
    if |args| == 3 && args[2] <= 255 {
      PaletteIs(args[2]);
    } else if |args| == 5 {
      RgbChannels(args[2] % 256, args[3] % 256, args[4] % 256);
    }
  }
}
