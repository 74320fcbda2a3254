/** service/colorbar.py: the `Color` constants, the gradient colour between
    two packed colours, and the text of a gradient progress bar.

    The float work (`fract`, `round`, `w / k`, `f"{fract:.0%}"`) is left
    uninterpreted: it is a `Floats` record of functions over a fraction type
    `F`, passed in by the caller.  Everything around it (which colours are
    used, which escape is chosen, how the bar is assembled) is modelled. */
module ColorBar {
  import opened Errors
  import opened RgbCodec
  import opened Strings
  import opened Ansi
  import opened Lines

  /** `class Color(enum.IntEnum)`: each member is its packed value. */
  datatype Color = Red | Green | Blue | White | Yellow | Magenta | Black | Grey {
    function Value(): (v: int)
      ensures 0 <= v < PackedLimit
    {
      match this
      case Red => 0xff0000
      case Green => 0x00ff00
      case Blue => 0x0000ff
      case White => 0xffffff
      case Yellow => 0xffff00
      case Magenta => 0xff00ff
      case Black => 0x000000
      case Grey => 0x808080
    }
  }

  const ColorDefault: Color := Red
  const ToColorDefault: Color := Green

  /** The members decode to the channels they are named after, and packing
      the channels gives the member back. */
  lemma ColorChannels()
    ensures Unpack(Red.Value()) == Rgb(255, 0, 0)
    ensures Unpack(Green.Value()) == Rgb(0, 255, 0)
    ensures Unpack(Blue.Value()) == Rgb(0, 0, 255)
    ensures Unpack(White.Value()) == Rgb(255, 255, 255)
    ensures Unpack(Yellow.Value()) == Rgb(255, 255, 0)
    ensures Unpack(Magenta.Value()) == Rgb(255, 0, 255)
    ensures Unpack(Black.Value()) == Rgb(0, 0, 0)
    ensures Unpack(Grey.Value()) == Rgb(128, 128, 128)
  {
  }

  /** Packing a member's channels gives the member back. */
  lemma ColorRoundTrip(c: Color)
    ensures Pack(Unpack(c.Value())) == c.Value()
  {
    PackUnpack(c.Value());
  }

  /** No two members share a value (the enum has no aliases), and only
      `BLACK` is falsy. */
  lemma ColorValuesDistinct(a: Color, b: Color)
    ensures a.Value() == b.Value() <==> a == b
    ensures a.Value() == 0 <==> a == Black
  {
  }

  /** A colour argument (`rgb_color = Color | int`, default `None`) is falsy
      when it is `None` or 0, that is also when it is `Color.BLACK`. */
  predicate Truthy(color: Option<int>) {
    color.Some? && color.value != 0
  }

  /** `color or default`. */
  function OrDefault(color: Option<int>, default: Color): int
  {
    if Truthy(color) then color.value else default.Value()
  }

  /** The float operations the bar depends on, uninterpreted:
      `mix(a, b, f)` is `round(a + (b - a) * f)`, `steps(k, f)` is
      `round(k * f)`, `ratio(w, k)` is `w / k` and `percent(f)` is
      `f"{f:.0%}"`. */
  datatype Floats<!F> = Floats(
    mix: (int, int, F) -> int,
    steps: (int, F) -> int,
    ratio: (int, int) -> F,
    percent: F -> string)

  /** `_gradient_color`: the channels `fract` of the way from `color` to
      `to_color`, a falsy `color` being `RED` and a falsy `to_color` `GREEN`. */
  function GradientRgb<F>(fl: Floats<F>, color: Option<int>, toColor: Option<int>, fract: F): Rgb
  {
    var from, to := Unpack(OrDefault(color, ColorDefault)), Unpack(OrDefault(toColor, ToColorDefault));
    Rgb(fl.mix(from.red, to.red, fract), fl.mix(from.green, to.green, fract), fl.mix(from.blue, to.blue, fract))
  }

  /** `gradient_color`: the gradient channels, packed. */
  function GradientColor<F>(fl: Floats<F>, fract: F, color: Option<int>, toColor: Option<int>): int
  {
    Pack(GradientRgb(fl, color, toColor, fract))
  }

  /** A falsy endpoint is replaced by its default, so `BLACK` (0) as an
      endpoint means the same as no endpoint, never black. */
  lemma GradientDefaults<F>(fl: Floats<F>, color: Option<int>, toColor: Option<int>, fract: F)
    ensures !Truthy(color) ==> GradientRgb(fl, color, toColor, fract) == GradientRgb(fl, Some(Red.Value()), toColor, fract)
    ensures !Truthy(toColor) ==> GradientRgb(fl, color, toColor, fract) == GradientRgb(fl, color, Some(Green.Value()), fract)
    ensures GradientRgb(fl, Some(Black.Value()), toColor, fract) == GradientRgb(fl, None, toColor, fract)
    ensures GradientRgb(fl, color, Some(Black.Value()), fract) == GradientRgb(fl, color, None, fract)
  {
  }

  /** Where the interpolation is exact at its ends (as `round(a + (b - a) *
      0.0)` is `a` and `round(a + (b - a) * 1.0)` is `b` for integers), the
      gradient starts at the first colour's channels and ends at the
      second's, with the defaults applied. */
  lemma GradientEnds<F>(fl: Floats<F>, color: Option<int>, toColor: Option<int>, zero: F, one: F)
    requires forall a, b :: fl.mix(a, b, zero) == a
    requires forall a, b :: fl.mix(a, b, one) == b
    ensures GradientRgb(fl, color, toColor, zero) == Unpack(OrDefault(color, Red))
    ensures GradientRgb(fl, color, toColor, one) == Unpack(OrDefault(toColor, Green))
    ensures !Truthy(color) ==> GradientRgb(fl, color, toColor, zero) == Rgb(255, 0, 0)
    ensures !Truthy(toColor) ==> GradientRgb(fl, color, toColor, one) == Rgb(0, 255, 0)
  {
    ColorChannels();
  }

  /** Between two equal colours the gradient is that colour, wherever the
      interpolation of equal ends is that end (`round(a + 0 * f)` is `a`). */
  lemma GradientConstant<F>(fl: Floats<F>, color: int, fract: F)
    requires color != 0
    requires forall a :: fl.mix(a, a, fract) == a
    ensures GradientRgb(fl, Some(color), Some(color), fract) == Unpack(color)
  {
  }

  /** `gradient_color` packs what `_gradient_color` computes: when the channels
      are bytes, unpacking the packed value gives them back. */
  lemma GradientColorUnpacks<F>(fl: Floats<F>, fract: F, color: Option<int>, toColor: Option<int>)
    requires GradientRgb(fl, color, toColor, fract).Valid()
    ensures Unpack(GradientColor(fl, fract, color, toColor)) == GradientRgb(fl, color, toColor, fract)
    ensures 0 <= GradientColor(fl, fract, color, toColor) < PackedLimit
  {
    UnpackPack(GradientRgb(fl, color, toColor, fract));
  }

  // gradient_bar.

  /** The colours `gradient_bar` settles on: a falsy `color` resets both ends
      to RED and GREEN, whatever `to_color` was; otherwise a falsy `to_color`
      becomes `color`. */
  function BarEnds(color: Option<int>, toColor: Option<int>): (ends: (int, int))
    ensures ends.0 != 0 && ends.1 != 0
  {
    if !Truthy(color) then (ColorDefault.Value(), ToColorDefault.Value())
    else if !Truthy(toColor) then (color.value, color.value)
    else (color.value, toColor.value)
  }

  /** `back_rgb if symbol == " " else fore_rgb`. */
  function EscapeFor(symbol: string): Rgb -> string
  {
    if symbol == " " then Back else Fore
  }

  /** The colour escapes of a rainbow bar of `n` cells, the `w`-th at the
      fraction `w / k` (none when `n <= 0`, as `range(n)` is then empty):
      one part per cell, each a single escape that draws no cell of its own
      and breaks no line. */
  function RainbowParts<F>(fl: Floats<F>, from: int, to: int, k: int, n: int, escape: Rgb -> string): (parts: seq<string>)
    ensures |parts| == if n <= 0 then 0 else n
    ensures EscapeShaped(escape) ==>
              forall i :: 0 <= i < |parts| ==> Count(parts[i], Esc) == 1 && Count(parts[i], ' ') == 0 && NoBreaks(parts[i])
  {
    var parts := seq(if n <= 0 then 0 else n, w => escape(GradientRgb(fl, Some(from), Some(to), fl.ratio(w, k))));
    assert forall i :: 0 <= i < |parts| ==> parts[i] == escape(GradientRgb(fl, Some(from), Some(to), fl.ratio(i, k)));
    parts
  }

  /** The bar before `RESET`, for the chosen ends and escape formatter. */
  function BarBody<F>(fl: Floats<F>, fract: F, symbol: string, from: int, to: int, k: int, rainbow: bool,
                      escape: Rgb -> string): string
  {
    if |symbol| > 1 then escape(GradientRgb(fl, Some(from), Some(to), fract)) + symbol
    else if rainbow then Join(symbol, RainbowParts(fl, from, to, k, fl.steps(k, fract), escape)) + symbol
    else escape(GradientRgb(fl, Some(from), Some(to), fract)) + Repeat(symbol, fl.steps(k, fract))
  }

  /** `gradient_bar(fract, symbol, color, to_color, k, rainbow, percent)`. */
  function GradientBar<F>(fl: Floats<F>, fract: F, symbol: string, color: Option<int>, toColor: Option<int>,
                          k: int, rainbow: bool, percent: bool): (bar: string)
    ensures !percent ==> EndsWith(bar, Reset)
    ensures percent ==> EndsWith(bar, " " + fl.percent(fract))
  {
    var ends := BarEnds(color, toColor);
    BarBody(fl, fract, symbol, ends.0, ends.1, k, rainbow, EscapeFor(symbol)) + Reset
      + (if percent then " " + fl.percent(fract) else "")
  }

  /** A falsy `color` discards `to_color`, and `Color.BLACK` counts as no
      colour at all. */
  lemma BarIgnoresToColor<F>(fl: Floats<F>, fract: F, symbol: string, color: Option<int>,
                             toColor: Option<int>, other: Option<int>, k: int, rainbow: bool, percent: bool)
    requires !Truthy(color)
    ensures GradientBar(fl, fract, symbol, color, toColor, k, rainbow, percent)
         == GradientBar(fl, fract, symbol, color, other, k, rainbow, percent)
    ensures GradientBar(fl, fract, symbol, color, toColor, k, rainbow, percent)
         == GradientBar(fl, fract, symbol, Some(Red.Value()), Some(Green.Value()), k, rainbow, percent)
  {
  }

  /** With a colour and a falsy `to_color` the bar is drawn from the colour
      to itself. */
  lemma BarToColorDefault<F>(fl: Floats<F>, fract: F, symbol: string, color: int, toColor: Option<int>,
                             k: int, rainbow: bool, percent: bool)
    requires color != 0 && !Truthy(toColor)
    ensures GradientBar(fl, fract, symbol, Some(color), toColor, k, rainbow, percent)
         == GradientBar(fl, fract, symbol, Some(color), Some(color), k, rainbow, percent)
  {
  }

  /** The ends `gradient_bar` settles on are truthy, so the defaults of
      `_gradient_color` never apply inside a bar: its gradient runs between
      exactly those ends. */
  lemma BarGradient<F>(fl: Floats<F>, color: Option<int>, toColor: Option<int>, fract: F)
    ensures var ends := BarEnds(color, toColor);
            GradientRgb(fl, Some(ends.0), Some(ends.1), fract)
              == Rgb(fl.mix(Unpack(ends.0).red, Unpack(ends.1).red, fract),
                     fl.mix(Unpack(ends.0).green, Unpack(ends.1).green, fract),
                     fl.mix(Unpack(ends.0).blue, Unpack(ends.1).blue, fract))
  {
  }

  /** The percentage is appended after `RESET` exactly when `percent` holds;
      without it the bar ends with `RESET`. */
  lemma BarSuffix<F>(fl: Floats<F>, fract: F, symbol: string, color: Option<int>, toColor: Option<int>,
                     k: int, rainbow: bool)
    ensures GradientBar(fl, fract, symbol, color, toColor, k, rainbow, true)
         == GradientBar(fl, fract, symbol, color, toColor, k, rainbow, false) + " " + fl.percent(fract)
    ensures EndsWith(GradientBar(fl, fract, symbol, color, toColor, k, rainbow, false), Reset)
  {
    var ends := BarEnds(color, toColor);
    var bar := BarBody(fl, fract, symbol, ends.0, ends.1, k, rainbow, EscapeFor(symbol)) + Reset;
    assert GradientBar(fl, fract, symbol, color, toColor, k, rainbow, false) == bar + "";
    assert GradientBar(fl, fract, symbol, color, toColor, k, rainbow, true) == bar + (" " + fl.percent(fract));
  }

  /** A symbol of more than one character is never " ", so it is drawn once,
      after one foreground escape of the colour at `fract`. */
  lemma LongSymbolBar<F>(fl: Floats<F>, fract: F, symbol: string, color: Option<int>, toColor: Option<int>,
                         k: int, rainbow: bool)
    requires |symbol| > 1
    ensures var ends := BarEnds(color, toColor);
            GradientBar(fl, fract, symbol, color, toColor, k, rainbow, false)
              == Fore(GradientRgb(fl, Some(ends.0), Some(ends.1), fract)) + symbol + Reset
  {
  }

  /** The escape `" "` draws with is the background one; any other symbol
      draws with the foreground one. */
  lemma EscapeChoice(symbol: string)
    ensures symbol == " " ==> EscapeFor(symbol) == Back
    ensures symbol != " " ==> EscapeFor(symbol) == Fore
  {
  }

  /** The number of colour escapes in a bar body: one, except for a rainbow
      of a one-character (or empty) symbol, which has one per cell. */
  function BodyEscapes(symbol: string, rainbow: bool, n: int): nat
  {
    if |symbol| > 1 || !rainbow then 1 else if n <= 0 then 0 else n
  }

  /** How often the symbol character occurs in a bar body of a
      one-character symbol: once per cell, except that a rainbow of no cells
      still ends with the symbol once. */
  function BodyCells(rainbow: bool, n: int): nat
  {
    if rainbow then (if n <= 0 then 1 else n) else (if n <= 0 then 0 else n)
  }

  lemma {:induction false} BodyEscapeCount<F>(fl: Floats<F>, fract: F, symbol: string, from: int, to: int, k: int,
                                              rainbow: bool, escape: Rgb -> string)
    requires EscapeShaped(escape) && Esc !in symbol
    ensures Count(BarBody(fl, fract, symbol, from, to, k, rainbow, escape), Esc)
         == BodyEscapes(symbol, rainbow, fl.steps(k, fract))
  {
    CountZero(symbol, Esc);
    var n := fl.steps(k, fract);
    var g := GradientRgb(fl, Some(from), Some(to), fract);
    if |symbol| > 1 {
      CountConcat(escape(g), symbol, Esc);
    } else if rainbow {
      var parts := RainbowParts(fl, from, to, k, n, escape);
      forall i | 0 <= i < |parts| ensures Count(parts[i], Esc) == 1 {
        assert parts[i] == escape(GradientRgb(fl, Some(from), Some(to), fl.ratio(i, k)));
      }
      JoinedCountEach(parts, Esc, 1);
      JoinCount(symbol, parts, Esc);
      CountConcat(Join(symbol, parts), symbol, Esc);
    } else {
      RepeatCount(symbol, n, Esc);
      CountConcat(escape(g), Repeat(symbol, n), Esc);
    }
  }

  lemma {:induction false} BodyCellCount<F>(fl: Floats<F>, fract: F, ch: char, from: int, to: int, k: int,
                                            rainbow: bool, escape: Rgb -> string)
    requires EscapeAvoids(escape, ch)
    ensures Count(BarBody(fl, fract, [ch], from, to, k, rainbow, escape), ch) == BodyCells(rainbow, fl.steps(k, fract))
  {
    CountSingle(ch, ch);
    var n := fl.steps(k, fract);
    var g := GradientRgb(fl, Some(from), Some(to), fract);
    if rainbow {
      var parts := RainbowParts(fl, from, to, k, n, escape);
      forall i | 0 <= i < |parts| ensures Count(parts[i], ch) == 0 {
        assert parts[i] == escape(GradientRgb(fl, Some(from), Some(to), fl.ratio(i, k)));
      }
      JoinedCountEach(parts, ch, 0);
      JoinCount([ch], parts, ch);
      CountConcat(Join([ch], parts), [ch], ch);
      if parts != [] {
        MulStep(1, |parts|);
      }
    } else {
      RepeatCount([ch], n, ch);
      CountConcat(escape(g), Repeat([ch], n), ch);
    }
  }

  /** A bar without the percentage holds one escape per colour change and
      the reset, when the symbol holds no escape character itself. */
  lemma BarEscapeCount<F>(fl: Floats<F>, fract: F, symbol: string, color: Option<int>, toColor: Option<int>,
                          k: int, rainbow: bool)
    requires Esc !in symbol
    ensures Count(GradientBar(fl, fract, symbol, color, toColor, k, rainbow, false), Esc)
         == BodyEscapes(symbol, rainbow, fl.steps(k, fract)) + 1
  {
    var ends := BarEnds(color, toColor);
    var body := BarBody(fl, fract, symbol, ends.0, ends.1, k, rainbow, EscapeFor(symbol));
    EscapesShaped();
    BodyEscapeCount(fl, fract, symbol, ends.0, ends.1, k, rainbow, EscapeFor(symbol));
    ResetCounts();
    CountConcat(body, Reset, Esc);
    assert GradientBar(fl, fract, symbol, color, toColor, k, rainbow, false) == body + Reset;
  }

  /** A bar of a one-character symbol that is not part of an escape (" "
      among them) draws the symbol `round(k * fract)` times (none when that
      is negative); a rainbow bar of no cells still draws it once. */
  lemma BarCellCount<F>(fl: Floats<F>, fract: F, ch: char, color: Option<int>, toColor: Option<int>,
                        k: int, rainbow: bool)
    requires !EscapeChar(ch)
    ensures Count(GradientBar(fl, fract, [ch], color, toColor, k, rainbow, false), ch)
         == BodyCells(rainbow, fl.steps(k, fract))
  {
    var ends := BarEnds(color, toColor);
    var body := BarBody(fl, fract, [ch], ends.0, ends.1, k, rainbow, EscapeFor([ch]));
    EscapesAvoid(ch);
    BodyCellCount(fl, fract, ch, ends.0, ends.1, k, rainbow, EscapeFor([ch]));
    CountConcat(body, Reset, ch);
    assert GradientBar(fl, fract, [ch], color, toColor, k, rainbow, false) == body + Reset;
  }
}
