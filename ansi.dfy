/** The ANSI escape strings the modelled code writes: `fore_rgb`, `back_rgb`
    and `RESET`, with Python's decimal formatting of an `int` in an f-string. */
module Ansi {
  import opened RgbCodec
  import opened Strings
  import opened Lines

  const Esc: char := '\U{1B}'

  /** `RESET = "\x1b[0m"`; colorama's `Style.RESET_ALL` is the same text. */
  const Reset: string := [Esc] + "[0m"

  function DigitChar(d: nat): (c: char)
    requires d < 10
    ensures '0' <= c <= '9'
  {
    (('0' as int) + d) as char
  }

  function DigitValue(c: char): (d: nat)
    requires '0' <= c <= '9'
    ensures d < 10
  {
    (c as int) - ('0' as int)
  }

  /** `str(n)` for `n >= 0`: decimal digits, most significant first. */
  function NatToString(n: nat): string
  {
    if n < 10 then [DigitChar(n)] else NatToString(n / 10) + [DigitChar(n % 10)]
  }

  /** Python's decimal form of a natural number: at least one digit, only
      digits, and no leading zero unless the number is 0. */
  lemma {:induction false} NatToStringDigits(n: nat)
    ensures var s := NatToString(n);
            && |s| >= 1
            && (forall i :: 0 <= i < |s| ==> '0' <= s[i] <= '9')
            && (|s| > 1 ==> s[0] != '0')
  {
    if n >= 10 {
      NatToStringDigits(n / 10);
      assert NatToString(n)[0] == NatToString(n / 10)[0];
    }
  }

  /** The value of a string of decimal digits. */
  function DigitsValue(s: string): nat
    requires forall i :: 0 <= i < |s| ==> '0' <= s[i] <= '9'
  {
    if s == [] then 0 else 10 * DigitsValue(s[..|s| - 1]) + DigitValue(s[|s| - 1])
  }

  /** Reading the digits back gives the number that was formatted. */
  lemma {:induction false} NatToStringValue(n: nat)
    ensures forall i :: 0 <= i < |NatToString(n)| ==> '0' <= NatToString(n)[i] <= '9'
    ensures DigitsValue(NatToString(n)) == n
  {
    NatToStringDigits(n);
    if n >= 10 {
      NatToStringValue(n / 10);
      var s := NatToString(n);
      assert s[..|s| - 1] == NatToString(n / 10);
    }
  }

  /** `str(n)` / `f"{n}"` for any integer. */
  function IntToString(n: int): string
  {
    if n < 0 then "-" + NatToString(-n) else NatToString(n)
  }

  /** The decimal form of an integer is a sign and digits. */
  lemma IntToStringChars(n: int)
    ensures forall i :: 0 <= i < |IntToString(n)| ==> IntToString(n)[i] == '-' || '0' <= IntToString(n)[i] <= '9'
  {
    NatToStringDigits(if n < 0 then -n else n);
  }

  /** The text between two escapes: `{r};{g};{b}m`. */
  function Channels(c: Rgb): string
  {
    IntToString(c.red) + ";" + IntToString(c.green) + ";" + IntToString(c.blue) + "m"
  }

  /** `back_rgb(r, g, b)`, a 24-bit background colour escape. */
  function Back(c: Rgb): (r: string)
    ensures |r| > 7 && r[..7] == [Esc] + "[48;2;" && r[|r| - 1] == 'm'
  {
    [Esc] + "[48;2;" + Channels(c)
  }

  /** `fore_rgb(r, g, b)`, a 24-bit foreground colour escape. */
  function Fore(c: Rgb): (r: string)
    ensures |r| > 7 && r[..7] == [Esc] + "[38;2;" && r[|r| - 1] == 'm'
  {
    [Esc] + "[38;2;" + Channels(c)
  }

  /** The characters an escape is made of; none is a space or a line break. */
  predicate EscapeChar(ch: char) {
    ch == Esc || ch == '[' || ch == ';' || ch == 'm' || ch == '-' || '0' <= ch <= '9'
  }

  /** The formatted channels hold digits, signs, separators and the final 'm'. */
  lemma ChannelsPlain(c: Rgb)
    ensures forall i :: 0 <= i < |Channels(c)| ==> EscapeChar(Channels(c)[i]) && Channels(c)[i] != Esc
    ensures Esc !in Channels(c) && ' ' !in Channels(c) && '\n' !in Channels(c)
  {
    var r, g, b := IntToString(c.red), IntToString(c.green), IntToString(c.blue);
    IntToStringChars(c.red);
    IntToStringChars(c.green);
    IntToStringChars(c.blue);
    assert Channels(c) == r + ";" + g + ";" + b + "m";
    assert forall i :: 0 <= i < |Channels(c)| ==> Channels(c)[i] == '-' || Channels(c)[i] == ';' || Channels(c)[i] == 'm' || '0' <= Channels(c)[i] <= '9';
  }

  /** Colour escapes are made of escape characters only. */
  lemma EscapeCharsOnly(c: Rgb)
    ensures forall i :: 0 <= i < |Back(c)| ==> EscapeChar(Back(c)[i])
    ensures forall i :: 0 <= i < |Fore(c)| ==> EscapeChar(Fore(c)[i])
  {
    ChannelsPlain(c);
    var b, f := "[48;2;", "[38;2;";
    assert forall i :: 0 <= i < |b| ==> EscapeChar(b[i]);
    assert forall i :: 0 <= i < |f| ==> EscapeChar(f[i]);
    assert Back(c) == [Esc] + b + Channels(c) && Fore(c) == [Esc] + f + Channels(c);
  }

  /** An escape character followed by plain text. */
  lemma EscapeThen(t: string)
    requires Esc !in t && ' ' !in t && '\n' !in t
    ensures Count([Esc] + t, Esc) == 1 && Count([Esc] + t, ' ') == 0 && Count([Esc] + t, '\n') == 0
  {
    CountConcat([Esc], t, Esc);
    CountConcat([Esc], t, ' ');
    CountConcat([Esc], t, '\n');
    CountZero(t, Esc);
    CountZero(t, ' ');
    CountZero(t, '\n');
    assert [Esc][..0] == [];
  }

  /** A colour escape holds exactly one escape character and no space or
      line break, so it never adds to the cells or rows of a picture. */
  lemma EscapeCounts(c: Rgb)
    ensures Count(Back(c), Esc) == 1 && Count(Back(c), ' ') == 0 && Count(Back(c), '\n') == 0
    ensures Count(Fore(c), Esc) == 1 && Count(Fore(c), ' ') == 0 && Count(Fore(c), '\n') == 0
  {
    ChannelsPlain(c);
    var b, f := "[48;2;" + Channels(c), "[38;2;" + Channels(c);
    assert Back(c) == [Esc] + b && Fore(c) == [Esc] + f;
    EscapeThen(b);
    EscapeThen(f);
  }

  /** `RESET` holds one escape character and no space or line break. */
  lemma ResetCounts()
    ensures Count(Reset, Esc) == 1 && Count(Reset, ' ') == 0 && Count(Reset, '\n') == 0
  {
    EscapeThen("[0m");
  }

  /** What a text built around colour escapes needs of its formatter: each
      escape holds one escape character, no space and no line break. */
  ghost predicate EscapeShaped(escape: Rgb -> string) {
    forall c :: Count(escape(c), Esc) == 1 && Count(escape(c), ' ') == 0 && NoBreaks(escape(c))
  }

  /** `back_rgb` and `fore_rgb` are such formatters. */
  lemma EscapesShaped()
    ensures EscapeShaped(Back) && EscapeShaped(Fore)
  {
    forall c
      ensures Count(Back(c), Esc) == 1 && Count(Back(c), ' ') == 0 && NoBreaks(Back(c))
      ensures Count(Fore(c), Esc) == 1 && Count(Fore(c), ' ') == 0 && NoBreaks(Fore(c))
    {
      EscapeCounts(c);
      EscapeCharsOnly(c);
    }
  }

  /** Colour escapes contain `ch` nowhere. */
  ghost predicate EscapeAvoids(escape: Rgb -> string, ch: char) {
    forall c :: Count(escape(c), ch) == 0
  }

  /** A character that is not an escape character occurs in no colour escape
      and not in `RESET`. */
  lemma EscapesAvoid(ch: char)
    requires !EscapeChar(ch)
    ensures EscapeAvoids(Back, ch) && EscapeAvoids(Fore, ch)
    ensures Count(Reset, ch) == 0
  {
    forall c ensures Count(Back(c), ch) == 0 && Count(Fore(c), ch) == 0 {
      EscapeCharsOnly(c);
      CountZero(Back(c), ch);
      CountZero(Fore(c), ch);
    }
    CountZero(Reset, ch);
  }
}
