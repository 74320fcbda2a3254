/** print_ascii.py: the background colour of an image (its most frequent
    colour), the set of its colours, and the picture of an image drawn with
    24-bit background escapes. */
module PrintAscii {
  import opened Errors
  import opened RgbCodec
  import opened Pixels
  import opened Strings
  import opened Ansi
  import opened Lines
  import opened Seqs

  // ---------------------------------------------------------------------------
  // get_background_color: np.unique over the packed pixels, then argmax.

  /** Strictly increasing, as `np.unique` returns its values. */
  predicate Sorted(s: seq<int>) {
    forall i, j :: 0 <= i < j < |s| ==> s[i] < s[j]
  }

  /** `x` put in its place in the increasing sequence `s`, unless present. */
  function Insert(s: seq<int>, x: int): (r: seq<int>)
    requires Sorted(s)
    ensures Sorted(r)
    ensures forall y :: y in r <==> y in s || y == x
  {
    if s == [] then [x]
    else if x < s[0] then [x] + s
    else if x == s[0] then s
    else
      var r := Insert(s[1..], x);
      assert forall k :: 0 <= k < |r| ==> s[0] < r[k] by {
        forall k | 0 <= k < |r| ensures s[0] < r[k] {
          if r[k] != x {
            assert r[k] in s[1..];
            var j :| 0 <= j < |s[1..]| && s[1..][j] == r[k];
            assert s[j + 1] == r[k];
          }
        }
      }
      [s[0]] + r
  }

  /** `np.unique(xs)`: the distinct values of `xs`, in increasing order. */
  function Unique(xs: seq<int>): (u: seq<int>)
    ensures Sorted(u)
    ensures forall y :: y in u <==> y in xs
  {
    if xs == [] then [] else Insert(Unique(xs[..|xs| - 1]), xs[|xs| - 1])
  }

  /** How many times `v` occurs in `xs`. */
  function Occurrences(xs: seq<int>, v: int): nat
  {
    if xs == [] then 0 else Occurrences(xs[..|xs| - 1], v) + (if xs[|xs| - 1] == v then 1 else 0)
  }

  /** The `counts` that `np.unique(xs, return_counts=True)` returns beside `u`. */
  function Counts(u: seq<int>, xs: seq<int>): (c: seq<nat>)
    ensures |c| == |u|
  {
    seq(|u|, i requires 0 <= i < |u| => Occurrences(xs, u[i]))
  }

  /** `counts.argmax()`: the first index of a largest count. */
  function ArgMax(c: seq<nat>): (i: nat)
    requires |c| > 0
    ensures i < |c|
    ensures forall k :: 0 <= k < |c| ==> c[k] <= c[i]
    ensures forall k :: 0 <= k < i ==> c[k] < c[i]
  {
    if |c| == 1 then 0
    else
      var j := ArgMax(c[..|c| - 1]);
      assert c[..|c| - 1][j] == c[j];
      if c[|c| - 1] > c[j] then |c| - 1 else j
  }

  /** The packed values of `ps`, as `rgb[:, 0] << 16 | rgb[:, 1] << 8 | rgb[:, 2]`. */
  function PackAll(ps: seq<Rgb>): (xs: seq<int>)
    ensures |xs| == |ps|
  {
    if ps == [] then [] else PackAll(ps[..|ps| - 1]) + [Pack(ps[|ps| - 1])]
  }

  /** How many pixels of `ps` have colour `c`. */
  function CountColor(ps: seq<Rgb>, c: Rgb): nat
  {
    if ps == [] then 0 else CountColor(ps[..|ps| - 1], c) + (if ps[|ps| - 1] == c then 1 else 0)
  }

  /** `get_background_color`: the colour whose packed value has the largest
      count among the sorted distinct packed values; `argmax` of the empty
      array of an image without pixels raises `ValueError`. */
  function BackgroundColor(img: Image): (r: Result<Rgb>)
    ensures r.Failure? <==> Flatten(img.pixels) == []
    ensures r.Failure? ==> r.error == EmptyArgMax
  {
    var xs := PackAll(Flatten(img.pixels));
    if xs == [] then Failure(EmptyArgMax)
    else
      var u := Unique(xs);
      assert xs[0] in u;
      Success(Unpack(u[ArgMax(Counts(u, xs))]))
  }

  /** Every packed value is the packing of one of the pixels. */
  lemma {:induction false} PackAllMember(ps: seq<Rgb>, v: int)
    ensures v in PackAll(ps) <==> exists i :: 0 <= i < |ps| && Pack(ps[i]) == v
  {
    if ps != [] {
      var init := ps[..|ps| - 1];
      PackAllMember(init, v);
      if exists i :: 0 <= i < |ps| && Pack(ps[i]) == v {
        var i :| 0 <= i < |ps| && Pack(ps[i]) == v;
        if i < |ps| - 1 {
          assert Pack(init[i]) == v;
        }
      }
      if v in PackAll(init) {
        var i :| 0 <= i < |init| && Pack(init[i]) == v;
        assert Pack(ps[i]) == v;
      }
    }
  }

  /** Packing is injective on bytes, so a packed value is counted exactly as
      often as its colour. */
  lemma {:induction false} OccurrencesOfPacked(ps: seq<Rgb>, c: Rgb)
    requires forall i :: 0 <= i < |ps| ==> ps[i].Valid()
    requires c.Valid()
    ensures Occurrences(PackAll(ps), Pack(c)) == CountColor(ps, c)
  {
    if ps != [] {
      var init := ps[..|ps| - 1];
      OccurrencesOfPacked(init, c);
      var xs := PackAll(ps);
      assert xs[..|xs| - 1] == PackAll(init);
      if Pack(ps[|ps| - 1]) == Pack(c) {
        PackInjective(ps[|ps| - 1], c);
      }
    }
  }

  /** The background fails exactly for an image without pixels. */
  lemma BackgroundEmpty(img: Image)
    ensures BackgroundColor(img).Failure? <==> img.width == 0 || img.height == 0
    ensures BackgroundColor(img).Failure? ==> BackgroundColor(img).error == EmptyArgMax
  {
    FlattenLength(img.pixels, img.width);
  }

  /** The facts `BackgroundColor` rests on: the chosen packed value is a
      pixel's packing with the largest count, and the first such value. */
  lemma BackgroundChoice(img: Image)
    requires BackgroundColor(img).Success?
    ensures var ps := Flatten(img.pixels);
            var c := BackgroundColor(img).value;
            && c in ps
            && (forall d :: d in ps ==> CountColor(ps, d) <= CountColor(ps, c))
            && (forall d :: d in ps && CountColor(ps, d) == CountColor(ps, c) ==> Pack(c) <= Pack(d))
  {
    var ps := Flatten(img.pixels);
    FlattenValid(img);
    var xs := PackAll(ps);
    var u := Unique(xs);
    assert BackgroundColor(img).value == Unpack(u[ArgMax(Counts(u, xs))]);
    MostFrequentPacked(ps, u, ArgMax(Counts(u, xs)));
  }

  /** The colour unpacked from the packed value of largest count is a pixel
      colour of largest count, and the one of lowest packed value among them. */
  lemma MostFrequentPacked(ps: seq<Rgb>, u: seq<int>, i: nat)
    requires forall n :: 0 <= n < |ps| ==> ps[n].Valid()
    requires u == Unique(PackAll(ps)) && |u| > 0 && i == ArgMax(Counts(u, PackAll(ps)))
    ensures var c := Unpack(u[i]);
            && c in ps
            && (forall d :: d in ps ==> CountColor(ps, d) <= CountColor(ps, c))
            && (forall d :: d in ps && CountColor(ps, d) == CountColor(ps, c) ==> Pack(c) <= Pack(d))
  {
    var c := Unpack(u[i]);
    PackAllMember(ps, u[i]);
    var n :| 0 <= n < |ps| && Pack(ps[n]) == u[i];
    UnpackPack(ps[n]);
    assert c == ps[n] && Pack(c) == u[i];
    OccurrencesOfPacked(ps, c);
    forall d | d in ps
      ensures CountColor(ps, d) <= CountColor(ps, c)
      ensures CountColor(ps, d) == CountColor(ps, c) ==> Pack(c) <= Pack(d)
    {
      PackedBeats(ps, u, i, d);
    }
  }

  /** A pixel colour `d` occurs no more often than the colour of the chosen
      packed value, and when as often, packs to no less. */
  lemma PackedBeats(ps: seq<Rgb>, u: seq<int>, i: nat, d: Rgb)
    requires forall n :: 0 <= n < |ps| ==> ps[n].Valid()
    requires u == Unique(PackAll(ps)) && |u| > 0 && i == ArgMax(Counts(u, PackAll(ps)))
    requires d in ps
    ensures Occurrences(PackAll(ps), Pack(d)) <= Occurrences(PackAll(ps), u[i])
    ensures CountColor(ps, d) == Occurrences(PackAll(ps), Pack(d))
    ensures Occurrences(PackAll(ps), Pack(d)) == Occurrences(PackAll(ps), u[i]) ==> u[i] <= Pack(d)
  {
    var cnt := Counts(u, PackAll(ps));
    var m :| 0 <= m < |ps| && ps[m] == d;
    PackAllMember(ps, Pack(d));
    var k :| 0 <= k < |u| && u[k] == Pack(d);
    OccurrencesOfPacked(ps, d);
    assert cnt[k] == Occurrences(PackAll(ps), Pack(d)) && cnt[i] == Occurrences(PackAll(ps), u[i]);
    if cnt[k] == cnt[i] {
      assert i <= k;
      assert i < k ==> u[i] < u[k];
    }
  }

  /** `get_background_color` returns a colour of the image. */
  lemma BackgroundOccurs(img: Image)
    requires BackgroundColor(img).Success?
    ensures exists y, x :: 0 <= y < img.height && 0 <= x < img.width &&
              img.pixels[y][x] == BackgroundColor(img).value
  {
    BackgroundChoice(img);
    FlattenMember(img.pixels, BackgroundColor(img).value);
  }

  /** No colour of the image occurs more often than the background. */
  lemma BackgroundMostFrequent(img: Image, y: nat, x: nat)
    requires BackgroundColor(img).Success? && y < img.height && x < img.width
    ensures CountColor(Flatten(img.pixels), img.pixels[y][x]) <= CountColor(Flatten(img.pixels), BackgroundColor(img).value)
  {
    BackgroundChoice(img);
    FlattenMember(img.pixels, img.pixels[y][x]);
  }

  /** Among the colours of largest count, the one with the smallest packed
      value wins: `np.unique` sorts and `argmax` takes the first maximum. */
  lemma BackgroundTieBreak(img: Image, y: nat, x: nat)
    requires BackgroundColor(img).Success? && y < img.height && x < img.width
    requires CountColor(Flatten(img.pixels), img.pixels[y][x]) == CountColor(Flatten(img.pixels), BackgroundColor(img).value)
    ensures Pack(BackgroundColor(img).value) <= Pack(img.pixels[y][x])
    ensures img.pixels[y][x] != BackgroundColor(img).value ==> Pack(BackgroundColor(img).value) < Pack(img.pixels[y][x])
  {
    BackgroundChoice(img);
    FlattenMember(img.pixels, img.pixels[y][x]);
    BackgroundOccurs(img);
    if img.pixels[y][x] != BackgroundColor(img).value {
      FlattenValid(img);
      FlattenMember(img.pixels, BackgroundColor(img).value);
      var d, c := img.pixels[y][x], BackgroundColor(img).value;
      var yy, xx :| 0 <= yy < img.height && 0 <= xx < img.width && img.pixels[yy][xx] == c;
      if Pack(c) == Pack(d) {
        PackInjective(c, d);
      }
    }
  }

  // ---------------------------------------------------------------------------
  // total_colors: a set filled column by column.

  /** The colours of the pixels of `img`. */
  ghost function PixelSet(img: Image): set<Rgb>
  {
    set y, x | 0 <= y < img.height && 0 <= x < img.width :: img.pixels[y][x]
  }

  /** The colours of the pixels visited before (x, y), column by column. */
  ghost function ColumnsBefore(img: Image, x: nat, y: nat): set<Rgb>
  {
    set yy, xx | 0 <= yy < img.height && 0 <= xx < img.width && (xx < x || (xx == x && yy < y)) :: img.pixels[yy][xx]
  }

  /** `total_colors`: every pixel's colour, visited column by column. */
  method TotalColors(img: Image) returns (colors: set<Rgb>)
    ensures colors == PixelSet(img)
  {
    colors := {};
    for x := 0 to img.width
      invariant colors == ColumnsBefore(img, x, 0)
    {
      for y := 0 to img.height
        invariant colors == ColumnsBefore(img, x, y)
      {
        colors := colors + {img.pixels[y][x]};
        assert ColumnsBefore(img, x, y + 1) == ColumnsBefore(img, x, y) + {img.pixels[y][x]};
      }
      assert ColumnsBefore(img, x, img.height) == ColumnsBefore(img, x + 1, 0);
    }
    assert ColumnsBefore(img, img.width, 0) == PixelSet(img);
  }

  /** The set of colours is the set of the row-major pixel list, holds the
      background colour, and has at most one colour per pixel. */
  lemma PixelSetFacts(img: Image)
    ensures PixelSet(img) == set c | c in Flatten(img.pixels)
    ensures |PixelSet(img)| <= img.width * img.height
    ensures BackgroundColor(img).Success? ==> BackgroundColor(img).value in PixelSet(img)
  {
    forall c ensures c in PixelSet(img) <==> c in Flatten(img.pixels) {
      FlattenMember(img.pixels, c);
    }
    SetOfSeqCard(Flatten(img.pixels));
    FlattenLength(img.pixels, img.width);
    if BackgroundColor(img).Success? {
      BackgroundOccurs(img);
    }
  }

  // ---------------------------------------------------------------------------
  // make_ascii_picture.

  const MaxPictureWidth: int := 179
  const MaxPictureHeight: int := 28

  /** `multiplexer or 2`: no multiplexer and 0 both mean 2. */
  function Multiplexer(multiplexer: Option<int>): (m: int)
    ensures m != 0
    ensures multiplexer.Some? && multiplexer.value != 0 ==> m == multiplexer.value
    ensures multiplexer.None? || multiplexer.value == 0 ==> m == 2
  {
    if multiplexer.None? || multiplexer.value == 0 then 2 else multiplexer.value
  }

  /** A background escape is written before cell `j` of a row when the cell
      is the row's first or its colour differs from the cell before it. */
  predicate Starts(row: seq<Rgb>, j: nat)
    requires j < |row|
  {
    j == 0 || row[j - 1] != row[j]
  }

  /** The row text after its first `n` cells, with `back` formatting the
      escapes: each cell is `m` spaces, after an escape where a run of one
      colour starts. */
  function RowText(row: seq<Rgb>, n: nat, m: int, back: Rgb -> string): string
    requires n <= |row|
  {
    if n == 0 then ""
    else RowText(row, n - 1, m, back) + (if Starts(row, n - 1) then back(row[n - 1]) else "") + Repeat(" ", m)
  }

  /** The line written for a row: its text, then `Style.RESET_ALL`. */
  function RowLine(row: seq<Rgb>, m: int, back: Rgb -> string): string
  {
    RowText(row, |row|, m, back) + Reset
  }

  /** The picture's first `k` rows, each line ended by "\n". */
  function RowsText(img: Image, k: nat, m: int, back: Rgb -> string): string
    requires k <= img.height
  {
    if k == 0 then "" else RowsText(img, k - 1, m, back) + RowLine(img.pixels[k - 1], m, back) + "\n"
  }

  /** What `make_ascii_picture` returns for `img`, or the assertion it fails. */
  function AsciiPicture(img: Image, multiplexer: Option<int>): (r: Result<string>)
    ensures r.Success? <==> img.mode == "RGB" && img.width * Multiplexer(multiplexer) < MaxPictureWidth
                            && img.height < MaxPictureHeight
    ensures r.Success? ==> EndsWith(r.value, Reset)
  {
    var m := Multiplexer(multiplexer);
    if img.mode != "RGB" then Failure(NotRgbMode(img.mode))
    else if !(img.width * m < MaxPictureWidth) then Failure(TooWide(img.width * m))
    else if !(img.height < MaxPictureHeight) then Failure(TooHigh(img.height))
    else Success(RowsText(img, img.height, m, Back) + Reset)
  }

  /** `make_ascii_picture`: check the mode and the size, then build the
      picture row by row, remembering the last colour written in the row. */
  method MakeAsciiPicture(img: Image, multiplexer: Option<int>) returns (r: Result<string>)
    ensures r == AsciiPicture(img, multiplexer)
  {
    var m := if multiplexer.None? || multiplexer.value == 0 then 2 else multiplexer.value;
    if img.mode != "RGB" {
      return Failure(NotRgbMode(img.mode));
    }
    if !(img.width * m < MaxPictureWidth) {
      return Failure(TooWide(img.width * m));
    }
    if !(img.height < MaxPictureHeight) {
      return Failure(TooHigh(img.height));
    }
    var result := "";
    for row := 0 to img.height
      invariant result == RowsText(img, row, m, Back)
    {
      var outRow := MakeRow(img.pixels[row], m);
      assert outRow + Reset == RowLine(img.pixels[row], m, Back);
      result := result + outRow + Reset + "\n";
    }
    result := result + Reset;
    return Success(result);
  }

  /** The inner loop of `make_ascii_picture`: one row's cells, writing a
      background escape only when the colour differs from the last one. */
  method MakeRow(line: seq<Rgb>, m: int) returns (outRow: string)
    ensures outRow == RowText(line, |line|, m, Back)
  {
    outRow := "";
    var oldColor: Option<Rgb> := None;
    for col := 0 to |line|
      invariant outRow == RowText(line, col, m, Back)
      invariant oldColor == if col == 0 then None else Some(line[col - 1])
    {
      var color := line[col];
      if oldColor != Some(color) {
        outRow := outRow + Back(color);
        oldColor := Some(color);
      }
      outRow := outRow + Repeat(" ", m);
    }
  }

  // Properties of the picture, for any escape formatter shaped like `Back`.

  /** The number of runs of one colour in the first `n` cells of a row. */
  function Runs(row: seq<Rgb>, n: nat): nat
    requires n <= |row|
  {
    if n == 0 then 0 else Runs(row, n - 1) + (if Starts(row, n - 1) then 1 else 0)
  }

  /** The number of spaces a cell takes: `" " * m` is empty when `m <= 0`. */
  function CellWidth(m: int): nat
  {
    if m <= 0 then 0 else m
  }

  /** `" " * m` holds `m` spaces, none when `m <= 0`, no escape and no line
      break. */
  lemma SpacesCount(m: int)
    ensures Count(Repeat(" ", m), ' ') == CellWidth(m)
    ensures Count(Repeat(" ", m), Esc) == 0
    ensures NoBreaks(Repeat(" ", m))
  {
    RepeatCount(" ", m, ' ');
    RepeatCount(" ", m, Esc);
    CountSingle(' ', ' ');
    CountSingle(' ', Esc);
    assert " " == [' '];
    RepeatSpaces(m);
  }

  lemma {:induction false} RepeatSpaces(m: int)
    ensures forall i :: 0 <= i < |Repeat(" ", m)| ==> Repeat(" ", m)[i] == ' '
    decreases if m < 0 then 0 else m
  {
    if m > 0 {
      RepeatSpaces(m - 1);
    }
  }

  /** A row's text holds `m` spaces per cell, none when `m <= 0`. */
  lemma {:induction false} RowTextSpaces(row: seq<Rgb>, n: nat, m: int, back: Rgb -> string)
    requires n <= |row| && EscapeShaped(back)
    ensures Count(RowText(row, n, m, back), ' ') == n * CellWidth(m)
  {
    if n > 0 {
      RowTextSpaces(row, n - 1, m, back);
      var prev := RowText(row, n - 1, m, back);
      var esc := if Starts(row, n - 1) then back(row[n - 1]) else "";
      assert Count(esc, ' ') == 0;
      SpacesCount(m);
      CountConcat3(prev, esc, Repeat(" ", m), ' ');
      assert RowText(row, n, m, back) == prev + esc + Repeat(" ", m);
      var w := CellWidth(m);
      assert Count(prev, ' ') == (n - 1) * w;
      assert Count(RowText(row, n, m, back), ' ') == (n - 1) * w + w;
      MulStep(w, n);
    }
  }

  /** A row's text holds one escape per run of one colour. */
  lemma {:induction false} RowTextEscapes(row: seq<Rgb>, n: nat, m: int, back: Rgb -> string)
    requires n <= |row| && EscapeShaped(back)
    ensures Count(RowText(row, n, m, back), Esc) == Runs(row, n)
  {
    if n > 0 {
      RowTextEscapes(row, n - 1, m, back);
      var prev := RowText(row, n - 1, m, back);
      var esc := if Starts(row, n - 1) then back(row[n - 1]) else "";
      assert Count(esc, Esc) == if Starts(row, n - 1) then 1 else 0;
      SpacesCount(m);
      CountConcat(prev, esc, Esc);
      CountConcat(prev + esc, Repeat(" ", m), Esc);
    }
  }

  /** A row's text holds no line break. */
  lemma {:induction false} RowTextNoBreaks(row: seq<Rgb>, n: nat, m: int, back: Rgb -> string)
    requires n <= |row| && EscapeShaped(back)
    ensures NoBreaks(RowText(row, n, m, back))
  {
    if n > 0 {
      RowTextNoBreaks(row, n - 1, m, back);
      var prev := RowText(row, n - 1, m, back);
      var esc := if Starts(row, n - 1) then back(row[n - 1]) else "";
      assert NoBreaks(esc);
      SpacesCount(m);
      NoBreaksConcat(prev, esc);
      NoBreaksConcat(prev + esc, Repeat(" ", m));
    }
  }

  lemma CountConcat3(a: string, b: string, c: string, ch: char)
    ensures Count(a + b + c, ch) == Count(a, ch) + Count(b, ch) + Count(c, ch)
  {
    CountConcat(a, b, ch);
    CountConcat(a + b, c, ch);
  }

  lemma NoBreaksConcat(a: string, b: string)
    requires NoBreaks(a) && NoBreaks(b)
    ensures NoBreaks(a + b)
  {
  }

  lemma ResetNoBreaks()
    ensures NoBreaks(Reset)
  {
  }

  lemma RowLineNoBreaks(row: seq<Rgb>, m: int, back: Rgb -> string)
    requires EscapeShaped(back)
    ensures NoBreaks(RowLine(row, m, back))
  {
    RowTextNoBreaks(row, |row|, m, back);
    ResetNoBreaks();
    NoBreaksConcat(RowText(row, |row|, m, back), Reset);
  }

  lemma {:induction false} JoinLinesSnoc(lines: seq<string>, line: string)
    ensures JoinLines(lines + [line]) == JoinLines(lines) + line + "\n"
  {
    if lines == [] {
      assert [line][1..] == [];
    } else {
      assert (lines + [line])[1..] == lines[1..] + [line];
      JoinLinesSnoc(lines[1..], line);
    }
  }

  /** The lines of the picture, one per image row. */
  function PictureLines(img: Image, m: int, back: Rgb -> string): (lines: seq<string>)
    ensures |lines| == img.height
  {
    seq(img.height, y requires 0 <= y < img.height => RowLine(img.pixels[y], m, back))
  }

  /** The first `k` rows are the first `k` lines, each ended by "\n". */
  lemma {:induction false} RowsAreLines(img: Image, k: nat, m: int, back: Rgb -> string)
    requires k <= img.height
    ensures RowsText(img, k, m, back) == JoinLines(PictureLines(img, m, back)[..k])
  {
    var all := PictureLines(img, m, back);
    if k > 0 {
      RowsAreLines(img, k - 1, m, back);
      JoinLinesSnoc(all[..k - 1], all[k - 1]);
      assert all[..k] == all[..k - 1] + [all[k - 1]];
    } else {
      assert all[..0] == [];
    }
  }

  /** `splitlines()` of the picture gives back one line per image row, each
      the row's text ended by a reset, and then the final reset. */
  lemma PictureSplits(img: Image, multiplexer: Option<int>)
    requires AsciiPicture(img, multiplexer).Success?
    ensures SplitLines(AsciiPicture(img, multiplexer).value) ==
              PictureLines(img, Multiplexer(multiplexer), Back) + [Reset]
  {
    var m := Multiplexer(multiplexer);
    var lines := PictureLines(img, m, Back);
    EscapesShaped();
    RowsAreLines(img, img.height, m, Back);
    assert lines[..img.height] == lines;
    forall i | 0 <= i < |lines| ensures NoBreaks(lines[i]) {
      RowLineNoBreaks(img.pixels[i], m, Back);
    }
    ResetNoBreaks();
    SplitJoin(lines, Reset);
  }

  lemma {:induction false} RowsCounts(img: Image, k: nat, m: int, back: Rgb -> string)
    requires k <= img.height && EscapeShaped(back)
    ensures Count(RowsText(img, k, m, back), '\n') == k
    ensures Count(RowsText(img, k, m, back), ' ') == k * (img.width * CellWidth(m))
  {
    if k > 0 {
      RowsCounts(img, k - 1, m, back);
      var row := img.pixels[k - 1];
      LineCounts(row, m, back);
      var prev := RowsText(img, k - 1, m, back);
      var line := RowLine(row, m, back);
      assert RowsText(img, k, m, back) == prev + line + "\n";
      assert Count("\n", '\n') == 1 && Count("\n", ' ') == 0;
      CountConcat3(prev, line, "\n", '\n');
      CountConcat3(prev, line, "\n", ' ');
      var w := img.width * CellWidth(m);
      assert |row| == img.width;
      assert Count(prev, ' ') == (k - 1) * w;
      assert Count(RowsText(img, k, m, back), ' ') == (k - 1) * w + w;
      MulStep(w, k);
    }
  }

  /** A line holds no "\n" and `m` spaces per cell. */
  lemma LineCounts(row: seq<Rgb>, m: int, back: Rgb -> string)
    requires EscapeShaped(back)
    ensures Count(RowLine(row, m, back), '\n') == 0
    ensures Count(RowLine(row, m, back), ' ') == |row| * CellWidth(m)
  {
    var text := RowText(row, |row|, m, back);
    RowTextSpaces(row, |row|, m, back);
    RowTextNoBreaks(row, |row|, m, back);
    CountZero(text, '\n');
    ResetCounts();
    CountConcat(text, Reset, '\n');
    CountConcat(text, Reset, ' ');
  }

  /** The picture holds one "\n" per row and `width * multiplexer` spaces per
      row (none for a negative multiplexer), and it ends with a reset. */
  lemma PictureCounts(img: Image, multiplexer: Option<int>)
    requires AsciiPicture(img, multiplexer).Success?
    ensures var m, p := Multiplexer(multiplexer), AsciiPicture(img, multiplexer).value;
            && Count(p, '\n') == img.height
            && Count(p, ' ') == img.height * (img.width * CellWidth(m))
            && EndsWith(p, Reset)
  {
    var m := Multiplexer(multiplexer);
    EscapesShaped();
    RowsCounts(img, img.height, m, Back);
    ResetCounts();
    CountConcat(RowsText(img, img.height, m, Back), Reset, '\n');
    CountConcat(RowsText(img, img.height, m, Back), Reset, ' ');
  }

  /** Each line holds one escape per run of one colour in its row, and the
      reset. */
  lemma LineEscapes(row: seq<Rgb>, m: int)
    ensures Count(RowLine(row, m, Back), Esc) == Runs(row, |row|) + 1
  {
    EscapesShaped();
    RowTextEscapes(row, |row|, m, Back);
    ResetCounts();
    CountConcat(RowText(row, |row|, m, Back), Reset, Esc);
  }

  /** A row of one colour gets a single escape; a row whose neighbouring
      cells all differ gets one per cell. */
  lemma {:induction false} RunsBounds(row: seq<Rgb>, n: nat)
    requires n <= |row|
    ensures n > 0 ==> 1 <= Runs(row, n)
    ensures Runs(row, n) <= n
    ensures (forall j :: 0 < j < n ==> row[j] == row[0]) ==> Runs(row, n) == (if n == 0 then 0 else 1)
    ensures (forall j :: 0 < j < n ==> row[j - 1] != row[j]) ==> Runs(row, n) == n
  {
    if n > 0 {
      RunsBounds(row, n - 1);
    }
  }
}
