/** The cell grid of flood_fill.py: class `Walls`, which loads a grid of
    one-character (or, from CSV, arbitrary) string cells from a text, a CSV
    or a PNG source, encodes the colours of a PNG as palette characters, and
    rewrites its cells through a lookup table. */
module FloodFill {
  import opened Errors
  import opened RgbCodec
  import opened Pixels
  import opened Lines
  import opened Seqs

  /** `list[list[str]]`, the type of `Walls.wall`. */
  type Grid = seq<seq<string>>

  /** A file as the loaders see it: its suffix (`Path.suffix`) and what each
      reader would return for it (`read_text()`, the rows of `csv.reader`,
      the image `Image.open` decodes). */
  datatype SourceFile = SourceFile(suffix: string, text: string, csvRows: Grid, image: Image)

  const MaxPngWidth: int := 179
  const MaxPngHeight: int := 28

  /** The characters PNG colours are encoded as, in order of assignment. */
  const ColorChars: string := "0123456789abcdef"

  /** The table `convert` uses when given none: '0' -> U+25AE, '1' -> U+25AD. */
  const DefaultConvertTable: map<string, string> := map["0" := "\U{25AE}", "1" := "\U{25AD}"]

  /** The truth value of the `txt` argument: `None` and `""` are false. */
  predicate Truthy(txt: Option<string>) {
    txt.Some? && txt.value != ""
  }

  /** `str.lower()` on ASCII letters: the text keeps its length, no capital
      letter is left, every other character stays where it was, and each
      capital becomes the small letter of the same place in the alphabet. */
  function Lower(s: string): (r: string)
    ensures |r| == |s|
    ensures forall i :: 0 <= i < |r| ==> !('A' <= r[i] <= 'Z')
    ensures forall i :: 0 <= i < |s| && !('A' <= s[i] <= 'Z') ==> r[i] == s[i]
    ensures forall i :: 0 <= i < |s| && 'A' <= s[i] <= 'Z' ==> 'a' <= r[i] <= 'z' && r[i] as int - 'a' as int == s[i] as int - 'A' as int
  {
    seq(|s|, i requires 0 <= i < |s| => if 'A' <= s[i] <= 'Z' then (s[i] as int + 32) as char else s[i])
  }

  /** Lower-casing twice is lower-casing once. */
  lemma LowerIdempotent(s: string)
    ensures Lower(Lower(s)) == Lower(s)
  {
    LowerKeeps(Lower(s));
  }

  /** Text without capital letters is its own lower case. */
  lemma LowerKeeps(s: string)
    requires forall i :: 0 <= i < |s| ==> !('A' <= s[i] <= 'Z')
    ensures Lower(s) == s
  {
  }

  /** `list(row)`: the characters of a line, each as a one-character string. */
  function Chars(line: string): seq<string>
  {
    seq(|line|, j requires 0 <= j < |line| => [line[j]])
  }

  /** One row of characters per line. */
  function CharGrid(lines: seq<string>): Grid
  {
    seq(|lines|, i requires 0 <= i < |lines| => Chars(lines[i]))
  }

  /** `validate_cells`: every row has the length of row 0, which is to say
      all rows have one length; a grid of no row or of one row passes. */
  function ValidateCells(wall: Grid): (ok: bool)
    ensures ok <==> forall i, j :: 0 <= i < |wall| && 0 <= j < |wall| ==> |wall[i]| == |wall[j]|
  {
    forall i | 1 <= i < |wall| :: |wall[0]| == |wall[i]|
  }

  // ---------------------------------------------------------------------------
  // PNG palette encoding (load_from_png), as a specification over the pixels.

  /** The distinct colours of `ps` in order of first appearance. */
  function FirstSeen(ps: seq<Rgb>): (d: seq<Rgb>)
    ensures forall i, j :: 0 <= i < j < |d| ==> d[i] != d[j]
    ensures forall c :: c in d <==> c in ps
    ensures |d| <= |ps|
  {
    if ps == [] then []
    else
      var d := FirstSeen(ps[..|ps| - 1]);
      assert ps == ps[..|ps| - 1] + [ps[|ps| - 1]];
      if ps[|ps| - 1] in d then d else d + [ps[|ps| - 1]]
  }

  /** The position of the first occurrence of `c` in `s`. */
  function IndexOf(s: seq<Rgb>, c: Rgb): (i: nat)
    requires c in s
    ensures i < |s| && s[i] == c
    ensures forall k :: 0 <= k < i ==> s[k] != c
  {
    if s[0] == c then 0 else 1 + IndexOf(s[1..], c)
  }

  /** `color_to_chars[i]`, as the one-character string the palette uses. */
  function Key(i: nat): (k: string)
    requires i < 16
    ensures |k| == 1 && k[0] as int == if i < 10 then 48 + i else 87 + i
  {
    assert forall j :: 0 <= j < 16 ==> ColorChars[j] as int == if j < 10 then 48 + j else 87 + j;
    [ColorChars[i]]
  }

  /** The palette `load_from_png` builds for the colours `d`: the i-th
      character of `ColorChars` stands for `d[i]`. */
  function PaletteOf(d: seq<Rgb>): (p: map<string, Rgb>)
    requires |d| <= 16
  {
    map i | 0 <= i < |d| :: Key(i) := d[i]
  }

  /** The palette character that stands for `c`. */
  function Code(d: seq<Rgb>, c: Rgb): string
    requires c in d && |d| <= 16
  {
    Key(IndexOf(d, c))
  }

  /** The cells of the encoded image. */
  function EncodeCells(img: Image, d: seq<Rgb>): Grid
    requires |d| <= 16
    requires forall y, x :: 0 <= y < img.height && 0 <= x < img.width ==> img.pixels[y][x] in d
  {
    seq(img.height, y requires 0 <= y < img.height =>
      seq(img.width, x requires 0 <= x < img.width => Code(d, img.pixels[y][x])))
  }

  /** Every pixel of an image is one of its first-seen colours. */
  lemma PixelsSeen(img: Image)
    ensures forall y, x :: 0 <= y < img.height && 0 <= x < img.width ==> img.pixels[y][x] in FirstSeen(Flatten(img.pixels))
  {
    forall y, x | 0 <= y < img.height && 0 <= x < img.width
      ensures img.pixels[y][x] in FirstSeen(Flatten(img.pixels))
    {
      FlattenMember(img.pixels, img.pixels[y][x]);
    }
  }

  /** What `load_from_png` returns for a decoded image: the encoded cells
      and the palette, or the assertion that fails. */
  function PngSpec(img: Image): (r: Result<(Grid, map<string, Rgb>)>)
    ensures r.Success? <==> img.mode == "RGB" && img.width < MaxPngWidth && img.height < MaxPngHeight
                            && |FirstSeen(Flatten(img.pixels))| <= |ColorChars|
    ensures r.Success? ==> |r.value.0| == img.height && |r.value.1| == |FirstSeen(Flatten(img.pixels))|
  {
    if img.mode != "RGB" then Failure(NotRgbMode(img.mode))
    else if !(img.width < MaxPngWidth) then Failure(TooWide(img.width))
    else if !(img.height < MaxPngHeight) then Failure(TooHigh(img.height))
    else
      var d := FirstSeen(Flatten(img.pixels));
      if |d| > |ColorChars| then Failure(TooManyColors)
      else
        PixelsSeen(img);
        CardOfKeys(d);
        Success((EncodeCells(img, d), PaletteOf(d)))
  }

  /** The palette after `load_from_png` has run on `img`, from `before`:
      untouched when an early assertion fails, the first sixteen colours when
      the seventeenth one fails the colour-count assertion. */
  function PngPalette(img: Image, before: map<string, Rgb>): map<string, Rgb>
  {
    if img.mode != "RGB" || !(img.width < MaxPngWidth) || !(img.height < MaxPngHeight) then before
    else
      var d := FirstSeen(Flatten(img.pixels));
      if |d| > |ColorChars| then PaletteOf(d[..16]) else PaletteOf(d)
  }

  lemma PaletteLookup(d: seq<Rgb>)
    requires |d| <= 16
    ensures forall i :: 0 <= i < |d| ==> Key(i) in PaletteOf(d) && PaletteOf(d)[Key(i)] == d[i]
    ensures forall k :: k in PaletteOf(d) ==> exists i :: 0 <= i < |d| && k == Key(i)
  {
    forall i | 0 <= i < |d|
      ensures Key(i) in PaletteOf(d) && PaletteOf(d)[Key(i)] == d[i]
    {
      var j :| 0 <= j < |d| && Key(j) == Key(i) && PaletteOf(d)[Key(i)] == d[j];
      assert Key(j)[0] == Key(i)[0];
    }
  }

  /** The palette's keys are the first `|d|` characters of `ColorChars` and
      its values are the colours `d`, distinct. */
  lemma PaletteShape(d: seq<Rgb>)
    requires |d| <= 16
    requires forall i, j :: 0 <= i < j < |d| ==> d[i] != d[j]
    ensures PaletteOf(d).Keys == (set i | 0 <= i < |d| :: Key(i))
    ensures forall c :: c in PaletteOf(d).Values <==> c in d
    ensures forall k1, k2 :: k1 in PaletteOf(d) && k2 in PaletteOf(d) && k1 != k2 ==> PaletteOf(d)[k1] != PaletteOf(d)[k2]
  {
    PaletteLookup(d);
    var p := PaletteOf(d);
    forall c ensures c in p.Values <==> c in d {
      if c in d {
        var i :| 0 <= i < |d| && d[i] == c;
        assert p[Key(i)] == c;
      }
      if c in p.Values {
        var k :| k in p && p[k] == c;
        var i :| 0 <= i < |d| && k == Key(i);
        assert d[i] == c;
      }
    }
    forall k1, k2 | k1 in p && k2 in p && k1 != k2 ensures p[k1] != p[k2] {
      var i :| 0 <= i < |d| && k1 == Key(i);
      var j :| 0 <= j < |d| && k2 == Key(j);
      assert i != j;
    }
  }

  /** The key the palette gives a colour is its code. */
  lemma PaletteKey(d: seq<Rgb>, k: string, c: Rgb)
    requires |d| <= 16
    requires forall i, j :: 0 <= i < j < |d| ==> d[i] != d[j]
    requires k in PaletteOf(d) && PaletteOf(d)[k] == c
    ensures c in d && k == Code(d, c)
  {
    PaletteLookup(d);
    var i :| 0 <= i < |d| && k == Key(i);
    assert d[i] == c;
  }

  /** Adding the next colour adds the next key. */
  lemma PaletteExtend(d: seq<Rgb>, c: Rgb)
    requires |d| < 16
    ensures Key(|d|) !in PaletteOf(d)
    ensures PaletteOf(d + [c]) == PaletteOf(d)[Key(|d|) := c]
  {
    PaletteAt(d, |d|);
    var p, q := PaletteOf(d + [c]), PaletteOf(d)[Key(|d|) := c];
    forall k | k in q ensures k in p && p[k] == q[k] {
      if k == Key(|d|) {
        PaletteAt(d + [c], |d|);
      } else {
        var i :| 0 <= i < |d| && k == Key(i);
        PaletteAt(d, i);
        PaletteAt(d + [c], i);
        assert (d + [c])[i] == d[i];
      }
    }
    forall k | k in p ensures k in q {
      var i :| 0 <= i < |d| + 1 && k == Key(i);
      if i < |d| {
        PaletteAt(d, i);
      }
    }
  }


  /** The first-seen colours of a prefix are a prefix of the first-seen
      colours of the whole. */
  lemma {:induction false} FirstSeenPrefix(ps: seq<Rgb>, qs: seq<Rgb>)
    requires ps <= qs
    ensures FirstSeen(ps) <= FirstSeen(qs)
    decreases |qs|
  {
    if |ps| < |qs| {
      var init := qs[..|qs| - 1];
      assert ps <= init;
      FirstSeenPrefix(ps, init);
    } else {
      assert ps == qs;
    }
  }

  /** Colours are listed in the order of their first occurrence. */
  lemma {:induction false} FirstSeenOrder(ps: seq<Rgb>)
    ensures forall i, j :: 0 <= i < j < |FirstSeen(ps)| ==>
              IndexOf(ps, FirstSeen(ps)[i]) < IndexOf(ps, FirstSeen(ps)[j])
  {
    if ps != [] {
      var init := ps[..|ps| - 1];
      var last := ps[|ps| - 1];
      FirstSeenOrder(init);
      var d0, d := FirstSeen(init), FirstSeen(ps);
      forall c | c in init ensures IndexOf(ps, c) == IndexOf(init, c) {
        IndexOfPrefix(init, ps, c);
      }
      forall i, j | 0 <= i < j < |d| ensures IndexOf(ps, d[i]) < IndexOf(ps, d[j]) {
        if j == |d0| {
          assert last !in d0 && d[j] == last;
          assert last !in init;
          var k := IndexOf(ps, d[i]);
          assert d[i] in init;
          assert IndexOf(ps, last) == |init|;
        } else {
          assert d[i] == d0[i] && d[j] == d0[j];
        }
      }
    }
  }

  lemma IndexOfPrefix(ps: seq<Rgb>, qs: seq<Rgb>, c: Rgb)
    requires ps <= qs && c in ps
    ensures IndexOf(qs, c) == IndexOf(ps, c)
  {
    var i, j := IndexOf(ps, c), IndexOf(qs, c);
    assert qs[i] == c;
  }

  /** The number of distinct colours of an image is the number of its
      first-seen colours. */
  lemma ColorCount(img: Image)
    ensures |set y, x | 0 <= y < img.height && 0 <= x < img.width :: img.pixels[y][x]| == |FirstSeen(Flatten(img.pixels))|
  {
    var d := FirstSeen(Flatten(img.pixels));
    var colors := set y, x | 0 <= y < img.height && 0 <= x < img.width :: img.pixels[y][x];
    assert colors == set c | c in d by {
      forall c ensures c in colors <==> c in d {
        FlattenMember(img.pixels, c);
      }
    }
    SetOfSeqCard(d);
  }

  /** The encoding succeeds exactly when the image has at most sixteen
      colours (once its mode and size pass). */
  lemma PngFails(img: Image)
    requires img.mode == "RGB" && img.width < MaxPngWidth && img.height < MaxPngHeight
    ensures var colors := set y, x | 0 <= y < img.height && 0 <= x < img.width :: img.pixels[y][x];
            PngSpec(img).Failure? <==> |colors| > 16
  {
    ColorCount(img);
  }

  /** One row of cells per image row and one cell per pixel, and the
      palette maps every cell back to its pixel. */
  lemma PngCells(img: Image)
    requires PngSpec(img).Success?
    ensures var cells, palette := PngSpec(img).value.0, PngSpec(img).value.1;
            && |cells| == img.height
            && (forall y :: 0 <= y < img.height ==> |cells[y]| == img.width)
            && (forall y, x :: 0 <= y < img.height && 0 <= x < img.width ==>
                  cells[y][x] in palette && palette[cells[y][x]] == img.pixels[y][x])
  {
    var d := FirstSeen(Flatten(img.pixels));
    PixelsSeen(img);
    var cells, palette := EncodeCells(img, d), PaletteOf(d);
    assert PngSpec(img).value == (cells, palette);
    forall y, x | 0 <= y < img.height && 0 <= x < img.width
      ensures cells[y][x] in palette && palette[cells[y][x]] == img.pixels[y][x]
    {
      PaletteFind(d, img.pixels[y][x]);
    }
  }

  /** The palette's keys are the first characters of "0123456789abcdef", one
      per colour, and no two keys stand for the same colour. */
  lemma PngKeys(img: Image)
    requires PngSpec(img).Success?
    ensures var palette := PngSpec(img).value.1;
            && |palette| <= 16
            && palette.Keys == (set i | 0 <= i < |palette| :: Key(i))
            && (forall k1, k2 :: k1 in palette && k2 in palette && k1 != k2 ==> palette[k1] != palette[k2])
  {
    var d := FirstSeen(Flatten(img.pixels));
    assert PngSpec(img).value.1 == PaletteOf(d);
    PaletteShape(d);
    CardOfKeys(d);
  }

  /** Key `i` is in the palette of `d` exactly when `i < |d|`, and then it
      stands for `d[i]`. */
  lemma PaletteAt(d: seq<Rgb>, i: nat)
    requires |d| <= 16 && i < 16
    ensures Key(i) in PaletteOf(d) <==> i < |d|
    ensures i < |d| ==> PaletteOf(d)[Key(i)] == d[i]
  {
    if Key(i) in PaletteOf(d) {
      var j :| 0 <= j < |d| && Key(j) == Key(i);
      assert Key(j)[0] == Key(i)[0];
    }
  }

  /** Key `i` is given before key `j` when `i < j`, and the colours are keyed
      in the order of their first appearance in row-major order. */
  lemma PngOrder(img: Image)
    requires PngSpec(img).Success?
    ensures var palette, ps := PngSpec(img).value.1, Flatten(img.pixels);
            forall i, j :: 0 <= i < j < 16 && Key(j) in palette ==>
              && Key(i) in palette && palette[Key(i)] in ps && palette[Key(j)] in ps
              && IndexOf(ps, palette[Key(i)]) < IndexOf(ps, palette[Key(j)])
  {
    var ps := Flatten(img.pixels);
    var d := FirstSeen(ps);
    assert PngSpec(img).value.1 == PaletteOf(d);
    forall i, j | 0 <= i < j < 16 && Key(j) in PaletteOf(d)
      ensures && Key(i) in PaletteOf(d) && PaletteOf(d)[Key(i)] in ps && PaletteOf(d)[Key(j)] in ps
              && IndexOf(ps, PaletteOf(d)[Key(i)]) < IndexOf(ps, PaletteOf(d)[Key(j)])
    {
      KeyOrder(ps, i, j);
    }
  }

  lemma KeyOrder(ps: seq<Rgb>, i: nat, j: nat)
    requires |FirstSeen(ps)| <= 16 && i < j < 16 && Key(j) in PaletteOf(FirstSeen(ps))
    ensures var d := FirstSeen(ps);
            && Key(i) in PaletteOf(d) && PaletteOf(d)[Key(i)] in ps && PaletteOf(d)[Key(j)] in ps
            && IndexOf(ps, PaletteOf(d)[Key(i)]) < IndexOf(ps, PaletteOf(d)[Key(j)])
  {
    var d := FirstSeen(ps);
    PaletteAt(d, i);
    PaletteAt(d, j);
    FirstSeenOrder(ps);
  }

  lemma CardOfKeys(d: seq<Rgb>)
    requires |d| <= 16
    ensures |PaletteOf(d).Keys| == |d|
  {
    PaletteLookup(d);
    var keys := seq(|d|, i requires 0 <= i < |d| => Key(i));
    forall i, j | 0 <= i < j < |d| ensures keys[i] != keys[j] {
      assert keys[i][0] != keys[j][0];
    }
    SetOfSeqCard(keys);
    assert PaletteOf(d).Keys == set k | k in keys by {
      forall k | k in PaletteOf(d) ensures k in keys {
        var i :| 0 <= i < |d| && k == Key(i);
        assert keys[i] == k;
      }
    }
  }

  // ---------------------------------------------------------------------------
  // Loading by extension (load).

  /** What the loader for `f`'s extension returns, before validation. */
  function Loaded(f: SourceFile): (r: Result<Grid>)
    ensures r.Failure? ==> Lower(f.suffix) == ".png" || r.error == UnsupportedFormat(Lower(f.suffix))
    ensures r.Failure? && Lower(f.suffix) == ".png" ==> r.error.Class() == AssertionError
  {
    var ext := Lower(f.suffix);
    if ext == ".txt" then Success(CharGrid(SplitLines(f.text)))
    else if ext == ".csv" then Success(f.csvRows)
    else if ext == ".png" then
      (match PngSpec(f.image)
       case Success(v) => Success(v.0)
       case Failure(e) => Failure(e))
    else Failure(UnsupportedFormat(ext))
  }

  /** The error `load` raises for `f`, if any. */
  function LoadError(f: SourceFile): (e: Option<Error>)
    ensures e.None? <==> Loaded(f).Success? && ValidateCells(Loaded(f).value)
    ensures Loaded(f).Failure? ==> e == Some(Loaded(f).error)
  {
    match Loaded(f)
    case Failure(e) => Some(e)
    case Success(rows) => if ValidateCells(rows) then None else Some(BadRowLengths)
  }

  /** The palette after `load`, from `before`. */
  function PaletteAfterLoad(f: SourceFile, before: map<string, Rgb>): map<string, Rgb>
  {
    if Lower(f.suffix) == ".png" then PngPalette(f.image, before) else before
  }

  /** `load` fails with `ImportError`s, and with the assertions of the PNG
      loader, and exactly then; a grid it accepts is rectangular. */
  lemma LoadOutcome(f: SourceFile)
    ensures var ext := Lower(f.suffix);
            ext != ".txt" && ext != ".csv" && ext != ".png" ==> LoadError(f) == Some(UnsupportedFormat(ext))
    ensures LoadError(f).None? ==>
              Loaded(f).Success? &&
              forall i, j :: 0 <= i < |Loaded(f).value| && 0 <= j < |Loaded(f).value| ==>
                |Loaded(f).value[i]| == |Loaded(f).value[j]|
    ensures LoadError(f) == Some(BadRowLengths) ==> Lower(f.suffix) == ".txt" || Lower(f.suffix) == ".csv"
    ensures LoadError(f).Some? && LoadError(f).value.Class() == AssertionError ==> Lower(f.suffix) == ".png"
  {
    if Lower(f.suffix) == ".png" && PngSpec(f.image).Success? {
      PngCells(f.image);
    }
  }

  /** A suffix is matched without regard to case. */
  lemma SuffixCase(f: SourceFile, suffix: string)
    requires Lower(suffix) == Lower(f.suffix)
    ensures LoadError(f.(suffix := suffix)) == LoadError(f)
    ensures Loaded(f.(suffix := suffix)) == Loaded(f)
  {
  }

  /** "###\n#.#\n" followed by a last line splits into three lines. */
  lemma SplitExample(text: string, last: string)
    requires NoBreaks(last) && last != ""
    requires text == "###\n#.#\n" + last
    ensures SplitLines(text) == ["###", "#.#", last]
  {
    assert ["###", "#.#"][1..] == ["#.#"];
    assert ["#.#"][1..] == [];
    assert JoinLines(["###", "#.#"]) + last == text;
    SplitJoin(["###", "#.#"], last);
  }

  /** A text file "###\n#.#\n##" is rejected for its row lengths. */
  lemma RaggedTextRejected(f: SourceFile, text: string)
    requires text == "###\n#.#\n##"
    ensures LoadError(f.(suffix := ".txt", text := text)) == Some(BadRowLengths)
  {
    SplitExample(text, "##");
    var g := CharGrid(["###", "#.#", "##"]);
    assert |g[0]| == 3 && |g[2]| == 2;
    assert !ValidateCells(g);
    LowerTxt();
    assert Loaded(f.(suffix := ".txt", text := text)) == Success(g);
  }

  /** A file with suffix ".json" is rejected for its format. */
  lemma JsonRejected(f: SourceFile)
    ensures LoadError(f.(suffix := ".json")) == Some(UnsupportedFormat(".json"))
  {
    LowerKeeps(".json");
  }

  lemma LowerTxt()
    ensures Lower(".txt") == ".txt"
  {
    LowerKeeps(".txt");
  }

  lemma CharsExample()
    ensures Chars("###") == ["#", "#", "#"]
    ensures Chars("#.#") == ["#", ".", "#"]
  {
  }

  lemma CharGridOfThree(a: string, b: string, c: string)
    ensures CharGrid([a, b, c]) == [Chars(a), Chars(b), Chars(c)]
  {
  }

  /** `load_from_str("###\n#.#\n###")` gives a 3-by-3 grid of characters. */
  lemma TextExample(text: string)
    requires text == "###\n#.#\n###"
    ensures CharGrid(SplitLines(text)) == [["#", "#", "#"], ["#", ".", "#"], ["#", "#", "#"]]
  {
    SplitExample(text, "###");
    CharGridOfThree("###", "#.#", "###");
    CharsExample();
  }

  // ---------------------------------------------------------------------------
  // Cell conversion (convert).

  /** `convert_table or {...}`: no table and an empty table both mean the
      default one. */
  function TableOrDefault(table: Option<map<string, string>>): (t: map<string, string>)
    ensures table.Some? && table.value != map[] ==> t == table.value
    ensures table.None? || table.value == map[] ==> t == DefaultConvertTable
    ensures t.Keys != {}
  {
    if table.Some? && table.value != map[] then table.value
    else
      assert "0" in DefaultConvertTable;
      DefaultConvertTable
  }

  /** Every cell before position (y, x) in row-major order has a table entry. */
  ghost predicate KnownBefore(w: Grid, t: map<string, string>, y: nat, x: nat)
  {
    && y <= |w|
    && (y < |w| ==> x <= |w[y]|)
    && (forall i, j :: 0 <= i < y && 0 <= j < |w[i]| ==> w[i][j] in t)
    && (forall j :: 0 <= j < x && y < |w| ==> w[y][j] in t)
  }

  /** `w` with every cell before (y, x) in row-major order looked up in `t`
      and every other cell as it was. */
  ghost function PartlyConverted(w: Grid, t: map<string, string>, y: nat, x: nat): (r: Grid)
    requires KnownBefore(w, t, y, x)
    ensures |r| == |w| && forall i :: 0 <= i < |w| ==> |r[i]| == |w[i]|
    ensures ValidateCells(r) == ValidateCells(w)
  {
    seq(|w|, i requires 0 <= i < |w| =>
      if i < y then seq(|w[i]|, j requires 0 <= j < |w[i]| => t[w[i][j]])
      else if i == y then seq(|w[i]|, j requires 0 <= j < |w[i]| => if j < x then t[w[i][j]] else w[i][j])
      else w[i])
  }

  /** The pixels `load_from_png` has visited before reaching (row, col):
      the rows above, then the first `col` pixels of the row. */
  ghost function Scanned(img: Image, row: nat, col: nat): seq<Rgb>
    requires row < img.height && col <= img.width
  {
    Flatten(img.pixels[..row]) + img.pixels[row][..col]
  }

  lemma ScannedStep(img: Image, row: nat, col: nat)
    requires row < img.height && col < img.width
    ensures Scanned(img, row, col + 1) == Scanned(img, row, col) + [img.pixels[row][col]]
    ensures Scanned(img, row, col + 1) <= Flatten(img.pixels)
  {
    assert img.pixels[row][..col + 1] == img.pixels[row][..col] + [img.pixels[row][col]];
    FlattenPrefix(img.pixels, row + 1);
    assert img.pixels[..row + 1][..row] == img.pixels[..row];
    assert Flatten(img.pixels[..row + 1]) == Flatten(img.pixels[..row]) + img.pixels[row];
    assert img.pixels[row][..col + 1] <= img.pixels[row];
  }

  lemma ScannedEnds(img: Image, row: nat)
    requires row < img.height
    ensures Scanned(img, row, 0) == Flatten(img.pixels[..row])
    ensures Scanned(img, row, img.width) == Flatten(img.pixels[..row + 1])
  {
    assert img.pixels[row][..0] == [];
    assert img.pixels[row][..img.width] == img.pixels[row];
    assert img.pixels[..row + 1][..row] == img.pixels[..row];
  }

  /** One more pixel adds its colour to the first-seen colours when it is new. */
  lemma SeenStep(ps: seq<Rgb>, c: Rgb)
    ensures FirstSeen(ps + [c]) == if c in FirstSeen(ps) then FirstSeen(ps) else FirstSeen(ps) + [c]
  {
    assert (ps + [c])[..|ps|] == ps;
  }

  /** Sixteen colours seen and a new one at (row, col): the image has more
      than sixteen colours, and these sixteen come first. */
  lemma TooManyColorsAt(img: Image, row: nat, col: nat, seen: seq<Rgb>)
    requires row < img.height && col < img.width
    requires seen == FirstSeen(Scanned(img, row, col)) && |seen| == 16
    requires img.pixels[row][col] !in seen
    ensures |FirstSeen(Flatten(img.pixels))| > 16 && FirstSeen(Flatten(img.pixels))[..16] == seen
  {
    ScannedStep(img, row, col);
    SeenStep(Scanned(img, row, col), img.pixels[row][col]);
    FirstSeenPrefix(Scanned(img, row, col + 1), Flatten(img.pixels));
  }

  /** `cells` has the shape of `img`, and every cell visited before (row, col)
      holds a key that the palette maps back to its pixel. */
  ghost predicate EncodedUpTo(cells: Grid, img: Image, palette: map<string, Rgb>, row: nat, col: nat)
  {
    |cells| == img.height && (forall y :: 0 <= y < img.height ==> |cells[y]| == img.width) &&
    forall y, x :: 0 <= y < img.height && 0 <= x < img.width && (y < row || (y == row && x < col)) ==>
      cells[y][x] in palette && palette[cells[y][x]] == img.pixels[y][x]
  }

  /** `q` keeps every entry of `p`. */
  ghost predicate Extends(p: map<string, Rgb>, q: map<string, Rgb>) {
    forall k :: k in p ==> k in q && q[k] == p[k]
  }

  lemma ExtendsBy(p: map<string, Rgb>, k: string, c: Rgb)
    requires k !in p
    ensures Extends(p, p[k := c])
  {
  }

  lemma ExtendsSelf(p: map<string, Rgb>)
    ensures Extends(p, p)
  {
  }

  lemma EncodeStep(cells: Grid, img: Image, p: map<string, Rgb>, q: map<string, Rgb>, row: nat, col: nat, key: string)
    requires EncodedUpTo(cells, img, p, row, col) && row < img.height && col < img.width
    requires Extends(p, q)
    requires key in q && q[key] == img.pixels[row][col]
    ensures EncodedUpTo(cells[row := cells[row][col := key]], img, q, row, col + 1)
  {
  }

  lemma EncodeRow(cells: Grid, img: Image, p: map<string, Rgb>, row: nat)
    requires EncodedUpTo(cells, img, p, row, img.width)
    ensures EncodedUpTo(cells, img, p, row + 1, 0)
  {
  }

  /** Cells whose palette keys map back to their pixels are the encoding. */
  lemma EncodedIsSpec(cells: Grid, img: Image, d: seq<Rgb>)
    requires |d| <= 16 && forall i, j :: 0 <= i < j < |d| ==> d[i] != d[j]
    requires EncodedUpTo(cells, img, PaletteOf(d), img.height, 0)
    ensures forall y, x :: 0 <= y < img.height && 0 <= x < img.width ==> img.pixels[y][x] in d
    ensures cells == EncodeCells(img, d)
  {
    forall y, x | 0 <= y < img.height && 0 <= x < img.width
      ensures img.pixels[y][x] in d && cells[y][x] == Code(d, img.pixels[y][x])
    {
      PaletteKey(d, cells[y][x], img.pixels[y][x]);
    }
    var e := EncodeCells(img, d);
    forall y | 0 <= y < img.height ensures cells[y] == e[y] {
    }
  }

  /** A colour is among the palette's values exactly when it is among its colours. */
  lemma PaletteValue(d: seq<Rgb>, c: Rgb)
    requires |d| <= 16
    ensures c in PaletteOf(d).Values <==> c in d
  {
    PaletteLookup(d);
    if c in d {
      var i :| 0 <= i < |d| && d[i] == c;
      assert PaletteOf(d)[Key(i)] == c;
    }
    if c in PaletteOf(d).Values {
      var k :| k in PaletteOf(d) && PaletteOf(d)[k] == c;
      var i :| 0 <= i < |d| && k == Key(i);
      assert d[i] == c;
    }
  }

  /** The palette maps the code of a colour back to it. */
  lemma PaletteFind(d: seq<Rgb>, c: Rgb)
    requires |d| <= 16 && c in d
    ensures Code(d, c) in PaletteOf(d) && PaletteOf(d)[Code(d, c)] == c
  {
    PaletteLookup(d);
  }

  lemma PngTooMany(img: Image, before: map<string, Rgb>)
    requires img.mode == "RGB" && img.width < MaxPngWidth && img.height < MaxPngHeight
    requires |FirstSeen(Flatten(img.pixels))| > 16
    ensures PngSpec(img) == Failure(TooManyColors)
    ensures PngPalette(img, before) == PaletteOf(FirstSeen(Flatten(img.pixels))[..16])
  {
  }

  lemma PngSucceeds(img: Image, before: map<string, Rgb>)
    requires img.mode == "RGB" && img.width < MaxPngWidth && img.height < MaxPngHeight
    requires |FirstSeen(Flatten(img.pixels))| <= 16
    ensures forall y, x :: 0 <= y < img.height && 0 <= x < img.width ==> img.pixels[y][x] in FirstSeen(Flatten(img.pixels))
    ensures var d := FirstSeen(Flatten(img.pixels));
            PngSpec(img) == Success((EncodeCells(img, d), PaletteOf(d))) &&
            PngPalette(img, before) == PaletteOf(d)
  {
    PixelsSeen(img);
  }

  /** Nothing is converted before the first cell. */
  lemma ConvertStart(w: Grid, t: map<string, string>)
    ensures KnownBefore(w, t, 0, 0) && PartlyConverted(w, t, 0, 0) == w
  {
    var g := PartlyConverted(w, t, 0, 0);
    forall i | 0 <= i < |w| ensures g[i] == w[i] {
    }
  }

  /** Converting the cell at (y, x) moves the conversion one cell on. */
  lemma ConvertStep(w: Grid, t: map<string, string>, y: nat, x: nat)
    requires KnownBefore(w, t, y, x) && y < |w| && x < |w[y]| && w[y][x] in t
    ensures KnownBefore(w, t, y, x + 1)
    ensures var g := PartlyConverted(w, t, y, x);
            PartlyConverted(w, t, y, x + 1) == g[y := g[y][x := t[w[y][x]]]]
  {
    var g := PartlyConverted(w, t, y, x);
    var h := PartlyConverted(w, t, y, x + 1);
    var e := g[y := g[y][x := t[w[y][x]]]];
    forall i | 0 <= i < |w| ensures h[i] == e[i] {
      if i == y {
        forall j | 0 <= j < |w[i]| ensures h[i][j] == e[i][j] {
        }
      }
    }
    assert h == e;
  }

  /** Finishing row y is starting row y + 1. */
  lemma ConvertRow(w: Grid, t: map<string, string>, y: nat)
    requires y < |w| && KnownBefore(w, t, y, |w[y]|)
    ensures KnownBefore(w, t, y + 1, 0)
    ensures PartlyConverted(w, t, y, |w[y]|) == PartlyConverted(w, t, y + 1, 0)
  {
    assert KnownBefore(w, t, y + 1, 0) by {
      forall i, j | 0 <= i < y + 1 && 0 <= j < |w[i]| ensures w[i][j] in t {
      }
    }
    var g := PartlyConverted(w, t, y, |w[y]|);
    var h := PartlyConverted(w, t, y + 1, 0);
    forall i | 0 <= i < |w| ensures g[i] == h[i] {
      if i == y {
        forall j | 0 <= j < |w[i]| ensures g[i][j] == h[i][j] {
        }
      }
    }
    assert g == h;
  }

  // ---------------------------------------------------------------------------
  // The class.

  class Walls {
    var wall: Grid
    var fileName: Option<SourceFile>
    var palette: map<string, Rgb>

    /** The field initialisation at the top of `__init__`. */
    constructor Init(fileName: Option<SourceFile>)
      ensures wall == [] && this.fileName == fileName && palette == map[]
    {
      wall := [];
      this.fileName := fileName;
      palette := map[];
    }

    /** `Walls(file_name, txt)`: exactly one source must be given, where an
        empty `txt` counts as none; a file is loaded by its extension, a text
        is split into rows of characters. */
    static method New(fileName: Option<SourceFile>, txt: Option<string>) returns (r: Result<Walls>)
      ensures fileName.Some? && Truthy(txt) ==> r == Failure(BothSources)
      ensures fileName.None? && !Truthy(txt) ==> r == Failure(NoSource)
      ensures fileName.None? && Truthy(txt) ==>
                r.Success? && fresh(r.value) && r.value.fileName == None &&
                r.value.wall == CharGrid(SplitLines(txt.value)) && r.value.palette == map[]
      ensures fileName.Some? && !Truthy(txt) ==>
                var f := fileName.value;
                (r.Failure? <==> LoadError(f).Some?) &&
                (r.Failure? ==> r.error == LoadError(f).value) &&
                (r.Success? ==> fresh(r.value) && r.value.fileName == fileName &&
                                r.value.wall == Loaded(f).value && r.value.palette == PaletteAfterLoad(f, map[]))
    {
      var w := new Walls.Init(fileName);
      if fileName.Some? && Truthy(txt) {
        return Failure(BothSources);
      }
      if fileName.Some? {
        var err := w.Load();
        if err.Some? {
          return Failure(err.value);
        }
        return Success(w);
      } else if Truthy(txt) {
        w.wall := LoadFromStr(txt.value);
        return Success(w);
      } else {
        return Failure(NoSource);
      }
    }

    /** `load`: dispatch on the lower-cased suffix, then validate the rows. */
    method Load() returns (err: Option<Error>)
      requires fileName.Some?
      modifies this`wall, this`palette
      ensures err == LoadError(fileName.value)
      ensures wall == if Loaded(fileName.value).Success? then Loaded(fileName.value).value else old(wall)
      ensures palette == PaletteAfterLoad(fileName.value, old(palette))
    {
      var f := fileName.value;
      var ext := Lower(f.suffix);
      if ext != ".txt" && ext != ".csv" && ext != ".png" {
        return Some(UnsupportedFormat(ext));
      }
      var rows: Grid;
      if ext == ".txt" {
        rows := LoadFromTxt();
      } else if ext == ".csv" {
        rows := LoadFromCsv();
      } else {
        var loaded := LoadFromPng();
        if loaded.Failure? {
          return Some(loaded.error);
        }
        rows := loaded.value;
      }
      wall := rows;
      if !ValidateCells(wall) {
        return Some(BadRowLengths);
      }
      return None;
    }

    /** `load_from_txt`: the file's text, split as `load_from_str` does. */
    method LoadFromTxt() returns (rows: Grid)
      requires fileName.Some?
      ensures rows == CharGrid(SplitLines(fileName.value.text))
    {
      rows := LoadFromStr(fileName.value.text);
    }

    /** `load_from_csv`: the rows the CSV reader yields. */
    method LoadFromCsv() returns (rows: Grid)
      requires fileName.Some?
      ensures rows == fileName.value.csvRows
    {
      rows := fileName.value.csvRows;
    }

    /** `load_from_str`: one row per line of `splitlines()`, cell j of row i
        being character j of line i. */
    static method LoadFromStr(s: string) returns (result: Grid)
      ensures |result| == |SplitLines(s)|
      ensures forall i :: 0 <= i < |result| ==> |result[i]| == |SplitLines(s)[i]|
      ensures forall i, j :: 0 <= i < |result| && 0 <= j < |result[i]| ==> result[i][j] == [SplitLines(s)[i][j]]
      ensures result == CharGrid(SplitLines(s))
    {
      var lines := SplitLines(s);
      result := [];
      for i := 0 to |lines|
        invariant |result| == i
        invariant forall k :: 0 <= k < i ==> result[k] == Chars(lines[k])
      {
        result := result + [Chars(lines[i])];
      }
    }

    /** The body of `load_from_png`'s pixel loop: the palette character of
        `color`, after adding the colour under the next character when it is
        new; `None` when it is new and all sixteen characters are taken. */
    method EncodePixel(color: Rgb, charIdx: nat, ghost seen: seq<Rgb>) returns (key: Option<string>, next: nat, ghost seen': seq<Rgb>)
      requires |seen| <= 16 && charIdx == |seen| && palette == PaletteOf(seen)
      modifies this`palette
      ensures key.None? <==> color !in seen && |seen| == 16
      ensures key.None? ==> palette == old(palette) && seen' == seen
      ensures key.Some? ==>
                && seen' == (if color in seen then seen else seen + [color])
                && |seen'| <= 16 && next == |seen'| && palette == PaletteOf(seen')
                && key.value in palette && palette[key.value] == color
                && Extends(old(palette), palette)
    {
      PaletteValue(seen, color);
      ExtendsSelf(palette);
      next, seen' := charIdx, seen;
      if color !in palette.Values {
        if charIdx >= |ColorChars| {
          return None, next, seen';
        }
        PaletteExtend(seen, color);
        ExtendsBy(palette, Key(charIdx), color);
        palette := palette[Key(charIdx) := color];
        next, seen' := charIdx + 1, seen + [color];
      }
      PaletteFind(seen', color);
      var k :| k in palette && palette[k] == color;
      return Some(k), next, seen';
    }

    /** `load_from_png`: check the mode and the size, then encode every
        pixel, in row-major order, by the palette character of its colour,
        giving each new colour the next character. */
    method LoadFromPng() returns (r: Result<Grid>)
      requires fileName.Some?
      modifies this`palette
      ensures var spec := PngSpec(fileName.value.image);
              (r.Success? <==> spec.Success?) &&
              (r.Success? ==> r.value == spec.value.0) &&
              (r.Failure? ==> r.error == spec.error)
      ensures palette == PngPalette(fileName.value.image, old(palette))
    {
      var img := fileName.value.image;
      if img.mode != "RGB" {
        return Failure(NotRgbMode(img.mode));
      }
      if !(img.width < MaxPngWidth) {
        return Failure(TooWide(img.width));
      }
      if !(img.height < MaxPngHeight) {
        return Failure(TooHigh(img.height));
      }
      r := EncodeImage(img);
    }

    /** The encoding loop of `load_from_png`, once the mode and the size have
        passed: start from an empty palette and encode every pixel in
        row-major order. */
    method EncodeImage(img: Image) returns (r: Result<Grid>)
      requires img.mode == "RGB" && img.width < MaxPngWidth && img.height < MaxPngHeight
      modifies this`palette
      ensures var spec := PngSpec(img);
              (r.Success? <==> spec.Success?) &&
              (r.Success? ==> r.value == spec.value.0) &&
              (r.Failure? ==> r.error == spec.error)
      ensures palette == PngPalette(img, old(palette))
    {
      palette := map[];
      var charIdx := 0;
      var cells := seq(img.height, _ => seq(img.width, _ => "0"));
      ghost var seen: seq<Rgb> := [];
      for row := 0 to img.height
        invariant seen == FirstSeen(Flatten(img.pixels[..row]))
        invariant |seen| <= 16 && charIdx == |seen| && palette == PaletteOf(seen)
        invariant EncodedUpTo(cells, img, palette, row, 0)
      {
        ScannedEnds(img, row);
        for col := 0 to img.width
          invariant seen == FirstSeen(Scanned(img, row, col))
          invariant |seen| <= 16 && charIdx == |seen| && palette == PaletteOf(seen)
          invariant EncodedUpTo(cells, img, palette, row, col)
        {
          var color := img.pixels[row][col];
          ScannedStep(img, row, col);
          SeenStep(Scanned(img, row, col), color);
          ghost var p := palette;
          var key;
          key, charIdx, seen := EncodePixel(color, charIdx, seen);
          if key.None? {
            TooManyColorsAt(img, row, col, seen);
            PngTooMany(img, old(palette));
            return Failure(TooManyColors);
          }
          EncodeStep(cells, img, p, palette, row, col, key.value);
          cells := cells[row := cells[row][col := key.value]];
        }
        EncodeRow(cells, img, palette, row);
      }
      assert img.pixels[..img.height] == img.pixels;
      EncodedIsSpec(cells, img, seen);
      PngSucceeds(img, old(palette));
      return Success(cells);
    }

    /** `convert`: replace every cell, row by row, by its entry in the table
        (the default one when none or an empty one is given), in place, and
        return the object; a cell without an entry raises `KeyError`, leaving
        the cells before it converted and the rest as they were. */
    method Convert(table: Option<map<string, string>>) returns (r: Result<Walls>)
      modifies this`wall
      ensures var t, w := TableOrDefault(table), old(wall);
              (r.Success? <==> KnownBefore(w, t, |w|, 0)) &&
              (r.Success? ==> r.value == this && wall == PartlyConverted(w, t, |w|, 0)) &&
              (r.Failure? ==> exists y, x :: 0 <= y < |w| && 0 <= x < |w[y]| && w[y][x] !in t &&
                                KnownBefore(w, t, y, x) && r.error == MissingKey(w[y][x]) &&
                                wall == PartlyConverted(w, t, y, x))
    {
      var t := TableOrDefault(table);
      ghost var w := wall;
      ConvertStart(w, t);
      var y := 0;
      while y < |wall|
        invariant 0 <= y <= |w| && |wall| == |w|
        invariant KnownBefore(w, t, y, 0)
        invariant wall == PartlyConverted(w, t, y, 0)
      {
        var x := 0;
        while x < |wall[y]|
          invariant 0 <= x <= |w[y]| && |wall| == |w| && |wall[y]| == |w[y]|
          invariant KnownBefore(w, t, y, x)
          invariant wall == PartlyConverted(w, t, y, x)
        {
          var cell := wall[y][x];
          assert cell == w[y][x];
          if cell !in t {
            assert w[y][x] !in t && KnownBefore(w, t, y, x);
            return Failure(MissingKey(cell));
          }
          ConvertStep(w, t, y, x);
          wall := wall[y := wall[y][x := t[cell]]];
          x := x + 1;
        }
        assert x == |w[y]| && wall == PartlyConverted(w, t, y, |w[y]|);
        ConvertRow(w, t, y);
        y := y + 1;
      }
      return Success(this);
    }
  }

  lemma {:induction false} FlattenPrefix(rows: seq<seq<Rgb>>, k: nat)
    requires k <= |rows|
    ensures Flatten(rows[..k]) <= Flatten(rows)
    decreases |rows|
  {
    if k < |rows| {
      FlattenPrefix(rows[..|rows| - 1], k);
      assert rows[..|rows| - 1][..k] == rows[..k];
    } else {
      assert rows[..k] == rows;
    }
  }
}
