/** A decoded Pillow image, reduced to what the modelled code reads from it:
    its mode, its size and its pixel values.  Decoding a file is not part of
    this model; whatever decodes it hands over one of these. */
module Pixels {
  import opened RgbCodec

  /** `pixels[y][x]` is `img.getpixel((x, y))`. */
  datatype RawImage = RawImage(mode: string, width: nat, height: nat, pixels: seq<seq<Rgb>>) {
    /** What Pillow guarantees of an image: `height` rows of `width` pixels,
        each channel a byte. */
    predicate WellFormed() {
      |pixels| == height &&
      (forall y :: 0 <= y < height ==> |pixels[y]| == width) &&
      (forall y, x :: 0 <= y < height && 0 <= x < width ==> pixels[y][x].Valid())
    }
  }

  type Image = img: RawImage | img.WellFormed() witness RawImage("RGB", 0, 0, [])

  /** The pixels of `rows` in row-major order (what numpy's
      `np.array(image).reshape((-1, 3))` lists). */
  function Flatten(rows: seq<seq<Rgb>>): (s: seq<Rgb>)
  {
    if rows == [] then [] else Flatten(rows[..|rows| - 1]) + rows[|rows| - 1]
  }

  /** A colour is in the flattened sequence exactly when some cell holds it. */
  lemma {:induction false} FlattenMember(rows: seq<seq<Rgb>>, c: Rgb)
    ensures c in Flatten(rows) <==> exists y, x :: 0 <= y < |rows| && 0 <= x < |rows[y]| && rows[y][x] == c
  {
    if rows != [] {
      var init := rows[..|rows| - 1];
      FlattenMember(init, c);
      if c in rows[|rows| - 1] {
        var x :| 0 <= x < |rows[|rows| - 1]| && rows[|rows| - 1][x] == c;
        assert rows[|rows| - 1][x] == c;
      }
      if exists y, x :: 0 <= y < |rows| && 0 <= x < |rows[y]| && rows[y][x] == c {
        var y, x :| 0 <= y < |rows| && 0 <= x < |rows[y]| && rows[y][x] == c;
        if y < |rows| - 1 {
          assert init[y][x] == c;
        }
      }
    }
  }

  /** Every pixel of a well-formed image is a valid colour. */
  lemma FlattenValid(img: Image)
    ensures forall i :: 0 <= i < |Flatten(img.pixels)| ==> Flatten(img.pixels)[i].Valid()
  {
    forall i | 0 <= i < |Flatten(img.pixels)|
      ensures Flatten(img.pixels)[i].Valid()
    {
      FlattenMember(img.pixels, Flatten(img.pixels)[i]);
    }
  }

  /** The flattened sequence has one entry per pixel. */
  lemma {:induction false} FlattenLength(rows: seq<seq<Rgb>>, w: nat)
    requires forall y :: 0 <= y < |rows| ==> |rows[y]| == w
    ensures |Flatten(rows)| == |rows| * w
  {
    if rows != [] {
      var init := rows[..|rows| - 1];
      assert forall y :: 0 <= y < |init| ==> |init[y]| == w;
      FlattenLength(init, w);
      assert |Flatten(rows)| == |init| * w + w;
      assert |init| * w + w == |rows| * w;
    }
  }
}
