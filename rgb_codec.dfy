/** The 24-bit packed colour codec, `pack_rgb` / `unpack_rgb`.  The two source
    files that define it (print_ascii.py and service/colorbar.py) give it the
    same text, so it is modelled once here.

    Python's integers are unbounded two's-complement values: `>>` is a floor
    division by a power of two, `& 0xff` is the remainder modulo 256 (never
    negative), `<<` is a multiplication by a power of two and `|` is a bitwise
    or.  Dafny's `/` and `%` by a positive constant are exactly the first two;
    `Or` below is the third, written out bit by bit. */
module RgbCodec {

  /** An RGB triple as Python passes it around: three arbitrary integers. */
  datatype Rgb = Rgb(red: int, green: int, blue: int) {
    /** Every channel is a byte, as in a Pillow pixel of mode "RGB". */
    predicate Valid() {
      0 <= red < 256 && 0 <= green < 256 && 0 <= blue < 256
    }
  }

  const PackedLimit: int := 0x100_0000

  function Pow2(k: nat): (r: nat)
    ensures r >= 1
  {
    if k == 0 then 1 else 2 * Pow2(k - 1)
  }

  /** Python's `a | b` on unbounded integers in two's complement. */
  function Or(a: int, b: int): int
    decreases (if a < 0 then -a else a) + (if b < 0 then -b else b)
  {
    if a == 0 then b
    else if b == 0 then a
    else if a == -1 || b == -1 then -1
    else 2 * Or(a / 2, b / 2) + (if a % 2 == 1 || b % 2 == 1 then 1 else 0)
  }

  /** `unpack_rgb`: each channel is masked with 0xff, so it is a byte whatever
      the input; for a 24-bit input the channels recompose it. */
  function Unpack(packed: int): (c: Rgb)
    ensures c.Valid()
    ensures 0 <= packed < PackedLimit ==> c.red * 0x1_0000 + c.green * 0x100 + c.blue == packed
  {
    var c := Rgb((packed / 0x1_0000) % 0x100, (packed / 0x100) % 0x100, packed % 0x100);
    if 0 <= packed < PackedLimit then
      DivDiv(packed);
      c
    else
      c
  }

  /** `pack_rgb`: `rgb[0] << 16 | rgb[1] << 8 | rgb[2]`. */
  function Pack(c: Rgb): (p: int)
    ensures c.Valid() ==> p == c.red * 0x1_0000 + c.green * 0x100 + c.blue
    ensures c.Valid() ==> 0 <= p < PackedLimit
  {
    var p := Or(Or(c.red * 0x1_0000, c.green * 0x100), c.blue);
    if c.Valid() then
      OrBelow(c.red, 16, c.green * 0x100);
      var high := c.red * 0x100 + c.green;
      assert high * 0x100 == c.red * 0x1_0000 + c.green * 0x100;
      OrBelow(high, 8, c.blue);
      p
    else
      p
  }

  /** Or-ing a value whose low `k` bits are zero with a value below 2^k is
      adding them. */
  lemma {:induction false} OrDisjoint(x: int, k: nat, y: int)
    requires 0 <= y < Pow2(k)
    ensures Or(x * Pow2(k), y) == x * Pow2(k) + y
  {
    if k == 0 {
    } else if x == 0 || y == 0 {
    } else {
      var a := x * Pow2(k);
      assert a == 2 * (x * Pow2(k - 1));
      assert a / 2 == x * Pow2(k - 1) && a % 2 == 0;
      OrDisjoint(x, k - 1, y / 2);
    }
  }

  /** `OrDisjoint` for the two shifts `pack_rgb` uses. */
  lemma OrBelow(x: int, k: nat, y: int)
    requires k == 8 || k == 16
    requires 0 <= y < (if k == 8 then 0x100 else 0x1_0000)
    ensures k == 8 ==> Or(x * 0x100, y) == x * 0x100 + y
    ensures k == 16 ==> Or(x * 0x1_0000, y) == x * 0x1_0000 + y
  {
    assert Pow2(8) == 0x100;
    assert Pow2(16) == 0x1_0000 by {
      assert Pow2(16) == Pow2(8) * Pow2(8) by {
        assert Pow2(16) == 256 * Pow2(8);
      }
    }
    OrDisjoint(x, k, y);
  }

  lemma DivDiv(p: int)
    requires 0 <= p
    ensures p / 0x1_0000 == (p / 0x100) / 0x100
    ensures p == (p / 0x1_0000) * 0x1_0000 + ((p / 0x100) % 0x100) * 0x100 + p % 0x100
  {
    var q := p / 0x100;
    assert p == q * 0x100 + p % 0x100;
    assert q == (q / 0x100) * 0x100 + q % 0x100;
    assert p == (q / 0x100) * 0x1_0000 + (q % 0x100) * 0x100 + p % 0x100;
  }

  /** The channels of a valid colour survive a pack and an unpack. */
  lemma UnpackPack(c: Rgb)
    requires c.Valid()
    ensures Unpack(Pack(c)) == c
  {
    var p := Pack(c);
    var q := c.red * 0x100 + c.green;
    assert p == q * 0x100 + c.blue;
    assert p / 0x100 == q && p % 0x100 == c.blue;
    assert q / 0x100 == c.red && q % 0x100 == c.green;
    DivDiv(p);
  }

  /** Every 24-bit value survives an unpack and a pack. */
  lemma PackUnpack(p: int)
    requires 0 <= p < PackedLimit
    ensures Pack(Unpack(p)) == p
  {
  }

  /** Packing is one-to-one on valid colours, so comparing packed values is
      comparing colours. */
  lemma PackInjective(c: Rgb, d: Rgb)
    requires c.Valid() && d.Valid()
    ensures Pack(c) == Pack(d) <==> c == d
  {
    if Pack(c) == Pack(d) {
      UnpackPack(c);
      UnpackPack(d);
    }
  }
}
