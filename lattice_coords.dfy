/**
 * The flattened-index coordinate system of the state lattice: a cell index
 * packs a grid column x, a grid row y and a heading bin theta, with the
 * heading varying fastest, then x, then y. The lattice node and the hybrid
 * node share this layout, so both decoders and the encoder live here.
 */
module LatticeCoords {
  import opened Unsigned

  /** A discrete lattice cell: column, row and heading bin. */
  datatype Coordinates = Coordinates(x: nat, y: nat, theta: nat)

  /** The exact (unbounded) flattened position of a cell. */
  function Flatten(c: Coordinates, width: nat, angleQuantization: nat): (position: nat)
  {
    (c.y * width + c.x) * angleQuantization + c.theta
  }

  /** A cell lies inside one row of the lattice: column below the width, heading below the bin count. */
  predicate InRow(c: Coordinates, width: nat, angleQuantization: nat)
  {
    c.x < width && c.theta < angleQuantization
  }

  /**
   * Encoder. The header forwards to the hybrid node's encoder, whose body is not
   * part of this model; it is DEFINED here by the layout both node types share,
   * evaluated in `unsigned int` (the exact value reduced modulo 2^32).
   */
  function GetIndex(x: uint32, y: uint32, angle: uint32, width: uint32, angleQuantization: uint32): (r: uint32)
    ensures var exact := Flatten(Coordinates(x as nat, y as nat, angle as nat), width as nat, angleQuantization as nat);
      exact < UINT32_LIMIT ==> r as nat == exact
  {
    Wrap(Flatten(Coordinates(x as nat, y as nat, angle as nat), width as nat, angleQuantization as nat))
  }

  /**
   * Decoder, with the divisor `angle_quantization * width` taken exactly. This is
   * the decoder the rest of the model uses; see GetCoordsAsWritten for the
   * 32-bit product the header evaluates.
   */
  function GetCoords(index: uint32, width: uint32, angleQuantization: uint32): (c: Coordinates)
    requires width > 0 && angleQuantization > 0
    ensures InRow(c, width as nat, angleQuantization as nat)
  {
    Coordinates(
      ((index as nat) / (angleQuantization as nat)) % (width as nat),
      (index as nat) / ((angleQuantization as nat) * (width as nat)),
      (index as nat) % (angleQuantization as nat))
  }

  /**
   * Decoder as the header writes it: all three operations in `unsigned int`,
   * so the row divisor is the product of bin count and width modulo 2^32.
   * Division by a wrapped product of zero is undefined behaviour in C++; it
   * happens when the product is a multiple of 2^32 (see AsWrittenDividesByZero).
   */
  function GetCoordsAsWritten(index: uint32, width: uint32, angleQuantization: uint32): (c: Coordinates)
    requires width > 0 && angleQuantization > 0 && MulU32(angleQuantization, width) > 0
    ensures InRow(c, width as nat, angleQuantization as nat)
  {
    Coordinates(
      ((index / angleQuantization) % width) as nat,
      (index / MulU32(angleQuantization, width)) as nat,
      (index % angleQuantization) as nat)
  }

  // ---------------------------------------------------------------------------
  // Arithmetic helpers

  /** Multiplying by a non-negative factor keeps order. */
  lemma MulMonotone(p: int, q: int, m: int)
    requires p <= q && m >= 0
    ensures p * m <= q * m
  {
    assert q * m - p * m == (q - p) * m;
  }

  /** Euclidean division is determined by any quotient/remainder pair. */
  lemma DivModUnique(n: int, d: int, q: int, r: int)
    requires d > 0 && 0 <= r < d && n == q * d + r
    ensures n / d == q && n % d == r
  {
    var q', r' := n / d, n % d;
    assert n == q' * d + r';
    if q' > q {
      assert (q + 1) * d == q * d + d;
      MulMonotone(q + 1, q', d);
    } else if q' < q {
      assert (q' + 1) * d == q' * d + d;
      MulMonotone(q' + 1, q, d);
    }
  }

  /** The within-row offset of a cell is less than the row length. */
  lemma RowOffsetBound(x: nat, theta: nat, width: nat, angleQuantization: nat)
    requires x < width && theta < angleQuantization
    ensures x * angleQuantization + theta < angleQuantization * width
  {
    assert x * angleQuantization <= (width - 1) * angleQuantization;
    assert (width - 1) * angleQuantization == angleQuantization * width - angleQuantization;
  }

  // ---------------------------------------------------------------------------
  // Properties of the coordinate system

  /** Decoding any index and flattening the result gives the index back. */
  lemma Decompose(index: uint32, width: uint32, angleQuantization: uint32)
    requires width > 0 && angleQuantization > 0
    ensures Flatten(GetCoords(index, width, angleQuantization), width as nat, angleQuantization as nat) == index as nat
  {
    var i, w, a := index as nat, width as nat, angleQuantization as nat;
    var c := GetCoords(index, width, angleQuantization);
    var q := i / a;
    assert i == q * a + c.theta;
    var y', x' := q / w, q % w;
    assert q == y' * w + x';
    assert x' == c.x;
    RowOffsetBound(x', c.theta, w, a);
    assert i == y' * (a * w) + (x' * a + c.theta) by {
      assert q * a == (y' * w + x') * a;
      assert (y' * w + x') * a == y' * (a * w) + x' * a;
    }
    DivModUnique(i, a * w, y', x' * a + c.theta);
    assert c.y == y';
    assert (c.y * w + c.x) * a + c.theta == q * a + c.theta;
  }

  /** Decoding the flattened position of an in-row cell recovers that cell. */
  lemma DecodeFlatten(c: Coordinates, width: uint32, angleQuantization: uint32)
    requires InRow(c, width as nat, angleQuantization as nat)
    requires Flatten(c, width as nat, angleQuantization as nat) < UINT32_LIMIT
    ensures width > 0 && angleQuantization > 0
    ensures GetCoords(Flatten(c, width as nat, angleQuantization as nat) as uint32, width, angleQuantization) == c
  {
    var w, a := width as nat, angleQuantization as nat;
    var i := Flatten(c, w, a);
    var q := c.y * w + c.x;
    DivModUnique(i, a, q, c.theta);
    DivModUnique(q, w, c.y, c.x);
    RowOffsetBound(c.x, c.theta, w, a);
    assert i == c.y * (a * w) + (c.x * a + c.theta) by {
      assert (c.y * w + c.x) * a == c.y * (a * w) + c.x * a;
    }
    DivModUnique(i, a * w, c.y, c.x * a + c.theta);
  }

  /** getIndex after getCoords is the identity on every 32-bit index. */
  lemma IndexOfCoords(index: uint32, width: uint32, angleQuantization: uint32)
    requires width > 0 && angleQuantization > 0
    ensures var c := GetCoords(index, width, angleQuantization);
      c.y < UINT32_LIMIT &&
      GetIndex(c.x as uint32, c.y as uint32, c.theta as uint32, width, angleQuantization) == index
  {
    var w, a := width as nat, angleQuantization as nat;
    var c := GetCoords(index, width, angleQuantization);
    Decompose(index, width, angleQuantization);
    MulMonotone(1, w, a);
    assert a * w == w * a;
    DivModUnique(index as nat, a * w, c.y, (index as nat) % (a * w));
    MulMonotone(1, a * w, c.y);
    assert c.y * (a * w) <= index as nat;
  }

  /**
   * getCoords after getIndex is the identity on in-row cells whose flattened
   * position fits in 32 bits (the lattice has at most 2^32 cells).
   */
  lemma CoordsOfIndex(x: uint32, y: uint32, theta: uint32, width: uint32, angleQuantization: uint32)
    requires x < width && theta < angleQuantization
    requires Flatten(Coordinates(x as nat, y as nat, theta as nat), width as nat, angleQuantization as nat) < UINT32_LIMIT
    ensures GetCoords(GetIndex(x, y, theta, width, angleQuantization), width, angleQuantization)
      == Coordinates(x as nat, y as nat, theta as nat)
  {
    DecodeFlatten(Coordinates(x as nat, y as nat, theta as nat), width, angleQuantization);
  }

  /**
   * An in-row cell is the decoding of exactly one index: the decoder and the
   * flattening are inverse bijections between 32-bit indices and in-row cells
   * whose flattened position fits.
   */
  lemma DecodeIff(index: uint32, c: Coordinates, width: uint32, angleQuantization: uint32)
    requires width > 0 && angleQuantization > 0
    ensures GetCoords(index, width, angleQuantization) == c
      <==> InRow(c, width as nat, angleQuantization as nat) && Flatten(c, width as nat, angleQuantization as nat) == index as nat
  {
    if GetCoords(index, width, angleQuantization) == c {
      Decompose(index, width, angleQuantization);
    }
    if InRow(c, width as nat, angleQuantization as nat) && Flatten(c, width as nat, angleQuantization as nat) == index as nat {
      DecodeFlatten(c, width, angleQuantization);
    }
  }

  /** The decoded row is inside a grid of `height` rows exactly when the index is below W·H·A. */
  lemma RowBoundIff(index: uint32, width: uint32, height: nat, angleQuantization: uint32)
    requires width > 0 && angleQuantization > 0
    ensures GetCoords(index, width, angleQuantization).y < height
      <==> (index as nat) < (width as nat) * height * (angleQuantization as nat)
  {
    var w, a := width as nat, angleQuantization as nat;
    var c := GetCoords(index, width, angleQuantization);
    Decompose(index, width, angleQuantization);
    RowOffsetBound(c.x, c.theta, w, a);
    assert index as nat == c.y * (a * w) + (c.x * a + c.theta) by {
      assert (c.y * w + c.x) * a == c.y * (a * w) + c.x * a;
    }
    assert w * height * a == height * (a * w);
    if c.y < height {
      MulMonotone(c.y + 1, height, a * w);
      assert (c.y + 1) * (a * w) == c.y * (a * w) + a * w;
    } else {
      MulMonotone(height, c.y, a * w);
    }
  }

  /**
   * The heading varies fastest: the next index is the next heading bin of the
   * same cell, or, past the last bin, heading 0 of the next column, or, past the
   * last column, the first cell of the next row.
   */
  lemma NextIndex(index: uint32, width: uint32, angleQuantization: uint32)
    requires width > 0 && angleQuantization > 0
    requires (index as int) + 1 < UINT32_LIMIT
    ensures var c := GetCoords(index, width, angleQuantization);
      GetCoords((index as int + 1) as uint32, width, angleQuantization) ==
        if c.theta + 1 < angleQuantization as nat then Coordinates(c.x, c.y, c.theta + 1)
        else if c.x + 1 < width as nat then Coordinates(c.x + 1, c.y, 0)
        else Coordinates(0, c.y + 1, 0)
  {
    var w, a := width as nat, angleQuantization as nat;
    var c := GetCoords(index, width, angleQuantization);
    Decompose(index, width, angleQuantization);
    var next := if c.theta + 1 < a then Coordinates(c.x, c.y, c.theta + 1)
      else if c.x + 1 < w then Coordinates(c.x + 1, c.y, 0)
      else Coordinates(0, c.y + 1, 0);
    assert Flatten(next, w, a) == index as nat + 1 by {
      if c.theta + 1 < a {
      } else if c.x + 1 < w {
        assert (c.y * w + c.x + 1) * a == (c.y * w + c.x) * a + a;
      } else {
        assert ((c.y + 1) * w + 0) * a == (c.y * w + c.x) * a + a;
      }
    }
    DecodeFlatten(next, width, angleQuantization);
  }

  // ---------------------------------------------------------------------------
  // The 32-bit row divisor

  /** While bin count times width fits in 32 bits, the header's decoder is the exact one. */
  lemma AsWrittenAgreesWhenProductFits(index: uint32, width: uint32, angleQuantization: uint32)
    requires width > 0 && angleQuantization > 0
    requires (angleQuantization as int) * (width as int) < UINT32_LIMIT
    ensures MulU32(angleQuantization, width) > 0
    ensures GetCoordsAsWritten(index, width, angleQuantization) == GetCoords(index, width, angleQuantization)
  {
    assert (angleQuantization as int) * (width as int) >= 1;
  }

  /**
   * With 65536 heading bins and width 65537 the product wraps to 65536, and the
   * header's decoder sends index 65536 (column 1, row 0, heading 0) to row 1,
   * a cell whose flattened position is not 65536.
   */
  lemma AsWrittenMisdecodes()
    ensures MulU32(65536, 65537) == 65536
    ensures GetCoordsAsWritten(65536, 65537, 65536) == Coordinates(1, 1, 0)
    ensures Flatten(GetCoordsAsWritten(65536, 65537, 65536), 65537, 65536) != 65536
    ensures GetCoords(65536, 65537, 65536) == Coordinates(1, 0, 0)
  {
    assert 65536 * 65537 == 0x1_0001_0000;
    assert 65536 / 65536 == 1;
  }

  /** A grid of W·H·A < 2^32 cells with at least one row has a row length A·W below 2^32. */
  lemma RowLengthFits(width: uint32, height: nat, angleQuantization: uint32)
    requires width > 0 && height > 0 && angleQuantization > 0
    requires (width as nat) * height * (angleQuantization as nat) < UINT32_LIMIT
    ensures (angleQuantization as int) * (width as int) < UINT32_LIMIT
  {
    var w, a := width as nat, angleQuantization as nat;
    assert w * height * a == height * (a * w);
    MulMonotone(1, height, a * w);
  }

  /**
   * On a grid of W·H·A < 2^32 cells the header's decoder needs no correction:
   * its divisor is non-zero, it recovers every index, and getIndex after it is
   * the identity.
   */
  lemma AsWrittenRoundTrips(index: uint32, width: uint32, height: nat, angleQuantization: uint32)
    requires width > 0 && height > 0 && angleQuantization > 0
    requires (width as nat) * height * (angleQuantization as nat) < UINT32_LIMIT
    ensures MulU32(angleQuantization, width) > 0
    ensures Flatten(GetCoordsAsWritten(index, width, angleQuantization), width as nat, angleQuantization as nat) == index as nat
    ensures var c := GetCoordsAsWritten(index, width, angleQuantization);
      c.y < UINT32_LIMIT &&
      GetIndex(c.x as uint32, c.y as uint32, c.theta as uint32, width, angleQuantization) == index
  {
    RowLengthFits(width, height, angleQuantization);
    AsWrittenAgreesWhenProductFits(index, width, angleQuantization);
    Decompose(index, width, angleQuantization);
    IndexOfCoords(index, width, angleQuantization);
  }

  /**
   * On a grid of W·H·A < 2^32 cells, the header's decoder after getIndex is the
   * identity on every cell of the grid.
   */
  lemma AsWrittenCoordsOfIndex(x: uint32, y: uint32, theta: uint32, width: uint32, height: nat, angleQuantization: uint32)
    requires x < width && (y as nat) < height && theta < angleQuantization
    requires (width as nat) * height * (angleQuantization as nat) < UINT32_LIMIT
    ensures MulU32(angleQuantization, width) > 0
    ensures GetCoordsAsWritten(GetIndex(x, y, theta, width, angleQuantization), width, angleQuantization)
      == Coordinates(x as nat, y as nat, theta as nat)
  {
    var w, a := width as nat, angleQuantization as nat;
    var c := Coordinates(x as nat, y as nat, theta as nat);
    RowLengthFits(width, height, angleQuantization);
    RowOffsetBound(c.x, c.theta, w, a);
    assert Flatten(c, w, a) == c.y * (a * w) + (c.x * a + c.theta) by {
      assert (c.y * w + c.x) * a == c.y * (a * w) + c.x * a;
    }
    assert (c.y + 1) * (a * w) == c.y * (a * w) + a * w;
    MulMonotone(c.y + 1, height, a * w);
    assert w * height * a == height * (a * w);
    CoordsOfIndex(x, y, theta, width, angleQuantization);
    AsWrittenAgreesWhenProductFits(GetIndex(x, y, theta, width, angleQuantization), width, angleQuantization);
  }

  /**
   * With W = A = 65536 and one row, the grid has exactly 2^32 cells and every
   * index fits in 32 bits, but the header's divisor wraps to 0: the row
   * division is a division by zero.
   */
  lemma AsWrittenDividesByZero()
    ensures 65536 * 1 * 65536 == UINT32_LIMIT
    ensures MulU32(65536, 65536) == 0
  {
  }
}
