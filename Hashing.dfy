/**
 * Picture.hashCode: the polynomial h = 31 * h + rgb folded over the packed pixels in
 * column-major order (x outer, y inner), in 32-bit arithmetic.
 */
module Hashing {
  import opened JavaLang
  import opened Colors
  import opened Images
  import opened Arithmetic

  /** One step of the fold; Java's `31 * h + v` wraps, which is the same as wrapping once at the end. */
  function HashStep(h: int, v: int): int32
  {
    Wrap(31 * h + v)
  }

  /** The fold over one column from the top, starting from h. */
  function HashColumn(h: int32, col: seq<Color>): int32
    decreases |col|
  {
    if col == [] then h else HashStep(HashColumn(h, col[..|col| - 1]), Pack(col[|col| - 1]))
  }

  /** The fold over the columns from the left, starting from 0. */
  function HashColumns(cols: seq<seq<Color>>): int32
    decreases |cols|
  {
    if cols == [] then 0 else HashColumn(HashColumns(cols[..|cols| - 1]), cols[|cols| - 1])
  }

  function Hash(img: Image): int32
  {
    HashColumns(img.cols)
  }

  /** The same polynomial over unbounded integers: the hash without wrap-around. */
  function ExactColumn(h: int, col: seq<Color>): int
    decreases |col|
  {
    if col == [] then h else 31 * ExactColumn(h, col[..|col| - 1]) + Pack(col[|col| - 1])
  }

  function ExactColumns(cols: seq<seq<Color>>): int
    decreases |cols|
  {
    if cols == [] then 0 else ExactColumn(ExactColumns(cols[..|cols| - 1]), cols[|cols| - 1])
  }

  lemma {:induction false} ColumnCongruent(h: int32, e: int, j: int, col: seq<Color>) returns (k: int)
    requires h == e + j * TWO_32
    ensures HashColumn(h, col) == ExactColumn(e, col) + k * TWO_32
    decreases |col|
  {
    if col == [] {
      k := j;
    } else {
      var front, v := col[..|col| - 1], Pack(col[|col| - 1]);
      var k' := ColumnCongruent(h, e, j, front);
      k := StepCongruent(HashColumn(h, front), ExactColumn(e, front), k', v);
    }
  }

  /** One wrapped step stays congruent to the exact step modulo 2^32. */
  lemma StepCongruent(h: int, e: int, j: int, v: int) returns (k: int)
    requires h == e + j * TWO_32
    ensures HashStep(h, v) == 31 * e + v + k * TWO_32
  {
    var z := 31 * h + v;
    var q := (z + TWO_31) / TWO_32;
    WrapAsMultiple(z);
    assert HashStep(h, v) == z - TWO_32 * q;
    k := 31 * j - q;
  }

  lemma {:induction false} ColumnsCongruent(cols: seq<seq<Color>>) returns (k: int)
    ensures HashColumns(cols) == ExactColumns(cols) + k * TWO_32
    decreases |cols|
  {
    if cols == [] {
      k := 0;
    } else {
      var front := cols[..|cols| - 1];
      var j := ColumnsCongruent(front);
      k := ColumnCongruent(HashColumns(front), ExactColumns(front), j, cols[|cols| - 1]);
    }
  }

  /**
   * The 32-bit hash is the exact polynomial hash reduced modulo 2^32: wrap-around loses
   * nothing but the high bits.
   */
  lemma HashIsExactModulo(img: Image)
    ensures (Hash(img) - ExactColumns(img.cols)) % TWO_32 == 0
  {
    var k := ColumnsCongruent(img.cols);
    MulMod(TWO_32, k);
    assert Hash(img) - ExactColumns(img.cols) == TWO_32 * k;
  }
}
