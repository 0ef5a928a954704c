/** Decoded images as the panorama script handles them: a numpy array of
    shape (height, width, channels). The channel axis is folded into the pixel
    type `P`; `width` is kept apart from the rows so that an image with no rows
    still has a width, as a numpy array does. */
module Raster {

  datatype Image<P> = Image(width: nat, rows: seq<seq<P>>)
  {
    /** `shape[0]`. */
    function Height(): nat
    {
      |rows|
    }

    /** Every row holds exactly `width` pixels: the array is rectangular. */
    ghost predicate WellFormed()
    {
      forall r | 0 <= r < |rows| :: |rows[r]| == width
    }
  }

  /** `im[:, c:, :]`: the columns from `c` to the right edge. */
  function ColumnsFrom<P>(im: Image<P>, c: nat): (r: Image<P>)
    requires im.WellFormed() && c <= im.width
    ensures r.WellFormed() && r.Height() == im.Height()
  {
    Image(im.width - c, seq(|im.rows|, i requires 0 <= i < |im.rows| => im.rows[i][c..]))
  }

  /** `np.concatenate((left, right), axis=1)` for two images of equal height. */
  function Beside<P>(left: Image<P>, right: Image<P>): (r: Image<P>)
    requires left.WellFormed() && right.WellFormed()
    requires left.Height() == right.Height()
    ensures r.WellFormed() && r.Height() == left.Height()
  {
    Image(left.width + right.width,
          seq(|left.rows|, i requires 0 <= i < |left.rows| => left.rows[i] + right.rows[i]))
  }
}
