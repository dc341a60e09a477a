/** Grayscale samples and the test that decides whether one row of the image
    is "empty", i.e. belongs to a gutter (src/splitter.rs). */
module Pixels {

  /** One 8-bit grayscale sample, the single channel of a `Luma<u8>` pixel. */
  type Byte = x: int | 0 <= x < 256

  /** `abs_difference` at `u8`: the larger sample minus the smaller one.
      The result type is `Byte`, so each branch's subtraction is checked not to underflow. */
  function AbsDifference(x: Byte, y: Byte): (r: Byte)
    ensures x + r == y || y + r == x
    ensures r == 0 <==> x == y
  {
    if x < y then y - x else x - y
  }

  lemma AbsDifferenceSymmetric(x: Byte, y: Byte)
    ensures AbsDifference(x, y) == AbsDifference(y, x)
  {}

  /** The intensity a gutter is expected to have, and how far a sample may stray from it. */
  datatype Target = Target(goal: Byte, errorMargin: Byte)

  /** Dark gutters are near 0 with a wide margin; light gutters are near 255 with a narrow one. */
  function TargetFor(blackLines: bool): Target
  {
    if blackLines then Target(0, 100) else Target(255, 5)
  }

  /** A sample that deviates from the goal by more than the margin. */
  predicate IsBadPixel(p: Byte, t: Target)
  {
    AbsDifference(p, t.goal) > t.errorMargin
  }

  /** What the two targets accept: a dark gutter sample is at most 100,
      a light gutter sample is at least 250. */
  lemma BadPixelBand(blackLines: bool, p: Byte)
    ensures IsBadPixel(p, TargetFor(blackLines)) <==> (if blackLines then p > 100 else p < 250)
  {}

  /** The number of bad samples in a row. */
  function BadCount(row: seq<Byte>, t: Target): (n: nat)
    ensures n <= |row|
    decreases |row|
  {
    if |row| == 0 then 0
    else BadCount(row[..|row| - 1], t) + (if IsBadPixel(row[|row| - 1], t) then 1 else 0)
  }

  /** The columns of a row that hold a bad sample. */
  function BadColumns(row: seq<Byte>, t: Target): set<nat>
  {
    set x: nat | x < |row| && IsBadPixel(row[x], t)
  }

  /** BadCount counts exactly the bad columns. */
  lemma {:induction false} BadCountIsBadColumns(row: seq<Byte>, t: Target)
    ensures BadCount(row, t) == |BadColumns(row, t)|
    decreases |row|
  {
    if |row| == 0 {
      assert BadColumns(row, t) == {};
    } else {
      var last := |row| - 1;
      var front := row[..last];
      BadCountIsBadColumns(front, t);
      assert last !in BadColumns(front, t);
      if IsBadPixel(row[last], t) {
        assert BadColumns(row, t) == BadColumns(front, t) + {last};
      } else {
        assert BadColumns(row, t) == BadColumns(front, t);
      }
    }
  }

  /** A prefix of a row never holds more bad samples than the whole row. */
  lemma {:induction false} BadCountPrefix(row: seq<Byte>, t: Target, k: nat)
    requires k <= |row|
    ensures BadCount(row[..k], t) <= BadCount(row, t)
    decreases |row| - k
  {
    if k == |row| {
      assert row[..k] == row;
    } else {
      BadCountPrefix(row, t, k + 1);
      assert row[..k + 1][..k] == row[..k];
    }
  }

  /** A row all of whose samples equal the goal has no bad sample. */
  lemma {:induction false} BadCountUniform(row: seq<Byte>, t: Target)
    requires forall x :: 0 <= x < |row| ==> row[x] == t.goal
    ensures BadCount(row, t) == 0
    decreases |row|
  {
    if |row| > 0 {
      BadCountUniform(row[..|row| - 1], t);
    }
  }

  /** A row is empty unless more than `badPixelLimit` of its samples are bad. */
  predicate RowIsEmpty(row: seq<Byte>, t: Target, badPixelLimit: nat)
  {
    BadCount(row, t) <= badPixelLimit
  }

  /** The inner pixel loop of the row scan: it counts bad samples and stops at the
      first one that takes the count past the limit. Stopping early gives the same
      answer as counting the whole row. */
  method ClassifyRow(row: seq<Byte>, t: Target, badPixelLimit: nat) returns (rowIsEmpty: bool)
    ensures rowIsEmpty <==> RowIsEmpty(row, t, badPixelLimit)
  {
    var numBadPixels := 0;
    rowIsEmpty := true;
    var x := 0;
    while x < |row|
      invariant 0 <= x <= |row|
      invariant numBadPixels == BadCount(row[..x], t)
      invariant numBadPixels <= badPixelLimit
    {
      assert row[..x + 1][..x] == row[..x];
      var pixel := row[x];
      if AbsDifference(pixel, t.goal) > t.errorMargin {
        numBadPixels := numBadPixels + 1;
        if numBadPixels > badPixelLimit {
          BadCountPrefix(row, t, x + 1);
          rowIsEmpty := false;
          break;
        }
      }
      x := x + 1;
    }
    if rowIsEmpty {
      assert row[..x] == row;
    }
  }
}
