/** `morphological_processing` of jpg2tiff.py: the mask of one class in the
    index buffer, closed once (a dilation, then an erosion) with the plus-shaped
    structuring element
        0 1 0
        1 1 1
        0 1 0
    Both passes read every cell outside the image as false. */
module Morphology {

  /** Number of columns of a grid (that of its first row). */
  function Width<T>(g: seq<seq<T>>): nat {
    if |g| == 0 then 0 else |g[0]|
  }

  /** Every row has the same length: a raster of |g| rows and Width(g) columns. */
  predicate Rectangular<T>(g: seq<seq<T>>) {
    forall i :: 0 <= i < |g| ==> |g[i]| == Width(g)
  }

  /** Two grids of the same rows and columns. */
  predicate SameShape<S, T>(a: seq<seq<S>>, b: seq<seq<T>>) {
    |a| == |b| && forall i :: 0 <= i < |a| ==> |a[i]| == |b[i]|
  }

  predicate InBounds<T>(g: seq<seq<T>>, i: int, j: int) {
    0 <= i < |g| && 0 <= j < |g[i]|
  }

  /** A cell whose four cross-neighbours all lie inside the image. */
  predicate Interior<T>(g: seq<seq<T>>, i: int, j: int) {
    1 <= i < |g| - 1 && 1 <= j < Width(g) - 1
  }

  /** A cell of the mask, false outside the image (a border value of 0). */
  predicate At(m: seq<seq<bool>>, i: int, j: int) {
    InBounds(m, i, j) && m[i][j]
  }

  /** Some cell of the cross centred on (i, j) is set. */
  predicate AnyCross(m: seq<seq<bool>>, i: int, j: int) {
    At(m, i, j) || At(m, i - 1, j) || At(m, i + 1, j) || At(m, i, j - 1) || At(m, i, j + 1)
  }

  /** Every cell of the cross centred on (i, j) is set. */
  predicate AllCross(m: seq<seq<bool>>, i: int, j: int) {
    At(m, i, j) && At(m, i - 1, j) && At(m, i + 1, j) && At(m, i, j - 1) && At(m, i, j + 1)
  }

  /** The mask `index == c` (jpg2tiff.py line 9). */
  function ClassMask(g: seq<seq<int>>, c: int): (m: seq<seq<bool>>)
    ensures SameShape(m, g)
    ensures forall i, j :: InBounds(g, i, j) ==> (At(m, i, j) <==> g[i][j] == c)
  {
    seq(|g|, i requires 0 <= i < |g| => seq(|g[i]|, j requires 0 <= j < |g[i]| => g[i][j] == c))
  }

  /** The dilation of the mask at (i, j): inside the image, and the cross
      centred there meets the mask. */
  predicate Dilated(m: seq<seq<bool>>, i: int, j: int) {
    InBounds(m, i, j) && AnyCross(m, i, j)
  }

  /** The erosion of the dilation at (i, j): inside the image, and the
      dilation covers the whole cross centred there. */
  predicate Closed(m: seq<seq<bool>>, i: int, j: int) {
    InBounds(m, i, j) && Dilated(m, i, j) && Dilated(m, i - 1, j) && Dilated(m, i + 1, j)
      && Dilated(m, i, j - 1) && Dilated(m, i, j + 1)
  }

  /** Binary dilation by the cross (which is its own reflection). */
  function Dilate(m: seq<seq<bool>>): (d: seq<seq<bool>>)
    ensures SameShape(d, m)
  {
    seq(|m|, i requires 0 <= i < |m| => seq(|m[i]|, j requires 0 <= j < |m[i]| => AnyCross(m, i, j)))
  }

  /** Binary erosion by the cross. */
  function Erode(m: seq<seq<bool>>): (e: seq<seq<bool>>)
    ensures SameShape(e, m)
  {
    seq(|m|, i requires 0 <= i < |m| => seq(|m[i]|, j requires 0 <= j < |m[i]| => AllCross(m, i, j)))
  }

  /** Binary closing, one iteration: dilation followed by erosion. */
  function Closing(m: seq<seq<bool>>): (k: seq<seq<bool>>)
    ensures SameShape(k, m)
  {
    Erode(Dilate(m))
  }

  /** Dilation keeps every set cell of the mask. */
  lemma DilateContainsMask(m: seq<seq<bool>>, i: int, j: int)
    requires InBounds(m, i, j) && m[i][j]
    ensures Dilate(m)[i][j]
  {
    assert At(m, i, j);
  }

  /** Erosion keeps only set cells of the mask. */
  lemma ErodeWithinMask(m: seq<seq<bool>>, i: int, j: int)
    requires InBounds(m, i, j) && Erode(m)[i][j]
    ensures m[i][j]
  {
  }

  /** The closing at one cell, inside or outside the image, is Closed. */
  lemma ClosingCell(m: seq<seq<bool>>, i: int, j: int)
    ensures At(Closing(m), i, j) == Closed(m, i, j)
  {
    var d := Dilate(m);
    if InBounds(m, i, j) {
      assert At(d, i, j) == Dilated(m, i, j);
      assert At(d, i - 1, j) == Dilated(m, i - 1, j);
      assert At(d, i + 1, j) == Dilated(m, i + 1, j);
      assert At(d, i, j - 1) == Dilated(m, i, j - 1);
      assert At(d, i, j + 1) == Dilated(m, i, j + 1);
    }
  }

  /** A cell is in the closing only when it is interior: the erosion sees
      the false border on the edge of the image. */
  lemma ClosedIsInterior(m: seq<seq<bool>>, i: int, j: int)
    requires Rectangular(m) && Closed(m, i, j)
    ensures Interior(m, i, j)
  {
  }

  /** Closing never reaches a cell on the edge of the image. */
  lemma ClosingOffEdges(m: seq<seq<bool>>, i: int, j: int)
    requires Rectangular(m) && InBounds(m, i, j) && !Interior(m, i, j)
    ensures !Closing(m)[i][j]
  {
    ClosingCell(m, i, j);
  }

  /** On interior cells closing is extensive: a set cell stays set. */
  lemma ClosingExtensive(m: seq<seq<bool>>, i: int, j: int)
    requires Rectangular(m) && Interior(m, i, j) && m[i][j]
    ensures Closing(m)[i][j]
  {
    assert Closed(m, i, j);
    assert At(Closing(m), i, j);
  }

  /** An interior cell whose four cross-neighbours are set enters the
      closing, set or not: the hole is filled. */
  lemma ClosingFillsHole(m: seq<seq<bool>>, i: int, j: int)
    requires Rectangular(m) && Interior(m, i, j)
    requires m[i - 1][j] && m[i + 1][j] && m[i][j - 1] && m[i][j + 1]
    ensures Closing(m)[i][j]
  {
    assert At(m, i - 1, j);
    assert Closed(m, i, j);
    assert At(Closing(m), i, j);
  }

  /** Closing only adds a cell next to the mask: a cell in the closing is set
      or has a set cross-neighbour. */
  lemma ClosingIsLocal(m: seq<seq<bool>>, i: int, j: int)
    requires InBounds(m, i, j) && Closing(m)[i][j]
    ensures AnyCross(m, i, j)
  {
    assert At(Closing(m), i, j);
  }

  /** The closing of a mask with no set cell has no set cell. */
  lemma ClosingOfEmpty(m: seq<seq<bool>>)
    requires forall i, j :: InBounds(m, i, j) ==> !m[i][j]
    ensures forall i, j :: InBounds(m, i, j) ==> !Closing(m)[i][j]
  {
    forall i, j | InBounds(m, i, j)
      ensures !Closing(m)[i][j]
    {
      if Closing(m)[i][j] {
        ClosingIsLocal(m, i, j);
        assert false;
      }
    }
  }

  /** The closing of a raster is a raster of the same rows and columns. */
  lemma ClosingRectangular(m: seq<seq<bool>>)
    requires Rectangular(m)
    ensures Rectangular(Closing(m)) && Width(Closing(m)) == Width(m)
  {
    var k := Closing(m);
    forall i | 0 <= i < |k| ensures |k[i]| == Width(k) {
      assert |k[i]| == |m[i]| && |k[0]| == |m[0]|;
    }
  }

  /** A cell of the closing stays in the closing of the closing. */
  lemma ReclosingKeeps(m: seq<seq<bool>>, i: int, j: int)
    requires Rectangular(m) && InBounds(m, i, j) && Closing(m)[i][j]
    ensures Closing(Closing(m))[i][j]
  {
    var k := Closing(m);
    ClosingRectangular(m);
    assert At(k, i, j);
    ClosedIsInterior(m, i, j);
    ClosingExtensive(k, i, j);
  }

  /** If the closing meets the cross of (y, x), the mask's dilation covers
      (y, x): the closed cell there has (y, x) on its own cross. */
  lemma NearClosedIsDilated(m: seq<seq<bool>>, y: int, x: int)
    requires Dilated(Closing(m), y, x)
    ensures Dilated(m, y, x)
  {
    var k := Closing(m);
    if At(k, y, x) {
      ClosingCell(m, y, x);
    } else if At(k, y - 1, x) {
      ClosingCell(m, y - 1, x);
    } else if At(k, y + 1, x) {
      ClosingCell(m, y + 1, x);
    } else if At(k, y, x - 1) {
      ClosingCell(m, y, x - 1);
    } else {
      ClosingCell(m, y, x + 1);
    }
  }

  /** A cell where the closing of the closing is Closed is one where the
      closing is: each dilated cell of the closing is a dilated cell of the
      mask. */
  lemma ClosedOfClosingIsClosed(m: seq<seq<bool>>, i: int, j: int)
    requires Closed(Closing(m), i, j)
    ensures Closed(m, i, j)
  {
    NearClosedIsDilated(m, i, j);
    NearClosedIsDilated(m, i - 1, j);
    NearClosedIsDilated(m, i + 1, j);
    NearClosedIsDilated(m, i, j - 1);
    NearClosedIsDilated(m, i, j + 1);
  }

  /** A cell of the closing of the closing is already in the closing. */
  lemma ReclosingAddsNothing(m: seq<seq<bool>>, i: int, j: int)
    requires InBounds(m, i, j) && Closing(Closing(m))[i][j]
    ensures Closing(m)[i][j]
  {
    var k := Closing(m);
    assert At(Closing(k), i, j);
    ClosingCell(k, i, j);
    ClosedOfClosingIsClosed(m, i, j);
    ClosingCell(m, i, j);
  }

  /** Closing once more changes nothing: the closing with a false border is
      idempotent. */
  lemma {:induction false} ClosingIdempotent(m: seq<seq<bool>>)
    requires Rectangular(m)
    ensures Closing(Closing(m)) == Closing(m)
  {
    var k := Closing(m);
    forall i | 0 <= i < |k|
      ensures Closing(k)[i] == k[i]
    {
      forall j | 0 <= j < |k[i]|
        ensures Closing(k)[i][j] == k[i][j]
      {
        if k[i][j] {
          ReclosingKeeps(m, i, j);
        }
        if Closing(k)[i][j] {
          ReclosingAddsNothing(m, i, j);
        }
      }
    }
  }

  /** `morphological_processing(index, c)`: the closing of the mask of class
      c. A cell enters it only if it is interior and it or a cross-neighbour
      holds c; every interior cell holding c is in it, and so is every
      interior cell whose four cross-neighbours hold c. */
  function MorphologicalProcessing(g: seq<seq<int>>, c: int): (k: seq<seq<bool>>)
    requires Rectangular(g)
    ensures SameShape(k, g)
    ensures forall i, j :: InBounds(g, i, j) && k[i][j] ==>
      Interior(g, i, j) && AnyCross(ClassMask(g, c), i, j)
    ensures forall i, j :: Interior(g, i, j) && g[i][j] == c ==> k[i][j]
    ensures forall i, j :: Interior(g, i, j) && FourNeighbours(g, i, j, c) ==> k[i][j]
  {
    ProcessingFacts(g, c);
    Closing(ClassMask(g, c))
  }

  /** The four cross-neighbours of an interior cell all hold c. */
  predicate FourNeighbours(g: seq<seq<int>>, i: int, j: int, c: int)
    requires Interior(g, i, j) && Rectangular(g)
  {
    g[i - 1][j] == c && g[i + 1][j] == c && g[i][j - 1] == c && g[i][j + 1] == c
  }

  /** The facts MorphologicalProcessing promises, cell by cell. */
  lemma ProcessingFacts(g: seq<seq<int>>, c: int)
    requires Rectangular(g)
    ensures forall i, j :: InBounds(g, i, j) && Closing(ClassMask(g, c))[i][j] ==>
      Interior(g, i, j) && AnyCross(ClassMask(g, c), i, j)
    ensures forall i, j :: Interior(g, i, j) && g[i][j] == c ==> Closing(ClassMask(g, c))[i][j]
    ensures forall i, j :: Interior(g, i, j) && FourNeighbours(g, i, j, c) ==> Closing(ClassMask(g, c))[i][j]
  {
    var m := ClassMask(g, c);
    assert Rectangular(m) by {
      forall i | 0 <= i < |m| ensures |m[i]| == Width(m) {
        assert |m[i]| == |g[i]| && |m[0]| == |g[0]|;
      }
    }
    forall i, j | InBounds(g, i, j) && Closing(m)[i][j]
      ensures Interior(g, i, j) && AnyCross(m, i, j)
    {
      if !Interior(m, i, j) {
        ClosingOffEdges(m, i, j);
      }
      ClosingIsLocal(m, i, j);
    }
    forall i, j | Interior(g, i, j) && g[i][j] == c
      ensures Closing(m)[i][j]
    {
      assert At(m, i, j);
      ClosingExtensive(m, i, j);
    }
    forall i, j | Interior(g, i, j) && FourNeighbours(g, i, j, c)
      ensures Closing(m)[i][j]
    {
      assert At(m, i - 1, j) && At(m, i + 1, j) && At(m, i, j - 1) && At(m, i, j + 1);
      ClosingFillsHole(m, i, j);
    }
  }
}
