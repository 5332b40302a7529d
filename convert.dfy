/** The body of `jpg_to_tiff_mask` in jpg2tiff.py between decoding and
    encoding: an index buffer of the raster's size starts at 0, receives the
    masked writes of the colour classifier, then the masked writes of the two
    closed class masks (both taken from the buffer as classification left it),
    and last the black pixels are forced back to 0. */
module Convert {
  import opened Colour
  import opened Morphology

  /** The value of every cell of a two-dimensional array, row by row. */
  function Cells(a: array2<int>): (g: seq<seq<int>>)
    reads a
    ensures |g| == a.Length0 && Rectangular(g)
    ensures forall i :: 0 <= i < |g| ==> |g[i]| == a.Length1
    ensures forall i, j :: 0 <= i < a.Length0 && 0 <= j < a.Length1 ==> g[i][j] == a[i, j]
  {
    seq(a.Length0, i requires 0 <= i < a.Length0 reads a =>
      seq(a.Length1, j requires 0 <= j < a.Length1 reads a => a[i, j]))
  }

  /** A mask of the raster's shape: the pixels for which `pick` holds. */
  function PixelMask(img: seq<seq<Pixel>>, pick: Pixel -> bool): (m: seq<seq<bool>>)
    ensures SameShape(m, img)
    ensures forall i, j :: InBounds(img, i, j) ==> m[i][j] == pick(img[i][j])
  {
    seq(|img|, i requires 0 <= i < |img| =>
      seq(|img[i]|, j requires 0 <= j < |img[i]| => pick(img[i][j])))
  }

  /** The index buffer after the classifier's writes (lines 42-44). */
  function Labels(img: seq<seq<Pixel>>): (g: seq<seq<int>>)
    ensures SameShape(g, img)
    ensures forall i, j :: InBounds(img, i, j) ==> g[i][j] == Label(img[i][j])
  {
    seq(|img|, i requires 0 <= i < |img| =>
      seq(|img[i]|, j requires 0 <= j < |img[i]| => Label(img[i][j])))
  }

  /** The closed mask of class c, taken from the classified buffer. */
  function ClosedClass(img: seq<seq<Pixel>>, c: int): (k: seq<seq<bool>>)
    requires Rectangular(img)
    ensures SameShape(k, img)
  {
    LabelsRectangular(img);
    MorphologicalProcessing(Labels(img), c)
  }

  /** The finished index buffer: the value of the last of the six masked
      writes that applies to a cell, or the classified value if none does. */
  function Final(img: seq<seq<Pixel>>): (g: seq<seq<int>>)
    requires Rectangular(img)
    ensures SameShape(g, img)
  {
    var labels := Labels(img);
    var red := ClosedClass(img, ClassA);
    var green := ClosedClass(img, ClassB);
    seq(|img|, i requires 0 <= i < |img| =>
      seq(|img[i]|, j requires 0 <= j < |img[i]| =>
        if IsBlack(img[i][j]) then Background
        else if green[i][j] then ClassB
        else if red[i][j] then ClassA
        else labels[i][j]))
  }

  lemma LabelsRectangular(img: seq<seq<Pixel>>)
    requires Rectangular(img)
    ensures Rectangular(Labels(img)) && Width(Labels(img)) == Width(img)
  {
    var g := Labels(img);
    if |img| > 0 {
      assert |g[0]| == |img[0]|;
    }
  }

  /** `index_array[mask] = v`: every cell under the mask becomes v, every
      other cell keeps its value. */
  method ApplyMask(a: array2<int>, mask: seq<seq<bool>>, v: int)
    requires |mask| == a.Length0
    requires forall i :: 0 <= i < |mask| ==> |mask[i]| == a.Length1
    modifies a
    ensures forall i, j :: 0 <= i < a.Length0 && 0 <= j < a.Length1 ==>
      a[i, j] == (if mask[i][j] then v else old(a[i, j]))
  {
    var i := 0;
    while i < a.Length0
      invariant 0 <= i <= a.Length0
      invariant forall r, c :: 0 <= r < i && 0 <= c < a.Length1 ==>
        a[r, c] == (if mask[r][c] then v else old(a[r, c]))
      invariant forall r, c :: i <= r < a.Length0 && 0 <= c < a.Length1 ==> a[r, c] == old(a[r, c])
    {
      var j := 0;
      while j < a.Length1
        invariant 0 <= j <= a.Length1
        invariant forall r, c :: 0 <= r < i && 0 <= c < a.Length1 ==>
          a[r, c] == (if mask[r][c] then v else old(a[r, c]))
        invariant forall c :: 0 <= c < j ==> a[i, c] == (if mask[i][c] then v else old(a[i, c]))
        invariant forall r, c :: (i < r < a.Length0 && 0 <= c < a.Length1) || (r == i && j <= c < a.Length1) ==>
          a[r, c] == old(a[r, c])
      {
        if mask[i][j] {
          a[i, j] := v;
        }
        j := j + 1;
      }
      i := i + 1;
    }
  }

  /** The three masked writes of the colour classifier on a buffer of 0s. */
  method Classify(index: array2<int>, img: seq<seq<Pixel>>)
    requires Rectangular(img) && index.Length0 == |img| && index.Length1 == Width(img)
    requires forall i, j :: 0 <= i < index.Length0 && 0 <= j < index.Length1 ==> index[i, j] == Background
    modifies index
    ensures Cells(index) == Labels(img)
  {
    ApplyMask(index, PixelMask(img, IsBlack), Background);
    ApplyMask(index, PixelMask(img, IsRed), ClassA);
    ApplyMask(index, PixelMask(img, IsGreen), ClassB);
    var classified := Cells(index);
    forall i | 0 <= i < |img| ensures classified[i] == Labels(img)[i] {
      assert |classified[i]| == |Labels(img)[i]|;
    }
  }

  /** The masked writes of the two closed class masks, both taken from the
      classified buffer, then the black pixels forced back to 0. */
  method Postprocess(index: array2<int>, img: seq<seq<Pixel>>)
    requires Rectangular(img) && index.Length0 == |img| && index.Length1 == Width(img)
    requires Cells(index) == Labels(img)
    modifies index
    ensures Cells(index) == Final(img)
  {
    var classified := Cells(index);
    LabelsRectangular(img);
    var redProcessed := MorphologicalProcessing(classified, ClassA);
    var greenProcessed := MorphologicalProcessing(classified, ClassB);
    ApplyMask(index, redProcessed, ClassA);
    ApplyMask(index, greenProcessed, ClassB);
    ApplyMask(index, PixelMask(img, IsBlack), Background);
    var result := Cells(index);
    forall i | 0 <= i < |img| ensures result[i] == Final(img)[i] {
      assert |result[i]| == |Final(img)[i]|;
    }
  }

  /** `jpg_to_tiff_mask` from the decoded raster to the index buffer that is
      handed to the encoder. */
  method JpgToTiffMask(img: seq<seq<Pixel>>) returns (index: array2<int>)
    requires Rectangular(img)
    ensures fresh(index)
    ensures index.Length0 == |img| && index.Length1 == Width(img)
    ensures Cells(index) == Final(img)
  {
    index := new int[|img|, Width(img)]((i, j) => Background);
    Classify(index, img);
    Postprocess(index, img);
  }

  // Properties of the finished buffer

  /** Every cell ends as one of the three class indices. */
  lemma FinalInRange(img: seq<seq<Pixel>>, i: int, j: int)
    requires Rectangular(img) && InBounds(img, i, j)
    ensures Background <= Final(img)[i][j] <= ClassB
  {
  }

  /** A pixel that is exactly (0, 0, 0) ends as background, whatever the
      closings covered. */
  lemma BlackEndsBackground(img: seq<seq<Pixel>>, i: int, j: int)
    requires Rectangular(img) && InBounds(img, i, j) && IsBlack(img[i][j])
    ensures Final(img)[i][j] == Background
  {
  }

  /** A cell that neither closed mask covers keeps its classified value; in
      particular a non-black pixel of no class stays background. */
  lemma UncoveredKeepsLabel(img: seq<seq<Pixel>>, i: int, j: int)
    requires Rectangular(img) && InBounds(img, i, j)
    requires !ClosedClass(img, ClassA)[i][j] && !ClosedClass(img, ClassB)[i][j]
    ensures Final(img)[i][j] == Label(img[i][j])
    ensures !IsRed(img[i][j]) && !IsGreen(img[i][j]) ==> Final(img)[i][j] == Background
  {
  }

  /** Where both closed masks are true and the pixel is not black, class B
      wins: it is written after class A. */
  lemma BothCoveredEndsClassB(img: seq<seq<Pixel>>, i: int, j: int)
    requires Rectangular(img) && InBounds(img, i, j) && !IsBlack(img[i][j])
    requires ClosedClass(img, ClassA)[i][j] && ClosedClass(img, ClassB)[i][j]
    ensures Final(img)[i][j] == ClassB
  {
  }

  /** A non-black cell that the closed mask of class B covers ends as class
      B: that write comes after the write of class A. */
  lemma ClassBCoverEndsClassB(img: seq<seq<Pixel>>, i: int, j: int)
    requires Rectangular(img) && InBounds(img, i, j) && !IsBlack(img[i][j])
    requires ClosedClass(img, ClassB)[i][j]
    ensures Final(img)[i][j] == ClassB
  {
  }

  /** A non-black cell that the closed mask of class A covers and that of
      class B does not ends as class A. */
  lemma ClassACoverEndsClassA(img: seq<seq<Pixel>>, i: int, j: int)
    requires Rectangular(img) && InBounds(img, i, j) && !IsBlack(img[i][j])
    requires ClosedClass(img, ClassA)[i][j] && !ClosedClass(img, ClassB)[i][j]
    ensures Final(img)[i][j] == ClassA
  {
  }

  /** Neither closed mask reaches the edge of the image, so morphology leaves
      edge cells as classification left them. */
  lemma EdgeKeepsLabel(img: seq<seq<Pixel>>, i: int, j: int)
    requires Rectangular(img) && InBounds(img, i, j) && !Interior(img, i, j)
    ensures Final(img)[i][j] == Label(img[i][j])
  {
    LabelsRectangular(img);
    assert !Interior(Labels(img), i, j);
  }

  /** Morphology only adds labels: a pixel classified A or B that is not
      black ends with a class, never as background. */
  lemma LabelledStaysLabelled(img: seq<seq<Pixel>>, i: int, j: int)
    requires Rectangular(img) && InBounds(img, i, j)
    requires IsRed(img[i][j]) || IsGreen(img[i][j])
    ensures Final(img)[i][j] != Background
    ensures IsGreen(img[i][j]) && Interior(img, i, j) ==> Final(img)[i][j] == ClassB
  {
    LabelsRectangular(img);
    if IsGreen(img[i][j]) && Interior(img, i, j) {
      assert Interior(Labels(img), i, j);
      assert ClosedClass(img, ClassB)[i][j];
    }
  }

  /** A cell ends with class A or B only if it, or one of its four
      cross-neighbours, was classified so. */
  lemma GrowthIsLocal(img: seq<seq<Pixel>>, i: int, j: int, c: int)
    requires Rectangular(img) && InBounds(img, i, j)
    requires c == ClassA || c == ClassB
    requires Final(img)[i][j] == c
    ensures AnyCross(ClassMask(Labels(img), c), i, j)
  {
    LabelsRectangular(img);
    var labels := Labels(img);
    if !ClosedClass(img, c)[i][j] {
      assert labels[i][j] == c;
    }
  }

  /** An interior pixel of no class and not black, whose four cross-neighbours
      are all red, is filled with class A: the closing of class A fills the
      hole, and the closing of class B cannot reach it. */
  lemma HoleFilledWithClassA(img: seq<seq<Pixel>>, i: int, j: int)
    requires Rectangular(img) && Interior(img, i, j)
    requires !IsBlack(img[i][j]) && !IsGreen(img[i][j])
    requires IsRed(img[i - 1][j]) && IsRed(img[i + 1][j]) && IsRed(img[i][j - 1]) && IsRed(img[i][j + 1])
    ensures Final(img)[i][j] == ClassA
  {
    LabelsRectangular(img);
    var labels := Labels(img);
    assert Interior(labels, i, j);
    assert FourNeighbours(labels, i, j, ClassA);
    assert ClosedClass(img, ClassA)[i][j];
  }

  /** A raster painted entirely black ends all background. */
  lemma AllBlackGivesBackground(img: seq<seq<Pixel>>)
    requires Rectangular(img)
    requires forall i, j :: InBounds(img, i, j) ==> IsBlack(img[i][j])
    ensures forall i, j :: InBounds(img, i, j) ==> Final(img)[i][j] == Background
  {
  }

  /** In a raster painted entirely in the red range no cross meets a cell of
      class B. */
  lemma NoClassBInRed(img: seq<seq<Pixel>>, i: int, j: int)
    requires forall i, j :: InBounds(img, i, j) ==> IsRed(img[i][j])
    ensures !AnyCross(ClassMask(Labels(img), ClassB), i, j)
  {
    var m := ClassMask(Labels(img), ClassB);
    forall y, x | InBounds(img, y, x) ensures !At(m, y, x) {
      assert Labels(img)[y][x] == ClassA;
    }
  }

  /** A raster painted entirely in the red range ends all class A. */
  lemma AllRedGivesClassA(img: seq<seq<Pixel>>)
    requires Rectangular(img)
    requires forall i, j :: InBounds(img, i, j) ==> IsRed(img[i][j])
    ensures forall i, j :: InBounds(img, i, j) ==> Final(img)[i][j] == ClassA
  {
    LabelsRectangular(img);
    forall i, j | InBounds(img, i, j)
      ensures Final(img)[i][j] == ClassA
    {
      NoClassBInRed(img, i, j);
      assert !ClosedClass(img, ClassB)[i][j];
    }
  }

  /** A one-pixel raster ends as that pixel's class: closing cannot change it. */
  lemma SinglePixelKeepsLabel(p: Pixel)
    ensures Final([[p]]) == [[Label(p)]]
  {
    var img := [[p]];
    assert Rectangular(img);
    EdgeKeepsLabel(img, 0, 0);
    assert Final(img)[0] == [Label(p)];
  }
}
