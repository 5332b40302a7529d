/** The colour classifier of jpg2tiff.py: three per-pixel predicates over an
    8-bit RGB triple and the class index that the three masked writes of
    `jpg_to_tiff_mask` leave in a cell of the index buffer. */
module Colour {

  /** One 8-bit colour channel. */
  type Channel = x: int | 0 <= x <= 255

  /** One pixel of the decoded RGB raster. */
  datatype Pixel = Pixel(r: Channel, g: Channel, b: Channel)

  /** Class indices written into the index buffer. */
  const Background: int := 0
  const ClassA: int := 1
  const ClassB: int := 2

  /** The black mask: exactly (0, 0, 0). */
  predicate IsBlack(p: Pixel) {
    p.r == 0 && p.g == 0 && p.b == 0
  }

  /** The red mask: 125 <= R <= 130, G <= 5 and B <= 5. */
  predicate IsRed(p: Pixel) {
    125 <= p.r <= 130 && p.g <= 5 && p.b <= 5
  }

  /** The green mask as the code computes it. The call passes three arrays to
      a two-operand logical "and": the third is taken as the array to write the
      result into, so the blue test takes no part. The lower bound on R holds
      of every 8-bit value. */
  predicate IsGreen(p: Pixel) {
    0 <= p.r <= 50 && 80 <= p.g <= 150
  }

  /** The green mask as the three-operand call reads: all three tests
      conjoined, blue included. The code does not compute this. */
  predicate IsGreenAsRead(p: Pixel) {
    0 <= p.r <= 50 && 80 <= p.g <= 150 && 0 <= p.b <= 50
  }

  /** The value a cell of the zero-initialised index buffer holds after the
      writes of 0 on black, then 1 on red, then 2 on green: the last write
      that applies wins. */
  function Label(p: Pixel): (c: int)
    ensures Background <= c <= ClassB
    ensures c == ClassB <==> IsGreen(p)
    ensures c == ClassA <==> IsRed(p)
    ensures c == Background <==> !IsRed(p) && !IsGreen(p)
    ensures IsBlack(p) ==> c == Background
  {
    if IsGreen(p) then ClassB
    else if IsRed(p) then ClassA
    else Background
  }

  /** The three masks never overlap, whatever the pixel. */
  lemma MasksDisjoint(p: Pixel)
    ensures !(IsBlack(p) && IsRed(p))
    ensures !(IsBlack(p) && IsGreen(p))
    ensures !(IsRed(p) && IsGreen(p))
  {
  }

  /** The priority the comment above the writes announces (black over red
      over green) gives the same class as the write order (green over red over
      black), because no pixel is in two masks. */
  lemma CommentPriorityAgrees(p: Pixel)
    ensures Label(p) == (if IsBlack(p) then Background
                         else if IsRed(p) then ClassA
                         else if IsGreen(p) then ClassB
                         else Background)
  {
    MasksDisjoint(p);
  }

  /** The blue channel never decides whether a pixel is green. */
  lemma GreenIgnoresBlue(r: Channel, g: Channel, b1: Channel, b2: Channel)
    ensures IsGreen(Pixel(r, g, b1)) == IsGreen(Pixel(r, g, b2))
    ensures Label(Pixel(r, g, b1)) == ClassB <==> Label(Pixel(r, g, b2)) == ClassB
  {
  }

  /** The computed green mask is wider than the three-operand reading: it
      contains every pixel of that reading, and also (0, 100, 255), whose blue
      is far above 50. */
  lemma GreenWiderThanRead(p: Pixel)
    ensures IsGreenAsRead(p) ==> IsGreen(p)
    ensures IsGreen(p) && !IsGreenAsRead(p) <==> IsGreen(p) && p.b > 50
    ensures IsGreen(Pixel(0, 100, 255)) && !IsGreenAsRead(Pixel(0, 100, 255))
    ensures Label(Pixel(0, 100, 255)) == ClassB
  {
  }
}
