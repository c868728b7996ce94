/**
  One bit per frame, eight to a byte, as kernel/memory/pmm_core.c keeps them.
*/
module PmmBitmap {

  type Bitmap = seq<bv8>

  function Mask(bit: nat): bv8
    requires bit < 8
  {
    match bit case 0 => 1 case 1 => 2 case 2 => 4 case 3 => 8 case 4 => 16 case 5 => 32 case 6 => 64 case _ => 128
  }

  predicate Covers(b: Bitmap, frames: nat) { frames <= 8 * |b| }

  predicate Test(b: Bitmap, f: nat)
  {
    f / 8 < |b| && b[f / 8] & Mask(f % 8) != 0
  }

  function Put(b: Bitmap, f: nat, value: bool): Bitmap
    requires Covers(b, f + 1)
  {
    b[f / 8 := if value then b[f / 8] | Mask(f % 8) else b[f / 8] & !Mask(f % 8)]
  }

  lemma MaskBits(x: bv8, j: nat, k: nat)
    requires j < 8 && k < 8
    ensures (x | Mask(j)) & Mask(j) != 0 && (x & !Mask(j)) & Mask(j) == 0
    ensures j != k ==> (x | Mask(j)) & Mask(k) == x & Mask(k) && (x & !Mask(j)) & Mask(k) == x & Mask(k)
  {
  }

  lemma SameBit(f: nat, g: nat)
    ensures f / 8 == g / 8 && f % 8 == g % 8 ==> f == g
  {
  }

  /** Setting one bit sets that bit and leaves the rest of the bitmap alone. */
  lemma PutTest(b: Bitmap, f: nat, value: bool, g: nat)
    requires Covers(b, f + 1)
    ensures |Put(b, f, value)| == |b|
    ensures Test(Put(b, f, value), g) == if g == f then value else Test(b, g)
  {
    if g / 8 == f / 8 {
      MaskBits(b[f / 8], f % 8, g % 8);
      SameBit(f, g);
    }
  }

  /** `c` is `b` with the bits of `first <= f < end` equal to `value`. */
  ghost predicate Painted(b: Bitmap, c: Bitmap, first: nat, end: nat, value: bool) {
    && |c| == |b|
    && forall g: nat {:trigger Test(c, g)} :: Test(c, g) == if first <= g < end then value else Test(b, g)
  }

  method Paint(b: Bitmap, first: nat, end: nat, value: bool) returns (c: Bitmap)
    requires first <= end && Covers(b, end)
    ensures Painted(b, c, first, end, value)
  {
    hide Test, Put;
    c := b;
    var frame := first;
    while frame < end
      invariant first <= frame <= end && Painted(b, c, first, frame, value)
    {
      ghost var d := c;
      c := Put(c, frame, value);
      PutTest(d, frame, value, frame);
      forall g: nat {:trigger Test(c, g)} ensures Test(c, g) == if g == frame then value else Test(d, g) {
        PutTest(d, frame, value, g);
      }
      frame := frame + 1;
    }
  }
}
