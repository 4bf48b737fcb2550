/**
 * Picking (globe.js `arrowAtCoordinate`, `addMousemapArrow`): every arrow is drawn into an
 * offscreen buffer in a flat colour that encodes its picking index, and the pixel under the
 * pointer is decoded back into an index. The render and the pixel read are outside the model;
 * the sampled pixel is an input.
 */
module Picking {

  /** The tolerance of globe.js `eps`. */
  const EPS: real := 0.01

  function Abs(x: real): real
  {
    if x < 0.0 then -x else x
  }

  type Byte = x: int | 0 <= x < 0x100

  /** The red, green and blue bytes read back from the picking buffer. */
  datatype Pixel = Pixel(r: Byte, g: Byte, b: Byte)

  function Pow2(n: nat): (p: nat)
    ensures p >= 1
  {
    if n == 0 then 1 else 2 * Pow2(n - 1)
  }

  /** JavaScript `a << n` for a non-negative `a` whose shifted value stays below 2^31,
      where the 32-bit shift loses nothing. */
  function ShiftLeft(a: nat, n: nat): nat
  {
    a * Pow2(n)
  }

  /** JavaScript `a | b` for non-negative operands below 2^31, bit by bit from the lowest. */
  function BitOr(a: nat, b: nat): nat
    decreases a + b
  {
    if a == 0 then b
    else if b == 0 then a
    else 2 * BitOr(a / 2, b / 2) + (if a % 2 == 1 || b % 2 == 1 then 1 else 0)
  }

  /** Or-ing a value shifted left by `k` with one that fits in `k` bits adds them. */
  lemma {:induction false} BitOrOfDisjoint(x: nat, y: nat, k: nat)
    requires y < Pow2(k)
    ensures BitOr(ShiftLeft(x, k), y) == ShiftLeft(x, k) + y
  {
    var a := ShiftLeft(x, k);
    if a == 0 || y == 0 {
    } else {
      assert k > 0;
      assert a == 2 * ShiftLeft(x, k - 1);
      BitOrOfDisjoint(x, y / 2, k - 1);
    }
  }

  /** `(r << 16) | (g << 8) | b`: the three bytes read as one 24-bit number. */
  function DecodeIndex(p: Pixel): (i: int)
    ensures i == p.r * 0x1_0000 + p.g * 0x100 + p.b
    ensures 0 <= i < 0x100_0000
  {
    assert Pow2(8) == 0x100 && Pow2(16) == 0x1_0000;
    BitOrOfDisjoint(p.r, p.g * 0x100, 16);
    BitOrOfDisjoint(p.r * 0x100 + p.g, p.b, 8);
    BitOr(BitOr(ShiftLeft(p.r, 16), ShiftLeft(p.g, 8)), p.b)
  }

  /** The colour `new THREE.Color(index)` gives a picking mesh: the index split into its
      three low bytes. */
  function EncodeIndex(i: nat): Pixel
  {
    Pixel((i / 0x1_0000) % 0x100, (i / 0x100) % 0x100, i % 0x100)
  }

  /** Quotient and remainder are the only pair that rebuilds the dividend. */
  lemma DivModUnique(n: int, d: int, q: int, r: int)
    requires d > 0 && 0 <= r < d && n == q * d + r
    ensures n / d == q && n % d == r
  {
    var q', r' := n / d, n % d;
    assert n == q' * d + r';
    assert (q - q') * d == q * d - q' * d;
    if q > q' {
      MultipleAtLeastDivisor(q - q', d);
    } else if q < q' {
      assert (q' - q) * d == q' * d - q * d;
      MultipleAtLeastDivisor(q' - q, d);
    }
  }

  lemma MultipleAtLeastDivisor(k: int, d: int)
    requires k >= 1 && d > 0
    ensures k * d >= d
  {
    assert k * d == (k - 1) * d + d;
  }

  /** Every index below 2^24 survives the trip through the picking colour. */
  lemma DecodeEncode(i: nat)
    requires i < 0x100_0000
    ensures DecodeIndex(EncodeIndex(i)) == i
  {
    var q, b := i / 0x100, i % 0x100;
    var r, g := q / 0x100, q % 0x100;
    assert i == r * 0x1_0000 + (g * 0x100 + b);
    DivModUnique(i, 0x1_0000, r, g * 0x100 + b);
    DivModUnique(r, 0x100, 0, r);
  }

  /** Every pixel is the colour of exactly the index it decodes to. */
  lemma EncodeDecode(p: Pixel)
    ensures EncodeIndex(DecodeIndex(p)) == p
  {
    var i := DecodeIndex(p);
    DivModUnique(i, 0x1_0000, p.r, p.g * 0x100 + p.b);
    DivModUnique(i, 0x100, p.r * 0x100 + p.g, p.b);
    DivModUnique(p.r * 0x100 + p.g, 0x100, p.r, p.g);
    DivModUnique(p.r, 0x100, 0, p.r);
  }

  /** The view state that decides whether picking is allowed. */
  datatype PickGate = PickGate(distance: real, distanceTarget: real, dragging: bool, touchStarted: bool)

  /** Picking is refused while the zoom has not converged or a drag or touch is active. */
  predicate PickingEnabled(g: PickGate)
  {
    Abs(g.distanceTarget - g.distance) < EPS && !g.dragging && !g.touchStarted
  }

  /** `undefined` is NoArrow; `Hit` is the name of the arrow's mesh; an index that has no entry
      in the reverse map makes the source throw (it reads `.mesh` of undefined): LookupFault. */
  datatype PickOutcome = NoArrow | Hit(name: string) | LookupFault(index: int)

  function ArrowAtCoordinate(g: PickGate, pixel: Pixel, arrowByIndex: map<int, string>): PickOutcome
  {
    if Abs(g.distanceTarget - g.distance) >= EPS then NoArrow
    else if g.dragging || g.touchStarted then NoArrow
    else
      var index := DecodeIndex(pixel);
      if index == 0 then NoArrow
      else if index in arrowByIndex then Hit(arrowByIndex[index])
      else LookupFault(index)
  }

  /** While zooming, dragging or touching, nothing is picked whatever the pixel. */
  lemma PickingDisabledGivesNothing(g: PickGate, pixel: Pixel, arrowByIndex: map<int, string>)
    requires !PickingEnabled(g)
    ensures ArrowAtCoordinate(g, pixel, arrowByIndex) == NoArrow
  {
  }

  /** The background colour (index 0) never names an arrow. */
  lemma BackgroundPicksNothing(g: PickGate, arrowByIndex: map<int, string>)
    ensures ArrowAtCoordinate(g, EncodeIndex(0), arrowByIndex) == NoArrow
  {
  }

  /** With picking enabled, the colour of an indexed arrow picks exactly that arrow, and the
      colour of an index with no entry faults. */
  lemma PickingFindsIndexedArrow(g: PickGate, i: nat, arrowByIndex: map<int, string>)
    requires PickingEnabled(g) && 1 <= i < 0x100_0000
    ensures i in arrowByIndex ==> ArrowAtCoordinate(g, EncodeIndex(i), arrowByIndex) == Hit(arrowByIndex[i])
    ensures i !in arrowByIndex ==> ArrowAtCoordinate(g, EncodeIndex(i), arrowByIndex) == LookupFault(i)
  {
    DecodeEncode(i);
  }
}
