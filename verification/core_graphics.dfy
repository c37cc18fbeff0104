/** The framebuffer: a row-major buffer of pixels that is written in place. */
module CoreGraphics {

  /** A pixel, as the number that its 32 bits stand for. */
  type Color = nat

  ghost predicate InBox(x: nat, y: nat, x0: nat, y0: nat, w: nat, h: nat) {
    x0 <= x < x0 + w && y0 <= y < y0 + h
  }

  /** Two positions of a row-major buffer have the same offset only if they are the same. */
  lemma SameOffset(x: nat, y: nat, u: nat, v: nat, scan: nat)
    requires x < scan && u < scan
    ensures y * scan + x == v * scan + u <==> x == u && y == v
  {
    if y < v {
      assert (y + 1) * scan <= v * scan;
    } else if v < y {
      assert (v + 1) * scan <= y * scan;
    }
  }

  lemma OffsetInside(x: nat, y: nat, scan: nat, height: nat)
    requires x < scan && y < height
    ensures 0 <= y * scan + x < scan * height
  {
    assert (y + 1) * scan <= height * scan;
  }

  class Framebuffer {
    const buffer: array<Color>
    const width: nat
    const height: nat
    const scanlineLength: nat

    ghost predicate Valid() {
      width <= scanlineLength && buffer.Length == scanlineLength * height
    }

    constructor (buffer: array<Color>, width: nat, height: nat, scanlineLength: nat)
      requires width <= scanlineLength && buffer.Length == scanlineLength * height
      ensures Valid() && this.buffer == buffer && this.width == width && this.height == height
      ensures this.scanlineLength == scanlineLength
    {
      this.buffer, this.width, this.height, this.scanlineLength := buffer, width, height, scanlineLength;
    }

    ghost predicate Within(x: nat, y: nat) {
      x < scanlineLength && y < height
    }

    function Get(x: nat, y: nat): Color
      requires Valid() && Within(x, y)
      reads buffer
    {
      OffsetInside(x, y, scanlineLength, height);
      buffer[y * scanlineLength + x]
    }

    /** Where a pixel lies in memory. */
    lemma GetIs(x: nat, y: nat)
      requires Valid() && Within(x, y)
      ensures 0 <= y * scanlineLength + x < buffer.Length && Get(x, y) == buffer[y * scanlineLength + x]
    {
      OffsetInside(x, y, scanlineLength, height);
    }

    /** Writes one pixel; every other pixel stays. */
    method Set(x: nat, y: nat, color: Color)
      requires Valid() && Within(x, y)
      modifies buffer
      ensures 0 <= y * scanlineLength + x < buffer.Length && buffer[..] == old(buffer[..])[y * scanlineLength + x := color]
      ensures forall u: nat, v: nat | Within(u, v) :: Get(u, v) == if u == x && v == y then color else old(Get(u, v))
    {
      OffsetInside(x, y, scanlineLength, height);
      buffer[y * scanlineLength + x] := color;
      forall u: nat, v: nat | Within(u, v)
        ensures Get(u, v) == if u == x && v == y then color else old(Get(u, v))
      {
        SameOffset(x, y, u, v, scanlineLength);
        OffsetInside(u, v, scanlineLength, height);
      }
    }

    method Clear()
      requires Valid()
      modifies buffer
      ensures forall u: nat, v: nat | Within(u, v) :: Get(u, v) == 0
    {
      for i := 0 to buffer.Length
        invariant forall k | 0 <= k < i :: buffer[k] == 0
      {
        buffer[i] := 0;
      }
      forall u: nat, v: nat | Within(u, v)
        ensures Get(u, v) == 0
      {
        OffsetInside(u, v, scanlineLength, height);
      }
    }

    /** Paints exactly the pixels of the box. */
    method FillBox(x0: nat, y0: nat, w: nat, h: nat, color: Color)
      requires Valid() && x0 + w <= scanlineLength && y0 + h <= height
      modifies buffer
      ensures forall u: nat, v: nat | Within(u, v) ::
        Get(u, v) == if InBox(u, v, x0, y0, w, h) then color else old(Get(u, v))
    {
      for y := y0 to y0 + h
        invariant forall u: nat, v: nat | Within(u, v) ::
          Get(u, v) == if InBox(u, v, x0, y0, w, y - y0) then color else old(Get(u, v))
      {
        for x := x0 to x0 + w
          invariant forall u: nat, v: nat | Within(u, v) ::
            Get(u, v) == if InBox(u, v, x0, y0, w, y - y0) || InBox(u, v, x0, y, x - x0, 1) then color else old(Get(u, v))
        {
          Set(x, y, color);
        }
      }
    }
  }
}
