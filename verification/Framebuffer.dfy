/** The double-buffered framebuffer: drawing goes to the back buffer, and one dirty rectangle says
    where the visible front buffer may be behind. */
module Framebuffer {
  import opened Common

  type Pixel = nat

  /** A half-open rectangle. */
  datatype Rect = Rect(minX: nat, minY: nat, maxX: nat, maxY: nat)

  predicate In(r: Rect, y: int, x: int) {
    r.minY <= y < r.maxY && r.minX <= x < r.maxX
  }

  /** The part of a rectangle that is on the screen. */
  function Clip(x: nat, y: nat, w: nat, h: nat, width: nat, height: nat): Rect {
    Rect(x, y, Min(x + w, width), Min(y + h, height))
  }

  function Join(a: Rect, b: Rect): Rect {
    Rect(Min(a.minX, b.minX), Min(a.minY, b.minY), Max(a.maxX, b.maxX), Max(a.maxY, b.maxY))
  }

  /** How much of a copy fits at both ends. */
  function Fit(src: nat, dst: nat, n: nat, limit: nat): nat {
    if src >= limit || dst >= limit then 0 else Min(n, Min(limit - src, limit - dst))
  }

  class Screen {
    const width: nat
    const height: nat
    const front: array2<Pixel>
    const back: array2<Pixel>
    var dirty: bool
    var area: Rect

    ghost predicate Shape()
      reads this
    {
      && width > 0 && height > 0 && front != back
      && front.Length0 == height && front.Length1 == width && back.Length0 == height && back.Length1 == width
      && (dirty ==> area.minX < area.maxX <= width && area.minY < area.maxY <= height)
    }

    predicate Stale(y: int, x: int)
      reads this
    {
      dirty && In(area, y, x)
    }

    /** Outside the dirty rectangle the two buffers agree. */
    ghost predicate Agree()
      requires Shape()
      reads this, front, back
    {
      forall y, x :: 0 <= y < height && 0 <= x < width && !Stale(y, x) ==> front[y, x] == back[y, x]
    }

    ghost predicate Valid()
      reads this, front, back
    {
      Shape() && Agree()
    }

    /** The front buffer shows what the hardware left there; after the start both are black. */
    constructor (width: nat, height: nat, front: array2<Pixel>, black: Pixel)
      requires width > 0 && height > 0 && front.Length0 == height && front.Length1 == width
      modifies front
      ensures this.width == width && this.height == height && this.front == front && fresh(back)
      ensures Valid() && !dirty && forall y, x :: 0 <= y < height && 0 <= x < width ==> front[y, x] == black && back[y, x] == black
    {
      this.width, this.height, this.front := width, height, front;
      back := new Pixel[height, width];
      dirty, area := false, Rect(0, 0, 0, 0);
      new;
      Clear(black);
      Present();
    }

    method MarkDirty(x: nat, y: nat, w: nat, h: nat)
      requires Shape()
      modifies this
      ensures Shape()
      ensures var r := Clip(x, y, w, h, width, height);
              if r.minX < r.maxX && r.minY < r.maxY then dirty && area == (if old(dirty) then Join(old(area), r) else r)
              else dirty == old(dirty) && area == old(area)
      ensures forall py, px :: Stale(py, px) <== old(Stale(py, px)) || In(Clip(x, y, w, h, width, height), py, px)
    {
      if w == 0 || h == 0 { return; }
      if x >= width || y >= height { return; }
      var r := Clip(x, y, w, h, width, height);
      if r.maxX <= x || r.maxY <= y { return; }
      if !dirty {
        dirty, area := true, r;
      } else {
        area := Join(area, r);
      }
    }

    method PutPixel(x: nat, y: nat, p: Pixel)
      requires Valid()
      modifies this, back
      ensures Valid()
      ensures forall py, px :: 0 <= py < height && 0 <= px < width ==>
                back[py, px] == if py == y && px == x then p else old(back[py, px])
    {
      hide Join;
      if x >= width || y >= height { return; }
      back[y, x] := p;
      MarkDirty(x, y, 1, 1);
    }

    method Clear(p: Pixel)
      requires Shape()
      modifies this, back
      ensures Valid() && forall y, x :: 0 <= y < height && 0 <= x < width ==> back[y, x] == p
    {
      hide Join;
      forall y, x | 0 <= y < height && 0 <= x < width { back[y, x] := p; }
      MarkDirty(0, 0, width, height);
    }

    method DrawRect(x: nat, y: nat, w: nat, h: nat, p: Pixel)
      requires Valid()
      modifies this, back
      ensures Valid()
      ensures forall py, px :: 0 <= py < height && 0 <= px < width ==>
                back[py, px] == if y <= py < y + h && x <= px < x + w then p else old(back[py, px])
    {
      hide Join;
      if w == 0 || h == 0 { return; }
      if x >= width || y >= height { return; }
      var endX, endY := Min(x + w, width), Min(y + h, height);
      for row := y to endY
        invariant unchanged(this)
        invariant forall py, px :: 0 <= py < height && 0 <= px < width ==>
                    back[py, px] == if y <= py < row && x <= px < endX then p else old(back[py, px])
      {
        forall px | x <= px < endX { back[row, px] := p; }
      }
      MarkDirty(x, y, endX - x, endY - y);
    }

    /** `ptr::copy` of one row piece; source and target may overlap. */
    method CopyRow(sy: nat, sx: nat, dy: nat, dx: nat, w: nat)
      requires Shape() && sy < height && dy < height && sx + w <= width && dx + w <= width
      modifies back
      ensures forall y, x :: 0 <= y < height && 0 <= x < width ==>
                back[y, x] == if y == dy && dx <= x < dx + w then old(back[sy, x - dx + sx]) else old(back[y, x])
    {
      forall x | dx <= x < dx + w { back[dy, x] := back[sy, x - dx + sx]; }
    }

    /** A copy that works as if all pixels moved at once, however source and target overlap. */
    method CopyRect(sx: nat, sy: nat, dx: nat, dy: nat, w: nat, h: nat)
      requires Valid()
      modifies this, back
      ensures Valid()
      ensures forall y, x :: 0 <= y < height && 0 <= x < width ==>
                back[y, x] ==
                if dy <= y < dy + Fit(sy, dy, h, height) && dx <= x < dx + Fit(sx, dx, w, width)
                then old(back[y - dy + sy, x - dx + sx]) else old(back[y, x])
    {
      hide Join;
      if w == 0 || h == 0 { return; }
      if sx >= width || sy >= height || dx >= width || dy >= height { return; }
      var cw, ch := Min(w, Min(width - sx, width - dx)), Min(h, Min(height - sy, height - dy));
      if dy > sy {
        var row := ch;
        while row > 0
          invariant row <= ch && unchanged(this)
          invariant forall y, x :: 0 <= y < height && 0 <= x < width ==>
                      back[y, x] ==
                      if dy + row <= y < dy + ch && dx <= x < dx + cw then old(back[y - dy + sy, x - dx + sx]) else old(back[y, x])
        {
          row := row - 1;
          CopyRow(sy + row, sx, dy + row, dx, cw);
        }
      } else {
        for row := 0 to ch
          invariant unchanged(this)
          invariant forall y, x :: 0 <= y < height && 0 <= x < width ==>
                      back[y, x] ==
                      if dy <= y < dy + row && dx <= x < dx + cw then old(back[y - dy + sy, x - dx + sx]) else old(back[y, x])
        {
          CopyRow(sy + row, sx, dy + row, dx, cw);
        }
      }
      MarkDirty(dx, dy, cw, ch);
    }

    method ScrollUp(n: nat, p: Pixel)
      requires Valid()
      modifies this, back
      ensures Valid()
      ensures forall y, x :: 0 <= y < height && 0 <= x < width ==>
                back[y, x] == if y + n < height then old(back[y + n, x]) else p
    {
      if n == 0 { return; }
      if n >= height {
        Clear(p);
        return;
      }
      CopyRect(0, n, 0, 0, width, height - n);
      DrawRect(0, height - n, width, n, p);
    }

    method ScrollDown(n: nat, p: Pixel)
      requires Valid()
      modifies this, back
      ensures Valid()
      ensures forall y, x :: 0 <= y < height && 0 <= x < width ==>
                back[y, x] == if y < n then p else old(back[y - n, x])
    {
      if n == 0 { return; }
      if n >= height {
        Clear(p);
        return;
      }
      CopyRect(0, 0, 0, n, width, height - n);
      DrawRect(0, 0, width, n, p);
    }

    /** Copies the dirty rectangle out; afterwards the buffers agree everywhere. */
    method Present()
      requires Valid()
      modifies this, front
      ensures Valid() && !dirty
      ensures forall y, x :: 0 <= y < height && 0 <= x < width ==> front[y, x] == back[y, x] == old(back[y, x])
    {
      if !dirty { return; }
      dirty := false;
      for y := area.minY to area.maxY
        invariant dirty == false && area == old(area)
        invariant forall py, px :: 0 <= py < height && 0 <= px < width ==>
                    front[py, px] == if area.minY <= py < y && area.minX <= px < area.maxX then back[py, px] else old(front[py, px])
      {
        forall x | area.minX <= x < area.maxX { front[y, x] := back[y, x]; }
      }
    }
  }
}
