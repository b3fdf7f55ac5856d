/** The edge raster of the line/circle detector page (src/app/lines/page.tsx): the binary
    edge image made from the GPU read-back, the edge-pixel count and the row-major list of
    edge pixels that the circle detector votes from. Pixels are stored row by row, pixel
    (x, y) at index y * width + x. */
module EdgeRaster {

  /** An unsigned byte: the element type of `Uint8Array`. */
  type Byte = b: int | 0 <= b < 256

  datatype Pixel = Pixel(x: int, y: int)

  lemma RowFits(width: nat, height: nat, y: nat)
    requires y < height
    ensures y * width + width == (y + 1) * width <= width * height
  {
    assert (y + 1) * width <= height * width;
  }

  /** Binarisation of the RGBA read-back of the edge shader: a pixel is an edge (255) exactly
      when its red byte is positive, and background (0) otherwise. */
  method BinarizeEdges(pixels: seq<Byte>, size: nat) returns (edges: seq<Byte>)
    requires |pixels| == 4 * size
    ensures |edges| == size
    ensures forall i :: 0 <= i < size ==> (edges[i] == 255 <==> pixels[4 * i] > 0)
    ensures forall i :: 0 <= i < size ==> (edges[i] == 0 <==> pixels[4 * i] == 0)
  {
    var a := new Byte[size](_ => 0);
    for i := 0 to size
      invariant forall k :: 0 <= k < i ==> a[k] == (if pixels[4 * k] > 0 then 255 else 0)
    {
      a[i] := if pixels[i * 4] > 0 then 255 else 0;
    }
    edges := a[..];
  }

  /** The number of positive entries of `s`. */
  function EdgeCount(s: seq<Byte>): nat
  {
    if s == [] then 0 else EdgeCount(s[..|s| - 1]) + (if s[|s| - 1] > 0 then 1 else 0)
  }

  lemma {:induction false} EdgeCountBounded(s: seq<Byte>)
    ensures EdgeCount(s) <= |s|
    ensures EdgeCount(s) == 0 <==> forall i :: 0 <= i < |s| ==> s[i] == 0
  {
    if s != [] {
      EdgeCountBounded(s[..|s| - 1]);
      assert forall i :: 0 <= i < |s| - 1 ==> s[..|s| - 1][i] == s[i];
    }
  }

  /** The edge-pixel count of `detectAll`: one pass over the raster counting positive bytes. */
  method CountEdges(edges: seq<Byte>) returns (count: nat)
    ensures count == EdgeCount(edges)
    ensures count <= |edges|
  {
    count := 0;
    for i := 0 to |edges|
      invariant count == EdgeCount(edges[..i])
    {
      assert edges[..i + 1][..i] == edges[..i];
      if edges[i] > 0 {
        count := count + 1;
      }
    }
    assert edges[..|edges|] == edges;
    EdgeCountBounded(edges);
  }

  /** The edge pixels of row `y` with column below `x`, left to right. */
  function RowEdgePixels(edges: seq<Byte>, width: nat, y: nat, x: nat): seq<Pixel>
    requires x <= width && y * width + width <= |edges|
    decreases x
  {
    if x == 0 then []
    else RowEdgePixels(edges, width, y, x - 1) + (if edges[y * width + x - 1] > 0 then [Pixel(x - 1, y)] else [])
  }

  /** The edge pixels of the rows above `y`, in row-major order. */
  function EdgePixelsBefore(edges: seq<Byte>, width: nat, y: nat): seq<Pixel>
    requires y * width <= |edges|
    decreases y
  {
    if y == 0 then []
    else
      assert (y - 1) * width + width == y * width;
      EdgePixelsBefore(edges, width, y - 1) + RowEdgePixels(edges, width, y - 1, width)
  }

  /** The edge-pixel list of the whole raster. */
  function EdgePixels(edges: seq<Byte>, width: nat, height: nat): seq<Pixel>
    requires |edges| == width * height
  {
    EdgePixelsBefore(edges, width, height)
  }

  /** Strictly earlier in row-major order. */
  predicate RowMajorBefore(p: Pixel, q: Pixel)
  {
    p.y < q.y || (p.y == q.y && p.x < q.x)
  }

  /** The pixel is inside the raster and marked as an edge. */
  predicate IsEdgePixel(edges: seq<Byte>, width: nat, height: nat, p: Pixel)
    requires |edges| == width * height
  {
    0 <= p.x < width && 0 <= p.y < height &&
    (RowFits(width, height, p.y); edges[p.y * width + p.x] > 0)
  }

  /** Pre-computing edge pixels: the nested row/column scan that pushes every edge pixel. */
  method CollectEdgePixels(edges: seq<Byte>, width: nat, height: nat) returns (pixels: seq<Pixel>)
    requires |edges| == width * height
    ensures pixels == EdgePixels(edges, width, height)
  {
    pixels := [];
    var y := 0;
    while y < height
      invariant 0 <= y <= height
      invariant y * width <= |edges|
      invariant pixels == EdgePixelsBefore(edges, width, y)
    {
      RowFits(width, height, y);
      var x := 0;
      while x < width
        invariant 0 <= x <= width
        invariant pixels == EdgePixelsBefore(edges, width, y) + RowEdgePixels(edges, width, y, x)
      {
        if edges[y * width + x] > 0 {
          pixels := pixels + [Pixel(x, y)];
        }
        x := x + 1;
      }
      y := y + 1;
    }
  }

  lemma {:induction false} RowEdgePixelsFacts(edges: seq<Byte>, width: nat, height: nat, y: nat, x: nat)
    requires |edges| == width * height && y < height && x <= width
    ensures y * width + width <= |edges|
    ensures forall k :: 0 <= k < |RowEdgePixels(edges, width, y, x)| ==>
      var p := RowEdgePixels(edges, width, y, x)[k]; p.y == y && p.x < x && IsEdgePixel(edges, width, height, p)
    ensures forall i, j :: 0 <= i < j < |RowEdgePixels(edges, width, y, x)| ==>
      RowEdgePixels(edges, width, y, x)[i].x < RowEdgePixels(edges, width, y, x)[j].x
    ensures forall c :: 0 <= c < x && IsEdgePixel(edges, width, height, Pixel(c, y)) ==>
      Pixel(c, y) in RowEdgePixels(edges, width, y, x)
    decreases x
  {
    RowFits(width, height, y);
    if x > 0 {
      RowEdgePixelsFacts(edges, width, height, y, x - 1);
    }
  }

  lemma {:induction false} EdgePixelsBeforeSound(edges: seq<Byte>, width: nat, height: nat, y: nat)
    requires |edges| == width * height && y <= height
    ensures y * width <= |edges|
    ensures forall k :: 0 <= k < |EdgePixelsBefore(edges, width, y)| ==>
      EdgePixelsBefore(edges, width, y)[k].y < y && IsEdgePixel(edges, width, height, EdgePixelsBefore(edges, width, y)[k])
    decreases y
  {
    if y > 0 {
      RowFits(width, height, y - 1);
      EdgePixelsBeforeSound(edges, width, height, y - 1);
      RowEdgePixelsFacts(edges, width, height, y - 1, width);
      var prev := EdgePixelsBefore(edges, width, y - 1);
      var row := RowEdgePixels(edges, width, y - 1, width);
      var ps: seq<Pixel> := prev + row;
      assert EdgePixelsBefore(edges, width, y) == ps;
      forall k | 0 <= k < |ps|
        ensures ps[k].y < y && IsEdgePixel(edges, width, height, ps[k])
      {
        if k >= |prev| {
          assert ps[k] == row[k - |prev|];
        } else {
          assert ps[k] == prev[k];
        }
      }
    } else {
      assert 0 * width == 0;
    }
  }

  lemma {:induction false} EdgePixelsBeforeOrdered(edges: seq<Byte>, width: nat, height: nat, y: nat)
    requires |edges| == width * height && y <= height
    ensures y * width <= |edges|
    ensures forall i, j :: 0 <= i < j < |EdgePixelsBefore(edges, width, y)| ==>
      RowMajorBefore(EdgePixelsBefore(edges, width, y)[i], EdgePixelsBefore(edges, width, y)[j])
    decreases y
  {
    if y > 0 {
      RowFits(width, height, y - 1);
      EdgePixelsBeforeOrdered(edges, width, height, y - 1);
      EdgePixelsBeforeSound(edges, width, height, y - 1);
      RowEdgePixelsFacts(edges, width, height, y - 1, width);
      var prev := EdgePixelsBefore(edges, width, y - 1);
      var row := RowEdgePixels(edges, width, y - 1, width);
      var ps := prev + row;
      assert EdgePixelsBefore(edges, width, y) == ps;
      forall i, j | 0 <= i < j < |ps|
        ensures RowMajorBefore(ps[i], ps[j])
      {
        if j < |prev| {
          assert ps[i] == prev[i] && ps[j] == prev[j];
        } else if i < |prev| {
          assert ps[i] == prev[i] && ps[j] == row[j - |prev|];
        } else {
          assert ps[i] == row[i - |prev|] && ps[j] == row[j - |prev|];
        }
      }
    } else {
      assert 0 * width == 0;
    }
  }

  lemma {:induction false} EdgePixelsBeforeComplete(edges: seq<Byte>, width: nat, height: nat, y: nat)
    requires |edges| == width * height && y <= height
    ensures y * width <= |edges|
    ensures forall p: Pixel :: p.y < y && IsEdgePixel(edges, width, height, p) ==> p in EdgePixelsBefore(edges, width, y)
    decreases y
  {
    if y > 0 {
      RowFits(width, height, y - 1);
      EdgePixelsBeforeComplete(edges, width, height, y - 1);
      RowEdgePixelsFacts(edges, width, height, y - 1, width);
      var prev := EdgePixelsBefore(edges, width, y - 1);
      var row := RowEdgePixels(edges, width, y - 1, width);
      assert EdgePixelsBefore(edges, width, y) == prev + row;
      forall p: Pixel | p.y < y && IsEdgePixel(edges, width, height, p)
        ensures p in prev + row
      {
        if p.y < y - 1 {
          assert p in prev;
        } else {
          assert p == Pixel(p.x, y - 1);
          assert p in row;
        }
      }
    } else {
      assert 0 * width == 0;
    }
  }

  /** The edge-pixel list holds exactly the in-bounds edge pixels, each once, in row-major
      order. */
  lemma EdgePixelsExact(edges: seq<Byte>, width: nat, height: nat)
    requires |edges| == width * height
    ensures var ps := EdgePixels(edges, width, height);
      && (forall k :: 0 <= k < |ps| ==> IsEdgePixel(edges, width, height, ps[k]))
      && (forall p: Pixel :: IsEdgePixel(edges, width, height, p) ==> p in ps)
      && (forall i, j :: 0 <= i < j < |ps| ==> RowMajorBefore(ps[i], ps[j]))
  {
    EdgePixelsBeforeSound(edges, width, height, height);
    EdgePixelsBeforeOrdered(edges, width, height, height);
    EdgePixelsBeforeComplete(edges, width, height, height);
  }

  lemma {:induction false} RowEdgePixelsCount(edges: seq<Byte>, width: nat, height: nat, y: nat, x: nat)
    requires |edges| == width * height && y < height && x <= width
    ensures y * width + width <= |edges|
    ensures EdgeCount(edges[..y * width + x]) == EdgeCount(edges[..y * width]) + |RowEdgePixels(edges, width, y, x)|
    decreases x
  {
    RowFits(width, height, y);
    if x > 0 {
      RowEdgePixelsCount(edges, width, height, y, x - 1);
      var n := y * width + x;
      assert edges[..n][..n - 1] == edges[..n - 1];
    }
  }

  lemma {:induction false} EdgePixelsBeforeCount(edges: seq<Byte>, width: nat, height: nat, y: nat)
    requires |edges| == width * height && y <= height
    ensures y * width <= |edges|
    ensures |EdgePixelsBefore(edges, width, y)| == EdgeCount(edges[..y * width])
    decreases y
  {
    if y > 0 {
      RowFits(width, height, y - 1);
      EdgePixelsBeforeCount(edges, width, height, y - 1);
      RowEdgePixelsCount(edges, width, height, y - 1, width);
    } else {
      assert 0 * width == 0;
    }
  }

  /** The circle detector votes from exactly as many pixels as `detectAll` counts. */
  lemma EdgePixelsCount(edges: seq<Byte>, width: nat, height: nat)
    requires |edges| == width * height
    ensures |EdgePixels(edges, width, height)| == EdgeCount(edges)
  {
    EdgePixelsBeforeCount(edges, width, height, height);
    assert edges[..height * width] == edges;
  }
}
