/** The SVG document and the read-back of the blur framebuffer (src/utils/svgGenerator.ts).
    `createSVGString` wraps the layers, in the order `layerOrder` lists them and separated by
    newlines, in an `<svg>` element of the given size; number formatting is a parameter
    `show`. `extractBlurTexture` turns the RGBA buffer read from WebGL (rows bottom-up) into a
    canvas image (rows top-down) by copying every row to its mirrored position. */
module SvgDocument {
  import EdgeRaster

  type Byte = EdgeRaster.Byte

  datatype Layer = Background | OutlinePaths

  const DefaultLayerOrder: seq<Layer> := [Background, OutlinePaths]

  /** `layers[layerKey]`. */
  function LayerContent(layer: Layer, background: string, outlinePaths: string): string
  {
    match layer
    case Background => background
    case OutlinePaths => outlinePaths
  }

  /** `layerOrder.map(layerKey => layers[layerKey])`. */
  function OrderedLayers(layerOrder: seq<Layer>, background: string, outlinePaths: string): (parts: seq<string>)
    ensures |parts| == |layerOrder|
  {
    seq(|layerOrder|, k requires 0 <= k < |layerOrder| => LayerContent(layerOrder[k], background, outlinePaths))
  }

  /** `parts.join(sep)`. */
  function Join(parts: seq<string>, sep: string): string
  {
    if parts == [] then ""
    else if |parts| == 1 then parts[0]
    else Join(parts[..|parts| - 1], sep) + sep + parts[|parts| - 1]
  }

  /** Where part k starts in `Join(parts, sep)`: after the earlier parts and one separator each. */
  function PartStart(parts: seq<string>, sep: string, k: nat): nat
    requires k <= |parts|
  {
    if k == 0 then 0 else PartStart(parts, sep, k - 1) + |parts[k - 1]| + |sep|
  }

  lemma {:induction false} PartStartPrefix(parts: seq<string>, sep: string, k: nat, n: nat)
    requires k <= n <= |parts|
    ensures PartStart(parts[..n], sep, k) == PartStart(parts, sep, k)
    decreases k
  {
    if k > 0 {
      PartStartPrefix(parts, sep, k - 1, n);
    }
  }

  lemma {:induction false} JoinLength(parts: seq<string>, sep: string)
    requires parts != []
    ensures |Join(parts, sep)| + |sep| == PartStart(parts, sep, |parts|)
    decreases |parts|
  {
    if |parts| > 1 {
      var n := |parts| - 1;
      JoinLength(parts[..n], sep);
      PartStartPrefix(parts, sep, n, n);
    }
  }

  /** Part k of a join sits at its own position, after the earlier parts and one separator
      each. */
  lemma {:induction false} JoinAt(parts: seq<string>, sep: string, k: nat)
    requires k < |parts|
    ensures PartStart(parts, sep, k) + |parts[k]| <= |Join(parts, sep)|
    ensures Join(parts, sep)[PartStart(parts, sep, k)..PartStart(parts, sep, k) + |parts[k]|] == parts[k]
    decreases |parts|
  {
    if |parts| > 1 {
      var n := |parts| - 1;
      var init := parts[..n];
      var j0 := Join(init, sep);
      assert Join(parts, sep) == j0 + sep + parts[n];
      if k == n {
        JoinLength(init, sep);
        PartStartPrefix(parts, sep, n, n);
      } else {
        JoinAt(init, sep, k);
        PartStartPrefix(parts, sep, k, n);
        assert init[k] == parts[k];
      }
    }
  }

  /** Neighbouring parts of a join are separated by exactly one separator. */
  lemma {:induction false} JoinSepAt(parts: seq<string>, sep: string, k: nat)
    requires k + 1 < |parts|
    ensures PartStart(parts, sep, k + 1) <= |Join(parts, sep)|
    ensures Join(parts, sep)[PartStart(parts, sep, k) + |parts[k]|..PartStart(parts, sep, k + 1)] == sep
    decreases |parts|
  {
    var n := |parts| - 1;
    var init := parts[..n];
    var j0 := Join(init, sep);
    assert Join(parts, sep) == j0 + sep + parts[n];
    if k + 1 == n {
      JoinLength(init, sep);
      PartStartPrefix(parts, sep, n, n);
    } else {
      JoinSepAt(init, sep, k);
      PartStartPrefix(parts, sep, k, n);
      PartStartPrefix(parts, sep, k + 1, n);
      assert init[k] == parts[k];
    }
  }

  /** The XML declaration and the opening tag with the size and the matching view box. */
  function Header(width: real, height: real, show: real -> string): string
  {
    "<?xml version=\"1.0\" encoding=\"UTF-8\"?>\n<svg width=\"" + show(width) + "\" height=\"" + show(height)
      + "\" xmlns=\"http://www.w3.org/2000/svg\" viewBox=\"0 0 " + show(width) + " " + show(height) + "\">"
  }

  const Footer: string := "\n</svg>"

  /** `createSVGString`: the document opens with the XML declaration and the `<svg>` tag of
      the given size and view box, then a newline, and ends with the closing tag; with no
      layers listed nothing stands between the two. */
  function CreateSvgString(width: real, height: real, background: string, outlinePaths: string,
                           layerOrder: seq<Layer>, show: real -> string): (doc: string)
    ensures |Header(width, height, show)| + 1 + |Footer| <= |doc|
    ensures doc[..|Header(width, height, show)| + 1] == Header(width, height, show) + "\n"
    ensures doc[|doc| - |Footer|..] == Footer
    ensures layerOrder == [] ==> doc == Header(width, height, show) + "\n" + Footer
  {
    DocumentFrame(Header(width, height, show), OrderedLayers(layerOrder, background, outlinePaths));
    Document(Header(width, height, show), OrderedLayers(layerOrder, background, outlinePaths))
  }

  /** A head line, the parts joined with newlines, and the closing tag. */
  function Document(head: string, parts: seq<string>): string
  {
    head + "\n" + Join(parts, "\n") + Footer
  }

  /** The head line opens the document and the closing tag ends it. */
  lemma DocumentFrame(head: string, parts: seq<string>)
    ensures |head| + 1 + |Footer| <= |Document(head, parts)|
    ensures Document(head, parts)[..|head| + 1] == head + "\n"
    ensures Document(head, parts)[|Document(head, parts)| - |Footer|..] == Footer
    ensures parts == [] ==> Document(head, parts) == head + "\n" + Footer
  {
    var line := head + "\n";
    assert Document(head, parts) == line + Join(parts, "\n") + Footer;
  }

  /** A piece of the middle string is found at the same place, shifted by the first string. */
  lemma MiddleSlice(a: string, b: string, c: string, i: nat, piece: string)
    requires i + |piece| <= |b| && b[i..i + |piece|] == piece
    ensures |a| + i + |piece| <= |a + b + c|
    ensures (a + b + c)[|a| + i..|a| + i + |piece|] == piece
  {
    assert (a + b + c)[|a| + i..|a| + i + |piece|] == b[i..i + |piece|];
  }

  /** Where the layer that `layerOrder[k]` names starts in the document. */
  function LayerStart(width: real, height: real, background: string, outlinePaths: string,
                      layerOrder: seq<Layer>, show: real -> string, k: nat): nat
    requires k <= |layerOrder|
  {
    |Header(width, height, show)| + 1 + PartStart(OrderedLayers(layerOrder, background, outlinePaths), "\n", k)
  }

  /** The layer that `layerOrder[k]` names sits in the document after the header and newline,
      the earlier layers and one newline each: layers appear exactly in the listed order, a
      repeated name repeats its layer, and a layer not listed does not appear. */
  lemma LayerInOrder(width: real, height: real, background: string, outlinePaths: string,
                     layerOrder: seq<Layer>, show: real -> string, k: nat)
    requires k < |layerOrder|
    ensures LayerStart(width, height, background, outlinePaths, layerOrder, show, k)
              + |LayerContent(layerOrder[k], background, outlinePaths)|
         <= |CreateSvgString(width, height, background, outlinePaths, layerOrder, show)|
    ensures CreateSvgString(width, height, background, outlinePaths, layerOrder, show)
              [LayerStart(width, height, background, outlinePaths, layerOrder, show, k)..
               LayerStart(width, height, background, outlinePaths, layerOrder, show, k)
                 + |LayerContent(layerOrder[k], background, outlinePaths)|]
         == LayerContent(layerOrder[k], background, outlinePaths)
  {
    PartInDocument(Header(width, height, show), OrderedLayers(layerOrder, background, outlinePaths), k);
  }

  /** Part k of the joined parts sits after the head line and the earlier parts. */
  lemma PartInDocument(head: string, parts: seq<string>, k: nat)
    requires k < |parts|
    ensures |head| + 1 + PartStart(parts, "\n", k) + |parts[k]| <= |Document(head, parts)|
    ensures Document(head, parts)[|head| + 1 + PartStart(parts, "\n", k)..|head| + 1 + PartStart(parts, "\n", k) + |parts[k]|]
         == parts[k]
  {
    var line := head + "\n";
    JoinAt(parts, "\n", k);
    MiddleSlice(line, Join(parts, "\n"), Footer, PartStart(parts, "\n", k), parts[k]);
  }

  /** With the default order the background comes first and the outline paths second. */
  lemma DefaultOrder(width: real, height: real, background: string, outlinePaths: string, show: real -> string)
    ensures CreateSvgString(width, height, background, outlinePaths, DefaultLayerOrder, show)
         == Header(width, height, show) + "\n" + background + "\n" + outlinePaths + Footer
  {
    var parts := OrderedLayers(DefaultLayerOrder, background, outlinePaths);
    assert parts == [background, outlinePaths];
    assert parts[..1] == [background];
    assert Join(parts, "\n") == background + "\n" + outlinePaths;
  }

  // ---------------------------------------------------------------- row flip

  /** The position that byte i of a buffer of `rows` rows of `stride` bytes moves to when the
      rows are put in reverse order: same column, mirrored row. */
  function Mirror(i: nat, stride: nat, rows: nat): int
    requires stride > 0
  {
    (rows - 1 - i / stride) * stride + i % stride
  }

  lemma DivModRow(y: nat, x: nat, stride: nat)
    requires x < stride
    ensures (y * stride + x) / stride == y && (y * stride + x) % stride == x
  {
    var i := y * stride + x;
    var q := i / stride;
    var r := i % stride;
    assert q * stride + r == y * stride + x;
    if q < y {
      MulLess(q, y, stride);
    } else if q > y {
      MulLess(y, q, stride);
    }
  }

  lemma MulLess(a: nat, b: nat, stride: nat)
    requires a < b
    ensures a * stride + stride <= b * stride
  {
    var c: nat := b - a - 1;
    assert b * stride == a * stride + stride + c * stride;
  }

  lemma RowInBuffer(y: nat, x: nat, stride: nat, rows: nat)
    requires y < rows && x < stride
    ensures y * stride + x < rows * stride
  {
    MulLess(y, rows, stride);
  }

  /** Mirroring maps the buffer onto itself and undoes itself, so it is a bijection: every
      byte of the flipped buffer is written from exactly one source byte. */
  lemma MirrorInvolution(i: nat, stride: nat, rows: nat)
    requires stride > 0 && i < rows * stride
    ensures 0 <= Mirror(i, stride, rows) < rows * stride
    ensures Mirror(Mirror(i, stride, rows), stride, rows) == i
  {
    var y := i / stride;
    var x := i % stride;
    assert i == y * stride + x;
    if y >= rows {
      MulLess(rows, y + 1, stride);
      assert false;
    }
    var m := Mirror(i, stride, rows);
    assert m == (rows - 1 - y) * stride + x;
    RowInBuffer(rows - 1 - y, x, stride, rows);
    DivModRow(rows - 1 - y, x, stride);
  }

  /** The flipped buffer: byte i comes from the mirrored position. */
  function Flipped(pixels: seq<Byte>, stride: nat, rows: nat): (flipped: seq<Byte>)
    requires |pixels| == rows * stride
    ensures |flipped| == |pixels|
  {
    seq(|pixels|, i requires 0 <= i < |pixels| =>
      MirrorInvolution(i, stride, rows);
      pixels[Mirror(i, stride, rows)])
  }

  /** Row y of the flipped buffer is row `rows - 1 - y` of the original: the byte at
      `y * stride + x` comes from `(rows - 1 - y) * stride + x`. */
  lemma FlippedRow(pixels: seq<Byte>, stride: nat, rows: nat, y: nat, x: nat, dest: nat, source: nat)
    requires |pixels| == rows * stride && y < rows && x < stride
    requires dest == y * stride + x && source == (rows - 1 - y) * stride + x
    ensures dest < |pixels| && source < |pixels|
    ensures Flipped(pixels, stride, rows)[dest] == pixels[source]
  {
    RowInBuffer(y, x, stride, rows);
    RowInBuffer(rows - 1 - y, x, stride, rows);
    MirrorOfRow(y, x, stride, rows);
  }

  /** Flipping twice gives back the buffer read from WebGL. */
  lemma FlipTwice(pixels: seq<Byte>, stride: nat, rows: nat)
    requires |pixels| == rows * stride
    ensures Flipped(Flipped(pixels, stride, rows), stride, rows) == pixels
  {
    var once := Flipped(pixels, stride, rows);
    forall i | 0 <= i < |pixels|
      ensures Flipped(once, stride, rows)[i] == pixels[i]
    {
      MirrorInvolution(i, stride, rows);
    }
  }

  /** The first n bytes of `a` hold their mirrored source bytes. */
  ghost predicate FlippedUpTo(a: array<Byte>, pixels: seq<Byte>, stride: nat, rows: nat, n: nat)
    reads a
  {
    && n <= a.Length
    && forall i :: 0 <= i < n ==> stride > 0 && 0 <= Mirror(i, stride, rows) < |pixels| && a[i] == pixels[Mirror(i, stride, rows)]
  }

  /** Byte x of row y is the byte that mirroring brings from row `rows - 1 - y`. */
  lemma MirrorOfRow(y: nat, x: nat, stride: nat, rows: nat)
    requires y < rows && x < stride
    ensures Mirror(y * stride + x, stride, rows) == (rows - 1 - y) * stride + x
  {
    DivModRow(y, x, stride);
  }

  /** The inner loop: row y of `a` receives row `rows - 1 - y` of the pixels. */
  method CopyRow(a: array<Byte>, pixels: seq<Byte>, stride: nat, rows: nat, y: nat)
    requires y < rows && a.Length == |pixels| == rows * stride
    requires FlippedUpTo(a, pixels, stride, rows, y * stride)
    modifies a
    ensures FlippedUpTo(a, pixels, stride, rows, (y + 1) * stride)
    ensures forall i :: (y + 1) * stride <= i < a.Length ==> a[i] == old(a[i])
  {
    var sourceRow := (rows - 1 - y) * stride;
    var destRow := y * stride;
    MulLess(y, rows, stride);
    MulLess(rows - 1 - y, rows, stride);
    for x := 0 to stride
      invariant FlippedUpTo(a, pixels, stride, rows, destRow + x)
      invariant forall i :: destRow + stride <= i < a.Length ==> a[i] == old(a[i])
    {
      MirrorOfRow(y, x, stride, rows);
      a[destRow + x] := pixels[sourceRow + x];
    }
    assert destRow + stride == (y + 1) * stride;
  }

  /** The row-flip loop of `extractBlurTexture`: `width * height` RGBA pixels, rows copied to
      their mirrored position byte by byte. */
  method FlipRows(pixels: seq<Byte>, width: nat, height: nat) returns (flipped: seq<Byte>)
    requires |pixels| == width * height * 4
    ensures flipped == Flipped(pixels, width * 4, height)
  {
    var stride := width * 4;
    assert |pixels| == height * stride;
    var a := new Byte[width * height * 4](_ => 0);
    for y := 0 to height
      invariant FlippedUpTo(a, pixels, stride, height, y * stride)
    {
      CopyRow(a, pixels, stride, height, y);
    }
    flipped := a[..];
  }
}
