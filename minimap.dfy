/**
 * `MinimapFormViewModel`: the rectangle drawn on the minimap to show the
 * viewport. Map coordinates are scaled to minimap pixels by the minimap
 * image's size over the map's usable extent: the width in 32-unit cells
 * minus one cell across, and minus 128 units down.
 *
 * The observables are not modelled: each scaled value is a function of the
 * latest map size, minimap image and viewport.
 */
module Minimap {
  import opened Geometry
  import opened Integers

  /** The size of the minimap image. */
  datatype Size = Size(width: nat, height: nat)

  /** The extent of the map that the minimap covers across, in map units. */
  function UsableWidth(mapWidth: int): int {
    mapWidth * 32 - 32
  }

  /** The extent of the map that the minimap covers down, in map units. */
  function UsableHeight(mapHeight: int): int {
    mapHeight * 32 - 128
  }

  /** `x?.Width ?? 0`: a missing image counts as zero wide. */
  function ImageWidth(image: Option<Size>): nat {
    if image.Some? then image.value.width else 0
  }

  function ImageHeight(image: Option<Size>): nat {
    if image.Some? then image.value.height else 0
  }

  /**
   * `ScaleObsWidthToMinimap`: `v * imageWidth / usableWidth`, divided as C#
   * divides: the exact quotient rounded toward zero, for a usable width of
   * either sign. A map one cell wide gives a zero divisor, which the source
   * does not guard against.
   */
  function ScaleWidth(v: int, mapWidth: int, image: Option<Size>): (r: int)
    requires UsableWidth(mapWidth) != 0
    ensures UsableWidth(mapWidth) > 0 && v * ImageWidth(image) >= 0 ==>
      r * UsableWidth(mapWidth) <= v * ImageWidth(image) < r * UsableWidth(mapWidth) + UsableWidth(mapWidth)
    ensures UsableWidth(mapWidth) > 0 && v * ImageWidth(image) < 0 ==>
      r * UsableWidth(mapWidth) - UsableWidth(mapWidth) < v * ImageWidth(image) <= r * UsableWidth(mapWidth)
    ensures UsableWidth(mapWidth) < 0 && v * ImageWidth(image) >= 0 ==>
      r * UsableWidth(mapWidth) <= v * ImageWidth(image) < r * UsableWidth(mapWidth) - UsableWidth(mapWidth)
    ensures UsableWidth(mapWidth) < 0 && v * ImageWidth(image) < 0 ==>
      r * UsableWidth(mapWidth) + UsableWidth(mapWidth) < v * ImageWidth(image) <= r * UsableWidth(mapWidth)
  {
    TDivMod(v * ImageWidth(image), UsableWidth(mapWidth));
    TDiv(v * ImageWidth(image), UsableWidth(mapWidth))
  }

  /** `ScaleObsHeightToMinimap`: the same with the usable height, which is negative for maps one to three cells high; a map four cells high gives a zero divisor. */
  function ScaleHeight(v: int, mapHeight: int, image: Option<Size>): (r: int)
    requires UsableHeight(mapHeight) != 0
    ensures UsableHeight(mapHeight) > 0 && v * ImageHeight(image) >= 0 ==>
      r * UsableHeight(mapHeight) <= v * ImageHeight(image) < r * UsableHeight(mapHeight) + UsableHeight(mapHeight)
    ensures UsableHeight(mapHeight) > 0 && v * ImageHeight(image) < 0 ==>
      r * UsableHeight(mapHeight) - UsableHeight(mapHeight) < v * ImageHeight(image) <= r * UsableHeight(mapHeight)
    ensures UsableHeight(mapHeight) < 0 && v * ImageHeight(image) >= 0 ==>
      r * UsableHeight(mapHeight) <= v * ImageHeight(image) < r * UsableHeight(mapHeight) - UsableHeight(mapHeight)
    ensures UsableHeight(mapHeight) < 0 && v * ImageHeight(image) < 0 ==>
      r * UsableHeight(mapHeight) + UsableHeight(mapHeight) < v * ImageHeight(image) <= r * UsableHeight(mapHeight)
  {
    TDivMod(v * ImageHeight(image), UsableHeight(mapHeight));
    TDiv(v * ImageHeight(image), UsableHeight(mapHeight))
  }

  /** The viewport rectangle on the minimap: location and size each scaled by the rule for their axis. */
  function MinimapRect(viewportLocation: Point, viewportWidth: int, viewportHeight: int,
                       mapWidth: int, mapHeight: int, image: Option<Size>): (r: Rect)
    requires UsableWidth(mapWidth) != 0 && UsableHeight(mapHeight) != 0
    ensures r.x == ScaleWidth(viewportLocation.x, mapWidth, image) && r.width == ScaleWidth(viewportWidth, mapWidth, image)
    ensures r.y == ScaleHeight(viewportLocation.y, mapHeight, image) && r.height == ScaleHeight(viewportHeight, mapHeight, image)
  {
    Rect(ScaleWidth(viewportLocation.x, mapWidth, image), ScaleHeight(viewportLocation.y, mapHeight, image),
         ScaleWidth(viewportWidth, mapWidth, image), ScaleHeight(viewportHeight, mapHeight, image))
  }

  /** Without a minimap image everything scales to 0. */
  lemma NoImageScalesToZero(v: int, mapWidth: int, mapHeight: int)
    requires UsableWidth(mapWidth) != 0 && UsableHeight(mapHeight) != 0
    ensures ScaleWidth(v, mapWidth, None) == 0 && ScaleHeight(v, mapHeight, None) == 0
  {
    TDivUnique(0, Abs(UsableWidth(mapWidth)), 0, 0);
    TDivUnique(0, Abs(UsableHeight(mapHeight)), 0, 0);
    if UsableWidth(mapWidth) < 0 {
      assert TDiv(0, UsableWidth(mapWidth)) == -(0 / -UsableWidth(mapWidth));
    }
    if UsableHeight(mapHeight) < 0 {
      assert TDiv(0, UsableHeight(mapHeight)) == -(0 / -UsableHeight(mapHeight));
    }
  }

  /** The whole usable extent scales to the whole image. */
  lemma FullExtentScalesToImage(mapWidth: int, mapHeight: int, image: Option<Size>)
    requires UsableWidth(mapWidth) > 0 && UsableHeight(mapHeight) > 0
    ensures ScaleWidth(UsableWidth(mapWidth), mapWidth, image) == ImageWidth(image)
    ensures ScaleHeight(UsableHeight(mapHeight), mapHeight, image) == ImageHeight(image)
  {
    TDivUnique(UsableWidth(mapWidth) * ImageWidth(image), UsableWidth(mapWidth), ImageWidth(image), 0);
    TDivUnique(UsableHeight(mapHeight) * ImageHeight(image), UsableHeight(mapHeight), ImageHeight(image), 0);
  }

  /** Scaling preserves order: a point further right on the map is no further left on the minimap. */
  lemma ScaleWidthMonotone(v1: int, v2: int, mapWidth: int, image: Option<Size>)
    requires v1 <= v2 && UsableWidth(mapWidth) > 0
    ensures ScaleWidth(v1, mapWidth, image) <= ScaleWidth(v2, mapWidth, image)
  {
    MulMonotone(v1, v2, ImageWidth(image));
    TDivMonotone(v1 * ImageWidth(image), v2 * ImageWidth(image), UsableWidth(mapWidth));
  }

  /** Quotients of parts add up to at most the quotient of the whole. */
  lemma QuotientsAdd(a: nat, b: nat, d: int)
    requires d > 0
    ensures TDiv(a, d) + TDiv(b, d) <= TDiv(a + b, d)
  {
    TDivMod(a, d);
    TDivMod(b, d);
    TDivMod(a + b, d);
    var q := TDiv(a, d) + TDiv(b, d);
    var n := a + b;
    assert q * d == TDiv(a, d) * d + TDiv(b, d) * d;
    var p := TDiv(n, d);
    if p < q {
      MulLess(p, q, d);
    }
  }

  /**
   * Along one axis: a span `[pos, pos + len)` inside `[0, usable)` scales to
   * a span inside `[0, image)`.
   */
  lemma SpanInside(pos: int, len: int, usable: int, image: nat)
    requires usable > 0 && 0 <= pos && 0 <= len && pos + len <= usable
    ensures 0 <= TDiv(pos * image, usable) && 0 <= TDiv(len * image, usable)
    ensures TDiv(pos * image, usable) + TDiv(len * image, usable) <= image
  {
    MulMonotone(0, pos, image);
    MulMonotone(0, len, image);
    MulMonotone(pos + len, usable, image);
    QuotientsAdd(pos * image, len * image, usable);
    assert pos * image + len * image == (pos + len) * image;
    TDivMonotone((pos + len) * image, usable * image, usable);
    TDivUnique(usable * image, usable, image, 0);
    TDivMonotone(0, pos * image, usable);
    TDivMonotone(0, len * image, usable);
    TDivUnique(0, usable, 0, 0);
  }

  /**
   * A viewport that lies within the usable map is drawn as a rectangle that
   * lies within the minimap image.
   */
  lemma ViewportInsideMinimap(viewportLocation: Point, viewportWidth: int, viewportHeight: int,
                              mapWidth: int, mapHeight: int, image: Option<Size>)
    requires UsableWidth(mapWidth) > 0 && UsableHeight(mapHeight) > 0
    requires 0 <= viewportLocation.x && 0 <= viewportWidth && viewportLocation.x + viewportWidth <= UsableWidth(mapWidth)
    requires 0 <= viewportLocation.y && 0 <= viewportHeight && viewportLocation.y + viewportHeight <= UsableHeight(mapHeight)
    ensures var r := MinimapRect(viewportLocation, viewportWidth, viewportHeight, mapWidth, mapHeight, image);
      0 <= r.x && 0 <= r.width && r.x + r.width <= ImageWidth(image)
      && 0 <= r.y && 0 <= r.height && r.y + r.height <= ImageHeight(image)
  {
    SpanInside(viewportLocation.x, viewportWidth, UsableWidth(mapWidth), ImageWidth(image));
    SpanInside(viewportLocation.y, viewportHeight, UsableHeight(mapHeight), ImageHeight(image));
  }
}
