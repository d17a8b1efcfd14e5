/**
 * `exportDecalTexture` (src/exportDecalTexture.ts): the texture bake that
 * draws the selected mesh in its own UV space and keeps only the fragments
 * that fall inside the overlay rectangle on screen.
 *
 * The shader arithmetic is modelled on reals at a single vertex or fragment;
 * the GPU render, the texture loader and `canvas.toBlob` are parameters.
 */
module Decal {
  import opened Wrappers
  import opened Viewport
  import Overlay

  /** A `vec2`. */
  datatype Vec2 = Vec2(x: real, y: real)

  /** A `vec4`: `decalRect` packs two corners as `(x0, y0, x1, y1)` in `xyzw`. */
  datatype Vec4 = Vec4(x: real, y: real, z: real, w: real)

  /** `a` lies between the two ends, in either order. */
  predicate Between(a: real, e1: real, e2: real) {
    (e1 <= a <= e2) || (e2 <= a <= e1)
  }

  /** `[0, 1]²`. */
  predicate InUnitSquare(p: Vec2) {
    0.0 <= p.x <= 1.0 && 0.0 <= p.y <= 1.0
  }

  /** `[-1, 1]²`, the clip-space square. */
  predicate InClipSquare(p: Vec2) {
    -1.0 <= p.x <= 1.0 && -1.0 <= p.y <= 1.0
  }

  // ------------------------------------------------------------- decal rect

  /**
   * `v4DecalRect`: the overlay rectangle in normalised screen coordinates with
   * the origin at the bottom left, from a viewport of `viewW × viewH` CSS pixels.
   */
  function DecalRect(r: Overlay.Rect, viewW: real, viewH: real): (d: Vec4)
    requires viewW > 0.0 && viewH > 0.0
    ensures d.x * viewW == r.x && d.z * viewW == r.x + r.w
    ensures (1.0 - d.y) * viewH == r.y && (1.0 - d.w) * viewH == r.y + r.h
  {
    Vec4(r.x / viewW, 1.0 - r.y / viewH, (r.w + r.x) / viewW, 1.0 - (r.h + r.y) / viewH)
  }

  // ---------------------------------------------------------- vertex shader

  /** The vertex placement: mesh UV `(u, v)` goes to clip position `(2u - 1, -(2v - 1))`. */
  function UvToClip(uv: Vec2): (c: Vec2)
    ensures ClipToUv(c) == uv
  {
    Vec2(uv.x * 2.0 - 1.0, -(uv.y * 2.0 - 1.0))
  }

  /** The inverse placement, from clip position back to mesh UV. */
  function ClipToUv(c: Vec2): (uv: Vec2)
  {
    Vec2((c.x + 1.0) / 2.0, (1.0 - c.y) / 2.0)
  }

  /** The UV square is placed exactly onto the clip square: inside maps to inside, and every clip point is hit. */
  lemma UvPlacementOnto(uv: Vec2, c: Vec2)
    ensures InUnitSquare(uv) <==> InClipSquare(UvToClip(uv))
    ensures UvToClip(ClipToUv(c)) == c
    ensures InClipSquare(c) ==> InUnitSquare(ClipToUv(c))
  {
  }

  /** Normalised screen position `0.5 + 0.5 · p.xy / p.w` of the camera's clip position `p`. */
  function ScreenUv(p: Vec4): (s: Vec2)
    requires p.w != 0.0
    ensures 2.0 * s.x - 1.0 == p.x / p.w && 2.0 * s.y - 1.0 == p.y / p.w
  {
    Vec2(0.5 + 0.5 * (p.x / p.w), 0.5 + 0.5 * (p.y / p.w))
  }

  /**
   * The decal UV of a screen position: relative to the rectangle's two
   * corners, then flipped vertically.
   */
  function DecalUv(s: Vec2, d: Vec4): (uv: Vec2)
    requires d.z != d.x && d.w != d.y
    ensures uv.x * (d.z - d.x) == s.x - d.x
    ensures (1.0 - uv.y) * (d.w - d.y) == s.y - d.y
  {
    Vec2((s.x - d.x) / (d.z - d.x), 1.0 - (s.y - d.y) / (d.w - d.y))
  }

  /** The replaced `project_vertex`: where the vertex is drawn and the `vUv` it hands on. */
  datatype VertexOut = VertexOut(position: Vec2, vUv: Vec2)

  function Vertex(uv: Vec2, p: Vec4, d: Vec4): (o: VertexOut)
    requires p.w != 0.0 && d.z != d.x && d.w != d.y
    ensures o.position == UvToClip(uv)
    ensures o.vUv == DecalUv(ScreenUv(p), d)
  {
    VertexOut(UvToClip(uv), DecalUv(ScreenUv(p), d))
  }

  // -------------------------------------------------------- fragment shader

  /** The injected test before `map_fragment`. */
  predicate Discard(vUv: Vec2) {
    vUv.x < 0.0 || 1.0 < vUv.x || vUv.y < 0.0 || 1.0 < vUv.y
  }

  /** A fragment is discarded exactly when its decal UV leaves the unit square. */
  lemma DiscardIffOutside(vUv: Vec2)
    ensures Discard(vUv) <==> !InUnitSquare(vUv)
  {
  }

  /** The normalised screen position (origin bottom left) of CSS pixel `(sx, sy)` (origin top left). */
  function PixelScreenUv(sx: real, sy: real, viewW: real, viewH: real): (s: Vec2)
    requires viewW > 0.0 && viewH > 0.0
    ensures s.x * viewW == sx && (1.0 - s.y) * viewH == sy
  {
    Vec2(sx / viewW, 1.0 - sy / viewH)
  }

  lemma DivCancel(a: real, b: real, c: real)
    requires b != 0.0 && c != 0.0
    ensures (a / c) / (b / c) == a / b
  {
    var q := a / b;
    assert a == q * b;
    assert a / c == q * (b / c);
  }

  /**
   * A fragment at screen pixel `(sx, sy)` gets decal UV
   * `((sx - x) / w, 1 - (sy - y) / h)` for the overlay rectangle `(x, y, w, h)`.
   */
  lemma DecalUvOfPixel(r: Overlay.Rect, viewW: real, viewH: real, sx: real, sy: real)
    requires viewW > 0.0 && viewH > 0.0 && r.w != 0.0 && r.h != 0.0
    ensures var d := DecalRect(r, viewW, viewH);
            d.z != d.x && d.w != d.y &&
            DecalUv(PixelScreenUv(sx, sy, viewW, viewH), d) == Vec2((sx - r.x) / r.w, 1.0 - (sy - r.y) / r.h)
  {
    var d := DecalRect(r, viewW, viewH);
    var s := PixelScreenUv(sx, sy, viewW, viewH);
    assert d.z - d.x == r.w / viewW;
    assert d.w - d.y == -r.h / viewH;
    assert s.x - d.x == (sx - r.x) / viewW;
    assert s.y - d.y == -(sy - r.y) / viewH;
    DivCancel(sx - r.x, r.w, viewW);
    DivCancel(-(sy - r.y), -r.h, viewH);
    assert (-(sy - r.y)) / (-r.h) == (sy - r.y) / r.h;
  }

  /** `0 <= (a - e) / w <= 1` says that `a` lies between `e` and `e + w`. */
  lemma UnitIffBetween(a: real, e: real, w: real)
    requires w != 0.0
    ensures 0.0 <= (a - e) / w <= 1.0 <==> Between(a, e, e + w)
  {
    var t := (a - e) / w;
    assert a - e == t * w;
    if w > 0.0 {
      assert 0.0 <= t <==> 0.0 <= t * w;
      assert t <= 1.0 <==> t * w <= w;
    } else {
      assert 0.0 <= t <==> t * w <= 0.0;
      assert t <= 1.0 <==> w <= t * w;
    }
  }

  /**
   * The bake keeps a fragment exactly when the vertex stage placed it, through
   * its camera clip position `p`, at a screen pixel inside the overlay
   * rectangle (in either orientation, should a drag have turned the width or
   * height negative).
   */
  lemma KeptIffInside(r: Overlay.Rect, viewW: real, viewH: real, uv: Vec2, p: Vec4, sx: real, sy: real)
    requires viewW > 0.0 && viewH > 0.0 && r.w != 0.0 && r.h != 0.0
    requires p.w != 0.0 && ScreenUv(p) == PixelScreenUv(sx, sy, viewW, viewH)
    ensures var d := DecalRect(r, viewW, viewH);
            d.z != d.x && d.w != d.y &&
            (!Discard(Vertex(uv, p, d).vUv) <==>
             Between(sx, r.x, r.x + r.w) && Between(sy, r.y, r.y + r.h))
  {
    DecalUvOfPixel(r, viewW, viewH, sx, sy);
    UnitIffBetween(sx, r.x, r.w);
    UnitIffBetween(sy, r.y, r.h);
    var v := (sy - r.y) / r.h;
    assert 0.0 <= 1.0 - v <= 1.0 <==> 0.0 <= v <= 1.0;
  }

  // ------------------------------------------------------------- the export

  /**
   * The module-level `mapMaterial.map` slot: the texture installed now, every
   * texture that has ever been installed, and those disposed.
   */
  datatype Maps = Maps(current: nat, seen: set<nat>, disposed: set<nat>)

  /** Exactly one installed texture is still live: the current one. */
  predicate OneLive(m: Maps) {
    m.current in m.seen && m.disposed <= m.seen && m.seen - m.disposed == {m.current}
  }

  /** Module load: the placeholder UV-grid texture is installed. */
  function InitialMaps(grid: nat): (m: Maps)
    ensures OneLive(m) && m.current == grid
  {
    Maps(grid, {grid}, {})
  }

  /** The new texture is installed first, then the previous one is disposed. */
  function SwapMap(m: Maps, incoming: nat): (r: Maps)
    requires incoming !in m.seen
    ensures r.current == incoming && m.current in r.disposed
    ensures r.seen == m.seen + {incoming} && r.disposed == m.disposed + {m.current}
    ensures OneLive(m) ==> OneLive(r)
  {
    Maps(incoming, m.seen + {incoming}, m.disposed + {m.current})
  }

  /** What `exportDecalTexture` was asked to do. */
  datatype Request = Request(width: int, height: int, rect: Overlay.Rect, viewW: real, viewH: real)

  /** How the export ended: a saved image, a rejected texture load, or a `null` blob. */
  datatype Outcome = Saved | LoadFailed | BlobFailed

  /** The state an export leaves behind. */
  datatype Exported = Exported(rendererSize: Size, maps: Maps, decalRect: Vec4, outcome: Outcome)

  /**
   * The export as written: resize the renderer, set the decal rect, await the
   * texture (`loaded` is what the loader delivers, `None` a rejection), swap
   * the map, render, and restore the saved size in the `toBlob` callback after
   * the download, which a `null` blob aborts.
   */
  function ExportAsWritten(size: Size, maps: Maps, q: Request,
                           loaded: Option<nat>, blobOk: bool): (r: Exported)
    requires q.viewW > 0.0 && q.viewH > 0.0
    requires loaded.Some? ==> loaded.value !in maps.seen
    ensures r.decalRect == DecalRect(q.rect, q.viewW, q.viewH)
    ensures r.outcome == Saved <==> loaded.Some? && blobOk
    ensures r.outcome == Saved ==> r.rendererSize == size
    ensures r.outcome != Saved ==> r.rendererSize == Size(q.width, q.height)
    ensures loaded.None? ==> r.maps == maps
    ensures loaded.Some? ==> r.maps == SwapMap(maps, loaded.value)
  {
    var resized := Size(q.width, q.height);
    var d := DecalRect(q.rect, q.viewW, q.viewH);
    if loaded.None? then Exported(resized, maps, d, LoadFailed)
    else
      var m := SwapMap(maps, loaded.value);
      if !blobOk then Exported(resized, m, d, BlobFailed)
      else Exported(size, m, d, Saved)
  }

  /**
   * A failed texture load leaves the renderer at the export size: whenever
   * that differs from the size it had, the size is not restored.
   */
  lemma ExportAsWrittenLeavesSize(size: Size, maps: Maps, q: Request, blobOk: bool)
    requires q.viewW > 0.0 && q.viewH > 0.0
    requires Size(q.width, q.height) != size
    ensures ExportAsWritten(size, maps, q, None, blobOk).outcome == LoadFailed
    ensures ExportAsWritten(size, maps, q, None, blobOk).rendererSize != size
  {
  }

  /**
   * The export with the saved size restored on every exit path; on the path
   * where nothing fails it is the export as written.
   */
  function Export(size: Size, maps: Maps, q: Request,
                  loaded: Option<nat>, blobOk: bool): (r: Exported)
    requires q.viewW > 0.0 && q.viewH > 0.0
    requires loaded.Some? ==> loaded.value !in maps.seen
    ensures r.rendererSize == size
    ensures r.outcome == Saved <==> loaded.Some? && blobOk
    ensures r.outcome == Saved ==> r == ExportAsWritten(size, maps, q, loaded, blobOk)
    ensures r.maps == ExportAsWritten(size, maps, q, loaded, blobOk).maps
  {
    ExportAsWritten(size, maps, q, loaded, blobOk).(rendererSize := size)
  }

  /** Exports keep exactly one decal texture live, whatever their outcome. */
  lemma ExportKeepsOneLive(size: Size, maps: Maps, q: Request,
                           loaded: Option<nat>, blobOk: bool)
    requires q.viewW > 0.0 && q.viewH > 0.0
    requires loaded.Some? ==> loaded.value !in maps.seen
    requires OneLive(maps)
    ensures OneLive(Export(size, maps, q, loaded, blobOk).maps)
  {
  }
}
