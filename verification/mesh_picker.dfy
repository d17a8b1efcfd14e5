/**
 * `MeshPicker`: colour-id picking. Every visible mesh is numbered 1, 2, 3, ...
 * in `traverseVisible` order, drawn with a flat material whose colour is its
 * number, the originals are put back, and one pixel is read back and decoded.
 *
 * The GPU render and `readRenderTargetPixels` are an oracle `readPixel`: it is
 * handed the scene as it stands during the render (substitute materials in
 * place), the camera, and the framebuffer coordinates, and either writes one
 * pixel or, as three.js does for a read outside the target, writes nothing, in
 * which case the picker's persistent 4-byte buffer keeps its old bytes.
 */
module MeshPicker {
  import opened Wrappers
  import opened Scene
  import opened ColorId
  import opened Viewport

  // ----------------------------------------------------- outline name matching

  /** The pattern of `/Outline/i`, case-folded. */
  const OutlinePattern: string := "outline"

  /**
   * ASCII lower-casing. For the letters of "Outline", the case-insensitive
   * (non-unicode) regular-expression match coincides with ASCII folding: no
   * character outside ASCII canonicalises to an ASCII letter.
   */
  function LowerAscii(c: char): char {
    if 'A' <= c <= 'Z' then (c as int + 32) as char else c
  }

  /** `name` holds the pattern, ignoring case, starting at position `i`. */
  predicate MatchesAt(name: string, i: nat) {
    i + |OutlinePattern| <= |name| &&
    forall k :: 0 <= k < |OutlinePattern| ==> LowerAscii(name[i + k]) == OutlinePattern[k]
  }

  /** `name` contains "outline" in any letter case. */
  predicate NamesOutline(name: string) {
    exists i: nat :: i <= |name| && MatchesAt(name, i)
  }

  /** `/Outline/i.exec(name)`: the leftmost match position at or after `from`, if any. */
  function OutlineExec(name: string, from: nat): (r: Option<nat>)
    ensures r.Some? ==> from <= r.value && MatchesAt(name, r.value)
    ensures r.Some? ==> forall i: nat :: from <= i < r.value ==> !MatchesAt(name, i)
    ensures r.None? ==> forall i: nat :: from <= i ==> !MatchesAt(name, i)
    decreases |name| - from
  {
    if from + |OutlinePattern| > |name| then None
    else if MatchesAt(name, from) then Some(from)
    else OutlineExec(name, from + 1)
  }

  /** The regular-expression test is exactly "contains outline, ignoring case". */
  lemma OutlineExecIff(name: string)
    ensures OutlineExec(name, 0).Some? <==> NamesOutline(name)
  {
  }

  // --------------------------------------------------- substitute materials

  /**
   * `_createTempMaterial(original, id)`: outlines and invisible materials get an
   * invisible substitute; any other gets a flat material of colour `id` keeping
   * the original's texture (for its alpha) and alpha-test threshold, which for
   * an MToon material is its `cutoff`.
   */
  function TempMaterial(original: Material, id: nat): (r: Material)
    ensures r.PickHidden? <==> NamesOutline(original.Name()) || !original.IsVisible()
    ensures r.PickFlat? <==> !r.PickHidden?
    ensures r.PickFlat? ==> r.color == id && r.texture == original.Map()
    ensures r.PickFlat? && original.IsMToon() ==> r.alphaTest == original.shading.cutoff
    ensures r.PickFlat? && !original.IsMToon() ==> r.alphaTest == original.AlphaTestValue()
  {
    OutlineExecIff(original.Name());
    if OutlineExec(original.Name(), 0).Some? then PickHidden
    else if !original.IsVisible() then PickHidden
    else
      var alphaTest := if original.IsMToon() then original.shading.cutoff else original.AlphaTestValue();
      PickFlat(original.Map(), alphaTest, id)
  }

  /** A mesh's substitute: an array is substituted slot for slot, every slot with the mesh's id. */
  function TempSlot(s: Slot, id: nat): Slot {
    match s
    case Single(m) => Single(TempMaterial(m, id))
    case Multi(ms) => Multi(seq(|ms|, i requires 0 <= i < |ms| => TempMaterial(ms[i], id)))
  }

  /** The substitute keeps the slot's form and length and substitutes every entry with the same id. */
  lemma TempSlotShape(s: Slot, id: nat)
    ensures TempSlot(s, id).Single? <==> s.Single?
    ensures |TempSlot(s, id).Materials()| == |s.Materials()|
    ensures forall i :: 0 <= i < |s.Materials()| ==> TempSlot(s, id).Materials()[i] == TempMaterial(s.Materials()[i], id)
  {
  }

  /** Every drawn slot of a substitute carries the colour of the mesh's id. */
  lemma TempSlotColour(s: Slot, id: nat)
    requires id < IdSpace
    ensures forall m :: m in TempSlot(s, id).Materials() && m.PickFlat? ==> Decode(Encode(m.color)) == id
  {
    TempSlotShape(s, id);
    DecodeEncodeRoundTrip(id);
  }

  // ----------------------------------------------------------- id assignment

  /**
   * What the `traverseVisible` callback builds: the next id, `meshMaterialMap`
   * (originals), the id each mesh was given, and `idMeshMap`.
   */
  datatype Pass = Pass(next: nat, originals: map<NodeId, Slot>, ids: map<NodeId, nat>, idMesh: map<nat, NodeId>)
  {
    /** The substitute each visited mesh is drawn with. */
    function Temps(): (m: map<NodeId, Slot>)
      ensures forall h :: h in m <==> h in originals && h in ids
    {
      map h | h in originals && h in ids :: TempSlot(originals[h], ids[h])
    }
  }

  /** The objects of `ms` are all meshes. */
  predicate AllMeshes(ms: seq<Object3D>) {
    forall i :: 0 <= i < |ms| ==> ms[i].kind.Mesh?
  }

  /** The callback run over the first `n` visited meshes of `ms` in order, starting from `id = 1`. */
  function AssignFirst(ms: seq<Object3D>, n: nat): (p: Pass)
    requires n <= |ms| && AllMeshes(ms)
  {
    if n == 0 then Pass(1, map[], map[], map[])
    else
      var m := ms[n - 1];
      var p := AssignFirst(ms, n - 1);
      Pass(p.next + 1,
           p.originals[m.handle := m.kind.slot],
           p.ids[m.handle := p.next],
           p.idMesh[p.next := m.handle])
  }

  /** The callback run over all the visited meshes. */
  function AssignIds(ms: seq<Object3D>): (p: Pass)
    requires AllMeshes(ms)
  {
    AssignFirst(ms, |ms|)
  }

  /** After `n` meshes, the ids 1..n are assigned, the k-th to the k-th mesh. */
  lemma {:induction false} AssignFirstNumbering(ms: seq<Object3D>, n: nat)
    requires n <= |ms| && AllMeshes(ms)
    ensures AssignFirst(ms, n).next == n + 1
    ensures forall k :: k in AssignFirst(ms, n).idMesh <==> 1 <= k <= n
    ensures forall k :: 1 <= k <= n ==> AssignFirst(ms, n).idMesh[k] == ms[k - 1].handle
  {
    if n > 0 {
      AssignFirstNumbering(ms, n - 1);
    }
  }

  /** The k-th visited mesh gets id k: `idMeshMap` maps exactly 1..n to the visited meshes in order. */
  lemma AssignIdsNumbering(ms: seq<Object3D>)
    requires AllMeshes(ms)
    ensures AssignIds(ms).next == |ms| + 1
    ensures forall k :: k in AssignIds(ms).idMesh <==> 1 <= k <= |ms|
    ensures forall k :: 1 <= k <= |ms| ==> AssignIds(ms).idMesh[k] == ms[k - 1].handle
  {
    AssignFirstNumbering(ms, |ms|);
  }

  /** The handles of the first `n` objects of a sequence. */
  function HandlesFirst(ms: seq<Object3D>, n: nat): (hs: set<NodeId>)
    requires n <= |ms|
    ensures forall i :: 0 <= i < n ==> ms[i].handle in hs
  {
    set i | 0 <= i < n :: ms[i].handle
  }

  /** The handles of a sequence of objects. */
  function Handles(ms: seq<Object3D>): (hs: set<NodeId>)
    ensures forall h :: h in hs <==> exists i :: 0 <= i < |ms| && ms[i].handle == h
  {
    HandlesFirst(ms, |ms|)
  }

  lemma HandlesNext(ms: seq<Object3D>, n: nat)
    requires 0 < n <= |ms|
    ensures HandlesFirst(ms, n) == HandlesFirst(ms, n - 1) + {ms[n - 1].handle}
  {
  }

  lemma {:induction false} AssignFirstRecords(ms: seq<Object3D>, n: nat)
    requires n <= |ms| && AllMeshes(ms)
    ensures AssignFirst(ms, n).originals.Keys == HandlesFirst(ms, n)
    ensures AssignFirst(ms, n).ids.Keys == HandlesFirst(ms, n)
  {
    if n > 0 {
      AssignFirstRecords(ms, n - 1);
      HandlesNext(ms, n);
    }
  }

  /** `meshMaterialMap` and the substitutes are recorded for exactly the visited meshes. */
  lemma AssignIdsRecords(ms: seq<Object3D>)
    requires AllMeshes(ms)
    ensures AssignIds(ms).originals.Keys == Handles(ms)
    ensures AssignIds(ms).ids.Keys == Handles(ms)
    ensures AssignIds(ms).Temps().Keys == Handles(ms)
  {
    AssignFirstRecords(ms, |ms|);
  }

  lemma {:induction false} AssignFirstDistinct(ms: seq<Object3D>, n: nat)
    requires n <= |ms| && AllMeshes(ms)
    requires forall i, j :: 0 <= i < j < |ms| ==> ms[i].handle != ms[j].handle
    ensures forall i :: 0 <= i < n ==>
              ms[i].handle in AssignFirst(ms, n).originals && ms[i].handle in AssignFirst(ms, n).ids &&
              AssignFirst(ms, n).originals[ms[i].handle] == ms[i].kind.slot &&
              AssignFirst(ms, n).ids[ms[i].handle] == i + 1
  {
    if n > 0 {
      AssignFirstDistinct(ms, n - 1);
      AssignFirstNumbering(ms, n - 1);
      var p, q := AssignFirst(ms, n - 1), AssignFirst(ms, n);
      forall i | 0 <= i < n - 1
        ensures q.originals[ms[i].handle] == p.originals[ms[i].handle]
        ensures q.ids[ms[i].handle] == p.ids[ms[i].handle]
      {
        assert ms[i].handle != ms[n - 1].handle;
      }
    }
  }

  /** With each mesh visited once, every mesh's entries are its own original and its own substitute. */
  lemma AssignIdsDistinct(ms: seq<Object3D>)
    requires AllMeshes(ms)
    requires forall i, j :: 0 <= i < j < |ms| ==> ms[i].handle != ms[j].handle
    ensures forall i :: 0 <= i < |ms| ==>
              ms[i].handle in AssignIds(ms).originals && ms[i].handle in AssignIds(ms).Temps() &&
              AssignIds(ms).originals[ms[i].handle] == ms[i].kind.slot &&
              AssignIds(ms).Temps()[ms[i].handle] == TempSlot(ms[i].kind.slot, i + 1)
  {
    AssignFirstDistinct(ms, |ms|);
  }

  // ------------------------------------------------------ render-target cache

  /** A `WebGLRenderTarget`, identified by its allocation number. */
  datatype RenderTarget = RenderTarget(serial: nat, size: Size)

  /**
   * The picker's own state: the cached render target and `_renderTargetSize`,
   * how many targets it has allocated, which of them it has disposed, and the
   * persistent read-back buffer.
   */
  datatype Picker = Picker(target: Option<RenderTarget>, targetSize: Size, created: nat,
                           disposed: set<nat>, buffer: Rgb)

  /** Targets created and not yet disposed. */
  function Live(p: Picker): set<nat> {
    set s | 0 <= s < p.created && s !in p.disposed
  }

  /** At most one live target: the cached one, whose size is the recorded size. */
  predicate CacheInv(p: Picker) {
    (forall s :: s in p.disposed ==> s < p.created) &&
    match p.target
    case None => Live(p) == {}
    case Some(t) => t.serial < p.created && Live(p) == {t.serial} && t.size == p.targetSize
  }

  /** Allocating one more target while disposing `gone`: the new target joins the live ones. */
  lemma LiveAfterAllocation(p: Picker, r: Picker, gone: set<nat>)
    requires forall s :: s in p.disposed ==> s < p.created
    requires r.created == p.created + 1 && r.disposed == p.disposed + gone
    requires forall s :: s in gone ==> s < p.created
    ensures Live(r) == (Live(p) - gone) + {p.created}
  {
  }

  /**
   * `_prepareRenderTarget`: allocate when no target exists yet or the renderer
   * size changed since the last allocation (disposing the old one in the latter
   * case); otherwise reuse the cached target. Afterwards the cached size is the
   * renderer size.
   */
  function Prepare(p: Picker, rendererSize: Size): (r: (Picker, RenderTarget))
    ensures r.0.target == Some(r.1) && r.0.targetSize == rendererSize && r.0.buffer == p.buffer
    ensures r.0.created == p.created + 1 <==> p.target.None? || p.targetSize != rendererSize
    ensures r.0.created == p.created + 1 ==> r.1 == RenderTarget(p.created, rendererSize)
    ensures p.target.Some? && p.targetSize == rendererSize ==> r.0 == p
    ensures p.target.Some? && p.targetSize != rendererSize ==>
              r.0.disposed == p.disposed + {p.target.value.serial}
    ensures p.target.None? ==> r.0.disposed == p.disposed
    ensures CacheInv(p) ==> CacheInv(r.0) && r.1.size == rendererSize
  {
    if p.target.None? then
      var t := RenderTarget(p.created, rendererSize);
      var r := p.(target := Some(t), targetSize := rendererSize, created := p.created + 1);
      assert CacheInv(p) ==> CacheInv(r) by {
        if CacheInv(p) {
          LiveAfterAllocation(p, r, {});
        }
      }
      (r, t)
    else if rendererSize != p.targetSize then
      var t := RenderTarget(p.created, rendererSize);
      var r := p.(target := Some(t), targetSize := rendererSize, created := p.created + 1,
                  disposed := p.disposed + {p.target.value.serial});
      assert CacheInv(p) ==> CacheInv(r) by {
        if CacheInv(p) {
          LiveAfterAllocation(p, r, {p.target.value.serial});
        }
      }
      (r, t)
    else
      (p, p.target.value)
  }

  /** `new MeshPicker(renderer)`: nothing created, size (0, 0), then one preparation. */
  function NewPicker(rendererSize: Size): (p: Picker)
    ensures CacheInv(p) && p.target.Some? && p.targetSize == rendererSize && p.created == 1
  {
    Prepare(Picker(None, Size(0, 0), 0, {}, Rgb(0, 0, 0)), rendererSize).0
  }

  // -------------------------------------------------------------------- pick

  datatype PickError = NotConfigured

  /**
   * The outcome of one pick: the picker afterwards, the scene afterwards, the
   * scene as it was drawn, the framebuffer row read, and the picked mesh.
   */
  datatype Picked = Picked(picker: Picker, scene: Object3D, drawn: Object3D, row: int, hit: Option<NodeId>)

  /**
   * The GPU side of a pick, which this model does not compute: given the
   * substituted scene, the camera and the render target's size, the colour
   * `readRenderTargetPixels` finds at column x, row `row`; `None` when the
   * read leaves the buffer as it was.
   */
  type PixelReader<!C> = (Object3D, C, Size, int, int) -> Option<Rgb>

  /** `readRenderTargetPixels` of one pixel: a read outside the target is ignored. */
  function ReadAt<C>(readPixel: PixelReader<C>, drawn: Object3D, camera: C, size: Size, x: int, row: int): (c: Option<Rgb>)
    ensures !(0 <= x < size.x && 0 <= row < size.y) ==> c.None?
    ensures 0 <= x < size.x && 0 <= row < size.y ==> c == readPixel(drawn, camera, size, x, row)
  {
    if 0 <= x < size.x && 0 <= row < size.y then readPixel(drawn, camera, size, x, row) else None
  }

  /** `y` flipped from a top-left origin to the framebuffer's bottom-left origin. */
  function FlipRow(height: int, y: int): (row: int)
    ensures 0 <= y < height ==> 0 <= row < height
    ensures row + y == height - 1
  {
    height - 1 - y
  }

  /**
   * `pick(x, y)`: fails when the scene or camera is unset, before any render
   * target or material work; otherwise picks as `PickIn` describes.
   */
  function Pick<C>(p: Picker, scene: Option<Object3D>, camera: Option<C>, rendererSize: Size,
                   x: int, y: int, readPixel: PixelReader<C>): (r: Result<Picked, PickError>)
    ensures r.Err? <==> scene.None? || camera.None?
    ensures r.Err? ==> r.error == NotConfigured
    ensures r.Ok? ==> r.value == PickIn(p, scene.value, camera.value, rendererSize, x, y, readPixel)
  {
    if scene.None? || camera.None? then Err(NotConfigured)
    else Ok(PickIn(p, scene.value, camera.value, rendererSize, x, y, readPixel))
  }

  /**
   * A configured pick: prepare the target, number the visible meshes, draw the
   * substituted scene, restore every recorded mesh's material, read the pixel
   * at row `size.y - 1 - y`, and return the mesh numbered with the decoded id,
   * or nothing for id 0 or an id no mesh got.
   */
  function PickIn<C>(p: Picker, t: Object3D, camera: C, rendererSize: Size,
                     x: int, y: int, readPixel: PixelReader<C>): (r: Picked)
    ensures r.picker.targetSize == rendererSize && r.row == FlipRow(rendererSize.y, y)
    ensures r.picker.buffer == ReadAt(readPixel, r.drawn, camera, rendererSize, x, r.row).GetOr(p.buffer)
    ensures r.hit.Some? <==> 1 <= Decode(r.picker.buffer) <= |VisibleMeshes(t)|
    ensures r.hit.Some? ==> r.hit.value == VisibleMeshes(t)[Decode(r.picker.buffer) - 1].handle
    ensures r.hit.Some? ==> IsMeshIn(r.scene, r.hit.value)
  {
    var prepared := Prepare(p, rendererSize);
    var pass := AssignIds(VisibleMeshes(t));
    AssignIdsNumbering(VisibleMeshes(t));
    var drawn := SetSlots(t, pass.Temps());
    var restored := SetSlots(drawn, pass.originals);
    var row := FlipRow(prepared.0.targetSize.y, y);
    var buffer := ReadAt(readPixel, drawn, camera, rendererSize, x, row).GetOr(prepared.0.buffer);
    var id := Decode(buffer);
    if id in pass.idMesh then
      VisibleMeshSurvives(t, pass.Temps(), pass.originals, id - 1);
      Picked(prepared.0.(buffer := buffer), restored, drawn, row, Some(pass.idMesh[id]))
    else
      Picked(prepared.0.(buffer := buffer), restored, drawn, row, None)
  }

  // ------------------------------------------------------------------ lemmas

  /** After a pick, every object of a well-formed scene holds exactly the material it held before. */
  lemma PickRestoresScene<C>(p: Picker, t: Object3D, camera: C, rendererSize: Size,
                             x: int, y: int, readPixel: PixelReader<C>)
    requires UniqueHandles(t)
    ensures PickIn(p, t, camera, rendererSize, x, y, readPixel).scene == t
  {
    var ms := VisibleMeshes(t);
    var pass := AssignIds(ms);
    AssignIdsRecords(ms);
    VisibleMeshHandlesDistinct(t);
    AssignIdsDistinct(ms);
    SetSlotsCompose(t, pass.Temps(), pass.originals);
    VisibleMeshesAreNodes(t);
    forall n | n in Nodes(t) && n.kind.Mesh? && n.handle in pass.originals
      ensures pass.originals[n.handle] == n.kind.slot
    {
      var i :| 0 <= i < |ms| && ms[i].handle == n.handle;
      SameHandleSameNode(t, ms[i], n);
    }
    SetSlotsIdentity(t, pass.originals);
  }

  /**
   * During the render the k-th visible mesh (k = 1, 2, ...) is the same object
   * as before, carrying the substitute of its own materials numbered k, with as
   * many slots as it had.
   */
  lemma PickDrawsIds<C>(p: Picker, t: Object3D, camera: C, rendererSize: Size,
                        x: int, y: int, readPixel: PixelReader<C>)
    requires UniqueHandles(t)
    ensures var d := PickIn(p, t, camera, rendererSize, x, y, readPixel).drawn;
            var ms := VisibleMeshes(t);
            |VisibleMeshes(d)| == |ms| &&
            forall i :: 0 <= i < |ms| ==>
              VisibleMeshes(d)[i].handle == ms[i].handle &&
              VisibleMeshes(d)[i].kind.slot == TempSlot(ms[i].kind.slot, i + 1)
  {
    var ms := VisibleMeshes(t);
    var pass := AssignIds(ms);
    VisibleMeshHandlesDistinct(t);
    AssignIdsDistinct(ms);
    VisibleMeshesSetSlots(t, pass.Temps());
  }

  /** Distinct visible meshes get distinct ids, and no mesh gets id 0. */
  lemma PickIdsDistinct(t: Object3D)
    requires UniqueHandles(t)
    ensures 0 !in AssignIds(VisibleMeshes(t)).idMesh
    ensures forall a, b :: a in AssignIds(VisibleMeshes(t)).idMesh && b in AssignIds(VisibleMeshes(t)).idMesh && a != b ==>
              AssignIds(VisibleMeshes(t)).idMesh[a] != AssignIds(VisibleMeshes(t)).idMesh[b]
  {
    VisibleMeshHandlesDistinct(t);
    var ms := VisibleMeshes(t);
    AssignIdsNumbering(ms);
    var m := AssignIds(ms).idMesh;
    forall a, b | a in m && b in m && a != b
      ensures m[a] != m[b]
    {
      assert m[a] == ms[a - 1].handle && m[b] == ms[b - 1].handle;
    }
  }

  /**
   * When the pixel read carries the colour of the k-th visible mesh (with fewer
   * than 2^24 of them), that mesh is returned.
   */
  lemma PickFindsEncodedMesh<C>(p: Picker, t: Object3D, camera: C, rendererSize: Size,
                                x: int, y: int, readPixel: PixelReader<C>, k: nat)
    requires 1 <= k <= |VisibleMeshes(t)| < IdSpace
    requires ReadAt(readPixel, PickIn(p, t, camera, rendererSize, x, y, readPixel).drawn,
                    camera, rendererSize, x, FlipRow(rendererSize.y, y)) == Some(Encode(k))
    ensures PickIn(p, t, camera, rendererSize, x, y, readPixel).hit == Some(VisibleMeshes(t)[k - 1].handle)
  {
    DecodeEncodeRoundTrip(k);
  }

  /** A read that lands on the cleared background (black) yields no mesh. */
  lemma PickBackgroundIsNone<C>(p: Picker, t: Object3D, camera: C, rendererSize: Size,
                                x: int, y: int, readPixel: PixelReader<C>)
    requires ReadAt(readPixel, PickIn(p, t, camera, rendererSize, x, y, readPixel).drawn,
                    camera, rendererSize, x, FlipRow(rendererSize.y, y)) == Some(Rgb(0, 0, 0))
    ensures PickIn(p, t, camera, rendererSize, x, y, readPixel).hit.None?
  {
  }

  /**
   * Picking twice with an unchanged scene, camera, size and renderer returns the
   * same mesh and leaves the scene as it was, and the second pick allocates no
   * render target.
   */
  lemma PickTwiceSame<C>(p: Picker, t: Object3D, camera: C, rendererSize: Size,
                         x: int, y: int, readPixel: PixelReader<C>)
    requires UniqueHandles(t)
    ensures var first := PickIn(p, t, camera, rendererSize, x, y, readPixel);
            var second := PickIn(first.picker, first.scene, camera, rendererSize, x, y, readPixel);
            second.hit == first.hit && second.scene == t && second.picker.created == first.picker.created
  {
    PickRestoresScene(p, t, camera, rendererSize, x, y, readPixel);
    var first := PickIn(p, t, camera, rendererSize, x, y, readPixel);
    PickRestoresScene(first.picker, t, camera, rendererSize, x, y, readPixel);
  }

  /** A resize between picks makes the next pick allocate a fresh target of the new size and dispose the old one. */
  lemma PickAfterResizeReallocates<C>(p: Picker, t: Object3D, camera: C, size: Size,
                                      x: int, y: int, readPixel: PixelReader<C>)
    requires CacheInv(p) && p.target.Some? && p.targetSize != size
    ensures var q := PickIn(p, t, camera, size, x, y, readPixel).picker;
            q.created == p.created + 1 && q.target.value.size == size &&
            p.target.value.serial in q.disposed && CacheInv(q)
  {
  }

  /** A visible mesh is still a mesh after its slots are replaced twice. */
  lemma VisibleMeshSurvives(t: Object3D, f: map<NodeId, Slot>, g: map<NodeId, Slot>, k: int)
    requires 0 <= k < |VisibleMeshes(t)|
    ensures IsMeshIn(SetSlots(SetSlots(t, f), g), VisibleMeshes(t)[k].handle)
  {
    var h := VisibleMeshes(t)[k].handle;
    assert VisibleMeshes(t)[k] in VisibleMeshes(t);
    VisibleMeshesAreNodes(t);
    assert IsMeshIn(t, h);
    SetSlotsKeepsMeshes(t, f, h);
    SetSlotsKeepsMeshes(SetSlots(t, f), g, h);
  }

  /**
   * A click outside the render target reads nothing: the buffer keeps the
   * previous pick's bytes, so the previous colour is decoded again.
   */
  lemma PickOutsideKeepsBuffer<C>(p: Picker, t: Object3D, camera: C, rendererSize: Size,
                                  x: int, y: int, readPixel: PixelReader<C>)
    requires !(0 <= x < rendererSize.x && 0 <= y < rendererSize.y)
    ensures PickIn(p, t, camera, rendererSize, x, y, readPixel).picker.buffer == p.buffer
  {
  }
}
