/**
 * The page session of src/main.ts: mesh selection with material save and
 * restore, the click-versus-drag gate in front of the picker, file drops,
 * the export guard, and the window resize handler.
 *
 * The GLTF/VRM loader and the image decoder are asynchronous; their
 * completions are separate operations (`ModelLoaded`, `ImageLoaded`) that
 * receive what was loaded.
 */
module App {
  import opened Wrappers
  import opened Scene
  import opened Viewport
  import opened ColorId
  import MeshPicker
  import Overlay
  import Cameras
  import Decal

  /** The page's state. */
  datatype App = App(
    scene: Object3D,                  // `scene`, with the model's objects in it
    modelLoaded: bool,                // `currentVRM != null`
    highlight: Material,              // `materialSelectedOverride`
    selected: Option<NodeId>,         // `selectedMesh`
    original: Option<Slot>,           // `selectedMeshOriginalMaterial`
    haveDragged: bool,
    picker: MeshPicker.Picker,
    camera: Cameras.Camera,
    rendererSize: Size,
    overlay: Overlay.Overlay,
    vrmUrl: Option<nat>,              // `currentVrmUrl`
    imageUrl: Option<nat>,            // `currentImageUrl`
    urlsCreated: nat,                 // object URLs handed out so far: 0, 1, ...
    revoked: set<nat>,                // object URLs revoked
    maps: Decal.Maps)                 // the decal material's `map` textures

  /** The texture number of the placeholder UV grid the decal material starts with. */
  const UvGrid: nat := 0

  /** Page load: a perspective camera at the window's aspect, a picker sized to the renderer, no model yet. */
  function Start(scene: Object3D, highlight: Material, innerW: int, innerH: int): (a: App)
    requires innerH > 0
    ensures !a.modelLoaded && a.selected.None? && a.original.None? && !a.haveDragged
    ensures a.camera == Cameras.CreatePersp(innerW as real, innerH as real)
    ensures a.picker.targetSize == a.rendererSize == Size(innerW, innerH)
    ensures a.overlay == Overlay.Init()
    ensures a.vrmUrl.None? && a.imageUrl.None? && a.urlsCreated == 0
    ensures Decal.OneLive(a.maps) && a.maps.current == UvGrid
    ensures a.revoked == {} && UrlsTidy(a)
  {
    App(scene, false, highlight, None, None, false,
        MeshPicker.NewPicker(Size(innerW, innerH)),
        Cameras.CreatePersp(innerW as real, innerH as real),
        Size(innerW, innerH), Overlay.Init(), None, None, 0, {},
        Decal.InitialMaps(UvGrid))
  }

  // --------------------------------------------------------------- selection

  /** The override for a slot: the highlight in place of a single material, or in every array position. */
  function Highlighted(s: Slot, m: Material): (r: Slot)
    ensures r.Single? <==> s.Single?
    ensures |r.Materials()| == |s.Materials()|
    ensures forall i :: 0 <= i < |r.Materials()| ==> r.Materials()[i] == m
  {
    match s
    case Single(_) => Single(m)
    case Multi(ms) => Multi(seq(|ms|, _ => m))
  }

  /**
   * `unselectMesh`: put the recorded material back on the selected mesh and
   * forget both; nothing happens without a model, a selection or a record.
   */
  function UnselectMesh(a: App): (r: App)
    ensures !a.modelLoaded || a.selected.None? || a.original.None? ==> r == a
    ensures a.modelLoaded && a.selected.Some? && a.original.Some? ==>
              r.selected.None? && r.original.None? &&
              r.scene == SetSlots(a.scene, map[a.selected.value := a.original.value]) &&
              r == a.(scene := r.scene, selected := None, original := None)
    ensures forall h :: IsMeshIn(r.scene, h) <==> IsMeshIn(a.scene, h)
  {
    if !a.modelLoaded || a.selected.None? || a.original.None? then a
    else
      SetSlotsKeepsAllMeshes(a.scene, map[a.selected.value := a.original.value]);
      a.(scene := SetSlots(a.scene, map[a.selected.value := a.original.value]),
         selected := None, original := None)
  }

  /**
   * `selectMesh`: with a model loaded, undo any current selection, record the
   * mesh's material and put the highlight on it slot for slot.
   */
  function SelectMesh(a: App, h: NodeId): (r: App)
    requires IsMeshIn(a.scene, h)
    ensures !a.modelLoaded ==> r == a
    ensures a.modelLoaded ==>
              var b := UnselectMesh(a);
              r.selected == Some(h) && r.original == SlotOf(b.scene, h) &&
              r.scene == SetSlots(b.scene, map[h := Highlighted(r.original.value, a.highlight)]) &&
              SlotOf(r.scene, h) == Some(Highlighted(r.original.value, a.highlight)) &&
              r == b.(scene := r.scene, selected := r.selected, original := r.original)
    ensures forall k :: IsMeshIn(r.scene, k) <==> IsMeshIn(a.scene, k)
  {
    if !a.modelLoaded then a
    else
      var b := UnselectMesh(a);
      var orig := SlotOf(b.scene, h).value;
      var m := map[h := Highlighted(orig, a.highlight)];
      SlotOfAfterSet(b.scene, h, Highlighted(orig, a.highlight));
      SetSlotsKeepsAllMeshes(b.scene, m);
      b.(scene := SetSlots(b.scene, m), selected := Some(h), original := Some(orig))
  }

  /**
   * The selection can be undone back to `base`: nothing is selected and the
   * scene is `base`, or the selection is recorded and `unselectMesh` yields
   * `base`.
   */
  predicate Restorable(a: App, base: Object3D) {
    if a.selected.None? then a.scene == base
    else a.modelLoaded && a.original.Some? && UnselectMesh(a).scene == base
  }

  /** Select, then unselect: the scene is as before. */
  lemma SelectThenUnselect(a: App, h: NodeId)
    requires a.modelLoaded && a.selected.None? && UniqueHandles(a.scene) && IsMeshIn(a.scene, h)
    ensures UnselectMesh(SelectMesh(a, h)).scene == a.scene
    ensures UnselectMesh(SelectMesh(a, h)) == a.(original := None)
  {
    var orig := SlotOf(a.scene, h).value;
    var m := map[h := Highlighted(orig, a.highlight)];
    SetSlotsCompose(a.scene, m, map[h := orig]);
    SlotOfAgrees(a.scene, h);
    SetSlotsIdentity(a.scene, map[h := orig]);
  }

  /**
   * Selecting any mesh keeps the selection undoable back to the same scene,
   * however many selections come before: each one first restores the
   * previous mesh's material.
   */
  lemma SelectKeepsRestorable(a: App, base: Object3D, h: NodeId)
    requires a.modelLoaded && Restorable(a, base) && UniqueHandles(base) && IsMeshIn(base, h)
    ensures Restorable(SelectMesh(a, h), base)
    ensures SelectMesh(a, h).selected == Some(h)
  {
    var b := UnselectMesh(a);
    assert b.scene == base && b.selected.None?;
    SelectThenUnselect(b, h);
    var r := SelectMesh(a, h);
    assert r == SelectMesh(b, h);
  }

  /** The page starts restorable to its own scene. */
  lemma StartRestorable(scene: Object3D, highlight: Material, innerW: int, innerH: int)
    requires innerH > 0
    ensures Restorable(Start(scene, highlight, innerW, innerH), scene)
  {
  }

  /**
   * A finished model load swaps the scene in; the selection fields are left as
   * they are. The loader builds new objects, so a selected mesh of the old
   * model is not a mesh of the new one, and undoing that stale selection
   * leaves the new scene as it is.
   */
  function ModelLoaded(a: App, scene: Object3D): (r: App)
    requires a.selected.Some? ==> !IsMeshIn(scene, a.selected.value)
    ensures r.modelLoaded && r.scene == scene
    ensures r.selected == a.selected && r.original == a.original
    ensures r == a.(scene := r.scene, modelLoaded := r.modelLoaded)
    ensures UnselectMesh(r).scene == scene
  {
    if a.selected.Some? && a.original.Some? then
      SetSlotsIdentity(scene, map[a.selected.value := a.original.value]);
      a.(scene := scene, modelLoaded := true)
    else
      a.(scene := scene, modelLoaded := true)
  }

  /**
   * Whatever was selected before, a finished load makes the new model's scene
   * the one the selection can be undone back to, and the page's object URLs
   * are untouched.
   */
  lemma ModelLoadedRestorable(a: App, base: Object3D, scene: Object3D)
    requires a.selected.Some? ==> !IsMeshIn(scene, a.selected.value)
    requires Restorable(a, base)
    ensures Restorable(ModelLoaded(a, scene), scene)
    ensures UrlsTidy(a) ==> UrlsTidy(ModelLoaded(a, scene))
  {
  }

  /**
   * Select a mesh, drop a new model file, let it load, then click: at each
   * step the selection can still be undone, back to the new model's scene
   * once it has loaded.
   */
  lemma SelectLoadClickRestorable(a: App, base: Object3D, h: NodeId, name: string, scene: Object3D,
                                  x: int, y: int, readPixel: MeshPicker.PixelReader<Cameras.Camera>)
    requires a.modelLoaded && Restorable(a, base) && UniqueHandles(base) && IsMeshIn(base, h)
    requires IsModelFile(name) && !IsMeshIn(scene, h) && UniqueHandles(scene)
    ensures Restorable(Drop(SelectMesh(a, h), Some(name)), base)
    ensures var b := ModelLoaded(Drop(SelectMesh(a, h), Some(name)), scene);
            Restorable(b, scene) && Restorable(Click(b, x, y, readPixel), scene)
  {
    SelectKeepsRestorable(a, base, h);
    var d := Drop(SelectMesh(a, h), Some(name));
    assert UnselectMesh(d) == UnselectMesh(SelectMesh(a, h)).(vrmUrl := d.vrmUrl, imageUrl := d.imageUrl,
                                                               urlsCreated := d.urlsCreated, revoked := d.revoked);
    var b := ModelLoaded(d, scene);
    ModelLoadedRestorable(d, base, scene);
    ClickKeepsRestorable(b, scene, x, y, readPixel);
  }

  // -------------------------------------------------------------- click gate

  /** A canvas mouse event. */
  datatype CanvasEvent = Down | Move | Up(x: int, y: int)

  /** A click: pick at the mouse position and select what was hit, if anything. */
  function Click(a: App, x: int, y: int,
                 readPixel: MeshPicker.PixelReader<Cameras.Camera>): (r: App)
    ensures var p := MeshPicker.PickIn(a.picker, a.scene, a.camera, a.rendererSize, x, y, readPixel);
            r.picker == p.picker && r.haveDragged == a.haveDragged &&
            (p.hit.None? || !a.modelLoaded ==> r == a.(picker := p.picker, scene := p.scene)) &&
            (p.hit.Some? && a.modelLoaded ==>
               r.selected == p.hit && r == SelectMesh(a.(picker := p.picker, scene := p.scene), p.hit.value))
  {
    match MeshPicker.Pick(a.picker, Some(a.scene), Some(a.camera), a.rendererSize, x, y, readPixel)
    case Err(_) => a
    case Ok(p) =>
      var b := a.(picker := p.picker, scene := p.scene);
      if p.hit.None? then b else SelectMesh(b, p.hit.value)
  }

  /**
   * In a scene with unique objects, a click that hits nothing, or comes before
   * any model is loaded, changes only the picker's own state.
   */
  lemma ClickMissChangesOnlyPicker(a: App, x: int, y: int,
                                   readPixel: MeshPicker.PixelReader<Cameras.Camera>)
    requires UniqueHandles(a.scene)
    ensures var p := MeshPicker.PickIn(a.picker, a.scene, a.camera, a.rendererSize, x, y, readPixel);
            p.hit.None? || !a.modelLoaded ==> Click(a, x, y, readPixel) == a.(picker := p.picker)
  {
    MeshPicker.PickRestoresScene(a.picker, a.scene, a.camera, a.rendererSize, x, y, readPixel);
  }

  /**
   * In a well-formed scene a click keeps the selection undoable back to the
   * same scene: the pick puts every material back, and a selection restores
   * the previous one first.
   */
  lemma ClickKeepsRestorable(a: App, base: Object3D, x: int, y: int,
                             readPixel: MeshPicker.PixelReader<Cameras.Camera>)
    requires Restorable(a, base) && UniqueHandles(base)
    ensures Restorable(Click(a, x, y, readPixel), base)
  {
    var p := MeshPicker.PickIn(a.picker, a.scene, a.camera, a.rendererSize, x, y, readPixel);
    if a.selected.Some? {
      SetSlotsKeepsUnique(a.scene, map[a.selected.value := a.original.value]);
      SetSlotsKeepsAllMeshes(a.scene, map[a.selected.value := a.original.value]);
    }
    assert UniqueHandles(a.scene);
    MeshPicker.PickRestoresScene(a.picker, a.scene, a.camera, a.rendererSize, x, y, readPixel);
    var b := a.(picker := p.picker, scene := p.scene);
    assert b == a.(picker := p.picker);
    assert UnselectMesh(b).scene == UnselectMesh(a).scene;
    if p.hit.Some? && a.modelLoaded {
      SelectKeepsRestorable(b, base, p.hit.value);
    }
  }

  /** The canvas listeners: mousedown clears the flag, mousemove sets it, mouseup clicks only if it is clear. */
  function OnCanvas(a: App, e: CanvasEvent,
                    readPixel: MeshPicker.PixelReader<Cameras.Camera>): (r: App)
    ensures e.Up? && a.haveDragged ==> r == a
    ensures e.Up? && !a.haveDragged ==> r == Click(a, e.x, e.y, readPixel)
    ensures !e.Up? ==> r == a.(haveDragged := e.Move?)
  {
    match e
    case Down => a.(haveDragged := false)
    case Move => a.(haveDragged := true)
    case Up(x, y) => if !a.haveDragged then Click(a, x, y, readPixel) else a
  }

  /** A sequence of canvas events. */
  function OnCanvasAll(a: App, es: seq<CanvasEvent>,
                       readPixel: MeshPicker.PixelReader<Cameras.Camera>): (r: App)
    decreases |es|
  {
    if es == [] then a else OnCanvasAll(OnCanvas(a, es[0], readPixel), es[1..], readPixel)
  }

  /** Every canvas event keeps the selection undoable back to the same well-formed scene. */
  lemma {:induction false} CanvasKeepsRestorable(a: App, base: Object3D, es: seq<CanvasEvent>,
                                                 readPixel: MeshPicker.PixelReader<Cameras.Camera>)
    requires Restorable(a, base) && UniqueHandles(base)
    ensures Restorable(OnCanvasAll(a, es, readPixel), base)
    decreases |es|
  {
    if es != [] {
      var b := OnCanvas(a, es[0], readPixel);
      if es[0].Up? && !a.haveDragged {
        ClickKeepsRestorable(a, base, es[0].x, es[0].y, readPixel);
      } else {
        assert UnselectMesh(b).scene == UnselectMesh(a).scene;
      }
      CanvasKeepsRestorable(b, base, es[1..], readPixel);
    }
  }

  /**
   * Reference definition of the gate: since the last mousedown no mousemove
   * has arrived (or, with no mousedown at all, none has arrived and the flag
   * started clear).
   */
  predicate NoMoveSinceDown(start: bool, es: seq<CanvasEvent>) {
    (exists i :: 0 <= i < |es| && es[i].Down? && forall j :: i < j < |es| ==> !es[j].Move?) ||
    (!start && forall j :: 0 <= j < |es| ==> !es[j].Move?)
  }

  /** `haveDragged` after a sequence of canvas events, from the starting value `start`. */
  function FlagAfter(start: bool, es: seq<CanvasEvent>): bool
    decreases |es|
  {
    if es == [] then start
    else FlagAfter(if es[0].Down? then false else if es[0].Move? then true else start, es[1..])
  }

  /** The canvas handlers change the flag as `FlagAfter` says, whatever the clicks select. */
  lemma {:induction false} OnCanvasFlag(a: App, es: seq<CanvasEvent>,
                                        readPixel: MeshPicker.PixelReader<Cameras.Camera>)
    ensures OnCanvasAll(a, es, readPixel).haveDragged == FlagAfter(a.haveDragged, es)
    decreases |es|
  {
    if es != [] {
      OnCanvasFlag(OnCanvas(a, es[0], readPixel), es[1..], readPixel);
    }
  }

  /** The flag is clear exactly when no mousemove came since the last mousedown. */
  lemma {:induction false} FlagIffNoMove(start: bool, es: seq<CanvasEvent>)
    ensures !FlagAfter(start, es) <==> NoMoveSinceDown(start, es)
    decreases |es|
  {
    if es != [] {
      var next := if es[0].Down? then false else if es[0].Move? then true else start;
      var tail := es[1..];
      FlagIffNoMove(next, tail);
      if NoMoveSinceDown(next, tail) {
        if i :| 0 <= i < |tail| && tail[i].Down? && forall j :: i < j < |tail| ==> !tail[j].Move? {
          assert es[i + 1] == tail[i];
          assert forall j :: i + 1 < j < |es| ==> es[j] == tail[j - 1];
        } else {
          assert forall j :: 0 < j < |es| ==> es[j] == tail[j - 1];
        }
      }
      if NoMoveSinceDown(start, es) {
        if i :| 0 <= i < |es| && es[i].Down? && forall j :: i < j < |es| ==> !es[j].Move? {
          if i > 0 {
            assert tail[i - 1] == es[i];
            assert forall j :: i - 1 < j < |tail| ==> tail[j] == es[j + 1];
          } else {
            assert forall j :: 0 <= j < |tail| ==> tail[j] == es[j + 1];
          }
        } else {
          assert forall j :: 0 <= j < |tail| ==> tail[j] == es[j + 1];
        }
      }
    }
  }

  /** A mouseup would pick exactly when no mousemove came since the last mousedown. */
  lemma GateFollowsLastEvent(a: App, es: seq<CanvasEvent>,
                             readPixel: MeshPicker.PixelReader<Cameras.Camera>)
    ensures !OnCanvasAll(a, es, readPixel).haveDragged <==> NoMoveSinceDown(a.haveDragged, es)
  {
    OnCanvasFlag(a, es, readPixel);
    FlagIffNoMove(a.haveDragged, es);
  }

  /** Whatever came before, a mouseup right after a mousedown picks. */
  lemma ClickAfterDownPicks(a: App, x: int, y: int,
                            readPixel: MeshPicker.PixelReader<Cameras.Camera>)
    ensures OnCanvasAll(a, [Down, Up(x, y)], readPixel) == Click(a.(haveDragged := false), x, y, readPixel)
  {
    var b := OnCanvas(a, Down, readPixel);
    assert [Down, Up(x, y)][1..] == [Up(x, y)];
    assert OnCanvasAll(a, [Down, Up(x, y)], readPixel) == OnCanvasAll(b, [Up(x, y)], readPixel);
    assert OnCanvasAll(b, [Up(x, y)], readPixel) == OnCanvasAll(OnCanvas(b, Up(x, y), readPixel), [], readPixel);
  }

  // -------------------------------------------------------------------- drops

  /** `name.endsWith(suffix)` */
  predicate EndsWith(name: string, suffix: string) {
    |suffix| <= |name| && name[|name| - |suffix|..] == suffix
  }

  /** `endsWith` means the name is something followed by the suffix. */
  lemma EndsWithIffSplit(name: string, suffix: string)
    ensures EndsWith(name, suffix) <==> exists stem :: name == stem + suffix
  {
    if EndsWith(name, suffix) {
      var stem := name[..|name| - |suffix|];
      assert name == stem + suffix;
    }
    if stem :| name == stem + suffix {
      assert name[|name| - |suffix|..] == suffix;
    }
  }

  /** A dropped file is taken as a model exactly when its name ends in `.glb` or `.vrm`, case included. */
  predicate IsModelFile(name: string) {
    EndsWith(name, ".glb") || EndsWith(name, ".vrm")
  }

  /** The object URLs the page still holds are the current model URL and the current image URL. */
  predicate UrlsTidy(a: App) {
    (a.vrmUrl.Some? ==> a.vrmUrl.value < a.urlsCreated && a.vrmUrl.value !in a.revoked) &&
    (a.imageUrl.Some? ==> a.imageUrl.value < a.urlsCreated && a.imageUrl.value !in a.revoked) &&
    (a.vrmUrl.Some? && a.imageUrl.Some? ==> a.vrmUrl.value != a.imageUrl.value) &&
    (forall u :: u in a.revoked ==> u < a.urlsCreated) &&
    (forall u :: 0 <= u < a.urlsCreated && Some(u) != a.vrmUrl && Some(u) != a.imageUrl ==> u in a.revoked)
  }

  /**
   * The drop handler: nothing without a file; a model file revokes the
   * previous model URL and gets a new one; any other file is taken as an image
   * likewise. The load itself completes later.
   */
  function Drop(a: App, file: Option<string>): (r: App)
    ensures file.None? ==> r == a
    ensures file.Some? && IsModelFile(file.value) ==>
              r.vrmUrl == Some(a.urlsCreated) && r.imageUrl == a.imageUrl &&
              r.revoked == a.revoked + (if a.vrmUrl.Some? then {a.vrmUrl.value} else {})
    ensures file.Some? && !IsModelFile(file.value) ==>
              r.imageUrl == Some(a.urlsCreated) && r.vrmUrl == a.vrmUrl &&
              r.revoked == a.revoked + (if a.imageUrl.Some? then {a.imageUrl.value} else {})
    ensures file.Some? ==> r.urlsCreated == a.urlsCreated + 1
    ensures r.scene == a.scene && r.selected == a.selected && r.overlay == a.overlay
    ensures r == a.(vrmUrl := r.vrmUrl, imageUrl := r.imageUrl, urlsCreated := r.urlsCreated, revoked := r.revoked)
    ensures UrlsTidy(a) ==> UrlsTidy(r)
  {
    if file.None? then a
    else if IsModelFile(file.value) then
      a.(revoked := a.revoked + (if a.vrmUrl.Some? then {a.vrmUrl.value} else {}),
         vrmUrl := Some(a.urlsCreated), urlsCreated := a.urlsCreated + 1)
    else
      a.(revoked := a.revoked + (if a.imageUrl.Some? then {a.imageUrl.value} else {}),
         imageUrl := Some(a.urlsCreated), urlsCreated := a.urlsCreated + 1)
  }

  /** A finished image decode: the overlay takes the image's aspect. */
  function ImageLoaded(a: App, width: real, height: real): (r: App)
    requires width > 0.0 && height > 0.0
    ensures r.overlay == Overlay.LoadImage(a.overlay, width, height)
    ensures r == a.(overlay := r.overlay)
  {
    a.(overlay := Overlay.LoadImage(a.overlay, width, height))
  }

  // ------------------------------------------------------------------ export

  datatype ExportError = NoMesh | NoImage

  /** What the export button hands to the exporter. */
  datatype ExportArgs = ExportArgs(mesh: NodeId, imageUrl: nat, rect: Overlay.Rect, width: int, height: int)

  /**
   * The export button: refuse without a selected mesh, then without an image;
   * otherwise export the selected mesh with the current image and rectangle.
   */
  function ExportClicked(a: App, width: int, height: int): (r: Result<ExportArgs, ExportError>)
    ensures r == Err(NoMesh) <==> a.selected.None?
    ensures r == Err(NoImage) <==> a.selected.Some? && a.imageUrl.None?
    ensures r.Ok? <==> a.selected.Some? && a.imageUrl.Some?
    ensures r.Ok? ==> r.value == ExportArgs(a.selected.value, a.imageUrl.value, a.overlay.rect, width, height)
  {
    if a.selected.None? then Err(NoMesh)
    else if a.imageUrl.None? then Err(NoImage)
    else Ok(ExportArgs(a.selected.value, a.imageUrl.value, a.overlay.rect, width, height))
  }

  /**
   * A click on the export button and everything the export does to the page
   * until its `toBlob` callback has run: with the guard passed, the renderer
   * and the decal material go through `exportDecalTexture` as written, which
   * leaves the renderer at the texture size unless the image was saved.
   * `loaded` is the texture the loader delivers (`None` a rejection),
   * `blobOk` whether the canvas produced a blob, and `(viewW, viewH)` the
   * window size the rectangle is measured against.
   */
  function ExportRun(a: App, width: int, height: int, viewW: real, viewH: real,
                     loaded: Option<nat>, blobOk: bool): (r: Result<App, ExportError>)
    requires viewW > 0.0 && viewH > 0.0
    requires loaded.Some? ==> loaded.value !in a.maps.seen
    ensures r.Err? <==> ExportClicked(a, width, height).Err?
    ensures r.Err? ==> r.error == ExportClicked(a, width, height).error
    ensures r.Ok? ==> r.value == a.(rendererSize := r.value.rendererSize, maps := r.value.maps)
    ensures r.Ok? && loaded.Some? && blobOk ==> r.value.rendererSize == a.rendererSize
    ensures r.Ok? && !(loaded.Some? && blobOk) ==> r.value.rendererSize == Size(width, height)
    ensures r.Ok? && loaded.None? ==> r.value.maps == a.maps
    ensures r.Ok? && loaded.Some? ==> r.value.maps == Decal.SwapMap(a.maps, loaded.value)
  {
    match ExportClicked(a, width, height)
    case Err(e) => Err(e)
    case Ok(x) =>
      var q := Decal.Request(x.width, x.height, x.rect, viewW, viewH);
      var e := Decal.ExportAsWritten(a.rendererSize, a.maps, q, loaded, blobOk);
      Ok(a.(rendererSize := e.rendererSize, maps := e.maps))
  }

  /** Exports keep exactly one decal texture live, whether they save, fail or are refused. */
  lemma ExportRunKeepsOneLive(a: App, width: int, height: int, viewW: real, viewH: real,
                              loaded: Option<nat>, blobOk: bool)
    requires viewW > 0.0 && viewH > 0.0
    requires loaded.Some? ==> loaded.value !in a.maps.seen
    requires Decal.OneLive(a.maps)
    ensures var r := ExportRun(a, width, height, viewW, viewH, loaded, blobOk);
            r.Ok? ==> Decal.OneLive(r.value.maps)
  {
  }

  /**
   * After an export whose texture load failed, the renderer keeps the texture
   * size, so the next click's pick renders into a fresh target of that size
   * rather than of the window.
   */
  lemma ClickAfterFailedExportReallocates(a: App, width: int, height: int, viewW: real, viewH: real,
                                          blobOk: bool, x: int, y: int,
                                          readPixel: MeshPicker.PixelReader<Cameras.Camera>)
    requires viewW > 0.0 && viewH > 0.0
    requires a.selected.Some? && a.imageUrl.Some?
    requires MeshPicker.CacheInv(a.picker) && a.picker.target.Some? && a.picker.targetSize == a.rendererSize
    requires Size(width, height) != a.rendererSize
    ensures var r := ExportRun(a, width, height, viewW, viewH, None, blobOk);
            r.Ok? && r.value.rendererSize == Size(width, height) && r.value.rendererSize != a.rendererSize
    ensures var b := ExportRun(a, width, height, viewW, viewH, None, blobOk).value;
            var q := MeshPicker.PickIn(b.picker, b.scene, b.camera, b.rendererSize, x, y, readPixel).picker;
            q.created == a.picker.created + 1 && q.targetSize == Size(width, height) && MeshPicker.CacheInv(q)
  {
    var b := ExportRun(a, width, height, viewW, viewH, None, blobOk).value;
    MeshPicker.PickAfterResizeReallocates(b.picker, b.scene, b.camera, b.rendererSize, x, y, readPixel);
  }

  /**
   * Selecting a mesh of a loaded model and then dropping a non-model file arms
   * the export button: it exports that mesh with the URL the drop created.
   */
  lemma ExportAfterSelectAndDrop(a: App, h: NodeId, name: string, width: int, height: int)
    requires a.modelLoaded && IsMeshIn(a.scene, h) && !IsModelFile(name)
    ensures var b := Drop(SelectMesh(a, h), Some(name));
            ExportClicked(b, width, height) == Ok(ExportArgs(h, a.urlsCreated, a.overlay.rect, width, height))
  {
  }

  // ------------------------------------------------------------------ resize

  /**
   * The window resize handler: the camera takes the new aspect (an
   * orthographic one keeps its centre and height) and the renderer the new
   * size.
   */
  function Resize(a: App, innerW: int, innerH: int): (r: App)
    requires innerH > 0
    ensures r.camera == Cameras.HandleResize(a.camera, innerW as real, innerH as real)
    ensures r.rendererSize == Size(innerW, innerH)
    ensures r == a.(camera := r.camera, rendererSize := r.rendererSize)
  {
    a.(camera := Cameras.HandleResize(a.camera, innerW as real, innerH as real),
       rendererSize := Size(innerW, innerH))
  }

  /** After a resize to a new size the next click's pick renders into a fresh target of that size. */
  lemma ClickAfterResizeReallocates(a: App, innerW: int, innerH: int, x: int, y: int,
                                    readPixel: MeshPicker.PixelReader<Cameras.Camera>)
    requires innerH > 0 && MeshPicker.CacheInv(a.picker) && a.picker.target.Some?
    requires a.picker.targetSize != Size(innerW, innerH)
    ensures var b := Resize(a, innerW, innerH);
            var q := MeshPicker.PickIn(b.picker, b.scene, b.camera, b.rendererSize, x, y, readPixel).picker;
            q.created == a.picker.created + 1 && q.targetSize == Size(innerW, innerH) && MeshPicker.CacheInv(q)
  {
    var b := Resize(a, innerW, innerH);
    MeshPicker.PickAfterResizeReallocates(b.picker, b.scene, b.camera, b.rendererSize, x, y, readPixel);
  }
}
