/**
 * `CameraManager` (src/CameraManager.ts): which camera is in use, its
 * projection extents, and the orbit controls' position and target, which are
 * carried over when the camera is swapped.
 *
 * The orbit controls are reduced to the two vectors the manager reads and
 * writes; `updateProjectionMatrix` and the change observers are left out.
 */
module Cameras {
  import opened Wrappers

  datatype Vec3 = Vec3(x: real, y: real, z: real)

  /** A perspective camera or an orthographic one, with the fields the manager touches. */
  datatype Camera =
    | Perspective(fov: real, aspect: real, near: real, far: real)
    | Orthographic(left: real, right: real, top: real, bottom: real, near: real, far: real)

  /** The orbit controls, as far as the manager sees them. */
  datatype Controls = Controls(position: Vec3, target: Vec3)

  /** The manager's state. */
  datatype Manager = Manager(camera: Camera, controls: Controls)

  const DefaultPosition := Vec3(0.0, 1.0, 5.0)
  const DefaultTarget := Vec3(0.0, 1.0, 0.0)

  /** The horizontal centre of an orthographic frustum. */
  function XCenter(c: Camera): (x: real)
    requires c.Orthographic?
    ensures 2.0 * x == c.left + c.right
  {
    0.5 * (c.left + c.right)
  }

  /** A camera that can be resized: an orthographic frustum with nonzero height. */
  predicate Resizable(c: Camera) {
    c.Orthographic? ==> c.top != c.bottom
  }

  // ------------------------------------------------------------ construction

  /** `_createCameraPersp`: 30° field of view at the window's aspect. */
  function CreatePersp(innerW: real, innerH: real): (c: Camera)
    requires innerH > 0.0
    ensures c.Perspective? && c.fov == 30.0 && c.aspect * innerH == innerW
    ensures c.near == 0.1 && c.far == 100.0
  {
    Perspective(30.0, innerW / innerH, 0.1, 100.0)
  }

  /**
   * `_createCameraOrtho`: a frustum five units tall, centred on the origin,
   * with the canvas's aspect.
   */
  function CreateOrtho(canvasW: real, canvasH: real): (c: Camera)
    requires canvasH > 0.0
    ensures c.Orthographic? && c.left == -c.right
    ensures c.top == 2.5 && c.bottom == -2.5
    ensures (c.right - c.left) * canvasH == (c.top - c.bottom) * canvasW
    ensures c.near == 0.1 && c.far == 100.0
    ensures Resizable(c)
  {
    Orthographic(-2.5 / canvasH * canvasW, 2.5 / canvasH * canvasW, 2.5, -2.5, 0.1, 100.0)
  }

  /**
   * `_createControls`: position and target are taken from the previous
   * controls when there are some and default otherwise.
   */
  function CreateControls(prev: Option<Controls>): (c: Controls)
    ensures prev.Some? ==> c == prev.value
    ensures prev.None? ==> c.position == DefaultPosition && c.target == DefaultTarget
  {
    match prev
    case Some(p) => Controls(p.position, p.target)
    case None => Controls(DefaultPosition, DefaultTarget)
  }

  /** The constructor: a perspective camera and default controls. */
  function NewManager(innerW: real, innerH: real): (m: Manager)
    requires innerH > 0.0
    ensures m.camera == CreatePersp(innerW, innerH)
    ensures m.controls == Controls(DefaultPosition, DefaultTarget)
  {
    Manager(CreatePersp(innerW, innerH), CreateControls(None))
  }

  // -------------------------------------------------------------- operations

  /** `changeCamera`: a fresh camera of the requested kind; the controls' pose carries over. */
  function ChangeCamera(m: Manager, ortho: bool, canvasW: real, canvasH: real,
                        innerW: real, innerH: real): (r: Manager)
    requires canvasH > 0.0 && innerH > 0.0
    ensures r.camera.Orthographic? <==> ortho
    ensures r.camera == if ortho then CreateOrtho(canvasW, canvasH) else CreatePersp(innerW, innerH)
    ensures r.controls == m.controls
    ensures Resizable(r.camera)
  {
    var camera := if ortho then CreateOrtho(canvasW, canvasH) else CreatePersp(innerW, innerH);
    Manager(camera, CreateControls(Some(m.controls)))
  }

  /** `changeFov`: only a perspective camera takes the new field of view. */
  function ChangeFov(m: Manager, fov: real): (r: Manager)
    ensures m.camera.Perspective? ==> r.camera == m.camera.(fov := fov)
    ensures m.camera.Orthographic? ==> r == m
    ensures r.controls == m.controls
  {
    if m.camera.Perspective? then m.(camera := m.camera.(fov := fov)) else m
  }

  /** `reset`: the controls go back to the default pose. */
  function Reset(m: Manager): (r: Manager)
    ensures r.camera == m.camera
    ensures r.controls == CreateControls(None)
  {
    m.(controls := Controls(DefaultPosition, DefaultTarget))
  }

  /**
   * `handleResize` as written: the block-local `height` (the frustum height)
   * shadows the viewport height parameter, so the half-width it computes is
   * `0.5 · h · width / h`, half the viewport width in pixels.
   */
  function HandleResizeAsWritten(c: Camera, width: real, height: real): (r: Camera)
    requires Resizable(c)
    requires c.Perspective? ==> height != 0.0
    ensures r.Orthographic? <==> c.Orthographic?
    ensures r.Orthographic? ==>
              r.top == c.top && r.bottom == c.bottom && XCenter(r) == XCenter(c) &&
              r.right - r.left == width && r.near == c.near && r.far == c.far
    ensures r.Perspective? ==> r == c.(aspect := width / height)
  {
    match c
    case Orthographic(left, right, top, bottom, near, far) =>
      var h := top - bottom;
      var xCenter := 0.5 * (left + right);
      var hw := 0.5 * h * width / h;
      c.(left := xCenter - hw, right := xCenter + hw)
    case Perspective(_, _, _, _) =>
      c.(aspect := width / height)
  }

  /** The default orthographic camera resized to 800 × 600 becomes 800 units wide instead of 5 · 800 / 600. */
  lemma HandleResizeAsWrittenStretches()
    ensures var r := HandleResizeAsWritten(CreateOrtho(800.0, 600.0), 800.0, 600.0);
            r.right - r.left == 800.0 && (r.right - r.left) * 600.0 != (r.top - r.bottom) * 800.0
  {
  }

  /**
   * `handleResize` with the half-width the window resize handler uses: the
   * frustum keeps its height and horizontal centre and takes the viewport's
   * aspect.
   */
  function HandleResize(c: Camera, width: real, height: real): (r: Camera)
    requires height != 0.0
    ensures r.Orthographic? <==> c.Orthographic?
    ensures r.Orthographic? ==>
              r.top == c.top && r.bottom == c.bottom && XCenter(r) == XCenter(c) &&
              (r.right - r.left) * height == (r.top - r.bottom) * width &&
              r.near == c.near && r.far == c.far
    ensures r.Perspective? ==> r.aspect * height == width && r == c.(aspect := r.aspect)
  {
    match c
    case Orthographic(left, right, top, bottom, near, far) =>
      var xCenter := 0.5 * (left + right);
      var hw := 0.5 * (top - bottom) * width / height;
      c.(left := xCenter - hw, right := xCenter + hw)
    case Perspective(_, _, _, _) =>
      c.(aspect := width / height)
  }

  // ------------------------------------------------------------------ lemmas

  /** Only the latest resize counts: resizing twice is resizing once to the second size. */
  lemma ResizeTwice(c: Camera, w1: real, h1: real, w2: real, h2: real)
    requires h1 != 0.0 && h2 != 0.0
    ensures HandleResize(HandleResize(c, w1, h1), w2, h2) == HandleResize(c, w2, h2)
  {
  }

  /** A freshly built orthographic camera already fits its canvas: resizing to that size changes nothing. */
  lemma OrthoFitsCanvas(canvasW: real, canvasH: real)
    requires canvasH > 0.0
    ensures HandleResize(CreateOrtho(canvasW, canvasH), canvasW, canvasH) == CreateOrtho(canvasW, canvasH)
  {
    var c := CreateOrtho(canvasW, canvasH);
    var r := HandleResize(c, canvasW, canvasH);
    assert 0.5 * (c.top - c.bottom) * canvasW / canvasH == 2.5 / canvasH * canvasW;
    assert r.left == c.left && r.right == c.right;
  }

  /** On a perspective camera the as-written and corrected resizes agree; they part only on orthographic ones. */
  lemma ResizeAgreesOnPerspective(c: Camera, width: real, height: real)
    requires c.Perspective? && height != 0.0
    ensures HandleResizeAsWritten(c, width, height) == HandleResize(c, width, height)
  {
  }

  /**
   * A field of view set by `changeFov` does not survive a camera change: the
   * fresh perspective camera is back at 30°, while the pose carries over.
   */
  lemma FovResetBySwap(m: Manager, fov: real, canvasW: real, canvasH: real, innerW: real, innerH: real)
    requires m.camera.Perspective? && canvasH > 0.0 && innerH > 0.0
    ensures ChangeFov(m, fov).camera.fov == fov
    ensures ChangeCamera(ChangeFov(m, fov), false, canvasW, canvasH, innerW, innerH).camera.fov == 30.0
    ensures ChangeCamera(ChangeFov(m, fov), false, canvasW, canvasH, innerW, innerH).controls == m.controls
  {
  }

  /** Swapping cameras back and forth keeps the controls' pose; a reset restores the defaults. */
  lemma PoseSurvivesSwaps(m: Manager, canvasW: real, canvasH: real, innerW: real, innerH: real)
    requires canvasH > 0.0 && innerH > 0.0
    ensures ChangeCamera(ChangeCamera(m, true, canvasW, canvasH, innerW, innerH), false, canvasW, canvasH, innerW, innerH).controls == m.controls
    ensures Reset(ChangeCamera(m, true, canvasW, canvasH, innerW, innerH)).controls == NewManager(innerW, innerH).controls
  {
  }
}
