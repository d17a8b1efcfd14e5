# vrm-decal-texture, modelled in Dafny

vrm-decal-texture is a browser tool that bakes an image onto a VRM/glTF model's
texture. The user clicks a mesh of the model to select it, drags and scales an
image overlay over the canvas, and exports a texture. The export draws the
selected mesh in its own UV space and keeps only the fragments that fall under
the overlay on screen.

This project models the deterministic logic of that tool with immutable
datatypes and pure functions:

- `Scene` (`scene.dfy`): the three.js scene graph. A tree of objects carries
  handles for identity, and meshes hold one material or an array of them.
  Assignment through a reference becomes `SetSlots`, an update by handle.
- `ColorId` (`color_id.dfy`): the 24-bit id ↔ RGB byte code of the picker.
- `MeshPicker` (`mesh_picker.dfy`): colour-id picking. It covers:
  - the substitute-material decision table;
  - sequential id assignment over `traverseVisible`;
  - material save, substitute and restore;
  - the y-flip of the read row;
  - the lazily reallocated render target.

  The GPU render and the pixel read are an oracle parameter.
- `ReplaceMaterial` (`replace_material.dfy`): `replaceMaterial` over a subtree,
  with its count.
- `MouseDrag` (`mouse_drag.dfy`): the drag session of `registerMouseEvent` as a
  state machine. Mouse events, animation frames and the timer are its inputs;
  the `move`/`up` callback calls are its outputs.
- `Overlay` (`overlay.dfy`): the draggable rectangle and its aspect lock, and
  how a drag session's callbacks move it.
- `Decal` (`decal.dfy`): the bake shader's arithmetic (decal rect, UV placement,
  fragment UV, discard test) on reals, plus the export's renderer-size and
  decal-map bookkeeping.
- `Cameras` (`cameras.dfy`): `CameraManager`'s frustum arithmetic and the
  carry-over of the controls' pose.
- `App` (`app.dfy`): the page session of `main.ts`. It covers:
  - selection with material save and restore;
  - the click-versus-drag gate in front of the picker;
  - file drops and object-URL bookkeeping;
  - the export guard and the export's effect on the renderer size and the
    decal material's texture;
  - the resize handler.
- `Viewport`, `Wrappers`: the renderer size type, and `Option`/`Result`.

Two behaviours of the code a reader might not expect:

- `MeshPicker.ts` has no `try`/`finally` around the render, so a render that
  throws leaves the substitute materials in place. In the model the render
  cannot fail.
- `exportDecalTexture` resizes the renderer before it awaits the texture, and
  restores the size only inside the `toBlob` callback (see Findings).
  `App.ExportRun` applies the export as written, so a failed export leaves the
  page's renderer at the texture size; `Decal.Export` is the corrected export.

Modelling choices a reader should know:

- `App.ModelLoaded` keeps `selectedMesh` and its recorded material when a new
  model replaces the old one, as `loadVRM` does. The loader builds new objects,
  so the model takes as given that the selected handle is not a mesh of the
  new scene; a later `unselectMesh` then writes onto the detached old mesh and
  leaves the new scene alone.
- `src/main.ts` never uses `CameraManager`. Its own resize handler performs the
  arithmetic of the corrected `Cameras.HandleResize`.

## Model

| member | source | states |
|---|---|---|
| ColorId.DecodeEncode | src/MeshPicker.ts:85-89 | decoding the colour of any id gives the id modulo 2^24 |
| ColorId.DecodeEncodeRoundTrip | src/MeshPicker.ts:85-89 | every id below 2^24 comes back unchanged from its colour |
| ColorId.EncodeDecodeRoundTrip | src/MeshPicker.ts:85-89 | every byte triple is the colour of the id it decodes to |
| ColorId.EncodeAliases | src/MeshPicker.ts:124-128 | ids 2^24 apart get the same colour, so the code is exact only below 2^24 |
| MeshPicker.OutlineExec | src/MeshPicker.ts:111 | finds the leftmost case-insensitive "outline", and reports none only when no position matches |
| MeshPicker.OutlineExecIff | src/MeshPicker.ts:111 | the regular-expression test holds exactly when the name contains "outline" in any letter case |
| MeshPicker.TempMaterial | src/MeshPicker.ts:109-128 | invisible substitute iff the name matches /Outline/i or the original is invisible; otherwise colour = id, the original's map, and alphaTest = cutoff for MToon and alphaTest for the rest |
| MeshPicker.TempSlotShape | src/MeshPicker.ts:44-51 | an array is substituted slot for slot, with the same length and the same id in every slot |
| MeshPicker.TempSlotColour | src/MeshPicker.ts:44-54 | every drawn slot of a mesh decodes to that mesh's id |
| MeshPicker.AssignIdsNumbering | src/MeshPicker.ts:36-56 | the k-th visible mesh in traversal order gets id k; `idMeshMap` has exactly the keys 1..n |
| MeshPicker.AssignIdsRecords | src/MeshPicker.ts:34-42 | `meshMaterialMap` and the substitutes cover exactly the visited meshes |
| MeshPicker.AssignIdsDistinct | src/MeshPicker.ts:42-51 | each visited mesh's record is its own material, and its substitute is numbered with its own id |
| MeshPicker.Prepare | src/MeshPicker.ts:93-107 | a target is allocated iff none exists or the renderer size changed; a replaced target is disposed; a reused target changes nothing; afterwards the cached size is the renderer size and at most one target is live |
| MeshPicker.NewPicker | src/MeshPicker.ts:14-20 | the constructor allocates one target of the renderer's size |
| MeshPicker.FlipRow | src/MeshPicker.ts:79 | the row is `height - 1 - y` and lies in [0, height) whenever y does |
| MeshPicker.Pick | src/MeshPicker.ts:22-26 | fails with NotConfigured exactly when the scene or camera is unset, before any other work |
| MeshPicker.ReadAt | src/MeshPicker.ts:76-83 | a read outside the render target's width and height yields nothing; inside it yields the rendered pixel |
| MeshPicker.PickIn | src/MeshPicker.ts:28-91 | the cached size becomes the renderer size; the buffer is the pixel read at the flipped row, or keeps its bytes when the read falls outside the target; a mesh is returned iff the decoded id is in 1..n, it is the mesh numbered with that id, and it is a mesh of the scene |
| MeshPicker.PickOutsideKeepsBuffer | src/MeshPicker.ts:76-90 | a pick at a position outside the target leaves the buffer's previous bytes to be decoded |
| MeshPicker.PickRestoresScene | src/MeshPicker.ts:34-70 | in a scene with unique objects, every object holds exactly its old material after a pick |
| MeshPicker.PickDrawsIds | src/MeshPicker.ts:38-59 | during the render the k-th visible mesh carries its substitute numbered k |
| MeshPicker.PickIdsDistinct | src/MeshPicker.ts:36-54 | distinct ids name distinct meshes, and 0 names none |
| MeshPicker.PickFindsEncodedMesh | src/MeshPicker.ts:85-90 | reading the colour of id k returns the k-th visible mesh |
| MeshPicker.PickBackgroundIsNone | src/MeshPicker.ts:90 | reading black returns null |
| MeshPicker.PickTwiceSame | src/MeshPicker.ts:22-107 | a second pick with nothing changed returns the same mesh, leaves the scene as it was and allocates nothing |
| MeshPicker.PickAfterResizeReallocates | src/MeshPicker.ts:99-104 | a pick after a size change allocates a target of the new size and disposes the old one |
| ReplaceMaterial.ReplaceInArray | src/replaceMaterial.ts:15-22 | the array keeps its length and order, exactly the identical entries are swapped, and the count is their number |
| ReplaceMaterial.Replace | src/replaceMaterial.ts:3-34 | the count equals the number of identical slots in the subtree; read in traversal order, the slots are the old ones with exactly those entries swapped; handles, visibility, non-mesh objects and structure are unchanged |
| ReplaceMaterial.ReplaceAbsent | src/replaceMaterial.ts:10-33 | a subtree holding no identical slot comes back unchanged with count 0 |
| ReplaceMaterial.SecondReplaceIsNoop | src/replaceMaterial.ts:16-27 | when replaceWith differs from lookFor, nothing identical is left, and a second call changes nothing and returns 0 |
| MouseDrag.Register | src/registerMouseEvent.ts:24-62 | a new session is live, has no pending move and a zero sum, listens for move and up, waits for the timer to listen for down, and remembers whether an `up` callback was given |
| MouseDrag.Release | src/registerMouseEvent.ts:50-58 | `up` fires only if the session was live and an `up` callback was given; the session finishes and all listeners are detached either way |
| MouseDrag.Step | src/registerMouseEvent.ts:32-62 | one input triggers at most one callback, and a finished session stays finished |
| MouseDrag.MoveAccumulates | src/registerMouseEvent.ts:44-48 | a move while live adds its delta to the sum and marks a move pending |
| MouseDrag.FrameFlushes | src/registerMouseEvent.ts:36-40 | a frame with a pending move calls `move` once with the sum, then clears the sum and the pending move |
| MouseDrag.FrameIdle | src/registerMouseEvent.ts:36 | a frame with no pending move calls nothing |
| MouseDrag.StepConserves | src/registerMouseEvent.ts:37-47 | one input adds exactly its movement to delivered-plus-pending |
| MouseDrag.Conservation | src/registerMouseEvent.ts:30-47 | while the session is live, the delivered sums plus the pending sum equal all the movement received |
| MouseDrag.SessionConservation | src/registerMouseEvent.ts:24-62 | the same, from registration on |
| MouseDrag.ReleasedOnce | src/registerMouseEvent.ts:50-54 | `up` fires exactly once if the session finished during the run and has an `up` callback, and never otherwise |
| MouseDrag.NoUpNeverReleases | src/registerMouseEvent.ts:24-58 | a session registered without `up`, as the overlay's are, never calls one, whatever its inputs |
| MouseDrag.DoneIsInert | src/registerMouseEvent.ts:33-57 | after `up`, no input reaches a callback |
| MouseDrag.NothingAfterRelease | src/registerMouseEvent.ts:33-58 | no `move` call comes after the `up` call |
| MouseDrag.PendingDroppedOnRelease | src/registerMouseEvent.ts:33-54 | a movement still pending at release is never delivered; the release calls `up` iff the session has one |
| MouseDrag.LateDownListenerHarmless | src/registerMouseEvent.ts:55-62 | a mousedown listener attached after release calls nothing and detaches itself |
| Overlay.Init | src/DraggableImageOverlay.ts:53-54 | the rectangle starts at (128, 128, 128, 128) with aspect 1, so the aspect lock holds |
| Overlay.LoadImage | src/DraggableImageOverlay.ts:57-66 | aspect = width / height and w = h · aspect, with x, y and h unchanged |
| Overlay.Center | src/DraggableImageOverlay.ts:68-72 | the rectangle's horizontal centre is the container's; y, w and h are unchanged |
| Overlay.DragBody | src/DraggableImageOverlay.ts:81-92 | x and y move by the movement sum; w and h are unchanged |
| Overlay.DragSE | src/DraggableImageOverlay.ts:110-122 | the top-left corner stays; w and h grow by the stretch in the aspect; the aspect lock is kept |
| Overlay.DragNW | src/DraggableImageOverlay.ts:94-108 | the bottom-right corner stays; the top-left corner moves by the stretch along the aspect diagonal; the aspect lock is kept |
| Overlay.DragKeepsProportional | src/DraggableImageOverlay.ts:4-7 | every drag keeps w = h · aspect |
| Overlay.DragAdditive | src/DraggableImageOverlay.ts:81-122 | two movements in a row act like one movement by their sum |
| Overlay.DragUndo | src/DraggableImageOverlay.ts:81-122 | dragging back by the opposite movement restores the overlay exactly |
| Overlay.SessionIsOneDrag | src/DraggableImageOverlay.ts:85-120 | however a session splits its movement across frames, the overlay ends where one drag by the delivered total puts it |
| Overlay.SessionFollowsMouse | src/DraggableImageOverlay.ts:85-90 | a live drag has moved the overlay by all the movement received except what is still pending |
| Overlay.LoadThenDrag | src/DraggableImageOverlay.ts:61-120 | after an image load every drag keeps the aspect lock |
| Decal.DecalRect | src/exportDecalTexture.ts:67-72 | the rect is (x/W, 1 - y/H, (x + w)/W, 1 - (y + h)/H) |
| Decal.UvToClip | src/exportDecalTexture.ts:19-20 | UV (u, v) goes to clip (2u - 1, -(2v - 1)), and `ClipToUv` undoes it |
| Decal.UvPlacementOnto | src/exportDecalTexture.ts:19-20 | [0,1]² maps onto [-1,1]², and every clip point is reached |
| Decal.ScreenUv | src/exportDecalTexture.ts:21 | the screen position is the NDC position halved and shifted into [0, 1] |
| Decal.DecalUv | src/exportDecalTexture.ts:22-23 | the decal UV is the screen position relative to the rect's corners, flipped vertically |
| Decal.Vertex | src/exportDecalTexture.ts:17-23 | the vertex is drawn at its UV placement and hands on its decal UV |
| Decal.DiscardIffOutside | src/exportDecalTexture.ts:30-32 | a fragment is discarded iff its decal UV leaves [0,1]² |
| Decal.DecalUvOfPixel | src/exportDecalTexture.ts:21-72 | with w, h ≠ 0, screen pixel (sx, sy) gets decal UV ((sx - x)/w, 1 - (sy - y)/h) |
| Decal.KeptIffInside | src/exportDecalTexture.ts:21-72 | a fragment whose vertex stage placed it at screen pixel (sx, sy) is kept iff that pixel lies inside the overlay rectangle |
| Decal.SwapMap | src/exportDecalTexture.ts:75-80 | the new map is installed and the previous one is disposed, so exactly one installed map stays live |
| Decal.ExportAsWritten | src/exportDecalTexture.ts:39-105 | the decal rect is always updated; the map is swapped iff the texture loads; the renderer gets its old size back only when the load and the blob both succeed |
| Decal.ExportAsWrittenLeavesSize | src/exportDecalTexture.ts:61-76 | a rejected load leaves the renderer at the export size whenever that differs from the old size |
| Decal.Export | src/exportDecalTexture.ts:61-103 | with the size restored on every path, the renderer always ends at its old size, and a successful export is the export as written |
| Decal.ExportKeepsOneLive | src/exportDecalTexture.ts:75-80 | whatever the outcome, exactly one decal map stays live |
| Cameras.CreatePersp | src/CameraManager.ts:87-94 | fov 30 at the window's aspect, near 0.1, far 100 |
| Cameras.CreateOrtho | src/CameraManager.ts:73-85 | symmetric about 0, top − bottom = 5, and right − left = 5 · width / height |
| Cameras.CreateControls | src/CameraManager.ts:96-110 | the previous position and target are carried over, with defaults (0, 1, 5) and (0, 1, 0) |
| Cameras.NewManager | src/CameraManager.ts:15-22 | the manager starts with a perspective camera and the default pose |
| Cameras.ChangeCamera | src/CameraManager.ts:24-34 | the camera is a freshly created one of the requested kind (orthographic for the canvas size, perspective for the window size) and the controls' pose carries over |
| Cameras.ChangeFov | src/CameraManager.ts:36-41 | only a perspective camera takes the new fov; an orthographic one is unchanged |
| Cameras.FovResetBySwap | src/CameraManager.ts:24-41 | a fov set on the perspective camera is lost when the camera is swapped, which brings back fov 30 with the same controls pose |
| Cameras.Reset | src/CameraManager.ts:68-71 | the controls return to the default pose; the camera is untouched |
| Cameras.HandleResizeAsWritten | src/CameraManager.ts:43-57 | as written: the centre, top and bottom are kept, but right − left becomes the viewport width; a perspective camera gets aspect width / height |
| Cameras.HandleResizeAsWrittenStretches | src/CameraManager.ts:47-51 | the default orthographic camera resized to 800 × 600 becomes 800 units wide |
| Cameras.HandleResize | src/CameraManager.ts:43-57 | corrected: the centre, top and bottom are kept, and the frustum takes the viewport's aspect |
| Cameras.ResizeTwice | src/CameraManager.ts:43-57 | only the latest resize counts |
| Cameras.OrthoFitsCanvas | src/CameraManager.ts:73-85 | a new orthographic camera resized to its own canvas size is unchanged |
| Cameras.ResizeAgreesOnPerspective | src/CameraManager.ts:52-54 | on a perspective camera the two resizes agree |
| Cameras.PoseSurvivesSwaps | src/CameraManager.ts:24-71 | swapping cameras keeps the pose, and a reset restores the initial pose |
| App.Start | src/main.ts:22-95 | the page starts with a perspective camera at the window's aspect, a picker sized to the renderer, no model, no selection, no URLs handed out or revoked (so the URL bookkeeping invariant holds from the start), and the UV grid as the one live decal texture |
| App.Highlighted | src/main.ts:126-130 | the override keeps the slot's shape and length, with the highlight in every position |
| App.UnselectMesh | src/main.ts:103-114 | with a model, a selection and a record, the recorded material goes back on the mesh and both fields clear; otherwise nothing changes |
| App.SelectMesh | src/main.ts:116-131 | without a model nothing changes; otherwise a current selection is undone first, then the mesh's material is recorded and the highlight put on it, and nothing else in the scene changes |
| App.SelectThenUnselect | src/main.ts:103-131 | select, then unselect, leaves the scene as it was |
| App.SelectKeepsRestorable | src/main.ts:110-121 | selecting while a mesh is selected restores that mesh first, so any number of selections can be undone back to the same scene |
| App.StartRestorable | src/main.ts:100-101 | the page starts with nothing to undo |
| App.ModelLoaded | src/main.ts:79-85 | a loaded model swaps the scene in and marks the model present; the selection fields and the rest of the page are left alone; undoing a stale selection leaves the new scene unchanged |
| App.ModelLoadedRestorable | src/main.ts:79-114 | whatever was selected before, the loaded model's scene is the one the selection can be undone back to, and the object URLs stay tidy |
| App.SelectLoadClickRestorable | src/main.ts:79-181 | select a mesh, drop a model file, load it and click: the selection stays undoable throughout, back to the new scene after the load |
| App.Click | src/main.ts:175-179 | a click picks at the mouse position; with a model loaded and a mesh hit, the result is `selectMesh` of that mesh on the picked state; otherwise only the pick's effects remain |
| App.ClickMissChangesOnlyPicker | src/main.ts:173-181 | in a scene with unique objects, a click that hits nothing, or comes before any model, changes only the picker state |
| App.ClickKeepsRestorable | src/main.ts:173-181 | in a scene with unique objects, a click keeps the selection undoable back to the same scene |
| App.OnCanvas | src/main.ts:165-181 | mousedown clears the flag, mousemove sets it, and mouseup clicks only when it is clear |
| App.CanvasKeepsRestorable | src/main.ts:165-181 | any sequence of canvas events keeps the selection undoable |
| App.OnCanvasFlag | src/main.ts:165-181 | the flag after any events depends only on the downs and moves among them; a click leaves it alone |
| App.FlagIffNoMove | src/main.ts:163-171 | the flag is clear exactly when no mousemove came since the last mousedown, or none came at all from a clear start |
| App.GateFollowsLastEvent | src/main.ts:163-181 | a mouseup would pick exactly when no mousemove came since the last mousedown |
| App.ClickAfterDownPicks | src/main.ts:165-180 | a mouseup right after a mousedown always picks |
| App.EndsWithIffSplit | src/main.ts:216 | `endsWith` holds exactly when the name is some stem followed by the suffix |
| App.Drop | src/main.ts:210-237 | no file changes nothing; a `.glb`/`.vrm` name revokes the previous model URL and takes a new one; any other name does the same for the image URL; nothing else on the page changes; only the current URLs stay unrevoked |
| App.ImageLoaded | src/main.ts:235 | the overlay takes the decoded image's aspect |
| App.ExportClicked | src/main.ts:240-260 | refuses with NoMesh iff no mesh is selected, else with NoImage iff no image is set; otherwise exports the selected mesh, the current image and the rectangle |
| App.ExportAfterSelectAndDrop | src/main.ts:227-260 | after selecting a mesh of a loaded model and dropping a non-model file, the export takes that mesh and the URL the drop created |
| App.ExportRun | src/exportDecalTexture.ts:61-104 | the export refuses exactly as the guard does; otherwise it changes only the renderer size and the decal texture: the size comes back only when the texture loads and the blob exists, else it stays at the texture size; the texture is swapped iff it loads |
| App.ExportRunKeepsOneLive | src/exportDecalTexture.ts:75-80 | exactly one decal texture stays live after any export |
| App.ClickAfterFailedExportReallocates | src/exportDecalTexture.ts:61-76 | after an export whose texture load fails, the renderer stays at the texture size and the next click renders into a fresh target of that size |
| App.Resize | src/main.ts:184-200 | the camera takes the viewport's aspect (an orthographic one keeps its centre and height) and the renderer takes the window size |
| App.ClickAfterResizeReallocates | src/main.ts:184-199 | after a resize to a new size, the next click renders into a fresh target of that size |

## Left out

- The GPU render, `readRenderTargetPixels`, GLSL compilation and the bake draw call (`compile`, `clear`, `renderBufferDirect`). The picker's render and read are the `readPixel` oracle; the bake shader is modelled as real functions at one vertex and one fragment.
- MeshPicker.PickIn: the render cannot fail, so the path where `renderer.render` throws and the materials stay substituted is not modelled.
- Varying interpolation across a triangle: the decal UV is stated for one screen position, not interpolated between vertices.
- Colour management (`mapTexelToLinear`, the colour space of `new THREE.Color(id)`), tone mapping and alpha-test sampling of textures: the picker's colour is the 8-bit split of the id.
- IEEE floating point: the overlay, decal and camera coordinates are `real`s, so NaN and Infinity have no counterpart.
- MeshPicker.PickIn: the pick position is an integer pair; a fractional `clientX`/`clientY` passed on to `readRenderTargetPixels` is not modelled.
- ReplaceMaterial.ReplaceAbsent: materials are compared as values, not by object identity (`===`); the code also installs a fresh array on every multi-material mesh it visits, so "unchanged" holds up to array identity.
- ReplaceMaterial.Replace: materials are compared as values, as in ReplaceMaterial.ReplaceAbsent, and the fresh arrays are not told apart from the old ones.
- App.ExportRun: the asynchronous stretch between the click and the `toBlob` callback is one step, so no event can come in between (a click during the texture load would see the texture size just the same).
- Overlay.LoadImage: requires a positive image size; a zero height would give an infinite aspect.
- Overlay.DragNW: requires a nonzero aspect, for the same reason. Overlay.DragSE and Overlay.Drag carry the same requirement.
- Decal.DecalRect: requires a positive viewport size.
- Decal.DecalUvOfPixel: requires a nonzero rectangle width and height. Decal.KeptIffInside has the same requirement.
- Cameras.HandleResizeAsWritten: requires an orthographic frustum of nonzero height, otherwise the code divides zero by zero; and, for a perspective camera, a nonzero viewport height, for the aspect `width / height`.
- Cameras.HandleResize: requires a nonzero viewport height.
- `getImageSize` (asynchronous image decode) is not part of this model. Its result is the `width`/`height` argument of `App.ImageLoaded`.
- `textureUVGrid` (asset load) is not part of this model.
- `gui.ts` (UI declarations) is not part of this model.
- The GLTF/VRM loaders and `loadVRM`'s asynchronous steps. Only their completion is modelled, as `App.ModelLoaded`.
- CameraControls internals (`front`, `center`, `update`, `dispose`), `updateProjectionMatrix` and the camera-change observers.
- `canvas.toBlob`, the download anchor, and the creation and revocation of object URLs themselves. URLs are numbers; creating one takes the next number.
- DOM style writes (`__updateImageTransform`), element creation, and `preventDefault`/`stopPropagation`.
- The real timing of `requestAnimationFrame` and `setTimeout`. Frames and the timer are explicit inputs of the drag session.
- `parseInt` of the texture size fields: the export takes integers.
- The main render loop (`update` in `main.ts`).

## Findings

| source | as written | input that shows it | evidently intended | confidence | as-written member | corrected member |
|---|---|---|---|---|---|---|
| src/CameraManager.ts:47-51 | `const height = camera.top - camera.bottom` shadows the `height` parameter, so `hw = 0.5 * height * width / height` is `width / 2` | the default orthographic camera (top − bottom = 5) resized to 800 × 600 becomes 800 units wide instead of 5 · 800 / 600 | half-width `0.5 · (top − bottom) · width / height`, the arithmetic of the resize handler in src/main.ts:187-191 | high; not executed | Cameras.HandleResizeAsWritten | Cameras.HandleResize |
| src/exportDecalTexture.ts:61-64, 76, 95-104 | the renderer is resized before the texture is awaited, and the old size comes back only inside the `toBlob` callback | a texture load that rejects, for an export of 1024 × 1024 from an 800 × 600 viewport, leaves the renderer at 1024 × 1024 | the viewport size is restored on every exit path | medium; not executed | Decal.ExportAsWritten | Decal.Export |
