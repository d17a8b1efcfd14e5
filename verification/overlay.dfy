/**
 * The draggable decal rectangle of `DraggableImageOverlay`
 * (src/DraggableImageOverlay.ts): its `__rect` and `__aspect`, the aspect set
 * when an image loads, centring, and the three drag handlers (body, north-west
 * handle, south-east handle), each of which is the `move` callback of a drag
 * session.
 */
module Overlay {
  import opened MouseDrag

  /** `{ x, y, w, h }` in CSS pixels: top-left corner, width and height. */
  datatype Rect = Rect(x: real, y: real, w: real, h: real)

  /** The overlay's state. */
  datatype Overlay = Overlay(rect: Rect, aspect: real)

  /** Which element the drag started on. */
  datatype Grip = Body | HandleNW | HandleSE

  /** The aspect lock the class's doc comment promises: `w = h · aspect`. */
  predicate Proportional(o: Overlay) {
    o.rect.w == o.rect.h * o.aspect
  }

  /** The constructor's rectangle and aspect. */
  function Init(): (o: Overlay)
    ensures o.rect == Rect(128.0, 128.0, 128.0, 128.0) && o.aspect == 1.0
    ensures Proportional(o)
  {
    Overlay(Rect(128.0, 128.0, 128.0, 128.0), 1.0)
  }

  /**
   * `loadImage` once the image size is known: the aspect becomes the image's
   * and the width is recomputed from the height.
   */
  function LoadImage(o: Overlay, width: real, height: real): (r: Overlay)
    requires width > 0.0 && height > 0.0
    ensures r.aspect * height == width && r.aspect > 0.0
    ensures Proportional(r)
    ensures r.rect.x == o.rect.x && r.rect.y == o.rect.y && r.rect.h == o.rect.h
  {
    var aspect := width / height;
    Overlay(o.rect.(w := o.rect.h * aspect), aspect)
  }

  /** `center`: the rectangle is centred horizontally in a container of the given width. */
  function Center(o: Overlay, containerWidth: real): (r: Overlay)
    ensures r.rect.x + r.rect.w / 2.0 == containerWidth / 2.0
    ensures r.rect.y == o.rect.y && r.rect.w == o.rect.w && r.rect.h == o.rect.h
    ensures r.aspect == o.aspect
  {
    Overlay(o.rect.(x := (containerWidth - o.rect.w) / 2.0), o.aspect)
  }

  /** Body drag: the rectangle is translated by the movement sum. */
  function DragBody(o: Overlay, d: Delta): (r: Overlay)
    ensures r.rect.x - o.rect.x == d.x && r.rect.y - o.rect.y == d.y
    ensures r.rect.w == o.rect.w && r.rect.h == o.rect.h && r.aspect == o.aspect
  {
    Overlay(o.rect.(x := o.rect.x + d.x, y := o.rect.y + d.y), o.aspect)
  }

  /**
   * The resize amount of both handles: the mean of the horizontal movement and
   * the vertical movement converted to width units.
   */
  function Stretch(o: Overlay, d: Delta): (v: real)
    ensures 2.0 * v == d.x + d.y * o.aspect
  {
    (d.x + d.y * o.aspect) / 2.0
  }

  /**
   * South-east handle: the top-left corner stays, and width and height grow by
   * the stretch in the overlay's aspect.
   */
  function DragSE(o: Overlay, d: Delta): (r: Overlay)
    requires o.aspect != 0.0
    ensures r.rect.x == o.rect.x && r.rect.y == o.rect.y && r.aspect == o.aspect
    ensures r.rect.w - o.rect.w == Stretch(o, d)
    ensures (r.rect.h - o.rect.h) * o.aspect == Stretch(o, d)
    ensures Proportional(o) ==> Proportional(r)
  {
    var v := Stretch(o, d);
    Overlay(o.rect.(w := o.rect.w + v, h := o.rect.h + v / o.aspect), o.aspect)
  }

  /**
   * North-west handle: the bottom-right corner stays, and the top-left corner
   * moves along the aspect diagonal by the stretch.
   */
  function DragNW(o: Overlay, d: Delta): (r: Overlay)
    requires o.aspect != 0.0
    ensures r.rect.x + r.rect.w == o.rect.x + o.rect.w
    ensures r.rect.y + r.rect.h == o.rect.y + o.rect.h
    ensures r.rect.x - o.rect.x == Stretch(o, d) && (r.rect.y - o.rect.y) * o.aspect == Stretch(o, d)
    ensures r.aspect == o.aspect
    ensures Proportional(o) ==> Proportional(r)
  {
    var v := Stretch(o, d);
    Overlay(Rect(o.rect.x + v, o.rect.y + v / o.aspect, o.rect.w - v, o.rect.h - v / o.aspect), o.aspect)
  }

  /** The `move` callback the grip installs. */
  function Drag(o: Overlay, g: Grip, d: Delta): (r: Overlay)
    requires o.aspect != 0.0
    ensures r.aspect == o.aspect
  {
    match g
    case Body => DragBody(o, d)
    case HandleNW => DragNW(o, d)
    case HandleSE => DragSE(o, d)
  }

  /** Every `move` call of a drag session applied in order; `up` does nothing here. */
  function ApplySession(o: Overlay, g: Grip, os: seq<Output>): (r: Overlay)
    requires o.aspect != 0.0
    ensures r.aspect == o.aspect
    decreases |os|
  {
    if os == [] then o
    else if os[0].Moved? then ApplySession(Drag(o, g, os[0].sum), g, os[1..])
    else ApplySession(o, g, os[1..])
  }

  // ------------------------------------------------------------------ lemmas

  /** Every drag keeps the aspect lock. */
  lemma DragKeepsProportional(o: Overlay, g: Grip, d: Delta)
    requires o.aspect != 0.0 && Proportional(o)
    ensures Proportional(Drag(o, g, d))
  {
  }

  /** The stretch is linear in the movement. */
  lemma StretchAdditive(o: Overlay, d1: Delta, d2: Delta)
    ensures Stretch(o, d1.Plus(d2)) == Stretch(o, d1) + Stretch(o, d2)
  {
    assert (d1.y + d2.y) * o.aspect == d1.y * o.aspect + d2.y * o.aspect;
  }

  lemma DivSum(v1: real, v2: real, a: real)
    requires a != 0.0
    ensures v1 / a + v2 / a == (v1 + v2) / a
  {
  }

  /** Two movements in a row have the effect of their sum: each drag is additive in the movement. */
  lemma DragAdditive(o: Overlay, g: Grip, d1: Delta, d2: Delta)
    requires o.aspect != 0.0
    ensures Drag(Drag(o, g, d1), g, d2) == Drag(o, g, d1.Plus(d2))
  {
    var o1 := Drag(o, g, d1);
    assert Stretch(o1, d2) == Stretch(o, d2);
    StretchAdditive(o, d1, d2);
    DivSum(Stretch(o, d1), Stretch(o, d2), o.aspect);
  }

  /** Dragging back by the opposite movement restores the overlay exactly. */
  lemma DragUndo(o: Overlay, g: Grip, d: Delta)
    requires o.aspect != 0.0
    ensures Drag(Drag(o, g, d), g, Delta(-d.x, -d.y)) == o
  {
    DragAdditive(o, g, d, Delta(-d.x, -d.y));
    assert d.Plus(Delta(-d.x, -d.y)) == Zero;
  }

  /**
   * However a session splits the movement across frames, the overlay ends
   * where one drag by the delivered total puts it.
   */
  lemma {:induction false} SessionIsOneDrag(o: Overlay, g: Grip, os: seq<Output>)
    requires o.aspect != 0.0
    ensures ApplySession(o, g, os) == Drag(o, g, Delivered(os))
    decreases |os|
  {
    if os == [] {
      assert Drag(o, g, Zero) == o;
    } else if os[0].Moved? {
      SessionIsOneDrag(Drag(o, g, os[0].sum), g, os[1..]);
      DragAdditive(o, g, os[0].sum, Delivered(os[1..]));
    } else {
      SessionIsOneDrag(o, g, os[1..]);
    }
  }

  /**
   * A drag that started from registration and has not been released has moved
   * the overlay by one drag of the delivered movement, which is all the
   * movement received except what a frame has yet to deliver.
   */
  lemma SessionFollowsMouse(o: Overlay, g: Grip, ins: seq<Input>)
    requires o.aspect != 0.0
    ensures var r := Run(Register(false), ins);
            !r.0.isDone ==>
              ApplySession(o, g, r.1) == Drag(o, g, Delivered(r.1)) &&
              Delivered(r.1).Plus(r.0.sum) == Moves(ins)
  {
    SessionConservation(false, ins);
    SessionIsOneDrag(o, g, Run(Register(false), ins).1);
  }

  /** Loading an image keeps the aspect lock usable by the drags. */
  lemma LoadThenDrag(o: Overlay, width: real, height: real, g: Grip, d: Delta)
    requires width > 0.0 && height > 0.0
    ensures Proportional(Drag(LoadImage(o, width, height), g, d))
  {
    DragKeepsProportional(LoadImage(o, width, height), g, d);
  }
}
