/**
 * Pan and zoom input of src/input.c. The module-level `dragging` flag is the
 * one field of `InputState`; the mouse position SDL_GetMouseState reports is
 * carried by the wheel event. Input moves the current view, never the target,
 * so the frames that follow ease every gesture back to the target view; the
 * handler that moves the target instead is `InputState.HandleTarget`.
 */
module Input {
  import opened Camera

  const ZoomSpeed: real := 0.1
  const ZoomMin: real := 1.0
  const ZoomMax: real := 100.0
  /** SDL_BUTTON_LEFT */
  const ButtonLeft: int := 1

  datatype Event =
    | MouseWheel(wheelY: real, mouseX: real)
    | ButtonDown(button: int)
    | ButtonUp(button: int)
    | MouseMotion(xrel: real, yrel: real)
    | OtherEvent

  /** clamp_camera on offset_y: never below the top. */
  function ClampedY(y: real): (r: real)
    ensures r <= 0.0
    ensures y <= 0.0 ==> r == y
    ensures y > 0.0 ==> r == 0.0
  {
    if y > 0.0 then 0.0 else y
  }

  /** clamp_camera on offset_x: first at most 0, then at least w/zoom - w. */
  function ClampedX(x: real, zoom: real, w: int): (r: real)
    requires zoom > 0.0
    ensures r >= w as real / zoom - w as real
    ensures w as real / zoom - w as real <= x <= 0.0 ==> r == x
    ensures x > 0.0 && w as real / zoom - w as real <= 0.0 ==> r == 0.0
    ensures zoom >= 1.0 && w >= 0 ==> r <= 0.0
  {
    var x1 := if x > 0.0 then 0.0 else x;
    var minX := w as real / zoom - w as real;
    FarthestLeftIsNonPositive(w as real, zoom);
    if x1 < minX then minX else x1
  }

  /** When zoomed in, the leftmost allowed offset is not to the right of 0. */
  lemma FarthestLeftIsNonPositive(w: real, zoom: real)
    requires zoom > 0.0
    ensures w >= 0.0 && zoom >= 1.0 ==> w / zoom - w <= 0.0
  {
    if w >= 0.0 && zoom >= 1.0 {
      assert w / zoom * zoom == w;
      assert w / zoom <= w / zoom * zoom;
    }
  }

  /** The wheel's zoom factor: in when wheel.y > 0, out otherwise (including 0). */
  function ZoomFactor(wheelY: real): (f: real)
    ensures wheelY > 0.0 ==> f == 1.1
    ensures wheelY <= 0.0 ==> f * 1.1 == 1.0
    ensures f > 0.0
  {
    if wheelY > 0.0 then 1.0 + ZoomSpeed else 1.0 / (1.0 + ZoomSpeed)
  }

  /** The zoom after one wheel step, clamped to [ZOOM_MIN, ZOOM_MAX]. */
  function ZoomStep(zoom: real, wheelY: real): (r: real)
    ensures ZoomMin <= r <= ZoomMax
    ensures ZoomMin <= zoom * ZoomFactor(wheelY) <= ZoomMax ==> r == zoom * ZoomFactor(wheelY)
    ensures zoom * ZoomFactor(wheelY) < ZoomMin ==> r == ZoomMin
    ensures zoom * ZoomFactor(wheelY) > ZoomMax ==> r == ZoomMax
  {
    var z := zoom * ZoomFactor(wheelY);
    var z1 := if z < ZoomMin then ZoomMin else z;
    if z1 > ZoomMax then ZoomMax else z1
  }

  /** The offset that keeps the world point under the pointer fixed across a zoom change. */
  function AnchoredOffset(mouseX: real, zoom: real, offsetX: real, newZoom: real): (r: real)
    requires zoom > 0.0 && newZoom > 0.0
    ensures mouseX / newZoom - r == mouseX / zoom - offsetX
  {
    var wx := mouseX / zoom - offsetX;
    mouseX / newZoom - wx
  }

  /** clamp_camera on a view. */
  function Clamp(v: View, w: int): (r: View)
    requires v.zoom > 0.0
    ensures r.zoom == v.zoom
    ensures r.offsetY == ClampedY(v.offsetY) && r.offsetX == ClampedX(v.offsetX, v.zoom, w)
  {
    View(v.zoom, ClampedX(v.offsetX, v.zoom, w), ClampedY(v.offsetY))
  }

  /** The clamp's bounds hold of a view. */
  predicate InBounds(v: View, w: int)
    requires v.zoom > 0.0
  {
    v.offsetY <= 0.0 && v.offsetX >= w as real / v.zoom - w as real
  }

  /** input_handle on the dragging flag and the view. */
  function Step(dragging: bool, v: View, e: Event, w: int): (r: (bool, View))
    requires v.zoom > 0.0
    ensures r.1.zoom > 0.0
    ensures e.MouseWheel? ==> r.0 == dragging && ZoomMin <= r.1.zoom <= ZoomMax && InBounds(r.1, w)
    ensures e.MouseWheel? ==> r.1.offsetY == ClampedY(v.offsetY)
    ensures e.MouseWheel? ==> var z := ZoomStep(v.zoom, e.wheelY);
      r.1 == Clamp(View(z, AnchoredOffset(e.mouseX, v.zoom, v.offsetX, z), v.offsetY), w)
    ensures e.ButtonDown? ==> r.1 == v && r.0 == (e.button == ButtonLeft || dragging)
    ensures e.ButtonUp? ==> r.1 == v && r.0 == (e.button != ButtonLeft && dragging)
    ensures e.MouseMotion? ==> r.0 == dragging
    ensures e.MouseMotion? && !dragging ==> r.1 == v
    ensures e.MouseMotion? && dragging ==> InBounds(r.1, w) && r.1.zoom == v.zoom
    ensures e.MouseMotion? && dragging ==>
      r.1 == Clamp(View(v.zoom, v.offsetX + e.xrel / v.zoom, v.offsetY + e.yrel / v.zoom), w)
    ensures e.OtherEvent? ==> r == (dragging, v)
  {
    match e
    case MouseWheel(wheelY, mouseX) =>
      var z := ZoomStep(v.zoom, wheelY);
      (dragging, Clamp(View(z, AnchoredOffset(mouseX, v.zoom, v.offsetX, z), v.offsetY), w))
    case ButtonDown(b) => (if b == ButtonLeft then true else dragging, v)
    case ButtonUp(b) => (if b == ButtonLeft then false else dragging, v)
    case MouseMotion(xrel, yrel) =>
      if dragging then
        (dragging, Clamp(View(v.zoom, v.offsetX + xrel / v.zoom, v.offsetY + yrel / v.zoom), w))
      else (dragging, v)
    case OtherEvent => (dragging, v)
  }

  /** The wheel keeps the world point under the pointer fixed unless the clamp moves the view. */
  lemma WheelKeepsAnchor(dragging: bool, v: View, wheelY: real, mouseX: real, w: int)
    requires v.zoom > 0.0
    requires var z := ZoomStep(v.zoom, wheelY);
      w as real / z - w as real <= AnchoredOffset(mouseX, v.zoom, v.offsetX, z) <= 0.0
    ensures var r := Step(dragging, v, MouseWheel(wheelY, mouseX), w).1;
      mouseX / r.zoom - r.offsetX == mouseX / v.zoom - v.offsetX
  {
  }

  /** Motion while dragging moves the view by the pointer's travel in world units when no clamp bites. */
  lemma DragFollowsPointer(v: View, xrel: real, yrel: real, w: int)
    requires v.zoom > 0.0
    requires v.offsetY + yrel / v.zoom <= 0.0
    requires w as real / v.zoom - w as real <= v.offsetX + xrel / v.zoom <= 0.0
    ensures Step(true, v, MouseMotion(xrel, yrel), w) == (true, View(v.zoom, v.offsetX + xrel / v.zoom, v.offsetY + yrel / v.zoom))
  {
  }

  /** Once in bounds, every event keeps the view in bounds (the clamp is idempotent). */
  lemma StepKeepsBounds(dragging: bool, v: View, e: Event, w: int)
    requires v.zoom > 0.0 && InBounds(v, w)
    ensures InBounds(Step(dragging, v, e, w).1, w)
  {
  }

  /** clamp_camera applied twice is clamp_camera applied once. */
  lemma ClampIdempotent(v: View, w: int)
    requires v.zoom > 0.0
    ensures Clamp(Clamp(v, w), w) == Clamp(v, w)
  {
  }

  /** clamp_camera: offsets brought back into bounds, in place. */
  method ClampCamera(cam: Camera, w: int)
    requires cam.zoom > 0.0
    modifies cam`offsetX, cam`offsetY
    ensures View(cam.zoom, cam.offsetX, cam.offsetY) == Clamp(View(cam.zoom, old(cam.offsetX), old(cam.offsetY)), w)
  {
    if cam.offsetY > 0.0 {
      cam.offsetY := 0.0;
    }
    if cam.offsetX > 0.0 {
      cam.offsetX := 0.0;
    }
    var minX := w as real / cam.zoom - w as real;
    if cam.offsetX < minX {
      cam.offsetX := minX;
    }
  }

  /** The drag state of input.c. */
  class InputState {
    var dragging: bool

    constructor ()
      ensures !dragging
    {
      dragging := false;
    }

    /** input_handle: changes the current view and the drag flag, never the targets. */
    method Handle(e: Event, cam: Camera, windowW: int, windowH: int)
      requires cam.zoom > 0.0
      modifies this, cam`zoom, cam`offsetX, cam`offsetY
      ensures (dragging, View(cam.zoom, cam.offsetX, cam.offsetY))
           == Step(old(dragging), View(old(cam.zoom), old(cam.offsetX), old(cam.offsetY)), e, windowW)
    {
      match e {
        case MouseWheel(wheelY, mouseX) =>
          var wx := mouseX / cam.zoom - cam.offsetX;
          var factor := if wheelY > 0.0 then 1.0 + ZoomSpeed else 1.0 / (1.0 + ZoomSpeed);
          cam.zoom := cam.zoom * factor;
          if cam.zoom < ZoomMin {
            cam.zoom := ZoomMin;
          }
          if cam.zoom > ZoomMax {
            cam.zoom := ZoomMax;
          }
          cam.offsetX := mouseX / cam.zoom - wx;
          ClampCamera(cam, windowW);
        case ButtonDown(b) =>
          if b == ButtonLeft {
            dragging := true;
          }
        case ButtonUp(b) =>
          if b == ButtonLeft {
            dragging := false;
          }
        case MouseMotion(xrel, yrel) =>
          if dragging {
            cam.offsetX := cam.offsetX + xrel / cam.zoom;
            cam.offsetY := cam.offsetY + yrel / cam.zoom;
            ClampCamera(cam, windowW);
          }
        case OtherEvent =>
      }
    }

    /** The handler the camera's design calls for: the gesture moves the target view and leaves the current one to the frames. */
    method HandleTarget(e: Event, cam: Camera, windowW: int, windowH: int)
      requires cam.targetZoom > 0.0
      modifies this, cam`targetZoom, cam`targetOffsetX, cam`targetOffsetY
      ensures (dragging, View(cam.targetZoom, cam.targetOffsetX, cam.targetOffsetY))
           == Step(old(dragging), View(old(cam.targetZoom), old(cam.targetOffsetX), old(cam.targetOffsetY)), e, windowW)
    {
      var r := Step(dragging, View(cam.targetZoom, cam.targetOffsetX, cam.targetOffsetY), e, windowW);
      dragging := r.0;
      cam.targetZoom, cam.targetOffsetX, cam.targetOffsetY := r.1.zoom, r.1.offsetX, r.1.offsetY;
    }
  }

  /** As written: from a fresh camera, one wheel tick and one capped frame leave the zoom at 1.04, on its way back to the target 1. */
  method WheelThenFrame(w: int) returns (zoom: real, targetZoom: real)
    ensures zoom == 1.04 && targetZoom == 1.0
  {
    var cam := new Camera();
    var input := new InputState();
    input.Handle(MouseWheel(1.0, 0.0), cam, w, 0);
    cam.Update(MaxFrame);
    zoom, targetZoom := cam.zoom, cam.targetZoom;
  }

  /** As written, the zoom 1.1 of a wheel tick at the start view decays to 1 + 0.1 · 0.4^n after n capped frames. */
  lemma WheelZoomEasesBack(w: int, n: nat)
    ensures Step(false, View(1.0, 0.0, 0.0), MouseWheel(1.0, 0.0), w).1.zoom == 1.1
    ensures Smoothing(CameraRate, MaxFrame) == 0.6
    ensures 1.0 - Frames(1.1, 1.0, 0.6, n) == Decayed(-0.1, 0.4, n)
  {
    FramesGap(1.1, 1.0, 0.6, n);
  }

  /** Corrected: the same tick and frame with the gesture on the target leave the zoom at 1.06, on its way to the target 1.1. */
  method TargetedWheelThenFrame(w: int) returns (zoom: real, targetZoom: real)
    ensures zoom == 1.06 && targetZoom == 1.1
  {
    var cam := new Camera();
    var input := new InputState();
    input.HandleTarget(MouseWheel(1.0, 0.0), cam, w, 0);
    cam.Update(MaxFrame);
    zoom, targetZoom := cam.zoom, cam.targetZoom;
  }

  /** Corrected: after the tick on the target, n capped frames bring the zoom to 1.1 − 0.1 · 0.4^n, never leaving [1, 1.1]. */
  lemma TargetedWheelHolds(w: int, n: nat)
    ensures var r := Step(false, View(1.0, 0.0, 0.0), MouseWheel(1.0, 0.0), w).1;
      r.zoom == 1.1 && 1.0 <= Frames(1.0, r.zoom, Smoothing(CameraRate, MaxFrame), n) <= 1.1
    ensures 1.1 - Frames(1.0, 1.1, 0.6, n) == Decayed(0.1, 0.4, n)
  {
    assert Smoothing(CameraRate, MaxFrame) == 0.6;
    FramesGap(1.0, 1.1, 0.6, n);
    FramesBetween(1.0, 1.1, 0.6, n);
  }
}
