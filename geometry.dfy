/** The position `center_window` computes: centre a window on a reference rectangle
    (its parent, or else the whole screen), then clamp it to the screen. */
module Geometry {
  import opened Results

  /** A window's `winfo_x`, `winfo_y`, `winfo_width` and `winfo_height`. */
  datatype Rect = Rect(x: int, y: int, width: int, height: int)

  /** The requested size if one is given and non-zero (the source tests its truthiness),
      otherwise the window's own requested size. */
  function SizeOrRequested(requested: Option<int>, own: int): (r: int)
    ensures requested == None || requested == Some(0) ==> r == own
    ensures requested.Some? && requested.value != 0 ==> r == requested.value
  {
    match requested
    case Some(v) => if v != 0 then v else own
    case None => own
  }

  /** Where a window of length `windowLength` starts when centred on a span starting
      at `refStart` of length `refLength`; Python's `//` by 2 is Dafny's `/` by 2, as
      both round toward negative infinity for a positive divisor. The two centres are
      at most half a unit apart. */
  function CentredStart(refStart: int, refLength: int, windowLength: int): (start: int)
    ensures -1 <= 2 * start + windowLength - (2 * refStart + refLength) <= 1
  {
    refStart + refLength / 2 - windowLength / 2
  }

  /** The size and position `center_window` passes to `geometry`. The window is centred
      on its parent when there is one, otherwise on the screen; each axis is then clamped
      the same way: first so that the far edge is on screen, then so that the near edge is. */
  method CenterWindow(
    width: Option<int>, height: Option<int>, reqWidth: int, reqHeight: int,
    parent: Option<Rect>, screenWidth: int, screenHeight: int)
    returns (winWidth: int, winHeight: int, x: int, y: int)
    ensures winWidth == SizeOrRequested(width, reqWidth) && winHeight == SizeOrRequested(height, reqHeight)
    ensures x >= 0 && y >= 0
    ensures winWidth <= screenWidth ==> x + winWidth <= screenWidth
    ensures winHeight <= screenHeight ==> y + winHeight <= screenHeight
    ensures var ref := if parent.Some? then parent.value else Rect(0, 0, screenWidth, screenHeight);
      var cx := CentredStart(ref.x, ref.width, winWidth);
      (0 <= cx && cx + winWidth <= screenWidth ==> x == cx) &&
      (cx + winWidth > screenWidth ==> x == if screenWidth - winWidth < 0 then 0 else screenWidth - winWidth) &&
      (cx < 0 && cx + winWidth <= screenWidth ==> x == 0)
    ensures var ref := if parent.Some? then parent.value else Rect(0, 0, screenWidth, screenHeight);
      var cy := CentredStart(ref.y, ref.height, winHeight);
      (0 <= cy && cy + winHeight <= screenHeight ==> y == cy) &&
      (cy + winHeight > screenHeight ==> y == if screenHeight - winHeight < 0 then 0 else screenHeight - winHeight) &&
      (cy < 0 && cy + winHeight <= screenHeight ==> y == 0)
  {
    winWidth := SizeOrRequested(width, reqWidth);
    winHeight := SizeOrRequested(height, reqHeight);

    var refX, refY, refWidth, refHeight;
    if parent.Some? {
      refX, refY := parent.value.x, parent.value.y;
      refWidth, refHeight := parent.value.width, parent.value.height;
    } else {
      refX, refY := 0, 0;
      refWidth, refHeight := screenWidth, screenHeight;
    }

    x := CentredStart(refX, refWidth, winWidth);
    y := CentredStart(refY, refHeight, winHeight);

    if x + winWidth > screenWidth {
      x := screenWidth - winWidth;
    }
    if y + winHeight > screenHeight {
      y := screenHeight - winHeight;
    }
    if x < 0 {
      x := 0;
    }
    if y < 0 {
      y := 0;
    }
  }
}
