/**
  The drawing session: the tool and stroke state of the `app` object and the
  order in which its actions snapshot the history and change the buffer.
  Stroke rendering is the browser rasteriser's business; each action that
  strokes receives the buffer the rasteriser produced as a parameter.
 */
module Drawing {
  import opened Pixels
  import opened HexColor
  import History
  import Fill

  datatype Tool = Brush | Eraser | Bucket

  /** The global `state` together with the canvas contents. */
  datatype Session = Session(
    isDrawing: bool,
    tool: Tool,
    color: string,
    history: seq<Image>,
    canvas: Image)

  /**
    The session's standing invariant: a valid colour string, a bounded
    history, and every snapshot of the same geometry as the canvas.
   */
  predicate Valid(s: Session) {
    && s.canvas.Valid()
    && ValidHex(s.color)
    && |s.history| <= History.MaxHistory
    && forall k :: 0 <= k < |s.history| ==> SameShape(s.history[k], s.canvas)
  }

  /** A rendered stroke buffer the rasteriser may hand back: same geometry as the canvas. */
  predicate Rendered(s: Session, stroke: Image) {
    SameShape(stroke, s.canvas)
  }

  /**
    `clearCanvas`: when allowed to proceed (no confirmation asked, or the
    user confirmed) save the buffer, then paint every pixel white.
   */
  function ClearCanvas(s: Session, proceed: bool): (r: Session)
    requires Valid(s)
    ensures Valid(r)
    ensures !proceed ==> r == s
    ensures proceed ==> |r.history| > 0 && r.history[|r.history| - 1] == s.canvas
    ensures proceed ==> r.history == History.Save(s.history, s.canvas, History.MaxHistory)
    ensures proceed ==> SameShape(r.canvas, s.canvas)
    ensures proceed ==> forall p :: InBounds(r.canvas, p) ==> At(r.canvas, p) == White
    ensures r.tool == s.tool && r.isDrawing == s.isDrawing && r.color == s.color
  {
    if proceed then
      s.(history := History.Save(s.history, s.canvas, History.MaxHistory),
         canvas := Solid(s.canvas.width, s.canvas.height, White))
    else s
  }

  /**
    `resizeCanvas`: the bitmap is reallocated at the new size (transparent),
    cleared to white through `clearCanvas(false)`, which saves a snapshot,
    and then the history is emptied, so that snapshot is gone too.
   */
  function Resize(s: Session, w: int, h: int): (r: Session)
    requires ValidHex(s.color) && w > 0 && h > 0
    ensures Valid(r)
    ensures r.history == []
    ensures r.canvas.width == w && r.canvas.height == h
    ensures forall p :: InBounds(r.canvas, p) ==> At(r.canvas, p) == White
    ensures r.tool == s.tool && r.isDrawing == s.isDrawing && r.color == s.color
  {
    var reallocated := Solid(w, h, Transparent);
    var cleared := s.(history := History.Save(s.history, reallocated, History.MaxHistory),
                      canvas := Solid(w, h, White));
    cleared.(history := [])
  }

  /** The session after `init`: the default `state` on whatever bitmap the page had, then one resize. */
  function Init(w: int, h: int): (r: Session)
    requires w > 0 && h > 0
    ensures Valid(r)
    ensures !r.isDrawing && r.tool == Brush && r.color == "#11111b" && r.history == []
    ensures r.canvas.width == w && r.canvas.height == h
    ensures forall p :: InBounds(r.canvas, p) ==> At(r.canvas, p) == White
  {
    Resize(Session(false, Brush, "#11111b", [], Solid(300, 150, Transparent)), w, h)
  }

  /** `setTool`: selecting a tool touches neither the buffer nor the history. */
  function SetTool(s: Session, t: Tool): (r: Session)
    ensures r.tool == t
    ensures Valid(s) ==> Valid(r)
    ensures r.isDrawing == s.isDrawing && r.history == s.history && r.canvas == s.canvas
    ensures r.color == s.color
  {
    s.(tool := t)
  }

  /** `setColor`: record the colour; choosing a colour with the eraser selected switches to the brush. */
  function SetColor(s: Session, c: string): (r: Session)
    requires Valid(s) && ValidHex(c)
    ensures Valid(r)
    ensures r.color == c
    ensures r.tool != Eraser
    ensures s.tool == Eraser ==> r.tool == Brush
    ensures s.tool != Eraser ==> r.tool == s.tool
    ensures r.isDrawing == s.isDrawing && r.history == s.history && r.canvas == s.canvas
  {
    var chosen := s.(color := c);
    if s.tool == Eraser then SetTool(chosen, Brush) else chosen
  }

  /**
    `startDraw` at (x, y). The bucket saves the buffer and fills from the
    seed with the current colour, and never enters drawing mode. Brush and
    eraser save the buffer, enter drawing mode and lay down the rasterised
    initial dot, `stroke`.
   */
  method StartDraw(s: Session, x: int, y: int, stroke: Image) returns (r: Session)
    requires Valid(s) && Rendered(s, stroke)
    ensures Valid(r)
    ensures r.tool == s.tool && r.color == s.color
    ensures |r.history| > 0 && r.history[|r.history| - 1] == s.canvas
    ensures r.history == History.Save(s.history, s.canvas, History.MaxHistory)
    ensures s.tool == Bucket ==> r.isDrawing == s.isDrawing
    ensures s.tool == Bucket ==> forall p :: InBounds(s.canvas, p) ==>
      At(r.canvas, p) == (if Fill.Filled(s.canvas, Point(x, y), HexToRgba(s.color), p)
                          then Fill.Paint(HexToRgba(s.color)) else At(s.canvas, p))
    ensures s.tool != Bucket ==> r.isDrawing && r.canvas == stroke
    ensures History.Undo(r.history, r.canvas).canvas == s.canvas
  {
    var saved := History.Save(s.history, s.canvas, History.MaxHistory);
    History.SaveThenUndo(s.history, s.canvas, s.canvas, History.MaxHistory);
    if s.tool == Bucket {
      var filled, _ := Fill.FloodFill(s.canvas, Point(x, y), HexToRgba(s.color));
      r := s.(history := saved, canvas := filled);
    } else {
      r := s.(history := saved, isDrawing := true, canvas := stroke);
    }
  }

  /** `draw`: ignored unless a stroke is in progress, when the rasterised extension replaces the buffer. */
  function Draw(s: Session, stroke: Image): (r: Session)
    requires Valid(s) && Rendered(s, stroke)
    ensures Valid(r)
    ensures !s.isDrawing ==> r == s
    ensures s.isDrawing ==> r.canvas == stroke
    ensures r.history == s.history && r.tool == s.tool && r.isDrawing == s.isDrawing
    ensures r.color == s.color
  {
    if s.isDrawing then s.(canvas := stroke) else s
  }

  /** `stopDraw`: leaves drawing mode; nothing else changes. */
  function StopDraw(s: Session): (r: Session)
    ensures !r.isDrawing
    ensures r.(isDrawing := s.isDrawing) == s
  {
    if s.isDrawing then s.(isDrawing := false) else s
  }

  /** `undo` on the session: pop the newest snapshot into the canvas, if there is one. */
  function Undo(s: Session): (r: Session)
    requires Valid(s)
    ensures Valid(r)
    ensures |s.history| == 0 ==> r == s
    ensures |s.history| > 0 ==> r.canvas == s.history[|s.history| - 1] && r.history + [r.canvas] == s.history
    ensures r.tool == s.tool && r.isDrawing == s.isDrawing && r.color == s.color
  {
    var restored := History.Undo(s.history, s.canvas);
    s.(history := restored.history, canvas := restored.canvas)
  }

  /** A stroke that has been stopped cannot be extended: `draw` after `stopDraw` changes nothing. */
  lemma DrawAfterStop(s: Session, stroke: Image)
    requires Valid(s) && Rendered(s, stroke)
    ensures Draw(StopDraw(s), stroke) == StopDraw(s)
  {
  }

  /** Clearing is one undoable action: undo right after it brings the old canvas back. */
  lemma UndoClear(s: Session)
    requires Valid(s)
    ensures Undo(ClearCanvas(s, true)).canvas == s.canvas
    ensures |s.history| < History.MaxHistory ==> Undo(ClearCanvas(s, true)).history == s.history
  {
  }

  /** After a resize there is nothing to undo. */
  lemma UndoAfterResize(s: Session, w: int, h: int)
    requires ValidHex(s.color) && w > 0 && h > 0
    ensures Undo(Resize(s, w, h)) == Resize(s, w, h)
  {
  }
}
