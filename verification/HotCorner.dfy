/** The hot corner: where the pointer is, and when a corner's actions fire (`src/corner.c`). */
module HotCorner {
  import opened IdleMonitor
  import opened Options

  datatype Corner = TOP_LEFT | TOP_RIGHT | BOTTOM_LEFT | BOTTOM_RIGHT

  datatype Edge = NEAR | FAR

  /** Actions configured for one corner. */
  datatype Slot = Slot(enter: Action, leave: Action)

  datatype Config = Config(delay: nat, topLeft: Slot, topRight: Slot, bottomLeft: Slot, bottomRight: Slot)

  datatype Box = Box(x: int, y: int, width: int, height: int)

  datatype Point = Point(x: int, y: int)

  /** `deadline` is when the corner's timer fires, if armed. */
  datatype Tracker = Tracker(extents: Box, pointer: Point, corner: Option<Corner>, triggered: bool,
                             deadline: Option<nat>)

  /** An action fired for entering or for leaving a corner. */
  datatype Firing = Enter(corner: Corner) | Leave(corner: Corner)

  datatype Outcome = Outcome(tracker: Tracker, fired: Option<Firing>)

  // ---------- Configuration ----------

  /** The slot a corner uses: the bottom corners use each other's. */
  function SlotOf(c: Config, corner: Corner): Slot {
    match corner
    case TOP_LEFT => c.topLeft
    case TOP_RIGHT => c.topRight
    case BOTTOM_LEFT => c.bottomRight
    case BOTTOM_RIGHT => c.bottomLeft
  }

  /** The slot that the configuration's names promise for a corner. */
  function NamedSlot(c: Config, corner: Corner): Slot {
    match corner
    case TOP_LEFT => c.topLeft
    case TOP_RIGHT => c.topRight
    case BOTTOM_LEFT => c.bottomLeft
    case BOTTOM_RIGHT => c.bottomRight
  }

  function ActionOf(c: Config, f: Firing): Action {
    match f
    case Enter(corner) => SlotOf(c, corner).enter
    case Leave(corner) => SlotOf(c, corner).leave
  }

  /** Corners do what their configured names say exactly when both bottom corners are
      configured alike. */
  lemma NamesHonouredIff(c: Config)
    ensures (forall corner :: SlotOf(c, corner) == NamedSlot(c, corner)) <==> c.bottomLeft == c.bottomRight
  {
    assert SlotOf(c, BOTTOM_LEFT) == c.bottomRight && NamedSlot(c, BOTTOM_LEFT) == c.bottomLeft;
  }

  /** The corner on the other side, at the same height. */
  function Beside(corner: Corner): Corner {
    match corner
    case TOP_LEFT => TOP_RIGHT
    case TOP_RIGHT => TOP_LEFT
    case BOTTOM_LEFT => BOTTOM_RIGHT
    case BOTTOM_RIGHT => BOTTOM_LEFT
  }

  /** Whose configured actions a corner has: its own at the top, those of the corner beside it at
      the bottom, and no other's. */
  lemma SlotsOfIff(corner: Corner, named: Corner)
    ensures (forall c :: SlotOf(c, corner) == NamedSlot(c, named)) <==>
            named == if corner.TOP_LEFT? || corner.TOP_RIGHT? then corner else Beside(corner)
  {
    var own := Slot(LockScreen, NoAction);
    var other := Slot(NoAction, NoAction);
    var c := Config(0, if named.TOP_LEFT? then own else other, if named.TOP_RIGHT? then own else other,
                    if named.BOTTOM_LEFT? then own else other, if named.BOTTOM_RIGHT? then own else other);
    assert SlotOf(c, corner) == NamedSlot(c, named) ==> SlotOf(c, corner) == own;
  }

  // ---------- Where the pointer is ----------

  function EdgeAt(p: int, start: int, size: int): Option<Edge> {
    if p == start then Some(NEAR) else if p >= start + size - 1 then Some(FAR) else None
  }

  function CornerAt(b: Box, p: Point): Option<Corner> {
    if b.width <= 0 || b.height <= 0 then None
    else
      match (EdgeAt(p.x, b.x, b.width), EdgeAt(p.y, b.y, b.height))
      case (Some(NEAR), Some(NEAR)) => Some(TOP_LEFT)
      case (Some(FAR), Some(NEAR)) => Some(TOP_RIGHT)
      case (Some(NEAR), Some(FAR)) => Some(BOTTOM_LEFT)
      case (Some(FAR), Some(FAR)) => Some(BOTTOM_RIGHT)
      case _ => None
  }

  /** The pixel of a corner of the box. */
  function PixelOf(b: Box, corner: Corner): Point {
    Point(if corner.TOP_LEFT? || corner.BOTTOM_LEFT? then b.x else b.x + b.width - 1,
          if corner.TOP_LEFT? || corner.TOP_RIGHT? then b.y else b.y + b.height - 1)
  }

  /** For a pointer inside the box, being in a corner means being on that corner's pixel; in a
      box one pixel wide or high, where pixels coincide, it is then the left or top one. */
  lemma InsideOnlyCornerPixels(b: Box, p: Point, corner: Corner)
    requires b.x <= p.x < b.x + b.width && b.y <= p.y < b.y + b.height
    ensures CornerAt(b, p) == Some(corner) <==>
            && p == PixelOf(b, corner)
            && (b.width == 1 ==> corner.TOP_LEFT? || corner.BOTTOM_LEFT?)
            && (b.height == 1 ==> corner.TOP_LEFT? || corner.TOP_RIGHT?)
  {
  }

  /** For any pointer and box: a left or top corner takes just that edge, a right or bottom one
      its edge and all beyond it, save a pointer that is at the left or top edge too. */
  lemma CornerAtIff(b: Box, p: Point, corner: Corner)
    requires b.width > 0 && b.height > 0
    ensures CornerAt(b, p) == Some(corner) <==>
            && (if corner.TOP_LEFT? || corner.BOTTOM_LEFT? then p.x == b.x
                else b.x < p.x && b.x + b.width <= p.x + 1)
            && (if corner.TOP_LEFT? || corner.TOP_RIGHT? then p.y == b.y
                else b.y < p.y && b.y + b.height <= p.y + 1)
  {
  }

  lemma EmptyHasNoCorner(b: Box, p: Point)
    requires b.width <= 0 || b.height <= 0
    ensures CornerAt(b, p) == None
  {
  }

  // ---------- Transitions ----------

  function Cleared(t: Tracker): Outcome {
    if t.corner == None then Outcome(t, None)
    else
      Outcome(t.(corner := None, triggered := false, deadline := None),
              if t.triggered then Some(Leave(t.corner.value)) else None)
  }

  function Occupied(c: Config, t: Tracker, corner: Corner, now: nat): Outcome {
    if t.corner == Some(corner) then Outcome(t, None)
    else
      var o := Cleared(t);
      Outcome(o.tracker.(corner := Some(corner), deadline := Deadline(now, c.delay)), o.fired)
  }

  function Evaluated(c: Config, t: Tracker, now: nat): Outcome {
    match CornerAt(t.extents, t.pointer)
    case Some(corner) => Occupied(c, t, corner, now)
    case None => Cleared(t)
  }

  function Relaid(c: Config, t: Tracker, extents: Box, now: nat): Outcome {
    Evaluated(c, t.(extents := extents), now)
  }

  function Moved(c: Config, t: Tracker, pointer: Point, now: nat): Outcome {
    if t.pointer == pointer then Outcome(t, None) else Evaluated(c, t.(pointer := pointer), now)
  }

  /** The timer's callback; the event loop disarms the timer when it fires. */
  function TimerRan(t: Tracker): Outcome {
    Outcome(t.(triggered := true, deadline := None),
            if t.corner == None then None else Some(Enter(t.corner.value)))
  }

  function Started(c: Config, extents: Box, pointer: Point, now: nat): Tracker {
    Evaluated(c, Tracker(extents, pointer, None, false, None), now).tracker
  }

  // ---------- What every transition keeps ----------

  /** The corner on record is where the pointer really is, and the timer is armed exactly while
      the corner waits to be triggered. */
  ghost predicate Tracks(c: Config, t: Tracker) {
    && t.corner == CornerAt(t.extents, t.pointer)
    && (t.triggered ==> t.corner.Some? && c.delay > 0)
    && (t.deadline.Some? <==> t.corner.Some? && !t.triggered && c.delay > 0)
  }

  /** What may fire when `t` becomes `o.tracker`: a triggered corner is left when it changes,
      and a corner is entered only while it stays the same. */
  ghost predicate FiresProperly(t: Tracker, o: Outcome) {
    match o.fired
    case None => o.tracker.triggered == t.triggered && (t.triggered ==> o.tracker.corner == t.corner)
    case Some(Leave(k)) => t.triggered && t.corner == Some(k) && o.tracker.corner != t.corner && !o.tracker.triggered
    case Some(Enter(k)) => !t.triggered && t.corner == o.tracker.corner == Some(k) && o.tracker.triggered
  }

  lemma StartTracks(c: Config, extents: Box, pointer: Point, now: nat)
    ensures Tracks(c, Started(c, extents, pointer, now))
    ensures !Started(c, extents, pointer, now).triggered
  {
  }

  lemma MovedTracks(c: Config, t: Tracker, pointer: Point, now: nat)
    requires Tracks(c, t)
    ensures Tracks(c, Moved(c, t, pointer, now).tracker) && FiresProperly(t, Moved(c, t, pointer, now))
  {
  }

  lemma RelaidTracks(c: Config, t: Tracker, extents: Box, now: nat)
    requires Tracks(c, t)
    ensures Tracks(c, Relaid(c, t, extents, now).tracker) && FiresProperly(t, Relaid(c, t, extents, now))
  {
  }

  lemma TimerTracks(c: Config, t: Tracker, now: nat)
    requires Tracks(c, t) && Due(t.deadline, now)
    ensures Tracks(c, TimerRan(t).tracker) && FiresProperly(t, TimerRan(t))
  {
  }
}
