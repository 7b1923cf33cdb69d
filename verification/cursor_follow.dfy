/** The custom cursor: whether it is shown (the provider's `active` flag
    driven by `pointermove`, `pointerout`, `mouseout` and visibility events) and where a follower element
    is placed relative to it (`calculateOffset` and the follow update).
    Element rectangles and events are parameters. */
module CursorFollow {
  import opened Wrappers

  datatype Point = Point(x: real, y: real)

  /** An element's bounding rectangle size. */
  datatype Rect = Rect(width: real, height: real)

  // ---------------------------------------------------------------------
  // The active flag

  /** Where a `pointerout` or `mouseout` event's `relatedTarget` lies: there is none,
      or it is inside or outside the local container's parent. */
  datatype Related = NoRelated | InsideParent | OutsideParent

  /** The events the provider listens to. `parent` is the local
      container's parent position at the time of a move; `isPointerEvent`
      tells a `pointerout` from a `mouseout`. */
  datatype CursorEvent =
    | PointerMove(client: Point, parent: Point)
    | PointerOut(isPointerEvent: bool, related: Related)
    | VisibilityChange(hidden: bool)

  datatype CursorState = CursorState(position: Point, active: bool)

  /** Does `e` switch the cursor off? In global mode a `pointerout` with
      no related target, or the page becoming hidden; in local mode any
      `pointerout` or `mouseout` whose related target is missing or outside
      the parent (visibility is not listened to). */
  predicate Deactivates(global: bool, e: CursorEvent) {
    match e
    case PointerMove(_, _) => false
    case PointerOut(isPointerEvent, related) =>
      if global then isPointerEvent && related == NoRelated else related != InsideParent
    case VisibilityChange(hidden) => global && hidden
  }

  /** The provider's response to one event. */
  function Step(global: bool, s: CursorState, e: CursorEvent): (r: CursorState)
    ensures e.PointerMove? ==> r.active
    ensures Deactivates(global, e) ==> !r.active
    ensures !e.PointerMove? && !Deactivates(global, e) ==> r == s
    ensures !e.PointerMove? ==> r.position == s.position
  {
    match e
    case PointerMove(client, parent) =>
      var pos := if global then client else Point(client.x - parent.x, client.y - parent.y);
      CursorState(pos, true)
    case PointerOut(_, _) =>
      if Deactivates(global, e) then s.(active := false) else s
    case VisibilityChange(_) =>
      if Deactivates(global, e) then s.(active := false) else s
  }

  /** The state after a run of events. */
  function Run(global: bool, s: CursorState, events: seq<CursorEvent>): CursorState
    decreases |events|
  {
    if |events| == 0 then s else Run(global, Step(global, s, events[0]), events[1..])
  }

  /** The verdict of the last event that decides the flag: `true` for a
      move, `false` for a deactivating event, nothing when no event
      decides. */
  function LastDecision(global: bool, events: seq<CursorEvent>): (r: Option<bool>)
    decreases |events|
  {
    if |events| == 0 then None
    else
      var e := events[|events| - 1];
      if e.PointerMove? then Some(true)
      else if Deactivates(global, e) then Some(false)
      else LastDecision(global, events[..|events| - 1])
  }

  /** After any run of events the cursor is shown exactly when the last
      deciding event was a move (or, when none decided, as before). */
  lemma {:induction false} RunActive(global: bool, s: CursorState, events: seq<CursorEvent>)
    ensures Run(global, s, events).active == LastDecision(global, events).GetOr(s.active)
    decreases |events|
  {
    if |events| > 0 {
      var n := |events| - 1;
      RunSnoc(global, s, events[..n], events[n]);
      assert events[..n] + [events[n]] == events;
      RunActive(global, s, events[..n]);
    }
  }

  /** Running one more event is one more step. */
  lemma {:induction false} RunSnoc(global: bool, s: CursorState, events: seq<CursorEvent>, e: CursorEvent)
    ensures Run(global, s, events + [e]) == Step(global, Run(global, s, events), e)
    decreases |events|
  {
    if |events| == 0 {
      assert events + [e] == [e];
    } else {
      assert (events + [e])[1..] == events[1..] + [e];
      RunSnoc(global, Step(global, s, events[0]), events[1..], e);
    }
  }

  /** In global mode a `mouseout`, or a `pointerout` into another element,
      never hides the cursor. */
  lemma GlobalOutKeepsActive(s: CursorState, isPointerEvent: bool, related: Related)
    requires !isPointerEvent || related != NoRelated
    ensures Step(true, s, PointerOut(isPointerEvent, related)) == s
  {
  }

  // ---------------------------------------------------------------------
  // The follower's offset

  datatype Side = Top | Right | Bottom | Left

  datatype Align = Start | Center | End

  /** The follower's props; `None` is an omitted prop. */
  datatype FollowProps = FollowProps(side: Option<Side>, sideOffset: Option<real>,
                                     align: Option<Align>, alignOffset: Option<real>)

  /** The cross-axis offset for an alignment and the follower's extent
      along that axis. */
  function AlignShift(align: Align, extent: real, alignOffset: real): (r: real)
    ensures align == Start ==> r == extent + alignOffset
    ensures align == Center ==> r == extent / 2.0
    ensures align == End ==> r == -alignOffset
  {
    match align
    case Start => extent + alignOffset
    case Center => extent / 2.0
    case End => -alignOffset
  }

  /** `calculateOffset()`, with the follower's rectangle `rect` (none when
      it is not mounted, which counts as 0 by 0). */
  function CalculateOffset(props: FollowProps, rect: Option<Rect>): (o: Point)
    ensures var side := props.side.GetOr(Bottom);
      var so := props.sideOffset.GetOr(0.0);
      var w := if rect.Some? then rect.value.width else 0.0;
      var h := if rect.Some? then rect.value.height else 0.0;
      && (side == Top ==> o.y == h + so)
      && (side == Bottom ==> o.y == -so)
      && (side == Left ==> o.x == w + so)
      && (side == Right ==> o.x == -so)
    ensures var side := props.side.GetOr(Bottom);
      var al := props.align.GetOr(End);
      var ao := props.alignOffset.GetOr(0.0);
      var w := if rect.Some? then rect.value.width else 0.0;
      var h := if rect.Some? then rect.value.height else 0.0;
      && (side in {Top, Bottom} ==> o.x == AlignShift(al, w, ao))
      && (side in {Left, Right} ==> o.y == AlignShift(al, h, ao))
  {
    var side := props.side.GetOr(Bottom);
    var sideOffset := props.sideOffset.GetOr(0.0);
    var align := props.align.GetOr(End);
    var alignOffset := props.alignOffset.GetOr(0.0);
    var width := if rect.Some? then rect.value.width else 0.0;
    var height := if rect.Some? then rect.value.height else 0.0;
    match side
    case Top => Point(AlignShift(align, width, alignOffset), height + sideOffset)
    case Bottom => Point(AlignShift(align, width, alignOffset), -sideOffset)
    case Left => Point(width + sideOffset, AlignShift(align, height, alignOffset))
    case Right => Point(-sideOffset, AlignShift(align, height, alignOffset))
  }

  /** The follower's target: the cursor position, minus the offset, plus
      half the cursor's size (20 by 20 when the cursor is not mounted). */
  function FollowTarget(cursor: Point, offset: Point, cursorRect: Option<Rect>): (t: Point)
    ensures cursorRect.None? ==> t == Point(cursor.x - offset.x + 10.0, cursor.y - offset.y + 10.0)
    ensures cursorRect.Some? ==> t == Point(cursor.x - offset.x + cursorRect.value.width / 2.0,
                                            cursor.y - offset.y + cursorRect.value.height / 2.0)
  {
    var cw := if cursorRect.Some? then cursorRect.value.width else 20.0;
    var ch := if cursorRect.Some? then cursorRect.value.height else 20.0;
    Point(cursor.x - offset.x + cw / 2.0, cursor.y - offset.y + ch / 2.0)
  }

  function Swap(p: Point): Point { Point(p.y, p.x) }

  function Turn(side: Side): Side {
    match side
    case Top => Left
    case Bottom => Right
    case Left => Top
    case Right => Bottom
  }

  /** The four sides are two copies of one rule: turning the side a
      quarter (top to left, bottom to right) and transposing the
      rectangle transposes the offset. */
  lemma OffsetTransposes(props: FollowProps, w: real, h: real)
    ensures CalculateOffset(props.(side := Some(Turn(props.side.GetOr(Bottom)))), Some(Rect(h, w))) ==
      Swap(CalculateOffset(props, Some(Rect(w, h))))
  {
  }

  /** The default side and alignment, bottom and end, give the offset
      (-alignOffset, -sideOffset) whatever the follower's size, and (0, 0)
      when the offsets are left out as well. */
  lemma DefaultOffset(sideOffset: Option<real>, alignOffset: Option<real>, rect: Option<Rect>)
    ensures CalculateOffset(FollowProps(None, sideOffset, None, alignOffset), rect) ==
      Point(-alignOffset.GetOr(0.0), -sideOffset.GetOr(0.0))
  {
  }

  /** A centred follower on the top or bottom side is centred on the
      cursor horizontally; on the left or right side, vertically. */
  lemma CenteredFollower(props: FollowProps, rect: Rect, cursor: Point, cursorRect: Option<Rect>)
    requires props.align == Some(Center)
    ensures var t := FollowTarget(cursor, CalculateOffset(props, Some(rect)), cursorRect);
      var cw := if cursorRect.Some? then cursorRect.value.width else 20.0;
      var ch := if cursorRect.Some? then cursorRect.value.height else 20.0;
      && (props.side.GetOr(Bottom) in {Top, Bottom} ==> t.x + rect.width / 2.0 == cursor.x + cw / 2.0)
      && (props.side.GetOr(Bottom) in {Left, Right} ==> t.y + rect.height / 2.0 == cursor.y + ch / 2.0)
  {
  }
}
