/** The uinput touch daemon's re-emitter, `write_status`.

    For contact ids 0 and 1 it remembers whether the contact is down and
    where it was last reported, and turns each `(id, x, y, state)` callback
    into evdev writes: multi-touch slot events, the single-touch `BTN_TOUCH`
    key and the `ABS_X`/`ABS_Y` axes, closed by a report and a `syn()`.

    `ui.write(type, code, value)` becomes a `Write` in the output list and
    `ui.syn()` becomes `Syn`. To give the output a meaning, `Apply` reads the
    events as a multi-touch (protocol B) device does, and `Consistent` ties
    that device to the daemon's remembered status.
 */
module UInput {

  datatype EventType = EvSyn | EvKey | EvAbs

  datatype EventCode =
    | SynReport
    | BtnTouch
    | AbsX
    | AbsY
    | AbsMtSlot
    | AbsMtTrackingId
    | AbsMtPositionX
    | AbsMtPositionY

  datatype Event = Write(kind: EventType, code: EventCode, value: int) | Syn

  datatype Point = Point(x: int, y: int)

  /** `last_status` and `last_status_xy`: one entry per supported contact. */
  datatype Status = Status(down: seq<bool>, at: seq<Point>)

  /** Contact ids above this are ignored. */
  const MaxId: nat := 1

  /** Tracking id written when a contact lifts. */
  const NoContact: int := -1

  predicate Valid(s: Status)
  {
    |s.down| == MaxId + 1 && |s.at| == MaxId + 1
  }

  /** The module-level state before the first callback: nothing down, both
      positions at the origin. */
  function Init(): (s: Status)
    ensures Valid(s)
    ensures forall id :: 0 <= id <= MaxId ==> !s.down[id] && s.at[id] == Point(0, 0)
  {
    Status([false, false], [Point(0, 0), Point(0, 0)])
  }

  function Slot(id: int): Event { Write(EvAbs, AbsMtSlot, id) }
  function TrackingId(v: int): Event { Write(EvAbs, AbsMtTrackingId, v) }
  function MtX(x: int): Event { Write(EvAbs, AbsMtPositionX, x) }
  function MtY(y: int): Event { Write(EvAbs, AbsMtPositionY, y) }
  function AbsXEvent(x: int): Event { Write(EvAbs, AbsX, x) }
  function AbsYEvent(y: int): Event { Write(EvAbs, AbsY, y) }
  function BtnTouchEvent(v: int): Event { Write(EvKey, BtnTouch, v) }

  /** Every batch ends with a report followed by `syn()`. */
  function Frame(): seq<Event> { [Write(EvSyn, SynReport, 0), Syn] }

  /** The three ways a call for a supported id can find its contact. */
  predicate FirstPress(s: Status, id: nat, state: bool)
    requires Valid(s) && id <= MaxId
  {
    state && !s.down[id]
  }

  predicate Move(s: Status, id: nat, x: int, y: int, state: bool)
    requires Valid(s) && id <= MaxId
  {
    state && s.down[id] && Point(x, y) != s.at[id]
  }

  predicate Lift(s: Status, id: nat, state: bool)
    requires Valid(s) && id <= MaxId
  {
    !state && s.down[id]
  }

  /** `write_status(touch_id, x, y, touch_state)`: the new status and the
      events written, in order. */
  function WriteStatus(s: Status, id: nat, x: int, y: int, state: bool): (res: (Status, seq<Event>))
    requires Valid(s)
    ensures Valid(res.0)
    ensures id > MaxId ==> res.0 == s && res.1 == []
    ensures id <= MaxId && state ==> res.0.down[id] && res.0.at[id] == Point(x, y)
    ensures id <= MaxId && !state ==> !res.0.down[id] && res.0.at == s.at
    ensures forall other :: 0 <= other <= MaxId && other != id ==>
              res.0.down[other] == s.down[other] && res.0.at[other] == s.at[other]
    ensures res.1 == [] <==> id > MaxId || (!state && !s.down[id])
    ensures res.1 != [] ==> |res.1| >= 3 && res.1[0] == Slot(id) && res.1[|res.1| - 2..] == Frame()
  {
    if id > MaxId then
      (s, [])
    else if state then
      var body :=
        if !s.down[id] then
          [TrackingId(id), MtX(x), MtY(y), BtnTouchEvent(1), AbsXEvent(x), AbsYEvent(y)]
        else if !s.down[id] || Point(x, y) != s.at[id] then
          (if x != s.at[id].x then [AbsXEvent(x)] else [])
          + (if y != s.at[id].y then [AbsYEvent(y)] else [])
          + [MtX(x), MtY(y)]
        else
          [];
      (Status(s.down[id := true], s.at[id := Point(x, y)]), [Slot(id)] + body + Frame())
    else if !state && s.down[id] then
      (Status(s.down[id := false], s.at), [Slot(id), TrackingId(NoContact), BtnTouchEvent(0)] + Frame())
    else
      (s, [])
  }

  // ---------------------------------------------------------------------
  // The event batches of each case

  lemma FirstPressEvents(s: Status, id: nat, x: int, y: int)
    requires Valid(s) && id <= MaxId && !s.down[id]
    ensures WriteStatus(s, id, x, y, true).1
            == [Slot(id), TrackingId(id), MtX(x), MtY(y), BtnTouchEvent(1), AbsXEvent(x), AbsYEvent(y),
                Write(EvSyn, SynReport, 0), Syn]
  {
  }

  lemma MoveEvents(s: Status, id: nat, x: int, y: int)
    requires Valid(s) && id <= MaxId && Move(s, id, x, y, true)
    ensures var events := WriteStatus(s, id, x, y, true).1;
            var axes := (if x != s.at[id].x then [AbsXEvent(x)] else [])
                        + (if y != s.at[id].y then [AbsYEvent(y)] else []);
            && 1 <= |axes| <= 2
            && events == [Slot(id)] + axes + [MtX(x), MtY(y), Write(EvSyn, SynReport, 0), Syn]
  {
  }

  lemma StationaryPressEvents(s: Status, id: nat)
    requires Valid(s) && id <= MaxId && s.down[id]
    ensures WriteStatus(s, id, s.at[id].x, s.at[id].y, true) == (s, [Slot(id), Write(EvSyn, SynReport, 0), Syn])
  {
    assert s.down[id := true] == s.down;
    assert s.at[id := Point(s.at[id].x, s.at[id].y)] == s.at;
    assert [Slot(id)] + [] + Frame() == [Slot(id), Write(EvSyn, SynReport, 0), Syn];
  }

  lemma LiftEvents(s: Status, id: nat, x: int, y: int)
    requires Valid(s) && id <= MaxId && Lift(s, id, false)
    ensures WriteStatus(s, id, x, y, false).1
            == [Slot(id), TrackingId(NoContact), BtnTouchEvent(0), Write(EvSyn, SynReport, 0), Syn]
  {
  }

  /** A release of a contact that is not down, or any call for an
      unsupported id, writes nothing and changes nothing. */
  lemma IgnoredCalls(s: Status, id: nat, x: int, y: int, state: bool)
    requires Valid(s)
    requires id > MaxId || (!state && !s.down[id])
    ensures WriteStatus(s, id, x, y, state) == (s, [])
  {
  }

  /** A repeated call is silent apart from the slot selection and the frame. */
  lemma RepeatedPressIsStationary(s: Status, id: nat, x: int, y: int)
    requires Valid(s) && id <= MaxId
    ensures var first := WriteStatus(s, id, x, y, true);
            WriteStatus(first.0, id, x, y, true) == (first.0, [Slot(id), Write(EvSyn, SynReport, 0), Syn])
  {
    var first := WriteStatus(s, id, x, y, true);
    StationaryPressEvents(first.0, id);
  }

  // ---------------------------------------------------------------------
  // What a multi-touch device makes of the events

  /** Per-slot tracking ids and positions, the selected slot, and the
      single-touch key and axes. */
  datatype Device = Device(
    slot: int,
    tracking: map<int, int>,
    mtX: map<int, int>,
    mtY: map<int, int>,
    touch: int,
    absX: int,
    absY: int)

  /** A fresh device: slot 0 selected, no contact in either slot. */
  function InitDevice(): (d: Device)
    ensures forall id :: 0 <= id <= MaxId ==> id in d.tracking && d.tracking[id] == NoContact
  {
    Device(0, map[0 := NoContact, 1 := NoContact], map[], map[], 0, 0, 0)
  }

  /** The device's reading of one event. */
  function Apply(d: Device, e: Event): Device
  {
    match e
    case Syn => d
    case Write(kind, code, v) =>
      if kind == EvAbs && code == AbsMtSlot then d.(slot := v)
      else if kind == EvAbs && code == AbsMtTrackingId then d.(tracking := d.tracking[d.slot := v])
      else if kind == EvAbs && code == AbsMtPositionX then d.(mtX := d.mtX[d.slot := v])
      else if kind == EvAbs && code == AbsMtPositionY then d.(mtY := d.mtY[d.slot := v])
      else if kind == EvAbs && code == AbsX then d.(absX := v)
      else if kind == EvAbs && code == AbsY then d.(absY := v)
      else if kind == EvKey && code == BtnTouch then d.(touch := v)
      else d
  }

  function ApplyAll(d: Device, events: seq<Event>): Device
    decreases |events|
  {
    if events == [] then d else ApplyAll(Apply(d, events[0]), events[1..])
  }

  lemma {:induction false} ApplyAllConcat(d: Device, a: seq<Event>, b: seq<Event>)
    ensures ApplyAll(d, a + b) == ApplyAll(ApplyAll(d, a), b)
    decreases |a|
  {
    if a != [] {
      assert (a + b)[0] == a[0];
      assert (a + b)[1..] == a[1..] + b;
      ApplyAllConcat(Apply(d, a[0]), a[1..], b);
    } else {
      assert a + b == b;
    }
  }

  lemma ApplyAllCons(d: Device, e: Event, rest: seq<Event>)
    ensures ApplyAll(d, [e] + rest) == ApplyAll(Apply(d, e), rest)
  {
    assert ([e] + rest)[1..] == rest;
  }

  lemma ApplyAllOne(d: Device, e: Event)
    ensures ApplyAll(d, [e]) == Apply(d, e)
  {
    ApplyAllCons(d, e, []);
    assert [e] + [] == [e];
  }

  /** The closing report and `syn()` leave the device as it was. */
  lemma ApplyFrame(d: Device)
    ensures ApplyAll(d, Frame()) == d
  {
    assert Frame() == [Write(EvSyn, SynReport, 0)] + [Syn];
    ApplyAllCons(d, Write(EvSyn, SynReport, 0), [Syn]);
    ApplyAllOne(d, Syn);
  }

  /** The device's slot for `id` says what the daemon remembers: the contact
      is tracked under its own id exactly when it is down, at the remembered
      position. */
  predicate SlotAgrees(s: Status, d: Device, id: nat)
    requires Valid(s) && id <= MaxId
  {
    && id in d.tracking
    && d.tracking[id] == (if s.down[id] then id else NoContact)
    && (s.down[id] ==> id in d.mtX && id in d.mtY && d.mtX[id] == s.at[id].x && d.mtY[id] == s.at[id].y)
  }

  predicate Consistent(s: Status, d: Device)
  {
    Valid(s) && SlotAgrees(s, d, 0) && SlotAgrees(s, d, 1)
  }

  lemma InitConsistent()
    ensures Consistent(Init(), InitDevice())
  {
  }

  /** The events of one call bring the device into line with the new status,
      leave the written slot selected, and drive the single-touch key: down
      after a first press, up after a release. */
  lemma {:induction false} WriteStatusKeepsDevice(s: Status, d: Device, id: nat, x: int, y: int, state: bool)
    requires Consistent(s, d)
    ensures var res := WriteStatus(s, id, x, y, state);
            var d' := ApplyAll(d, res.1);
            && Consistent(res.0, d')
            && (res.1 != [] ==> d'.slot == id)
            && (id <= MaxId && FirstPress(s, id, state) ==> d'.touch == 1 && d'.absX == x && d'.absY == y)
            && (id <= MaxId && Lift(s, id, state) ==> d'.touch == 0)
  {
    var res := WriteStatus(s, id, x, y, state);
    if id > MaxId || (!state && !s.down[id]) {
      assert res.1 == [];
    } else {
      var body := res.1[1..|res.1| - 2];
      assert res.1 == [Slot(id)] + body + Frame();
      ApplyAllConcat(d, [Slot(id)] + body, Frame());
      ApplyFrame(ApplyAll(d, [Slot(id)] + body));
      ApplyAllCons(d, Slot(id), body);
      var d1 := Apply(d, Slot(id));
      if state && !s.down[id] {
        ApplyFirstPress(d1, id, x, y);
      } else if state {
        ApplyMove(s, d1, id, x, y);
      } else {
        ApplyLift(d1, id);
      }
    }
  }

  /** The first-press body, read in the slot `id` already selected. */
  lemma ApplyFirstPress(d: Device, id: nat, x: int, y: int)
    requires d.slot == id
    ensures var d' := ApplyAll(d, [TrackingId(id), MtX(x), MtY(y), BtnTouchEvent(1), AbsXEvent(x), AbsYEvent(y)]);
            && d' == d.(tracking := d.tracking[id := id], mtX := d.mtX[id := x], mtY := d.mtY[id := y],
                        touch := 1, absX := x, absY := y)
  {
    var d1 := Apply(d, TrackingId(id));
    var d2 := Apply(d1, MtX(x));
    var d3 := Apply(d2, MtY(y));
    var d4 := Apply(d3, BtnTouchEvent(1));
    var d5 := Apply(d4, AbsXEvent(x));
    ApplyAllCons(d, TrackingId(id), [MtX(x), MtY(y), BtnTouchEvent(1), AbsXEvent(x), AbsYEvent(y)]);
    ApplyAllCons(d1, MtX(x), [MtY(y), BtnTouchEvent(1), AbsXEvent(x), AbsYEvent(y)]);
    ApplyAllCons(d2, MtY(y), [BtnTouchEvent(1), AbsXEvent(x), AbsYEvent(y)]);
    ApplyAllCons(d3, BtnTouchEvent(1), [AbsXEvent(x), AbsYEvent(y)]);
    ApplyAllCons(d4, AbsXEvent(x), [AbsYEvent(y)]);
    ApplyAllOne(d5, AbsYEvent(y));
  }

  /** The release body, read in the slot `id` already selected. */
  lemma ApplyLift(d: Device, id: nat)
    requires d.slot == id
    ensures ApplyAll(d, [TrackingId(NoContact), BtnTouchEvent(0)]) == d.(tracking := d.tracking[id := NoContact], touch := 0)
  {
    ApplyAllCons(d, TrackingId(NoContact), [BtnTouchEvent(0)]);
    ApplyAllOne(Apply(d, TrackingId(NoContact)), BtnTouchEvent(0));
  }

  /** The move body (or the empty body of a stationary press), read in the
      slot `id` already selected. */
  lemma ApplyMove(s: Status, d: Device, id: nat, x: int, y: int)
    requires Valid(s) && id <= MaxId && s.down[id] && d.slot == id && SlotAgrees(s, d, id)
    ensures var events := WriteStatus(s, id, x, y, true).1;
            var d' := ApplyAll(d, events[1..|events| - 2]);
            && d'.slot == id && d'.tracking == d.tracking && d'.touch == d.touch
            && d'.mtX == d.mtX[id := x] && d'.mtY == d.mtY[id := y]
  {
    var events := WriteStatus(s, id, x, y, true).1;
    var body := events[1..|events| - 2];
    if Point(x, y) != s.at[id] {
      var ax := if x != s.at[id].x then [AbsXEvent(x)] else [];
      var ay := if y != s.at[id].y then [AbsYEvent(y)] else [];
      assert body == ax + ay + [MtX(x), MtY(y)];
      ApplyAllConcat(d, ax + ay, [MtX(x), MtY(y)]);
      ApplyAllConcat(d, ax, ay);
      var da := ApplyAll(d, ax);
      var db := ApplyAll(da, ay);
      if ax != [] { ApplyAllOne(d, AbsXEvent(x)); }
      if ay != [] { ApplyAllOne(da, AbsYEvent(y)); }
      ApplyAllCons(db, MtX(x), [MtY(y)]);
      ApplyAllOne(Apply(db, MtX(x)), MtY(y));
    } else {
      assert body == [];
      assert d.mtX[id := x] == d.mtX && d.mtY[id := y] == d.mtY;
    }
  }
}
