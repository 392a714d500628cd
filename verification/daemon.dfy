/** The uinput touch daemon as a whole: a driver whose registered handler,
    `handle_touch`, passes every dispatched tuple to `write_status`.

    One interrupt decodes the report block, and each call the decoder makes
    is forwarded, in order, to the re-emitter; the events written by all of
    them form the interrupt's output.
 */
module Daemon {
  import Decoder
  import UInput

  /** The identity of `handle_touch`, the one handler the daemon registers. */
  const HandleTouch: nat := 0

  datatype System = System(touch: Decoder.Touch, status: UInput.Status)

  /** The re-emitter's memory follows the driver's table: a supported id is
      down exactly when the driver's last tuple for it says pressed, and a
      down contact sits where that tuple puts it. */
  ghost predicate Agrees(touches: map<nat, Decoder.Contact>, s: UInput.Status)
    requires UInput.Valid(s)
  {
    && (forall id: nat :: id <= UInput.MaxId ==>
          s.down[id] == (id in touches && touches[id].pressed))
    && (forall id: nat :: id <= UInput.MaxId && id in touches && touches[id].pressed ==>
          s.at[id] == UInput.Point(touches[id].x, touches[id].y))
  }

  /** The daemon's state between interrupts: `handle_touch` is the handler,
      the table is keyed by contact id, and the status agrees with it. */
  ghost predicate Valid(sys: System)
  {
    && UInput.Valid(sys.status)
    && sys.touch.handler == Decoder.Callable(HandleTouch)
    && Decoder.WellKeyed(sys.touch.touches)
    && Agrees(sys.touch.touches, sys.status)
  }

  /** Construction of the driver, registration of `handle_touch`, and the
      initial `last_status` / `last_status_xy`. */
  function Start(): (sys: System)
    ensures Valid(sys)
    ensures sys.touch.handler == Decoder.Callable(HandleTouch) && sys.touch.touches == map[]
  {
    System(Decoder.OnTouch(Decoder.Init(), Decoder.Callable(HandleTouch)), UInput.Init())
  }

  /** `handle_touch` applied to each call in turn. An id no call mentions
      keeps its status, and the list's last call, when its id is supported,
      decides that id. */
  function Forward(s: UInput.Status, calls: seq<Decoder.Call>): (res: (UInput.Status, seq<UInput.Event>))
    requires UInput.Valid(s)
    ensures UInput.Valid(res.0)
    ensures calls == [] ==> res == (s, [])
    ensures forall id :: 0 <= id <= UInput.MaxId && (forall i :: 0 <= i < |calls| ==> calls[i].args.id != id) ==>
              res.0.down[id] == s.down[id] && res.0.at[id] == s.at[id]
    ensures calls != [] ==>
              var c := calls[|calls| - 1].args;
              c.id <= UInput.MaxId ==>
                res.0.down[c.id] == c.pressed && (c.pressed ==> res.0.at[c.id] == UInput.Point(c.x, c.y))
    decreases |calls|
  {
    if calls == [] then (s, [])
    else
      var c := calls[0].args;
      var first := UInput.WriteStatus(s, c.id, c.x, c.y, c.pressed);
      var rest := Forward(first.0, calls[1..]);
      (rest.0, first.1 + rest.1)
  }

  /** One falling edge: decode, dispatch, re-emit. */
  function Interrupt(sys: System, data: seq<Decoder.Byte>): (res: (System, seq<UInput.Event>))
    requires Valid(sys) && |data| == Decoder.ReportLength
    ensures Valid(res.0)
    ensures res.0.touch == Decoder.Interrupt(sys.touch, data).0
  {
    var decoded := Decoder.Interrupt(sys.touch, data);
    InterruptAgrees(sys, data);
    var forwarded := Forward(sys.status, decoded.1);
    (System(decoded.0, forwarded.0), forwarded.1)
  }

  /** Forwarding two lists one after the other is forwarding their concatenation. */
  lemma {:induction false} ForwardConcat(s: UInput.Status, a: seq<Decoder.Call>, b: seq<Decoder.Call>)
    requires UInput.Valid(s)
    ensures Forward(s, a + b).0 == Forward(Forward(s, a).0, b).0
    decreases |a|
  {
    if a == [] {
      assert a + b == b;
    } else {
      var c := a[0].args;
      var first := UInput.WriteStatus(s, c.id, c.x, c.y, c.pressed);
      assert (a + b)[1..] == a[1..] + b;
      ForwardConcat(first.0, a[1..], b);
    }
  }

  /** Forwarding one call is one `write_status`. */
  lemma ForwardOne(s: UInput.Status, call: Decoder.Call)
    requires UInput.Valid(s)
    ensures var c := call.args;
            Forward(s, [call]) == UInput.WriteStatus(s, c.id, c.x, c.y, c.pressed)
  {
    var c := call.args;
    var first := UInput.WriteStatus(s, c.id, c.x, c.y, c.pressed);
    assert [call][1..] == [];
    assert Forward(first.0, []) == (first.0, []);
    assert first.1 + [] == first.1;
  }

  /** One slot's compare-store-dispatch, followed by forwarding the call it
      makes, keeps the status in agreement with the table. */
  lemma {:induction false} StepAgrees(t: Decoder.Touch, s: UInput.Status, c: Decoder.Contact)
    requires UInput.Valid(s) && t.handler == Decoder.Callable(HandleTouch)
    requires Agrees(t.touches, s)
    ensures var step := Decoder.DispatchSlot(t, c);
            Agrees(step.0.touches, Forward(s, step.1).0)
  {
    var step := Decoder.DispatchSlot(t, c);
    if step.1 != [] {
      ForwardOne(s, step.1[0]);
      assert step.1 == [Decoder.Call(HandleTouch, c)];
    }
  }

  /** Both slots of an interrupt, forwarded in order, keep the agreement. */
  lemma {:induction false} InterruptAgrees(sys: System, data: seq<Decoder.Byte>)
    requires Valid(sys) && |data| == Decoder.ReportLength
    ensures var decoded := Decoder.Interrupt(sys.touch, data);
            Agrees(decoded.0.touches, Forward(sys.status, decoded.1).0)
  {
    var c0 := Decoder.DecodeContact(Decoder.SlotBytes(data, 0));
    var c1 := Decoder.DecodeContact(Decoder.SlotBytes(data, 1));
    var step0 := Decoder.DispatchSlot(sys.touch, c0);
    var step1 := Decoder.DispatchSlot(step0.0, c1);
    assert Decoder.ProcessSlots(sys.touch, data, 1) == (step0.0, [] + step0.1);
    assert [] + step0.1 == step0.1;
    assert Decoder.Interrupt(sys.touch, data) == (step1.0, step0.1 + step1.1);
    StepAgrees(sys.touch, sys.status, c0);
    var f0 := Forward(sys.status, step0.1);
    StepAgrees(step0.0, f0.0, c1);
    ForwardConcat(sys.status, step0.1, step1.1);
  }

  /** Forwarding any list of calls keeps a consistent device consistent. */
  lemma {:induction false} ForwardKeepsDevice(s: UInput.Status, d: UInput.Device, calls: seq<Decoder.Call>)
    requires UInput.Consistent(s, d)
    ensures var res := Forward(s, calls);
            UInput.Consistent(res.0, UInput.ApplyAll(d, res.1))
    decreases |calls|
  {
    if calls != [] {
      var c := calls[0].args;
      var first := UInput.WriteStatus(s, c.id, c.x, c.y, c.pressed);
      UInput.WriteStatusKeepsDevice(s, d, c.id, c.x, c.y, c.pressed);
      var d1 := UInput.ApplyAll(d, first.1);
      ForwardKeepsDevice(first.0, d1, calls[1..]);
      var rest := Forward(first.0, calls[1..]);
      UInput.ApplyAllConcat(d, first.1, rest.1);
    }
  }

  /** Every interrupt leaves the multi-touch device describing exactly the
      contacts the daemon believes are down, starting from a fresh device. */
  lemma {:induction false} InterruptKeepsDevice(sys: System, d: UInput.Device, data: seq<Decoder.Byte>)
    requires Valid(sys) && UInput.Consistent(sys.status, d) && |data| == Decoder.ReportLength
    ensures var res := Interrupt(sys, data);
            UInput.Consistent(res.0.status, UInput.ApplyAll(d, res.1))
  {
    ForwardKeepsDevice(sys.status, d, Decoder.Interrupt(sys.touch, data).1);
  }

  lemma StartConsistent()
    ensures UInput.Consistent(Start().status, UInput.InitDevice())
  {
    UInput.InitConsistent();
  }

  /** A report with distinct slot ids, or equal slot tuples, delivered
      twice writes no input events the second time and leaves the daemon as
      it was. */
  lemma RepeatWritesNothing(sys: System, data: seq<Decoder.Byte>)
    requires Valid(sys) && |data| == Decoder.ReportLength
    requires Decoder.DecodeContact(Decoder.SlotBytes(data, 0)).id != Decoder.DecodeContact(Decoder.SlotBytes(data, 1)).id
             || Decoder.DecodeContact(Decoder.SlotBytes(data, 0)) == Decoder.DecodeContact(Decoder.SlotBytes(data, 1))
    ensures var first := Interrupt(sys, data);
            Interrupt(first.0, data) == (first.0, [])
  {
    Decoder.RepeatIsSilent(sys.touch, data);
  }
}
