# HyperPixel 2 Round touch: decoder and uinput re-emitter

This project models two small sequential state machines of the HyperPixel 2
Round touch stack and proves properties of them in Dafny.

- **`Decoder`** (`decoder.dfy`) models the driver's interrupt handler,
  `Touch._handle_interrupt`. It reads a 12-byte block from the touch
  controller, and the block always holds two 6-byte slot records. The count
  register is read and then overwritten with 2. For each slot the handler:
  - takes the event-flag nibble from byte 0 and the contact id from the high
    nibble of byte 2;
  - masks both nibbles out and unpacks the record as big-endian `>HHBB`;
  - derives `pressed`: bit 7 sets it, then bit 6 clears it;
  - compares the tuple `(id, x, y, pressed)` with the `_touches` entry for
    that id, stores it, and calls the handler only when it changed.

  `on_touch` stores a single handler and replaces any earlier one. The I2C
  reads become parameters. Each call of the handler becomes a `Call` in an
  output list.
- **`UInput`** (`uinput.dfy`) models `write_status` in the uinput daemon. It
  is a pure transition from `(last_status, last_status_xy, callback)` to a new
  state and the list of evdev events written. `ui.write` becomes `Write`. `ui.syn()`
  becomes `Syn`. To give the events a meaning, `Apply`/`ApplyAll` read them the
  way a multi-touch protocol-B device does: the selected slot, each slot's
  tracking id and position, the `BTN_TOUCH` key and `ABS_X`/`ABS_Y`.
  `Consistent` says that this device and the daemon's remembered status agree.
- **`Daemon`** (`daemon.dfy`) composes the two modules. The driver has the
  daemon's `handle_touch` registered, and every call it dispatches is passed
  to `write_status` in order.

Facts about the slot layout that the code fixes:
- x is the low nibble of byte 0 followed by byte 1. y is the low nibble of
  byte 2 followed by byte 3.
- The contact id is the whole high nibble of byte 2, so it ranges over
  0 to 15, not just 0 and 1.
- The decoder validates nothing. Every 12-byte block decodes to two tuples.
  An exception can still leave `_handle_interrupt` early. A failed
  `read_byte_data` or `read_i2c_block_data` (lines 25 and 29 of
  `library/hyperpixel2r/__init__.py`) raises before any table change or
  call. A raising handler (line 53) stops the loop after the current
  slot's tuple is stored. These paths are not modelled (see "Left out").

`Daemon.Valid` ties the two halves together. The handler is
`handle_touch`, and for ids 0 and 1 the re-emitter's `last_status` and
`last_status_xy` follow the driver's `_touches` table. An id is down
exactly when its stored tuple says pressed. A down contact sits at that
tuple's position. Every interrupt that arrives after `handle_touch` is
registered, and whose `ui.write` calls do not raise, keeps this agreement.

Duplicate suppression does not make a repeated report silent in every case.
If both slots carry the same id with different tuples, every delivery of that
report dispatches again. `Decoder.SharedIdRepeats` exhibits such a report.
`Decoder.RepeatIsSilent` holds when the two ids differ or the two tuples are equal.

## Model

| member | source | states |
|---|---|---|
| Decoder.Init | library/hyperpixel2r/__init__.py:14-15 | a new driver has an empty touch table and no callable handler |
| Decoder.OnTouch | library/hyperpixel2r/__init__.py:21-22 | registering a handler replaces the stored handler and leaves the touch table alone |
| Decoder.BigEndian16 | library/hyperpixel2r/__init__.py:38 | the unpacked 16-bit field is below 65536 and splits back into its high and low byte |
| Decoder.SlotBytes | library/hyperpixel2r/__init__.py:31-33 | slot i's record is the six bytes starting at offset 6*i of the block |
| Decoder.DecodeSlot | library/hyperpixel2r/__init__.py:33-38 | the flag nibble is byte 0's high nibble, the id is byte 2 div 16, x is (byte0 mod 16)*256+byte1, y is (byte2 mod 16)*256+byte3, and the trailing fields are bytes 4 and 5 |
| Decoder.Pressed | library/hyperpixel2r/__init__.py:40-44 | the status is pressed exactly when bit 7 of the flag nibble is set and bit 6 is clear; bit 6 always wins |
| Decoder.DecodeContact | library/hyperpixel2r/__init__.py:32-46 | the tuple has id below 16 and x, y below 4096, with those formulas; pressed holds exactly when bit 7 is set and bit 6 is clear |
| Decoder.IgnoredBytes | library/hyperpixel2r/__init__.py:36-38 | records that differ only in bytes 4-5 or in flag bits 4-5 decode to the same tuple |
| Decoder.SameContactIff | library/hyperpixel2r/__init__.py:34-46 | two records decode to the same tuple if and only if they agree on byte 0's low nibble, bytes 1-3, and the press reading of the flags |
| Decoder.EncodeSlot | library/hyperpixel2r/__init__.py:34-38 | the canonical record of an in-range tuple is six byte values, each in 0..255 |
| Decoder.DecodeEncode | library/hyperpixel2r/__init__.py:34-46 | every record holding the canonical values of an in-range tuple decodes to that tuple |
| Decoder.EncodeDecode | library/hyperpixel2r/__init__.py:34-46 | a record whose flag nibble is a plain press or a plain release holds exactly the canonical values of the tuple it decodes to |
| Decoder.DispatchSlot | library/hyperpixel2r/__init__.py:48-53 | afterwards the table maps the id to the tuple, all other entries are unchanged, none are removed, and keys stay matched to ids; a call happens iff the handler is callable and the tuple differs from the entry (a missing entry counts as different), and it carries the stored tuple |
| Decoder.ProcessSlots | library/hyperpixel2r/__init__.py:30-53 | processing the first n slots keeps the handler and id keying, makes at most n calls, all to the registered handler and only when it is callable, each carrying one of those slots' tuples, and stores the last slot's tuple under its id |
| Decoder.Interrupt | library/hyperpixel2r/__init__.py:27-53 | exactly slots 0 and 1 are processed, in that order; slot 1 is compared against the table as slot 0 left it; the final table and the list of calls are given slot by slot |
| Decoder.HandleInterrupt | library/hyperpixel2r/__init__.py:24-53 | the loop over the forced count of two slots computes the same table and calls as Interrupt, whatever the count register held |
| Decoder.RepeatIsSilent | library/hyperpixel2r/__init__.py:48-51 | a report with distinct slot ids (or equal slot tuples) delivered a second time makes no call and changes nothing |
| Decoder.SharedIdRepeats | library/hyperpixel2r/__init__.py:30-51 | a report whose slots share id 0 but differ in x dispatches both slots again on a repeat delivery |
| Decoder.TableIgnoresHandler | library/hyperpixel2r/__init__.py:50-53 | the table is updated identically whether or not a callable handler is registered |
| Decoder.LatestHandlerOnly | library/hyperpixel2r/__init__.py:21-22 | after two registrations every call goes to the second handler, and a non-callable one receives none |
| Decoder.TwoContactScenario | library/hyperpixel2r/__init__.py:24-53 | id 0 pressed at (100, 200) in slot 0 and id 1 released at (50, 75) in slot 1 give exactly those two calls, slot 0 first |
| Decoder.PressReleaseScenario | library/hyperpixel2r/__init__.py:40-53 | a press and then a release at the same position on the next edge give the press call and then the release call |
| UInput.Init | examples/uinput-touch.py:112-113 | both contacts start up, at (0, 0) |
| UInput.WriteStatus | examples/uinput-touch.py:116-150 | ids above 1 change nothing and write nothing; a press leaves the contact down at (x, y); a release leaves it up with its position kept; the other id is untouched; events are written iff the id is supported and the call is not a release of a contact already up; every batch opens with the slot and closes with a report and syn |
| UInput.FirstPressEvents | examples/uinput-touch.py:120-141 | a press of a contact that is up writes slot, tracking id, MT x, MT y, BTN_TOUCH 1, ABS_X, ABS_Y, report, syn |
| UInput.MoveEvents | examples/uinput-touch.py:131-141 | a press at a new position of a contact already down writes slot, ABS_X only if x changed, ABS_Y only if y changed, MT x, MT y, report, syn |
| UInput.StationaryPressEvents | examples/uinput-touch.py:120-141 | a press at the remembered position of a contact already down writes only slot, report, syn, and changes nothing |
| UInput.LiftEvents | examples/uinput-touch.py:143-150 | a release of a contact that is down writes slot, tracking id -1, BTN_TOUCH 0, report, syn |
| UInput.IgnoredCalls | examples/uinput-touch.py:116-150 | an id above 1, or a release of a contact already up, writes nothing and changes nothing |
| UInput.RepeatedPressIsStationary | examples/uinput-touch.py:120-141 | the same press given twice writes only slot, report, syn the second time |
| UInput.InitConsistent | examples/uinput-touch.py:112-113 | the initial status agrees with a fresh multi-touch device |
| UInput.WriteStatusKeepsDevice | examples/uinput-touch.py:116-150 | applying a call's events to a device that agrees with the status gives one that agrees with the new status, with the written slot selected; a first press sets BTN_TOUCH and ABS_X/ABS_Y to the contact; a release clears BTN_TOUCH |
| Daemon.Start | examples/uinput-touch.py:155-160 | the daemon starts with handle_touch registered, an empty touch table and the initial status, and these agree |
| Daemon.Forward | examples/uinput-touch.py:158-160 | handle_touch passes each call to write_status in order: an id no call mentions keeps its status, and the list's last call, when its id is supported, leaves that id down exactly when the call says pressed, at the call's position when pressed |
| Daemon.ForwardConcat | examples/uinput-touch.py:158-160 | forwarding two lists of calls one after the other leaves the same status as forwarding their concatenation |
| Daemon.ForwardOne | examples/uinput-touch.py:158-160 | forwarding a single call is exactly one write_status with that call's tuple |
| Daemon.StepAgrees | library/hyperpixel2r/__init__.py:48-53 | one slot's compare-store-dispatch followed by handle_touch keeps the status in agreement with the driver's table for ids 0 and 1 |
| Daemon.InterruptAgrees | library/hyperpixel2r/__init__.py:24-53 | after both slots of an interrupt are dispatched to handle_touch, the status agrees with the driver's new table |
| Daemon.Interrupt | examples/uinput-touch.py:155-160 | an edge updates the driver exactly as the decoder does, keeps handle_touch registered, and leaves the status agreeing with the new table |
| Daemon.ForwardKeepsDevice | examples/uinput-touch.py:158-160 | forwarding any list of calls preserves agreement between the status and the device |
| Daemon.InterruptKeepsDevice | examples/uinput-touch.py:155-160 | every interrupt preserves agreement between the status and the device |
| Daemon.StartConsistent | examples/uinput-touch.py:112-113 | the daemon's starting status agrees with a fresh device |
| Daemon.RepeatWritesNothing | examples/uinput-touch.py:155-160 | a report with distinct slot ids, or equal slot tuples, delivered twice writes no events the second time and changes nothing |

## Left out

- The I2C transactions are left out because they are hardware I/O. The
  count register's byte and the 12-byte block are parameters. The block
  always has the 12 bytes that the read of `count * 6` bytes returns.
- A failed I2C read raises out of `_handle_interrupt` before any table
  change or call. This failure path is left out with the transactions.
- GPIO setup, falling-edge detection and the 1 ms bounce time are left out
  because they are hardware configuration with no logic to verify.
- Running the handler on the interrupt thread is left out. The code has no
  concurrency logic.
- Daemon.Start: registration is assumed to precede the first edge. `Touch()`
  arms edge detection (line 19 of `library/hyperpixel2r/__init__.py`)
  before `@touch.on_touch` registers `handle_touch` (line 158 of
  `examples/uinput-touch.py`). A report that arrives in that window is
  stored without a call, so `Daemon.Valid` does not hold after it.
- A handler that raises, such as `handle_touch` when `ui.write` fails
  (lines 121-150 of `examples/uinput-touch.py`), stops the interrupt after
  the current slot's store. `last_status` is then behind `_touches`, and
  later identical reports are suppressed. This path is not modelled: the
  model always processes both slots and every call completes.
- The handler is modelled by an identity, and `callable()` by the
  `Callable` constructor. What the handler does is left out for the
  driver's own demo handlers. For the daemon's `handle_touch` it is modelled
  in `Daemon`.
- UInput.WriteStatus: its id is a natural number. Python's negative list
  indexing for negative ids is not modelled, because the decoder only
  produces ids 0 to 15.
- The daemon's module-level setup is left out because it is OS glue. That
  covers `modprobe`, the `/boot/config.txt` rotate flag (which is never
  used), daemon forking, logging, `UInput` construction and `ui.close()`.
- Event codes are symbolic constructors. The numeric evdev values are
  not modelled.
- The `__main__` print loop, the test fixtures and the pygame demos are left
  out. They are printing, mocks and floating-point rendering.
