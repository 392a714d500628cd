/** The touch report decoder of the HyperPixel 2 Round driver.

    On every falling edge of the interrupt line the driver reads a 12-byte
    block from the touch controller: two 6-byte slot records. Each record is
    decoded into a contact tuple (id, x, y, pressed), compared with the last
    tuple stored for that id, stored, and handed to the registered handler
    only when it changed.

    The I2C transactions are parameters: the count register's byte and the
    report block are given to `HandleInterrupt`. The handler is modelled by
    an identity, and each invocation becomes a `Call` in an output list.
 */
module Decoder {

  type Byte = bv8

  /** Slots decoded per interrupt: the count register is read and then
      overwritten with this value, so that release events are seen. */
  const SlotCount: nat := 2

  /** Bytes per slot record. */
  const SlotSize: nat := 6

  /** Length of the block read from the report register. */
  const ReportLength: nat := SlotCount * SlotSize

  /** The tuple handed to the handler: `(touch_id, tx, ty, touch_status)`. */
  datatype Contact = Contact(id: nat, x: nat, y: nat, pressed: bool)

  /** A slot record after masking and big-endian `>HHBB` unpacking. */
  datatype SlotRecord = SlotRecord(event: Byte, id: nat, x: nat, y: nat, p1: Byte, p2: Byte)

  /** The value stored by `on_touch`: anything the caller passes. Only a
      callable value is ever invoked. */
  datatype Handler = NotCallable | Callable(name: nat)

  /** One invocation of the handler with the stored tuple. */
  datatype Call = Call(handler: nat, args: Contact)

  /** The driver object: its handler slot and the `_touches` table. */
  datatype Touch = Touch(handler: Handler, touches: map<nat, Contact>)

  /** Every table entry is stored under its own contact id. */
  ghost predicate WellKeyed(table: map<nat, Contact>)
  {
    forall k :: k in table ==> table[k].id == k
  }

  /** Reference reading of the flag nibble: bit 7 set and bit 6 clear. */
  predicate PressBits(b: Byte)
  {
    b as int >= 128 && (b as int / 64) % 2 == 0
  }

  /** The driver as constructed: no handler, empty table. */
  function Init(): (t: Touch)
    ensures t.touches == map[] && !t.handler.Callable?
    ensures WellKeyed(t.touches)
  {
    Touch(NotCallable, map[])
  }

  /** `on_touch`: stores the handler, replacing any earlier one. */
  function OnTouch(t: Touch, h: Handler): (t': Touch)
    ensures t'.handler == h
    ensures t'.touches == t.touches
  {
    t.(handler := h)
  }

  /** Unsigned big-endian 16-bit value of two bytes (struct format `H`). */
  function BigEndian16(hi: Byte, lo: Byte): (r: nat)
    ensures r < 0x1_0000
    ensures r / 256 == hi as int && r % 256 == lo as int
  {
    hi as nat * 256 + lo as nat
  }

  /** The 6-byte record of slot `i` within the report block. */
  function SlotBytes(data: seq<Byte>, i: nat): (rec: seq<Byte>)
    requires |data| == ReportLength && i < SlotCount
    ensures |rec| == SlotSize
    ensures forall j :: 0 <= j < SlotSize ==> rec[j] == data[i * SlotSize + j]
  {
    data[i * SlotSize .. i * SlotSize + SlotSize]
  }

  /** The masks and the shift of the decoder, read as arithmetic on the byte's value. */
  lemma NibbleFacts(b: Byte)
    ensures ((b & 0xF0) >> 4) as int == b as int / 16
    ensures (b & 0xF0) as int == b as int / 16 * 16
    ensures (b & 0x0F) as int == b as int % 16
  {
  }

  /** Splits a record: flag nibble and id nibble are taken from bytes 0 and
      2, masked out, and the record is unpacked as `>HHBB`. */
  function DecodeSlot(rec: seq<Byte>): (r: SlotRecord)
    requires |rec| == SlotSize
    ensures r.event as int == rec[0] as int / 16 * 16
    ensures r.id == rec[2] as int / 16
    ensures r.x == (rec[0] as int % 16) * 256 + rec[1] as int
    ensures r.y == (rec[2] as int % 16) * 256 + rec[3] as int
    ensures r.p1 == rec[4] && r.p2 == rec[5]
  {
    NibbleFacts(rec[0]);
    NibbleFacts(rec[2]);
    var event := rec[0] & 0xF0;
    var id := ((rec[2] & 0xF0) >> 4) as nat;
    SlotRecord(event, id, BigEndian16(rec[0] & 0x0F, rec[1]), BigEndian16(rec[2] & 0x0F, rec[3]), rec[4], rec[5])
  }

  /** The status flag in `_handle_interrupt`'s order: bit 7 sets it, then
      bit 6 clears it, so a nibble with both bits set reads as released. */
  function Pressed(event: Byte): (r: bool)
    ensures r <==> PressBits(event)
    ensures event & 0x40 != 0 ==> !r
  {
    var afterBit7 := event & 128 != 0;
    var afterBit6 := if event & 64 != 0 then false else afterBit7;
    afterBit6
  }

  /** The tuple one slot record yields. */
  function DecodeContact(rec: seq<Byte>): (c: Contact)
    requires |rec| == SlotSize
    ensures c.id < 16 && c.x < 4096 && c.y < 4096
    ensures c.id == rec[2] as int / 16
    ensures c.x == (rec[0] as int % 16) * 256 + rec[1] as int
    ensures c.y == (rec[2] as int % 16) * 256 + rec[3] as int
    ensures c.pressed <==> PressBits(rec[0])
  {
    var r := DecodeSlot(rec);
    Contact(r.id, r.x, r.y, Pressed(r.event))
  }

  /** True when dispatching `c` is due: no entry for its id, or a different one. */
  predicate Changed(table: map<nat, Contact>, c: Contact)
  {
    c.id !in table || table[c.id] != c
  }

  /** Compare-store-dispatch for one decoded tuple. */
  function DispatchSlot(t: Touch, c: Contact): (res: (Touch, seq<Call>))
    ensures res.0.handler == t.handler
    ensures c.id in res.0.touches && res.0.touches[c.id] == c
    ensures res.0.touches.Keys == t.touches.Keys + {c.id}
    ensures forall k :: k in t.touches && k != c.id ==> res.0.touches[k] == t.touches[k]
    ensures WellKeyed(t.touches) ==> WellKeyed(res.0.touches)
    ensures res.1 != [] <==> t.handler.Callable? && Changed(t.touches, c)
    ensures res.1 != [] ==> res.1 == [Call(t.handler.name, res.0.touches[c.id])]
  {
    if Changed(t.touches, c) then
      var t' := t.(touches := t.touches[c.id := c]);
      if t.handler.Callable? then (t', [Call(t.handler.name, t'.touches[c.id])]) else (t', [])
    else
      (t, [])
  }

  /** The effect of decoding and dispatching the first `n` slots. */
  function ProcessSlots(t: Touch, data: seq<Byte>, n: nat): (res: (Touch, seq<Call>))
    requires |data| == ReportLength && n <= SlotCount
    ensures res.0.handler == t.handler
    ensures WellKeyed(t.touches) ==> WellKeyed(res.0.touches)
    ensures |res.1| <= n
    ensures !t.handler.Callable? ==> res.1 == []
    ensures forall i :: 0 <= i < |res.1| ==>
              t.handler.Callable? && res.1[i].handler == t.handler.name
              && exists j :: 0 <= j < n && res.1[i].args == DecodeContact(SlotBytes(data, j))
    ensures n > 0 ==> var last := DecodeContact(SlotBytes(data, n - 1));
                      last.id in res.0.touches && res.0.touches[last.id] == last
    decreases n
  {
    if n == 0 then (t, [])
    else
      var prior := ProcessSlots(t, data, n - 1);
      var step := DispatchSlot(prior.0, DecodeContact(SlotBytes(data, n - 1)));
      (step.0, prior.1 + step.1)
  }

  /** One interrupt: both slots, slot 0 first, whatever the count register said. */
  function Interrupt(t: Touch, data: seq<Byte>): (res: (Touch, seq<Call>))
    requires |data| == ReportLength
    ensures var c0 := DecodeContact(SlotBytes(data, 0));
            var c1 := DecodeContact(SlotBytes(data, 1));
            var mid := t.touches[c0.id := c0];
            && res.0.handler == t.handler
            && res.0.touches.Keys == t.touches.Keys + {c0.id, c1.id}
            && res.0.touches[c1.id] == c1
            && (c0.id != c1.id ==> res.0.touches[c0.id] == c0)
            && (forall k :: k in t.touches && k != c0.id && k != c1.id ==> res.0.touches[k] == t.touches[k])
            && res.1 == (if t.handler.Callable? && Changed(t.touches, c0) then [Call(t.handler.name, c0)] else [])
                        + (if t.handler.Callable? && Changed(mid, c1) then [Call(t.handler.name, c1)] else [])
    ensures WellKeyed(t.touches) ==> WellKeyed(res.0.touches)
  {
    ProcessSlots(t, data, SlotCount)
  }

  /** `_handle_interrupt`, written as its loop over the slots. The count
      register's byte is read and discarded. */
  method HandleInterrupt(t: Touch, countRegister: Byte, data: seq<Byte>) returns (t': Touch, calls: seq<Call>)
    requires |data| == ReportLength
    ensures (t', calls) == Interrupt(t, data)
  {
    var count := SlotCount;
    t', calls := t, [];
    var i := 0;
    while i < count
      invariant 0 <= i <= count == SlotCount
      invariant (t', calls) == ProcessSlots(t, data, i)
    {
      var touch := SlotBytes(data, i);
      var step := DispatchSlot(t', DecodeContact(touch));
      t', calls := step.0, calls + step.1;
      i := i + 1;
    }
  }

  // ---------------------------------------------------------------------
  // Properties of the slot decoder

  /** The pressure/area bytes, and the two flag bits that are neither bit 7
      nor bit 6, never reach the decoded tuple. */
  lemma IgnoredBytes(r1: seq<Byte>, r2: seq<Byte>)
    requires |r1| == SlotSize && |r2| == SlotSize
    requires r1[0] & 0xCF == r2[0] & 0xCF
    requires r1[1..4] == r2[1..4]
    ensures DecodeContact(r1) == DecodeContact(r2)
  {
    assert r1[1] == r2[1] && r1[2] == r2[2] && r1[3] == r2[3] by {
      assert r1[1..4][0] == r1[1] && r1[1..4][1] == r1[2] && r1[1..4][2] == r1[3];
    }
    MaskedFlagFacts(r1[0], r2[0]);
  }

  /** Equal bits outside 0x30 give equal low nibbles and equal flag readings. */
  lemma MaskedFlagFacts(a: Byte, b: Byte)
    requires a & 0xCF == b & 0xCF
    ensures a as int % 16 == b as int % 16
    ensures PressBits(a) == PressBits(b)
  {
    assert a & 0x0F == b & 0x0F && a & 0x80 == b & 0x80 && a & 0x40 == b & 0x40;
    NibbleFacts(a);
    NibbleFacts(b);
    FlagBits(a);
    FlagBits(b);
  }

  /** Bits 7 and 6 of a byte, read as arithmetic on its value. */
  lemma FlagBits(b: Byte)
    ensures PressBits(b) <==> b & 0x80 != 0 && b & 0x40 == 0
  {
    assert (b & 0x80 != 0) <==> b as int >= 128;
    assert (b & 0x40 != 0) <==> (b as int / 64) % 2 == 1;
  }

  /** Two records decode to the same tuple exactly when they agree on the
      low nibble of byte 0, on bytes 1 to 3, and on the press reading of the
      flag nibble. */
  lemma {:induction false} SameContactIff(r1: seq<Byte>, r2: seq<Byte>)
    requires |r1| == SlotSize && |r2| == SlotSize
    ensures DecodeContact(r1) == DecodeContact(r2)
            <==> (&& r1[0] as int % 16 == r2[0] as int % 16
                  && r1[1] as int == r2[1] as int && r1[2] as int == r2[2] as int && r1[3] as int == r2[3] as int
                  && PressBits(r1[0]) == PressBits(r2[0]))
  {
    var c1, c2 := DecodeContact(r1), DecodeContact(r2);
    if c1 == c2 {
      SameContactFields(r1, r2);
    } else {
      assert c1.id != c2.id || c1.x != c2.x || c1.y != c2.y || c1.pressed != c2.pressed;
    }
  }

  /** Equal tuples come from records with equal significant byte values. */
  lemma SameContactFields(r1: seq<Byte>, r2: seq<Byte>)
    requires |r1| == SlotSize && |r2| == SlotSize
    requires DecodeContact(r1) == DecodeContact(r2)
    ensures r1[0] as int % 16 == r2[0] as int % 16
    ensures r1[1] as int == r2[1] as int && r1[2] as int == r2[2] as int && r1[3] as int == r2[3] as int
  {
    var c1, c2 := DecodeContact(r1), DecodeContact(r2);
    assert c1.id == c2.id && c1.x == c2.x && c1.y == c2.y;
    var a0, a1, a2, a3 := r1[0] as int, r1[1] as int, r1[2] as int, r1[3] as int;
    var b0, b1, b2, b3 := r2[0] as int, r2[1] as int, r2[2] as int, r2[3] as int;
    SameFieldValues(a0, a1, a2, a3, b0, b1, b2, b3);
  }

  /** The arithmetic of `SameContactFields`. */
  lemma SameFieldValues(a0: int, a1: int, a2: int, a3: int, b0: int, b1: int, b2: int, b3: int)
    requires 0 <= a0 < 256 && 0 <= a1 < 256 && 0 <= a2 < 256 && 0 <= a3 < 256
    requires 0 <= b0 < 256 && 0 <= b1 < 256 && 0 <= b2 < 256 && 0 <= b3 < 256
    requires a0 % 16 * 256 + a1 == b0 % 16 * 256 + b1
    requires a2 % 16 * 256 + a3 == b2 % 16 * 256 + b3
    requires a2 / 16 == b2 / 16
    ensures a0 % 16 == b0 % 16 && a1 == b1 && a2 == b2 && a3 == b3
  {
    SplitBigEndian(a0 % 16, a1, b0 % 16, b1);
    SplitBigEndian(a2 % 16, a3, b2 % 16, b3);
  }

  /** `hi * 256 + lo` determines `hi` and `lo` when `lo` is a byte. */
  lemma SplitBigEndian(hi1: int, lo1: int, hi2: int, lo2: int)
    requires 0 <= lo1 < 256 && 0 <= lo2 < 256
    requires hi1 * 256 + lo1 == hi2 * 256 + lo2
    ensures hi1 == hi2 && lo1 == lo2
  {
  }

  /** `hi * 256 + lo` splits back into `hi` and `lo` when `lo` is a byte. */
  lemma HighLow(hi: int, lo: int)
    requires 0 <= lo < 256
    ensures (hi * 256 + lo) / 256 == hi && (hi * 256 + lo) % 256 == lo
  {
  }

  /** The byte values of the canonical record for a tuple: flag nibble 0x8
      for a press and 0x4 for a release, the id in the high nibble of byte
      2, each coordinate in 12 bits, and the two trailing values as given. */
  function EncodeSlot(c: Contact, p1: int, p2: int): (vals: seq<int>)
    requires c.id < 16 && c.x < 4096 && c.y < 4096
    requires 0 <= p1 < 256 && 0 <= p2 < 256
    ensures |vals| == SlotSize
    ensures forall i :: 0 <= i < SlotSize ==> 0 <= vals[i] < 256
  {
    var flags := if c.pressed then 0x80 else 0x40;
    [flags + c.x / 256, c.x % 256, c.id * 16 + c.y / 256, c.y % 256, p1, p2]
  }

  /** A record holds the given byte values. */
  predicate Holds(rec: seq<Byte>, vals: seq<int>)
  {
    |rec| == |vals| && forall i :: 0 <= i < |rec| ==> rec[i] as int == vals[i]
  }

  /** Decoding undoes encoding: every record holding the canonical values of
      an in-range tuple decodes to that tuple. */
  lemma {:induction false} DecodeEncode(c: Contact, rec: seq<Byte>)
    requires c.id < 16 && c.x < 4096 && c.y < 4096
    requires |rec| == SlotSize && Holds(rec, EncodeSlot(c, rec[4] as int, rec[5] as int))
    ensures DecodeContact(rec) == c
  {
    var vals := EncodeSlot(c, rec[4] as int, rec[5] as int);
    assert rec[0] as int == vals[0] && rec[1] as int == vals[1];
    assert rec[2] as int == vals[2] && rec[3] as int == vals[3];
    DecodeFields(c, rec[0] as int, rec[1] as int, rec[2] as int, rec[3] as int);
  }

  /** The arithmetic of `DecodeEncode`: the decoder's formulas applied to
      the encoded byte values give back the tuple's fields. */
  lemma DecodeFields(c: Contact, b0: int, b1: int, b2: int, b3: int)
    requires c.id < 16 && c.x < 4096 && c.y < 4096
    requires b0 == (if c.pressed then 128 else 64) + c.x / 256 && b1 == c.x % 256
    requires b2 == c.id * 16 + c.y / 256 && b3 == c.y % 256
    ensures (b0 % 16) * 256 + b1 == c.x
    ensures (b2 % 16) * 256 + b3 == c.y
    ensures b2 / 16 == c.id
    ensures (b0 >= 128 && (b0 / 64) % 2 == 0) == c.pressed
  {
    FlagNibble(if c.pressed then 128 else 64, c.x / 256);
    Nibbles(c.id, c.y / 256);
  }

  /** The byte `flags + h` carries `flags` in its high nibble and `h` in
      its low one, and reads as pressed exactly for the press flag. */
  lemma FlagNibble(flags: int, h: int)
    requires flags == 128 || flags == 64
    requires 0 <= h < 16
    ensures (flags + h) % 16 == h && (flags + h) / 16 * 16 == flags
    ensures (flags + h >= 128 && ((flags + h) / 64) % 2 == 0) <==> flags == 128
  {
  }

  /** The byte `hi * 16 + lo` has nibbles `hi` and `lo`. */
  lemma Nibbles(hi: int, lo: int)
    requires 0 <= hi < 16 && 0 <= lo < 16
    ensures (hi * 16 + lo) / 16 == hi && (hi * 16 + lo) % 16 == lo
  {
  }

  /** Encoding undoes decoding: a record whose flag nibble is a plain press
      (0x8) or a plain release (0x4) holds exactly the canonical values of
      the tuple it decodes to. */
  lemma {:induction false} EncodeDecode(rec: seq<Byte>)
    requires |rec| == SlotSize
    requires rec[0] as int / 16 == 8 || rec[0] as int / 16 == 4
    ensures Holds(rec, EncodeSlot(DecodeContact(rec), rec[4] as int, rec[5] as int))
  {
    var c := DecodeContact(rec);
    var b0, b1, b2, b3 := rec[0] as int, rec[1] as int, rec[2] as int, rec[3] as int;
    EncodeFields(c, b0, b1, b2, b3, rec[4] as int, rec[5] as int);
  }

  /** The arithmetic of `EncodeDecode`: a tuple whose fields came from the
      byte values `b0`..`b3` by the decoder's formulas encodes them back. */
  lemma EncodeFields(c: Contact, b0: int, b1: int, b2: int, b3: int, p1: int, p2: int)
    requires 0 <= b0 < 256 && 0 <= b1 < 256 && 0 <= b2 < 256 && 0 <= b3 < 256
    requires 0 <= p1 < 256 && 0 <= p2 < 256
    requires b0 / 16 == 8 || b0 / 16 == 4
    requires c.x == (b0 % 16) * 256 + b1 && c.y == (b2 % 16) * 256 + b3 && c.id == b2 / 16
    requires c.pressed <==> (b0 >= 128 && (b0 / 64) % 2 == 0)
    ensures c.id < 16 && c.x < 4096 && c.y < 4096
    ensures EncodeSlot(c, p1, p2) == [b0, b1, b2, b3, p1, p2]
  {
    HighLow(b0 % 16, b1);
    HighLow(b2 % 16, b3);
    FlagNibble(b0 / 16 * 16, b0 % 16);
  }

  // ---------------------------------------------------------------------
  // Properties of one interrupt

  /** A report whose two slots carry distinct ids, or equal tuples, is
      silent when delivered again: no call and no change to the driver. */
  lemma RepeatIsSilent(t: Touch, data: seq<Byte>)
    requires |data| == ReportLength
    requires DecodeContact(SlotBytes(data, 0)).id != DecodeContact(SlotBytes(data, 1)).id
             || DecodeContact(SlotBytes(data, 0)) == DecodeContact(SlotBytes(data, 1))
    ensures Interrupt(Interrupt(t, data).0, data) == (Interrupt(t, data).0, [])
  {
    var t1 := Interrupt(t, data).0;
    var t2 := Interrupt(t1, data).0;
    assert t2.touches == t1.touches;
  }

  /** A report whose two slots share id 0 but differ in x is dispatched
      again on every delivery: slot 0 never matches the entry slot 1 left. */
  lemma SharedIdRepeats()
    ensures var data: seq<Byte> := [0x80, 1, 0x00, 5, 0, 0, 0x80, 2, 0x00, 5, 0, 0];
            var first := Interrupt(OnTouch(Init(), Callable(0)), data);
            |Interrupt(first.0, data).1| == 2
  {
    var data: seq<Byte> := [0x80, 1, 0x00, 5, 0, 0, 0x80, 2, 0x00, 5, 0, 0];
    var c0 := DecodeContact(SlotBytes(data, 0));
    var c1 := DecodeContact(SlotBytes(data, 1));
    assert c0 == Contact(0, 1, 5, true);
    assert c1 == Contact(0, 2, 5, true);
  }

  /** The table evolves the same way whatever handler is registered. */
  lemma TableIgnoresHandler(t: Touch, h: Handler, data: seq<Byte>)
    requires |data| == ReportLength
    ensures Interrupt(OnTouch(t, h), data).0.touches == Interrupt(t, data).0.touches
  {
  }

  /** After two registrations only the second handler is invoked, and a
      non-callable registration silences the driver. */
  lemma LatestHandlerOnly(t: Touch, h1: Handler, h2: Handler, data: seq<Byte>)
    requires |data| == ReportLength
    ensures var calls := Interrupt(OnTouch(OnTouch(t, h1), h2), data).1;
            && (forall i :: 0 <= i < |calls| ==> h2.Callable? && calls[i].handler == h2.name)
            && (!h2.Callable? ==> calls == [])
  {
  }

  /** Slot 0 carrying id 0 at (100, 200) pressed and slot 1 carrying id 1 at
      (50, 75) released give exactly two calls, in slot order. */
  lemma TwoContactScenario()
    ensures var data: seq<Byte> := [0x80, 100, 0x00, 200, 0, 0, 0x40, 50, 0x10, 75, 0, 0];
            Interrupt(OnTouch(Init(), Callable(7)), data).1
              == [Call(7, Contact(0, 100, 200, true)), Call(7, Contact(1, 50, 75, false))]
  {
    var data: seq<Byte> := [0x80, 100, 0x00, 200, 0, 0, 0x40, 50, 0x10, 75, 0, 0];
    assert DecodeContact(SlotBytes(data, 0)) == Contact(0, 100, 200, true);
    assert DecodeContact(SlotBytes(data, 1)) == Contact(1, 50, 75, false);
  }

  /** A press followed, on the next edge, by a release at the same spot
      produces the press call and then the release call. */
  lemma PressReleaseScenario()
    ensures var press: seq<Byte> := [0x80, 10, 0x01, 20, 0, 0, 0x40, 0, 0x10, 0, 0, 0];
            var release: seq<Byte> := [0x40, 10, 0x01, 20, 0, 0, 0x40, 0, 0x10, 0, 0, 0];
            var first := Interrupt(OnTouch(Init(), Callable(7)), press);
            var second := Interrupt(first.0, release);
            && first.1 == [Call(7, Contact(0, 10, 276, true)), Call(7, Contact(1, 0, 0, false))]
            && second.1 == [Call(7, Contact(0, 10, 276, false))]
  {
    var press: seq<Byte> := [0x80, 10, 0x01, 20, 0, 0, 0x40, 0, 0x10, 0, 0, 0];
    var release: seq<Byte> := [0x40, 10, 0x01, 20, 0, 0, 0x40, 0, 0x10, 0, 0, 0];
    assert DecodeContact(SlotBytes(press, 0)) == Contact(0, 10, 276, true);
    assert DecodeContact(SlotBytes(press, 1)) == Contact(1, 0, 0, false);
    assert DecodeContact(SlotBytes(release, 0)) == Contact(0, 10, 276, false);
    assert DecodeContact(SlotBytes(release, 1)) == Contact(1, 0, 0, false);
  }
}
