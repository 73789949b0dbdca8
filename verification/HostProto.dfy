/** The host's side of the protocol: decoding frames and reading the HELLO answer. */
module HostProto {
  import opened Bytes
  import opened Crc32
  import opened Geometry
  import opened Flash
  import opened Record
  import opened Decision
  import opened Core
  import opened Invariant
  import opened Frames

  datatype Decoded = Ok(value: HostFrame) | Rejected(error: FrameError)

  datatype HostFrame = HostFrame(cmd: Byte, seqNo: Byte, payload: Bytes)

  datatype FrameError = TooShort | PayloadTooLong | Truncated | BadFlags | BadCrc

  /** Decode one frame from the start of a buffer; later bytes are padding. */
  function Decode(buf: Bytes): Decoded {
    if |buf| < 8 then Rejected(TooShort)
    else
      var n := Digit(buf[2]);
      if n > MAX_PAYLOAD then Rejected(PayloadTooLong)
      else if |buf| < 8 + n then Rejected(Truncated)
      else if buf[3] != 0 then Rejected(FrameError.BadFlags)
      else if Crc(buf[..4 + n]) != LeWord(buf[4 + n..8 + n]) then Rejected(BadCrc)
      else Ok(HostFrame(buf[0], buf[1], buf[4..4 + n]))
  }

  /** Host and device accept exactly the same buffers, as the same frame, although they check in a
      different order. */
  lemma DecodeIsReceive(buf: Bytes)
    ensures Decode(buf).Ok? <==> Receive(buf).Request?
    ensures Decode(buf).Ok? ==>
      var f, r := Decode(buf).value, Receive(buf); f == HostFrame(r.cmd, r.seqNo, r.payload)
  {
    hide Crc, LeWord, Digit;
  }

  lemma DecodeSealed(cmd: Byte, seqNo: Byte, pl: Bytes, padding: Bytes)
    requires |pl| <= MAX_PAYLOAD
    ensures Decode(Seal(cmd, seqNo, pl) + padding) == Ok(HostFrame(cmd, seqNo, pl))
  {
    hide Decode, Receive, Seal;
    ReceiveSealed(cmd, seqNo, pl, padding);
    DecodeIsReceive(Seal(cmd, seqNo, pl) + padding);
  }

  predicate IsFrameError(f: HostFrame) { f.cmd == FRAME_ERR }

  predicate IsResponseTo(f: HostFrame, cmd: Byte, seqNo: Byte) { f.cmd == cmd | RESP_BIT && f.seqNo == seqNo }

  // ---- the HELLO answer --------------------------------------------------

  datatype DeviceInfo = DeviceInfo(
    protoMajor: Byte, protoMinor: Byte, chipRev: Byte, blVersion: Bytes, chipFamily: Byte, transport: Byte,
    appStart: nat, appEnd: nat, eraseBlock: nat,
    writePage: Bytes, writeAlign: Byte, maxWriteData: nat,
    features: nat, uid: Bytes,
    slotCount: Byte, activeSlot: Byte, writeSlot: Byte,
    writeBase: nat, writeCapacity: nat)

  function Fields(p: Bytes): DeviceInfo
    requires |p| >= 48
  {
    DeviceInfo(p[1], p[2], p[3], p[4..6], p[6], p[7],
               LeNat(p[8..12]), LeNat(p[12..16]), LeNat(p[16..20]),
               p[20..22], p[22], Digit(p[23]),
               LeNat(p[24..28]), p[28..36],
               p[36], p[37], p[38],
               LeNat(p[40..44]), LeNat(p[44..48]))
  }

  /** Device info the flows can safely use. */
  predicate Usable(i: DeviceInfo) {
    && i.appStart < i.appEnd
    && i.eraseBlock != 0 && i.writeAlign != 0
    && i.maxWriteData != 0 && i.maxWriteData % 4 == 0 && i.maxWriteData <= MAX_WRITE_DATA
    && i.slotCount != 0 && i.writeSlot < i.slotCount
    && (i.activeSlot == SLOT_ID_NONE || i.activeSlot < i.slotCount)
    && i.appStart <= i.writeBase && i.writeBase + i.writeCapacity <= i.appEnd
  }

  function ParseInfo(p: Bytes): Option<DeviceInfo> {
    if |p| < 48 then None else if Usable(Fields(p)) then Some(Fields(p)) else None
  }

  /** The device's own values. */
  function OwnInfo(c: Config, d: Dev): DeviceInfo
    requires WellFormed(c, d)
  {
    DeviceInfo(PROTO_MAJOR, PROTO_MINOR, c.chipRev, [0x0B, 0x00], c.family, c.transport,
               c.appStart, c.siliconEnd, c.eraseBlock,
               [0x00, 0x01], 4, 48, c.features, c.uid,
               2, match d.ram.active case None => SLOT_ID_NONE case Some(k) => SlotId(k), SlotId(d.ram.writeSlot),
               WriteBase(c, d), Capacity(c, d.ram.writeSlot))
  }

  function Assemble(h: Bytes, start: Bytes, end: Bytes, block: Bytes, geometry: Bytes, features: Bytes, uid: Bytes,
                    slots: Bytes, base: Bytes, capacity: Bytes): Bytes {
    h + start + end + block + geometry + features + uid + slots + base + capacity
  }

  lemma AssembledSlices(h: Bytes, start: Bytes, end: Bytes, block: Bytes, geometry: Bytes, features: Bytes, uid: Bytes,
                        slots: Bytes, base: Bytes, capacity: Bytes)
    requires |h| == |uid| == 8 && |start| == |end| == |block| == |geometry| == |features| == |slots| == 4
    requires |base| == |capacity| == 4
    ensures var p := Assemble(h, start, end, block, geometry, features, uid, slots, base, capacity);
      && |p| == 48 && p[0..8] == h && p[8..12] == start && p[12..16] == end && p[16..20] == block
      && p[20..24] == geometry && p[24..28] == features && p[28..36] == uid && p[36..40] == slots
      && p[40..44] == base && p[44..48] == capacity
  {
  }

  lemma SmallPieces(p: Bytes)
    requires |p| == 48
    ensures p[1] == p[0..8][1] && p[2] == p[0..8][2] && p[3] == p[0..8][3] && p[4..6] == p[0..8][4..6]
    ensures p[6] == p[0..8][6] && p[7] == p[0..8][7]
    ensures p[20..22] == p[20..24][0..2] && p[22] == p[20..24][2] && p[23] == p[20..24][3]
    ensures p[36] == p[36..40][0] && p[37] == p[36..40][1] && p[38] == p[36..40][2]
  {
  }

  lemma AssembledFields(h: Bytes, start: nat, end: nat, block: nat, geometry: Bytes, features: nat, uid: Bytes,
                        slots: Bytes, base: nat, capacity: nat)
    requires |h| == |uid| == 8 && |geometry| == |slots| == 4
    requires start < U32_LIMIT && end < U32_LIMIT && block < U32_LIMIT && features < U32_LIMIT
    requires base < U32_LIMIT && capacity < U32_LIMIT
    ensures var p := Assemble(h, PutNat(start), PutNat(end), PutNat(block), geometry, PutNat(features), uid, slots,
                              PutNat(base), PutNat(capacity));
      |p| == 48 && Fields(p) == DeviceInfo(h[1], h[2], h[3], h[4..6], h[6], h[7], start, end, block,
                                           geometry[0..2], geometry[2], Digit(geometry[3]), features, uid,
                                           slots[0], slots[1], slots[2], base, capacity)
  {
    hide PutNat, LeNat, Digit, Assemble;
    AssembledSlices(h, PutNat(start), PutNat(end), PutNat(block), geometry, PutNat(features), uid, slots,
                    PutNat(base), PutNat(capacity));
    SmallPieces(Assemble(h, PutNat(start), PutNat(end), PutNat(block), geometry, PutNat(features), uid, slots,
                         PutNat(base), PutNat(capacity)));
    NatRoundTrip(start);
    NatRoundTrip(end);
    NatRoundTrip(block);
    NatRoundTrip(features);
    NatRoundTrip(base);
    NatRoundTrip(capacity);
  }

  lemma MaxWriteDigit()
    ensures Digit(48) == MAX_WRITE_DATA
  {
    DigitValue(48);
  }

  lemma HelloFields(c: Config, d: Dev)
    requires WellFormed(c, d)
    ensures Fields(HelloPayload(c, d)) == OwnInfo(c, d)
  {
    hide PutNat, LeNat, Digit, SlotBase, Capacity, Assemble, HelloPayload, Fields, SlotId;
    var active := match d.ram.active case None => SLOT_ID_NONE case Some(k) => SlotId(k);
    var h := [OK, PROTO_MAJOR, PROTO_MINOR, c.chipRev, 0x0B, 0x00, c.family, c.transport];
    var geometry, slots := [0x00, 0x01, 4, 48], [2, active, SlotId(d.ram.writeSlot), 0];
    HelloAssembled(c, d, h, geometry, slots);
    AssembledFields(h, c.appStart, c.siliconEnd, c.eraseBlock, geometry, c.features, c.uid, slots,
                    WriteBase(c, d), Capacity(c, d.ram.writeSlot));
    MaxWriteDigit();
    assert h[4..6] == [0x0B, 0x00] && geometry[0..2] == [0x00, 0x01];
  }

  lemma HelloAssembled(c: Config, d: Dev, h: Bytes, geometry: Bytes, slots: Bytes)
    requires WellFormed(c, d)
    requires h == [OK, PROTO_MAJOR, PROTO_MINOR, c.chipRev, 0x0B, 0x00, c.family, c.transport]
    requires geometry == [0x00, 0x01, 4, 48]
    requires slots == [2, match d.ram.active case None => SLOT_ID_NONE case Some(k) => SlotId(k),
                       SlotId(d.ram.writeSlot), 0]
    ensures WriteBase(c, d) < U32_LIMIT && Capacity(c, d.ram.writeSlot) < U32_LIMIT && c.eraseBlock < U32_LIMIT
    ensures c.appStart < U32_LIMIT && c.siliconEnd < U32_LIMIT && c.features < U32_LIMIT && |c.uid| == 8
    ensures HelloPayload(c, d) == Assemble(h, PutNat(c.appStart), PutNat(c.siliconEnd), PutNat(c.eraseBlock), geometry,
      PutNat(c.features), c.uid, slots, PutNat(WriteBase(c, d)), PutNat(Capacity(c, d.ram.writeSlot)))
  {
    SlotLayout(c, d.ram.writeSlot);
    hide PutNat, SlotBase, Capacity;
  }

  /** The host accepts a HELLO answer exactly when the write slot begins inside the silicon, and then
      reads the device's own values from it. */
  lemma HelloAcceptedExactly(c: Config, d: Dev)
    requires WellFormed(c, d)
    ensures ParseInfo(HelloPayload(c, d)).Some? <==> WriteBase(c, d) <= c.siliconEnd
    ensures WriteBase(c, d) <= c.siliconEnd ==> ParseInfo(HelloPayload(c, d)) == Some(OwnInfo(c, d))
  {
    hide HelloPayload, Fields;
    HelloFields(c, d);
    CapacityMeaning(c, d.ram.writeSlot);
  }

  /** That holds in every reachable state, on a die too small for its build included: slot B is only
      offered for writing when slot A is active, so slot A, and with it the start of slot B, fits. */
  lemma HelloAlwaysAccepted(c: Config, d: Dev)
    requires Inv(c, d)
    ensures WellFormed(c, d) && ParseInfo(HelloPayload(c, d)) == Some(OwnInfo(c, d))
  {
    hide Parse, Crc, Update, HelloPayload, ParseInfo, StreamOK, LastOK, BitmapOK, GenerationsOK, RecordStateOK, Truthful,
         Physical;
    HelloAcceptedExactly(c, d);
  }
}
