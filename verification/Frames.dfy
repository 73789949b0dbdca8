/** Whole frames: sealing and receiving are inverse, and every frame keeps the invariant. */
module Frames {
  import opened Bytes
  import opened Crc32
  import opened Geometry
  import opened Flash
  import opened Record
  import opened Decision
  import opened Core
  import opened Invariant
  import opened Preservation
  import opened WritePath
  import opened CommitPath

  /** A sealed request followed by anything (report padding) is received as that request. */
  lemma ReceiveSealed(cmd: Byte, seqNo: Byte, pl: Bytes, padding: Bytes)
    requires |pl| <= MAX_PAYLOAD
    ensures Receive(Seal(cmd, seqNo, pl) + padding) == Request(cmd, seqNo, pl)
  {
    hide Crc, PutWord, LeWord, Digit;
    var body := [cmd, seqNo, ByteOf(|pl|), 0] + pl;
    var frame := Seal(cmd, seqNo, pl) + padding;
    ByteOfNat(|pl|);
    WordRoundTrip(Crc(body));
    assert frame[..4 + |pl|] == body;
    assert frame[4 + |pl|..8 + |pl|] == PutWord(Crc(body));
    assert frame[4..4 + |pl|] == pl;
  }

  /** Any change confined to four consecutive bytes of a sealed frame, its CRC included and only the length
      byte excepted, is noticed: the device reports a frame error and does nothing. */
  lemma BurstNeverExecutes(cmd: Byte, seqNo: Byte, pl: Bytes, lo: nat, w: Bytes)
    requires |pl| <= MAX_PAYLOAD && |w| <= 4
    requires lo + |w| <= 8 + |pl|
    requires var f := Seal(cmd, seqNo, pl);
      f[lo..lo + |w|] != w && (lo <= 2 < lo + |w| ==> w[2 - lo] == f[2])
    ensures Receive(Splice(Seal(cmd, seqNo, pl), lo, w)).Corrupt?
  {
    hide Crc, PutWord, LeWord, Digit;
    var f, n := Seal(cmd, seqNo, pl), 4 + |pl|;
    var g := Splice(f, lo, w);
    var body := [cmd, seqNo, ByteOf(|pl|), 0] + pl;
    ByteOfNat(|pl|);
    assert f[..n] == body && f[n..] == PutWord(Crc(body));
    WordRoundTrip(Crc(body));
    SealedBurstDetected(f, g, lo, lo + |w|);
    assert g[n..] == g[n..n + 4];
  }

  /** Overwrite the bytes at `lo` with `w`. */
  function Splice(f: Bytes, lo: nat, w: Bytes): (g: Bytes)
    requires lo + |w| <= |f|
    ensures |g| == |f|
  {
    f[..lo] + w + f[lo + |w|..]
  }

  lemma InvExecute(c: Config, d: Dev, cmd: Byte, pl: Bytes)
    requires Inv(c, d)
    ensures Inv(c, Execute(c, d, cmd, pl).dev)
  {
    FrameRelevant(c, d);
    hide Inv, DoErase, DoWrite, DoCommit, DoCrc, RecordTrusted, HelloPayload, SessionOpen, MutationFrame;
    if cmd == CMD_HELLO {
      InvSessionOpen(c, d);
    } else if d.ram.session {
      if cmd == CMD_ERASE {
        InvErase(c, d, pl);
        FrameInv(c, d, DoErase(c, d, pl).0);
      } else if cmd == CMD_WRITE {
        InvWrite(c, d, pl);
        FrameInv(c, d, DoWrite(c, d, pl).0);
      } else if cmd == CMD_COMMIT {
        InvCommit(c, d, pl);
      } else if cmd == CMD_BOOT {
        InvBootRequest(c, d);
      } else if cmd == CMD_CRC {
        CrcReadsOnly(c, d, pl);
      }
    }
  }

  lemma FrameRelevant(c: Config, d: Dev)
    requires Inv(c, d)
    ensures WellFormed(c, d)
  {
  }

  lemma FrameInv(c: Config, d: Dev, e: Dev)
    requires WellFormed(c, d) && MutationFrame(c, d, e)
    ensures Inv(c, e)
  {
  }

  lemma InvBootRequest(c: Config, d: Dev)
    requires Inv(c, d)
    ensures Inv(c, d.(bootRequest := true))
  {
    hide Parse, Crc, Update;
  }

  lemma CrcReadsOnly(c: Config, d: Dev, pl: Bytes)
    requires WellFormed(c, d)
    ensures DoCrc(c, d, pl).0 == d
  {
    hide Crc, PutWord, View, Xip, LeNat, Aligned, InRegion;
  }

  /** Any frame at all, with any flash failures and any stale view. */
  lemma InvHandleFrame(c: Config, d: Dev, buf: Bytes, w: World)
    requires Inv(c, d)
    ensures WellFormed(c, d) && Inv(c, HandleFrame(c, d, buf, w).dev)
  {
    FrameRelevant(c, d);
    InvEnter(c, d, w);
    FrameRelevant(c, Enter(d, w));
    hide Inv, Execute, Receive, Seal, Enter, WellFormed;
    var r := Receive(buf);
    if r.Request? {
      InvExecute(c, Enter(d, w), r.cmd, r.payload);
    }
  }
}
