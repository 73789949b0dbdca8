/** An in-order link that may lose or detectably corrupt anything in flight, to a device whose flash may
    fail and which may lose power at any moment; and the host's send-and-match exchange over it. */
module Link {
  import opened Bytes
  import opened Crc32
  import opened Geometry
  import opened Flash
  import opened Record
  import opened Decision
  import opened Core
  import opened Invariant
  import opened Frames
  import opened HostProto
  import T = Theorems

  /** What the environment does next. */
  datatype Act = Deliver(world: World)           // the oldest request reaches the device
               | LoseRequest | LoseAnswer        // the oldest message in flight vanishes
               | CorruptRequest(bytes: Bytes)    // the oldest request arrives as other bytes
               | CorruptAnswer(bytes: Bytes)
               | Arrive                          // the oldest answer reaches the host
               | PowerLoss                       // the device resets
               | Deadline                        // the host stops waiting

  /** What befell the device while one command was being attempted. */
  datatype Happening = Ran(world: World) | WasReset

  function Once(c: Config, d: Dev, w: World, cmd: Byte, pl: Bytes): (s: Step)
    requires Inv(c, d)
    ensures Inv(c, s.dev) && WellFormed(c, s.dev)
    ensures 1 <= |s.payload| <= MAX_PAYLOAD
  {
    InvEnter(c, d, w);
    InvExecute(c, Enter(d, w), cmd, pl);
    FrameRelevant(c, Enter(d, w));
    FrameRelevant(c, Execute(c, Enter(d, w), cmd, pl).dev);
    Execute(c, Enter(d, w), cmd, pl)
  }

  function Restarted(c: Config, d: Dev): (e: Dev)
    requires Inv(c, d)
    ensures Inv(c, e)
  {
    InvPowerUp(c, d.flash, false);
    PowerUp(c, d.flash, false)
  }

  function Happen(c: Config, d: Dev, h: Happening, cmd: Byte, pl: Bytes): (e: Dev)
    requires Inv(c, d)
    ensures Inv(c, e)
  {
    match h
    case WasReset => Restarted(c, d)
    case Ran(w) =>
      var s := Once(c, d, w, cmd, pl);
      if s.action == ResetDevice then Restarted(c, s.dev) else s.dev
  }

  function Replay(c: Config, d: Dev, hs: seq<Happening>, cmd: Byte, pl: Bytes): (e: Dev)
    requires Inv(c, d)
    ensures Inv(c, e)
    decreases |hs|
  {
    if |hs| == 0 then d else Happen(c, Replay(c, d, hs[..|hs| - 1], cmd, pl), hs[|hs| - 1], cmd, pl)
  }

  lemma ReplayMore(c: Config, d: Dev, hs: seq<Happening>, h: Happening, cmd: Byte, pl: Bytes)
    requires Inv(c, d)
    ensures Replay(c, d, hs + [h], cmd, pl) == Happen(c, Replay(c, d, hs, cmd, pl), h, cmd, pl)
  {
    hide Inv, Happen;
    assert (hs + [h])[..|hs|] == hs;
  }

  /** Where the resets the device's own answers caused went, in order: BOOT's, decided on what BOOT left. */
  function Resets(c: Config, d: Dev, hs: seq<Happening>, cmd: Byte, pl: Bytes): seq<Boot>
    requires Inv(c, d)
    decreases |hs|
  {
    if |hs| == 0 then []
    else
      Resets(c, d, hs[..|hs| - 1], cmd, pl)
      + ResetBy(c, Replay(c, d, hs[..|hs| - 1], cmd, pl), hs[|hs| - 1], cmd, pl)
  }

  function ResetBy(c: Config, d: Dev, h: Happening, cmd: Byte, pl: Bytes): seq<Boot>
    requires Inv(c, d)
  {
    if h.WasReset? then []
    else
      var s := Once(c, d, h.world, cmd, pl);
      if s.action == ResetDevice then [T.AfterReset(c, s.dev)] else []
  }

  lemma ResetsMore(c: Config, d: Dev, hs: seq<Happening>, h: Happening, cmd: Byte, pl: Bytes)
    requires Inv(c, d)
    ensures Resets(c, d, hs + [h], cmd, pl) == Resets(c, d, hs, cmd, pl) + ResetBy(c, Replay(c, d, hs, cmd, pl), h, cmd, pl)
  {
    hide Inv, ResetBy;
    assert (hs + [h])[..|hs|] == hs;
  }

  /** The execution at position `k` of a history is its last, and answered `p`. */
  ghost predicate LastAnswer(c: Config, d: Dev, hs: seq<Happening>, cmd: Byte, pl: Bytes, k: nat, p: Bytes)
    requires Inv(c, d)
  {
    && k < |hs| && hs[k].Ran?
    && (forall j: nat :: k < j < |hs| ==> hs[j].WasReset?)
    && p == Once(c, Replay(c, d, hs[..k], cmd, pl), hs[k].world, cmd, pl).payload
  }

  lemma LastAnswerReset(c: Config, d: Dev, hs: seq<Happening>, cmd: Byte, pl: Bytes, k: nat, p: Bytes)
    requires Inv(c, d) && LastAnswer(c, d, hs, cmd, pl, k, p)
    ensures LastAnswer(c, d, hs + [WasReset], cmd, pl, k, p)
  {
    hide Inv, Once;
    assert (hs + [WasReset])[..k] == hs[..k];
  }

  lemma LastAnswerRan(c: Config, d: Dev, hs: seq<Happening>, cmd: Byte, pl: Bytes, w: World)
    requires Inv(c, d)
    ensures LastAnswer(c, d, hs + [Ran(w)], cmd, pl, |hs|, Once(c, Replay(c, d, hs, cmd, pl), w, cmd, pl).payload)
  {
    hide Inv, Once;
    assert (hs + [Ran(w)])[..|hs|] == hs;
  }

  // ---- frames in flight --------------------------------------------------

  predicate Answers(f: Bytes, cmd: Byte) { Decode(f).Ok? && Decode(f).value.cmd == cmd | RESP_BIT }

  predicate Matches(f: Bytes, cmd: Byte, q: Byte) { Answers(f, cmd) && Decode(f).value.seqNo == q }

  predicate Command(cmd: Byte) { CMD_HELLO <= cmd <= CMD_BOOT }

  /** A frame the host took, and the sequence number of the attempt it was waiting for. */
  datatype Taken = Taken(attempt: Byte, bytes: Bytes)

  predicate IsReport(t: Taken) { Decode(t.bytes).Ok? && Decode(t.bytes).value.cmd == 0xFF }

  predicate IsAnswer(t: Taken, cmd: Byte) { Matches(t.bytes, cmd, t.attempt) }

  /** Frames that were neither the answer waited for nor a report. */
  ghost predicate Discarded(h: seq<Taken>, q: Byte, cmd: Byte) {
    forall t :: t in h ==> t.attempt == q && !IsAnswer(t, cmd) && !IsReport(t)
  }

  /** How one exchange ended: in silence, with nothing but discarded frames; or on the answer waited for or a
      frame-error report, everything before it discarded. */
  ghost predicate Exchanged(h: seq<Taken>, q: Byte, cmd: Byte, r: Option<HostFrame>) {
    match r
    case None => Discarded(h, q, cmd)
    case Some(f) =>
      && |h| > 0 && Discarded(h[..|h| - 1], q, cmd)
      && var t := h[|h| - 1];
      t.attempt == q && (IsAnswer(t, cmd) || IsReport(t)) && Decode(t.bytes) == Ok(f)
  }

  lemma NothingTaken(q: Byte, cmd: Byte)
    ensures Discarded([], q, cmd)
  {
  }

  lemma NothingCame(h: seq<Taken>, q: Byte, cmd: Byte)
    requires Discarded(h, q, cmd)
    ensures Exchanged(h, q, cmd, None)
  {
  }

  lemma TakenFrame(h: seq<Taken>, raw: Bytes, q: Byte, cmd: Byte)
    requires Discarded(h, q, cmd)
    ensures var f := Decode(raw);
      if f.Ok? && (IsFrameError(f.value) || IsResponseTo(f.value, cmd, q)) then
        Exchanged(h + [Taken(q, raw)], q, cmd, Some(f.value))
      else Discarded(h + [Taken(q, raw)], q, cmd)
  {
    hide Decode;
    assert (h + [Taken(q, raw)])[..|h|] == h;
  }

  /** The next request arrives and its answer returns. */
  predicate Clear(script: seq<Act>) { |script| >= 2 && script[0].Deliver? && script[1].Arrive? }

  lemma FrameErrorAnswersNothing(cmd: Byte, q: Byte)
    requires Command(cmd)
    ensures !Answers(Seal(FRAME_ERR, q, Err(E_CRC, 0)), cmd)
  {
    hide Seal, Decode;
    var f := Seal(FRAME_ERR, q, Err(E_CRC, 0));
    assert f + [] == f;
    DecodeSealed(FRAME_ERR, q, Err(E_CRC, 0), []);
  }

  lemma AnswerIsOwn(cmd: Byte, q: Byte, p: Bytes)
    requires |p| <= MAX_PAYLOAD
    ensures Decode(Seal(cmd | RESP_BIT, q, p)) == Ok(HostFrame(cmd | RESP_BIT, q, p))
  {
    hide Seal, Decode;
    var f := Seal(cmd | RESP_BIT, q, p);
    assert f + [] == f;
    DecodeSealed(cmd | RESP_BIT, q, p, []);
  }

  lemma DeviceTakesSealed(c: Config, d: Dev, cmd: Byte, q: Byte, pl: Bytes, w: World)
    requires Inv(c, d) && |pl| <= MAX_PAYLOAD
    ensures WellFormed(c, d)
    ensures var s := Once(c, d, w, cmd, pl);
      HandleFrame(c, d, Seal(cmd, q, pl), w) == Handled(s.dev, Answer(Seal(cmd | RESP_BIT, q, s.payload)), s.action)
  {
    hide Inv, WellFormed, Seal, Receive, Execute;
    FrameRelevant(c, d);
    InvEnter(c, d, w);
    FrameRelevant(c, Enter(d, w));
    var f := Seal(cmd, q, pl);
    assert f + [] == f;
    ReceiveSealed(cmd, q, pl, []);
  }

  class Link {
    const c: Config
    var dev: Dev
    var toDev: seq<Bytes>
    var toHost: seq<Bytes>
    var script: seq<Act>
    // the command being attempted
    ghost var start: Dev
    ghost var cmd: Byte
    ghost var pl: Bytes
    ghost var used: set<Byte>         // sequence numbers of its attempts
    ghost var cur: Byte               // the present attempt's
    ghost var flying: seq<Byte>       // sequence numbers of the requests in flight
    ghost var past: seq<Happening>
    ghost var lastRan: nat
    ghost var bootsBefore: seq<Boot>
    // over the link's whole life
    ghost var sent: seq<(Byte, Bytes)>    // commands begun
    ghost var heard: seq<Taken>           // frames the host took
    ghost var silences: nat               // exchanges that ended without one
    ghost var boots: seq<Boot>            // where the resets BOOT's answers caused went

    ghost predicate Valid()
      reads this
    {
      && Command(cmd) && |pl| <= MAX_PAYLOAD
      && Inv(c, start) && dev == Replay(c, start, past, cmd, pl)
      && boots == bootsBefore + Resets(c, start, past, cmd, pl)
      && |flying| == |toDev|
      && (forall i :: 0 <= i < |toDev| ==> toDev[i] == Seal(cmd, flying[i], pl) && flying[i] in used)
      && (forall i :: 0 <= i < |toHost| && Answers(toHost[i], cmd) ==> Decode(toHost[i]).value.seqNo in used)
    }

    /** The present attempt's request is the last in flight and unanswered, or nothing is in flight to the
        device and only the newest answer can be the present attempt's. */
    ghost predicate Attempting()
      reads this
      requires Valid()
    {
      && cur in used
      && (if |toDev| > 0 then
            flying[|flying| - 1] == cur && cur !in flying[..|flying| - 1]
            && (forall i :: 0 <= i < |toHost| ==> !Matches(toHost[i], cmd, cur))
          else
            forall i :: 0 <= i < |toHost| && Matches(toHost[i], cmd, cur) ==>
              i == |toHost| - 1 && LastAnswer(c, start, past, cmd, pl, lastRan, Decode(toHost[i]).value.payload))
    }

    lemma Facts()
      requires Valid()
      ensures Inv(c, start) && Inv(c, dev) && dev == Replay(c, start, past, cmd, pl)
      ensures boots == bootsBefore + Resets(c, start, past, cmd, pl)
    {
    }

    predicate Idle()
      reads this
    {
      toDev == [] && toHost == []
    }

    constructor (c: Config, dev: Dev, script: seq<Act>)
      requires Inv(c, dev)
      ensures this.c == c && this.dev == dev && Idle()
    {
      this.c, this.dev, this.toDev, this.toHost, this.script := c, dev, [], [], script;
    }

    /** A new command on a quiet link. */
    ghost method Begin(cmd: Byte, pl: Bytes)
      requires Idle() && Inv(c, dev) && Command(cmd) && |pl| <= MAX_PAYLOAD
      modifies this`start, this`cmd, this`pl, this`used, this`flying, this`past, this`bootsBefore, this`sent
      ensures Valid() && start == dev && used == {} && this.cmd == cmd && this.pl == pl && past == []
      ensures sent == old(sent) + [(cmd, pl)] && bootsBefore == boots
    {
      hide Inv, Once, Decode, Restarted;
      start, this.cmd, this.pl, used, flying, past := dev, cmd, pl, {}, [], [];
      bootsBefore, sent := boots, sent + [(cmd, pl)];
    }

    /** Hand one request to the link. */
    method Send(cmd: Byte, q: Byte, pl: Bytes)
      requires Valid() && cmd == this.cmd && pl == this.pl && q !in used
      modifies this`toDev, this`used, this`cur, this`flying
      ensures Valid() && Attempting() && cur == q && used == old(used) + {q}
      ensures |toDev| == |old(toDev)| + 1 && (old(toDev) == [] ==> flying == [q])
    {
      hide Inv, Decode, Seal, Replay;
      toDev := toDev + [Seal(cmd, q, pl)];
      used, cur, flying := used + {q}, q, flying + [q];
      assert flying[..|flying| - 1] == old(flying);
    }

    /** What the oldest request in flight will be answered with. */
    ghost function Reply(w: World): Bytes
      reads this
      requires Valid() && |toDev| > 0
    {
      Seal(cmd | RESP_BIT, flying[0], Once(c, dev, w, cmd, pl).payload)
    }

    /** What the oldest request makes of the device and of the histories. */
    lemma Delivery(w: World)
      requires Valid() && |toDev| > 0
      ensures WellFormed(c, dev)
      ensures var s, hs := Once(c, dev, w, cmd, pl), past + [Ran(w)];
        && HandleFrame(c, dev, toDev[0], w) == Handled(s.dev, Answer(Reply(w)), s.action)
        && Decode(Reply(w)) == Ok(HostFrame(cmd | RESP_BIT, flying[0], s.payload))
        && Replay(c, start, hs, cmd, pl) == (if s.action == ResetDevice then Restarted(c, s.dev) else s.dev)
        && Resets(c, start, hs, cmd, pl)
           == Resets(c, start, past, cmd, pl) + (if s.action == ResetDevice then [T.AfterReset(c, s.dev)] else [])
        && LastAnswer(c, start, hs, cmd, pl, |past|, s.payload)
    {
      hide Inv, Decode, Seal, Replay, HandleFrame, Once, Restarted, LastAnswer, WellFormed, Resets, T.AfterReset;
      DeviceTakesSealed(c, dev, cmd, flying[0], pl, w);
      ReplayMore(c, start, past, Ran(w), cmd, pl);
      ResetsMore(c, start, past, Ran(w), cmd, pl);
      LastAnswerRan(c, start, past, cmd, pl, w);
      AnswerIsOwn(cmd, flying[0], Once(c, dev, w, cmd, pl).payload);
    }

    method DeliverRequest(w: World)
      requires Valid() && Attempting() && |toDev| > 0
      modifies this`dev, this`toDev, this`toHost, this`flying, this`past, this`lastRan, this`boots
      ensures Valid() && Attempting()
      ensures |toDev| == |old(toDev)| - 1 && toHost == old(toHost) + [old(Reply(w))] && past == old(past) + [Ran(w)]
    {
      hide Inv, Decode, Seal, Replay, HandleFrame, Once, Restarted, LastAnswer, WellFormed, Resets, T.AfterReset, Reply;
      Delivery(w);
      var h := HandleFrame(c, dev, toDev[0], w);
      dev := h.dev;
      if h.action == ResetDevice {
        boots := boots + [T.AfterReset(c, dev)];
        dev := Restarted(c, dev);
      }
      if h.reply.Answer? {
        toHost := toHost + [h.reply.frame];
      }
      toDev := toDev[1..];
      flying, past, lastRan := flying[1..], past + [Ran(w)], |past|;
    }

    method DropRequest()
      requires Valid() && Attempting() && |toDev| > 0
      modifies this`toDev, this`flying
      ensures Valid() && Attempting()
    {
      hide Inv, Decode, Seal, Replay, LastAnswer, Resets;
      toDev, flying := toDev[1..], flying[1..];
    }

    /** The device sees bytes it cannot take for a request: it stays silent or reports a frame error. */
    method DeliverGarbage(bytes: Bytes)
      requires Valid() && Attempting() && |toDev| > 0
      requires Receive(bytes).Undecodable? || Receive(bytes).Corrupt?
      modifies this`toDev, this`toHost, this`flying
      ensures Valid() && Attempting()
    {
      hide Inv, Decode, Seal, Replay, LastAnswer, Receive;
      DropRequest();
      var r := Receive(bytes);
      if r.Corrupt? {
        FrameErrorAnswersNothing(cmd, r.seqNo);
        AppendForeign(Seal(FRAME_ERR, r.seqNo, Err(E_CRC, 0)));
      }
    }

    /** A message that answers nothing joins the queue to the host. */
    method AppendForeign(f: Bytes)
      requires Valid() && Attempting() && !Answers(f, cmd)
      requires |toDev| > 0 || NothingMatches()
      modifies this`toHost
      ensures Valid() && Attempting()
    {
      hide Inv, Decode, Seal, Replay, LastAnswer;
      toHost := toHost + [f];
    }

    ghost predicate NothingMatches()
      reads this
    {
      forall i :: 0 <= i < |toHost| ==> !Matches(toHost[i], cmd, cur)
    }

    method Restart()
      requires Valid() && Attempting()
      modifies this`dev, this`past
      ensures Valid() && Attempting()
    {
      hide Inv, Decode, Seal, Replay, LastAnswer, Restarted, Resets;
      ReplayMore(c, start, past, WasReset, cmd, pl);
      ResetsMore(c, start, past, WasReset, cmd, pl);
      forall p: Bytes, k: nat | LastAnswer(c, start, past, cmd, pl, k, p)
        ensures LastAnswer(c, start, past + [WasReset], cmd, pl, k, p)
      {
        LastAnswerReset(c, start, past, cmd, pl, k, p);
      }
      dev := Restarted(c, dev);
      past := past + [WasReset];
    }

    /** Replace or remove the oldest answer in flight. */
    method SpoilAnswer(replacement: seq<Bytes>)
      requires Valid() && Attempting() && |toHost| > 0 && |replacement| <= 1
      requires forall f :: f in replacement ==> !Decode(f).Ok?
      modifies this`toHost
      ensures Valid() && Attempting()
    {
      hide Inv, Decode, Seal, Replay, LastAnswer;
      var rest := toHost[1..];
      if |replacement| == 0 {
        toHost := rest;
      } else {
        assert replacement[0] in replacement;
        toHost := toHost[0 := replacement[0]];
      }
    }

    /** What the host may conclude from a frame that matches its present attempt. */
    ghost predicate Settled(f: Bytes)
      reads this
      requires Valid()
    {
      Matches(f, cmd, cur) ==>
        Idle() && LastAnswer(c, start, past, cmd, pl, lastRan, Decode(f).value.payload)
    }

    method TakeAnswer() returns (f: Bytes)
      requires Valid() && Attempting() && |toHost| > 0
      modifies this`toHost, this`heard
      ensures Valid() && Attempting() && Settled(f)
      ensures f == old(toHost)[0] && toHost == old(toHost)[1..] && heard == old(heard) + [Taken(cur, f)]
    {
      hide Inv, Decode, Seal, Replay, LastAnswer, Resets;
      f := toHost[0];
      toHost, heard := toHost[1..], heard + [Taken(cur, f)];
    }

    /** One environment step that is not a delivery to the host. */
    method Step(act: Act)
      requires Valid() && Attempting()
      modifies this`dev, this`toDev, this`toHost, this`flying, this`past, this`lastRan, this`boots
      ensures Valid() && Attempting()
      ensures act.Deliver? && |old(toDev)| > 0 ==>
        |toDev| == |old(toDev)| - 1 && toHost == old(toHost) + [old(Reply(act.world))] && past == old(past) + [Ran(act.world)]
    {
      hide Valid, Attempting, Decode, Receive, Reply;
      match act
      case Deliver(w) =>
        if |toDev| > 0 { DeliverRequest(w); }
      case LoseRequest =>
        if |toDev| > 0 { DropRequest(); }
      case CorruptRequest(bytes) =>
        if |toDev| > 0 && (Receive(bytes).Undecodable? || Receive(bytes).Corrupt?) { DeliverGarbage(bytes); }
      case LoseAnswer =>
        if |toHost| > 0 { SpoilAnswer([]); }
      case CorruptAnswer(bytes) =>
        if |toHost| > 0 && !Decode(bytes).Ok? { SpoilAnswer([bytes]); }
      case PowerLoss =>
        Restart();
      case Arrive =>
      case Deadline =>
    }

    method NextAct() returns (act: Act)
      requires Valid() && Attempting() && |script| > 0
      modifies this`script
      ensures Valid() && Attempting() && act == old(script)[0] && script == old(script)[1..]
    {
      hide Inv, Decode, Seal, Replay, LastAnswer, Resets;
      act := script[0];
      script := script[1..];
    }

    /** The host has waited in vain. */
    ghost method Fall()
      requires Valid() && Attempting()
      modifies this`silences
      ensures Valid() && Attempting() && silences == old(silences) + 1
    {
      hide Inv, Decode, Seal, Replay, LastAnswer, Resets;
      silences := silences + 1;
    }

    /** One act of the environment; over when a frame or the deadline has come. */
    method Turn() returns (over: bool, raw: Option<Bytes>)
      requires Valid() && Attempting() && |script| > 0
      modifies this`dev, this`toDev, this`toHost, this`flying, this`past, this`lastRan, this`script, this`heard, this`boots
      modifies this`silences
      ensures Valid() && Attempting() && script == old(script)[1..] && (raw.Some? ==> over)
      ensures raw.Some? ==> Settled(raw.value) && heard == old(heard) + [Taken(cur, raw.value)]
      ensures raw.None? ==> heard == old(heard)
      ensures silences == old(silences) + if over && raw.None? then 1 else 0
      ensures old(script)[0].Deliver? && |old(toDev)| > 0 ==>
        && !over && |toDev| == |old(toDev)| - 1 && toHost == old(toHost) + [old(Reply(script[0].world))]
        && past == old(past) + [Ran(old(script)[0].world)]
      ensures old(script)[0].Arrive? && |old(toHost)| > 0 ==>
        && raw == Some(old(toHost)[0]) && toHost == old(toHost)[1..] && toDev == old(toDev) && past == old(past)
    {
      hide Valid, Attempting, Settled, Seal, Once;
      var act := NextAct();
      over, raw := false, None;
      if act.Deadline? {
        Fall();
        over := true;
      } else if act.Arrive? && |toHost| > 0 {
        var f := TakeAnswer();
        over, raw := true, Some(f);
      } else {
        Step(act);
      }
    }

    /** The only request in flight is about to be delivered and answered so, on this script and history. */
    ghost predicate Posted(s: seq<Act>, hs: seq<Happening>, reply: Bytes)
      reads this
      requires Valid()
    {
      Clear(s) && script == s && past == hs && |toDev| == 1 && toHost == [] && Reply(s[0].world) == reply
    }

    /** And it has been. */
    ghost predicate Returned(s: seq<Act>, hs: seq<Happening>)
      reads this
      requires Clear(s)
    {
      script == s[2..] && past == hs + [Ran(s[0].world)] && Idle()
    }

    /** Wait for the next frame or the deadline. */
    method Recv(ghost s: seq<Act>, ghost hs: seq<Happening>, ghost reply: Bytes) returns (raw: Option<Bytes>)
      requires Valid() && Attempting()
      modifies this`dev, this`toDev, this`toHost, this`flying, this`past, this`lastRan, this`script, this`heard, this`boots
      modifies this`silences
      ensures Valid() && Attempting() && |script| <= |old(script)|
      ensures raw.Some? ==> Settled(raw.value) && |script| < |old(script)|
      ensures raw.Some? ==> silences == old(silences) && heard == old(heard) + [Taken(cur, raw.value)]
      ensures raw.None? ==> silences == old(silences) + 1 && heard == old(heard)
      ensures old(Posted(s, hs, reply)) ==> raw == Some(reply) && Returned(s, hs)
    {
      hide Valid, Attempting, Settled, Reply;
      ghost var clear, n := Posted(s, hs, reply), |script|;
      while |script| > 0
        invariant Valid() && Attempting() && |script| <= n
        invariant silences == old(silences) && heard == old(heard)
        invariant clear ==> Clear(s) && |s| == n
        invariant clear && |script| == n ==> Posted(s, hs, reply)
        invariant clear && |script| < n ==>
          script == s[1..] && toDev == [] && toHost == [reply] && past == hs + [Ran(s[0].world)]
        decreases |script|
      {
        var over, f := Turn();
        if over {
          return f;
        }
      }
      Fall();
      return None;
    }

    /** The frame ends an exchange that waits for this answer. */
    predicate Concludes(raw: Bytes, cmd: Byte, q: Byte) {
      Decode(raw).Ok? && (IsFrameError(Decode(raw).value) || IsResponseTo(Decode(raw).value, cmd, q))
    }

    /** The next frame or the deadline; over unless the frame is one to discard. */
    method Hear(cmd: Byte, q: Byte, ghost n: seq<Taken>, ghost taken: seq<Taken>, ghost s: seq<Act>,
                ghost hs: seq<Happening>, ghost reply: Bytes)
      returns (over: bool, r: Option<HostFrame>, ghost more: seq<Taken>)
      requires Valid() && Attempting() && cmd == this.cmd && q == cur && heard == n + taken && Discarded(taken, q, cmd)
      modifies this`dev, this`toDev, this`toHost, this`flying, this`past, this`lastRan, this`script
      modifies this`heard, this`silences, this`boots
      ensures Valid() && Attempting() && heard == n + more && (!over ==> |script| < |old(script)|)
      ensures if over then Exchanged(more, q, cmd, r) else Discarded(more, q, cmd)
      ensures silences == old(silences) + if over && r.None? then 1 else 0
      ensures over && r.Some? && !IsFrameError(r.value) ==>
        Idle() && LastAnswer(c, start, past, cmd, pl, lastRan, r.value.payload)
      ensures old(Posted(s, hs, reply)) && Concludes(reply, cmd, q) ==>
        over && r == Some(Decode(reply).value) && Returned(s, hs)
    {
      hide Valid, Attempting, Decode, LastAnswer, Exchanged, Discarded, Posted, Returned;
      var raw := Recv(s, hs, reply);
      if raw.None? {
        NothingCame(taken, q, cmd);
        return true, None, taken;
      }
      TakenFrame(taken, raw.value, q, cmd);
      more := taken + [Taken(q, raw.value)];
      assert n + taken + [Taken(q, raw.value)] == n + more;
      var f := Decode(raw.value);
      over := f.Ok? && (IsFrameError(f.value) || IsResponseTo(f.value, cmd, q));
      r := if over then Some(f.value) else None;
    }

    /** One request sent, and the matched answer or a frame-error report; anything else is discarded and the wait
        goes on. */
    method Xfer(cmd: Byte, q: Byte, pl: Bytes) returns (r: Option<HostFrame>, ghost taken: seq<Taken>)
      requires Valid() && cmd == this.cmd && pl == this.pl && q !in used
      modifies this`dev, this`toDev, this`toHost, this`flying, this`past, this`lastRan, this`script, this`used, this`cur
      modifies this`heard, this`silences, this`boots
      ensures Valid() && used == old(used) + {q}
      ensures r.Some? && !IsFrameError(r.value) ==>
        Idle() && LastAnswer(c, start, past, cmd, pl, lastRan, r.value.payload)
      ensures heard == old(heard) + taken && Exchanged(taken, q, cmd, r)
      ensures silences == old(silences) + if r.None? then 1 else 0
      ensures Clear(old(script)) && old(Idle()) ==>
        && r == Some(HostFrame(cmd | RESP_BIT, q, Once(c, old(dev), old(script)[0].world, cmd, pl).payload))
        && Returned(old(script), old(past))
    {
      hide Valid, Attempting, Decode, LastAnswer, Once, Reply, Exchanged, Discarded, Posted, Returned;
      ghost var clear, s0, p0, n0 := Clear(script) && Idle(), script, past, heard;
      taken := [];
      NothingTaken(q, cmd);
      Send(cmd, q, pl);
      ghost var reply := if clear then Reply(script[0].world) else [];
      if clear {
        ReplyDecodes(script[0].world);
        IsPosted(s0, p0, reply);
      }
      while true
        invariant Valid() && Attempting() && cur == q && used == old(used) + {q}
        invariant heard == n0 + taken && silences == old(silences) && Discarded(taken, q, cmd)
        invariant clear ==> Posted(s0, p0, reply)
        decreases |script|
      {
        var over;
        over, r, taken := Hear(cmd, q, n0, taken, s0, p0, reply);
        if over {
          return;
        }
      }
    }

    lemma IsPosted(s: seq<Act>, hs: seq<Happening>, reply: Bytes)
      requires Valid() && Clear(s) && script == s && past == hs && |toDev| == 1 && toHost == [] && Reply(s[0].world) == reply
      ensures Posted(s, hs, reply)
    {
      hide Valid, Reply;
    }

    lemma ReplyDecodes(w: World)
      requires Valid() && |toDev| > 0
      ensures Decode(Reply(w)) == Ok(HostFrame(cmd | RESP_BIT, flying[0], Once(c, dev, w, cmd, pl).payload))
    {
      hide Inv, Decode, Seal, Once, Replay, Resets;
      Facts();
      AnswerIsOwn(cmd, flying[0], Once(c, dev, w, cmd, pl).payload);
    }
  }
}
