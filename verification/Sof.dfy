/** Start-of-frame framing on a byte stream with gaps: one parser, its firmware automaton polled over a
    FIFO, and its host loop over a blocking byte source. */
module Sof {
  import opened Bytes
  import opened Crc32
  import opened Core

  const SOF1: Byte := 0xB0
  const SOF2: Byte := 0x07
  const HEADER: nat := 4
  const OVERHEAD: nat := 8

  /** What a receiver sees: a byte, or silence long enough to end a frame. */
  datatype Symbol = Data(byte: Byte) | Gap

  datatype Parser = Hunt1 | Hunt2 | Collect(buf: Bytes)

  /** Frame bytes wanted once the header is in. */
  function Need(buf: Bytes): (n: nat)
    requires |buf| >= HEADER
  {
    OVERHEAD + Digit(buf[2])
  }

  /** One symbol: the next state, and the frame it completes, if any. */
  function Advance(p: Parser, s: Symbol): (Parser, Option<Bytes>) {
    match s
    case Gap => (Hunt1, None)
    case Data(b) =>
      match p
      case Hunt1 => (if b == SOF1 then Hunt2 else Hunt1, None)
      case Hunt2 => (if b == SOF2 then Collect([]) else if b == SOF1 then Hunt2 else Hunt1, None)
      case Collect(buf) =>
        var t := buf + [b];
        if |t| < HEADER then (Collect(t), None)
        else if |t| == HEADER && Digit(t[2]) > MAX_PAYLOAD then (Hunt1, None)
        else if |t| == Need(t) then (Hunt1, Some(t))
        else (Collect(t), None)
  }

  function With(fs: seq<Bytes>, f: Option<Bytes>): seq<Bytes> {
    match f case None => fs case Some(x) => fs + [x]
  }

  /** The frames a stream delivers, and where it leaves the parser. */
  function Feed(p: Parser, s: seq<Symbol>): (Parser, seq<Bytes>) {
    if |s| == 0 then (p, [])
    else
      var (q, fs) := Feed(p, s[..|s| - 1]);
      var (r, f) := Advance(q, s[|s| - 1]);
      (r, With(fs, f))
  }

  function DataOf(bytes: Bytes): (s: seq<Symbol>)
    ensures |s| == |bytes|
  {
    seq(|bytes|, i requires 0 <= i < |bytes| => Data(bytes[i]))
  }

  lemma FeedOne(p: Parser, s: seq<Symbol>, x: Symbol)
    ensures var (q, fs) := Feed(p, s); Feed(p, s + [x]) == (Advance(q, x).0, With(fs, Advance(q, x).1))
  {
    hide Advance;
    assert (s + [x])[..|s|] == s;
  }

  lemma WithConcat(fs: seq<Bytes>, gs: seq<Bytes>, f: Option<Bytes>)
    ensures With(fs + gs, f) == fs + With(gs, f)
  {
  }

  lemma {:induction false} FeedConcat(p: Parser, s: seq<Symbol>, t: seq<Symbol>)
    ensures var (q, fs) := Feed(p, s); var (r, gs) := Feed(q, t); Feed(p, s + t) == (r, fs + gs)
    decreases |t|
  {
    hide Advance;
    if |t| == 0 {
      assert s + t == s;
      assert Feed(p, s).1 + [] == Feed(p, s).1;
    } else {
      var n := |t| - 1;
      FeedConcat(p, s, t[..n]);
      assert (s + t)[..|s + t| - 1] == s + t[..n];
      WithConcat(Feed(p, s).1, Feed(Feed(p, s).0, t[..n]).1, Advance(Feed(Feed(p, s).0, t[..n]).0, t[n]).1);
    }
  }

  // ---- what the stream means ---------------------------------------------

  /** A frame as long as its own length byte says. */
  predicate Whole(frame: Bytes) {
    |frame| >= HEADER && Digit(frame[2]) <= MAX_PAYLOAD && |frame| == OVERHEAD + Digit(frame[2])
  }

  function EncodeSof(frame: Bytes): Bytes { [SOF1, SOF2] + frame }

  lemma {:induction false} CollectPrefix(frame: Bytes, n: nat)
    requires Whole(frame) && n < |frame|
    ensures Feed(Collect([]), DataOf(frame[..n])) == (Collect(frame[..n]), [])
    decreases n
  {
    hide Digit;
    if n > 0 {
      CollectPrefix(frame, n - 1);
      assert DataOf(frame[..n])[..n - 1] == DataOf(frame[..n - 1]);
      assert frame[..n - 1] + [frame[n - 1]] == frame[..n];
    }
  }

  lemma SofLocks(p: Parser)
    requires !p.Collect?
    ensures Feed(p, [Data(SOF1), Data(SOF2)]) == (Collect([]), [])
  {
    FeedOne(p, [], Data(SOF1));
    FeedOne(p, [Data(SOF1)], Data(SOF2));
    assert [] + [Data(SOF1)] == [Data(SOF1)];
    assert [Data(SOF1)] + [Data(SOF2)] == [Data(SOF1), Data(SOF2)];
  }

  lemma CollectWhole(frame: Bytes)
    requires Whole(frame)
    ensures Feed(Collect([]), DataOf(frame)) == (Hunt1, [frame])
  {
    hide Digit;
    var n := |frame| - 1;
    CollectPrefix(frame, n);
    FeedOne(Collect([]), DataOf(frame[..n]), Data(frame[n]));
    assert frame[..n] + [frame[n]] == frame;
    assert DataOf(frame[..n]) + [Data(frame[n])] == DataOf(frame);
    assert With([], Some(frame)) == [frame];
  }

  /** From either hunting state, a framed frame is delivered whole. */
  lemma EncodedIsDelivered(p: Parser, frame: Bytes)
    requires Whole(frame) && !p.Collect?
    ensures Feed(p, DataOf(EncodeSof(frame))) == (Hunt1, [frame]) && EncodeSof(frame) == [0xB0, 0x07] + frame
  {
    hide Whole, Advance, Feed;
    SofLocks(p);
    CollectWhole(frame);
    FeedConcat(p, [Data(SOF1), Data(SOF2)], DataOf(frame));
    assert DataOf(EncodeSof(frame)) == [Data(SOF1), Data(SOF2)] + DataOf(frame);
    assert [] + [frame] == [frame];
  }

  /** After any noise and then a gap, the next framed frame is delivered whole, after whatever the noise
      delivered. */
  lemma GapResynchronises(p: Parser, noise: seq<Symbol>, frame: Bytes)
    requires Whole(frame)
    ensures Feed(p, noise + [Gap] + DataOf(EncodeSof(frame))) == (Hunt1, Feed(p, noise).1 + [frame])
  {
    hide Digit;
    FeedOne(p, noise, Gap);
    EncodedIsDelivered(Hunt1, frame);
    FeedConcat(p, noise + [Gap], DataOf(EncodeSof(frame)));
  }

  /** Every sealed frame is whole, so both ends can frame anything they can say. */
  lemma SealedIsWhole(cmd: Byte, seqNo: Byte, payload: Bytes)
    requires |payload| <= MAX_PAYLOAD
    ensures Whole(Seal(cmd, seqNo, payload))
  {
    hide Crc, PutWord, Digit;
    ByteOfNat(|payload|);
  }

  /** So after any noise and then a gap the next request or answer is delivered whole. */
  lemma SealedResynchronises(p: Parser, noise: seq<Symbol>, cmd: Byte, seqNo: Byte, payload: Bytes)
    requires |payload| <= MAX_PAYLOAD
    ensures var frame := Seal(cmd, seqNo, payload);
      Feed(p, noise + [Gap] + DataOf(EncodeSof(frame))) == (Hunt1, Feed(p, noise).1 + [frame])
  {
    hide Feed, Whole, Seal;
    SealedIsWhole(cmd, seqNo, payload);
    GapResynchronises(p, noise, Seal(cmd, seqNo, payload));
  }

  /** Whatever is delivered is whole, and a collecting parser holds a proper prefix of a frame. */
  ghost predicate Sane(p: Parser) {
    p.Collect? ==>
      |p.buf| < HEADER || (Digit(p.buf[2]) <= MAX_PAYLOAD && |p.buf| < OVERHEAD + Digit(p.buf[2]))
  }

  lemma AdvanceSane(p: Parser, s: Symbol)
    requires Sane(p)
    ensures Sane(Advance(p, s).0) && (Advance(p, s).1.Some? ==> Whole(Advance(p, s).1.value))
  {
    hide Digit;
  }

  lemma {:induction false} OnlyWholeFrames(p: Parser, s: seq<Symbol>)
    requires Sane(p)
    ensures Sane(Feed(p, s).0) && forall f :: f in Feed(p, s).1 ==> Whole(f)
    decreases |s|
  {
    hide Advance, Sane, Whole;
    if |s| > 0 {
      OnlyWholeFrames(p, s[..|s| - 1]);
      AdvanceSane(Feed(p, s[..|s| - 1]).0, s[|s| - 1]);
    }
  }

  /** The frame stands in the stream at `i`: start bytes and content, contiguous, no gap between. */
  ghost predicate StandsAt(s: seq<Symbol>, f: Bytes, i: nat) {
    i + 2 + |f| <= |s| && s[i..i + 2 + |f|] == DataOf([0xB0, 0x07] + f)
  }

  ghost predicate Stands(s: seq<Symbol>, f: Bytes) { exists i: nat :: StandsAt(s, f, i) }

  lemma StandsLonger(s: seq<Symbol>, x: Symbol, f: Bytes)
    requires Stands(s, f)
    ensures Stands(s + [x], f)
  {
    var i: nat :| StandsAt(s, f, i);
    assert (s + [x])[i..i + 2 + |f|] == s[i..i + 2 + |f|];
    assert StandsAt(s + [x], f, i);
  }

  /** What the parser's state says of the stream's end. */
  ghost predicate Remembers(p: Parser, s: seq<Symbol>) {
    match p
    case Hunt1 => true
    case Hunt2 => |s| > 0 && s[|s| - 1] == Data(0xB0)
    case Collect(buf) => |s| >= 2 + |buf| && s[|s| - 2 - |buf|..] == DataOf([0xB0, 0x07] + buf)
  }

  lemma RemembersNext(p: Parser, s: seq<Symbol>, x: Symbol)
    requires Remembers(p, s)
    ensures Remembers(Advance(p, x).0, s + [x])
    ensures Advance(p, x).1.Some? ==> Stands(s + [x], Advance(p, x).1.value)
  {
    hide Digit;
    if p.Collect? && x.Data? {
      var t := p.buf + [x.byte];
      var i := |s| - 2 - |p.buf|;
      assert (s + [x])[i..] == s[i..] + [x];
      assert [0xB0, 0x07] + t == [0xB0, 0x07] + p.buf + [x.byte];
      assert DataOf([0xB0, 0x07] + t) == DataOf([0xB0, 0x07] + p.buf) + [x];
      assert StandsAt(s + [x], t, i);
    } else if p.Hunt2? && x.Data? && x.byte == SOF2 {
      assert (s + [x])[|s| - 1..] == [Data(0xB0), Data(0x07)];
      assert DataOf([0xB0, 0x07] + []) == [Data(0xB0), Data(0x07)];
    }
  }

  /** Nothing is made up: every frame delivered stands in the stream, right behind the two start bytes. */
  lemma {:induction false} DeliveredStands(s: seq<Symbol>)
    ensures Remembers(Feed(Hunt1, s).0, s)
    ensures forall f :: f in Feed(Hunt1, s).1 ==> Stands(s, f)
    decreases |s|
  {
    hide Advance, Remembers, Stands;
    if |s| == 0 {
      StartRemembers();
    } else {
      var front, x := s[..|s| - 1], s[|s| - 1];
      DeliveredStands(front);
      RemembersNext(Feed(Hunt1, front).0, front, x);
      assert front + [x] == s;
      forall f | f in Feed(Hunt1, front).1
        ensures Stands(s, f)
      {
        StandsLonger(front, x, f);
      }
    }
  }

  lemma StartRemembers()
    ensures Remembers(Hunt1, [])
  {
  }

  // ---- the firmware's automaton ------------------------------------------

  datatype RxState = StHunt1 | StHunt2 | StCollect

  class UartReceiver {
    const idlePolls: nat              // empty polls that make a gap
    const rxBuf: array<Byte>
    var rxState: RxState
    var rxPos: nat
    var rxNeed: nat
    var rxIdle: nat
    var fifo: Bytes                   // received by the hardware, not yet read
    ghost var trace: seq<Symbol>      // everything consumed, with the gaps that were noticed
    ghost var delivered: seq<Bytes>   // every frame handed up

    ghost function State(): Parser
      reads this, rxBuf
      requires rxPos <= rxBuf.Length
    {
      match rxState case StHunt1 => Hunt1 case StHunt2 => Hunt2 case StCollect => Collect(rxBuf[..rxPos])
    }

    /** The automaton is the parser run over everything consumed, and its index fits its buffer. */
    ghost predicate Valid()
      reads this, rxBuf
    {
      && rxBuf.Length == OVERHEAD + MAX_PAYLOAD && rxPos <= rxBuf.Length && idlePolls > 0
      && rxIdle < idlePolls && (rxState.StHunt1? ==> rxIdle == 0)
      && (rxState.StCollect? ==>
            if rxPos < HEADER then rxNeed == HEADER
            else rxNeed == OVERHEAD + Digit(rxBuf[2]) && rxPos < rxNeed <= rxBuf.Length)
      && Feed(Hunt1, trace) == (State(), delivered)
    }

    constructor (idlePolls: nat)
      requires idlePolls > 0
      ensures Valid() && trace == [] && fifo == [] && delivered == [] && fresh(rxBuf)
    {
      this.idlePolls := idlePolls;
      rxBuf := new Byte[OVERHEAD + MAX_PAYLOAD];
      rxState, rxPos, rxNeed, rxIdle, fifo, trace, delivered := StHunt1, 0, 0, 0, [], [], [];
    }

    /** The hardware receives bytes. */
    method Receive(bytes: Bytes)
      requires Valid() && fifo == []
      modifies this`fifo
      ensures Valid() && fifo == bytes
    {
      fifo := bytes;
    }

    /** One byte through the state machine; the poll that read it has reset the idle counter. */
    method TakeByte(b: Byte) returns (complete: bool)
      requires Valid() && rxIdle == 0
      modifies this`rxState, this`rxPos, this`rxNeed, this`trace, this`delivered, rxBuf
      ensures Valid() && trace == old(trace) + [Data(b)]
      ensures delivered == With(old(delivered), if complete then Some(rxBuf[..rxPos]) else None)
      ensures complete ==> rxState.StHunt1?
    {
      hide Digit, Feed;
      FeedOne(Hunt1, trace, Data(b));
      trace := trace + [Data(b)];
      complete := false;
      match rxState
      case StHunt1 =>
        if b == SOF1 { rxState := StHunt2; }
      case StHunt2 =>
        if b == SOF2 {
          rxState, rxPos, rxNeed := StCollect, 0, HEADER;
        } else if b != SOF1 {
          rxState := StHunt1;
        }
      case StCollect =>
        rxBuf[rxPos] := b;
        rxPos := rxPos + 1;
        assert rxBuf[..rxPos] == old(rxBuf[..rxPos]) + [b];
        if rxPos == HEADER && rxNeed == HEADER {
          if Digit(rxBuf[2]) > MAX_PAYLOAD {
            rxState := StHunt1;
            return;
          }
          rxNeed := OVERHEAD + Digit(rxBuf[2]);
        }
        if rxPos == rxNeed {
          rxState := StHunt1;
          complete := true;
          delivered := delivered + [rxBuf[..rxPos]];
        }
    }

    /** One poll. An empty one counts towards a gap mid-frame; otherwise pending bytes are consumed up to
        the end of the first frame they complete. */
    method Poll() returns (frame: Option<Bytes>)
      requires Valid()
      modifies this`rxState, this`rxPos, this`rxNeed, this`rxIdle, this`fifo, this`trace, this`delivered, rxBuf
      ensures Valid()
      ensures delivered == With(old(delivered), frame)
      ensures old(fifo) == [] ==>
        && fifo == [] && frame.None?
        && (if old(!rxState.StHunt1? && rxIdle + 1 >= idlePolls) then trace == old(trace) + [Gap] && rxIdle == 0
            else trace == old(trace) && rxIdle == old(rxIdle) + (if old(rxState.StHunt1?) then 0 else 1))
      ensures old(fifo) != [] ==>
        && rxIdle == 0 && |fifo| < |old(fifo)|
        && trace == old(trace) + DataOf(old(fifo)[..|old(fifo)| - |fifo|])
        && old(fifo)[|old(fifo)| - |fifo|..] == fifo
        && (frame.None? ==> fifo == [])
    {
      hide Digit, Feed;
      var n := |fifo|;
      if n == 0 {
        if !rxState.StHunt1? {
          rxIdle := rxIdle + 1;
          if rxIdle >= idlePolls {
            FeedOne(Hunt1, trace, Gap);
            rxState, rxIdle, trace := StHunt1, 0, trace + [Gap];
          }
        }
        return None;
      }
      rxIdle := 0;
      ghost var k := 0;
      assert DataOf(old(fifo)[..0]) == [];
      while n > 0
        invariant 0 <= n == |fifo| && k + n == |old(fifo)| && Valid() && rxIdle == 0
        invariant old(fifo)[k..] == fifo && trace == old(trace) + DataOf(old(fifo)[..k])
        invariant delivered == old(delivered)
      {
        var b := fifo[0];
        fifo := fifo[1..];
        assert DataOf(old(fifo)[..k + 1]) == DataOf(old(fifo)[..k]) + [Data(b)];
        assert old(trace) + DataOf(old(fifo)[..k + 1]) == old(trace) + DataOf(old(fifo)[..k]) + [Data(b)];
        var complete := TakeByte(b);
        k := k + 1;
        n := n - 1;
        if complete {
          return Some(rxBuf[..rxPos]);
        }
      }
      return None;
    }
  }

  lemma DataOfConcat(t: seq<Symbol>, a: Bytes, b: Bytes)
    ensures t + DataOf(a) + DataOf(b) == t + DataOf(a + b)
  {
    assert DataOf(a + b) == DataOf(a) + DataOf(b);
  }

  /** Poll until everything received is consumed. */
  method Drain(rx: UartReceiver) returns (frames: seq<Bytes>)
    requires rx.Valid()
    modifies rx, rx.rxBuf
    ensures rx.Valid() && rx.fifo == [] && rx.trace == old(rx.trace) + DataOf(old(rx.fifo))
    ensures rx.delivered == old(rx.delivered) + frames
    ensures rx.rxIdle == if old(rx.fifo) == [] then old(rx.rxIdle) else 0
  {
    hide UartReceiver.Valid, DataOf;
    ghost var eaten: Bytes := [];
    frames := [];
    NoData(rx.trace);
    assert rx.delivered + [] == rx.delivered;
    while |rx.fifo| > 0
      invariant rx.Valid() && old(rx.fifo) == eaten + rx.fifo
      invariant rx.trace == old(rx.trace) + DataOf(eaten)
      invariant rx.delivered == old(rx.delivered) + frames
      invariant rx.rxIdle == if eaten == [] then old(rx.rxIdle) else 0
      decreases |rx.fifo|
    {
      ghost var was := rx.fifo;
      var frame := rx.Poll();
      ghost var n := |was| - |rx.fifo|;
      DataOfConcat(old(rx.trace), eaten, was[..n]);
      assert eaten + was == (eaten + was[..n]) + was[n..];
      eaten := eaten + was[..n];
      WithConcat(old(rx.delivered), frames, frame);
      frames := With(frames, frame);
    }
    assert eaten + [] == eaten;
  }

  lemma NoData(t: seq<Symbol>)
    ensures t + DataOf([]) == t
  {
  }

  // ---- polling a line ----------------------------------------------------

  /** What the firmware meets on the line between two rounds: bytes, polled until consumed, or one poll
      that finds nothing. */
  datatype Round = Arrive(bytes: Bytes) | Empty

  /** Empty polls since the last byte. */
  function QuietRun(rounds: seq<Round>): nat {
    if |rounds| == 0 then 0
    else
      var n := |rounds| - 1;
      match rounds[n]
      case Arrive(bytes) => if |bytes| == 0 then QuietRun(rounds[..n]) else 0
      case Empty => QuietRun(rounds[..n]) + 1
  }

  /** The stream on the line: a silence becomes a gap at its `idlePolls`-th empty poll, whatever the
      receiver is doing. */
  function Line(rounds: seq<Round>, idlePolls: nat): seq<Symbol> {
    if |rounds| == 0 then []
    else
      var n := |rounds| - 1;
      match rounds[n]
      case Arrive(bytes) => Line(rounds[..n], idlePolls) + DataOf(bytes)
      case Empty => Line(rounds[..n], idlePolls) + (if QuietRun(rounds) == idlePolls then [Gap] else [])
  }

  /** The receiver is where the parser is after `line`, and counts the present silence mid-frame. */
  ghost predicate Follows(rx: UartReceiver, line: seq<Symbol>, quiet: nat)
    reads rx, rx.rxBuf
  {
    && rx.Valid() && rx.fifo == [] && Feed(Hunt1, line) == Feed(Hunt1, rx.trace)
    && (!rx.rxState.StHunt1? ==> rx.rxIdle == quiet)
  }

  method TakeChunk(rx: UartReceiver, bytes: Bytes, ghost line: seq<Symbol>, ghost quiet: nat) returns (frames: seq<Bytes>)
    requires Follows(rx, line, quiet)
    modifies rx, rx.rxBuf
    ensures Follows(rx, line + DataOf(bytes), if |bytes| == 0 then quiet else 0)
    ensures rx.delivered == old(rx.delivered) + frames
  {
    hide Feed, DataOf;
    FeedConcat(Hunt1, line, DataOf(bytes));
    FeedConcat(Hunt1, rx.trace, DataOf(bytes));
    NoData(rx.trace);
    rx.Receive(bytes);
    frames := Drain(rx);
  }

  method TakeSilence(rx: UartReceiver, ghost line: seq<Symbol>, ghost quiet: nat)
    requires Follows(rx, line, quiet)
    modifies rx, rx.rxBuf
    ensures Follows(rx, line + (if quiet + 1 == rx.idlePolls then [Gap] else []), quiet + 1)
    ensures rx.delivered == old(rx.delivered)
  {
    hide Feed;
    FeedOne(Hunt1, line, Gap);
    FeedOne(Hunt1, rx.trace, Gap);
    assert line + [] == line;
    var _ := rx.Poll();
  }

  /** The firmware over a whole line: it hands up exactly the parser's frames, however the bytes are cut into
      polls and wherever the silences fall. */
  method PollLine(rx: UartReceiver, rounds: seq<Round>) returns (frames: seq<Bytes>)
    requires rx.Valid() && rx.fifo == [] && rx.trace == []
    modifies rx, rx.rxBuf
    ensures rx.Valid() && rx.fifo == []
    ensures Feed(Hunt1, Line(rounds, rx.idlePolls)) == (rx.State(), frames)
  {
    hide Feed, UartReceiver.Valid, Line, QuietRun;
    FreshFollows(rx);
    NothingOnLine(rx.idlePolls);
    frames := [];
    var i := 0;
    while i < |rounds|
      invariant 0 <= i <= |rounds|
      invariant Follows(rx, Line(rounds[..i], rx.idlePolls), QuietRun(rounds[..i]))
      invariant frames == rx.delivered
    {
      LineOne(rounds, i, rx.idlePolls);
      match rounds[i] {
        case Arrive(bytes) =>
          var more := TakeChunk(rx, bytes, Line(rounds[..i], rx.idlePolls), QuietRun(rounds[..i]));
          frames := frames + more;
        case Empty =>
          TakeSilence(rx, Line(rounds[..i], rx.idlePolls), QuietRun(rounds[..i]));
      }
      i := i + 1;
    }
    assert rounds[..i] == rounds;
    FollowsParser(rx, Line(rounds, rx.idlePolls), QuietRun(rounds));
  }

  lemma FreshFollows(rx: UartReceiver)
    requires rx.Valid() && rx.fifo == [] && rx.trace == []
    ensures Follows(rx, [], 0) && rx.delivered == []
  {
    FeedNothing(Hunt1);
  }

  lemma NothingOnLine(idlePolls: nat)
    ensures Line([], idlePolls) == [] && QuietRun([]) == 0
  {
  }

  lemma FollowsParser(rx: UartReceiver, line: seq<Symbol>, quiet: nat)
    requires Follows(rx, line, quiet)
    ensures rx.Valid() && Feed(Hunt1, line) == (rx.State(), rx.delivered)
  {
    hide Feed;
  }

  lemma LineOne(rounds: seq<Round>, i: nat, idlePolls: nat)
    requires i < |rounds|
    ensures match rounds[i]
      case Arrive(bytes) =>
        && Line(rounds[..i + 1], idlePolls) == Line(rounds[..i], idlePolls) + DataOf(bytes)
        && QuietRun(rounds[..i + 1]) == if |bytes| == 0 then QuietRun(rounds[..i]) else 0
      case Empty =>
        && QuietRun(rounds[..i + 1]) == QuietRun(rounds[..i]) + 1
        && Line(rounds[..i + 1], idlePolls)
           == Line(rounds[..i], idlePolls) + (if QuietRun(rounds[..i]) + 1 == idlePolls then [Gap] else [])
  {
    assert rounds[..i + 1][..i] == rounds[..i];
  }

  /** Where a run of bytes is cut makes no difference to the line. */
  lemma {:induction false} CutAnywhere(before: seq<Round>, a: Bytes, b: Bytes, after: seq<Round>, idlePolls: nat)
    ensures var cut, whole := before + [Arrive(a), Arrive(b)] + after, before + [Arrive(a + b)] + after;
      Line(cut, idlePolls) == Line(whole, idlePolls) && QuietRun(cut) == QuietRun(whole)
    decreases |after|
  {
    hide DataOf;
    var cut, whole := before + [Arrive(a), Arrive(b)] + after, before + [Arrive(a + b)] + after;
    if |after| == 0 {
      var n := |before|;
      LineOne(cut, n, idlePolls);
      LineOne(cut, n + 1, idlePolls);
      LineOne(whole, n, idlePolls);
      assert cut[..n] == before && whole[..n] == before && cut[..n + 2] == cut && whole[..n + 1] == whole;
      DataOfConcat(Line(before, idlePolls), a, b);
    } else {
      var front := after[..|after| - 1];
      CutAnywhere(before, a, b, front, idlePolls);
      assert cut[..|cut| - 1] == before + [Arrive(a), Arrive(b)] + front;
      assert whole[..|whole| - 1] == before + [Arrive(a + b)] + front;
    }
  }

  // ---- the host's loop ---------------------------------------------------

  /** A blocking byte source. The stream ends at the deadline. */
  class ByteSource {
    var input: seq<Symbol>

    constructor (input: seq<Symbol>)
      ensures this.input == input
    {
      this.input := input;
    }

    /** Wait at most the inter-byte time: a gap or the deadline gives nothing. */
    method NextWithin() returns (b: Option<Byte>)
      modifies this
      ensures old(input) == [] ==> b.None? && input == []
      ensures old(input) != [] ==> input == old(input)[1..]
      ensures old(input) != [] ==> old(input)[0] == match b case None => Gap case Some(x) => Data(x)
    {
      if |input| == 0 {
        return None;
      }
      var s := input[0];
      input := input[1..];
      match s
      case Gap => return None;
      case Data(x) => return Some(x);
    }

    /** Wait until the deadline: gaps pass unnoticed. */
    method NextEver() returns (b: Option<Byte>, ghost gaps: seq<Symbol>)
      modifies this
      ensures AllGaps(gaps)
      ensures old(input) == gaps + (match b case None => [] case Some(x) => [Data(x)]) + input
      ensures b.None? ==> input == []
      ensures b.Some? ==> |input| < |old(input)|
    {
      gaps := [];
      while |input| > 0
        invariant AllGaps(gaps)
        invariant old(input) == gaps + input
        decreases |input|
      {
        var s := input[0];
        input := input[1..];
        match s {
          case Gap => gaps := gaps + [Gap];
          case Data(x) => return Some(x), gaps;
        }
      }
      return None, gaps;
    }
  }

  predicate AllGaps(s: seq<Symbol>) { forall i :: 0 <= i < |s| ==> s[i] == Gap }

  lemma {:induction false} GapsDoNothing(s: seq<Symbol>)
    requires AllGaps(s)
    ensures Feed(Hunt1, s) == (Hunt1, [])
    decreases |s|
  {
    if |s| > 0 {
      GapsDoNothing(s[..|s| - 1]);
    }
  }

  /** The host's loop: hunt, header, length check, rest; any gap inside a frame starts over. A delivered
      frame is the first the parser delivers on what was consumed; nothing means the whole stream up to the
      deadline delivers nothing. */
  method RecvSofFrame(src: ByteSource) returns (frame: Option<Bytes>, ghost taken: seq<Symbol>)
    modifies src
    ensures old(src.input) == taken + src.input
    ensures frame.Some? ==> Feed(Hunt1, taken) == (Hunt1, [frame.value]) && |src.input| < |old(src.input)|
    ensures frame.None? ==> src.input == [] && Feed(Hunt1, taken).1 == []
  {
    hide Digit, Feed, Advance;
    taken := [];
    FeedNothing(Hunt1);
    while true
      invariant old(src.input) == taken + src.input
      invariant Feed(Hunt1, taken) == (Hunt1, [])
      decreases |src.input|
    {
      var locked;
      locked, taken := HuntSof(src, taken);
      if !locked {
        return None, taken;
      }
      frame, taken := CollectFrame(src, taken);
      if frame.Some? {
        return frame, taken;
      }
      if |src.input| == 0 {
        return None, taken;
      }
    }
  }

  lemma FeedNothing(p: Parser)
    ensures Feed(p, []) == (p, [])
  {
  }

  /** Wait for the start of a frame; a gap after a lone first byte disarms. */
  method HuntSof(src: ByteSource, ghost before: seq<Symbol>) returns (locked: bool, ghost taken: seq<Symbol>)
    requires Feed(Hunt1, before) == (Hunt1, [])
    modifies src
    ensures before + old(src.input) == taken + src.input
    ensures locked ==> Feed(Hunt1, taken) == (Collect([]), []) && |src.input| < |old(src.input)|
    ensures !locked ==> src.input == [] && Feed(Hunt1, taken).1 == []
  {
    hide Feed;
    taken := before;
    var sof1Seen := false;
    while true
      invariant before + old(src.input) == taken + src.input && |src.input| <= |old(src.input)|
      invariant Feed(Hunt1, taken) == (if sof1Seen then Hunt2 else Hunt1, [])
      decreases |src.input|
    {
      if |src.input| == 0 {
        return false, taken;
      }
      ghost var was := src.input;
      var b;
      if sof1Seen {
        b := src.NextWithin();
        ghost var x := match b case None => Gap case Some(y) => Data(y);
        FeedOne(Hunt1, taken, x);
        assert taken + was == (taken + [x]) + src.input;
        taken := taken + [x];
      } else {
        ghost var gaps;
        b, gaps := src.NextEver();
        GapsDoNothing(gaps);
        FeedConcat(Hunt1, taken, gaps);
        assert taken + was == (taken + gaps) + (match b case None => [] case Some(x) => [Data(x)]) + src.input;
        taken := taken + gaps;
        if b.None? {
          return false, taken;
        }
        FeedOne(Hunt1, taken, Data(b.value));
        taken := taken + [Data(b.value)];
      }
      match b {
        case Some(x) =>
          if x == SOF1 {
            sof1Seen := true;
          } else if x == SOF2 && sof1Seen {
            return true, taken;
          } else {
            sof1Seen := false;
          }
        case None =>
          sof1Seen := false;
      }
    }
  }

  /** Header, length check, payload and CRC. */
  method CollectFrame(src: ByteSource, ghost before: seq<Symbol>) returns (frame: Option<Bytes>, ghost taken: seq<Symbol>)
    requires Feed(Hunt1, before) == (Collect([]), [])
    modifies src
    ensures before + old(src.input) == taken + src.input && |src.input| <= |old(src.input)|
    ensures frame.Some? ==> Feed(Hunt1, taken) == (Hunt1, [frame.value])
    ensures frame.None? ==> Feed(Hunt1, taken).1 == []
    ensures frame.None? && |src.input| > 0 ==> Feed(Hunt1, taken).0 == Hunt1
  {
    hide Feed, Digit;
    taken := before;
    var buf: Bytes := [];
    var want := HEADER;
    while true
      invariant before + old(src.input) == taken + src.input && |src.input| <= |old(src.input)|
      invariant Feed(Hunt1, taken) == (Collect(buf), [])
      invariant if |buf| < HEADER then want == HEADER else want == Need(buf) && |buf| < want && Digit(buf[2]) <= MAX_PAYLOAD
      decreases |src.input|
    {
      if |src.input| == 0 {
        return None, taken;
      }
      ghost var was := src.input;
      var b := src.NextWithin();
      ghost var x := match b case None => Gap case Some(y) => Data(y);
      FeedOne(Hunt1, taken, x);
      assert taken + was == (taken + [x]) + src.input;
      taken := taken + [x];
      if b.None? {
        return None, taken;
      }
      buf := buf + [b.value];
      if |buf| == HEADER {
        if Digit(buf[2]) > MAX_PAYLOAD {
          return None, taken;
        }
        want := Need(buf);
      }
      if |buf| == want {
        assert With([], Some(buf)) == [buf];
        return Some(buf), taken;
      }
    }
  }

  /** Receiving until the deadline yields exactly the parser's frames, in order: the same sequence the
      firmware automaton hands up for that stream. */
  method RecvAll(src: ByteSource) returns (frames: seq<Bytes>)
    modifies src
    ensures frames == Feed(Hunt1, old(src.input)).1
  {
    hide Feed, Advance;
    frames := [];
    ghost var taken: seq<Symbol> := [];
    FeedNothing(Hunt1);
    while true
      invariant old(src.input) == taken + src.input
      invariant Feed(Hunt1, taken) == (Hunt1, frames)
      decreases |src.input|
    {
      var frame;
      ghost var more;
      ghost var was := src.input;
      frame, more := RecvSofFrame(src);
      FeedConcat(Hunt1, taken, more);
      assert taken + was == (taken + more) + src.input;
      taken := taken + more;
      if frame.None? {
        assert taken + [] == taken;
        return;
      }
      frames := frames + [frame.value];
    }
  }

  /** The two ends deliver the same frames: the firmware polling a line, however its bytes fall into polls
      and wherever its silences are, and the host's loop reading the stream that line carries. */
  method SameFramesBothEnds(rx: UartReceiver, rounds: seq<Round>, src: ByteSource)
    returns (device: seq<Bytes>, host: seq<Bytes>)
    requires rx.Valid() && rx.fifo == [] && rx.trace == [] && src.input == Line(rounds, rx.idlePolls)
    modifies rx, rx.rxBuf, src
    ensures device == host == Feed(Hunt1, Line(rounds, rx.idlePolls)).1
  {
    hide Feed, UartReceiver.Valid, Line;
    device := PollLine(rx, rounds);
    host := RecvAll(src);
  }
}
