/** The host's command layer: fresh sequence numbers, retries on silence and frame errors only. */
module Client {
  import opened Bytes
  import opened Geometry
  import opened Flash
  import opened Core
  import opened Invariant
  import opened Frames
  import opened HostProto
  import opened Link

  const MAX_ATTEMPTS: nat := 3

  datatype Retry = Attempts(n: nat) | NeverResend

  function Allowed(p: Retry): nat { match p case Attempts(n) => n case NeverResend => 1 }

  datatype RunResult = Done(payload: Bytes) | DeviceSays(payload: Bytes) | BadResponse | NoAnswer

  /** A command that came back OK: the device executed it, last of everything it did since, in the state
      the earlier attempts and resets had left, and this is that execution's answer. */
  ghost predicate Executed(c: Config, d: Dev, e: Dev, hs: seq<Happening>, cmd: Byte, pl: Bytes, k: nat, p: Bytes) {
    && Inv(c, d) && e == Replay(c, d, hs, cmd, pl)
    && LastAnswer(c, d, hs, cmd, pl, k, p) && |p| > 0 && p[0] == OK
  }

  /** What an answer's payload means: its first byte is the status. */
  function Verdict(p: Bytes): RunResult {
    if |p| == 0 then BadResponse else if p[0] == 0x00 then Done(p) else DeviceSays(p)
  }

  /** One attempt: nothing exactly after a silence or a frame-error report, otherwise what the answer says. */
  ghost predicate Tried(h: seq<Taken>, q: Byte, cmd: Byte, silent: bool, r: Option<RunResult>) {
    if silent then Discarded(h, q, cmd) && r.None?
    else
      && |h| > 0 && Discarded(h[..|h| - 1], q, cmd)
      && var t := h[|h| - 1];
      || (IsReport(t) && r.None?)
      || (IsAnswer(t, cmd) && r == Some(Verdict(Decode(t.bytes).value.payload)))
  }

  /** Of all the frames taken only the last may answer its attempt, and it is the result. */
  ghost predicate Answered(h: seq<Taken>, cmd: Byte, r: RunResult) {
    if r.NoAnswer? then forall t :: t in h ==> !IsAnswer(t, cmd)
    else
      && |h| > 0 && (forall t :: t in h[..|h| - 1] ==> !IsAnswer(t, cmd))
      && IsAnswer(h[|h| - 1], cmd) && r == Verdict(Decode(h[|h| - 1].bytes).value.payload)
  }

  /** How many frame-error reports were taken. */
  function Reports(h: seq<Taken>): nat {
    if |h| == 0 then 0 else Reports(h[..|h| - 1]) + if IsReport(h[|h| - 1]) then 1 else 0
  }

  lemma {:induction false} ReportsJoin(h: seq<Taken>, g: seq<Taken>)
    ensures Reports(h + g) == Reports(h) + Reports(g)
    decreases |g|
  {
    hide Decode;
    if |g| == 0 {
      assert h + g == h;
    } else {
      ReportsJoin(h, g[..|g| - 1]);
      assert (h + g)[..|h + g| - 1] == h + g[..|g| - 1];
    }
  }

  lemma {:induction false} DiscardedReports(h: seq<Taken>, q: Byte, cmd: Byte)
    requires Discarded(h, q, cmd)
    ensures Reports(h) == 0
    decreases |h|
  {
    hide Decode;
    if |h| > 0 {
      DiscardedReports(h[..|h| - 1], q, cmd);
    }
  }

  lemma AnswerIsNoReport(t: Taken, cmd: Byte)
    requires Command(cmd)
    ensures !(IsAnswer(t, cmd) && IsReport(t))
  {
    hide Decode;
  }

  /** One more attempt's frames. */
  lemma MoreTaken(h: seq<Taken>, g: seq<Taken>, q: Byte, cmd: Byte, silent: bool, a: Option<RunResult>)
    requires Command(cmd) && Answered(h, cmd, NoAnswer) && Tried(g, q, cmd, silent, a)
    requires a.Some? ==> !a.value.NoAnswer?
    ensures a.None? ==> Answered(h + g, cmd, NoAnswer) && Reports(h + g) == Reports(h) + if silent then 0 else 1
    ensures a.Some? ==> !silent && Answered(h + g, cmd, a.value) && Reports(h + g) == Reports(h)
  {
    hide Decode, Verdict;
    ReportsJoin(h, g);
    if silent {
      DiscardedReports(g, q, cmd);
    } else {
      DiscardedReports(g[..|g| - 1], q, cmd);
      assert (h + g)[..|h + g| - 1] == h + g[..|g| - 1];
      AnswerIsNoReport(g[|g| - 1], cmd);
    }
  }

  /** Unanswered so far: as many attempts as silences and frame-error reports. */
  ghost predicate Counted(h: seq<Taken>, cmd: Byte, tries: nat, silences: nat) {
    Answered(h, cmd, NoAnswer) && tries == silences + Reports(h)
  }

  /** How a command ended: on its first answer, or after all the attempts allowed; with one attempt for every silence
      and every frame-error report besides the one answered. */
  ghost predicate Accounted(h: seq<Taken>, cmd: Byte, r: RunResult, tries: nat, silences: nat, allowed: nat) {
    && Answered(h, cmd, r) && tries <= allowed && (r.NoAnswer? ==> tries == allowed)
    && tries == silences + Reports(h) + if r.NoAnswer? then 0 else 1
  }

  /** The next request is delivered and its answer arrives: that execution decides. */
  ghost predicate Direct(c: Config, d: Dev, before: seq<Act>, cmd: Byte, pl: Bytes, after: seq<Act>,
                         past: seq<Happening>, r: RunResult)
    requires Inv(c, d) && Clear(before)
  {
    && after == before[2..] && past == [Ran(before[0].world)]
    && r == Verdict(Once(c, d, before[0].world, cmd, pl).payload)
  }

  lemma NoneAnswered(cmd: Byte)
    ensures Counted([], cmd, 0, 0)
  {
  }

  lemma CountedOut(h: seq<Taken>, cmd: Byte, tries: nat, silences: nat)
    requires Counted(h, cmd, tries, silences)
    ensures Accounted(h, cmd, NoAnswer, tries, silences, tries)
  {
  }

  lemma MoreCounted(h: seq<Taken>, g: seq<Taken>, q: Byte, cmd: Byte, silent: bool, a: Option<RunResult>, tries: nat,
                    silences: nat, allowed: nat)
    requires Command(cmd) && Counted(h, cmd, tries, silences) && Tried(g, q, cmd, silent, a) && tries < allowed
    requires a.Some? ==> !a.value.NoAnswer?
    ensures var s := silences + if silent then 1 else 0;
      if a.None? then Counted(h + g, cmd, tries + 1, s) else Accounted(h + g, cmd, a.value, tries + 1, s, allowed)
  {
    hide Tried, Reports, Decode, Verdict;
    MoreTaken(h, g, q, cmd, silent, a);
  }

  class BootClient {
    const link: Link
    var seqNo: Byte

    constructor (link: Link)
      ensures this.link == link && seqNo == 0
    {
      this.link, seqNo := link, 0;
    }

    method NextSeq() returns (q: Byte)
      modifies this`seqNo
      ensures q == old(seqNo) && seqNo == q + 1
    {
      q := seqNo;
      seqNo := seqNo + 1;
    }

    /** One send and one matched answer. Nothing means: try again. */
    method Attempt(cmd: Byte, pl: Bytes) returns (r: Option<RunResult>, ghost taken: seq<Taken>)
      requires link.Valid() && cmd == link.cmd && pl == link.pl && seqNo !in link.used
      modifies this`seqNo, link
      ensures link.Valid() && link.start == old(link.start)
      ensures link.cmd == old(link.cmd) && link.pl == old(link.pl) && link.used == old(link.used) + {old(seqNo)}
      ensures link.bootsBefore == old(link.bootsBefore) && link.sent == old(link.sent)
      ensures seqNo == old(seqNo) + 1
      ensures r.Some? ==> !r.value.NoAnswer?
      ensures r.Some? && r.value.Done? ==>
        link.Idle() && Executed(link.c, link.start, link.dev, link.past, cmd, pl, link.lastRan, r.value.payload)
      ensures r.Some? && r.value.DeviceSays? ==>
        Inv(link.c, link.start) && LastAnswer(link.c, link.start, link.past, cmd, pl, link.lastRan, r.value.payload)
      ensures link.heard == old(link.heard) + taken && 0 <= link.silences - old(link.silences) <= 1
      ensures Tried(taken, old(seqNo), cmd, link.silences > old(link.silences), r)
      ensures Clear(old(link.script)) && old(link.Idle()) && old(link.past) == [] ==>
        && Inv(link.c, old(link.dev)) && r.Some?
        && Direct(link.c, old(link.dev), old(link.script), cmd, pl, link.script, link.past, r.value)
    {
      hide Inv, Replay, LastAnswer, Once, Decode, Resets;
      link.Facts();
      var q := NextSeq();
      var f;
      f, taken := link.Xfer(cmd, q, pl);
      assert old(link.past) == [] && Clear(old(link.script)) && old(link.Idle()) ==>
          link.past == [Ran(old(link.script)[0].world)];
      if f.None? || IsFrameError(f.value) {
        return None, taken;
      }
      if |f.value.payload| == 0 {
        return Some(BadResponse), taken;
      }
      if f.value.payload[0] != OK {
        return Some(DeviceSays(f.value.payload)), taken;
      }
      r := Some(Done(f.value.payload));
    }

    /** One attempt of the retry loop, with the account of the frames taken since `n` kept: one more try. */
    method Try(cmd: Byte, pl: Bytes, ghost n: seq<Taken>, ghost h: seq<Taken>, ghost i: nat, ghost m: nat, ghost allowed: nat)
      returns (r: Option<RunResult>, ghost more: seq<Taken>)
      requires link.Valid() && cmd == link.cmd && pl == link.pl && Command(cmd)
      requires Recent(seqNo, link.used, i) && |link.used| == i < allowed <= 255
      requires link.heard == n + h && link.silences >= m && Counted(h, cmd, i, link.silences - m)
      modifies this`seqNo, link
      ensures link.Valid() && link.start == old(link.start) && link.cmd == old(link.cmd) && link.pl == old(link.pl)
      ensures link.bootsBefore == old(link.bootsBefore) && link.sent == old(link.sent)
      ensures Recent(seqNo, link.used, i + 1) && |link.used| == i + 1
      ensures r.Some? && r.value.Done? ==>
        link.Idle() && Executed(link.c, link.start, link.dev, link.past, cmd, pl, link.lastRan, r.value.payload)
      ensures r.Some? && r.value.DeviceSays? ==>
        Inv(link.c, link.start) && LastAnswer(link.c, link.start, link.past, cmd, pl, link.lastRan, r.value.payload)
      ensures link.heard == n + more && link.silences >= m && n <= link.heard && link.heard[|n|..] == more
      ensures if r.None? then Counted(more, cmd, i + 1, link.silences - m)
              else Accounted(more, cmd, r.value, i + 1, link.silences - m, allowed)
      ensures Clear(old(link.script)) && old(link.Idle()) && old(link.past) == [] ==>
        && Inv(link.c, old(link.dev)) && r.Some?
        && Direct(link.c, old(link.dev), old(link.script), cmd, pl, link.script, link.past, r.value)
    {
      hide Inv, Replay, LastAnswer, Executed, Link.Valid, Once, Resets, Tried, Verdict, Decode, Accounted, Direct, Counted,
           Clear, Recent;
      FreshSequence(seqNo, link.used, i);
      ghost var before, q := link.silences, seqNo;
      ghost var g;
      r, g := Attempt(cmd, pl);
      MoreCounted(h, g, q, cmd, link.silences > before, r, i, before - m, allowed);
      Append(n, h, g);
      more := h + g;
    }

    /** Nothing has been sent yet. */
    ghost predicate Fresh(d: Dev, script: seq<Act>)
      reads link
    {
      link.Idle() && link.dev == d && link.script == script && link.past == []
    }

    /** Attempt until answered, at most as often as the policy allows: one attempt for every silence and every
        frame-error report, and no other. The first answer to an attempt of this command is the result, an error
        status included, and the link's next request and answer passing is enough for it. */
    method Run(cmd: Byte, pl: Bytes, policy: Retry) returns (r: RunResult)
      requires link.Idle() && Inv(link.c, link.dev) && Command(cmd) && |pl| <= MAX_PAYLOAD && Allowed(policy) <= 255
      modifies this`seqNo, link
      ensures Inv(link.c, link.dev)
      ensures link.dev == Replay(link.c, old(link.dev), link.past, cmd, pl)
      ensures r.Done? ==>
        link.Idle() && Executed(link.c, old(link.dev), link.dev, link.past, cmd, pl, link.lastRan, r.payload)
      ensures r.DeviceSays? ==> LastAnswer(link.c, old(link.dev), link.past, cmd, pl, link.lastRan, r.payload)
      ensures link.sent == old(link.sent) + [(cmd, pl)]
      ensures link.boots == old(link.boots) + Resets(link.c, old(link.dev), link.past, cmd, pl)
      ensures old(link.heard) <= link.heard && link.silences >= old(link.silences)
      ensures Accounted(link.heard[|old(link.heard)|..], cmd, r, |link.used|, link.silences - old(link.silences), Allowed(policy))
      ensures Clear(old(link.script)) && Allowed(policy) > 0 ==>
        Direct(link.c, old(link.dev), old(link.script), cmd, pl, link.script, link.past, r)
    {
      hide Inv, Replay, LastAnswer, Executed, Link.Valid, Recent, Once, Resets, Tried, Verdict, Decode, Accounted, Direct,
           Counted, Clear;
      NoneUsed(seqNo);
      NoneAnswered(cmd);
      ghost var d0, s0, b0, t0, n0, m0 := link.dev, link.script, link.boots, link.sent, link.heard, link.silences;
      link.Begin(cmd, pl);
      var attempts := Allowed(policy);
      var i := 0;
      ghost var h: seq<Taken> := [];
      while i < attempts
        invariant 0 <= i <= attempts
        invariant link.Valid() && link.start == d0 && link.cmd == cmd && link.pl == pl
        invariant link.bootsBefore == b0 && link.sent == t0 + [(cmd, pl)]
        invariant Recent(seqNo, link.used, i) && |link.used| == i
        invariant link.heard == n0 + h && link.silences >= m0
        invariant Counted(h, cmd, i, link.silences - m0)
        invariant if i == 0 then Fresh(d0, s0) else !Clear(s0)
      {
        var a;
        a, h := Try(cmd, pl, n0, h, i, m0, attempts);
        if a.Some? {
          link.Facts();
          return a.value;
        }
        i := i + 1;
      }
      link.Facts();
      Append(n0, h, []);
      CountedOut(h, cmd, i, link.silences - m0);
      r := NoAnswer;
    }
  }

  lemma Append(a: seq<Taken>, h: seq<Taken>, g: seq<Taken>)
    ensures a + h + g == a + (h + g) && a <= a + h + g && (a + h + g)[|a|..] == h + g
    ensures g == [] ==> a + h + g == a + h && h + g == h
  {
  }

  /** How many increments lie between two sequence numbers. */
  function Distance(a: Byte, b: Byte): nat { Digit(a - b) }

  lemma SelfDistance(q: Byte)
    ensures Distance(q + 1, q) == 1
  {
    assert q + 1 - q == 1;
  }

  lemma DistanceGrows(q: Byte, u: Byte)
    ensures Distance(q, u) < 255 ==> Distance(q + 1, u) == Distance(q, u) + 1
  {
    DigitSteps(q - u);
    assert q + 1 - u == q - u + 1;
  }

  /** The sequence numbers `used` are among the last `n` before `q`. */
  ghost predicate Recent(q: Byte, used: set<Byte>, n: nat) {
    forall u :: u in used ==> 1 <= Distance(q, u) <= n
  }

  lemma NoneUsed(q: Byte)
    ensures Recent(q, {}, 0)
  {
  }

  /** At most 255 attempts never repeat a sequence number, through the wrap at 256. */
  lemma FreshSequence(q: Byte, used: set<Byte>, n: nat)
    requires n < 255 && Recent(q, used, n)
    ensures q !in used && Recent(q + 1, used + {q}, n + 1)
  {
    hide Distance;
    ZeroDistance(q);
    SelfDistance(q);
    forall u | u in used + {q}
      ensures 1 <= Distance(q + 1, u) <= n + 1
    {
      DistanceGrows(q, u);
    }
  }

  lemma ZeroDistance(q: Byte)
    ensures Distance(q, q) == 0
  {
  }
}
