/** The idle deadline of the main loop: a wrapping 32-bit tick counter, read only on some passes. */
module Idle {
  import opened Bytes

  const BUSY_POLLS_MAX: nat := 4096

  /** Wrap-safe comparison of two tick counts. */
  function IdleElapsed(start: nat, now: nat, timeout: nat): bool {
    timeout != 0 && Low32(now - start) >= timeout
  }

  /** While the true distance is below one wrap of the counter, the comparison is exact. */
  lemma ElapsedIsTrueElapsed(anchor: nat, now: nat, timeout: nat)
    requires anchor <= now < anchor + U32_LIMIT
    ensures IdleElapsed(Low32(anchor), Low32(now), timeout) <==> timeout != 0 && now - anchor >= timeout
  {
    var k := now / U32_LIMIT - anchor / U32_LIMIT;
    assert Low32(now) - Low32(anchor) == now - anchor - k * U32_LIMIT;
  }

  /** One pass of the loop as the counter and the transport see it. */
  datatype Pass = Pass(at: nat, rxBusy: bool, session: bool, bootable: bool)

  /** Passes follow `from` and each other at most `gap` ticks apart. */
  predicate Spaced(from: nat, passes: seq<Pass>, gap: nat) {
    && (|passes| > 0 ==> from <= passes[0].at <= from + gap)
    && forall i :: 0 <= i < |passes| - 1 ==> passes[i].at <= passes[i + 1].at <= passes[i].at + gap
  }

  /** A session, once open, stays open until the next reset. */
  predicate SessionStays(passes: seq<Pass>) {
    forall i, j :: 0 <= i <= j < |passes| && passes[i].session ==> passes[j].session
  }

  /** The loop fires at most this long after its deadline. */
  function Late(timeout: nat, gap: nat): nat { timeout + BUSY_POLLS_MAX * gap }

  /** `b` is a time at which the deadline anchored at `a` may fire: never early, at most 4096 passes late. */
  predicate InWindow(a: nat, b: nat, timeout: nat, gap: nat) { a + timeout <= b <= a + Late(timeout, gap) }

  /** Each anchor after the first is a pass at which the previous one's deadline fired, outside a session, and
      nothing could be launched. */
  ghost predicate Chain(anchors: seq<nat>, passes: seq<Pass>, timeout: nat, gap: nat) {
    forall i :: 0 < i < |anchors| ==>
      && InWindow(anchors[i - 1], anchors[i], timeout, gap)
      && exists k :: 0 <= k < |passes| && passes[k].at == anchors[i] && !passes[k].session && !passes[k].bootable
  }

  class MainLoop {
    const timeout: nat
    var idleStart: nat
    var busyPolls: nat
    ghost var anchor: nat

    ghost predicate Valid()
      reads this
    {
      idleStart == Low32(anchor) && busyPolls < BUSY_POLLS_MAX && timeout < U32_LIMIT
    }

    /** Anchored after bring-up. */
    constructor (timeout: nat, now: nat)
      requires timeout < U32_LIMIT
      ensures Valid() && this.timeout == timeout && anchor == now && busyPolls == 0
    {
      this.timeout, idleStart, busyPolls, anchor := timeout, Low32(now), 0, now;
    }

    /** One pass: a busy receiver postpones the check, but only so often. */
    method OnePass(p: Pass) returns (checked: bool, fired: bool)
      requires Valid()
      modifies this`busyPolls
      ensures Valid()
      ensures checked <==> !(p.rxBusy && old(busyPolls) + 1 < BUSY_POLLS_MAX)
      ensures busyPolls == if checked then 0 else old(busyPolls) + 1
      ensures fired <==> checked && !p.session && IdleElapsed(Low32(anchor), Low32(p.at), timeout)
    {
      hide Low32;
      if p.rxBusy {
        busyPolls := busyPolls + 1;
        if busyPolls < BUSY_POLLS_MAX {
          return false, false;
        }
      }
      busyPolls := 0;
      fired := false;
      if !p.session {
        fired := IdleElapsed(idleStart, Low32(p.at), timeout);
      }
      checked := true;
    }

    /** Nothing bootable: start waiting again. */
    method Reanchor(now: nat)
      requires Valid()
      modifies this`idleStart, this`anchor
      ensures Valid() && anchor == now
    {
      idleStart, anchor := Low32(now), now;
    }

    /** Passes until an application is launched, whatever the traffic, however often the counter wraps and
        however often the deadline finds nothing to launch: it never fires early, and at most 4096 passes
        late, measured from its anchor each time; unless a session opens. */
    method Watch(passes: seq<Pass>, gap: nat) returns (launch: Option<nat>, ghost anchors: seq<nat>)
      requires Valid() && busyPolls == 0 && 0 < timeout && Late(timeout, gap) < U32_LIMIT
      requires Spaced(anchor, passes, gap) && SessionStays(passes)
      modifies this`busyPolls, this`idleStart, this`anchor
      ensures Valid()
      ensures |anchors| > 0 && anchors[0] == old(anchor) && anchors[|anchors| - 1] == anchor
      ensures Chain(anchors, passes, timeout, gap)
      ensures match launch
        case Some(k) =>
          k < |passes| && !passes[k].session && passes[k].bootable && InWindow(anchor, passes[k].at, timeout, gap)
        case None =>
          forall i :: 0 <= i < |passes| && !passes[i].session ==> passes[i].at < anchor + Late(timeout, gap)
    {
      hide Low32, IdleElapsed, Chain, Spaced, SessionStays;
      ChainStarts(anchor, passes, timeout, gap);
      anchors := [anchor];
      ghost var last := anchor;     // time of the last check
      var i := 0;
      while i < |passes|
        invariant 0 <= i <= |passes| && Valid() && |anchors| > 0
        invariant anchors[0] == old(anchor) && anchors[|anchors| - 1] == anchor && Chain(anchors, passes, timeout, gap)
        invariant anchor <= last < anchor + timeout
        invariant i == 0 ==> last == anchor == old(anchor) && busyPolls == 0
        invariant i > 0 && !passes[i - 1].session ==> last <= passes[i - 1].at <= last + busyPolls * gap
        invariant forall j :: 0 <= j < i && !passes[j].session ==> passes[j].at < anchor + Late(timeout, gap)
      {
        NextBound(busyPolls, gap);
        PassFollows(old(anchor), passes, gap, i);
        if !passes[i].session {
          assert last <= passes[i].at <= last + (busyPolls + 1) * gap;
          ElapsedIsTrueElapsed(anchor, passes[i].at, timeout);
        }
        var checked, elapsed := OnePass(passes[i]);
        if elapsed {
          if passes[i].bootable {
            return Some(i), anchors;
          }
          ChainGrows(anchors, passes, timeout, gap, i);
          Reanchor(passes[i].at);
          anchors := anchors + [anchor];
        }
        if checked && !passes[i].session {
          last := passes[i].at;
        }
        i := i + 1;
      }
      return None, anchors;
    }
  }

  lemma ChainStarts(a: nat, passes: seq<Pass>, timeout: nat, gap: nat)
    ensures Chain([a], passes, timeout, gap)
  {
  }

  lemma ChainGrows(anchors: seq<nat>, passes: seq<Pass>, timeout: nat, gap: nat, k: nat)
    requires |anchors| > 0 && Chain(anchors, passes, timeout, gap)
    requires k < |passes| && !passes[k].session && !passes[k].bootable
    requires InWindow(anchors[|anchors| - 1], passes[k].at, timeout, gap)
    ensures Chain(anchors + [passes[k].at], passes, timeout, gap)
  {
    hide InWindow;
  }

  lemma PassFollows(from: nat, passes: seq<Pass>, gap: nat, i: nat)
    requires Spaced(from, passes, gap) && SessionStays(passes) && i < |passes|
    ensures if i == 0 then from <= passes[i].at <= from + gap
      else passes[i - 1].at <= passes[i].at <= passes[i - 1].at + gap && (passes[i - 1].session ==> passes[i].session)
  {
  }

  lemma NextBound(n: nat, gap: nat)
    requires n < BUSY_POLLS_MAX
    ensures n * gap + gap == (n + 1) * gap <= BUSY_POLLS_MAX * gap
  {
    var rest: nat := BUSY_POLLS_MAX - n - 1;
    assert BUSY_POLLS_MAX * gap == (n + 1) * gap + rest * gap;
  }
}
