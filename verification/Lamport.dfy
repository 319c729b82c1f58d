/** The Lamport clock of models/models.go and the order of the stamps that a run of processes gets from it. */
module Lamport {
  import opened Outcomes

  const WRAP: int := 0x1_0000_0000_0000_0000

  type uint64 = x: int | 0 <= x < 0x1_0000_0000_0000_0000

  /** IncrementClock on a clock and a received value, with the wrap-around of uint64. */
  function Incremented(clock: uint64, base: uint64): (c: uint64)
    ensures c == 0 <==> clock == WRAP - 1 || base == WRAP - 1
    ensures c > 0 ==> c > clock && c > base && (c == clock + 1 || c == base + 1)
  {
    if clock < base then (base + 1) % WRAP else (clock + 1) % WRAP
  }

  class Clock {
    var clock: uint64

    constructor ()
      ensures clock == 1
    {
      clock := 1;
    }

    function GetClock(): uint64
      reads this
    {
      clock
    }

    method IncrementClock(base: uint64) returns (c: uint64)
      modifies this
      ensures c == clock == Incremented(old(clock), base)
    {
      if clock < base {
        clock := (base + 1) % WRAP;
      } else {
        clock := (clock + 1) % WRAP;
      }
      c := clock;
    }
  }

  // ---- Runs ----

  /** A process reads its clock into a message, or increments it on a value received with an earlier
      event's message (or on zero, for a header without a clock) and may answer with the result. */
  datatype Event = Read(proc: nat) | Tick(proc: nat, heard: Option<nat>)

  /** Messages are received after they were sent. */
  ghost predicate IsTrace(tr: seq<Event>) {
    forall i :: 0 <= i < |tr| && tr[i].Tick? && tr[i].heard.Some? ==> tr[i].heard.value < i
  }

  /** The clock of process p after the first n events. */
  function ClockAt(tr: seq<Event>, p: nat, n: nat): uint64
    requires IsTrace(tr) && n <= |tr|
    decreases n, 0
  {
    if n == 0 then 1
    else if tr[n - 1].Tick? && tr[n - 1].proc == p then
      Incremented(ClockAt(tr, p, n - 1),
                  if tr[n - 1].heard.None? then 0 else Stamp(tr, tr[n - 1].heard.value))
    else ClockAt(tr, p, n - 1)
  }

  /** The clock value that event i returns and that a message from it carries. */
  function Stamp(tr: seq<Event>, i: nat): uint64
    requires IsTrace(tr) && i < |tr|
    decreases i + 1, 1
  {
    ClockAt(tr, tr[i].proc, i + 1)
  }

  function Ticks(tr: seq<Event>, n: nat): nat
    requires n <= |tr|
  {
    if n == 0 then 0 else Ticks(tr, n - 1) + if tr[n - 1].Tick? then 1 else 0
  }

  lemma {:induction false} TicksGrow(tr: seq<Event>, m: nat, n: nat)
    requires m <= n <= |tr|
    ensures Ticks(tr, m) <= Ticks(tr, n)
  {
    if m < n {
      TicksGrow(tr, m, n - 1);
    }
  }

  /** After k calls of IncrementClock anywhere, no clock exceeds k + 1 as long as that fits in 64 bits. */
  lemma {:induction false} ClockBound(tr: seq<Event>, p: nat, n: nat)
    requires IsTrace(tr) && n <= |tr| && Ticks(tr, n) + 1 < WRAP
    ensures 1 <= ClockAt(tr, p, n) <= Ticks(tr, n) + 1
    decreases n, 0
  {
    if n > 0 {
      ClockBound(tr, p, n - 1);
      if tr[n - 1].Tick? && tr[n - 1].proc == p && tr[n - 1].heard.Some? {
        StampBound(tr, tr[n - 1].heard.value, n - 1);
      }
    }
  }

  /** Nor does a clock value on its way in a message. */
  lemma {:induction false} StampBound(tr: seq<Event>, i: nat, n: nat)
    requires IsTrace(tr) && i < n <= |tr| && Ticks(tr, n) + 1 < WRAP
    ensures 1 <= Stamp(tr, i) <= Ticks(tr, n) + 1
    decreases i + 1, 1
  {
    TicksGrow(tr, i + 1, n);
    ClockBound(tr, tr[i].proc, i + 1);
  }

  /** The bound is met: a process on its own reaches k + 1 after k calls, and call 2^64 - 1 wraps to zero. */
  lemma {:induction false} BoundIsMet(tr: seq<Event>, n: nat)
    requires n <= |tr| && n < WRAP && forall i :: 0 <= i < |tr| ==> tr[i] == Tick(0, None)
    ensures ClockAt(tr, 0, n) == (n + 1) % WRAP && Ticks(tr, n) == n
  {
    if n > 0 {
      BoundIsMet(tr, n - 1);
    }
  }

  /** No increment wraps in a run of at most 2^64 - 2 calls. */
  ghost predicate Short(tr: seq<Event>) {
    IsTrace(tr) && Ticks(tr, |tr|) <= WRAP - 2
  }

  /** What one increment does in such a run. */
  lemma TickStep(tr: seq<Event>, i: nat)
    requires Short(tr) && i < |tr| && tr[i].Tick?
    ensures Stamp(tr, i) > ClockAt(tr, tr[i].proc, i)
    ensures tr[i].heard.Some? ==> Stamp(tr, i) > Stamp(tr, tr[i].heard.value)
    ensures Stamp(tr, i) == ClockAt(tr, tr[i].proc, i) + 1
            || (tr[i].heard.Some? && Stamp(tr, i) == Stamp(tr, tr[i].heard.value) + 1)
  {
    TicksGrow(tr, i, |tr|);
    TicksGrow(tr, i + 1, |tr|);
    ClockBound(tr, tr[i].proc, i);
    if tr[i].heard.Some? {
      StampBound(tr, tr[i].heard.value, i);
    }
  }

  lemma {:induction false} ClockGrows(tr: seq<Event>, p: nat, m: nat, n: nat)
    requires Short(tr) && m <= n <= |tr|
    ensures ClockAt(tr, p, m) <= ClockAt(tr, p, n)
  {
    if m < n {
      ClockGrows(tr, p, m, n - 1);
      if tr[n - 1].Tick? && tr[n - 1].proc == p {
        TickStep(tr, n - 1);
      }
    }
  }

  /** Event j directly follows i on the same process, or receives i's message. */
  ghost predicate Causes(tr: seq<Event>, i: nat, j: nat)
    requires i < |tr| && j < |tr|
  {
    i < j && (tr[i].proc == tr[j].proc || (tr[j].Tick? && tr[j].heard == Some(i)))
  }

  lemma CausesOrdersStamps(tr: seq<Event>, i: nat, j: nat)
    requires Short(tr) && i < |tr| && j < |tr| && Causes(tr, i, j)
    ensures Stamp(tr, i) <= Stamp(tr, j)
    ensures tr[j].Tick? ==> Stamp(tr, i) < Stamp(tr, j)
  {
    if tr[j].Tick? {
      TickStep(tr, j);
    }
    if tr[i].proc == tr[j].proc {
      ClockGrows(tr, tr[i].proc, i + 1, j);
    }
  }

  ghost predicate IsChain(tr: seq<Event>, chain: seq<nat>) {
    && |chain| > 0
    && (forall k :: 0 <= k < |chain| ==> chain[k] < |tr|)
    && forall k :: 0 <= k < |chain| - 1 ==> Causes(tr, chain[k], chain[k + 1])
  }

  /** Along every causal chain, through any processes, stamps never decrease, and an increment at the end
      of the chain is stamped later than everything before it. */
  lemma {:induction false} ChainOrdersStamps(tr: seq<Event>, chain: seq<nat>, k: nat)
    requires Short(tr) && IsChain(tr, chain) && k < |chain|
    ensures Stamp(tr, chain[k]) <= Stamp(tr, chain[|chain| - 1])
    ensures k < |chain| - 1 && tr[chain[|chain| - 1]].Tick? ==> Stamp(tr, chain[k]) < Stamp(tr, chain[|chain| - 1])
    decreases |chain| - k
  {
    if k < |chain| - 1 {
      CausesOrdersStamps(tr, chain[k], chain[k + 1]);
      ChainOrdersStamps(tr, chain, k + 1);
    }
  }

  /** A client's accepted post: it reads its clock at s, the node increments on it at n and answers with
      the result, the client increments on the answer at r and does nothing else in between. */
  ghost predicate IsPost(tr: seq<Event>, s: nat, n: nat, r: nat) {
    && s < n < r < |tr|
    && tr[s].Read?
    && tr[n].Tick? && tr[n].heard == Some(s)
    && tr[r].Tick? && tr[r].heard == Some(n) && tr[r].proc == tr[s].proc
    && forall i :: s < i < r ==> tr[i].proc != tr[s].proc
  }

  lemma {:induction false} IdleClockStays(tr: seq<Event>, p: nat, m: nat, n: nat)
    requires IsTrace(tr) && m <= n <= |tr|
    requires forall i :: m <= i < n ==> tr[i].proc != p
    ensures ClockAt(tr, p, n) == ClockAt(tr, p, m)
  {
    if m < n {
      IdleClockStays(tr, p, m, n - 1);
    }
  }

  /** The stamp of an accepted update is the node's response clock plus one. */
  lemma UpdateStamp(tr: seq<Event>, s: nat, n: nat, r: nat)
    requires Short(tr) && IsPost(tr, s, n, r)
    ensures Stamp(tr, r) == Stamp(tr, n) + 1
  {
    TickStep(tr, n);
    TickStep(tr, r);
    IdleClockStays(tr, tr[s].proc, s + 1, r);
  }

  /** Updates accepted by one node are stamped in the order in which the node processed them. */
  lemma UpdatesFollowNodeOrder(tr: seq<Event>, s: nat, n: nat, r: nat, s': nat, n': nat, r': nat)
    requires Short(tr) && IsPost(tr, s, n, r) && IsPost(tr, s', n', r')
    requires tr[n].proc == tr[n'].proc && n < n'
    ensures Stamp(tr, r) < Stamp(tr, r')
  {
    UpdateStamp(tr, s, n, r);
    UpdateStamp(tr, s', n', r');
    CausesOrdersStamps(tr, n, n');
  }
}
