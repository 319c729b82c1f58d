/** The transaction log and the sync loop of the client (cmd/peerstore/client/main.go). */
module Sync {
  import opened Bytes
  import opened Outcomes
  import opened Lamport
  import opened FileServer

  datatype Operation = Update | Delete

  datatype Entry = Entry(op: Operation, client: Identifier, timestamp: uint64)

  /** The entries of each resource, in the order in which they were written. */
  type Log = map<string, seq<Entry>>

  // ---- Writing the log ----

  function Recorded(log: Log, path: string, e: Entry): Log {
    if path in log then log[path := log[path] + [e]] else log[path := [e]]
  }

  class SharedLog {
    var log: Log

    constructor ()
      ensures log == map[]
    {
      log := map[];
    }

    /** Read the log, add an entry, write it back, with nobody in between. */
    method Record(path: string, e: Entry)
      modifies this
      ensures log == Recorded(old(log), path, e)
    {
      var tl := log;
      if path in tl {
        tl := tl[path := tl[path] + [e]];
      } else {
        tl := tl[path := [e]];
      }
      log := tl;
    }
  }

  /** PostFile: post with the client's clock, merge the answer's clock, stamp and record the update.
      logAnswer is the clock in the answer to posting the log itself. */
  method PostFile(clock: Clock, server: Server, log: SharedLog, path: string, r: Request, logAnswer: uint64)
    requires clock != server.clock
    modifies clock, server.store, server.clock, log
    ensures var sent := r.(clock := old(clock.clock));
      server.View() == Post(old(server.View()), sent).state
    ensures var stamp := Incremented(old(clock.clock), Post(old(server.View()), r.(clock := old(clock.clock))).response.clock);
      log.log == Recorded(old(log.log), path, Entry(Update, r.from, stamp)) && clock.clock == Incremented(stamp, logAnswer)
  {
    var c := clock.GetClock();
    var response := server.PostFileHandler(r.(clock := c));
    var _ := clock.IncrementClock(response.clock);
    var timestamp := clock.GetClock();
    log.Record(path, Entry(Update, r.from, timestamp));
    var _ := clock.IncrementClock(logAnswer);
  }

  /** DeleteFile: stamp the deletion with the client's clock as it stands and record it. */
  method DeleteFile(clock: Clock, log: SharedLog, path: string, client: Identifier, logAnswer: uint64)
    modifies clock, log
    ensures log.log == Recorded(old(log.log), path, Entry(Delete, client, old(clock.clock)))
    ensures clock.clock == Incremented(old(clock.clock), logAnswer)
  {
    var timestamp := clock.GetClock();
    log.Record(path, Entry(Delete, client, timestamp));
    var _ := clock.IncrementClock(logAnswer);
  }

  /** An accepted update is stamped one after the node's answer; a refused one, which the client records
      all the same, one after the client's own clock. */
  lemma UpdateStampIs(s: State, r: Request)
    requires s.clock < WRAP - 2 && r.clock < WRAP - 2
    ensures var reply := Post(s, r);
      Incremented(r.clock, reply.response.clock) ==
        if reply.response.status == Ok then reply.state.clock + 1 else r.clock + 1
    ensures Post(s, r).response.status == Ok ==> Post(s, r).response.clock == Post(s, r).state.clock
  {
    assert Incremented(s.clock, r.clock) > r.clock;
  }

  // ---- The newest entry ----

  /** e is the last of the entries with the largest timestamp. */
  ghost predicate IsLatest(es: seq<Entry>, e: Entry) {
    exists i :: 0 <= i < |es| && es[i] == e
                && (forall j :: 0 <= j < |es| ==> es[j].timestamp <= e.timestamp)
                && (forall j :: i < j < |es| ==> es[j].timestamp < e.timestamp)
  }

  function Latest(es: seq<Entry>): Entry
    requires |es| > 0
  {
    var e := es[|es| - 1];
    if |es| == 1 then e
    else if e.timestamp >= Latest(es[..|es| - 1]).timestamp then e else Latest(es[..|es| - 1])
  }

  lemma {:induction false} LatestIsLatest(es: seq<Entry>)
    requires |es| > 0
    ensures IsLatest(es, Latest(es))
  {
    var n := |es| - 1;
    if n > 0 {
      LatestIsLatest(es[..n]);
      if es[n].timestamp < Latest(es[..n]).timestamp {
        var i :| 0 <= i < n && es[..n][i] == Latest(es[..n])
                 && (forall j :: i < j < n ==> es[..n][j].timestamp < Latest(es[..n]).timestamp);
        assert es[i] == Latest(es);
        forall j | i < j < |es| ensures es[j].timestamp < Latest(es).timestamp {
          assert j < n ==> es[j] == es[..n][j];
        }
      }
    }
  }

  lemma LatestIsUnique(es: seq<Entry>, e: Entry, f: Entry)
    requires IsLatest(es, e) && IsLatest(es, f)
    ensures e == f
  {
    var i :| 0 <= i < |es| && es[i] == e && forall j :: i < j < |es| ==> es[j].timestamp < e.timestamp;
    var j :| 0 <= j < |es| && es[j] == f && forall l :: j < l < |es| ==> es[l].timestamp < f.timestamp;
    assert es[i].timestamp <= es[j].timestamp && es[j].timestamp <= es[i].timestamp;
  }

  /** The scan starts from entry 0, so an empty list would panic. */
  method LastEntry(entries: seq<Entry>) returns (lastEntry: Entry)
    requires |entries| > 0
    ensures lastEntry == Latest(entries) && IsLatest(entries, lastEntry)
  {
    lastEntry := entries[0];
    for i := 0 to |entries|
      invariant i == 0 ==> lastEntry == entries[0]
      invariant i > 0 ==> lastEntry == Latest(entries[..i])
    {
      if i > 0 {
        assert entries[..i + 1][..i] == entries[..i];
      }
      if entries[i].timestamp >= lastEntry.timestamp {
        lastEntry := entries[i];
      }
    }
    assert entries[..|entries|] == entries;
    LatestIsLatest(entries);
  }

  // ---- One round ----

  datatype Action = Upload(path: string) | Fetch(path: string) | RemoveLocal(path: string) | LogDelete(path: string)

  /** What one round does about a logged resource. */
  function Decide(tl: Log, oldLog: Log, k: string): (a: Option<Action>)
    requires k in tl && |tl[k]| > 0 && (k in oldLog ==> |oldLog[k]| > 0)
    ensures a.Some? ==> a.value.path == k
  {
    if k !in oldLog then Some(Fetch(k))
    else
      var last, oldLast := Latest(tl[k]), Latest(oldLog[k]);
      if oldLast.timestamp < last.timestamp then
        Some(if last.op == Delete then RemoveLocal(k) else Fetch(k))
      else if oldLast.timestamp == last.timestamp then None
      else Some(if oldLast.op == Delete then LogDelete(k) else Upload(k))
  }

  ghost predicate Readable(tl: Log, oldLog: Log) {
    forall k :: k in tl ==> |tl[k]| > 0 && (k in oldLog ==> |oldLog[k]| > 0)
  }

  /** Some entry of es is stamped later than every entry of others. */
  ghost predicate HasLater(es: seq<Entry>, others: seq<Entry>) {
    exists i :: 0 <= i < |es| && forall j :: 0 <= j < |others| ==> others[j].timestamp < es[i].timestamp
  }

  /** The newest entry of es is of this kind. */
  ghost predicate EndsIn(es: seq<Entry>, op: Operation) {
    exists e :: IsLatest(es, e) && e.op == op
  }

  /** When an action is what the two logs call for: a resource that the old log does not know is fetched,
      whatever happened to it; for a known one, the side with the later entry says by its newest entry. */
  ghost predicate IsCalledFor(tl: Log, oldLog: Log, a: Action)
    requires a.path in tl
  {
    var k := a.path;
    match a
    case Fetch(_) => k !in oldLog || (HasLater(tl[k], oldLog[k]) && EndsIn(tl[k], Update))
    case RemoveLocal(_) => k in oldLog && HasLater(tl[k], oldLog[k]) && EndsIn(tl[k], Delete)
    case Upload(_) => k in oldLog && HasLater(oldLog[k], tl[k]) && EndsIn(oldLog[k], Update)
    case LogDelete(_) => k in oldLog && HasLater(oldLog[k], tl[k]) && EndsIn(oldLog[k], Delete)
  }

  lemma EndsInLatest(es: seq<Entry>, op: Operation)
    requires |es| > 0
    ensures EndsIn(es, op) <==> Latest(es).op == op
  {
    LatestIsLatest(es);
    forall e | IsLatest(es, e) ensures e == Latest(es) {
      LatestIsUnique(es, e, Latest(es));
    }
  }

  lemma HasLaterIff(es: seq<Entry>, others: seq<Entry>)
    requires |es| > 0 && |others| > 0
    ensures HasLater(es, others) <==> Latest(others).timestamp < Latest(es).timestamp
  {
    LatestIsLatest(es);
    LatestIsLatest(others);
    var i :| 0 <= i < |es| && es[i] == Latest(es);
    var l :| 0 <= l < |others| && others[l] == Latest(others);
  }

  /** On any two logs, the branches do exactly what is called for. */
  lemma DecideIsCalledFor(tl: Log, oldLog: Log, a: Action)
    requires a.path in tl && |tl[a.path]| > 0 && (a.path in oldLog ==> |oldLog[a.path]| > 0)
    ensures Decide(tl, oldLog, a.path) == Some(a) <==> IsCalledFor(tl, oldLog, a)
  {
    var k := a.path;
    if k in oldLog {
      HasLaterIff(tl[k], oldLog[k]);
      HasLaterIff(oldLog[k], tl[k]);
      EndsInLatest(tl[k], Update);
      EndsInLatest(tl[k], Delete);
      EndsInLatest(oldLog[k], Update);
      EndsInLatest(oldLog[k], Delete);
    }
  }

  /** The local files that the log does not know, in the order of the walk. */
  function Unlogged(local: seq<string>, tl: Log): (r: seq<string>)
    ensures forall path :: path in r <==> path in local && path !in tl
  {
    if local == [] then []
    else
      var n := |local| - 1;
      assert local == local[..n] + [local[n]];
      Unlogged(local[..n], tl) + if local[n] in tl then [] else [local[n]]
  }

  lemma UnloggedLast(local: seq<string>, path: string, tl: Log)
    ensures Unlogged(local + [path], tl) == Unlogged(local, tl) + if path in tl then [] else [path]
  {
    assert (local + [path])[..|local|] == local;
  }

  lemma Regroup(a: seq<string>, b: seq<string>, c: seq<string>)
    ensures a + b + c == a + (b + c)
  {
  }

  /** Each file of the walk counts for itself: order and number of the uploads follow it. */
  lemma {:induction false} UnloggedSplits(local: seq<string>, more: seq<string>, tl: Log)
    ensures Unlogged(local + more, tl) == Unlogged(local, tl) + Unlogged(more, tl)
  {
    if more == [] {
      assert local + more == local;
    } else {
      var front, path := more[..|more| - 1], more[|more| - 1];
      var own: seq<string> := if path in tl then [] else [path];
      assert more == front + [path];
      Regroup(local, front, [path]);
      UnloggedLast(local + front, path, tl);
      UnloggedLast(front, path, tl);
      UnloggedSplits(local, front, tl);
      Regroup(Unlogged(local, tl), Unlogged(front, tl), own);
    }
  }

  lemma UnloggedOne(path: string, tl: Log)
    ensures Unlogged([path], tl) == if path in tl then [] else [path]
  {
    UnloggedLast([], path, tl);
    assert [] + [path] == [path];
  }

  /** One round: upload the local files that the log does not know, then go through the log in no
      particular order. The log that was read is what the next round compares with. */
  method Synchronize(local: seq<string>, tl: Log, oldLog: Log)
    returns (newLog: Log, posted: seq<string>, done: seq<Action>)
    requires Readable(tl, oldLog)
    ensures newLog == tl
    ensures posted == Unlogged(local, tl)
    ensures forall a :: a in done <==> a.path in tl && IsCalledFor(tl, oldLog, a)
    ensures forall i, j :: 0 <= i < j < |done| ==> done[i].path != done[j].path
    ensures forall k :: k in tl && k !in oldLog ==> Fetch(k) in done
    ensures oldLog == map[] ==> forall a :: a in done <==> a.Fetch? && a.path in tl
  {
    posted := Walk(local, tl);
    done := FollowLog(tl, oldLog);
    newLog := tl;
  }

  method Walk(local: seq<string>, tl: Log) returns (posted: seq<string>)
    ensures posted == Unlogged(local, tl)
  {
    posted := [];
    for i := 0 to |local|
      invariant posted == Unlogged(local[..i], tl)
    {
      assert local[..i + 1][..i] == local[..i];
      if local[i] !in tl {
        posted := posted + [local[i]];
      }
    }
    assert local[..|local|] == local;
  }

  /** Go through the log in no particular order. */
  method FollowLog(tl: Log, oldLog: Log) returns (done: seq<Action>)
    requires Readable(tl, oldLog)
    ensures forall a :: a in done <==> a.path in tl && IsCalledFor(tl, oldLog, a)
    ensures forall i, j :: 0 <= i < j < |done| ==> done[i].path != done[j].path
  {
    done := [];
    var keys := tl.Keys;
    while keys != {}
      invariant keys <= tl.Keys
      invariant forall a :: a in done <==> a.path in tl && a.path !in keys && IsCalledFor(tl, oldLog, a)
      invariant forall i, j :: 0 <= i < j < |done| ==> done[i].path != done[j].path
      decreases |keys|
    {
      var k :| k in keys;
      var a := SynchronizeOne(tl, oldLog, k);
      ghost var before := done;
      keys := keys - {k};
      if a.Some? {
        done := done + [a.value];
      }
      forall b ensures b in done <==> b.path in tl && b.path !in keys && IsCalledFor(tl, oldLog, b) {
        assert b in done <==> b in before || a == Some(b);
      }
    }
  }

  /** The body of the loop over the log. */
  method SynchronizeOne(tl: Log, oldLog: Log, k: string) returns (a: Option<Action>)
    requires Readable(tl, oldLog) && k in tl
    ensures a == Decide(tl, oldLog, k)
    ensures forall b: Action :: b.path == k ==> (a == Some(b) <==> IsCalledFor(tl, oldLog, b))
    ensures a.Some? ==> a.value.path == k
  {
    forall b: Action | b.path == k ensures Decide(tl, oldLog, k) == Some(b) <==> IsCalledFor(tl, oldLog, b) {
      DecideIsCalledFor(tl, oldLog, b);
    }
    var lastEntry := LastEntry(tl[k]);
    if k !in oldLog {
      return Some(Fetch(k));
    }
    var oldLastEntry := LastEntry(oldLog[k]);
    if oldLastEntry.timestamp < lastEntry.timestamp {
      if lastEntry.op == Delete {
        return Some(RemoveLocal(k));
      }
      return Some(Fetch(k));
    } else if oldLastEntry.timestamp == lastEntry.timestamp {
      return None;
    } else {
      if oldLastEntry.op == Delete {
        return Some(LogDelete(k));
      }
      return Some(Upload(k));
    }
  }

  // ---- What the rounds of a run do ----

  ghost predicate Prefix(earlier: seq<Entry>, later: seq<Entry>) {
    0 < |earlier| <= |later| && later[..|earlier|] == earlier
  }

  /** log' is log after more entries were recorded. */
  ghost predicate Extends(log: Log, log': Log) {
    forall k {:trigger k in log} :: k in log ==> k in log' && Prefix(log[k], log'[k])
  }

  /** A resource whose old entries are a prefix of the new ones is acted on exactly when some added entry is
      stamped later than every old one; then its newest entry says what to do, and the branch for a newer
      local state is never taken. */
  lemma PullsIffLaterStamp(tl: Log, oldLog: Log, k: string)
    requires k in tl && k in oldLog && Prefix(oldLog[k], tl[k])
    ensures Decide(tl, oldLog, k).Some? <==> LaterAdded(tl, oldLog, k)
    ensures Decide(tl, oldLog, k).Some? ==>
      Decide(tl, oldLog, k).value == if Latest(tl[k]).op == Delete then RemoveLocal(k) else Fetch(k)
  {
    var earlier, later := oldLog[k], tl[k];
    LatestIsLatest(earlier);
    LatestIsLatest(later);
    var i :| 0 <= i < |earlier| && earlier[i] == Latest(earlier);
    assert later[..|earlier|][i] == later[i];
    var l :| 0 <= l < |later| && later[l] == Latest(later);
    assert l < |earlier| ==> later[..|earlier|][l] == later[l];
  }

  /** A recorded change reaches a client that has the log from before it exactly when its stamp exceeds every
      earlier stamp of the resource. A deletion is stamped without merging any clock, so it may be missed. */
  lemma ChangeIsSeenIff(log: Log, path: string, e: Entry)
    requires path in log && |log[path]| > 0
    ensures Decide(Recorded(log, path, e), log, path) ==
      if forall j :: 0 <= j < |log[path]| ==> log[path][j].timestamp < e.timestamp
      then Some(if e.op == Delete then RemoveLocal(path) else Fetch(path))
      else None
  {
    var es, n := log[path] + [e], |log[path]|;
    assert es[..n] == log[path];
    PullsIffLaterStamp(Recorded(log, path, e), log, path);
    assert es[n] == e;
    LatestIsLatest(log[path]);
  }

  /** A round has nothing to do. */
  ghost predicate Idle(local: seq<string>, tl: Log, oldLog: Log)
    requires Readable(tl, oldLog)
  {
    Unlogged(local, tl) == [] && forall k :: k in tl ==> Decide(tl, oldLog, k) == None
  }

  /** An entry added since the old log is stamped later than everything that was there. */
  ghost predicate LaterAdded(tl: Log, oldLog: Log, k: string)
    requires k in tl && k in oldLog
  {
    exists i :: |oldLog[k]| <= i < |tl[k]|
                && forall j :: 0 <= j < |oldLog[k]| ==> oldLog[k][j].timestamp < tl[k][i].timestamp
  }

  /** The round after one that returned oldLog is idle exactly when no local file is unlogged, no resource
      is new and no later entry was added; in particular, when the log has not changed. */
  lemma NextRoundIsIdleIff(local: seq<string>, tl: Log, oldLog: Log)
    requires Extends(oldLog, tl) && Readable(tl, oldLog)
    ensures Idle(local, tl, oldLog) <==>
      (forall path :: path in local ==> path in tl)
      && (forall k :: k in tl ==> k in oldLog && !LaterAdded(tl, oldLog, k))
    ensures tl == oldLog && (forall path :: path in local ==> path in tl) ==> Idle(local, tl, oldLog)
  {
    forall k | k in tl && k in oldLog ensures Decide(tl, oldLog, k).Some? <==> LaterAdded(tl, oldLog, k) {
      PullsIffLaterStamp(tl, oldLog, k);
    }
    assert Unlogged(local, tl) == [] <==> forall path :: path in local ==> path in tl by {
      assert forall path :: path in Unlogged(local, tl) ==> |Unlogged(local, tl)| > 0;
      if |Unlogged(local, tl)| > 0 {
        assert Unlogged(local, tl)[0] in local;
      }
    }
  }

  /** On any two logs, the local state counts as newer exactly when one of its entries is stamped later than
      every entry of the log that was read; its newest entry then says what is sent. */
  lemma PushesIffOldIsLater(tl: Log, oldLog: Log, k: string)
    requires k in tl && |tl[k]| > 0 && k in oldLog && |oldLog[k]| > 0
    ensures Decide(tl, oldLog, k) in {Some(Upload(k)), Some(LogDelete(k))} <==>
      exists i :: 0 <= i < |oldLog[k]| && forall j :: 0 <= j < |tl[k]| ==> tl[k][j].timestamp < oldLog[k][i].timestamp
    ensures forall e :: IsLatest(oldLog[k], e) && Decide(tl, oldLog, k) == Some(LogDelete(k)) ==> e.op == Delete
    ensures forall e :: IsLatest(oldLog[k], e) && Decide(tl, oldLog, k) == Some(Upload(k)) ==> e.op == Update
  {
    LatestIsLatest(tl[k]);
    LatestIsLatest(oldLog[k]);
    var i :| 0 <= i < |oldLog[k]| && oldLog[k][i] == Latest(oldLog[k]);
    var l :| 0 <= l < |tl[k]| && tl[k][l] == Latest(tl[k]);
    forall e | IsLatest(oldLog[k], e) ensures e == Latest(oldLog[k]) {
      LatestIsUnique(oldLog[k], e, Latest(oldLog[k]));
    }
  }

  /** The log after the first n of some recorded entries. */
  function LogAfter(writes: seq<(string, Entry)>, n: nat): Log
    requires n <= |writes|
  {
    if n == 0 then map[] else Recorded(LogAfter(writes, n - 1), writes[n - 1].0, writes[n - 1].1)
  }

  /** The entries recorded for k among the first n, in order. */
  function EntriesOf(writes: seq<(string, Entry)>, n: nat, k: string): seq<Entry>
    requires n <= |writes|
  {
    if n == 0 then []
    else EntriesOf(writes, n - 1, k) + if writes[n - 1].0 == k then [writes[n - 1].1] else []
  }

  /** The log holds for each resource exactly what was recorded for it, each entry once and in order. */
  lemma {:induction false} LogHoldsWrites(writes: seq<(string, Entry)>, n: nat, k: string)
    requires n <= |writes|
    ensures k in LogAfter(writes, n) <==> EntriesOf(writes, n, k) != []
    ensures k in LogAfter(writes, n) ==> LogAfter(writes, n)[k] == EntriesOf(writes, n, k)
  {
    if n > 0 {
      LogHoldsWrites(writes, n - 1, k);
    }
  }

  lemma {:induction false} LogsExtend(writes: seq<(string, Entry)>, i: nat, j: nat)
    requires i <= j <= |writes|
    ensures Extends(LogAfter(writes, i), LogAfter(writes, j))
    ensures forall k :: k in LogAfter(writes, j) ==> |LogAfter(writes, j)[k]| > 0
    decreases j
  {
    if j > 0 {
      var log, path := LogAfter(writes, j - 1), writes[j - 1].0;
      if i < j {
        LogsExtend(writes, i, j - 1);
      } else {
        LogsExtend(writes, j - 1, j - 1);
      }
      assert path in log ==> (log[path] + [writes[j - 1].1])[..|log[path]|] == log[path];
    }
  }

  /** Between any two snapshots of a log that is only written by recording entries, a round never believes
      that the local state is newer. It fetches what it has not seen before and what got a later entry, unless
      the newest entry is a deletion, when it removes the file. */
  lemma RoundsOnlyPull(writes: seq<(string, Entry)>, i: nat, j: nat, a: Action)
    requires i <= j <= |writes| && a.path in LogAfter(writes, j)
    ensures var oldLog, tl, k := LogAfter(writes, i), LogAfter(writes, j), a.path;
      Readable(tl, oldLog)
      && (IsCalledFor(tl, oldLog, a) <==>
            (a == Fetch(k) && (k !in oldLog || (LaterAdded(tl, oldLog, k) && EndsIn(tl[k], Update))))
            || (a == RemoveLocal(k) && k in oldLog && LaterAdded(tl, oldLog, k) && EndsIn(tl[k], Delete)))
  {
    var oldLog, tl, k := LogAfter(writes, i), LogAfter(writes, j), a.path;
    LogsExtend(writes, i, j);
    LogsExtend(writes, i, i);
    DecideIsCalledFor(tl, oldLog, a);
    if k in oldLog {
      PullsIffLaterStamp(tl, oldLog, k);
      EndsInLatest(tl[k], Update);
      EndsInLatest(tl[k], Delete);
    }
  }
}
