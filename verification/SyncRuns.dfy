/** Clients that post updates of one resource to one node and record them: whether the others see them. */
module SyncRuns {
  import opened Bytes
  import opened Outcomes
  import opened Lamport
  import opened FileServer
  import opened Sync

  /** The node, the clock of each client, and the log. */
  datatype World = World(node: State, clocks: map<Identifier, uint64>, log: Log)

  /** A client's PostFile, with the clock in the answer to its posting the log; or any other post that the
      node serves, such as that of a log. */
  datatype Turn = Posted(r: Request, logAnswer: uint64) | Served(r: Request)

  function ClockOf(w: World, client: Identifier): uint64 {
    if client in w.clocks then w.clocks[client] else 1
  }

  /** The post that the client of a turn sends, with its clock. */
  function Sent(w: World, r: Request): Request {
    r.(clock := ClockOf(w, r.from))
  }

  /** What PostFile does to node, client clock and log. */
  function NextWorld(w: World, path: string, t: Turn): World {
    match t
    case Posted(r, logAnswer) =>
      var reply := Post(w.node, Sent(w, r));
      var stamp := Incremented(ClockOf(w, r.from), reply.response.clock);
      World(reply.state, w.clocks[r.from := Incremented(stamp, logAnswer)],
            Recorded(w.log, path, Entry(Update, r.from, stamp)))
    case Served(r) => w.(node := Post(w.node, r).state)
  }

  /** One call of PostFile is one such turn of the client that owns the clock. */
  method TakeTurn(clock: Clock, server: Server, log: SharedLog, clocks: map<Identifier, uint64>, path: string, r: Request,
                  logAnswer: uint64)
    requires clock != server.clock
    requires clock.clock == if r.from in clocks then clocks[r.from] else 1
    modifies clock, server.store, server.clock, log
    ensures World(server.View(), clocks[r.from := clock.clock], log.log) ==
      NextWorld(World(old(server.View()), clocks, old(log.log)), path, Posted(r, logAnswer))
  {
    PostFile(clock, server, log, path, r, logAnswer);
  }

  /** The turn of a client is accepted, and no clock is about to wrap. */
  ghost predicate TurnOk(w: World, t: Turn) {
    && w.node.clock < WRAP - 3 && ClockOf(w, t.r.from) < WRAP - 3 && t.r.clock < WRAP - 3
    && (t.Posted? ==> Post(w.node, Sent(w, t.r)).response.status == Ok)
  }

  ghost predicate IsTurn(worlds: seq<World>, path: string, turns: seq<Turn>, i: nat)
    requires i < |turns| && |worlds| == |turns| + 1
  {
    TurnOk(worlds[i], turns[i]) && worlds[i + 1] == NextWorld(worlds[i], path, turns[i])
  }

  /** Any clients take any accepted turns about the resource at path, one after the other. */
  ghost predicate IsRun(worlds: seq<World>, path: string, turns: seq<Turn>) {
    && |worlds| == |turns| + 1 && worlds[0].log == map[]
    && forall i {:trigger IsTurn(worlds, path, turns, i)} :: 0 <= i < |turns| ==> IsTurn(worlds, path, turns, i)
  }

  /** The stamps of the resource, up to one more than the node's clock. */
  ghost predicate StampsBehind(w: World, path: string) {
    path in w.log ==>
      |w.log[path]| > 0
      && forall j :: 0 <= j < |w.log[path]| ==>
           w.log[path][j].timestamp <= w.node.clock + 1 && w.log[path][j].op == Update
  }

  lemma TurnStamp(w: World, path: string, t: Turn)
    requires TurnOk(w, t)
    ensures NextWorld(w, path, t).node.clock > w.node.clock
    ensures t.Posted? ==>
      NextWorld(w, path, t).log ==
        Recorded(w.log, path, Entry(Update, t.r.from, NextWorld(w, path, t).node.clock + 1))
  {
    AnswersCarryTheClock(w.node, t.r);
    AnswersCarryTheClock(w.node, Sent(w, t.r));
    UpdateStampIs(w.node, Sent(w, t.r));
  }

  /** The client's clock passes its own stamp and the answer to its posting the log; no other client's moves. */
  lemma TurnClock(w: World, path: string, t: Turn)
    requires TurnOk(w, t) && t.Posted? && t.logAnswer < WRAP - 1 && NextWorld(w, path, t).node.clock < WRAP - 2
    ensures var w' := NextWorld(w, path, t); var stamp := w'.node.clock + 1;
      ClockOf(w', t.r.from) > stamp && ClockOf(w', t.r.from) > t.logAnswer
      && (ClockOf(w', t.r.from) == stamp + 1 || ClockOf(w', t.r.from) == t.logAnswer + 1)
      && forall c :: c != t.r.from ==> ClockOf(w', c) == ClockOf(w, c)
  {
    TurnStamp(w, path, t);
  }

  lemma {:induction false} StampsStayBehind(worlds: seq<World>, path: string, turns: seq<Turn>, i: nat)
    requires IsRun(worlds, path, turns) && i <= |turns|
    ensures StampsBehind(worlds[i], path)
  {
    if i > 0 {
      StampsStayBehind(worlds, path, turns, i - 1);
      assert IsTurn(worlds, path, turns, i - 1);
      TurnStamp(worlds[i - 1], path, turns[i - 1]);
    }
  }

  /** The log grows by appending only. */
  lemma {:induction false} RunExtends(worlds: seq<World>, path: string, turns: seq<Turn>, i: nat, j: nat)
    requires IsRun(worlds, path, turns) && i <= j <= |turns|
    ensures Extends(worlds[i].log, worlds[j].log)
    decreases j
  {
    KeysOfRun(worlds, path, turns, j);
    StampsStayBehind(worlds, path, turns, j);
    if i < j {
      RunExtends(worlds, path, turns, i, j - 1);
      assert IsTurn(worlds, path, turns, j - 1);
      TurnStamp(worlds[j - 1], path, turns[j - 1]);
    }
  }

  lemma {:induction false} KeysOfRun(worlds: seq<World>, path: string, turns: seq<Turn>, i: nat)
    requires IsRun(worlds, path, turns) && i <= |turns|
    ensures worlds[i].log.Keys <= {path}
  {
    if i > 0 {
      KeysOfRun(worlds, path, turns, i - 1);
      assert IsTurn(worlds, path, turns, i - 1);
    }
  }

  /** Every update that the node accepts is fetched by every client that has synchronized with any earlier
      state of the log: it is stamped later than all that was recorded before. */
  lemma AcceptedUpdateIsFetched(worlds: seq<World>, path: string, turns: seq<Turn>, i: nat, j: nat)
    requires IsRun(worlds, path, turns) && i <= j < |turns| && turns[j].Posted?
    ensures var oldLog, tl := worlds[i].log, worlds[j + 1].log;
      path in tl && |tl[path]| > 0 && (path in oldLog ==> |oldLog[path]| > 0 && LaterAdded(tl, oldLog, path))
      && Decide(tl, oldLog, path) == Some(Fetch(path))
  {
    var oldLog: Log, tl: Log := worlds[i].log, worlds[j + 1].log;
    assert IsTurn(worlds, path, turns, j);
    TurnStamp(worlds[j], path, turns[j]);
    StampsStayBehind(worlds, path, turns, i);
    StampsStayBehind(worlds, path, turns, j);
    StampsStayBehind(worlds, path, turns, j + 1);
    RunExtends(worlds, path, turns, i, j);
    RunExtends(worlds, path, turns, i, j + 1);
    if path in oldLog {
      var n := |tl[path]| - 1;
      assert tl[path][n].timestamp == worlds[j + 1].node.clock + 1;
      forall h | 0 <= h < |oldLog[path]| ensures oldLog[path][h].timestamp < tl[path][n].timestamp {
        assert worlds[j].log[path][..|oldLog[path]|][h] == oldLog[path][h];
      }
      assert |oldLog[path]| <= |worlds[j].log[path]| == n;
      PullsIffLaterStamp(tl, oldLog, path);
      LatestIsLatest(tl[path]);
    }
  }

  /** A deletion, however, may be missed: one client creates and records a file, another, which has not heard
      of any clock yet, records its deletion; and whoever has seen the update does not act on it. */
  method DeletionIsMissed(path: string, r: Request, other: Identifier) returns (before: Log, after: Log)
    ensures path in before && |before[path]| > 0 && Latest(before[path]).op == Update
    ensures after == Recorded(before, path, Entry(Operation.Delete, other, 1))
    ensures path in after && |after[path]| > 0 && Decide(after, before, path) == None
  {
    var node := new Server();
    var log := new SharedLog();
    var clock := new Clock();
    var otherClock := new Clock();
    PostFile(clock, node, log, path, r, 0);
    before := log.log;
    DeleteFile(otherClock, log, path, other, 0);
    after := log.log;
    assert before[path] == [Entry(Update, r.from, 3)];
    ChangeIsSeenIff(before, path, Entry(Operation.Delete, other, 1));
  }
}
