/** The byte store against its meaning: for each key, the posts accepted since it was created. */
module FileHistory {
  import opened Bytes
  import opened Outcomes
  import opened FileFormat
  import opened FileServer
  import opened Lamport

  /** The accepted posts of a key, creation first. */
  type History = h: seq<Request> | |h| > 0 witness [Request(ZERO_ID, ZERO_ID, [], [], 0, [])]

  type Log = map<Identifier, History>

  /** The creator's pair, then the shared pairs of every accepted post in order. */
  function Owners(h: seq<Request>): seq<Owner>
    requires |h| > 0
  {
    if |h| == 1 then [Creator(h[0])] + h[0].sharedWith else Owners(h[..|h| - 1]) + h[|h| - 1].sharedWith
  }

  /** The data of the last accepted post. */
  function Data(h: History): seq<byte> {
    h[|h| - 1].data
  }

  datatype Op = GetOp(r: Request) | PostOp(r: Request) | DeleteOp(r: Request)

  predicate Admitted(log: Log, r: Request) {
    r.key in log && IsOwner(Owners(log[r.key]), r.from)
  }

  function NextLog(log: Log, op: Op): Log {
    match op
    case GetOp(_) => log
    case PostOp(r) =>
      if r.key !in log then log[r.key := [r]]
      else if Admitted(log, r) then log[r.key := log[r.key] + [r]]
      else log
    case DeleteOp(r) => if Admitted(log, r) then log - {r.key} else log
  }

  /** secret is the one granted to id by the last pair under id. */
  ghost predicate NewestSecret(owners: seq<Owner>, id: Identifier, secret: seq<byte>) {
    exists i :: 0 <= i < |owners| && owners[i] == Owner(id, secret)
                && forall j :: i < j < |owners| ==> owners[j].id != id
  }

  ghost predicate GrantedTo(log: Log, r: Request, secret: seq<byte>) {
    Admitted(log, r) && NewestSecret(Owners(log[r.key]), r.from, secret)
  }

  /** The reply to a Get, every field of it: the last data and the sender's newest secret for an owner, and
      for anybody else an error without any content. The clock stays. */
  ghost predicate IsGetReply(log: Log, clock: uint64, r: Request, reply: Reply) {
    && reply.state.clock == clock
    && (if Admitted(log, r) then exists secret :: GrantedTo(log, r, secret) && reply.response == Response(Ok, 0, secret, Data(log[r.key]))
        else reply.response == Response(Error, 0, [], []))
  }

  /** The reply to a Post: the clock moves whether or not it is refused, and only an owner or a creator hears
      of its new value. */
  ghost predicate IsPostReply(log: Log, clock: uint64, r: Request, reply: Reply) {
    var t := Incremented(clock, r.clock);
    && reply.state.clock == t
    && (if r.key !in log then reply.response == Response(Ok, t, [], [])
        else if Admitted(log, r) then exists secret :: GrantedTo(log, r, secret) && reply.response == Response(Ok, t, secret, [])
        else reply.response == Response(Error, 0, [], []))
  }

  ghost predicate IsDeleteReply(log: Log, clock: uint64, r: Request, reply: Reply) {
    var t := Incremented(clock, r.clock);
    && reply.state.clock == (if r.key in log then t else clock)
    && (if r.key !in log then reply.response == Response(Panicked, 0, [], [])
        else if Admitted(log, r) then exists secret :: GrantedTo(log, r, secret) && reply.response == Response(Ok, t, secret, [])
        else reply.response == Response(Error, 0, [], []))
  }

  ghost predicate IsReply(log: Log, clock: uint64, op: Op, reply: Reply) {
    match op
    case GetOp(r) => IsGetReply(log, clock, r, reply)
    case PostOp(r) => IsPostReply(log, clock, r, reply)
    case DeleteOp(r) => IsDeleteReply(log, clock, r, reply)
  }

  /** What an accepted post has to respect for its file to be readable again (see ParseBuildIff). */
  predicate Fits(log: Log, op: Op) {
    op.PostOp? && (op.r.key !in log || Admitted(log, op.r)) ==> Storable(Owners(NextLog(log, op)[op.r.key]))
  }

  // ---- The same operations on the bytes ----

  function Serve(s: State, op: Op): Reply {
    match op
    case GetOp(r) => Reply(s, Get(s, r))
    case PostOp(r) => Post(s, r)
    case DeleteOp(r) => Delete(s, r)
  }

  ghost predicate Stands(files: map<Identifier, seq<byte>>, log: Log, k: Identifier)
    requires k in files && k in log
  {
    Storable(Owners(log[k])) && files[k] == Build(Document(Owners(log[k]), Data(log[k])))
  }

  /** Every stored file is the built form of its history. */
  ghost predicate Refines(files: map<Identifier, seq<byte>>, log: Log) {
    files.Keys == log.Keys && forall k {:trigger Stands(files, log, k)} :: k in files ==> Stands(files, log, k)
  }

  lemma AuthorizedIffAdmitted(files: map<Identifier, seq<byte>>, log: Log, r: Request)
    requires Refines(files, log)
    ensures Authorized(files, r).Some? <==> Admitted(log, r)
    ensures r.key in log ==> Parse(files[r.key]) == Some(Document(Owners(log[r.key]), Data(log[r.key])))
    ensures Admitted(log, r) ==>
      var d := Authorized(files, r).value;
      d == Document(Owners(log[r.key]), Data(log[r.key]))
      && LastSecret(d.owners, r.from).Some? && GrantedTo(log, r, LastSecret(d.owners, r.from).value)
  {
    if r.key in log {
      assert r.key in files.Keys && Stands(files, log, r.key);
      ParseBuildIff(Document(Owners(log[r.key]), Data(log[r.key])));
      LastSecretIsNewest(Owners(log[r.key]), r.from);
      assert Admitted(log, r) ==> GrantedTo(log, r, LastSecret(Owners(log[r.key]), r.from).value);
    }
  }

  lemma OneKeyChanges(files: map<Identifier, seq<byte>>, log: Log, k: Identifier, file: seq<byte>, h: History)
    requires Refines(files, log)
    requires Storable(Owners(h)) && file == Build(Document(Owners(h), Data(h)))
    ensures Refines(files[k := file], log[k := h])
  {
    var files', log' := files[k := file], log[k := h];
    forall x | x in files' ensures Stands(files', log', x) {
      assert x != k ==> x in files && Stands(files, log, x);
    }
  }

  lemma OneKeyGoes(files: map<Identifier, seq<byte>>, log: Log, k: Identifier)
    requires Refines(files, log)
    ensures Refines(files - {k}, log - {k})
  {
    var files', log' := files - {k}, log - {k};
    forall x | x in files' ensures Stands(files', log', x) {
      assert Stands(files, log, x);
    }
  }

  /** One request on the bytes does what it means on the histories, and is answered accordingly; a refused
      request leaves the files alone. */
  lemma ServeRefines(s: State, log: Log, op: Op)
    requires Refines(s.files, log) && Fits(log, op)
    ensures Refines(Serve(s, op).state.files, NextLog(log, op))
    ensures IsReply(log, s.clock, op, Serve(s, op))
    ensures Serve(s, op).response.status != Ok ==> Serve(s, op).state.files == s.files
  {
    var r := op.r;
    AuthorizedIffAdmitted(s.files, log, r);
    assert r.key in s.files <==> r.key in log;
    if op.PostOp? && (r.key !in log || Admitted(log, r)) {
      var h: History := if r.key in log then log[r.key] + [r] else [r];
      assert r.key in log ==> h[..|h| - 1] == log[r.key];
      OneKeyChanges(s.files, log, r.key, Build(Document(Owners(h), Data(h))), h);
    } else if op.DeleteOp? && Admitted(log, r) {
      OneKeyGoes(s.files, log, r.key);
    }
  }

  /** A file whose owner list is cut short is kept as it is: all requests are refused without content. The clock
      moves for a post alone. */
  lemma UnreadableIsRefused(s: State, op: Op)
    requires op.r.key in s.files
    requires var file := s.files[op.r.key]; file == [] || |file| < 1 + RECORD_LEN * file[0] as nat
    ensures Serve(s, op).response == Response(Error, 0, [], [])
    ensures Serve(s, op).state == if op.PostOp? then s.(clock := Incremented(s.clock, op.r.clock)) else s
  {
    ReadableIff(s.files[op.r.key]);
  }

  // ---- Runs ----

  /** The histories after the first n requests. */
  function LogAfter(ops: seq<Op>, n: nat): Log
    requires n <= |ops|
  {
    if n == 0 then map[] else NextLog(LogAfter(ops, n - 1), ops[n - 1])
  }

  /** Request i fits, and takes the server from state i to state i + 1 with reply i. */
  ghost predicate ServedAt(ops: seq<Op>, states: seq<State>, replies: seq<Response>, i: nat)
    requires i < |ops| && |states| == |ops| + 1 && |replies| == |ops|
  {
    && Fits(LogAfter(ops, i), ops[i])
    && Serve(states[i], ops[i]) == Reply(states[i + 1], replies[i])
  }

  /** states and replies are what a server that starts empty goes through on ops, all of which fit. */
  ghost predicate IsServed(ops: seq<Op>, states: seq<State>, replies: seq<Response>) {
    && |states| == |ops| + 1 && |replies| == |ops|
    && states[0].files == map[]
    && forall i {:trigger ServedAt(ops, states, replies, i)} :: 0 <= i < |ops| ==> ServedAt(ops, states, replies, i)
  }

  /** For every run of requests, the files are the built histories throughout. */
  lemma {:induction false} RunRefines(ops: seq<Op>, states: seq<State>, replies: seq<Response>, i: nat)
    requires IsServed(ops, states, replies) && i <= |ops|
    ensures Refines(states[i].files, LogAfter(ops, i))
  {
    if i > 0 {
      RunRefines(ops, states, replies, i - 1);
      assert ServedAt(ops, states, replies, i - 1);
      ServeRefines(states[i - 1], LogAfter(ops, i - 1), ops[i - 1]);
    }
  }

  /** And every reply is the right one for the requests before it, in every field; a refusal carries no secret,
      no data and no clock, and changes no file. */
  lemma RunAnswers(ops: seq<Op>, states: seq<State>, replies: seq<Response>, i: nat)
    requires IsServed(ops, states, replies) && i < |ops|
    ensures IsReply(LogAfter(ops, i), states[i].clock, ops[i], Reply(states[i + 1], replies[i]))
    ensures replies[i].status != Ok ==> states[i + 1].files == states[i].files
  {
    RunRefines(ops, states, replies, i);
    assert ServedAt(ops, states, replies, i);
    ServeRefines(states[i], LogAfter(ops, i), ops[i]);
  }
}
