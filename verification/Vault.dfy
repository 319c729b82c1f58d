/** What the encrypted files mean to their users: a plaintext, the session key and vector that were drawn when
    it was created, and who holds the key. Every run of backup, share and getfile keeps the bytes in step. */
module Vault {
  import opened Bytes
  import opened Outcomes
  import opened Aes
  import opened FileFormat
  import opened FileServer
  import opened Lamport
  import opened Client

  /** Somebody who may read and replace the file, with the random padding used when the key was wrapped. */
  datatype Holder = Holder(user: User, nonce: nat)

  datatype Shelf = Shelf(plaintext: seq<byte>, key: SessionKey, iv: Block, holders: seq<Holder>)

  type Meaning = map<Identifier, Shelf>

  datatype Op =
    | BackupOp(u: User, path: string, plaintext: seq<byte>, rnd: Random)
    | ShareOp(u: User, path: string, withUser: User, nonce: nat)
    | GetOp(u: User, path: string)

  predicate Holds(w: Shelf, u: User) {
    exists i :: 0 <= i < |w.holders| && w.holders[i].user == u
  }

  predicate MayUse(v: Meaning, u: User, k: Identifier) {
    k in v && Holds(v[k], u)
  }

  /** A new file keeps the key and the vector drawn for it for good; later backups only replace the plaintext,
      and shares only add a holder. */
  function NextMeaning(env: Env, v: Meaning, op: Op): Meaning {
    var k := env.fileKey(op.path);
    match op
    case BackupOp(u, _, plaintext, rnd) =>
      if k !in v then v[k := Shelf(plaintext, rnd.sessionKey, rnd.iv, [Holder(u, rnd.nonce)])]
      else if MayUse(v, u, k) then v[k := v[k].(plaintext := plaintext)]
      else v
    case ShareOp(u, _, withUser, nonce) =>
      if MayUse(v, u, k) then v[k := v[k].(holders := v[k].holders + [Holder(withUser, nonce)])] else v
    case GetOp(_, _) => v
  }

  /** The operation is by, and a share is with, users of the system. */
  predicate ByUsers(env: Env, op: Op) {
    op.u in env.users && (op.ShareOp? ==> op.withUser in env.users)
  }

  /** A share that is carried out finds room for one more owner. */
  predicate Fits(env: Env, v: Meaning, op: Op) {
    op.ShareOp? && MayUse(v, op.u, env.fileKey(op.path)) ==> |v[env.fileKey(op.path)].holders| < MAX_OWNERS
  }

  function Run(env: Env, s: State, op: Op): State {
    match op
    case BackupOp(u, path, plaintext, rnd) => Send(s, BackupRequest(env, s, u, path, plaintext, rnd))
    case ShareOp(u, path, withUser, nonce) => Send(s, ShareRequest(env, s, u, path, withUser, nonce))
    case GetOp(_, _) => s
  }

  // ---- The bytes of a shelf ----

  function RecordFor(env: Env, key: SessionKey, h: Holder): Owner {
    Owner(env.userId(h.user), env.wrap(h.user, key, h.nonce))
  }

  function Records(env: Env, w: Shelf): seq<Owner> {
    seq(|w.holders|, i requires 0 <= i < |w.holders| => RecordFor(env, w.key, w.holders[i]))
  }

  /** The vector, then the plaintext sealed under key and vector. */
  function Payload(env: Env, w: Shelf): seq<byte> {
    w.iv + Sealed(env.aes, w.key, w.iv, w.plaintext)
  }

  function Envelope(env: Env, w: Shelf): Document {
    Document(Records(env, w), Payload(env, w))
  }

  ghost predicate Stocked(env: Env, w: Shelf) {
    1 <= |w.holders| <= MAX_OWNERS && forall i :: 0 <= i < |w.holders| ==> w.holders[i].user in env.users
  }

  ghost predicate Kept(env: Env, files: map<Identifier, seq<byte>>, v: Meaning, k: Identifier)
    requires k in files && k in v
  {
    Stocked(env, v[k]) && files[k] == Build(Envelope(env, v[k]))
  }

  /** Byte for byte, the files are the envelopes of their shelves. */
  ghost predicate Secure(env: Env, files: map<Identifier, seq<byte>>, v: Meaning) {
    files.Keys == v.Keys && forall k {:trigger Kept(env, files, v, k)} :: k in files ==> Kept(env, files, v, k)
  }

  lemma EnvelopeIsStorable(env: Env, w: Shelf)
    requires Lawful(env) && Stocked(env, w)
    ensures Storable(Records(env, w)) && Parse(Build(Envelope(env, w))) == Some(Envelope(env, w))
  {
    ParseBuildIff(Envelope(env, w));
  }

  /** h is the last holder entry of user u. */
  ghost predicate IsNewest(w: Shelf, u: User, h: Holder) {
    exists i :: 0 <= i < |w.holders| && w.holders[i] == h && h.user == u
                && forall j :: i < j < |w.holders| ==> w.holders[j].user != u
  }

  lemma NewestRecord(env: Env, w: Shelf, u: User) returns (h: Holder)
    requires Lawful(env) && Stocked(env, w) && u in env.users
    ensures LastSecret(Records(env, w), env.userId(u)).Some? <==> Holds(w, u)
    ensures Holds(w, u) ==> IsNewest(w, u, h) && LastSecret(Records(env, w), env.userId(u)) == Some(env.wrap(u, w.key, h.nonce))
  {
    var owners, id := Records(env, w), env.userId(u);
    LastSecretIsNewest(owners, id);
    forall i | 0 <= i < |owners| ensures owners[i].id == id <==> w.holders[i].user == u {
      assert w.holders[i].user in env.users;
    }
    h := Holder(u, 0);
    if Holds(w, u) {
      var l :| 0 <= l < |w.holders| && w.holders[l].user == u;
      assert owners[l].id == id;
      var i :| 0 <= i < |owners| && owners[i] == Owner(id, LastSecret(owners, id).value)
               && forall j :: i < j < |owners| ==> owners[j].id != id;
      h := w.holders[i];
    }
  }

  /** The node answers exactly the holders, each with the key wrapped for them last. */
  lemma EnvelopeAnswers(env: Env, s: State, w: Shelf, u: User, path: string) returns (h: Holder)
    requires Lawful(env) && Stocked(env, w) && u in env.users
    requires env.fileKey(path) in s.files && s.files[env.fileKey(path)] == Build(Envelope(env, w))
    ensures Holds(w, u) ==> IsNewest(w, u, h)
    ensures Get(s, GetRequest(env, u, path)) ==
      if Holds(w, u) then Response(Ok, 0, env.wrap(u, w.key, h.nonce), Payload(env, w)) else REJECTED
    ensures Authorized(s.files, GetRequest(env, u, path)) == if Holds(w, u) then Some(Envelope(env, w)) else None
  {
    EnvelopeIsStorable(env, w);
    h := NewestRecord(env, w, u);
  }

  lemma PayloadSplits(env: Env, w: Shelf)
    ensures |Payload(env, w)| > 16 && Payload(env, w)[..16] == w.iv
    ensures Payload(env, w)[16..] == Sealed(env.aes, w.key, w.iv, w.plaintext)
  {
  }

  // ---- What the clients send ----

  /** A first backup sends a freshly wrapped key and the text sealed under it; so does somebody who may not use
      the file. A holder sends the stored key back, with the new text sealed under it and the stored vector. */
  lemma BackupSends(env: Env, s: State, v: Meaning, u: User, path: string, plaintext: seq<byte>, rnd: Random)
    requires Lawful(env) && Secure(env, s.files, v) && u in env.users
    ensures var k, r := env.fileKey(path), BackupRequest(env, s, u, path, plaintext, rnd);
      r.Some? && IsBackupOf(env, v, u, k, plaintext, rnd, r.value)
  {
    var k := env.fileKey(path);
    if k in v {
      assert k in s.files && Kept(env, s.files, v, k);
      var h := EnvelopeAnswers(env, s, v[k], u, path);
      PayloadSplits(env, v[k]);
    } else {
      assert k !in s.files;
    }
  }

  ghost predicate IsBackupOf(env: Env, v: Meaning, u: User, k: Identifier, plaintext: seq<byte>, rnd: Random, r: Request) {
    if MayUse(v, u, k) then
      exists h ::
        && IsNewest(v[k], u, h)
        && r == Request(k, env.userId(u), env.wrap(u, v[k].key, h.nonce), [], 0, Payload(env, v[k].(plaintext := plaintext)))
    else
      r == Request(k, env.userId(u), env.wrap(u, rnd.sessionKey, rnd.nonce), [], 0,
                   rnd.iv + Sealed(env.aes, rnd.sessionKey, rnd.iv, plaintext))
  }

  /** A holder's share sends the payload back as it is, with the stored key wrapped for the other user; nobody
      else sends anything. */
  lemma ShareSends(env: Env, s: State, v: Meaning, u: User, path: string, withUser: User, nonce: nat)
    requires Lawful(env) && Secure(env, s.files, v) && u in env.users
    ensures var k, r := env.fileKey(path), ShareRequest(env, s, u, path, withUser, nonce);
      (r.Some? <==> MayUse(v, u, k)) && (r.Some? ==> IsShareOf(env, v, u, k, Holder(withUser, nonce), r.value))
  {
    var k := env.fileKey(path);
    if k in v {
      assert k in s.files && Kept(env, s.files, v, k);
      var h := EnvelopeAnswers(env, s, v[k], u, path);
    } else {
      assert k !in s.files;
    }
  }

  ghost predicate IsShareOf(env: Env, v: Meaning, u: User, k: Identifier, other: Holder, r: Request) {
    && MayUse(v, u, k)
    && exists h ::
      && IsNewest(v[k], u, h)
      && r == Request(k, env.userId(u), env.wrap(u, v[k].key, h.nonce), [RecordFor(env, v[k].key, other)], 0, Payload(env, v[k]))
  }

  // ---- One operation ----

  lemma OneFileChanges(env: Env, files: map<Identifier, seq<byte>>, v: Meaning, k: Identifier, w: Shelf)
    requires Secure(env, files, v) && Stocked(env, w)
    ensures Secure(env, files[k := Build(Envelope(env, w))], v[k := w])
  {
    var files', v' := files[k := Build(Envelope(env, w))], v[k := w];
    forall x | x in files' ensures Kept(env, files', v', x) {
      assert x != k ==> x in files && Kept(env, files, v, x);
    }
  }

  /** What the node does with a post about a file that is there. */
  lemma PostAnswers(env: Env, s: State, v: Meaning, u: User, r: Request)
    requires Lawful(env) && Secure(env, s.files, v) && u in env.users && r.from == env.userId(u) && r.key in v
    ensures Post(s, r).state.files ==
      if Holds(v[r.key], u) then s.files[r.key := Build(Document(Records(env, v[r.key]) + r.sharedWith, r.data))] else s.files
  {
    assert r.key in s.files && Kept(env, s.files, v, r.key);
    EnvelopeIsStorable(env, v[r.key]);
    var _ := NewestRecord(env, v[r.key], u);
  }

  /** Somebody who holds no key changes no file, by backup or by share; only a backup of something that is not
      there yet goes through. */
  lemma OutsiderChangesNothing(env: Env, s: State, v: Meaning, op: Op)
    requires Lawful(env) && Secure(env, s.files, v) && ByUsers(env, op)
    requires !MayUse(v, op.u, env.fileKey(op.path))
    ensures Run(env, s, op).files == s.files <==> (env.fileKey(op.path) in v || !op.BackupOp?)
  {
    var k := env.fileKey(op.path);
    if op.BackupOp? {
      BackupSends(env, s, v, op.u, op.path, op.plaintext, op.rnd);
      if k in v {
        PostAnswers(env, s, v, op.u, BackupRequest(env, s, op.u, op.path, op.plaintext, op.rnd).value);
      } else {
        assert k !in s.files;
        assert k in Run(env, s, op).files;
      }
    } else if op.ShareOp? {
      ShareSends(env, s, v, op.u, op.path, op.withUser, op.nonce);
    }
  }

  lemma HolderBackup(env: Env, s: State, v: Meaning, op: Op)
    requires Lawful(env) && Secure(env, s.files, v) && ByUsers(env, op) && op.BackupOp? && MayUse(v, op.u, env.fileKey(op.path))
    ensures Secure(env, Run(env, s, op).files, NextMeaning(env, v, op))
  {
    var k := env.fileKey(op.path);
    assert k in s.files && Kept(env, s.files, v, k);
    BackupSends(env, s, v, op.u, op.path, op.plaintext, op.rnd);
    PostAnswers(env, s, v, op.u, BackupRequest(env, s, op.u, op.path, op.plaintext, op.rnd).value);
    var w := v[k].(plaintext := op.plaintext);
    assert Records(env, v[k]) + [] == Records(env, w);
    OneFileChanges(env, s.files, v, k, w);
  }

  lemma NewBackup(env: Env, s: State, v: Meaning, op: Op)
    requires Lawful(env) && Secure(env, s.files, v) && ByUsers(env, op) && op.BackupOp? && env.fileKey(op.path) !in v
    ensures Secure(env, Run(env, s, op).files, NextMeaning(env, v, op))
  {
    var k := env.fileKey(op.path);
    assert k !in s.files;
    BackupSends(env, s, v, op.u, op.path, op.plaintext, op.rnd);
    var r := BackupRequest(env, s, op.u, op.path, op.plaintext, op.rnd).value;
    var w := Shelf(op.plaintext, op.rnd.sessionKey, op.rnd.iv, [Holder(op.u, op.rnd.nonce)]);
    assert [Creator(r)] + [] == Records(env, w);
    OneFileChanges(env, s.files, v, k, w);
  }

  /** The bytes after a share, whether or not there was room for the new owner. */
  lemma HolderShares(env: Env, s: State, v: Meaning, op: Op)
    requires Lawful(env) && Secure(env, s.files, v) && ByUsers(env, op) && op.ShareOp? && MayUse(v, op.u, env.fileKey(op.path))
    ensures var k := env.fileKey(op.path);
      Run(env, s, op).files == s.files[k := Build(Envelope(env, NextMeaning(env, v, op)[k]))]
  {
    var k := env.fileKey(op.path);
    ShareSends(env, s, v, op.u, op.path, op.withUser, op.nonce);
    var r := ShareRequest(env, s, op.u, op.path, op.withUser, op.nonce).value;
    PostAnswers(env, s, v, op.u, r);
    var w := v[k].(holders := v[k].holders + [Holder(op.withUser, op.nonce)]);
    assert Records(env, v[k]) + r.sharedWith == Records(env, w);
    assert Payload(env, w) == Payload(env, v[k]);
  }

  lemma HolderShare(env: Env, s: State, v: Meaning, op: Op)
    requires Lawful(env) && Secure(env, s.files, v) && ByUsers(env, op) && op.ShareOp? && MayUse(v, op.u, env.fileKey(op.path))
    requires Fits(env, v, op)
    ensures Secure(env, Run(env, s, op).files, NextMeaning(env, v, op))
  {
    var k := env.fileKey(op.path);
    assert k in s.files && Kept(env, s.files, v, k);
    HolderShares(env, s, v, op);
    OneFileChanges(env, s.files, v, k, NextMeaning(env, v, op)[k]);
  }

  /** Every operation of every user, holder or not, keeps the files in step with their meaning. */
  lemma RunPreserves(env: Env, s: State, v: Meaning, op: Op)
    requires Lawful(env) && Secure(env, s.files, v) && ByUsers(env, op) && Fits(env, v, op)
    ensures Secure(env, Run(env, s, op).files, NextMeaning(env, v, op))
  {
    var k := env.fileKey(op.path);
    if k in v && !MayUse(v, op.u, k) {
      OutsiderChangesNothing(env, s, v, op);
    } else if op.BackupOp? {
      if k in v { HolderBackup(env, s, v, op); } else { NewBackup(env, s, v, op); }
    } else if op.ShareOp? {
      if k in v { HolderShare(env, s, v, op); } else { OutsiderChangesNothing(env, s, v, op); }
    }
  }

  /** The node's clock moves once for every backup, accepted or not, and for every share by a holder; reading
      leaves it alone. */
  lemma RunClock(env: Env, s: State, v: Meaning, op: Op)
    requires Lawful(env) && Secure(env, s.files, v) && ByUsers(env, op)
    ensures Run(env, s, op).clock ==
      if op.BackupOp? || (op.ShareOp? && MayUse(v, op.u, env.fileKey(op.path))) then Incremented(s.clock, 0) else s.clock
  {
    if op.BackupOp? {
      BackupSends(env, s, v, op.u, op.path, op.plaintext, op.rnd);
    } else if op.ShareOp? {
      ShareSends(env, s, v, op.u, op.path, op.withUser, op.nonce);
    }
  }

  /** On any files at all, getfile returns a text that is not empty exactly if the node hands the user a secret
      that opens to a key under which the rest of the payload seals that text. */
  lemma FetchedIff(env: Env, s: State, u: User, path: string, p: seq<byte>)
    requires Lawful(env) && p != []
    ensures var resp := Get(s, GetRequest(env, u, path));
      Fetched(env, s, u, path) == Some(p) <==>
        resp.status == Ok && env.unwrap(u, resp.secret).Some? && KeySizeOk(env.unwrap(u, resp.secret).value)
        && exists iv: Block :: resp.data == iv + Sealed(env.aes, env.unwrap(u, resp.secret).value, iv, p)
  {
    var resp := Get(s, GetRequest(env, u, path));
    if resp.status == Ok && env.unwrap(u, resp.secret).Some? {
      var key := env.unwrap(u, resp.secret).value;
      forall iv: Block | resp.data == iv + Sealed(env.aes, key, iv, p) && KeySizeOk(key)
        ensures |resp.data| >= 16 && resp.data[..16] == iv && resp.data[16..] == Sealed(env.aes, key, iv, p)
      {
      }
      if |resp.data| >= 16 {
        var iv: Block := resp.data[..16];
        OpenedIff(env.aes, key, iv, resp.data[16..], p);
        assert resp.data == iv + resp.data[16..];
      }
    }
  }

  /** It writes its destination, if only with nothing, exactly if it gets a key of an accepted size and whole
      blocks, at least one besides the vector. */
  lemma FetchedWritesIff(env: Env, s: State, u: User, path: string)
    ensures var resp := Get(s, GetRequest(env, u, path));
      Fetched(env, s, u, path).Some? <==>
        resp.status == Ok && env.unwrap(u, resp.secret).Some? && KeySizeOk(env.unwrap(u, resp.secret).value)
        && |resp.data| >= 32 && |resp.data| % 16 == 0
  {
    var resp := Get(s, GetRequest(env, u, path));
    assert |resp.data| >= 16 ==> |resp.data[16..]| == |resp.data| - 16;
  }

  /** Getfile returns the plaintext to the holders and nothing to anybody else. */
  lemma FetchedIsMeaning(env: Env, s: State, v: Meaning, u: User, path: string)
    requires Lawful(env) && Secure(env, s.files, v) && u in env.users
    ensures Fetched(env, s, u, path) ==
      if MayUse(v, u, env.fileKey(path)) then Some(v[env.fileKey(path)].plaintext) else None
  {
    var k := env.fileKey(path);
    assert k in s.files <==> k in v;
    if k in v {
      assert Kept(env, s.files, v, k);
      var w := v[k];
      var h := EnvelopeAnswers(env, s, w, u, path);
      PayloadSplits(env, w);
      OpenSealed(env.aes, w.key, w.iv, w.plaintext);
    }
  }

  /** The sharer can still read the file after sharing it exactly when there was room for one more owner:
      the 256th owner makes the count byte zero and locks everybody out. */
  lemma ShareKeepsAccessIff(env: Env, s: State, v: Meaning, op: Op)
    requires Lawful(env) && Secure(env, s.files, v) && ByUsers(env, op) && op.ShareOp? && MayUse(v, op.u, env.fileKey(op.path))
    ensures Fetched(env, Run(env, s, op), op.u, op.path) == Some(v[env.fileKey(op.path)].plaintext)
            <==> Fits(env, v, op)
  {
    var k := env.fileKey(op.path);
    if Fits(env, v, op) {
      var i :| 0 <= i < |v[k].holders| && v[k].holders[i].user == op.u;
      assert NextMeaning(env, v, op)[k].holders[i].user == op.u;
      HolderShare(env, s, v, op);
      FetchedIsMeaning(env, Run(env, s, op), NextMeaning(env, v, op), op.u, op.path);
    } else {
      assert k in s.files && Kept(env, s.files, v, k);
      HolderShares(env, s, v, op);
      FullHouseLosesOwners(Envelope(env, NextMeaning(env, v, op)[k]));
    }
  }

  // ---- On any files at all ----

  /** What the node answers next when a post by u has gone through. */
  lemma PostThenGet(env: Env, s: State, u: User, path: string, r: Request, owners: seq<Owner>)
    requires r.key == env.fileKey(path) && Storable(owners)
    requires Post(s, r).state.files == s.files[r.key := Build(Document(owners, r.data))]
    ensures Get(Post(s, r).state, GetRequest(env, u, path)) ==
      if LastSecret(owners, env.userId(u)).Some? then Response(Ok, 0, LastSecret(owners, env.userId(u)).value, r.data)
      else REJECTED
  {
    ParseBuildIff(Document(owners, r.data));
  }

  lemma LastIsFound(owners: seq<Owner>, o: Owner)
    ensures LastSecret(owners + [o], o.id) == Some(o.secret)
  {
  }

  /** Whatever the store holds: a backup that creates the file, or is by an owner whose record and payload can be
      used, can be read back at once; one that sends nothing is of a file that its user cannot read either. */
  lemma BackupThenGet(env: Env, s: State, u: User, path: string, plaintext: seq<byte>, rnd: Random)
    requires Lawful(env)
    ensures var sent, readable := BackupRequest(env, s, u, path, plaintext, rnd), Get(s, GetRequest(env, u, path)).status == Ok;
      if sent.None? then readable && Fetched(env, s, u, path) == None
      else readable || env.fileKey(path) !in s.files ==> Fetched(env, Send(s, sent), u, path) == Some(plaintext)
  {
    var k, sent := env.fileKey(path), BackupRequest(env, s, u, path, plaintext, rnd);
    var resp := Get(s, GetRequest(env, u, path));
    if sent.Some? && (resp.status == Ok || k !in s.files) {
      var r := sent.value;
      var owners: seq<Owner>, key: seq<byte> := [Owner(env.userId(u), r.secret)], rnd.sessionKey;
      if k in s.files {
        owners, key := Parse(s.files[k]).value.owners, env.unwrap(u, resp.secret).value;
        BuildParsed(s.files[k]);
        assert owners + [] == owners;
      } else {
        LastIsFound([], owners[0]);
        assert [] + [owners[0]] == [Creator(r)] + [] == owners;
      }
      PostThenGet(env, s, u, path, r, owners);
      assert Get(Send(s, sent), GetRequest(env, u, path)) == Response(Ok, 0, r.secret, r.data);
      OpensAgain(env, Send(s, sent), u, path, key, r.data[..16], plaintext);
    }
  }

  lemma OpensAgain(env: Env, s: State, u: User, path: string, key: seq<byte>, iv: Block, plaintext: seq<byte>)
    requires Lawful(env) && KeySizeOk(key)
    requires var resp := Get(s, GetRequest(env, u, path));
      resp.status == Ok && env.unwrap(u, resp.secret) == Some(key) && resp.data == iv + Sealed(env.aes, key, iv, plaintext)
    ensures Fetched(env, s, u, path) == Some(plaintext)
  {
    var data := Get(s, GetRequest(env, u, path)).data;
    OpenSealed(env.aes, key, iv, plaintext);
    assert data[..16] == iv && data[16..] == Sealed(env.aes, key, iv, plaintext);
  }

  /** And a share of a session key that finds room gives the other user exactly what the sharer could read. */
  lemma ShareThenGet(env: Env, s: State, u: User, path: string, withUser: User, nonce: nat)
    requires Lawful(env)
    requires var resp := Get(s, GetRequest(env, u, path));
      resp.status == Ok && env.unwrap(u, resp.secret).Some? && |env.unwrap(u, resp.secret).value| == 32
    requires s.files[env.fileKey(path)][0] < 255
    ensures Fetched(env, Send(s, ShareRequest(env, s, u, path, withUser, nonce)), withUser, path) == Fetched(env, s, u, path)
  {
    var k, r := env.fileKey(path), ShareRequest(env, s, u, path, withUser, nonce).value;
    var owners := Parse(s.files[k]).value.owners;
    BuildParsed(s.files[k]);
    LastIsFound(owners, r.sharedWith[0]);
    PostThenGet(env, s, withUser, path, r, owners + r.sharedWith);
  }

  // ---- Runs ----

  function MeaningAfter(env: Env, ops: seq<Op>, n: nat): Meaning
    requires n <= |ops|
  {
    if n == 0 then map[] else NextMeaning(env, MeaningAfter(env, ops, n - 1), ops[n - 1])
  }

  /** Operation i is the backup that creates the file k. */
  predicate Creates(env: Env, ops: seq<Op>, i: nat, k: Identifier)
    requires i < |ops|
  {
    ops[i].BackupOp? && env.fileKey(ops[i].path) == k && k !in MeaningAfter(env, ops, i)
  }

  /** Exactly one operation of a run creates a given file; its draw is the file's key and vector from then on,
      and its user is the first holder. */
  lemma {:induction false} KeyIsDrawnOnce(env: Env, ops: seq<Op>, n: nat, k: Identifier) returns (i: nat)
    requires n <= |ops| && k in MeaningAfter(env, ops, n)
    ensures i < n && Creates(env, ops, i, k) && forall j :: 0 <= j < n && Creates(env, ops, j, k) ==> j == i
    ensures var w, rnd := MeaningAfter(env, ops, n)[k], ops[i].rnd;
      w.key == rnd.sessionKey && w.iv == rnd.iv && |w.holders| > 0 && w.holders[0] == Holder(ops[i].u, rnd.nonce)
    ensures forall j :: i < j <= n ==> k in MeaningAfter(env, ops, j)
  {
    if k in MeaningAfter(env, ops, n - 1) {
      i := KeyIsDrawnOnce(env, ops, n - 1, k);
    } else {
      i := n - 1;
      NeverThere(env, ops, n - 1, k);
    }
  }

  lemma {:induction false} NeverThere(env: Env, ops: seq<Op>, n: nat, k: Identifier)
    requires n <= |ops| && k !in MeaningAfter(env, ops, n)
    ensures forall j :: 0 <= j < n ==> !Creates(env, ops, j, k)
  {
    if n > 0 {
      NeverThere(env, ops, n - 1, k);
    }
  }

  ghost predicate IsStep(env: Env, v: Meaning, s: State, op: Op, s': State) {
    ByUsers(env, op) && Fits(env, v, op) && s' == Run(env, s, op)
  }

  lemma StepPreserves(env: Env, v: Meaning, s: State, op: Op, s': State, v': Meaning)
    requires Lawful(env) && Secure(env, s.files, v) && IsStep(env, v, s, op, s') && v' == NextMeaning(env, v, op)
    ensures Secure(env, s'.files, v')
  {
    RunPreserves(env, s, v, op);
  }

  ghost predicate IsStepAt(env: Env, ops: seq<Op>, states: seq<State>, i: nat)
    requires i < |ops| && |states| == |ops| + 1
  {
    IsStep(env, MeaningAfter(env, ops, i), states[i], ops[i], states[i + 1])
  }

  /** states is what an initially empty node goes through while the clients run ops. */
  ghost predicate IsRun(env: Env, ops: seq<Op>, states: seq<State>) {
    && |states| == |ops| + 1 && states[0].files == map[]
    && forall i {:trigger IsStepAt(env, ops, states, i)} :: 0 <= i < |ops| ==> IsStepAt(env, ops, states, i)
  }

  /** In every state of every run, by any users, each file is byte for byte made of the key and the vector drawn by
      the backup that created it: wrapped for its creator and everybody it was shared with, in order, and the
      plaintext of the last accepted backup sealed under both. */
  lemma {:induction false} EveryRunIsSecure(env: Env, ops: seq<Op>, states: seq<State>, i: nat)
    requires Lawful(env) && IsRun(env, ops, states) && i <= |ops|
    ensures Secure(env, states[i].files, MeaningAfter(env, ops, i))
  {
    if i > 0 {
      EveryRunIsSecure(env, ops, states, i - 1);
      assert IsStepAt(env, ops, states, i - 1);
      StepPreserves(env, MeaningAfter(env, ops, i - 1), states[i - 1], ops[i - 1], states[i], MeaningAfter(env, ops, i));
    }
  }

  /** So getfile gives each holder that plaintext, and everybody else nothing. */
  lemma EveryReaderGetsLastBackup(env: Env, ops: seq<Op>, states: seq<State>, i: nat, u: User, path: string)
    requires Lawful(env) && IsRun(env, ops, states) && i <= |ops| && u in env.users
    ensures var v := MeaningAfter(env, ops, i);
      Fetched(env, states[i], u, path) ==
        if MayUse(v, u, env.fileKey(path)) then Some(v[env.fileKey(path)].plaintext) else None
  {
    EveryRunIsSecure(env, ops, states, i);
    FetchedIsMeaning(env, states[i], MeaningAfter(env, ops, i), u, path);
  }
}
