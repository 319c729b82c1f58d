/** The storage node: the key-to-bytes store and the Get, Post and Delete handlers
    (file/storage.go, file/handlers.go), as objects and as functions of their state. */
module FileServer {
  import opened Bytes
  import opened Outcomes
  import opened FileFormat
  import opened Lamport

  /** Panicked stands for a handler that brings the process down instead of answering. */
  datatype Status = Ok | Error | Panicked

  /** The parts of a request that the file handlers look at. */
  datatype Request = Request(key: Identifier, from: Identifier, secret: seq<byte>, sharedWith: seq<Owner>,
                             clock: uint64, data: seq<byte>)

  datatype Response = Response(status: Status, clock: uint64, secret: seq<byte>, data: seq<byte>)

  const REJECTED: Response := Response(Error, 0, [], [])

  const PANICKED: Response := Response(Panicked, 0, [], [])

  // ---- The handlers as functions ----

  datatype State = State(files: map<Identifier, seq<byte>>, clock: uint64)

  datatype Reply = Reply(state: State, response: Response)

  /** The document under the request's key, if it is there and the sender is one of its owners. */
  function Authorized(files: map<Identifier, seq<byte>>, r: Request): Option<Document> {
    if r.key !in files then None
    else match Parse(files[r.key])
      case None => None
      case Some(d) => if LastSecret(d.owners, r.from).Some? then Some(d) else None
  }

  function Get(s: State, r: Request): Response {
    match Authorized(s.files, r)
    case None => REJECTED
    case Some(d) => Response(Ok, 0, LastSecret(d.owners, r.from).value, d.data)
  }

  function Creator(r: Request): Owner {
    Owner(r.from, r.secret)
  }

  function Post(s: State, r: Request): Reply {
    var t := Incremented(s.clock, r.clock);
    if r.key !in s.files then
      var d := Document([Creator(r)] + r.sharedWith, r.data);
      Reply(State(s.files[r.key := Build(d)], t), Response(Ok, t, [], []))
    else match Authorized(s.files, r)
      case None => Reply(State(s.files, t), REJECTED)
      case Some(d) =>
        var d' := Document(d.owners + r.sharedWith, r.data);
        Reply(State(s.files[r.key := Build(d')], t), Response(Ok, t, LastSecret(d.owners, r.from).value, []))
  }

  /** For a missing key the handler closes a nil reader. A file whose header cannot be read is refused before
      the clock moves. */
  function Delete(s: State, r: Request): Reply {
    if r.key !in s.files then Reply(s, PANICKED)
    else if Parse(s.files[r.key]).None? then Reply(s, REJECTED)
    else
      var t := Incremented(s.clock, r.clock);
      match Authorized(s.files, r)
      case None => Reply(State(s.files, t), REJECTED)
      case Some(d) =>
        Reply(State(s.files - {r.key}, t), Response(Ok, t, LastSecret(d.owners, r.from).value, []))
  }

  /** An accepted post or deletion is answered with the node's new clock, later than its old clock and than
      the request's; a refusal is answered with zero, and no request turns the clock back. */
  lemma AnswersCarryTheClock(s: State, r: Request)
    requires s.clock < WRAP - 1 && r.clock < WRAP - 1
    ensures var reply := Post(s, r);
      reply.state.clock > s.clock && reply.state.clock > r.clock
      && reply.response.clock == if reply.response.status == Ok then reply.state.clock else 0
    ensures var reply := Delete(s, r);
      reply.state.clock >= s.clock
      && reply.response.clock == (if reply.response.status == Ok then reply.state.clock else 0)
      && (reply.response.status == Ok ==> reply.state.clock > s.clock && reply.state.clock > r.clock)
  {
  }

  /** The creator of a file reads back what was posted exactly if the secret has 256 bytes. */
  lemma CreatorReadsBackIff(s: State, r: Request)
    requires r.key !in s.files && r.sharedWith == []
    ensures Get(Post(s, r).state, r) == Response(Ok, 0, r.secret, r.data) <==> |r.secret| == SECRET_LEN
  {
    var d := Document([Creator(r)], r.data);
    assert [Creator(r)] + [] == [Creator(r)];
    ParseBuildIff(d);
    assert FullSecrets([Creator(r)]) <==> |[Creator(r)][0].secret| == SECRET_LEN;
    if Parse(Build(d)).Some? {
      BuildParsed(Build(d));
      LastSecretIsNewest(Parse(Build(d)).value.owners, r.from);
    }
  }

  /** Posted without a secret, as the client posts its transaction log, the first 256 bytes of the data are
      taken for the secret, and shorter data cannot be read at all. */
  lemma SecretlessIsCutShort(s: State, r: Request)
    requires r.key !in s.files && r.sharedWith == [] && r.secret == []
    ensures Get(Post(s, r).state, r) ==
      if |r.data| < SECRET_LEN then REJECTED else Response(Ok, 0, r.data[..SECRET_LEN], r.data[SECRET_LEN..])
  {
    var file := Build(Document([Creator(r)] + [], r.data));
    assert Encode([Creator(r)] + []) == r.from + [] + [] by {
      assert ([Creator(r)] + [])[1..] == [];
    }
    assert file[1..] == r.from + r.data;
    var bytes := file[1..];
    assert |bytes| >= RECORD_LEN ==>
      bytes[..20] == r.from && bytes[20..RECORD_LEN] == r.data[..SECRET_LEN] && bytes[RECORD_LEN..] == r.data[SECRET_LEN..];
    assert |bytes| >= RECORD_LEN ==> ParseRecords(bytes, 1) == Some(Document([Owner(r.from, r.data[..SECRET_LEN])], r.data[SECRET_LEN..])) by {
      if |bytes| >= RECORD_LEN {
        assert ParseRecords(bytes[RECORD_LEN..], 0) == Some(Document([], bytes[RECORD_LEN..]));
        assert [Owner(r.from, r.data[..SECRET_LEN])] + [] == [Owner(r.from, r.data[..SECRET_LEN])];
      }
    }
  }

  // ---- The objects ----

  /** An open file with its read position. */
  class Reader {
    const contents: seq<byte>
    var pos: nat

    ghost predicate Valid()
      reads this
    {
      pos <= |contents|
    }

    ghost function Rest(): seq<byte>
      requires Valid()
      reads this
    {
      contents[pos..]
    }

    constructor (contents: seq<byte>)
      ensures Valid() && Rest() == contents
    {
      this.contents := contents;
      pos := 0;
    }

    /** Read at most n bytes; fewer only at the end of the file. */
    method Read(n: nat) returns (chunk: seq<byte>)
      requires Valid()
      modifies this
      ensures Valid() && old(Rest()) == chunk + Rest()
      ensures |chunk| == if |old(Rest())| < n then |old(Rest())| else n
    {
      var end := if pos + n <= |contents| then pos + n else |contents|;
      chunk := contents[pos..end];
      pos := end;
    }
  }

  class Store {
    var files: map<Identifier, seq<byte>>

    constructor ()
      ensures files == map[]
    {
      files := map[];
    }

    method Open(key: Identifier) returns (r: Option<Reader>)
      ensures r.Some? <==> key in files
      ensures r.Some? ==> fresh(r.value) && r.value.Valid() && r.value.Rest() == files[key]
    {
      if key !in files {
        return None;
      }
      var reader := new Reader(files[key]);
      return Some(reader);
    }

    /** Remove any existing file, then write a new one. */
    method Write(key: Identifier, data: seq<byte>)
      modifies this
      ensures files == old(files)[key := data]
    {
      files := files - {key};
      files := files[key := data];
    }

    method Remove(key: Identifier) returns (ok: bool)
      modifies this
      ensures ok <==> key in old(files)
      ensures files == old(files) - {key}
    {
      ok := key in files;
      files := files - {key};
    }
  }

  /** Read the owner list; the loop counter is a byte, as in the code. */
  method ReadOwners(buf: Reader) returns (r: Option<seq<Owner>>)
    requires buf.Valid()
    modifies buf
    ensures buf.Valid()
    ensures r.None? <==> Parse(old(buf.Rest())).None?
    ensures r.Some? ==> Parse(old(buf.Rest())) == Some(Document(r.value, buf.Rest()))
  {
    var ownerCount := buf.Read(1);
    if |ownerCount| != 1 {
      return None;
    }
    ghost var parsed := ParseRecords(buf.Rest(), ownerCount[0] as nat);
    assert Parse(old(buf.Rest())) == parsed by {
      assert old(buf.Rest())[1..] == buf.Rest();
    }
    assert parsed == Prepend([], parsed) by {
      assert parsed.Some? ==> [] + parsed.value.owners == parsed.value.owners;
    }
    var idSecrets: seq<Owner> := [];
    var i: byte := 0;
    while i < ownerCount[0]
      invariant buf.Valid() && i <= ownerCount[0]
      invariant parsed == Prepend(idSecrets, ParseRecords(buf.Rest(), (ownerCount[0] - i) as nat))
    {
      ghost var bytes := buf.Rest();
      var idSlice := buf.Read(20);
      if |idSlice| != 20 {
        return None;
      }
      var secretSlice := buf.Read(SECRET_LEN);
      if |secretSlice| != SECRET_LEN {
        return None;
      }
      assert bytes == idSlice + secretSlice + buf.Rest();
      assert bytes[..20] == idSlice && bytes[20..RECORD_LEN] == secretSlice && bytes[RECORD_LEN..] == buf.Rest();
      PrependTwice(idSecrets, Owner(idSlice, secretSlice), ParseRecords(buf.Rest(), (ownerCount[0] - i - 1) as nat));
      idSecrets := idSecrets + [Owner(idSlice, secretSlice)];
      i := i + 1;
    }
    assert idSecrets + [] == idSecrets;
    return Some(idSecrets);
  }

  lemma PrependTwice(owners: seq<Owner>, o: Owner, d: Option<Document>)
    ensures Prepend(owners, Prepend([o], d)) == Prepend(owners + [o], d)
  {
    if d.Some? {
      assert owners + ([o] + d.value.owners) == owners + [o] + d.value.owners;
    }
  }

  /** The owner search: the last match wins. */
  method FindSecret(idSecrets: seq<Owner>, id: Identifier) returns (found: Option<seq<byte>>)
    ensures found == LastSecret(idSecrets, id)
  {
    found := None;
    for i := 0 to |idSecrets|
      invariant found == LastSecret(idSecrets[..i], id)
    {
      assert idSecrets[..i + 1][..i] == idSecrets[..i];
      if idSecrets[i].id == id {
        found := Some(idSecrets[i].secret);
      }
    }
    assert idSecrets[..|idSecrets|] == idSecrets;
  }

  /** Read the rest of the file in pieces of 256 bytes. */
  method ReadAll(buf: Reader) returns (data: seq<byte>)
    requires buf.Valid()
    modifies buf
    ensures buf.Valid() && data == old(buf.Rest()) && buf.Rest() == []
  {
    data := [];
    var n: nat := 1;
    while n > 0
      invariant buf.Valid() && data + buf.Rest() == old(buf.Rest())
      invariant n == 0 ==> buf.Rest() == []
      decreases |buf.Rest()|, n
    {
      var tmp := buf.Read(256);
      n := |tmp|;
      data := data + tmp;
    }
    assert data + [] == data;
  }

  method AppendOwners(header: seq<byte>, owners: seq<Owner>) returns (r: seq<byte>)
    ensures r == header + Encode(owners)
  {
    r := header;
    for i := 0 to |owners|
      invariant r + Encode(owners[i..]) == header + Encode(owners)
    {
      assert owners[i..][0] == owners[i] && owners[i..][1..] == owners[i + 1..];
      var r' := r + owners[i].id + owners[i].secret;
      assert r' + Encode(owners[i + 1..]) == r + Encode(owners[i..]);
      r := r';
    }
    assert owners[|owners|..] == [];
  }

  lemma EncodeAppend(xs: seq<Owner>, ys: seq<Owner>)
    ensures Encode(xs + ys) == Encode(xs) + Encode(ys)
  {
    if xs == [] {
      assert xs + ys == ys;
    } else {
      assert (xs + ys)[1..] == xs[1..] + ys;
      EncodeAppend(xs[1..], ys);
    }
  }

  class Server {
    const store: Store
    const clock: Clock

    ghost function View(): State
      reads store, clock
    {
      State(store.files, clock.clock)
    }

    constructor ()
      ensures fresh(store) && fresh(clock) && View() == State(map[], 1)
    {
      store := new Store();
      clock := new Clock();
    }

    method GetFileHandler(r: Request) returns (response: Response)
      ensures View() == old(View())
      ensures response == Get(View(), r)
    {
      var buf := store.Open(r.key);
      if buf.None? {
        return REJECTED;
      }
      var idSecrets := ReadOwners(buf.value);
      if idSecrets.None? {
        return REJECTED;
      }
      var found := FindSecret(idSecrets.value, r.from);
      if found.None? {
        return REJECTED;
      }
      var data := ReadAll(buf.value);
      return Response(Ok, 0, found.value, data);
    }

    method PostFileHandler(r: Request) returns (response: Response)
      modifies store, clock
      ensures View() == Post(old(View()), r).state
      ensures response == Post(old(View()), r).response
    {
      var buf := store.Open(r.key);
      var timestamp := clock.IncrementClock(r.clock);
      if buf.None? {
        WriteDocument(r.key, [Creator(r)], r.sharedWith, r.data);
        return Response(Ok, timestamp, [], []);
      }
      var idSecrets := ReadOwners(buf.value);
      if idSecrets.None? {
        return REJECTED;
      }
      var found := FindSecret(idSecrets.value, r.from);
      if found.None? {
        return REJECTED;
      }
      WriteDocument(r.key, idSecrets.value, r.sharedWith, r.data);
      return Response(Ok, timestamp, found.value, []);
    }

    /** Put the header together from the count, the old owners and the new ones, and store the file. */
    method WriteDocument(key: Identifier, owners: seq<Owner>, sharedWith: seq<Owner>, data: seq<byte>)
      modifies store
      ensures store.files == old(store.files)[key := Build(Document(owners + sharedWith, data))]
    {
      var header := [((|owners| + |sharedWith|) % 256) as byte];
      header := AppendOwners(header, owners);
      header := AppendOwners(header, sharedWith);
      EncodeAppend(owners, sharedWith);
      assert header + data == Build(Document(owners + sharedWith, data));
      store.Write(key, header + data);
    }

    method DeleteFileHandler(r: Request) returns (response: Response)
      modifies store, clock
      ensures View() == Delete(old(View()), r).state
      ensures response == Delete(old(View()), r).response
    {
      var buf := store.Open(r.key);
      if buf.None? {
        return PANICKED;
      }
      var idSecrets := ReadOwners(buf.value);
      if idSecrets.None? {
        return REJECTED;
      }
      var timestamp := clock.IncrementClock(r.clock);
      var found := FindSecret(idSecrets.value, r.from);
      if found.None? {
        return REJECTED;
      }
      var ok := store.Remove(r.key);
      if !ok {
        return REJECTED;
      }
      return Response(Ok, timestamp, found.value, []);
    }
  }
}
