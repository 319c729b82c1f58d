/** The backup, share and getfile flows of the client (cmd/peerstore/client/main.go) against one storage
    node. RSA, SHA-1 and the AES block function are parameters with only the laws the flows rely on. */
module Client {
  import opened Bytes
  import opened Outcomes
  import opened Aes
  import opened FileFormat
  import opened FileServer

  /** A user is a key pair, named by a number. */
  type User = nat

  type SessionKey = s: seq<byte> | |s| == 32 witness seq(32, _ => 0 as byte)

  datatype Env = Env(
    /** Everybody with a key pair; finitely many, so that identifiers can tell them apart. */
    users: set<User>,
    aes: Cipher,
    /** EncryptRSA under a user's public key, with the random padding as the last argument. */
    wrap: (User, seq<byte>, nat) -> seq<byte>,
    /** DecryptRSA with a user's private key. */
    unwrap: (User, seq<byte>) -> Option<seq<byte>>,
    /** The hash of the encoded public key. */
    userId: User -> Identifier,
    /** fileToKeyIdentifier: the hash of the path. */
    fileKey: string -> Identifier)

  /** Each cipher can be undone, a 2048-bit RSA ciphertext has 256 bytes, and no two users share an identifier. */
  ghost predicate Lawful(env: Env) {
    && Invertible(env.aes)
    && (forall u: User, m: seq<byte>, n: nat :: |m| == 32 ==>
          |env.wrap(u, m, n)| == SECRET_LEN && env.unwrap(u, env.wrap(u, m, n)) == Some(m))
    && (forall u: User, w: User :: u in env.users && w in env.users && env.userId(u) == env.userId(w) ==> u == w)
  }

  // Parameters that meet the laws: a wrapped key carries the user's number and is padded to 256 bytes.

  function PlainWrap(u: User, m: seq<byte>): seq<byte> {
    m + [(u % 256) as byte] + seq(223, _ => 0 as byte)
  }

  function PlainUnwrap(u: User, s: seq<byte>): Option<seq<byte>> {
    if |s| == 256 && s[32] as nat == u % 256 then Some(s[..32]) else None
  }

  function PlainId(u: User): Identifier {
    [(u % 256) as byte] + seq(19, _ => 0 as byte)
  }

  lemma PlainWrapOpens(u: User, w: User, m: seq<byte>)
    requires |m| == 32
    ensures |PlainWrap(u, m)| == SECRET_LEN
    ensures PlainUnwrap(w, PlainWrap(u, m)) == if u % 256 == w % 256 then Some(m) else None
  {
    assert PlainWrap(u, m)[..32] == m && PlainWrap(u, m)[32] == (u % 256) as byte;
  }

  lemma PlainIdsDiffer(u: User, w: User)
    requires u < 256 && w < 256 && PlainId(u) == PlainId(w)
    ensures u == w
  {
    assert PlainId(u)[0] == PlainId(w)[0];
  }

  /** There are such parameters, for up to 256 users, with ciphertexts that only their own key opens. */
  lemma LawfulExists(count: nat) returns (env: Env)
    requires count <= 256
    ensures Lawful(env) && |env.users| == count
    ensures forall u: User, w: User, m: seq<byte>, n: nat ::
      u in env.users && w in env.users && u != w && |m| == 32 ==> env.unwrap(w, env.wrap(u, m, n)) == None
  {
    var aes := Cipher((key: seq<byte>, b: Block) => b, (key: seq<byte>, b: Block) => b);
    env := Env(FirstNumbers(count), aes,
      (u: User, m: seq<byte>, n: nat) => PlainWrap(u, m), (u: User, s: seq<byte>) => PlainUnwrap(u, s),
      (u: User) => PlainId(u), (path: string) => ZERO_ID);
    forall u: User, w: User, m: seq<byte> | |m| == 32
      ensures |PlainWrap(u, m)| == SECRET_LEN
      ensures PlainUnwrap(w, PlainWrap(u, m)) == if u % 256 == w % 256 then Some(m) else None
    {
      PlainWrapOpens(u, w, m);
    }
    forall u: User, w: User | u in env.users && w in env.users && PlainId(u) == PlainId(w) ensures u == w {
      PlainIdsDiffer(u, w);
    }
  }

  function FirstNumbers(n: nat): (r: set<User>)
    ensures |r| == n
    ensures forall u :: u in r ==> u < n
  {
    if n == 0 then {}
    else
      var r := FirstNumbers(n - 1);
      assert n - 1 !in r;
      r + {n - 1}
  }

  /** The random values that one backup may draw. */
  datatype Random = Random(sessionKey: SessionKey, nonce: nat, iv: Block)

  // ---- The flows as functions of the node's state ----

  function GetRequest(env: Env, u: User, path: string): Request {
    Request(env.fileKey(path), env.userId(u), [], [], 0, [])
  }

  /** The post that a backup sends, if it gets that far. The slice of a stored payload shorter than an
      initialization vector panics, which also sends nothing. */
  function BackupRequest(env: Env, s: State, u: User, path: string, plaintext: seq<byte>, rnd: Random): Option<Request> {
    var resp := Get(s, GetRequest(env, u, path));
    if resp.status == Error then
      Some(Request(env.fileKey(path), env.userId(u), env.wrap(u, rnd.sessionKey, rnd.nonce), [], 0,
                   rnd.iv + Sealed(env.aes, rnd.sessionKey, rnd.iv, plaintext)))
    else match env.unwrap(u, resp.secret)
      case None => None
      case Some(key) =>
        if |resp.data| < 16 || !KeySizeOk(key) then None
        else Some(Request(env.fileKey(path), env.userId(u), resp.secret, [], 0,
                          resp.data[..16] + Sealed(env.aes, key, resp.data[..16], plaintext)))
  }

  function ShareRequest(env: Env, s: State, u: User, path: string, withUser: User, nonce: nat): Option<Request> {
    var resp := Get(s, GetRequest(env, u, path));
    if resp.status == Error then None
    else match env.unwrap(u, resp.secret)
      case None => None
      case Some(key) =>
        Some(Request(env.fileKey(path), env.userId(u), resp.secret,
                     [Owner(env.userId(withUser), env.wrap(withUser, key, nonce))], 0, resp.data))
  }

  function Send(s: State, r: Option<Request>): State {
    if r.None? then s else Post(s, r.value).state
  }

  /** The bytes that getfile writes to its destination; None when it stops before that. */
  function Fetched(env: Env, s: State, u: User, path: string): Option<seq<byte>> {
    var resp := Get(s, GetRequest(env, u, path));
    if resp.status == Error then None
    else match env.unwrap(u, resp.secret)
      case None => None
      case Some(key) =>
        if |resp.data| < 16 then None
        else match Opened(env.aes, key, resp.data[16..], resp.data[..16])
          case Failure(_) => None
          case Success(text) => Some(if text.None? then [] else text.value)
  }

  // ---- The flows as the client runs them ----

  method Backup(env: Env, server: Server, u: User, path: string, plaintext: seq<byte>, rnd: Random)
    modifies server.store, server.clock
    ensures server.View() == Send(old(server.View()), BackupRequest(env, old(server.View()), u, path, plaintext, rnd))
  {
    var resp := server.GetFileHandler(GetRequest(env, u, path));
    var secret: seq<byte>, iv: Block, ciphertext: seq<byte> := [], rnd.iv, [];
    if resp.status == Error {
      secret := env.wrap(u, rnd.sessionKey, rnd.nonce);
      var sealed := Encrypt(env.aes, rnd.sessionKey, plaintext, rnd.iv);
      ciphertext, iv := sealed.value.0, sealed.value.1;
    } else {
      secret := resp.secret;
      var sessionKey := env.unwrap(u, secret);
      if sessionKey.None? || |resp.data| < 16 {
        return;
      }
      iv := resp.data[..16];
      var sealed := EncryptWithIV(env.aes, sessionKey.value, plaintext, iv);
      if sealed.Failure? {
        return;
      }
      ciphertext, iv := sealed.value.0, sealed.value.1;
    }
    ciphertext := iv + ciphertext;
    var _ := server.PostFileHandler(Request(env.fileKey(path), env.userId(u), secret, [], 0, ciphertext));
  }

  method Share(env: Env, server: Server, u: User, path: string, withUser: User, nonce: nat)
    modifies server.store, server.clock
    ensures server.View() == Send(old(server.View()), ShareRequest(env, old(server.View()), u, path, withUser, nonce))
  {
    var resp := server.GetFileHandler(GetRequest(env, u, path));
    if resp.status == Error {
      return;
    }
    var sKey := env.unwrap(u, resp.secret);
    if sKey.None? {
      return;
    }
    var encSessionKey := env.wrap(withUser, sKey.value, nonce);
    var sharedWith := [Owner(env.userId(withUser), encSessionKey)];
    var _ := server.PostFileHandler(
      Request(env.fileKey(path), env.userId(u), resp.secret, sharedWith, 0, resp.data));
  }

  method GetFile(env: Env, server: Server, u: User, path: string) returns (r: Option<seq<byte>>)
    ensures server.View() == old(server.View())
    ensures r == Fetched(env, server.View(), u, path)
  {
    var resp := server.GetFileHandler(GetRequest(env, u, path));
    if resp.status == Error {
      return None;
    }
    var sessionKey := env.unwrap(u, resp.secret);
    if sessionKey.None? || |resp.data| < 16 {
      return None;
    }
    ghost var before := server.View();
    var iv := resp.data[..16];
    var rest := resp.data[16..];
    var ciphertext := new byte[|rest|](i requires 0 <= i < |rest| => rest[i]);
    assert ciphertext[..] == rest;
    var plaintext := Decrypt(env.aes, sessionKey.value, ciphertext, iv);
    assert server.View() == before;
    if plaintext.Failure? {
      return None;
    }
    return Some(if plaintext.value.None? then [] else plaintext.value.value);
  }
}
